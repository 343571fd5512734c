/**
 * The recommendation pipeline of `recommendedInternships`: every record
 * of the catalog is scored and projected into a result view, the views
 * are sorted by score, highest first, with `Array.prototype.sort` (which
 * is stable), and the first five are kept.
 */
module Recommendation {
  import opened Common
  import opened Scoring
  import opened Internships

  /** How many recommendations are sent (`slice(0, 5)`). */
  const MaxRecommendations: nat := 5

  /** One entry of the `recommendations` array of the response. */
  datatype View = View(
    id: Id,
    title: string,
    company: string,
    location: string,
    stipend: Option<string>,
    applyLink: string,
    skillsMatched: seq<string>,
    matchScore: int)

  /**
   * The view of one record: its identity, program (as `title`),
   * organization (as `company`), location, stipend and apply link copied,
   * the exactly-matching skills, and the skill score. Neither the
   * `Math.round` of the already integral score nor the clamp
   * `Math.min(..., 100)` ever changes it.
   */
  function Project(userSkills: seq<string>, rec: Internship): (v: View)
    ensures v.matchScore == SkillScore(userSkills, rec.skills)
    ensures 0 <= v.matchScore <= 100
    ensures v.skillsMatched == MatchedSkills(userSkills, rec.skills)
    ensures v.id == rec.id && v.title == rec.program && v.company == rec.organization
    ensures v.location == rec.location && v.stipend == rec.stipend && v.applyLink == rec.applyLink
  {
    var skillScore := SkillScore(userSkills, rec.skills);
    var baseScore := RoundHalfUp(skillScore, 1);
    RoundHalfUpUnique(skillScore, 1, skillScore);
    View(rec.id, rec.program, rec.organization, rec.location, rec.stipend, rec.applyLink,
         MatchedSkills(userSkills, rec.skills), Min(baseScore, 100))
  }

  /** The views of the whole catalog, in catalog order, whatever each record's status. */
  function Views(userSkills: seq<string>, catalog: seq<Internship>): (views: seq<View>)
    ensures |views| == |catalog|
    ensures forall i :: 0 <= i < |catalog| ==> views[i] == Project(userSkills, catalog[i])
  {
    Map(rec => Project(userSkills, rec), catalog)
  }

  ghost predicate SortedByScore(vs: seq<View>)
  {
    forall i, j :: 0 <= i < j < |vs| ==> vs[i].matchScore >= vs[j].matchScore
  }

  /** The views with score `k`, in the order they appear in `vs`. */
  function WithScore(vs: seq<View>, k: int): (r: seq<View>)
  {
    if vs == [] then []
    else if vs[0].matchScore == k then [vs[0]] + WithScore(vs[1..], k)
    else WithScore(vs[1..], k)
  }

  lemma {:induction false} WithScoreAppend(a: seq<View>, b: seq<View>, k: int)
    ensures WithScore(a + b, k) == WithScore(a, k) + WithScore(b, k)
  {
    if a == [] {
      assert a + b == b;
    } else {
      assert (a + b)[1..] == a[1..] + b;
      WithScoreAppend(a[1..], b, k);
    }
  }

  /** Inserts `v` after the leading views that score at least as much. */
  function Insert(v: View, vs: seq<View>): (r: seq<View>)
    ensures multiset(r) == multiset(vs) + multiset{v}
  {
    if vs == [] then [v]
    else if vs[0].matchScore >= v.matchScore then
      assert vs == [vs[0]] + vs[1..];
      [vs[0]] + Insert(v, vs[1..])
    else
      [v] + vs
  }

  /** Inserting into a sorted list keeps it sorted. */
  lemma {:induction false} InsertSorted(v: View, vs: seq<View>)
    requires SortedByScore(vs)
    ensures SortedByScore(Insert(v, vs))
  {
    if vs != [] && vs[0].matchScore >= v.matchScore {
      SortedRest(vs);
      InsertSorted(v, vs[1..]);
      var rest := Insert(v, vs[1..]);
      forall w | w in rest
        ensures w.matchScore <= vs[0].matchScore
      {
        assert w in multiset(rest);
        if w != v {
          assert w in vs[1..];
          HeadIsMax(vs, w);
        }
      }
      InsertBehindHead(v, vs);
      SortedCons(vs[0], rest);
    }
  }

  /** A view scoring at least as much as every view of a sorted list can go in front of it. */
  lemma SortedCons(x: View, rest: seq<View>)
    requires SortedByScore(rest)
    requires forall w | w in rest :: w.matchScore <= x.matchScore
    ensures SortedByScore([x] + rest)
  {
    var r := [x] + rest;
    forall i, j | 0 <= i < j < |r|
      ensures r[i].matchScore >= r[j].matchScore
    {
      assert r[j] == rest[j - 1];
      if i > 0 {
        assert r[i] == rest[i - 1];
      }
    }
  }

  /**
   * `sort((a, b) => b.matchScore - a.matchScore)`: a stable sort, highest
   * score first, written as an insertion sort.
   */
  function SortByScore(vs: seq<View>): (r: seq<View>)
    ensures multiset(r) == multiset(vs)
    ensures |r| == |vs|
  {
    if vs == [] then []
    else
      assert vs == vs[..|vs| - 1] + [vs[|vs| - 1]];
      var r := Insert(vs[|vs| - 1], SortByScore(vs[..|vs| - 1]));
      assert |r| == |multiset(r)|;
      r
  }

  /** The sort orders the views by score, highest first. */
  lemma {:induction false} SortSorted(vs: seq<View>)
    ensures SortedByScore(SortByScore(vs))
  {
    if vs != [] {
      SortSorted(vs[..|vs| - 1]);
      InsertSorted(vs[|vs| - 1], SortByScore(vs[..|vs| - 1]));
    }
  }

  /**
   * A sorted list holds no view of a higher score than its head, so a
   * view scoring more than the head has no equal-score views in it.
   */
  lemma {:induction false} NoneAboveHead(vs: seq<View>, k: int)
    requires SortedByScore(vs) && vs != [] && vs[0].matchScore < k
    ensures WithScore(vs, k) == []
  {
    if |vs| > 1 {
      assert SortedByScore(vs[1..]);
      NoneAboveHead(vs[1..], k);
    }
  }

  /** A list's views of score `k` are its head, if it scores `k`, then those of its tail. */
  lemma WithScoreCons(x: View, rest: seq<View>, k: int)
    ensures WithScore([x] + rest, k) == (if x.matchScore == k then [x] else []) + WithScore(rest, k)
  {
    assert ([x] + rest)[1..] == rest;
  }

  /** Only the views of score `k` make up `WithScore(vs, k)`. */
  lemma {:induction false} WithScoreMember(vs: seq<View>, k: int, w: View)
    requires w in WithScore(vs, k)
    ensures w in vs && w.matchScore == k
  {
    if vs[0].matchScore == k && w == vs[0] {
    } else {
      WithScoreMember(vs[1..], k, w);
    }
  }

  /** The tail of a sorted list is sorted. */
  lemma SortedRest(vs: seq<View>)
    requires SortedByScore(vs) && vs != []
    ensures SortedByScore(vs[1..])
  {
  }

  /** No view of a sorted list scores more than its head. */
  lemma HeadIsMax(vs: seq<View>, w: View)
    requires SortedByScore(vs) && w in vs
    ensures w.matchScore <= vs[0].matchScore
  {
  }

  /** Insertion puts the new view after every view of the same score. */
  lemma {:induction false} InsertStable(v: View, vs: seq<View>, k: int)
    requires SortedByScore(vs)
    ensures WithScore(Insert(v, vs), k) == WithScore(vs, k) + (if v.matchScore == k then [v] else [])
  {
    if vs == [] {
      WithScoreCons(v, [], k);
      assert (if v.matchScore == k then [v] else []) + [] == [] + (if v.matchScore == k then [v] else []);
    } else if vs[0].matchScore >= v.matchScore {
      SortedRest(vs);
      InsertStable(v, vs[1..], k);
      InsertStableStep(v, vs, k);
    } else {
      InsertStableFront(v, vs, k);
    }
  }

  /** Inserting behind the head keeps the head's place among the views of score `k`. */
  lemma InsertStableStep(v: View, vs: seq<View>, k: int)
    requires vs != [] && vs[0].matchScore >= v.matchScore
    requires WithScore(Insert(v, vs[1..]), k) == WithScore(vs[1..], k) + (if v.matchScore == k then [v] else [])
    ensures WithScore(Insert(v, vs), k) == WithScore(vs, k) + (if v.matchScore == k then [v] else [])
  {
    var head, tail := vs[0], vs[1..];
    var mine := if v.matchScore == k then [v] else [];
    var own := if head.matchScore == k then [head] else [];
    calc {
      WithScore(Insert(v, vs), k);
      { InsertBehindHead(v, vs); }
      WithScore([head] + Insert(v, tail), k);
      { WithScoreCons(head, Insert(v, tail), k); }
      own + WithScore(Insert(v, tail), k);
      own + (WithScore(tail, k) + mine);
      { assert own + (WithScore(tail, k) + mine) == (own + WithScore(tail, k)) + mine; }
      (own + WithScore(tail, k)) + mine;
      { WithScoreCons(head, tail, k); SplitFirst(vs); }
      WithScore(vs, k) + mine;
    }
  }

  /** A view scoring more than the head of a sorted list goes first and is the only one of its score. */
  lemma InsertStableFront(v: View, vs: seq<View>, k: int)
    requires SortedByScore(vs) && vs != [] && vs[0].matchScore < v.matchScore
    ensures WithScore(Insert(v, vs), k) == WithScore(vs, k) + (if v.matchScore == k then [v] else [])
  {
    WithScoreCons(v, vs, k);
    if v.matchScore == k {
      NoneAboveHead(vs, k);
      assert [v] + [] == [] + [v];
    } else {
      assert [] + WithScore(vs, k) == WithScore(vs, k) + [];
    }
  }

  /** A view scoring no more than the head goes somewhere behind it. */
  lemma InsertBehindHead(v: View, vs: seq<View>)
    requires vs != [] && vs[0].matchScore >= v.matchScore
    ensures Insert(v, vs) == [vs[0]] + Insert(v, vs[1..])
  {
  }

  /**
   * The sort is stable: for every score, the views with that score come
   * out in the order they went in.
   */
  lemma {:induction false} SortStable(vs: seq<View>, k: int)
    ensures WithScore(SortByScore(vs), k) == WithScore(vs, k)
  {
    if vs != [] {
      var init, last := vs[..|vs| - 1], vs[|vs| - 1];
      SortByScoreLast(vs);
      SortSorted(init);
      InsertStable(last, SortByScore(init), k);
      SortStable(init, k);
      WithScoreSnoc(init, last, k);
      SplitLast(vs);
    }
  }

  /** The sort inserts the last view into the sorted rest. */
  lemma SortByScoreLast(vs: seq<View>)
    requires vs != []
    ensures SortByScore(vs) == Insert(vs[|vs| - 1], SortByScore(vs[..|vs| - 1]))
  {
  }

  /** A list's views of score `k` are those of its front, then its last view if it scores `k`. */
  lemma WithScoreSnoc(init: seq<View>, last: View, k: int)
    ensures WithScore(init + [last], k) == WithScore(init, k) + (if last.matchScore == k then [last] else [])
  {
    WithScoreAppend(init, [last], k);
    WithScoreCons(last, [], k);
    assert [last] + [] == [last];
  }

  /**
   * Any stable descending sort gives the same result: two sorted lists
   * that agree, score by score, on the order of their views are equal.
   * So the insertion sort above stands for `Array.prototype.sort` whatever
   * algorithm the engine uses.
   */
  lemma {:induction false} StableSortIsUnique(r: seq<View>, t: seq<View>)
    requires SortedByScore(r) && SortedByScore(t)
    requires forall k :: WithScore(r, k) == WithScore(t, k)
    ensures r == t
    decreases |r| + |t|
  {
    if r == [] && t == [] {
    } else if r == [] || t == [] {
      HeadScoreFound(r);
      HeadScoreFound(t);
      assert false;
    } else {
      assert WithScore(r, r[0].matchScore) == WithScore(t, r[0].matchScore);
      assert WithScore(r, t[0].matchScore) == WithScore(t, t[0].matchScore);
      SameHead(r, t);
      forall k
        ensures WithScore(r[1..], k) == WithScore(t[1..], k)
      {
        assert WithScore(r, k) == WithScore(t, k);
        SameTail(r, t, k);
      }
      SortedRest(r);
      SortedRest(t);
      StableSortIsUnique(r[1..], t[1..]);
      assert r == [r[0]] + r[1..] && t == [t[0]] + t[1..];
    }
  }

  /** A non-empty list has views of its head's score. */
  lemma HeadScoreFound(vs: seq<View>)
    ensures vs != [] ==> WithScore(vs, vs[0].matchScore) != []
  {
  }

  /** Two sorted lists whose heads' scores pick out the same views start alike. */
  lemma SameHead(r: seq<View>, t: seq<View>)
    requires SortedByScore(r) && SortedByScore(t) && r != [] && t != []
    requires WithScore(r, r[0].matchScore) == WithScore(t, r[0].matchScore)
    requires WithScore(r, t[0].matchScore) == WithScore(t, t[0].matchScore)
    ensures r[0] == t[0]
  {
    var a, b := r[0].matchScore, t[0].matchScore;
    assert r == [r[0]] + r[1..] && t == [t[0]] + t[1..];
    assert a == b by {
      WithScoreCons(r[0], r[1..], a);
      WithScoreCons(t[0], t[1..], b);
      WithScoreMember(t, a, r[0]);
      WithScoreMember(r, b, t[0]);
      HeadIsMax(t, r[0]);
      HeadIsMax(r, t[0]);
    }
    WithScoreCons(r[0], r[1..], a);
    WithScoreCons(t[0], t[1..], a);
    assert WithScore(r, a)[0] == r[0];
  }

  /** Lists with the same head and the same views of score `k` agree on those of their tails. */
  lemma SameTail(r: seq<View>, t: seq<View>, k: int)
    requires r != [] && t != [] && r[0] == t[0]
    requires WithScore(r, k) == WithScore(t, k)
    ensures WithScore(r[1..], k) == WithScore(t[1..], k)
  {
    WithScoreCons(r[0], r[1..], k);
    WithScoreCons(t[0], t[1..], k);
    assert r == [r[0]] + r[1..] && t == [t[0]] + t[1..];
    if r[0].matchScore == k {
      assert WithScore(r[1..], k) == WithScore(r, k)[1..];
      assert WithScore(t[1..], k) == WithScore(t, k)[1..];
    }
  }

  /**
   * The response's `recommendations`: all internships scored against the
   * user's skills, sorted by score (stable), the first five kept.
   */
  function Recommend(userSkills: seq<string>, catalog: seq<Internship>): (r: seq<View>)
    ensures |r| == Min(MaxRecommendations, |catalog|)
  {
    var sorted := SortByScore(Views(userSkills, catalog));
    sorted[..Min(MaxRecommendations, |sorted|)]
  }

  /** The recommendations are the sorted views, split after the first five. */
  lemma RecommendSplits(userSkills: seq<string>, catalog: seq<Internship>)
    ensures SortByScore(Views(userSkills, catalog))
         == Recommend(userSkills, catalog) + Dropped(userSkills, catalog)
  {
  }

  /** The sorted views that do not make it into the response. */
  function Dropped(userSkills: seq<string>, catalog: seq<Internship>): (d: seq<View>)
    ensures |d| == |catalog| - Min(MaxRecommendations, |catalog|)
  {
    var sorted := SortByScore(Views(userSkills, catalog));
    sorted[Min(MaxRecommendations, |sorted|)..]
  }

  /** Recommendations come highest score first. */
  lemma RecommendSorted(userSkills: seq<string>, catalog: seq<Internship>)
    ensures SortedByScore(Recommend(userSkills, catalog))
  {
    SortSorted(Views(userSkills, catalog));
  }

  /**
   * Every recommendation is the view of a catalog record (of any
   * status), and no record is recommended more often than it occurs.
   */
  lemma RecommendFromCatalog(userSkills: seq<string>, catalog: seq<Internship>)
    ensures multiset(Recommend(userSkills, catalog)) <= multiset(Views(userSkills, catalog))
    ensures forall v :: v in Recommend(userSkills, catalog) ==>
      exists j :: 0 <= j < |catalog| && v == Project(userSkills, catalog[j])
  {
    var views := Views(userSkills, catalog);
    var r := Recommend(userSkills, catalog);
    RecommendSplits(userSkills, catalog);
    assert multiset(r) <= multiset(views) by {
      assert multiset(SortByScore(views)) == multiset(r) + multiset(Dropped(userSkills, catalog));
    }
    forall v | v in r
      ensures exists j :: 0 <= j < |catalog| && v == Project(userSkills, catalog[j])
    {
      assert v in multiset(views);
      var j :| 0 <= j < |views| && views[j] == v;
    }
  }

  /** Every recommendation carries a score between 0 and 100. */
  lemma RecommendScoresBounded(userSkills: seq<string>, catalog: seq<Internship>)
    ensures forall v :: v in Recommend(userSkills, catalog) ==> 0 <= v.matchScore <= 100
  {
    RecommendFromCatalog(userSkills, catalog);
  }

  /**
   * No view left out scores more than any view kept: the five (or fewer)
   * recommendations are the best-scoring records.
   */
  lemma RecommendKeepsBest(userSkills: seq<string>, catalog: seq<Internship>, v: View, w: View)
    requires v in Recommend(userSkills, catalog)
    requires multiset(Recommend(userSkills, catalog))[w] < multiset(Views(userSkills, catalog))[w]
    ensures w.matchScore <= v.matchScore
  {
    var sorted := SortByScore(Views(userSkills, catalog));
    SortSorted(Views(userSkills, catalog));
    PrefixKeepsBest(sorted, Min(MaxRecommendations, |sorted|), v, w);
  }

  /** In a sorted list, what lies beyond a prefix scores no more than what is in it. */
  lemma PrefixKeepsBest(sorted: seq<View>, m: nat, v: View, w: View)
    requires SortedByScore(sorted) && m <= |sorted|
    requires v in sorted[..m]
    requires multiset(sorted[..m])[w] < multiset(sorted)[w]
    ensures w.matchScore <= v.matchScore
  {
    var r, d := sorted[..m], sorted[m..];
    assert w in d by {
      assert sorted == r + d;
      assert multiset(sorted) == multiset(r) + multiset(d);
    }
    var i := IndexOf(r, v);
    var j := IndexOf(d, w);
    SortedAt(sorted, i, m + j);
  }

  lemma IndexOf(vs: seq<View>, v: View) returns (i: nat)
    requires v in vs
    ensures i < |vs| && vs[i] == v
  {
    i :| i < |vs| && vs[i] == v;
  }

  lemma SortedAt(vs: seq<View>, i: int, j: int)
    requires SortedByScore(vs) && 0 <= i < j < |vs|
    ensures vs[i].matchScore >= vs[j].matchScore
  {
  }

  /**
   * The order among equally scored recommendations is catalog order: for
   * every score, the recommendations with it are the first of the
   * catalog's views with it.
   */
  lemma RecommendStable(userSkills: seq<string>, catalog: seq<Internship>, k: int)
    ensures WithScore(Views(userSkills, catalog), k)
         == WithScore(Recommend(userSkills, catalog), k) + WithScore(Dropped(userSkills, catalog), k)
  {
    var views := Views(userSkills, catalog);
    RecommendSplits(userSkills, catalog);
    SortStable(views, k);
    WithScoreAppend(Recommend(userSkills, catalog), Dropped(userSkills, catalog), k);
  }

  /** A catalog of five records or fewer is recommended whole. */
  lemma RecommendAllWhenFew(userSkills: seq<string>, catalog: seq<Internship>)
    requires |catalog| <= MaxRecommendations
    ensures multiset(Recommend(userSkills, catalog)) == multiset(Views(userSkills, catalog))
  {
    assert Recommend(userSkills, catalog) == SortByScore(Views(userSkills, catalog));
  }
}
