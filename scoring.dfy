/**
 * The skill matcher of the recommender: `computeSkillScore` and the
 * `skillsMatched` projection (internshipController.js).
 */
module Scoring {
  import opened Common
  import opened Text

  /** The user's skills, lower-cased into a set (`new Set(userSkills.map(toLowerCase))`). */
  function SkillSet(userSkills: seq<string>): set<string>
  {
    set s | s in userSkills :: Lower(s)
  }

  /**
   * How many entries of the internship's lower-cased skill list are in
   * the user's skill set; a skill listed twice is counted twice.
   */
  function Overlap(userSkills: seq<string>, internshipSkills: seq<string>): (n: nat)
    ensures n <= |internshipSkills|
  {
    var userSet := SkillSet(userSkills);
    |Filter(s => s in userSet, LowerAll(internshipSkills))|
  }

  /**
   * `Math.round(num / den)` for a non-negative ratio: the integer
   * nearest to num / den, halves going up. The result r satisfies
   * r - 1/2 <= num / den < r + 1/2.
   */
  function RoundHalfUp(num: nat, den: nat): (r: nat)
    requires den > 0
    ensures IsRounding(r, num, den)
  {
    var q := (2 * num + den) / (2 * den);
    assert 2 * den * q <= 2 * num + den < 2 * den * q + 2 * den by {
      DivBounds(2 * num + den, 2 * den);
    }
    q
  }

  /** r - 1/2 <= num / den < r + 1/2, multiplied out by 2 * den. */
  ghost predicate IsRounding(r: int, num: nat, den: nat)
  {
    den * (2 * r - 1) <= 2 * num < den * (2 * r + 1)
  }

  lemma DivBounds(a: nat, b: nat)
    requires b > 0
    ensures b * (a / b) <= a < b * (a / b) + b
  {
  }

  /** Only one integer lies within half a unit of num / den, half-open upwards. */
  lemma RoundHalfUpUnique(num: nat, den: nat, r: int)
    requires den > 0
    requires IsRounding(r, num, den)
    ensures r == RoundHalfUp(num, den)
  {
    RoundingUnique(num, den, r, RoundHalfUp(num, den));
  }

  /** Two integers within half a unit of the same ratio are equal. */
  lemma RoundingUnique(num: nat, den: nat, r: int, q: int)
    requires den > 0
    requires IsRounding(r, num, den) && IsRounding(q, num, den)
    ensures r == q
  {
    if r < q {
      BelowRounding(num, den, r, q);
    } else if q < r {
      BelowRounding(num, den, q, r);
    }
  }

  /** A smaller integer's upper bound lies at or below a larger one's lower bound. */
  lemma BelowRounding(num: nat, den: nat, lo: int, hi: int)
    requires den > 0 && lo < hi
    requires IsRounding(lo, num, den)
    ensures !IsRounding(hi, num, den)
  {
    MulMonotone(den, 2 * lo + 1, 2 * hi - 1);
    assert den * (2 * lo + 1) <= den * (2 * hi - 1);
  }

  lemma MulMonotone(k: nat, a: int, b: int)
    requires a <= b
    ensures k * a <= k * b
  {
  }

  /**
   * `computeSkillScore`: the percentage of the internship's listed skills
   * that the user has (case-insensitively), rounded half up; an
   * internship that lists no skills scores 0.
   */
  function SkillScore(userSkills: seq<string>, internshipSkills: seq<string>): (score: nat)
    ensures score <= 100
    ensures internshipSkills == [] ==> score == 0
    ensures internshipSkills != [] ==>
      IsRounding(score, 100 * Overlap(userSkills, internshipSkills), |internshipSkills|)
  {
    var len := |internshipSkills|;
    if len == 0 then 0
    else
      var overlap := Overlap(userSkills, internshipSkills);
      var score := RoundHalfUp(100 * overlap, len);
      ScoreAtMostHundred(len, overlap, score);
      score
  }

  /** A rounded ratio overlap / len with overlap <= len is at most 100 percent. */
  lemma ScoreAtMostHundred(len: nat, overlap: nat, score: int)
    requires 0 < len && overlap <= len
    requires IsRounding(score, 100 * overlap, len)
    ensures score <= 100
  {
    if score > 100 {
      MulMonotone(len, 201, 2 * score - 1);
    }
  }

  /**
   * `internship.skills.filter(s => userSkills.includes(s))`: the
   * internship's skills, original casing and order kept, that occur
   * verbatim (case-sensitively) in the user's list.
   */
  function MatchedSkills(userSkills: seq<string>, internshipSkills: seq<string>): (matched: seq<string>)
    ensures IsSubseq(matched, internshipSkills)
    ensures forall s :: s in matched ==> s in userSkills
    ensures forall s :: s in internshipSkills ==>
      multiset(matched)[s] == if s in userSkills then multiset(internshipSkills)[s] else 0
  {
    FilterSpec(s => s in userSkills, internshipSkills);
    Filter(s => s in userSkills, internshipSkills)
  }

  /** Lower-casing the user's skills first does not change the score. */
  lemma {:induction false} ScoreIgnoresUserCase(userSkills: seq<string>, internshipSkills: seq<string>)
    ensures SkillScore(LowerAll(userSkills), internshipSkills) == SkillScore(userSkills, internshipSkills)
  {
    var lowered := LowerAll(userSkills);
    forall x
      ensures x in SkillSet(lowered) <==> x in SkillSet(userSkills)
    {
      if x in SkillSet(lowered) {
        var i :| 0 <= i < |lowered| && x == Lower(lowered[i]);
        LowerIdempotent(userSkills[i]);
        assert userSkills[i] in userSkills;
      }
      if x in SkillSet(userSkills) {
        var t :| t in userSkills && x == Lower(t);
        var i :| 0 <= i < |userSkills| && userSkills[i] == t;
        LowerIdempotent(t);
        assert lowered[i] in lowered;
      }
    }
    assert SkillSet(lowered) == SkillSet(userSkills);
  }

  /** Lower-casing the internship's skills first does not change the score. */
  lemma {:induction false} ScoreIgnoresInternshipCase(userSkills: seq<string>, internshipSkills: seq<string>)
    ensures SkillScore(userSkills, LowerAll(internshipSkills)) == SkillScore(userSkills, internshipSkills)
  {
    LowerAllIdempotent(internshipSkills);
  }

  /**
   * Every skill reported as matched is also counted by the score: the
   * exact, case-sensitive match never finds more than the case-blind count.
   */
  lemma {:induction false} MatchedWithinOverlap(userSkills: seq<string>, internshipSkills: seq<string>)
    ensures |MatchedSkills(userSkills, internshipSkills)| <= Overlap(userSkills, internshipSkills)
  {
    var s := internshipSkills;
    if s != [] {
      MatchedWithinOverlap(userSkills, s[1..]);
      var userSet := SkillSet(userSkills);
      assert LowerAll(s) == [Lower(s[0])] + LowerAll(s[1..]);
      assert s[0] in userSkills ==> Lower(s[0]) in userSet;
    }
  }

  /** The overlap counts the internship's skill list entry by entry. */
  lemma OverlapCons(userSkills: seq<string>, skill: string, rest: seq<string>)
    ensures Overlap(userSkills, [skill] + rest)
         == (if Lower(skill) in SkillSet(userSkills) then 1 else 0) + Overlap(userSkills, rest)
  {
    assert LowerAll([skill] + rest) == [Lower(skill)] + LowerAll(rest);
  }

  /**
   * Matching is case-blind for the score and case-sensitive for
   * `skillsMatched`: a user listing "Python" scores 100 on an internship
   * asking for "python", yet is shown no matched skill.
   */
  lemma CaseSensitiveMatchExample()
    ensures SkillScore(["Python"], ["python"]) == 100
    ensures MatchedSkills(["Python"], ["python"]) == []
  {
    var user := ["Python"];
    assert Lower("Python") == "python" && Lower("python") == "python";
    assert "python" in SkillSet(user);
    OverlapCons(user, "python", []);
    assert Overlap(user, ["python"]) == 1;
    RoundHalfUpUnique(100, 1, 100);
  }

  /** round(2/3 * 100) = 67. */
  lemma TwoOfThreeExample()
    ensures SkillScore(["Python", "SQL"], ["python", "sql", "excel"]) == 67
  {
    var user := ["Python", "SQL"];
    assert Overlap(user, ["python", "sql", "excel"]) == 2 by {
      ExampleWordsLowered();
      SkillSetPair("Python", "SQL");
      OverlapCons(user, "excel", []);
      OverlapCons(user, "sql", ["excel"]);
      OverlapCons(user, "python", ["sql", "excel"]);
    }
    RoundHalfUpUnique(200, 3, 67);
  }

  lemma ExampleWordsLowered()
    ensures Lower("Python") == Lower("python") == "python"
    ensures Lower("SQL") == Lower("sql") == "sql"
    ensures Lower("excel") == "excel"
  {
  }

  lemma SkillSetPair(a: string, b: string)
    ensures SkillSet([a, b]) == {Lower(a), Lower(b)}
  {
    assert a in [a, b] && b in [a, b];
  }

  /** Every occurrence of a listed skill counts: three spellings of "java" give 3 of 3. */
  lemma DuplicatesCountedExample()
    ensures SkillScore(["java"], ["Java", "JAVA", "java"]) == 100
  {
    var user := ["java"];
    assert Lower("Java") == "java" && Lower("JAVA") == "java" && Lower("java") == "java";
    assert "java" in SkillSet(user);
    OverlapCons(user, "java", []);
    OverlapCons(user, "JAVA", ["java"]);
    OverlapCons(user, "Java", ["JAVA", "java"]);
    assert Overlap(user, ["Java", "JAVA", "java"]) == 3;
    RoundHalfUpUnique(300, 3, 100);
  }
}
