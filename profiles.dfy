/**
 * userController.js: reading a profile, and `updateUserProfile`, which
 * turns a loosely typed request body into the set of fields to write
 * (`profileFields`) and merges it into the stored user with `$set`.
 */
module Profiles {
  import opened Common
  import opened Text
  import opened Internships

  /** A JavaScript value as it arrives in a JSON request body; `Undefined` is an absent property. */
  datatype Json =
    | Undefined
    | Null
    | Bool(b: bool)
    | Num(n: int)
    | Str(s: string)
    | Arr(items: seq<Json>)
    | Obj(fields: map<string, Json>)

  /** JavaScript truthiness: `undefined`, `null`, `false`, `0` and `""` are falsy. */
  predicate Truthy(j: Json)
  {
    match j
    case Undefined => false
    case Null => false
    case Bool(b) => b
    case Num(n) => n != 0
    case Str(s) => s != ""
    case Arr(_) => true
    case Obj(_) => true
  }

  /** Reading property `key` of an object: `undefined` when it has none. */
  function Get(obj: map<string, Json>, key: string): Json
  {
    if key in obj then obj[key] else Undefined
  }

  /** Reading property `key` of any value; only objects carry the properties asked for here. */
  function Field(j: Json, key: string): Json
  {
    if j.Obj? then Get(j.fields, key) else Undefined
  }

  /** The top-level fields copied whenever they are defined (the empty string included). */
  const OptionalKeys: set<string> := {"fullName", "portfolioLink", "resumeLink"}

  /** The sub-fields of `education` copied whenever they are defined. */
  const EducationKeys: set<string> := {"university", "degree", "graduationYear"}

  /** Every field an update may write. */
  const ProfileKeys: set<string> := OptionalKeys + {"skills", "education", "experience"}

  /**
   * `skills.split(',').map(skill => skill.trim()).filter(skill => skill)`:
   * the comma-separated entries, trimmed, empty ones dropped.
   */
  function ParseSkillString(s: string): seq<string>
  {
    Filter((e: string) => e != "", Map(Trim, Split(s, ',')))
  }

  /** Parsed skills are never empty, never padded with whitespace and never hold a comma. */
  lemma ParsedSkillsClean(s: string)
    ensures forall e :: e in ParseSkillString(s) ==> e != "" && IsTrimmed(e) && ',' !in e
  {
    var pieces := Split(s, ',');
    var trimmed := Map(Trim, pieces);
    forall e | e in ParseSkillString(s)
      ensures e != "" && IsTrimmed(e) && ',' !in e
    {
      var i :| 0 <= i < |trimmed| && trimmed[i] == e;
      assert pieces[i] in pieces;
    }
  }

  /** A leading blank in front of the list does not change what is parsed. */
  lemma ParseLeadingSpace(s: string)
    ensures ParseSkillString(" " + s) == ParseSkillString(s)
  {
    var pieces, spaced := Split(s, ','), Split(" " + s, ',');
    assert (" " + s)[0] == ' ' && (" " + s)[1..] == s;
    assert spaced == [" " + pieces[0]] + pieces[1..];
    TrimLeadingSpace(pieces[0]);
    assert pieces == [pieces[0]] + pieces[1..];
    MapCons(Trim, " " + pieces[0], pieces[1..]);
    MapCons(Trim, pieces[0], pieces[1..]);
  }

  /**
   * The profile page shows the stored skills as `skills.join(', ')`;
   * saving that text unchanged stores the same list again, provided no
   * skill is empty, padded with whitespace or holds a comma.
   */
  lemma {:induction false} ParseJoinRoundTrip(skills: seq<string>)
    requires forall e :: e in skills ==> e != "" && IsTrimmed(e) && ',' !in e
    ensures ParseSkillString(Join(skills, ", ")) == skills
  {
    if skills == [] {
      assert Map(Trim, Split("", ',')) == [Trim("")];
    } else if |skills| == 1 {
      var e := skills[0];
      assert e in skills;
      SplitNoSeparator(e, ',');
      TrimTrimmed(e);
      assert Map(Trim, [e]) == [e];
    } else {
      var e := skills[0];
      assert e in skills;
      assert forall x :: x in skills[1..] ==> x in skills;
      ParseJoinRoundTrip(skills[1..]);
      ParseCleanHead(e, Join(skills[1..], ", "));
    }
  }

  /** A clean skill followed by ", " is parsed as that skill, then the rest. */
  lemma ParseCleanHead(e: string, rest: string)
    requires e != "" && IsTrimmed(e) && ',' !in e
    ensures ParseSkillString(e + ", " + rest) == [e] + ParseSkillString(rest)
  {
    assert e + ", " + rest == e + [','] + (" " + rest);
    SplitFirstPiece(e, ',', " " + rest);
    TrimTrimmed(e);
    ParseLeadingSpace(rest);
    MapCons(Trim, e, Split(" " + rest, ','));
  }

  /** A list of strings as a JSON array. */
  function StrArray(ss: seq<string>): (j: Json)
    ensures j.Arr? && |j.items| == |ss|
    ensures forall i :: 0 <= i < |ss| ==> j.items[i] == Str(ss[i])
  {
    Arr(Map(AsStr, ss))
  }

  function AsStr(s: string): Json
  {
    Str(s)
  }

  /** The `skills` value of the update, if any: parsed from a string, or filtered from an array. */
  function SkillsUpdate(skills: Json): Option<Json>
  {
    match skills
    case Str(s) => Some(StrArray(ParseSkillString(s)))
    case Arr(items) => Some(Arr(Filter(Truthy, items)))
    case _ => None
  }

  /** A property value, if it is defined. */
  function Defined(j: Json): Option<Json>
  {
    if j != Undefined then Some(j) else None
  }

  /** `m` with `key` set to the value in `v`, if there is one. */
  function Put(m: map<string, Json>, key: string, v: Option<Json>): map<string, Json>
  {
    if v.Some? then m[key := v.value] else m
  }

  lemma PutSpec(m: map<string, Json>, key: string, v: Option<Json>)
    ensures forall k :: k in Put(m, key, v) <==> (k == key && v.Some?) || k in m
    ensures forall k :: k in Put(m, key, v) ==> Put(m, key, v)[k] == if k == key && v.Some? then v.value else m[k]
  {
  }

  /** `PutSpec` at one property. */
  lemma PutAt(m: map<string, Json>, key: string, v: Option<Json>, k: string)
    ensures k in Put(m, key, v) <==> (k == key && v.Some?) || k in m
    ensures k in Put(m, key, v) ==> Put(m, key, v)[k] == if k == key && v.Some? then v.value else m[k]
  {
  }

  /**
   * The `education` value of the update, if any: for a truthy value, an
   * object holding exactly the sub-fields it defines.
   */
  function EducationUpdate(education: Json): (update: Option<Json>)
    ensures update.Some? <==> Truthy(education)
    ensures update.Some? ==> update.value.Obj?
    ensures update.Some? ==> forall k :: k in update.value.fields <==>
      k in EducationKeys && Field(education, k) != Undefined
    ensures update.Some? ==> forall k :: k in update.value.fields ==>
      update.value.fields[k] == Field(education, k)
  {
    if Truthy(education) then
      var withUniversity := Put(map[], "university", Defined(Field(education, "university")));
      var withDegree := Put(withUniversity, "degree", Defined(Field(education, "degree")));
      PutSpec(map[], "university", Defined(Field(education, "university")));
      PutSpec(withUniversity, "degree", Defined(Field(education, "degree")));
      PutSpec(withDegree, "graduationYear", Defined(Field(education, "graduationYear")));
      Some(Obj(Put(withDegree, "graduationYear", Defined(Field(education, "graduationYear")))))
    else None
  }

  /** The `experience` value of the update, if any: an array, as it is. */
  function ExperienceUpdate(experience: Json): Option<Json>
  {
    if Truthy(experience) && experience.Arr? then Some(experience) else None
  }

  /** What the update writes to field `key`, if anything. */
  function FieldUpdate(body: map<string, Json>, key: string): Option<Json>
  {
    var value := Get(body, key);
    if key in OptionalKeys then Defined(value)
    else if key == "skills" then SkillsUpdate(value)
    else if key == "education" then EducationUpdate(value)
    else if key == "experience" then ExperienceUpdate(value)
    else None
  }

  /** `profileFields`: the handler's six conditional writes, in its order. */
  function ProfileFields(body: map<string, Json>): map<string, Json>
  {
    var f1 := Put(map[], "fullName", Defined(Get(body, "fullName")));
    var f2 := Put(f1, "portfolioLink", Defined(Get(body, "portfolioLink")));
    var f3 := Put(f2, "resumeLink", Defined(Get(body, "resumeLink")));
    var f4 := Put(f3, "skills", SkillsUpdate(Get(body, "skills")));
    var f5 := Put(f4, "education", EducationUpdate(Get(body, "education")));
    Put(f5, "experience", ExperienceUpdate(Get(body, "experience")))
  }

  /**
   * Field by field: the update writes a field of `ProfileKeys` exactly
   * when that field has a value, writes it with that value, and writes
   * nothing else.
   */
  lemma ProfileFieldsSpec(body: map<string, Json>, k: string)
    ensures k in ProfileFields(body) <==> k in ProfileKeys && FieldUpdate(body, k).Some?
    ensures k in ProfileFields(body) ==> ProfileFields(body)[k] == FieldUpdate(body, k).value
  {
    var f1 := Put(map[], "fullName", Defined(Get(body, "fullName")));
    var f2 := Put(f1, "portfolioLink", Defined(Get(body, "portfolioLink")));
    var f3 := Put(f2, "resumeLink", Defined(Get(body, "resumeLink")));
    var f4 := Put(f3, "skills", SkillsUpdate(Get(body, "skills")));
    var f5 := Put(f4, "education", EducationUpdate(Get(body, "education")));
    PutAt(map[], "fullName", Defined(Get(body, "fullName")), k);
    PutAt(f1, "portfolioLink", Defined(Get(body, "portfolioLink")), k);
    PutAt(f2, "resumeLink", Defined(Get(body, "resumeLink")), k);
    PutAt(f3, "skills", SkillsUpdate(Get(body, "skills")), k);
    PutAt(f4, "education", EducationUpdate(Get(body, "education")), k);
    PutAt(f5, "experience", ExperienceUpdate(Get(body, "experience")), k);
  }

  /**
   * Building `profileFields` step by step, in the handler's order: the
   * optional strings, then `skills`, then `education` with its own
   * sub-object, then `experience`.
   */
  method BuildProfileFields(body: map<string, Json>) returns (fields: map<string, Json>)
    ensures fields == ProfileFields(body)
  {
    fields := map[];
    fields := CopyIfDefined(fields, "fullName", Get(body, "fullName"));
    fields := CopyIfDefined(fields, "portfolioLink", Get(body, "portfolioLink"));
    fields := CopyIfDefined(fields, "resumeLink", Get(body, "resumeLink"));
    fields := WriteSkills(fields, Get(body, "skills"));
    fields := WriteEducation(fields, Get(body, "education"));
    fields := WriteExperience(fields, Get(body, "experience"));
  }

  /** `if (x !== undefined) profileFields.key = x;` */
  method CopyIfDefined(fields: map<string, Json>, key: string, value: Json) returns (fields': map<string, Json>)
    ensures fields' == Put(fields, key, Defined(value))
  {
    fields' := fields;
    if value != Undefined {
      fields' := fields'[key := value];
    }
  }

  /** A string is parsed into skills, an array loses its falsy entries, anything else is ignored. */
  method WriteSkills(fields: map<string, Json>, skills: Json) returns (fields': map<string, Json>)
    ensures fields' == Put(fields, "skills", SkillsUpdate(skills))
  {
    fields' := fields;
    if skills.Str? {
      fields' := fields'["skills" := StrArray(ParseSkillString(skills.s))];
    } else if skills.Arr? {
      fields' := fields'["skills" := Arr(Filter(Truthy, skills.items))];
    }
  }

  /** A truthy `education` becomes a fresh object filled with its defined sub-fields. */
  method WriteEducation(fields: map<string, Json>, education: Json) returns (fields': map<string, Json>)
    ensures fields' == Put(fields, "education", EducationUpdate(education))
  {
    fields' := fields;
    if Truthy(education) {
      var sub: map<string, Json> := map[];
      sub := CopyIfDefined(sub, "university", Field(education, "university"));
      sub := CopyIfDefined(sub, "degree", Field(education, "degree"));
      sub := CopyIfDefined(sub, "graduationYear", Field(education, "graduationYear"));
      fields' := fields'["education" := Obj(sub)];
    }
  }

  /** `if (experience && Array.isArray(experience)) profileFields.experience = experience;` */
  method WriteExperience(fields: map<string, Json>, experience: Json) returns (fields': map<string, Json>)
    ensures fields' == Put(fields, "experience", ExperienceUpdate(experience))
  {
    fields' := fields;
    if Truthy(experience) && experience.Arr? {
      fields' := fields'["experience" := experience];
    }
  }

  /**
   * `fullName`, `portfolioLink` and `resumeLink` are written exactly
   * when the body defines them, with the body's value, empty or not.
   */
  lemma OptionalFieldsCopied(body: map<string, Json>, key: string)
    requires key in OptionalKeys
    ensures key in ProfileFields(body) <==> key in body && body[key] != Undefined
    ensures key in ProfileFields(body) ==> ProfileFields(body)[key] == body[key]
  {
    ProfileFieldsSpec(body, key);
  }

  /** A string of skills is stored as a list of clean strings. */
  lemma StringSkillsClean(body: map<string, Json>)
    requires Get(body, "skills").Str?
    ensures "skills" in ProfileFields(body)
    ensures ProfileFields(body)["skills"].Arr?
    ensures forall x :: x in ProfileFields(body)["skills"].items ==>
      x.Str? && x.s != "" && IsTrimmed(x.s) && ',' !in x.s
  {
    var parsed := ParseSkillString(Get(body, "skills").s);
    assert ProfileFields(body)["skills"] == StrArray(parsed) by {
      ProfileFieldsSpec(body, "skills");
    }
    ParsedSkillsClean(Get(body, "skills").s);
    forall x | x in StrArray(parsed).items
      ensures x.Str? && x.s != "" && IsTrimmed(x.s) && ',' !in x.s
    {
      var i :| 0 <= i < |parsed| && x == Str(parsed[i]);
      assert parsed[i] in parsed;
    }
  }

  /**
   * An array of skills keeps its order and loses exactly its falsy
   * entries; a value that is neither a string nor an array leaves the
   * stored skills alone.
   */
  lemma ArraySkillsFiltered(body: map<string, Json>)
    ensures Get(body, "skills").Arr? ==>
      && "skills" in ProfileFields(body)
      && IsSubseq(ProfileFields(body)["skills"].items, Get(body, "skills").items)
      && (forall x :: x in Get(body, "skills").items ==>
           (x in ProfileFields(body)["skills"].items <==> Truthy(x)))
      && (forall x :: x in Get(body, "skills").items ==>
           multiset(ProfileFields(body)["skills"].items)[x]
             == if Truthy(x) then multiset(Get(body, "skills").items)[x] else 0)
    ensures !Get(body, "skills").Str? && !Get(body, "skills").Arr? ==> "skills" !in ProfileFields(body)
  {
    ProfileFieldsSpec(body, "skills");
    if Get(body, "skills").Arr? {
      var items := Get(body, "skills").items;
      assert ProfileFields(body)["skills"].items == Filter(Truthy, items);
      FilterSpec(Truthy, items);
      forall x | x in items && Truthy(x)
        ensures x in Filter(Truthy, items)
      {
        assert multiset(Filter(Truthy, items))[x] == multiset(items)[x] > 0;
      }
    }
  }

  /**
   * A truthy `education` is replaced by an object holding exactly its
   * defined `university`, `degree` and `graduationYear`.
   */
  lemma EducationCopied(body: map<string, Json>)
    ensures "education" in ProfileFields(body) <==> Truthy(Get(body, "education"))
    ensures "education" in ProfileFields(body) ==>
      var sub := ProfileFields(body)["education"];
      && sub.Obj?
      && forall k :: k in sub.fields <==> k in EducationKeys && Field(Get(body, "education"), k) != Undefined
    ensures "education" in ProfileFields(body) ==>
      var sub := ProfileFields(body)["education"];
      forall k :: k in sub.fields ==> sub.fields[k] == Field(Get(body, "education"), k)
  {
    ProfileFieldsSpec(body, "education");
  }

  /** `experience` is written exactly when it is an array, as it is. */
  lemma ExperienceCopied(body: map<string, Json>)
    ensures "experience" in ProfileFields(body) <==> Get(body, "experience").Arr?
    ensures "experience" in ProfileFields(body) ==> ProfileFields(body)["experience"] == body["experience"]
  {
    ProfileFieldsSpec(body, "experience");
  }

  /** The update never writes the password, nor a property the body did not define. */
  lemma UpdateNeverTouchesPassword(body: map<string, Json>)
    ensures "password" !in ProfileFields(body)
    ensures forall k :: k in ProfileFields(body) ==> ProfileFields(body)[k] != Undefined
  {
    ProfileFieldsSpec(body, "password");
    forall k | k in ProfileFields(body)
      ensures ProfileFields(body)[k] != Undefined
    {
      ProfileFieldsSpec(body, k);
    }
  }

  /** A stored user without its password (`select('-password')`). */
  function WithoutPassword(doc: map<string, Json>): (shown: map<string, Json>)
    ensures "password" !in shown
    ensures forall k :: k in doc && k != "password" ==> k in shown && shown[k] == doc[k]
    ensures shown.Keys <= doc.Keys
  {
    doc - {"password"}
  }

  /**
   * `$set: profileFields`: the written fields take their new values and
   * every other field of the stored user, the password included, keeps
   * its old one. Sending the same update again changes nothing more.
   */
  lemma MergeProfile(doc: map<string, Json>, body: map<string, Json>)
    ensures forall k :: k in ProfileFields(body) ==> (doc + ProfileFields(body))[k] == ProfileFields(body)[k]
    ensures forall k :: k in doc && k !in ProfileFields(body) ==> (doc + ProfileFields(body))[k] == doc[k]
    ensures "password" in doc ==> (doc + ProfileFields(body))["password"] == doc["password"]
    ensures (doc + ProfileFields(body)) + ProfileFields(body) == doc + ProfileFields(body)
  {
    UpdateNeverTouchesPassword(body);
  }

  /** The stored users, each a map from field name to value. */
  class UserStore {
    var docs: map<Id, map<string, Json>>

    constructor (initial: map<Id, map<string, Json>>)
      ensures docs == initial
    {
      docs := initial;
    }

    /** `getUserProfile`: the user without the password, or 404. */
    method GetUserProfile(id: Id) returns (code: Code, profile: map<string, Json>)
      ensures id !in docs ==> code == NotFound && profile == map[]
      ensures id in docs ==> code == Ok && profile == WithoutPassword(docs[id])
    {
      if id !in docs {
        return NotFound, map[];
      }
      return Ok, WithoutPassword(docs[id]);
    }

    /**
     * `updateUserProfile`: builds `profileFields` from the body, answers
     * 404 for an unknown user, and otherwise merges the fields into the
     * stored user and answers the result without the password.
     */
    method UpdateUserProfile(id: Id, body: map<string, Json>) returns (code: Code, profile: map<string, Json>)
      modifies this
      ensures id !in old(docs) ==> code == NotFound && profile == map[] && docs == old(docs)
      ensures id in old(docs) ==>
        && code == Ok
        && docs == old(docs)[id := old(docs)[id] + ProfileFields(body)]
        && profile == WithoutPassword(docs[id])
    {
      var fields := BuildProfileFields(body);
      if id !in docs {
        return NotFound, map[];
      }
      docs := docs[id := docs[id] + fields];
      return Ok, WithoutPassword(docs[id]);
    }
  }
}
