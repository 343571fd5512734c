/**
 * The internship record as the controllers see it (models/Internship.js)
 * and the parts of the catalog operations that are pure: finding a record
 * by id, the create-body validation, and what `applyToInternship` does to
 * the catalog.
 */
module Internships {
  import opened Common

  /** A document identity (a MongoDB ObjectId). */
  type Id = nat

  /** The status values of the schema's enum; the status update writes any string it is given. */
  const Pending: string := "pending"
  const Approved: string := "approved"
  const Rejected: string := "rejected"

  datatype Internship = Internship(
    id: Id,
    program: string,
    organization: string,
    applyLink: string,
    skills: seq<string>,
    location: string,
    stipend: Option<string>,
    status: string,
    createdBy: Id,
    appliedBy: seq<Id>)

  /** The fields `createInternship` reads from the request body; an absent field is None. */
  datatype Draft = Draft(
    program: Option<string>,
    organization: Option<string>,
    applyLink: Option<string>,
    skills: Option<seq<string>>,
    location: Option<string>,
    stipend: Option<string>)

  /** Mongoose's `required` check on a string path: present and not empty. */
  predicate Given(field: Option<string>)
  {
    field.Some? && field.value != ""
  }

  /** The body passes the schema's required-field validation. */
  predicate IsComplete(d: Draft)
  {
    Given(d.program) && Given(d.organization) && Given(d.applyLink) && Given(d.location)
  }

  /**
   * What the store maintains: identities are distinct and were all handed
   * out before `nextId`, and no user appears twice in an applicant list.
   */
  ghost predicate ValidCatalog(records: seq<Internship>, nextId: Id)
  {
    && (forall i :: 0 <= i < |records| ==> records[i].id < nextId)
    && (forall i :: 0 <= i < |records| ==> NoDuplicates(records[i].appliedBy))
    && (forall i, j :: 0 <= i < j < |records| ==> records[i].id != records[j].id)
  }

  /** `findById`: the position of the (first) record with identity `id`. */
  function Find(records: seq<Internship>, id: Id): (r: Option<nat>)
    ensures r.Some? ==> r.value < |records| && records[r.value].id == id
    ensures r.Some? ==> forall j :: 0 <= j < r.value ==> records[j].id != id
    ensures r.None? ==> forall j :: 0 <= j < |records| ==> records[j].id != id
  {
    if records == [] then None
    else if records[0].id == id then Some(0)
    else
      match Find(records[1..], id)
      case None => None
      case Some(k) => Some(k + 1)
  }

  /** Two catalogs with the same identities in the same places find the same positions. */
  lemma FindSameIds(records: seq<Internship>, records': seq<Internship>, id: Id)
    requires |records| == |records'|
    requires forall j :: 0 <= j < |records| ==> records[j].id == records'[j].id
    ensures Find(records, id) == Find(records', id)
  {
  }

  /**
   * What the schema's validation on `save()` checks of a stored record:
   * the required string fields are non-empty and the status is one of
   * the enum's values.
   */
  predicate SavesCleanly(rec: Internship)
  {
    && rec.program != "" && rec.organization != "" && rec.applyLink != "" && rec.location != ""
    && (rec.status == Pending || rec.status == Approved || rec.status == Rejected)
  }

  /**
   * `applyToInternship` on the catalog: the response code and the catalog
   * afterwards. A missing record is 404 and a repeated application 400,
   * both leaving the catalog as it was. Otherwise the user is pushed onto
   * the loaded record and the record is saved: a record the schema's
   * validation rejects (a status outside the enum, written earlier by a
   * status update) is 500 with nothing stored; else the user is appended
   * to that record's applicant list and nothing else changes.
   */
  function ApplyTo(records: seq<Internship>, id: Id, user: Id): (result: (Code, seq<Internship>))
    ensures Find(records, id).None? ==> result == (NotFound, records)
    ensures Find(records, id).Some? && user in records[Find(records, id).value].appliedBy ==>
      result == (BadRequest, records)
    ensures Find(records, id).Some? && user !in records[Find(records, id).value].appliedBy
            && !SavesCleanly(records[Find(records, id).value]) ==>
      result == (ServerError, records)
    ensures Find(records, id).Some? && user !in records[Find(records, id).value].appliedBy
            && SavesCleanly(records[Find(records, id).value]) ==>
      var i := Find(records, id).value;
      && result.0 == Ok
      && |result.1| == |records|
      && result.1[i] == records[i].(appliedBy := records[i].appliedBy + [user])
      && forall j :: 0 <= j < |records| && j != i ==> result.1[j] == records[j]
  {
    match Find(records, id)
    case None => (NotFound, records)
    case Some(i) =>
      if user in records[i].appliedBy then (BadRequest, records)
      else if !SavesCleanly(records[i]) then (ServerError, records)
      else (Ok, records[i := records[i].(appliedBy := records[i].appliedBy + [user])])
  }

  /** In a catalog whose records all pass validation, applying never fails with 500. */
  lemma ApplyToCleanCatalog(records: seq<Internship>, id: Id, user: Id)
    requires forall i :: 0 <= i < |records| ==> SavesCleanly(records[i])
    ensures ApplyTo(records, id, user).0 != ServerError
  {
    match Find(records, id)
    case None =>
    case Some(i) =>
      assert SavesCleanly(records[i]);
  }

  /** A status update to a value of the enum keeps every record passing validation. */
  lemma SetStatusKeepsCleanCatalog(records: seq<Internship>, id: Id, status: string)
    requires forall i :: 0 <= i < |records| ==> SavesCleanly(records[i])
    requires status == Pending || status == Approved || status == Rejected
    ensures forall i :: 0 <= i < |SetStatus(records, id, status).1| ==> SavesCleanly(SetStatus(records, id, status).1[i])
  {
    var after := SetStatus(records, id, status).1;
    forall i | 0 <= i < |after|
      ensures SavesCleanly(after[i])
    {
      assert SavesCleanly(records[i]);
    }
  }

  /** Right after a record's status is set outside the enum, an application to it answers 400 or 500, never 200. */
  lemma UnknownStatusBlocksApply(records: seq<Internship>, id: Id, status: string, user: Id)
    requires SetStatus(records, id, status).0 == Ok
    requires status != Pending && status != Approved && status != Rejected
    ensures ApplyTo(SetStatus(records, id, status).1, id, user).0 in {BadRequest, ServerError}
  {
    var after := SetStatus(records, id, status).1;
    FindSameIds(records, after, id);
  }

  /** Applying keeps every applicant list duplicate-free and every identity in place. */
  lemma ApplyKeepsCatalogValid(records: seq<Internship>, nextId: Id, id: Id, user: Id)
    requires ValidCatalog(records, nextId)
    ensures ValidCatalog(ApplyTo(records, id, user).1, nextId)
  {
    var (code, after) := ApplyTo(records, id, user);
    if code == Ok {
      var i := Find(records, id).value;
      var applicants := records[i].appliedBy + [user];
      assert after[i].appliedBy == applicants;
      forall a, b | 0 <= a < b < |applicants|
        ensures applicants[a] != applicants[b]
      {
        if b == |applicants| - 1 {
          assert applicants[a] in records[i].appliedBy;
        }
      }
    }
  }

  /**
   * Applying twice is rejected: once a user's application succeeded, the
   * same application again answers 400 and changes nothing.
   */
  lemma ApplyTwiceRejected(records: seq<Internship>, id: Id, user: Id)
    requires ApplyTo(records, id, user).0 == Ok
    ensures ApplyTo(ApplyTo(records, id, user).1, id, user) == (BadRequest, ApplyTo(records, id, user).1)
  {
    var after := ApplyTo(records, id, user).1;
    FindSameIds(records, after, id);
    var i := Find(records, id).value;
    assert user in after[i].appliedBy;
  }

  /** `Internship.find({ status: 'approved' })`: the approved records, in catalog order. */
  function ApprovedListing(records: seq<Internship>): (listed: seq<Internship>)
    ensures forall x :: x in listed <==> x in records && x.status == Approved
    ensures IsSubseq(listed, records)
    ensures forall x :: x in records ==>
      multiset(listed)[x] == if x.status == Approved then multiset(records)[x] else 0
  {
    FilterSpec((rec: Internship) => rec.status == Approved, records);
    Filter((rec: Internship) => rec.status == Approved, records)
  }

  /** `Internship.find({ appliedBy: userId })`: the records `user` has applied to, in catalog order. */
  function AppliedListing(records: seq<Internship>, user: Id): (listed: seq<Internship>)
    ensures forall x :: x in listed <==> x in records && user in x.appliedBy
    ensures IsSubseq(listed, records)
    ensures forall x :: x in records ==>
      multiset(listed)[x] == if user in x.appliedBy then multiset(records)[x] else 0
  {
    FilterSpec((rec: Internship) => user in rec.appliedBy, records);
    Filter((rec: Internship) => user in rec.appliedBy, records)
  }

  /**
   * `updateInternshipStatus` on the catalog: a missing record is 404 and
   * the catalog stays as it was; otherwise that record's status becomes
   * the given value, whatever it is, and nothing else changes.
   */
  function SetStatus(records: seq<Internship>, id: Id, status: string): (result: (Code, seq<Internship>))
    ensures Find(records, id).None? ==> result == (NotFound, records)
    ensures Find(records, id).Some? ==>
      var i := Find(records, id).value;
      && result.0 == Ok
      && |result.1| == |records|
      && result.1[i] == records[i].(status := status)
      && forall j :: 0 <= j < |records| && j != i ==> result.1[j] == records[j]
  {
    match Find(records, id)
    case None => (NotFound, records)
    case Some(i) => (Ok, records[i := records[i].(status := status)])
  }

  /** Writing a status keeps every identity and applicant list, so the catalog stays valid. */
  lemma SetStatusKeepsCatalogValid(records: seq<Internship>, nextId: Id, id: Id, status: string)
    requires ValidCatalog(records, nextId)
    ensures ValidCatalog(SetStatus(records, id, status).1, nextId)
  {
  }

  /**
   * Approving a record puts it on the students' listing; giving it any
   * other status takes it off.
   */
  lemma {:induction false} StatusDecidesListing(records: seq<Internship>, nextId: Id, id: Id, status: string)
    requires ValidCatalog(records, nextId)
    requires SetStatus(records, id, status).0 == Ok
    ensures (exists x :: x in ApprovedListing(SetStatus(records, id, status).1) && x.id == id)
        <==> status == Approved
  {
    var after := SetStatus(records, id, status).1;
    var i := Find(records, id).value;
    assert after[i] in after;
    if x :| x in ApprovedListing(after) && x.id == id {
      var j :| 0 <= j < |after| && after[j] == x;
      assert j == i;
    }
  }

  /**
   * `deleteInternship` on the catalog: a missing record is 404 and the
   * catalog stays as it was; otherwise that record is taken out and the
   * others keep their order.
   */
  function Remove(records: seq<Internship>, id: Id): (result: (Code, seq<Internship>))
    ensures Find(records, id).None? ==> result == (NotFound, records)
    ensures Find(records, id).Some? ==>
      var i := Find(records, id).value;
      result == (Ok, records[..i] + records[i + 1..])
  {
    match Find(records, id)
    case None => (NotFound, records)
    case Some(i) => (Ok, records[..i] + records[i + 1..])
  }

  /** Deleting removes the record with that identity and no other. */
  lemma RemoveOnlyThatId(records: seq<Internship>, nextId: Id, id: Id)
    requires ValidCatalog(records, nextId)
    ensures forall x :: x in Remove(records, id).1 <==> x in records && x.id != id
  {
    var after := Remove(records, id).1;
    match Find(records, id)
    case None =>
    case Some(i) =>
      forall x
        ensures x in after <==> x in records && x.id != id
      {
        if x in records && x.id != id {
          var j :| 0 <= j < |records| && records[j] == x;
          assert j != i;
          if j < i {
            assert after[j] == x;
          } else {
            assert after[j - 1] == x;
          }
        }
      }
  }

  /** Deleting keeps the catalog valid. */
  lemma RemoveKeepsCatalogValid(records: seq<Internship>, nextId: Id, id: Id)
    requires ValidCatalog(records, nextId)
    ensures ValidCatalog(Remove(records, id).1, nextId)
  {
    match Find(records, id)
    case None =>
    case Some(i) =>
      var after := Remove(records, id).1;
      forall a | 0 <= a < |after|
        ensures after[a] == records[if a < i then a else a + 1]
      {
      }
  }

  /**
   * A record added with a fresh identity, a duplicate-free applicant
   * list and an identity below the new counter keeps the catalog valid.
   */
  lemma AddKeepsCatalogValid(records: seq<Internship>, nextId: Id, rec: Internship)
    requires ValidCatalog(records, nextId)
    requires rec.id == nextId && NoDuplicates(rec.appliedBy)
    ensures ValidCatalog(records + [rec], nextId + 1)
  {
  }

  /** A new record is pending, so students do not see it until it is approved. */
  lemma PendingNotListed(records: seq<Internship>, rec: Internship)
    requires rec.status == Pending
    ensures ApprovedListing(records + [rec]) == ApprovedListing(records)
  {
    FilterAppend((r: Internship) => r.status == Approved, records, [rec]);
  }

  /** After a successful application the record shows among the user's applications. */
  lemma AppliedThenListed(records: seq<Internship>, id: Id, user: Id)
    requires ApplyTo(records, id, user).0 == Ok
    ensures exists x :: x in AppliedListing(ApplyTo(records, id, user).1, user) && x.id == id
  {
    var after := ApplyTo(records, id, user).1;
    var i := Find(records, id).value;
    assert after[i] in after && user in after[i].appliedBy;
  }
}
