/**
 * The stored internship catalog and the handlers of
 * internshipController.js that change it or read it. The MongoDB
 * collection is an in-memory sequence of records in insertion order;
 * identities come from a counter standing for ObjectId generation.
 */
module CatalogStore {
  import opened Common
  import opened Internships
  import opened Recommendation

  class Catalog {
    var records: seq<Internship>
    var nextId: Id

    /** Identities are distinct and fresh below `nextId`; applicant lists have no repeats. */
    ghost predicate Valid()
      reads this
    {
      ValidCatalog(records, nextId)
    }

    constructor ()
      ensures Valid()
      ensures records == [] && nextId == 0
    {
      records := [];
      nextId := 0;
    }

    /**
     * `createInternship`: the draft's fields are stored with status
     * "pending", the caller as creator and no applicants, and the stored
     * record is answered with 201. A draft missing a required field
     * fails the schema's validation on save: 500, nothing stored.
     */
    method CreateInternship(draft: Draft, caller: Id) returns (code: Code, created: Option<Internship>)
      requires Valid()
      modifies this
      ensures Valid()
      ensures !IsComplete(draft) ==>
        code == ServerError && created == None && records == old(records) && nextId == old(nextId)
      ensures IsComplete(draft) ==>
        && code == Created
        && created.Some?
        && records == old(records) + [created.value]
        && nextId == old(nextId) + 1
        && created.value.id == old(nextId)
        && created.value.program == draft.program.value
        && created.value.organization == draft.organization.value
        && created.value.applyLink == draft.applyLink.value
        && created.value.location == draft.location.value
        && created.value.skills == (if draft.skills.Some? then draft.skills.value else [])
        && created.value.stipend == draft.stipend
        && created.value.status == Pending
        && created.value.createdBy == caller
        && created.value.appliedBy == []
    {
      if !IsComplete(draft) {
        return ServerError, None;
      }
      var skills := if draft.skills.Some? then draft.skills.value else [];
      var rec := Internship(nextId, draft.program.value, draft.organization.value, draft.applyLink.value,
                            skills, draft.location.value, draft.stipend, Pending, caller, []);
      AddKeepsCatalogValid(records, nextId, rec);
      records := records + [rec];
      nextId := nextId + 1;
      return Created, Some(rec);
    }

    /**
     * `updateInternshipStatus`: the record's status is overwritten with
     * the given value (which the handler does not check) and the updated
     * record is answered; a missing record is 404.
     */
    method UpdateInternshipStatus(id: Id, status: string) returns (code: Code, updated: Option<Internship>)
      requires Valid()
      modifies this
      ensures Valid()
      ensures (code, records) == SetStatus(old(records), id, status)
      ensures nextId == old(nextId)
      ensures code == Ok <==> updated.Some?
      ensures updated.Some? ==> updated.value in records && updated.value.id == id && updated.value.status == status
    {
      SetStatusKeepsCatalogValid(records, nextId, id, status);
      var found := Find(records, id);
      if found.None? {
        return NotFound, None;
      }
      var i := found.value;
      var rec := records[i].(status := status);
      records := records[i := rec];
      return Ok, Some(rec);
    }

    /** `deleteInternship`: the record is removed; a missing record is 404. */
    method DeleteInternship(id: Id) returns (code: Code)
      requires Valid()
      modifies this
      ensures Valid()
      ensures (code, records) == Remove(old(records), id)
      ensures nextId == old(nextId)
    {
      RemoveKeepsCatalogValid(records, nextId, id);
      var found := Find(records, id);
      if found.None? {
        return NotFound;
      }
      var i := found.value;
      records := records[..i] + records[i + 1..];
      return Ok;
    }

    /**
     * `applyToInternship`: a missing record is 404, a user already
     * among the applicants 400; otherwise the user is pushed onto the
     * record's applicant list and the record saved, which fails with 500,
     * storing nothing, when the record does not pass validation.
     */
    method ApplyToInternship(id: Id, user: Id) returns (code: Code)
      requires Valid()
      modifies this
      ensures Valid()
      ensures (code, records) == ApplyTo(old(records), id, user)
      ensures nextId == old(nextId)
    {
      ApplyKeepsCatalogValid(records, nextId, id, user);
      var found := Find(records, id);
      if found.None? {
        return NotFound;
      }
      var i := found.value;
      var rec := records[i];
      if user in rec.appliedBy {
        return BadRequest;
      }
      if !SavesCleanly(rec) {
        return ServerError;
      }
      records := records[i := rec.(appliedBy := rec.appliedBy + [user])];
      return Ok;
    }

    /**
     * `recommendedInternships`: a request without a user id is 400, an
     * unknown user 404; otherwise the top five views of the whole
     * catalog, scored against the user's stored skills. `skillsOf` maps
     * each stored user to its skill list.
     */
    method RecommendedInternships(userId: Option<Id>, skillsOf: map<Id, seq<string>>)
      returns (code: Code, recommendations: seq<View>)
      ensures userId.None? ==> code == BadRequest && recommendations == []
      ensures userId.Some? && userId.value !in skillsOf ==> code == NotFound && recommendations == []
      ensures userId.Some? && userId.value in skillsOf ==>
        code == Ok && recommendations == Recommend(skillsOf[userId.value], records)
      ensures |recommendations| <= MaxRecommendations
    {
      if userId.None? {
        return BadRequest, [];
      }
      if userId.value !in skillsOf {
        return NotFound, [];
      }
      recommendations := Recommend(skillsOf[userId.value], records);
      code := Ok;
    }
  }
}
