# Internship recommendation backend: a verified model of the controllers

This project models the two controllers at the heart of the AI Internship Recommendation System backend, and proves properties of the model in Dafny.

- `backend/controllers/internshipController.js` covers the internship catalog and the recommender:
  - listing approved internships;
  - creating an internship, which starts out pending;
  - approving, rejecting or deleting an internship;
  - applying to an internship, and listing a student's applications;
  - the rule-based recommender, which scores every internship against the student's skills (`computeSkillScore`), projects each internship into a result view, sorts the views by score (highest first, stable) and keeps the first five.
- `backend/controllers/userController.js` reads a student's profile and updates it. The update turns a loosely typed request body into the fields to write (`profileFields`) and merges them into the stored user.

The project has seven modules, one per file:

| file | module | what it holds |
|---|---|---|
| `common.dfy` | `Common` | `Option`; the HTTP status codes; `Filter` and `Map`, the array built-ins the controllers chain together |
| `text.dfy` | `Text` | `toLowerCase`, `trim`, `split(',')` and `join` |
| `scoring.dfy` | `Scoring` | `computeSkillScore` and the `skillsMatched` projection |
| `internships.dfy` | `Internships` | the internship record, the create-body validation, and one pure function per catalog operation: find, set status, remove, apply, the two listings |
| `recommendation.dfy` | `Recommendation` | the projection into views, the stable sort by score and the top-five cut |
| `catalog.dfy` | `CatalogStore` | the class `Catalog`, whose methods are the handlers that read or change the catalog; status update, delete and apply are each proved equal to the matching pure function, create states the stored record outright, and the recommendation handler returns `Recommend` over the stored records. The two listings are the pure functions of `internships.dfy` |
| `profiles.dfy` | `Profiles` | request bodies as JSON values, the `profileFields` builder, the `$set` merge and the class `UserStore` with the two profile handlers |

The MongoDB collections are in-memory state:

- The catalog is a sequence of records in insertion order.
- New identities come from a counter, which stands for ObjectId generation.
- Users are a map from identity to a document, and a document maps field names to JSON values.

Each handler returns the status code it would answer with.

### Where the model follows the code rather than the intended behaviour

- **`skillsMatched` is case-sensitive.**
  - The intended behaviour is that the matched skills of an internship are those whose lower-cased form is among the user's lower-cased skills. So a user with "Python" and "SQL" should match `["python","sql"]` of `["python","sql","excel"]`.
  - The code (`internship.skills.filter((s) => userSkills.includes(s))`) compares strings exactly, so that user matches nothing.
  - The model follows the code.
  - `Scoring.CaseSensitiveMatchExample` exhibits the difference: score 100 with an empty matched list.
  - `Scoring.MatchedWithinOverlap` proves that the exact match never finds more than the case-blind score counts.
- **The clamp `Math.min(baseScore, 100)` never fires.** The intended behaviour calls for it, in case duplicated skills push the ratio above 100. But the overlap counts entries of the internship's own list, so it never exceeds that list's length. `Scoring.ScoreAtMostHundred` proves this, and `Recommendation.Project` states that the clamp leaves the score unchanged.
- **Duplicates count once per entry.** A skill listed twice by the internship counts twice when the user has it (`Scoring.DuplicatesCountedExample`).
- **Recommendations come from the whole catalog.** They are drawn from every record, whatever its status: pending and rejected internships can be recommended, as in the code (`Internship.find({})`).

## Model

| member | source | states |
|---|---|---|
| Scoring.Overlap | backend/controllers/internshipController.js:104-106 | the number of the internship's lower-cased skills found in the user's lower-cased skill set never exceeds the number of skills the internship lists |
| Scoring.RoundHalfUp | backend/controllers/internshipController.js:107 | `Math.round(num / den)` for a non-negative ratio: the result r satisfies r - 1/2 <= num/den < r + 1/2 |
| Scoring.RoundHalfUpUnique | backend/controllers/internshipController.js:107 | exactly one integer is within half a unit of num/den, half-open upwards, and it is `RoundHalfUp`'s result (halves go up) |
| Scoring.RoundingUnique | backend/controllers/internshipController.js:107 | two integers that both round num/den are equal |
| Scoring.SkillScore | backend/controllers/internshipController.js:103-108 | the score is between 0 and 100; it is 0 for an internship listing no skills; otherwise it is 100 * overlap / length, rounded half up |
| Scoring.ScoreAtMostHundred | backend/controllers/internshipController.js:146 | a rounded percentage of an overlap no longer than the list is at most 100, so the clamp to 100 never changes a score |
| Scoring.MatchedSkills | backend/controllers/internshipController.js:143-145 | the matched skills are a subsequence of the internship's skills; each one occurs verbatim in the user's list; every skill the user lists verbatim keeps all its occurrences and every other skill is dropped |
| Scoring.ScoreIgnoresUserCase | backend/controllers/internshipController.js:104 | lower-casing the user's skills beforehand leaves every score unchanged |
| Scoring.ScoreIgnoresInternshipCase | backend/controllers/internshipController.js:105 | lower-casing the internship's skills beforehand leaves every score unchanged |
| Scoring.MatchedWithinOverlap | backend/controllers/internshipController.js:143-145 | the case-sensitive matched list is never longer than the case-blind overlap the score counts |
| Scoring.OverlapCons | backend/controllers/internshipController.js:106 | the overlap counts the internship's list entry by entry: a first entry adds one exactly when its lower-cased form is among the user's skills |
| Scoring.CaseSensitiveMatchExample | backend/controllers/internshipController.js:143-145 | user "Python" against internship "python" scores 100 yet has no matched skill |
| Scoring.TwoOfThreeExample | backend/controllers/internshipController.js:103-108 | user ["Python","SQL"] against ["python","sql","excel"] scores round(200/3) = 67 |
| Scoring.DuplicatesCountedExample | backend/controllers/internshipController.js:105-106 | "java" against ["Java","JAVA","java"] counts all three entries and scores 100 |
| Text.LowerChar | backend/controllers/internshipController.js:104 | `toLowerCase` on a character: an upper-case ASCII letter becomes its lower-case letter (code point plus 32), every other character is kept, and no result is upper case |
| Text.LowerAllIdempotent | backend/controllers/internshipController.js:104-105 | lower-casing a list of skills twice is the same as lower-casing it once |
| Text.Trim | backend/controllers/userController.js:44 | `trim` returns a contiguous part of the input that starts and ends with no whitespace, and everything cut off before and after it is whitespace |
| Text.TrimTrimmed | backend/controllers/userController.js:44 | `trim` leaves a string that has no surrounding whitespace unchanged |
| Text.TrimLeadingSpace | backend/controllers/userController.js:44 | `trim` drops a leading blank |
| Text.Split | backend/controllers/userController.js:44 | `split(',')` always gives at least one piece, and no piece contains the separator |
| Text.JoinSplit | backend/controllers/userController.js:44 | joining the pieces of `split(sep)` with `sep` gives back the original string |
| Text.SplitNoSeparator | backend/controllers/userController.js:44 | a string without the separator splits into itself alone |
| Text.SplitFirstPiece | backend/controllers/userController.js:44 | the text before the first separator is the first piece, and the rest is split on its own |
| Common.FilterSpec | backend/controllers/userController.js:46 | `filter` keeps, in order, every occurrence of each element that satisfies the predicate and no occurrence of any other |
| Common.FilterAppend | backend/controllers/internshipController.js:13 | filtering a concatenation filters each part |
| Internships.Find | backend/controllers/internshipController.js:186 | `findById` finds the first record with the identity, or reports that no record has it |
| Internships.FindSameIds | backend/controllers/internshipController.js:186 | catalogs with the same identities in the same places give the same lookups |
| Internships.ApprovedListing | backend/controllers/internshipController.js:11-19 | the students' listing holds exactly the approved records, in catalog order, each as often as it occurs in the catalog |
| Internships.StatusDecidesListing | backend/controllers/internshipController.js:61-77 | after a successful status update, the record is on the students' listing if and only if the new status is "approved" |
| Internships.SetStatus | backend/controllers/internshipController.js:61-82 | a missing id gives 404 and leaves the catalog unchanged; otherwise the response is 200, that record gets the new status whatever it is, and every other record is unchanged |
| Internships.SetStatusKeepsCatalogValid | backend/controllers/internshipController.js:66-70 | a status update keeps identities distinct and applicant lists free of repeats |
| Internships.Remove | backend/controllers/internshipController.js:85-100 | a missing id gives 404 and leaves the catalog unchanged; otherwise that record is cut out and the others keep their order |
| Internships.RemoveOnlyThatId | backend/controllers/internshipController.js:88 | after a delete, the catalog holds exactly the records whose identity differs from the deleted one |
| Internships.RemoveKeepsCatalogValid | backend/controllers/internshipController.js:88 | deleting keeps the catalog valid |
| Internships.AddKeepsCatalogValid | backend/controllers/internshipController.js:35-47 | a record saved with a fresh identity and no repeated applicants keeps the catalog valid |
| Internships.PendingNotListed | backend/controllers/internshipController.js:43 | a newly created, pending record does not change the students' listing |
| Internships.ApplyTo | backend/controllers/internshipController.js:181-206 | a missing internship gives 404 and a repeat applicant 400; a record that fails the schema's validation on save (an empty required field, or a status outside "pending", "approved", "rejected") gives 500; all three leave the catalog unchanged. Otherwise the user is appended to that record's applicants and nothing else changes |
| Internships.ApplyKeepsCatalogValid | backend/controllers/internshipController.js:193-198 | applying keeps every applicant list free of repeats |
| Internships.ApplyTwiceRejected | backend/controllers/internshipController.js:192-195 | once an application succeeds, the same application again answers 400 and changes nothing |
| Internships.AppliedListing | backend/controllers/internshipController.js:209-221 | a user's applications are exactly the records listing that user as an applicant, in catalog order, each as often as it occurs in the catalog |
| Internships.AppliedThenListed | backend/controllers/internshipController.js:193-214 | after a successful application, the internship appears among the user's applications |
| Recommendation.Project | backend/controllers/internshipController.js:129-147 | a view copies identity, program (as title), organization (as company), location, stipend and apply link; it carries the exact-match skills and the skill score, which is in 0..100 and unchanged by the second rounding and the clamp |
| Recommendation.Views | backend/controllers/internshipController.js:124-148 | the catalog's views, one per record in catalog order, whatever each record's status |
| Recommendation.Insert | backend/controllers/internshipController.js:149 | insertion adds exactly the new view to the list |
| Recommendation.InsertSorted | backend/controllers/internshipController.js:149 | inserting into a list sorted by descending score keeps it sorted |
| Recommendation.SortByScore | backend/controllers/internshipController.js:149 | the sort is a permutation of its input |
| Recommendation.SortSorted | backend/controllers/internshipController.js:149 | the sort orders views by descending score |
| Recommendation.WithScoreAppend | backend/controllers/internshipController.js:149 | the views of one score in a concatenation are those of each part, in order |
| Recommendation.NoneAboveHead | backend/controllers/internshipController.js:149 | a sorted list has no view scoring more than its head |
| Recommendation.InsertStable | backend/controllers/internshipController.js:149 | insertion puts the new view after every view of equal score |
| Recommendation.SortStable | backend/controllers/internshipController.js:149 | the sort is stable: for every score, the views with it come out in the order they went in |
| Recommendation.StableSortIsUnique | backend/controllers/internshipController.js:149 | two lists sorted by descending score that agree score by score on the order of their views are equal, so any stable sort engine gives the same answer |
| Recommendation.Recommend | backend/controllers/internshipController.js:128-150 | the response holds min(5, catalog size) recommendations |
| Recommendation.Dropped | backend/controllers/internshipController.js:150 | the sorted views left out of the response number catalog size minus the number kept |
| Recommendation.RecommendSplits | backend/controllers/internshipController.js:150 | the sorted views are the recommendations followed by the views left out |
| Recommendation.RecommendSorted | backend/controllers/internshipController.js:149-150 | recommendations come in descending score order |
| Recommendation.RecommendFromCatalog | backend/controllers/internshipController.js:124-150 | every recommendation is the view of some catalog record, and no view is recommended more often than it occurs |
| Recommendation.RecommendScoresBounded | backend/controllers/internshipController.js:146 | every recommended score is between 0 and 100 |
| Recommendation.RecommendKeepsBest | backend/controllers/internshipController.js:149-150 | no view left out scores more than any view kept |
| Recommendation.PrefixKeepsBest | backend/controllers/internshipController.js:150 | in a sorted list, nothing beyond a prefix scores more than what lies in it |
| Recommendation.RecommendStable | backend/controllers/internshipController.js:149-150 | for every score, the recommendations with it are the first of the catalog's views with it, in catalog order |
| Recommendation.RecommendAllWhenFew | backend/controllers/internshipController.js:150 | a catalog of five records or fewer is recommended whole |
| CatalogStore.Catalog.CreateInternship | backend/controllers/internshipController.js:22-58 | a draft missing a required field gives 500 and stores nothing; otherwise the response is 201, and the record is appended with a fresh identity, the draft's fields, skills defaulting to [], status "pending", the caller as creator and no applicants |
| CatalogStore.Catalog.UpdateInternshipStatus | backend/controllers/internshipController.js:61-82 | the response and the new catalog are those of `SetStatus`; the updated record is returned on 200 and nothing is returned on 404 |
| CatalogStore.Catalog.DeleteInternship | backend/controllers/internshipController.js:85-100 | the response and the new catalog are those of `Remove` |
| CatalogStore.Catalog.ApplyToInternship | backend/controllers/internshipController.js:181-206 | the response and the new catalog are those of `ApplyTo` |
| Internships.ApplyToCleanCatalog | backend/controllers/internshipController.js:198-199 | when every record passes the schema's validation, applying never answers 500 |
| Internships.SetStatusKeepsCleanCatalog | backend/models/Internship.js:12-16 | setting a status from the schema's enum keeps every record passing validation |
| Internships.UnknownStatusBlocksApply | backend/controllers/internshipController.js:66-70 | right after a record's status is set outside the enum, an application to it answers 400 or 500, never 200 |
| CatalogStore.Catalog.RecommendedInternships | backend/controllers/internshipController.js:114-161 | a missing user id gives 400 and an unknown user 404, both with no recommendations; otherwise the response is 200 with `Recommend` of the user's skills over the whole catalog, at most five views |
| Profiles.ParsedSkillsClean | backend/controllers/userController.js:44 | every parsed skill is non-empty, has no surrounding whitespace and contains no comma |
| Profiles.ParseLeadingSpace | backend/controllers/userController.js:44 | a blank in front of the skill string changes nothing parsed |
| Profiles.ParseCleanHead | backend/controllers/userController.js:44 | a clean skill followed by ", " parses as that skill, then the rest |
| Profiles.ParseJoinRoundTrip | frontend/src/pages/UserProfile.jsx:35 | the profile page shows the stored skills joined by ", "; saving that text unchanged stores the same skills again, provided each is non-empty, unpadded and comma-free |
| Profiles.StrArray | backend/controllers/userController.js:44 | a list of strings becomes a JSON array of the same strings, in order |
| Profiles.PutSpec | backend/controllers/userController.js:39-41 | a conditional write sets the one property when there is a value, and every other property is unchanged |
| Profiles.PutAt | backend/controllers/userController.js:39-41 | the same conditional write, stated for one property |
| Profiles.EducationUpdate | backend/controllers/userController.js:50-55 | education is written exactly when it is truthy, as an object holding exactly the defined university, degree and graduation year, with their values |
| Profiles.ProfileFieldsSpec | backend/controllers/userController.js:37-60 | `profileFields` has a field exactly when it is one of the six profile fields and the body gives it a value; each field holds that value; nothing else is written |
| Profiles.BuildProfileFields | backend/controllers/userController.js:37-60 | the six conditional writes, done in the handler's order, build exactly `ProfileFields` |
| Profiles.CopyIfDefined | backend/controllers/userController.js:39-41 | a defined value is written under its key and an undefined one leaves the fields unchanged |
| Profiles.WriteSkills | backend/controllers/userController.js:43-47 | a string of skills is written parsed, an array loses its falsy entries, and any other value writes nothing |
| Profiles.WriteEducation | backend/controllers/userController.js:50-55 | a truthy education is written as a fresh object holding its defined sub-fields |
| Profiles.WriteExperience | backend/controllers/userController.js:58-60 | experience is written only when it is an array |
| Profiles.OptionalFieldsCopied | backend/controllers/userController.js:39-41 | full name, portfolio link and resume link are written exactly when the body defines them, with the body's value, empty strings included |
| Profiles.StringSkillsClean | backend/controllers/userController.js:43-44 | skills sent as a string are stored as an array of non-empty, trimmed, comma-free strings |
| Profiles.ArraySkillsFiltered | backend/controllers/userController.js:43-47 | skills sent as an array keep their order and lose exactly their falsy entries, every truthy entry kept as often as it occurs; a value that is neither a string nor an array leaves the skills alone |
| Profiles.EducationCopied | backend/controllers/userController.js:50-55 | education is written exactly when the body's education is truthy, as an object holding exactly its defined university, degree and graduation year |
| Profiles.ExperienceCopied | backend/controllers/userController.js:58-60 | experience is written exactly when the body's experience is an array, and then as it is |
| Profiles.UpdateNeverTouchesPassword | backend/controllers/userController.js:37-60 | an update never writes the password, and never writes an undefined value |
| Profiles.WithoutPassword | backend/controllers/userController.js:7 | `select('-password')` shows every stored field except the password, and invents none |
| Profiles.MergeProfile | backend/controllers/userController.js:69-73 | `$set` gives the written fields their new values and keeps every other field, the password included; repeating the same update changes nothing more |
| Profiles.UserStore.GetUserProfile | backend/controllers/userController.js:5-23 | an unknown user gives 404; otherwise the response is 200 with the stored user without its password |
| Profiles.UserStore.UpdateUserProfile | backend/controllers/userController.js:26-80 | an unknown user gives 404 and nothing changes; otherwise the stored user is merged with `ProfileFields(body)`, no other user changes, and the merged user is returned without its password |

## Left out

- Persistence, HTTP transport, authentication middleware, email and the AI chat and recommendation helpers are not modelled. The database is in-memory state, requests are parameters, and `req.user.id` is an explicit argument.
- The 500 answers caused by database failures, by malformed ObjectIds (cast errors) and by Mongoose casting a body of the wrong type are not modelled. The 500 for a create body missing a required field is modelled.
- `getAllInternships` is not modelled. It is the admin listing that populates applicant documents, a join across collections.
- `CatalogStore.Catalog.UpdateInternshipStatus` writes any status string, as the handler does. The schema's enum is not enforced on `findByIdAndUpdate` without `runValidators`. The enum is enforced when `applyToInternship` saves the record (`Internships.ApplyTo`). An absent `status` in the body is not modelled separately.
- `Profiles.UserStore.UpdateUserProfile` stores the body's values as sent: Mongoose's casting to the User schema's types is not modelled (a string `graduationYear` becoming a number, numbers in `skills` becoming strings, `experience` entries gaining an `_id` and losing keys the schema lacks).
- The schemas' `timestamps` option is not modelled: the `createdAt` and `updatedAt` fields are not part of the records or the user documents. Creating an internship, updating its status and saving it in `applyToInternship` write them, and so does the user update's `findByIdAndUpdate`, which sets the user's `updatedAt`. No handler reads them.
- Internships.ApplyTo: handlers are modelled as atomic steps; concurrent requests are not modelled. In the source, `applyToInternship` awaits between loading the record and saving it. So two interleaved applications by one user can both pass the repeat check and both append, and a delete that lands in between makes the save fail. `Internships.ApplyKeepsCatalogValid` holds only for requests served one at a time.
- `CatalogStore.Catalog.RecommendedInternships` takes the users' stored skills as a map from identity to skill list. The `user.skills || []` default for a user stored without skills is folded into that map.
- `Text.LowerChar` models `toLowerCase` for ASCII letters only; other Unicode case mappings are not modelled.
- `Profiles.Json` numbers are integers; floating-point values in request bodies are not modelled.
- Scoring.RoundHalfUp: rounds the exact ratio 100 * overlap / length, whereas `computeSkillScore` rounds the floating-point product `(overlap / length) * 100`; where that product lands just below an exact half, JavaScript may round down where the model rounds up.
- `Profiles.UserStore.UpdateUserProfile` does not model schema validation (`runValidators`) of the merged document.
- `Array.prototype.sort` is modelled as a stable insertion sort. `Recommendation.StableSortIsUnique` shows that any stable descending sort gives the same result.
