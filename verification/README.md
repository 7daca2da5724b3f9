# Student database API — Dafny model

This project models the student-record API in `main.py`. The in-memory list of student
records becomes an explicit `seq<Student>`. Each endpoint body becomes a pure function
over that list. These are:

- lookup by id;
- create, update and delete;
- the filtered listing;
- the analytics endpoints: the performance summary, per-category and per-residence
  statistics, toppers, and at-risk students.

Handlers that change the list return the new list. An `HTTPException` becomes the `Err`
variant of `Outcome.Result`, carrying `NotFound` (404) or `AlreadyExists` (400). The
framework rejects a request body or query parameter that breaks its declared bounds
before the handler runs. That rejection is the `Unprocessable` (422) error. No operation
takes it as a precondition.

Modules:

- `Outcome` (outcome.dfy): `Option`, `Result` and the API errors.
- `Records` (records.dfy): `Student`, the `WellFormed` bounds of the request model, the
  partial `StudentUpdate`, and the id-uniqueness invariant.
- `Seqs` (seqs.dfy): order-preserving `Filter`, which is the shape of every list
  comprehension in the handlers, and the subsequence relation.
- `Store` and `StoreLaws` (store.dfy): `find_student` and the CRUD handlers, how they
  relate to each other, and the request-sequence invariant.
- `Listing` (listing.dfy): `get_all_students`.
- `GpaStats` (gpastats.dfy): sum, max, min and mean of a GPA list.
- `GpaSort` (gpasort.dfy): a stable insertion sort by GPA, in either direction.
- `Analytics` (analytics.dfy): the summary, the grouping statistics, toppers and at-risk.

GPA is an exact `real`. Category and residence are enums. The residence value
"Day Scholar" is `DayScholar`.

## Model

| member | source | states |
|---|---|---|
| Records.ApplyUpdate | main.py:88-89 | the id is kept; each field the update supplies is overwritten, and each field it leaves `None` keeps its old value |
| Store.FindStudent | main.py:37-41 | succeeds exactly when some record has the id; then it returns the first such index and the record there; otherwise it fails with not-found for that id |
| Store.GetStudent | main.py:68-71 | succeeds exactly when the id is present; returns the first record with that id, as lookup finds it, and with unique ids it is the only one |
| Store.AddStudent | main.py:74-82 | fails with 422 when the record breaks the field bounds, and with "already exists" when the id is in use; otherwise it appends the record at the end, leaves all earlier records unchanged, and preserves id uniqueness and well-formedness |
| Store.UpdateStudent | main.py:85-92 | fails with 422 when the update breaks its bounds and with not-found when the id is unknown, and only then; otherwise the length is unchanged, the record at lookup's first matching position becomes the updated record, every other position is unchanged, and unique ids stay unique |
| Store.DeleteStudent | main.py:95-100 | fails with not-found exactly when the id is unknown; otherwise it removes and reports the record at lookup's first matching position, the records before and after it are kept in order, the length drops by one, and with unique ids the id is gone |
| Store.RemoveAtFacts | main.py:97-98 | removing the found position leaves one record fewer, in the same relative order, with the removed record's copy gone from the multiset; with unique ids its id no longer occurs |
| StoreLaws.AddThenFind | main.py:74-82 | a record just added is found by its id at the last position |
| StoreLaws.AddThenDelete | main.py:95-100 | deleting the record just added restores the previous list and reports that record |
| StoreLaws.UpdateThenFind | main.py:85-92 | after an update, lookup finds the updated record at the same position |
| StoreLaws.UpdateIdempotent | main.py:88-90 | sending the same update again leaves the result of the first one unchanged |
| StoreLaws.UpdateNothingChangesNothing | main.py:88-90 | an update that supplies no field leaves the list as it was |
| StoreLaws.StepPreservesInvariant | main.py:74-100 | with updates through the name-checking handler, one create, update or delete request keeps ids unique and records well formed |
| StoreLaws.RunPreservesInvariant | main.py:74-100 | with updates through the name-checking handler, any sequence of create, update and delete requests served one at a time keeps ids unique and records well formed |
| StoreLaws.RunAsWrittenPreservesUniqueIds | main.py:74-100 | with the handlers as written, any sequence of create, update and delete requests served one at a time keeps ids unique |
| StoreLaws.UpdateCanEmptyName | main.py:24-25 | an update the update model accepts gives a well-formed record an empty name |
| StoreLaws.UpdateStudentChecked | main.py:17 | the update handler that also enforces the name's minimum length; an update that breaks a bound, the empty name included, fails with 422 as a new record's empty name does, an unknown id fails with not-found, it agrees with the as-written handler whenever it succeeds, and it keeps every record well formed |
| Listing.ListStudents | main.py:44-65 | fails with 422 exactly when a GPA bound is outside [0, 10]; otherwise `total` is the result's length, the result is the in-order filter of the list by "matches every active filter", so every returned record satisfies each active filter and every matching record is returned as many times as it occurs, and with no filters the result is the whole list |
| Listing.StagesAreOneFilter | main.py:52-63 | the five filters applied one after another select exactly the records matching all active filters, in list order; a semester of 0 disables its filter |
| GpaSort.Sort | main.py:173 | the result is sorted by GPA in the requested direction and is a permutation of the input |
| GpaSort.PrefixDominates | main.py:174 | in a list sorted by GPA descending, every record of a prefix has a GPA at least that of every record after it |
| Analytics.TakeBest | main.py:173-174 | the first `count` records of the descending sort are sorted and are drawn from it, and each has a GPA at least that of every record not taken |
| GpaStats.Gpas | main.py:109 | the GPA list has one entry per record, in order |
| GpaStats.Max | main.py:111 | the maximum is an element and bounds every element from above |
| GpaStats.Min | main.py:112 | the minimum is an element and bounds every element from below |
| GpaStats.MeanBetweenExtremes | main.py:110-112 | the unrounded average of a non-empty GPA list lies between its minimum and maximum |
| Analytics.Level | main.py:115-123 | the first of `>= 9`, `>= 7`, `>= 5` that holds picks the level, else below average; each GPA is in exactly one level, and the four intervals are stated |
| Analytics.Tally | main.py:114-123 | each level's counter equals the number of GPAs in that level, and the four counters sum to the list length |
| Analytics.PerformanceSummary | main.py:103-131 | an empty list gives the "no students" answer; otherwise the total is the list length, the level counts are the per-level counts and sum to the total, the average is the unrounded mean and lies between lowest and highest, and highest and lowest are GPAs of records that bound every record's GPA |
| Analytics.MembersSound | main.py:136-140 | every GPA collected for a key is the GPA of a record with that key |
| Analytics.MembersComplete | main.py:136-140 | the GPA of every record with a key is collected for that key |
| Analytics.MembersAreFilter | main.py:136-140 | a key's collected list is exactly the GPAs of the records with that key, one per record and in list order |
| Analytics.KeysOf | main.py:135-140 | the keys are distinct, and every record's key is among them |
| Analytics.KeysHaveMembers | main.py:138-140 | every key has at least one collected GPA |
| Analytics.GroupSizesPartition | main.py:136-145 | the group sizes over all keys add up to the number of records |
| Analytics.GroupAgainstRecords | main.py:143-149 | a group's highest and lowest are GPAs of its members, bound every member's GPA, and bound the group's average |
| Analytics.GroupStats | main.py:134-150 | one entry per distinct field value; each entry's count is the number of records with its key, which is at least one, and its average is the mean of those records' GPAs; the entry counts sum to the list length; each entry's average is the mean of its group, its lowest and highest are member GPAs that bound every member's GPA and the average |
| Analytics.CategoryWise | main.py:153-155 | the per-category entries have distinct keys, cover every record and count all records between them; each entry's average is the mean of its group, and its lowest and highest are member GPAs that bound every member's GPA and the average |
| Analytics.ResidenceWise | main.py:158-160 | the per-residence entries have distinct keys, cover every record and count all records between them; each entry's average is the mean of its group, and its lowest and highest are member GPAs that bound every member's GPA and the average |
| Analytics.Pool | main.py:168-171 | the pool is an in-order subsequence of the list; it holds every record of the requested category (every record without one) as many times as it occurs, and no other record |
| Analytics.Toppers | main.py:163-176 | fails with 422 unless 1 <= count <= 100; otherwise it shows min(count, pool size) records drawn from the pool, sorted by GPA non-increasing, and every shown GPA is at least every unshown pool record's GPA |
| Analytics.AtRisk | main.py:179-186 | fails with 422 unless the threshold is in [0, 10]; otherwise it echoes the threshold, returns exactly the records with GPA below it (each with its multiplicity in the list) sorted by GPA non-decreasing, and the count is their number |

## Findings

| source | as written | input that shows it | evidently intended | confidence | as-written member | corrected member |
|---|---|---|---|---|---|---|
| main.py:24-25 | the update model's `name` is `Optional[str]` with no minimum length, while a new record's name needs at least one character (main.py:17) | updating an existing record with the body `{"name": ""}` stores a record with an empty name | a supplied name obeys the same `min_length=1` bound as a new record's | medium; not executed | StoreLaws.UpdateCanEmptyName | StoreLaws.UpdateStudentChecked |

`Store.UpdateStudent` models the handler as written. The request-sequence model
`StoreLaws.Step` and `StoreLaws.Run` sends updates through the corrected
`UpdateStudentChecked`, and keeps both unique ids and well-formed records. The
as-written sequence `StoreLaws.StepAsWritten` and `StoreLaws.RunAsWritten` keeps
unique ids only.

## Left out

- Loading the list from `students_data.json` and saving it after each change is file
  I/O. The list is instead an explicit input and output of each handler.
- The FastAPI application, route decorators and the `uvicorn` launch are framework
  plumbing. The default query values (`count` 10, `threshold` 5.5) are left to the
  caller of `Analytics.Toppers` and `Analytics.AtRisk`.
- Pydantic's type coercion and the framework's validation machinery are not modelled.
  The declared bounds are the `WellFormed`, `UpdateValid` and parameter checks, which
  lead to `Unprocessable`.
- Case-insensitive string matching of the `category` and `residence` filters is not
  modelled. Filters are optional enum values. An empty filter string is treated like an
  absent one, as Python's truthiness test does. A string naming no category or residence
  matches nothing in the source and cannot be written in the model.
- `round(..., 2)` on averages is float presentation. Averages are the exact, unrounded
  mean, and floating-point rounding of GPAs in general is not modelled.
- Analytics.Toppers: does not state which of several records with the same GPA at the
  cut-off are shown. The source's stable sort keeps list order, and the model's sort is
  stable by construction, but no contract states stability. The contract only says that
  the shown records dominate the unshown ones.
- Analytics.AtRisk: like toppers, the contract does not state the stable order of
  records with equal GPAs.
- Analytics.GroupStats: the result is a list of entries in first-appearance order rather
  than a dictionary keyed by the field's value. It is not stated that an entry's key
  is one of the field's values; the contract only says each entry has members.
- The response messages ("Student added successfully" and so on) and the
  `student` echo in the create response are not modelled. The update and delete handlers
  return the new list and the affected record; the create handler returns the new list.
- The demo page `frontend (just for demo)/app.js` is not part of this model: it only
  calls these endpoints and renders their responses.
- Concurrency: requests are modelled as served one at a time (`StoreLaws.Run` and
  `StoreLaws.RunAsWritten` apply them in sequence). The handlers are plain functions,
  which the framework runs on a worker thread pool without a lock, so the check-then-append
  of create, the find-then-assign of update and the find-then-pop of delete are not atomic.
  Interleaved requests are not covered; for example an update that found index 5, run
  across a delete of index 2, overwrites another record and duplicates an id.
