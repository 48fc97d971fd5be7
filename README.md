# User segmentation engine — a Dafny model

This project models the core of a Go service that manages user **segments**
(named audience cohorts) and the assignment of users to them. It covers the
following parts:

- the two Postgres tables, as in-memory stores:
  - the segment catalog `segments`, a map from id to row (class `SegmentDB`);
  - the relation `user_segment_assignment`, a map from the pair
    (segment id, user id) to provenance and time (class `UserDB`);
- the two services on top of them:
  - segment create/get/list/update/delete (`SegmentService`);
  - single assign and unassign, the two listings, and the randomized mass
    assignment (`UserSegmentService`);
- the record-building part of the segment HTTP handler: create defaults and
  the partial-update merge (`SegmentHandler`).

Modules follow the source files:

| module | file |
|---|---|
| `Models` | `models.dfy` |
| `SegmentRepository` | `segment_repository.dfy` |
| `UsersRepository` | `users_repository.dfy` |
| `SegmentService` | `segment_service.dfy` |
| `UserSegmentService` | `user_segment_service.dfy` |
| `SegmentHandler` | `segment_handler.dfy` |

The model is built as follows:

- **Stores.** Both stores are classes whose methods change a `map` field.
  Each SQL statement is stated by its effect on that map.
- **Order of SELECTs.** A SELECT without `ORDER BY` visits rows in an
  unspecified order. The model picks the next key with `:|`, so its contracts
  hold for every order.
- **Ordered SELECTs.** `ORDER BY created_on DESC` and
  `SELECT DISTINCT user_id ... ORDER BY user_id` are modelled as inserting
  each row into a sorted sequence.
- **Outside inputs.** Clocks (`time.Now`), fresh ids (`uuid.New`) and the
  shuffle (`rand.Shuffle`) become parameters. So does the database's answer
  to each segment lookup by id (`lookupFault`, or `lookupFaults(i)` for the
  i-th lookup of a loop) and to each assignment write (`fault`, `faults(i)`):
  `None` when the statement succeeds, otherwise the error it reports.
- **Mass assignment.** Its write loop is also given as a fold, `Batch`. The
  loop (`AssignSelected`) is proved equal to `Batch`, and lemmas about
  `Batch` give its properties:
  - the tally;
  - early exit on a hard error;
  - no rollback of earlier writes;
  - the frame (nothing else changes);
  - the fault-free case.

Values:

- A UUID is a `nat`: its 16 bytes read as a big-endian number. This is also
  the order Postgres sorts `uuid` values in.
- Times are `int` nanoseconds.
- A segment's `config` is an opaque byte sequence.
- A missing row is the error `NoRows`, which is what `Scan` returns.
- An error whose text contains "duplicate" or "already exists" is the error
  kind `Duplicate`.
- Every other error is `Failure`.

Three behaviours of the code are worth stating because the code reads
otherwise at first sight:

- **Missing segment.** `SegmentDB.GetByID` returns the `Scan` error for a
  missing row and never `(nil, nil)`. The `seg == nil` branches of both
  services are therefore dead, and a missing segment comes back as the error
  `NoRows`. The model has no such branches.
- **Orphaned assignments.** The `seg != nil` check in `ListUserSegments`
  suggests that assignments whose segment was deleted are skipped. Because of
  the previous point, the whole listing fails instead (see Findings).
- **Creation time.** The handler, the service and the store each stamp a new
  segment's creation time, and the store's stamp is the one kept.

## Model

| member | source | states |
|---|---|---|
| `Models.ParseType` | internal/models/segmentModel.go:9-15 | converting a string to a segment type loses nothing (its stored name is the string). The three documented names map to the three named types; every other string is kept as an unlisted type |
| `Models.ParseTypeName` | internal/models/segmentModel.go:9-15 | reading back a stored type name gives the type it was stored from |
| `SegmentRepository.Overwrite` | internal/storage/SegmentRepository.go:97-105 | the UPDATE takes name, type, config, description and is_active from the new record and keeps the row's id and creation time |
| `SegmentRepository.SegmentDB.Create` | internal/storage/SegmentRepository.go:21-41 | the caller's id is replaced by the fresh id and its creation time by the store clock. All seven fields are stored under the new id and no other row changes. The catalog keeps every row under its own id |
| `SegmentRepository.SegmentDB.GetByID` | internal/storage/SegmentRepository.go:43-63 | an error the database reports is returned as is. Otherwise an existing id yields its stored row (whose id is that id), and a missing id yields the error NoRows, never an empty success |
| `SegmentRepository.SegmentDB.List` | internal/storage/SegmentRepository.go:65-94 | the result holds every stored segment exactly once and nothing else, newest first by creation time |
| `SegmentRepository.SegmentDB.Update` | internal/storage/SegmentRepository.go:96-115 | the row with that id gets the five mutable columns and keeps its id and creation time. All other rows are unchanged. An absent id changes nothing, and neither does writing back the row as stored |
| `SegmentRepository.SegmentDB.Delete` | internal/storage/SegmentRepository.go:117-124 | only the row with that id is removed; an absent id changes nothing |
| `UsersRepository.Upsert` | internal/storage/UsersRepository.go:19-26 | after the upsert the pair holds the new type and time. The key set gains at most that pair, and every other row keeps its value |
| `UsersRepository.UpsertSize` | internal/storage/UsersRepository.go:23-25 | re-assigning an existing pair adds no row; a new pair adds exactly one |
| `UsersRepository.UpsertIdempotent` | internal/storage/UsersRepository.go:19-26 | adding the same assignment twice leaves the same relation as adding it once |
| `UsersRepository.UpsertLastWriteWins` | internal/storage/UsersRepository.go:23-25 | two writes to the same pair leave the second write's type and time |
| `UsersRepository.AscendingUnique` | internal/storage/UsersRepository.go:103-107 | an ascending list of user ids is fixed by its elements, so the sorted DISTINCT listing is the same whatever order the rows are read in |
| `UsersRepository.UserDB.Add` | internal/storage/UsersRepository.go:16-33 | a successful write is the upsert. A failed write returns its error and leaves the relation unchanged |
| `UsersRepository.UserDB.Delete` | internal/storage/UsersRepository.go:35-43 | only the row matching both ids is removed; an absent pair changes nothing |
| `UsersRepository.UserDB.ListByUser` | internal/storage/UsersRepository.go:45-71 | the result is exactly the rows whose user id is the argument, all four columns, with no segment twice |
| `UsersRepository.UserDB.ListBySegment` | internal/storage/UsersRepository.go:73-99 | the result is exactly the rows whose segment id is the argument, all four columns, with no user twice |
| `UsersRepository.UserDB.GetAllUserIDs` | internal/storage/UsersRepository.go:102-123 | the result is strictly ascending and holds every user id of the relation once, so its length is the number of distinct users |
| `SegmentService.SegmentService.CreateSegment` | internal/service/SegmentService.go:29-35 | the record returned is the one the store filled in and stored, with the store's id and creation time, and no other row changes. The service's own stamp is overwritten. Time precision is exact in the model (see Left out) |
| `SegmentService.SegmentService.GetSegmentByID` | internal/service/SegmentService.go:37-46 | returns the stored segment exactly when the lookup meets no database error and the id exists. Otherwise it returns the database's error, or NoRows for a missing id; never an empty success |
| `SegmentService.SegmentService.ListSegments` | internal/service/SegmentService.go:48-50 | returns the store's listing: every segment once, newest first |
| `SegmentService.SegmentService.UpdateSegment` | internal/service/SegmentService.go:52-64 | succeeds exactly when the lookup meets no database error and the id exists. Then the input record is returned unchanged and the store update is applied; the stored row equals the input except for its kept creation time. Otherwise it returns the lookup's error (the database's, or NoRows) and writes nothing |
| `SegmentService.SegmentService.DeleteSegment` | internal/service/SegmentService.go:66-75 | deletes exactly when the lookup meets no database error and the id exists. Otherwise it returns the lookup's error (the database's, or NoRows) and deletes nothing |
| `UserSegmentService.Resolve` | internal/service/UserSegmentService.go:57-73 | the listing succeeds exactly when every lookup succeeds, and then gives each assignment's segment in assignment order. Otherwise it fails with the error of the first lookup that fails, in assignment order |
| `UserSegmentService.ResolveStopsAt` | internal/service/UserSegmentService.go:63-67 | when every lookup before position i succeeds and the i-th fails, the listing fails with the i-th lookup's error, whatever comes after |
| `UserSegmentService.ResolveFirstFailure` | internal/service/UserSegmentService.go:63-67 | a failed listing carries the error of a failing lookup all of whose predecessors succeeded |
| `UserSegmentService.ResolveAppend` | internal/service/UserSegmentService.go:63-70 | a further assignment whose lookup succeeds extends a successful listing by exactly its segment |
| `UserSegmentService.ResolveLive` | internal/service/UserSegmentService.go:62-71 | the orphan-skipping listing: every live assigned segment appears, every element is the segment of some live assignment, and it is never longer than the assignments |
| `UserSegmentService.ResolveLiveIsFiltered` | internal/service/UserSegmentService.go:62-71 | the intended listing equals the as-written listing run on the live assignments only: same segments, same order, same multiplicity |
| `UserSegmentService.ResolveLiveWithoutOrphans` | internal/service/UserSegmentService.go:62-71 | with no orphaned assignment and no database error, the intended listing and the listing as written agree |
| `UserSegmentService.OrphanedAssignmentFailsListing` | internal/service/UserSegmentService.go:63-70 | one orphaned assignment makes the listing fail with NoRows (when no earlier lookup meets a database error), although the live segments could still be listed |
| `UserSegmentService.OrphanExample` | internal/service/UserSegmentService.go:63-70 | user 7 in segments 1 and 2 with segment 1 deleted: the listing fails, the intended listing is segment 2 |
| `UserSegmentService.ResolveUserRows` | internal/service/UserSegmentService.go:58-72 | for the user's rows read in any order, `Resolve` succeeds exactly when no lookup meets a database error and every assigned segment exists. It then lists exactly the user's segments, with no segment twice |
| `UserSegmentService.SelectCount` | internal/service/UserSegmentService.go:119-122 | for n ≥ 1 users and 1 ≤ percent ≤ 100, between 1 and n users are selected. That is n·percent/100 rounded down, or 1 when that rounds to 0, and all n at 100 percent |
| `UserSegmentService.SelectCountExamples` | internal/service/UserSegmentService.go:119-122 | 30% of 10 users selects 3; 5% of 10 users selects 1 |
| `UserSegmentService.PermuteIsPermutation` | internal/service/UserSegmentService.go:114-117 | shuffling a repeat-free population gives the same users, each once |
| `UserSegmentService.BatchAbortIsFinal` | internal/service/UserSegmentService.go:129-136 | after a hard error the rest of the batch is not attempted: the outcome and the relation stay as they were at the error |
| `UserSegmentService.BatchTally` | internal/service/UserSegmentService.go:126-140 | a completed loop has assigned + skipped equal to the number of selected users |
| `UserSegmentService.BatchAbortsIffHard` | internal/service/UserSegmentService.go:131-136 | the loop aborts exactly when some write meets an error other than the duplicate signal |
| `UserSegmentService.BatchWithoutFaults` | internal/service/UserSegmentService.go:126-140 | when no write fails, every selected user is assigned, none is skipped, and each is in the segment afterwards |
| `UserSegmentService.BatchKeepsRows` | internal/service/UserSegmentService.go:126-140 | the loop never removes an existing row |
| `UserSegmentService.BatchKeepsWrite` | internal/service/UserSegmentService.go:129-139 | a user written successfully before any hard error stays in the segment with provenance manual, even if the loop aborts later |
| `UserSegmentService.BatchFrame` | internal/service/UserSegmentService.go:129-140 | rows of other segments, and of users not selected, are untouched |
| `UserSegmentService.UserSegmentService.AssignUser` | internal/service/UserSegmentService.go:34-51 | a failed segment lookup returns its error (the database's, or NoRows) and performs no write. Otherwise it upserts one manual assignment for the pair stamped with the clock, or leaves the relation unchanged when the write fails, and returns the write's answer |
| `UserSegmentService.UserSegmentService.UnassignUser` | internal/service/UserSegmentService.go:53-55 | removes only the pair's row, with no existence check; an absent pair changes nothing |
| `UserSegmentService.UserSegmentService.ListUserSegments` | internal/service/UserSegmentService.go:57-73 | the assignments read are exactly the user's rows, and the result is `Resolve` of them. It succeeds exactly when no lookup meets a database error and none of the user's assignments names a deleted segment. Otherwise it fails with the error of the first failing lookup in the order read: the database's, or NoRows. On success it lists exactly the user's stored segments, each once |
| `UserSegmentService.UserSegmentService.ListSegmentUsers` | internal/service/UserSegmentService.go:75-85 | the user id of each assignment read for the segment, in the same order and of the same length. These are exactly the segment's members, each once |
| `UserSegmentService.UserSegmentService.AssignSelected` | internal/service/UserSegmentService.go:126-140 | the counting loop with early return ends in exactly the outcome and relation of the fold `Batch`, each user's answer being its lookup's error or else its write's |
| `UserSegmentService.UserSegmentService.MassAssignSegment` | internal/service/UserSegmentService.go:90-147 | a failed segment lookup returns its error (the database's, or NoRows) with no write, and an empty population returns {0,0,0} with no write. Otherwise it takes the first SelectCount(n, percent) users of the shuffled ascending population, which are distinct known users, and the relation and result are those of `Batch`. A success reports TotalUsers = n and assigned + skipped = the number selected, and touches no other rows. With no failing lookup or write it reports {n, count, 0} and every selected user is a member |
| `SegmentHandler.SegmentHandler.NewSegment` | internal/handler/SegmentHandler.go:33-46 | name and config are as sent and the type is the sent string converted. Description is "" and active is true unless supplied. There is no id yet and the creation time is the handler clock |
| `SegmentHandler.SegmentHandler.MergeUpdate` | internal/handler/SegmentHandler.go:142-156 | each of name, type, config, description and active is replaced exactly when supplied. Id and creation time never change, and a request supplying nothing leaves the record as it was |
| `SegmentHandler.SegmentHandler.CreateSegment` | internal/handler/SegmentHandler.go:33-51 | reading the new id back gives the created record: the request's fields with the defaults, plus the fresh id and the store's time (exactly, in the model; see Left out). No other row changes |
| `SegmentHandler.SegmentHandler.UpdateSegment` | internal/handler/SegmentHandler.go:132-161 | succeeds exactly when both lookups (the handler's and the service's) meet no database error and the segment exists. Otherwise it returns the first lookup error (the database's, or NoRows) and issues no update. On success the stored row becomes the returned record and no other row changes. In that record, each of name, type, config, description and active is the request's value (the type converted) when supplied and the old row's value otherwise. Id and creation time are the old row's. An empty request changes nothing |

## Findings

| source | as written | input that shows it | evidently intended | confidence | as-written member | corrected member |
|---|---|---|---|---|---|---|
| internal/service/UserSegmentService.go:64-70 | `GetByID` of a deleted segment returns the `Scan` error, so the listing returns that error and the `seg != nil` skip never happens | user 7 assigned to segments 1 and 2; segment 1 deleted with `DeleteSegment`, which leaves its assignments | skip the orphaned assignment and list segment 2 | medium: holds unless the assignment table has a cascading foreign key, which the migrations decide; not executed | `UserSegmentService.OrphanExample` | `UserSegmentService.ResolveLive` |

## Left out

- Database I/O: the pgx pool, SQL execution, `context` and `log.Printf`. Each table is a map updated one statement at a time.
- Concurrency: ON CONFLICT atomicity under concurrent requests, and the non-transactional batch seen by concurrent readers.
- Failures of database round trips other than segment lookups by id and assignment writes. Not modelled:
  - connection or server errors from `List`, `ListByUser`, `ListBySegment` and `GetAllUserIDs`, and from the segment INSERT, UPDATE and DELETE;
  - the assignment DELETE.

  The `return nil, err` paths after those calls are therefore absent. `GetByID` and `UserDB.Add` take the database's answer as a parameter.
- `UserSegmentService.ResolveLive`: the intended listing is stated for a database that answers every lookup. How the intended code would treat a lookup error other than a missing row is not stated; the as-written `Resolve` aborts on it.
- `SegmentRepository.SegmentDB.Create`: requires the fresh id to be absent from the catalog; an id collision (a unique-key error) is not modelled.
- The PRNG: `rand.Seed` and `rand.Shuffle` are replaced by an arbitrary permutation `order` of the positions. Uniformity of the selection is not modelled.
- In-place updates and pointer aliasing: `Create` and `CreateSegment` write `ID` and `CreatedOn` into the caller's `*Segment`, and the handler's merge writes into `existing`. The model passes these records as values and returns the updated record.
- Unreachable branches: the `seg == nil` branches in both services, and the handler's `existing == nil` branch, cannot be taken.
- Error text matching: the substring test for "duplicate"/"already exists" is the error kind `Duplicate`.
- HTTP plumbing: JSON decoding and encoding, URL parameters, `uuid.Parse`, status codes and response DTOs. From the assignment handler only the percent check (1 to 100) is kept, as the precondition of `MassAssignSegment`.
- Go `int` overflow in `len(userIDs) * percent` is not modelled; counts are unbounded integers.
- nil versus empty slices (an empty listing encodes as JSON `null`) is not modelled.
- `SegmentService.SegmentService.CreateSegment`: the store's `time.Now()` stamp carries nanoseconds, but Postgres timestamp columns keep microseconds. So in the running program the returned record and the row read back can differ in `CreatedOn` below the microsecond. The model stores times exactly and does not capture this rounding.
- `SegmentHandler.SegmentHandler.CreateSegment`: reading the new id back gives the created record exactly only because the model does not round `created_on` to microseconds (see the previous line).
- `UsersRepository.UserDB.Add`: `assigned_at` is likewise kept to the microsecond by the database, while the model keeps the exact clock value.
- The database schema (migrations): column types, CHECK constraints and foreign keys are not part of this model. The relation is assumed to accept any pair, and deleting a segment leaves its assignments.
