# schedule-checker-backend: a Dafny model of the assignment handlers and calendar reconciliation

The service stores *assignments*: an agent, a property address, a submission
time, and two flags, `scheduled` and `hidden`. It offers CRUD handlers over
them under `/api/assignments`. A calendar system can also POST an event to
`/api/events`. That handler fuzzy-matches the event's address against every
stored address. It then sets the best match's `scheduled` flag from the
event's status.

This project models each of these handlers as a pure function. Each one takes
the assignments table (`Store`, a sequence of rows in insertion order) and the
request parts after decoding. The read-only handlers return their result
without a table: `Get`, `All` and `Hidden` return the rows, and `Scheduled`
and `Single` return an `Outcome`. The handlers that write (`Create`,
`BatchCreate`, `Hide`, `Schedule` and `Update`) return a `Reply`: the
handler's `Outcome` together with the table after the request.

- `Ok(value)` is a 200 response.
- `Abort(fault)` is a thrown `Abort`. The `Fault` names which check failed, and
  `Http.StatusCode` maps it to 400, 404 or 500.
- `Trap` is a Swift runtime trap.

Modules:

- `Wrappers`: `Option`, for Swift's `T?`.
- `CollectionOptional`: the bounds-checked subscript `collection[optional: i]`.
- `Models`: the `Assignment` and `CalendarEvent` records and the table. `ValidStore` says every row has an id and no two rows share one.
- `Http`: faults, status codes, outcomes, and Swift's `Bool(String)`.
- `Database`: the slice of Fluent that the handlers use. That is `find` (`IndexOf`) and `save` (`Save`, `SaveAll`). It also covers the query builder: one equality `Filter`, a newest-first sort, and an optional limit (`Limit`, `Run`).
- `AssignmentController`: `get`, `all`, `scheduled`, `hidden`, `single`, `create`, `batchCreate`, `hide` and `schedule`.
- `CalendarEventController`: `search(for:in:)` and `update(req:)`.

The fuzzy matcher (Fuse) is a parameter of `Update`. It can be any
deterministic function from the query and the address list to a sequence of
`(index, score)` results. Scores are `real`, and only `>` is applied to them.
Whether Fuse's score means similarity or distance is not stated here.
The selection is modelled exactly as written: the first result of maximal
score wins, and only a score strictly above 0.0 is accepted.

Where the code and its own tests disagree, the model follows the code:

- `testLimitedAssignmentsRetrievedFromAPI` expects 25 rows from `GET /api/assignments`, but the query caps the page at 20 (AssignmentController.swift:37).
- `testUnscheduledAssignmentsRetrievedFromAPI` expects `/scheduled/false` to exclude hidden rows, but that query filters on `scheduled` only (AssignmentController.swift:64-68).
- `testScheduledAssignmentsRetrievedFromAPI` (AssignmentTests.swift:92-94) expects 7 rows and no hidden ones from `/scheduled/true`. Its fixture makes the 10 odd-indexed rows scheduled, 3 of them hidden, and the code returns all 10, because the query does not filter on `hidden`.

Two further points where the behaviour follows the code:

- `NewestFirst` is non-increasing, because `ORDER BY submittedOn DESC` lets equal timestamps sit side by side.
- An empty array body traps on `assignments[0]` (AssignmentController.swift:113) rather than answering 400, so `Create` returns `Trap` in that case.

## Model

| member | source | states |
|---|---|---|
| CollectionOptional.At | Sources/App/Extensions/Collection+Optional.swift:9-11 | an index inside `0..<count` gives that element; a negative index (including the search's -1) or one at or past the end gives nil, so an empty collection always gives nil; it never reads out of bounds |
| Http.StatusCode | Sources/App/Controllers/AssignmentController.swift:86-132 | malformed id, flag, body or event answer 400; a missing record or no address match answer 404 (`single`, lines 86-98); a rejected write, such as a save throwing inside `batchCreate` (line 129), answers 500 |
| Http.ParseBool | Sources/App/Controllers/AssignmentController.swift:59-60 | `Bool(String)` succeeds on exactly "true" and "false", and the parsed value prints back as the input |
| Http.FlagParam | Sources/App/Controllers/AssignmentController.swift:144-147 | a boolean path parameter is usable exactly when it is present and parses, and then it is the parsed Bool |
| Http.ParseBoolRoundTrip | Sources/App/Controllers/AssignmentController.swift:168 | printing a Bool and parsing the text gives the same Bool back |
| Database.IndexOf | Sources/App/Controllers/AssignmentController.swift:92-95 | `find` gives the first row carrying the id, and gives nothing exactly when no row carries it |
| Database.IndexOfValid | Sources/App/Models/Assignment.swift:15-16 | in a table with unique ids, `find` by a row's id returns that row |
| Database.FreshId | Sources/App/Models/Assignment.swift:15-16 | an id generated for a model saved without one is not used by any row |
| Database.Save | Sources/App/Controllers/AssignmentController.swift:107-108 | saving appends the record under its own id, or under a generated id when it has none; it is rejected exactly when its own id is already taken; a generated id also differs from the ids of the items still to be saved in the same batch; every other field is kept, and ids stay unique |
| Database.SaveAll | Sources/App/Controllers/AssignmentController.swift:128-130 | saves run in order and each saved row is appended; the run is complete when every item was saved and otherwise stops short of the end, keeping the rows saved before; ids stay unique |
| Database.SaveAllRows | Sources/App/Controllers/AssignmentController.swift:128-131 | each saved row is its input item with an id, the item's own id when it had one |
| Database.SaveAllStop | Sources/App/Controllers/AssignmentController.swift:129 | a run stops only at an item whose own id is already in the table, counting the rows saved earlier in the same run |
| Database.SaveAllNewIds | Sources/App/Controllers/AssignmentController.swift:126-132 | a batch whose own ids are not in the table and pairwise distinct is saved completely; items without ids never collide |
| Database.Select | Sources/App/Controllers/AssignmentController.swift:47-48 | a filter keeps each matching row exactly as many times as the table holds it, and drops every other row |
| Database.InsertByDate | Sources/App/Controllers/AssignmentController.swift:49 | inserting into a newest-first list keeps it newest first, adds exactly the one row, and keeps every other row |
| Database.SortNewestFirst | Sources/App/Controllers/AssignmentController.swift:49 | the sort returns a permutation of its input ordered by `submittedOn`, descending |
| Database.Limit | Sources/App/Controllers/AssignmentController.swift:37 | `limit(n)` keeps the first n rows of a newest-first list, or all of them when there are fewer, and the result stays newest first |
| Database.Run | Sources/App/Controllers/AssignmentController.swift:35-39 | a query returns rows of the table that match its filter, newest first: all matching rows without a limit, and min(limit, matching rows) with one |
| AssignmentController.RunListing | Sources/App/Controllers/AssignmentController.swift:46-51 | an unlimited filtered, sorted query returns exactly the rows the filter keeps, newest first |
| AssignmentController.RunPage | Sources/App/Controllers/AssignmentController.swift:34-40 | a query with limit n returns min(n, number of matching rows) rows, newest first; each is a matching row of the table, and no matching row left out is newer than a returned one |
| AssignmentController.RunPageNewest | Sources/App/Controllers/AssignmentController.swift:37-38 | the limit applies after the sort: any matching row left out is no newer than every returned row |
| AssignmentController.Get | Sources/App/Controllers/AssignmentController.swift:34-40 | at most 20 non-hidden rows, newest first: the 20 newest non-hidden rows, or all of them when there are fewer |
| AssignmentController.All | Sources/App/Controllers/AssignmentController.swift:46-51 | every non-hidden row and nothing else, newest first, with no cap |
| AssignmentController.Scheduled | Sources/App/Controllers/AssignmentController.swift:58-69 | a flag other than "true"/"false" (or none) gives 400; otherwise it returns the 20 newest rows whose `scheduled` equals the flag, with hidden rows not excluded |
| AssignmentController.Hidden | Sources/App/Controllers/AssignmentController.swift:74-79 | exactly the hidden rows, newest first |
| AssignmentController.Single | Sources/App/Controllers/AssignmentController.swift:86-98 | an unparsable id gives 400; an id no row carries gives 404; otherwise it returns a row of the table with that id |
| AssignmentController.SaveOne | Sources/App/Controllers/AssignmentController.swift:107-117 | the save in `create` succeeds exactly when the record has no id or one not yet in the table, and then appends the record with an id (its own when it had one); any rejected save is 400 with the table unchanged |
| AssignmentController.Create | Sources/App/Controllers/AssignmentController.swift:105-120 | an object body is saved first; otherwise element 0 of an array body is saved; an empty array traps; every other failure, including a rejected save of a decoded object, is 400 and leaves the table unchanged; on success exactly the returned record is appended: the input with an id, which is the client's own id when it sent one |
| AssignmentController.SaveAllWithoutIds | Sources/App/Controllers/AssignmentController.swift:126-132 | a batch whose items carry no ids is saved completely |
| AssignmentController.SaveBatch | Sources/App/Controllers/AssignmentController.swift:128-131 | the loop saves the items in order: on success it returns every item with its id, and exactly those rows are appended; it aborts with 500 only at an item whose own id is already taken, keeping the rows saved before it; items whose own ids are new and distinct are always all saved |
| AssignmentController.BatchCreate | Sources/App/Controllers/AssignmentController.swift:126-132 | an undecodable body gives 400 and no change; on success it returns the decoded list in order and with the same length, each item with its id (the client's own when sent), and those rows are appended; a batch aborts with 500 only at an item whose own id is already in the table, keeping the rows saved before it; a batch whose own ids are new and pairwise distinct always succeeds |
| AssignmentController.Hide | Sources/App/Controllers/AssignmentController.swift:138-156 | the id is checked first, then the flag (400 on either); then an unknown id gives 404; otherwise only that row's `hidden` changes, to the flag, and every other field and row stays unchanged |
| AssignmentController.Schedule | Sources/App/Controllers/AssignmentController.swift:161-179 | the id is checked first, then the flag (400 on either); then an unknown id gives 404; otherwise only that row's `scheduled` changes, to the flag, and every other field and row stays unchanged |
| AssignmentController.CreateThenSingle | Tests/AppTests/AssignmentTests.swift:236-259 | a created record is then found by its id exactly as `create` returned it |
| AssignmentController.HideThenSingle | Tests/AppTests/AssignmentTests.swift:289-303 | after a successful hide, reading the record by id shows the new `hidden` value and the rest of the record unchanged |
| AssignmentController.ScheduleThenSingle | Tests/AppTests/AssignmentTests.swift:307-321 | after a successful schedule, reading the record by id shows the new `scheduled` value and the rest of the record unchanged |
| CalendarEventController.FoldFindsFirstMax | Sources/App/Controllers/CalendarEventController.swift:69-74 | from any running best, the strict-`>` fold keeps that best when nothing beats it; otherwise it ends on the earliest result of maximal score |
| CalendarEventController.FirstMaxExists | Sources/App/Controllers/CalendarEventController.swift:69-74 | every non-empty result sequence has a first position of maximal score |
| CalendarEventController.Search | Sources/App/Controllers/CalendarEventController.swift:63-77 | -1 when no score exceeds 0.0, which covers no results at all; when the first maximal result scores above 0.0, its index, so ties go to the first |
| CalendarEventController.SearchHasWinner | Sources/App/Controllers/CalendarEventController.swift:65-75 | when some score exceeds 0.0, the returned index is that of the earliest result of maximal score, and that score exceeds 0.0 |
| CalendarEventController.SearchNoMatch | Sources/App/Controllers/CalendarEventController.swift:65-70 | when results carry real positions, the search returns -1 exactly when no score exceeds 0.0 |
| CalendarEventController.Target | Sources/App/Controllers/CalendarEventController.swift:38-40 | the event's address is searched among the addresses of the loaded rows: -1 when no address scores above 0.0, otherwise the index of the first best-scoring address |
| CalendarEventController.Update | Sources/App/Controllers/CalendarEventController.swift:30-55 | an undecodable event gives 400 with the table untouched; an index outside the loaded rows (including -1 and any index on an empty table) gives 404 with the table untouched; otherwise only the chosen row's `scheduled` changes: it becomes true for "confirmed" and false for any other status; every other field and row is kept, and the updated row is returned |
| CalendarEventController.UpdateSelectsBestMatch | Sources/App/Controllers/CalendarEventController.swift:38-44 | a successful reconciliation updated the row at the position of the earliest best-scoring match, and that match scored above 0.0 |
| CalendarEventController.UpdateIdempotent | Sources/App/Controllers/CalendarEventController.swift:38-54 | applying the same event a second time leaves the table and the reply exactly as after the first application |

## Left out

- The Fuse scoring algorithm (CalendarEventController.swift:67-68) is a foreign library. `Update` takes the matcher as a parameter, and no property depends on how it scores.
- The `withCheckedContinuation` and async/await plumbing is left out. The search does no I/O and is modelled as synchronous.
- Concurrency is not modelled. Two reconciliations racing on one row (read then write) are outside a model of one request at a time.
- JSON decoding, including the three-format date chain in `configure.swift`, is not modelled. A body arrives already decoded as `Body`, as `Option<seq<Assignment>>` or as `Option<CalendarEvent>`. The date chain tries three formats in order, the first that parses wins, and otherwise decoding fails; those outcomes are folded into the decode result.
- UUID parsing of path parameters is not modelled. The id parameter arrives as `Option<Uuid>`, where `None` means missing or unparsable.
- Random UUID generation is replaced by `FreshId`, a deterministic id used neither by a row of the table nor by an item still to be saved in the same batch. A collision between two random UUIDs is therefore not modelled.
- Database failures other than a duplicate primary key are not modelled. Examples are a lost connection or a failed `update` write, which Vapor would report as 500.
- Route registration (`boot`), the migration, `configure.swift`'s database and middleware setup, and the test helpers (`Date+RandomBetween`, Faker fixtures) are plumbing or randomness.
- The commented-out `delete` handler and the `EventLoopFuture` reconciliation path are dead code.
- Database.SortNewestFirst: SQL's `ORDER BY` leaves the order of equal timestamps open. The model orders them as they appear in the table, and no contract depends on that choice.
- CalendarEventController.Update: the rows come from `Assignment.query(on: req.db).all()` (CalendarEventController.swift:38) with no sort, so SQL leaves their order open. The model loads them in table order. That choice decides which of two equally scored rows the search picks, and `UpdateIdempotent` relies on the order staying the same between two calls.
- CalendarEventController.Update writes the changed row back by position. Fluent writes it back by id. The two agree on every table whose ids are unique, and every handler preserves that (`ValidStore`).
