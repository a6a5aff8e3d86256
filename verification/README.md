# Classes controller of proffy-backend, modelled in Dafny

proffy-backend matches students with tutors. A tutor registers a *class*: one
subject at an hourly cost, plus a weekly schedule of time windows. A student
searches by subject, weekday and time of day. Both operations live in
`ClassesController`:

- `index` is the availability search. It rejects a query that is missing a
  filter. Otherwise it converts the time to minutes since midnight and returns
  every class of the subject that owns a schedule slot covering that weekday
  and minute. Each class is joined with its owning user.
- `create` is the listing registration. Inside one database transaction it
  inserts a user, a class owned by that user, and one `class_schedule` row
  per schedule item, with both times converted to minutes. It then commits.
  On any failure it rolls back and answers with one generic error.

The model works over an in-memory store of three tables (`users`, `classes`,
`class_schedule`), each a sequence of immutable rows in store order:

- `tables.dfy`, module `Tables`: the rows and the store; the model's id
  generator (one past the largest id in use); the integrity invariants
  (unique primary keys, resolving foreign keys, no user without a class).
- `class_search.dfy`, module `ClassSearch`: `index` as the pure function
  `Index`, built from the `whereExists` scan (`AnySlotCovers`), the inner join
  (`Join`) and the class scan (`Select`). The class scan is proved to agree
  with the reference predicate `Matches`.
- `class_registration.dfy`, module `ClassRegistration`: `create` as the pure
  function `Create`. It runs the transaction's steps in order (`Transaction`)
  and returns either the committed store or the unchanged store with the
  error.
- `search_after_create.dfy`, module `SearchAfterCreate`: what a search sees
  after a registration, plus a registration-then-search walk-through.

Search is read-only by construction: `Index` takes a store and returns no
store.

The hour-to-minute converter (`../utils/convertHoursToMinutes`) is not part
of this model. Every operation takes it as a parameter
`conv: string -> Option<int>`, where `None` means the string cannot be
converted. In `create` a failed conversion throws inside the `try`, so the
transaction rolls back. In `index` there is no `try`, so the search ends in
the outcome `TimeNotConverted` and no result is sent.

`create` does not check that a slot ends after it starts
(src/controllers/ClassesController.ts:79-86), so the model stores any pair of
converted times. `HalfOpenSlot` proves that such a slot never matches a
search.

## Model

| member | source | states |
|---|---|---|
| Tables.FreshId | src/controllers/ClassesController.ts:69 | The model's next id for an insert is larger than every id already in the table, so it is fresh. It is 1 for an empty table and otherwise one past the largest id. |
| Tables.NextUserId | src/controllers/ClassesController.ts:62-69 | The id `insertedUsersIDs[0]` returned for the new user belongs to no existing user. |
| Tables.NextClassId | src/controllers/ClassesController.ts:71-77 | The id `insertedClassesIDs[0]` returned for the new class belongs to no existing class. |
| ClassSearch.AnySlotCovers | src/controllers/ClassesController.ts:32-39 | The `whereExists` sub-query holds exactly when some schedule row has this class id and weekday, `from <= t` and `to > t`. |
| ClassSearch.Join | src/controllers/ClassesController.ts:41 | The inner join of a class with `users` gives exactly the pairs of that class with a user whose id equals the class's `user_id`. A class without such a user gives none. |
| ClassSearch.RowsOf | src/controllers/ClassesController.ts:32-41 | A class contributes a row iff the row pairs that class with a user of its `user_id`, the class has the filter subject, and it owns a covering slot: the subject test, the `whereExists` check and the join, for one class. |
| ClassSearch.Select | src/controllers/ClassesController.ts:31-42 | A row is in the scan of a class list iff its class is in the list, has the filter subject, owns a covering slot, and is paired with a user of its `user_id`. |
| ClassSearch.Search | src/controllers/ClassesController.ts:31-43 | The query's result rows are exactly the rows that satisfy the reference predicate `Matches` over the whole store. That no row is repeated is stated by `ClassSearch.SelectNoDuplicates`. |
| ClassSearch.Index | src/controllers/ClassesController.ts:15-45 | The query is refused with "Missing filters to search classes" iff `subject`, `week_day` or `time` is absent or empty; a week_day of 0 counts as present. With all filters given, the outcome is a conversion failure iff the time does not convert. Otherwise the result rows are exactly the matching class/user pairs for the converted minute. With unique keys each such pair appears exactly once (`ClassSearch.IndexRowsDistinct`). |
| ClassSearch.MissingFiltersSkipStore | src/controllers/ClassesController.ts:22-27 | A query missing a filter gets the same refusal whatever the store and whatever the converter, so no lookup and no conversion happens. |
| ClassSearch.NoCrossSubjectLeak | src/controllers/ClassesController.ts:40 | Every result's class has exactly the requested subject. |
| ClassSearch.HalfOpenSlot | src/controllers/ClassesController.ts:37-38 | A slot covers its start minute iff start < end. It never covers its end minute. A slot whose end is not after its start covers no minute. |
| ClassSearch.BackToBackSlots | src/controllers/ClassesController.ts:37-38 | Two slots where one ends at the minute the other starts never both cover the same minute. |
| ClassSearch.UnscheduledWeekDayFindsNothing | src/controllers/ClassesController.ts:31-44 | When all filters are given and the time converts, a weekday with no schedule rows, including one outside 0-6, gives an empty successful result, not an error. |
| ClassSearch.NothingCoveredSelectsNothing | src/controllers/ClassesController.ts:31-42 | If no schedule row has the requested weekday, the scan of any class list is empty. |
| ClassSearch.EveryMatchingClassFound | src/controllers/ClassesController.ts:31-42 | In a store whose keys are unique and whose foreign keys resolve, every class of the subject with a covering slot appears in the result, and always with the same single owner. |
| ClassSearch.JoinWithoutOwner | src/controllers/ClassesController.ts:41 | A class with no user of its `user_id` joins to nothing. |
| ClassSearch.JoinAtMostOne | src/controllers/ClassesController.ts:41 | With unique user ids the inner join gives a class at most one row. |
| ClassSearch.SelectNoDuplicates | src/controllers/ClassesController.ts:31-42 | With unique user ids and unique class ids the scan gives no row twice, so each matching (class, user) pair appears once. |
| ClassSearch.IndexRowsDistinct | src/controllers/ClassesController.ts:15-45 | With unique user and class ids a successful search result has no row twice. |
| ClassRegistration.ConvertSchedule | src/controllers/ClassesController.ts:79-86 | `schedule.map` succeeds iff both times of every item convert. On success it gives one row per item, in order, each carrying the class id, the item's week_day unchanged, and the converted `from`/`to`. |
| ClassRegistration.Create | src/controllers/ClassesController.ts:47-101 | The registration commits iff no insert is rejected, `schedule` is present, and every time converts. On commit the store gains exactly the user, the class owned by that user, and one schedule row per item, and no existing row changes. On failure the store is unchanged, with no orphan user, and the error is "Unexpected error while creating new class". The steps of the `try` block (lines 60-92) run in order in the helper `Transaction`, which stops at the first step that throws. |
| ClassRegistration.CreatePreservesWellFormed | src/controllers/ClassesController.ts:58-90 | A registration keeps user and class ids unique, and keeps every `user_id` and `class_id` pointing at an existing row. |
| ClassRegistration.CreateLeavesNoOrphanUser | src/controllers/ClassesController.ts:58-99 | If every user had a class before a registration, every user still has one afterwards, whether it committed or rolled back. |
| ClassRegistration.UncommittedUserIsOrphan | src/controllers/ClassesController.ts:62-69 | If every class's `user_id` resolves, the transaction's state after the user insert has a user that no class references. This state is what rollback must discard. |
| SearchAfterCreate.AvailableAfterCreate | src/controllers/ClassesController.ts:79-88 | After a committed registration, a class has a covering slot iff it had one before, or it is the new class and one of the request's items covers the instant. |
| SearchAfterCreate.SelectFrame | src/controllers/ClassesController.ts:31-42 | If each class in a list contributes the same rows in two stores, the scan of that list gives the same rows in both. |
| SearchAfterCreate.OldClassRowsUnchanged | src/controllers/ClassesController.ts:62-88 | In a store whose keys are unique and whose foreign keys resolve, a class that existed before a registration contributes the same search rows after it. |
| SearchAfterCreate.NewClassRows | src/controllers/ClassesController.ts:71-88 | In a store whose keys are unique and whose foreign keys resolve, the newly registered class contributes exactly one row, paired with the new user, iff its subject matches and one of the request's items covers the instant. Otherwise it contributes none. |
| SearchAfterCreate.SearchAfterCommit | src/controllers/ClassesController.ts:58-92 | In a store whose keys are unique and whose foreign keys resolve, a search after a committed registration returns the earlier rows in the same order. After them comes the new class with its tutor iff the subject matches and an item covers the instant. A rolled-back registration leaves the store unchanged, so every search is unchanged too (see `Create`). |
| SearchAfterCreate.RegisterAna | src/controllers/ClassesController.ts:62-90 | Registering Ana (Biology, cost 30, Monday 15:00-16:00) into an empty store commits user 1, class 1 and the slot [900, 960). |
| SearchAfterCreate.SearchAnaStore | src/controllers/ClassesController.ts:31-42 | In that store a Monday Biology search finds Ana's class at minute m iff 900 <= m < 960. |
| SearchAfterCreate.RegisterThenSearch | src/controllers/ClassesController.ts:15-101 | After Ana's registration, a search at 15:30 returns exactly her class and profile, and a search at 16:00 returns nothing. |

## Left out

- The body of `convertHourToMinutes` is not part of this model. It is the parameter `conv` throughout, and `RegisterAna`/`RegisterThenSearch` state only what they need of it as preconditions.
- Express handling is reduced to outcome values: `Request`/`Response`, JSON serialisation and status codes (400 and 201). The unhandled rejection when `index` cannot convert the time is the outcome `TimeNotConverted`.
- `Number(week_day)` parsing is left out. The `week_day` filter arrives as an integer, and an absent or empty parameter is `None`. Query parameters given several times (arrays) are not modelled.
- knex query building, raw SQL and the `??` bindings are left out. The `where` conditions are modelled as comparisons on integers. The subject filter is exact, case-sensitive string equality; the database's collation is outside the controller.
- Each result is a (class, user) pair, not the flat `classes.*, users.*` record. In that flat record the shared `id` column ends up holding the user's id.
- Result order is the store order of `classes`. No other ordering is promised.
- The database schema and connection are not part of this model. Any insert the database might reject (constraint violation, lost connection) is chosen by the parameter `StorageFaults`.
- Tables.FreshId: database-generated ids are modelled as one past the largest id in the table. This is how an auto-increment key behaves when rows are never deleted and a rolled-back insert gives its id back, as SQLite does. The database engine is not part of this model. On engines whose counters survive a rollback (a rolled-back `create` still uses up the user id taken at lines 62-69), the real next id can be larger, and ids are only fresh. `NextUserId`, `NextClassId` and the general lemmas about registrations rely only on that freshness; only the walk-through's concrete ids (user 1, class 1) depend on the exact value. Schedule rows get no id.
- A failure of the database query in `index` (lines 31-42) is not modelled. `index` has no `try`, so such a failure is an unhandled rejection with no response; `Index` always answers `Found` once the filters are given and the time converts.
- A failure of `db.transaction()` itself (line 58) is not modelled. That call sits outside the `try`, so such a failure is an unhandled rejection and no 400 is sent; `Create` answers `Failed(CreationError)` only for failures inside the `try`.
- `scheduleItem.week_day` (line 82) is passed to the insert untyped; the model makes it an integer. A string, fractional or missing value in the request body is not modelled.
- `cost` is an integer; a JavaScript number may be fractional, but the controller only passes it through.
- Transaction isolation, concurrent requests, and real commit/rollback mechanics are left out. A transaction is "the store after all steps, or the store before".
- `src/routes.ts` only wires the two methods to routes. `ConnectionsController` is not part of this model.
