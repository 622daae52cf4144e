# Task lifecycle of the Todo Task API

The model covers the task controller of the Todo Task API backend. It has three
endpoints over one MySQL table, `task`:

- `POST /api/tasks` (`createTask`) checks the title. It stores the trimmed title
  and the trimmed description, with the description defaulting to `''`. It
  inserts the row as not completed, stamped with `NOW()`, and answers 201 with
  the stored row.
- `GET /api/tasks` (`getTasks`) answers the incomplete rows, newest first, at
  most five, together with their count.
- `PATCH /api/tasks/:id/complete` (`completeTask`) looks the id up and answers
  404 when it is unknown or 400 when the task is already completed. Otherwise it
  sets `completed` and echoes the id.

A task therefore moves from active to completed, and completed is terminal.

Files:

- `text.dfy` (module `Text`) holds JavaScript's `String.prototype.trim` over the
  ECMAScript whitespace and line-terminator code points.
- `tasks.dfy` (module `Tasks`) holds the task row and the three response
  datatypes. Each outcome of creation and completion carries its HTTP status
  and the fixed `message` or `error` text. The listing carries only its status,
  200, with its rows and their count.
- `query.dfy` (module `Query`) holds the listing query
  `WHERE completed = false ORDER BY created_at DESC LIMIT 5` as a pure function
  over the table: a filter, then an insertion sort by `created_at` descending,
  then the first five.
- `controller.dfy` (module `TaskController`) holds the row operations as
  functions and the class `TaskStore`. The class represents the table as:
  - `rows`, in insertion order;
  - `nextId`, the `AUTO_INCREMENT` counter that starts at 1;
  - `clock`, the last value of `NOW()`.

  `CreateTask` and `CompleteTask` are methods that update the store in place.
  `GetTasks` has no `modifies` clause, so listing provably leaves the table as
  it was. The class invariant `TableInvariant` says four things:
  - ids are positive, increasing and below `nextId`;
  - creation times never decrease and never pass the clock;
  - every stored title is non-empty and trimmed;
  - every stored description is trimmed, and it may be empty.
- `scenarios.dfy` (module `Scenarios`) replays the request sequences of
  `backend/tests/tasks.test.js` against a fresh store. It asserts the responses
  those tests expect:
  - 201 with the stored title and description;
  - 400 for a missing or blank title;
  - an empty listing of an empty table;
  - a count of 2 after completing one of three tasks;
  - "Task 7" first and "Task 3" fifth after seven creations;
  - a completed task absent from the listing;
  - 404 for id 99999;
  - 400 on a second completion.

  The titles of the multi-task tests are parameters, so the scenarios hold for
  any non-empty trimmed titles. The seven-task listing scenario gives each
  creation its own timestamp, one tick apart. The test it replays waits only
  10 ms between creations, and `NOW()` has whole-second precision, so the
  test's rows may share `created_at`. Its expected order then rests on a tie
  order that MySQL does not fix.

`NOW()` is a parameter. Each `CreateTask` receives `elapsed`, the time since the
clock's last reading, so the clock never goes backwards and two tasks may share
a creation time. The query does not order rows with equal `created_at`. The
model's insertion sort does: among such rows the one inserted first comes
first, so at the `LIMIT` cut-off the older tied rows are kept. The properties
proved about the listing hold whatever the order of ties. These are its length,
its membership, its newest-first order, that it is a sub-multiset of the
incomplete rows, and that no omitted row is newer. `ListingOfActiveInOrder`
pins the exact order only for strictly increasing creation times.

## Model

| member | source | states |
|---|---|---|
| Tasks.CreateResponse.Status | backend/src/controllers/taskController.js:13-28 | a creation answers 201 exactly when it succeeds and 400 exactly when the title is rejected |
| Tasks.CreateResponse.Message | backend/src/controllers/taskController.js:13-29 | the text is `Task created successfully` exactly on success and `Title is required` exactly on rejection |
| Tasks.ListResponse.Status | backend/src/controllers/taskController.js:51 | a listing always answers 200 |
| Tasks.CompleteResponse.Status | backend/src/controllers/taskController.js:79-95 | a completion answers 200 exactly on success, 404 exactly for an unknown id and 400 exactly for a task already completed |
| Tasks.CompleteResponse.Message | backend/src/controllers/taskController.js:79-96 | the text is `Task marked as completed`, `Task not found` or `Task is already completed`, each exactly for its outcome |
| Text.TrimStart | backend/src/controllers/taskController.js:12 | the result is a suffix of the input, everything before it is whitespace, and it does not start with whitespace |
| Text.TrimEnd | backend/src/controllers/taskController.js:12 | the result is a prefix of the input, everything after it is whitespace, and it does not end with whitespace |
| Text.Trim | backend/src/controllers/taskController.js:12 | `trim()`: the result has no whitespace at either end, and it is empty exactly when the input is all whitespace |
| Text.TrimStripsBlanks | backend/src/controllers/taskController.js:20 | the input is the trimmed string with a blank prefix before it and a blank suffix after it, so trimming drops only whitespace |
| Text.TrimOfTrimmed | backend/tests/tasks.test.js:29-32 | a string with no whitespace at either end is stored exactly as it was sent |
| Text.TrimIdempotent | backend/src/controllers/taskController.js:20 | trimming a stored value again changes nothing |
| TaskController.AcceptedTitle | backend/src/controllers/taskController.js:12-16 | a title is rejected exactly when it is absent or whitespace-only; an accepted title is its trimmed form, which is non-empty and trimmed |
| TaskController.StoredDescription | backend/src/controllers/taskController.js:20 | the stored description is the trimmed description, and it is empty exactly when the description is absent or blank |
| TaskController.FindById | backend/src/controllers/taskController.js:73-78 | the lookup finds nothing exactly when no row has the id; what it finds is a row of the table with that id |
| TaskController.MarkCompleted | backend/src/controllers/taskController.js:90-93 | the update keeps the number of rows and every field except `completed`; a row ends up completed exactly when it was already completed or has the id |
| TaskController.AppendEvolves | backend/src/controllers/taskController.js:18-21 | the insert leaves every existing row in place and unchanged |
| TaskController.EvolvesTransitive | backend/src/controllers/taskController.js:19-91 | a row's lifecycle over several requests only ever moves from active to completed |
| TaskController.CompletedTaskNotListed | backend/tests/tasks.test.js:130-132 | after the update, no task with the completed id appears in the listing |
| TaskController.CompletionRemovesOne | backend/tests/tasks.test.js:79-94 | completing an incomplete task removes exactly that one task from the incomplete rows and keeps every other one |
| TaskController.CompletionIsTerminal | backend/src/controllers/taskController.js:84-93 | after the update the lookup finds the task completed, so a second completion takes the 400 branch |
| TaskController.InvariantGivesUniqueIds | backend/src/controllers/taskController.js:23-26 | in a table that keeps the invariant, no two rows share an id, so a lookup by id is unambiguous |
| TaskController.InsertKeepsInvariant | backend/src/controllers/taskController.js:18-21 | inserting a well-formed row with the next id at a time no earlier than the clock keeps the table invariant |
| TaskController.MarkKeepsInvariant | backend/src/controllers/taskController.js:90-93 | the completion update keeps the table invariant |
| TaskController.TaskStore.constructor | backend/tests/tasks.test.js:8-10 | a fresh table is empty, its next id is 1, and it keeps the invariant |
| TaskController.TaskStore.Insert | backend/src/controllers/taskController.js:18-26 | the insert appends exactly one row, not completed, with the next id, the given text and the current time; the re-read returns that row, and its id is used by no earlier row |
| TaskController.TaskStore.CreateTask | backend/src/controllers/taskController.js:7-31 | the result is 400 exactly when the title is absent or blank, and then the store is unchanged; otherwise the result is 201 with the row built from the trimmed title, the stored description, `completed = false` and the current time; that row is appended; the id is fresh and no earlier row changes |
| TaskController.TaskStore.GetTasks | backend/src/controllers/taskController.js:45-54 | the listing is the query result over the current rows, its count is its length, and the table is left as it was |
| TaskController.TaskStore.CompleteTask | backend/src/controllers/taskController.js:68-98 | the result is 404 exactly when no row has the id and 400 exactly when that row is already completed, and both leave the table unchanged; otherwise the result is 200 with the id, and only that row's `completed` becomes true; the invariant is kept |
| Query.Incomplete | backend/src/controllers/taskController.js:48 | `WHERE completed = false`: the result is no longer than the table, and a row is in it exactly when it is an incomplete row of the table |
| Query.IncompleteCounts | backend/src/controllers/taskController.js:48 | `WHERE completed = false` keeps every incomplete row as many times as it occurs and drops every completed row |
| Query.InsertByNewest | backend/src/controllers/taskController.js:48 | inserting into a newest-first list keeps it newest first and adds exactly that row |
| Query.SortByNewest | backend/src/controllers/taskController.js:48 | `ORDER BY created_at DESC` yields a permutation of its input that is newest first |
| Query.RecentIncomplete | backend/src/controllers/taskController.js:47-54 | the listing has `min(5, number of incomplete rows)` elements, all of them incomplete rows of the table, newest first, with no row repeated beyond its count; when at most five rows are incomplete it is all of them |
| Query.OmittedAreNotNewer | backend/src/controllers/taskController.js:48 | an incomplete row left out of the listing is no newer than any listed row |
| Query.SortOfStrictlyOlderFirst | backend/tests/tasks.test.js:96-102 | rows created at strictly increasing times sort to the reverse of their insertion order |
| Query.IncompleteOfActive | backend/src/controllers/taskController.js:48 | when no row is completed, the filter keeps the whole table in order |
| Query.ListingOfActiveInOrder | backend/tests/tasks.test.js:104-112 | for all-active rows created at strictly increasing times, the listing is the last `min(5, n)` rows with the most recent first |

## Left out

- Storage failures are not modelled. The `catch` branches that answer 500
  (`taskController.js:32-38`, `55-61`, `99-105`) and their `console.error`
  logging mostly arise when MySQL fails. In `createTask` the same branch also
  answers a TypeError from `trim` on a non-string input (see the input bullet
  below). The model's storage cannot fail.
- The connection pool, the SQL text and the MySQL server are not modelled. The
  table is the in-memory `TaskStore`.
- `NOW()` is not modelled as a wall clock. Each creation time is the store clock
  advanced by a caller-supplied `elapsed`. Ties (`elapsed = 0`) are allowed.
- Query.SortByNewest: breaks ties in `created_at` by insertion order, oldest
  first. MySQL gives no such guarantee, and no property of the listing relies on
  it. So `TaskStore.GetTasks`, which equals `RecentIncomplete`, fixes one
  particular order of ties that the real query may not produce.
- MySQL's encoding of `completed` as 0 and 1 is not modelled. `completed` is a
  `bool`.
- The sequential model has no race between the lookup and the update of
  `completeTask`. Each endpoint runs as one atomic step, and concurrent requests
  are not modelled.
- Inputs are taken as already typed: `title` and `description` are optional
  strings and the id is a `nat`. So the model does not cover:
  - a falsy non-string title such as `0` or `false`, which the `!title` test
    rejects with 400 before `trim` is reached;
  - a truthy non-string title, or a non-string description other than `null`,
    on which `trim` raises a TypeError that answers 500. A `null` description
    is stored as `''`, like an absent one, and is modelled by `None`;
  - the parsing of `req.params.id` from a string.
- TaskController.TaskStore.CompleteTask: echoes the id as a number. The source
  echoes the request parameter, a string.
- Only the status and the fixed text of each response are modelled. The JSON
  encoding of the response bodies is not part of this model.
- TaskController.TaskStore.constructor: models only an empty table whose
  `AUTO_INCREMENT` starts at 1. A `DELETE FROM task` between tests empties the
  table but does not reset the counter. The invariant covers both cases,
  because ids only need to lie below `nextId`.
- `backend/src/server.js` (middleware, the root and health endpoints, startup),
  `backend/src/routes/taskRoutes.js` (a route table without logic) and the
  frontend are not part of this model.
