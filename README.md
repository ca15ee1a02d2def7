# Task manager controllers, modelled in Dafny

The repository holds two near-identical ASP.NET Core task-management backends.
Each one has a `TaskController` over an Entity Framework task table, and a
`TaskItem` entity whose data-annotation attributes define validation. This
project models the logic above the persistence layer:

- `task_item.dfy` (module `TaskItems`) holds the `TaskItem` record and its
  validation. It encodes `[Required]` (not null, not blank), `[MaxLength]`
  (at most 100 UTF-16 code units for Title, 500 for Description, as `String.Length` counts them) and the three `[RegularExpression]`
  enumerations as predicates. `Violations` lists the failing properties, which
  are the model-state errors. Both applications carry the same record, so it is
  modelled once.
- `task_store.dfy` (module `TaskStore`) holds the task table. It is a class
  with a sequence of rows in store order and an identity counter `nextId`.
  - Its invariant `Valid()` says that Ids are unique, positive and below the
    counter, so every Id handed out is fresh.
  - Insert, remove-at and replace-at stand for `Add`/`Remove`/modified entity
    followed by `SaveChangesAsync`.
  - Lookup by key (`Find`), existence (`HasId`) and LINQ `Skip`/`Take` are
    functions over the rows.
- `http.dfy` (module `Http`) reduces responses to a status (200, 201, 400, 404)
  and a payload. A 400 carries the reason: an id mismatch, the model-state
  errors, or an empty query.
- `dotnetcore_controller.dfy` (module `DotNetCoreTasks`) models the paginated
  application's controller: paging, fetch, create, whole-record update, delete
  and substring search.
- `app_controller.dfy` (module `AppTasks`) models the simple application's
  controller: list all, fetch, create, a four-field update, an existence check
  and delete.

Actions that change the table are methods with `modifies table`. Read-only
actions are functions, or a method without `modifies`, so they cannot change the
table.

Both controllers carry `[ApiController]`. With that attribute, the framework
answers 400 with the model-state errors before the action runs when a task body
fails validation. Both controllers' `AddTask` and `UpdateTask` therefore begin
with that validity gate.
- In the paginated application, the actions' own `ModelState.IsValid` checks
  test the same predicate, so the gate models them too.
- Because the framework filter runs first, an invalid body whose Id also
  differs from the route id gets the model-state 400, not the id-mismatch 400.
  In both cases the status is 400 and the table is unchanged.

The simple application's list returns 200 with an empty list on an
empty table. It returns 404 only when the `Tasks` set is null, which is not
modelled.

## Model

| member | source | states |
|---|---|---|
| `TaskItems.Violations` | TaskManager_With_DotNetCore/Models/TaskItem.cs:12-31 | a property is listed exactly when one of its attributes fails; the list is empty exactly when the task is valid, and lists no property twice |
| `TaskItems.FailingFields` | TaskManager_With_DotNetCore/Models/TaskItem.cs:12-31 | the failing properties among the given ones, each once when the given ones are distinct |
| `TaskItems.IsValid` | TaskManager_With_DotNetCore/Models/TaskItem.cs:12-31 | the model state of a task body is valid: Title passes [Required] and [MaxLength(100)], Description [MaxLength(500)], and Priority, Status and Category each [Required] and their [RegularExpression] |
| `TaskItems.ValidMeansEveryField` | TaskManager_With_DotNetCore/Models/TaskItem.cs:12-31 | validity is exactly the conjunction of the attributed properties' rules |
| `TaskItems.AllFieldsListed` | TaskManager_With_DotNetCore/Models/TaskItem.cs:12-31 | the five attributed properties, each listed once |
| `TaskItems.ValidIff` | TaskManager_App/Models/TaskItem.cs:12-31 | valid iff the Title is non-null, non-blank and at most 100 UTF-16 code units long, the Description is null or at most 500 code units long, and Priority, Status and Category are non-null and drawn from {Low, Medium, High}, {Pending, In Progress, Completed} and {Work, Personal, Study} |
| `TaskItems.Utf16Length` | TaskManager_App/Models/TaskItem.cs:13-17 | the length [MaxLength] checks counts each character outside the Basic Multilingual Plane twice: between the number of characters and twice it, equal to it iff no such character occurs, and twice it iff every character is one |
| `TaskItems.Utf16LengthAppend` | TaskManager_App/Models/TaskItem.cs:13-17 | the code-unit length of a concatenation is the sum of the parts' lengths |
| `TaskItems.AstralTitleTooLong` | TaskManager_App/Models/TaskItem.cs:13-14 | a Title of 51 characters outside the Basic Multilingual Plane is 102 code units long, so the task is invalid and Title is among its errors |
| `TaskItems.RequiredPattern` | TaskManager_App/Models/TaskItem.cs:21-31 | for a value that passes [Required], the whole-string pattern match holds exactly for the listed alternatives |
| `TaskItems.AlternativesNotBlank` | TaskManager_App/Models/TaskItem.cs:22-30 | no enumeration value is blank, so each passes [Required] |
| `TaskItems.ValidIgnoresIdAndDueDate` | TaskManager_App/Models/TaskItem.cs:8-19 | Id and DueDate carry no validation attributes: changing them never changes validity |
| `TaskStore.Find` | TaskManager_With_DotNetCore/Controllers/TaskController.cs:61-65 | lookup by key finds nothing exactly when no row has the Id; otherwise it finds the first row with that Id |
| `TaskStore.FindEachRow` | TaskManager_With_DotNetCore/Models/TaskItem.cs:8-10 | with Id as primary key, lookup returns each row's own position |
| `TaskStore.FindAfterAppend` | TaskManager_With_DotNetCore/Controllers/TaskController.cs:81-84 | a row appended under an unused Id is found at the end, and Ids stay unique |
| `TaskStore.RemoveExactlyThatRow` | TaskManager_With_DotNetCore/Controllers/TaskController.cs:138-142 | removing a row removes its Id, keeps Ids unique, keeps exactly the rows with other Ids and keeps their order |
| `TaskStore.ReplaceKeepsUniqueIds` | TaskManager_With_DotNetCore/Controllers/TaskController.cs:108-109 | overwriting a row with a record of the same Id keeps Ids unique and leaves every lookup result unchanged |
| `TaskStore.Skip` | TaskManager_With_DotNetCore/Controllers/TaskController.cs:35 | drops the first n rows (none for n ≤ 0, all for n ≥ length), keeping the rest in order |
| `TaskStore.Take` | TaskManager_With_DotNetCore/Controllers/TaskController.cs:36 | keeps the first min(max(n,0), length) rows |
| `TaskStore.SkipTakeIsSlice` | TaskManager_With_DotNetCore/Controllers/TaskController.cs:34-37 | skip(offset) then take(count) is the contiguous slice [offset, offset+count) cut to the table |
| `TaskStore.TaskTable.constructor` | TaskManager_With_DotNetCore/Models/TaskItem.cs:8-10 | an empty table whose identity counter starts at 1 |
| `TaskStore.TaskTable.Insert` | TaskManager_With_DotNetCore/Controllers/TaskController.cs:81-82 | the identity column assigns the counter's Id, which no row holds; the row is appended and the counter advances |
| `TaskStore.TaskTable.RemoveAt` | TaskManager_With_DotNetCore/Controllers/TaskController.cs:138-142 | exactly the row at the position leaves the table; the invariant holds |
| `TaskStore.TaskTable.ReplaceAt` | TaskManager_With_DotNetCore/Controllers/TaskController.cs:108-109 | the row at the position takes the new values under the same Id; nothing else changes |
| `DotNetCoreTasks.Matches` | TaskManager_With_DotNetCore/Controllers/TaskController.cs:164 | the search filter: the Title or the Description contains the query as a contiguous substring, and a null column does not match |
| `DotNetCoreTasks.Matching` | TaskManager_With_DotNetCore/Controllers/TaskController.cs:163-165 | a row is in the result iff it is stored and its Title or Description contains the query; each matching row occurs as often as in the table |
| `DotNetCoreTasks.MatchingKeepsOrder` | TaskManager_With_DotNetCore/Controllers/TaskController.cs:163-165 | the filter distributes over concatenation, so results come in the table's sequence order (the model's stand-in for the order the database chooses) |
| `DotNetCoreTasks.PageSlice` | TaskManager_With_DotNetCore/Controllers/TaskController.cs:34-37 | the page holds min(pageSize, max(0, total-(page-1)*pageSize)) rows, namely the rows from position (page-1)*pageSize on |
| `DotNetCoreTasks.PagingExamples` | TaskManager_With_DotNetCore/Controllers/TaskController.cs:30-37 | with 12 rows, page 2 of size 5 is rows 5..9, page 1 of size 100 is all 12, and page 4 of size 5 is empty |
| `DotNetCoreTasks.Wrap32` | TaskManager_With_DotNetCore/Controllers/TaskController.cs:35 | unchecked `int` arithmetic: the result is congruent to the exact value modulo 2^32, and equal to it when it fits in 32 bits |
| `DotNetCoreTasks.OffsetAsWritten` | TaskManager_With_DotNetCore/Controllers/TaskController.cs:30-35 | the offset `(page - 1) * pageSize` after clamping, computed in `int`; it is the exact product whenever that fits in 32 bits |
| `DotNetCoreTasks.PageAsWritten` | TaskManager_With_DotNetCore/Controllers/TaskController.cs:34-37 | for a non-negative wrapped offset, the page as the code computes it: min(pageSize, rows left) rows, the run that starts at the wrapped offset |
| `DotNetCoreTasks.PageAsWrittenAgrees` | TaskManager_With_DotNetCore/Controllers/TaskController.cs:34-37 | while (page-1)*pageSize fits in 32 bits, the page as written is the intended `PageSlice`, so the two differ only on overflow |
| `DotNetCoreTasks.PageAsWrittenWraps` | TaskManager_With_DotNetCore/Controllers/TaskController.cs:35 | with the offset computed in 32-bit int, page 65537 of size 65536 gets offset 0 and returns the first rows, where the intended page is empty |
| `DotNetCoreTasks.TaskController.constructor` | TaskManager_With_DotNetCore/Controllers/TaskController.cs:13-16 | the controller works on the table it is given |
| `DotNetCoreTasks.TaskController.GetTasks` | TaskManager_With_DotNetCore/Controllers/TaskController.cs:20-45 | always 200; page and pageSize default to 1 and 10 and are reported clamped to at least 1; TotalCount is the number of rows whatever the paging; the items are PageSlice of the table; the table is not modified |
| `DotNetCoreTasks.TaskController.GetSpecificTask` | TaskManager_With_DotNetCore/Controllers/TaskController.cs:55-68 | 200 with a stored row with that Id iff one exists, otherwise 404 |
| `DotNetCoreTasks.TaskController.AddTask` | TaskManager_With_DotNetCore/Controllers/TaskController.cs:72-90 | invalid body: 400 with its model-state errors, table unchanged. Valid body: 201 with the body under the identity counter's next Id (which then advances, so no Id is handed out twice, a deleted one included), appended as the one new row, read back by GET. Every persisted row stays valid |
| `DotNetCoreTasks.TaskController.UpdateTask` | TaskManager_With_DotNetCore/Controllers/TaskController.cs:94-121 | 400 iff the body is invalid or its Id differs from the route id; 404 iff otherwise no row has the Id; both leave the table unchanged. On 200 the matching row is replaced by the body as a whole, no other row changes, and the body is returned |
| `DotNetCoreTasks.TaskController.DeleteTask` | TaskManager_With_DotNetCore/Controllers/TaskController.cs:130-150 | 404 iff no row has the Id, table unchanged; otherwise exactly that row is removed, the others keep their order, and GET on the Id is then 404 |
| `DotNetCoreTasks.TaskController.SearchTasks` | TaskManager_With_DotNetCore/Controllers/TaskController.cs:154-173 | 400 iff the query is null or blank; otherwise 200 with exactly the stored rows whose Title or Description contains the query, in the table's sequence order (the model's stand-in for the order the database chooses) |
| `AppTasks.TaskController.constructor` | TaskManager_App/Controllers/TaskController.cs:16-19 | the controller works on the table it is given |
| `AppTasks.TaskController.GetTasks` | TaskManager_App/Controllers/TaskController.cs:22-38 | 200 with every stored row in the table's sequence order (the model's stand-in for the order the database chooses), an empty table included |
| `AppTasks.TaskController.GetSpecificTask` | TaskManager_App/Controllers/TaskController.cs:41-53 | 200 with a stored row with that Id iff one exists, otherwise 404 |
| `AppTasks.TaskController.AddTask` | TaskManager_App/Controllers/TaskController.cs:56-62 | past the framework's validity gate, the body is appended under the identity counter's next Id (which then advances, so no Id is ever reused) as the one new row and returned with 201; an invalid body gets 400 with the table unchanged |
| `AppTasks.TaskController.UpdateTask` | TaskManager_App/Controllers/TaskController.cs:65-101 | 400 iff the body is invalid or the ids differ, and 404 iff otherwise the Id is absent; both leave the table unchanged. On 200 Title, Description, DueDate and Status come from the body, while Id, Priority and Category keep their old values. No other row changes, and the stored row (not the body) is returned |
| `AppTasks.TaskController.TaskFound` | TaskManager_App/Controllers/TaskController.cs:103-106 | true iff some stored row has the Id |
| `AppTasks.TaskController.DeleteTask` | TaskManager_App/Controllers/TaskController.cs:109-129 | 404 iff no row has the Id, table unchanged; otherwise exactly that row is removed, every other row stays in place, and GET on the Id is then 404 |
| `AppTasks.KeptFieldsStayValid` | TaskManager_App/Controllers/TaskController.cs:79-82 | a valid row updated with a valid body's four fields is still valid |

## Left out

- Persistence plumbing is replaced by the in-memory table: `DbContext`/`DbSet`, change tracking, `EntityState.Modified`, async/await and `Task.Run`.
- The `catch (Exception)` → 500 branches are left out. They stand for backend failures.
- The rethrow of a `DbUpdateConcurrencyException` while the row still exists is left out. It only arises with concurrent writers, and the model has one writer. For the same reason, `SaveChangesAsync` in the simple application's update never reports a conflict, so its `TaskFound` re-check is not reached.
- The `_dbContext.Tasks == null` guards are left out: the 404 of both lists and of fetch-by-id, and the 400 of search. The table is always present.
- The HTTP surface is left out: routing, model binding, JSON serialisation, the `CreatedAtAction` Location header and the message texts. Responses are status variants with payloads. Model-state errors from malformed JSON are not modelled; only the attribute rules are.
- The `[RegularExpression]` attributes are modelled as membership in the set of alternatives, not through a regex engine.
- `DueDate` is an opaque optional value.
- Row order: no query in the source has an `OrderBy`, so the database chooses the order in which the paged query, the search and the simple list return rows, and the count and the page are separate queries. The model takes that order to be the table's sequence order, the same for every query; "store order", the contiguous page slice and the Findings row hold of that order.
- Search containment is exact, case-sensitive substring containment. The database collation decides case sensitivity, and that is not part of this model. A null Description counts as not matching, as SQL `LIKE` on NULL does.
- Description is optional, as its missing `[Required]` says. The project file is not part of this model. The `string? query` parameter at `TaskManager_With_DotNetCore/Controllers/TaskController.cs:154` suggests that project enables nullable reference types; if it does, ASP.NET Core would also treat the non-nullable `string Description` as implicitly required.
- Ids: the identity counter is an unbounded integer, so exhausting 32-bit identity values is not modelled. A non-zero Id in a create body is ignored and the store assigns the Id. What the database does with an explicit Id on an identity column depends on the provider.
- `TaskManager_With_DotNetCore/Controllers/TaskController.cs:123-126`: this `TaskFound` is private and never called. It is the same query as the simple application's `AppTasks.TaskController.TaskFound`.

## Findings

| source | as written | input that shows it | evidently intended | confidence | as-written member | corrected member |
|---|---|---|---|---|---|---|
| TaskManager_With_DotNetCore/Controllers/TaskController.cs:35 | `(page - 1) * pageSize` is computed in unchecked 32-bit `int` and wraps | page=65537, pageSize=65536: the offset wraps from 2^32 to 0, so a non-empty table returns its first 65536 rows (in the order the database reads them) while reporting Page=65537. Other large inputs (page=32769, pageSize=65536) wrap to a negative offset, and what the query then returns depends on the database provider | the offset (page-1)*pageSize without overflow, giving an empty page beyond the table | not executed | `DotNetCoreTasks.PageAsWrittenWraps` | `DotNetCoreTasks.TaskController.GetTasks` |
