# ToDoApp persistence and command core, in Dafny

This project models the ToDoApp backend's persistence and command layer. The model covers:

- the `UnitOfWork` transaction state machine;
- the generic `BaseRepository<T>` wrapper: begin, entity step, commit, and roll back and rethrow on failure;
- the three concrete repositories (categories, task items, task comments) over an id-keyed store with cascading deletes;
- the nine command handlers;
- the five FluentValidation validators;
- the three list queries;
- the DTO mappings.

Files:

- `common.dfy`: identities, nullability (`Option`), exceptions (`Error`, `Result`, `Outcome`).
- `entities.dfy`: the entities as datatypes. The `Store` holds three tables and their AUTOINCREMENT counters. `Keyed` says every row sits under its own key, below the counter. `Intact` says the foreign keys resolve.
- `unit_of_work.dfy`: the database context and `UnitOfWork`.
  - The context is a class with the committed store `db` and the change tracker's view `pending`.
  - `UnitOfWork` is a class with `hasTx` (the transaction handle is non-null) and `disposed`, plus a ghost trace of database operations.
  - Database faults are parameters: the database acts as an oracle.
- `task_item_repository.dfy`, `task_category_repository.dfy`, `task_comment_repository.dfy`: lookups and queries as functions. The entity steps are methods that edit `pending`, specified by functions on the store.
- `base_repository.dfy`: the wrapper as a class over a real `UnitOfWork`. The function `Surface` states what a call returns or throws.
- `task_item_commands.dfy`, `category_commands.dfy`, `comment_commands.dfy`: the handlers, each specified by a response function.
- `validation.dfy`: `NotEmpty`, `MaximumLength` and the validators.
- `ordering.dfy`, `tables.dfy`, `queries.dfy`: `OrderBy` as a key-based sort under a total preorder. Rows are enumerated in key order, and the three queries are built from them.

The wrapper composes with the real unit of work. This exposes a quirk that the mocked wrapper test (`BaseRepositoryTests.cs:101-118`) cannot see:

- When a save or commit fails, `CommitTransactionAsync` has already rolled back and cleared the handle.
- The wrapper's `catch` then calls `RollbackTransactionAsync` a second time.
- That second call throws `InvalidOperationException("No transaction to rollback")`.
- So the caller never sees the database's own error.

The model keeps this behaviour as written: `Repositories.CommitFailureIsReplaced`.

Also as the code is written: when the rollback inside a `catch` itself throws, the rollback's exception is the one that propagates, not the original (`Persistence.Surfaced`).

## Model

| member | source | states |
|---|---|---|
| `Persistence.UnitOfWork.constructor` | api/src/Infrastructure/Data/Persistence/UnitOfWork.cs:8-15 | A new unit of work has no transaction, is not disposed and has done nothing. |
| `Persistence.UnitOfWork.SaveChangesAsync` | api/src/Infrastructure/Data/Persistence/UnitOfWork.cs:17-20 | Returns exactly the context's reply. Leaves the transaction state alone. Writes the tracked changes to the committed store only when no transaction is open and the save succeeds. |
| `Persistence.UnitOfWork.BeginTransactionAsync` | api/src/Infrastructure/Data/Persistence/UnitOfWork.cs:22-30 | With a transaction open: throws "Transaction already started" and keeps the transaction and the operation trace. Otherwise: opens one transaction exactly when the database does not fail. |
| `Persistence.UnitOfWork.CommitTransactionAsync` | api/src/Infrastructure/Data/Persistence/UnitOfWork.cs:32-57 | Always ends with no transaction. Without one: throws "No transaction to commit" and changes nothing. With one: saves, then commits, and the committed store becomes the tracked one. On a save or commit fault: rolls back (the committed store is unchanged) and rethrows, unless the rollback threw first. The exact database operation sequence is given for each case. |
| `Persistence.UnitOfWork.RollbackTransactionAsync` | api/src/Infrastructure/Data/Persistence/UnitOfWork.cs:59-75 | Always ends with no transaction, even when the rollback throws. Without one: throws "No transaction to rollback" and touches nothing. With one: rolls back, then disposes. |
| `Persistence.UnitOfWork.Dispose` | api/src/Infrastructure/Data/Persistence/UnitOfWork.cs:77-90 | Ends disposed. Disposes an open handle only on the first call. Never clears the handle. |
| `Persistence.DisposeTwice` | api/src/Infrastructure/Data/Persistence/UnitOfWork.cs:83-90 | Dispose is idempotent: two calls dispose a handle at most once, and the second changes nothing. |
| `Repositories.BaseRepository.constructor` | api/src/Infrastructure/Data/Repositories/BaseRepository.cs:11-14 | The repository is wired to its unit of work's context and has made no calls. |
| `Repositories.BaseRepository.Create` | api/src/Infrastructure/Data/Repositories/BaseRepository.cs:64 | The abstract create step, dispatched to the entity's repository. Adds the entity to the tracked store under the next key and leaves the committed store alone. |
| `Repositories.BaseRepository.Update` | api/src/Infrastructure/Data/Repositories/BaseRepository.cs:66 | The abstract update step, dispatched. Either merges into the tracked store or throws the repository's NotFound and changes nothing. |
| `Repositories.BaseRepository.Delete` | api/src/Infrastructure/Data/Repositories/BaseRepository.cs:68 | The abstract delete step, dispatched. Removes the entity from the tracked store, with the schema's cascade. |
| `Repositories.BaseRepository.CommitOrRollBack` | api/src/Infrastructure/Data/Repositories/BaseRepository.cs:22-28 | Commits. If the commit fails, rolls back again on the handle the commit already cleared, so the error is always "No transaction to rollback". Either way it ends with no transaction. |
| `Repositories.BaseRepository.RollBackAndRethrow` | api/src/Infrastructure/Data/Repositories/BaseRepository.cs:25-29 | Rolls back once and rethrows the step's exception, unless the rollback threw its own. Ends with no transaction. |
| `Repositories.BaseRepository.CreateAsync` | api/src/Infrastructure/Data/Repositories/BaseRepository.cs:16-30 | The result is `Surface` of the created entity, i.e. the argument under its new key. The unit-of-work calls and database operations are stated exactly. The transaction state on return equals that on entry. The committed store changes exactly when the call succeeds. |
| `Repositories.BaseRepository.UpdateAsync` | api/src/Infrastructure/Data/Repositories/BaseRepository.cs:32-46 | The result is `Surface` of the update step. On success it returns the argument itself, not the stored row. The calls, operations, tracked store and committed store are as for create. Rollback is called, and commit is not, when the step throws. |
| `Repositories.BaseRepository.DeleteAsync` | api/src/Infrastructure/Data/Repositories/BaseRepository.cs:48-62 | The result is `Surface` of `true`. The calls, operations, tracked store and committed store are as for create. |
| `Repositories.CreateUpdateDelete` | api/tests/ToDoApp.Tests.Unit/Infrastructure/Data/Repositories/BaseRepositoryTests.cs:198-215 | Three fault-free operations in a row each open and commit their own transaction: three begin/commit pairs and three open/save/commit/dispose sequences. |
| `Repositories.CreateUpdateDeleteAll` | api/tests/ToDoApp.Tests.Unit/Infrastructure/Data/Repositories/BaseRepositoryTests.cs:198-215 | The same for any number of entities: n fault-free create/update/delete runs make 3n begin/commit pairs and 3n open/save/commit/dispose runs, and end with no transaction and the tracked changes committed. |
| `Repositories.SucceedsOnlyWhenCommitted` | api/src/Infrastructure/Data/Repositories/BaseRepository.cs:16-62 | A wrapper call succeeds if and only if no transaction was open, begin, step, save and commit all went through. It then returns the step's own value. |
| `Repositories.CommitFailureIsReplaced` | api/src/Infrastructure/Data/Persistence/UnitOfWork.cs:44-47 | A save or commit fault always surfaces as "No transaction to rollback", never as the database's own error. |
| `Repositories.StepErrorPropagates` | api/src/Infrastructure/Data/Repositories/BaseRepository.cs:25-29 | An exception from the entity step propagates unchanged, unless the rollback throws its own. |
| `Repositories.CallCounts` | api/tests/ToDoApp.Tests.Unit/Infrastructure/Data/Repositories/BaseRepositoryTests.cs:59-98 | Begin is called exactly once, and first. Commit is called once exactly when begin and the step succeeded. Rollback is called once exactly when a begun call did not commit cleanly, and never when begin threw. |
| `Repositories.DatabaseOpsBalanced` | api/src/Infrastructure/Data/Persistence/UnitOfWork.cs:49-56 | Each wrapper call disposes a transaction exactly when it opened one, and rolls back or commits at most once. A clean call never rolls back. |
| `TaskItemRepository.GetAllByCategoryIdAsync` | api/src/Infrastructure/Data/Repositories/TaskItemRepository.cs:32-35 | Lists every stored task of the category, and only tasks of that category, once per matching row: the list is as long as the set of matching rows. |
| `TaskItemRepository.GetAllAsync` | api/src/Infrastructure/Data/Repositories/TaskItemRepository.cs:37-40 | Lists every stored task once per key, and nothing else. |
| `TaskItemRepository.Create` | api/src/Infrastructure/Data/Repositories/TaskItemRepository.cs:42-45 | Adds the task to the tracked store under the next key. The committed store is unchanged. |
| `TaskItemRepository.Update` | api/src/Infrastructure/Data/Repositories/TaskItemRepository.cs:47-67 | Assigns the fields one by one onto the stored task: the result is `Merge`. An unknown id throws NotFound and leaves the store unchanged. |
| `TaskItemRepository.Delete` | api/src/Infrastructure/Data/Repositories/TaskItemRepository.cs:69-72 | Removes the task and, by the schema's cascade, its comments. |
| `TaskItemRepository.CategoryQueriesPartition` | api/src/Infrastructure/Data/Repositories/TaskItemRepository.cs:22-30 | The category query holds exactly the stored tasks of that category, as stored. The unfiltered query holds all of them. |
| `TaskItemRepository.CreateThenFind` | api/src/Infrastructure/Data/Repositories/TaskItemRepository.cs:17-20 | A created task gets a key not used before, and `GetByIdAsync` then finds it there. Every other lookup is unchanged. The store stays keyed and grows by one. |
| `TaskItemRepository.CreateKeepsIntact` | api/src/Infrastructure/Data/Configurations/TaskItemConfiguration.cs:15-18 | Adding a task whose category exists keeps every foreign key resolvable. |
| `TaskItemRepository.UpdateFindsOrFails` | api/src/Infrastructure/Data/Repositories/TaskItemRepository.cs:47-67 | Update fails if and only if the lookup fails. On success only that task changes, to the merge of stored and incoming. |
| `TaskItemRepository.MergeNeverClears` | api/src/Infrastructure/Data/Repositories/TaskItemRepository.cs:53-64 | A null incoming title, description or due date never clears the stored one. |
| `TaskItemRepository.MergeKeepsIdentity` | api/src/Infrastructure/Data/Repositories/TaskItemRepository.cs:59-61 | The key and audit fields stay. Status, priority and category are always taken from the incoming task. |
| `TaskItemRepository.MergeIdempotent` | api/src/Infrastructure/Data/Repositories/TaskItemRepository.cs:47-67 | Applying the same update twice equals applying it once, and a task merged onto itself is unchanged. |
| `TaskItemRepository.MergeOfCompleteTask` | api/src/Infrastructure/Data/Repositories/TaskItemRepository.cs:53-64 | An incoming task with every optional field present replaces all but the key and audit fields. |
| `TaskItemRepository.UpdateMayOrphan` | api/src/Infrastructure/Data/Repositories/TaskItemRepository.cs:59-61 | Update does not check the category: moving a task to an absent category succeeds and breaks the foreign key. |
| `TaskItemRepository.UpdateKeepsIntact` | api/src/Infrastructure/Data/Repositories/TaskItemRepository.cs:47-67 | An update to an existing category keeps every foreign key resolvable. |
| `TaskItemRepository.DeleteThenFind` | api/src/Infrastructure/Data/Configurations/TaskItemCommentConfiguration.cs:14-17 | After a delete the task is not found, and no comment on it remains. Every other task and every other comment is kept. |
| `TaskItemRepository.DeleteKeepsIntact` | api/src/Infrastructure/Data/Repositories/TaskItemRepository.cs:69-72 | Deleting a task, with its cascade, keeps every foreign key resolvable. |
| `TaskCategoryRepository.Create` | api/src/Infrastructure/Data/Repositories/TaskCategoryRepository.cs:29-32 | Adds the category to the tracked store under the next key. The committed store is unchanged. |
| `TaskCategoryRepository.Update` | api/src/Infrastructure/Data/Repositories/TaskCategoryRepository.cs:34-42 | Copies the name onto the stored category, null included. An unknown id throws NotFound and leaves the store unchanged. |
| `TaskCategoryRepository.Delete` | api/src/Infrastructure/Data/Repositories/TaskCategoryRepository.cs:43-46 | Removes the category, its tasks and their comments. |
| `TaskCategoryRepository.QueryByName` | api/src/Infrastructure/Data/Repositories/TaskCategoryRepository.cs:20-27 | With a name: exactly the categories carrying that name. Without: all categories, as stored. |
| `TaskCategoryRepository.CreateThenFind` | api/src/Infrastructure/Data/Repositories/TaskCategoryRepository.cs:16-19 | A created category gets a fresh key and is found under it. Other lookups and the tasks are unchanged. The store stays keyed. |
| `TaskCategoryRepository.CreateKeepsIntact` | api/src/Infrastructure/Data/Repositories/TaskCategoryRepository.cs:29-32 | Adding a category keeps every foreign key resolvable. |
| `TaskCategoryRepository.UpdateFindsOrFails` | api/src/Infrastructure/Data/Repositories/TaskCategoryRepository.cs:34-42 | Update fails if and only if the lookup fails. On success only that category's name changes, and the tasks and comments stay. |
| `TaskCategoryRepository.UpdateKeepsIntact` | api/src/Infrastructure/Data/Repositories/TaskCategoryRepository.cs:34-42 | Renaming keeps every foreign key resolvable. |
| `TaskCategoryRepository.DeleteCascades` | api/src/Infrastructure/Data/Configurations/TaskItemConfiguration.cs:15-18 | After a delete: the category is not found, none of its tasks remain, and no comment on those tasks remains. Every other task and category is kept, and the store stays intact. |
| `TaskCommentRepository.Create` | api/src/Infrastructure/Data/Repositories/TaskCommentRepository.cs:27-30 | Adds the comment to the tracked store under the next key. The committed store is unchanged. |
| `TaskCommentRepository.Update` | api/src/Infrastructure/Data/Repositories/TaskCommentRepository.cs:32-39 | Copies the text, null included, onto the stored comment. An unknown id throws NotFound and leaves the store unchanged. |
| `TaskCommentRepository.Delete` | api/src/Infrastructure/Data/Repositories/TaskCommentRepository.cs:41-44 | Removes exactly that comment. |
| `TaskCommentRepository.QueryByTask` | api/src/Infrastructure/Data/Repositories/TaskCommentRepository.cs:22-25 | The query holds exactly the comments on that task, as stored. |
| `TaskCommentRepository.CreateThenFind` | api/src/Infrastructure/Data/Repositories/TaskCommentRepository.cs:17-20 | A created comment gets a fresh key and is found under it. Other lookups are unchanged. |
| `TaskCommentRepository.CreateIntactIff` | api/src/Infrastructure/Data/Configurations/TaskItemCommentConfiguration.cs:14-17 | Adding a comment keeps the foreign keys resolvable if and only if its task exists. |
| `TaskCommentRepository.UpdateFindsOrFails` | api/src/Infrastructure/Data/Repositories/TaskCommentRepository.cs:32-39 | Update fails if and only if the lookup fails. On success only that comment's text changes, and its task is kept. |
| `TaskCommentRepository.UpdateKeepsIntact` | api/src/Infrastructure/Data/Repositories/TaskCommentRepository.cs:32-39 | Rewriting a comment keeps every foreign key resolvable. |
| `TaskCommentRepository.DeleteThenFind` | api/src/Infrastructure/Data/Repositories/TaskCommentRepository.cs:41-44 | After a delete the comment is not found, and every other lookup is unchanged. |
| `TaskItemCommands.NewTaskItem` | api/src/Application/TaskManagement/TaskItems/Commands/CreateTaskItem/CreateTaskItem.cs:38-46 | The built task has a title and a description, the command's or "" when null. Category, status, priority and due date are the command's. |
| `TaskItemCommands.RequestedTaskItem` | api/src/Application/TaskManagement/TaskItems/Commands/UpdateTaskItem/UpdateTaskItem.cs:35-44 | The same coalescing. Id, category, status, priority and due date are the command's. |
| `TaskItemCommands.HandleCreate` | api/src/Application/TaskManagement/TaskItems/Commands/CreateTaskItem/CreateTaskItem.cs:33-50 | If the category is absent: NotFound, with no wrapper call and no change. Otherwise exactly one `CreateAsync` of the built task, answering with the DTO of what it returned. |
| `TaskItemCommands.HandleUpdate` | api/src/Application/TaskManagement/TaskItems/Commands/UpdateTaskItem/UpdateTaskItem.cs:33-48 | One `UpdateAsync` of the built task. Its exceptions propagate, and on success it answers with the DTO of the built task. |
| `TaskItemCommands.HandleDelete` | api/src/Application/TaskManagement/TaskItems/Commands/DeleteTaskItem/DeleteTaskItem.cs:16-23 | Fetches by id. If the task is absent: NotFound and no delete. Otherwise exactly one `DeleteAsync` of the fetched task. |
| `TaskItemCommands.CreateChecksCategoryFirst` | api/src/Application/TaskManagement/TaskItems/Commands/CreateTaskItem/CreateTaskItem.cs:35-36 | A missing category answers "Task category not found" whatever the database would do. |
| `TaskItemCommands.CreateAnswersWithNewRow` | api/src/Application/TaskManagement/TaskItems/Commands/CreateTaskItem/CreateTaskItem.cs:48-49 | A clean create answers with the new key, the coalesced text and the command's fields. That answer is the DTO of the row now stored, and the store stays intact. |
| `TaskItemCommands.ValidatedTitleIsStored` | api/src/Application/TaskManagement/TaskItems/Commands/CreateTaskItem/CreateTaskItemCommandValidator.cs:9-13 | A title the validator accepts reaches the entity unchanged: non-blank and at most 200 characters. |
| `TaskItemCommands.UpdateOverwritesText` | api/src/Application/TaskManagement/TaskItems/Commands/UpdateTaskItem/UpdateTaskItem.cs:38-43 | Through the handler, title and description are always overwritten: an omitted description clears the stored one to "". An omitted due date keeps the stored one. |
| `TaskItemCommands.UpdateAnswersWithRequest` | api/src/Application/TaskManagement/TaskItems/Commands/UpdateTaskItem/UpdateTaskItem.cs:46-47 | A clean update answers with the DTO of the built task, so an omitted due date is null in the answer while the store keeps the old date. |
| `TaskItemCommands.UpdateOfAbsentTaskFails` | api/src/Infrastructure/Data/Repositories/TaskItemRepository.cs:49-51 | Updating an absent task surfaces NotFound for its id, or the rollback's own exception. |
| `TaskItemCommands.ValidatedCreateConforms` | api/src/Infrastructure/Data/Configurations/TaskItemConfiguration.cs:11-13 | A create whose title the validator accepted keeps every row within the column rules: titles and names present, titles and names at most 200 characters, comments at most 1000. |
| `TaskItemCommands.UpdateKeepsTitlesRequired` | api/src/Application/TaskManagement/TaskItems/Commands/UpdateTaskItem/UpdateTaskItem.cs:35-44 | The update handler coalesces a null title to "", so no update leaves a task without the required title. |
| `TaskItemCommands.UpdateMayExceedTitleColumn` | api/src/Infrastructure/Data/Configurations/TaskItemConfiguration.cs:11-13 | Without the update validator, which is not part of this model, the handler stores a title longer than 200 characters and breaks the declared column length. |
| `CategoryCommands.HandleCreate` | api/src/Application/TaskManagement/Categories/Commands/CreateCategory/CreateCategory.cs:21-29 | One `CreateAsync` of a category with the command's name, and no uniqueness check. Returns the repository's result and lets its exceptions through. |
| `CategoryCommands.HandleUpdate` | api/src/Application/TaskManagement/Categories/Commands/UpdateCategory/UpdateCategory.cs:22-32 | One `UpdateAsync` with the command's id and title. Returns no value and lets exceptions through. |
| `CategoryCommands.HandleDelete` | api/src/Application/TaskManagement/Categories/Commands/DeleteCategory/DeleteCategory.cs:16-23 | Fetches by id. If the category is absent: NotFound and nothing deleted. Otherwise exactly one `DeleteAsync` of the fetched category, with its cascade. |
| `CategoryCommands.CreateAnswersWithNewCategory` | api/src/Application/TaskManagement/Categories/Commands/CreateCategory/CreateCategory.cs:23-28 | A clean create returns the stored category: the next key and the requested name. |
| `CategoryCommands.UpdateStoresTitle` | api/src/Application/TaskManagement/Categories/Commands/UpdateCategory/UpdateCategory.cs:24-30 | Under a fault-free database, a rename of an existing category succeeds, stores the title (null included) and leaves every other category as it was. A null title is what SQLite refuses at save: see `NullNameIsRefused`. |
| `CategoryCommands.UpdateOfAbsentCategoryFails` | api/src/Infrastructure/Data/Repositories/TaskCategoryRepository.cs:36-38 | Renaming an absent category surfaces NotFound for its id, or the rollback's own exception. |
| `CategoryCommands.ValidatedCreateKeepsNamesUnique` | api/src/Application/TaskManagement/Categories/Commands/CreateCategory/CreateCategoryCommandValidator.cs:13-25 | If names were unique and the validator accepts the new name, they are still unique after the create. |
| `CategoryCommands.ValidatedRenameKeepsNamesUnique` | api/src/Application/TaskManagement/Categories/Commands/UpdateCategory/UpdateCategoryCommandValidator.cs:13-26 | If names were unique and the validator accepts the title, they are still unique after the rename. |
| `CategoryCommands.ValidatedCreateConforms` | api/src/Infrastructure/Data/Configurations/ItemListConfiguration.cs:11-13 | A create whose name the validator accepted keeps every row within the column rules. |
| `CategoryCommands.ValidatedRenameConforms` | api/src/Infrastructure/Data/Configurations/ItemListConfiguration.cs:11-13 | A rename whose title the validator accepted keeps every row within the column rules. |
| `CategoryCommands.NullNameIsRefused` | api/src/Infrastructure/Data/Configurations/ItemListConfiguration.cs:11-13 | A null name, on create or rename, yields a store that breaks the NOT NULL column. When the save is refused, the caller sees "No transaction to rollback", not the constraint violation. |
| `CommentCommands.HandleCreate` | api/src/Application/TaskManagement/TaskComments/Commands/CreateTaskComment/CreateTaskComment.cs:20-30 | One `CreateAsync` of a comment with the command's task and text, with no check that the task exists. Answers with its DTO and lets exceptions through. |
| `CommentCommands.HandleUpdate` | api/src/Application/TaskManagement/TaskComments/Commands/UpdateTaskComment/UpdateTaskComment.cs:17-27 | One `UpdateAsync` of a comment carrying only the command's id and text. Answers with that entity's DTO. |
| `CommentCommands.HandleDelete` | api/src/Application/TaskManagement/TaskComments/Commands/DeleteTaskComment/DeleteTaskComment.cs:16-23 | Fetches by id. If the comment is absent: NotFound and nothing deleted. Otherwise exactly one `DeleteAsync` of the fetched comment. |
| `CommentCommands.CreateAnswersWithNewComment` | api/src/Application/TaskManagement/TaskComments/Commands/CreateTaskComment/CreateTaskComment.cs:22-29 | A clean create answers with the new key and the requested text, and the row sits on the requested task. The store stays intact if and only if that task exists. |
| `CommentCommands.UpdateAnswersWithRequest` | api/src/Application/TaskManagement/TaskComments/Commands/UpdateTaskComment/UpdateTaskComment.cs:19-26 | A clean update stores the text on the same task with the same audit fields, but answers with default audit fields. |
| `CommentCommands.UpdateOfAbsentCommentFails` | api/src/Infrastructure/Data/Repositories/TaskCommentRepository.cs:34-36 | Updating an absent comment surfaces NotFound for its id, or the rollback's own exception. |
| `CommentCommands.AcceptedCommentMayExceedColumn` | api/src/Infrastructure/Data/Configurations/TaskItemCommentConfiguration.cs:11-12 | An accepted comment longer than 1000 characters is stored by a create or an update, breaking the declared column length: neither validator bounds it. |
| `CommentCommands.LongCommentIsAccepted` | api/src/Application/TaskManagement/TaskComments/Commands/CreateTaskComment/CreateTaskCommentValidator.cs:9-11 | Such a comment exists: 1001 letters pass the comment validator. |
| `Validation.TaskItemTitleRules` | api/src/Application/TaskManagement/TaskItems/Commands/CreateTaskItem/CreateTaskItemCommandValidator.cs:9-13 | A title is accepted if and only if it is non-null, has a non-white-space character and has at most 200 characters. A failing `NotEmpty` reports "Title is required." first. The failure count is given per rule. |
| `Validation.TaskItemTitleBoundaries` | api/tests/ToDoApp.Tests.Unit/Application/TaskManagement/TaskItems/Commands/CreateTaskItemCommandValidatorTests.cs:39-155 | Null, "" and blank titles fail. A non-blank title of up to 200 characters passes. A longer one fails with only the length rule. |
| `Validation.CreateCategoryRules` | api/src/Application/TaskManagement/Categories/Commands/CreateCategory/CreateCategoryCommandValidator.cs:13-25 | A name is accepted if and only if it is non-blank, has at most 200 characters and is no stored category's name (exact equality). A taken name reports the "Unique" code. |
| `Validation.UpdateCategoryRules` | api/src/Application/TaskManagement/Categories/Commands/UpdateCategory/UpdateCategoryCommandValidator.cs:13-26 | A title is accepted if and only if it is non-blank, has at most 200 characters and no category with another id carries it. |
| `Validation.RenameToOwnName` | api/src/Application/TaskManagement/Categories/Commands/UpdateCategory/UpdateCategoryCommandValidator.cs:21-26 | Keeping a category's own unique name passes the update validator, while the create validator rejects that name. |
| `Validation.CommentRules` | api/src/Application/TaskManagement/TaskComments/Commands/CreateTaskComment/CreateTaskCommentValidator.cs:9-11 | A comment is accepted if and only if it is non-null and has a non-white-space character. There is no length bound. Null reports "Comment is required.". |
| `Ordering.SortBy` | api/src/Application/TaskManagement/TaskItems/Queries/GetTaskItems/GetTaskItems.cs:28 | `OrderBy` on a key under a total preorder: the result is sorted by the key and is a permutation of the input. |
| `Ordering.NullsFirstIsTotalPreorder` | api/src/Application/TaskManagement/Categories/Queries/GetCategories/GetCategories.cs:25 | Ordinal string order with nulls first, the order the titles and names are sorted in, is total and transitive. |
| `Ordering.InstantLeqIsTotalPreorder` | api/src/Application/TaskManagement/TaskComments/Queries/GetTaskComment/GetTaskComments.cs:25 | The order on creation times is total and transitive. |
| `Queries.GetTaskItems` | api/src/Application/TaskManagement/TaskItems/Queries/GetTaskItems/GetTaskItems.cs:21-31 | Sorted by title. Holds one DTO per selected task: with a category, only that category's tasks and all of them; without one, every task. Each element is the DTO of a stored task. |
| `Queries.GetTaskItemsListsEachOnce` | api/src/Application/TaskManagement/TaskItems/Queries/GetTaskItems/GetTaskItems.cs:27-30 | In a keyed store every selected task appears exactly once. |
| `Queries.GetTaskComments` | api/src/Application/TaskManagement/TaskComments/Queries/GetTaskComment/GetTaskComments.cs:18-26 | Sorted by creation time. Holds the DTO of every comment on the task and nothing else, one per comment. |
| `Queries.GetTaskCommentsListsEachOnce` | api/src/Application/TaskManagement/TaskComments/Queries/GetTaskComment/GetTaskComments.cs:20-25 | In a keyed store every comment on the task appears exactly once. |
| `Queries.GetCategories` | api/src/Application/TaskManagement/Categories/Queries/GetCategories/GetCategories.cs:21-27 | Sorted by name. Holds the projection of every stored category, with its tasks, and nothing else, one per category. |
| `Queries.GetCategoriesListsEachOnce` | api/src/Application/TaskManagement/Categories/Queries/GetCategories/GetCategories.cs:23 | In a keyed store every category appears exactly once. |
| `Dtos.CategoryDtoHoldsItsTasks` | api/src/Application/TaskManagement/Categories/CategoryDto.cs:13-18 | A category's DTO carries its key and name, the DTO of every task of the category, and no other task, one DTO per matching row. |
| `Dtos.TaskItemDtoRoundTrip` | api/src/Application/TaskManagement/TaskItems/TaskItemDto.cs:22-34 | The mapping copies every field except the audit fields: mapping back with the task's audit fields gives the task, and mapping back and forth gives the DTO. |
| `Dtos.TaskItemDtoDeterminesTask` | api/src/Application/TaskManagement/TaskItems/TaskItemDto.cs:22-34 | Two tasks with the same DTO differ at most in their audit fields, so nothing is truncated or altered. |
| `Dtos.CommentDtoRoundTrip` | api/src/Application/TaskManagement/TaskComments/TaskCommentDto.cs:14-25 | The comment mapping copies key, text (null included) and the four audit fields. It drops only the task key, so it round-trips. |
| `Dtos.CommentDtoIgnoresTask` | api/src/Application/TaskManagement/TaskComments/TaskCommentDto.cs:14-25 | The comment DTO does not depend on which task the comment is on. |

## Left out

- Async and cancellation: every call is sequential. Concurrent use of one unit of work is not modelled.
- The database is an oracle. Each wrapper call receives the faults of begin, save, commit and rollback as a parameter.
  - Which exception a SQLite failure raises is not modelled.
  - Foreign-key enforcement at save time is left to the save fault, so `Intact` is proved only where the code keeps it.
  - NOT NULL enforcement at save time (`CategoryName`, `Title`) is left to the save fault as well. `Required` states the rule, and `NullNameIsRefused` shows which stores break it and what the caller then sees.
  - SQLite does not enforce declared text lengths, and EF Core does not check them before saving. `WithinLengths` states the schema's declared lengths, and the lemmas show which validated operations keep them and which can break them.
- Change-tracker behaviour after a rollback (whether pending edits are discarded) is not in the modelled code. The tracked store `pending` keeps them, and only the committed store is reasoned about after a failure.
- Reads by id (`FindAsync`) consult the tracked store. Queries consult whichever store they are given: handlers pass the tracked one, the query functions take the committed one.
- Audit timestamps and actors are written by a save interceptor that is not part of this model. They are opaque fields that creates leave at their defaults.
- `Guard.Against.NotFound` after `GetByIdAsync` in the delete handlers and in `CreateTaskItem` is never reached, because `GetByIdAsync` already throws. It is not modelled separately.
- Creating an entity with an explicit id: the model always assigns the table's next key.
- Deleting an entity that is no longer stored: EF's concurrency exception at save time is left to the save fault.
- Integer widths: keys are unbounded (C# `long`), and `GetTaskItems` takes its category as an `int?`, widened. Overflow of the key counters is not modelled.
- String lengths are counted in Unicode scalar values, not UTF-16 code units. `MaximumLength(200)` agrees with .NET for text without surrogate pairs.
- `DateTime` values are abstract instants. Ordering by `Created` compares them as integers.
- UpdateStoresTitle: its success under a null title assumes a fault-free database. SQLite refuses such a save, and the model leaves that refusal to the save fault; `NullNameIsRefused` states the refused case.
- The task update validator is not part of this model, so no lemma bounds an updated task's title: `UpdateMayExceedTitleColumn` shows the unbounded case.
- The MediatR pipeline that runs a validator before its handler is not modelled. The lemmas `ValidatedTitleIsStored`, `ValidatedCreateKeepsNamesUnique` and `ValidatedRenameKeepsNamesUnique` take validation as a precondition instead.
- AutoMapper's `ProjectTo` is a field copy. The query-side task DTO and the category listing's item DTO have the same fields as `TaskItemDto` and are modelled as that type.
- Declared-non-nullable request strings (`CreateCategoryCommand.CategoryName`, `UpdateTaskItemCommentCommand.Comment`) are `Option`s, because nothing stops a request from leaving them null.
- Using a unit of work after `Dispose`: the source does not guard it, and the model does not either.
- The stable order among equal sort keys: the contracts state sortedness and permutation only, not which of two equal titles comes first.
