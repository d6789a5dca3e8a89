/** The three task-item command handlers: create (after a category check), update, delete (after a fetch). */
module TaskItemCommands {
  import opened Common
  import opened Entities
  import opened Persistence
  import opened Repositories
  import opened Dtos
  import opened Validation
  import Items = TaskItemRepository
  import Categories = TaskCategoryRepository

  datatype CreateTaskItemCommand = CreateTaskItemCommand(
    categoryId: Id, title: Option<string>, description: Option<string>,
    priority: Priority, status: Status, dueDate: Option<Instant>)

  datatype UpdateTaskItemCommand = UpdateTaskItemCommand(
    id: Id, title: Option<string>, description: Option<string>,
    categoryId: Id, status: Status, priority: Priority, dueDate: Option<Instant>)

  /** The entity the create handler builds: a null title or description becomes "", the rest is copied. */
  function NewTaskItem(c: CreateTaskItemCommand): (t: TaskItem)
    ensures t.title.Some? && t.description.Some?
    ensures c.title.Some? ==> t.title == c.title
    ensures c.title.None? ==> t.title == Some("")
    ensures c.description.Some? ==> t.description == c.description
    ensures c.description.None? ==> t.description == Some("")
    ensures t.categoryId == c.categoryId && t.status == c.status && t.priority == c.priority && t.dueDate == c.dueDate
  {
    TaskItem(0, c.categoryId, Some(Coalesce(c.title, "")), Some(Coalesce(c.description, "")), c.status, c.priority, c.dueDate, NoAudit)
  }

  /** The entity the update handler builds: the same coalescing, plus the requested id. */
  function RequestedTaskItem(c: UpdateTaskItemCommand): (t: TaskItem)
    ensures t.id == c.id && t.title.Some? && t.description.Some?
    ensures c.title.Some? ==> t.title == c.title
    ensures c.title.None? ==> t.title == Some("")
    ensures c.description.Some? ==> t.description == c.description
    ensures c.description.None? ==> t.description == Some("")
    ensures t.categoryId == c.categoryId && t.status == c.status && t.priority == c.priority && t.dueDate == c.dueDate
  {
    TaskItem(c.id, c.categoryId, Some(Coalesce(c.title, "")), Some(Coalesce(c.description, "")), c.status, c.priority, c.dueDate, NoAudit)
  }

  /** What the create handler answers, from the state it starts in. */
  function CreateResponse(open: bool, f: Faults, s: Store, c: CreateTaskItemCommand): Result<TaskItemDto>
  {
    if Categories.GetByIdAsync(s, c.categoryId).Failure? then Failure(Categories.GetByIdAsync(s, c.categoryId).error)
    else MapResult(Surface(open, f, Success(Items.Inserted(s, NewTaskItem(c)))), TaskItemDto.MapFrom)
  }

  /** The step `UpdateAsync` runs on a task: the argument back, or the repository's exception. */
  function UpdateItemStep(s: Store, t: TaskItem): Result<TaskItem>
  {
    if Items.Updated(s, t).Success? then Success(t) else Failure(Items.Updated(s, t).error)
  }

  /** What the update handler answers: the DTO of the entity it built, not of the stored row. */
  function UpdateResponse(open: bool, f: Faults, s: Store, c: UpdateTaskItemCommand): Result<TaskItemDto>
  {
    MapResult(Surface(open, f, UpdateItemStep(s, RequestedTaskItem(c))), TaskItemDto.MapFrom)
  }

  method HandleCreate(repo: BaseRepository, request: CreateTaskItemCommand, f: Faults) returns (r: Result<TaskItemDto>)
    requires repo.Wired()
    modifies repo, repo.uow, repo.ctx
    ensures r == CreateResponse(old(repo.uow.hasTx), f, old(repo.ctx.pending), request)
    ensures repo.uow.hasTx == old(repo.uow.hasTx)
    ensures request.categoryId !in old(repo.ctx.pending.categories) ==>
      repo.calls == old(repo.calls) && repo.ctx.pending == old(repo.ctx.pending) && repo.ctx.db == old(repo.ctx.db)
    ensures request.categoryId in old(repo.ctx.pending.categories) ==>
      repo.calls == old(repo.calls) + Calls(old(repo.uow.hasTx), f, true)
      && repo.ctx.pending == (if Began(old(repo.uow.hasTx), f) then Items.Added(old(repo.ctx.pending), NewTaskItem(request)) else old(repo.ctx.pending))
      && repo.ctx.db == (if r.Success? then repo.ctx.pending else old(repo.ctx.db))
  {
    var category := Categories.GetByIdAsync(repo.ctx.pending, request.categoryId);
    if category.Failure? {
      return Failure(category.error);
    }
    var created := repo.CreateAsync(ItemEntity(NewTaskItem(request)), f);
    r := if created.Success? then Success(TaskItemDto.MapFrom(created.value.item)) else Failure(created.error);
  }

  method HandleUpdate(repo: BaseRepository, request: UpdateTaskItemCommand, f: Faults) returns (r: Result<TaskItemDto>)
    requires repo.Wired()
    modifies repo, repo.uow, repo.ctx
    ensures r == UpdateResponse(old(repo.uow.hasTx), f, old(repo.ctx.pending), request)
    ensures repo.uow.hasTx == old(repo.uow.hasTx)
    ensures repo.calls == old(repo.calls) + Calls(old(repo.uow.hasTx), f, Items.Updated(old(repo.ctx.pending), RequestedTaskItem(request)).Success?)
    ensures repo.ctx.pending ==
      if Began(old(repo.uow.hasTx), f) && Items.Updated(old(repo.ctx.pending), RequestedTaskItem(request)).Success?
      then Items.Updated(old(repo.ctx.pending), RequestedTaskItem(request)).value else old(repo.ctx.pending)
    ensures repo.ctx.db == if r.Success? then repo.ctx.pending else old(repo.ctx.db)
  {
    var updated := repo.UpdateAsync(ItemEntity(RequestedTaskItem(request)), f);
    r := if updated.Success? then Success(TaskItemDto.MapFrom(updated.value.item)) else Failure(updated.error);
  }

  method HandleDelete(repo: BaseRepository, id: Id, f: Faults) returns (o: Outcome)
    requires repo.Wired()
    modifies repo, repo.uow, repo.ctx
    ensures repo.uow.hasTx == old(repo.uow.hasTx)
    ensures id !in old(repo.ctx.pending.items) ==>
      o == Threw(NotFound(Items.NotFoundMessage))
      && repo.calls == old(repo.calls) && repo.ctx.pending == old(repo.ctx.pending) && repo.ctx.db == old(repo.ctx.db)
    ensures id in old(repo.ctx.pending.items) ==>
      o == AsOutcome(Surface(old(repo.uow.hasTx), f, Success(true)))
      && repo.calls == old(repo.calls) + Calls(old(repo.uow.hasTx), f, true)
      && repo.ctx.pending == (if Began(old(repo.uow.hasTx), f) then Items.Removed(old(repo.ctx.pending), old(repo.ctx.pending.items[id])) else old(repo.ctx.pending))
      && repo.ctx.db == (if o.Ok? then repo.ctx.pending else old(repo.ctx.db))
  {
    var entity := Items.GetByIdAsync(repo.ctx.pending, id);
    if entity.Failure? {
      return Threw(entity.error);
    }
    var deleted := repo.DeleteAsync(ItemEntity(entity.value), f);
    o := AsOutcome(deleted);
  }

  // Properties of the handlers.

  /** A create naming no stored category fails with NotFound whatever the database would do, and nothing is created. */
  lemma CreateChecksCategoryFirst(open: bool, f: Faults, s: Store, c: CreateTaskItemCommand)
    requires c.categoryId !in s.categories
    ensures CreateResponse(open, f, s, c) == Failure(NotFound(Categories.NotFoundMessage))
  {
  }

  /**
   * A create that goes through answers with the new row: the next key, the
   * coalesced text and the command's other fields; the row can be read back
   * under that key, and no task is left pointing at a missing category.
   */
  lemma CreateAnswersWithNewRow(s: Store, c: CreateTaskItemCommand)
    requires Keyed(s) && c.categoryId in s.categories
    ensures CreateResponse(false, NoFaults, s, c).Success?
    ensures CreateResponse(false, NoFaults, s, c).value.id == s.nextItemId
    ensures CreateResponse(false, NoFaults, s, c).value.title == Some(Coalesce(c.title, ""))
    ensures CreateResponse(false, NoFaults, s, c).value.description == Some(Coalesce(c.description, ""))
    ensures CreateResponse(false, NoFaults, s, c).value.categoryId == c.categoryId
    ensures CreateResponse(false, NoFaults, s, c).value.dueDate == c.dueDate
    ensures Items.GetByIdAsync(Items.Added(s, NewTaskItem(c)), s.nextItemId).Success?
    ensures TaskItemDto.MapFrom(Items.GetByIdAsync(Items.Added(s, NewTaskItem(c)), s.nextItemId).value) == CreateResponse(false, NoFaults, s, c).value
    ensures Intact(s) ==> Intact(Items.Added(s, NewTaskItem(c)))
  {
    Items.CreateThenFind(s, NewTaskItem(c));
    if Intact(s) {
      Items.CreateKeepsIntact(s, NewTaskItem(c));
    }
  }

  /** A title the validator accepts reaches the store as given: non-blank and at most 200 characters. */
  lemma ValidatedTitleIsStored(c: CreateTaskItemCommand)
    requires ValidateTaskItemTitle(c.title) == []
    ensures NewTaskItem(c).title == c.title
    ensures !IsBlank(NewTaskItem(c).title.value) && |NewTaskItem(c).title.value| <= NameColumnLength
  {
    TaskItemTitleRules(c.title);
  }

  /**
   * What an update does to the stored row: title and description are always
   * overwritten (an omitted one with ""), an omitted due date keeps the stored
   * one, category, status and priority come from the command, key and audit
   * fields stay.
   */
  lemma UpdateOverwritesText(stored: TaskItem, c: UpdateTaskItemCommand)
    ensures Items.Merge(stored, RequestedTaskItem(c)).title == Some(Coalesce(c.title, ""))
    ensures Items.Merge(stored, RequestedTaskItem(c)).description == Some(Coalesce(c.description, ""))
    ensures Items.Merge(stored, RequestedTaskItem(c)).dueDate == if c.dueDate.Some? then c.dueDate else stored.dueDate
    ensures Items.Merge(stored, RequestedTaskItem(c)).categoryId == c.categoryId
    ensures Items.Merge(stored, RequestedTaskItem(c)).status == c.status
    ensures Items.Merge(stored, RequestedTaskItem(c)).priority == c.priority
    ensures Items.Merge(stored, RequestedTaskItem(c)).id == stored.id && Items.Merge(stored, RequestedTaskItem(c)).audit == stored.audit
  {
    Items.MergeKeepsIdentity(stored, RequestedTaskItem(c));
  }

  /**
   * A successful update answers with the entity the handler built, so the
   * answer can disagree with the stored row: an omitted due date is null in
   * the answer while the store keeps the old date.
   */
  lemma UpdateAnswersWithRequest(s: Store, c: UpdateTaskItemCommand)
    requires c.id in s.items
    ensures UpdateResponse(false, NoFaults, s, c) == Success(TaskItemDto.MapFrom(RequestedTaskItem(c)))
    ensures c.dueDate.None? && s.items[c.id].dueDate.Some? ==>
      UpdateResponse(false, NoFaults, s, c).value.dueDate.None?
      && Items.Updated(s, RequestedTaskItem(c)).value.items[c.id].dueDate == s.items[c.id].dueDate
  {
  }

  /** An update of an absent task surfaces the repository's NotFound, unless the rollback itself throws. */
  lemma UpdateOfAbsentTaskFails(f: Faults, s: Store, c: UpdateTaskItemCommand)
    requires c.id !in s.items && f.begin.None?
    ensures f.rollback.None? ==> UpdateResponse(false, f, s, c) == Failure(KeyNotFound(c.id))
    ensures f.rollback.Some? ==> UpdateResponse(false, f, s, c) == Failure(f.rollback.value)
  {
  }

  // The schema's column rules (TaskItemConfiguration: `Title` is required, at most 200 characters).

  /** A create the validator accepted keeps every row within its table's column rules. */
  lemma ValidatedCreateConforms(s: Store, c: CreateTaskItemCommand)
    requires Conforms(s) && ValidateTaskItemTitle(c.title) == []
    ensures Conforms(Items.Added(s, NewTaskItem(c)))
  {
    ValidatedTitleIsStored(c);
  }

  /** The update handler always supplies a title, so no update empties the NOT NULL column. */
  lemma UpdateKeepsTitlesRequired(s: Store, c: UpdateTaskItemCommand)
    requires Required(s) && c.id in s.items
    ensures Required(Items.Updated(s, RequestedTaskItem(c)).value)
  {
  }

  /** No update validator is part of this model, so an update can store a title longer than its column. */
  lemma UpdateMayExceedTitleColumn(s: Store, c: UpdateTaskItemCommand)
    requires c.id in s.items && c.title.Some? && |c.title.value| > NameColumnLength
    ensures !WithinLengths(Items.Updated(s, RequestedTaskItem(c)).value)
  {
    var t := Items.Updated(s, RequestedTaskItem(c)).value;
    assert t.items[c.id].title == c.title;
  }
}
