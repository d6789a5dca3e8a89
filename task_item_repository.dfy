/** The task repository: lookups over the task table and the three entity steps. */
module TaskItemRepository {
  import opened Common
  import opened Entities
  import opened Persistence
  import Tables

  const NotFoundMessage := "Task item not found"

  /** `FindAsync` by primary key, throwing when no row has that key. */
  function GetByIdAsync(s: Store, id: Id): Result<TaskItem>
  {
    if id in s.items then Success(s.items[id]) else Failure(NotFound(NotFoundMessage))
  }

  function GetAllByCategoryIdQuery(s: Store, categoryId: Id): map<Id, TaskItem>
  {
    map k | k in s.items && s.items[k].categoryId == categoryId :: s.items[k]
  }

  function GetAllQuery(s: Store): map<Id, TaskItem>
  {
    s.items
  }

  /** The category's tasks as a list, in key order. */
  function GetAllByCategoryIdAsync(s: Store, categoryId: Id): (r: seq<TaskItem>)
    ensures forall i :: 0 <= i < |r| ==> r[i].categoryId == categoryId && exists k :: k in s.items && r[i] == s.items[k]
    ensures forall k :: k in s.items && s.items[k].categoryId == categoryId ==> s.items[k] in r
    ensures |r| == |GetAllByCategoryIdQuery(s, categoryId)|
  {
    var query := GetAllByCategoryIdQuery(s, categoryId);
    var rows := Tables.Rows(query);
    forall k | k in s.items && s.items[k].categoryId == categoryId
      ensures s.items[k] in rows
    {
      assert k in query && query[k] == s.items[k];
    }
    forall i | 0 <= i < |rows|
      ensures rows[i].categoryId == categoryId && exists k :: k in s.items && rows[i] == s.items[k]
    {
      var k :| k in query && rows[i] == query[k];
      assert s.items[k] == rows[i];
    }
    rows
  }

  /** Every task as a list, in key order. */
  function GetAllAsync(s: Store): (r: seq<TaskItem>)
    ensures |r| == |s.items|
    ensures forall k :: k in s.items ==> s.items[k] in r
    ensures forall t :: t in r ==> exists k :: k in s.items && s.items[k] == t
  {
    Tables.Rows(GetAllQuery(s))
  }

  /** The row `Add` inserts: the task under the table's next key. */
  function Inserted(s: Store, task: TaskItem): TaskItem
  {
    task.(id := s.nextItemId)
  }

  function Added(s: Store, task: TaskItem): Store
  {
    s.(items := s.items[s.nextItemId := Inserted(s, task)], nextItemId := s.nextItemId + 1)
  }

  /**
   * The stored task after `Update` copies `incoming` onto `stored`: title,
   * description and due date only when present, status, priority and
   * category always.
   */
  function Merge(stored: TaskItem, incoming: TaskItem): TaskItem
  {
    stored.(
      title := if incoming.title.Some? then incoming.title else stored.title,
      description := if incoming.description.Some? then incoming.description else stored.description,
      status := incoming.status,
      priority := incoming.priority,
      categoryId := incoming.categoryId,
      dueDate := if incoming.dueDate.Some? then incoming.dueDate else stored.dueDate)
  }

  function Updated(s: Store, task: TaskItem): Result<Store>
  {
    if task.id in s.items then Success(s.(items := s.items[task.id := Merge(s.items[task.id], task)]))
    else Failure(KeyNotFound(task.id))
  }

  /** `Remove` with the cascade the schema declares: the task and every comment on it. */
  function Removed(s: Store, task: TaskItem): Store
  {
    s.(items := s.items - {task.id},
       comments := map k | k in s.comments && s.comments[k].taskId != task.id :: s.comments[k])
  }

  method Create(ctx: Context, task: TaskItem) returns (created: TaskItem)
    modifies ctx
    ensures created == Inserted(old(ctx.pending), task)
    ensures ctx.pending == Added(old(ctx.pending), task) && ctx.db == old(ctx.db)
  {
    created := task.(id := ctx.pending.nextItemId);
    ctx.pending := ctx.pending.(items := ctx.pending.items[created.id := created], nextItemId := ctx.pending.nextItemId + 1);
  }

  method Update(ctx: Context, task: TaskItem) returns (o: Outcome)
    modifies ctx
    ensures ctx.db == old(ctx.db)
    ensures Updated(old(ctx.pending), task).Success? ==> o == Ok && ctx.pending == Updated(old(ctx.pending), task).value
    ensures Updated(old(ctx.pending), task).Failure? ==> o == Threw(Updated(old(ctx.pending), task).error) && ctx.pending == old(ctx.pending)
  {
    if task.id !in ctx.pending.items {
      return Threw(KeyNotFound(task.id));
    }
    var entity := ctx.pending.items[task.id];
    if task.title.Some? {
      entity := entity.(title := task.title);
    }
    if task.description.Some? {
      entity := entity.(description := task.description);
    }
    entity := entity.(status := task.status);
    entity := entity.(priority := task.priority);
    entity := entity.(categoryId := task.categoryId);
    if task.dueDate.Some? {
      entity := entity.(dueDate := task.dueDate);
    }
    ctx.pending := ctx.pending.(items := ctx.pending.items[task.id := entity]);
    o := Ok;
  }

  method Delete(ctx: Context, task: TaskItem)
    modifies ctx
    ensures ctx.pending == Removed(old(ctx.pending), task) && ctx.db == old(ctx.db)
  {
    ctx.pending := Removed(ctx.pending, task);
  }

  // Properties of the lookups and the steps.

  /** Each task belongs to the query of its own category and of no other. */
  lemma CategoryQueriesPartition(s: Store, k: Id, categoryId: Id)
    requires k in GetAllQuery(s)
    ensures k in GetAllByCategoryIdQuery(s, categoryId) <==> s.items[k].categoryId == categoryId
    ensures k in GetAllByCategoryIdQuery(s, categoryId) ==> GetAllByCategoryIdQuery(s, categoryId)[k] == s.items[k]
  {
  }

  /** A created task gets a key no task had, can be found under it, and hides no other task. */
  lemma CreateThenFind(s: Store, task: TaskItem)
    requires Keyed(s)
    ensures Inserted(s, task).id !in s.items
    ensures GetByIdAsync(Added(s, task), Inserted(s, task).id) == Success(Inserted(s, task))
    ensures forall k :: k in s.items ==> GetByIdAsync(Added(s, task), k) == GetByIdAsync(s, k)
    ensures |Added(s, task).items| == |s.items| + 1
    ensures Keyed(Added(s, task))
  {
  }

  /** Creating a task under an existing category keeps both foreign keys intact. */
  lemma CreateKeepsIntact(s: Store, task: TaskItem)
    requires Intact(s) && task.categoryId in s.categories
    ensures Intact(Added(s, task))
  {
  }

  /** Updating fails exactly when no task has the incoming key. */
  lemma UpdateFindsOrFails(s: Store, task: TaskItem)
    ensures Updated(s, task).Failure? <==> GetByIdAsync(s, task.id).Failure?
    ensures Updated(s, task).Success? ==>
      GetByIdAsync(Updated(s, task).value, task.id) == Success(Merge(s.items[task.id], task))
    ensures Updated(s, task).Success? ==>
      forall k :: k != task.id ==> GetByIdAsync(Updated(s, task).value, k) == GetByIdAsync(s, k)
    ensures Updated(s, task).Success? ==>
      Updated(s, task).value.comments == s.comments && Updated(s, task).value.categories == s.categories
  {
  }

  /** A missing value in the incoming task never clears the stored one. */
  lemma MergeNeverClears(stored: TaskItem, incoming: TaskItem)
    ensures stored.title.Some? ==> Merge(stored, incoming).title.Some?
    ensures stored.description.Some? ==> Merge(stored, incoming).description.Some?
    ensures stored.dueDate.Some? ==> Merge(stored, incoming).dueDate.Some?
    ensures incoming.dueDate.None? ==> Merge(stored, incoming).dueDate == stored.dueDate
  {
  }

  /** The merge takes the incoming status, priority and category, and keeps the stored key and audit fields. */
  lemma MergeKeepsIdentity(stored: TaskItem, incoming: TaskItem)
    ensures Merge(stored, incoming).id == stored.id && Merge(stored, incoming).audit == stored.audit
    ensures Merge(stored, incoming).status == incoming.status
    ensures Merge(stored, incoming).priority == incoming.priority
    ensures Merge(stored, incoming).categoryId == incoming.categoryId
  {
  }

  /** Applying the same update twice is applying it once, and writing back the stored task changes nothing. */
  lemma MergeIdempotent(stored: TaskItem, incoming: TaskItem)
    ensures Merge(Merge(stored, incoming), incoming) == Merge(stored, incoming)
    ensures Merge(stored, stored) == stored
  {
  }

  /** An incoming task with every optional field present replaces all but the key and audit fields. */
  lemma MergeOfCompleteTask(stored: TaskItem, incoming: TaskItem)
    requires incoming.title.Some? && incoming.description.Some? && incoming.dueDate.Some?
    ensures Merge(stored, incoming) == incoming.(id := stored.id, audit := stored.audit)
  {
  }

  /** Update does not check the category: moving a task to a missing category orphans it. */
  lemma UpdateMayOrphan(s: Store, task: TaskItem)
    requires task.id in s.items && task.categoryId !in s.categories
    ensures Updated(s, task).Success? && !Intact(Updated(s, task).value)
  {
    assert Updated(s, task).value.items[task.id].categoryId == task.categoryId;
  }

  /** Updating to an existing category keeps both foreign keys intact. */
  lemma UpdateKeepsIntact(s: Store, task: TaskItem)
    requires Intact(s) && task.categoryId in s.categories && Updated(s, task).Success?
    ensures Intact(Updated(s, task).value)
  {
  }

  /** After a delete the task is gone with all its comments, and every other task and comment is as it was. */
  lemma DeleteThenFind(s: Store, task: TaskItem)
    ensures GetByIdAsync(Removed(s, task), task.id) == Failure(NotFound(NotFoundMessage))
    ensures forall k :: k != task.id ==> GetByIdAsync(Removed(s, task), k) == GetByIdAsync(s, k)
    ensures forall k :: k in Removed(s, task).comments ==> Removed(s, task).comments[k].taskId != task.id
    ensures forall k :: k in s.comments && s.comments[k].taskId != task.id ==>
      k in Removed(s, task).comments && Removed(s, task).comments[k] == s.comments[k]
  {
  }

  /** The cascade keeps both foreign keys intact. */
  lemma DeleteKeepsIntact(s: Store, task: TaskItem)
    requires Intact(s)
    ensures Intact(Removed(s, task))
  {
  }
}
