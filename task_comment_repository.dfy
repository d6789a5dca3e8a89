/** The comment repository: lookups over the comment table and the three entity steps. */
module TaskCommentRepository {
  import opened Common
  import opened Entities
  import opened Persistence

  const NotFoundMessage := "Task comment not found"

  function GetByIdAsync(s: Store, id: Id): Result<TaskItemComment>
  {
    if id in s.comments then Success(s.comments[id]) else Failure(NotFound(NotFoundMessage))
  }

  function GetAllByTaskIdQuery(s: Store, taskId: Id): map<Id, TaskItemComment>
  {
    map k | k in s.comments && s.comments[k].taskId == taskId :: s.comments[k]
  }

  function Inserted(s: Store, comment: TaskItemComment): TaskItemComment
  {
    comment.(id := s.nextCommentId)
  }

  function Added(s: Store, comment: TaskItemComment): Store
  {
    s.(comments := s.comments[s.nextCommentId := Inserted(s, comment)], nextCommentId := s.nextCommentId + 1)
  }

  /** The stored comment after `Update`: the incoming text, null included, on the same task. */
  function Rewritten(stored: TaskItemComment, incoming: TaskItemComment): TaskItemComment
  {
    stored.(comment := incoming.comment)
  }

  function Updated(s: Store, comment: TaskItemComment): Result<Store>
  {
    if comment.id in s.comments then
      Success(s.(comments := s.comments[comment.id := Rewritten(s.comments[comment.id], comment)]))
    else Failure(KeyNotFound(comment.id))
  }

  function Removed(s: Store, comment: TaskItemComment): Store
  {
    s.(comments := s.comments - {comment.id})
  }

  method Create(ctx: Context, comment: TaskItemComment) returns (created: TaskItemComment)
    modifies ctx
    ensures created == Inserted(old(ctx.pending), comment)
    ensures ctx.pending == Added(old(ctx.pending), comment) && ctx.db == old(ctx.db)
  {
    created := comment.(id := ctx.pending.nextCommentId);
    ctx.pending := ctx.pending.(
      comments := ctx.pending.comments[created.id := created],
      nextCommentId := ctx.pending.nextCommentId + 1);
  }

  method Update(ctx: Context, comment: TaskItemComment) returns (o: Outcome)
    modifies ctx
    ensures ctx.db == old(ctx.db)
    ensures Updated(old(ctx.pending), comment).Success? ==>
      o == Ok && ctx.pending == Updated(old(ctx.pending), comment).value
    ensures Updated(old(ctx.pending), comment).Failure? ==>
      o == Threw(Updated(old(ctx.pending), comment).error) && ctx.pending == old(ctx.pending)
  {
    if comment.id !in ctx.pending.comments {
      return Threw(KeyNotFound(comment.id));
    }
    var entity := ctx.pending.comments[comment.id];
    entity := entity.(comment := comment.comment);
    ctx.pending := ctx.pending.(comments := ctx.pending.comments[comment.id := entity]);
    o := Ok;
  }

  method Delete(ctx: Context, comment: TaskItemComment)
    modifies ctx
    ensures ctx.pending == Removed(old(ctx.pending), comment) && ctx.db == old(ctx.db)
  {
    ctx.pending := Removed(ctx.pending, comment);
  }

  // Properties of the lookups and the steps.

  /** The query holds exactly the comments on the given task. */
  lemma QueryByTask(s: Store, taskId: Id, k: Id)
    ensures k in GetAllByTaskIdQuery(s, taskId) <==> k in s.comments && s.comments[k].taskId == taskId
    ensures k in GetAllByTaskIdQuery(s, taskId) ==> GetAllByTaskIdQuery(s, taskId)[k] == s.comments[k]
  {
  }

  lemma CreateThenFind(s: Store, comment: TaskItemComment)
    requires Keyed(s)
    ensures Inserted(s, comment).id !in s.comments
    ensures GetByIdAsync(Added(s, comment), Inserted(s, comment).id) == Success(Inserted(s, comment))
    ensures forall k :: k in s.comments ==> GetByIdAsync(Added(s, comment), k) == GetByIdAsync(s, k)
    ensures Keyed(Added(s, comment))
  {
  }

  /** The repository does not check the task: a comment on a missing task breaks the foreign key. */
  lemma CreateIntactIff(s: Store, comment: TaskItemComment)
    requires Intact(s)
    ensures Intact(Added(s, comment)) <==> comment.taskId in s.items
  {
    assert Added(s, comment).comments[s.nextCommentId].taskId == comment.taskId;
  }

  /** Updating fails exactly when no comment has the key; otherwise only its text changes, null included. */
  lemma UpdateFindsOrFails(s: Store, comment: TaskItemComment)
    ensures Updated(s, comment).Failure? <==> GetByIdAsync(s, comment.id).Failure?
    ensures Updated(s, comment).Success? ==>
      GetByIdAsync(Updated(s, comment).value, comment.id)
        == Success(s.comments[comment.id].(comment := comment.comment))
    ensures Updated(s, comment).Success? ==>
      forall k :: k != comment.id ==> GetByIdAsync(Updated(s, comment).value, k) == GetByIdAsync(s, k)
    ensures Updated(s, comment).Success? ==> Updated(s, comment).value.items == s.items
  {
  }

  /** Rewriting the text keeps the comment on its task, so no foreign key breaks. */
  lemma UpdateKeepsIntact(s: Store, comment: TaskItemComment)
    requires Intact(s) && Updated(s, comment).Success?
    ensures Intact(Updated(s, comment).value)
  {
  }

  lemma DeleteThenFind(s: Store, comment: TaskItemComment)
    requires Intact(s)
    ensures GetByIdAsync(Removed(s, comment), comment.id) == Failure(NotFound(NotFoundMessage))
    ensures forall k :: k != comment.id ==> GetByIdAsync(Removed(s, comment), k) == GetByIdAsync(s, k)
    ensures Intact(Removed(s, comment))
  {
  }
}
