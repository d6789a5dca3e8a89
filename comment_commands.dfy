/** The three comment command handlers: create (no check that the task exists), update, delete (after a fetch). */
module CommentCommands {
  import opened Common
  import opened Entities
  import opened Persistence
  import opened Repositories
  import opened Dtos
  import opened Validation
  import Comments = TaskCommentRepository

  datatype CreateTaskItemCommentCommand = CreateTaskItemCommentCommand(taskId: Id, comment: Option<string>)

  /** The text is declared non-nullable, but nothing stops a request from leaving it null. */
  datatype UpdateTaskItemCommentCommand = UpdateTaskItemCommentCommand(id: Id, comment: Option<string>)

  function NewComment(c: CreateTaskItemCommentCommand): TaskItemComment
  {
    TaskItemComment(0, c.taskId, c.comment, NoAudit)
  }

  function RequestedComment(c: UpdateTaskItemCommentCommand): TaskItemComment
  {
    TaskItemComment(c.id, 0, c.comment, NoAudit)
  }

  /** What the create handler answers: the DTO of the comment it added. */
  function CreateResponse(open: bool, f: Faults, s: Store, c: CreateTaskItemCommentCommand): Result<TaskItemCommentDto>
  {
    MapResult(Surface(open, f, Success(Comments.Inserted(s, NewComment(c)))), TaskItemCommentDto.MapFrom)
  }

  /** The step `UpdateAsync` runs on a comment: the argument back, or the repository's exception. */
  function UpdateCommentStep(s: Store, comment: TaskItemComment): Result<TaskItemComment>
  {
    if Comments.Updated(s, comment).Success? then Success(comment) else Failure(Comments.Updated(s, comment).error)
  }

  /** What the update handler answers: the DTO of the entity it built, not of the stored row. */
  function UpdateResponse(open: bool, f: Faults, s: Store, c: UpdateTaskItemCommentCommand): Result<TaskItemCommentDto>
  {
    MapResult(Surface(open, f, UpdateCommentStep(s, RequestedComment(c))), TaskItemCommentDto.MapFrom)
  }

  method HandleCreate(repo: BaseRepository, request: CreateTaskItemCommentCommand, f: Faults) returns (r: Result<TaskItemCommentDto>)
    requires repo.Wired()
    modifies repo, repo.uow, repo.ctx
    ensures r == CreateResponse(old(repo.uow.hasTx), f, old(repo.ctx.pending), request)
    ensures repo.uow.hasTx == old(repo.uow.hasTx)
    ensures repo.calls == old(repo.calls) + Calls(old(repo.uow.hasTx), f, true)
    ensures repo.ctx.pending == if Began(old(repo.uow.hasTx), f) then Comments.Added(old(repo.ctx.pending), NewComment(request)) else old(repo.ctx.pending)
    ensures repo.ctx.db == if r.Success? then repo.ctx.pending else old(repo.ctx.db)
  {
    var created := repo.CreateAsync(CommentEntity(NewComment(request)), f);
    r := if created.Success? then Success(TaskItemCommentDto.MapFrom(created.value.comment)) else Failure(created.error);
  }

  method HandleUpdate(repo: BaseRepository, request: UpdateTaskItemCommentCommand, f: Faults) returns (r: Result<TaskItemCommentDto>)
    requires repo.Wired()
    modifies repo, repo.uow, repo.ctx
    ensures r == UpdateResponse(old(repo.uow.hasTx), f, old(repo.ctx.pending), request)
    ensures repo.uow.hasTx == old(repo.uow.hasTx)
    ensures repo.calls == old(repo.calls) + Calls(old(repo.uow.hasTx), f, request.id in old(repo.ctx.pending.comments))
    ensures repo.ctx.pending ==
      if Began(old(repo.uow.hasTx), f) && request.id in old(repo.ctx.pending.comments)
      then Comments.Updated(old(repo.ctx.pending), RequestedComment(request)).value else old(repo.ctx.pending)
    ensures repo.ctx.db == if r.Success? then repo.ctx.pending else old(repo.ctx.db)
  {
    var updated := repo.UpdateAsync(CommentEntity(RequestedComment(request)), f);
    r := if updated.Success? then Success(TaskItemCommentDto.MapFrom(updated.value.comment)) else Failure(updated.error);
  }

  method HandleDelete(repo: BaseRepository, id: Id, f: Faults) returns (o: Outcome)
    requires repo.Wired()
    modifies repo, repo.uow, repo.ctx
    ensures repo.uow.hasTx == old(repo.uow.hasTx)
    ensures id !in old(repo.ctx.pending.comments) ==>
      o == Threw(NotFound(Comments.NotFoundMessage))
      && repo.calls == old(repo.calls) && repo.ctx.pending == old(repo.ctx.pending) && repo.ctx.db == old(repo.ctx.db)
    ensures id in old(repo.ctx.pending.comments) ==>
      o == AsOutcome(Surface(old(repo.uow.hasTx), f, Success(true)))
      && repo.calls == old(repo.calls) + Calls(old(repo.uow.hasTx), f, true)
      && repo.ctx.pending == (if Began(old(repo.uow.hasTx), f) then Comments.Removed(old(repo.ctx.pending), old(repo.ctx.pending.comments[id])) else old(repo.ctx.pending))
      && repo.ctx.db == (if o.Ok? then repo.ctx.pending else old(repo.ctx.db))
  {
    var entity := Comments.GetByIdAsync(repo.ctx.pending, id);
    if entity.Failure? {
      return Threw(entity.error);
    }
    var deleted := repo.DeleteAsync(CommentEntity(entity.value), f);
    o := AsOutcome(deleted);
  }

  // Properties of the handlers.

  /**
   * A create that goes through answers with the new comment's DTO, which
   * carries the requested text; the row is stored on the requested task, and
   * the store stays consistent exactly when that task exists.
   */
  lemma CreateAnswersWithNewComment(s: Store, c: CreateTaskItemCommentCommand)
    requires Keyed(s)
    ensures CreateResponse(false, NoFaults, s, c).Success?
    ensures CreateResponse(false, NoFaults, s, c).value.id == s.nextCommentId
    ensures CreateResponse(false, NoFaults, s, c).value.comment == c.comment
    ensures Comments.GetByIdAsync(Comments.Added(s, NewComment(c)), s.nextCommentId).Success?
    ensures Comments.GetByIdAsync(Comments.Added(s, NewComment(c)), s.nextCommentId).value.taskId == c.taskId
    ensures Intact(s) ==> (Intact(Comments.Added(s, NewComment(c))) <==> c.taskId in s.items)
  {
    Comments.CreateThenFind(s, NewComment(c));
    if Intact(s) {
      Comments.CreateIntactIff(s, NewComment(c));
    }
  }

  /**
   * A successful update stores the new text on the same task with the same
   * audit fields, but answers with the entity the handler built, whose audit
   * fields are defaults.
   */
  lemma UpdateAnswersWithRequest(s: Store, c: UpdateTaskItemCommentCommand)
    requires c.id in s.comments
    ensures UpdateResponse(false, NoFaults, s, c) == Success(TaskItemCommentDto.MapFrom(RequestedComment(c)))
    ensures UpdateResponse(false, NoFaults, s, c).value.comment == c.comment
    ensures UpdateResponse(false, NoFaults, s, c).value.created == 0 && UpdateResponse(false, NoFaults, s, c).value.createdBy.None?
    ensures UpdateResponse(false, NoFaults, s, c).value.lastModified == 0 && UpdateResponse(false, NoFaults, s, c).value.lastModifiedBy.None?
    ensures Comments.Updated(s, RequestedComment(c)).value.comments[c.id] == s.comments[c.id].(comment := c.comment)
  {
  }

  /** An update of an absent comment surfaces the repository's NotFound, unless the rollback itself throws. */
  lemma UpdateOfAbsentCommentFails(f: Faults, s: Store, c: UpdateTaskItemCommentCommand)
    requires c.id !in s.comments && f.begin.None?
    ensures f.rollback.None? ==> UpdateResponse(false, f, s, c) == Failure(KeyNotFound(c.id))
    ensures f.rollback.Some? ==> UpdateResponse(false, f, s, c) == Failure(f.rollback.value)
  {
  }

  // The schema's column rule (TaskItemCommentConfiguration: `Comment` is at most 1000 characters).

  /**
   * Neither comment validator bounds the length, so an accepted comment
   * longer than its column is stored by a create and by an update alike.
   */
  lemma AcceptedCommentMayExceedColumn(s: Store, c: CreateTaskItemCommentCommand, u: UpdateTaskItemCommentCommand)
    requires c.comment.Some? && |c.comment.value| > CommentColumnLength && ValidateComment(c.comment) == []
    requires u.comment == c.comment && u.id in s.comments
    ensures !WithinLengths(Comments.Added(s, NewComment(c)))
    ensures !WithinLengths(Comments.Updated(s, RequestedComment(u)).value)
  {
    assert Comments.Added(s, NewComment(c)).comments[s.nextCommentId].comment == c.comment;
    assert Comments.Updated(s, RequestedComment(u)).value.comments[u.id].comment == c.comment;
  }

  /** Such a comment exists: a thousand and one letters pass the validator. */
  lemma LongCommentIsAccepted()
    ensures var text := seq(CommentColumnLength + 1, _ => 'a');
      |text| > CommentColumnLength && ValidateComment(Some(text)) == []
  {
    var text := seq(CommentColumnLength + 1, _ => 'a');
    CommentRules(Some(text));
    assert !IsWhiteSpace(text[0]);
  }
}
