/**
 * The generic transactional wrapper every repository inherits: open a
 * transaction, run the entity-specific step, commit; on an exception
 * roll back and rethrow. The C# type parameter becomes `Entity`, one
 * variant per concrete repository, and the abstract steps dispatch on it.
 */
module Repositories {
  import opened Common
  import opened Entities
  import opened Persistence
  import Items = TaskItemRepository
  import Categories = TaskCategoryRepository
  import Comments = TaskCommentRepository

  datatype Entity =
    | CategoryEntity(category: TaskCategory)
    | ItemEntity(item: TaskItem)
    | CommentEntity(comment: TaskItemComment)

  /** The faults the database raises during one wrapper call (`None`: that step succeeds). */
  datatype Faults = Faults(begin: Option<Error>, save: Option<Error>, commit: Option<Error>, rollback: Option<Error>)

  const NoFaults := Faults(None, None, None, None)

  /** The calls a wrapper makes on its unit of work. */
  datatype Call = BeginCall | CommitCall | RollbackCall

  /** The save and the commit both go through. */
  predicate Committed(f: Faults)
  {
    f.save.None? && f.commit.None?
  }

  /** The entity step runs: no transaction was open before, and opening one succeeded. */
  predicate Began(open: bool, f: Faults)
  {
    !open && f.begin.None?
  }

  // The entity-specific steps, on the tracked store.

  function Inserted(s: Store, e: Entity): Entity
  {
    match e
    case CategoryEntity(c) => CategoryEntity(Categories.Inserted(s, c))
    case ItemEntity(t) => ItemEntity(Items.Inserted(s, t))
    case CommentEntity(m) => CommentEntity(Comments.Inserted(s, m))
  }

  function Added(s: Store, e: Entity): Store
  {
    match e
    case CategoryEntity(c) => Categories.Added(s, c)
    case ItemEntity(t) => Items.Added(s, t)
    case CommentEntity(m) => Comments.Added(s, m)
  }

  function Updated(s: Store, e: Entity): Result<Store>
  {
    match e
    case CategoryEntity(c) => Categories.Updated(s, c)
    case ItemEntity(t) => Items.Updated(s, t)
    case CommentEntity(m) => Comments.Updated(s, m)
  }

  function Removed(s: Store, e: Entity): Store
  {
    match e
    case CategoryEntity(c) => Categories.Removed(s, c)
    case ItemEntity(t) => Items.Removed(s, t)
    case CommentEntity(m) => Comments.Removed(s, m)
  }

  /** What the update step itself yields: the argument, or the step's exception. */
  function UpdateStep(s: Store, e: Entity): Result<Entity>
  {
    if Updated(s, e).Success? then Success(e) else Failure(Updated(s, e).error)
  }

  // What a wrapper call does, as a function of the state it starts in.

  /**
   * What the caller of a wrapper sees, given whether a transaction was
   * already open, the database faults, and what the entity step yielded.
   */
  function Surface<T>(open: bool, f: Faults, step: Result<T>): Result<T>
  {
    if open then Failure(InvalidOperation(TransactionAlreadyStarted))
    else if f.begin.Some? then Failure(f.begin.value)
    else if step.Failure? then Failure(Surfaced(step.error, f.rollback))
    else if !Committed(f) then Failure(InvalidOperation(NoTransactionToRollback))
    else step
  }

  /** The calls the wrapper makes on the unit of work. */
  function Calls(open: bool, f: Faults, stepOk: bool): seq<Call>
  {
    if !Began(open, f) then [BeginCall]
    else if !stepOk then [BeginCall, RollbackCall]
    else if Committed(f) then [BeginCall, CommitCall]
    else [BeginCall, CommitCall, RollbackCall]
  }

  /** The operations that reach the database. */
  function Ops(open: bool, f: Faults, stepOk: bool): seq<DbOp>
  {
    if open then []
    else if f.begin.Some? then [OpenTx]
    else if !stepOk then [OpenTx, RollbackTx, DisposeTx]
    else [OpenTx] + CommitOps(f.save, f.commit)
  }

  class BaseRepository {
    const uow: UnitOfWork
    const ctx: Context
    ghost var calls: seq<Call>

    /** The repository and its unit of work share one context, as the scoped services do. */
    ghost predicate Wired()
    {
      ctx == uow.ctx
    }

    constructor (uow: UnitOfWork)
      ensures this.uow == uow && Wired() && calls == []
    {
      this.uow := uow;
      this.ctx := uow.ctx;
      calls := [];
    }

    method Create(obj: Entity) returns (created: Entity)
      modifies ctx
      ensures created == Inserted(old(ctx.pending), obj)
      ensures ctx.pending == Added(old(ctx.pending), obj) && ctx.db == old(ctx.db)
    {
      match obj
      case CategoryEntity(c) =>
        var x := Categories.Create(ctx, c);
        created := CategoryEntity(x);
      case ItemEntity(t) =>
        var x := Items.Create(ctx, t);
        created := ItemEntity(x);
      case CommentEntity(m) =>
        var x := Comments.Create(ctx, m);
        created := CommentEntity(x);
    }

    method Update(obj: Entity) returns (o: Outcome)
      modifies ctx
      ensures ctx.db == old(ctx.db)
      ensures Updated(old(ctx.pending), obj).Success? ==>
        o == Ok && ctx.pending == Updated(old(ctx.pending), obj).value
      ensures Updated(old(ctx.pending), obj).Failure? ==>
        o == Threw(Updated(old(ctx.pending), obj).error) && ctx.pending == old(ctx.pending)
    {
      match obj
      case CategoryEntity(c) => o := Categories.Update(ctx, c);
      case ItemEntity(t) => o := Items.Update(ctx, t);
      case CommentEntity(m) => o := Comments.Update(ctx, m);
    }

    method Delete(obj: Entity)
      modifies ctx
      ensures ctx.pending == Removed(old(ctx.pending), obj) && ctx.db == old(ctx.db)
    {
      match obj
      case CategoryEntity(c) => Categories.Delete(ctx, c);
      case ItemEntity(t) => Items.Delete(ctx, t);
      case CommentEntity(m) => Comments.Delete(ctx, m);
    }

    /** The `try` block's commit and the `catch` block's rollback-and-rethrow, after a step that succeeded. */
    method CommitOrRollBack(f: Faults) returns (o: Outcome)
      requires Wired() && uow.hasTx
      modifies this, uow, ctx
      ensures !uow.hasTx && uow.disposed == old(uow.disposed)
      ensures o == if Committed(f) then Ok else Threw(InvalidOperation(NoTransactionToRollback))
      ensures calls == old(calls) + if Committed(f) then [CommitCall] else [CommitCall, RollbackCall]
      ensures uow.ops == old(uow.ops) + CommitOps(f.save, f.commit)
      ensures ctx.pending == old(ctx.pending)
      ensures ctx.db == if Committed(f) then ctx.pending else old(ctx.db)
    {
      calls := calls + [CommitCall];
      var committed := uow.CommitTransactionAsync(f.save, f.commit, f.rollback);
      if committed.Ok? {
        return Ok;
      }
      calls := calls + [RollbackCall];
      var rolledBack := uow.RollbackTransactionAsync(f.rollback);
      o := if rolledBack.Threw? then rolledBack else committed;
    }

    /** The `catch` block after a step that threw `error`: roll back, then rethrow. */
    method RollBackAndRethrow(error: Error, f: Faults) returns (o: Outcome)
      requires Wired() && uow.hasTx
      modifies this, uow
      ensures !uow.hasTx && uow.disposed == old(uow.disposed)
      ensures o == Threw(Surfaced(error, f.rollback))
      ensures calls == old(calls) + [RollbackCall]
      ensures uow.ops == old(uow.ops) + [RollbackTx, DisposeTx]
    {
      calls := calls + [RollbackCall];
      var rolledBack := uow.RollbackTransactionAsync(f.rollback);
      o := if rolledBack.Threw? then rolledBack else Threw(error);
    }

    method CreateAsync(obj: Entity, f: Faults) returns (r: Result<Entity>)
      requires Wired()
      modifies this, uow, ctx
      ensures uow.hasTx == old(uow.hasTx) && uow.disposed == old(uow.disposed)
      ensures r == Surface(old(uow.hasTx), f, Success(Inserted(old(ctx.pending), obj)))
      ensures calls == old(calls) + Calls(old(uow.hasTx), f, true)
      ensures uow.ops == old(uow.ops) + Ops(old(uow.hasTx), f, true)
      ensures ctx.pending == if Began(old(uow.hasTx), f) then Added(old(ctx.pending), obj) else old(ctx.pending)
      ensures ctx.db == if r.Success? then ctx.pending else old(ctx.db)
    {
      calls := calls + [BeginCall];
      var begun := uow.BeginTransactionAsync(f.begin);
      if begun.Threw? {
        return Failure(begun.error);
      }
      var created := Create(obj);
      var committed := CommitOrRollBack(f);
      r := if committed.Ok? then Success(created) else Failure(committed.error);
    }

    method UpdateAsync(obj: Entity, f: Faults) returns (r: Result<Entity>)
      requires Wired()
      modifies this, uow, ctx
      ensures uow.hasTx == old(uow.hasTx) && uow.disposed == old(uow.disposed)
      ensures r == Surface(old(uow.hasTx), f, UpdateStep(old(ctx.pending), obj))
      ensures calls == old(calls) + Calls(old(uow.hasTx), f, Updated(old(ctx.pending), obj).Success?)
      ensures uow.ops == old(uow.ops) + Ops(old(uow.hasTx), f, Updated(old(ctx.pending), obj).Success?)
      ensures ctx.pending ==
        if Began(old(uow.hasTx), f) && Updated(old(ctx.pending), obj).Success?
        then Updated(old(ctx.pending), obj).value else old(ctx.pending)
      ensures ctx.db == if r.Success? then ctx.pending else old(ctx.db)
    {
      calls := calls + [BeginCall];
      var begun := uow.BeginTransactionAsync(f.begin);
      if begun.Threw? {
        return Failure(begun.error);
      }
      var stepped := Update(obj);
      var o: Outcome;
      if stepped.Threw? {
        o := RollBackAndRethrow(stepped.error, f);
      } else {
        o := CommitOrRollBack(f);
      }
      r := if o.Ok? then Success(obj) else Failure(o.error);
    }

    method DeleteAsync(obj: Entity, f: Faults) returns (r: Result<bool>)
      requires Wired()
      modifies this, uow, ctx
      ensures uow.hasTx == old(uow.hasTx) && uow.disposed == old(uow.disposed)
      ensures r == Surface(old(uow.hasTx), f, Success(true))
      ensures calls == old(calls) + Calls(old(uow.hasTx), f, true)
      ensures uow.ops == old(uow.ops) + Ops(old(uow.hasTx), f, true)
      ensures ctx.pending == if Began(old(uow.hasTx), f) then Removed(old(ctx.pending), obj) else old(ctx.pending)
      ensures ctx.db == if r.Success? then ctx.pending else old(ctx.db)
    {
      calls := calls + [BeginCall];
      var begun := uow.BeginTransactionAsync(f.begin);
      if begun.Threw? {
        return Failure(begun.error);
      }
      Delete(obj);
      var committed := CommitOrRollBack(f);
      r := if committed.Ok? then Success(true) else Failure(committed.error);
    }
  }

  /** Three operations in a row, none failing, each open and commit a transaction of their own. */
  method CreateUpdateDelete(repo: BaseRepository, obj: Entity)
    requires repo.Wired() && !repo.uow.hasTx
    modifies repo, repo.uow, repo.ctx
    ensures repo.calls == old(repo.calls) + [BeginCall, CommitCall, BeginCall, CommitCall, BeginCall, CommitCall]
    ensures repo.uow.ops == old(repo.uow.ops)
      + [OpenTx, Flush, CommitTx, DisposeTx] + [OpenTx, Flush, CommitTx, DisposeTx] + [OpenTx, Flush, CommitTx, DisposeTx]
    ensures !repo.uow.hasTx && repo.ctx.db == repo.ctx.pending
  {
    var created := repo.CreateAsync(obj, NoFaults);
    var updated := repo.UpdateAsync(created.value, NoFaults);
    var deleted := repo.DeleteAsync(created.value, NoFaults);
  }

  /** `xs` written out `n` times in a row. */
  function Repeat<T>(xs: seq<T>, n: nat): seq<T>
  {
    if n == 0 then [] else Repeat(xs, n - 1) + xs
  }

  /**
   * The same sequence for each entity of a list, none failing: every call
   * opens and commits a transaction of its own, so `n` calls make `n`
   * begin/commit pairs on the unit of work and `n` open/save/commit/dispose
   * runs on the database.
   */
  method CreateUpdateDeleteAll(repo: BaseRepository, objs: seq<Entity>)
    requires repo.Wired() && !repo.uow.hasTx
    modifies repo, repo.uow, repo.ctx
    ensures repo.calls == old(repo.calls) + Repeat([BeginCall, CommitCall], 3 * |objs|)
    ensures repo.uow.ops == old(repo.uow.ops) + Repeat([OpenTx, Flush, CommitTx, DisposeTx], 3 * |objs|)
    ensures !repo.uow.hasTx && (objs != [] ==> repo.ctx.db == repo.ctx.pending)
  {
    var i := 0;
    while i < |objs|
      invariant 0 <= i <= |objs| && repo.Wired() && !repo.uow.hasTx
      invariant repo.calls == old(repo.calls) + Repeat([BeginCall, CommitCall], 3 * i)
      invariant repo.uow.ops == old(repo.uow.ops) + Repeat([OpenTx, Flush, CommitTx, DisposeTx], 3 * i)
      invariant i > 0 ==> repo.ctx.db == repo.ctx.pending
    {
      CreateUpdateDelete(repo, objs[i]);
      RepeatThreeMore([BeginCall, CommitCall], 3 * i);
      RepeatThreeMore([OpenTx, Flush, CommitTx, DisposeTx], 3 * i);
      i := i + 1;
    }
  }

  lemma RepeatThreeMore<T>(xs: seq<T>, n: nat)
    ensures Repeat(xs, n + 3) == Repeat(xs, n) + xs + xs + xs
  {
    assert Repeat(xs, n + 3) == Repeat(xs, n + 2) + xs;
    assert Repeat(xs, n + 2) == Repeat(xs, n + 1) + xs;
  }

  // Properties of a wrapper call.

  /** A call succeeds exactly when no transaction was open, every database step went through and the entity step did; it then returns what the step yielded. */
  lemma SucceedsOnlyWhenCommitted<T>(open: bool, f: Faults, step: Result<T>)
    ensures Surface(open, f, step).Success? <==> Began(open, f) && step.Success? && Committed(f)
    ensures Surface(open, f, step).Success? ==> Surface(open, f, step) == step
  {
  }

  /**
   * With the real unit of work, a failed save or commit never reaches the
   * caller: the unit of work has already rolled back and cleared the
   * handle, so the wrapper's own rollback throws "No transaction to rollback".
   */
  lemma CommitFailureIsReplaced<T>(f: Faults, value: T)
    requires f.begin.None? && !Committed(f)
    ensures Surface(false, f, Success(value)) == Failure(InvalidOperation(NoTransactionToRollback))
    ensures f.save.Some? && f.save.value != InvalidOperation(NoTransactionToRollback) ==>
      Surface(false, f, Success(value)) != Failure(f.save.value)
    ensures f.save.None? && f.commit.value != InvalidOperation(NoTransactionToRollback) ==>
      Surface(false, f, Success(value)) != Failure(f.commit.value)
  {
  }

  /** A step's exception reaches the caller unchanged unless the rollback itself throws. */
  lemma StepErrorPropagates<T>(f: Faults, step: Result<T>)
    requires f.begin.None? && step.Failure?
    ensures f.rollback.None? ==> Surface(false, f, step) == Failure(step.error)
    ensures f.rollback.Some? ==> Surface(false, f, step) == Failure(f.rollback.value)
  {
  }

  /**
   * The calls a wrapper makes: Begin exactly once, always; Commit once
   * when the step succeeded and never otherwise; Rollback never on
   * success and once on any failure after Begin succeeded.
   */
  lemma CallCounts(open: bool, f: Faults, stepOk: bool)
    ensures multiset(Calls(open, f, stepOk))[BeginCall] == 1
    ensures multiset(Calls(open, f, stepOk))[CommitCall] == if Began(open, f) && stepOk then 1 else 0
    ensures multiset(Calls(open, f, stepOk))[RollbackCall] == if Began(open, f) && !(stepOk && Committed(f)) then 1 else 0
    ensures Calls(open, f, stepOk)[0] == BeginCall
  {
  }

  /** The database sees at most one rollback, and every transaction opened is disposed once. */
  lemma DatabaseOpsBalanced(open: bool, f: Faults, stepOk: bool)
    ensures multiset(Ops(open, f, stepOk))[RollbackTx] <= 1
    ensures multiset(Ops(open, f, stepOk))[DisposeTx] == if Began(open, f) then 1 else 0
    ensures multiset(Ops(open, f, stepOk))[CommitTx] <= 1
    ensures Began(open, f) && stepOk && Committed(f) ==> multiset(Ops(open, f, stepOk))[RollbackTx] == 0
  {
    var ops := Ops(open, f, stepOk);
    if open {
      assert ops == [];
    } else if f.begin.Some? {
      assert ops == [OpenTx];
    } else if !stepOk {
      assert ops == [OpenTx, RollbackTx, DisposeTx];
    } else if f.save.Some? {
      assert ops == [OpenTx, Flush, RollbackTx, DisposeTx];
    } else if f.commit.Some? {
      assert ops == [OpenTx, Flush, CommitTx, RollbackTx, DisposeTx];
    } else {
      assert ops == [OpenTx, Flush, CommitTx, DisposeTx];
    }
  }
}
