/**
 * The EF Core context shared by the repositories, and the unit of work
 * that brackets their changes in a database transaction.
 */
module Persistence {
  import opened Common
  import opened Entities

  /**
   * The database context: `db` is what the database holds, committed;
   * `pending` is the change tracker's view, which the repository steps
   * edit and which the next successful save writes out.
   */
  class Context {
    var db: Store
    var pending: Store

    constructor (s: Store)
      ensures db == s && pending == s
    {
      db := s;
      pending := s;
    }
  }

  /** What the unit of work asks of the database, in order. */
  datatype DbOp = OpenTx | Flush | CommitTx | RollbackTx | DisposeTx

  const TransactionAlreadyStarted := "Transaction already started"
  const NoTransactionToCommit := "No transaction to commit"
  const NoTransactionToRollback := "No transaction to rollback"

  /**
   * The exception that leaves a `catch` block which calls a rollback and
   * then rethrows `original`: the rollback's own exception, if it raised one.
   */
  function Surfaced(original: Error, rollbackFault: Option<Error>): Error
  {
    if rollbackFault.Some? then rollbackFault.value else original
  }

  /** The database operations of a commit on an open transaction, given the save and commit faults. */
  function CommitOps(saveFault: Option<Error>, commitFault: Option<Error>): seq<DbOp>
  {
    if saveFault.Some? then [Flush, RollbackTx, DisposeTx]
    else if commitFault.Some? then [Flush, CommitTx, RollbackTx, DisposeTx]
    else [Flush, CommitTx, DisposeTx]
  }

  /**
   * The unit of work. `hasTx` says whether the transaction handle is
   * non-null. The database is an oracle: every operation that reaches it
   * takes the fault it raises, if any, as a parameter.
   */
  class UnitOfWork {
    const ctx: Context
    var hasTx: bool
    var disposed: bool
    ghost var ops: seq<DbOp>

    constructor (ctx: Context)
      ensures this.ctx == ctx && !hasTx && !disposed && ops == []
    {
      this.ctx := ctx;
      hasTx := false;
      disposed := false;
      ops := [];
    }

    /** Saves the tracked changes; the count of rows written is the database's reply. */
    method SaveChangesAsync(reply: Result<nat>) returns (r: Result<nat>)
      modifies this, ctx
      ensures r == reply
      ensures hasTx == old(hasTx) && disposed == old(disposed)
      ensures ops == old(ops) + [Flush]
      ensures ctx.pending == old(ctx.pending)
      ensures ctx.db == if !hasTx && reply.Success? then ctx.pending else old(ctx.db)
    {
      ops := ops + [Flush];
      if !hasTx && reply.Success? {
        ctx.db := ctx.pending;
      }
      r := reply;
    }

    method BeginTransactionAsync(fault: Option<Error>) returns (o: Outcome)
      modifies this
      ensures disposed == old(disposed)
      ensures old(hasTx) ==> o == Threw(InvalidOperation(TransactionAlreadyStarted)) && hasTx && ops == old(ops)
      ensures !old(hasTx) ==> ops == old(ops) + [OpenTx] && (hasTx <==> fault.None?)
      ensures !old(hasTx) ==> o == if fault.Some? then Threw(fault.value) else Ok
    {
      if hasTx {
        return Threw(InvalidOperation(TransactionAlreadyStarted));
      }
      ops := ops + [OpenTx];
      if fault.Some? {
        return Threw(fault.value);
      }
      hasTx := true;
      o := Ok;
    }

    method CommitTransactionAsync(saveFault: Option<Error>, commitFault: Option<Error>, rollbackFault: Option<Error>)
      returns (o: Outcome)
      modifies this, ctx
      ensures !hasTx && disposed == old(disposed)
      ensures ctx.pending == old(ctx.pending)
      ensures !old(hasTx) ==> o == Threw(InvalidOperation(NoTransactionToCommit)) && ops == old(ops) && ctx.db == old(ctx.db)
      ensures old(hasTx) ==> ops == old(ops) + CommitOps(saveFault, commitFault)
      ensures old(hasTx) && saveFault.None? && commitFault.None? ==> o == Ok && ctx.db == ctx.pending
      ensures old(hasTx) && saveFault.Some? ==> o == Threw(Surfaced(saveFault.value, rollbackFault)) && ctx.db == old(ctx.db)
      ensures old(hasTx) && saveFault.None? && commitFault.Some? ==>
        o == Threw(Surfaced(commitFault.value, rollbackFault)) && ctx.db == old(ctx.db)
    {
      if !hasTx {
        return Threw(InvalidOperation(NoTransactionToCommit));
      }
      // try: save, then commit
      var failure: Option<Error> := None;
      ops := ops + [Flush];
      if saveFault.Some? {
        failure := saveFault;
      } else {
        ops := ops + [CommitTx];
        if commitFault.Some? {
          failure := commitFault;
        } else {
          ctx.db := ctx.pending;
        }
      }
      o := Ok;
      if failure.Some? {
        // catch: roll back, then rethrow unless the rollback threw first
        var rolledBack := RollbackTransactionAsync(rollbackFault);
        o := if rolledBack.Threw? then rolledBack else Threw(failure.value);
      }
      // finally: dispose a handle that is still there
      if hasTx {
        ops := ops + [DisposeTx];
        hasTx := false;
      }
    }

    method RollbackTransactionAsync(fault: Option<Error>) returns (o: Outcome)
      modifies this
      ensures !hasTx && disposed == old(disposed)
      ensures !old(hasTx) ==> o == Threw(InvalidOperation(NoTransactionToRollback)) && ops == old(ops)
      ensures old(hasTx) ==> ops == old(ops) + [RollbackTx, DisposeTx]
      ensures old(hasTx) ==> o == if fault.Some? then Threw(fault.value) else Ok
    {
      if !hasTx {
        return Threw(InvalidOperation(NoTransactionToRollback));
      }
      // try: roll back; finally: dispose and clear the handle
      ops := ops + [RollbackTx];
      o := if fault.Some? then Threw(fault.value) else Ok;
      ops := ops + [DisposeTx];
      hasTx := false;
    }

    /** Disposes the handle on the first call only; the handle itself is not cleared. */
    method Dispose()
      modifies this
      ensures disposed && hasTx == old(hasTx)
      ensures ops == if !old(disposed) && old(hasTx) then old(ops) + [DisposeTx] else old(ops)
    {
      if !disposed {
        if hasTx {
          ops := ops + [DisposeTx];
        }
        disposed := true;
      }
    }
  }

  /** Disposing twice disposes an open handle once, and a second dispose changes nothing. */
  method DisposeTwice(uow: UnitOfWork)
    modifies uow
    ensures uow.disposed && uow.hasTx == old(uow.hasTx)
    ensures uow.ops == old(uow.ops) || uow.ops == old(uow.ops) + [DisposeTx]
  {
    uow.Dispose();
    ghost var once := uow.ops;
    uow.Dispose();
    assert uow.ops == once;
  }
}
