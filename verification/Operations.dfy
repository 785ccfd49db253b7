/** A database transaction as its callers see it: operations may nest and callers may
    swallow their errors, but a transaction in which anything failed publishes nothing. */
module Operations {
  import opened Common
  import opened Bytes
  import opened Values
  import opened Catalogs
  import opened Kernel
  import opened Store
  import opened Commits
  import opened References
  import opened Cascades
  import opened RowOperations
  import opened Expansions
  import opened Transactions

  /** What a caller asks a transaction to do. A group stands for a statement or a batch that
      performs nested operations; a call may ignore the error of its operation. */
  datatype Op =
    | Insert(table: TableId, key: ByteString, row: seq<Value>)
    | Update(table: TableId, key: ByteString, row: seq<Value>)
    | Delete(table: TableId, identity: ByteString)
    | Group(calls: seq<Call>)
    | Fail

  datatype Call = Call(op: Op, swallow: bool)

  /** Row keys are sixteen bytes by their type. */
  predicate WellTyped(op: Op) {
    match op
    case Insert(_, key, _) => |key| == 16
    case Update(_, key, _) => |key| == 16
    case Delete(_, _) => true
    case Group(calls) => forall c :: c in calls ==> WellTyped(c.op)
    case Fail => true
  }

  class DatabaseTransaction {
    const owner: nat
    var backend: DirectTransaction?
    var inOperation: bool
    var wrote: bool
    /** Some operation of this transaction has returned an error. */
    ghost var failed: bool

    /** A backend that is still there is in order, and every immediate foreign key holds in
        its view unless rows changed since the last check. */
    ghost predicate Sane()
      reads this, backend
    {
      && (failed ==> backend == null)
      && (backend != null ==>
            && backend.Ready() && Valid(backend.schema.catalog)
            && (!backend.needsValidation ==> ImmediateOk(backend.fp, backend.schema, backend.Seen())))
    }

    /** Between outermost operations every immediate foreign key has been checked. */
    ghost predicate Settled()
      reads this, backend
    {
      Sane() && !inOperation && (backend != null ==> !backend.needsValidation)
    }

    constructor Begin(owner: nat, tx: DirectTransaction)
      requires tx.Ready() && !tx.needsValidation && tx.writes == map[] && Valid(tx.schema.catalog)
      ensures Settled() && backend == tx && this.owner == owner && !failed && !wrote
    {
      this.owner, backend, inOperation, wrote, failed := owner, tx, false, false, false;
      new;
      NothingYet(tx);
    }

    /** Active means not aborted and not cancelled or out of time. */
    method EnsureActive() returns (r: Result<()>)
      ensures backend == null ==> r == Err(TransactionAborted)
      ensures r.Err? ==> r.error == TransactionAborted || r.error == Cancelled
    {
      if backend == null {
        return Err(TransactionAborted);
      }
      var interrupted: bool := *;
      r := if interrupted then Err(Cancelled) else Ok(());
    }

    /** Run one operation. An error, however deep, drops everything staged. */
    method Operation(store: nat, op: Op) returns (r: Result<()>)
      requires Sane() && WellTyped(op)
      modifies this, backend
      ensures Sane() && inOperation == old(inOperation)
      ensures backend == old(backend) || (backend == null && failed)
      ensures old(failed) ==> failed
      ensures r.Err? ==> backend == null && failed
      ensures old(backend) == null || store != owner ==> r.Err?
      ensures r.Ok? && !old(inOperation) ==>
                && backend != null && !backend.needsValidation && !failed
                && ImmediateOk(backend.fp, backend.schema, backend.Seen())
      ensures old(inOperation) && r.Err? && store == owner ==> r.error != ForeignKeyViolation
      ensures old(inOperation) && backend != null && old(backend != null && backend.needsValidation) ==> backend.needsValidation
      decreases op, 2
    {
      var nested := inOperation;
      inOperation := true;
      r := Perform(store, op, nested);
      inOperation := nested;
      if r.Err? {
        backend := null;
        failed := true;
      }
    }

    method Perform(store: nat, op: Op, nested: bool) returns (r: Result<()>)
      requires Sane() && inOperation && WellTyped(op)
      modifies this, backend
      ensures inOperation && (backend == old(backend) || (backend == null && failed))
      ensures failed ==> backend == null
      ensures old(failed) ==> failed
      ensures r.Ok? ==> Sane()
      ensures old(backend) == null || store != owner ==> r.Err?
      ensures r.Ok? && !nested ==>
                && backend != null && !backend.needsValidation
                && ImmediateOk(backend.fp, backend.schema, backend.Seen())
      ensures nested && r.Err? && store == owner ==> r.error != ForeignKeyViolation
      ensures nested && backend != null && r.Ok? && old(backend != null && backend.needsValidation) ==> backend.needsValidation
      decreases op, 1
    {
      hide DirectTransaction.Ready, View, ImmediateOk, Valid, RowLocs, Cleared, Effect, FullRow, Placed, Target, Violates;
      r := EnsureActive();
      if r.Err? {
        return;
      }
      if store != owner {
        return Err(InvalidState);
      }
      match op {
        case Insert(t, key, row) =>
          r := backend.Insert(t, key, row);
        case Update(t, key, row) =>
          r := backend.Update(t, key, row);
        case Delete(t, id) =>
          r := backend.Delete(t, id);
        case Group(calls) =>
          r := RunAll(store, calls, op);
        case Fail =>
          r := Err(InvalidState);
      }
      if r.Err? {
        return;
      }
      if op.Insert? || op.Update? || op.Delete? {
        wrote := true;
      }
      if !nested {
        // An error that was swallowed below has aborted the transaction all the same.
        r := EnsureActive();
        if r.Err? {
          return;
        }
        r := backend.ValidateImmediate();
        if r.Err? {
          return;
        }
        r := EnsureActive();
      }
    }

    /** The calls of a group, in order; the first error that is not swallowed ends it. */
    method RunAll(store: nat, calls: seq<Call>, ghost whole: Op) returns (r: Result<()>)
      requires Sane() && inOperation && whole == Group(calls) && WellTyped(whole)
      modifies this, backend
      ensures Sane() && inOperation && (backend == old(backend) || (backend == null && failed))
      ensures old(failed) ==> failed
      ensures r.Err? && store == owner ==> r.error != ForeignKeyViolation
      ensures backend != null && old(backend != null && backend.needsValidation) ==> backend.needsValidation
      decreases whole, 0
    {
      var n := 0;
      while n < |calls|
        invariant n <= |calls| && Sane() && inOperation && (backend == old(backend) || (backend == null && failed))
        invariant old(failed) ==> failed
        invariant backend != null && old(backend != null && backend.needsValidation) ==> backend.needsValidation
      {
        assert calls[n] in calls;
        r := Operation(store, calls[n].op);
        if r.Err? && !calls[n].swallow {
          return;
        }
        n := n + 1;
      }
      r := Ok(());
    }

    /** Publish what is staged, unless something failed. */
    method Commit(engine: Engine<Datum>) returns (r: Result<()>)
      requires Settled()
      requires backend != null ==> backend.csn <= |engine.log| && backend.base == Replay(engine.log[..backend.csn])
      modifies this, backend, engine
      ensures backend == null || (backend == old(backend) && r.Err?)
      ensures failed == old(failed)
      ensures failed || r.Err? ==> engine.log == old(engine.log)
      ensures failed ==> r.Err?
      ensures r.Ok? ==> old(backend) != null && Published(old(backend), old(engine.log), engine.log)
    {
      hide DirectTransaction.Ready, ImmediateOk, Valid, Replay, Admissible, ForeignKeysOk;
      r := EnsureActive();
      if r.Err? {
        return;
      }
      var tx := backend;
      backend := null;
      r := tx.Publish(engine);
    }

    /** Run a caller's closure and publish its work, or publish nothing. */
    method RunTransaction(engine: Engine<Datum>, store: nat, calls: seq<Call>, outcome: bool) returns (r: Result<()>)
      requires Settled() && backend != null && !failed && forall c :: c in calls ==> WellTyped(c.op)
      requires backend.csn <= |engine.log| && backend.base == Replay(engine.log[..backend.csn])
      modifies this, backend, engine
      ensures failed || r.Err? ==> engine.log == old(engine.log)
      ensures failed ==> r.Err?
      ensures r.Ok? ==> engine.log == old(engine.log) || Published(old(backend), old(engine.log), engine.log)
    {
      hide Published, Replay, DirectTransaction.Ready, Valid;
      var n := 0;
      while n < |calls|
        invariant n <= |calls| && Settled() && (backend == old(backend) || (backend == null && failed))
        invariant engine.log == old(engine.log)
      {
        assert calls[n] in calls;
        r := Operation(store, calls[n].op);
        if r.Err? && !calls[n].swallow {
          return;
        }
        n := n + 1;
      }
      if !outcome {
        return Err(InvalidState);
      }
      if !wrote {
        r := EnsureActive();
        return;
      }
      r := Commit(engine);
    }
  }

  /** A transaction's writes were appended to the log as one commit that was in order when
      it was handed to the kernel; nothing is appended when nothing was written. */
  ghost predicate Published(tx: DirectTransaction, before: seq<Commit<Datum>>, after: seq<Commit<Datum>>)
    reads tx
  {
    if tx.writes == map[] then after == before
    else
      && after == before + [Kernel.Commit(tx.csn, RowChange(tx.writes), tx.ranges)]
      && Admissible(before, Kernel.Commit(tx.csn, RowChange(tx.writes), tx.ranges))
      && Publishable(tx.fp, tx.schema, tx.base, tx.writes, tx.ranges)
  }

  lemma NothingYet(tx: DirectTransaction)
    requires tx.Ready() && tx.writes == map[] && Valid(tx.schema.catalog)
    ensures ImmediateOk(tx.fp, tx.schema, tx.Seen())
  {
    hide Valid, IndexesOk, View, ForeignOk, HasSchema, MappingOk, StagedOk;
    NothingStaged(tx.base);
    KeysValid(tx.schema.catalog);
  }
}
