/** Whole runs against one store: creating it, publishing row transactions and schema batches.
    Each leaves a legal history, and so a consistent store. */
module Runs {
  import opened Common
  import opened Catalogs
  import opened RowKeys
  import opened Kernel
  import opened Store
  import opened Commits
  import opened SchemaSteps
  import opened SchemaBatches
  import opened SchemaTransactions
  import opened Transactions
  import opened Operations
  import opened Histories

  /** A store that has been created and written only by its own transactions. */
  ghost predicate Open(fp: FloatUnit, log: seq<Commit<Datum>>) {
    log != [] && Legal(fp, log)
  }

  lemma OpenIsConsistent(fp: FloatUnit, log: seq<Commit<Datum>>)
    requires Open(fp, log)
    ensures Consistent(fp, Replay(log))
  {
    hide Legal, Consistent;
    assert log[..|log|] == log;
    HistoryIsConsistent(fp, log, |log|);
  }

  method CreateStore(ghost fp: FloatUnit) returns (engine: Engine<Datum>)
    ensures fresh(engine) && Open(fp, engine.log) && Consistent(fp, Replay(engine.log))
  {
    engine := new Engine<Datum>();
    var creation := Kernel.Commit(0, Change(map[MARKER := Some(Marker(NO_SCHEMA))], {CATALOG_TREE}, {}), {});
    var ok := engine.Publish(creation);
    assert engine.log == [creation] && engine.log[..0] == [];
    OpenIsConsistent(fp, engine.log);
  }

  /** The schema in force. */
  method CurrentSchema(ghost fp: FloatUnit, engine: Engine<Datum>) returns (s: Schema)
    requires Open(fp, engine.log)
    ensures ConsistentWith(fp, Replay(engine.log), s) && Sees(engine.log, |engine.log|, s)
  {
    OpenIsConsistent(fp, engine.log);
    hide Legal, ConsistentWith, Replay;
    assert engine.log[..|engine.log|] == engine.log;
    s := Replay(engine.log).Get(MARKER).value.schema;
  }

  /** Publish a row transaction that began on this store, whatever was committed since. */
  method PublishRows(engine: Engine<Datum>, tx: DirectTransaction) returns (r: Result<()>)
    requires Open(tx.fp, engine.log) && tx.Ready() && Sees(engine.log, tx.csn, tx.schema) && tx.base == Replay(engine.log[..tx.csn])
    modifies tx`ranges, engine
    ensures Open(tx.fp, engine.log) && Consistent(tx.fp, Replay(engine.log))
    ensures r.Err? || tx.writes == map[] ==> engine.log == old(engine.log)
    ensures r.Ok? && tx.writes != map[] ==> engine.log == old(engine.log) + [Kernel.Commit(tx.csn, RowChange(tx.writes), tx.ranges)]
  {
    ReadyIsValid(tx);
    hide Legal, Replay, DirectTransaction.Ready, Publishable, Admissible, ForeignKeysOk, Consistent, Sees;
    ghost var before := engine.log;
    r := tx.Publish(engine);
    if r.Ok? && tx.writes != map[] {
      RowPublicationIsLegal(tx.fp, before, tx.csn, tx.schema, tx.writes, tx.ranges);
    }
    OpenIsConsistent(tx.fp, engine.log);
  }

  lemma ReadyIsValid(tx: DirectTransaction)
    requires tx.Ready()
    ensures Valid(tx.schema.catalog)
  {
  }

  /** Apply a batch of schema mutations: published whole on a consistent store, or not at all. */
  method ApplySchema(fp: FloatUnit, co: Coercion, engine: Engine<Datum>, next: TreeId, ms: seq<Mutation>) returns (r: Result<()>)
    requires Open(fp, engine.log) && forall t :: t in Replay(engine.log).live ==> t < next
    modifies engine
    ensures Open(fp, engine.log) && Consistent(fp, Replay(engine.log))
    ensures r.Err? ==> engine.log == old(engine.log)
    ensures r.Ok? ==> exists b, s :: Batched(fp, co, Replay(old(engine.log)), Start(s, next), ms, b)
                                     && engine.log == old(engine.log) + [Kernel.Commit(|old(engine.log)|, Publication(b), b.ranges)]
  {
    hide *;
    var s := CurrentSchema(fp, engine);
    var tx := new SchemaTransaction.Begin(fp, co, engine, s, next);
    ghost var before := engine.log;
    assert before[..|before|] == before;
    OpenIsConsistent(fp, before);
    r := tx.ApplyAll(ms);
    if r.Err? {
      return;
    }
    r := tx.Publish(engine);
    if r.Ok? {
      BatchLeavesOpen(fp, co, before, s, next, ms, tx.batch);
    }
  }

  lemma BatchLeavesOpen(fp: FloatUnit, co: Coercion, log: seq<Commit<Datum>>, s: Schema, next: TreeId, ms: seq<Mutation>, b: Batch)
    requires Open(fp, log) && Sees(log, |log|, s) && forall t :: t in Replay(log).live ==> t < next
    requires Batched(fp, co, Replay(log), Start(s, next), ms, b)
    requires Admissible(log, Kernel.Commit(|log|, Publication(b), b.ranges))
    ensures var after := log + [Kernel.Commit(|log|, Publication(b), b.ranges)]; Open(fp, after) && Consistent(fp, Replay(after))
  {
    hide Legal, Replay, Batched, Admissible, Publication, Sees, Consistent;
    assert log[..|log|] == log;
    SchemaPublicationIsLegal(fp, log, |log|, co, s, next, ms, b);
    OpenIsConsistent(fp, log + [Kernel.Commit(|log|, Publication(b), b.ranges)]);
  }

  /** Run a caller's operations in one transaction on this store. */
  method RunCalls(fp: FloatUnit, engine: Engine<Datum>, owner: nat, store: nat, calls: seq<Call>, outcome: bool) returns (r: Result<()>)
    requires Open(fp, engine.log) && forall c :: c in calls ==> WellTyped(c.op)
    modifies engine
    ensures Open(fp, engine.log) && Consistent(fp, Replay(engine.log))
    ensures r.Err? ==> engine.log == old(engine.log)
  {
    hide *;
    var s := CurrentSchema(fp, engine);
    var tx := new DirectTransaction.Begin(fp, engine, s);
    ReadyIsValid(tx);
    var transaction := new DatabaseTransaction.Begin(owner, tx);
    ghost var before := engine.log;
    assert before[..|before|] == before;
    OpenIsConsistent(fp, before);
    r := transaction.RunTransaction(engine, store, calls, outcome);
    if engine.log != before {
      RowsLeaveOpen(fp, tx, before, engine.log);
    }
  }

  lemma RowsLeaveOpen(fp: FloatUnit, tx: DirectTransaction, log: seq<Commit<Datum>>, after: seq<Commit<Datum>>)
    requires Open(fp, log) && tx.fp == fp && Sees(log, tx.csn, tx.schema) && tx.base == Replay(log[..tx.csn]) && after != log
    requires Published(tx, log, after)
    ensures Open(fp, after) && Consistent(fp, Replay(after))
  {
    hide Legal, Replay, Publishable, Admissible, Sees, Consistent;
    RowPublicationIsLegal(fp, log, tx.csn, tx.schema, tx.writes, tx.ranges);
    OpenIsConsistent(fp, after);
  }
}
