/** Every interleaving of transactions that publish through the kernel: whatever their
    snapshots, each committed image is consistent. */
module Histories {
  import opened Common
  import opened Catalogs
  import opened RowKeys
  import opened IndexEntries
  import opened Kernel
  import opened Store
  import opened Commits
  import opened Carrying
  import opened SchemaSteps
  import opened SchemaBatches

  // ---- commits -------------------------------------------------------------

  const NO_SCHEMA := Schema(EMPTY, map[], map[])

  /** The commit that creates the store. */
  predicate IsCreation(c: Commit<Datum>) {
    c.change == Change(map[MARKER := Some(Marker(NO_SCHEMA))], {CATALOG_TREE}, {})
  }

  /** The schema a transaction works under is the one its snapshot's marker holds. */
  predicate Sees(log: seq<Commit<Datum>>, csn: nat, s: Schema) {
    csn <= |log| && Replay(log[..csn]).Get(MARKER) == Some(Marker(s))
  }

  /** The commit of a row transaction: what it staged was in order in its own view. */
  ghost predicate RowCommitOf(fp: FloatUnit, log: seq<Commit<Datum>>, c: Commit<Datum>, s: Schema) {
    && Sees(log, c.csn, s)
    && c.change == RowChange(c.change.writes)
    && Publishable(fp, s, Replay(log[..c.csn]), c.change.writes, c.ranges)
  }

  /** The commit of a schema transaction: a batch of mutations carried out on its snapshot. */
  ghost predicate SchemaCommitOf(fp: FloatUnit, log: seq<Commit<Datum>>, c: Commit<Datum>, co: Coercion, s: Schema, next: TreeId,
                                 ms: seq<Mutation>, b: Batch) {
    && Sees(log, c.csn, s)
    && (forall t :: t in Replay(log[..c.csn]).live ==> t < next)
    && Batched(fp, co, Replay(log[..c.csn]), Start(s, next), ms, b)
    && c.change == Publication(b)
    && c.ranges == b.ranges
  }

  ghost predicate IsRowCommit(fp: FloatUnit, log: seq<Commit<Datum>>, c: Commit<Datum>) {
    exists s :: RowCommitOf(fp, log, c, s)
  }

  ghost predicate IsSchemaCommit(fp: FloatUnit, log: seq<Commit<Datum>>, c: Commit<Datum>) {
    exists co, s, next, ms, b :: SchemaCommitOf(fp, log, c, co, s, next, ms, b)
  }

  /** A commit the kernel admits and one of the store's transactions may ask for. */
  ghost predicate LegalCommit(fp: FloatUnit, log: seq<Commit<Datum>>, c: Commit<Datum>) {
    && Admissible(log, c)
    && if log == [] then IsCreation(c) else IsRowCommit(fp, log, c) || IsSchemaCommit(fp, log, c)
  }

  ghost predicate Legal(fp: FloatUnit, log: seq<Commit<Datum>>) {
    forall j :: 0 <= j < |log| ==> LegalCommit(fp, log[..j], log[j])
  }

  lemma LegalPrefix(fp: FloatUnit, log: seq<Commit<Datum>>, n: nat)
    requires Legal(fp, log) && n <= |log|
    ensures Legal(fp, log[..n])
  {
    hide LegalCommit;
    forall j | 0 <= j < n ensures LegalCommit(fp, log[..n][..j], log[..n][j]) {
      assert log[..n][..j] == log[..j];
      assert LegalCommit(fp, log[..j], log[j]);
    }
  }

  lemma LegalAppend(fp: FloatUnit, log: seq<Commit<Datum>>, c: Commit<Datum>)
    requires Legal(fp, log) && LegalCommit(fp, log, c)
    ensures Legal(fp, log + [c])
  {
    hide LegalCommit;
    var all := log + [c];
    forall j | 0 <= j < |all| ensures LegalCommit(fp, all[..j], all[j]) {
      if j < |log| {
        assert all[..j] == log[..j];
      } else {
        assert all[..j] == log;
      }
    }
  }

  // ---- what lies between a snapshot and its publication --------------------

  /** A transaction that registered or wrote the marker is fenced against schema changes:
      only row commits lie between its snapshot and its publication. */
  predicate Fenced(c: Commit<Datum>) {
    Guards(c, MARKER)
  }

  lemma FencedCommits(fp: FloatUnit, log: seq<Commit<Datum>>, c: Commit<Datum>, i: nat)
    requires Legal(fp, log) && Admissible(log, c) && Fenced(c) && c.csn <= i < |log| && c.csn > 0
    ensures MARKER !in log[i].change.writes
    ensures IsRowCommit(fp, log[..i], log[i])
    ensures log[i].change.dropped == {} && log[i].change.created == {}
  {
    hide RowCommitOf, Batched, Replay;
    assert LegalCommit(fp, log[..i], log[i]);
    assert !Conflicts(log[i], c);
    if IsSchemaCommit(fp, log[..i], log[i]) {
      var co, s, next, ms, b :| SchemaCommitOf(fp, log[..i], log[i], co, s, next, ms, b);
      PublicationMarks(b);
      assert false;
    }
    var s :| RowCommitOf(fp, log[..i], log[i], s);
    RowCommitShape(fp, log[..i], log[i], s);
  }

  lemma PublicationMarks(b: Batch)
    ensures MARKER in Publication(b).writes
  {
  }

  lemma RowCommitShape(fp: FloatUnit, log: seq<Commit<Datum>>, c: Commit<Datum>, s: Schema)
    requires RowCommitOf(fp, log, c, s)
    ensures c.change.dropped == {} && c.change.created == {} && RowCells(s, c.change.writes.Keys) && Fenced(c) && Sees(log, c.csn, s)
  {
    hide RowCells, IndexesOk, Valid, Probed, ReferencesOk, Replay;
    ExactlyCovers(MARKER);
  }

  /** The marker a fenced transaction saw is still the marker when it publishes. */
  lemma MarkerStands(fp: FloatUnit, log: seq<Commit<Datum>>, c: Commit<Datum>, n: nat)
    requires Legal(fp, log) && Admissible(log, c) && Fenced(c) && 0 < c.csn <= n <= |log|
    ensures Replay(log[..n]).Get(MARKER) == Replay(log[..c.csn]).Get(MARKER)
  {
    hide Legal, Admissible, Fenced, Replay;
    forall i | c.csn <= i < n ensures MARKER !in log[i].change.writes && log[i].change.dropped == {} {
      FencedCommits(fp, log, c, i);
    }
    var prefix := log[..n];
    assert prefix[..c.csn] == log[..c.csn];
    Untouched(prefix, c.csn, MARKER);
  }

  /** A transaction has seen a store, so its snapshot is not the empty one. */
  lemma SnapshotExists(log: seq<Commit<Datum>>, csn: nat, s: Schema)
    requires Sees(log, csn, s)
    ensures csn > 0
  {
    assert log[..0] == [];
  }

  /** Every row commit in between was made under the same schema. */
  lemma SameSchema(fp: FloatUnit, log: seq<Commit<Datum>>, c: Commit<Datum>, s: Schema, i: nat)
    requires Legal(fp, log) && Admissible(log, c) && Fenced(c) && c.csn <= i < |log| && Sees(log, c.csn, s)
    ensures RowCells(s, log[i].change.writes.Keys)
  {
    hide Admissible, Fenced, RowCells, Replay, RowCommitOf;
    SnapshotExists(log, c.csn, s);
    FencedCommits(fp, log, c, i);
    MarkerStands(fp, log, c, i);
    var prefix := log[..i];
    var s' :| RowCommitOf(fp, prefix, log[i], s');
    RowCommitShape(fp, prefix, log[i], s');
    SnapshotExists(prefix, log[i].csn, s');
    LegalPrefix(fp, log, i);
    LegalAdmits(fp, log, i);
    MarkerStands(fp, prefix, log[i], i);
    assert prefix[..i] == prefix;
  }

  lemma LegalAdmits(fp: FloatUnit, log: seq<Commit<Datum>>, i: nat)
    requires Legal(fp, log) && i < |log|
    ensures Admissible(log[..i], log[i])
  {
    assert LegalCommit(fp, log[..i], log[i]);
  }

  /** The cells written since a snapshot. */
  function Touched(log: seq<Commit<Datum>>, csn: nat): set<Loc> {
    set i, l | csn <= i < |log| && l in log[i].change.writes :: l
  }

  lemma TouchedRows(fp: FloatUnit, log: seq<Commit<Datum>>, c: Commit<Datum>, s: Schema)
    requires Legal(fp, log) && Admissible(log, c) && Fenced(c) && Sees(log, c.csn, s)
    ensures RowCells(s, Touched(log, c.csn))
  {
    hide Legal, Admissible, Fenced, Sees, DecodeEntry;
    forall l | l in Touched(log, c.csn)
      ensures l.tree in s.tableTrees.Values + s.indexTrees.Values
      ensures forall i :: i in s.catalog.indexes && l.tree == IndexTree(s, i) ==>
                WellFormed(l.key) && Loc(OwnerTree(s, i), DecodeEntry(l.key).value.1) in Touched(log, c.csn)
    {
      var j :| c.csn <= j < |log| && l in log[j].change.writes;
      SameSchema(fp, log, c, s, j);
      assert forall x :: x in log[j].change.writes ==> x in Touched(log, c.csn);
    }
  }

  lemma UntouchedStands(fp: FloatUnit, log: seq<Commit<Datum>>, c: Commit<Datum>, l: Loc)
    requires Legal(fp, log) && Admissible(log, c) && Fenced(c) && c.csn > 0 && l !in Touched(log, c.csn)
    ensures Replay(log).Get(l) == Replay(log[..c.csn]).Get(l)
  {
    hide Legal, Admissible, Fenced, Replay;
    forall i | c.csn <= i < |log| ensures l !in log[i].change.writes && log[i].change.dropped == {} {
      FencedCommits(fp, log, c, i);
    }
    AdmissibleCsn(log, c);
    Untouched(log, c.csn, l);
  }

  lemma AdmissibleCsn(log: seq<Commit<Datum>>, c: Commit<Datum>)
    requires Admissible(log, c)
    ensures c.csn <= |log|
  {
  }

  lemma TouchedUnguarded(log: seq<Commit<Datum>>, c: Commit<Datum>, l: Loc)
    requires Admissible(log, c) && l in Touched(log, c.csn)
    ensures !Guards(c, l)
  {
    hide Guards;
    var i :| c.csn <= i < |log| && l in log[i].change.writes;
    assert !Conflicts(log[i], c);
  }

  // ---- one more commit -----------------------------------------------------

  lemma RowCommitConsistent(fp: FloatUnit, log: seq<Commit<Datum>>, c: Commit<Datum>, s: Schema)
    requires Legal(fp, log) && Admissible(log, c) && RowCommitOf(fp, log, c, s)
    requires Consistent(fp, Replay(log)) && Consistent(fp, Replay(log[..c.csn]))
    ensures Consistent(fp, Replay(log + [c]))
  {
    hide Legal, Admissible, Replay, ConsistentWith, Publishable, Touched, RowCells, Covers;
    var base, now, touched := Replay(log[..c.csn]), Replay(log), Touched(log, c.csn);
    RowCommitShape(fp, log, c, s);
    SnapshotExists(log, c.csn, s);
    MarkerStands(fp, log, c, |log|);
    assert log[..|log|] == log;
    TouchedRows(fp, log, c, s);
    forall l | l !in touched ensures now.Get(l) == base.Get(l) {
      UntouchedStands(fp, log, c, l);
    }
    forall l | l in touched ensures !Guards(c, l) {
      TouchedUnguarded(log, c, l);
    }
    assert Meets(s, base, now, touched, c.change.writes, c.ranges);
    RowCommitKeeps(fp, s, base, now, touched, c.change.writes, c.ranges);
    ReplayOne(log, c);
    ConsistentMarker(fp, View(now, c.change.writes), s);
  }

  lemma ConsistentMarker(fp: FloatUnit, img: Trees, s: Schema)
    requires ConsistentWith(fp, img, s)
    ensures Consistent(fp, img)
  {
    hide Valid, MappingOk, IndexesOk, ForeignKeysOk;
  }

  lemma SchemaCommitConsistent(fp: FloatUnit, log: seq<Commit<Datum>>, c: Commit<Datum>, co: Coercion, s: Schema, next: TreeId,
                               ms: seq<Mutation>, b: Batch)
    requires Legal(fp, log) && Admissible(log, c) && SchemaCommitOf(fp, log, c, co, s, next, ms, b)
    requires Consistent(fp, Replay(log)) && Consistent(fp, Replay(log[..c.csn]))
    ensures Consistent(fp, Replay(log + [c]))
  {
    hide Legal, Admissible, Replay, ConsistentWith, Touched, Covers, Batched, InOrder, Publication;
    var base, now, start := Replay(log[..c.csn]), Replay(log), Start(s, next);
    PublicationMarks(b);
    assert Fenced(c);
    SnapshotExists(log, c.csn, s);
    MarkerStands(fp, log, c, |log|);
    assert log[..|log|] == log;
    forall tree | Whole(tree) in b.ranges ensures SameTree(base, now, tree) {
      forall l: Loc | l.tree == tree ensures base.Get(l) == now.Get(l) {
        WholeCovers(l);
        if l in Touched(log, c.csn) {
          TouchedUnguarded(log, c, l);
          assert false;
        }
        UntouchedStands(fp, log, c, l);
      }
    }
    SameLive(fp, base, now, s);
    StartInOrder(fp, base, s, next);
    StartInOrder(fp, now, s, next);
    BatchElsewhere(fp, co, base, now, start, ms, b);
    BatchKeeps(fp, co, now, start, ms, b);
    PublishedIsConsistent(fp, now, b);
    ReplayOne(log, c);
    ConsistentMarker(fp, Apply(now, Publication(b)), b.schema);
  }

  lemma SameLive(fp: FloatUnit, a: Trees, b: Trees, s: Schema)
    requires ConsistentWith(fp, a, s) && ConsistentWith(fp, b, s)
    ensures a.live == b.live
  {
    hide Valid, MappingOk, IndexesOk, ForeignKeysOk;
  }

  lemma CreationConsistent(fp: FloatUnit, c: Commit<Datum>)
    requires IsCreation(c)
    ensures Consistent(fp, Replay([c]))
  {
    assert Replay([c]) == Apply(Replay([]), c.change) by { ReplayOne([], c); assert [] + [c] == [c]; }
    var img := Replay([c]);
    assert img.cells == map[MARKER := Marker(NO_SCHEMA)];
    assert ConsistentWith(fp, img, NO_SCHEMA);
  }

  // ---- every history -------------------------------------------------------

  /** Every image committed in a legal history is consistent: live trees are those the
      catalog maps, index trees hold exactly the entries their rows imply, unique indexes
      are unique and every reference resolves. */
  lemma {:induction false} HistoryIsConsistent(fp: FloatUnit, log: seq<Commit<Datum>>, n: nat)
    requires Legal(fp, log) && 0 < n <= |log|
    ensures Consistent(fp, Replay(log[..n]))
    decreases n
  {
    hide Consistent, RowCommitOf, SchemaCommitOf, IsCreation, Admissible;
    var prefix, c := log[..n - 1], log[n - 1];
    assert LegalCommit(fp, prefix, c);
    assert log[..n] == prefix + [c];
    if prefix == [] {
      assert log[..n] == [c];
      CreationConsistent(fp, c);
    } else {
      HistoryIsConsistent(fp, log, n - 1);
      LegalPrefix(fp, log, n - 1);
      if IsRowCommit(fp, prefix, c) {
        var s :| RowCommitOf(fp, prefix, c, s);
        RowSees(fp, prefix, c, s);
        SnapshotExists(prefix, c.csn, s);
        assert prefix[..c.csn] == log[..c.csn];
        HistoryIsConsistent(fp, log, c.csn);
        RowCommitConsistent(fp, prefix, c, s);
      } else {
        var co, s, next, ms, b :| SchemaCommitOf(fp, prefix, c, co, s, next, ms, b);
        SchemaSees(fp, prefix, c, co, s, next, ms, b);
        SnapshotExists(prefix, c.csn, s);
        assert prefix[..c.csn] == log[..c.csn];
        HistoryIsConsistent(fp, log, c.csn);
        SchemaCommitConsistent(fp, prefix, c, co, s, next, ms, b);
      }
    }
  }

  lemma RowSees(fp: FloatUnit, log: seq<Commit<Datum>>, c: Commit<Datum>, s: Schema)
    requires RowCommitOf(fp, log, c, s)
    ensures Sees(log, c.csn, s) && c.csn <= |log|
  {
    hide Publishable, Replay;
  }

  lemma SchemaSees(fp: FloatUnit, log: seq<Commit<Datum>>, c: Commit<Datum>, co: Coercion, s: Schema, next: TreeId, ms: seq<Mutation>, b: Batch)
    requires SchemaCommitOf(fp, log, c, co, s, next, ms, b)
    ensures Sees(log, c.csn, s) && c.csn <= |log|
  {
    hide Batched, Replay, Publication;
  }

  // ---- the transactions make legal histories -------------------------------

  /** Publishing a row transaction that is ready, through the kernel, keeps a history legal. */
  lemma RowPublicationIsLegal(fp: FloatUnit, log: seq<Commit<Datum>>, csn: nat, s: Schema, writes: Writes<Datum>, ranges: set<Range>)
    requires Legal(fp, log) && log != [] && Sees(log, csn, s) && Publishable(fp, s, Replay(log[..csn]), writes, ranges)
    requires Admissible(log, Kernel.Commit(csn, RowChange(writes), ranges))
    ensures Legal(fp, log + [Kernel.Commit(csn, RowChange(writes), ranges)])
  {
    hide Legal, Replay, Publishable, Admissible, IsSchemaCommit;
    var c := Kernel.Commit(csn, RowChange(writes), ranges);
    assert RowCommitOf(fp, log, c, s);
    LegalAppend(fp, log, c);
  }

  /** So does publishing a batch of schema mutations. */
  lemma SchemaPublicationIsLegal(fp: FloatUnit, log: seq<Commit<Datum>>, csn: nat, co: Coercion, s: Schema, next: TreeId,
                                 ms: seq<Mutation>, b: Batch)
    requires Legal(fp, log) && log != [] && Sees(log, csn, s) && forall t :: t in Replay(log[..csn]).live ==> t < next
    requires Batched(fp, co, Replay(log[..csn]), Start(s, next), ms, b)
    requires Admissible(log, Kernel.Commit(csn, Publication(b), b.ranges))
    ensures Legal(fp, log + [Kernel.Commit(csn, Publication(b), b.ranges)])
  {
    hide Legal, Replay, Batched, Admissible, IsRowCommit, Publication;
    var c := Kernel.Commit(csn, Publication(b), b.ranges);
    assert SchemaCommitOf(fp, log, c, co, s, next, ms, b);
    LegalAppend(fp, log, c);
  }
}
