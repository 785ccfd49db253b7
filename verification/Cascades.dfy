/** What referential actions may do to a database: which rows a delete can reach, which
    columns it can set to NULL, and how partial effects compose. */
module Cascades {
  import opened Common
  import opened Bytes
  import opened Values
  import opened Catalogs
  import opened RowKeys
  import opened Store

  /** A row named by its table and identity. */
  datatype RowRef = RowRef(table: TableId, id: ByteString)

  /** The logical row found under a name. */
  function FullRow(s: Schema, img: Trees, r: RowRef): (row: Option<seq<Value>>)
    ensures row.Some? ==> r.table in s.catalog.tables && |row.value| == |s.catalog.tables[r.table].columns|
  {
    if r.table !in s.catalog.tables then None
    else match RowAt(img, TableTree(s, r.table), r.id)
         case None => None
         case Some(row) =>
           if |row| > |s.catalog.tables[r.table].columns| then None
           else Some(Materialize(s.catalog.tables[r.table], row))
  }

  // ---- references ----------------------------------------------------------

  /** A child row refers to a parent row under a foreign key: neither tuple has a NULL and
      they are equal in SQL. */
  predicate Refers(s: Schema, key: ForeignKey, child: seq<Value>, parent: seq<Value>) {
    && key.table in s.catalog.tables && key.referencedTable in s.catalog.tables
    && var c := LookupAll(s.catalog.tables[key.table], child, key.columns);
       var p := LookupAll(s.catalog.tables[key.referencedTable], parent, key.referencedColumns);
       c.Ok? && p.Ok? && NoNulls(c.value) && NoNulls(p.value) && AllSqlEq(c.value, p.value)
  }

  /** The second row is the first with some columns set to NULL. */
  predicate Nulled(a: seq<Value>, b: seq<Value>) {
    |a| == |b| && forall i :: 0 <= i < |a| ==> b[i] == a[i] || b[i] == Null
  }

  lemma NulledTransitive(a: seq<Value>, b: seq<Value>, c: seq<Value>)
    requires Nulled(a, b) && Nulled(b, c)
    ensures Nulled(a, c)
  {
  }

  lemma {:induction false} LookupOfNulled(t: Table, a: seq<Value>, b: seq<Value>, ids: seq<ColumnId>)
    requires Nulled(a, b) && LookupAll(t, b, ids).Ok? && NoNulls(LookupAll(t, b, ids).value)
    ensures LookupAll(t, a, ids) == LookupAll(t, b, ids)
  {
    if ids != [] {
      var v := LookupAll(t, b, ids).value;
      assert v[0] == Lookup(t, b, ids[0]).value;
      assert LookupAll(t, b, ids[1..]).value == v[1..];
      LookupOfNulled(t, a, b, ids[1..]);
    }
  }

  /** Setting columns to NULL never creates a reference. */
  lemma RefersOfNulled(s: Schema, key: ForeignKey, child: seq<Value>, child': seq<Value>, parent: seq<Value>, parent': seq<Value>)
    requires Nulled(child, child') && Nulled(parent, parent') && Refers(s, key, child', parent')
    ensures Refers(s, key, child, parent)
  {
    LookupOfNulled(s.catalog.tables[key.table], child, child', key.columns);
    LookupOfNulled(s.catalog.tables[key.referencedTable], parent, parent', key.referencedColumns);
  }

  // ---- reachability --------------------------------------------------------

  predicate CascadeStep(s: Schema, k: ConstraintId, table: TableId, parent: seq<Value>, child: RowRef, row: seq<Value>) {
    && k in s.catalog.foreignKeys
    && var key := s.catalog.foreignKeys[k];
       key.onDelete == Cascade && key.referencedTable == table && key.table == child.table && Refers(s, key, row, parent)
  }

  /** A chain of rows, each referring to the one before it under an ON DELETE CASCADE key;
      the first refers to the given row. */
  ghost predicate Chain(s: Schema, img: Trees, table: TableId, row: seq<Value>, path: seq<RowRef>)
    decreases |path|
  {
    path == [] ||
    (FullRow(s, img, path[0]).Some?
     && (exists k :: CascadeStep(s, k, table, row, path[0], FullRow(s, img, path[0]).value))
     && Chain(s, img, path[0].table, FullRow(s, img, path[0]).value, path[1..]))
  }

  function EndTable(table: TableId, path: seq<RowRef>): TableId
    decreases |path|
  {
    if path == [] then table else EndTable(path[0].table, path[1..])
  }

  function EndRow(s: Schema, img: Trees, row: seq<Value>, path: seq<RowRef>): seq<Value>
    decreases |path|
  {
    if path == [] then row
    else match FullRow(s, img, path[0])
         case Some(r) => EndRow(s, img, r, path[1..])
         case None => row
  }

  /** A row refers, under one foreign key, to the deleted row or to a row that the delete
      reaches by cascading. */
  ghost predicate Hit(s: Schema, img: Trees, table: TableId, row: seq<Value>, k: ConstraintId, child: RowRef) {
    && k in s.catalog.foreignKeys
    && FullRow(s, img, child).Some?
    && exists path :: Chain(s, img, table, row, path) && HitEnd(s, img, table, row, k, child, path)
  }

  ghost predicate HitEnd(s: Schema, img: Trees, table: TableId, row: seq<Value>, k: ConstraintId, child: RowRef, path: seq<RowRef>)
    requires k in s.catalog.foreignKeys && FullRow(s, img, child).Some?
  {
    var key := s.catalog.foreignKeys[k];
    && key.table == child.table
    && key.referencedTable == EndTable(table, path)
    && Refers(s, key, FullRow(s, img, child).value, EndRow(s, img, row, path))
  }

  /** No row appears, and each survivor is its old self with some columns set to NULL. */
  ghost predicate Shrinks(s: Schema, before: Trees, after: Trees) {
    forall r :: FullRow(s, after, r).Some? ==>
      FullRow(s, before, r).Some? && Nulled(FullRow(s, before, r).value, FullRow(s, after, r).value)
  }

  lemma ShrinksTransitive(s: Schema, a: Trees, b: Trees, c: Trees)
    requires Shrinks(s, a, b) && Shrinks(s, b, c)
    ensures Shrinks(s, a, c)
  {
    hide FullRow;
    forall r | FullRow(s, c, r).Some?
      ensures FullRow(s, a, r).Some? && Nulled(FullRow(s, a, r).value, FullRow(s, c, r).value)
    {
      NulledTransitive(FullRow(s, a, r).value, FullRow(s, b, r).value, FullRow(s, c, r).value);
    }
  }

  /** Chains of a shrunk database were chains before. */
  lemma {:induction false} ChainBefore(s: Schema, before: Trees, after: Trees, table: TableId, row: seq<Value>, row': seq<Value>, path: seq<RowRef>)
    requires Shrinks(s, before, after) && Nulled(row, row') && Chain(s, after, table, row', path)
    ensures Chain(s, before, table, row, path)
    ensures Nulled(EndRow(s, before, row, path), EndRow(s, after, row', path))
    decreases |path|
  {
    hide FullRow, Refers;
    if path != [] {
      var was, now := FullRow(s, before, path[0]).value, FullRow(s, after, path[0]).value;
      var k :| CascadeStep(s, k, table, row', path[0], now);
      RefersOfNulled(s, s.catalog.foreignKeys[k], was, now, row, row');
      assert CascadeStep(s, k, table, row, path[0], was);
      ChainBefore(s, before, after, path[0].table, was, now, path[1..]);
    }
  }

  lemma HitBefore(s: Schema, before: Trees, after: Trees, table: TableId, row: seq<Value>, row': seq<Value>, k: ConstraintId, child: RowRef)
    requires Shrinks(s, before, after) && Nulled(row, row') && Hit(s, after, table, row', k, child)
    ensures Hit(s, before, table, row, k, child)
  {
    hide FullRow, Refers, Chain;
    var path :| Chain(s, after, table, row', path) && HitEnd(s, after, table, row', k, child, path);
    ChainBefore(s, before, after, table, row, row', path);
    RefersOfNulled(s, s.catalog.foreignKeys[k], FullRow(s, before, child).value, FullRow(s, after, child).value,
                   EndRow(s, before, row, path), EndRow(s, after, row', path));
    assert HitEnd(s, before, table, row, k, child, path);
  }

  /** A chain that starts at a child hit by a cascade extends to one from the deleted row. */
  lemma {:induction false} ChainExtends(s: Schema, img: Trees, table: TableId, row: seq<Value>, path: seq<RowRef>, child: RowRef, k: ConstraintId, tail: seq<RowRef>)
    requires Chain(s, img, table, row, path) && FullRow(s, img, child).Some? && k in s.catalog.foreignKeys
    requires HitEnd(s, img, table, row, k, child, path) && s.catalog.foreignKeys[k].onDelete == Cascade
    requires Chain(s, img, child.table, FullRow(s, img, child).value, tail)
    ensures Chain(s, img, table, row, path + [child] + tail)
    ensures EndTable(table, path + [child] + tail) == EndTable(child.table, tail)
    ensures EndRow(s, img, row, path + [child] + tail) == EndRow(s, img, FullRow(s, img, child).value, tail)
    decreases |path|
  {
    hide FullRow, Refers;
    if path == [] {
      assert CascadeStep(s, k, table, row, child, FullRow(s, img, child).value);
      assert [] + [child] + tail == [child] + tail;
    } else {
      var head := FullRow(s, img, path[0]).value;
      assert HitEnd(s, img, path[0].table, head, k, child, path[1..]);
      ChainExtends(s, img, path[0].table, head, path[1..], child, k, tail);
      assert (path + [child] + tail)[1..] == path[1..] + [child] + tail;
    }
  }

  lemma HitThrough(s: Schema, img: Trees, table: TableId, row: seq<Value>, k: ConstraintId, child: RowRef, k2: ConstraintId, grandchild: RowRef)
    requires Hit(s, img, table, row, k, child) && s.catalog.foreignKeys[k].onDelete == Cascade
    requires Hit(s, img, child.table, FullRow(s, img, child).value, k2, grandchild)
    ensures Hit(s, img, table, row, k2, grandchild)
  {
    hide FullRow, Refers, Chain;
    var path :| Chain(s, img, table, row, path) && HitEnd(s, img, table, row, k, child, path);
    var start := FullRow(s, img, child).value;
    var tail :| Chain(s, img, child.table, start, tail) && HitEnd(s, img, child.table, start, k2, grandchild, tail);
    ChainExtends(s, img, table, row, path, child, k, tail);
    assert HitEnd(s, img, table, row, k2, grandchild, path + [child] + tail);
  }

  // ---- what no longer refers ------------------------------------------------

  /** No row refers to the deleted one under a CASCADE or SET NULL key. */
  ghost predicate NoReferrers(s: Schema, img: Trees, k: ConstraintId, row: seq<Value>)
    requires k in s.catalog.foreignKeys
  {
    var key := s.catalog.foreignKeys[k];
    forall id :: FullRow(s, img, RowRef(key.table, id)).Some? ==> !Refers(s, key, FullRow(s, img, RowRef(key.table, id)).value, row)
  }

  lemma NoReferrersLater(s: Schema, before: Trees, after: Trees, k: ConstraintId, row: seq<Value>)
    requires k in s.catalog.foreignKeys && NoReferrers(s, before, k, row) && Shrinks(s, before, after)
    ensures NoReferrers(s, after, k, row)
  {
    hide FullRow, Refers;
    var key := s.catalog.foreignKeys[k];
    forall id | FullRow(s, after, RowRef(key.table, id)).Some?
      ensures !Refers(s, key, FullRow(s, after, RowRef(key.table, id)).value, row)
    {
      var was, now := FullRow(s, before, RowRef(key.table, id)).value, FullRow(s, after, RowRef(key.table, id)).value;
      if Refers(s, key, now, row) {
        RefersOfNulled(s, key, was, now, row, row);
      }
    }
  }

  /** No reference to the deleted row is left under the keys done so far. */
  ghost predicate Cleared(s: Schema, img: Trees, t: TableId, row: seq<Value>, todo: set<ConstraintId>) {
    forall k :: k in s.catalog.foreignKeys && s.catalog.foreignKeys[k].referencedTable == t
                && s.catalog.foreignKeys[k].onDelete != Restrict && k !in todo ==>
      NoReferrers(s, img, k, row)
  }

  lemma ClearedLater(s: Schema, a: Trees, b: Trees, t: TableId, row: seq<Value>, todo: set<ConstraintId>)
    requires Cleared(s, a, t, row, todo) && Shrinks(s, a, b)
    ensures Cleared(s, b, t, row, todo)
  {
    hide NoReferrers, Shrinks;
    forall k | k in s.catalog.foreignKeys && s.catalog.foreignKeys[k].referencedTable == t
               && s.catalog.foreignKeys[k].onDelete != Restrict && k !in todo
      ensures NoReferrers(s, b, k, row)
    {
      NoReferrersLater(s, a, b, k, row);
    }
  }

  // ---- effects -------------------------------------------------------------

  ghost predicate CascadeHit(s: Schema, img: Trees, table: TableId, row: seq<Value>, child: RowRef) {
    exists k :: IsCascade(s, k) && Hit(s, img, table, row, k, child)
  }

  predicate IsCascade(s: Schema, k: ConstraintId) {
    k in s.catalog.foreignKeys && s.catalog.foreignKeys[k].onDelete == Cascade
  }

  /** A SET NULL key that covers the column refers to the deleted row or one reached from it. */
  ghost predicate NullHit(s: Schema, img: Trees, table: TableId, row: seq<Value>, child: RowRef, p: nat) {
    exists k :: Hit(s, img, table, row, k, child) && NullsColumn(s, k, p)
  }

  predicate NullsColumn(s: Schema, k: ConstraintId, p: nat) {
    && k in s.catalog.foreignKeys
    && var key := s.catalog.foreignKeys[k];
       key.onDelete == SetNull && key.table in s.catalog.tables && InColumns(s.catalog.tables[key.table], key.columns, p)
  }

  /** One of the columns is at this position. */
  predicate InColumns(t: Table, ids: seq<ColumnId>, p: nat) {
    exists i :: 0 <= i < |ids| && Position(t.columns, ids[i]) == Some(p)
  }

  ghost predicate ColumnKept(s: Schema, before: Trees, after: Trees, table: TableId, row: seq<Value>, r: RowRef, p: nat)
    requires FullRow(s, before, r).Some? && FullRow(s, after, r).Some?
    requires p < |FullRow(s, before, r).value|
  {
    FullRow(s, after, r).value[p] == FullRow(s, before, r).value[p] || NullHit(s, before, table, row, r, p)
  }

  /** A removed row, as it was when it was removed: only columns that a SET NULL key reaching
      it nulls may have changed before, and nothing refers to it any more under an acting key. */
  ghost predicate Left(s: Schema, before: Trees, after: Trees, table: TableId, row: seq<Value>, r: RowRef) {
    exists last :: LeftAs(s, before, after, table, row, r, last)
  }

  ghost predicate LeftAs(s: Schema, before: Trees, after: Trees, table: TableId, row: seq<Value>, r: RowRef, last: seq<Value>) {
    && FullRow(s, before, r).Some? && Nulled(FullRow(s, before, r).value, last)
    && (forall p :: 0 <= p < |last| && last[p] != FullRow(s, before, r).value[p] ==> NullHit(s, before, table, row, r, p))
    && Cleared(s, after, r.table, last, {})
  }

  /** What deleting a row may do, besides removing the rows in `gone`: remove rows reached by
      cascading, to which nothing then refers, null columns of SET NULL keys that referred to a
      reached row, nothing else. */
  ghost predicate Effect(s: Schema, before: Trees, after: Trees, table: TableId, row: seq<Value>, gone: set<RowRef>) {
    && Shrinks(s, before, after)
    && (forall r :: FullRow(s, before, r).Some? && FullRow(s, after, r).None? && r !in gone ==>
          CascadeHit(s, before, table, row, r) && Left(s, before, after, table, row, r))
    && (forall r, p :: FullRow(s, after, r).Some? && 0 <= p < |FullRow(s, after, r).value| ==>
          ColumnKept(s, before, after, table, row, r, p))
  }

  lemma EffectNone(s: Schema, img: Trees, table: TableId, row: seq<Value>)
    ensures Effect(s, img, img, table, row, {})
  {
    hide FullRow;
  }

  lemma CascadeHitBefore(s: Schema, before: Trees, after: Trees, table: TableId, row: seq<Value>, row': seq<Value>, child: RowRef)
    requires Shrinks(s, before, after) && Nulled(row, row') && CascadeHit(s, after, table, row', child)
    ensures CascadeHit(s, before, table, row, child)
  {
    hide FullRow, Hit, Shrinks, Nulled;
    var k :| IsCascade(s, k) && Hit(s, after, table, row', k, child);
    HitBefore(s, before, after, table, row, row', k, child);
  }

  lemma NullHitBefore(s: Schema, before: Trees, after: Trees, table: TableId, row: seq<Value>, row': seq<Value>, child: RowRef, p: nat)
    requires Shrinks(s, before, after) && Nulled(row, row') && NullHit(s, after, table, row', child, p)
    ensures NullHit(s, before, table, row, child, p)
  {
    hide FullRow, Hit, Shrinks, Nulled, NullsColumn;
    var k :| Hit(s, after, table, row', k, child) && NullsColumn(s, k, p);
    HitBefore(s, before, after, table, row, row', k, child);
  }

  /** Effects of the same delete compose. */
  lemma EffectCompose(s: Schema, a: Trees, b: Trees, c: Trees, table: TableId, row: seq<Value>, gone: set<RowRef>, more: set<RowRef>)
    requires Effect(s, a, b, table, row, gone) && Effect(s, b, c, table, row, more)
    ensures Effect(s, a, c, table, row, gone + more)
  {
    hide FullRow, Hit, Shrinks, Nulled, CascadeHit, NullHit, Left;
    ShrinksTransitive(s, a, b, c);
    NulledSelf(row);
    forall r | FullRow(s, a, r).Some? && FullRow(s, c, r).None? && r !in gone + more
      ensures CascadeHit(s, a, table, row, r) && Left(s, a, c, table, row, r)
    {
      if FullRow(s, b, r).Some? {
        CascadeHitBefore(s, a, b, table, row, row, r);
        LeftBefore(s, a, b, c, table, row, gone, table, row, row, r);
      } else {
        LeftLater(s, a, b, c, table, row, r);
      }
    }
    forall r, p | FullRow(s, c, r).Some? && 0 <= p < |FullRow(s, c, r).value|
      ensures FullRow(s, a, r).Some? && p < |FullRow(s, a, r).value| && ColumnKept(s, a, c, table, row, r, p)
    {
      SurvivorBefore(s, a, b, r, p) by { SurvivorBefore(s, b, c, r, p); }
      SurvivorBefore(s, b, c, r, p);
      if NullHit(s, b, table, row, r, p) {
        NullHitBefore(s, a, b, table, row, row, r, p);
      }
      assert ColumnKept(s, b, c, table, row, r, p) && ColumnKept(s, a, b, table, row, r, p);
    }
  }

  lemma LeftLater(s: Schema, a: Trees, b: Trees, c: Trees, table: TableId, row: seq<Value>, r: RowRef)
    requires Left(s, a, b, table, row, r) && Shrinks(s, b, c)
    ensures Left(s, a, c, table, row, r)
  {
    hide FullRow, Shrinks, Nulled, NullHit, Cleared;
    var last :| LeftAs(s, a, b, table, row, r, last);
    ClearedLater(s, b, c, r.table, last, {});
    assert LeftAs(s, a, c, table, row, r, last);
  }

  /** A row removed by a later part of a delete, seen from before the earlier part. Columns
      nulled by the later part are hits of `from` there, and so of the whole delete. */
  lemma LeftBefore(s: Schema, a: Trees, b: Trees, c: Trees, table: TableId, row: seq<Value>, gone: set<RowRef>,
                   from: TableId, start: seq<Value>, start': seq<Value>, r: RowRef)
    requires Effect(s, a, b, table, row, gone) && Left(s, b, c, from, start', r) && FullRow(s, b, r).Some? && Nulled(start, start')
    requires forall p :: NullHit(s, a, from, start, r, p) ==> NullHit(s, a, table, row, r, p)
    ensures Left(s, a, c, table, row, r)
  {
    hide FullRow, CascadeHit, NullHit, Cleared, Left;
    var last := LeftLast(s, b, c, from, start', r);
    var was, mid := FullRow(s, a, r).value, FullRow(s, b, r).value;
    NulledTransitive(was, mid, last);
    forall p | 0 <= p < |last| && last[p] != was[p] ensures NullHit(s, a, table, row, r, p) {
      assert ColumnKept(s, a, b, table, row, r, p);
      if last[p] != mid[p] {
        NullHitBefore(s, a, b, from, start, start', r, p);
      }
    }
    LeftWith(s, a, c, table, row, r, last);
  }

  lemma LeftLast(s: Schema, b: Trees, c: Trees, table: TableId, row: seq<Value>, r: RowRef) returns (last: seq<Value>)
    requires Left(s, b, c, table, row, r)
    ensures LeftAs(s, b, c, table, row, r, last)
  {
    last :| LeftAs(s, b, c, table, row, r, last);
  }

  lemma LeftWith(s: Schema, a: Trees, c: Trees, table: TableId, row: seq<Value>, r: RowRef, last: seq<Value>)
    requires LeftAs(s, a, c, table, row, r, last)
    ensures Left(s, a, c, table, row, r)
  {
  }

  /** Where no SET NULL key reaches a removed row, nothing refers to it as it was before. */
  lemma NothingRefersToRemoved(s: Schema, before: Trees, after: Trees, table: TableId, row: seq<Value>, gone: set<RowRef>, r: RowRef)
    requires Effect(s, before, after, table, row, gone) && r !in gone && FullRow(s, before, r).Some? && FullRow(s, after, r).None?
    requires forall p :: !NullHit(s, before, table, row, r, p)
    ensures Cleared(s, after, r.table, FullRow(s, before, r).value, {})
  {
    hide FullRow, CascadeHit, NullHit, Cleared, Shrinks;
    var last := LeftLast(s, before, after, table, row, r);
    assert last == FullRow(s, before, r).value;
  }

  lemma NulledSelf(row: seq<Value>)
    ensures Nulled(row, row)
  {
  }

  lemma SurvivorBefore(s: Schema, before: Trees, after: Trees, r: RowRef, p: nat)
    requires Shrinks(s, before, after) && FullRow(s, after, r).Some? && p < |FullRow(s, after, r).value|
    ensures FullRow(s, before, r).Some? && p < |FullRow(s, before, r).value|
    ensures Nulled(FullRow(s, before, r).value, FullRow(s, after, r).value)
  {
    hide FullRow;
  }

  /** The effect of deleting a row reached by a cascade is part of the whole effect. */
  lemma EffectThrough(s: Schema, a: Trees, b: Trees, c: Trees, table: TableId, row: seq<Value>, child: RowRef, row': seq<Value>, gone: set<RowRef>)
    requires Effect(s, a, b, table, row, {}) && Effect(s, b, c, child.table, row', gone) && gone <= {child}
    requires CascadeHit(s, a, table, row, child) && FullRow(s, a, child).Some? && Nulled(FullRow(s, a, child).value, row')
    requires child in gone ==> FullRow(s, b, child) == Some(row') && Cleared(s, c, child.table, row', {})
    ensures Effect(s, a, c, table, row, {})
  {
    hide FullRow, Hit, Shrinks, Nulled, CascadeHit, NullHit, Left, Cleared;
    ShrinksTransitive(s, a, b, c);
    var start := FullRow(s, a, child).value;
    forall r | FullRow(s, a, r).Some? && FullRow(s, c, r).None? ensures CascadeHit(s, a, table, row, r) && Left(s, a, c, table, row, r) {
      if FullRow(s, b, r).None? {
        LeftLater(s, a, b, c, table, row, r);
      } else if r in gone {
        LeftNow(s, a, b, c, table, row, child, row');
      } else {
        CascadeHitBefore(s, a, b, child.table, start, row', r);
        CascadeHitThrough(s, a, table, row, child, r);
        forall p | NullHit(s, a, child.table, start, r, p) ensures NullHit(s, a, table, row, r, p) {
          NullHitThrough(s, a, table, row, child, r, p);
        }
        LeftBefore(s, a, b, c, table, row, {}, child.table, start, row', r);
      }
    }
    forall r, p | FullRow(s, c, r).Some? && 0 <= p < |FullRow(s, c, r).value|
      ensures FullRow(s, a, r).Some? && p < |FullRow(s, a, r).value| && ColumnKept(s, a, c, table, row, r, p)
    {
      SurvivorBefore(s, a, b, r, p) by { SurvivorBefore(s, b, c, r, p); }
      SurvivorBefore(s, b, c, r, p);
      if NullHit(s, b, child.table, row', r, p) {
        NullHitBefore(s, a, b, child.table, start, row', r, p);
        NullHitThrough(s, a, table, row, child, r, p);
      }
      assert ColumnKept(s, b, c, child.table, row', r, p) && ColumnKept(s, a, b, table, row, r, p);
    }
  }

  lemma LeftNow(s: Schema, a: Trees, b: Trees, c: Trees, table: TableId, row: seq<Value>, child: RowRef, row': seq<Value>)
    requires Effect(s, a, b, table, row, {}) && FullRow(s, b, child) == Some(row') && Cleared(s, c, child.table, row', {})
    ensures Left(s, a, c, table, row, child)
  {
    hide FullRow, CascadeHit, NullHit, Cleared, Left;
    forall p | 0 <= p < |row'| && row'[p] != FullRow(s, a, child).value[p] ensures NullHit(s, a, table, row, child, p) {
      assert ColumnKept(s, a, b, table, row, child, p);
    }
    LeftWith(s, a, c, table, row, child, row');
  }

  lemma CascadeHitThrough(s: Schema, img: Trees, table: TableId, row: seq<Value>, child: RowRef, r: RowRef)
    requires CascadeHit(s, img, table, row, child) && FullRow(s, img, child).Some?
    requires CascadeHit(s, img, child.table, FullRow(s, img, child).value, r)
    ensures CascadeHit(s, img, table, row, r)
  {
    hide FullRow, Hit;
    var k :| IsCascade(s, k) && Hit(s, img, table, row, k, child);
    var k2 :| IsCascade(s, k2) && Hit(s, img, child.table, FullRow(s, img, child).value, k2, r);
    HitThrough(s, img, table, row, k, child, k2, r);
  }

  lemma NullHitThrough(s: Schema, img: Trees, table: TableId, row: seq<Value>, child: RowRef, r: RowRef, p: nat)
    requires CascadeHit(s, img, table, row, child) && FullRow(s, img, child).Some?
    requires NullHit(s, img, child.table, FullRow(s, img, child).value, r, p)
    ensures NullHit(s, img, table, row, r, p)
  {
    hide FullRow, Hit, NullsColumn;
    var k :| IsCascade(s, k) && Hit(s, img, table, row, k, child);
    var k2 :| Hit(s, img, child.table, FullRow(s, img, child).value, k2, r) && NullsColumn(s, k2, p);
    HitThrough(s, img, table, row, k, child, k2, r);
  }

  // ---- the steps a delete is made of ---------------------------------------

  /** The rows differ in one place only. */
  ghost predicate OneRow(s: Schema, a: Trees, b: Trees, r: RowRef) {
    forall x :: x != r ==> FullRow(s, a, x) == FullRow(s, b, x)
  }

  lemma EffectRemoved(s: Schema, a: Trees, b: Trees, table: TableId, row: seq<Value>, r: RowRef)
    requires OneRow(s, a, b, r) && FullRow(s, b, r).None?
    ensures Effect(s, a, b, table, row, {r})
  {
    hide FullRow;
    forall x | FullRow(s, b, x).Some? ensures Nulled(FullRow(s, a, x).value, FullRow(s, b, x).value) {
      NulledSelf(FullRow(s, b, x).value);
    }
  }

  /** A child row with the columns of its foreign key set to NULL. */
  predicate KeyNulled(t: Table, ids: seq<ColumnId>, a: seq<Value>, b: seq<Value>) {
    |a| == |b| && forall p :: 0 <= p < |a| ==> b[p] == if InColumns(t, ids, p) then Null else a[p]
  }

  lemma EffectNulled(s: Schema, a: Trees, b: Trees, table: TableId, row: seq<Value>, r: RowRef, k: ConstraintId)
    requires OneRow(s, a, b, r) && FullRow(s, a, r).Some? && FullRow(s, b, r).Some?
    requires k in s.catalog.foreignKeys && s.catalog.foreignKeys[k].onDelete == SetNull
    requires s.catalog.foreignKeys[k].table == r.table && s.catalog.foreignKeys[k].referencedTable == table
    requires Refers(s, s.catalog.foreignKeys[k], FullRow(s, a, r).value, row)
    requires KeyNulled(s.catalog.tables[r.table], s.catalog.foreignKeys[k].columns, FullRow(s, a, r).value, FullRow(s, b, r).value)
    ensures Effect(s, a, b, table, row, {})
  {
    hide FullRow, Refers;
    assert Chain(s, a, table, row, []) && HitEnd(s, a, table, row, k, r, []);
    assert Hit(s, a, table, row, k, r);
    forall x | FullRow(s, b, x).Some?
      ensures FullRow(s, a, x).Some? && Nulled(FullRow(s, a, x).value, FullRow(s, b, x).value)
    {
      if x != r {
        NulledSelf(FullRow(s, b, x).value);
      }
    }
    forall p | 0 <= p < |FullRow(s, b, r).value| ensures ColumnKept(s, a, b, table, row, r, p) {
      if FullRow(s, b, r).value[p] != FullRow(s, a, r).value[p] {
        assert NullsColumn(s, k, p);
      }
    }
  }

  /** With a column of its key NULL a row refers to nothing. */
  lemma NulledRefersNot(s: Schema, key: ForeignKey, a: seq<Value>, b: seq<Value>, parent: seq<Value>)
    requires key.table in s.catalog.tables && key.columns != []
    requires KeyNulled(s.catalog.tables[key.table], key.columns, a, b) && Refers(s, key, a, parent)
    ensures !Refers(s, key, b, parent)
  {
    var t := s.catalog.tables[key.table];
    var first := LookupAll(t, a, key.columns).value[0];
    assert Lookup(t, a, key.columns[0]) == Ok(first);
    var p := Position(t.columns, key.columns[0]).value;
    assert InColumns(t, key.columns, p);
    if LookupAll(t, b, key.columns).Ok? {
      assert LookupAll(t, b, key.columns).value[0] == Null;
    }
  }

  /** A direct reference under a CASCADE key is a cascade hit. */
  lemma DirectHit(s: Schema, img: Trees, table: TableId, row: seq<Value>, k: ConstraintId, child: RowRef)
    requires IsCascade(s, k) && FullRow(s, img, child).Some?
    requires s.catalog.foreignKeys[k].table == child.table && s.catalog.foreignKeys[k].referencedTable == table
    requires Refers(s, s.catalog.foreignKeys[k], FullRow(s, img, child).value, row)
    ensures CascadeHit(s, img, table, row, child)
  {
    hide FullRow, Refers;
    assert Chain(s, img, table, row, []) && HitEnd(s, img, table, row, k, child, []);
    assert Hit(s, img, table, row, k, child);
  }
}
