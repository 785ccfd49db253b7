/** What the loop over the children of a deleted row keeps, child by child. */
module Expansions {
  import opened Common
  import opened Bytes
  import opened Values
  import opened Rows
  import opened Catalogs
  import opened RowKeys
  import opened Kernel
  import opened Store
  import opened Commits
  import opened Cascades
  import opened RowOperations
  import CatalogLaws

  /** The cells that hold rows; a cascade only ever removes from them. */
  function RowLocs(s: Schema, img: Trees): set<Loc> {
    set l | l in img.cells && l.tree in s.tableTrees.Values
  }

  lemma RowLocsRemoved(s: Schema, a: Trees, b: Trees, l: Loc)
    requires RowsSameBut(s, a, b, l) && b.Get(l).None? && a.Get(l).Some? && l.tree in s.tableTrees.Values
    ensures RowLocs(s, b) < RowLocs(s, a)
  {
    forall x | x in RowLocs(s, b) ensures x in RowLocs(s, a) {
      Cells(a, x);
      Cells(b, x);
    }
    assert l in RowLocs(s, a) && l !in RowLocs(s, b);
  }

  lemma RowLocsReplaced(s: Schema, a: Trees, b: Trees, l: Loc)
    requires RowsSameBut(s, a, b, l) && a.Get(l).Some?
    ensures RowLocs(s, b) <= RowLocs(s, a)
  {
    forall x | x in RowLocs(s, b) ensures x in RowLocs(s, a) {
      Cells(a, x);
      Cells(b, x);
    }
  }

  lemma OneRowOf(s: Schema, a: Trees, b: Trees, t: TableId, id: ByteString)
    requires MappingOk(s) && t in s.catalog.tables && RowsSameBut(s, a, b, Loc(TableTree(s, t), id))
    ensures OneRow(s, a, b, RowRef(t, id))
  {
    forall x | x != RowRef(t, id) ensures FullRow(s, a, x) == FullRow(s, b, x) {
      if x.table in s.catalog.tables {
        assert TableTree(s, x.table) in s.tableTrees.Values;
        assert Loc(TableTree(s, x.table), x.id) != Loc(TableTree(s, t), id);
        assert a.Get(Loc(TableTree(s, x.table), x.id)) == b.Get(Loc(TableTree(s, x.table), x.id));
      }
    }
  }

  /** The children of a deleted row under one key have been acted on, all but some. */
  ghost predicate Expanding(s: Schema, a: Trees, b: Trees, k: ConstraintId, row: seq<Value>, todo: set<ByteString>)
    requires k in s.catalog.foreignKeys
  {
    var key := s.catalog.foreignKeys[k];
    && Effect(s, a, b, key.referencedTable, row, {})
    && RowLocs(s, b) <= RowLocs(s, a)
    && (forall id :: Referring(s, b, key, row, id) ==> id in todo)
    && (key.onDelete == SetNull ==>
          forall id :: id in todo ==> FullRow(s, b, RowRef(key.table, id)) == FullRow(s, a, RowRef(key.table, id)))
  }

  predicate Referring(s: Schema, img: Trees, key: ForeignKey, row: seq<Value>, id: ByteString) {
    FullRow(s, img, RowRef(key.table, id)).Some? && Refers(s, key, FullRow(s, img, RowRef(key.table, id)).value, row)
  }

  lemma ExpandingStart(s: Schema, a: Trees, k: ConstraintId, row: seq<Value>, todo: set<ByteString>)
    requires k in s.catalog.foreignKeys
    requires forall l :: l in a.cells && l.tree == TableTree(s, s.catalog.foreignKeys[k].table) ==> l.key in todo
    ensures Expanding(s, a, a, k, row, todo)
  {
    hide Refers, Effect;
    EffectNone(s, a, s.catalog.foreignKeys[k].referencedTable, row);
  }

  lemma ExpandingDone(s: Schema, a: Trees, b: Trees, k: ConstraintId, row: seq<Value>)
    requires k in s.catalog.foreignKeys && Expanding(s, a, b, k, row, {})
    ensures NoReferrers(s, b, k, row)
  {
    hide Refers, Effect, FullRow;
    var key := s.catalog.foreignKeys[k];
    forall id | FullRow(s, b, RowRef(key.table, id)).Some?
      ensures !Refers(s, key, FullRow(s, b, RowRef(key.table, id)).value, row)
    {
      assert !Referring(s, b, key, row, id);
    }
  }

  /** A reference found after shrinking was there before. */
  lemma ReferringBefore(s: Schema, a: Trees, b: Trees, key: ForeignKey, row: seq<Value>, id: ByteString)
    requires Shrinks(s, a, b) && Referring(s, b, key, row, id)
    ensures Referring(s, a, key, row, id)
  {
    hide Refers, FullRow;
    NulledSelf(row);
    RefersOfNulled(s, key, FullRow(s, a, RowRef(key.table, id)).value, FullRow(s, b, RowRef(key.table, id)).value, row, row);
  }

  lemma ExpandingSkip(s: Schema, a: Trees, b: Trees, k: ConstraintId, row: seq<Value>, todo: set<ByteString>, id: ByteString)
    requires k in s.catalog.foreignKeys && Expanding(s, a, b, k, row, todo)
    requires !Referring(s, a, s.catalog.foreignKeys[k], row, id)
    ensures Expanding(s, a, b, k, row, todo - {id})
  {
    hide FullRow, Refers;
    var key := s.catalog.foreignKeys[k];
    if Referring(s, b, key, row, id) {
      ReferringBefore(s, a, b, key, row, id);
    }
  }

  lemma ExpandingNulled(s: Schema, a: Trees, b: Trees, c: Trees, k: ConstraintId, row: seq<Value>, todo: set<ByteString>, id: ByteString)
    requires k in s.catalog.foreignKeys && Expanding(s, a, b, k, row, todo) && id in todo
    requires Referring(s, a, s.catalog.foreignKeys[k], row, id)
    requires s.catalog.foreignKeys[k].onDelete == SetNull && s.catalog.foreignKeys[k].columns != []
    requires var child := RowRef(s.catalog.foreignKeys[k].table, id);
             && OneRow(s, b, c, child) && FullRow(s, c, child).Some?
             && KeyNulled(s.catalog.tables[child.table], s.catalog.foreignKeys[k].columns, FullRow(s, a, child).value, FullRow(s, c, child).value)
    requires RowLocs(s, c) <= RowLocs(s, b)
    ensures Expanding(s, a, c, k, row, todo - {id})
  {
    hide FullRow, Refers, Effect, KeyNulled;
    var key := s.catalog.foreignKeys[k];
    var child := RowRef(key.table, id);
    EffectNulled(s, b, c, key.referencedTable, row, child, k);
    EffectCompose(s, a, b, c, key.referencedTable, row, {}, {});
    var none: set<RowRef> := {};
    assert none + none == none;
    NulledRefersNot(s, key, FullRow(s, a, child).value, FullRow(s, c, child).value, row);
    forall x | Referring(s, c, key, row, x) ensures x in todo - {id} {
      assert Referring(s, b, key, row, x);
    }
    forall x | x in todo - {id} ensures FullRow(s, c, RowRef(key.table, x)) == FullRow(s, a, RowRef(key.table, x)) {
      assert FullRow(s, b, RowRef(key.table, x)) == FullRow(s, c, RowRef(key.table, x));
    }
  }

  lemma ExpandingCascaded(s: Schema, a: Trees, b: Trees, c: Trees, d: Trees, k: ConstraintId, row: seq<Value>, todo: set<ByteString>, id: ByteString)
    requires IsCascade(s, k) && Expanding(s, a, b, k, row, todo)
    requires Referring(s, a, s.catalog.foreignKeys[k], row, id)
    requires var child := RowRef(s.catalog.foreignKeys[k].table, id);
             && Effect(s, b, c, child.table, FullRow(s, a, child).value, {})
             && FullRow(s, c, child).Some?
             && Effect(s, c, d, child.table, FullRow(s, c, child).value, {child})
             && FullRow(s, d, child).None? && Cleared(s, d, child.table, FullRow(s, c, child).value, {})
    requires RowLocs(s, d) <= RowLocs(s, b)
    ensures Expanding(s, a, d, k, row, todo - {id})
  {
    hide FullRow, Refers, Effect, Cleared;
    var key := s.catalog.foreignKeys[k];
    var child := RowRef(key.table, id);
    var start, last := FullRow(s, a, child).value, FullRow(s, c, child).value;
    DirectHit(s, a, key.referencedTable, row, k, child);
    NulledSelf(start);
    EffectThrough(s, a, b, c, key.referencedTable, row, child, start, {});
    EffectShrinks(s, a, c, key.referencedTable, row, {});
    EffectThrough(s, a, c, d, key.referencedTable, row, child, last, {child});
    EffectShrinks(s, b, c, child.table, start, {});
    EffectShrinks(s, c, d, child.table, last, {child});
    ShrinksTransitive(s, b, c, d);
    forall x | Referring(s, d, key, row, x) ensures x in todo - {id} {
      ReferringBefore(s, b, d, key, row, x);
    }
  }

  lemma EffectShrinks(s: Schema, a: Trees, b: Trees, table: TableId, row: seq<Value>, gone: set<RowRef>)
    requires Effect(s, a, b, table, row, gone)
    ensures Shrinks(s, a, b)
  {
  }

  /** Setting the columns of a SET NULL key to NULL keeps the row's identity. */
  lemma NulledIdentity(c: Catalog, k: ConstraintId, carried: ByteString, a: seq<Value>, b: seq<Value>)
    requires Valid(c) && k in c.foreignKeys && c.foreignKeys[k].onDelete == SetNull && c.foreignKeys[k].table in c.tables
    requires KeyNulled(c.tables[c.foreignKeys[k].table], c.foreignKeys[k].columns, a, b)
    requires |carried| == 16 && AllStorable(a) && AllStorable(b)
    ensures IdentityBytes(c, c.tables[c.foreignKeys[k].table], carried, b) == IdentityBytes(c, c.tables[c.foreignKeys[k].table], carried, a)
  {
    hide Valid, EncodeLegacyKey, ToBE, ValidTables;
    var key := c.foreignKeys[k];
    var t := c.tables[key.table];
    TableIdentity(c, key.table);
    if key.table in c.primaryKeys {
      var ids := c.primaryKeys[key.table];
      forall i | 0 <= i < |ids| ensures SameAt(t, a, t, b, ids[i]) {
        var p := Position(t.columns, ids[i]);
        if p.Some? && InColumns(t, key.columns, p.value) {
          var j :| 0 <= j < |key.columns| && Position(t.columns, key.columns[j]) == p;
          CatalogLaws.SetNullAvoidsPrimaryKey(c, k, key.columns[j]);
        }
      }
      LookupAllDepends(t, a, t, b, ids);
    }
  }

  lemma TableIdentity(c: Catalog, t: TableId)
    requires Valid(c) && t in c.tables
    ensures c.tables[t].id == t
  {
  }

  /** Set some columns of a row to NULL, as long as the table has them. */
  method NullColumns(t: Table, row: seq<Value>, ids: seq<ColumnId>) returns (r: Result<seq<Value>>)
    requires |row| == |t.columns|
    ensures r.Ok? <==> forall i :: 0 <= i < |ids| ==> Position(t.columns, ids[i]).Some?
    ensures r.Ok? ==> KeyNulled(t, ids, row, r.value)
    ensures r.Err? ==> r.error == InvalidState
  {
    var updated := row;
    var n := 0;
    while n < |ids|
      invariant n <= |ids| && KeyNulled(t, ids[..n], row, updated)
      invariant forall i :: 0 <= i < n ==> Position(t.columns, ids[i]).Some?
    {
      var p := Position(t.columns, ids[n]);
      if p.None? {
        return Err(InvalidState);
      }
      NullOneMore(t, row, updated, ids, n, p.value);
      updated := updated[p.value := Null];
      n := n + 1;
    }
    assert ids[..n] == ids;
    r := Ok(updated);
  }

  lemma NullOneMore(t: Table, row: seq<Value>, updated: seq<Value>, ids: seq<ColumnId>, n: nat, p: nat)
    requires n < |ids| && KeyNulled(t, ids[..n], row, updated) && p < |updated| && Position(t.columns, ids[n]) == Some(p)
    ensures KeyNulled(t, ids[..n + 1], row, updated[p := Null])
  {
    hide InColumns;
    forall q | 0 <= q < |row| ensures InColumns(t, ids[..n + 1], q) <==> InColumns(t, ids[..n], q) || q == p {
      InOneMoreColumn(t, ids, n, q);
    }
  }

  lemma InOneMoreColumn(t: Table, ids: seq<ColumnId>, n: nat, q: nat)
    requires n < |ids|
    ensures InColumns(t, ids[..n + 1], q) <==> InColumns(t, ids[..n], q) || Position(t.columns, ids[n]) == Some(q)
  {
    hide Position;
    var less, more := ids[..n], ids[..n + 1];
    assert more == less + [ids[n]];
    if InColumns(t, less, q) {
      var i :| 0 <= i < |less| && Position(t.columns, less[i]) == Some(q);
      assert more[i] == less[i];
    }
    if Position(t.columns, ids[n]) == Some(q) {
      assert more[n] == ids[n];
    }
  }

  lemma NulledStorable(t: Table, ids: seq<ColumnId>, a: seq<Value>, b: seq<Value>)
    requires KeyNulled(t, ids, a, b) && AllStorable(a)
    ensures AllStorable(b)
  {
    hide InColumns;
  }

  /** A cell of a table as a scan reads it: a row, and the key it carries, that determine
      the identity it is stored under. */
  predicate Readable(s: Schema, img: Trees, t: TableId, id: ByteString) {
    && t in s.catalog.tables && Loc(TableTree(s, t), id) in img.cells
    && var cell := img.cells[Loc(TableTree(s, t), id)];
       && cell.Row? && AllStorable(cell.values) && |cell.values| <= |s.catalog.tables[t].columns|
       && IdentityOk(s.catalog, s.catalog.tables[t], id, Materialize(s.catalog.tables[t], cell.values))
  }

  lemma ScannedRows(fp: FloatUnit, s: Schema, base: Trees, writes: Writes<Datum>, ranges: set<Range>, t: TableId)
    requires StagedOk(fp, s, base, writes, ranges) && t in s.catalog.tables
    ensures forall l :: l in View(base, writes).cells && l.tree == TableTree(s, t) ==> Readable(s, View(base, writes), t, l.key)
  {
    hide StagedOk, View, IdentityOk;
    forall l | l in View(base, writes).cells && l.tree == TableTree(s, t) ensures Readable(s, View(base, writes), t, l.key) {
      assert l == Loc(TableTree(s, t), l.key);
      StoredRow(fp, s, base, writes, ranges, t, l.key);
    }
  }

  lemma ReadableRow(s: Schema, img: Trees, t: TableId, id: ByteString)
    requires Readable(s, img, t, id)
    ensures var row := Materialize(s.catalog.tables[t], img.cells[Loc(TableTree(s, t), id)].values);
            && FullRow(s, img, RowRef(t, id)) == Some(row) && AllStorable(row)
            && CarriedKey(s.catalog, s.catalog.tables[t], id).Ok?
            && IdentityBytes(s.catalog, s.catalog.tables[t], CarriedKey(s.catalog, s.catalog.tables[t], id).value, row) == Ok(id)
  {
    hide IdentityBytes, CarriedKey;
  }

  lemma ClearedRow(s: Schema, a: Trees, b: Trees, k: ConstraintId, carried: ByteString, id: ByteString, row: seq<Value>, updated: seq<Value>)
    requires MappingOk(s) && Valid(s.catalog) && k in s.catalog.foreignKeys && s.catalog.foreignKeys[k].onDelete == SetNull
    requires s.catalog.foreignKeys[k].table in s.catalog.tables && |carried| == 16 && AllStorable(row)
    requires var t := s.catalog.foreignKeys[k].table;
             && IdentityBytes(s.catalog, s.catalog.tables[t], carried, row) == Ok(id)
             && KeyNulled(s.catalog.tables[t], s.catalog.foreignKeys[k].columns, row, updated)
             && Placed(s, a, b, t, carried, updated) && a.Get(Target(s, t, carried, updated).value).Some?
    ensures var child := RowRef(s.catalog.foreignKeys[k].table, id);
            OneRow(s, a, b, child) && FullRow(s, b, child) == Some(updated) && RowLocs(s, b) <= RowLocs(s, a)
  {
    hide IdentityBytes, KeyNulled, Valid, RowsSameBut, RowLocs, OneRow, MappingOk, ValidStored;
    var t := s.catalog.foreignKeys[k].table;
    NulledStorable(s.catalog.tables[t], s.catalog.foreignKeys[k].columns, row, updated);
    NulledIdentity(s.catalog, k, carried, row, updated);
    assert Target(s, t, carried, updated) == Some(Loc(TableTree(s, t), id));
    OneRowOf(s, a, b, t, id);
    RowLocsReplaced(s, a, b, Loc(TableTree(s, t), id));
    assert Materialize(s.catalog.tables[t], updated) == updated;
  }

  /** What holds of a foreign key of a consistent store. */
  lemma KeyFacts(fp: FloatUnit, base: Trees, s: Schema, k: ConstraintId)
    requires ConsistentWith(fp, base, s) && k in s.catalog.foreignKeys
    ensures Valid(s.catalog) && MappingOk(s)
    ensures var key := s.catalog.foreignKeys[k];
            key.table in s.catalog.tables && key.referencedTable in s.catalog.tables && key.columns != []
  {
    hide HasSchema, IndexesOk, ForeignKeysOk, MappingOk, ValidTables, ValidNames;
  }

  /** Deleting a row and then expanding its references. */
  lemma DeletedWhole(s: Schema, a: Trees, b: Trees, c: Trees, t: TableId, id: ByteString, row: seq<Value>)
    requires MappingOk(s) && t in s.catalog.tables && FullRow(s, a, RowRef(t, id)) == Some(row)
    requires RowsSameBut(s, a, b, Loc(TableTree(s, t), id)) && b.Get(Loc(TableTree(s, t), id)).None?
    requires Effect(s, b, c, t, row, {})
    ensures Effect(s, a, c, t, row, {RowRef(t, id)}) && FullRow(s, c, RowRef(t, id)).None?
  {
    hide Effect, RowsSameBut, OneRow, MappingOk;
    OneRowOf(s, a, b, t, id);
    EffectRemoved(s, a, b, t, row, RowRef(t, id));
    EffectCompose(s, a, b, c, t, row, {RowRef(t, id)}, {});
    EffectShrinks(s, b, c, t, row, {});
    assert {RowRef(t, id)} + {} == {RowRef(t, id)};
  }

  lemma RemovedSmaller(s: Schema, a: Trees, b: Trees, t: TableId, id: ByteString)
    requires MappingOk(s) && t in s.catalog.tables && a.Get(Loc(TableTree(s, t), id)).Some?
    requires RowsSameBut(s, a, b, Loc(TableTree(s, t), id)) && b.Get(Loc(TableTree(s, t), id)).None?
    ensures RowLocs(s, b) < RowLocs(s, a)
  {
    hide RowLocs, RowsSameBut;
    assert TableTree(s, t) in s.tableTrees.Values;
    RowLocsRemoved(s, a, b, Loc(TableTree(s, t), id));
  }

  /** A stored row that no row but itself refers to under a key that acts on deletes. */
  ghost predicate Unreferenced(s: Schema, img: Trees, r: RowRef) {
    && FullRow(s, img, r).Some?
    && forall k, id :: k in s.catalog.foreignKeys && s.catalog.foreignKeys[k].referencedTable == r.table
                       && s.catalog.foreignKeys[k].onDelete != Restrict && RowRef(s.catalog.foreignKeys[k].table, id) != r ==>
         !Referring(s, img, s.catalog.foreignKeys[k], FullRow(s, img, r).value, id)
  }

  lemma StillUnreferenced(s: Schema, a: Trees, b: Trees, t: TableId, id: ByteString)
    requires MappingOk(s) && t in s.catalog.tables && RowsSameBut(s, a, b, Loc(TableTree(s, t), id))
    requires b.Get(Loc(TableTree(s, t), id)).None?
    ensures Unreferenced(s, a, RowRef(t, id)) ==> Cleared(s, b, t, FullRow(s, a, RowRef(t, id)).value, {})
  {
    hide FullRow, Refers, RowsSameBut, MappingOk;
    if Unreferenced(s, a, RowRef(t, id)) {
      var row := FullRow(s, a, RowRef(t, id)).value;
      forall k | k in s.catalog.foreignKeys && s.catalog.foreignKeys[k].referencedTable == t && s.catalog.foreignKeys[k].onDelete != Restrict
        ensures NoReferrers(s, b, k, row)
      {
        var key := s.catalog.foreignKeys[k];
        forall x | FullRow(s, b, RowRef(key.table, x)).Some? ensures !Refers(s, key, FullRow(s, b, RowRef(key.table, x)).value, row) {
          OtherRowSame(s, a, b, t, id, RowRef(key.table, x));
          assert !Referring(s, a, key, row, x);
        }
      }
    }
  }

  lemma RowPresent(s: Schema, img: Trees, t: TableId, id: ByteString)
    ensures FullRow(s, img, RowRef(t, id)).Some? ==> t in s.catalog.tables && img.Get(Loc(TableTree(s, t), id)).Some?
  {
  }

  lemma OtherRowSame(s: Schema, a: Trees, b: Trees, t: TableId, id: ByteString, r: RowRef)
    requires MappingOk(s) && t in s.catalog.tables && RowsSameBut(s, a, b, Loc(TableTree(s, t), id))
    requires b.Get(Loc(TableTree(s, t), id)).None? && FullRow(s, b, r).Some?
    ensures r != RowRef(t, id) && FullRow(s, a, r) == FullRow(s, b, r)
  {
    var l := Loc(TableTree(s, r.table), r.id);
    assert l.tree in s.tableTrees.Values;
  }

  lemma NoneRefers(s: Schema, img: Trees, k: ConstraintId, row: seq<Value>, id: ByteString)
    requires k in s.catalog.foreignKeys
    ensures NoReferrers(s, img, k, row) ==> !Referring(s, img, s.catalog.foreignKeys[k], row, id)
  {
    hide FullRow, Refers;
  }

  /** A key with a NULL component has no referrers. */
  lemma NoKeyNoReferrers(s: Schema, img: Trees, k: ConstraintId, row: seq<Value>)
    requires k in s.catalog.foreignKeys && s.catalog.foreignKeys[k].referencedTable in s.catalog.tables
    requires var key := s.catalog.foreignKeys[k];
             var required := LookupAll(s.catalog.tables[key.referencedTable], row, key.referencedColumns);
             required.Ok? && !NoNulls(required.value)
    ensures Expanding(s, img, img, k, row, {})
  {
    hide FullRow, Effect;
    EffectNone(s, img, s.catalog.foreignKeys[k].referencedTable, row);
  }

  lemma ExpandingEffect(s: Schema, a: Trees, b: Trees, k: ConstraintId, row: seq<Value>, todo: set<ByteString>)
    requires k in s.catalog.foreignKeys && Expanding(s, a, b, k, row, todo)
    ensures Effect(s, a, b, s.catalog.foreignKeys[k].referencedTable, row, {})
    ensures RowLocs(s, b) <= RowLocs(s, a)
  {
    hide Effect, FullRow, Refers;
  }

  lemma ExpandingUnchanged(s: Schema, a: Trees, b: Trees, k: ConstraintId, row: seq<Value>, todo: set<ByteString>, id: ByteString)
    requires k in s.catalog.foreignKeys && Expanding(s, a, b, k, row, todo) && id in todo
    requires s.catalog.foreignKeys[k].onDelete == SetNull
    ensures FullRow(s, b, RowRef(s.catalog.foreignKeys[k].table, id)) == FullRow(s, a, RowRef(s.catalog.foreignKeys[k].table, id))
  {
    hide Effect, FullRow, Refers;
  }

  /** The comparison made for each child decides whether it refers to the deleted row. */
  lemma ReferringIff(s: Schema, img: Trees, key: ForeignKey, row: seq<Value>, id: ByteString)
    requires key.table in s.catalog.tables && key.referencedTable in s.catalog.tables
    requires FullRow(s, img, RowRef(key.table, id)).Some?
    requires var values := LookupAll(s.catalog.tables[key.table], FullRow(s, img, RowRef(key.table, id)).value, key.columns);
             var required := LookupAll(s.catalog.tables[key.referencedTable], row, key.referencedColumns);
             values.Ok? && required.Ok? && NoNulls(required.value)
    ensures var values := LookupAll(s.catalog.tables[key.table], FullRow(s, img, RowRef(key.table, id)).value, key.columns);
            var required := LookupAll(s.catalog.tables[key.referencedTable], row, key.referencedColumns);
            Referring(s, img, key, row, id) <==> NoNulls(values.value) && AllSqlEq(values.value, required.value)
  {
    hide LookupAll, FullRow;
  }

  lemma FullRowReadable(fp: FloatUnit, s: Schema, base: Trees, writes: Writes<Datum>, ranges: set<Range>, t: TableId, id: ByteString)
    requires StagedOk(fp, s, base, writes, ranges) && t in s.catalog.tables
    requires FullRow(s, View(base, writes), RowRef(t, id)).Some?
    ensures Readable(s, View(base, writes), t, id)
  {
    hide StagedOk, View, IdentityOk;
    StoredRow(fp, s, base, writes, ranges, t, id);
  }

  lemma RowIsThere(fp: FloatUnit, base: Trees, s: Schema, img: Trees, t: TableId, id: ByteString)
    requires ConsistentWith(fp, base, s) && FullRow(s, img, RowRef(t, id)).Some?
    ensures MappingOk(s) && t in s.catalog.tables && img.Get(Loc(TableTree(s, t), id)).Some?
  {
    hide HasSchema, IndexesOk, ForeignKeysOk, MappingOk, Valid, Materialize;
  }
}
