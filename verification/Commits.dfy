/** What every interleaving of row transactions keeps. A transaction works on a snapshot;
    by the time it publishes, others may have committed. The kernel's conflict rule, the
    ranges a transaction registers and the shape of its writes together make the merged
    image consistent. */
module Commits {
  import opened Common
  import opened Bytes
  import opened Catalogs
  import opened RowKeys
  import opened IndexEntries
  import opened Kernel
  import opened Store

  /** The range a uniqueness probe for one value key registers. */
  function ProbeRange(tree: TreeId, values: ByteString): Range
    requires FitsU32(values)
  {
    Range(tree, EntryPrefix(values), Successor(EntryPrefix(values)))
  }

  /** Cells a row transaction may write: rows and entries, and an entry only together with
      the row it belongs to. */
  predicate RowCells(s: Schema, cells: set<Loc>) {
    && (forall l :: l in cells ==> l.tree in s.tableTrees.Values + s.indexTrees.Values)
    && (forall i, l :: i in s.catalog.indexes && l in cells && l.tree == IndexTree(s, i) ==>
          WellFormed(l.key) && Loc(OwnerTree(s, i), DecodeEntry(l.key).value.1) in cells)
  }

  /** Every entry put into a unique index was preceded by a registered probe of its key. */
  predicate Probed(s: Schema, writes: Writes<Datum>, ranges: set<Range>) {
    forall i, l :: i in s.catalog.indexes && s.catalog.indexes[i].unique && l in writes && l.tree == IndexTree(s, i)
                   && writes[l].Some? && WellFormed(l.key) ==>
      (EntryReadBack(l.key); ProbeRange(l.tree, DecodeEntry(l.key).value.0) in ranges)
  }

  function RowChange(writes: Writes<Datum>): Change<Datum> {
    Change(writes, {}, {})
  }

  /** A row transaction's private view. */
  function View(base: Trees, writes: Writes<Datum>): Trees {
    Apply(base, RowChange(writes))
  }

  /** What a row transaction keeps at every operation boundary. */
  ghost predicate StagedOk(fp: FloatUnit, s: Schema, base: Trees, writes: Writes<Datum>, ranges: set<Range>) {
    && RowCells(s, writes.Keys)
    && Probed(s, writes, ranges)
    && Exactly(MARKER) in ranges
    && IndexesOk(fp, s, View(base, writes))
  }

  /** The checks made before publishing: every foreign key holds in the view, and what was
      scanned to see it is registered. */
  ghost predicate ReferencesOk(fp: FloatUnit, s: Schema, base: Trees, writes: Writes<Datum>, ranges: set<Range>)
    requires Valid(s.catalog)
  {
    forall k :: k in s.catalog.foreignKeys ==>
      var key := s.catalog.foreignKeys[k];
      && ForeignOk(fp, s, View(base, writes), key)
      && Whole(TableTree(s, key.table)) in ranges
      && Whole(IndexTree(s, SupportOf(s.catalog, key))) in ranges
  }

  ghost predicate Publishable(fp: FloatUnit, s: Schema, base: Trees, writes: Writes<Datum>, ranges: set<Range>) {
    && Valid(s.catalog)
    && StagedOk(fp, s, base, writes, ranges)
    && (writes == map[] || ReferencesOk(fp, s, base, writes, ranges))
  }

  // ---- two transactions meet -----------------------------------------------

  /** The image moved from `base` to `now` by commits that touched only these cells, none
      of which this transaction wrote or had in a registered range. */
  ghost predicate Meets(s: Schema, base: Trees, now: Trees, touched: set<Loc>, writes: Writes<Datum>, ranges: set<Range>) {
    && (forall l :: l !in touched ==> now.Get(l) == base.Get(l))
    && (forall l :: l in touched ==> l !in writes)
    && (forall l, r :: l in touched && r in ranges ==> !Covers(r, l))
    && RowCells(s, touched)
  }

  lemma Cells<D>(img: Image<D>, l: Loc)
    ensures l in img.cells <==> img.Get(l).Some?
    ensures l in img.cells ==> img.Get(l) == Some(img.cells[l])
  {
  }

  /** For one identity the merged image is, in a table and its indexes, either what this
      transaction saw or what the others left. */
  lemma MergedEntry(s: Schema, base: Trees, now: Trees, touched: set<Loc>, writes: Writes<Datum>, ranges: set<Range>,
                    i: IndexId, id: ByteString, k: ByteString)
    requires Meets(s, base, now, touched, writes, ranges) && RowCells(s, writes.Keys)
    requires i in s.catalog.indexes && FitsU32(id) && FitsU32(k)
    ensures var l := Loc(IndexTree(s, i), EncodeEntry(k, id));
            if Loc(OwnerTree(s, i), id) in writes then View(now, writes).Get(l) == View(base, writes).Get(l)
            else View(now, writes).Get(l) == now.Get(l)
  {
    EntryRoundTrip(k, id);
  }

  lemma MergedRow(s: Schema, base: Trees, now: Trees, writes: Writes<Datum>, tree: TreeId, id: ByteString)
    ensures if Loc(tree, id) in writes then RowAt(View(now, writes), tree, id) == RowAt(View(base, writes), tree, id)
            else RowAt(View(now, writes), tree, id) == RowAt(now, tree, id)
  {
  }

  lemma MergedAgrees(fp: FloatUnit, s: Schema, base: Trees, now: Trees, touched: set<Loc>, writes: Writes<Datum>, ranges: set<Range>,
                     i: IndexId, id: ByteString)
    requires Meets(s, base, now, touched, writes, ranges) && RowCells(s, writes.Keys)
    requires i in s.catalog.indexes && FitsU32(id)
    requires AgreesAt(fp, s, View(base, writes), i, id) && AgreesAt(fp, s, now, i, id)
    ensures AgreesAt(fp, s, View(now, writes), i, id)
  {
    hide RowKey, Apply, EncodeEntry, RowCells, Meets;
    MergedRow(s, base, now, writes, OwnerTree(s, i), id);
    forall k | FitsU32(k)
      ensures Loc(IndexTree(s, i), EncodeEntry(k, id)) in View(now, writes).cells <==> KeyAt(fp, s, View(now, writes), i, id) == Some(k)
    {
      var l := Loc(IndexTree(s, i), EncodeEntry(k, id));
      MergedEntry(s, base, now, touched, writes, ranges, i, id, k);
      Cells(View(now, writes), l);
      Cells(View(base, writes), l);
      Cells(now, l);
    }
  }

  lemma MergedShape(base: Trees, now: Trees, writes: Writes<Datum>, tree: TreeId)
    requires TreeShape(View(base, writes), tree) && TreeShape(now, tree)
    ensures TreeShape(View(now, writes), tree)
  {
    hide DecodeEntry, Apply;
    forall l | l in View(now, writes).cells && l.tree == tree
      ensures WellFormed(l.key) && View(now, writes).cells[l] == Entry(DecodeEntry(l.key).value.1)
    {
      Cells(View(now, writes), l);
      Cells(View(base, writes), l);
      Cells(now, l);
      if l in writes {
        assert l in View(base, writes).cells;
      } else {
        assert l in now.cells;
      }
    }
  }

  lemma MergedRows(fp: FloatUnit, s: Schema, base: Trees, now: Trees, writes: Writes<Datum>)
    requires RowsOk(fp, s, View(base, writes)) && RowsOk(fp, s, now)
    ensures RowsOk(fp, s, View(now, writes))
  {
    hide RowOk, Apply;
    forall t, id | t in s.catalog.tables && Loc(TableTree(s, t), id) in View(now, writes).cells
      ensures RowCellOk(fp, s, View(now, writes), t, id)
    {
      var l := Loc(TableTree(s, t), id);
      Cells(View(now, writes), l);
      Cells(View(base, writes), l);
      Cells(now, l);
      if l in writes {
        assert RowCellOk(fp, s, View(base, writes), t, id);
      } else {
        assert RowCellOk(fp, s, now, t, id);
      }
    }
  }

  lemma KeyedRowFits(fp: FloatUnit, s: Schema, img: Trees, i: IndexId, id: ByteString)
    requires MappingOk(s) && RowsOk(fp, s, img) && KeyAt(fp, s, img, i, id).Some?
    ensures FitsU32(id)
  {
    hide Materialize, IndexKey, IdentityOk, ValidStored;
    var t := s.catalog.indexes[i].table;
    assert RowCellOk(fp, s, img, t, id);
  }

  /** A key put by this transaction and the same key left by another cannot both survive. */
  lemma MergedUnique(fp: FloatUnit, s: Schema, base: Trees, now: Trees, touched: set<Loc>, writes: Writes<Datum>, ranges: set<Range>,
                     i: IndexId, mine: ByteString, theirs: ByteString, k: ByteString)
    requires Meets(s, base, now, touched, writes, ranges) && RowCells(s, writes.Keys) && Probed(s, writes, ranges)
    requires i in s.catalog.indexes && s.catalog.indexes[i].unique && FitsU32(mine) && FitsU32(theirs) && FitsU32(k)
    requires UniqueOk(fp, s, View(base, writes), i) && UniqueOk(fp, s, now, i)
    requires AgreesAt(fp, s, View(base, writes), i, mine) && AgreesAt(fp, s, View(base, writes), i, theirs)
    requires AgreesAt(fp, s, now, i, mine) && AgreesAt(fp, s, now, i, theirs)
    requires Loc(OwnerTree(s, i), mine) in writes && Loc(OwnerTree(s, i), theirs) !in writes
    requires KeyAt(fp, s, View(now, writes), i, mine) == Some(k) && KeyAt(fp, s, View(now, writes), i, theirs) == Some(k)
    ensures mine == theirs
  {
    var view := View(base, writes);
    var m, o := Loc(IndexTree(s, i), EncodeEntry(k, mine)), Loc(IndexTree(s, i), EncodeEntry(k, theirs));
    MergedKeys(fp, s, base, now, touched, writes, ranges, i, mine, theirs, k);
    if m in writes {
      ProbeKeepsOut(s, touched, writes, ranges, i, mine, theirs, k);
      assert view.Get(o) == base.Get(o) == now.Get(o);
      assert KeyAt(fp, s, view, i, theirs) == Some(k);
    } else {
      assert now.Get(m) == View(now, writes).Get(m);
      assert KeyAt(fp, s, now, i, mine) == Some(k);
    }
  }

  lemma MergedKeys(fp: FloatUnit, s: Schema, base: Trees, now: Trees, touched: set<Loc>, writes: Writes<Datum>, ranges: set<Range>,
                   i: IndexId, mine: ByteString, theirs: ByteString, k: ByteString)
    requires Meets(s, base, now, touched, writes, ranges) && RowCells(s, writes.Keys)
    requires i in s.catalog.indexes && FitsU32(mine) && FitsU32(theirs) && FitsU32(k)
    requires AgreesAt(fp, s, View(base, writes), i, mine) && AgreesAt(fp, s, now, i, theirs)
    requires Loc(OwnerTree(s, i), mine) in writes && Loc(OwnerTree(s, i), theirs) !in writes
    requires KeyAt(fp, s, View(now, writes), i, mine) == Some(k) && KeyAt(fp, s, View(now, writes), i, theirs) == Some(k)
    ensures KeyAt(fp, s, View(base, writes), i, mine) == Some(k) && KeyAt(fp, s, now, i, theirs) == Some(k)
    ensures Loc(IndexTree(s, i), EncodeEntry(k, theirs)) in now.cells
    ensures Loc(IndexTree(s, i), EncodeEntry(k, theirs)) !in writes
    ensures View(now, writes).Get(Loc(IndexTree(s, i), EncodeEntry(k, mine))).Some?
  {
    hide RowKey, Apply;
    MergedRow(s, base, now, writes, OwnerTree(s, i), mine);
    MergedRow(s, base, now, writes, OwnerTree(s, i), theirs);
    MergedEntry(s, base, now, touched, writes, ranges, i, mine, k);
    EntryRoundTrip(k, theirs);
    Cells(View(base, writes), Loc(IndexTree(s, i), EncodeEntry(k, mine)));
  }

  /** Nobody else touched an entry of a key this transaction put and so had probed. */
  lemma ProbeKeepsOut(s: Schema, touched: set<Loc>, writes: Writes<Datum>, ranges: set<Range>,
                      i: IndexId, mine: ByteString, theirs: ByteString, k: ByteString)
    requires forall l, r :: l in touched && r in ranges ==> !Covers(r, l)
    requires i in s.catalog.indexes && s.catalog.indexes[i].unique && FitsU32(mine) && FitsU32(theirs) && FitsU32(k)
    requires Probed(s, writes, ranges)
    requires Loc(IndexTree(s, i), EncodeEntry(k, mine)) in writes && writes[Loc(IndexTree(s, i), EncodeEntry(k, mine))].Some?
    ensures Loc(IndexTree(s, i), EncodeEntry(k, theirs)) !in touched
  {
    EntryRoundTrip(k, mine);
    EntryRoundTrip(k, theirs);
    RangeIsExact(EncodeEntry(k, theirs), k);
    assert Covers(ProbeRange(IndexTree(s, i), k), Loc(IndexTree(s, i), EncodeEntry(k, theirs)));
  }

  lemma MergedUniqueIndex(fp: FloatUnit, s: Schema, base: Trees, now: Trees, touched: set<Loc>, writes: Writes<Datum>, ranges: set<Range>, i: IndexId)
    requires Meets(s, base, now, touched, writes, ranges) && RowCells(s, writes.Keys) && Probed(s, writes, ranges)
    requires MappingOk(s) && IndexesOk(fp, s, View(base, writes)) && IndexesOk(fp, s, now)
    requires RowsOk(fp, s, View(now, writes))
    requires i in s.catalog.indexes && s.catalog.indexes[i].unique
    ensures UniqueOk(fp, s, View(now, writes), i)
  {
    hide RowKey, Apply, Meets, RowCells, Probed, RowsOk, MappingOk, AgreesAt;
    var final := View(now, writes);
    forall id, other | KeyAt(fp, s, final, i, id).Some? && KeyAt(fp, s, final, i, id) == KeyAt(fp, s, final, i, other)
      ensures id == other
    {
      var k := KeyAt(fp, s, final, i, id).value;
      KeyedRowFits(fp, s, final, i, id);
      KeyedRowFits(fp, s, final, i, other);
      MergedRow(s, base, now, writes, OwnerTree(s, i), id);
      MergedRow(s, base, now, writes, OwnerTree(s, i), other);
      assert IndexOk(fp, s, View(base, writes), i) && IndexOk(fp, s, now, i);
      if Loc(OwnerTree(s, i), id) in writes && Loc(OwnerTree(s, i), other) !in writes {
        MergedUnique(fp, s, base, now, touched, writes, ranges, i, id, other, k);
      } else if Loc(OwnerTree(s, i), other) in writes && Loc(OwnerTree(s, i), id) !in writes {
        MergedUnique(fp, s, base, now, touched, writes, ranges, i, other, id, k);
      } else if Loc(OwnerTree(s, i), id) in writes {
        assert UniqueOk(fp, s, View(base, writes), i);
        assert KeyAt(fp, s, View(base, writes), i, id) == KeyAt(fp, s, View(base, writes), i, other) == Some(k);
      } else {
        assert UniqueOk(fp, s, now, i);
        assert KeyAt(fp, s, now, i, id) == KeyAt(fp, s, now, i, other) == Some(k);
      }
    }
  }

  /** Rows, indexes and uniqueness survive the merge. */
  lemma MergedIndexes(fp: FloatUnit, s: Schema, base: Trees, now: Trees, touched: set<Loc>, writes: Writes<Datum>, ranges: set<Range>)
    requires Meets(s, base, now, touched, writes, ranges) && RowCells(s, writes.Keys) && Probed(s, writes, ranges)
    requires MappingOk(s) && IndexesOk(fp, s, View(base, writes)) && IndexesOk(fp, s, now)
    ensures IndexesOk(fp, s, View(now, writes))
  {
    hide Apply, Meets, RowCells, Probed, RowsOk, MappingOk, AgreesAt, TreeShape, UniqueOk, View;
    MergedRows(fp, s, base, now, writes);
    forall i | i in s.catalog.indexes ensures IndexOk(fp, s, View(now, writes), i) {
      assert IndexOk(fp, s, View(base, writes), i) && IndexOk(fp, s, now, i);
      MergedShape(base, now, writes, IndexTree(s, i));
      forall id | FitsU32(id) ensures AgreesAt(fp, s, View(now, writes), i, id) {
        MergedAgrees(fp, s, base, now, touched, writes, ranges, i, id);
      }
    }
    forall i | i in s.catalog.indexes && s.catalog.indexes[i].unique ensures UniqueOk(fp, s, View(now, writes), i) {
      MergedUniqueIndex(fp, s, base, now, touched, writes, ranges, i);
    }
  }

  /** Nothing moved in a tree that was scanned whole. */
  lemma ScannedTreeStands(s: Schema, base: Trees, now: Trees, touched: set<Loc>, writes: Writes<Datum>, ranges: set<Range>, l: Loc)
    requires Meets(s, base, now, touched, writes, ranges) && Whole(l.tree) in ranges
    ensures View(now, writes).Get(l) == View(base, writes).Get(l)
  {
    WholeCovers(l);
  }

  /** A foreign key checked in the view holds after the merge. */
  lemma MergedForeign(fp: FloatUnit, s: Schema, base: Trees, now: Trees, touched: set<Loc>, writes: Writes<Datum>, ranges: set<Range>, key: ForeignKey)
    requires Meets(s, base, now, touched, writes, ranges) && MappingOk(s)
    requires ValidForeignKey(s.catalog, key) && SupportOf(s.catalog, key) in s.catalog.indexes
    requires IndexesOk(fp, s, View(base, writes)) && IndexesOk(fp, s, View(now, writes))
    requires ForeignOk(fp, s, View(base, writes), key)
    requires Whole(TableTree(s, key.table)) in ranges && Whole(IndexTree(s, SupportOf(s.catalog, key))) in ranges
    ensures ForeignOk(fp, s, View(now, writes), key)
  {
    hide Apply, Meets, RowsOk, MappingOk, UniqueOk, View, ValidForeignKey, KeyAt, SupportOf, TreeShape;
    var i := SupportOf(s.catalog, key);
    forall id | ChildKey(s, View(now, writes), key, id).Some?
      ensures exists parent :: KeyAt(fp, s, View(now, writes), i, parent) == ChildKey(s, View(now, writes), key, id)
    {
      ScannedTreeStands(s, base, now, touched, writes, ranges, Loc(TableTree(s, key.table), id));
      assert ChildKey(s, View(now, writes), key, id) == ChildKey(s, View(base, writes), key, id);
      var k := ChildKey(s, View(base, writes), key, id).value;
      var parent :| KeyAt(fp, s, View(base, writes), i, parent) == Some(k);
      KeyedRowFits(fp, s, View(base, writes), i, parent);
      EntryStands(fp, s, base, now, touched, writes, ranges, i, parent, k);
    }
  }

  lemma EntryStands(fp: FloatUnit, s: Schema, base: Trees, now: Trees, touched: set<Loc>, writes: Writes<Datum>, ranges: set<Range>,
                    i: IndexId, parent: ByteString, k: ByteString)
    requires Meets(s, base, now, touched, writes, ranges) && Whole(IndexTree(s, i)) in ranges
    requires i in s.catalog.indexes && FitsU32(parent) && FitsU32(k)
    requires IndexesOk(fp, s, View(base, writes)) && IndexesOk(fp, s, View(now, writes))
    requires KeyAt(fp, s, View(base, writes), i, parent) == Some(k)
    ensures KeyAt(fp, s, View(now, writes), i, parent) == Some(k)
  {
    hide Apply, Meets, RowsOk, UniqueOk, View, KeyAt, TreeShape, EncodeEntry;
    var l := Loc(IndexTree(s, i), EncodeEntry(k, parent));
    ScannedTreeStands(s, base, now, touched, writes, ranges, l);
    assert IndexOk(fp, s, View(base, writes), i) && IndexOk(fp, s, View(now, writes), i);
    Cells(View(base, writes), l);
    Cells(View(now, writes), l);
  }

  lemma SupportExists(c: Catalog, k: ConstraintId)
    requires Valid(c) && k in c.foreignKeys
    ensures ValidForeignKey(c, c.foreignKeys[k])
    ensures SupportOf(c, c.foreignKeys[k]) in c.indexes
    ensures c.indexes[SupportOf(c, c.foreignKeys[k])] == ForeignKeyIndex(c, c.foreignKeys[k]).value
  {
    hide ValidIndex, ValidTables, ValidNames, Supports;
  }

  lemma MergedSchema(fp: FloatUnit, s: Schema, now: Trees, writes: Writes<Datum>)
    requires HasSchema(now, s) && MappingOk(s) && RowCells(s, writes.Keys)
    ensures HasSchema(View(now, writes), s)
  {
    var final := View(now, writes);
    forall l | l in final.cells ensures l.tree in final.live && (l.tree == CATALOG_TREE ==> l == MARKER) {
      Cells(final, l);
      Cells(now, l);
      if l in writes {
        assert l.tree in s.tableTrees.Values + s.indexTrees.Values;
      }
    }
    assert MARKER !in writes;
  }

  /** A transaction that is ready to publish, and that nothing published since conflicts
      with, leaves a consistent image. */
  lemma RowCommitKeeps(fp: FloatUnit, s: Schema, base: Trees, now: Trees, touched: set<Loc>, writes: Writes<Datum>, ranges: set<Range>)
    requires ConsistentWith(fp, now, s) && Publishable(fp, s, base, writes, ranges)
    requires Meets(s, base, now, touched, writes, ranges)
    ensures ConsistentWith(fp, View(now, writes), s)
  {
    hide Apply, Meets, RowCells, Probed, MappingOk, IndexesOk, HasSchema, ForeignOk, ValidForeignKey, ValidIndex,
         ValidTables, ValidNames, View, SupportOf;
    MergedSchema(fp, s, now, writes);
    MergedIndexes(fp, s, base, now, touched, writes, ranges);
    if writes == map[] {
      assert View(now, writes) == now by { NothingStaged(now); }
    } else {
      forall k | k in s.catalog.foreignKeys ensures ForeignOk(fp, s, View(now, writes), s.catalog.foreignKeys[k]) {
        SupportExists(s.catalog, k);
        MergedForeign(fp, s, base, now, touched, writes, ranges, s.catalog.foreignKeys[k]);
      }
    }
  }

  lemma NothingStaged(now: Trees)
    ensures View(now, map[]) == now
  {
    assert View(now, map[]).cells == now.cells;
  }
}
