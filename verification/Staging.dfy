/** How one row and its index entries change step by step: between the first and the last
    write of an operation the image is consistent except for that row's identity. */
module Staging {
  import opened Common
  import opened Bytes
  import opened Catalogs
  import opened RowKeys
  import opened IndexEntries
  import opened Kernel
  import opened Store
  import opened Commits

  /** The images agree on every cell but one. */
  ghost predicate SameBut(a: Trees, b: Trees, l: Loc) {
    a.live == b.live && forall x :: x != l ==> a.Get(x) == b.Get(x)
  }

  lemma StageOne(base: Trees, writes: Writes<Datum>, l: Loc, d: Option<Datum>)
    ensures SameBut(View(base, writes), View(base, writes[l := d]), l)
    ensures View(base, writes[l := d]).Get(l) == d
  {
  }

  /** An index holds exactly this entry for an identity. */
  ghost predicate Holds(s: Schema, img: Trees, i: IndexId, id: ByteString, key: Option<ByteString>)
    requires FitsU32(id)
  {
    forall k :: FitsU32(k) ==> (Loc(IndexTree(s, i), EncodeEntry(k, id)) in img.cells <==> key == Some(k))
  }

  /** Everything but the row of one identity and its entries is in order. */
  ghost predicate OpenAt(fp: FloatUnit, s: Schema, img: Trees, t: TableId, id: ByteString) {
    && (forall u, x :: u in s.catalog.tables && Loc(TableTree(s, u), x) in img.cells && (u != t || x != id) ==>
          RowCellOk(fp, s, img, u, x))
    && (forall i :: i in s.catalog.indexes ==> OpenIndex(fp, s, img, t, id, i))
  }

  ghost predicate OpenIndex(fp: FloatUnit, s: Schema, img: Trees, t: TableId, id: ByteString, i: IndexId)
    requires i in s.catalog.indexes
  {
    var own := s.catalog.indexes[i].table == t;
    && TreeShape(img, IndexTree(s, i))
    && (forall x :: FitsU32(x) && (!own || x != id) ==> AgreesAt(fp, s, img, i, x))
    && (s.catalog.indexes[i].unique ==>
          forall x, y | (!own || (x != id && y != id)) && KeyAt(fp, s, img, i, x).Some? ::
            KeyAt(fp, s, img, i, x) == KeyAt(fp, s, img, i, y) ==> x == y)
  }

  lemma Open(fp: FloatUnit, s: Schema, img: Trees, t: TableId, id: ByteString)
    requires IndexesOk(fp, s, img) && FitsU32(id)
    ensures OpenAt(fp, s, img, t, id)
    ensures forall i :: i in s.catalog.indexes ==> Holds(s, img, i, id, KeyAt(fp, s, img, i, id))
  {
    hide RowOk, KeyAt, EncodeEntry, TreeShape;
    forall i | i in s.catalog.indexes ensures Holds(s, img, i, id, KeyAt(fp, s, img, i, id)) && OpenIndex(fp, s, img, t, id, i) {
      assert IndexOk(fp, s, img, i);
      assert AgreesAt(fp, s, img, i, id);
    }
  }

  /** No row of another identity has the key this identity's row has in a unique index. */
  ghost predicate Alone(fp: FloatUnit, s: Schema, img: Trees, i: IndexId, id: ByteString, key: Option<ByteString>) {
    key.Some? ==> forall x :: x != id ==> KeyAt(fp, s, img, i, x) != key
  }

  /** The operation is complete: the identity's entries are those its row implies. */
  lemma Close(fp: FloatUnit, s: Schema, img: Trees, t: TableId, id: ByteString)
    requires OpenAt(fp, s, img, t, id) && FitsU32(id) && t in s.catalog.tables
    requires Loc(TableTree(s, t), id) in img.cells ==> RowCellOk(fp, s, img, t, id)
    requires forall i :: i in s.catalog.indexes && s.catalog.indexes[i].table == t ==>
               && Holds(s, img, i, id, KeyAt(fp, s, img, i, id))
               && (s.catalog.indexes[i].unique ==> Alone(fp, s, img, i, id, KeyAt(fp, s, img, i, id)))
    ensures IndexesOk(fp, s, img)
  {
    hide RowOk, KeyAt, EncodeEntry, TreeShape;
    forall i | i in s.catalog.indexes
      ensures IndexOk(fp, s, img, i) && (s.catalog.indexes[i].unique ==> UniqueOk(fp, s, img, i))
    {
      assert OpenIndex(fp, s, img, t, id, i);
      forall x | FitsU32(x) ensures AgreesAt(fp, s, img, i, x) {
        if s.catalog.indexes[i].table == t && x == id {
          assert Holds(s, img, i, id, KeyAt(fp, s, img, i, id));
        }
      }
    }
  }

  // ---- changing the row itself ---------------------------------------------

  lemma KeyAtElsewhere(fp: FloatUnit, s: Schema, a: Trees, b: Trees, l: Loc, i: IndexId, x: ByteString)
    requires SameBut(a, b, l) && l != Loc(OwnerTree(s, i), x)
    ensures KeyAt(fp, s, a, i, x) == KeyAt(fp, s, b, i, x)
  {
    hide RowKey;
  }

  lemma RowChanged(fp: FloatUnit, s: Schema, a: Trees, b: Trees, t: TableId, id: ByteString)
    requires MappingOk(s) && t in s.catalog.tables && FitsU32(id)
    requires forall i :: i in s.catalog.indexes ==> s.catalog.indexes[i].table in s.catalog.tables
    requires OpenAt(fp, s, a, t, id) && SameBut(a, b, Loc(TableTree(s, t), id))
    ensures OpenAt(fp, s, b, t, id)
    ensures forall i, key :: i in s.catalog.indexes && Holds(s, a, i, id, key) ==> Holds(s, b, i, id, key)
  {
    var l := Loc(TableTree(s, t), id);
    forall i | i in s.catalog.indexes ensures IndexTree(s, i) != l.tree && OpenIndex(fp, s, b, t, id, i) {
      assert OpenIndex(fp, s, a, t, id, i);
      RowChangedIndex(fp, s, a, b, t, id, i);
    }
    forall u, x | u in s.catalog.tables && Loc(TableTree(s, u), x) in b.cells && (u != t || x != id)
      ensures RowCellOk(fp, s, b, u, x)
    {
      hide RowOk;
      Cells(a, Loc(TableTree(s, u), x));
      Cells(b, Loc(TableTree(s, u), x));
      assert RowCellOk(fp, s, a, u, x);
    }
    forall i, key | i in s.catalog.indexes && Holds(s, a, i, id, key) ensures Holds(s, b, i, id, key) {
      EntriesKept(s, a, b, l, i, id, key);
    }
  }

  lemma EntriesKept(s: Schema, a: Trees, b: Trees, l: Loc, i: IndexId, id: ByteString, key: Option<ByteString>)
    requires SameBut(a, b, l) && l.tree != IndexTree(s, i) && FitsU32(id) && Holds(s, a, i, id, key)
    ensures Holds(s, b, i, id, key)
  {
    hide EncodeEntry;
    forall k | FitsU32(k) ensures Loc(IndexTree(s, i), EncodeEntry(k, id)) in b.cells <==> key == Some(k) {
      Cells(a, Loc(IndexTree(s, i), EncodeEntry(k, id)));
      Cells(b, Loc(IndexTree(s, i), EncodeEntry(k, id)));
    }
  }

  lemma ShapeKept(a: Trees, b: Trees, l: Loc, tree: TreeId)
    requires SameBut(a, b, l) && TreeShape(a, tree)
    requires l.tree == tree ==> b.Get(l).Some? ==> WellFormed(l.key) && b.Get(l) == Some(Entry(DecodeEntry(l.key).value.1))
    ensures TreeShape(b, tree)
  {
    hide DecodeEntry;
    forall x | x in b.cells && x.tree == tree
      ensures WellFormed(x.key) && b.cells[x] == Entry(DecodeEntry(x.key).value.1)
    {
      Cells(a, x);
      Cells(b, x);
    }
  }

  lemma AgreesKept(fp: FloatUnit, s: Schema, a: Trees, b: Trees, l: Loc, i: IndexId, x: ByteString)
    requires SameBut(a, b, l) && FitsU32(x) && AgreesAt(fp, s, a, i, x)
    requires l != Loc(OwnerTree(s, i), x)
    requires l.tree == IndexTree(s, i) ==> WellFormed(l.key) && DecodeEntry(l.key).value.1 != x
    ensures AgreesAt(fp, s, b, i, x)
  {
    hide RowKey, KeyAt;
    KeyAtElsewhere(fp, s, a, b, l, i, x);
    forall k | FitsU32(k)
      ensures Loc(IndexTree(s, i), EncodeEntry(k, x)) in b.cells <==> KeyAt(fp, s, b, i, x) == Some(k)
    {
      EntryRoundTrip(k, x);
      Cells(a, Loc(IndexTree(s, i), EncodeEntry(k, x)));
      Cells(b, Loc(IndexTree(s, i), EncodeEntry(k, x)));
    }
  }

  lemma RowChangedIndex(fp: FloatUnit, s: Schema, a: Trees, b: Trees, t: TableId, id: ByteString, i: IndexId)
    requires MappingOk(s) && t in s.catalog.tables && FitsU32(id)
    requires i in s.catalog.indexes && s.catalog.indexes[i].table in s.catalog.tables
    requires OpenIndex(fp, s, a, t, id, i) && SameBut(a, b, Loc(TableTree(s, t), id))
    ensures OpenIndex(fp, s, b, t, id, i)
    ensures IndexTree(s, i) != TableTree(s, t)
  {
    hide KeyAt, AgreesAt, TreeShape;
    var l := Loc(TableTree(s, t), id);
    assert s.tableTrees[t] != s.indexTrees[i];
    var own := s.catalog.indexes[i].table == t;
    assert !own ==> OwnerTree(s, i) != l.tree;
    ShapeKept(a, b, l, IndexTree(s, i));
    forall x | !own || x != id ensures KeyAt(fp, s, a, i, x) == KeyAt(fp, s, b, i, x) {
      KeyAtElsewhere(fp, s, a, b, l, i, x);
    }
    forall x | FitsU32(x) && (!own || x != id) ensures AgreesAt(fp, s, b, i, x) {
      AgreesKept(fp, s, a, b, l, i, x);
    }
  }

  // ---- changing one entry --------------------------------------------------

  lemma EntryChangedIndex(fp: FloatUnit, s: Schema, a: Trees, b: Trees, t: TableId, id: ByteString, j: IndexId, k: ByteString, i: IndexId)
    requires MappingOk(s) && FitsU32(id) && FitsU32(k)
    requires j in s.catalog.indexes && s.catalog.indexes[j].table == t
    requires i in s.catalog.indexes && s.catalog.indexes[i].table in s.catalog.tables
    requires OpenIndex(fp, s, a, t, id, i) && SameBut(a, b, Loc(IndexTree(s, j), EncodeEntry(k, id)))
    requires b.Get(Loc(IndexTree(s, j), EncodeEntry(k, id))) in {None, Some(Entry(id))}
    ensures OpenIndex(fp, s, b, t, id, i)
  {
    hide KeyAt, AgreesAt, TreeShape;
    var l := Loc(IndexTree(s, j), EncodeEntry(k, id));
    EntryRoundTrip(k, id);
    ShapeKept(a, b, l, IndexTree(s, i));
    assert OwnerTree(s, i) != l.tree by {
      assert s.tableTrees[s.catalog.indexes[i].table] != s.indexTrees[j];
    }
    assert i != j ==> IndexTree(s, i) != l.tree;
    var own := s.catalog.indexes[i].table == t;
    forall x ensures KeyAt(fp, s, a, i, x) == KeyAt(fp, s, b, i, x) {
      KeyAtElsewhere(fp, s, a, b, l, i, x);
    }
    forall x | FitsU32(x) && (!own || x != id) ensures AgreesAt(fp, s, b, i, x) {
      AgreesKept(fp, s, a, b, l, i, x);
    }
  }

  /** Writing or deleting an entry of the open identity disturbs nothing else. */
  lemma EntryChanged(fp: FloatUnit, s: Schema, a: Trees, b: Trees, t: TableId, id: ByteString, j: IndexId, k: ByteString)
    requires MappingOk(s) && FitsU32(id) && FitsU32(k)
    requires forall i :: i in s.catalog.indexes ==> s.catalog.indexes[i].table in s.catalog.tables
    requires j in s.catalog.indexes && s.catalog.indexes[j].table == t
    requires OpenAt(fp, s, a, t, id) && SameBut(a, b, Loc(IndexTree(s, j), EncodeEntry(k, id)))
    requires b.Get(Loc(IndexTree(s, j), EncodeEntry(k, id))) in {None, Some(Entry(id))}
    ensures OpenAt(fp, s, b, t, id)
    ensures forall i, x :: i in s.catalog.indexes ==> KeyAt(fp, s, a, i, x) == KeyAt(fp, s, b, i, x)
    ensures forall i, key :: i in s.catalog.indexes && i != j && Holds(s, a, i, id, key) ==> Holds(s, b, i, id, key)
  {
    hide KeyAt, AgreesAt, TreeShape, EncodeEntry;
    var l := Loc(IndexTree(s, j), EncodeEntry(k, id));
    forall i | i in s.catalog.indexes
      ensures OpenIndex(fp, s, b, t, id, i) && OwnerTree(s, i) != l.tree && (i != j ==> IndexTree(s, i) != l.tree)
    {
      assert OpenIndex(fp, s, a, t, id, i);
      EntryChangedIndex(fp, s, a, b, t, id, j, k, i);
      assert s.tableTrees[s.catalog.indexes[i].table] != s.indexTrees[j];
    }
    forall i, x | i in s.catalog.indexes ensures KeyAt(fp, s, a, i, x) == KeyAt(fp, s, b, i, x) {
      KeyAtElsewhere(fp, s, a, b, l, i, x);
    }
    forall i, key | i in s.catalog.indexes && i != j && Holds(s, a, i, id, key) ensures Holds(s, b, i, id, key) {
      EntriesKept(s, a, b, l, i, id, key);
    }
    forall u, x | u in s.catalog.tables && Loc(TableTree(s, u), x) in b.cells && (u != t || x != id)
      ensures RowCellOk(fp, s, b, u, x)
    {
      hide RowOk;
      assert s.tableTrees[u] != s.indexTrees[j];
      Cells(a, Loc(TableTree(s, u), x));
      Cells(b, Loc(TableTree(s, u), x));
      assert RowCellOk(fp, s, a, u, x);
    }
  }

  /** Deleting the one entry an identity has leaves none; writing one into none leaves it. */
  lemma EntrySet(s: Schema, a: Trees, b: Trees, id: ByteString, j: IndexId, k: ByteString, before: Option<ByteString>)
    requires FitsU32(id) && FitsU32(k) && Holds(s, a, j, id, before)
    requires before.None? || before == Some(k)
    requires SameBut(a, b, Loc(IndexTree(s, j), EncodeEntry(k, id)))
    ensures Holds(s, b, j, id, if b.Get(Loc(IndexTree(s, j), EncodeEntry(k, id))).Some? then Some(k) else None)
  {
    var l := Loc(IndexTree(s, j), EncodeEntry(k, id));
    forall q | FitsU32(q)
      ensures Loc(IndexTree(s, j), EncodeEntry(q, id)) in b.cells <==> (b.Get(l).Some? && q == k)
    {
      EntryRoundTrip(q, id);
      EntryRoundTrip(k, id);
      Cells(a, Loc(IndexTree(s, j), EncodeEntry(q, id)));
      Cells(b, Loc(IndexTree(s, j), EncodeEntry(q, id)));
    }
  }

  /** A key no entry carries is the key of no other row. */
  lemma NoEntryNoRow(fp: FloatUnit, s: Schema, img: Trees, t: TableId, id: ByteString, i: IndexId, k: ByteString)
    requires MappingOk(s) && OpenAt(fp, s, img, t, id) && FitsU32(k)
    requires i in s.catalog.indexes && s.catalog.indexes[i].table == t && t in s.catalog.tables
    requires forall l :: l in img.cells && l.tree == IndexTree(s, i) && WellFormed(l.key) ==> DecodeEntry(l.key).value.0 != k
    ensures Alone(fp, s, img, i, id, Some(k))
  {
    hide RowKey, DecodeEntry;
    assert OpenIndex(fp, s, img, t, id, i);
    forall x | x != id ensures KeyAt(fp, s, img, i, x) != Some(k) {
      if KeyAt(fp, s, img, i, x) == Some(k) {
        OpenRowFits(fp, s, img, t, id, i, x);
        assert AgreesAt(fp, s, img, i, x);
        EntryRoundTrip(k, x);
        assert false;
      }
    }
  }

  lemma OpenRowFits(fp: FloatUnit, s: Schema, img: Trees, t: TableId, id: ByteString, i: IndexId, x: ByteString)
    requires MappingOk(s) && OpenAt(fp, s, img, t, id) && x != id
    requires i in s.catalog.indexes && s.catalog.indexes[i].table == t && t in s.catalog.tables
    requires KeyAt(fp, s, img, i, x).Some?
    ensures FitsU32(x)
  {
    hide Materialize, IndexKey, IdentityOk, ValidStored, OpenIndex;
    assert RowCellOk(fp, s, img, t, x);
  }

  // ---- staged writes -------------------------------------------------------

  ghost predicate SameRows(s: Schema, a: Trees, b: Trees) {
    forall l: Loc :: l.tree in s.tableTrees.Values ==> a.Get(l) == b.Get(l)
  }

  /** In the middle of an operation on one row: everything else is in order, and its entries
      may be written before the row itself. */
  ghost predicate Midway(fp: FloatUnit, s: Schema, base: Trees, writes: Writes<Datum>, ranges: set<Range>, t: TableId, id: ByteString) {
    && MappingOk(s)
    && (forall i :: i in s.catalog.indexes ==> s.catalog.indexes[i].table in s.catalog.tables)
    && t in s.catalog.tables
    && FitsU32(id)
    && OpenAt(fp, s, View(base, writes), t, id)
    && RowCells(s, writes.Keys + {Loc(TableTree(s, t), id)})
    && Probed(s, writes, ranges)
  }

  lemma EntryCells(s: Schema, cells: set<Loc>, t: TableId, id: ByteString, j: IndexId, k: ByteString)
    requires MappingOk(s) && FitsU32(id) && FitsU32(k)
    requires j in s.catalog.indexes && s.catalog.indexes[j].table == t
    requires RowCells(s, cells) && Loc(TableTree(s, t), id) in cells
    ensures RowCells(s, cells + {Loc(IndexTree(s, j), EncodeEntry(k, id))})
  {
    EntryRoundTrip(k, id);
    hide EncodeEntry, DecodeEntry;
    var l := Loc(IndexTree(s, j), EncodeEntry(k, id));
    forall i, x | i in s.catalog.indexes && x in cells + {l} && x.tree == IndexTree(s, i)
      ensures WellFormed(x.key) && Loc(OwnerTree(s, i), DecodeEntry(x.key).value.1) in cells + {l}
    {
      if x == l {
        assert i == j;
      }
    }
  }

  lemma ProbedEntry(s: Schema, writes: Writes<Datum>, ranges: set<Range>, id: ByteString, j: IndexId, k: ByteString, d: Option<Datum>)
    requires MappingOk(s) && FitsU32(id) && FitsU32(k) && j in s.catalog.indexes
    requires Probed(s, writes, ranges)
    requires d.Some? && s.catalog.indexes[j].unique ==> ProbeRange(IndexTree(s, j), k) in ranges
    ensures Probed(s, writes[Loc(IndexTree(s, j), EncodeEntry(k, id)) := d], ranges)
  {
    EntryRoundTrip(k, id);
    hide EncodeEntry, DecodeEntry;
  }

  /** One step of staging the entries of a row. */
  lemma EntryStaged(fp: FloatUnit, s: Schema, base: Trees, writes: Writes<Datum>, ranges: set<Range>, t: TableId, id: ByteString,
                    j: IndexId, k: ByteString, put: bool, before: Option<ByteString>)
    requires Midway(fp, s, base, writes, ranges, t, id) && FitsU32(k)
    requires j in s.catalog.indexes && s.catalog.indexes[j].table == t
    requires Holds(s, View(base, writes), j, id, before) && (before.None? || before == Some(k))
    requires put && s.catalog.indexes[j].unique ==> ProbeRange(IndexTree(s, j), k) in ranges
    ensures var writes' := writes[Loc(IndexTree(s, j), EncodeEntry(k, id)) := if put then Some(Entry(id)) else None];
            && Midway(fp, s, base, writes', ranges, t, id)
            && (forall i, x :: i in s.catalog.indexes ==> KeyAt(fp, s, View(base, writes), i, x) == KeyAt(fp, s, View(base, writes'), i, x))
            && (forall i, key :: i in s.catalog.indexes && i != j && Holds(s, View(base, writes), i, id, key) ==> Holds(s, View(base, writes'), i, id, key))
            && Holds(s, View(base, writes'), j, id, if put then Some(k) else None)
            && SameRows(s, View(base, writes), View(base, writes'))
  {
    hide KeyAt, OpenAt, EncodeEntry, Holds, View, RowCells, Probed;
    var l := Loc(IndexTree(s, j), EncodeEntry(k, id));
    var d := if put then Some(Entry(id)) else None;
    var writes' := writes[l := d];
    StageOne(base, writes, l, d);
    EntryChanged(fp, s, View(base, writes), View(base, writes'), t, id, j, k);
    EntrySet(s, View(base, writes), View(base, writes'), id, j, k, before);
    EntryCells(s, writes.Keys + {Loc(TableTree(s, t), id)}, t, id, j, k);
    assert writes'.Keys + {Loc(TableTree(s, t), id)} == writes.Keys + {Loc(TableTree(s, t), id)} + {l};
    ProbedEntry(s, writes, ranges, id, j, k, d);
    assert l.tree !in s.tableTrees.Values;
  }

  /** Writing the row itself, between its old entries and its new ones. */
  lemma RowStaged(fp: FloatUnit, s: Schema, base: Trees, writes: Writes<Datum>, ranges: set<Range>, t: TableId, id: ByteString, d: Option<Datum>)
    requires Midway(fp, s, base, writes, ranges, t, id)
    ensures var writes' := writes[Loc(TableTree(s, t), id) := d];
            && Midway(fp, s, base, writes', ranges, t, id)
            && (forall i, key :: i in s.catalog.indexes && Holds(s, View(base, writes), i, id, key) ==> Holds(s, View(base, writes'), i, id, key))
            && View(base, writes').Get(Loc(TableTree(s, t), id)) == d
            && SameBut(View(base, writes), View(base, writes'), Loc(TableTree(s, t), id))
  {
    hide OpenAt, Holds, View, RowCells;
    var l := Loc(TableTree(s, t), id);
    var writes' := writes[l := d];
    StageOne(base, writes, l, d);
    RowChanged(fp, s, View(base, writes), View(base, writes'), t, id);
    assert writes'.Keys + {l} == writes.Keys + {l};
    assert Probed(s, writes', ranges) by { RowIsNoEntry(s, writes, ranges, t, id, d); }
  }

  lemma RowIsNoEntry(s: Schema, writes: Writes<Datum>, ranges: set<Range>, t: TableId, id: ByteString, d: Option<Datum>)
    requires MappingOk(s) && t in s.catalog.tables && Probed(s, writes, ranges)
    ensures Probed(s, writes[Loc(TableTree(s, t), id) := d], ranges)
  {
    hide WellFormed, DecodeEntry;
    forall i | i in s.catalog.indexes ensures IndexTree(s, i) != TableTree(s, t) {
      assert s.tableTrees[t] != s.indexTrees[i];
    }
  }
}
