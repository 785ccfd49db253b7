/** How staging the index entries of one row proceeds, from the first entry to the last,
    and what a whole row operation leaves behind. */
module RowOperations {
  import opened Common
  import opened Bytes
  import opened Values
  import opened Rows
  import opened Catalogs
  import opened RowKeys
  import opened IndexEntries
  import opened Kernel
  import opened Store
  import opened Commits
  import opened Staging
  import opened Cascades

  /** All rows but one are as they were. */
  ghost predicate RowsSameBut(s: Schema, a: Trees, b: Trees, l: Loc) {
    forall x: Loc :: x.tree in s.tableTrees.Values && x != l ==> a.Get(x) == b.Get(x)
  }

  /** How far the entries of one row have been staged. */
  ghost predicate EntriesStaged(fp: FloatUnit, s: Schema, img: Trees, t: TableId, id: ByteString, row: seq<Value>, insert: bool, todo: set<IndexId>)
    requires FitsU32(id)
  {
    forall i :: i in s.catalog.indexes && s.catalog.indexes[i].table == t ==>
      if i in todo then Holds(s, img, i, id, if insert then None else RowKey(fp, s, i, Some(row)))
      else EntryStagedFor(fp, s, img, i, id, row, insert)
  }

  ghost predicate EntryStagedFor(fp: FloatUnit, s: Schema, img: Trees, i: IndexId, id: ByteString, row: seq<Value>, insert: bool)
    requires FitsU32(id) && i in s.catalog.indexes
  {
    && RowKeyFits(fp, s, i, row)
    && Holds(s, img, i, id, if insert then RowKey(fp, s, i, Some(row)) else None)
    && (insert && s.catalog.indexes[i].unique ==> Alone(fp, s, img, i, id, RowKey(fp, s, i, Some(row))))
  }

  predicate RowKeyFits(fp: FloatUnit, s: Schema, i: IndexId, row: seq<Value>) {
    && i in s.catalog.indexes && s.catalog.indexes[i].table in s.catalog.tables
    && AllStorable(row)
    && KeyFits(IndexKey(fp, s.catalog.tables[s.catalog.indexes[i].table], s.catalog.indexes[i], row))
  }

  /** For a row with every column present, the key under an index is computed from it as it is. */
  lemma RowKeyOfFull(fp: FloatUnit, s: Schema, i: IndexId, row: seq<Value>)
    requires i in s.catalog.indexes && s.catalog.indexes[i].table in s.catalog.tables
    requires AllStorable(row) && |row| == |s.catalog.tables[s.catalog.indexes[i].table].columns|
    ensures var key := IndexKey(fp, s.catalog.tables[s.catalog.indexes[i].table], s.catalog.indexes[i], row);
            RowKey(fp, s, i, Some(row)) == if KeyFits(key) then key.value else None
  {
    hide IndexKey;
    var def := s.catalog.tables[s.catalog.indexes[i].table];
    assert Materialize(def, row) == row;
  }

  /** Staging one entry leaves the other indexes' entries, every row and every key alone. */
  ghost predicate EntriesElsewhere(fp: FloatUnit, s: Schema, a: Trees, b: Trees, i: IndexId, id: ByteString)
    requires FitsU32(id)
  {
    && (forall j, key :: j in s.catalog.indexes && j != i && Holds(s, a, j, id, key) ==> Holds(s, b, j, id, key))
    && KeysKept(fp, s, a, b)
  }

  ghost predicate KeysKept(fp: FloatUnit, s: Schema, a: Trees, b: Trees) {
    && SameRows(s, a, b)
    && (forall i, x :: i in s.catalog.indexes ==> KeyAt(fp, s, a, i, x) == KeyAt(fp, s, b, i, x))
  }

  lemma AloneKept(fp: FloatUnit, s: Schema, a: Trees, b: Trees, i: IndexId, id: ByteString, key: Option<ByteString>)
    requires KeysKept(fp, s, a, b) && i in s.catalog.indexes && Alone(fp, s, a, i, id, key)
    ensures Alone(fp, s, b, i, id, key)
  {
    hide KeyAt;
  }

  /** Another row already has the key this row would have. */
  ghost predicate TakenBy(fp: FloatUnit, s: Schema, img: Trees, i: IndexId, id: ByteString, row: seq<Value>) {
    RowKey(fp, s, i, Some(row)).Some? && exists x :: x != id && KeyAt(fp, s, img, i, x) == RowKey(fp, s, i, Some(row))
  }

  lemma TakenBefore(fp: FloatUnit, s: Schema, a: Trees, b: Trees, i: IndexId, id: ByteString, row: seq<Value>)
    requires KeysKept(fp, s, a, b) && TakenBy(fp, s, b, i, id, row) && i in s.catalog.indexes
    ensures TakenBy(fp, s, a, i, id, row)
  {
    hide KeyAt, RowKey;
    var x :| x != id && KeyAt(fp, s, b, i, x) == RowKey(fp, s, i, Some(row));
    assert KeyAt(fp, s, a, i, x) == RowKey(fp, s, i, Some(row));
  }

  /** A row with this key could not be entered into the index. */
  ghost predicate Refused(fp: FloatUnit, s: Schema, img: Trees, i: IndexId, id: ByteString, row: seq<Value>, insert: bool) {
    && i in s.catalog.indexes
    && (!RowKeyFits(fp, s, i, row) || (insert && s.catalog.indexes[i].unique && TakenBy(fp, s, img, i, id, row)))
  }

  /** Every index of the table takes the row: its key can be formed and, where keys are unique,
      no other row has it. */
  ghost predicate Acceptable(fp: FloatUnit, s: Schema, img: Trees, t: TableId, id: ByteString, row: seq<Value>) {
    forall i :: i in s.catalog.indexes && s.catalog.indexes[i].table == t ==> !Refused(fp, s, img, i, id, row, true)
  }

  lemma RefusedEarlier(fp: FloatUnit, s: Schema, a: Trees, b: Trees, i: IndexId, id: ByteString, row: seq<Value>, insert: bool)
    requires KeysKept(fp, s, a, b) && Refused(fp, s, b, i, id, row, insert)
    ensures Refused(fp, s, a, i, id, row, insert)
    ensures TakenBy(fp, s, b, i, id, row) ==> TakenBy(fp, s, a, i, id, row)
  {
    hide KeysKept, TakenBy, RowKeyFits;
    if TakenBy(fp, s, b, i, id, row) {
      TakenBefore(fp, s, a, b, i, id, row);
    }
  }

  /** What was refused once the row was written would have been refused before. */
  lemma RefusedBefore(fp: FloatUnit, s: Schema, a: Trees, b: Trees, c: Trees, t: TableId, id: ByteString, i: IndexId, row: seq<Value>)
    requires KeysKept(fp, s, a, b) && SameBut(b, c, Loc(TableTree(s, t), id))
    requires i in s.catalog.indexes && s.catalog.indexes[i].table == t && Refused(fp, s, c, i, id, row, true)
    ensures !Acceptable(fp, s, a, t, id, row)
  {
    hide KeyAt, RowKey, RowKeyFits, TakenBy, KeysKept, SameBut;
    if RowKeyFits(fp, s, i, row) {
      TakenElsewhere(fp, s, b, c, t, id, i, row);
      TakenBefore(fp, s, a, b, i, id, row);
    }
    assert Refused(fp, s, a, i, id, row, true);
  }

  /** A row whose entries are all in place was acceptable from the start. */
  lemma StagedIsAcceptable(fp: FloatUnit, s: Schema, a: Trees, b: Trees, c: Trees, d: Trees, t: TableId, id: ByteString, row: seq<Value>)
    requires KeysKept(fp, s, a, b) && SameBut(b, c, Loc(TableTree(s, t), id)) && KeysKept(fp, s, c, d)
    requires FitsU32(id) && EntriesStaged(fp, s, d, t, id, row, true, {})
    ensures Acceptable(fp, s, a, t, id, row)
  {
    hide KeyAt, RowKey, RowKeyFits, Holds, SameRows, SameBut;
    forall i | i in s.catalog.indexes && s.catalog.indexes[i].table == t ensures !Refused(fp, s, a, i, id, row, true) {
      assert EntryStagedFor(fp, s, d, i, id, row, true);
      if s.catalog.indexes[i].unique && TakenBy(fp, s, a, i, id, row) {
        var x :| x != id && KeyAt(fp, s, a, i, x) == RowKey(fp, s, i, Some(row));
        KeyAtElsewhere(fp, s, b, c, Loc(TableTree(s, t), id), i, x);
        assert false;
      }
    }
  }

  lemma TakenByEntry(fp: FloatUnit, s: Schema, base: Trees, writes: Writes<Datum>, ranges: set<Range>, t: TableId, id: ByteString,
                     i: IndexId, row: seq<Value>, l: Loc)
    requires Midway(fp, s, base, writes, ranges, t, id)
    requires i in s.catalog.indexes && s.catalog.indexes[i].table == t
    requires Holds(s, View(base, writes), i, id, None)
    requires l in View(base, writes).cells && l.tree == IndexTree(s, i) && WellFormed(l.key)
    requires RowKey(fp, s, i, Some(row)) == Some(DecodeEntry(l.key).value.0)
    ensures TakenBy(fp, s, View(base, writes), i, id, row)
  {
    hide KeyAt, RowKey, View, RowCells, Probed;
    EntryReadBack(l.key);
    var (values, x) := DecodeEntry(l.key).value;
    assert x != id;
    assert OpenIndex(fp, s, View(base, writes), t, id, i);
    assert AgreesAt(fp, s, View(base, writes), i, x);
  }

  lemma MidwayShape(fp: FloatUnit, s: Schema, base: Trees, writes: Writes<Datum>, ranges: set<Range>, t: TableId, id: ByteString, i: IndexId)
    requires Midway(fp, s, base, writes, ranges, t, id) && i in s.catalog.indexes
    ensures TreeShape(View(base, writes), IndexTree(s, i))
  {
    hide View, KeyAt;
    assert OpenIndex(fp, s, View(base, writes), t, id, i);
  }

  lemma MoreRanges(fp: FloatUnit, s: Schema, base: Trees, writes: Writes<Datum>, ranges: set<Range>, more: set<Range>, t: TableId, id: ByteString)
    requires Midway(fp, s, base, writes, ranges, t, id) && ranges <= more
    ensures Midway(fp, s, base, writes, more, t, id)
  {
    hide View, OpenAt, RowCells;
  }

  lemma StagedStep(fp: FloatUnit, s: Schema, a: Trees, b: Trees, t: TableId, id: ByteString, row: seq<Value>, insert: bool, todo: set<IndexId>, i: IndexId)
    requires FitsU32(id) && i in s.catalog.indexes
    requires EntriesStaged(fp, s, a, t, id, row, insert, todo)
    requires EntriesElsewhere(fp, s, a, b, i, id) && EntryStagedFor(fp, s, b, i, id, row, insert)
    ensures EntriesStaged(fp, s, b, t, id, row, insert, todo - {i})
  {
    hide Holds, KeyAt, RowKey, RowKeyFits;
    forall j | j in s.catalog.indexes && s.catalog.indexes[j].table == t && j != i && j !in todo
      ensures EntryStagedFor(fp, s, b, j, id, row, insert)
    {
      assert EntryStagedFor(fp, s, a, j, id, row, insert);
    }
  }

  lemma KeysKeptAgain(fp: FloatUnit, s: Schema, a: Trees, b: Trees, c: Trees, i: IndexId, id: ByteString)
    requires FitsU32(id) && KeysKept(fp, s, a, b) && EntriesElsewhere(fp, s, b, c, i, id)
    ensures KeysKept(fp, s, a, c)
  {
    hide Holds, KeyAt;
  }

  lemma MidwayFacts(fp: FloatUnit, s: Schema, base: Trees, writes: Writes<Datum>, ranges: set<Range>, t: TableId, id: ByteString)
    requires Midway(fp, s, base, writes, ranges, t, id)
    ensures KeysKept(fp, s, View(base, writes), View(base, writes))
    ensures t in s.catalog.tables && FitsU32(id) && MappingOk(s)
  {
  }

  // ---- one row operation ---------------------------------------------------

  /** Where a row is stored. */
  function Target(s: Schema, t: TableId, key: ByteString, row: seq<Value>): Option<Loc> {
    if t !in s.catalog.tables || |key| != 16 || !AllStorable(row) then None
    else match IdentityBytes(s.catalog, s.catalog.tables[t], key, row)
         case Ok(id) => Some(Loc(TableTree(s, t), id))
         case Err(_) => None
  }

  /** The row is stored whole where its identity says, and no other row changed. */
  ghost predicate Placed(s: Schema, a: Trees, b: Trees, t: TableId, key: ByteString, row: seq<Value>) {
    && Target(s, t, key, row).Some?
    && ValidRow(s.catalog.tables[t], row)
    && b.Get(Target(s, t, key, row).value) == Some(Row(row))
    && RowsSameBut(s, a, b, Target(s, t, key, row).value)
  }

  /** When a row may be written under an identity. */
  ghost predicate Writable(fp: FloatUnit, s: Schema, img: Trees, t: TableId, key: ByteString, row: seq<Value>) {
    && Target(s, t, key, row).Some?
    && ValidRow(s.catalog.tables[t], row)
    && FitsU32(Target(s, t, key, row).value.key)
    && Acceptable(fp, s, img, t, Target(s, t, key, row).value.key, row)
  }

  /** A unique index of the table already holds the row's key for another identity. */
  ghost predicate Violates(fp: FloatUnit, s: Schema, img: Trees, t: TableId, i: IndexId, id: ByteString, row: seq<Value>) {
    && i in s.catalog.indexes && s.catalog.indexes[i].table == t && s.catalog.indexes[i].unique
    && TakenBy(fp, s, img, i, id, row)
  }

  lemma IdentityErrors(c: Catalog, t: Table, key: ByteString, row: seq<Value>)
    requires |key| == 16 && AllStorable(row) && IdentityBytes(c, t, key, row).Err?
    ensures IdentityBytes(c, t, key, row).error == InvalidState
  {
    hide EncodeLegacyKey, EncodeIdentity, ToBE;
    if t.id in c.primaryKeys && LookupAll(t, row, c.primaryKeys[t.id]).Err? {
      LookupAllErrors(t, row, c.primaryKeys[t.id]);
    }
  }

  lemma {:induction false} LookupAllErrors(t: Table, row: seq<Value>, ids: seq<ColumnId>)
    requires LookupAll(t, row, ids).Err?
    ensures LookupAll(t, row, ids).error == InvalidState
  {
    if Lookup(t, row, ids[0]).Ok? {
      LookupAllErrors(t, row, ids[1..]);
    }
  }

  /** A row stored under the identity computed from it is found under its own identity. */
  lemma IdentityIsOk(c: Catalog, t: Table, key: ByteString, row: seq<Value>, id: ByteString)
    requires |key| == 16 && AllStorable(row) && IdentityBytes(c, t, key, row) == Ok(id)
    ensures IdentityOk(c, t, id, row)
  {
    hide EncodeLegacyKey, EncodeIdentity, ToBE, DecodeLegacyKey, LookupAll;
    if t.id !in c.primaryKeys {
      LegacyKeyRoundTrip(t.id, key);
    }
  }

  lemma EnterRow(fp: FloatUnit, s: Schema, base: Trees, writes: Writes<Datum>, ranges: set<Range>, t: TableId, id: ByteString)
    requires ConsistentWith(fp, base, s) && StagedOk(fp, s, base, writes, ranges)
    requires t in s.catalog.tables && FitsU32(id)
    ensures Midway(fp, s, base, writes, ranges, t, id) && Exactly(MARKER) in ranges
    ensures forall i :: i in s.catalog.indexes ==> Holds(s, View(base, writes), i, id, KeyAt(fp, s, View(base, writes), i, id))
  {
    hide View, IndexesOk, HasSchema, ForeignKeysOk, OpenAt, Holds, KeyAt, Probed, ValidForeignKey, ValidTables, ValidNames;
    Open(fp, s, View(base, writes), t, id);
    RowCellAdded(s, writes.Keys, t, id);
  }

  lemma RowCellAdded(s: Schema, cells: set<Loc>, t: TableId, id: ByteString)
    requires MappingOk(s) && t in s.catalog.tables && RowCells(s, cells)
    ensures RowCells(s, cells + {Loc(TableTree(s, t), id)})
  {
    hide DecodeEntry;
    var l := Loc(TableTree(s, t), id);
    assert l.tree in s.tableTrees.Values;
    forall i, x | i in s.catalog.indexes && x in cells + {l} && x.tree == IndexTree(s, i)
      ensures WellFormed(x.key) && Loc(OwnerTree(s, i), DecodeEntry(x.key).value.1) in cells + {l}
    {
      assert s.tableTrees[t] != s.indexTrees[i];
    }
  }

  lemma NothingStagedYet(fp: FloatUnit, s: Schema, a: Trees, b: Trees, t: TableId, id: ByteString, row: seq<Value>)
    requires FitsU32(id) && a.Get(Loc(TableTree(s, t), id)).None?
    requires forall i :: i in s.catalog.indexes ==> Holds(s, a, i, id, KeyAt(fp, s, a, i, id))
    requires forall i, key :: i in s.catalog.indexes && Holds(s, a, i, id, key) ==> Holds(s, b, i, id, key)
    ensures EntriesStaged(fp, s, b, t, id, row, true, s.catalog.indexes.Keys)
  {
    hide Holds;
    forall i | i in s.catalog.indexes && s.catalog.indexes[i].table == t ensures Holds(s, b, i, id, None) {
      assert KeyAt(fp, s, a, i, id) == None;
      assert Holds(s, a, i, id, KeyAt(fp, s, a, i, id));
    }
  }

  lemma TakenElsewhere(fp: FloatUnit, s: Schema, a: Trees, b: Trees, t: TableId, id: ByteString, i: IndexId, row: seq<Value>)
    requires SameBut(a, b, Loc(TableTree(s, t), id))
    requires i in s.catalog.indexes && s.catalog.indexes[i].table == t && TakenBy(fp, s, b, i, id, row)
    ensures TakenBy(fp, s, a, i, id, row)
  {
    hide KeyAt, RowKey;
    var x :| x != id && KeyAt(fp, s, b, i, x) == RowKey(fp, s, i, Some(row));
    KeyAtElsewhere(fp, s, a, b, Loc(TableTree(s, t), id), i, x);
  }

  lemma RowsKept(fp: FloatUnit, s: Schema, a: Trees, b: Trees, c: Trees, t: TableId, id: ByteString, d: Option<Datum>)
    requires SameBut(a, b, Loc(TableTree(s, t), id)) && KeysKept(fp, s, b, c)
    requires b.Get(Loc(TableTree(s, t), id)) == d && MappingOk(s) && t in s.catalog.tables
    ensures RowsSameBut(s, a, c, Loc(TableTree(s, t), id))
    ensures c.Get(Loc(TableTree(s, t), id)) == d
  {
    hide KeyAt;
    assert Loc(TableTree(s, t), id).tree in s.tableTrees.Values;
  }

  /** The operation has written the row and its entries: the transaction is in order again. */
  lemma FinishWritten(fp: FloatUnit, s: Schema, base: Trees, writes: Writes<Datum>, ranges: set<Range>, t: TableId, id: ByteString, row: seq<Value>)
    requires Midway(fp, s, base, writes, ranges, t, id) && Loc(TableTree(s, t), id) in writes
    requires View(base, writes).Get(Loc(TableTree(s, t), id)) == Some(Row(row))
    requires ValidRow(s.catalog.tables[t], row) && AllStorable(row) && IdentityOk(s.catalog, s.catalog.tables[t], id, row)
    requires EntriesStaged(fp, s, View(base, writes), t, id, row, true, {}) && Exactly(MARKER) in ranges
    ensures StagedOk(fp, s, base, writes, ranges)
  {
    hide View, OpenAt, Holds, Alone, Probed, RowCells, IndexKey, RowKey, IdentityOk, IndexesOk;
    var img, l := View(base, writes), Loc(TableTree(s, t), id);
    assert writes.Keys + {l} == writes.Keys;
    var def := s.catalog.tables[t];
    assert Materialize(def, row) == row;
    Cells(img, l);
    forall i | i in s.catalog.indexes && s.catalog.indexes[i].table == t
      ensures KeyFits(IndexKey(fp, def, s.catalog.indexes[i], row))
      ensures Holds(s, img, i, id, KeyAt(fp, s, img, i, id))
      ensures s.catalog.indexes[i].unique ==> Alone(fp, s, img, i, id, KeyAt(fp, s, img, i, id))
    {
      assert EntryStagedFor(fp, s, img, i, id, row, true);
    }
    Close(fp, s, img, t, id);
  }

  lemma FinishRemoved(fp: FloatUnit, s: Schema, base: Trees, writes: Writes<Datum>, ranges: set<Range>, t: TableId, id: ByteString, row: seq<Value>)
    requires Midway(fp, s, base, writes, ranges, t, id) && Loc(TableTree(s, t), id) in writes
    requires View(base, writes).Get(Loc(TableTree(s, t), id)).None?
    requires EntriesStaged(fp, s, View(base, writes), t, id, row, false, {}) && Exactly(MARKER) in ranges
    ensures StagedOk(fp, s, base, writes, ranges)
  {
    hide View, OpenAt, Holds, Alone, Probed, RowCells, IndexKey, RowKeyFits, IndexesOk;
    var img, l := View(base, writes), Loc(TableTree(s, t), id);
    assert writes.Keys + {l} == writes.Keys;
    Cells(img, l);
    forall i | i in s.catalog.indexes && s.catalog.indexes[i].table == t
      ensures Holds(s, img, i, id, KeyAt(fp, s, img, i, id))
      ensures Alone(fp, s, img, i, id, KeyAt(fp, s, img, i, id))
    {
      assert EntryStagedFor(fp, s, img, i, id, row, false);
      assert KeyAt(fp, s, img, i, id) == None;
      AloneNone(fp, s, img, i, id);
    }
    Close(fp, s, img, t, id);
  }

  lemma AloneNone(fp: FloatUnit, s: Schema, img: Trees, i: IndexId, id: ByteString)
    ensures Alone(fp, s, img, i, id, None)
  {
  }

  /** Every cell of a table tree holds a readable row under a fitting identity. */
  lemma StoredRow(fp: FloatUnit, s: Schema, base: Trees, writes: Writes<Datum>, ranges: set<Range>, t: TableId, id: ByteString)
    requires StagedOk(fp, s, base, writes, ranges) && t in s.catalog.tables
    requires Loc(TableTree(s, t), id) in View(base, writes).cells
    ensures var cell := View(base, writes).cells[Loc(TableTree(s, t), id)];
            && FitsU32(id) && cell.Row? && AllStorable(cell.values) && |cell.values| <= |s.catalog.tables[t].columns|
            && AllStorable(Materialize(s.catalog.tables[t], cell.values))
            && IdentityOk(s.catalog, s.catalog.tables[t], id, Materialize(s.catalog.tables[t], cell.values))
            && FullRow(s, View(base, writes), RowRef(t, id)) == Some(Materialize(s.catalog.tables[t], cell.values))
            && forall i :: i in s.catalog.indexes && s.catalog.indexes[i].table == t ==>
                 RowKeyFits(fp, s, i, Materialize(s.catalog.tables[t], cell.values))
  {
    hide View, Probed, RowCells, IndexKey, IdentityOk;
    assert RowCellOk(fp, s, View(base, writes), t, id);
  }

  lemma EntriesOfStored(fp: FloatUnit, s: Schema, a: Trees, b: Trees, t: TableId, id: ByteString)
    requires FitsU32(id) && t in s.catalog.tables && RowAt(a, TableTree(s, t), id).Some?
    requires var stored := RowAt(a, TableTree(s, t), id).value; AllStorable(stored) && |stored| <= |s.catalog.tables[t].columns|
    requires forall i :: i in s.catalog.indexes ==> Holds(s, a, i, id, KeyAt(fp, s, a, i, id))
    requires forall i, key :: i in s.catalog.indexes && Holds(s, a, i, id, key) ==> Holds(s, b, i, id, key)
    ensures var row := Materialize(s.catalog.tables[t], RowAt(a, TableTree(s, t), id).value);
            EntriesStaged(fp, s, b, t, id, row, false, s.catalog.indexes.Keys)
  {
    hide Holds, IndexKey, Materialize;
    var def, stored := s.catalog.tables[t], RowAt(a, TableTree(s, t), id).value;
    var row := Materialize(def, stored);
    MaterializeAgain(def, stored);
    forall i | i in s.catalog.indexes && s.catalog.indexes[i].table == t ensures Holds(s, b, i, id, RowKey(fp, s, i, Some(row))) {
      assert KeyAt(fp, s, a, i, id) == RowKey(fp, s, i, Some(row));
      assert Holds(s, a, i, id, KeyAt(fp, s, a, i, id));
    }
  }

  lemma MaterializeAgain(t: Table, row: seq<Value>)
    requires |row| <= |t.columns|
    ensures Materialize(t, Materialize(t, row)) == Materialize(t, row)
  {
  }

  lemma EntriesGone(fp: FloatUnit, s: Schema, a: Trees, b: Trees, t: TableId, id: ByteString, previous: seq<Value>, row: seq<Value>)
    requires FitsU32(id) && EntriesStaged(fp, s, a, t, id, previous, false, {})
    requires forall i, key :: i in s.catalog.indexes && Holds(s, a, i, id, key) ==> Holds(s, b, i, id, key)
    ensures EntriesStaged(fp, s, b, t, id, row, true, s.catalog.indexes.Keys)
  {
    hide Holds, RowKeyFits, Alone;
    forall i | i in s.catalog.indexes && s.catalog.indexes[i].table == t ensures Holds(s, b, i, id, None) {
      assert EntryStagedFor(fp, s, a, i, id, previous, false);
      assert Holds(s, a, i, id, None);
    }
  }

  lemma RowsKeptBefore(fp: FloatUnit, s: Schema, a: Trees, b: Trees, c: Trees, l: Loc)
    requires KeysKept(fp, s, a, b) && RowsSameBut(s, b, c, l)
    ensures RowsSameBut(s, a, c, l)
  {
    hide KeyAt;
  }
}
