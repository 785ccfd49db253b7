/** What a foreign key means for rows, and how it is checked through an index: the index
    lists the referenced columns in its own order, and compares encoded keys. */
module References {
  import opened Common
  import opened Bytes
  import opened Values
  import opened Catalogs
  import opened RowKeys
  import opened IndexEntries
  import opened Kernel
  import opened Store
  import opened Commits
  import opened Cascades
  import CatalogLaws

  function SupportParts(c: Catalog, key: ForeignKey): seq<KeyPart>
    requires ValidForeignKey(c, key)
  {
    ForeignKeyIndex(c, key).value.parts
  }

  /** Component `i` of the supporting index is pair `j` of the foreign key. */
  predicate SamePair(c: Catalog, key: ForeignKey, i: nat, j: nat)
    requires ValidForeignKey(c, key) && i < |SupportParts(c, key)| && j < |key.columns|
  {
    && SupportParts(c, key)[i].column == key.referencedColumns[j]
    && ChildColumns(SupportParts(c, key), key)[i] == key.columns[j]
  }

  predicate InKey(c: Catalog, key: ForeignKey, i: nat)
    requires ValidForeignKey(c, key) && i < |SupportParts(c, key)|
  {
    exists j :: 0 <= j < |key.columns| && SamePair(c, key, i, j)
  }

  predicate InSupport(c: Catalog, key: ForeignKey, j: nat)
    requires ValidForeignKey(c, key) && j < |key.columns|
  {
    exists i :: 0 <= i < |SupportParts(c, key)| && SamePair(c, key, i, j)
  }

  /** The supporting index and the foreign key pair the same columns. */
  lemma PairsMatch(c: Catalog, k: ConstraintId)
    requires Valid(c) && k in c.foreignKeys && ValidForeignKey(c, c.foreignKeys[k])
    ensures var key := c.foreignKeys[k];
            && |SupportParts(c, key)| == |key.columns|
            && (forall i :: 0 <= i < |key.columns| ==> InKey(c, key, i))
            && (forall j :: 0 <= j < |key.columns| ==> InSupport(c, key, j))
  {
    hide Valid, ValidPair, ChildColumns, PairedColumn;
    var key := c.foreignKeys[k];
    var parts := SupportParts(c, key);
    forall i | 0 <= i < |parts| ensures InKey(c, key, i) {
      var id := ChildColumns(parts, key)[i];
      var j :| 0 <= j < |key.columns| && key.referencedColumns[j] == parts[i].column && key.columns[j] == id;
      assert SamePair(c, key, i, j);
    }
    CatalogLaws.SupportIsPermutation(c, k);
    CatalogLaws.PlainKeyColumns(parts);
    forall j | 0 <= j < |key.columns| ensures InSupport(c, key, j) {
      assert key.referencedColumns[j] in multiset(KeyColumns(parts));
      var i :| 0 <= i < |parts| && KeyColumns(parts)[i] == key.referencedColumns[j];
      assert InKey(c, key, i);
      var m :| 0 <= m < |key.columns| && SamePair(c, key, i, m);
      assert m == j;
    }
  }

  lemma {:induction false} LookupAllOk(t: Table, row: seq<Value>, ids: seq<ColumnId>)
    requires |row| == |t.columns| && forall i :: 0 <= i < |ids| ==> ColumnAt(t, ids[i]).Some?
    ensures LookupAll(t, row, ids).Ok?
  {
    if ids != [] {
      LookupAllOk(t, row, ids[1..]);
    }
  }

  lemma {:induction false} PlainKeyValues(fp: FloatUnit, t: Table, parts: seq<KeyPart>, row: seq<Value>)
    requires AllStorable(row) && forall i :: 0 <= i < |parts| ==> parts[i].Plain?
    requires LookupAll(t, row, KeyColumns(parts)).Ok?
    ensures var values := LookupAll(t, row, KeyColumns(parts)).value;
            KeyValues(fp, t, parts, row) == Ok(if NoNulls(values) then Some(values) else None)
  {
    hide Lookup;
    if parts != [] {
      var values := LookupAll(t, row, KeyColumns(parts)).value;
      assert KeyColumns(parts) == [parts[0].column] + KeyColumns(parts[1..]);
      assert KeyColumns(parts)[1..] == KeyColumns(parts[1..]);
      PlainKeyValues(fp, t, parts[1..], row);
      assert values == [values[0]] + values[1..];
      assert NoNulls(values) <==> !values[0].Null? && NoNulls(values[1..]);
    }
  }

  /** The tuples compared through the index, in the index's order. */
  function ChildTuple(s: Schema, key: ForeignKey, row: seq<Value>): Result<seq<Value>>
    requires ValidForeignKey(s.catalog, key)
  {
    LookupAll(s.catalog.tables[key.table], row, ChildColumns(SupportParts(s.catalog, key), key))
  }

  function ParentTuple(s: Schema, key: ForeignKey, row: seq<Value>): Result<seq<Value>>
    requires ValidForeignKey(s.catalog, key)
  {
    LookupAll(s.catalog.tables[key.referencedTable], row, KeyColumns(SupportParts(s.catalog, key)))
  }

  lemma TuplesExist(s: Schema, k: ConstraintId, child: seq<Value>)
    requires Valid(s.catalog) && k in s.catalog.foreignKeys && ValidForeignKey(s.catalog, s.catalog.foreignKeys[k])
    requires |child| == |s.catalog.tables[s.catalog.foreignKeys[k].table].columns|
    ensures ChildTuple(s, s.catalog.foreignKeys[k], child).Ok?
    ensures LookupAll(s.catalog.tables[s.catalog.foreignKeys[k].table], child, s.catalog.foreignKeys[k].columns).Ok?
  {
    hide Valid, LookupAll, ChildColumns, ColumnAt;
    var key := s.catalog.foreignKeys[k];
    PairsMatch(s.catalog, k);
    var def, ids := s.catalog.tables[key.table], ChildColumns(SupportParts(s.catalog, key), key);
    forall i | 0 <= i < |ids| ensures ColumnAt(def, ids[i]).Some? {
      assert InKey(s.catalog, key, i);
      var j :| 0 <= j < |key.columns| && SamePair(s.catalog, key, i, j);
      assert ValidPair(def, s.catalog.tables[key.referencedTable], key, j);
    }
    LookupAllOk(def, child, ids);
    forall j | 0 <= j < |key.columns| ensures ColumnAt(def, key.columns[j]).Some? {
      assert ValidPair(def, s.catalog.tables[key.referencedTable], key, j);
    }
    LookupAllOk(def, child, key.columns);
  }

  lemma ParentTupleExists(s: Schema, k: ConstraintId, parent: seq<Value>)
    requires Valid(s.catalog) && k in s.catalog.foreignKeys && ValidForeignKey(s.catalog, s.catalog.foreignKeys[k])
    requires |parent| == |s.catalog.tables[s.catalog.foreignKeys[k].referencedTable].columns|
    ensures ParentTuple(s, s.catalog.foreignKeys[k], parent).Ok?
    ensures LookupAll(s.catalog.tables[s.catalog.foreignKeys[k].referencedTable], parent, s.catalog.foreignKeys[k].referencedColumns).Ok?
  {
    hide Valid, LookupAll, ColumnAt, KeyColumns;
    var key := s.catalog.foreignKeys[k];
    var def, parts := s.catalog.tables[key.referencedTable], SupportParts(s.catalog, key);
    CatalogLaws.PlainKeyColumns(parts);
    forall j | 0 <= j < |key.columns| ensures ColumnAt(def, key.referencedColumns[j]).Some? {
      assert ValidPair(s.catalog.tables[key.table], def, key, j);
    }
    forall i | 0 <= i < |parts| ensures ColumnAt(def, KeyColumns(parts)[i]).Some? {
      assert parts[i].column in key.referencedColumns;
    }
    LookupAllOk(def, parent, key.referencedColumns);
    LookupAllOk(def, parent, KeyColumns(parts));
  }

  /** Comparing tuples in the index's order decides whether one row refers to another. */
  lemma TuplesDecide(s: Schema, k: ConstraintId, child: seq<Value>, parent: seq<Value>)
    requires Valid(s.catalog) && k in s.catalog.foreignKeys && ValidForeignKey(s.catalog, s.catalog.foreignKeys[k])
    requires |child| == |s.catalog.tables[s.catalog.foreignKeys[k].table].columns|
    requires |parent| == |s.catalog.tables[s.catalog.foreignKeys[k].referencedTable].columns|
    ensures var key := s.catalog.foreignKeys[k];
            var c, p := ChildTuple(s, key, child), ParentTuple(s, key, parent);
            && c.Ok? && p.Ok?
            && (Refers(s, key, child, parent) <==> NoNulls(c.value) && NoNulls(p.value) && AllSqlEq(c.value, p.value))
            && var d := LookupAll(s.catalog.tables[key.table], child, key.columns);
               d.Ok? && (NoNulls(d.value) <==> NoNulls(c.value))
  {
    hide Valid, LookupAll, ValidForeignKey, SqlEq, NoNulls, AllSqlEq, ChildTuple, ParentTuple;
    var key := s.catalog.foreignKeys[k];
    ForeignKeyWidths(s.catalog, key);
    TuplesExist(s, k, child);
    ParentTupleExists(s, k, parent);
    TuplesReorder(s, k, child, parent);
  }

  lemma TuplesReorder(s: Schema, k: ConstraintId, child: seq<Value>, parent: seq<Value>)
    requires Valid(s.catalog) && k in s.catalog.foreignKeys && ValidForeignKey(s.catalog, s.catalog.foreignKeys[k])
    requires var key := s.catalog.foreignKeys[k];
             && ChildTuple(s, key, child).Ok? && ParentTuple(s, key, parent).Ok?
             && LookupAll(s.catalog.tables[key.table], child, key.columns).Ok?
             && LookupAll(s.catalog.tables[key.referencedTable], parent, key.referencedColumns).Ok?
    ensures var key := s.catalog.foreignKeys[k];
            var c, p := ChildTuple(s, key, child).value, ParentTuple(s, key, parent).value;
            var d := LookupAll(s.catalog.tables[key.table], child, key.columns).value;
            var q := LookupAll(s.catalog.tables[key.referencedTable], parent, key.referencedColumns).value;
            (NoNulls(c) <==> NoNulls(d)) && (NoNulls(p) <==> NoNulls(q)) && (AllSqlEq(c, p) <==> AllSqlEq(d, q))
  {
    hide Valid, ValidForeignKey, Lookup, LookupAll, SqlEq, SamePair, InKey, InSupport, SupportParts, NoNulls, AllSqlEq, ChildTuple, ParentTuple;
    var key := s.catalog.foreignKeys[k];
    ForeignKeyWidths(s.catalog, key);
    PairsMatch(s.catalog, k);
    TupleWidths(s, key, child, parent);
    var c, p := ChildTuple(s, key, child).value, ParentTuple(s, key, parent).value;
    var d := LookupAll(s.catalog.tables[key.table], child, key.columns).value;
    var q := LookupAll(s.catalog.tables[key.referencedTable], parent, key.referencedColumns).value;
    forall i, j | 0 <= i < |key.columns| && 0 <= j < |key.columns| && SamePair(s.catalog, key, i, j)
      ensures c[i] == d[j] && p[i] == q[j]
    {
      SamePairValues(s, key, child, parent, i, j);
    }
    Reordered(s.catalog, key, c, p, d, q);
  }

  lemma ForeignKeyWidths(c: Catalog, key: ForeignKey)
    requires ValidForeignKey(c, key)
    ensures |key.columns| == |key.referencedColumns| == |SupportParts(c, key)| == |KeyColumns(SupportParts(c, key))|
    ensures key.table in c.tables && key.referencedTable in c.tables && ForeignKeyIndex(c, key).Some?
  {
    CatalogLaws.PlainKeyColumns(SupportParts(c, key));
  }

  lemma SamePairValues(s: Schema, key: ForeignKey, child: seq<Value>, parent: seq<Value>, i: nat, j: nat)
    requires ValidForeignKey(s.catalog, key) && i < |SupportParts(s.catalog, key)| && j < |key.columns|
    requires SamePair(s.catalog, key, i, j) && ChildTuple(s, key, child).Ok? && ParentTuple(s, key, parent).Ok?
    requires LookupAll(s.catalog.tables[key.table], child, key.columns).Ok?
    requires LookupAll(s.catalog.tables[key.referencedTable], parent, key.referencedColumns).Ok?
    ensures |ParentTuple(s, key, parent).value| == |SupportParts(s.catalog, key)| == |ChildTuple(s, key, child).value|
    ensures ChildTuple(s, key, child).value[i] == LookupAll(s.catalog.tables[key.table], child, key.columns).value[j]
    ensures ParentTuple(s, key, parent).value[i] == LookupAll(s.catalog.tables[key.referencedTable], parent, key.referencedColumns).value[j]
  {
    hide LookupAll, Lookup, ChildColumns;
    CatalogLaws.PlainKeyColumns(SupportParts(s.catalog, key));
  }

  /** Equality of tuples does not depend on the order in which pairs are listed. */
  lemma Reordered(cat: Catalog, key: ForeignKey, c: seq<Value>, p: seq<Value>, d: seq<Value>, q: seq<Value>)
    requires ValidForeignKey(cat, key) && |SupportParts(cat, key)| == |key.columns|
    requires |c| == |p| == |d| == |q| == |key.columns|
    requires forall i :: 0 <= i < |key.columns| ==> InKey(cat, key, i)
    requires forall j :: 0 <= j < |key.columns| ==> InSupport(cat, key, j)
    requires forall i, j :: 0 <= i < |key.columns| && 0 <= j < |key.columns| && SamePair(cat, key, i, j) ==> c[i] == d[j] && p[i] == q[j]
    ensures NoNulls(c) <==> NoNulls(d)
    ensures NoNulls(p) <==> NoNulls(q)
    ensures AllSqlEq(c, p) <==> AllSqlEq(d, q)
  {
    hide SamePair, NoNulls, AllSqlEq, ValidForeignKey, SupportParts;
    forall i | 0 <= i < |c| ensures PairIn(c[i], p[i], d, q) {
      assert InKey(cat, key, i);
      var j :| 0 <= j < |key.columns| && SamePair(cat, key, i, j);
      assert c[i] == d[j];
    }
    forall j | 0 <= j < |d| ensures PairIn(d[j], q[j], c, p) {
      assert InSupport(cat, key, j);
      var i :| 0 <= i < |key.columns| && SamePair(cat, key, i, j);
      assert c[i] == d[j];
    }
    PairsAmong(c, p, d, q);
    PairsAmong(d, q, c, p);
  }

  predicate PairIn(x: Value, y: Value, d: seq<Value>, q: seq<Value>)
    requires |d| == |q|
  {
    exists j :: 0 <= j < |d| && x == d[j] && y == q[j]
  }

  /** What holds of all pairs of one list holds of pairs taken from it. */
  lemma PairsAmong(c: seq<Value>, p: seq<Value>, d: seq<Value>, q: seq<Value>)
    requires |c| == |p| && |d| == |q|
    requires forall i :: 0 <= i < |c| ==> PairIn(c[i], p[i], d, q)
    ensures NoNulls(d) ==> NoNulls(c)
    ensures NoNulls(q) ==> NoNulls(p)
    ensures |c| == |d| && AllSqlEq(d, q) ==> AllSqlEq(c, p)
  {
    hide SqlEq;
    forall i | 0 <= i < |c|
      ensures (NoNulls(d) ==> !c[i].Null?) && (NoNulls(q) ==> !p[i].Null?) && (AllSqlEq(d, q) ==> SqlEq(c[i], p[i]))
    {
      assert PairIn(c[i], p[i], d, q);
      var j :| 0 <= j < |d| && c[i] == d[j] && p[i] == q[j];
    }
  }

  lemma StoredWidth(t: Table, row: seq<Value>)
    requires ValidStored(t, row)
    ensures |row| <= |t.columns|
  {
  }

  // ---- keys of rows --------------------------------------------------------

  /** The key of a parent row under the supporting index. */
  lemma ParentKey(fp: FloatUnit, s: Schema, img: Trees, k: ConstraintId, id: ByteString)
    requires Valid(s.catalog) && MappingOk(s) && RowsOk(fp, s, img)
    requires k in s.catalog.foreignKeys && ValidForeignKey(s.catalog, s.catalog.foreignKeys[k])
    ensures var key := s.catalog.foreignKeys[k];
            var row := FullRow(s, img, RowRef(key.referencedTable, id));
            KeyAt(fp, s, img, SupportOf(s.catalog, key), id) ==
            if row.None? then None
            else ParentTupleKey(s, key, row.value)
  {
    hide Valid, MappingOk, Materialize, IdentityOk, ValidStored, CompositeKey, LookupAll, KeyValues;
    var key := s.catalog.foreignKeys[k];
    var i := SupportOf(s.catalog, key);
    SupportExists(s.catalog, k);
    var index := s.catalog.indexes[i];
    assert index.table == key.referencedTable;
    Cells(img, Loc(TableTree(s, index.table), id));
    if Loc(TableTree(s, index.table), id) in img.cells {
      assert RowCellOk(fp, s, img, index.table, id);
      StoredWidth(s.catalog.tables[index.table], img.cells[Loc(TableTree(s, index.table), id)].values);
      var row := FullRow(s, img, RowRef(key.referencedTable, id)).value;
      ParentTupleExists(s, k, row);
      PlainKeyValues(fp, s.catalog.tables[index.table], index.parts, row);
    }
  }

  function ParentTupleKey(s: Schema, key: ForeignKey, row: seq<Value>): Option<ByteString>
    requires ValidForeignKey(s.catalog, key)
  {
    match ParentTuple(s, key, row)
    case Err(_) => None
    case Ok(values) => if NoNulls(values) && AllStorable(values) then Some(CompositeKey(values)) else None
  }

  /** Every row whose tuple has no NULL refers to some row of the referenced table. */
  ghost predicate Resolved(s: Schema, img: Trees, k: ConstraintId)
    requires Valid(s.catalog) && k in s.catalog.foreignKeys
  {
    var key := s.catalog.foreignKeys[k];
    forall id :: HasReference(s, img, key, id) ==>
      exists parent :: RefersTo(s, img, key, id, parent)
  }

  predicate HasReference(s: Schema, img: Trees, key: ForeignKey, id: ByteString) {
    && FullRow(s, img, RowRef(key.table, id)).Some?
    && var values := LookupAll(s.catalog.tables[key.table], FullRow(s, img, RowRef(key.table, id)).value, key.columns);
       values.Ok? && NoNulls(values.value)
  }

  predicate RefersTo(s: Schema, img: Trees, key: ForeignKey, id: ByteString, parent: ByteString) {
    && FullRow(s, img, RowRef(key.table, id)).Some?
    && FullRow(s, img, RowRef(key.referencedTable, parent)).Some?
    && Refers(s, key, FullRow(s, img, RowRef(key.table, id)).value, FullRow(s, img, RowRef(key.referencedTable, parent)).value)
  }

  lemma ChildKeyOf(fp: FloatUnit, s: Schema, img: Trees, k: ConstraintId, id: ByteString)
    requires Valid(s.catalog) && MappingOk(s) && RowsOk(fp, s, img)
    requires k in s.catalog.foreignKeys && ValidForeignKey(s.catalog, s.catalog.foreignKeys[k])
    ensures var key := s.catalog.foreignKeys[k];
            var row := FullRow(s, img, RowRef(key.table, id));
            if row.None? then ChildKey(s, img, key, id).None?
            else
              var values := ChildTuple(s, key, row.value);
              && values.Ok? && AllStorable(values.value)
              && ChildKey(s, img, key, id) == if NoNulls(values.value) then Some(CompositeKey(values.value)) else None
  {
    hide Valid, MappingOk, Materialize, IdentityOk, ValidStored, CompositeKey, LookupAll, IndexKey, Supports;
    var key := s.catalog.foreignKeys[k];
    assert key.table in s.catalog.tables;
    if Loc(TableTree(s, key.table), id) in img.cells {
      assert RowCellOk(fp, s, img, key.table, id);
      StoredWidth(s.catalog.tables[key.table], img.cells[Loc(TableTree(s, key.table), id)].values);
      TuplesExist(s, k, FullRow(s, img, RowRef(key.table, id)).value);
    }
  }

  /** One child key is found in the index exactly for the rows the child refers to. */
  lemma KeyMeansReference(fp: FloatUnit, s: Schema, img: Trees, k: ConstraintId, id: ByteString, parent: ByteString)
    requires Valid(s.catalog) && MappingOk(s) && RowsOk(fp, s, img)
    requires k in s.catalog.foreignKeys && ValidForeignKey(s.catalog, s.catalog.foreignKeys[k])
    ensures var key := s.catalog.foreignKeys[k];
            && (ChildKey(s, img, key, id).Some? <==> HasReference(s, img, key, id))
            && (ChildKey(s, img, key, id).Some? && KeyAt(fp, s, img, SupportOf(s.catalog, key), parent) == ChildKey(s, img, key, id)
                <==> RefersTo(s, img, key, id, parent))
  {
    hide Valid, MappingOk, Materialize, CompositeKey, LookupAll, Supports, ChildKey, KeyAt, FullRow, RowsOk, AllSqlEq,
         ChildTuple, ParentTuple, ValidForeignKey;
    var key := s.catalog.foreignKeys[k];
    ChildKeyOf(fp, s, img, k, id);
    ParentKey(fp, s, img, k, parent);
    var row, other := FullRow(s, img, RowRef(key.table, id)), FullRow(s, img, RowRef(key.referencedTable, parent));
    if row.Some? {
      TuplesExist(s, k, row.value);
      ChildReferenceIff(s, k, row.value);
      if other.Some? {
        ParentStorable(fp, s, img, k, parent);
        TuplesDecide(s, k, row.value, other.value);
        TupleWidths(s, key, row.value, other.value);
        CompositeKeyDecidesEquality(ChildTuple(s, key, row.value).value, ParentTuple(s, key, other.value).value);
      }
    }
  }

  lemma TupleWidths(s: Schema, key: ForeignKey, child: seq<Value>, parent: seq<Value>)
    requires ValidForeignKey(s.catalog, key) && ChildTuple(s, key, child).Ok? && ParentTuple(s, key, parent).Ok?
    ensures |ChildTuple(s, key, child).value| == |ParentTuple(s, key, parent).value| == |key.columns|
  {
    hide LookupAll;
    ForeignKeyWidths(s.catalog, key);
  }

  lemma ParentStorable(fp: FloatUnit, s: Schema, img: Trees, k: ConstraintId, parent: ByteString)
    requires Valid(s.catalog) && MappingOk(s) && RowsOk(fp, s, img)
    requires k in s.catalog.foreignKeys && ValidForeignKey(s.catalog, s.catalog.foreignKeys[k])
    requires FullRow(s, img, RowRef(s.catalog.foreignKeys[k].referencedTable, parent)).Some?
    ensures var key := s.catalog.foreignKeys[k];
            var row := FullRow(s, img, RowRef(key.referencedTable, parent)).value;
            ParentTuple(s, key, row).Ok? && AllStorable(ParentTuple(s, key, row).value)
  {
    hide Valid, MappingOk, Materialize, IdentityOk, ValidStored, LookupAll, IndexKey;
    var key := s.catalog.foreignKeys[k];
    assert RowCellOk(fp, s, img, key.referencedTable, parent);
    ParentTupleExists(s, k, FullRow(s, img, RowRef(key.referencedTable, parent)).value);
  }

  lemma ChildReferenceIff(s: Schema, k: ConstraintId, child: seq<Value>)
    requires Valid(s.catalog) && k in s.catalog.foreignKeys && ValidForeignKey(s.catalog, s.catalog.foreignKeys[k])
    requires |child| == |s.catalog.tables[s.catalog.foreignKeys[k].table].columns|
    ensures var key := s.catalog.foreignKeys[k];
            var values := LookupAll(s.catalog.tables[key.table], child, key.columns);
            && values.Ok? && ChildTuple(s, key, child).Ok?
            && (NoNulls(values.value) <==> NoNulls(ChildTuple(s, key, child).value))
  {
    hide Valid, LookupAll, Supports;
    var key := s.catalog.foreignKeys[k];
    TuplesExist(s, k, child);
    TuplesDecide(s, k, child, seq(|s.catalog.tables[key.referencedTable].columns|, _ => Null));
  }

  /** What is checked through index entries is what a foreign key promises about rows. */
  lemma ForeignKeyMeans(fp: FloatUnit, s: Schema, img: Trees, k: ConstraintId)
    requires Valid(s.catalog) && MappingOk(s) && RowsOk(fp, s, img) && k in s.catalog.foreignKeys
    ensures ForeignOk(fp, s, img, s.catalog.foreignKeys[k]) <==> Resolved(s, img, k)
  {
    hide Valid, MappingOk, ChildKey, KeyAt, RowsOk, ValidForeignKey, HasReference, RefersTo, SupportOf;
    SupportExists(s.catalog, k);
    var key := s.catalog.foreignKeys[k];
    var support := SupportOf(s.catalog, key);
    if ForeignOk(fp, s, img, key) {
      forall id | HasReference(s, img, key, id) ensures exists parent :: RefersTo(s, img, key, id, parent) {
        KeyMeansReference(fp, s, img, k, id, id);
        var parent :| KeyAt(fp, s, img, support, parent) == ChildKey(s, img, key, id);
        KeyMeansReference(fp, s, img, k, id, parent);
      }
    }
    if Resolved(s, img, k) {
      forall id | ChildKey(s, img, key, id).Some?
        ensures exists parent :: KeyAt(fp, s, img, support, parent) == ChildKey(s, img, key, id)
      {
        KeyMeansReference(fp, s, img, k, id, id);
        var parent :| RefersTo(s, img, key, id, parent);
        KeyMeansReference(fp, s, img, k, id, parent);
      }
    }
  }

  // ---- validation as it is made ---------------------------------------------

  /** The value keys found in an index tree. */
  function ReferencedValues(img: Trees, tree: TreeId): set<ByteString> {
    set l | l in img.cells && l.tree == tree && WellFormed(l.key) :: DecodeEntry(l.key).value.0
  }

  lemma ReferencedMeans(fp: FloatUnit, s: Schema, img: Trees, i: IndexId, k: ByteString)
    requires MappingOk(s) && RowsOk(fp, s, img) && IndexOk(fp, s, img, i)
    ensures k in ReferencedValues(img, IndexTree(s, i)) <==> exists parent :: KeyAt(fp, s, img, i, parent) == Some(k)
  {
    hide MappingOk, RowsOk, KeyAt, DecodeEntry, EncodeEntry;
    if k in ReferencedValues(img, IndexTree(s, i)) {
      var l :| l in img.cells && l.tree == IndexTree(s, i) && WellFormed(l.key) && DecodeEntry(l.key).value.0 == k;
      EntryReadBack(l.key);
      var parent := DecodeEntry(l.key).value.1;
      assert AgreesAt(fp, s, img, i, parent);
      assert KeyAt(fp, s, img, i, parent) == Some(k);
    }
    if parent :| KeyAt(fp, s, img, i, parent) == Some(k) {
      KeyedRowFits(fp, s, img, i, parent);
      assert AgreesAt(fp, s, img, i, parent);
      EntryRoundTrip(k, parent);
      assert Loc(IndexTree(s, i), EncodeEntry(k, parent)) in img.cells;
    }
  }

  /** Child tuples have the types of the referenced columns, so their key can be formed. */
  lemma ChildTyped(s: Schema, k: ConstraintId, child: seq<Value>)
    requires Valid(s.catalog) && k in s.catalog.foreignKeys && ValidForeignKey(s.catalog, s.catalog.foreignKeys[k])
    requires ValidRow(s.catalog.tables[s.catalog.foreignKeys[k].table], child) && AllStorable(child)
    ensures var key := s.catalog.foreignKeys[k];
            var values := ChildTuple(s, key, child);
            && values.Ok? && AllStorable(values.value)
            && IndexValuesKey(s.catalog.tables[key.referencedTable], ForeignKeyIndex(s.catalog, key).value, values.value)
               == Ok(CompositeKey(values.value))
  {
    hide Valid, LookupAll, ChildColumns, CompositeKey, SamePair;
    var key := s.catalog.foreignKeys[k];
    TuplesExist(s, k, child);
    PairsMatch(s.catalog, k);
    var values := ChildTuple(s, key, child).value;
    var def, parent := s.catalog.tables[key.table], s.catalog.tables[key.referencedTable];
    forall i | 0 <= i < |values| ensures FitsPart(parent, SupportParts(s.catalog, key)[i], values[i]) {
      assert InKey(s.catalog, key, i);
      var j :| 0 <= j < |key.columns| && SamePair(s.catalog, key, i, j);
      ChildPartFits(s, key, child, values, i, j);
    }
  }

  lemma ChildPartFits(s: Schema, key: ForeignKey, child: seq<Value>, values: seq<Value>, i: nat, j: nat)
    requires ValidForeignKey(s.catalog, key) && ValidRow(s.catalog.tables[key.table], child)
    requires ChildTuple(s, key, child) == Ok(values) && i < |values| == |SupportParts(s.catalog, key)| && j < |key.columns|
    requires SamePair(s.catalog, key, i, j)
    ensures FitsPart(s.catalog.tables[key.referencedTable], SupportParts(s.catalog, key)[i], values[i])
  {
    hide LookupAll, ChildColumns, HasType;
    assert ValidPair(s.catalog.tables[key.table], s.catalog.tables[key.referencedTable], key, j);
    assert Lookup(s.catalog.tables[key.table], child, key.columns[j]) == Ok(values[i]);
  }

  /** The children still to be checked are the only ones that may not resolve. */
  ghost predicate CheckedBut(fp: FloatUnit, s: Schema, img: Trees, k: ConstraintId, todo: set<ByteString>)
    requires k in s.catalog.foreignKeys && ValidForeignKey(s.catalog, s.catalog.foreignKeys[k])
  {
    var key := s.catalog.foreignKeys[k];
    forall id :: ChildKey(s, img, key, id).Some? && id !in todo ==>
      ChildKey(s, img, key, id).value in ReferencedValues(img, IndexTree(s, SupportOf(s.catalog, key)))
  }

  lemma CheckedAll(fp: FloatUnit, s: Schema, img: Trees, k: ConstraintId)
    requires Valid(s.catalog) && MappingOk(s) && IndexesOk(fp, s, img) && k in s.catalog.foreignKeys
    requires ValidForeignKey(s.catalog, s.catalog.foreignKeys[k])
    ensures CheckedBut(fp, s, img, k, {}) <==> ForeignOk(fp, s, img, s.catalog.foreignKeys[k])
  {
    hide Valid, MappingOk, RowsOk, KeyAt, ChildKey, ReferencedValues, ValidForeignKey, SupportOf, IndexOk, UniqueOk;
    var key := s.catalog.foreignKeys[k];
    SupportExists(s.catalog, k);
    var i := SupportOf(s.catalog, key);
    forall id | ChildKey(s, img, key, id).Some?
      ensures ChildKey(s, img, key, id).value in ReferencedValues(img, IndexTree(s, i))
              <==> exists parent :: KeyAt(fp, s, img, i, parent) == ChildKey(s, img, key, id)
    {
      ReferencedMeans(fp, s, img, i, ChildKey(s, img, key, id).value);
    }
  }

  lemma CheckedStart(fp: FloatUnit, s: Schema, img: Trees, k: ConstraintId, todo: set<ByteString>)
    requires k in s.catalog.foreignKeys && ValidForeignKey(s.catalog, s.catalog.foreignKeys[k])
    requires forall l :: l in img.cells && l.tree == TableTree(s, s.catalog.foreignKeys[k].table) ==> l.key in todo
    ensures CheckedBut(fp, s, img, k, todo)
  {
    hide ReferencedValues, LookupAll, ChildColumns, CompositeKey;
  }

  lemma CheckedOne(fp: FloatUnit, s: Schema, img: Trees, k: ConstraintId, todo: set<ByteString>, id: ByteString)
    requires k in s.catalog.foreignKeys && ValidForeignKey(s.catalog, s.catalog.foreignKeys[k])
    requires CheckedBut(fp, s, img, k, todo)
    requires var key := s.catalog.foreignKeys[k];
             ChildKey(s, img, key, id).Some? ==>
               ChildKey(s, img, key, id).value in ReferencedValues(img, IndexTree(s, SupportOf(s.catalog, key)))
    ensures CheckedBut(fp, s, img, k, todo - {id})
  {
    hide ReferencedValues, ChildKey;
  }

  /** What validation reads off one child row. */
  lemma ChildRead(fp: FloatUnit, s: Schema, img: Trees, k: ConstraintId, id: ByteString)
    requires Valid(s.catalog) && MappingOk(s) && IndexesOk(fp, s, img)
    requires k in s.catalog.foreignKeys && ValidForeignKey(s.catalog, s.catalog.foreignKeys[k])
    requires Loc(TableTree(s, s.catalog.foreignKeys[k].table), id) in img.cells
    ensures var key := s.catalog.foreignKeys[k];
            var cell := img.cells[Loc(TableTree(s, key.table), id)];
            && cell.Row? && |cell.values| <= |s.catalog.tables[key.table].columns|
            && var values := ChildTuple(s, key, Materialize(s.catalog.tables[key.table], cell.values));
               && values.Ok? && AllStorable(values.value)
               && ChildKey(s, img, key, id) == (if NoNulls(values.value) then Some(CompositeKey(values.value)) else None)
               && IndexValuesKey(s.catalog.tables[key.referencedTable], ForeignKeyIndex(s.catalog, key).value, values.value)
                  == Ok(CompositeKey(values.value))
  {
    hide Valid, MappingOk, IndexOk, UniqueOk, Materialize, IdentityOk, ValidStored, IndexKey, ChildKey, CompositeKey, ChildTuple, IndexValuesKey;
    var key := s.catalog.foreignKeys[k];
    assert RowCellOk(fp, s, img, key.table, id);
    var cell := img.cells[Loc(TableTree(s, key.table), id)];
    StoredWidth(s.catalog.tables[key.table], cell.values);
    ChildKeyOf(fp, s, img, k, id);
    ChildTyped(s, k, Materialize(s.catalog.tables[key.table], cell.values));
  }

  lemma CheckedMisses(fp: FloatUnit, s: Schema, img: Trees, k: ConstraintId, id: ByteString)
    requires k in s.catalog.foreignKeys && ValidForeignKey(s.catalog, s.catalog.foreignKeys[k])
    requires var key := s.catalog.foreignKeys[k];
             ChildKey(s, img, key, id).Some?
             && ChildKey(s, img, key, id).value !in ReferencedValues(img, IndexTree(s, SupportOf(s.catalog, key)))
    ensures !CheckedBut(fp, s, img, k, {})
  {
  }

  lemma KeysValid(c: Catalog)
    requires Valid(c)
    ensures forall k :: k in c.foreignKeys ==> ValidForeignKey(c, c.foreignKeys[k])
  {
  }

  predicate Timed(key: ForeignKey, timing: Option<Timing>) {
    timing.None? || key.timing == timing.value
  }

  /** All that validating a foreign key reads is registered. */
  predicate Scanned(s: Schema, ranges: set<Range>, key: ForeignKey)
    requires ValidForeignKey(s.catalog, key)
  {
    Whole(TableTree(s, key.table)) in ranges && Whole(IndexTree(s, SupportOf(s.catalog, key))) in ranges
  }

  ghost predicate ImmediateOk(fp: FloatUnit, s: Schema, img: Trees)
    requires Valid(s.catalog)
  {
    forall k :: k in s.catalog.foreignKeys && s.catalog.foreignKeys[k].timing == Immediate ==>
      ForeignOk(fp, s, img, s.catalog.foreignKeys[k])
  }

  lemma StoreFacts(fp: FloatUnit, img: Trees, s: Schema)
    requires ConsistentWith(fp, img, s)
    ensures Valid(s.catalog) && MappingOk(s)
  {
    hide Valid, MappingOk, HasSchema, IndexesOk, ForeignKeysOk;
  }

  /** A transaction that has staged nothing is in order. */
  lemma BeginOk(fp: FloatUnit, base: Trees, s: Schema)
    requires ConsistentWith(fp, base, s)
    ensures StagedOk(fp, s, base, map[], {Exactly(MARKER)})
  {
    hide IndexesOk, HasSchema, ForeignKeysOk, Valid, MappingOk, View;
    NothingStaged(base);
  }

  lemma StagedFacts(fp: FloatUnit, s: Schema, base: Trees, writes: Writes<Datum>, ranges: set<Range>)
    requires StagedOk(fp, s, base, writes, ranges)
    ensures IndexesOk(fp, s, View(base, writes))
  {
  }

  lemma StagedIndex(fp: FloatUnit, s: Schema, base: Trees, writes: Writes<Datum>, ranges: set<Range>, i: IndexId)
    requires StagedOk(fp, s, base, writes, ranges) && i in s.catalog.indexes
    ensures IndexOk(fp, s, View(base, writes), i) && RowsOk(fp, s, View(base, writes))
  {
    hide IndexOk, RowsOk;
  }

  lemma RangesGrow(fp: FloatUnit, s: Schema, base: Trees, writes: Writes<Datum>, ranges: set<Range>, more: set<Range>)
    requires StagedOk(fp, s, base, writes, ranges) && ranges <= more
    ensures StagedOk(fp, s, base, writes, more)
  {
    hide IndexesOk, View, RowCells, ProbeRange, DecodeEntry;
  }

  /** A bounded probe finds exactly the rows with that key. */
  lemma FoundIdentity(fp: FloatUnit, s: Schema, img: Trees, i: IndexId, values: ByteString, id: ByteString)
    requires MappingOk(s) && i in s.catalog.indexes && FitsU32(values) && IndexOk(fp, s, img, i) && RowsOk(fp, s, img)
    ensures var found := set l | l in img.cells && Covers(ProbeRange(IndexTree(s, i), values), l) && img.cells[l].Entry? :: img.cells[l].identity;
            id in found <==> KeyAt(fp, s, img, i, id) == Some(values)
  {
    hide MappingOk, RowsOk, KeyAt, DecodeEntry, EncodeEntry, LexLess, Successor, EntryPrefix;
    var range := ProbeRange(IndexTree(s, i), values);
    if l :| l in img.cells && Covers(range, l) && img.cells[l].Entry? && img.cells[l].identity == id {
      RangeIsExact(l.key, values);
      EntryReadBack(l.key);
      assert AgreesAt(fp, s, img, i, id);
    }
    if KeyAt(fp, s, img, i, id) == Some(values) {
      KeyedRowFits(fp, s, img, i, id);
      assert AgreesAt(fp, s, img, i, id);
      var l := Loc(IndexTree(s, i), EncodeEntry(values, id));
      EntryRoundTrip(values, id);
      RangeIsExact(l.key, values);
      assert l in img.cells && Covers(range, l);
    }
  }
}
