/** Whole batches of schema mutations: they keep a store sound and its rows' values, and a
    batch computed on a snapshot is as good as one computed on the image it is published to. */
module SchemaBatches {
  import opened Common
  import opened Values
  import opened Catalogs
  import opened RowKeys
  import opened IndexEntries
  import opened Kernel
  import opened Store
  import opened Commits
  import opened References
  import opened Carrying
  import opened SchemaSteps
  import opened SchemaLaws
  import CatalogLaws

  // ---- values --------------------------------------------------------------

  /** The column of a table whose values a mutation may change. */
  function Changed(m: Mutation, t: TableId): Option<ColumnId> {
    match m
    case AlterColumnType(u, id, _, _) => if u == t then Some(id) else None
    case DropColumn(u, id) => if u == t then Some(id) else None
    case _ => None
  }

  /** A table's rows keep their identities and the values of every unchanged column. */
  ghost predicate ValuesKept(s: Schema, a: Trees, s': Schema, b: Trees, t: TableId, changed: Option<ColumnId>)
    requires t in s.catalog.tables && t in s'.catalog.tables
  {
    && TableTree(s', t) == TableTree(s, t)
    && forall l: Loc :: l.tree == TableTree(s, t) ==> ValueKept(s, a, s', b, t, changed, l)
  }

  ghost predicate ValueKept(s: Schema, a: Trees, s': Schema, b: Trees, t: TableId, changed: Option<ColumnId>, l: Loc)
    requires t in s.catalog.tables && t in s'.catalog.tables
  {
    && (l in a.cells <==> l in b.cells)
    && (l in a.cells ==>
          && a.cells[l].Row? && b.cells[l].Row?
          && SameValues(s.catalog.tables[t], a.cells[l].values, s'.catalog.tables[t], b.cells[l].values, changed))
  }

  lemma SameTableValues(fp: FloatUnit, s: Schema, a: Trees, s': Schema, b: Trees, t: TableId, changed: Option<ColumnId>)
    requires Sound(fp, s, a) && t in s.catalog.tables && t in s'.catalog.tables && s'.catalog.tables[t] == s.catalog.tables[t]
    requires TableTree(s', t) == TableTree(s, t) && SameTree(a, b, TableTree(s, t))
    ensures ValuesKept(s, a, s', b, t, changed)
  {
    hide Sound, Lookup, Materialize, ColumnAt;
    forall l: Loc | l.tree == TableTree(s, t) ensures ValueKept(s, a, s', b, t, changed, l) {
      Cells(a, l);
      Cells(b, l);
      if l in a.cells {
        CellIsRow(fp, s, a, t, l);
      }
    }
  }

  lemma RelabelledValues(fp: FloatUnit, s: Schema, img: Trees, s': Schema, t: TableId)
    requires Sound(fp, s, img) && t in s.catalog.tables && t in s'.catalog.tables && TableTree(s', t) == TableTree(s, t)
    requires forall row :: AllStorable(row) && ValidStored(s.catalog.tables[t], row) ==>
               SameValues(s.catalog.tables[t], row, s'.catalog.tables[t], row, None)
    ensures ValuesKept(s, img, s', img, t, None)
  {
    hide Sound, SameValues, ValidStored, AllStorable;
    forall l: Loc | l.tree == TableTree(s, t) ensures ValueKept(s, img, s', img, t, None, l) {
      if l in img.cells {
        CellIsRow(fp, s, img, t, l);
      }
    }
  }

  lemma RewrittenValues(fp: FloatUnit, co: Coercion, base: Trees, b: Batch, c: Catalog, t: TableId, id: ColumnId, b': Batch)
    requires InOrder(fp, base, b) && RowsStepped(co, Work(base, b), b, c, t, id, b')
    requires ColumnChanged(b.schema.catalog, c, t, id)
    ensures ValuesKept(b.schema, Work(base, b), b'.schema, Work(base, b'), t, Some(id))
    ensures forall tree :: tree != TableTree(b.schema, t) ==> SameTree(Work(base, b), Work(base, b'), tree)
  {
    hide Valid, Work, IndexesOk, ForeignKeysOk, RowsRewritten, MappedTrees, Rewritten, SameTree, Constrained, Bounded, Vacant, SameValues, OneTable;
    var s, s', a, w := b.schema, b'.schema, Work(base, b), Work(base, b');
    var tree := TableTree(s, t);
    MappedTree(s, t);
    LiveNotDropped(base, b, tree);
    WorkRewritten(co, base, b, b', tree, s.catalog.tables[t], c.tables[t], id);
    RewrittenShape(s, a, w, tree, co, s.catalog.tables[t], c.tables[t], id);
    forall l: Loc | l.tree == tree ensures ValueKept(s, a, s', w, t, Some(id), l) {
      Cells(a, l);
      Cells(w, l);
      if l in a.cells {
        RewrittenCarried(co, s, s', t, id, a.cells[l], w.cells[l]);
      }
    }
  }

  /** Every step keeps the values of every column it does not change, in every table that
      is there before and after it; columns it adds read NULL. */
  lemma StepKeepsValues(fp: FloatUnit, co: Coercion, base: Trees, b: Batch, m: Mutation, b': Batch, t: TableId)
    requires InOrder(fp, base, b) && Stepped(fp, co, Work(base, b), b, m, b')
    requires t in b.schema.catalog.tables && t in b'.schema.catalog.tables
    ensures ValuesKept(b.schema, Work(base, b), b'.schema, Work(base, b'), t, Changed(m, t))
  {
    hide InOrder, Work, Valid, CheckedBut, KeysFit, UniqueOk, IndexBuilt, RowsRewritten, ValuesKept, Sound, SameTree, Bounded, Constrained, MappingOk;
    InOrderValid(fp, base, b);
    StepKeeps(fp, co, base, b, m, b');
    InOrderValid(fp, base, b');
    var c := b.schema.catalog;
    CatalogIds(c, t);
    match m
    case AddNullableColumn(u, column) =>
      CatalogIds(c, u);
      WorkOf(base, b, b');
      if t == u {
        AppendedValues(fp, b.schema, Work(base, b), b'.schema, t, column);
      } else {
        SameTreeSelf(Work(base, b), TableTree(b.schema, t));
        SameTableValues(fp, b.schema, Work(base, b), b'.schema, Work(base, b'), t, None);
      }
    case RenameColumn(u, id, _) =>
      CatalogIds(c, u);
      WorkOf(base, b, b');
      RenamedValues(fp, b.schema, Work(base, b), b'.schema, t);
    case RenameTable(u, _) =>
      CatalogIds(c, u);
      WorkOf(base, b, b');
      RenamedValues(fp, b.schema, Work(base, b), b'.schema, t);
    case AlterColumnType(u, id, kind, nullable) =>
      AlterColumnShape(c, u, id, kind, nullable);
      RewrittenStep(fp, co, base, b, Mutate(c, m).value, u, id, b', t);
    case DropColumn(u, id) =>
      DropColumnShape(c, u, id);
      RewrittenStep(fp, co, base, b, Mutate(c, m).value, u, id, b', t);
    case CreateTable(_, _) => CreatedValues(fp, co, base, b, m, b', t);
    case AddIndex(_, _) => IndexedValues(fp, co, base, b, m, b', t);
    case AddForeignKey(_, _) => KeyedValues(fp, co, base, b, m, b', t);
    case DropForeignKey(_) => KeyedValues(fp, co, base, b, m, b', t);
    case DropTable(_) => DroppedTableValues(fp, co, base, b, m, b', t);
    case DropIndex(_) => DroppedIndexValues(fp, co, base, b, m, b', t);
  }

  lemma SameTreeSelf(a: Trees, tree: TreeId)
    ensures SameTree(a, a, tree)
  {
  }

  lemma AppendedValues(fp: FloatUnit, s: Schema, img: Trees, s': Schema, t: TableId, column: Column)
    requires Sound(fp, s, img) && OneTable(s.catalog, s'.catalog, t) && column.nullable && s'.tableTrees == s.tableTrees
    requires s'.catalog.tables[t] == s.catalog.tables[t].(columns := s.catalog.tables[t].columns + [column])
    ensures ValuesKept(s, img, s', img, t, None)
  {
    hide Valid, MappingOk, IndexesOk, ForeignKeysOk, Mapped, ValidStored, AllStorable, SameValues, RowCarried, ValuesKept;
    forall row | AllStorable(row) && ValidStored(s.catalog.tables[t], row)
      ensures SameValues(s.catalog.tables[t], row, s'.catalog.tables[t], row, None)
    {
      AppendedRow(s, s', t, column, row);
    }
    RelabelledValues(fp, s, img, s', t);
  }

  lemma RenamedValues(fp: FloatUnit, s: Schema, img: Trees, s': Schema, t: TableId)
    requires Sound(fp, s, img) && t in s.catalog.tables && t in s'.catalog.tables && s'.tableTrees == s.tableTrees
    requires var def, def' := s.catalog.tables[t], s'.catalog.tables[t];
             && |def'.columns| == |def.columns|
             && forall i :: 0 <= i < |def.columns| ==>
                  def'.columns[i].id == def.columns[i].id && def'.columns[i].kind == def.columns[i].kind
                  && def'.columns[i].nullable == def.columns[i].nullable
    ensures ValuesKept(s, img, s', img, t, None)
  {
    hide Sound, ValidStored, AllStorable, SameValues, RowCarried, ValuesKept;
    forall row | AllStorable(row) && ValidStored(s.catalog.tables[t], row)
      ensures SameValues(s.catalog.tables[t], row, s'.catalog.tables[t], row, None)
    {
      RenamedRow(s, s', t, row);
    }
    RelabelledValues(fp, s, img, s', t);
  }

  lemma RewrittenStep(fp: FloatUnit, co: Coercion, base: Trees, b: Batch, c: Catalog, u: TableId, id: ColumnId, b': Batch, t: TableId)
    requires InOrder(fp, base, b) && RowsStepped(co, Work(base, b), b, c, u, id, b')
    requires ColumnChanged(b.schema.catalog, c, u, id) && t in b.schema.catalog.tables && t in c.tables
    ensures ValuesKept(b.schema, Work(base, b), b'.schema, Work(base, b'), t, if u == t then Some(id) else None)
  {
    hide InOrder, Work, Sound, RowsRewritten, ValuesKept, SameTree, Constrained, Position, ColumnAt;
    RewrittenValues(fp, co, base, b, c, u, id, b');
    if t != u {
      InOrderValid(fp, base, b);
      assert b.schema.tableTrees[t] != b.schema.tableTrees[u];
      SameTableValues(fp, b.schema, Work(base, b), b'.schema, Work(base, b'), t, None);
    }
  }

  // Steps that touch neither the definition nor the rows of a table that stays.

  lemma CreatedValues(fp: FloatUnit, co: Coercion, base: Trees, b: Batch, m: Mutation, b': Batch, t: TableId)
    requires InOrder(fp, base, b) && Stepped(fp, co, Work(base, b), b, m, b')
    requires t in b.schema.catalog.tables && t in b'.schema.catalog.tables && (m.CreateTable?)
    ensures ValuesKept(b.schema, Work(base, b), b'.schema, Work(base, b'), t, None)
  {
    hide InOrder, Work, Valid, CheckedBut, KeysFit, UniqueOk, IndexBuilt, ValuesKept, Sound, SameTree, MappedTrees, ValidForeignKey, ValidIndex,
         Supporting, TableTrees, MappingOk, NameFree, ValidTable, ValidPrimaryKey, Bounded;
    InOrderValid(fp, base, b);
    MappedKeys(b.schema);
    var s, a, w := b.schema, Work(base, b), Work(base, b');
    NextIsFree(fp, base, b);
    WorkGrown(base, b, b');
    OldTreesSame(s, a, w, b.next);
    SameTableValues(fp, s, a, b'.schema, w, t, None);
  }

  lemma IndexedValues(fp: FloatUnit, co: Coercion, base: Trees, b: Batch, m: Mutation, b': Batch, t: TableId)
    requires InOrder(fp, base, b) && Stepped(fp, co, Work(base, b), b, m, b')
    requires t in b.schema.catalog.tables && t in b'.schema.catalog.tables && (m.AddIndex?)
    ensures ValuesKept(b.schema, Work(base, b), b'.schema, Work(base, b'), t, None)
  {
    hide InOrder, Work, Valid, CheckedBut, KeysFit, UniqueOk, IndexBuilt, ValuesKept, Sound, SameTree, MappedTrees, ValidForeignKey, ValidIndex,
         Supporting, TableTrees, MappingOk, NameFree, ValidTable, ValidPrimaryKey, Bounded;
    InOrderValid(fp, base, b);
    MappedKeys(b.schema);
    var s, a, w := b.schema, Work(base, b), Work(base, b');
    if m.index.id in s.indexTrees {
      SameTreeSelf(a, TableTree(s, t));
    } else {
      NextIsFree(fp, base, b);
      BuiltElsewhere(fp, b'.schema, a, m.index.id, b.writes, b'.writes);
      WorkGrown(base, b, b');
      OldTreesSame(s, a, w, b.next);
    }
    SameTableValues(fp, s, a, b'.schema, w, t, None);
  }

  lemma KeyedValues(fp: FloatUnit, co: Coercion, base: Trees, b: Batch, m: Mutation, b': Batch, t: TableId)
    requires InOrder(fp, base, b) && Stepped(fp, co, Work(base, b), b, m, b')
    requires t in b.schema.catalog.tables && t in b'.schema.catalog.tables && (m.AddForeignKey? || m.DropForeignKey?)
    ensures ValuesKept(b.schema, Work(base, b), b'.schema, Work(base, b'), t, None)
  {
    hide InOrder, Work, Valid, CheckedBut, KeysFit, UniqueOk, IndexBuilt, ValuesKept, Sound, SameTree, MappedTrees, ValidForeignKey, ValidIndex,
         Supporting, TableTrees, MappingOk, NameFree, ValidTable, ValidPrimaryKey, Bounded;
    InOrderValid(fp, base, b);
    MappedKeys(b.schema);
    var s, a, w := b.schema, Work(base, b), Work(base, b');
    WorkOf(base, b, b');
    SameTreeSelf(a, TableTree(s, t));
    SameTableValues(fp, s, a, b'.schema, w, t, None);
  }

  lemma DroppedTableValues(fp: FloatUnit, co: Coercion, base: Trees, b: Batch, m: Mutation, b': Batch, t: TableId)
    requires InOrder(fp, base, b) && Stepped(fp, co, Work(base, b), b, m, b')
    requires t in b.schema.catalog.tables && t in b'.schema.catalog.tables && (m.DropTable?)
    ensures ValuesKept(b.schema, Work(base, b), b'.schema, Work(base, b'), t, None)
  {
    hide InOrder, Work, Valid, CheckedBut, KeysFit, UniqueOk, IndexBuilt, ValuesKept, Sound, SameTree, MappedTrees, ValidForeignKey, ValidIndex,
         Supporting, TableTrees, MappingOk, NameFree, ValidTable, ValidPrimaryKey, Bounded;
    InOrderValid(fp, base, b);
    MappedKeys(b.schema);
    var s, a, w := b.schema, Work(base, b), Work(base, b');
    DroppedTrees(b, b'.schema.catalog, m.table);
    WorkDropped(base, b, b', TableTrees(s, m.table));
    OtherTable(s, m.table, t);
    OutsideTrees(a, w, TableTrees(s, m.table), TableTree(s, t));
    SameTableValues(fp, s, a, b'.schema, w, t, None);
  }

  lemma DroppedIndexValues(fp: FloatUnit, co: Coercion, base: Trees, b: Batch, m: Mutation, b': Batch, t: TableId)
    requires InOrder(fp, base, b) && Stepped(fp, co, Work(base, b), b, m, b')
    requires t in b.schema.catalog.tables && t in b'.schema.catalog.tables && (m.DropIndex?)
    ensures ValuesKept(b.schema, Work(base, b), b'.schema, Work(base, b'), t, None)
  {
    hide InOrder, Work, Valid, CheckedBut, KeysFit, UniqueOk, IndexBuilt, ValuesKept, Sound, SameTree, MappedTrees, ValidForeignKey, ValidIndex,
         Supporting, TableTrees, MappingOk, NameFree, ValidTable, ValidPrimaryKey, Bounded;
    InOrderValid(fp, base, b);
    MappedKeys(b.schema);
    var s, a, w := b.schema, Work(base, b), Work(base, b');
    WorkDropped(base, b, b', {IndexTree(s, m.indexId)});
    TablesAndIndexes(s, t, m.indexId);
    OutsideTrees(a, w, {IndexTree(s, m.indexId)}, TableTree(s, t));
    SameTableValues(fp, s, a, b'.schema, w, t, None);
  }

  lemma TablesAndIndexes(s: Schema, t: TableId, i: IndexId)
    requires MappingOk(s) && t in s.catalog.tables && i in s.catalog.indexes
    ensures TableTree(s, t) != IndexTree(s, i)
  {
    assert s.tableTrees[t] != s.indexTrees[i];
  }

  lemma BuiltElsewhere(fp: FloatUnit, s: Schema, img: Trees, i: IndexId, before: Writes<Datum>, after: Writes<Datum>)
    requires IndexBuilt(fp, s, img, i, before, after)
    ensures forall l: Loc :: l.tree != IndexTree(s, i) ==> SameWrite(before, after, l)
  {
    hide EntryOf, DecodeEntry;
  }

  // ---- batches -------------------------------------------------------------

  /** The mutations of a batch, carried out one after the other. */
  ghost predicate Batched(fp: FloatUnit, co: Coercion, base: Trees, b: Batch, ms: seq<Mutation>, b': Batch)
    decreases |ms|
  {
    if ms == [] then b' == b
    else exists next :: Stepped(fp, co, Work(base, b), b, ms[0], next) && Batched(fp, co, base, next, ms[1..], b')
  }

  /** The columns of a table that some mutation of a batch converts or drops. */
  function AllChanged(ms: seq<Mutation>, t: TableId): set<ColumnId> {
    set i, id: ColumnId | 0 <= i < |ms| && Changed(ms[i], t) == Some(id) :: id
  }

  /** Every column outside a set reads the same in the old and the new layout, and those that
      were not there before read NULL. */
  ghost predicate SameExcept(def: Table, row: seq<Value>, def': Table, row': seq<Value>, changed: set<ColumnId>) {
    && |row| <= |def.columns| && |row'| <= |def'.columns|
    && (forall id: ColumnId :: id !in changed && ColumnAt(def, id).Some? ==> SameAt(def, Materialize(def, row), def', Materialize(def', row'), id))
    && (forall id: ColumnId :: id !in changed && ColumnAt(def, id).None? && ColumnAt(def', id).Some? ==>
          Lookup(def', Materialize(def', row'), id) == Ok(Null))
  }

  /** A table's rows keep their identities and the values of every column outside a set. */
  ghost predicate RowsKept(s: Schema, a: Trees, s': Schema, b: Trees, t: TableId, changed: set<ColumnId>)
    requires t in s.catalog.tables && t in s'.catalog.tables
  {
    && TableTree(s', t) == TableTree(s, t)
    && forall l: Loc :: l.tree == TableTree(s, t) ==> RowKept(s, a, s', b, t, changed, l)
  }

  ghost predicate RowKept(s: Schema, a: Trees, s': Schema, b: Trees, t: TableId, changed: set<ColumnId>, l: Loc)
    requires t in s.catalog.tables && t in s'.catalog.tables
  {
    && (l in a.cells <==> l in b.cells)
    && (l in a.cells ==>
          && a.cells[l].Row? && b.cells[l].Row?
          && SameExcept(s.catalog.tables[t], a.cells[l].values, s'.catalog.tables[t], b.cells[l].values, changed))
  }

  lemma ColumnRead(t: Table, row: seq<Value>, id: ColumnId)
    requires |row| == |t.columns|
    ensures Lookup(t, row, id).Ok? <==> ColumnAt(t, id).Some?
  {
  }

  lemma SameExceptTwice(d1: Table, r1: seq<Value>, d2: Table, r2: seq<Value>, d3: Table, r3: seq<Value>, first: Option<ColumnId>, more: set<ColumnId>, all: set<ColumnId>)
    requires SameValues(d1, r1, d2, r2, first) && SameExcept(d2, r2, d3, r3, more)
    requires more <= all && (first.Some? ==> first.value in all)
    ensures SameExcept(d1, r1, d3, r3, all)
  {
    hide Lookup, Materialize, ColumnAt;
    var v1, v2, v3 := Materialize(d1, r1), Materialize(d2, r2), Materialize(d3, r3);
    forall id: ColumnId | id !in all && ColumnAt(d1, id).Some? ensures SameAt(d1, v1, d3, v3, id) {
      ColumnRead(d1, v1, id);
      assert SameAt(d1, v1, d2, v2, id);
      ColumnRead(d2, v2, id);
      assert SameAt(d2, v2, d3, v3, id);
    }
    forall id: ColumnId | id !in all && ColumnAt(d1, id).None? && ColumnAt(d3, id).Some? ensures Lookup(d3, v3, id) == Ok(Null) {
      if ColumnAt(d2, id).Some? {
        assert Lookup(d2, v2, id) == Ok(Null) && SameAt(d2, v2, d3, v3, id);
      }
    }
  }

  lemma RowsKeptTwice(s1: Schema, a: Trees, s2: Schema, b: Trees, s3: Schema, c: Trees, t: TableId, first: Option<ColumnId>, more: set<ColumnId>, all: set<ColumnId>)
    requires t in s1.catalog.tables && t in s2.catalog.tables && t in s3.catalog.tables
    requires ValuesKept(s1, a, s2, b, t, first) && RowsKept(s2, b, s3, c, t, more)
    requires more <= all && (first.Some? ==> first.value in all)
    ensures RowsKept(s1, a, s3, c, t, all)
  {
    hide SameValues, SameExcept;
    forall l: Loc | l.tree == TableTree(s1, t) ensures RowKept(s1, a, s3, c, t, all, l) {
      assert ValueKept(s1, a, s2, b, t, first, l) && RowKept(s2, b, s3, c, t, more, l);
      if l in a.cells {
        SameExceptTwice(s1.catalog.tables[t], a.cells[l].values, s2.catalog.tables[t], b.cells[l].values,
          s3.catalog.tables[t], c.cells[l].values, first, more, all);
      }
    }
  }

  lemma RowsKeptSelf(fp: FloatUnit, s: Schema, a: Trees, t: TableId)
    requires Sound(fp, s, a) && t in s.catalog.tables
    ensures RowsKept(s, a, s, a, t, {})
  {
    hide Sound, Lookup, Materialize, ColumnAt;
    forall l: Loc | l.tree == TableTree(s, t) ensures RowKept(s, a, s, a, t, {}, l) {
      if l in a.cells {
        CellIsRow(fp, s, a, t, l);
        SameReads(s.catalog.tables[t], a.cells[l].values);
      }
    }
  }

  lemma SameReads(def: Table, row: seq<Value>)
    requires |row| <= |def.columns|
    ensures SameExcept(def, row, def, row, {})
  {
    hide Materialize, Position;
  }

  /** Only dropping a table takes it out of the catalog. */
  lemma TableStaysNamed(c: Catalog, m: Mutation, t: TableId)
    requires Mutate(c, m).Ok? && t in c.tables && m != DropTable(t)
    ensures t in Mutate(c, m).value.tables
  {
    hide Guarded, ValidIndex, ValidForeignKey, ValidTable, NameFree, Position;
  }

  /** A batch that does not drop a table keeps all its rows: columns that no mutation of the
      batch converts or drops read the same, and those it adds read NULL. */
  lemma {:induction false} BatchKeepsValues(fp: FloatUnit, co: Coercion, base: Trees, b: Batch, ms: seq<Mutation>, b': Batch, t: TableId)
    requires InOrder(fp, base, b) && Batched(fp, co, base, b, ms, b') && t in b.schema.catalog.tables && DropTable(t) !in ms
    ensures t in b'.schema.catalog.tables
    ensures RowsKept(b.schema, Work(base, b), b'.schema, Work(base, b'), t, AllChanged(ms, t))
    decreases |ms|
  {
    hide InOrder, Work, Stepped, RowsKept, ValuesKept, Mutate, Changed;
    if ms == [] {
      InOrderSound(fp, base, b);
      RowsKeptSelf(fp, b.schema, Work(base, b), t);
      assert AllChanged(ms, t) == {};
    } else {
      var next :| Stepped(fp, co, Work(base, b), b, ms[0], next) && Batched(fp, co, base, next, ms[1..], b');
      assert ms[0] in ms;
      StepNames(fp, co, base, b, ms[0], next, t);
      StepKeeps(fp, co, base, b, ms[0], next);
      StepKeepsValues(fp, co, base, b, ms[0], next, t);
      BatchKeepsValues(fp, co, base, next, ms[1..], b', t);
      ChangedMore(ms, t);
      RowsKeptTwice(b.schema, Work(base, b), next.schema, Work(base, next), b'.schema, Work(base, b'), t,
        Changed(ms[0], t), AllChanged(ms[1..], t), AllChanged(ms, t));
    }
  }

  lemma InOrderSound(fp: FloatUnit, base: Trees, b: Batch)
    requires InOrder(fp, base, b)
    ensures Sound(fp, b.schema, Work(base, b))
  {
  }

  lemma StepNames(fp: FloatUnit, co: Coercion, base: Trees, b: Batch, m: Mutation, b': Batch, t: TableId)
    requires InOrder(fp, base, b) && Stepped(fp, co, Work(base, b), b, m, b') && t in b.schema.catalog.tables && m != DropTable(t)
    ensures t in b'.schema.catalog.tables
  {
    hide InOrder, Work, Mutate, CheckedBut, KeysFit, UniqueOk, IndexBuilt, RowsRewritten, MappingOk;
    TableStaysNamed(b.schema.catalog, m, t);
    InOrderValid(fp, base, b);
    SteppedCatalog(fp, co, Work(base, b), b, m, b');
  }

  lemma SteppedCatalog(fp: FloatUnit, co: Coercion, img: Trees, b: Batch, m: Mutation, b': Batch)
    requires MappingOk(b.schema) && Stepped(fp, co, img, b, m, b')
    ensures Mutate(b.schema.catalog, m) == Ok(b'.schema.catalog)
  {
    hide CheckedBut, KeysFit, UniqueOk, IndexBuilt, RowsRewritten;
  }

  lemma ChangedMore(ms: seq<Mutation>, t: TableId)
    requires ms != []
    ensures AllChanged(ms[1..], t) <= AllChanged(ms, t) && (Changed(ms[0], t).Some? ==> Changed(ms[0], t).value in AllChanged(ms, t))
  {
    hide Changed;
    forall id | id in AllChanged(ms[1..], t) ensures id in AllChanged(ms, t) {
      var i :| 0 <= i < |ms[1..]| && Changed(ms[1..][i], t) == Some(id);
      assert ms[i + 1] == ms[1..][i];
    }
  }

  lemma StartInOrder(fp: FloatUnit, base: Trees, s: Schema, next: TreeId)
    requires ConsistentWith(fp, base, s) && forall t :: t in base.live ==> t < next
    ensures InOrder(fp, base, Start(s, next)) && Work(base, Start(s, next)) == base
  {
    hide Valid, MappingOk, IndexesOk, ForeignKeysOk;
    assert Work(base, Start(s, next)).cells == base.cells;
  }

  lemma {:induction false} BatchKeeps(fp: FloatUnit, co: Coercion, base: Trees, b: Batch, ms: seq<Mutation>, b': Batch)
    requires InOrder(fp, base, b) && Batched(fp, co, base, b, ms, b')
    ensures InOrder(fp, base, b')
    decreases |ms|
  {
    hide InOrder, Stepped, Work;
    if ms != [] {
      var next :| Stepped(fp, co, Work(base, b), b, ms[0], next) && Batched(fp, co, base, next, ms[1..], b');
      StepKeeps(fp, co, base, b, ms[0], next);
      BatchKeeps(fp, co, base, next, ms[1..], b');
    }
  }

  /** What a batch publishes: its staged change and the marker of the new schema. */
  function Publication(b: Batch): Change<Datum> {
    Change(b.writes[MARKER := Some(Marker(b.schema))], b.created, b.dropped)
  }

  /** A published batch leaves a consistent store under the new schema. */
  lemma PublishedIsConsistent(fp: FloatUnit, base: Trees, b: Batch)
    requires InOrder(fp, base, b)
    ensures ConsistentWith(fp, Apply(base, Publication(b)), b.schema)
  {
    hide Work, Valid, ForeignKeysOk, IndexesOk, MappingOk, Bounded;
    var a, w := Work(base, b), Apply(base, Publication(b));
    MarkerPut(base, b);
    InOrderValid(fp, base, b);
    OldTreesSameButCatalog(b.schema, a, w);
    MarkedGrows(b.schema, a, w);
    GrownCarries(fp, b.schema, a, b.schema, w);
    NothingNew(fp, b.schema, w);
    CarriedIsSound(fp, b.schema, a, b.schema, w);
    ConsistentIsSound(fp, b.schema, w);
  }

  lemma MarkerPut(base: Trees, b: Batch)
    requires Bounded(base, b)
    ensures var a, w := Work(base, b), Apply(base, Publication(b));
            && w.live == a.live && CATALOG_TREE in a.live
            && (forall l: Loc :: l != MARKER ==> w.Get(l) == a.Get(l))
            && w.Get(MARKER) == Some(Marker(b.schema))
  {
  }

  lemma OldTreesSameButCatalog(s: Schema, a: Trees, b: Trees)
    requires Mapped(s, a) && b.live == a.live && CATALOG_TREE in a.live && forall l: Loc :: l != MARKER ==> b.Get(l) == a.Get(l)
    ensures Mapped(s, b)
  {
    hide MappedTrees;
    forall l | l in b.cells && l != MARKER ensures l in a.cells {
      Cells(a, l);
      Cells(b, l);
    }
  }

  lemma MarkedGrows(s: Schema, a: Trees, b: Trees)
    requires MappingOk(s) && forall l: Loc :: l != MARKER ==> b.Get(l) == a.Get(l)
    ensures GrownFrom(s, a, s, b)
  {
  }

  lemma NothingNew(fp: FloatUnit, s: Schema, b: Trees)
    requires Valid(s.catalog)
    ensures NewOk(fp, s, s, b)
  {
    hide Valid;
  }

  // ---- publishing to an image that has moved on ----------------------------

  /** Two images agree on every tree whose whole range is registered. */
  ghost predicate AgreeOn(a: Trees, b: Trees, ranges: set<Range>) {
    forall tree :: Whole(tree) in ranges ==> SameTree(a, b, tree)
  }

  /** A tree that was read shows the batch the same cells on both images. */
  lemma SameRead(base: Trees, now: Trees, b: Batch, tree: TreeId)
    requires Bounded(base, b) && Bounded(now, b)
    requires tree in b.created || SameTree(base, now, tree)
    ensures SameTree(Work(base, b), Work(now, b), tree)
  {
    forall l: Loc | l.tree == tree ensures Work(base, b).Get(l) == Work(now, b).Get(l) {
      Cells(base, l);
      Cells(now, l);
    }
  }

  lemma KeysFitElsewhere(fp: FloatUnit, s: Schema, a: Trees, b: Trees, i: IndexId)
    requires i in s.catalog.indexes && s.catalog.indexes[i].table in s.catalog.tables
    requires SameTree(a, b, OwnerTree(s, i)) && KeysFit(fp, s, a, i)
    ensures KeysFit(fp, s, b, i)
  {
    hide CellFits;
    forall l | l in b.cells && l.tree == OwnerTree(s, i) ensures CellFits(fp, s, i, b.cells[l]) {
      Cells(a, l);
      Cells(b, l);
    }
  }

  lemma BuiltFromSameRows(fp: FloatUnit, s: Schema, a: Trees, b: Trees, i: IndexId, before: Writes<Datum>, after: Writes<Datum>)
    requires SameTree(a, b, OwnerTree(s, i)) && IndexBuilt(fp, s, a, i, before, after)
    ensures IndexBuilt(fp, s, b, i, before, after)
  {
    hide KeyAt, DecodeEntry;
    forall id ensures KeyAt(fp, s, a, i, id) == KeyAt(fp, s, b, i, id) {
      KeysElsewhere(fp, s, a, b, i, id);
    }
  }

  lemma UniqueElsewhere(fp: FloatUnit, s: Schema, a: Trees, b: Trees, i: IndexId)
    requires SameTree(a, b, OwnerTree(s, i)) && UniqueOk(fp, s, a, i)
    ensures UniqueOk(fp, s, b, i)
  {
    hide KeyAt;
    forall id ensures KeyAt(fp, s, a, i, id) == KeyAt(fp, s, b, i, id) {
      KeysElsewhere(fp, s, a, b, i, id);
    }
  }

  lemma CheckedElsewhere(fp: FloatUnit, s: Schema, a: Trees, b: Trees, k: ConstraintId)
    requires k in s.catalog.foreignKeys && ValidForeignKey(s.catalog, s.catalog.foreignKeys[k]) && CheckedBut(fp, s, a, k, {})
    requires SameTree(a, b, TableTree(s, s.catalog.foreignKeys[k].table))
    requires SameTree(a, b, IndexTree(s, SupportOf(s.catalog, s.catalog.foreignKeys[k])))
    ensures CheckedBut(fp, s, b, k, {})
  {
    hide DecodeEntry, LookupAll, ChildColumns, CompositeKey, SupportOf, ValidForeignKey;
    var key := s.catalog.foreignKeys[k];
    var tree := IndexTree(s, SupportOf(s.catalog, key));
    forall l | l in a.cells && l.tree == tree ensures l in b.cells {
      Cells(a, l);
      Cells(b, l);
    }
    forall id | ChildKey(s, b, key, id).Some? ensures ChildKey(s, b, key, id).value in ReferencedValues(b, tree) {
      assert ChildKey(s, a, key, id) == ChildKey(s, b, key, id);
      var l :| l in a.cells && l.tree == tree && WellFormed(l.key) && DecodeEntry(l.key).value.0 == ChildKey(s, a, key, id).value;
      assert l in b.cells;
    }
  }

  lemma NoChildren(fp: FloatUnit, s: Schema, img: Trees, k: ConstraintId)
    requires k in s.catalog.foreignKeys && ValidForeignKey(s.catalog, s.catalog.foreignKeys[k])
    requires Vacant(img, TableTree(s, s.catalog.foreignKeys[k].table))
    ensures CheckedBut(fp, s, img, k, {})
  {
    hide LookupAll, ChildColumns, CompositeKey, SupportOf, ValidForeignKey, ReferencedValues;
  }

  lemma RewrittenElsewhere(co: Coercion, a: Trees, b: Trees, tree: TreeId, def: Table, def': Table, id: ColumnId,
                           before: Writes<Datum>, after: Writes<Datum>)
    requires SameTree(a, b, tree) && RowsRewritten(co, a, tree, def, def', id, before, after)
    ensures RowsRewritten(co, b, tree, def, def', id, before, after)
  {
    hide Rewritten;
    forall l: Loc
      ensures if l.tree == tree && l in b.cells then l in after && Rewritten(co, def, def', id, b.cells[l], after[l])
              else SameWrite(before, after, l)
    {
      Cells(a, l);
      Cells(b, l);
    }
  }

  lemma RowsStepElsewhere(fp: FloatUnit, co: Coercion, base: Trees, now: Trees, b: Batch, c: Catalog, t: TableId, id: ColumnId, b': Batch)
    requires Bounded(base, b) && Bounded(now, b) && RowsStepped(co, Work(base, b), b, c, t, id, b') && AgreeOn(base, now, b'.ranges)
    ensures RowsStepped(co, Work(now, b), b, c, t, id, b')
  {
    hide Work, Bounded, SameTree, RowsRewritten;
    var tree := TableTree(b.schema, t);
    assert Whole(tree) in b'.ranges;
    SameRead(base, now, b, tree);
    RewrittenElsewhere(co, Work(base, b), Work(now, b), tree, b.schema.catalog.tables[t], c.tables[t], id, b.writes, b'.writes);
  }

  lemma IndexStepElsewhere(fp: FloatUnit, co: Coercion, base: Trees, now: Trees, b: Batch, index: Index, name: Option<Name>, b': Batch)
    requires Bounded(base, b) && Bounded(now, b) && AgreeOn(base, now, b'.ranges)
    requires Stepped(fp, co, Work(base, b), b, AddIndex(index, name), b')
    ensures Stepped(fp, co, Work(now, b), b, AddIndex(index, name), b')
  {
    hide Work, Bounded, SameTree, KeysFit, UniqueOk, IndexBuilt, ValidIndex, NameFree;
    if index.id !in b.schema.indexTrees {
      var tree := TableTree(b.schema, index.table);
      assert tree !in b.created ==> Whole(tree) in b'.ranges;
      SameRead(base, now, b, tree);
      assert OwnerTree(b'.schema, index.id) == tree;
      KeysFitElsewhere(fp, b'.schema, Work(base, b), Work(now, b), index.id);
      if index.unique {
        UniqueElsewhere(fp, b'.schema, Work(base, b), Work(now, b), index.id);
      }
      BuiltFromSameRows(fp, b'.schema, Work(base, b), Work(now, b), index.id, b.writes, b'.writes);
    }
  }

  lemma KeyStepElsewhere(fp: FloatUnit, co: Coercion, base: Trees, now: Trees, b: Batch, key: ForeignKey, name: Option<Name>, b': Batch)
    requires InOrder(fp, now, b) && Bounded(base, b) && AgreeOn(base, now, b'.ranges)
    requires Stepped(fp, co, Work(base, b), b, AddForeignKey(key, name), b')
    ensures Stepped(fp, co, Work(now, b), b, AddForeignKey(key, name), b')
  {
    hide Work, Bounded, SameTree, CheckedBut, ApplyAddForeignKey, ValidForeignKey, SupportOf, Sound, ForeignKeyIndex;
    var c := b'.schema.catalog;
    CatalogLaws.AddForeignKeyShape(b.schema.catalog, key, name);
    KeyAddedValid(b.schema.catalog, key, name);
    CatalogLaws.TablesOfKey(c, key);
    InOrderValid(fp, now, b);
    MappedKeys(b.schema);
    var tree := TableTree(b.schema, key.table);
    if tree in b.created {
      NoChildren(fp, b'.schema, Work(now, b), key.id);
    } else {
      var support := IndexTree(b.schema, SupportOf(c, key));
      assert Whole(tree) in b'.ranges && Whole(support) in b'.ranges;
      SameRead(base, now, b, tree);
      SameRead(base, now, b, support);
      CheckedElsewhere(fp, b'.schema, Work(base, b), Work(now, b), key.id);
    }
  }

  lemma KeyAddedValid(c: Catalog, key: ForeignKey, name: Option<Name>)
    requires ApplyAddForeignKey(c, key, name).Ok?
    ensures ValidForeignKey(ApplyAddForeignKey(c, key, name).value, key)
  {
    hide NameFree, ValidPair, Supports, Distinct;
    assert Supporting(ApplyAddForeignKey(c, key, name).value, key) == Supporting(c, key);
  }

  /** What a step did on its snapshot it would do on any image that agrees with it on what
      the step read and registered. */
  lemma StepElsewhere(fp: FloatUnit, co: Coercion, base: Trees, now: Trees, b: Batch, m: Mutation, b': Batch)
    requires InOrder(fp, base, b) && InOrder(fp, now, b) && AgreeOn(base, now, b'.ranges)
    requires Stepped(fp, co, Work(base, b), b, m, b')
    ensures Stepped(fp, co, Work(now, b), b, m, b')
  {
    hide InOrder, Work, AgreeOn, CheckedBut, KeysFit, UniqueOk, IndexBuilt, RowsRewritten, Bounded;
    InOrderValid(fp, base, b);
    InOrderValid(fp, now, b);
    match m
    case AddIndex(index, name) => IndexStepElsewhere(fp, co, base, now, b, index, name, b');
    case AddForeignKey(key, name) => KeyStepElsewhere(fp, co, base, now, b, key, name, b');
    case AlterColumnType(t, id, _, _) => RowsStepElsewhere(fp, co, base, now, b, Mutate(b.schema.catalog, m).value, t, id, b');
    case DropColumn(t, id) => RowsStepElsewhere(fp, co, base, now, b, Mutate(b.schema.catalog, m).value, t, id, b');
    case _ =>
  }

  lemma StepRegisters(fp: FloatUnit, co: Coercion, img: Trees, b: Batch, m: Mutation, b': Batch)
    requires Stepped(fp, co, img, b, m, b')
    ensures b.ranges <= b'.ranges
  {
    hide Mutate, CheckedBut, KeysFit, UniqueOk, IndexBuilt, RowsRewritten;
  }

  lemma {:induction false} BatchRegisters(fp: FloatUnit, co: Coercion, base: Trees, b: Batch, ms: seq<Mutation>, b': Batch)
    requires Batched(fp, co, base, b, ms, b')
    ensures b.ranges <= b'.ranges
    decreases |ms|
  {
    hide Stepped, Work;
    if ms != [] {
      var next :| Stepped(fp, co, Work(base, b), b, ms[0], next) && Batched(fp, co, base, next, ms[1..], b');
      StepRegisters(fp, co, Work(base, b), b, ms[0], next);
      BatchRegisters(fp, co, base, next, ms[1..], b');
    }
  }

  /** A batch computed on its snapshot is the batch computed on the image it is published to,
      if no tree it registered has changed in between. */
  lemma {:induction false} BatchElsewhere(fp: FloatUnit, co: Coercion, base: Trees, now: Trees, b: Batch, ms: seq<Mutation>, b': Batch)
    requires InOrder(fp, base, b) && InOrder(fp, now, b) && AgreeOn(base, now, b'.ranges)
    requires Batched(fp, co, base, b, ms, b')
    ensures Batched(fp, co, now, b, ms, b')
    decreases |ms|
  {
    hide InOrder, Stepped, Work;
    if ms != [] {
      var next :| Stepped(fp, co, Work(base, b), b, ms[0], next) && Batched(fp, co, base, next, ms[1..], b');
      BatchRegisters(fp, co, base, next, ms[1..], b');
      StepElsewhere(fp, co, base, now, b, ms[0], next);
      StepKeeps(fp, co, base, b, ms[0], next);
      StepKeeps(fp, co, now, b, ms[0], next);
      BatchElsewhere(fp, co, base, now, next, ms[1..], b');
    }
  }
}
