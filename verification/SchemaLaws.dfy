/** Every step of a schema batch leaves a sound store. */
module SchemaLaws {
  import opened Common
  import opened Bytes
  import opened Values
  import opened Catalogs
  import opened RowKeys
  import opened IndexEntries
  import opened Kernel
  import opened Store
  import opened Commits
  import opened References
  import opened Carrying
  import opened SchemaSteps
  import CatalogLaws

  // ---- tables that keep their definition -----------------------------------

  /** A readable row is carried over by a change that leaves its table's definition alone. */
  lemma RowStays(s: Schema, s': Schema, t: TableId, row: seq<Value>)
    requires t in s.catalog.tables && t in s'.catalog.tables && s'.catalog.tables[t] == s.catalog.tables[t]
    requires AllStorable(row) && ValidStored(s.catalog.tables[t], row)
    ensures RowCarried(s, s', t, row, row)
  {
    hide Lookup, Materialize, Constrained, HasType;
  }

  lemma TableStays(fp: FloatUnit, s: Schema, a: Trees, s': Schema, b: Trees, t: TableId)
    requires RowsOk(fp, s, a) && t in s.catalog.tables && t in s'.catalog.tables && s'.catalog.tables[t] == s.catalog.tables[t]
    requires TableTree(s', t) == TableTree(s, t) && SameTree(a, b, TableTree(s, t))
    requires t in s'.catalog.primaryKeys <==> t in s.catalog.primaryKeys
    requires t in s.catalog.primaryKeys ==> s'.catalog.primaryKeys[t] == s.catalog.primaryKeys[t]
    ensures TableCarried(s, a, s', b, t)
  {
    hide RowCarried, IndexKey, IdentityOk, Materialize, ValidStored;
    forall l: Loc | l.tree == TableTree(s, t) ensures CellCarried(s, a, s', b, t, l) {
      Cells(a, l);
      Cells(b, l);
      if l in a.cells {
        assert l == Loc(TableTree(s, t), l.key);
        assert RowCellOk(fp, s, a, t, l.key);
        RowStays(s, s', t, a.cells[l].values);
      }
    }
  }

  lemma IndexStays(s: Schema, a: Trees, s': Schema, b: Trees, i: IndexId)
    requires i in s.catalog.indexes && i in s'.catalog.indexes && s'.catalog.indexes[i] == s.catalog.indexes[i]
    requires IndexTree(s', i) == IndexTree(s, i) && SameTree(a, b, IndexTree(s, i))
    ensures IndexCarried(s, a, s', b, i)
  {
  }

  // ---- tables that get a new definition ------------------------------------

  /** The new catalog differs in the definition of one table only. */
  predicate OneTable(c: Catalog, c': Catalog, t: TableId) {
    && t in c.tables && t in c'.tables
    && c'.tables == c.tables[t := c'.tables[t]]
    && c'.primaryKeys == c.primaryKeys && c'.indexes == c.indexes && c'.foreignKeys == c.foreignKeys
  }

  /** How the rows of the table are carried over. */
  ghost predicate RowsMoved(s: Schema, a: Trees, s': Schema, b: Trees, t: TableId)
    requires t in s.catalog.tables && t in s'.catalog.tables
  {
    forall l: Loc :: l.tree == TableTree(s, t) ==> CellCarried(s, a, s', b, t, l)
  }

  lemma OneTableCarries(fp: FloatUnit, s: Schema, a: Trees, s': Schema, b: Trees, t: TableId)
    requires Sound(fp, s, a) && Valid(s'.catalog) && OneTable(s.catalog, s'.catalog, t)
    requires s'.tableTrees == s.tableTrees && s'.indexTrees == s.indexTrees
    requires RowsMoved(s, a, s', b, t)
    requires forall tree :: tree != TableTree(s, t) ==> SameTree(a, b, tree)
    ensures Carries(s, a, s', b)
  {
    hide Valid, Mapped, CellCarried, IndexKey, RowOk, SameTree, ForeignKeysOk, IndexOk, UniqueOk;
    CatalogIds(s.catalog, t);
    CatalogIds(s'.catalog, t);
    forall u | u in s.catalog.tables ensures TableCarried(s, a, s', b, u) {
      if u != t {
        TableStays(fp, s, a, s', b, u);
      }
    }
    IndexTables(s.catalog);
    forall i | i in s.catalog.indexes ensures IndexCarried(s, a, s', b, i) {
      assert s.tableTrees[t] != s.indexTrees[i];
      IndexStays(s, a, s', b, i);
    }
  }

  lemma IndexTables(c: Catalog)
    requires Valid(c)
    ensures forall i :: i in c.indexes ==> c.indexes[i].table in c.tables
  {
  }

  lemma OneTableSound(fp: FloatUnit, s: Schema, a: Trees, s': Schema, b: Trees, t: TableId)
    requires Sound(fp, s, a) && Valid(s'.catalog) && OneTable(s.catalog, s'.catalog, t)
    requires s'.tableTrees == s.tableTrees && s'.indexTrees == s.indexTrees
    requires RowsMoved(s, a, s', b, t) && Mapped(s, b)
    requires forall tree :: tree != TableTree(s, t) ==> SameTree(a, b, tree)
    ensures Sound(fp, s', b)
  {
    hide Valid, Carries, RowsMoved, SameTree, IndexesOk, ForeignKeysOk, NewIndexOk, ForeignOk;
    OneTableCarries(fp, s, a, s', b, t);
    CarriedIsSound(fp, s, a, s', b);
  }

  // ---- columns -------------------------------------------------------------

  /** Every column but one changed column reads the same in the old and the new layout, and
      columns that were not there before read NULL. */
  ghost predicate SameValues(def: Table, row: seq<Value>, def': Table, row': seq<Value>, changed: Option<ColumnId>) {
    && |row| <= |def.columns| && |row'| <= |def'.columns|
    && (forall id: ColumnId :: ColumnAt(def, id).Some? && changed != Some(id) ==> SameAt(def, Materialize(def, row), def', Materialize(def', row'), id))
    && (forall id :: ColumnAt(def, id).None? && ColumnAt(def', id).Some? ==> Lookup(def', Materialize(def', row'), id) == Ok(Null))
  }

  lemma SameConstrained(c: Catalog, c': Catalog, t: TableId, id: ColumnId)
    requires c'.primaryKeys == c.primaryKeys && c'.indexes == c.indexes && c'.foreignKeys == c.foreignKeys
    ensures Constrained(c', t, id) <==> Constrained(c, t, id)
  {
  }

  lemma {:induction false} PositionOfPrefix(columns: seq<Column>, more: seq<Column>, id: ColumnId)
    requires Position(columns, id).Some?
    ensures Position(columns + more, id) == Position(columns, id)
  {
    if columns[0].id != id {
      assert (columns + more)[1..] == columns[1..] + more;
      PositionOfPrefix(columns[1..], more, id);
    }
  }

  lemma AppendedRow(s: Schema, s': Schema, t: TableId, column: Column, row: seq<Value>)
    requires Valid(s.catalog) && OneTable(s.catalog, s'.catalog, t) && column.nullable
    requires s'.catalog.tables[t] == s.catalog.tables[t].(columns := s.catalog.tables[t].columns + [column])
    requires AllStorable(row) && ValidStored(s.catalog.tables[t], row)
    ensures RowCarried(s, s', t, row, row)
    ensures SameValues(s.catalog.tables[t], row, s'.catalog.tables[t], row, None)
  {
    hide Valid, Constrained, HasType, Position;
    var def, def' := s.catalog.tables[t], s'.catalog.tables[t];
    forall id | ColumnAt(def, id).Some? ensures SameAt(def, Materialize(def, row), def', Materialize(def', row), id) {
      PositionOfPrefix(def.columns, [column], id);
    }
    forall id | Constrained(s'.catalog, t, id) ensures SameAt(def, Materialize(def, row), def', Materialize(def', row), id) {
      SameConstrained(s.catalog, s'.catalog, t, id);
      CatalogLaws.ConstrainedExists(s.catalog, t, id);
    }
    forall id | ColumnAt(def, id).None? && ColumnAt(def', id).Some? ensures Lookup(def', Materialize(def', row), id) == Ok(Null) {
      assert Position(def'.columns, id).value == |def.columns|;
    }
  }

  lemma {:induction false} PositionOfSame(a: seq<Column>, b: seq<Column>, id: ColumnId)
    requires |a| == |b| && forall i :: 0 <= i < |a| ==> a[i].id == b[i].id
    ensures Position(a, id) == Position(b, id)
  {
    if a != [] {
      PositionOfSame(a[1..], b[1..], id);
    }
  }

  /** Renaming leaves the layout of rows alone. */
  lemma RenamedRow(s: Schema, s': Schema, t: TableId, row: seq<Value>)
    requires t in s.catalog.tables && t in s'.catalog.tables
    requires var def, def' := s.catalog.tables[t], s'.catalog.tables[t];
             && |def'.columns| == |def.columns|
             && forall i :: 0 <= i < |def.columns| ==>
                  def'.columns[i].id == def.columns[i].id && def'.columns[i].kind == def.columns[i].kind
                  && def'.columns[i].nullable == def.columns[i].nullable
    requires AllStorable(row) && ValidStored(s.catalog.tables[t], row)
    ensures RowCarried(s, s', t, row, row)
    ensures SameValues(s.catalog.tables[t], row, s'.catalog.tables[t], row, None)
  {
    hide Constrained, HasType, Position;
    var def, def' := s.catalog.tables[t], s'.catalog.tables[t];
    assert Materialize(def, row) == Materialize(def', row);
    forall id ensures ColumnAt(def', id).Some? <==> ColumnAt(def, id).Some? {
      PositionOfSame(def.columns, def'.columns, id);
    }
    forall id ensures SameAt(def, Materialize(def, row), def', Materialize(def', row), id) {
      PositionOfSame(def.columns, def'.columns, id);
    }
  }

  /** Converting an unconstrained column changes no other. */
  lemma ConvertedRow(s: Schema, s': Schema, t: TableId, p: nat, column: Column, row: seq<Value>, row': seq<Value>)
    requires OneTable(s.catalog, s'.catalog, t) && p < |s.catalog.tables[t].columns| && |row| <= |s.catalog.tables[t].columns|
    requires Position(s.catalog.tables[t].columns, column.id) == Some(p) && !Constrained(s.catalog, t, column.id)
    requires s'.catalog.tables[t] == s.catalog.tables[t].(columns := s.catalog.tables[t].columns[p := column])
    requires AllStorable(row') && ValidRow(s'.catalog.tables[t], row')
    requires forall i :: 0 <= i < |row'| && i != p ==> row'[i] == Materialize(s.catalog.tables[t], row)[i]
    ensures RowCarried(s, s', t, row, row')
    ensures SameValues(s.catalog.tables[t], row, s'.catalog.tables[t], row', Some(column.id))
  {
    hide Constrained, HasType, Position;
    var def, def' := s.catalog.tables[t], s'.catalog.tables[t];
    assert Materialize(def', row') == row';
    forall id ensures ColumnAt(def', id).Some? <==> ColumnAt(def, id).Some? {
      PositionOfSame(def.columns, def'.columns, id);
    }
    forall id | id != column.id ensures SameAt(def, Materialize(def, row), def', Materialize(def', row'), id) {
      PositionOfSame(def.columns, def'.columns, id);
    }
    forall id | Constrained(s'.catalog, t, id) ensures SameAt(def, Materialize(def, row), def', Materialize(def', row'), id) {
      SameConstrained(s.catalog, s'.catalog, t, id);
    }
  }

  lemma {:induction false} PositionWithout(columns: seq<Column>, p: nat, id: ColumnId)
    requires p < |columns| && columns[p].id != id
    ensures Position(columns[..p] + columns[p + 1..], id) ==
            match Position(columns, id)
            case None => None
            case Some(q) => Some(if q < p then q else q - 1)
  {
    var without := columns[..p] + columns[p + 1..];
    if p == 0 {
      assert without == columns[1..];
    } else {
      var rest := columns[1..];
      assert without[0] == columns[0];
      assert without[1..] == rest[..p - 1] + rest[p..];
      if columns[0].id != id {
        PositionWithout(rest, p - 1, id);
      }
    }
  }

  /** Taking out an unconstrained column moves the others but keeps their values. */
  lemma ShortenedRow(s: Schema, s': Schema, t: TableId, p: nat, row: seq<Value>, row': seq<Value>)
    requires OneTable(s.catalog, s'.catalog, t) && p < |s.catalog.tables[t].columns| && |row| <= |s.catalog.tables[t].columns|
    requires !Constrained(s.catalog, t, s.catalog.tables[t].columns[p].id)
    requires s'.catalog.tables[t].columns == s.catalog.tables[t].columns[..p] + s.catalog.tables[t].columns[p + 1..]
    requires AllStorable(row') && ValidRow(s'.catalog.tables[t], row')
    requires var full := Materialize(s.catalog.tables[t], row); row' == full[..p] + full[p + 1..]
    ensures RowCarried(s, s', t, row, row')
    ensures SameValues(s.catalog.tables[t], row, s'.catalog.tables[t], row', Some(s.catalog.tables[t].columns[p].id))
  {
    hide Constrained, HasType, Position;
    var def, def' := s.catalog.tables[t], s'.catalog.tables[t];
    assert Materialize(def', row') == row';
    forall id | id != def.columns[p].id ensures SameAt(def, Materialize(def, row), def', Materialize(def', row'), id) {
      PositionWithout(def.columns, p, id);
    }
    forall id | ColumnAt(def, id).None? ensures ColumnAt(def', id).None? {
      PositionWithout(def.columns, p, id);
    }
    forall id | Constrained(s'.catalog, t, id) ensures SameAt(def, Materialize(def, row), def', Materialize(def', row'), id) {
      SameConstrained(s.catalog, s'.catalog, t, id);
    }
  }

  // ---- steps that only change the catalog ----------------------------------

  lemma WorkOf(base: Trees, b: Batch, b': Batch)
    requires Staged(b) == Staged(b')
    ensures Work(base, b) == Work(base, b')
  {
  }

  /** Every row of a sound store is stored in its table's layout. */
  lemma CellIsRow(fp: FloatUnit, s: Schema, img: Trees, t: TableId, l: Loc)
    requires Sound(fp, s, img) && t in s.catalog.tables && l in img.cells && l.tree == TableTree(s, t)
    ensures img.cells[l].Row? && AllStorable(img.cells[l].values) && ValidStored(s.catalog.tables[t], img.cells[l].values)
    ensures FitsU32(l.key)
  {
    hide Valid, MappingOk, ForeignKeysOk, Mapped, IndexOk, UniqueOk, IndexKey, IdentityOk, ValidStored;
    assert l == Loc(TableTree(s, t), l.key);
    assert RowCellOk(fp, s, img, t, l.key);
  }

  /** The rows stay as they are and are read under a new definition. */
  lemma RelabelledRows(fp: FloatUnit, s: Schema, img: Trees, s': Schema, t: TableId)
    requires Sound(fp, s, img) && t in s.catalog.tables && t in s'.catalog.tables
    requires forall row :: AllStorable(row) && ValidStored(s.catalog.tables[t], row) ==> RowCarried(s, s', t, row, row)
    ensures RowsMoved(s, img, s', img, t)
  {
    hide Sound, RowCarried, ValidStored, AllStorable;
    forall l: Loc | l.tree == TableTree(s, t) ensures CellCarried(s, img, s', img, t, l) {
      if l in img.cells {
        CellIsRow(fp, s, img, t, l);
      }
    }
  }

  lemma RelabelKeeps(fp: FloatUnit, base: Trees, b: Batch, c: Catalog, t: TableId)
    requires InOrder(fp, base, b) && Valid(c) && OneTable(b.schema.catalog, c, t)
    requires forall row :: AllStorable(row) && ValidStored(b.schema.catalog.tables[t], row) ==>
               RowCarried(b.schema, WithCatalog(b, c).schema, t, row, row)
    ensures InOrder(fp, base, WithCatalog(b, c))
  {
    hide Valid, Work, Bounded, RowCarried, ValidStored, AllStorable, MappingOk, IndexesOk, ForeignKeysOk, RowsMoved;
    var b' := WithCatalog(b, c);
    WorkOf(base, b, b');
    BoundedAgain(base, b, b');
    RelabelledRows(fp, b.schema, Work(base, b), b'.schema, t);
    OneTableSound(fp, b.schema, Work(base, b), b'.schema, Work(base, b), t);
  }

  lemma BoundedAgain(base: Trees, b: Batch, b': Batch)
    requires Bounded(base, b) && Staged(b) == Staged(b') && b.next == b'.next
    ensures Bounded(base, b')
  {
  }

  lemma AddColumnKeeps(fp: FloatUnit, base: Trees, b: Batch, t: TableId, column: Column)
    requires InOrder(fp, base, b) && ApplyAddNullableColumn(b.schema.catalog, t, column).Ok?
    ensures InOrder(fp, base, WithCatalog(b, ApplyAddNullableColumn(b.schema.catalog, t, column).value))
  {
    hide InOrder, Valid, RowCarried, ValidStored, AllStorable;
    InOrderValid(fp, base, b);
    CatalogIds(b.schema.catalog, t);
    CatalogLaws.AddNullableColumnKeeps(b.schema.catalog, t, column);
    var c := ApplyAddNullableColumn(b.schema.catalog, t, column).value;
    forall row | AllStorable(row) && ValidStored(b.schema.catalog.tables[t], row)
      ensures RowCarried(b.schema, WithCatalog(b, c).schema, t, row, row)
    {
      AppendedRow(b.schema, WithCatalog(b, c).schema, t, column, row);
    }
    RelabelKeeps(fp, base, b, c, t);
  }

  lemma InOrderValid(fp: FloatUnit, base: Trees, b: Batch)
    requires InOrder(fp, base, b)
    ensures Valid(b.schema.catalog) && MappingOk(b.schema) && Sound(fp, b.schema, Work(base, b)) && Bounded(base, b)
  {
    hide Valid, MappingOk, IndexesOk, ForeignKeysOk, Work, Bounded;
  }

  lemma RenameColumnKeeps(fp: FloatUnit, base: Trees, b: Batch, t: TableId, id: ColumnId, name: Name)
    requires InOrder(fp, base, b) && ApplyRenameColumn(b.schema.catalog, t, id, name).Ok?
    ensures InOrder(fp, base, WithCatalog(b, ApplyRenameColumn(b.schema.catalog, t, id, name).value))
  {
    hide InOrder, Valid, RowCarried, ValidStored, AllStorable, Constrained, MappingOk, Work;
    InOrderValid(fp, base, b);
    CatalogIds(b.schema.catalog, t);
    CatalogLaws.MutationKeepsValid(b.schema.catalog, RenameColumn(t, id, name));
    var c := ApplyRenameColumn(b.schema.catalog, t, id, name).value;
    forall row | AllStorable(row) && ValidStored(b.schema.catalog.tables[t], row)
      ensures RowCarried(b.schema, WithCatalog(b, c).schema, t, row, row)
    {
      RenamedRow(b.schema, WithCatalog(b, c).schema, t, row);
    }
    RelabelKeeps(fp, base, b, c, t);
  }

  lemma RenameTableKeeps(fp: FloatUnit, base: Trees, b: Batch, t: TableId, name: Name)
    requires InOrder(fp, base, b) && ApplyRenameTable(b.schema.catalog, t, name).Ok?
    ensures InOrder(fp, base, WithCatalog(b, ApplyRenameTable(b.schema.catalog, t, name).value))
  {
    hide InOrder, Valid, RowCarried, ValidStored, AllStorable;
    InOrderValid(fp, base, b);
    CatalogIds(b.schema.catalog, t);
    CatalogLaws.RenameTableKeeps(b.schema.catalog, t, name);
    var c := ApplyRenameTable(b.schema.catalog, t, name).value;
    forall row | AllStorable(row) && ValidStored(b.schema.catalog.tables[t], row)
      ensures RowCarried(b.schema, WithCatalog(b, c).schema, t, row, row)
    {
      RenamedRow(b.schema, WithCatalog(b, c).schema, t, row);
    }
    RelabelKeeps(fp, base, b, c, t);
  }

  // ---- steps that take definitions away ------------------------------------

  /** The new schema is part of the old one, over an image that keeps its trees. */
  ghost predicate PartOf(s: Schema, a: Trees, s': Schema, b: Trees) {
    && s'.catalog.tables.Keys <= s.catalog.tables.Keys
    && (forall t :: t in s'.catalog.tables ==>
          && s'.catalog.tables[t] == s.catalog.tables[t]
          && TableTree(s', t) == TableTree(s, t) && SameTree(a, b, TableTree(s, t))
          && (t in s'.catalog.primaryKeys <==> t in s.catalog.primaryKeys)
          && (t in s.catalog.primaryKeys ==> s'.catalog.primaryKeys[t] == s.catalog.primaryKeys[t]))
    && s'.catalog.indexes.Keys <= s.catalog.indexes.Keys
    && (forall i :: i in s'.catalog.indexes ==>
          s'.catalog.indexes[i] == s.catalog.indexes[i] && IndexTree(s', i) == IndexTree(s, i) && SameTree(a, b, IndexTree(s, i)))
    && s'.catalog.foreignKeys.Keys <= s.catalog.foreignKeys.Keys
    && (forall k :: k in s'.catalog.foreignKeys ==> s'.catalog.foreignKeys[k] == s.catalog.foreignKeys[k])
  }

  lemma PartIsSound(fp: FloatUnit, s: Schema, a: Trees, s': Schema, b: Trees)
    requires Sound(fp, s, a) && Valid(s'.catalog) && MappingOk(s') && Mapped(s', b) && PartOf(s, a, s', b)
    ensures Sound(fp, s', b)
  {
    hide Valid, MappingOk, Mapped, ForeignKeysOk, IndexOk, UniqueOk, SameTree, RowCellOk, NewIndexOk, ForeignOk, TableCarried, IndexCarried;
    IndexTables(s.catalog);
    IndexTables(s'.catalog);
    forall t | t in s'.catalog.tables ensures TableCarried(s, a, s', b, t) {
      TableStays(fp, s, a, s', b, t);
    }
    forall i | i in s'.catalog.indexes ensures IndexCarried(s, a, s', b, i) {
      IndexStays(s, a, s', b, i);
    }
    CarriedIsSound(fp, s, a, s', b);
  }

  lemma DropKeyKeeps(fp: FloatUnit, base: Trees, b: Batch, k: ConstraintId)
    requires InOrder(fp, base, b) && ApplyDropForeignKey(b.schema.catalog, k).Ok?
    ensures InOrder(fp, base, WithCatalog(b, ApplyDropForeignKey(b.schema.catalog, k).value))
  {
    hide Valid, Work, IndexesOk, ForeignKeysOk, Bounded, MappingOk, Mapped, PartOf;
    var b' := WithCatalog(b, ApplyDropForeignKey(b.schema.catalog, k).value);
    CatalogLaws.DropForeignKeyKeeps(b.schema.catalog, k);
    WorkOf(base, b, b');
    BoundedAgain(base, b, b');
    KeyDropped(b.schema, b'.schema, Work(base, b), k);
    PartIsSound(fp, b.schema, Work(base, b), b'.schema, Work(base, b'));
  }

  lemma KeyDropped(s: Schema, s': Schema, a: Trees, k: ConstraintId)
    requires MappingOk(s) && Mapped(s, a) && ApplyDropForeignKey(s.catalog, k) == Ok(s'.catalog)
    requires s'.tableTrees == s.tableTrees && s'.indexTrees == s.indexTrees
    ensures MappingOk(s') && Mapped(s', a) && PartOf(s, a, s', a)
  {
  }

  /** Dropping more trees takes their cells away and nothing else. */
  lemma WorkDropped(base: Trees, b: Batch, b': Batch, trees: set<TreeId>)
    requires b'.writes == b.writes && b'.created == b.created && b'.dropped == b.dropped + trees
    ensures Work(base, b').live == Work(base, b).live - trees
    ensures forall l: Loc :: Work(base, b').Get(l) == if l.tree in trees then None else Work(base, b).Get(l)
  {
  }

  lemma MappedWithout(s: Schema, a: Trees, s': Schema, b: Trees, trees: set<TreeId>)
    requires Mapped(s, a) && b.live == a.live - trees && MappedTrees(s') == MappedTrees(s) - trees
    requires forall l: Loc :: b.Get(l) == if l.tree in trees then None else a.Get(l)
    ensures Mapped(s', b)
  {
    forall l | l in b.cells ensures l in a.cells && l.tree !in trees {
      Cells(a, l);
      Cells(b, l);
    }
  }

  lemma DropIndexKeeps(fp: FloatUnit, base: Trees, b: Batch, i: IndexId)
    requires InOrder(fp, base, b) && ApplyDropIndex(b.schema.catalog, i).Ok?
    ensures InOrder(fp, base, WithoutIndex(b, ApplyDropIndex(b.schema.catalog, i).value, i))
  {
    hide Valid, Work, IndexesOk, ForeignKeysOk, Mapped, PartOf, Supporting, Bounded, MappedTrees;
    var c := ApplyDropIndex(b.schema.catalog, i).value;
    var b' := WithoutIndex(b, c, i);
    var tree := IndexTree(b.schema, i);
    CatalogLaws.DropIndexKeeps(b.schema.catalog, i);
    WorkDropped(base, b, b', {tree});
    DroppedIndexTrees(b.schema, b'.schema, i);
    MappedWithout(b.schema, Work(base, b), b'.schema, Work(base, b'), {tree});
    DroppedIndexPart(b.schema, Work(base, b), b'.schema, Work(base, b'), i);
    PartIsSound(fp, b.schema, Work(base, b), b'.schema, Work(base, b'));
    IndexIsMapped(b.schema, i);
    TreeInUse(fp, base, b, tree);
    BoundedDropped(base, b, b', {tree});
    VacantStill(base, b, b', {tree});
  }

  lemma IndexIsMapped(s: Schema, i: IndexId)
    requires MappingOk(s) && i in s.catalog.indexes
    ensures IndexTree(s, i) in MappedTrees(s) && IndexTree(s, i) != CATALOG_TREE
  {
  }

  lemma BoundedDropped(base: Trees, b: Batch, b': Batch, trees: set<TreeId>)
    requires Bounded(base, b) && CATALOG_TREE !in trees && forall t :: t in trees ==> t < b.next
    requires b'.writes == b.writes && b'.created == b.created && b'.dropped == b.dropped + trees && b'.next == b.next
    ensures Bounded(base, b')
  {
  }

  lemma DroppedIndexTrees(s: Schema, s': Schema, i: IndexId)
    requires MappingOk(s) && i in s.catalog.indexes
    requires s'.catalog.tables.Keys == s.catalog.tables.Keys && s'.catalog.indexes.Keys == s.catalog.indexes.Keys - {i}
    requires s'.tableTrees == s.tableTrees && s'.indexTrees == s.indexTrees - {i}
    ensures MappingOk(s') && MappedTrees(s') == MappedTrees(s) - {IndexTree(s, i)}
  {
    var tree := IndexTree(s, i);
    forall x | x in MappedTrees(s) && x != tree ensures x in MappedTrees(s') {
      if x in s.indexTrees.Values {
        var j :| j in s.indexTrees && s.indexTrees[j] == x;
        assert s'.indexTrees[j] == x;
      }
    }
    forall x | x in MappedTrees(s') ensures x in MappedTrees(s) && x != tree {
      if x in s'.indexTrees.Values {
        var j :| j in s'.indexTrees && s'.indexTrees[j] == x;
        assert s.indexTrees[j] == x;
      }
    }
  }

  lemma DroppedIndexPart(s: Schema, a: Trees, s': Schema, b: Trees, i: IndexId)
    requires MappingOk(s) && i in s.catalog.indexes
    requires s'.catalog.tables == s.catalog.tables && s'.catalog.primaryKeys == s.catalog.primaryKeys && s'.catalog.foreignKeys == s.catalog.foreignKeys
    requires s'.catalog.indexes == s.catalog.indexes - {i} && s'.tableTrees == s.tableTrees && s'.indexTrees == s.indexTrees - {i}
    requires forall l: Loc :: b.Get(l) == if l.tree == IndexTree(s, i) then None else a.Get(l)
    ensures PartOf(s, a, s', b)
  {
    forall t | t in s.catalog.tables ensures SameTree(a, b, TableTree(s, t)) {
      assert s.tableTrees[t] != s.indexTrees[i];
    }
  }

  lemma TreeInUse(fp: FloatUnit, base: Trees, b: Batch, tree: TreeId)
    requires InOrder(fp, base, b) && tree in MappedTrees(b.schema)
    ensures tree < b.next
  {
    hide IndexesOk, ForeignKeysOk, Valid, MappingOk, MappedTrees;
  }

  lemma VacantStill(base: Trees, b: Batch, b': Batch, trees: set<TreeId>)
    requires forall t :: t in b.schema.tableTrees && b.schema.tableTrees[t] in b.created ==> Vacant(Work(base, b), b.schema.tableTrees[t])
    requires forall t :: t in b'.schema.tableTrees ==> t in b.schema.tableTrees && b'.schema.tableTrees[t] == b.schema.tableTrees[t]
    requires b'.created == b.created
    requires forall l: Loc :: Work(base, b').Get(l) == if l.tree in trees then None else Work(base, b).Get(l)
    ensures forall t :: t in b'.schema.tableTrees && b'.schema.tableTrees[t] in b'.created ==> Vacant(Work(base, b'), b'.schema.tableTrees[t])
  {
    hide Work;
    forall t | t in b'.schema.tableTrees && b'.schema.tableTrees[t] in b'.created ensures Vacant(Work(base, b'), b'.schema.tableTrees[t]) {
      forall l | l in Work(base, b').cells ensures l.tree != b'.schema.tableTrees[t] {
        Cells(Work(base, b), l);
        Cells(Work(base, b'), l);
      }
    }
  }

  /** The trees a dropped table takes with it. */
  function TableTrees(s: Schema, t: TableId): set<TreeId> {
    {TableTree(s, t)} + set i | i in s.indexTrees && Owns(s.catalog, t, i) :: s.indexTrees[i]
  }

  lemma DropTableKeeps(fp: FloatUnit, base: Trees, b: Batch, t: TableId)
    requires InOrder(fp, base, b) && ApplyDropTable(b.schema.catalog, t).Ok?
    ensures InOrder(fp, base, WithoutTable(b, ApplyDropTable(b.schema.catalog, t).value, t))
  {
    hide Valid, Work, IndexesOk, ForeignKeysOk, Mapped, PartOf, ApplyDropTable, MappingOk, MappedTrees, Bounded, TableTrees;
    var c := ApplyDropTable(b.schema.catalog, t).value;
    var b' := WithoutTable(b, c, t);
    var trees := TableTrees(b.schema, t);
    CatalogLaws.DropTableKeeps(b.schema.catalog, t);
    CatalogLaws.DropTableShape(b.schema.catalog, t);
    DroppedNames(b.schema.catalog, t);
    DroppedTrees(b, c, t);
    WorkDropped(base, b, b', trees);
    DroppedTableTrees(b.schema, b'.schema, t);
    MappedWithout(b.schema, Work(base, b), b'.schema, Work(base, b'), trees);
    DroppedTablePart(b.schema, Work(base, b), b'.schema, Work(base, b'), t);
    PartIsSound(fp, b.schema, Work(base, b), b'.schema, Work(base, b'));
    forall tree | tree in trees ensures tree < b.next && tree != CATALOG_TREE {
      TreeIsMapped(b.schema, t, tree);
      TreeInUse(fp, base, b, tree);
    }
    BoundedDropped(base, b, b', trees);
    VacantStill(base, b, b', trees);
  }

  lemma DroppedNames(c: Catalog, t: TableId)
    requires ApplyDropTable(c, t).Ok?
    ensures t in c.tables
  {
  }

  lemma DroppedTrees(b: Batch, c: Catalog, t: TableId)
    ensures WithoutTable(b, c, t).dropped == b.dropped + TableTrees(b.schema, t)
  {
    var owned := set i | i in b.schema.indexTrees && Owns(b.schema.catalog, t, i);
    assert (set i | i in owned :: b.schema.indexTrees[i])
           == set i | i in b.schema.indexTrees && Owns(b.schema.catalog, t, i) :: b.schema.indexTrees[i];
  }

  lemma TreeIsMapped(s: Schema, t: TableId, tree: TreeId)
    requires MappingOk(s) && t in s.catalog.tables && tree in TableTrees(s, t)
    ensures tree in MappedTrees(s) && tree != CATALOG_TREE
  {
  }

  lemma DroppedTableTrees(s: Schema, s': Schema, t: TableId)
    requires MappingOk(s) && t in s.catalog.tables
    requires s'.catalog.tables.Keys == s.catalog.tables.Keys - {t}
    requires forall i :: i in s'.catalog.indexes <==> i in s.catalog.indexes && s.catalog.indexes[i].table != t
    requires s'.tableTrees == s.tableTrees - {t}
    requires s'.indexTrees == s.indexTrees - set i | i in s.indexTrees && Owns(s.catalog, t, i)
    ensures MappingOk(s') && MappedTrees(s') == MappedTrees(s) - TableTrees(s, t)
  {
    assert s'.indexTrees.Keys == s'.catalog.indexes.Keys;
    assert MappingOk(s') by { SubMapping(s, s'); }
    hide MappingOk, TableTrees;
    forall x | x in MappedTrees(s) && x !in TableTrees(s, t) ensures x in MappedTrees(s') {
      StaysMapped(s, s', t, x);
    }
    forall x | x in MappedTrees(s') ensures x in MappedTrees(s) && x !in TableTrees(s, t) {
      WasMapped(s, s', t, x);
    }
  }

  lemma SubMapping(s: Schema, s': Schema)
    requires MappingOk(s) && s'.tableTrees.Keys == s'.catalog.tables.Keys && s'.indexTrees.Keys == s'.catalog.indexes.Keys
    requires forall t :: t in s'.tableTrees ==> t in s.tableTrees && s'.tableTrees[t] == s.tableTrees[t]
    requires forall i :: i in s'.indexTrees ==> i in s.indexTrees && s'.indexTrees[i] == s.indexTrees[i]
    ensures MappingOk(s')
  {
  }

  lemma StaysMapped(s: Schema, s': Schema, t: TableId, x: TreeId)
    requires s'.tableTrees == s.tableTrees - {t}
    requires s'.indexTrees == s.indexTrees - set i | i in s.indexTrees && Owns(s.catalog, t, i)
    requires x in MappedTrees(s) && x !in TableTrees(s, t)
    ensures x in MappedTrees(s')
  {
    if x in s.indexTrees.Values {
      var j :| j in s.indexTrees && s.indexTrees[j] == x;
      assert s'.indexTrees[j] == x;
    } else if x in s.tableTrees.Values {
      var u :| u in s.tableTrees && s.tableTrees[u] == x;
      assert s'.tableTrees[u] == x;
    }
  }

  lemma WasMapped(s: Schema, s': Schema, t: TableId, x: TreeId)
    requires MappingOk(s) && t in s.catalog.tables && s'.tableTrees == s.tableTrees - {t}
    requires s'.indexTrees == s.indexTrees - set i | i in s.indexTrees && Owns(s.catalog, t, i)
    requires x in MappedTrees(s')
    ensures x in MappedTrees(s) && x !in TableTrees(s, t)
  {
    if x in s'.indexTrees.Values {
      var j :| j in s'.indexTrees && s'.indexTrees[j] == x;
      assert s.indexTrees[j] == x;
      OtherIndex(s, t, j);
    } else if x in s'.tableTrees.Values {
      var u :| u in s'.tableTrees && s'.tableTrees[u] == x;
      assert s.tableTrees[u] == x;
      OtherTable(s, t, u);
    } else {
      assert forall i :: i in s.indexTrees ==> s.indexTrees[i] != CATALOG_TREE;
    }
  }

  lemma DroppedTablePart(s: Schema, a: Trees, s': Schema, b: Trees, t: TableId)
    requires MappingOk(s) && t in s.catalog.tables
    requires s'.catalog.tables == s.catalog.tables - {t} && s'.catalog.primaryKeys == s.catalog.primaryKeys - {t}
    requires forall i :: i in s'.catalog.indexes <==> i in s.catalog.indexes && s.catalog.indexes[i].table != t
    requires forall i :: i in s'.catalog.indexes ==> s'.catalog.indexes[i] == s.catalog.indexes[i]
    requires forall k :: k in s'.catalog.foreignKeys ==> k in s.catalog.foreignKeys && s'.catalog.foreignKeys[k] == s.catalog.foreignKeys[k]
    requires s'.tableTrees == s.tableTrees - {t}
    requires s'.indexTrees == s.indexTrees - set i | i in s.indexTrees && Owns(s.catalog, t, i)
    requires forall l: Loc :: b.Get(l) == if l.tree in TableTrees(s, t) then None else a.Get(l)
    ensures PartOf(s, a, s', b)
  {
    hide TableTrees, MappingOk, SameTree;
    MappedKeys(s);
    forall u | u in s'.catalog.tables ensures TableTree(s', u) == TableTree(s, u) && SameTree(a, b, TableTree(s, u)) {
      OtherTable(s, t, u);
      OutsideTrees(a, b, TableTrees(s, t), TableTree(s, u));
    }
    forall i | i in s'.catalog.indexes ensures IndexTree(s', i) == IndexTree(s, i) && SameTree(a, b, IndexTree(s, i)) {
      OtherIndex(s, t, i);
      OutsideTrees(a, b, TableTrees(s, t), IndexTree(s, i));
    }
  }

  lemma MappedKeys(s: Schema)
    requires MappingOk(s)
    ensures s.tableTrees.Keys == s.catalog.tables.Keys && s.indexTrees.Keys == s.catalog.indexes.Keys
  {
  }

  lemma OtherTable(s: Schema, t: TableId, u: TableId)
    requires MappingOk(s) && t in s.catalog.tables && u in s.catalog.tables && u != t
    ensures TableTree(s, u) !in TableTrees(s, t)
  {
    assert s.tableTrees[u] != s.tableTrees[t];
  }

  lemma OtherIndex(s: Schema, t: TableId, i: IndexId)
    requires MappingOk(s) && t in s.catalog.tables && i in s.catalog.indexes && s.catalog.indexes[i].table != t
    ensures IndexTree(s, i) !in TableTrees(s, t)
  {
    assert s.tableTrees[t] != s.indexTrees[i];
  }

  lemma OutsideTrees(a: Trees, b: Trees, trees: set<TreeId>, tree: TreeId)
    requires tree !in trees && forall l: Loc :: b.Get(l) == if l.tree in trees then None else a.Get(l)
    ensures SameTree(a, b, tree)
  {
  }

  // ---- steps that add definitions ------------------------------------------

  lemma WorkGrown(base: Trees, b: Batch, b': Batch)
    requires Bounded(base, b) && b'.created == b.created + {b.next} && b'.dropped == b.dropped
    requires forall l: Loc :: l.tree != b.next ==> SameWrite(b.writes, b'.writes, l)
    ensures Work(base, b').live == Work(base, b).live + {b.next}
    ensures forall l: Loc :: l.tree != b.next ==> Work(base, b').Get(l) == Work(base, b).Get(l)
    ensures forall l: Loc :: l.tree == b.next ==> Work(base, b').Get(l) == if l in b'.writes then b'.writes[l] else None
    ensures forall l: Loc :: l.tree == b.next ==> Work(base, b).Get(l) == None
  {
  }

  /** The next tree is not one the schema maps. */
  lemma NextIsFree(fp: FloatUnit, base: Trees, b: Batch)
    requires InOrder(fp, base, b)
    ensures b.next !in MappedTrees(b.schema) && b.next != CATALOG_TREE
  {
    hide IndexesOk, ForeignKeysOk, Valid, MappingOk, MappedTrees;
  }

  lemma MappedGrown(s: Schema, a: Trees, s': Schema, b: Trees, tree: TreeId)
    requires Mapped(s, a) && b.live == a.live + {tree} && MappedTrees(s') == MappedTrees(s) + {tree} && tree != CATALOG_TREE
    requires forall l: Loc :: l.tree != tree ==> b.Get(l) == a.Get(l)
    ensures Mapped(s', b)
  {
    forall l | l in b.cells && l.tree != tree ensures l in a.cells {
      Cells(a, l);
      Cells(b, l);
    }
  }

  lemma MappingWithTable(s: Schema, s': Schema, t: TableId, tree: TreeId)
    requires MappingOk(s) && t !in s.catalog.tables && tree !in MappedTrees(s)
    requires s'.catalog.tables.Keys == s.catalog.tables.Keys + {t} && s'.catalog.indexes == s.catalog.indexes
    requires s'.tableTrees == s.tableTrees[t := tree] && s'.indexTrees == s.indexTrees
    ensures MappingOk(s') && MappedTrees(s') == MappedTrees(s) + {tree}
  {
    assert forall u :: u in s.tableTrees ==> s.tableTrees[u] in s.tableTrees.Values;
    assert forall i :: i in s.indexTrees ==> s.indexTrees[i] in s.indexTrees.Values;
    ValuesUpdated(s.tableTrees, t, tree);
  }

  lemma ValuesUpdated(m: map<u64, TreeId>, k: u64, v: TreeId)
    requires k !in m
    ensures m[k := v].Values == m.Values + {v}
  {
    forall x | x in m.Values + {v} ensures x in m[k := v].Values {
      if x == v {
        assert m[k := v][k] == x;
      } else {
        var j :| j in m && m[j] == x;
        assert m[k := v][j] == x;
      }
    }
  }

  lemma MappingWithIndex(s: Schema, s': Schema, i: IndexId, tree: TreeId)
    requires MappingOk(s) && i !in s.catalog.indexes && tree !in MappedTrees(s)
    requires s'.catalog.tables.Keys == s.catalog.tables.Keys && s'.catalog.indexes.Keys == s.catalog.indexes.Keys + {i}
    requires s'.tableTrees == s.tableTrees && s'.indexTrees == s.indexTrees[i := tree]
    ensures MappingOk(s') && MappedTrees(s') == MappedTrees(s) + {tree}
  {
    IndexMappingOk(s, s', i, tree);
    ValuesUpdated(s.indexTrees, i, tree);
  }

  lemma IndexMappingOk(s: Schema, s': Schema, i: IndexId, tree: TreeId)
    requires MappingOk(s) && i !in s.catalog.indexes && tree !in MappedTrees(s)
    requires s'.catalog.tables.Keys == s.catalog.tables.Keys && s'.catalog.indexes.Keys == s.catalog.indexes.Keys + {i}
    requires s'.tableTrees == s.tableTrees && s'.indexTrees == s.indexTrees[i := tree]
    ensures MappingOk(s')
  {
    assert forall u :: u in s.tableTrees ==> s.tableTrees[u] in s.tableTrees.Values;
    assert forall j :: j in s.indexTrees ==> s.indexTrees[j] in s.indexTrees.Values;
  }

  /** The old definitions are all still there, over trees that kept their cells. */
  ghost predicate GrownFrom(s: Schema, a: Trees, s': Schema, b: Trees) {
    && (forall t :: t in s.catalog.tables ==>
          && t in s'.catalog.tables && s'.catalog.tables[t] == s.catalog.tables[t]
          && TableTree(s', t) == TableTree(s, t) && SameTree(a, b, TableTree(s, t))
          && (t in s'.catalog.primaryKeys <==> t in s.catalog.primaryKeys)
          && (t in s.catalog.primaryKeys ==> s'.catalog.primaryKeys[t] == s.catalog.primaryKeys[t]))
    && (forall i :: i in s.catalog.indexes ==>
          && i in s'.catalog.indexes && s'.catalog.indexes[i] == s.catalog.indexes[i]
          && IndexTree(s', i) == IndexTree(s, i) && SameTree(a, b, IndexTree(s, i)))
    && (forall k :: k in s.catalog.foreignKeys ==> k in s'.catalog.foreignKeys && s'.catalog.foreignKeys[k] == s.catalog.foreignKeys[k])
  }

  lemma GrownCarries(fp: FloatUnit, s: Schema, a: Trees, s': Schema, b: Trees)
    requires Sound(fp, s, a) && GrownFrom(s, a, s', b)
    ensures Carries(s, a, s', b)
  {
    hide Valid, MappingOk, Mapped, ForeignKeysOk, IndexOk, UniqueOk, SameTree, RowCellOk, TableCarried, IndexCarried;
    IndexTables(s.catalog);
    forall t | t in s.catalog.tables ensures TableCarried(s, a, s', b, t) {
      TableStays(fp, s, a, s', b, t);
    }
    forall i | i in s.catalog.indexes ensures IndexCarried(s, a, s', b, i) {
      IndexStays(s, a, s', b, i);
    }
  }

  /** Trees of the schema are not the one that was just created. */
  lemma OldTreesSame(s: Schema, a: Trees, b: Trees, tree: TreeId)
    requires MappingOk(s) && tree !in MappedTrees(s)
    requires forall l: Loc :: l.tree != tree ==> b.Get(l) == a.Get(l)
    ensures forall t :: t in s.catalog.tables ==> SameTree(a, b, TableTree(s, t)) && TableTree(s, t) != tree
    ensures forall i :: i in s.catalog.indexes ==> SameTree(a, b, IndexTree(s, i)) && IndexTree(s, i) != tree
  {
    forall t | t in s.catalog.tables ensures TableTree(s, t) != tree {
      assert s.tableTrees[t] in s.tableTrees.Values;
    }
    forall i | i in s.catalog.indexes ensures IndexTree(s, i) != tree {
      assert s.indexTrees[i] in s.indexTrees.Values;
    }
  }

  lemma CreateTableKeeps(fp: FloatUnit, base: Trees, b: Batch, def: Table, key: Option<seq<ColumnId>>)
    requires InOrder(fp, base, b) && ApplyCreateTable(b.schema.catalog, def, key).Ok?
    ensures InOrder(fp, base, WithTableTree(b, ApplyCreateTable(b.schema.catalog, def, key).value, def.id))
  {
    hide Valid, Work, IndexesOk, ForeignKeysOk, Mapped, GrownFrom, ApplyCreateTable, MappingOk, MappedTrees, SameTree, Carries, NewOk;
    var c := ApplyCreateTable(b.schema.catalog, def, key).value;
    var b' := WithTableTree(b, c, def.id);
    var s, s', a, w := b.schema, b'.schema, Work(base, b), Work(base, b');
    CatalogLaws.CreateTableKeeps(s.catalog, def, key);
    CatalogLaws.CreateTableShape(s.catalog, def, key);
    WorkGrown(base, b, b');
    NextIsFree(fp, base, b);
    MappingWithTable(s, s', def.id, b.next);
    MappedGrown(s, a, s', w, b.next);
    OldTreesSame(s, a, w, b.next);
    MappedKeys(s);
    CreatedGrows(s, a, s', w, def, key);
    GrownCarries(fp, s, a, s', w);
    NextVacant(base, b, b');
    NewTableOk(fp, s, s', w, def.id);
    CarriedIsSound(fp, s, a, s', w);
    VacantGrown(base, b, b');
  }

  lemma NextVacant(base: Trees, b: Batch, b': Batch)
    requires Bounded(base, b) && b'.writes == b.writes
    ensures Vacant(Work(base, b'), b.next)
  {
  }

  lemma CreatedGrows(s: Schema, a: Trees, s': Schema, b: Trees, def: Table, key: Option<seq<ColumnId>>)
    requires MappingOk(s) && ApplyCreateTable(s.catalog, def, key) == Ok(s'.catalog)
    requires s'.tableTrees.Keys == s.tableTrees.Keys + {def.id} && s'.indexTrees == s.indexTrees
    requires forall t :: t in s.tableTrees ==> s'.tableTrees[t] == s.tableTrees[t]
    requires forall t :: t in s.catalog.tables ==> SameTree(a, b, TableTree(s, t))
    requires forall i :: i in s.catalog.indexes ==> SameTree(a, b, IndexTree(s, i))
    ensures GrownFrom(s, a, s', b)
  {
    hide ApplyCreateTable, SameTree, MappingOk;
    CatalogLaws.CreateTableShape(s.catalog, def, key);
    MappedKeys(s);
  }

  lemma NewTableOk(fp: FloatUnit, s: Schema, s': Schema, b: Trees, t: TableId)
    requires Valid(s'.catalog) && s'.catalog.tables.Keys == s.catalog.tables.Keys + {t}
    requires s'.catalog.indexes == s.catalog.indexes && s'.catalog.foreignKeys == s.catalog.foreignKeys
    requires Vacant(b, TableTree(s', t))
    ensures NewOk(fp, s, s', b)
  {
    hide Valid, NewIndexOk, ForeignOk;
  }

  // ---- a new index ---------------------------------------------------------

  lemma KeysElsewhere(fp: FloatUnit, s: Schema, a: Trees, b: Trees, i: IndexId, id: ByteString)
    requires SameTree(a, b, OwnerTree(s, i))
    ensures KeyAt(fp, s, a, i, id) == KeyAt(fp, s, b, i, id)
  {
    hide RowKey;
  }

  /** The entries written are exactly those the rows imply. */
  lemma BuiltAgrees(fp: FloatUnit, s: Schema, a: Trees, b: Trees, i: IndexId, before: Writes<Datum>, after: Writes<Datum>)
    requires IndexBuilt(fp, s, a, i, before, after) && SameTree(a, b, OwnerTree(s, i))
    requires forall l: Loc :: l.tree == IndexTree(s, i) ==> b.Get(l) == if l in after then after[l] else None
    ensures IndexOk(fp, s, b, i)
  {
    hide KeyAt, EncodeEntry, DecodeEntry, SameTree;
    forall l | l in b.cells && l.tree == IndexTree(s, i) ensures WellFormed(l.key) && b.cells[l] == Entry(DecodeEntry(l.key).value.1) {
      Cells(b, l);
    }
    forall id | FitsU32(id) ensures AgreesAt(fp, s, b, i, id) {
      KeysElsewhere(fp, s, a, b, i, id);
      forall k | FitsU32(k) ensures Loc(IndexTree(s, i), EncodeEntry(k, id)) in b.cells <==> KeyAt(fp, s, b, i, id) == Some(k) {
        EntryRoundTrip(k, id);
        Cells(b, Loc(IndexTree(s, i), EncodeEntry(k, id)));
      }
    }
  }

  lemma BuiltIsNew(fp: FloatUnit, s: Schema, a: Trees, b: Trees, i: IndexId, before: Writes<Datum>, after: Writes<Datum>)
    requires i in s.catalog.indexes && s.catalog.indexes[i].table in s.catalog.tables
    requires IndexBuilt(fp, s, a, i, before, after) && SameTree(a, b, OwnerTree(s, i))
    requires forall l: Loc :: l.tree == IndexTree(s, i) ==> b.Get(l) == if l in after then after[l] else None
    requires KeysFit(fp, s, a, i) && (s.catalog.indexes[i].unique ==> UniqueOk(fp, s, a, i))
    ensures NewIndexOk(fp, s, b, i)
  {
    hide KeyAt, IndexOk, IndexBuilt, CellFits;
    BuiltAgrees(fp, s, a, b, i, before, after);
    forall id ensures KeyAt(fp, s, a, i, id) == KeyAt(fp, s, b, i, id) {
      KeysElsewhere(fp, s, a, b, i, id);
    }
    forall l | l in b.cells && l.tree == OwnerTree(s, i) ensures CellFits(fp, s, i, b.cells[l]) {
      Cells(a, l);
      Cells(b, l);
    }
  }

  lemma AddIndexKeeps(fp: FloatUnit, co: Coercion, base: Trees, b: Batch, index: Index, name: Option<Name>, b': Batch)
    requires InOrder(fp, base, b) && Stepped(fp, co, Work(base, b), b, AddIndex(index, name), b') && index.id !in b.schema.indexTrees
    ensures InOrder(fp, base, b')
  {
    hide Valid, Work, IndexesOk, ForeignKeysOk, Mapped, GrownFrom, ApplyAddIndex, MappingOk, MappedTrees, SameTree, Carries, NewOk,
         KeysFit, UniqueOk, ValidIndex, NewIndexOk;
    var s, s', a, w := b.schema, b'.schema, Work(base, b), Work(base, b');
    MappedKeys(s);
    CatalogLaws.AddIndexKeeps(s.catalog, index, name);
    CatalogLaws.AddIndexShape(s.catalog, index, name);
    NextIsFree(fp, base, b);
    WorkGrown(base, b, b');
    MappingWithIndex(s, s', index.id, b.next);
    MappedGrown(s, a, s', w, b.next);
    OldTreesSame(s, a, w, b.next);
    AddedGrows(s, a, s', w, index);
    GrownCarries(fp, s, a, s', w);
    BuiltIsNew(fp, s', a, w, index.id, b.writes, b'.writes);
    NewIndexOnly(fp, s, s', w, index.id);
    CarriedIsSound(fp, s, a, s', w);
    VacantGrown(base, b, b');
    BuiltBounded(fp, base, b, b', a, index.id);
  }

  lemma BuiltBounded(fp: FloatUnit, base: Trees, b: Batch, b': Batch, img: Trees, i: IndexId)
    requires Bounded(base, b) && IndexTree(b'.schema, i) == b.next
    requires IndexBuilt(fp, b'.schema, img, i, b.writes, b'.writes)
    requires b'.created == b.created + {b.next} && b'.dropped == b.dropped && b'.next == b.next + 1
    ensures Bounded(base, b')
  {
    hide EntryOf, DecodeEntry;
  }

  lemma AddedGrows(s: Schema, a: Trees, s': Schema, b: Trees, index: Index)
    requires MappingOk(s) && index.id !in s.catalog.indexes
    requires s'.catalog.tables == s.catalog.tables && s'.catalog.primaryKeys == s.catalog.primaryKeys
    requires s'.catalog.foreignKeys == s.catalog.foreignKeys && s'.catalog.indexes == s.catalog.indexes[index.id := index]
    requires s'.tableTrees == s.tableTrees && s'.indexTrees.Keys == s.indexTrees.Keys + {index.id}
    requires forall i :: i in s.indexTrees ==> s'.indexTrees[i] == s.indexTrees[i]
    requires forall t :: t in s.catalog.tables ==> SameTree(a, b, TableTree(s, t))
    requires forall i :: i in s.catalog.indexes ==> SameTree(a, b, IndexTree(s, i))
    ensures GrownFrom(s, a, s', b)
  {
    hide SameTree;
  }

  lemma NewIndexOnly(fp: FloatUnit, s: Schema, s': Schema, b: Trees, i: IndexId)
    requires Valid(s'.catalog) && s'.catalog.tables == s.catalog.tables && s'.catalog.foreignKeys == s.catalog.foreignKeys
    requires s'.catalog.indexes.Keys == s.catalog.indexes.Keys + {i} && NewIndexOk(fp, s', b, i)
    ensures NewOk(fp, s, s', b)
  {
    hide Valid, NewIndexOk, ForeignOk;
  }

  // ---- a new foreign key ---------------------------------------------------

  lemma AddKeyKeeps(fp: FloatUnit, co: Coercion, base: Trees, b: Batch, key: ForeignKey, name: Option<Name>, b': Batch)
    requires InOrder(fp, base, b) && Stepped(fp, co, Work(base, b), b, AddForeignKey(key, name), b')
    ensures InOrder(fp, base, b')
  {
    hide Valid, Work, IndexesOk, ForeignKeysOk, Mapped, GrownFrom, ApplyAddForeignKey, MappingOk, MappedTrees, Carries, NewOk,
         CheckedBut, ValidForeignKey, ForeignOk, SameTree, NewIndexOk;
    var s, s', a := b.schema, b'.schema, Work(base, b);
    CatalogLaws.AddForeignKeyKeeps(s.catalog, key, name);
    CatalogLaws.AddForeignKeyShape(s.catalog, key, name);
    WorkOf(base, b, b');
    BoundedAgain(base, b, b');
    KeyMapping(s, s', a);
    GrownCarries(fp, s, a, s', a);
    CarriedIndexes(fp, s, a, s', a);
    KeysValid(s'.catalog);
    CheckedAll(fp, s', a, key.id);
    NewKeyOnly(fp, s, s', a, key.id);
    CarriedIsSound(fp, s, a, s', a);
  }

  lemma KeyMapping(s: Schema, s': Schema, a: Trees)
    requires MappingOk(s) && Mapped(s, a)
    requires s'.catalog.tables == s.catalog.tables && s'.catalog.primaryKeys == s.catalog.primaryKeys && s'.catalog.indexes == s.catalog.indexes
    requires forall k :: k in s.catalog.foreignKeys ==> k in s'.catalog.foreignKeys && s'.catalog.foreignKeys[k] == s.catalog.foreignKeys[k]
    requires s'.tableTrees == s.tableTrees && s'.indexTrees == s.indexTrees
    ensures MappingOk(s') && Mapped(s', a) && GrownFrom(s, a, s', a)
  {
  }

  lemma NewKeyOnly(fp: FloatUnit, s: Schema, s': Schema, b: Trees, k: ConstraintId)
    requires Valid(s'.catalog) && s'.catalog.tables == s.catalog.tables && s'.catalog.indexes == s.catalog.indexes
    requires s'.catalog.foreignKeys.Keys == s.catalog.foreignKeys.Keys + {k}
    requires k in s'.catalog.foreignKeys && ValidForeignKey(s'.catalog, s'.catalog.foreignKeys[k])
    requires ForeignOk(fp, s', b, s'.catalog.foreignKeys[k])
    ensures NewOk(fp, s, s', b)
  {
    hide Valid, NewIndexOk, ForeignOk;
  }

  // ---- rewritten rows ------------------------------------------------------

  lemma WorkRewritten(co: Coercion, base: Trees, b: Batch, b': Batch, tree: TreeId, def: Table, def': Table, id: ColumnId)
    requires b'.created == b.created && b'.dropped == b.dropped && tree !in b.dropped
    requires RowsRewritten(co, Work(base, b), tree, def, def', id, b.writes, b'.writes)
    ensures Work(base, b').live == Work(base, b).live
    ensures forall l: Loc ::
              if l.tree == tree && l in Work(base, b).cells then
                l in Work(base, b').cells && Rewritten(co, def, def', id, Work(base, b).cells[l], Some(Work(base, b').cells[l]))
              else Work(base, b').Get(l) == Work(base, b).Get(l)
  {
    hide Rewritten;
    var a, w := Work(base, b), Work(base, b');
    forall l: Loc
      ensures if l.tree == tree && l in a.cells then l in w.cells && Rewritten(co, def, def', id, a.cells[l], Some(w.cells[l]))
              else w.Get(l) == a.Get(l)
    {
      if l.tree == tree && l in a.cells {
        assert l in b'.writes && Rewritten(co, def, def', id, a.cells[l], b'.writes[l]);
        RewrittenSome(co, def, def', id, a.cells[l], b'.writes[l]);
      } else {
        assert SameWrite(b.writes, b'.writes, l);
      }
    }
  }

  lemma RewrittenSome(co: Coercion, def: Table, def': Table, id: ColumnId, d: Datum, d': Option<Datum>)
    requires Rewritten(co, def, def', id, d, d')
    ensures d'.Some? && d'.value.Row?
  {
  }

  /** What a column change does to the definition of its table. */
  predicate ColumnChanged(c: Catalog, c': Catalog, t: TableId, id: ColumnId) {
    && OneTable(c, c', t) && !Constrained(c, t, id)
    && var def, def', p := c.tables[t], c'.tables[t], Position(c.tables[t].columns, id);
       && p.Some?
       && (match ColumnAt(def', id)
           case None => def'.columns == def.columns[..p.value] + def.columns[p.value + 1..]
           case Some(column) => def' == def.(columns := def.columns[p.value := column]))
  }

  lemma RewrittenCarried(co: Coercion, s: Schema, s': Schema, t: TableId, id: ColumnId, d: Datum, d': Datum)
    requires ColumnChanged(s.catalog, s'.catalog, t, id)
    requires Rewritten(co, s.catalog.tables[t], s'.catalog.tables[t], id, d, Some(d'))
    ensures d.Row? && d'.Row? && RowCarried(s, s', t, d.values, d'.values)
    ensures SameValues(s.catalog.tables[t], d.values, s'.catalog.tables[t], d'.values, Some(id))
  {
    hide Constrained, Position, ValidStored, RowCarried, ColumnAt, SameValues;
    var def, def' := s.catalog.tables[t], s'.catalog.tables[t];
    var p := Position(def.columns, id).value;
    match ColumnAt(def', id)
    case None => ShortenedRow(s, s', t, p, d.values, d'.values);
    case Some(column) => ConvertedRow(s, s', t, p, column, d.values, d'.values);
  }

  lemma RowsStepKeeps(fp: FloatUnit, co: Coercion, base: Trees, b: Batch, c: Catalog, t: TableId, id: ColumnId, b': Batch)
    requires InOrder(fp, base, b) && RowsStepped(co, Work(base, b), b, c, t, id, b')
    requires Valid(c) && ColumnChanged(b.schema.catalog, c, t, id)
    ensures InOrder(fp, base, b')
  {
    hide Valid, Work, IndexesOk, ForeignKeysOk, RowsRewritten, MappedTrees, Rewritten, RowsMoved, SameTree, Constrained, Bounded, Vacant;
    var s, s', a, w := b.schema, b'.schema, Work(base, b), Work(base, b');
    var tree := TableTree(s, t);
    MappedTree(s, t);
    LiveNotDropped(base, b, tree);
    WorkRewritten(co, base, b, b', tree, s.catalog.tables[t], c.tables[t], id);
    RewrittenShape(s, a, w, tree, co, s.catalog.tables[t], c.tables[t], id);
    forall l: Loc | l.tree == tree ensures CellCarried(s, a, s', w, t, l) {
      Cells(a, l);
      Cells(w, l);
      if l in a.cells {
        RewrittenCarried(co, s, s', t, id, a.cells[l], w.cells[l]);
      }
    }
    assert RowsMoved(s, a, s', w, t) by { MovedByCells(s, a, s', w, t); }
    OneTableSound(fp, s, a, s', w, t);
    RewrittenBounded(co, base, b, b', tree, s.catalog.tables[t], c.tables[t], id);
    forall u | u in b'.schema.tableTrees && b'.schema.tableTrees[u] in b'.created ensures Vacant(w, b'.schema.tableTrees[u]) {
      VacantRewritten(a, w, tree, b.schema.tableTrees[u], co, s.catalog.tables[t], c.tables[t], id);
    }
  }

  lemma MovedByCells(s: Schema, a: Trees, s': Schema, b: Trees, t: TableId)
    requires t in s.catalog.tables && t in s'.catalog.tables
    requires forall l: Loc :: l.tree == TableTree(s, t) ==> CellCarried(s, a, s', b, t, l)
    ensures RowsMoved(s, a, s', b, t)
  {
    hide CellCarried;
  }

  lemma MappedTree(s: Schema, t: TableId)
    requires MappingOk(s) && t in s.catalog.tables
    ensures TableTree(s, t) in MappedTrees(s) && TableTree(s, t) != CATALOG_TREE
  {
  }

  lemma LiveNotDropped(base: Trees, b: Batch, tree: TreeId)
    requires tree in Work(base, b).live
    ensures tree !in b.dropped
  {
  }

  lemma RewrittenShape(s: Schema, a: Trees, w: Trees, tree: TreeId, co: Coercion, def: Table, def': Table, id: ColumnId)
    requires Mapped(s, a) && w.live == a.live
    requires forall l: Loc ::
               if l.tree == tree && l in a.cells then l in w.cells && Rewritten(co, def, def', id, a.cells[l], Some(w.cells[l]))
               else w.Get(l) == a.Get(l)
    ensures Mapped(s, w)
    ensures forall other :: other != tree ==> SameTree(a, w, other)
  {
    hide Rewritten, MappedTrees;
    forall l | l in w.cells ensures l in a.cells {
      Cells(a, l);
      Cells(w, l);
    }
  }

  lemma RewrittenBounded(co: Coercion, base: Trees, b: Batch, b': Batch, tree: TreeId, def: Table, def': Table, id: ColumnId)
    requires Bounded(base, b) && RowsRewritten(co, Work(base, b), tree, def, def', id, b.writes, b'.writes)
    requires b'.created == b.created && b'.dropped == b.dropped && b'.next == b.next
    ensures Bounded(base, b')
  {
    hide Rewritten;
    forall l | l in b'.writes ensures l.tree in base.live + b.created {
      if l in Work(base, b).cells {
        Cells(Work(base, b), l);
        Cells(base, l);
      }
    }
  }

  lemma VacantRewritten(a: Trees, w: Trees, tree: TreeId, other: TreeId, co: Coercion, def: Table, def': Table, id: ColumnId)
    requires Vacant(a, other)
    requires forall l: Loc ::
               if l.tree == tree && l in a.cells then l in w.cells && Rewritten(co, def, def', id, a.cells[l], Some(w.cells[l]))
               else w.Get(l) == a.Get(l)
    ensures Vacant(w, other)
  {
    hide Rewritten;
    forall l | l in w.cells ensures l in a.cells {
      Cells(a, l);
      Cells(w, l);
    }
  }

  lemma AlterColumnShape(c: Catalog, t: TableId, id: ColumnId, kind: ColumnType, nullable: bool)
    requires Valid(c) && ApplyAlterColumnType(c, t, id, kind, nullable).Ok?
    ensures ColumnChanged(c, ApplyAlterColumnType(c, t, id, kind, nullable).value, t, id)
  {
    hide Constrained, Valid;
    CatalogIds(c, t);
    var c' := ApplyAlterColumnType(c, t, id, kind, nullable).value;
    PositionOfSame(c.tables[t].columns, c'.tables[t].columns, id);
  }

  lemma DropColumnShape(c: Catalog, t: TableId, id: ColumnId)
    requires Valid(c) && ApplyDropColumn(c, t, id).Ok?
    ensures ColumnChanged(c, ApplyDropColumn(c, t, id).value, t, id)
  {
    hide Constrained, ValidIndex, ValidForeignKey, ValidNames, ValidPrimaryKey;
    var c' := ApplyDropColumn(c, t, id).value;
    assert c.tables[t].id == t;
    var p := Position(c.tables[t].columns, id).value;
    CatalogLaws.WithoutElements(c.tables[t].columns, p);
    assert Position(c'.tables[t].columns, id).None?;
  }

  // ---- every step ----------------------------------------------------------

  /** A step on a sound working image leaves a sound working image. */
  lemma StepKeeps(fp: FloatUnit, co: Coercion, base: Trees, b: Batch, m: Mutation, b': Batch)
    requires InOrder(fp, base, b) && Stepped(fp, co, Work(base, b), b, m, b')
    ensures InOrder(fp, base, b')
  {
    hide InOrder, Work, Valid, CheckedBut, KeysFit, UniqueOk, IndexBuilt, RowsRewritten;
    InOrderValid(fp, base, b);
    var c := b.schema.catalog;
    match m
    case CreateTable(def, key) => CreateTableKeeps(fp, base, b, def, key);
    case AddNullableColumn(t, column) => AddColumnKeeps(fp, base, b, t, column);
    case AddIndex(index, name) =>
      if index.id !in b.schema.indexTrees {
        AddIndexKeeps(fp, co, base, b, index, name, b');
      }
    case AddForeignKey(key, name) => AddKeyKeeps(fp, co, base, b, key, name, b');
    case RenameColumn(t, id, name) => RenameColumnKeeps(fp, base, b, t, id, name);
    case AlterColumnType(t, id, kind, nullable) =>
      CatalogLaws.MutationKeepsValid(c, m);
      AlterColumnShape(c, t, id, kind, nullable);
      RowsStepKeeps(fp, co, base, b, Mutate(c, m).value, t, id, b');
    case DropColumn(t, id) =>
      CatalogLaws.MutationKeepsValid(c, m);
      DropColumnShape(c, t, id);
      RowsStepKeeps(fp, co, base, b, Mutate(c, m).value, t, id, b');
    case RenameTable(t, name) => RenameTableKeeps(fp, base, b, t, name);
    case DropTable(t) => DropTableKeeps(fp, base, b, t);
    case DropIndex(i) => DropIndexKeeps(fp, base, b, i);
    case DropForeignKey(k) => DropKeyKeeps(fp, base, b, k);
  }

  lemma VacantGrown(base: Trees, b: Batch, b': Batch)
    requires forall t :: t in b.schema.tableTrees && b.schema.tableTrees[t] in b.created ==> Vacant(Work(base, b), b.schema.tableTrees[t])
    requires b'.created == b.created + {b.next}
    requires forall t :: t in b'.schema.tableTrees ==>
               || (t in b.schema.tableTrees && b'.schema.tableTrees[t] == b.schema.tableTrees[t] && b.schema.tableTrees[t] != b.next)
               || (b'.schema.tableTrees[t] == b.next && Vacant(Work(base, b'), b.next))
    requires forall l: Loc :: l.tree != b.next ==> Work(base, b').Get(l) == Work(base, b).Get(l)
    ensures forall t :: t in b'.schema.tableTrees && b'.schema.tableTrees[t] in b'.created ==> Vacant(Work(base, b'), b'.schema.tableTrees[t])
  {
    hide Work;
    forall t | t in b'.schema.tableTrees && b'.schema.tableTrees[t] in b'.created ensures Vacant(Work(base, b'), b'.schema.tableTrees[t]) {
      forall l | l in Work(base, b').cells ensures l.tree != b'.schema.tableTrees[t] {
        Cells(Work(base, b), l);
        Cells(Work(base, b'), l);
      }
    }
  }
}
