/** When a change of schema or of stored rows leaves everything a constraint looks at as it
    was, every constraint that was there before still holds. */
module Carrying {
  import opened Common
  import opened Bytes
  import opened Values
  import opened Rows
  import opened Catalogs
  import opened RowKeys
  import opened IndexEntries
  import opened Kernel
  import opened Store
  import opened Commits
  import opened Cascades
  import opened References

  /** A store is consistent apart from what its marker says. */
  ghost predicate Sound(fp: FloatUnit, s: Schema, img: Trees) {
    && Valid(s.catalog)
    && MappingOk(s)
    && IndexesOk(fp, s, img)
    && ForeignKeysOk(fp, s, img)
    && Mapped(s, img)
  }

  /** The live trees are those the schema maps, and the catalog tree holds the marker only. */
  predicate Mapped(s: Schema, img: Trees) {
    && img.live == MappedTrees(s)
    && (forall l :: l in img.cells ==> l.tree in img.live)
    && (forall l :: l in img.cells && l.tree == CATALOG_TREE ==> l == MARKER)
  }

  lemma ConsistentIsSound(fp: FloatUnit, s: Schema, img: Trees)
    ensures ConsistentWith(fp, img, s) <==> Sound(fp, s, img) && img.Get(MARKER) == Some(Marker(s))
  {
    hide Valid, MappingOk, IndexesOk, ForeignKeysOk;
  }

  // ---- what is carried over ------------------------------------------------

  /** A stored row in its old and its new layout. */
  predicate RowCarried(s: Schema, s': Schema, t: TableId, row: seq<Value>, row': seq<Value>)
    requires t in s.catalog.tables && t in s'.catalog.tables
  {
    var def, def' := s.catalog.tables[t], s'.catalog.tables[t];
    && AllStorable(row')
    && ValidStored(def', row')
    && |row| <= |def.columns|
    && forall id :: Constrained(s'.catalog, t, id) ==> SameAt(def, Materialize(def, row), def', Materialize(def', row'), id)
  }

  ghost predicate CellCarried(s: Schema, a: Trees, s': Schema, b: Trees, t: TableId, l: Loc)
    requires t in s.catalog.tables && t in s'.catalog.tables
  {
    && (l in a.cells <==> l in b.cells)
    && (l in a.cells && a.cells[l].Row? ==> b.cells[l].Row? && RowCarried(s, s', t, a.cells[l].values, b.cells[l].values))
  }

  ghost predicate TableCarried(s: Schema, a: Trees, s': Schema, b: Trees, t: TableId)
    requires t in s.catalog.tables && t in s'.catalog.tables
  {
    && TableTree(s', t) == TableTree(s, t)
    && s'.catalog.tables[t].id == s.catalog.tables[t].id
    && (t in s'.catalog.primaryKeys <==> t in s.catalog.primaryKeys)
    && (t in s.catalog.primaryKeys ==> s'.catalog.primaryKeys[t] == s.catalog.primaryKeys[t])
    && (forall l: Loc :: l.tree == TableTree(s, t) ==> CellCarried(s, a, s', b, t, l))
  }

  ghost predicate IndexCarried(s: Schema, a: Trees, s': Schema, b: Trees, i: IndexId)
    requires i in s.catalog.indexes && i in s'.catalog.indexes
  {
    && s'.catalog.indexes[i] == s.catalog.indexes[i]
    && IndexTree(s', i) == IndexTree(s, i)
    && SameTree(a, b, IndexTree(s, i))
  }

  ghost predicate SameTree(a: Trees, b: Trees, tree: TreeId) {
    forall l: Loc :: l.tree == tree ==> a.Get(l) == b.Get(l)
  }

  ghost predicate Carries(s: Schema, a: Trees, s': Schema, b: Trees) {
    && (forall t :: t in s.catalog.tables && t in s'.catalog.tables ==> TableCarried(s, a, s', b, t))
    && (forall i :: i in s.catalog.indexes && i in s'.catalog.indexes ==> IndexCarried(s, a, s', b, i))
    && (forall i :: i in s.catalog.indexes && i in s'.catalog.indexes ==>
          s.catalog.indexes[i].table in s.catalog.tables && s.catalog.indexes[i].table in s'.catalog.tables)
    && (forall k :: k in s.catalog.foreignKeys && k in s'.catalog.foreignKeys ==> s'.catalog.foreignKeys[k] == s.catalog.foreignKeys[k])
  }

  // ---- keys of carried rows ------------------------------------------------

  lemma KeyCarried(fp: FloatUnit, s: Schema, a: Trees, s': Schema, b: Trees, i: IndexId, id: ByteString)
    requires MappingOk(s) && MappingOk(s') && RowsOk(fp, s, a) && Carries(s, a, s', b)
    requires i in s.catalog.indexes && i in s'.catalog.indexes
    ensures KeyAt(fp, s', b, i, id) == KeyAt(fp, s, a, i, id)
  {
    hide IndexKey, MappingOk, Constrained, Materialize, Lookup, IdentityOk, SameTree;
    assert IndexCarried(s, a, s', b, i);
    var index := s.catalog.indexes[i];
    var t := index.table;
    assert TableCarried(s, a, s', b, t);
    var l := Loc(TableTree(s, t), id);
    assert CellCarried(s, a, s', b, t, l);
    if l in a.cells {
      assert RowCellOk(fp, s, a, t, id);
      KeyOfCarriedRow(fp, s, s', i, a.cells[l].values, b.cells[l].values);
    }
  }

  lemma KeyOfCarriedRow(fp: FloatUnit, s: Schema, s': Schema, i: IndexId, row: seq<Value>, row': seq<Value>)
    requires i in s.catalog.indexes && i in s'.catalog.indexes && s'.catalog.indexes[i] == s.catalog.indexes[i]
    requires s.catalog.indexes[i].table in s.catalog.tables && s.catalog.indexes[i].table in s'.catalog.tables
    requires AllStorable(row) && RowCarried(s, s', s.catalog.indexes[i].table, row, row')
    ensures RowKey(fp, s', i, Some(row')) == RowKey(fp, s, i, Some(row))
    ensures var t := s.catalog.indexes[i].table;
            IndexKey(fp, s'.catalog.tables[t], s'.catalog.indexes[i], Materialize(s'.catalog.tables[t], row'))
            == IndexKey(fp, s.catalog.tables[t], s.catalog.indexes[i], Materialize(s.catalog.tables[t], row))
  {
    hide IndexKey, Materialize, Lookup;
    var index := s.catalog.indexes[i];
    var def, def' := s.catalog.tables[index.table], s'.catalog.tables[index.table];
    forall id | Mentions(index, id) ensures SameAt(def, Materialize(def, row), def', Materialize(def', row'), id) {
      assert Constrained(s'.catalog, index.table, id);
    }
    IndexKeyDepends(fp, def, Materialize(def, row), def', Materialize(def', row'), index);
  }

  lemma IdentityCarried(s: Schema, s': Schema, t: TableId, id: ByteString, row: seq<Value>, row': seq<Value>)
    requires t in s.catalog.tables && t in s'.catalog.tables && s.catalog.tables[t].id == t && s'.catalog.tables[t].id == t
    requires t in s'.catalog.primaryKeys <==> t in s.catalog.primaryKeys
    requires t in s.catalog.primaryKeys ==> s'.catalog.primaryKeys[t] == s.catalog.primaryKeys[t]
    requires AllStorable(row) && RowCarried(s, s', t, row, row')
    requires IdentityOk(s.catalog, s.catalog.tables[t], id, Materialize(s.catalog.tables[t], row))
    ensures IdentityOk(s'.catalog, s'.catalog.tables[t], id, Materialize(s'.catalog.tables[t], row'))
  {
    hide Materialize, Lookup, LookupAll, EncodeLegacyKey, DecodeLegacyKey, ToBE, EncodeIdentity, NewIdentity;
    var def, def' := s.catalog.tables[t], s'.catalog.tables[t];
    if t in s.catalog.primaryKeys {
      var ids := s.catalog.primaryKeys[t];
      forall i | 0 <= i < |ids| ensures SameAt(def, Materialize(def, row), def', Materialize(def', row'), ids[i]) {
        assert Constrained(s'.catalog, t, ids[i]);
      }
      LookupAllDepends(def, Materialize(def, row), def', Materialize(def', row'), ids);
    }
  }

  /** Every row has a key that fits under an index, or none. */
  ghost predicate KeysFit(fp: FloatUnit, s: Schema, img: Trees, i: IndexId)
    requires i in s.catalog.indexes && s.catalog.indexes[i].table in s.catalog.tables
  {
    var t := s.catalog.indexes[i].table;
    forall l :: l in img.cells && l.tree == TableTree(s, t) ==> CellFits(fp, s, i, img.cells[l])
  }

  predicate CellFits(fp: FloatUnit, s: Schema, i: IndexId, d: Datum)
    requires i in s.catalog.indexes && s.catalog.indexes[i].table in s.catalog.tables
  {
    var def := s.catalog.tables[s.catalog.indexes[i].table];
    d.Row? && AllStorable(d.values) && |d.values| <= |def.columns|
    && KeyFits(IndexKey(fp, def, s.catalog.indexes[i], Materialize(def, d.values)))
  }

  /** What a new definition needs, besides what is carried over. */
  ghost predicate NewIndexOk(fp: FloatUnit, s: Schema, img: Trees, i: IndexId)
    requires i in s.catalog.indexes
  {
    && s.catalog.indexes[i].table in s.catalog.tables
    && KeysFit(fp, s, img, i)
    && IndexOk(fp, s, img, i)
    && (s.catalog.indexes[i].unique ==> UniqueOk(fp, s, img, i))
  }

  lemma RowsCarried(fp: FloatUnit, s: Schema, a: Trees, s': Schema, b: Trees, t: TableId, id: ByteString)
    requires Valid(s.catalog) && Valid(s'.catalog) && RowsOk(fp, s, a) && Carries(s, a, s', b)
    requires t in s'.catalog.tables && Loc(TableTree(s', t), id) in b.cells
    requires t !in s.catalog.tables ==> forall l :: l in b.cells ==> l.tree != TableTree(s', t)
    requires forall i :: i in s'.catalog.indexes && i !in s.catalog.indexes ==> NewIndexOk(fp, s', b, i)
    ensures RowCellOk(fp, s', b, t, id)
  {
    hide Valid, IndexKey, MappingOk, Constrained, Materialize, Lookup, IdentityOk, SameTree, IndexOk, UniqueOk, AllStorable;
    assert t in s.catalog.tables;
    assert TableCarried(s, a, s', b, t);
    var l := Loc(TableTree(s', t), id);
    assert CellCarried(s, a, s', b, t, l);
    assert RowCellOk(fp, s, a, t, id);
    var row, row' := a.cells[l].values, b.cells[l].values;
    CatalogIds(s.catalog, t);
    CatalogIds(s'.catalog, t);
    IdentityCarried(s, s', t, id, row, row');
    forall i | i in s'.catalog.indexes && s'.catalog.indexes[i].table == t
      ensures KeyFits(IndexKey(fp, s'.catalog.tables[t], s'.catalog.indexes[i], Materialize(s'.catalog.tables[t], row')))
    {
      if i in s.catalog.indexes {
        assert IndexCarried(s, a, s', b, i);
        KeyOfCarriedRow(fp, s, s', i, row, row');
      } else {
        assert NewIndexOk(fp, s', b, i);
        assert CellFits(fp, s', i, b.cells[l]);
      }
    }
  }

  lemma CatalogIds(c: Catalog, t: TableId)
    requires Valid(c) && t in c.tables
    ensures c.tables[t].id == t
  {
  }

  lemma IndexStillOk(fp: FloatUnit, s: Schema, a: Trees, s': Schema, b: Trees, i: IndexId)
    requires MappingOk(s) && MappingOk(s') && RowsOk(fp, s, a) && Carries(s, a, s', b)
    requires i in s.catalog.indexes && i in s'.catalog.indexes && IndexOk(fp, s, a, i)
    requires s.catalog.indexes[i].unique ==> UniqueOk(fp, s, a, i)
    ensures IndexOk(fp, s', b, i)
    ensures s'.catalog.indexes[i].unique ==> UniqueOk(fp, s', b, i)
  {
    hide MappingOk, RowsOk, KeyAt, EncodeEntry, Carries, WellFormed;
    IndexWasCarried(s, a, s', b, i);
    forall id ensures KeyAt(fp, s', b, i, id) == KeyAt(fp, s, a, i, id) {
      KeyCarried(fp, s, a, s', b, i, id);
    }
    ShapeCarried(a, b, IndexTree(s, i));
    forall id | FitsU32(id) ensures AgreesAt(fp, s', b, i, id) {
      assert AgreesAt(fp, s, a, i, id);
      forall k | FitsU32(k)
        ensures Loc(IndexTree(s', i), EncodeEntry(k, id)) in b.cells <==> KeyAt(fp, s', b, i, id) == Some(k)
      {
        Cells(a, Loc(IndexTree(s, i), EncodeEntry(k, id)));
        Cells(b, Loc(IndexTree(s, i), EncodeEntry(k, id)));
      }
    }
  }

  lemma IndexWasCarried(s: Schema, a: Trees, s': Schema, b: Trees, i: IndexId)
    requires Carries(s, a, s', b) && i in s.catalog.indexes && i in s'.catalog.indexes
    ensures IndexCarried(s, a, s', b, i)
  {
  }

  lemma ShapeCarried(a: Trees, b: Trees, tree: TreeId)
    requires SameTree(a, b, tree) && TreeShape(a, tree)
    ensures TreeShape(b, tree)
  {
    hide DecodeEntry;
    forall l | l in b.cells && l.tree == tree ensures WellFormed(l.key) && b.cells[l] == Entry(DecodeEntry(l.key).value.1) {
      Cells(a, l);
      Cells(b, l);
    }
  }

  // ---- references of carried rows ------------------------------------------

  lemma TupleCarried(s: Schema, s': Schema, t: TableId, row: seq<Value>, row': seq<Value>, ids: seq<ColumnId>)
    requires t in s.catalog.tables && t in s'.catalog.tables && RowCarried(s, s', t, row, row')
    requires forall i :: 0 <= i < |ids| ==> Constrained(s'.catalog, t, ids[i])
    ensures LookupAll(s'.catalog.tables[t], Materialize(s'.catalog.tables[t], row'), ids)
            == LookupAll(s.catalog.tables[t], Materialize(s.catalog.tables[t], row), ids)
  {
    hide Constrained, Materialize, Lookup, LookupAll;
    var def, def' := s.catalog.tables[t], s'.catalog.tables[t];
    forall i | 0 <= i < |ids| ensures SameAt(def, Materialize(def, row), def', Materialize(def', row'), ids[i]) {
      assert Constrained(s'.catalog, t, ids[i]);
    }
    LookupAllDepends(def, Materialize(def, row), def', Materialize(def', row'), ids);
  }

  /** The tuple a row holds in some constrained columns, if the row is there. */
  function TupleAt(s: Schema, img: Trees, t: TableId, id: ByteString, ids: seq<ColumnId>): Option<Result<seq<Value>>> {
    match FullRow(s, img, RowRef(t, id))
    case None => None
    case Some(row) => Some(LookupAll(s.catalog.tables[t], row, ids))
  }

  lemma TupleAtCarried(fp: FloatUnit, s: Schema, a: Trees, s': Schema, b: Trees, t: TableId, id: ByteString, ids: seq<ColumnId>)
    requires RowsOk(fp, s, a) && t in s.catalog.tables && t in s'.catalog.tables && TableCarried(s, a, s', b, t)
    requires forall i :: 0 <= i < |ids| ==> Constrained(s'.catalog, t, ids[i])
    ensures TupleAt(s', b, t, id, ids) == TupleAt(s, a, t, id, ids)
  {
    hide IndexKey, Constrained, Materialize, LookupAll, IdentityOk, AllStorable;
    var l := Loc(TableTree(s, t), id);
    assert CellCarried(s, a, s', b, t, l);
    if l in a.cells {
      assert RowCellOk(fp, s, a, t, id);
      TupleCarried(s, s', t, a.cells[l].values, b.cells[l].values, ids);
    }
  }

  lemma ResolvedCarried(fp: FloatUnit, s: Schema, a: Trees, s': Schema, b: Trees, k: ConstraintId)
    requires Valid(s.catalog) && Valid(s'.catalog) && RowsOk(fp, s, a) && Carries(s, a, s', b)
    requires k in s.catalog.foreignKeys && k in s'.catalog.foreignKeys && Resolved(s, a, k)
    ensures Resolved(s', b, k)
  {
    hide Valid, RowsOk, Carries, FullRow, LookupAll, AllSqlEq, NoNulls, TableCarried, Constrained;
    var key := s.catalog.foreignKeys[k];
    KeyWasCarried(s, a, s', b, k);
    KeyConstrains(s'.catalog, k);
    forall id | HasReference(s', b, key, id) ensures exists parent :: RefersTo(s', b, key, id, parent) {
      TupleAtCarried(fp, s, a, s', b, key.table, id, key.columns);
      assert HasReference(s, a, key, id);
      var parent :| RefersTo(s, a, key, id, parent);
      TupleAtCarried(fp, s, a, s', b, key.referencedTable, parent, key.referencedColumns);
      assert RefersTo(s', b, key, id, parent);
    }
  }

  lemma KeyWasCarried(s: Schema, a: Trees, s': Schema, b: Trees, k: ConstraintId)
    requires Valid(s.catalog) && Valid(s'.catalog) && Carries(s, a, s', b)
    requires k in s.catalog.foreignKeys && k in s'.catalog.foreignKeys
    ensures var key := s.catalog.foreignKeys[k];
            && s'.catalog.foreignKeys[k] == key
            && key.table in s.catalog.tables && key.table in s'.catalog.tables
            && key.referencedTable in s.catalog.tables && key.referencedTable in s'.catalog.tables
            && TableCarried(s, a, s', b, key.table) && TableCarried(s, a, s', b, key.referencedTable)
  {
    hide ValidTables, ValidNames, TableCarried, IndexCarried, ValidIndex;
    assert ValidForeignKey(s.catalog, s.catalog.foreignKeys[k]) && ValidForeignKey(s'.catalog, s'.catalog.foreignKeys[k]);
  }

  lemma KeyConstrains(c: Catalog, k: ConstraintId)
    requires k in c.foreignKeys
    ensures var key := c.foreignKeys[k];
            && (forall i :: 0 <= i < |key.columns| ==> Constrained(c, key.table, key.columns[i]))
            && (forall i :: 0 <= i < |key.referencedColumns| ==> Constrained(c, key.referencedTable, key.referencedColumns[i]))
  {
    var key := c.foreignKeys[k];
    forall i | 0 <= i < |key.columns| ensures Constrained(c, key.table, key.columns[i]) {
      assert KeyMentions(key, key.table, key.columns[i]);
    }
    forall i | 0 <= i < |key.referencedColumns| ensures Constrained(c, key.referencedTable, key.referencedColumns[i]) {
      assert KeyMentions(key, key.referencedTable, key.referencedColumns[i]);
    }
  }

  // ---- the whole store -----------------------------------------------------

  /** New tables are empty, new indexes and new foreign keys hold. */
  ghost predicate NewOk(fp: FloatUnit, s: Schema, s': Schema, b: Trees)
    requires Valid(s'.catalog)
  {
    && (forall t :: t in s'.catalog.tables && t !in s.catalog.tables ==> forall l :: l in b.cells ==> l.tree != TableTree(s', t))
    && (forall i :: i in s'.catalog.indexes && i !in s.catalog.indexes ==> NewIndexOk(fp, s', b, i))
    && (forall k :: k in s'.catalog.foreignKeys && k !in s.catalog.foreignKeys ==> ForeignOk(fp, s', b, s'.catalog.foreignKeys[k]))
  }

  lemma CarriedIndexes(fp: FloatUnit, s: Schema, a: Trees, s': Schema, b: Trees)
    requires Sound(fp, s, a) && Valid(s'.catalog) && MappingOk(s') && Carries(s, a, s', b)
    requires forall t :: t in s'.catalog.tables && t !in s.catalog.tables ==> forall l :: l in b.cells ==> l.tree != TableTree(s', t)
    requires forall i :: i in s'.catalog.indexes && i !in s.catalog.indexes ==> NewIndexOk(fp, s', b, i)
    ensures IndexesOk(fp, s', b)
  {
    hide Valid, MappingOk, Carries, Mapped, RowCellOk, NewIndexOk, IndexOk, UniqueOk, ForeignKeysOk, TableTree;
    forall t, id | t in s'.catalog.tables && Loc(TableTree(s', t), id) in b.cells ensures RowCellOk(fp, s', b, t, id) {
      RowsCarried(fp, s, a, s', b, t, id);
    }
    forall i | i in s'.catalog.indexes
      ensures IndexOk(fp, s', b, i) && (s'.catalog.indexes[i].unique ==> UniqueOk(fp, s', b, i))
    {
      if i in s.catalog.indexes {
        IndexStillOk(fp, s, a, s', b, i);
      } else {
        NewIndexHolds(fp, s', b, i);
      }
    }
  }

  /** A sound store stays sound under a change that carries its rows and indexes over and
      whose new definitions hold. */
  lemma CarriedIsSound(fp: FloatUnit, s: Schema, a: Trees, s': Schema, b: Trees)
    requires Sound(fp, s, a) && Valid(s'.catalog) && MappingOk(s') && Mapped(s', b)
    requires Carries(s, a, s', b) && NewOk(fp, s, s', b)
    ensures Sound(fp, s', b)
  {
    hide Valid, MappingOk, Carries, Mapped, IndexesOk, NewIndexOk, ForeignOk;
    CarriedIndexes(fp, s, a, s', b);
    KeysValid(s'.catalog);
    KeysValid(s.catalog);
    IndexesHaveRows(fp, s, a);
    IndexesHaveRows(fp, s', b);
    forall k | k in s'.catalog.foreignKeys ensures ForeignOk(fp, s', b, s'.catalog.foreignKeys[k]) {
      if k in s.catalog.foreignKeys {
        ForeignKeyMeans(fp, s, a, k);
        ResolvedCarried(fp, s, a, s', b, k);
        ForeignKeyMeans(fp, s', b, k);
      }
    }
  }

  lemma IndexesHaveRows(fp: FloatUnit, s: Schema, img: Trees)
    requires IndexesOk(fp, s, img)
    ensures RowsOk(fp, s, img)
  {
  }

  lemma NewIndexHolds(fp: FloatUnit, s: Schema, img: Trees, i: IndexId)
    requires i in s.catalog.indexes && NewIndexOk(fp, s, img, i)
    ensures IndexOk(fp, s, img, i) && (s.catalog.indexes[i].unique ==> UniqueOk(fp, s, img, i))
  {
    hide IndexOk, UniqueOk, KeysFit;
  }
}
