/** The relational store: how tables and indexes live in kernel trees, and what it means
    for an image of those trees to be consistent. */
module Store {
  import opened Common
  import opened Bytes
  import opened Values
  import opened Rows
  import opened Catalogs
  import opened RowKeys
  import opened IndexEntries
  import opened Kernel

  /** The catalog together with the trees its tables and indexes live in. */
  datatype Schema = Schema(catalog: Catalog, tableTrees: map<TableId, TreeId>, indexTrees: map<IndexId, TreeId>)

  /** What a cell holds: a stored row, the identity an index entry points to, or the
      catalog marker. */
  datatype Datum = Row(values: seq<Value>) | Entry(identity: ByteString) | Marker(schema: Schema)

  type Trees = Image<Datum>

  const CATALOG_TREE: TreeId := 0
  // "\0omendb/direct/catalog/v1"
  const MARKER: Loc := Loc(CATALOG_TREE, [0, 111, 109, 101, 110, 100, 98, 47, 100, 105, 114, 101, 99, 116, 47,
                                          99, 97, 116, 97, 108, 111, 103, 47, 118, 49])

  // ---- the mapping ---------------------------------------------------------

  function MappedTrees(s: Schema): set<TreeId> {
    {CATALOG_TREE} + s.tableTrees.Values + s.indexTrees.Values
  }

  /** Every table and every index has its own tree, and nothing else is mapped. */
  predicate MappingOk(s: Schema) {
    && s.tableTrees.Keys == s.catalog.tables.Keys
    && s.indexTrees.Keys == s.catalog.indexes.Keys
    && (forall t :: t in s.tableTrees ==> s.tableTrees[t] != CATALOG_TREE)
    && (forall i :: i in s.indexTrees ==> s.indexTrees[i] != CATALOG_TREE)
    && (forall t, u :: t in s.tableTrees && u in s.tableTrees && t != u ==> s.tableTrees[t] != s.tableTrees[u])
    && (forall i, j :: i in s.indexTrees && j in s.indexTrees && i != j ==> s.indexTrees[i] != s.indexTrees[j])
    && (forall t, i :: t in s.tableTrees && i in s.indexTrees ==> s.tableTrees[t] != s.indexTrees[i])
  }

  // ---- rows and their keys -------------------------------------------------

  function RowAt(img: Trees, tree: TreeId, id: ByteString): Option<seq<Value>> {
    match img.Get(Loc(tree, id))
    case Some(Row(values)) => Some(values)
    case _ => None
  }

  /** The key carried by a row of a table without a primary key, taken from its identity.
      With a primary key the row's own key plays no part in its identity. */
  function CarriedKey(c: Catalog, t: Table, id: ByteString): (r: Result<ByteString>)
    ensures r.Ok? ==> |r.value| == 16
  {
    if t.id in c.primaryKeys then Ok(seq(16, _ => 0)) else DecodeLegacyKey(t.id, id)
  }

  /** A stored row is found under the identity its values determine. */
  predicate IdentityOk(c: Catalog, t: Table, id: ByteString, row: seq<Value>)
    requires AllStorable(row)
  {
    CarriedKey(c, t, id).Ok? && IdentityBytes(c, t, CarriedKey(c, t, id).value, row) == Ok(id)
  }

  predicate KeyFits(key: Result<Option<ByteString>>) {
    key.Ok? && (key.value.Some? ==> FitsU32(key.value.value))
  }

  /** A stored row is readable under its table's definition. */
  predicate RowOk(fp: FloatUnit, s: Schema, t: TableId, id: ByteString, row: seq<Value>)
    requires t in s.catalog.tables
  {
    var def := s.catalog.tables[t];
    && AllStorable(row)
    && FitsU32(id)
    && ValidStored(def, row)
    && IdentityOk(s.catalog, def, id, Materialize(def, row))
    && forall i :: i in s.catalog.indexes && s.catalog.indexes[i].table == t ==>
         KeyFits(IndexKey(fp, def, s.catalog.indexes[i], Materialize(def, row)))
  }

  /** The value key under which an image's row must appear in an index. */
  function RowKey(fp: FloatUnit, s: Schema, i: IndexId, row: Option<seq<Value>>): (k: Option<ByteString>)
    ensures k.Some? ==> FitsU32(k.value)
  {
    if row.None? || i !in s.catalog.indexes || s.catalog.indexes[i].table !in s.catalog.tables then None
    else
      var index := s.catalog.indexes[i];
      var def := s.catalog.tables[index.table];
      if !AllStorable(row.value) || |row.value| > |def.columns| then None
      else
        var key := IndexKey(fp, def, index, Materialize(def, row.value));
        if KeyFits(key) then key.value else None
  }

  function TableTree(s: Schema, t: TableId): TreeId {
    if t in s.tableTrees then s.tableTrees[t] else CATALOG_TREE
  }

  function IndexTree(s: Schema, i: IndexId): TreeId {
    if i in s.indexTrees then s.indexTrees[i] else CATALOG_TREE
  }

  /** The tree of the table an index belongs to. */
  function OwnerTree(s: Schema, i: IndexId): TreeId {
    if i in s.catalog.indexes then TableTree(s, s.catalog.indexes[i].table) else CATALOG_TREE
  }

  function KeyAt(fp: FloatUnit, s: Schema, img: Trees, i: IndexId, id: ByteString): (k: Option<ByteString>)
    ensures k.Some? ==> FitsU32(k.value)
  {
    RowKey(fp, s, i, RowAt(img, OwnerTree(s, i), id))
  }

  // ---- consistency ---------------------------------------------------------

  ghost predicate RowsOk(fp: FloatUnit, s: Schema, img: Trees) {
    forall t, id :: t in s.catalog.tables && Loc(TableTree(s, t), id) in img.cells ==>
      RowCellOk(fp, s, img, t, id)
  }

  predicate RowCellOk(fp: FloatUnit, s: Schema, img: Trees, t: TableId, id: ByteString)
    requires t in s.catalog.tables && Loc(TableTree(s, t), id) in img.cells
  {
    var cell := img.cells[Loc(TableTree(s, t), id)];
    cell.Row? && RowOk(fp, s, t, id, cell.values)
  }

  /** Every cell of an index tree is an entry whose key and value agree. */
  predicate TreeShape(img: Trees, tree: TreeId) {
    forall l :: l in img.cells && l.tree == tree ==>
      WellFormed(l.key) && img.cells[l] == Entry(DecodeEntry(l.key).value.1)
  }

  /** An index holds, for one identity, exactly the entry its row implies. */
  ghost predicate AgreesAt(fp: FloatUnit, s: Schema, img: Trees, i: IndexId, id: ByteString)
    requires FitsU32(id)
  {
    forall k :: FitsU32(k) ==>
      (Loc(IndexTree(s, i), EncodeEntry(k, id)) in img.cells <==> KeyAt(fp, s, img, i, id) == Some(k))
  }

  ghost predicate IndexOk(fp: FloatUnit, s: Schema, img: Trees, i: IndexId) {
    TreeShape(img, IndexTree(s, i)) && forall id :: FitsU32(id) ==> AgreesAt(fp, s, img, i, id)
  }

  ghost predicate UniqueOk(fp: FloatUnit, s: Schema, img: Trees, i: IndexId) {
    forall id, other :: KeyAt(fp, s, img, i, id).Some? && KeyAt(fp, s, img, i, id) == KeyAt(fp, s, img, i, other) ==> id == other
  }

  /** Rows are readable, indexes hold exactly what rows imply, unique indexes are unique. */
  ghost predicate IndexesOk(fp: FloatUnit, s: Schema, img: Trees) {
    && RowsOk(fp, s, img)
    && (forall i :: i in s.catalog.indexes ==> IndexOk(fp, s, img, i))
    && (forall i :: i in s.catalog.indexes && s.catalog.indexes[i].unique ==> UniqueOk(fp, s, img, i))
  }

  /** The child columns of a foreign key in the order of its supporting index. */
  function ChildColumns(parts: seq<KeyPart>, key: ForeignKey): (ids: seq<ColumnId>)
    requires |key.columns| == |key.referencedColumns|
    requires forall i :: 0 <= i < |parts| ==> parts[i].Plain? && parts[i].column in key.referencedColumns
    ensures |ids| == |parts|
    ensures forall i :: 0 <= i < |parts| ==>
              Some(ids[i]) == PairedColumn(key.referencedColumns, key.columns, parts[i].column)
  {
    if parts == [] then []
    else [PairedColumn(key.referencedColumns, key.columns, parts[0].column).value] + ChildColumns(parts[1..], key)
  }

  predicate NoNulls(vs: seq<Value>) {
    forall i :: 0 <= i < |vs| ==> !vs[i].Null?
  }

  /** The key a child row refers to; nothing when a component is NULL. */
  function ChildKey(s: Schema, img: Trees, key: ForeignKey, id: ByteString): (k: Option<ByteString>)
    requires ValidForeignKey(s.catalog, key)
  {
    match RowAt(img, TableTree(s, key.table), id)
    case None => None
    case Some(row) =>
      var def := s.catalog.tables[key.table];
      if !AllStorable(row) || |row| > |def.columns| then None
      else
        match LookupAll(def, Materialize(def, row), ChildColumns(ForeignKeyIndex(s.catalog, key).value.parts, key))
        case Err(_) => None
        case Ok(values) => if NoNulls(values) then Some(CompositeKey(values)) else None
  }

  function SupportOf(c: Catalog, key: ForeignKey): IndexId
    requires ValidForeignKey(c, key)
  {
    ForeignKeyIndex(c, key).value.id
  }

  /** Every child tuple without NULLs is the key of some row of the referenced table. */
  ghost predicate ForeignOk(fp: FloatUnit, s: Schema, img: Trees, key: ForeignKey)
    requires ValidForeignKey(s.catalog, key)
  {
    forall id :: ChildKey(s, img, key, id).Some? ==>
      exists parent :: KeyAt(fp, s, img, SupportOf(s.catalog, key), parent) == ChildKey(s, img, key, id)
  }

  ghost predicate ForeignKeysOk(fp: FloatUnit, s: Schema, img: Trees)
    requires Valid(s.catalog)
  {
    forall k :: k in s.catalog.foreignKeys ==> ForeignOk(fp, s, img, s.catalog.foreignKeys[k])
  }

  predicate HasSchema(img: Trees, s: Schema) {
    && img.Get(MARKER) == Some(Marker(s))
    && (forall l :: l in img.cells && l.tree == CATALOG_TREE ==> l == MARKER)
    && img.live == MappedTrees(s)
    && (forall l :: l in img.cells ==> l.tree in img.live)
  }

  /** A committed image: the live trees are exactly those the catalog maps, rows are
      readable, indexes agree with rows, unique keys are unique, references resolve. */
  ghost predicate ConsistentWith(fp: FloatUnit, img: Trees, s: Schema) {
    && HasSchema(img, s)
    && Valid(s.catalog)
    && MappingOk(s)
    && IndexesOk(fp, s, img)
    && ForeignKeysOk(fp, s, img)
  }

  ghost predicate Consistent(fp: FloatUnit, img: Trees) {
    match img.Get(MARKER)
    case Some(Marker(s)) => ConsistentWith(fp, img, s)
    case _ => false
  }
}
