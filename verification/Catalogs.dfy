/** The relational catalog: tables, primary keys, indexes and foreign keys, the
    mutations that change them and the invariant those mutations keep. The source
    clones a catalog before every change, so a catalog is a value here and a
    mutation returns the changed copy or the error that refused it. */
module Catalogs {
  import opened Common
  import opened Bytes
  import opened Values

  type Name = Utf8
  type ColumnId = u16
  type TableId = u64
  type IndexId = u64
  type ConstraintId = u64

  const RESERVED_TABLE: TableId := 0xFFFF_FFFF_FFFF_FFFF

  datatype Column = Column(id: ColumnId, name: Name, kind: ColumnType, nullable: bool)

  datatype Table = Table(id: TableId, name: Name, columns: seq<Column>)

  datatype KeyOperator = Plus | Minus | Times | Over

  datatype Expression = Reference(column: ColumnId) | Combine(left: Expression, op: KeyOperator, right: Expression)

  datatype KeyPart = Plain(column: ColumnId) | Computed(expression: Expression)

  datatype Index = Index(id: IndexId, table: TableId, parts: seq<KeyPart>, unique: bool,
                         filter: Option<seq<(ColumnId, Value)>>)

  datatype Action = Restrict | Cascade | SetNull

  datatype Timing = Immediate | Deferred

  datatype ForeignKey = ForeignKey(id: ConstraintId, table: TableId, columns: seq<ColumnId>,
                                   referencedTable: TableId, referencedColumns: seq<ColumnId>,
                                   onDelete: Action, timing: Timing)

  datatype Catalog = Catalog(generation: nat,
                             tables: map<TableId, Table>,
                             primaryKeys: map<TableId, seq<ColumnId>>,
                             indexes: map<IndexId, Index>,
                             indexNames: map<IndexId, Name>,
                             foreignKeys: map<ConstraintId, ForeignKey>,
                             foreignKeyNames: map<ConstraintId, Name>)

  const EMPTY := Catalog(0, map[], map[], map[], map[], map[], map[])

  // ---- columns -------------------------------------------------------------

  predicate Distinct<T(==)>(s: seq<T>) {
    forall i, j :: 0 <= i < j < |s| ==> s[i] != s[j]
  }

  /** The position of the first column with an id. */
  function Position(columns: seq<Column>, id: ColumnId): (p: Option<nat>)
    ensures p.Some? ==> p.value < |columns| && columns[p.value].id == id
    ensures p.Some? ==> forall i :: 0 <= i < p.value ==> columns[i].id != id
    ensures p.None? ==> forall i :: 0 <= i < |columns| ==> columns[i].id != id
  {
    if columns == [] then None
    else if columns[0].id == id then Some(0)
    else match Position(columns[1..], id)
         case None => None
         case Some(p) => Some(p + 1)
  }

  function ColumnAt(t: Table, id: ColumnId): (c: Option<Column>)
    ensures c.Some? ==> c.value in t.columns && c.value.id == id
  {
    match Position(t.columns, id)
    case None => None
    case Some(p) => Some(t.columns[p])
  }

  predicate ValidTable(t: Table) {
    && t.id != RESERVED_TABLE
    && t.columns != []
    && (forall i, j :: 0 <= i < j < |t.columns| ==> t.columns[i].id != t.columns[j].id)
    && (forall i, j :: 0 <= i < j < |t.columns| ==> t.columns[i].name != t.columns[j].name)
  }

  predicate ValidPrimaryKey(t: Table, key: seq<ColumnId>) {
    && key != []
    && Distinct(key)
    && forall i :: 0 <= i < |key| ==> ColumnAt(t, key[i]).Some? && !ColumnAt(t, key[i]).value.nullable
  }

  // ---- indexes -------------------------------------------------------------

  function ExpressionColumns(e: Expression): seq<ColumnId> {
    match e
    case Reference(column) => [column]
    case Combine(left, _, right) => ExpressionColumns(left) + ExpressionColumns(right)
  }

  function PartColumns(p: KeyPart): seq<ColumnId> {
    match p
    case Plain(column) => [column]
    case Computed(e) => ExpressionColumns(e)
  }

  /** Every column the key parts mention, in order. */
  function KeyColumns(parts: seq<KeyPart>): seq<ColumnId> {
    if parts == [] then [] else PartColumns(parts[0]) + KeyColumns(parts[1..])
  }

  predicate ValidTerm(t: Table, term: (ColumnId, Value)) {
    ColumnAt(t, term.0).Some? && HasType(term.1, ColumnAt(t, term.0).value.kind)
  }

  predicate ValidIndex(c: Catalog, index: Index) {
    && index.parts != []
    && index.table in c.tables
    && Distinct(KeyColumns(index.parts))
    && (forall id :: id in KeyColumns(index.parts) ==> ColumnAt(c.tables[index.table], id).Some?)
    && (index.filter.Some? ==>
          forall i :: 0 <= i < |index.filter.value| ==> ValidTerm(c.tables[index.table], index.filter.value[i]))
  }

  /** The column takes part in the index, as a key component or in its predicate. */
  predicate Mentions(index: Index, id: ColumnId) {
    || id in KeyColumns(index.parts)
    || (index.filter.Some? && exists i :: 0 <= i < |index.filter.value| && index.filter.value[i].0 == id)
  }

  // ---- foreign keys --------------------------------------------------------

  /** The child column paired with a referenced column. */
  function PairedColumn(referenced: seq<ColumnId>, columns: seq<ColumnId>, id: ColumnId): (c: Option<ColumnId>)
    requires |referenced| == |columns|
    ensures c.Some? ==> exists i :: 0 <= i < |columns| && referenced[i] == id && columns[i] == c.value
    ensures c.None? <==> id !in referenced
  {
    if referenced == [] then None
    else if referenced[0] == id then Some(columns[0])
    else PairedColumn(referenced[1..], columns[1..], id)
  }

  /** A unique, total index over plain columns that are the referenced columns in some order. */
  predicate Supports(index: Index, key: ForeignKey) {
    && index.table == key.referencedTable
    && index.unique
    && index.filter.None?
    && |index.parts| == |key.referencedColumns|
    && forall i :: 0 <= i < |index.parts| ==> index.parts[i].Plain? && index.parts[i].column in key.referencedColumns
  }

  function Supporting(c: Catalog, key: ForeignKey): set<IndexId> {
    set i | i in c.indexes && Supports(c.indexes[i], key)
  }

  predicate IsLeast(s: set<u64>, i: u64) {
    i in s && forall x :: x in s ==> i <= x
  }

  /** The least id of a set that is not below `from`. */
  function LeastFrom(s: set<u64>, from: u64): (m: u64)
    requires exists x :: x in s && from <= x
    ensures m in s && from <= m && forall x :: x in s && from <= x ==> m <= x
    decreases 0x1_0000_0000_0000_0000 - from
  {
    if from in s then from else LeastFrom(s, from + 1)
  }

  /** The index a foreign key is checked through: the supporting one with the lowest id. */
  function ForeignKeyIndex(c: Catalog, key: ForeignKey): (r: Option<Index>)
    ensures r.Some? <==> Supporting(c, key) != {}
    ensures r.Some? ==> Supports(r.value, key)
    ensures r.Some? ==> exists i :: IsLeast(Supporting(c, key), i) && i in c.indexes && r.value == c.indexes[i]
  {
    if Supporting(c, key) == {} then None
    else
      var i := LeastFrom(Supporting(c, key), 0);
      assert IsLeast(Supporting(c, key), i);
      Some(c.indexes[i])
  }

  predicate ValidPair(child: Table, parent: Table, key: ForeignKey, i: nat)
    requires i < |key.columns| == |key.referencedColumns|
  {
    var c, p := ColumnAt(child, key.columns[i]), ColumnAt(parent, key.referencedColumns[i]);
    && c.Some? && p.Some?
    && c.value.kind == p.value.kind
    && (key.onDelete == SetNull ==> c.value.nullable)
  }

  predicate ValidForeignKey(c: Catalog, key: ForeignKey) {
    && key.columns != []
    && |key.columns| == |key.referencedColumns|
    && key.table in c.tables
    && key.referencedTable in c.tables
    && Distinct(key.columns)
    && Distinct(key.referencedColumns)
    && (forall i :: 0 <= i < |key.columns| ==> ValidPair(c.tables[key.table], c.tables[key.referencedTable], key, i))
    && ForeignKeyIndex(c, key).Some?
  }

  // ---- the invariant -------------------------------------------------------

  predicate NamesDistinct(m: map<u64, Name>) {
    forall i, j :: i in m && j in m && i != j ==> m[i] != m[j]
  }

  predicate ValidTables(c: Catalog) {
    && (forall t :: t in c.tables ==> c.tables[t].id == t && ValidTable(c.tables[t]))
    && (forall t, u :: t in c.tables && u in c.tables && t != u ==> c.tables[t].name != c.tables[u].name)
    && (forall t :: t in c.primaryKeys ==> t in c.tables && ValidPrimaryKey(c.tables[t], c.primaryKeys[t]))
  }

  predicate ValidNames(c: Catalog) {
    && c.indexNames.Keys <= c.indexes.Keys
    && c.foreignKeyNames.Keys <= c.foreignKeys.Keys
    && (forall i :: i in c.indexNames ==> c.indexNames[i] != [])
    && (forall k :: k in c.foreignKeyNames ==> c.foreignKeyNames[k] != [])
    && NamesDistinct(c.indexNames)
    && NamesDistinct(c.foreignKeyNames)
    && (forall i, k :: i in c.indexNames && k in c.foreignKeyNames ==> c.indexNames[i] != c.foreignKeyNames[k])
  }

  predicate Valid(c: Catalog) {
    && ValidTables(c)
    && ValidNames(c)
    && (forall i :: i in c.indexes ==> c.indexes[i].id == i && ValidIndex(c, c.indexes[i]))
    && (forall k :: k in c.foreignKeys ==> c.foreignKeys[k].id == k && ValidForeignKey(c, c.foreignKeys[k]))
  }

  // ---- mutations -----------------------------------------------------------

  datatype Mutation =
    | CreateTable(definition: Table, primaryKey: Option<seq<ColumnId>>)
    | AddNullableColumn(table: TableId, column: Column)
    | AddIndex(index: Index, indexName: Option<Name>)
    | AddForeignKey(key: ForeignKey, keyName: Option<Name>)
    | RenameColumn(table: TableId, columnId: ColumnId, newName: Name)
    | AlterColumnType(table: TableId, columnId: ColumnId, kind: ColumnType, nullable: bool)
    | DropColumn(table: TableId, columnId: ColumnId)
    | RenameTable(table: TableId, newName: Name)
    | DropTable(table: TableId)
    | DropIndex(indexId: IndexId)
    | DropForeignKey(constraint: ConstraintId)

  /** The column is part of the primary key, of an index or of a foreign key. */
  predicate Constrained(c: Catalog, table: TableId, id: ColumnId) {
    || (table in c.primaryKeys && id in c.primaryKeys[table])
    || (exists i :: i in c.indexes && c.indexes[i].table == table && Mentions(c.indexes[i], id))
    || (exists k :: k in c.foreignKeys && KeyMentions(c.foreignKeys[k], table, id))
  }

  /** A column whose rename, change or removal is refused. The guard also trips on a partial
      index of any other table whose predicate uses the same column id. */
  predicate Guarded(c: Catalog, table: TableId, id: ColumnId) {
    Constrained(c, table, id) || exists i :: i in c.indexes && Filters(c.indexes[i], id)
  }

  predicate Filters(index: Index, id: ColumnId) {
    index.filter.Some? && exists j :: 0 <= j < |index.filter.value| && index.filter.value[j].0 == id
  }

  predicate KeyMentions(key: ForeignKey, table: TableId, id: ColumnId) {
    (key.table == table && id in key.columns) || (key.referencedTable == table && id in key.referencedColumns)
  }

  predicate NameFree(c: Catalog, name: Name) {
    && name != []
    && (forall i :: i in c.indexNames ==> c.indexNames[i] != name)
    && (forall k :: k in c.foreignKeyNames ==> c.foreignKeyNames[k] != name)
  }

  function Named(names: map<u64, Name>, id: u64, name: Option<Name>): map<u64, Name> {
    if name.Some? then names[id := name.value] else names
  }

  function Next(c: Catalog): Catalog {
    c.(generation := c.generation + 1)
  }

  function WithTable(c: Catalog, t: Table): Catalog {
    Next(c.(tables := c.tables[t.id := t]))
  }

  function ApplyCreateTable(c: Catalog, t: Table, key: Option<seq<ColumnId>>): Result<Catalog> {
    if !ValidTable(t) then Err(InvalidState)
    else if t.id in c.tables || (exists u :: u in c.tables && c.tables[u].name == t.name) then Err(InvalidState)
    else if key.Some? && !ValidPrimaryKey(t, key.value) then Err(InvalidState)
    else Ok(WithTable(if key.Some? then c.(primaryKeys := c.primaryKeys[t.id := key.value]) else c, t))
  }

  function ApplyAddNullableColumn(c: Catalog, table: TableId, column: Column): Result<Catalog> {
    if !column.nullable || table !in c.tables then Err(InvalidState)
    else
      var t := c.tables[table];
      if exists i :: 0 <= i < |t.columns| && (t.columns[i].id == column.id || t.columns[i].name == column.name)
      then Err(InvalidState)
      else Ok(WithTable(c, t.(columns := t.columns + [column])))
  }

  function ApplyAddIndex(c: Catalog, index: Index, name: Option<Name>): Result<Catalog> {
    if name.Some? && !NameFree(c, name.value) then Err(InvalidState)
    else if !ValidIndex(c, index) then Err(InvalidState)
    else if index.id in c.indexes then
      // An identical anonymous definition is accepted as a no-op.
      if name.None? && c.indexes[index.id] == index then Ok(c) else Err(InvalidState)
    else
      Ok(Next(c.(indexes := c.indexes[index.id := index], indexNames := Named(c.indexNames, index.id, name))))
  }

  function ApplyAddForeignKey(c: Catalog, key: ForeignKey, name: Option<Name>): Result<Catalog> {
    if name.Some? && !NameFree(c, name.value) then Err(InvalidState)
    else if !ValidForeignKey(c, key) || key.id in c.foreignKeys then Err(InvalidState)
    else Ok(Next(c.(foreignKeys := c.foreignKeys[key.id := key],
                    foreignKeyNames := Named(c.foreignKeyNames, key.id, name))))
  }

  function ApplyRenameColumn(c: Catalog, table: TableId, id: ColumnId, newName: Name): Result<Catalog> {
    if table !in c.tables then Err(InvalidState)
    else
      var t := c.tables[table];
      if exists i :: 0 <= i < |t.columns| && t.columns[i].name == newName then Err(InvalidState)
      else if Guarded(c, table, id) then Err(InvalidState)
      else match Position(t.columns, id)
           case None => Err(InvalidState)
           case Some(p) => Ok(WithTable(c, t.(columns := t.columns[p := t.columns[p].(name := newName)])))
  }

  /** A declared NOT NULL column can change type only by becoming nullable. */
  function ApplyAlterColumnType(c: Catalog, table: TableId, id: ColumnId, kind: ColumnType, nullable: bool): Result<Catalog> {
    if Guarded(c, table, id) || table !in c.tables then Err(InvalidState)
    else
      var t := c.tables[table];
      match Position(t.columns, id)
      case None => Err(InvalidState)
      case Some(p) =>
        if !nullable && !t.columns[p].nullable then Err(InvalidState)
        else Ok(WithTable(c, t.(columns := t.columns[p := t.columns[p].(kind := kind, nullable := true)])))
  }

  function ApplyDropColumn(c: Catalog, table: TableId, id: ColumnId): Result<Catalog> {
    if Guarded(c, table, id) || table !in c.tables then Err(InvalidState)
    else
      var t := c.tables[table];
      if |t.columns| == 1 then Err(InvalidState)
      else match Position(t.columns, id)
           case None => Err(InvalidState)
           case Some(p) => Ok(WithTable(c, t.(columns := t.columns[..p] + t.columns[p + 1..])))
  }

  function ApplyRenameTable(c: Catalog, table: TableId, newName: Name): Result<Catalog> {
    if (exists u :: u in c.tables && c.tables[u].name == newName) || table !in c.tables then Err(InvalidState)
    else Ok(WithTable(c, c.tables[table].(name := newName)))
  }

  predicate Owns(c: Catalog, table: TableId, index: IndexId) {
    index in c.indexes && c.indexes[index].table == table
  }

  predicate OwnsKey(c: Catalog, table: TableId, key: ConstraintId) {
    key in c.foreignKeys && c.foreignKeys[key].table == table
  }

  function ApplyDropTable(c: Catalog, table: TableId): Result<Catalog> {
    if table !in c.tables then Err(InvalidState)
    else if exists k :: k in c.foreignKeys && c.foreignKeys[k].referencedTable == table && c.foreignKeys[k].table != table
    then Err(InvalidState)
    else Ok(Next(Catalog(c.generation,
                         c.tables - {table},
                         c.primaryKeys - {table},
                         map i | i in c.indexes && !Owns(c, table, i) :: c.indexes[i],
                         map i | i in c.indexNames && !Owns(c, table, i) :: c.indexNames[i],
                         map k | k in c.foreignKeys && !OwnsKey(c, table, k) :: c.foreignKeys[k],
                         map k | k in c.foreignKeyNames && !OwnsKey(c, table, k) :: c.foreignKeyNames[k])))
  }

  function ApplyDropIndex(c: Catalog, index: IndexId): Result<Catalog> {
    if index !in c.indexes then Err(InvalidState)
    else if exists k :: k in c.foreignKeys && c.foreignKeys[k].referencedTable == c.indexes[index].table
                        && Supporting(c, c.foreignKeys[k]) <= {index}
    then Err(InvalidState)
    else Ok(Next(c.(indexes := c.indexes - {index}, indexNames := c.indexNames - {index})))
  }

  function ApplyDropForeignKey(c: Catalog, key: ConstraintId): Result<Catalog> {
    if key !in c.foreignKeys then Err(InvalidState)
    else Ok(Next(c.(foreignKeys := c.foreignKeys - {key}, foreignKeyNames := c.foreignKeyNames - {key})))
  }

  function Mutate(c: Catalog, m: Mutation): Result<Catalog> {
    match m
    case CreateTable(t, key) => ApplyCreateTable(c, t, key)
    case AddNullableColumn(table, column) => ApplyAddNullableColumn(c, table, column)
    case AddIndex(index, name) => ApplyAddIndex(c, index, name)
    case AddForeignKey(key, name) => ApplyAddForeignKey(c, key, name)
    case RenameColumn(table, id, name) => ApplyRenameColumn(c, table, id, name)
    case AlterColumnType(table, id, kind, nullable) => ApplyAlterColumnType(c, table, id, kind, nullable)
    case DropColumn(table, id) => ApplyDropColumn(c, table, id)
    case RenameTable(table, name) => ApplyRenameTable(c, table, name)
    case DropTable(table) => ApplyDropTable(c, table)
    case DropIndex(index) => ApplyDropIndex(c, index)
    case DropForeignKey(key) => ApplyDropForeignKey(c, key)
  }
}
