/** Schema mutations as they are applied one after the other inside one transaction: what
    each step reads, stages, creates and drops, and why every step leaves a sound store. */
module SchemaSteps {
  import opened Common
  import opened Bytes
  import opened Values
  import opened Catalogs
  import opened RowKeys
  import opened IndexEntries
  import opened Kernel
  import opened Store
  import opened References
  import opened Carrying

  /** How a stored value is converted to the new declaration of its column. */
  type Coercion = (Value, Column) -> Result<Value>

  /** The state of a schema transaction: the candidate schema, what is staged, and the
      number the kernel gives to the next tree. */
  datatype Batch = Batch(schema: Schema, writes: Writes<Datum>, ranges: set<Range>,
                         created: set<TreeId>, dropped: set<TreeId>, next: TreeId)

  function Start(s: Schema, next: TreeId): Batch {
    Batch(s, map[], {}, {}, {}, next)
  }

  function Staged(b: Batch): Change<Datum> {
    Change(b.writes, b.created, b.dropped)
  }

  /** The snapshot with the batch applied so far. */
  function Work(base: Trees, b: Batch): Trees {
    Apply(base, Staged(b))
  }

  /** What a scan registers; trees this transaction created cannot be written by others. */
  function Register(b: Batch, tree: TreeId): set<Range> {
    if tree in b.created then {} else {Whole(tree)}
  }

  // ---- rewriting rows ------------------------------------------------------

  /** One row in the new layout of its table: one column converted, or taken out. */
  function Rewrite(co: Coercion, def: Table, def': Table, id: ColumnId, row: seq<Value>): (r: Result<seq<Value>>)
    requires |row| == |def.columns|
  {
    match Position(def.columns, id)
    case None => Err(InvalidState)
    case Some(p) =>
      var rewritten :- (match ColumnAt(def', id)
                        case None => Ok(row[..p] + row[p + 1..])
                        case Some(target) => var v :- co(row[p], target); Ok(row[p := v]));
      if !ValidRow(def', rewritten) then Err(InvalidState)
      else if !AllStorable(rewritten) then Err(ValueTooLarge)
      else Ok(rewritten)
  }

  predicate Rewritten(co: Coercion, def: Table, def': Table, id: ColumnId, d: Datum, d': Option<Datum>) {
    && d.Row? && |d.values| <= |def.columns|
    && var row := Rewrite(co, def, def', id, Materialize(def, d.values));
       row.Ok? && d' == Some(Row(row.value))
  }

  /** Every row of a table is rewritten in place and nothing else is written. */
  ghost predicate RowsRewritten(co: Coercion, img: Trees, tree: TreeId, def: Table, def': Table, id: ColumnId,
                                before: Writes<Datum>, after: Writes<Datum>) {
    forall l: Loc ::
      if l.tree == tree && l in img.cells then l in after && Rewritten(co, def, def', id, img.cells[l], after[l])
      else SameWrite(before, after, l)
  }

  predicate SameWrite(before: Writes<Datum>, after: Writes<Datum>, l: Loc) {
    (l in after <==> l in before) && (l in before ==> after[l] == before[l])
  }

  // ---- building an index ---------------------------------------------------

  /** A cell of the new index tree is the entry of a row. */
  predicate EntryOf(fp: FloatUnit, s: Schema, img: Trees, i: IndexId, key: ByteString) {
    WellFormed(key) && KeyAt(fp, s, img, i, DecodeEntry(key).value.1) == Some(DecodeEntry(key).value.0)
  }

  /** Exactly the entries of the table's rows are written to the new tree. */
  ghost predicate IndexBuilt(fp: FloatUnit, s: Schema, img: Trees, i: IndexId, before: Writes<Datum>, after: Writes<Datum>) {
    forall l: Loc ::
      if l.tree == IndexTree(s, i) then
        && (l in after <==> EntryOf(fp, s, img, i, l.key))
        && (l in after ==> after[l] == Some(Entry(DecodeEntry(l.key).value.1)))
      else SameWrite(before, after, l)
  }

  // ---- one step ------------------------------------------------------------

  function WithCatalog(b: Batch, c: Catalog): Batch {
    b.(schema := b.schema.(catalog := c))
  }

  function WithIndexTree(b: Batch, c: Catalog, i: IndexId): Batch {
    b.(schema := Schema(c, b.schema.tableTrees, b.schema.indexTrees[i := b.next]), created := b.created + {b.next}, next := b.next + 1)
  }

  function WithTableTree(b: Batch, c: Catalog, t: TableId): Batch {
    b.(schema := Schema(c, b.schema.tableTrees[t := b.next], b.schema.indexTrees), created := b.created + {b.next}, next := b.next + 1)
  }

  function WithoutTable(b: Batch, c: Catalog, t: TableId): Batch {
    var owned := set i | i in b.schema.indexTrees && Owns(b.schema.catalog, t, i);
    b.(schema := Schema(c, b.schema.tableTrees - {t}, b.schema.indexTrees - owned),
       dropped := b.dropped + {TableTree(b.schema, t)} + set i | i in owned :: b.schema.indexTrees[i])
  }

  function WithoutIndex(b: Batch, c: Catalog, i: IndexId): Batch {
    b.(schema := Schema(c, b.schema.tableTrees, b.schema.indexTrees - {i}), dropped := b.dropped + {IndexTree(b.schema, i)})
  }

  /** One mutation has been carried out on the working image. */
  ghost predicate Stepped(fp: FloatUnit, co: Coercion, img: Trees, b: Batch, m: Mutation, b': Batch) {
    var mutated := Mutate(b.schema.catalog, m);
    mutated.Ok? &&
    var c := mutated.value;
    match m
    case CreateTable(def, _) => b' == WithTableTree(b, c, def.id)
    case AddIndex(index, _) =>
      if index.id in b.schema.indexTrees then b' == b
      else
        var made := WithIndexTree(b, c, index.id);
        && b' == made.(writes := b'.writes, ranges := b.ranges + Register(b, TableTree(b.schema, index.table)))
        && index.table in b.schema.catalog.tables
        && KeysFit(fp, b'.schema, img, index.id)
        && (index.unique ==> UniqueOk(fp, b'.schema, img, index.id))
        && IndexBuilt(fp, b'.schema, img, index.id, b.writes, b'.writes)
    case AddForeignKey(key, _) =>
      && b' == WithCatalog(b, c).(ranges := b.ranges + ReferenceRanges(b, c, key))
      && CheckedBut(fp, b'.schema, img, key.id, {})
    case AlterColumnType(t, id, _, _) => RowsStepped(co, img, b, c, t, id, b')
    case DropColumn(t, id) => RowsStepped(co, img, b, c, t, id, b')
    case DropTable(t) => b' == WithoutTable(b, c, t)
    case DropIndex(i) => b' == WithoutIndex(b, c, i)
    case _ => b' == WithCatalog(b, c)
  }

  /** What validating a new foreign key registers: nothing for a table that is itself new. */
  function ReferenceRanges(b: Batch, c: Catalog, key: ForeignKey): set<Range> {
    if !ValidForeignKey(c, key) || TableTree(b.schema, key.table) in b.created then {}
    else {Whole(TableTree(b.schema, key.table)), Whole(IndexTree(b.schema, SupportOf(c, key)))}
  }

  ghost predicate RowsStepped(co: Coercion, img: Trees, b: Batch, c: Catalog, t: TableId, id: ColumnId, b': Batch) {
    && t in b.schema.catalog.tables && t in c.tables
    && b' == WithCatalog(b, c).(writes := b'.writes, ranges := b.ranges + {Whole(TableTree(b.schema, t))})
    && RowsRewritten(co, img, TableTree(b.schema, t), b.schema.catalog.tables[t], c.tables[t], id, b.writes, b'.writes)
  }

  // ---- what every step keeps -----------------------------------------------

  /** The batch is in order on a snapshot: the working image is sound, new trees come from
      beyond every tree in use, and tables created here are empty. */
  ghost predicate InOrder(fp: FloatUnit, base: Trees, b: Batch) {
    && Sound(fp, b.schema, Work(base, b))
    && Bounded(base, b)
    && (forall t :: t in b.schema.tableTrees && b.schema.tableTrees[t] in b.created ==> Vacant(Work(base, b), b.schema.tableTrees[t]))
  }

  predicate Vacant(img: Trees, tree: TreeId) {
    forall l :: l in img.cells ==> l.tree != tree
  }

  ghost predicate Bounded(base: Trees, b: Batch) {
    && CATALOG_TREE in base.live
    && CATALOG_TREE !in b.dropped && CATALOG_TREE !in b.created
    && (forall t :: t in base.live || t in b.created || t in b.dropped ==> t < b.next)
    && (forall l :: l in base.cells ==> l.tree in base.live)
    && (forall l :: l in b.writes ==> l.tree in base.live || l.tree in b.created)
    && b.created !! base.live
  }
}
