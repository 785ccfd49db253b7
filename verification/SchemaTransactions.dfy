/** A schema transaction: it validates a batch of mutations against a candidate catalog,
    builds indexes, checks new foreign keys and rewrites rows on its snapshot, and publishes
    everything with the new marker. */
module SchemaTransactions {
  import opened Common
  import opened Bytes
  import opened Values
  import opened Catalogs
  import opened RowKeys
  import opened IndexEntries
  import opened Kernel
  import opened Store
  import opened References
  import opened Carrying
  import opened SchemaSteps
  import opened SchemaLaws
  import opened SchemaBatches
  import CatalogLaws

  // ---- building an index, row by row ---------------------------------------

  /** The entries of all rows but some have been written. */
  ghost predicate BuiltBut(fp: FloatUnit, s: Schema, img: Trees, i: IndexId, before: Writes<Datum>, after: Writes<Datum>, todo: set<ByteString>) {
    forall l: Loc ::
      if l.tree == IndexTree(s, i) then
        && (l in after <==> EntryOf(fp, s, img, i, l.key) && DecodeEntry(l.key).value.1 !in todo)
        && (l in after ==> after[l] == Some(Entry(DecodeEntry(l.key).value.1)))
      else SameWrite(before, after, l)
  }

  ghost predicate FitBut(fp: FloatUnit, s: Schema, img: Trees, i: IndexId, todo: set<ByteString>)
    requires i in s.catalog.indexes && s.catalog.indexes[i].table in s.catalog.tables
  {
    forall l :: l in img.cells && l.tree == OwnerTree(s, i) && l.key !in todo ==> CellFits(fp, s, i, img.cells[l])
  }

  /** The keys seen so far are those of the rows done so far, each of one row. */
  ghost predicate SeenBut(fp: FloatUnit, s: Schema, img: Trees, i: IndexId, seen: set<ByteString>, todo: set<ByteString>) {
    && (forall id :: id !in todo && KeyAt(fp, s, img, i, id).Some? ==> KeyAt(fp, s, img, i, id).value in seen)
    && (forall k :: k in seen ==> exists id :: id !in todo && KeyAt(fp, s, img, i, id) == Some(k))
    && (forall id, other | id !in todo && other !in todo && KeyAt(fp, s, img, i, id).Some? ::
          KeyAt(fp, s, img, i, id) == KeyAt(fp, s, img, i, other) ==> id == other)
  }

  lemma BuildStart(fp: FloatUnit, s: Schema, img: Trees, i: IndexId, writes: Writes<Datum>, todo: set<ByteString>)
    requires i in s.catalog.indexes && s.catalog.indexes[i].table in s.catalog.tables
    requires forall l :: l in img.cells && l.tree == OwnerTree(s, i) ==> l.key in todo
    requires forall l :: l in writes ==> l.tree != IndexTree(s, i)
    ensures BuiltBut(fp, s, img, i, writes, writes, todo) && FitBut(fp, s, img, i, todo) && SeenBut(fp, s, img, i, {}, todo)
  {
    hide IndexKey, DecodeEntry, CellFits;
    forall id | KeyAt(fp, s, img, i, id).Some? ensures id in todo {
      assert Loc(OwnerTree(s, i), id) in img.cells;
    }
  }

  lemma BuildSkip(fp: FloatUnit, s: Schema, img: Trees, i: IndexId, before: Writes<Datum>, after: Writes<Datum>, seen: set<ByteString>,
                  todo: set<ByteString>, id: ByteString)
    requires i in s.catalog.indexes && s.catalog.indexes[i].table in s.catalog.tables
    requires BuiltBut(fp, s, img, i, before, after, todo) && FitBut(fp, s, img, i, todo)
    requires s.catalog.indexes[i].unique ==> SeenBut(fp, s, img, i, seen, todo)
    requires KeyAt(fp, s, img, i, id) == None
    requires forall l :: l in img.cells && l == Loc(OwnerTree(s, i), id) ==> CellFits(fp, s, i, img.cells[l])
    ensures BuiltBut(fp, s, img, i, before, after, todo - {id}) && FitBut(fp, s, img, i, todo - {id})
    ensures s.catalog.indexes[i].unique ==> SeenBut(fp, s, img, i, seen, todo - {id})
  {
    hide KeyAt, DecodeEntry, CellFits;
    if s.catalog.indexes[i].unique {
      SeenSkip(fp, s, img, i, seen, todo, id);
    }
  }

  lemma SeenSkip(fp: FloatUnit, s: Schema, img: Trees, i: IndexId, seen: set<ByteString>, todo: set<ByteString>, id: ByteString)
    requires SeenBut(fp, s, img, i, seen, todo) && KeyAt(fp, s, img, i, id) == None
    ensures SeenBut(fp, s, img, i, seen, todo - {id})
  {
    hide KeyAt;
    forall k | k in seen ensures exists x :: x !in todo - {id} && KeyAt(fp, s, img, i, x) == Some(k) {
      var x :| x !in todo && KeyAt(fp, s, img, i, x) == Some(k);
      assert x !in todo - {id};
    }
  }

  lemma SeenOne(fp: FloatUnit, s: Schema, img: Trees, i: IndexId, seen: set<ByteString>, todo: set<ByteString>, id: ByteString, key: ByteString)
    requires SeenBut(fp, s, img, i, seen, todo) && KeyAt(fp, s, img, i, id) == Some(key) && key !in seen
    ensures SeenBut(fp, s, img, i, seen + {key}, todo - {id})
  {
    hide KeyAt;
    forall k | k in seen + {key} ensures exists x :: x !in todo - {id} && KeyAt(fp, s, img, i, x) == Some(k) {
      if k != key {
        var x :| x !in todo && KeyAt(fp, s, img, i, x) == Some(k);
        assert x !in todo - {id};
      } else {
        assert id !in todo - {id};
      }
    }
  }

  lemma SeenTwice(fp: FloatUnit, s: Schema, img: Trees, i: IndexId, seen: set<ByteString>, todo: set<ByteString>, id: ByteString, key: ByteString)
    requires SeenBut(fp, s, img, i, seen, todo) && KeyAt(fp, s, img, i, id) == Some(key) && key in seen && id in todo
    ensures !UniqueOk(fp, s, img, i)
  {
    hide KeyAt;
    var other :| other !in todo && KeyAt(fp, s, img, i, other) == Some(key);
  }

  lemma BuildOne(fp: FloatUnit, s: Schema, img: Trees, i: IndexId, before: Writes<Datum>, after: Writes<Datum>,
                 todo: set<ByteString>, id: ByteString, key: ByteString)
    requires i in s.catalog.indexes && s.catalog.indexes[i].table in s.catalog.tables && FitsU32(key) && FitsU32(id)
    requires BuiltBut(fp, s, img, i, before, after, todo) && FitBut(fp, s, img, i, todo)
    requires KeyAt(fp, s, img, i, id) == Some(key)
    requires forall l :: l in img.cells && l == Loc(OwnerTree(s, i), id) ==> CellFits(fp, s, i, img.cells[l])
    ensures BuiltBut(fp, s, img, i, before, after[Loc(IndexTree(s, i), EncodeEntry(key, id)) := Some(Entry(id))], todo - {id})
    ensures FitBut(fp, s, img, i, todo - {id})
  {
    hide KeyAt, DecodeEntry, CellFits, EncodeEntry;
    EntryRoundTrip(key, id);
    var put := Loc(IndexTree(s, i), EncodeEntry(key, id));
    var after' := after[put := Some(Entry(id))];
    forall l: Loc | l.tree == IndexTree(s, i)
      ensures l in after' <==> EntryOf(fp, s, img, i, l.key) && DecodeEntry(l.key).value.1 !in todo - {id}
      ensures l in after' ==> after'[l] == Some(Entry(DecodeEntry(l.key).value.1))
    {
      if EntryOf(fp, s, img, i, l.key) && DecodeEntry(l.key).value.1 == id {
        EntryReadBack(l.key);
        assert l == put;
      }
    }
  }

  // ---- rewriting rows ------------------------------------------------------

  ghost predicate RewrittenBut(co: Coercion, img: Trees, tree: TreeId, def: Table, def': Table, id: ColumnId,
                               before: Writes<Datum>, after: Writes<Datum>, todo: set<Loc>) {
    forall l: Loc ::
      if l.tree == tree && l in img.cells && l !in todo then l in after && Rewritten(co, def, def', id, img.cells[l], after[l])
      else SameWrite(before, after, l)
  }

  /** Whether a mapping is what is live: each table and index of the catalog has a live tree
      of its own, nothing else is mapped and nothing else is live. */
  method ValidateMapping(live: set<TreeId>, s: Schema) returns (r: Result<()>)
    ensures r.Ok? <==> MappingOk(s) && live == MappedTrees(s)
    ensures r.Err? ==> r.error == Corruption
  {
    hide Separate, MappingOk, MappedTrees;
    if CATALOG_TREE !in live {
      NoCatalogTree(s, live);
      return Err(Corruption);
    }
    var tables := MapTables(live, s);
    if tables.None? {
      return Err(Corruption);
    }
    var mapped := MapIndexes(live, s, tables.value);
    if mapped.None? {
      return Err(Corruption);
    }
    AcceptedMapping(s);
    if mapped.value != live {
      return Err(Corruption);
    }
    if !(s.tableTrees.Keys <= s.catalog.tables.Keys && s.indexTrees.Keys <= s.catalog.indexes.Keys) {
      return Err(Corruption);
    }
    r := Ok(());
  }

  lemma NoCatalogTree(s: Schema, live: set<TreeId>)
    requires CATALOG_TREE !in live
    ensures !(MappingOk(s) && live == MappedTrees(s))
  {
  }

  /** The trees of the tables, if each has a live one of its own. */
  method MapTables(live: set<TreeId>, s: Schema) returns (r: Option<set<TreeId>>)
    requires CATALOG_TREE in live
    ensures r.None? ==> !(MappingOk(s) && live == MappedTrees(s))
    ensures r.Some? ==>
              && s.catalog.tables.Keys <= s.tableTrees.Keys && Separate(s.tableTrees, s.catalog.tables.Keys, {CATALOG_TREE})
              && r.value == {CATALOG_TREE} + TreesOf(s.tableTrees, s.catalog.tables.Keys) && r.value <= live
  {
    hide MappingOk, MappedTrees;
    var mapped := {CATALOG_TREE};
    var todo := s.catalog.tables.Keys;
    while todo != {}
      invariant todo <= s.catalog.tables.Keys
      invariant forall t :: t in s.catalog.tables && t !in todo ==> t in s.tableTrees
      invariant mapped == {CATALOG_TREE} + TreesOf(s.tableTrees, s.catalog.tables.Keys - todo)
      invariant mapped <= live
      invariant Separate(s.tableTrees, s.catalog.tables.Keys - todo, {CATALOG_TREE})
    {
      var t :| t in todo;
      if t !in s.tableTrees || s.tableTrees[t] !in live || s.tableTrees[t] in mapped {
        RefusedTable(s, live, s.catalog.tables.Keys - todo, t);
        return None;
      }
      assert s.catalog.tables.Keys - (todo - {t}) == s.catalog.tables.Keys - todo + {t};
      mapped := mapped + {s.tableTrees[t]};
      todo := todo - {t};
    }
    assert s.catalog.tables.Keys - {} == s.catalog.tables.Keys;
    r := Some(mapped);
  }

  /** The trees of the indexes besides, if each has a live one of its own. */
  method MapIndexes(live: set<TreeId>, s: Schema, tables: set<TreeId>) returns (r: Option<set<TreeId>>)
    requires tables == {CATALOG_TREE} + TreesOf(s.tableTrees, s.catalog.tables.Keys) && tables <= live
    ensures r.None? ==> !(MappingOk(s) && live == MappedTrees(s))
    ensures r.Some? ==>
              && s.catalog.indexes.Keys <= s.indexTrees.Keys && Separate(s.indexTrees, s.catalog.indexes.Keys, tables)
              && r.value == tables + TreesOf(s.indexTrees, s.catalog.indexes.Keys) && r.value <= live
  {
    hide MappingOk, MappedTrees;
    var mapped := tables;
    var todo := s.catalog.indexes.Keys;
    while todo != {}
      invariant todo <= s.catalog.indexes.Keys
      invariant forall i :: i in s.catalog.indexes && i !in todo ==> i in s.indexTrees
      invariant mapped == tables + TreesOf(s.indexTrees, s.catalog.indexes.Keys - todo)
      invariant mapped <= live
      invariant Separate(s.indexTrees, s.catalog.indexes.Keys - todo, tables)
    {
      var i :| i in todo;
      if i !in s.indexTrees || s.indexTrees[i] !in live || s.indexTrees[i] in mapped {
        RefusedIndex(s, live, s.catalog.indexes.Keys - todo, i);
        return None;
      }
      assert s.catalog.indexes.Keys - (todo - {i}) == s.catalog.indexes.Keys - todo + {i};
      mapped := mapped + {s.indexTrees[i]};
      todo := todo - {i};
    }
    assert s.catalog.indexes.Keys - {} == s.catalog.indexes.Keys;
    r := Some(mapped);
  }

  function TreesOf(trees: map<u64, TreeId>, ids: set<u64>): set<TreeId> {
    set x | x in ids && x in trees :: trees[x]
  }

  /** These objects have trees of their own, away from others. */
  predicate Separate(trees: map<u64, TreeId>, ids: set<u64>, others: set<TreeId>) {
    && (forall x :: x in ids && x in trees ==> trees[x] !in others)
    && (forall x, y :: x in ids && y in ids && x in trees && y in trees && x != y ==> trees[x] != trees[y])
  }

  lemma RefusedTable(s: Schema, live: set<TreeId>, done: set<TableId>, t: TableId)
    requires t in s.catalog.tables && t !in done && done <= s.catalog.tables.Keys
    requires t !in s.tableTrees || s.tableTrees[t] !in live || s.tableTrees[t] in {CATALOG_TREE} + TreesOf(s.tableTrees, done)
    ensures !(MappingOk(s) && live == MappedTrees(s))
  {
    if t in s.tableTrees {
      assert s.tableTrees[t] in s.tableTrees.Values;
    }
  }

  lemma RefusedIndex(s: Schema, live: set<TreeId>, done: set<IndexId>, i: IndexId)
    requires i in s.catalog.indexes && i !in done && done <= s.catalog.indexes.Keys
    requires i !in s.indexTrees || s.indexTrees[i] !in live
             || s.indexTrees[i] in {CATALOG_TREE} + TreesOf(s.tableTrees, s.catalog.tables.Keys) + TreesOf(s.indexTrees, done)
    ensures !(MappingOk(s) && live == MappedTrees(s))
  {
    if i in s.indexTrees {
      assert s.indexTrees[i] in s.indexTrees.Values;
    }
  }

  lemma AcceptedMapping(s: Schema)
    requires s.catalog.tables.Keys <= s.tableTrees.Keys && s.catalog.indexes.Keys <= s.indexTrees.Keys
    requires Separate(s.tableTrees, s.catalog.tables.Keys, {CATALOG_TREE})
    requires Separate(s.indexTrees, s.catalog.indexes.Keys, {CATALOG_TREE} + TreesOf(s.tableTrees, s.catalog.tables.Keys))
    ensures MappingOk(s) <==> s.tableTrees.Keys <= s.catalog.tables.Keys && s.indexTrees.Keys <= s.catalog.indexes.Keys
    ensures s.tableTrees.Keys <= s.catalog.tables.Keys && s.indexTrees.Keys <= s.catalog.indexes.Keys ==>
              MappedTrees(s) == {CATALOG_TREE} + TreesOf(s.tableTrees, s.catalog.tables.Keys) + TreesOf(s.indexTrees, s.catalog.indexes.Keys)
  {
    if s.tableTrees.Keys <= s.catalog.tables.Keys && s.indexTrees.Keys <= s.catalog.indexes.Keys {
      assert s.tableTrees.Keys == s.catalog.tables.Keys && s.indexTrees.Keys == s.catalog.indexes.Keys;
      forall t, i | t in s.tableTrees && i in s.indexTrees ensures s.tableTrees[t] != s.indexTrees[i] {
        assert s.tableTrees[t] in TreesOf(s.tableTrees, s.catalog.tables.Keys);
      }
    }
  }

  /** The key of a stored row as it is computed for a new index. */
  lemma KeyOfCell(fp: FloatUnit, s: Schema, img: Trees, i: IndexId, id: ByteString)
    requires i in s.catalog.indexes && s.catalog.indexes[i].table in s.catalog.tables
    requires Loc(OwnerTree(s, i), id) in img.cells
    requires var d := img.cells[Loc(OwnerTree(s, i), id)];
             d.Row? && AllStorable(d.values) && |d.values| <= |s.catalog.tables[s.catalog.indexes[i].table].columns|
    ensures var def, d := s.catalog.tables[s.catalog.indexes[i].table], img.cells[Loc(OwnerTree(s, i), id)];
            var key := IndexKey(fp, def, s.catalog.indexes[i], Materialize(def, d.values));
            && KeyAt(fp, s, img, i, id) == (if KeyFits(key) then key.value else None)
            && (CellFits(fp, s, i, d) <==> KeyFits(key))
  {
    hide IndexKey, Materialize;
  }

  lemma BuiltAll(fp: FloatUnit, s: Schema, img: Trees, i: IndexId, before: Writes<Datum>, after: Writes<Datum>, seen: set<ByteString>)
    requires i in s.catalog.indexes && s.catalog.indexes[i].table in s.catalog.tables
    requires BuiltBut(fp, s, img, i, before, after, {}) && FitBut(fp, s, img, i, {})
    requires s.catalog.indexes[i].unique ==> SeenBut(fp, s, img, i, seen, {})
    ensures IndexBuilt(fp, s, img, i, before, after) && KeysFit(fp, s, img, i)
    ensures s.catalog.indexes[i].unique ==> UniqueOk(fp, s, img, i)
  {
    hide KeyAt, DecodeEntry, CellFits;
  }

  lemma WritesElsewhere(fp: FloatUnit, base: Trees, b: Batch)
    requires InOrder(fp, base, b)
    ensures forall l :: l in b.writes ==> l.tree != b.next
  {
    hide Sound, Work;
  }

  lemma RewrittenOne(co: Coercion, img: Trees, tree: TreeId, def: Table, def': Table, id: ColumnId,
                     before: Writes<Datum>, after: Writes<Datum>, todo: set<Loc>, l: Loc, d: Datum)
    requires RewrittenBut(co, img, tree, def, def', id, before, after, todo)
    requires l in todo && l in img.cells && l.tree == tree && Rewritten(co, def, def', id, img.cells[l], Some(d))
    ensures RewrittenBut(co, img, tree, def, def', id, before, after[l := Some(d)], todo - {l})
  {
    hide Rewritten;
  }

  lemma NotRewritten(co: Coercion, img: Trees, b: Batch, c: Catalog, t: TableId, id: ColumnId, b': Batch, l: Loc)
    requires t in b.schema.catalog.tables && t in c.tables && l in img.cells && l.tree == TableTree(b.schema, t)
    requires var d := img.cells[l]; d.Row? && |d.values| <= |b.schema.catalog.tables[t].columns|
    requires Rewrite(co, b.schema.catalog.tables[t], c.tables[t], id, Materialize(b.schema.catalog.tables[t], img.cells[l].values)).Err?
    ensures !RowsStepped(co, img, b, c, t, id, b')
  {
    hide Rewrite, Materialize;
  }

  lemma UnfitCell(fp: FloatUnit, s: Schema, img: Trees, i: IndexId, l: Loc)
    requires i in s.catalog.indexes && s.catalog.indexes[i].table in s.catalog.tables
    requires l in img.cells && l.tree == OwnerTree(s, i) && !CellFits(fp, s, i, img.cells[l])
    ensures !KeysFit(fp, s, img, i)
  {
    hide CellFits;
  }

  /** All mutations of a batch, against a catalog alone. */
  function Preflight(c: Catalog, ms: seq<Mutation>): Result<Catalog>
    decreases |ms|
  {
    if ms == [] then Ok(c)
    else
      var next :- Mutate(c, ms[0]);
      Preflight(next, ms[1..])
  }

  lemma {:induction false} BatchSnoc(fp: FloatUnit, co: Coercion, base: Trees, b: Batch, ms: seq<Mutation>, mid: Batch, m: Mutation, b': Batch)
    requires Batched(fp, co, base, b, ms, mid) && Stepped(fp, co, Work(base, mid), mid, m, b')
    ensures Batched(fp, co, base, b, ms + [m], b')
    decreases |ms|
  {
    hide Stepped, Work;
    if ms == [] {
      assert ([] + [m])[1..] == [];
      assert Batched(fp, co, base, b', [], b');
    } else {
      var next :| Stepped(fp, co, Work(base, b), b, ms[0], next) && Batched(fp, co, base, next, ms[1..], mid);
      BatchSnoc(fp, co, base, next, ms[1..], mid, m, b');
      assert (ms + [m])[1..] == ms[1..] + [m];
    }
  }

  /** A batch stopped at a mutation that could not be carried out after the ones before it. */
  ghost predicate Halted(fp: FloatUnit, co: Coercion, base: Trees, start: Batch, ms: seq<Mutation>, b: Batch) {
    exists n :: HaltedAt(fp, co, base, start, ms, b, n)
  }

  ghost predicate HaltedAt(fp: FloatUnit, co: Coercion, base: Trees, start: Batch, ms: seq<Mutation>, b: Batch, n: nat) {
    n < |ms| && Batched(fp, co, base, start, ms[..n], b) && forall b' :: !Stepped(fp, co, Work(base, b), b, ms[n], b')
  }

  class SchemaTransaction {
    const fp: FloatUnit
    const co: Coercion
    const csn: nat
    const base: Trees
    var batch: Batch

    ghost predicate Ready()
      reads this
    {
      InOrder(fp, base, batch)
    }

    constructor Begin(fp: FloatUnit, co: Coercion, engine: Engine<Datum>, s: Schema, next: TreeId)
      requires ConsistentWith(fp, Replay(engine.log), s)
      requires forall t :: t in Replay(engine.log).live ==> t < next
      ensures Ready() && batch == Start(s, next)
      ensures this.fp == fp && this.co == co && csn == |engine.log| && base == Replay(engine.log)
    {
      this.fp, this.co, csn, base := fp, co, |engine.log|, Replay(engine.log);
      batch := Start(s, next);
      new;
      StartInOrder(fp, base, s, next);
    }

    /** Create the tree of a new index and fill it from the rows of its table. */
    method BuildIndex(index: Index, c: Catalog) returns (r: Result<()>)
      requires Ready() && index.id !in batch.schema.indexTrees && index.table in batch.schema.catalog.tables
      requires index.id in c.indexes && c.indexes[index.id] == index && c.tables == batch.schema.catalog.tables
      modifies this
      ensures r.Ok? ==>
                var made := WithIndexTree(old(batch), c, index.id);
                && batch == made.(writes := batch.writes, ranges := old(batch).ranges + Register(old(batch), TableTree(old(batch).schema, index.table)))
                && KeysFit(fp, batch.schema, old(Work(base, batch)), index.id)
                && (index.unique ==> UniqueOk(fp, batch.schema, old(Work(base, batch)), index.id))
                && IndexBuilt(fp, batch.schema, old(Work(base, batch)), index.id, old(batch).writes, batch.writes)
      ensures r == Err(UniqueViolation) ==>
                index.unique && !UniqueOk(fp, WithIndexTree(old(batch), c, index.id).schema, old(Work(base, batch)), index.id)
      ensures r.Err? ==>
                var s := WithIndexTree(old(batch), c, index.id).schema;
                !(KeysFit(fp, s, old(Work(base, batch)), index.id) && (index.unique ==> UniqueOk(fp, s, old(Work(base, batch)), index.id)))
      ensures r.Err? ==> batch == old(batch)
    {
      hide InOrder, Work, KeysFit, UniqueOk, IndexBuilt, BuiltBut, FitBut, SeenBut, IndexKey, Materialize, KeyAt, EncodeEntry, CellFits, Sound,
           Bounded, MappingOk, Valid;
      var b := batch;
      var img, made := Work(base, b), WithIndexTree(b, c, index.id);
      var s, i := made.schema, index.id;
      var def, tree := c.tables[index.table], TableTree(b.schema, index.table);
      InOrderValid(fp, base, b);
      WritesElsewhere(fp, base, b);
      var todo := set l | l in img.cells && l.tree == tree :: l.key;
      var writes, seen: set<ByteString> := b.writes, {};
      BuildStart(fp, s, img, i, writes, todo);
      while todo != {}
        invariant batch == b && todo <= set l | l in img.cells && l.tree == tree :: l.key
        invariant BuiltBut(fp, s, img, i, b.writes, writes, todo) && FitBut(fp, s, img, i, todo)
        invariant index.unique ==> SeenBut(fp, s, img, i, seen, todo)
      {
        var id :| id in todo;
        var l := Loc(tree, id);
        assert l in img.cells;
        CellIsRow(fp, b.schema, img, index.table, l);
        KeyOfCell(fp, s, img, i, id);
        var key := IndexKey(fp, def, index, Materialize(def, img.cells[l].values));
        if key.Err? {
          KeyErrors(fp, def, index, Materialize(def, img.cells[l].values));
          UnfitCell(fp, s, img, i, l);
          return Err(key.error);
        }
        if key.value.Some? {
          var values := key.value.value;
          if !FitsU32(values) {
            UnfitCell(fp, s, img, i, l);
            return Err(ValueTooLarge);
          }
          if index.unique {
            if values in seen {
              SeenTwice(fp, s, img, i, seen, todo, id, values);
              return Err(UniqueViolation);
            }
            SeenOne(fp, s, img, i, seen, todo, id, values);
            seen := seen + {values};
          }
          BuildOne(fp, s, img, i, b.writes, writes, todo, id, values);
          writes := writes[Loc(b.next, EncodeEntry(values, id)) := Some(Entry(id))];
        } else {
          BuildSkip(fp, s, img, i, b.writes, writes, seen, todo, id);
        }
        todo := todo - {id};
      }
      BuiltAll(fp, s, img, i, b.writes, writes, seen);
      batch := made.(writes := writes, ranges := b.ranges + Register(b, tree));
      r := Ok(());
    }

    /** Rewrite every row of a table after a column change. */
    method RewriteRows(t: TableId, id: ColumnId, c: Catalog) returns (r: Result<()>)
      requires Ready() && t in batch.schema.catalog.tables && t in c.tables
      modifies this
      ensures r.Ok? ==> RowsStepped(co, old(Work(base, batch)), old(batch), c, t, id, batch)
      ensures r.Err? ==> batch == old(batch) && forall b :: !RowsStepped(co, old(Work(base, batch)), old(batch), c, t, id, b)
    {
      hide InOrder, Work, Sound, Bounded, Rewrite, Materialize, MappingOk, Valid;
      var b := batch;
      var img, tree := Work(base, b), TableTree(b.schema, t);
      var def, def' := b.schema.catalog.tables[t], c.tables[t];
      InOrderValid(fp, base, b);
      var todo := set l | l in img.cells && l.tree == tree;
      var writes := b.writes;
      while todo != {}
        invariant batch == b && todo <= set l | l in img.cells && l.tree == tree
        invariant RewrittenBut(co, img, tree, def, def', id, b.writes, writes, todo)
      {
        var l :| l in todo;
        CellIsRow(fp, b.schema, img, t, l);
        var row := Rewrite(co, def, def', id, Materialize(def, img.cells[l].values));
        if row.Err? {
          forall b' ensures !RowsStepped(co, img, b, c, t, id, b') {
            NotRewritten(co, img, b, c, t, id, b', l);
          }
          return Err(row.error);
        }
        RewrittenOne(co, img, tree, def, def', id, b.writes, writes, todo, l, Row(row.value));
        writes := writes[l := Some(Row(row.value))];
        todo := todo - {l};
      }
      batch := WithCatalog(b, c).(writes := writes, ranges := b.ranges + {Whole(tree)});
      r := Ok(());
    }

    /** Check the rows that are already there against a new foreign key. */
    method CheckNewKey(key: ForeignKey, c: Catalog) returns (r: Result<()>)
      requires Ready() && ValidForeignKey(c, key) && Valid(c) && key.id in c.foreignKeys && c.foreignKeys[key.id] == key
      requires IndexesOk(fp, batch.schema.(catalog := c), Work(base, batch)) && MappingOk(batch.schema.(catalog := c))
      ensures r.Ok? <==> CheckedBut(fp, batch.schema.(catalog := c), Work(base, batch), key.id, {})
      ensures r.Err? ==> r.error == ForeignKeyViolation
    {
      hide Work, CheckedBut, ValidForeignKey, Valid, MappingOk, IndexesOk, ReferencedValues, ChildKey, ChildColumns, LookupAll, IndexValuesKey,
           CompositeKey, Materialize, InOrder;
      var s, img := batch.schema.(catalog := c), Work(base, batch);
      ForeignKeyWidths(c, key);
      var referenced := ReferencedValues(img, IndexTree(s, SupportOf(c, key)));
      var todo := set l | l in img.cells && l.tree == TableTree(s, key.table) :: l.key;
      CheckedStart(fp, s, img, key.id, todo);
      while todo != {}
        invariant todo <= set l | l in img.cells && l.tree == TableTree(s, key.table) :: l.key
        invariant CheckedBut(fp, s, img, key.id, todo)
      {
        var id :| id in todo;
        assert Loc(TableTree(s, key.table), id) in img.cells;
        ChildRead(fp, s, img, key.id, id);
        var row := Materialize(c.tables[key.table], img.cells[Loc(TableTree(s, key.table), id)].values);
        var values := ChildTuple(s, key, row);
        if NoNulls(values.value) {
          var encoded := IndexValuesKey(c.tables[key.referencedTable], ForeignKeyIndex(c, key).value, values.value);
          if encoded.value !in referenced {
            CheckedMisses(fp, s, img, key.id, id);
            return Err(ForeignKeyViolation);
          }
        }
        CheckedOne(fp, s, img, key.id, todo, id);
        todo := todo - {id};
      }
      r := Ok(());
    }

    /** Carry out one mutation. */
    method Step(m: Mutation) returns (r: Result<()>)
      requires Ready()
      modifies this
      ensures r.Ok? ==> Ready() && Stepped(fp, co, old(Work(base, batch)), old(batch), m, batch)
      ensures r.Err? ==> batch == old(batch) && forall b :: !Stepped(fp, co, old(Work(base, batch)), old(batch), m, b)
    {
      hide InOrder, Work, Valid, CheckedBut, KeysFit, UniqueOk, IndexBuilt, RowsRewritten, Sound, Bounded, MappingOk, ValidForeignKey, IndexesOk;
      var b := batch;
      var mutated := Mutate(b.schema.catalog, m);
      if mutated.Err? {
        return Err(mutated.error);
      }
      var c := mutated.value;
      InOrderValid(fp, base, b);
      r := Ok(());
      match m {
        case CreateTable(def, _) => batch := WithTableTree(b, c, def.id);
        case AddIndex(index, name) =>
          MappedKeys(b.schema);
          CatalogLaws.AddIndexShape(b.schema.catalog, index, name);
          if index.id !in b.schema.indexTrees {
            CatalogLaws.TableOfIndex(b.schema.catalog, index);
            r := BuildIndex(index, c);
          }
        case AddForeignKey(key, name) =>
          KeyAddedValid(b.schema.catalog, key, name);
          NewKeyIndexes(fp, base, b, key, name);
          r := CheckNewKey(key, c);
          if r.Ok? {
            batch := WithCatalog(b, c).(ranges := b.ranges + ReferenceRanges(b, c, key));
          }
        case AlterColumnType(t, id, _, _) => r := RewriteRows(t, id, c);
        case DropColumn(t, id) => r := RewriteRows(t, id, c);
        case DropTable(t) => batch := WithoutTable(b, c, t);
        case DropIndex(i) => batch := WithoutIndex(b, c, i);
        case _ => batch := WithCatalog(b, c);
      }
      if r.Ok? {
        StepKeeps(fp, co, base, b, m, batch);
      }
    }

    /** Apply a batch of mutations: the whole batch is validated against the catalog first,
        then each mutation is carried out under the schema its predecessors leave. */
    method ApplyAll(ms: seq<Mutation>) returns (r: Result<()>)
      requires Ready()
      modifies this
      ensures r.Ok? ==> Ready() && Batched(fp, co, base, old(batch), ms, batch)
      ensures r.Ok? ==> Preflight(old(batch).schema.catalog, ms) == Ok(batch.schema.catalog)
      ensures Preflight(old(batch).schema.catalog, ms).Err? ==> r.Err? && batch == old(batch)
      ensures r.Err? && Preflight(old(batch).schema.catalog, ms).Ok? ==> Ready() && Halted(fp, co, base, old(batch), ms, batch)
    {
      hide InOrder, Work, Stepped, Mutate;
      var start := batch;
      var preflight := Preflight(start.schema.catalog, ms);
      if preflight.Err? {
        return Err(preflight.error);
      }
      var n := 0;
      assert ms[..0] == [];
      assert ms[0..] == ms;
      while n < |ms|
        invariant n <= |ms| && Ready() && Batched(fp, co, base, start, ms[..n], batch)
        invariant Preflight(start.schema.catalog, ms) == Preflight(batch.schema.catalog, ms[n..])
      {
        ghost var before := batch;
        r := Step(ms[n]);
        if r.Err? {
          assert HaltedAt(fp, co, base, start, ms, batch, n);
          return;
        }
        BatchSnoc(fp, co, base, start, ms[..n], before, ms[n], batch);
        assert ms[..n] + [ms[n]] == ms[..n + 1];
        InOrderValid(fp, base, before);
        SteppedCatalog(fp, co, Work(base, before), before, ms[n], batch);
        assert ms[n..][1..] == ms[n + 1..];
        n := n + 1;
      }
      assert ms[..n] == ms;
      r := Ok(());
    }

    /** Publish the batch and its marker, or nothing at all. */
    method Publish(engine: Engine<Datum>) returns (r: Result<()>)
      requires Ready() && csn <= |engine.log| && base == Replay(engine.log[..csn])
      modifies engine
      ensures r.Ok? ==>
                && engine.log == old(engine.log) + [Kernel.Commit(csn, Publication(batch), batch.ranges)]
                && Admissible(old(engine.log), Kernel.Commit(csn, Publication(batch), batch.ranges))
      ensures r.Err? ==> r.error == SerializationConflict && engine.log == old(engine.log)
    {
      hide Admissible, InOrder;
      var published := engine.Publish(Kernel.Commit(csn, Publication(batch), batch.ranges));
      r := if published then Ok(()) else Err(SerializationConflict);
    }
  }

  lemma NewKeyIndexes(fp: FloatUnit, base: Trees, b: Batch, key: ForeignKey, name: Option<Name>)
    requires InOrder(fp, base, b) && ApplyAddForeignKey(b.schema.catalog, key, name).Ok?
    ensures var c := ApplyAddForeignKey(b.schema.catalog, key, name).value;
            && Valid(c) && key.id in c.foreignKeys && c.foreignKeys[key.id] == key
            && MappingOk(b.schema.(catalog := c)) && IndexesOk(fp, b.schema.(catalog := c), Work(base, b))
  {
    hide Valid, Work, IndexesOk, ForeignKeysOk, Mapped, GrownFrom, ApplyAddForeignKey, MappingOk, Carries, NewIndexOk;
    var c := ApplyAddForeignKey(b.schema.catalog, key, name).value;
    var s, s', a := b.schema, b.schema.(catalog := c), Work(base, b);
    CatalogLaws.AddForeignKeyKeeps(s.catalog, key, name);
    CatalogLaws.AddForeignKeyShape(s.catalog, key, name);
    KeyMapping(s, s', a);
    GrownCarries(fp, s, a, s', a);
    CarriedIndexes(fp, s, a, s', a);
  }
}
