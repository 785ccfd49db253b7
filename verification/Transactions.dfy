/** A transaction over the mapped trees: reads see its snapshot and its own staged writes,
    row operations stage the row and all derived index entries, deletes expand referential
    actions, and publishing validates every foreign key first. */
module Transactions {
  import opened Common
  import opened Bytes
  import opened Values
  import opened Rows
  import opened Catalogs
  import opened RowKeys
  import opened IndexEntries
  import opened Kernel
  import opened Store
  import opened Commits
  import opened Staging
  import opened Cascades
  import opened RowOperations
  import opened Expansions
  import opened References

  const MAX_CASCADE_DEPTH: nat := 64

  class DirectTransaction {
    const fp: FloatUnit
    const schema: Schema
    const csn: nat
    const base: Trees
    var writes: Writes<Datum>
    var ranges: set<Range>
    var rowsChanged: bool
    var needsValidation: bool

    /** The snapshot with the transaction's own writes on top. */
    function Seen(): Trees
      reads this
    {
      View(base, writes)
    }

    ghost predicate Ready()
      reads this
    {
      && ConsistentWith(fp, base, schema)
      && StagedOk(fp, schema, base, writes, ranges)
      && (!rowsChanged ==> writes == map[])
    }

    constructor Begin(fp: FloatUnit, engine: Engine<Datum>, s: Schema)
      requires ConsistentWith(fp, Replay(engine.log), s)
      ensures Ready() && !rowsChanged && !needsValidation
      ensures this.fp == fp && schema == s && csn == |engine.log| && base == Replay(engine.log) && writes == map[]
    {
      this.fp, schema, csn, base := fp, s, |engine.log|, Replay(engine.log);
      writes := map[];
      // Every schema change rewrites the marker, so registering it fences this transaction.
      ranges := {Exactly(MARKER)};
      rowsChanged, needsValidation := false, false;
      new;
      hide ConsistentWith, StagedOk;
      BeginOk(fp, base, s);
    }

    /** Read one cell. What the snapshot answers is registered, what this transaction wrote is not. */
    method Get(l: Loc) returns (d: Option<Datum>)
      requires Ready()
      modifies this`ranges
      ensures Ready() && d == Seen().Get(l)
      ensures ranges == old(ranges) + if l in writes then {} else {Exactly(l)}
    {
      hide ConsistentWith, View;
      if l !in writes {
        RangesGrow(fp, schema, base, writes, ranges, ranges + {Exactly(l)});
        ranges := ranges + {Exactly(l)};
      }
      d := Seen().Get(l);
    }

    /** Whether any entry of a unique index carries a value key; the probed range is registered. */
    method HasConflict(i: IndexId, values: ByteString) returns (conflict: bool)
      requires i in schema.catalog.indexes && FitsU32(values) && TreeShape(Seen(), IndexTree(schema, i))
      modifies this`ranges
      ensures ranges == old(ranges) + {ProbeRange(IndexTree(schema, i), values)}
      ensures conflict <==> exists l :: l in Seen().cells && l.tree == IndexTree(schema, i) && WellFormed(l.key)
                                        && DecodeEntry(l.key).value.0 == values
    {
      hide DecodeEntry, LexLess, Successor, EntryPrefix, View;
      var range := ProbeRange(IndexTree(schema, i), values);
      ranges := ranges + {range};
      var found := set l | l in Seen().cells && Covers(range, l);
      forall l | l in Seen().cells && l.tree == IndexTree(schema, i)
        ensures WellFormed(l.key) && (l in found <==> DecodeEntry(l.key).value.0 == values)
        ensures l in found ==> EntryPrefix(values) <= l.key
      {
        RangeIsExact(l.key, values);
        if l in found {
          InRangePrefixed(l.key, values);
        }
      }
      if found == {} {
        conflict := false;
      } else {
        // Whichever entry the cursor meets first, it begins with the prefix.
        var first :| first in found;
        conflict := EntryPrefix(values) <= first.key;
      }
    }

    /** Put or delete the entry of one row in one index. */
    method StageEntry(t: TableId, row: seq<Value>, id: ByteString, insert: bool, i: IndexId) returns (r: Result<()>)
      requires Midway(fp, schema, base, writes, ranges, t, id)
      requires AllStorable(row) && |row| == |schema.catalog.tables[t].columns|
      requires i in schema.catalog.indexes && schema.catalog.indexes[i].table == t
      requires Holds(schema, Seen(), i, id, if insert then None else RowKey(fp, schema, i, Some(row)))
      modifies this`writes, this`ranges
      ensures r.Ok? ==> Midway(fp, schema, base, writes, ranges, t, id)
      ensures r.Ok? ==> EntryStagedFor(fp, schema, Seen(), i, id, row, insert)
      ensures r.Ok? ==> EntriesElsewhere(fp, schema, old(Seen()), Seen(), i, id)
      ensures r.Err? ==> Refused(fp, schema, old(Seen()), i, id, row, insert)
      ensures r == Err(UniqueViolation) ==>
                insert && schema.catalog.indexes[i].unique && TakenBy(fp, schema, old(Seen()), i, id, row)
      ensures r != Err(ForeignKeyViolation)
      ensures old(writes.Keys) <= writes.Keys && old(ranges) <= ranges
    {
      hide KeyAt, Holds, View, RowKey, IndexKey, EncodeEntry, RowCells, Probed, OpenAt, DecodeEntry, TreeShape;
      var index := schema.catalog.indexes[i];
      var key := IndexKey(fp, schema.catalog.tables[t], index, row);
      RowKeyOfFull(fp, schema, i, row);
      if key.Err? {
        KeyErrors(fp, schema.catalog.tables[t], index, row);
        return Err(key.error);
      }
      if key.value.None? {
        return Ok(());
      }
      var values := key.value.value;
      if !FitsU32(values) {
        return Err(ValueTooLarge);
      }
      MidwayShape(fp, schema, base, writes, ranges, t, id, i);
      if insert && index.unique {
        var conflict := HasConflict(i, values);
        MoreRanges(fp, schema, base, writes, old(ranges), ranges, t, id);
        if conflict {
          ghost var l :| l in Seen().cells && l.tree == IndexTree(schema, i) && WellFormed(l.key)
                         && DecodeEntry(l.key).value.0 == values;
          TakenByEntry(fp, schema, base, writes, ranges, t, id, i, row, l);
          return Err(UniqueViolation);
        }
        NoEntryNoRow(fp, schema, Seen(), t, id, i, values);
      }
      ghost var before := Seen();
      EntryStaged(fp, schema, base, writes, ranges, t, id, i, values, insert, if insert then None else Some(values));
      writes := writes[Loc(IndexTree(schema, i), EncodeEntry(values, id)) := if insert then Some(Entry(id)) else None];
      assert KeysKept(fp, schema, before, Seen());
      if insert && index.unique {
        AloneKept(fp, schema, before, Seen(), i, id, Some(values));
      }
      r := Ok(());
    }

    /** Put or delete the index entries of one row. The indexes of a table are visited in
        no particular order. */
    method StageIndexes(t: TableId, row: seq<Value>, id: ByteString, insert: bool) returns (r: Result<()>)
      requires Midway(fp, schema, base, writes, ranges, t, id)
      requires AllStorable(row) && |row| == |schema.catalog.tables[t].columns|
      requires EntriesStaged(fp, schema, Seen(), t, id, row, insert, schema.catalog.indexes.Keys)
      modifies this`writes, this`ranges
      ensures r.Ok? ==> Midway(fp, schema, base, writes, ranges, t, id)
      ensures r.Ok? ==> EntriesStaged(fp, schema, Seen(), t, id, row, insert, {})
      ensures r.Ok? ==> KeysKept(fp, schema, old(Seen()), Seen())
      ensures r.Err? ==> exists i :: i in schema.catalog.indexes && schema.catalog.indexes[i].table == t
                                     && Refused(fp, schema, old(Seen()), i, id, row, insert)
      ensures r == Err(UniqueViolation) ==>
                insert && exists i :: i in schema.catalog.indexes && schema.catalog.indexes[i].table == t
                                      && schema.catalog.indexes[i].unique && TakenBy(fp, schema, old(Seen()), i, id, row)
      ensures r != Err(ForeignKeyViolation)
      ensures old(writes.Keys) <= writes.Keys && old(ranges) <= ranges
    {
      hide Midway, Holds, View, IndexKey, EncodeEntry, KeysKept, RowCells, Probed, EntriesElsewhere, EntryStagedFor, TakenBy, RowKey;
      var todo := set i | i in schema.catalog.indexes && schema.catalog.indexes[i].table == t;
      MidwayFacts(fp, schema, base, writes, ranges, t, id);
      while todo != {}
        invariant todo <= set i | i in schema.catalog.indexes && schema.catalog.indexes[i].table == t
        invariant Midway(fp, schema, base, writes, ranges, t, id)
        invariant EntriesStaged(fp, schema, Seen(), t, id, row, insert, todo)
        invariant KeysKept(fp, schema, old(Seen()), Seen())
        invariant old(writes.Keys) <= writes.Keys && old(ranges) <= ranges
      {
        ghost var before := Seen();
        var i :| i in todo;
        r := StageEntry(t, row, id, insert, i);
        if r.Err? {
          RefusedEarlier(fp, schema, old(Seen()), before, i, id, row, insert);
          return;
        }
        StagedStep(fp, schema, before, Seen(), t, id, row, insert, todo, i);
        KeysKeptAgain(fp, schema, old(Seen()), before, Seen(), i, id);
        todo := todo - {i};
      }
      r := Ok(());
    }

    /** Stage a new row and its index entries. */
    method Insert(t: TableId, key: ByteString, row: seq<Value>) returns (r: Result<()>)
      requires Ready() && |key| == 16
      modifies this
      ensures r.Ok? ==> Ready() && rowsChanged && needsValidation
      ensures r.Ok? ==> Placed(schema, old(Seen()), Seen(), t, key, row)
      ensures r.Ok? <==> Writable(fp, schema, old(Seen()), t, key, row) && old(Seen()).Get(Target(schema, t, key, row).value).None?
      ensures r == Err(UniqueViolation) ==> exists i, id :: Violates(fp, schema, old(Seen()), t, i, id, row)
      ensures r != Err(ForeignKeyViolation)
    {
      hide StagedOk, ConsistentWith, IdentityBytes, View, Midway, EntriesStaged, ValidStored, KeysKept, Apply, RowKey, KeyAt,
           Holds, TakenBy, MappingOk, RowsSameBut, SameBut, IdentityOk, AllStorable, Materialize, FullRow;
      if t !in schema.catalog.tables || !ValidRow(schema.catalog.tables[t], row) {
        return Err(InvalidState);
      }
      if !AllStorable(row) {
        return Err(ValueTooLarge);
      }
      var identity := IdentityBytes(schema.catalog, schema.catalog.tables[t], key, row);
      if identity.Err? {
        IdentityErrors(schema.catalog, schema.catalog.tables[t], key, row);
        return Err(identity.error);
      }
      var id := identity.value;
      // The kernel refuses keys longer than a page.
      if !FitsU32(id) {
        return Err(ValueTooLarge);
      }
      var l := Loc(TableTree(schema, t), id);
      var present := Get(l);
      if present.Some? {
        return Err(InvalidState);
      }
      rowsChanged, needsValidation := true, true;
      EnterRow(fp, schema, base, writes, ranges, t, id);
      MidwayFacts(fp, schema, base, writes, ranges, t, id);
      RowStaged(fp, schema, base, writes, ranges, t, id, Some(Row(row)));
      ghost var before := Seen();
      writes := writes[l := Some(Row(row))];
      NothingStagedYet(fp, schema, before, Seen(), t, id, row);
      ghost var placed := Seen();
      r := StageIndexes(t, row, id, true);
      if r.Err? {
        if r == Err(UniqueViolation) {
          ghost var i :| i in schema.catalog.indexes && schema.catalog.indexes[i].table == t
                         && schema.catalog.indexes[i].unique && TakenBy(fp, schema, placed, i, id, row);
          TakenElsewhere(fp, schema, before, placed, t, id, i, row);
          assert before == old(Seen());
          assert Violates(fp, schema, old(Seen()), t, i, id, row);
        }
        ghost var j :| j in schema.catalog.indexes && schema.catalog.indexes[j].table == t && Refused(fp, schema, placed, j, id, row, true);
        RefusedBefore(fp, schema, before, before, placed, t, id, j, row);
        return;
      }
      StagedIsAcceptable(fp, schema, before, before, placed, Seen(), t, id, row);
      RowsKept(fp, schema, before, placed, Seen(), t, id, Some(Row(row)));
      IdentityIsOk(schema.catalog, schema.catalog.tables[t], key, row, id);
      FinishWritten(fp, schema, base, writes, ranges, t, id, row);
    }

    /** Replace the row stored under the identity of the given one; its entries follow. */
    method Update(t: TableId, key: ByteString, row: seq<Value>) returns (r: Result<()>)
      requires Ready() && |key| == 16
      modifies this
      ensures r.Ok? ==> Ready() && rowsChanged && needsValidation
      ensures r.Ok? ==> Placed(schema, old(Seen()), Seen(), t, key, row)
      ensures r.Ok? <==> Writable(fp, schema, old(Seen()), t, key, row) && old(Seen()).Get(Target(schema, t, key, row).value).Some?
      ensures r != Err(ForeignKeyViolation)
    {
      hide StagedOk, ConsistentWith, IdentityBytes, View, Midway, EntriesStaged, ValidStored, KeysKept, Apply, RowKey, KeyAt,
           Holds, TakenBy, MappingOk, RowsSameBut, SameBut, IdentityOk, AllStorable, Materialize, FullRow;
      if t !in schema.catalog.tables || !ValidRow(schema.catalog.tables[t], row) {
        return Err(InvalidState);
      }
      if !AllStorable(row) {
        return Err(ValueTooLarge);
      }
      var identity := IdentityBytes(schema.catalog, schema.catalog.tables[t], key, row);
      if identity.Err? {
        IdentityErrors(schema.catalog, schema.catalog.tables[t], key, row);
        return Err(identity.error);
      }
      var id := identity.value;
      var l := Loc(TableTree(schema, t), id);
      var present := Get(l);
      if present.None? {
        return Err(InvalidState);
      }
      StoredRow(fp, schema, base, writes, ranges, t, id);
      var previous := Materialize(schema.catalog.tables[t], present.value.values);
      ghost var before := Seen();
      EnterRow(fp, schema, base, writes, ranges, t, id);
      MidwayFacts(fp, schema, base, writes, ranges, t, id);
      EntriesOfStored(fp, schema, before, before, t, id);
      // The entries of a stored row can be computed, so removing them cannot fail.
      r := StageIndexes(t, previous, id, false);
      ghost var bare := Seen();
      rowsChanged, needsValidation := true, true;
      RowStaged(fp, schema, base, writes, ranges, t, id, Some(Row(row)));
      writes := writes[l := Some(Row(row))];
      ghost var placed := Seen();
      EntriesGone(fp, schema, bare, placed, t, id, previous, row);
      r := StageIndexes(t, row, id, true);
      if r.Err? {
        ghost var j :| j in schema.catalog.indexes && schema.catalog.indexes[j].table == t && Refused(fp, schema, placed, j, id, row, true);
        RefusedBefore(fp, schema, before, bare, placed, t, id, j, row);
        return;
      }
      StagedIsAcceptable(fp, schema, before, bare, placed, Seen(), t, id, row);
      RowsKept(fp, schema, bare, placed, Seen(), t, id, Some(Row(row)));
      RowsKeptBefore(fp, schema, before, bare, Seen(), l);
      IdentityIsOk(schema.catalog, schema.catalog.tables[t], key, row, id);
      FinishWritten(fp, schema, base, writes, ranges, t, id, row);
    }

    /** Stage the removal of one row and its entries, and return the row as it was. */
    method Remove(t: TableId, id: ByteString) returns (r: Result<seq<Value>>)
      requires Ready()
      modifies this
      ensures r.Ok? ==> Ready() && rowsChanged && needsValidation
      ensures r.Ok? <==> t in schema.catalog.tables && old(Seen()).Get(Loc(TableTree(schema, t), id)).Some?
      ensures r.Ok? ==> FullRow(schema, old(Seen()), RowRef(t, id)) == Some(r.value)
      ensures r.Ok? ==> Seen().Get(Loc(TableTree(schema, t), id)).None?
      ensures r.Ok? ==> RowsSameBut(schema, old(Seen()), Seen(), Loc(TableTree(schema, t), id))
      ensures r != Err(ForeignKeyViolation)
    {
      hide StagedOk, ConsistentWith, View, Midway, EntriesStaged, ValidStored, KeysKept, Apply, RowKey, KeyAt,
           Holds, MappingOk, RowsSameBut, SameBut, IdentityOk, AllStorable, Materialize, FullRow;
      if t !in schema.catalog.tables {
        return Err(InvalidState);
      }
      var l := Loc(TableTree(schema, t), id);
      var present := Get(l);
      if present.None? {
        return Err(InvalidState);
      }
      StoredRow(fp, schema, base, writes, ranges, t, id);
      var row := Materialize(schema.catalog.tables[t], present.value.values);
      ghost var before := Seen();
      rowsChanged, needsValidation := true, true;
      EnterRow(fp, schema, base, writes, ranges, t, id);
      MidwayFacts(fp, schema, base, writes, ranges, t, id);
      RowStaged(fp, schema, base, writes, ranges, t, id, None);
      writes := writes[l := None];
      ghost var bare := Seen();
      EntriesOfStored(fp, schema, before, bare, t, id);
      var staged := StageIndexes(t, row, id, false);
      RowsKept(fp, schema, before, bare, Seen(), t, id, None);
      FinishRemoved(fp, schema, base, writes, ranges, t, id, row);
      r := Ok(row);
    }

    /** Delete one row and carry out the ON DELETE actions of every key that refers to it. */
    method Delete(t: TableId, id: ByteString) returns (r: Result<()>)
      requires Ready()
      modifies this
      ensures r.Ok? ==> Ready() && rowsChanged && needsValidation && t in schema.catalog.tables
      ensures r.Ok? ==> FullRow(schema, old(Seen()), RowRef(t, id)).Some? && FullRow(schema, Seen(), RowRef(t, id)).None?
      ensures r.Ok? ==>
                var row := FullRow(schema, old(Seen()), RowRef(t, id)).value;
                Effect(schema, old(Seen()), Seen(), t, row, {RowRef(t, id)}) && Cleared(schema, Seen(), t, row, {})
      ensures r.Ok? ==> RowLocs(schema, Seen()) < RowLocs(schema, old(Seen()))
      ensures Unreferenced(schema, old(Seen()), RowRef(t, id)) ==> r.Ok?
      ensures r != Err(ForeignKeyViolation)
      decreases RowLocs(schema, Seen()), 0, 0
    {
      hide StagedOk, ConsistentWith, View, Apply, MappingOk, RowsSameBut, FullRow, Effect, Cleared, RowLocs;
      RowPresent(schema, Seen(), t, id);
      var removed := Remove(t, id);
      if removed.Err? {
        return Err(removed.error);
      }
      ghost var after := Seen();
      RowIsThere(fp, base, schema, old(Seen()), t, id);
      RemovedSmaller(schema, old(Seen()), after, t, id);
      StillUnreferenced(schema, old(Seen()), after, t, id);
      r := Expand(t, removed.value, 0);
      if r.Ok? {
        DeletedWhole(schema, old(Seen()), after, Seen(), t, id, removed.value);
      }
    }

    /** The ON DELETE actions of every key that refers to a table, for one deleted row. */
    method Expand(t: TableId, row: seq<Value>, depth: nat) returns (r: Result<()>)
      requires Ready() && depth <= MAX_CASCADE_DEPTH
      requires t in schema.catalog.tables && |row| == |schema.catalog.tables[t].columns|
      modifies this
      ensures r.Ok? ==> Ready() && (old(rowsChanged) ==> rowsChanged) && (old(needsValidation) ==> needsValidation)
      ensures r.Ok? ==> Effect(schema, old(Seen()), Seen(), t, row, {}) && Cleared(schema, Seen(), t, row, {})
      ensures r.Ok? ==> RowLocs(schema, Seen()) <= RowLocs(schema, old(Seen()))
      ensures Cleared(schema, old(Seen()), t, row, {}) && depth < MAX_CASCADE_DEPTH ==> r.Ok?
      ensures r != Err(ForeignKeyViolation)
      decreases RowLocs(schema, Seen()), 65 - depth, 1
    {
      hide StagedOk, ConsistentWith, View, Apply, FullRow, Effect, RowLocs, NoReferrers;
      var todo := set k | k in schema.catalog.foreignKeys && schema.catalog.foreignKeys[k].referencedTable == t;
      EffectNone(schema, Seen(), t, row);
      ghost var none: set<RowRef> := {};
      assert none + none == none;
      while todo != {}
        invariant todo <= schema.catalog.foreignKeys.Keys
        invariant forall k :: k in todo ==> schema.catalog.foreignKeys[k].referencedTable == t
        invariant Ready() && (old(rowsChanged) ==> rowsChanged) && (old(needsValidation) ==> needsValidation)
        invariant Effect(schema, old(Seen()), Seen(), t, row, {}) && Cleared(schema, Seen(), t, row, todo)
        invariant Cleared(schema, old(Seen()), t, row, {}) ==> Seen() == old(Seen())
        invariant RowLocs(schema, Seen()) <= RowLocs(schema, old(Seen()))
      {
        var k :| k in todo;
        if schema.catalog.foreignKeys[k].onDelete != Restrict {
          if depth + 1 > MAX_CASCADE_DEPTH {
            return Err(CascadeDepthExceeded);
          }
          ghost var before := Seen();
          r := ExpandKey(k, row, depth);
          if r.Err? {
            return;
          }
          EffectCompose(schema, old(Seen()), before, Seen(), t, row, {}, {});
          EffectShrinks(schema, before, Seen(), t, row, {});
          ClearedLater(schema, before, Seen(), t, row, todo);
        }
        todo := todo - {k};
      }
      r := Ok(());
    }

    /** The ON DELETE action of one key for one deleted row: its children are those found
        by a scan, as they were then. */
    method ExpandKey(k: ConstraintId, row: seq<Value>, depth: nat) returns (r: Result<()>)
      requires Ready() && depth < MAX_CASCADE_DEPTH
      requires k in schema.catalog.foreignKeys && schema.catalog.foreignKeys[k].onDelete != Restrict
      requires schema.catalog.foreignKeys[k].referencedTable in schema.catalog.tables
      requires |row| == |schema.catalog.tables[schema.catalog.foreignKeys[k].referencedTable].columns|
      modifies this
      ensures r.Ok? ==> Ready() && (old(rowsChanged) ==> rowsChanged) && (old(needsValidation) ==> needsValidation)
      ensures r.Ok? ==> Effect(schema, old(Seen()), Seen(), schema.catalog.foreignKeys[k].referencedTable, row, {})
      ensures NoReferrers(schema, old(Seen()), k, row) ==> r.Ok? && Seen() == old(Seen())
      ensures r.Ok? ==> NoReferrers(schema, Seen(), k, row)
      ensures r.Ok? ==> RowLocs(schema, Seen()) <= RowLocs(schema, old(Seen()))
      ensures r != Err(ForeignKeyViolation)
      decreases RowLocs(schema, Seen()), 65 - depth, 0
    {
      hide StagedOk, ConsistentWith, View, Apply, FullRow, Effect, RowLocs, NoReferrers, Readable, Expanding, Valid, MappingOk,
           KeyNulled, OneRow, IdentityBytes, CarriedKey, AllSqlEq, LookupAll, Materialize;
      var key := schema.catalog.foreignKeys[k];
      KeyFacts(fp, base, schema, k);
      var children := Seen();
      var todo := set l | l in children.cells && l.tree == TableTree(schema, key.table) :: l.key;
      ExpandingStart(schema, children, k, row, todo);
      KeysValid(schema.catalog);
      ParentTupleExists(schema, k, row);
      var required := LookupAll(schema.catalog.tables[key.referencedTable], row, key.referencedColumns);
      if !NoNulls(required.value) {
        NoKeyNoReferrers(schema, children, k, row);
        ExpandingDone(schema, children, children, k, row);
        ExpandingEffect(schema, children, children, k, row, {});
        return Ok(());
      }
      ScannedRows(fp, schema, base, writes, ranges, key.table);
      while todo != {}
        invariant todo <= set l | l in children.cells && l.tree == TableTree(schema, key.table) :: l.key
        invariant Ready() && (old(rowsChanged) ==> rowsChanged) && (old(needsValidation) ==> needsValidation)
        invariant Expanding(schema, children, Seen(), k, row, todo)
        invariant NoReferrers(schema, children, k, row) ==> Seen() == children
      {
        var id :| id in todo;
        assert Loc(TableTree(schema, key.table), id) in children.cells;
        ExpandingEffect(schema, children, Seen(), k, row, todo);
        NoneRefers(schema, children, k, row, id);
        r := ActOnChild(k, children, id, row, required.value, depth, todo);
        if r.Err? {
          return;
        }
        todo := todo - {id};
      }
      ExpandingDone(schema, children, Seen(), k, row);
      ExpandingEffect(schema, children, Seen(), k, row, {});
      r := Ok(());
    }

    /** The ON DELETE action of one key on one scanned child. */
    method ActOnChild(k: ConstraintId, children: Trees, id: ByteString, row: seq<Value>, required: seq<Value>, depth: nat,
                      ghost todo: set<ByteString>) returns (r: Result<()>)
      requires Ready() && depth < MAX_CASCADE_DEPTH
      requires k in schema.catalog.foreignKeys && schema.catalog.foreignKeys[k].onDelete != Restrict
      requires schema.catalog.foreignKeys[k].referencedTable in schema.catalog.tables
      requires Expanding(schema, children, Seen(), k, row, todo) && id in todo
      requires Readable(schema, children, schema.catalog.foreignKeys[k].table, id)
      requires LookupAll(schema.catalog.tables[schema.catalog.foreignKeys[k].referencedTable], row, schema.catalog.foreignKeys[k].referencedColumns) == Ok(required)
      requires NoNulls(required)
      modifies this
      ensures r.Ok? ==> Ready() && (old(rowsChanged) ==> rowsChanged) && (old(needsValidation) ==> needsValidation)
      ensures r.Ok? ==> Expanding(schema, children, Seen(), k, row, todo - {id})
      ensures !Referring(schema, children, schema.catalog.foreignKeys[k], row, id) ==> r.Ok? && Seen() == old(Seen())
      ensures r != Err(ForeignKeyViolation)
      decreases RowLocs(schema, Seen()), 64 - depth, 2
    {
      hide StagedOk, ConsistentWith, View, Apply, FullRow, Effect, RowLocs, IdentityOk, Expanding, Valid, MappingOk,
           KeyNulled, OneRow, IdentityBytes, CarriedKey, AllSqlEq, LookupAll, Materialize, Refers, Referring, Cleared;
      var key := schema.catalog.foreignKeys[k];
      KeyFacts(fp, base, schema, k);
      var def := schema.catalog.tables[key.table];
      ReadableRow(schema, children, key.table, id);
      var child := Materialize(def, children.cells[Loc(TableTree(schema, key.table), id)].values);
      KeysValid(schema.catalog);
      TuplesExist(schema, k, child);
      var values := LookupAll(def, child, key.columns);
      ReferringIff(schema, children, key, row, id);
      if !NoNulls(values.value) || !AllSqlEq(values.value, required) {
        ExpandingSkip(schema, children, Seen(), k, row, todo, id);
        return Ok(());
      }
      ghost var before := Seen();
      if key.onDelete == SetNull {
        ExpandingUnchanged(schema, children, before, k, row, todo, id);
        r := ClearReference(k, id, child);
        if r.Ok? {
          ExpandingNulled(schema, children, before, Seen(), k, row, todo, id);
        }
      } else {
        var identity := IdentityBytes(schema.catalog, def, CarriedKey(schema.catalog, def, id).value, child);
        ExpandingEffect(schema, children, before, k, row, todo);
        r := Expand(key.table, child, depth + 1);
        if r.Err? {
          return;
        }
        ghost var between := Seen();
        r := Delete(key.table, identity.value);
        if r.Ok? {
          ExpandingCascaded(schema, children, before, between, Seen(), k, row, todo, id);
        }
      }
    }

    /** Set a child's foreign-key columns to NULL through an ordinary update. */
    method ClearReference(k: ConstraintId, id: ByteString, row: seq<Value>) returns (r: Result<()>)
      requires Ready() && k in schema.catalog.foreignKeys && schema.catalog.foreignKeys[k].onDelete == SetNull
      requires FullRow(schema, Seen(), RowRef(schema.catalog.foreignKeys[k].table, id)) == Some(row)
      modifies this
      ensures r.Ok? ==> Ready() && rowsChanged && needsValidation
      ensures r.Ok? ==>
                var key := schema.catalog.foreignKeys[k];
                var child := RowRef(key.table, id);
                && OneRow(schema, old(Seen()), Seen(), child)
                && FullRow(schema, Seen(), child).Some?
                && KeyNulled(schema.catalog.tables[key.table], key.columns, row, FullRow(schema, Seen(), child).value)
      ensures r.Ok? ==> RowLocs(schema, Seen()) <= RowLocs(schema, old(Seen()))
      ensures r != Err(ForeignKeyViolation)
    {
      hide StagedOk, ConsistentWith, View, Apply, RowLocs, Readable, Valid, MappingOk, KeyNulled, OneRow, IdentityBytes, CarriedKey,
           Materialize, Placed, Target, FullRow;
      var key := schema.catalog.foreignKeys[k];
      var def := schema.catalog.tables[key.table];
      KeyFacts(fp, base, schema, k);
      FullRowReadable(fp, schema, base, writes, ranges, key.table, id);
      ReadableRow(schema, Seen(), key.table, id);
      var carried := CarriedKey(schema.catalog, def, id).value;
      var updated := NullColumns(def, row, key.columns);
      if updated.Err? {
        return Err(updated.error);
      }
      r := Update(key.table, carried, updated.value);
      if r.Ok? {
        ClearedRow(schema, old(Seen()), Seen(), k, carried, id, row, updated.value);
      }
    }

    // ---- reading through an index ------------------------------------------

    /** The identities an index holds for one value key; the probed range is registered. */
    method IndexIdentities(i: IndexId, values: ByteString) returns (ids: set<ByteString>)
      requires Ready() && i in schema.catalog.indexes && FitsU32(values)
      modifies this`ranges
      ensures Ready() && old(ranges) <= ranges
      ensures forall id :: id in ids <==> KeyAt(fp, schema, Seen(), i, id) == Some(values)
    {
      hide ConsistentWith, View, KeyAt, StagedOk, IndexesOk, IndexOk, RowsOk, MappingOk, LexLess, Successor, EntryPrefix, DecodeEntry, Valid;
      var range := ProbeRange(IndexTree(schema, i), values);
      RangesGrow(fp, schema, base, writes, ranges, ranges + {range});
      ranges := ranges + {range};
      ids := set l | l in Seen().cells && Covers(range, l) && Seen().cells[l].Entry? :: Seen().cells[l].identity;
      StoreFacts(fp, base, schema);
      StagedIndex(fp, schema, base, writes, ranges, i);
      forall id ensures id in ids <==> KeyAt(fp, schema, Seen(), i, id) == Some(values) {
        FoundIdentity(fp, schema, Seen(), i, values, id);
      }
    }

    // ---- references --------------------------------------------------------

    /** Check one foreign key in the view, registering all that was read. */
    method ValidateKey(k: ConstraintId) returns (r: Result<()>)
      requires Ready() && k in schema.catalog.foreignKeys
      requires Valid(schema.catalog) && ValidForeignKey(schema.catalog, schema.catalog.foreignKeys[k])
      modifies this`ranges
      ensures Ready() && old(ranges) <= ranges
      ensures Whole(TableTree(schema, schema.catalog.foreignKeys[k].table)) in ranges
      ensures Whole(IndexTree(schema, SupportOf(schema.catalog, schema.catalog.foreignKeys[k]))) in ranges
      ensures r.Ok? <==> ForeignOk(fp, schema, Seen(), schema.catalog.foreignKeys[k])
      ensures r.Err? ==> r.error == ForeignKeyViolation
    {
      hide ConsistentWith, View, ForeignOk, StagedOk, Valid, ValidForeignKey, SupportOf, ReferencedValues, CheckedBut, MappingOk, IndexesOk,
           ChildKey, Materialize, ChildColumns, IndexValuesKey, CompositeKey, LookupAll;
      var key := schema.catalog.foreignKeys[k];
      var support := SupportOf(schema.catalog, key);
      var more := {Whole(IndexTree(schema, support)), Whole(TableTree(schema, key.table))};
      RangesGrow(fp, schema, base, writes, ranges, ranges + more);
      ranges := ranges + more;
      StagedFacts(fp, schema, base, writes, ranges);
      KeyFacts(fp, base, schema, k);
      ForeignKeyWidths(schema.catalog, key);
      ghost var registered := ranges;
      var referenced := ReferencedValues(Seen(), IndexTree(schema, support));
      var todo := set l | l in Seen().cells && l.tree == TableTree(schema, key.table) :: l.key;
      CheckedStart(fp, schema, Seen(), k, todo);
      while todo != {}
        invariant todo <= set l | l in Seen().cells && l.tree == TableTree(schema, key.table) :: l.key
        invariant CheckedBut(fp, schema, Seen(), k, todo)
        invariant ranges == registered
      {
        var id :| id in todo;
        assert Loc(TableTree(schema, key.table), id) in Seen().cells;
        ChildRead(fp, schema, Seen(), k, id);
        var row := Materialize(schema.catalog.tables[key.table], Seen().cells[Loc(TableTree(schema, key.table), id)].values);
        var values := ChildTuple(schema, key, row);
        if NoNulls(values.value) {
          var encoded := IndexValuesKey(schema.catalog.tables[key.referencedTable], ForeignKeyIndex(schema.catalog, key).value, values.value);
          if encoded.value !in referenced {
            CheckedAll(fp, schema, Seen(), k);
            CheckedMisses(fp, schema, Seen(), k, id);
            return Err(ForeignKeyViolation);
          }
        }
        CheckedOne(fp, schema, Seen(), k, todo, id);
        todo := todo - {id};
      }
      CheckedAll(fp, schema, Seen(), k);
      r := Ok(());
    }

    /** Check the foreign keys of one timing, or all of them. */
    method ValidateReferences(timing: Option<Timing>) returns (r: Result<()>)
      requires Ready() && Valid(schema.catalog)
      modifies this`ranges
      ensures Ready() && old(ranges) <= ranges
      ensures r.Ok? <==> forall k :: k in schema.catalog.foreignKeys && Timed(schema.catalog.foreignKeys[k], timing) ==>
                           ForeignOk(fp, schema, Seen(), schema.catalog.foreignKeys[k])
      ensures r.Err? ==> r.error == ForeignKeyViolation
      ensures r.Ok? ==> forall k :: k in schema.catalog.foreignKeys && Timed(schema.catalog.foreignKeys[k], timing) ==>
                          Scanned(schema, ranges, schema.catalog.foreignKeys[k])
    {
      hide ConsistentWith, View, ForeignOk, StagedOk, ValidForeignKey, SupportOf, Valid, ValidTables, ValidNames, ValidIndex;
      KeysValid(schema.catalog);
      var todo := set k | k in schema.catalog.foreignKeys && Timed(schema.catalog.foreignKeys[k], timing);
      while todo != {}
        invariant todo <= set k | k in schema.catalog.foreignKeys && Timed(schema.catalog.foreignKeys[k], timing)
        invariant Ready() && old(ranges) <= ranges
        invariant forall k :: k in schema.catalog.foreignKeys && Timed(schema.catalog.foreignKeys[k], timing) && k !in todo ==>
                    && ForeignOk(fp, schema, Seen(), schema.catalog.foreignKeys[k])
                    && Scanned(schema, ranges, schema.catalog.foreignKeys[k])
      {
        var k :| k in todo;
        r := ValidateKey(k);
        if r.Err? {
          return;
        }
        todo := todo - {k};
      }
      r := Ok(());
    }

    /** At the end of an operation the immediate foreign keys are checked, if rows changed. */
    method ValidateImmediate() returns (r: Result<()>)
      requires Ready() && Valid(schema.catalog)
      modifies this`ranges, this`needsValidation
      ensures Ready() && old(ranges) <= ranges
      ensures r.Ok? ==> !needsValidation
      ensures r.Ok? && old(needsValidation) ==> ImmediateOk(fp, schema, Seen())
      ensures r.Err? ==> r.error == ForeignKeyViolation && old(needsValidation) && needsValidation && !ImmediateOk(fp, schema, Seen())
    {
      hide ConsistentWith, View, ForeignOk, StagedOk, Valid;
      KeysValid(schema.catalog);
      r := Ok(());
      if needsValidation {
        r := ValidateReferences(Some(Immediate));
        if r.Ok? {
          needsValidation := false;
        }
      }
    }

    /** Check every foreign key and hand the staged writes to the kernel. */
    method Publish(engine: Engine<Datum>) returns (r: Result<()>)
      requires Ready() && Valid(schema.catalog) && csn <= |engine.log| && base == Replay(engine.log[..csn])
      modifies this`ranges, engine
      ensures r.Ok? && writes != map[] ==>
                && engine.log == old(engine.log) + [Kernel.Commit(csn, RowChange(writes), ranges)]
                && Admissible(old(engine.log), Kernel.Commit(csn, RowChange(writes), ranges))
                && Publishable(fp, schema, base, writes, ranges)
      ensures r.Err? || writes == map[] ==> engine.log == old(engine.log)
      ensures r.Ok? && rowsChanged ==> ForeignKeysOk(fp, schema, Seen())
      ensures r == Err(ForeignKeyViolation) ==> rowsChanged && !ForeignKeysOk(fp, schema, Seen())
      ensures r.Err? ==> r.error == ForeignKeyViolation || r.error == SerializationConflict
    {
      hide ConsistentWith, View, ForeignOk, StagedOk, Valid, Admissible;
      KeysValid(schema.catalog);
      if rowsChanged {
        r := ValidateReferences(None);
        if r.Err? {
          return;
        }
      }
      // A transaction without writes commits at its snapshot.
      if writes == map[] {
        return Ok(());
      }
      var published := engine.Publish(Kernel.Commit(csn, RowChange(writes), ranges));
      r := if published then Ok(()) else Err(SerializationConflict);
    }
  }
}
