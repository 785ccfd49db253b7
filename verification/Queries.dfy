/** Candidate rows for a statement, read through a transaction along the planned path. */
module Queries {
  import opened Common
  import opened Bytes
  import opened Values
  import opened Rows
  import opened Catalogs
  import opened RowKeys
  import opened IndexEntries
  import opened Kernel
  import opened Store
  import opened Commits
  import opened Cascades
  import opened References
  import opened Transactions
  import opened Planner
  import P = Predicates

  /** The identities to look at instead of scanning the table, nothing when it is scanned.
      Filtering the rows found under them gives the rows the whole table would give. */
  method CandidateRows(m: P.Meaning, tx: DirectTransaction, t: TableId, selection: Option<P.Predicate>)
      returns (r: Result<Option<set<ByteString>>>)
    requires tx.Ready() && m.fp == tx.fp && t in tx.schema.catalog.tables
    modifies tx`ranges
    ensures tx.Ready()
    ensures r.Ok? && r.value.Some? ==>
              && selection.Some?
              && (forall id :: id in r.value.value ==> FullRow(tx.schema, tx.Seen(), RowRef(t, id)).Some?)
              && (forall id :: InResult(m, tx.schema, tx.Seen(), t, selection.value, id) ==> id in r.value.value)
  {
    hide ConsistentWith, StagedOk, View, PlanFits, CollectTerms, Planner.Bound, InResult, IsCandidate, Valid, MappingOk, IndexesOk, FullRow,
         EncodeIdentity, CompositeKey, KeyAt;
    var def := tx.schema.catalog.tables[t];
    StoreFacts(tx.fp, tx.base, tx.schema);
    StagedFacts(tx.fp, tx.schema, tx.base, tx.writes, tx.ranges);
    TableIsValid(tx.schema.catalog, t);
    var resolved :- ResolvePlan(m, tx.schema.catalog, def, selection);
    if resolved.None? {
      return Ok(None);
    }
    var plan, p := resolved.value, selection.value;
    PlanFacts(m, tx.schema.catalog, def, p, plan);
    var terms := CollectTerms(m, def, p).value.value;
    var values := BoundValues(def, terms, BoundColumns(plan));
    if !AllStorable(values) {
      return Err(ValueTooLarge);
    }
    var found: set<ByteString> := {};
    match plan {
      case NullShortCircuit =>
      case PrimaryKeyLookup(key) =>
        var identity := NewIdentity(t, key, values);
        if identity.Err? {
          return Err(identity.error);
        }
        var id := EncodeIdentity(identity.value);
        var present := tx.Get(Loc(TableTree(tx.schema, t), id));
        StagedFacts(tx.fp, tx.schema, tx.base, tx.writes, tx.ranges);
        RowPresent(tx.fp, tx.schema, tx.Seen(), t, id);
        if present.Some? {
          found := {id};
        }
      case IndexScan(i, _) =>
        var key := IndexValuesKey(def, tx.schema.catalog.indexes[i], values);
        if key.Err? {
          return Err(key.error);
        }
        if !FitsU32(key.value) {
          return Err(ValueTooLarge);
        }
        found := tx.IndexIdentities(i, key.value);
    }
    assert FoundBy(m, tx.schema, tx.Seen(), t, plan, values, found);
    CandidatesAre(m, tx.schema, tx.Seen(), t, plan, values, found);
    forall id
      ensures id in found ==> FullRow(tx.schema, tx.Seen(), RowRef(t, id)).Some?
      ensures InResult(m, tx.schema, tx.Seen(), t, p, id) ==> id in found
    {
      PlanAgrees(m, tx.schema, tx.Seen(), t, p, plan, values, id);
    }
    r := Ok(Some(found));
  }

  lemma PlanFacts(m: P.Meaning, c: Catalog, t: Table, p: P.Predicate, plan: Plan)
    requires PlanFits(m, c, t, p, plan)
    ensures CollectTerms(m, t, p).Ok? && CollectTerms(m, t, p).value.Some?
    ensures AllPinnedOnce(t, CollectTerms(m, t, p).value.value, BoundColumns(plan))
    ensures plan.IndexScan? ==> plan.index in c.indexes && c.indexes[plan.index].table == t.id
  {
    hide CollectTerms, Pins, Implied;
  }

  lemma RowPresent(fp: FloatUnit, s: Schema, img: Trees, t: TableId, id: ByteString)
    requires IndexesOk(fp, s, img) && t in s.catalog.tables
    ensures img.Get(Loc(TableTree(s, t), id)).Some? <==> FullRow(s, img, RowRef(t, id)).Some?
  {
    hide IndexOk, UniqueOk, IndexKey, IdentityOk;
    if Loc(TableTree(s, t), id) in img.cells {
      assert RowCellOk(fp, s, img, t, id);
    }
  }

  /** What the lookups of a plan found. */
  ghost predicate FoundBy(m: P.Meaning, s: Schema, img: Trees, t: TableId, plan: Plan, values: seq<Value>, found: set<ByteString>)
    requires t in s.catalog.tables && AllStorable(values)
  {
    match plan
    case NullShortCircuit => found == {}
    case PrimaryKeyLookup(key) =>
      && NewIdentity(t, key, values).Ok?
      && var id := EncodeIdentity(Identity(t, key, values));
         found == if FullRow(s, img, RowRef(t, id)).Some? then {id} else {}
    case IndexScan(i, _) => forall id :: id in found <==> KeyAt(m.fp, s, img, i, id) == Some(CompositeKey(values))
  }

  /** The identities found are the candidates of the plan. */
  lemma CandidatesAre(m: P.Meaning, s: Schema, img: Trees, t: TableId, plan: Plan, values: seq<Value>, found: set<ByteString>)
    requires t in s.catalog.tables && AllStorable(values) && FoundBy(m, s, img, t, plan, values, found)
    ensures forall id :: id in found <==> IsCandidate(m.fp, s, img, t, plan, values, id)
  {
    hide EncodeIdentity, FullRow, KeyAt, CompositeKey;
  }
}
