/** Access paths: a predicate that pins a primary key or an index by equalities is answered
    from few candidate rows, and filtering those gives what filtering the table would. */
module Planner {
  import opened Common
  import opened Bytes
  import opened Values
  import opened Rows
  import opened Catalogs
  import opened RowKeys
  import opened Store
  import opened Cascades
  import opened References
  import P = Predicates
  import CatalogLaws

  /** A column position that must equal a value. */
  type Term = (nat, Value)

  datatype Plan =
    | PrimaryKeyLookup(key: seq<ColumnId>)
    | NullShortCircuit
    | IndexScan(index: IndexId, columns: seq<ColumnId>)

  /** The equalities a predicate is a conjunction of, nothing when it has any other shape. */
  function CollectTerms(m: P.Meaning, t: Table, p: P.Predicate): (r: Result<Option<seq<Term>>>)
    ensures r.Ok? && r.value.Some? ==> forall i :: 0 <= i < |r.value.value| ==>
              r.value.value[i].0 < |t.columns| && HasType(r.value.value[i].1, t.columns[r.value.value[i].0].kind)
  {
    match p
    case Nested(inner) => CollectTerms(m, t, inner)
    case Both(left, right) =>
      var l :- CollectTerms(m, t, left);
      if l.None? then Ok(None)
      else
        var r :- CollectTerms(m, t, right);
        Ok(if r.None? then None else Some(l.value + r.value))
    case Compare(op, lhs, rhs) =>
      if op != P.Eq then Ok(None)
      else
        var x, y := P.ColumnPosition(t, lhs), P.ColumnPosition(t, rhs);
        if x.Some? == y.Some? then Ok(None)
        else
          var position := if x.Some? then x.value else y.value;
          var literal :- P.LiteralValue(if x.Some? then rhs else lhs);
          var value :- P.Coerce(m, literal, t.columns[position]);
          Ok(Some([(position, value)]))
    case _ => Ok(None)
  }

  /** How many terms pin a column. */
  function Pins(t: Table, terms: seq<Term>, id: ColumnId): nat
    requires forall i :: 0 <= i < |terms| ==> terms[i].0 < |t.columns|
  {
    if terms == [] then 0
    else (if t.columns[terms[0].0].id == id then 1 else 0) + Pins(t, terms[1..], id)
  }

  predicate AllPinnedOnce(t: Table, terms: seq<Term>, ids: seq<ColumnId>)
    requires forall i :: 0 <= i < |terms| ==> terms[i].0 < |t.columns|
  {
    forall i :: 0 <= i < |ids| ==> Pins(t, terms, ids[i]) == 1
  }

  predicate CoveredExactlyOnce(t: Table, terms: seq<Term>, ids: seq<ColumnId>)
    requires forall i :: 0 <= i < |terms| ==> terms[i].0 < |t.columns|
  {
    |ids| == |terms| && AllPinnedOnce(t, terms, ids)
  }

  /** A partial index applies when the terms imply its predicate, equality by equality. */
  predicate Implied(t: Table, terms: seq<Term>, filter: seq<(ColumnId, Value)>)
    requires forall i :: 0 <= i < |terms| ==> terms[i].0 < |t.columns|
  {
    forall j :: 0 <= j < |filter| ==>
      exists i :: 0 <= i < |terms| && t.columns[terms[i].0].id == filter[j].0 && SqlEq(terms[i].1, filter[j].1)
  }

  predicate Usable(c: Catalog, t: Table, terms: seq<Term>, i: IndexId)
    requires forall i :: 0 <= i < |terms| ==> terms[i].0 < |t.columns|
  {
    && i in c.indexes
    && var index := c.indexes[i];
       var ids := KeyColumns(index.parts);
       && index.table == t.id
       && (forall j :: 0 <= j < |index.parts| ==> index.parts[j].Plain?)
       && ids != []
       && !(t.id in c.primaryKeys && forall j :: 0 <= j < |ids| ==> ids[j] in c.primaryKeys[t.id])
       && (if index.filter.Some? then Implied(t, terms, index.filter.value) && AllPinnedOnce(t, terms, ids)
           else CoveredExactlyOnce(t, terms, ids))
  }

  /** Most columns first, then the lowest id. */
  predicate Preferred(c: Catalog, i: IndexId, j: IndexId)
    requires i in c.indexes && j in c.indexes
  {
    |c.indexes[i].parts| > |c.indexes[j].parts| || (|c.indexes[i].parts| == |c.indexes[j].parts| && i <= j)
  }

  /** The usable index the planner takes. */
  method ChooseIndex(c: Catalog, usable: set<IndexId>) returns (best: Option<IndexId>)
    requires usable <= c.indexes.Keys
    ensures best.None? <==> usable == {}
    ensures best.Some? ==> best.value in usable && forall j :: j in usable ==> Preferred(c, best.value, j)
  {
    best := None;
    var rest := usable;
    while rest != {}
      invariant rest <= usable
      invariant best.None? ==> rest == usable
      invariant best.Some? ==> best.value in usable && forall j :: j in usable - rest ==> Preferred(c, best.value, j)
    {
      var i :| i in rest;
      if best.None? || !Preferred(c, best.value, i) {
        ghost var passed := best;
        best := Some(i);
        forall j | j in usable - rest ensures Preferred(c, i, j) {
          assert Preferred(c, passed.value, j);
        }
      }
      assert usable - (rest - {i}) == usable - rest + {i};
      rest := rest - {i};
    }
  }

  /** Resolve an access path; nothing means that the table is scanned. */
  method ResolvePlan(m: P.Meaning, c: Catalog, t: Table, selection: Option<P.Predicate>) returns (r: Result<Option<Plan>>)
    ensures r.Ok? && r.value.Some? ==> selection.Some? && PlanFits(m, c, t, selection.value, r.value.value)
    ensures r == Ok(None) && selection.Some? ==>
              CollectTerms(m, t, selection.value) == Ok(None)
              || (CollectTerms(m, t, selection.value).Ok? && CollectTerms(m, t, selection.value).value.Some?
                  && forall i :: i in c.indexes ==> !Usable(c, t, CollectTerms(m, t, selection.value).value.value, i))
  {
    if selection.None? {
      return Ok(None);
    }
    var collected :- CollectTerms(m, t, selection.value);
    if collected.None? {
      return Ok(None);
    }
    var terms := collected.value;
    if exists i :: 0 <= i < |terms| && terms[i].1.Null? {
      return Ok(Some(NullShortCircuit));
    }
    if t.id in c.primaryKeys && c.primaryKeys[t.id] != [] && CoveredExactlyOnce(t, terms, c.primaryKeys[t.id]) {
      return Ok(Some(PrimaryKeyLookup(c.primaryKeys[t.id])));
    }
    var usable := set i | i in c.indexes && Usable(c, t, terms, i);
    var best := ChooseIndex(c, usable);
    assert forall i :: i in c.indexes && Usable(c, t, terms, i) ==> i in usable;
    r := Ok(if best.None? then None else Some(IndexScan(best.value, KeyColumns(c.indexes[best.value].parts))));
  }

  /** What a resolved plan may rely on. */
  predicate PlanFits(m: P.Meaning, c: Catalog, t: Table, p: P.Predicate, plan: Plan) {
    var collected := CollectTerms(m, t, p);
    && collected.Ok? && collected.value.Some?
    && var terms := collected.value.value;
       match plan
       case NullShortCircuit => exists i :: 0 <= i < |terms| && terms[i].1.Null?
       case PrimaryKeyLookup(key) => t.id in c.primaryKeys && c.primaryKeys[t.id] == key && CoveredExactlyOnce(t, terms, key)
       case IndexScan(i, ids) => Usable(c, t, terms, i) && ids == KeyColumns(c.indexes[i].parts)
  }

  // ---- terms and rows ------------------------------------------------------

  predicate Holds(row: seq<Value>, term: Term) {
    term.0 < |row| && !term.1.Null? && !row[term.0].Null? && SqlEq(row[term.0], term.1)
  }

  /** On every row of the table a collected predicate has a truth value, and it is true only
      if every collected equality holds. */
  lemma {:induction false} CollectedHold(m: P.Meaning, t: Table, p: P.Predicate, row: seq<Value>)
    requires ValidRow(t, row) && CollectTerms(m, t, p).Ok? && CollectTerms(m, t, p).value.Some?
    ensures P.Evaluate(m, t, row, p).Ok?
    ensures P.Selects(m, t, row, p) ==> forall i :: 0 <= i < |CollectTerms(m, t, p).value.value| ==>
              Holds(row, CollectTerms(m, t, p).value.value[i])
    decreases p
  {
    hide P.Order, P.Converted, SqlEq, P.Coerce, P.CoerceOperand, HasType;
    match p
    case Nested(inner) => CollectedHold(m, t, inner, row);
    case Both(left, right) =>
      CollectedHold(m, t, left, row);
      CollectedHold(m, t, right, row);
    case Compare(op, lhs, rhs) => EqualityHolds(m, t, lhs, rhs, row);
  }

  lemma EqualityHolds(m: P.Meaning, t: Table, lhs: P.Operand, rhs: P.Operand, row: seq<Value>)
    requires var p := P.Compare(P.Eq, lhs, rhs);
             ValidRow(t, row) && CollectTerms(m, t, p).Ok? && CollectTerms(m, t, p).value.Some?
    ensures var p := P.Compare(P.Eq, lhs, rhs);
            && P.Evaluate(m, t, row, p).Ok?
            && (P.Selects(m, t, row, p) ==> Holds(row, CollectTerms(m, t, p).value.value[0]))
            && |CollectTerms(m, t, p).value.value| == 1
  {
    hide P.Order, P.Converted, SqlEq, P.Coerce, P.ComparisonConverts;
    var p := P.Compare(P.Eq, lhs, rhs);
    var (position, c) := CollectTerms(m, t, p).value.value[0];
    var column, v := t.columns[position], row[position];
    var literal := P.LiteralValue(if P.ColumnPosition(t, lhs).Some? then rhs else lhs).value;
    assert P.Coerce(m, literal, column) == Ok(c);
    if P.Selects(m, t, row, p) {
      P.ComparedEqual(m, v, literal, column, c);
    }
  }

  // ---- the values bound to columns -----------------------------------------

  /** The value the first term for a position gives. */
  function FirstAt(terms: seq<Term>, position: nat): (v: Option<Value>)
    ensures v.Some? ==> exists i :: 0 <= i < |terms| && terms[i] == (position, v.value)
    ensures v.None? ==> forall i :: 0 <= i < |terms| ==> terms[i].0 != position
  {
    if terms == [] then None
    else if terms[0].0 == position then
      assert terms[0] == (position, terms[0].1);
      Some(terms[0].1)
    else
      var v := FirstAt(terms[1..], position);
      assert v.Some? ==> exists i :: 0 <= i < |terms| && terms[i] == (position, v.value) by {
        if v.Some? {
          var i :| 0 <= i < |terms[1..]| && terms[1..][i] == (position, v.value);
          assert terms[i + 1] == (position, v.value);
        }
      }
      v
  }

  lemma {:induction false} PinnedTerm(t: Table, terms: seq<Term>, id: ColumnId)
    requires forall i :: 0 <= i < |terms| ==> terms[i].0 < |t.columns|
    requires Pins(t, terms, id) > 0
    ensures exists i :: 0 <= i < |terms| && t.columns[terms[i].0].id == id
  {
    if t.columns[terms[0].0].id != id {
      PinnedTerm(t, terms[1..], id);
      var i :| 0 <= i < |terms[1..]| && t.columns[terms[1..][i].0].id == id;
      assert t.columns[terms[i + 1].0].id == id;
    }
  }

  /** A pinned column is pinned where the table has it. */
  lemma PinnedPosition(t: Table, terms: seq<Term>, id: ColumnId)
    requires ValidTable(t) && forall i :: 0 <= i < |terms| ==> terms[i].0 < |t.columns|
    requires Pins(t, terms, id) > 0
    ensures Position(t.columns, id).Some? && FirstAt(terms, Position(t.columns, id).value).Some?
  {
    hide Position, FirstAt;
    PinnedTerm(t, terms, id);
    var i :| 0 <= i < |terms| && t.columns[terms[i].0].id == id;
    CatalogLaws.ColumnAtPosition(t, terms[i].0);
  }

  /** The values given to a list of columns, in their order. */
  method BoundValues(t: Table, terms: seq<Term>, ids: seq<ColumnId>) returns (values: seq<Value>)
    requires ValidTable(t) && forall i :: 0 <= i < |terms| ==> terms[i].0 < |t.columns|
    requires AllPinnedOnce(t, terms, ids)
    ensures Bound(t, terms, ids, values)
  {
    hide ValidTable, Pins, FirstAt, Position;
    values := [];
    var n := 0;
    while n < |ids|
      invariant n <= |ids| && Bound(t, terms, ids[..n], values)
    {
      PinnedPosition(t, terms, ids[n]);
      var v := FirstAt(terms, Position(t.columns, ids[n]).value);
      assert BoundAt(t, terms, ids[n], v.value);
      assert ids[..n + 1] == ids[..n] + [ids[n]];
      values := values + [v.value];
      n := n + 1;
    }
    assert ids[..n] == ids;
  }

  predicate Bound(t: Table, terms: seq<Term>, ids: seq<ColumnId>, values: seq<Value>) {
    |values| == |ids| && forall i :: 0 <= i < |ids| ==> BoundAt(t, terms, ids[i], values[i])
  }

  predicate BoundAt(t: Table, terms: seq<Term>, id: ColumnId, v: Value) {
    Position(t.columns, id).Some? && (Position(t.columns, id).value, v) in terms
  }

  // ---- candidates ----------------------------------------------------------

  /** A row of a table in a readable image. */
  predicate RowIs(s: Schema, img: Trees, t: TableId, id: ByteString, row: seq<Value>) {
    FullRow(s, img, RowRef(t, id)) == Some(row)
  }

  lemma RowFacts(fp: FloatUnit, s: Schema, img: Trees, t: TableId, id: ByteString, row: seq<Value>)
    requires RowsOk(fp, s, img) && t in s.catalog.tables && RowIs(s, img, t, id, row)
    ensures ValidRow(s.catalog.tables[t], row) && AllStorable(row) && IdentityOk(s.catalog, s.catalog.tables[t], id, row)
  {
    hide IndexKey, IdentityOk, ValidStored;
    assert RowCellOk(fp, s, img, t, id);
  }

  /** On a row where all terms hold, the columns' values are those bound to them. */
  lemma BoundEquals(t: Table, terms: seq<Term>, ids: seq<ColumnId>, values: seq<Value>, row: seq<Value>)
    requires ValidRow(t, row) && Bound(t, terms, ids, values)
    requires forall i :: 0 <= i < |terms| ==> Holds(row, terms[i])
    ensures LookupAll(t, row, ids).Ok? && AllSqlEq(LookupAll(t, row, ids).value, values) && NoNulls(LookupAll(t, row, ids).value)
    ensures |values| == |ids|
  {
    hide ValidStored, SqlEq, Position, LookupAll;
    forall i | 0 <= i < |ids| ensures ColumnAt(t, ids[i]).Some? {
      assert BoundAt(t, terms, ids[i], values[i]);
    }
    LookupAllOk(t, row, ids);
    var found := LookupAll(t, row, ids).value;
    forall i | 0 <= i < |ids| ensures SqlEq(found[i], values[i]) && !found[i].Null? {
      assert BoundAt(t, terms, ids[i], values[i]);
      var j :| 0 <= j < |terms| && terms[j] == (Position(t.columns, ids[i]).value, values[i]);
      assert Holds(row, terms[j]);
    }
  }

  /** The identity lookup finds every row its terms hold on. */
  lemma IdentityFound(fp: FloatUnit, s: Schema, img: Trees, t: TableId, terms: seq<Term>, values: seq<Value>, id: ByteString, row: seq<Value>)
    requires RowsOk(fp, s, img) && t in s.catalog.tables && s.catalog.tables[t].id == t && t in s.catalog.primaryKeys
    requires RowIs(s, img, t, id, row) && forall i :: 0 <= i < |terms| ==> Holds(row, terms[i])
    requires Bound(s.catalog.tables[t], terms, s.catalog.primaryKeys[t], values) && AllStorable(values)
    requires NewIdentity(t, s.catalog.primaryKeys[t], values).Ok?
    ensures EncodeIdentity(Identity(t, s.catalog.primaryKeys[t], values)) == id
  {
    hide RowsOk, ValidStored, LookupAll, EncodeIdentity, Bound, AllSqlEq, Holds;
    var def, key := s.catalog.tables[t], s.catalog.primaryKeys[t];
    RowFacts(fp, s, img, t, id, row);
    BoundEquals(def, terms, key, values, row);
    var found := LookupAll(def, row, key).value;
    IdentityDecidesEquality(Identity(t, key, found), Identity(t, key, values));
  }

  lemma {:induction false} FilterHolds(t: Table, filter: seq<(ColumnId, Value)>, terms: seq<Term>, row: seq<Value>)
    requires ValidTable(t) && ValidRow(t, row) && forall i :: 0 <= i < |terms| ==> terms[i].0 < |t.columns|
    requires Implied(t, terms, filter) && forall i :: 0 <= i < |terms| ==> Holds(row, terms[i])
    ensures Satisfies(t, filter, row) == Ok(true)
    decreases |filter|
  {
    hide ValidTable, ValidStored, SqlEq, Position;
    if filter != [] {
      var i :| 0 <= i < |terms| && t.columns[terms[i].0].id == filter[0].0 && SqlEq(terms[i].1, filter[0].1);
      CatalogLaws.ColumnAtPosition(t, terms[i].0);
      assert Holds(row, terms[i]);
      P.SqlEqTransitive(row[terms[i].0], terms[i].1, filter[0].1);
      assert Implied(t, terms, filter[1..]) by {
        forall j | 0 <= j < |filter[1..]|
          ensures exists k :: 0 <= k < |terms| && t.columns[terms[k].0].id == filter[1..][j].0 && SqlEq(terms[k].1, filter[1..][j].1)
        {
          assert filter[1..][j] == filter[j + 1];
        }
      }
      FilterHolds(t, filter[1..], terms, row);
    }
  }

  /** The index lookup finds every row its terms hold on. */
  lemma EntryFound(fp: FloatUnit, s: Schema, img: Trees, t: TableId, terms: seq<Term>, i: IndexId, values: seq<Value>, id: ByteString, row: seq<Value>)
    requires Valid(s.catalog) && MappingOk(s) && RowsOk(fp, s, img) && t in s.catalog.tables && s.catalog.tables[t].id == t
    requires RowIs(s, img, t, id, row) && forall i :: 0 <= i < |terms| ==> terms[i].0 < |s.catalog.tables[t].columns|
    requires forall i :: 0 <= i < |terms| ==> Holds(row, terms[i])
    requires Usable(s.catalog, s.catalog.tables[t], terms, i)
    requires Bound(s.catalog.tables[t], terms, KeyColumns(s.catalog.indexes[i].parts), values) && AllStorable(values)
    ensures KeyAt(fp, s, img, i, id) == Some(CompositeKey(values))
  {
    hide RowsOk, ValidStored, LookupAll, Bound, AllSqlEq, Holds, Valid, MappingOk, CompositeKey, Pins, KeyValues, Satisfies, Implied;
    var def, index := s.catalog.tables[t], s.catalog.indexes[i];
    RowFacts(fp, s, img, t, id, row);
    BoundEquals(def, terms, KeyColumns(index.parts), values, row);
    var found := LookupAll(def, row, KeyColumns(index.parts)).value;
    CatalogLaws.PlainKeyColumns(index.parts);
    PlainKeyValues(fp, def, index.parts, row);
    CompositeKeyDecidesEquality(found, values);
    TableIsValid(s.catalog, t);
    if index.filter.Some? {
      FilterHolds(def, index.filter.value, terms, row);
    }
    KeyOfRow(fp, s, img, t, i, id, row);
  }

  lemma TableIsValid(c: Catalog, t: TableId)
    requires Valid(c) && t in c.tables
    ensures ValidTable(c.tables[t]) && c.tables[t].id == t
  {
    hide ValidTable;
  }

  /** The key of a logical row is its key in the image. */
  lemma KeyOfRow(fp: FloatUnit, s: Schema, img: Trees, t: TableId, i: IndexId, id: ByteString, row: seq<Value>)
    requires RowsOk(fp, s, img) && t in s.catalog.tables && RowIs(s, img, t, id, row) && AllStorable(row)
    requires i in s.catalog.indexes && s.catalog.indexes[i].table == t
    ensures IndexKey(fp, s.catalog.tables[t], s.catalog.indexes[i], row) == Ok(KeyAt(fp, s, img, i, id))
  {
    hide IndexKey, IdentityOk, ValidStored;
    assert RowCellOk(fp, s, img, t, id);
  }

  /** The rows a plan looks at, by identity. */
  ghost predicate IsCandidate(fp: FloatUnit, s: Schema, img: Trees, t: TableId, plan: Plan, values: seq<Value>, id: ByteString)
    requires t in s.catalog.tables && AllStorable(values)
  {
    match plan
    case NullShortCircuit => false
    case PrimaryKeyLookup(key) =>
      && NewIdentity(t, key, values).Ok?
      && id == EncodeIdentity(Identity(t, key, values))
      && FullRow(s, img, RowRef(t, id)).Some?
    case IndexScan(i, _) => KeyAt(fp, s, img, i, id) == Some(CompositeKey(values))
  }

  /** The row is in the table and the predicate is true of it. */
  predicate InResult(m: P.Meaning, s: Schema, img: Trees, t: TableId, p: P.Predicate, id: ByteString) {
    && t in s.catalog.tables
    && FullRow(s, img, RowRef(t, id)).Some?
    && P.Selects(m, s.catalog.tables[t], FullRow(s, img, RowRef(t, id)).value, p)
  }

  /** The columns a plan binds. */
  function BoundColumns(plan: Plan): seq<ColumnId> {
    match plan
    case NullShortCircuit => []
    case PrimaryKeyLookup(key) => key
    case IndexScan(_, ids) => ids
  }

  /** Filtering the candidates of a resolved plan gives exactly what filtering the table
      gives, and the predicate has a truth value on every row of the table. */
  lemma PlanAgrees(m: P.Meaning, s: Schema, img: Trees, t: TableId, p: P.Predicate, plan: Plan, values: seq<Value>, id: ByteString)
    requires Valid(s.catalog) && MappingOk(s) && IndexesOk(m.fp, s, img) && t in s.catalog.tables
    requires PlanFits(m, s.catalog, s.catalog.tables[t], p, plan)
    requires AllStorable(values) && Bound(s.catalog.tables[t], CollectTerms(m, s.catalog.tables[t], p).value.value, BoundColumns(plan), values)
    requires plan.PrimaryKeyLookup? ==> NewIdentity(t, plan.key, values).Ok?
    ensures InResult(m, s, img, t, p, id) <==> IsCandidate(m.fp, s, img, t, plan, values, id) && InResult(m, s, img, t, p, id)
    ensures IsCandidate(m.fp, s, img, t, plan, values, id) ==> FullRow(s, img, RowRef(t, id)).Some?
    ensures FullRow(s, img, RowRef(t, id)).Some? ==> P.Evaluate(m, s.catalog.tables[t], FullRow(s, img, RowRef(t, id)).value, p).Ok?
  {
    hide Valid, MappingOk, IndexOk, UniqueOk, RowsOk, CollectTerms, P.Evaluate, FullRow, Bound, EncodeIdentity, KeyAt, CompositeKey, ValidStored;
    var def := s.catalog.tables[t];
    var terms := CollectTerms(m, def, p).value.value;
    TableIsValid(s.catalog, t);
    CandidateIsRow(m.fp, s, img, t, plan, values, id);
    if FullRow(s, img, RowRef(t, id)).Some? {
      var row := FullRow(s, img, RowRef(t, id)).value;
      RowFacts(m.fp, s, img, t, id, row);
      CollectedHold(m, def, p, row);
      if plan.NullShortCircuit? {
        NullSelectsNothing(m, def, p, row);
      } else if P.Selects(m, def, row, p) {
        match plan
        case PrimaryKeyLookup(_) => IdentityFound(m.fp, s, img, t, terms, values, id, row);
        case IndexScan(i, _) => EntryFound(m.fp, s, img, t, terms, i, values, id, row);
      }
    }
  }

  /** Equality with NULL is never true. */
  lemma NullSelectsNothing(m: P.Meaning, t: Table, p: P.Predicate, row: seq<Value>)
    requires ValidRow(t, row) && CollectTerms(m, t, p).Ok? && CollectTerms(m, t, p).value.Some?
    requires var terms := CollectTerms(m, t, p).value.value; exists i :: 0 <= i < |terms| && terms[i].1.Null?
    ensures !P.Selects(m, t, row, p)
  {
    hide CollectTerms, P.Selects, ValidStored, SqlEq;
    CollectedHold(m, t, p, row);
  }

  lemma CandidateIsRow(fp: FloatUnit, s: Schema, img: Trees, t: TableId, plan: Plan, values: seq<Value>, id: ByteString)
    requires t in s.catalog.tables && AllStorable(values)
    requires plan.IndexScan? ==> plan.index in s.catalog.indexes && s.catalog.indexes[plan.index].table == t
    ensures IsCandidate(fp, s, img, t, plan, values, id) ==> FullRow(s, img, RowRef(t, id)).Some?
  {
    hide EncodeIdentity, CompositeKey, IndexKey, Materialize;
  }
}
