/** What a row contributes to the keyspace: its identity, its key under each index and
    its foreign-key tuples. */
module RowKeys {
  import opened Common
  import opened Bytes
  import opened Decimals
  import opened Values
  import opened Rows
  import opened Catalogs

  // ---- arithmetic on values ------------------------------------------------

  /** The machine's binary64 operations, on bit patterns. Nothing below depends on what
      they compute. */
  datatype FloatUnit = FloatUnit(ofInt: int -> u64, ofDecimal: Decimal -> u64, apply: (Operator, u64, u64) -> u64)

  predicate IsNumber(v: Value) {
    v.Int? || v.UInt? || v.Float? || v.Numeric?
  }

  function ToFloat(fp: FloatUnit, v: Value): u64
    requires IsNumber(v)
  {
    match v
    case Float(bits) => bits
    case Int(i) => fp.ofInt(i)
    case UInt(n) => fp.ofInt(n)
    case Numeric(d) => fp.ofDecimal(d)
  }

  /** The integer a value holds. */
  function Integer(v: Value): int
    requires v.Int? || v.UInt?
  {
    if v.Int? then v.i else v.n
  }

  function ToDecimal(v: Value): Result<Decimal>
    requires IsNumber(v) && !v.Float?
  {
    if v.Numeric? then Ok(v.decimal) else New(Integer(v), 0)
  }

  function FloatArithmetic(fp: FloatUnit, op: Operator, l: u64, r: u64): Result<Value> {
    if op == Modulo then Err(Unsupported)
    else if op == Divide && IsZero(r) && !IsNan(l) then Err(DivisionByZero)
    else Ok(Float(fp.apply(op, l, r)))
  }

  function DecimalArithmetic(op: Operator, l: Value, r: Value): Result<Value>
    requires IsNumber(l) && IsNumber(r) && !l.Float? && !r.Float?
  {
    var x :- ToDecimal(l);
    var y :- ToDecimal(r);
    var z :- Evaluate(op, x, y);
    Ok(Numeric(z))
  }

  function IntegerArithmetic(op: Operator, l: int, r: int, unsigned: bool): Result<Value> {
    if (op == Divide || op == Modulo) && r == 0 then Err(DivisionByZero)
    else
      var v := match op
               case Add => l + r
               case Subtract => l - r
               case Multiply => l * r
               case Divide => Div0(l, r)
               case Modulo => Rem0(l, r);
      if unsigned then (if 0 <= v < 0x1_0000_0000_0000_0000 then Ok(UInt(v)) else Err(OutOfRange))
      else (if -0x8000_0000_0000_0000 <= v < 0x8000_0000_0000_0000 then Ok(Int(v)) else Err(OutOfRange))
  }

  function Arithmetic(fp: FloatUnit, op: Operator, l: Value, r: Value): (v: Result<Value>)
    ensures v.Ok? ==> Storable(v.value)
  {
    if l.Null? || r.Null? then Ok(Null)
    else if !IsNumber(l) || !IsNumber(r) then Err(InvalidState)
    else if l.Float? || r.Float? then FloatArithmetic(fp, op, ToFloat(fp, l), ToFloat(fp, r))
    else if l.Numeric? || r.Numeric? then DecimalArithmetic(op, l, r)
    else IntegerArithmetic(op, Integer(l), Integer(r), l.UInt? && r.UInt?)
  }

  // ---- index keys ----------------------------------------------------------

  function Lookup(t: Table, row: seq<Value>, id: ColumnId): Result<Value> {
    match Position(t.columns, id)
    case None => Err(InvalidState)
    case Some(p) => if p < |row| then Ok(row[p]) else Err(InvalidState)
  }

  function KeyOperation(op: KeyOperator): Operator {
    match op
    case Plus => Add
    case Minus => Subtract
    case Times => Multiply
    case Over => Divide
  }

  /** The value of a key expression; nothing when an operand is NULL. */
  function EvaluateKey(fp: FloatUnit, t: Table, e: Expression, row: seq<Value>): (r: Result<Option<Value>>)
    requires AllStorable(row)
    ensures r.Ok? && r.value.Some? ==> Storable(r.value.value)
  {
    match e
    case Reference(id) =>
      var v :- Lookup(t, row, id);
      Ok(if v.Null? then None else Some(v))
    case Combine(left, op, right) =>
      // Both sides are evaluated before NULL propagates, so an error on the right shows.
      var l :- EvaluateKey(fp, t, left, row);
      var r :- EvaluateKey(fp, t, right, row);
      if l.None? || r.None? then Ok(None)
      else
        var v :- Arithmetic(fp, KeyOperation(op), l.value, r.value);
        Ok(Some(v))
  }

  function PartValue(fp: FloatUnit, t: Table, part: KeyPart, row: seq<Value>): (r: Result<Value>)
    requires AllStorable(row)
    ensures r.Ok? ==> Storable(r.value)
  {
    match part
    case Plain(id) => Lookup(t, row, id)
    case Computed(e) =>
      var v :- EvaluateKey(fp, t, e, row);
      Ok(if v.Some? then v.value else Null)
  }

  /** The key components of a row, nothing as soon as one of them is NULL. */
  function KeyValues(fp: FloatUnit, t: Table, parts: seq<KeyPart>, row: seq<Value>): (r: Result<Option<seq<Value>>>)
    requires AllStorable(row)
    ensures r.Ok? && r.value.Some? ==> |r.value.value| == |parts| && AllStorable(r.value.value)
    ensures r.Ok? && r.value.Some? ==> forall i :: 0 <= i < |parts| ==> !r.value.value[i].Null?
  {
    if parts == [] then Ok(Some([]))
    else
      var v :- PartValue(fp, t, parts[0], row);
      if v.Null? then Ok(None)
      else
        var rest :- KeyValues(fp, t, parts[1..], row);
        Ok(if rest.None? then None else Some([v] + rest.value))
  }

  /** The row satisfies every equality of a partial-index predicate. */
  function Satisfies(t: Table, terms: seq<(ColumnId, Value)>, row: seq<Value>): Result<bool> {
    if terms == [] then Ok(true)
    else
      var v :- Lookup(t, row, terms[0].0);
      if SqlEq(v, terms[0].1) then Satisfies(t, terms[1..], row) else Ok(false)
  }

  /** The value key of a row under an index; nothing when the row is not indexed. */
  function IndexKey(fp: FloatUnit, t: Table, index: Index, row: seq<Value>): (r: Result<Option<ByteString>>)
    requires AllStorable(row)
  {
    var applies :- if index.filter.Some? then Satisfies(t, index.filter.value, row) else Ok(true);
    if !applies then Ok(None)
    else
      var values :- KeyValues(fp, t, index.parts, row);
      Ok(if values.None? then None else Some(CompositeKey(values.value)))
  }

  /** A value fits a key part: the type of its column; a computed part takes anything. */
  predicate FitsPart(t: Table, part: KeyPart, v: Value) {
    part.Plain? ==> ColumnAt(t, part.column).Some? && HasType(v, ColumnAt(t, part.column).value.kind)
  }

  /** The value key looked up for given component values. */
  function IndexValuesKey(t: Table, index: Index, values: seq<Value>): Result<ByteString>
    requires AllStorable(values)
  {
    if |values| != |index.parts| then Err(InvalidState)
    else if exists i :: 0 <= i < |values| && !FitsPart(t, index.parts[i], values[i]) then Err(InvalidState)
    else Ok(CompositeKey(values))
  }

  // ---- stored rows ---------------------------------------------------------

  /** A row as it is written: every column present, typed and NOT NULL where declared. */
  predicate ValidRow(t: Table, row: seq<Value>) {
    |row| == |t.columns| && ValidStored(t, row)
  }

  /** A row as it may be found: columns appended since it was written are missing. */
  predicate ValidStored(t: Table, row: seq<Value>) {
    && |row| <= |t.columns|
    && (forall i :: 0 <= i < |row| ==> HasType(row[i], t.columns[i].kind) && (row[i].Null? ==> t.columns[i].nullable))
    && (forall i :: |row| <= i < |t.columns| ==> t.columns[i].nullable)
  }

  /** The logical row: missing trailing columns read as NULL. */
  function Materialize(t: Table, row: seq<Value>): (m: seq<Value>)
    requires |row| <= |t.columns|
    ensures |m| == |t.columns|
    ensures forall i :: 0 <= i < |row| ==> m[i] == row[i]
    ensures forall i :: |row| <= i < |t.columns| ==> m[i] == Null
    ensures AllStorable(row) ==> AllStorable(m)
    ensures ValidStored(t, row) ==> ValidRow(t, m)
  {
    row + seq(|t.columns| - |row|, _ => Null)
  }

  // ---- identities ----------------------------------------------------------

  function LookupAll(t: Table, row: seq<Value>, ids: seq<ColumnId>): (r: Result<seq<Value>>)
    ensures r.Ok? ==> |r.value| == |ids|
    ensures r.Ok? && AllStorable(row) ==> AllStorable(r.value)
    ensures r.Ok? ==> forall i :: 0 <= i < |ids| ==> Lookup(t, row, ids[i]) == Ok(r.value[i])
  {
    if ids == [] then Ok([])
    else
      var v :- Lookup(t, row, ids[0]);
      var rest :- LookupAll(t, row, ids[1..]);
      Ok([v] + rest)
  }

  /** The identity bytes of a row: from its primary-key values, or from its own key when
      the table has none. */
  function IdentityBytes(c: Catalog, t: Table, key: ByteString, row: seq<Value>): Result<ByteString>
    requires |key| == 16 && AllStorable(row)
  {
    Bounds();
    if t.id in c.primaryKeys then
      var values :- LookupAll(t, row, c.primaryKeys[t.id]);
      var id :- NewIdentity(t.id, c.primaryKeys[t.id], values);
      Ok(EncodeIdentity(id))
    else if key[..8] != ToBE(t.id, 8) then Err(InvalidState)
    else Ok(EncodeLegacyKey(t.id, key))
  }

  // ---- what a key depends on -----------------------------------------------

  /** Two rows, each under its own definition, hold the same value in a column. */
  predicate SameAt(t: Table, row: seq<Value>, u: Table, other: seq<Value>, id: ColumnId) {
    Lookup(t, row, id) == Lookup(u, other, id)
  }

  lemma {:induction false} EvaluateKeyDepends(fp: FloatUnit, t: Table, row: seq<Value>, u: Table, other: seq<Value>, e: Expression)
    requires AllStorable(row) && AllStorable(other)
    requires forall id :: id in ExpressionColumns(e) ==> SameAt(t, row, u, other, id)
    ensures EvaluateKey(fp, t, e, row) == EvaluateKey(fp, u, e, other)
  {
    hide Lookup, Arithmetic;
    match e
    case Reference(id) => assert SameAt(t, row, u, other, id);
    case Combine(left, op, right) =>
      EvaluateKeyDepends(fp, t, row, u, other, left);
      EvaluateKeyDepends(fp, t, row, u, other, right);
  }

  lemma {:induction false} KeyValuesDepend(fp: FloatUnit, t: Table, row: seq<Value>, u: Table, other: seq<Value>, parts: seq<KeyPart>)
    requires AllStorable(row) && AllStorable(other)
    requires forall id :: id in KeyColumns(parts) ==> SameAt(t, row, u, other, id)
    ensures KeyValues(fp, t, parts, row) == KeyValues(fp, u, parts, other)
  {
    hide Lookup, EvaluateKey;
    if parts != [] {
      assert forall id :: id in PartColumns(parts[0]) ==> id in KeyColumns(parts);
      assert forall id :: id in KeyColumns(parts[1..]) ==> id in KeyColumns(parts);
      match parts[0] {
        case Plain(id) => assert SameAt(t, row, u, other, id);
        case Computed(e) => EvaluateKeyDepends(fp, t, row, u, other, e);
      }
      KeyValuesDepend(fp, t, row, u, other, parts[1..]);
    }
  }

  lemma {:induction false} SatisfiesDepends(t: Table, row: seq<Value>, u: Table, other: seq<Value>, terms: seq<(ColumnId, Value)>)
    requires forall i :: 0 <= i < |terms| ==> SameAt(t, row, u, other, terms[i].0)
    ensures Satisfies(t, terms, row) == Satisfies(u, terms, other)
  {
    hide Lookup, SqlEq;
    if terms != [] {
      assert SameAt(t, row, u, other, terms[0].0);
      SatisfiesDepends(t, row, u, other, terms[1..]);
    }
  }

  /** The key of a row under an index depends only on the columns the index mentions. */
  lemma IndexKeyDepends(fp: FloatUnit, t: Table, row: seq<Value>, u: Table, other: seq<Value>, index: Index)
    requires AllStorable(row) && AllStorable(other)
    requires forall id :: Mentions(index, id) ==> SameAt(t, row, u, other, id)
    ensures IndexKey(fp, t, index, row) == IndexKey(fp, u, index, other)
  {
    hide Lookup, KeyValues, Satisfies, CompositeKey;
    forall id | id in KeyColumns(index.parts) ensures SameAt(t, row, u, other, id) {
      assert Mentions(index, id);
    }
    KeyValuesDepend(fp, t, row, u, other, index.parts);
    if index.filter.Some? {
      forall i | 0 <= i < |index.filter.value| ensures SameAt(t, row, u, other, index.filter.value[i].0) {
        assert Mentions(index, index.filter.value[i].0);
      }
      SatisfiesDepends(t, row, u, other, index.filter.value);
    }
  }

  lemma {:induction false} LookupAllDepends(t: Table, row: seq<Value>, u: Table, other: seq<Value>, ids: seq<ColumnId>)
    requires forall i :: 0 <= i < |ids| ==> SameAt(t, row, u, other, ids[i])
    ensures LookupAll(t, row, ids) == LookupAll(u, other, ids)
  {
    hide Lookup;
    if ids != [] {
      assert SameAt(t, row, u, other, ids[0]);
      LookupAllDepends(t, row, u, other, ids[1..]);
    }
  }

  // ---- how computing a key can fail ----------------------------------------

  predicate IsKeyError(e: Error) {
    e == InvalidState || e == OutOfRange || e == DivisionByZero || e == Unsupported
  }

  lemma DecimalErrors(op: Operator, l: Decimal, r: Decimal)
    requires Evaluate(op, l, r).Err?
    ensures IsKeyError(Evaluate(op, l, r).error)
  {
    hide Digits, Pow10, RoundDown, Div0, Rem0;
  }

  lemma {:induction false} EvaluateKeyErrors(fp: FloatUnit, t: Table, e: Expression, row: seq<Value>)
    requires AllStorable(row) && EvaluateKey(fp, t, e, row).Err?
    ensures IsKeyError(EvaluateKey(fp, t, e, row).error)
  {
    hide Evaluate, Digits;
    if e.Combine? {
      var l, r := EvaluateKey(fp, t, e.left, row), EvaluateKey(fp, t, e.right, row);
      if l.Err? {
        EvaluateKeyErrors(fp, t, e.left, row);
      } else if r.Err? {
        EvaluateKeyErrors(fp, t, e.right, row);
      } else {
        ArithmeticErrors(fp, KeyOperation(e.op), l.value.value, r.value.value);
      }
    }
  }

  lemma ArithmeticErrors(fp: FloatUnit, op: Operator, l: Value, r: Value)
    requires Arithmetic(fp, op, l, r).Err?
    ensures IsKeyError(Arithmetic(fp, op, l, r).error)
  {
    hide Evaluate, Digits, Div0, Rem0;
    if !l.Null? && !r.Null? && IsNumber(l) && IsNumber(r) && !l.Float? && !r.Float? && (l.Numeric? || r.Numeric?) {
      if ToDecimal(l).Ok? && ToDecimal(r).Ok? {
        DecimalErrors(op, ToDecimal(l).value, ToDecimal(r).value);
      }
    }
  }

  lemma {:induction false} KeyValuesErrors(fp: FloatUnit, t: Table, parts: seq<KeyPart>, row: seq<Value>)
    requires AllStorable(row) && KeyValues(fp, t, parts, row).Err?
    ensures IsKeyError(KeyValues(fp, t, parts, row).error)
  {
    hide EvaluateKey;
    if PartValue(fp, t, parts[0], row).Err? {
      if parts[0].Computed? {
        EvaluateKeyErrors(fp, t, parts[0].expression, row);
      }
    } else {
      KeyValuesErrors(fp, t, parts[1..], row);
    }
  }

  lemma {:induction false} SatisfiesErrors(t: Table, terms: seq<(ColumnId, Value)>, row: seq<Value>)
    requires Satisfies(t, terms, row).Err?
    ensures IsKeyError(Satisfies(t, terms, row).error)
  {
    hide SqlEq;
    if Lookup(t, row, terms[0].0).Ok? {
      SatisfiesErrors(t, terms[1..], row);
    }
  }

  /** A key that cannot be computed is an arithmetic or definition error, never a violation. */
  lemma KeyErrors(fp: FloatUnit, t: Table, index: Index, row: seq<Value>)
    requires AllStorable(row) && IndexKey(fp, t, index, row).Err?
    ensures IsKeyError(IndexKey(fp, t, index, row).error)
  {
    hide Satisfies, KeyValues;
    if index.filter.Some? && Satisfies(t, index.filter.value, row).Err? {
      SatisfiesErrors(t, index.filter.value, row);
    } else {
      KeyValuesErrors(fp, t, index.parts, row);
    }
  }
}
