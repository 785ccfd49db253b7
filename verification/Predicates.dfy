/** WHERE clauses over one table: three-valued truth, comparison of values across types, and
    the conversion of literals toward the type of the column they are compared with. */
module Predicates {
  import opened Common
  import opened Bytes
  import opened Decimals
  import opened Values
  import opened Catalogs
  import opened RowKeys

  datatype Truth = True | False | Unknown {
    function Not(): Truth {
      match this
      case True => False
      case False => True
      case Unknown => Unknown
    }

    function And(other: Truth): Truth {
      if this == False || other == False then False
      else if this == Unknown || other == Unknown then Unknown
      else True
    }

    function Or(other: Truth): Truth {
      if this == True || other == True then True
      else if this == Unknown || other == Unknown then Unknown
      else False
    }
  }

  datatype Comparison = Eq | NotEq | Lt | LtEq | Gt | GtEq

  /** One side of a comparison: a column name, a literal or parameter (which may be
      malformed), or an expression computed from the row. */
  datatype Operand = Named(name: Name) | Literal(literal: Result<Value>) | Computed(id: nat)

  datatype Predicate =
    | Nested(inner: Predicate)
    | Both(left: Predicate, right: Predicate)
    | Either(left: Predicate, right: Predicate)
    | Negated(inner: Predicate)
    | Compare(op: Comparison, lhs: Operand, rhs: Operand)
    | Other(id: nat)

  /** What predicates are evaluated with: float conversions, the parsers of text literals,
      and the meaning of the forms that are not spelled out here. */
  datatype Meaning = Meaning(fp: FloatUnit,
                             parse: (Utf8, ColumnType) -> Result<Value>,
                             computed: (nat, seq<Value>) -> Result<Value>,
                             other: (nat, seq<Value>) -> Result<Truth>)

  // ---- order of values -----------------------------------------------------

  function LexCompare(a: ByteString, b: ByteString): (o: Ordering)
    ensures o == Equal <==> a == b
  {
    if a == [] then (if b == [] then Equal else Less)
    else if b == [] then Greater
    else if a[0] != b[0] then CompareInts(a[0], b[0])
    else
      var o := LexCompare(a[1..], b[1..]);
      assert a == [a[0]] + a[1..] && b == [b[0]] + b[1..];
      o
  }

  function TruthInt(t: bool): int {
    if t then 1 else 0
  }

  /** The order of two values, nothing when they do not compare. */
  function Order(fp: FloatUnit, l: Value, r: Value): Option<Ordering> {
    match (l, r)
    case (Null, _) => None
    case (_, Null) => None
    case (Int(a), Int(b)) => Some(CompareInts(a, b))
    case (UInt(a), UInt(b)) => Some(CompareInts(a, b))
    case (Int(a), UInt(b)) => Some(if a < 0 then Less else CompareInts(a, b))
    case (UInt(a), Int(b)) => Some(if b < 0 then Greater else CompareInts(a, b))
    case (Boolean(a), Boolean(b)) => Some(CompareInts(TruthInt(a), TruthInt(b)))
    case (Blob(a), Blob(b)) => Some(LexCompare(a, b))
    case (Text(a), Text(b)) => Some(LexCompare(a, b))
    case (Float(a), Float(b)) => Some(FloatOrder(a, b))
    case (Date(a), Date(b)) => Some(CompareInts(a, b))
    case (Timestamp(a), Timestamp(b)) => Some(CompareInts(a, b))
    case (Numeric(a), Numeric(b)) => Some(Decimals.Compare(a, b))
    case (Uuid(a), Uuid(b)) => Some(LexCompare(a, b))
    case (Int(a), Numeric(b)) => Some(CompareScaled(a, b))
    case (Numeric(a), Int(b)) => Some(Reverse(CompareScaled(b, a)))
    case (UInt(a), Numeric(b)) => Some(CompareScaled(a, b))
    case (Numeric(a), UInt(b)) => Some(Reverse(CompareScaled(b, a)))
    case (Numeric(a), Float(b)) => Some(FloatOrder(fp.ofDecimal(a), b))
    case (Float(a), Numeric(b)) => Some(FloatOrder(a, fp.ofDecimal(b)))
    case (Int(a), Float(b)) => Some(FloatOrder(fp.ofInt(a), b))
    case (Float(a), Int(b)) => Some(FloatOrder(a, fp.ofInt(b)))
    case (UInt(a), Float(b)) => Some(FloatOrder(fp.ofInt(a), b))
    case (Float(a), UInt(b)) => Some(FloatOrder(a, fp.ofInt(b)))
    case _ => None
  }

  function Decide(o: Option<Ordering>, op: Comparison): Truth {
    if o.None? then Unknown
    else
      var holds := match op
                   case Eq => o.value == Equal
                   case NotEq => o.value != Equal
                   case Lt => o.value == Less
                   case LtEq => o.value != Greater
                   case Gt => o.value == Greater
                   case GtEq => o.value != Less;
      if holds then True else False
  }

  // ---- conversion of literals ----------------------------------------------

  /** Convert a value to a column's type, as for input. */
  function Converted(m: Meaning, v: Value, kind: ColumnType): Result<Value> {
    match (v, kind)
    case (Int(i), U64Type) => if i < 0 then Err(OutOfRange) else Ok(UInt(i))
    case (UInt(n), I64Type) => if n >= 0x8000_0000_0000_0000 then Err(OutOfRange) else Ok(Int(n))
    case (Int(i), FloatType) => Ok(Float(m.fp.ofInt(i)))
    case (Numeric(d), FloatType) => Ok(Float(m.fp.ofDecimal(d)))
    case (UInt(n), FloatType) => Ok(Float(m.fp.ofInt(n)))
    case (Int(i), DecimalType) => (match New(i, 0) case Ok(d) => Ok(Numeric(d)) case Err(_) => Err(OutOfRange))
    case (UInt(n), DecimalType) => (match New(n, 0) case Ok(d) => Ok(Numeric(d)) case Err(_) => Err(OutOfRange))
    case (Text(t), FloatType) => m.parse(t, kind)
    case (Text(t), DateType) => m.parse(t, kind)
    case (Text(t), TimestampType) => m.parse(t, kind)
    case (Text(t), DecimalType) => m.parse(t, kind)
    case (Text(t), UuidType) => m.parse(t, kind)
    case (Text(t), BytesType) => m.parse(t, kind)
    case _ => Ok(v)
  }

  function Coerce(m: Meaning, v: Value, column: Column): (r: Result<Value>)
    ensures r.Ok? ==> HasType(r.value, column.kind)
  {
    var c :- Converted(m, v, column.kind);
    if c.Null? && !column.nullable then Err(InvalidState)
    else if !HasType(c, column.kind) then Err(TypeMismatch)
    else Ok(c)
  }

  /** The conversions a comparison makes: fewer than input does. */
  predicate ComparisonConverts(v: Value, kind: ColumnType) {
    || (v.Text? && (kind == DateType || kind == TimestampType || kind == DecimalType || kind == FloatType || kind == UuidType))
    || ((v.Int? || v.UInt?) && (kind == DecimalType || kind == FloatType))
  }

  /** A compared operand moves toward the type of the other side; if it cannot, it stays. */
  function CoerceOperand(m: Meaning, v: Value, target: Option<ColumnType>): Value {
    if target.None? || !ComparisonConverts(v, target.value) then v
    else match Coerce(m, v, Column(0, [], target.value, true))
         case Ok(c) => c
         case Err(_) => v
  }

  // ---- evaluation ----------------------------------------------------------

  function NamedPosition(columns: seq<Column>, name: Name): (p: Option<nat>)
    ensures p.Some? ==> p.value < |columns|
  {
    if columns == [] then None
    else if columns[0].name == name then Some(0)
    else match NamedPosition(columns[1..], name)
         case None => None
         case Some(p) => Some(p + 1)
  }

  /** The column an operand names, if it names one of the table. */
  function ColumnPosition(t: Table, o: Operand): (p: Option<nat>)
    ensures p.Some? ==> p.value < |t.columns|
  {
    if o.Named? then NamedPosition(t.columns, o.name) else None
  }

  function LiteralValue(o: Operand): Result<Value> {
    if o.Literal? then o.literal else Err(Unsupported)
  }

  function EvaluateOperand(m: Meaning, t: Table, row: seq<Value>, o: Operand): Result<Value> {
    match o
    case Named(_) =>
      (match ColumnPosition(t, o)
       case None => Err(InvalidState)
       case Some(p) => if p < |row| then Ok(row[p]) else Err(InvalidState))
    case Literal(v) => v
    case Computed(id) => m.computed(id, row)
  }

  function KindOf(t: Table, o: Operand): Option<ColumnType> {
    match ColumnPosition(t, o)
    case None => None
    case Some(p) => Some(t.columns[p].kind)
  }

  function EvaluateComparison(m: Meaning, t: Table, row: seq<Value>, op: Comparison, lhs: Operand, rhs: Operand): Result<Truth> {
    var l :- EvaluateOperand(m, t, row, lhs);
    var r :- EvaluateOperand(m, t, row, rhs);
    Ok(Decide(Order(m.fp, CoerceOperand(m, l, KindOf(t, rhs)), CoerceOperand(m, r, KindOf(t, lhs))), op))
  }

  function Evaluate(m: Meaning, t: Table, row: seq<Value>, p: Predicate): Result<Truth> {
    match p
    case Nested(inner) => Evaluate(m, t, row, inner)
    case Negated(inner) =>
      var x :- Evaluate(m, t, row, inner);
      Ok(x.Not())
    case Both(left, right) =>
      var x :- Evaluate(m, t, row, left);
      var y :- Evaluate(m, t, row, right);
      Ok(x.And(y))
    case Either(left, right) =>
      var x :- Evaluate(m, t, row, left);
      var y :- Evaluate(m, t, row, right);
      Ok(x.Or(y))
    case Compare(op, lhs, rhs) => EvaluateComparison(m, t, row, op, lhs, rhs)
    case Other(id) => m.other(id, row)
  }

  /** The row belongs to the result. */
  predicate Selects(m: Meaning, t: Table, row: seq<Value>, p: Predicate) {
    Evaluate(m, t, row, p) == Ok(True)
  }

  // ---- equality ------------------------------------------------------------

  lemma FloatOrderEqual(a: u64, b: u64)
    ensures FloatOrder(a, b) == Equal <==> FloatEq(a, b)
  {
  }

  lemma SqlEqSymmetric(a: Value, b: Value)
    ensures SqlEq(a, b) <==> SqlEq(b, a)
  {
    hide SqlEq, Canonical;
    CanonicalDecidesEquality(a, b);
    CanonicalDecidesEquality(b, a);
  }

  lemma SqlEqTransitive(a: Value, b: Value, c: Value)
    requires SqlEq(a, b) && SqlEq(b, c)
    ensures SqlEq(a, c)
  {
    hide SqlEq, Canonical;
    CanonicalDecidesEquality(a, b);
    CanonicalDecidesEquality(b, c);
    CanonicalDecidesEquality(a, c);
  }

  /** Values of one type compare equal exactly when they are equal in SQL. */
  lemma OrderEqualIffSqlEq(fp: FloatUnit, a: Value, b: Value, kind: ColumnType)
    requires HasType(a, kind) && HasType(b, kind) && !a.Null? && !b.Null?
    ensures Order(fp, a, b) == Some(Equal) <==> SqlEq(a, b)
  {
    hide Decimals.Compare, FloatOrder, FloatEq, CompareScaled;
    if a.Float? {
      FloatOrderEqual(a.float, b.float);
    }
  }

  /** A column value that a comparison finds equal to a literal, in either position, is equal
      in SQL to what the literal becomes as input for the column. */
  lemma ComparedEqual(m: Meaning, v: Value, literal: Value, column: Column, c: Value)
    requires HasType(v, column.kind) && Coerce(m, literal, column) == Ok(c)
    requires var moved := CoerceOperand(m, literal, Some(column.kind));
             Order(m.fp, v, moved) == Some(Equal) || Order(m.fp, moved, v) == Some(Equal)
    ensures !v.Null? && !c.Null? && SqlEq(v, c)
  {
    hide Decimals.Compare, FloatOrder, FloatEq, CompareScaled, SqlEq, Digits, LexCompare;
    var moved := CoerceOperand(m, literal, Some(column.kind));
    if ComparisonConverts(literal, column.kind) {
      assert moved == c;
      OrderBothWays(m, v, c, column.kind);
    } else if literal.Numeric? && column.kind == FloatType {
      FloatOrderEqual(v.float, c.float);
      FloatOrderEqual(c.float, v.float);
      FloatEqBothWays(v, c);
    } else if HasType(literal, column.kind) {
      assert moved == c;
      OrderBothWays(m, v, c, column.kind);
    } else {
      IntegersEqual(m, v, literal, column, c);
    }
  }

  lemma OrderBothWays(m: Meaning, v: Value, c: Value, kind: ColumnType)
    requires HasType(v, kind) && HasType(c, kind) && (Order(m.fp, v, c) == Some(Equal) || Order(m.fp, c, v) == Some(Equal))
    ensures !v.Null? && !c.Null? && SqlEq(v, c)
  {
    hide SqlEq, HasType, Decimals.Compare, FloatOrder, CompareScaled, LexCompare;
    assert !v.Null? && !c.Null?;
    OrderEqualIffSqlEq(m.fp, v, c, kind);
    OrderEqualIffSqlEq(m.fp, c, v, kind);
    SqlEqSymmetric(v, c);
  }

  lemma FloatEqBothWays(v: Value, c: Value)
    requires v.Float? && c.Float? && (FloatEq(v.float, c.float) || FloatEq(c.float, v.float))
    ensures SqlEq(v, c)
  {
  }

  lemma IntegersEqual(m: Meaning, v: Value, literal: Value, column: Column, c: Value)
    requires HasType(v, column.kind) && Coerce(m, literal, column) == Ok(c)
    requires !ComparisonConverts(literal, column.kind) && !HasType(literal, column.kind) && !(literal.Numeric? && column.kind == FloatType)
    requires Order(m.fp, v, literal) == Some(Equal) || Order(m.fp, literal, v) == Some(Equal)
    ensures !v.Null? && !c.Null? && SqlEq(v, c)
  {
    hide Decimals.Compare, FloatOrder, FloatEq, CompareScaled, Digits, LexCompare;
  }
}
