/** Column values: SQL equality, the byte encoding used in rows, and the canonical
    encoding used in row identities and index keys. */
module Values {
  import opened Common
  import opened Bytes
  import opened Decimals

  datatype ColumnType =
    BytesType | BoolType | I64Type | U64Type | TextType | FloatType | DateType | TimestampType | DecimalType | UuidType

  /** The bytes of a text value. */
  type Utf8 = b: ByteString | ValidUtf8(b) witness []

  type Bits128 = b: ByteString | |b| == 16 witness [0, 0, 0, 0, 0, 0, 0, 0, 0, 0, 0, 0, 0, 0, 0, 0]

  /** A value. Text is held as its UTF-8 bytes and a float as its 64 bits. */
  datatype Value =
    | Null
    | Blob(bytes: ByteString)
    | Boolean(truth: bool)
    | Int(i: i64)
    | UInt(n: u64)
    | Text(utf8: Utf8)
    | Float(float: u64)
    | Date(days: i32)
    | Timestamp(micros: i64)
    | Numeric(decimal: Decimal)
    | Uuid(bits: Bits128)

  predicate HasType(v: Value, t: ColumnType) {
    match v
    case Null => true
    case Blob(_) => t == BytesType
    case Boolean(_) => t == BoolType
    case Int(_) => t == I64Type
    case UInt(_) => t == U64Type
    case Text(_) => t == TextType
    case Float(_) => t == FloatType
    case Date(_) => t == DateType
    case Timestamp(_) => t == TimestampType
    case Numeric(_) => t == DecimalType
    case Uuid(_) => t == UuidType
  }

  // ---- text and floats -----------------------------------------------------

  predicate Continues(b: ByteString, i: nat) {
    i < |b| && 0x80 <= b[i] < 0xC0
  }

  /** The width of the UTF-8 sequence at the head of `b`; zero when it is malformed. */
  function Utf8Width(b: ByteString): (w: nat)
    requires b != []
    ensures w <= |b|
  {
    var h := b[0];
    if h < 0x80 then 1
    else if 0xC2 <= h < 0xE0 && Continues(b, 1) then 2
    else if 0xE0 <= h < 0xF0 && Continues(b, 1) && Continues(b, 2)
            && (h == 0xE0 ==> b[1] >= 0xA0) && (h == 0xED ==> b[1] < 0xA0) then 3
    else if 0xF0 <= h < 0xF5 && Continues(b, 1) && Continues(b, 2) && Continues(b, 3)
            && (h == 0xF0 ==> b[1] >= 0x90) && (h == 0xF4 ==> b[1] < 0x90) then 4
    else 0
  }

  predicate ValidUtf8(b: ByteString) {
    b == [] || (Utf8Width(b) > 0 && ValidUtf8(b[Utf8Width(b)..]))
  }

  const SIGN: nat := 0x8000_0000_0000_0000
  const QUIET_NAN: u64 := 0x7FF8_0000_0000_0000

  predicate IsNan(bits: u64) {
    bits % SIGN > 0x7FF0_0000_0000_0000
  }

  predicate IsZero(bits: u64) {
    bits % SIGN == 0
  }

  function CanonicalBits(bits: u64): u64 {
    if IsZero(bits) then 0 else if IsNan(bits) then QUIET_NAN else bits
  }

  /** Equality of floats: one NaN, one zero, otherwise the same number. */
  predicate FloatEq(a: u64, b: u64) {
    if IsNan(a) || IsNan(b) then IsNan(a) && IsNan(b)
    else a == b || (IsZero(a) && IsZero(b))
  }

  /** Position on the real line of a float that is not NaN, by sign and magnitude. */
  function Magnitude(bits: u64): int {
    if bits < SIGN then bits else SIGN - bits
  }

  function FloatOrder(a: u64, b: u64): Ordering {
    if IsNan(a) then (if IsNan(b) then Equal else Greater)
    else if IsNan(b) then Less
    else if IsZero(a) && IsZero(b) then Equal
    else CompareInts(Magnitude(a), Magnitude(b))
  }

  // ---- equality and canonical form -----------------------------------------

  /** The value can be written: its length fits the four-byte prefix. */
  predicate Storable(v: Value) {
    match v
    case Blob(b) => |b| < 0x1_0000_0000
    case Text(b) => |b| < 0x1_0000_0000
    case _ => true
  }

  predicate SqlEq(a: Value, b: Value) {
    match (a, b)
    case (Float(x), Float(y)) => FloatEq(x, y)
    case (Numeric(x), Numeric(y)) => Compare(x, y) == Equal
    case _ => a == b
  }

  function Canonical(v: Value): (c: Value)
    ensures Storable(v) ==> Storable(c)
    ensures c.Null? <==> v.Null?
  {
    match v
    case Float(bits) => Float(CanonicalBits(bits))
    case Numeric(d) => Numeric(Normal(d))
    case _ => v
  }

  lemma CanonicalDecidesEquality(a: Value, b: Value)
    ensures SqlEq(a, b) <==> Canonical(a) == Canonical(b)
  {
    if a.Numeric? && b.Numeric? {
      EqualIffSameNormal(a.decimal, b.decimal);
    }
  }

  // ---- encoding ------------------------------------------------------------

  function LengthPrefixed(b: ByteString): ByteString
    requires |b| < 0x1_0000_0000
  {
    Bounds();
    ToLE(|b|, 4) + b
  }

  function Tag(v: Value): (t: byte) {
    match v
    case Null => 0
    case Blob(_) => 1
    case Boolean(_) => 2
    case Int(_) => 3
    case UInt(_) => 4
    case Text(_) => 5
    case Float(_) => 6
    case Date(_) => 7
    case Timestamp(_) => 8
    case Numeric(_) => 9
    case Uuid(_) => 10
  }

  function Payload(v: Value): ByteString
    requires Storable(v)
  {
    Bounds();
    match v
    case Null => []
    case Blob(bytes) => LengthPrefixed(bytes)
    case Boolean(t) => [if t then 1 else 0]
    case Int(i) => ToLE(Unsigned(i, 8), 8)
    case UInt(n) => ToLE(n, 8)
    case Text(utf8) => LengthPrefixed(utf8)
    case Float(bits) => ToLE(bits, 8)
    case Date(days) => ToLE(Unsigned(days, 4), 4)
    case Timestamp(micros) => ToLE(Unsigned(micros, 8), 8)
    case Numeric(d) => ToLE(Unsigned(d.mantissa, 16), 16) + ToLE(d.scale, 4)
    case Uuid(bits) => bits
  }

  function Encode(v: Value): ByteString
    requires Storable(v)
  {
    [Tag(v)] + Payload(v)
  }

  /** The encoding of a value inside a row identity or an index key. */
  function KeyBytes(v: Value): ByteString
    requires Storable(v)
  {
    Encode(Canonical(v))
  }

  function ReadLE(b: ByteString, width: nat): (r: Option<(nat, ByteString)>)
    ensures r.Some? ==> r.value.0 < Bound(width)
    ensures r.Some? ==> ToLE(r.value.0, width) + r.value.1 == b
  {
    if |b| < width then None
    else
      LittleEndianReadBack(b[..width]);
      Some((FromLE(b[..width]), b[width..]))
  }

  lemma ReadLEWritten(n: nat, width: nat, rest: ByteString)
    requires n < Bound(width)
    ensures ReadLE(ToLE(n, width) + rest, width) == Some((n, rest))
  {
    var b := ToLE(n, width) + rest;
    LittleEndianRoundTrip(n, width);
    assert b[..width] == ToLE(n, width) && b[width..] == rest;
  }

  function ReadBlob(b: ByteString): (r: Option<(ByteString, ByteString)>)
    ensures r.Some? ==> |r.value.0| < 0x1_0000_0000 && LengthPrefixed(r.value.0) + r.value.1 == b
  {
    Bounds();
    match ReadLE(b, 4)
    case None => None
    case Some((length, tail)) =>
      if |tail| < length then None
      else
        assert tail[..length] + tail[length..] == tail;
        assert ToLE(length, 4) + (tail[..length] + tail[length..]) == LengthPrefixed(tail[..length]) + tail[length..];
        Some((tail[..length], tail[length..]))
  }

  lemma ReadBlobWritten(blob: ByteString, rest: ByteString)
    requires |blob| < 0x1_0000_0000
    ensures ReadBlob(LengthPrefixed(blob) + rest) == Some((blob, rest))
  {
    Bounds();
    assert LengthPrefixed(blob) + rest == ToLE(|blob|, 4) + (blob + rest);
    ReadLEWritten(|blob|, 4, blob + rest);
  }

  /** Read the payload of a value whose tag has been read. */
  function ReadPayload(tag: byte, b: ByteString): (r: Option<(Value, ByteString)>)
    ensures r.Some? ==> Storable(r.value.0) && Tag(r.value.0) == tag && |r.value.1| <= |b|
  {
    Bounds();
    match tag
    case 0 => Some((Null, b))
    case 1 => (match ReadBlob(b) case Some((x, rest)) => Some((Blob(x), rest)) case None => None)
    case 2 =>
      if b == [] || b[0] > 1 then None else Some((Boolean(b[0] == 1), b[1..]))
    case 3 => (match ReadLE(b, 8) case Some((n, rest)) => Some((Int(Signed(n, 8)), rest)) case None => None)
    case 4 => (match ReadLE(b, 8) case Some((n, rest)) => Some((UInt(n), rest)) case None => None)
    case 5 =>
      (match ReadBlob(b)
       case Some((x, rest)) => if ValidUtf8(x) then Some((Text(x), rest)) else None
       case None => None)
    case 6 => (match ReadLE(b, 8) case Some((n, rest)) => Some((Float(n), rest)) case None => None)
    case 7 => (match ReadLE(b, 4) case Some((n, rest)) => Some((Date(Signed(n, 4)), rest)) case None => None)
    case 8 => (match ReadLE(b, 8) case Some((n, rest)) => Some((Timestamp(Signed(n, 8)), rest)) case None => None)
    case 9 =>
      (match ReadLE(b, 16)
       case None => None
       case Some((n, tail)) =>
         match ReadLE(tail, 4)
         case None => None
         case Some((scale, rest)) =>
           if New(Signed(n, 16), scale).Ok? then Some((Numeric(Fixed(Signed(n, 16), scale)), rest)) else None)
    case 10 => if |b| < 16 then None else Some((Uuid(b[..16]), b[16..]))
    case _ => None
  }

  /** Read the value at the head of `b` and return what follows it. */
  function ReadValue(b: ByteString): (r: Option<(Value, ByteString)>)
    ensures r.Some? ==> Storable(r.value.0) && |r.value.1| < |b|
  {
    if b == [] then None else ReadPayload(b[0], b[1..])
  }

  lemma ReadDecimalWritten(d: Decimal, rest: ByteString)
    ensures ReadPayload(9, Payload(Numeric(d)) + rest) == Some((Numeric(d), rest))
  {
    hide ToLE, FromLE, Digits, Abs, ReadLE;
    Bounds();
    var m := Unsigned(d.mantissa, 16);
    assert Payload(Numeric(d)) + rest == ToLE(m, 16) + (ToLE(d.scale, 4) + rest);
    ReadLEWritten(m, 16, ToLE(d.scale, 4) + rest);
    ReadLEWritten(d.scale, 4, rest);
  }

  lemma ReadFixedWritten(v: Value, rest: ByteString)
    requires v.Int? || v.UInt? || v.Float? || v.Date? || v.Timestamp?
    ensures ReadPayload(Tag(v), Payload(v) + rest) == Some((v, rest))
  {
    Bounds();
    match v
    case Int(i) => ReadLEWritten(Unsigned(i, 8), 8, rest);
    case UInt(n) => ReadLEWritten(n, 8, rest);
    case Float(n) => ReadLEWritten(n, 8, rest);
    case Date(i) => ReadLEWritten(Unsigned(i, 4), 4, rest);
    case Timestamp(i) => ReadLEWritten(Unsigned(i, 8), 8, rest);
  }

  lemma ReadVariableWritten(v: Value, rest: ByteString)
    requires Storable(v) && (v.Blob? || v.Text?)
    ensures ReadPayload(Tag(v), Payload(v) + rest) == Some((v, rest))
  {
    ReadBlobWritten(if v.Blob? then v.bytes else v.utf8, rest);
  }

  lemma ReadPayloadWritten(v: Value, rest: ByteString)
    requires Storable(v)
    ensures ReadPayload(Tag(v), Payload(v) + rest) == Some((v, rest))
  {
    match v
    case Null => assert Payload(v) + rest == rest;
    case Boolean(_) => assert (Payload(v) + rest)[1..] == rest;
    case Numeric(d) => ReadDecimalWritten(d, rest);
    case Uuid(x) => assert (x + rest)[..16] == x && (x + rest)[16..] == rest;
    case Blob(_) => ReadVariableWritten(v, rest);
    case Text(_) => ReadVariableWritten(v, rest);
    case _ => ReadFixedWritten(v, rest);
  }

  /** A written value is read back, whatever follows it. */
  lemma ReadValueWritten(v: Value, rest: ByteString)
    requires Storable(v)
    ensures ReadValue(Encode(v) + rest) == Some((v, rest))
  {
    hide Payload, ReadPayload, Tag;
    ReadPayloadWritten(v, rest);
    assert (Encode(v) + rest)[1..] == Payload(v) + rest;
  }

  lemma ReadDecimalReadsBack(b: ByteString)
    requires ReadPayload(9, b).Some?
    ensures Payload(ReadPayload(9, b).value.0) + ReadPayload(9, b).value.1 == b
  {
    Bounds();
    var (n, tail) := ReadLE(b, 16).value;
    var (scale, rest) := ReadLE(tail, 4).value;
    assert ToLE(n, 16) + (ToLE(scale, 4) + rest) == (ToLE(n, 16) + ToLE(scale, 4)) + rest;
  }

  lemma ReadPayloadReadsBack(tag: byte, b: ByteString)
    requires ReadPayload(tag, b).Some?
    ensures Payload(ReadPayload(tag, b).value.0) + ReadPayload(tag, b).value.1 == b
  {
    if tag == 9 {
      ReadDecimalReadsBack(b);
    }
  }

  /** Bytes that are read as a value are that value's encoding. */
  lemma ReadValueReadsBack(b: ByteString)
    requires ReadValue(b).Some?
    ensures Encode(ReadValue(b).value.0) + ReadValue(b).value.1 == b
    ensures ReadValue(b).value.1 == b[|b| - |ReadValue(b).value.1|..]
  {
    hide Payload, ReadPayload, Tag;
    var (v, rest) := ReadValue(b).value;
    ReadPayloadReadsBack(b[0], b[1..]);
    assert [b[0]] + (Payload(v) + rest) == Encode(v) + rest;
  }

  // ---- composite keys ------------------------------------------------------

  predicate AllStorable(vs: seq<Value>) {
    forall i :: 0 <= i < |vs| ==> Storable(vs[i])
  }

  predicate AllSqlEq(xs: seq<Value>, ys: seq<Value>) {
    |xs| == |ys| && forall i :: 0 <= i < |xs| ==> SqlEq(xs[i], ys[i])
  }

  /** The bytes of an index key: the canonical encodings one after the other. */
  function CompositeKey(vs: seq<Value>): ByteString
    requires AllStorable(vs)
  {
    if vs == [] then [] else KeyBytes(vs[0]) + CompositeKey(vs[1..])
  }

  /** Composite keys of equally many values are the same bytes exactly when the values
      are equal in SQL, one by one. */
  lemma {:induction false} CompositeKeyDecidesEquality(xs: seq<Value>, ys: seq<Value>)
    requires AllStorable(xs) && AllStorable(ys) && |xs| == |ys|
    ensures CompositeKey(xs) == CompositeKey(ys) <==> AllSqlEq(xs, ys)
  {
    hide ReadValue, Encode, Canonical, SqlEq, Storable;
    if xs != [] {
      var x, y := xs[0], ys[0];
      var xr, yr := CompositeKey(xs[1..]), CompositeKey(ys[1..]);
      CompositeKeyDecidesEquality(xs[1..], ys[1..]);
      CanonicalDecidesEquality(x, y);
      ReadValueWritten(Canonical(x), xr);
      ReadValueWritten(Canonical(y), yr);
      assert AllSqlEq(xs, ys) <==> SqlEq(x, y) && AllSqlEq(xs[1..], ys[1..]) by {
        assert forall i :: 1 <= i < |xs| ==> xs[i] == xs[1..][i - 1] && ys[i] == ys[1..][i - 1];
        if SqlEq(x, y) && AllSqlEq(xs[1..], ys[1..]) {
          forall i | 0 <= i < |xs| ensures SqlEq(xs[i], ys[i]) {
            if i > 0 {
              assert SqlEq(xs[1..][i - 1], ys[1..][i - 1]);
            }
          }
        }
        if AllSqlEq(xs, ys) {
          forall i | 0 <= i < |xs| - 1 ensures SqlEq(xs[1..][i], ys[1..][i]) {
            assert SqlEq(xs[i + 1], ys[i + 1]);
          }
        }
      }
    }
  }
}
