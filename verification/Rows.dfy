/** The bytes of stored rows and of row identities. */
module Rows {
  import opened Common
  import opened Bytes
  import opened Values

  const ROW_HEADER: ByteString := [0x44, 0x42, 0x52, 0x57, 1] // "DBRW", version 1
  const IDENTITY_HEADER: ByteString := [0x44, 0x42, 0x52, 0x49, 1] // "DBRI", version 1
  const MAX_COMPONENTS := 256

  // ---- rows ----------------------------------------------------------------

  function EncodeAll(vs: seq<Value>): (b: ByteString)
    requires AllStorable(vs)
    ensures |b| >= |vs|
  {
    if vs == [] then [] else Encode(vs[0]) + EncodeAll(vs[1..])
  }

  function EncodeRow(vs: seq<Value>): Result<ByteString> {
    Bounds();
    if |vs| >= 0x1_0000_0000 then Err(InvalidState)
    else if !AllStorable(vs) then Err(ValueTooLarge)
    else Ok(ROW_HEADER + ToLE(|vs|, 4) + EncodeAll(vs))
  }

  /** Read `count` values; nothing when the bytes run out or hold an unknown tag. */
  function ReadValues(count: nat, b: ByteString): (r: Option<(seq<Value>, ByteString)>)
    ensures r.Some? ==> |r.value.0| == count && AllStorable(r.value.0)
  {
    if count == 0 then Some(([], b))
    else match ReadValue(b)
         case None => None
         case Some((v, tail)) =>
           match ReadValues(count - 1, tail)
           case None => None
           case Some((vs, rest)) => Some(([v] + vs, rest))
  }

  function DecodeRow(b: ByteString): (r: Result<seq<Value>>)
  {
    if |b| < 9 || b[..5] != ROW_HEADER then Err(Corruption)
    else
      var count := FromLE(b[5..9]);
      if count > |b| then Err(Corruption)
      else match ReadValues(count, b[9..])
           case Some((vs, rest)) => if rest == [] then Ok(vs) else Err(Corruption)
           case None => Err(Corruption)
  }

  /** The decoding loop: one tag and value at a time, advancing a cursor. */
  method DecodeRowBytes(b: ByteString) returns (r: Result<seq<Value>>)
    ensures r == DecodeRow(b)
  {
    hide ReadValue;
    if |b| < 9 || b[..5] != ROW_HEADER {
      return Err(Corruption);
    }
    var count := FromLE(b[5..9]);
    if count > |b| {
      return Err(Corruption);
    }
    var cursor, values, i := 9, [], 0;
    PrependNothing(ReadValues(count, b[9..]));
    while i < count
      invariant 0 <= i <= count && 9 <= cursor <= |b|
      invariant ReadValues(count, b[9..]) == Prepend(values, ReadValues(count - i, b[cursor..]))
    {
      match ReadValue(b[cursor..]) {
        case None => return Err(Corruption);
        case Some((v, rest)) =>
          NextValue(b, cursor, count - i);
          PrependAssociates(values, v, ReadValues(count - i - 1, rest));
          cursor := |b| - |rest|;
          values := values + [v];
      }
      i := i + 1;
    }
    assert values + [] == values;
    r := if cursor == |b| then Ok(values) else Err(Corruption);
  }

  lemma NextValue(b: ByteString, cursor: nat, count: nat)
    requires cursor <= |b| && count > 0 && ReadValue(b[cursor..]).Some?
    ensures var (v, rest) := ReadValue(b[cursor..]).value;
            && rest == b[|b| - |rest|..]
            && ReadValues(count, b[cursor..]) == Prepend([v], ReadValues(count - 1, rest))
  {
    hide ReadValue;
    ReadValueReadsBack(b[cursor..]);
  }

  lemma PrependNothing(r: Option<(seq<Value>, ByteString)>)
    ensures Prepend([], r) == r
  {
    if r.Some? {
      assert [] + r.value.0 == r.value.0;
    }
  }

  function Prepend(vs: seq<Value>, r: Option<(seq<Value>, ByteString)>): Option<(seq<Value>, ByteString)> {
    match r
    case None => None
    case Some((tail, rest)) => Some((vs + tail, rest))
  }

  lemma PrependAssociates(vs: seq<Value>, v: Value, r: Option<(seq<Value>, ByteString)>)
    ensures Prepend(vs, Prepend([v], r)) == Prepend(vs + [v], r)
  {
    if r.Some? {
      assert vs + ([v] + r.value.0) == (vs + [v]) + r.value.0;
    }
  }

  lemma {:induction false} ReadValuesWritten(vs: seq<Value>, rest: ByteString)
    requires AllStorable(vs)
    ensures ReadValues(|vs|, EncodeAll(vs) + rest) == Some((vs, rest))
  {
    hide ReadValue, Encode;
    if vs == [] {
      assert EncodeAll(vs) + rest == rest;
    } else {
      var head, tail := Encode(vs[0]), EncodeAll(vs[1..]);
      ReadValuesWritten(vs[1..], rest);
      ReadValueWritten(vs[0], tail + rest);
      assert head + tail + rest == head + (tail + rest);
      assert [vs[0]] + vs[1..] == vs;
    }
  }

  lemma {:induction false} ReadValuesReadsBack(count: nat, b: ByteString)
    requires ReadValues(count, b).Some?
    ensures EncodeAll(ReadValues(count, b).value.0) + ReadValues(count, b).value.1 == b
  {
    hide ReadValue, Encode;
    var (vs, rest) := ReadValues(count, b).value;
    if count == 0 {
      assert EncodeAll(vs) + rest == rest;
    } else {
      var (v, tail) := ReadValue(b).value;
      ReadValueReadsBack(b);
      ReadValuesReadsBack(count - 1, tail);
      assert vs[0] == v && vs[1..] == ReadValues(count - 1, tail).value.0;
      assert Encode(v) + (EncodeAll(vs[1..]) + rest) == (Encode(v) + EncodeAll(vs[1..])) + rest;
    }
  }

  /** Every row that can be written is read back unchanged. */
  lemma RowRoundTrip(vs: seq<Value>)
    requires EncodeRow(vs).Ok?
    ensures DecodeRow(EncodeRow(vs).value) == Ok(vs)
  {
    hide ReadValue, Encode, ReadValues, EncodeAll, ReadComponents, EncodeComponents, Canonical;
    Bounds();
    var b := EncodeRow(vs).value;
    assert b[..5] == ROW_HEADER;
    assert b[5..9] == ToLE(|vs|, 4);
    LittleEndianRoundTrip(|vs|, 4);
    assert b[9..] == EncodeAll(vs) + [];
    ReadValuesWritten(vs, []);
  }

  /** Bytes that are read as a row are that row's encoding. */
  lemma RowReadsBack(b: ByteString)
    requires DecodeRow(b).Ok?
    ensures EncodeRow(DecodeRow(b).value) == Ok(b)
  {
    hide ReadValue, Encode, ReadValues, EncodeAll, ReadComponents, EncodeComponents, Canonical;
    Bounds();
    var count := FromLE(b[5..9]);
    LittleEndianReadBack(b[5..9]);
    ReadValuesReadsBack(count, b[9..]);
    var vs := DecodeRow(b).value;
    assert EncodeAll(vs) + [] == EncodeAll(vs);
    assert b == b[..5] + b[5..9] + b[9..];
  }

  // ---- identities ----------------------------------------------------------

  /** The identity of a row: its table and its primary-key components in order. */
  datatype Identity = Identity(table: u64, columns: seq<u16>, values: seq<Value>) {
    predicate Valid() {
      && 0 < |columns| == |values| <= MAX_COMPONENTS
      && (forall i, j :: 0 <= i < j < |columns| ==> columns[i] != columns[j])
      && (forall i :: 0 <= i < |values| ==> !values[i].Null?)
    }
  }

  function NewIdentity(table: u64, columns: seq<u16>, values: seq<Value>): (r: Result<Identity>)
    ensures r.Ok? <==> Identity(table, columns, values).Valid()
    ensures r.Ok? ==> r.value == Identity(table, columns, values)
  {
    if Identity(table, columns, values).Valid() then Ok(Identity(table, columns, values)) else Err(InvalidState)
  }

  function EncodeComponents(columns: seq<u16>, values: seq<Value>): ByteString
    requires |columns| == |values| && AllStorable(values)
  {
    Bounds();
    if columns == [] then []
    else ToLE(columns[0], 2) + KeyBytes(values[0]) + EncodeComponents(columns[1..], values[1..])
  }

  function EncodeIdentity(id: Identity): ByteString
    requires id.Valid() && AllStorable(id.values)
  {
    Bounds();
    IDENTITY_HEADER + ToLE(id.table, 8) + ToLE(|id.columns|, 4) + EncodeComponents(id.columns, id.values)
  }

  function ReadComponents(count: nat, b: ByteString): (r: Option<(seq<u16>, seq<Value>, ByteString)>)
    ensures r.Some? ==> |r.value.0| == |r.value.1| == count
  {
    Bounds();
    if count == 0 then Some(([], [], b))
    else match ReadLE(b, 2)
         case None => None
         case Some((column, tail)) =>
           match ReadValue(tail)
           case None => None
           case Some((v, tail2)) =>
             if v.Null? then None
             else match ReadComponents(count - 1, tail2)
                  case None => None
                  case Some((columns, values, rest)) => Some(([column] + columns, [v] + values, rest))
  }

  function DecodeIdentity(b: ByteString): (r: Result<Identity>)
    ensures r.Ok? ==> r.value.Valid()
  {
    Bounds();
    if |b| < 17 || b[..5] != IDENTITY_HEADER then Err(Corruption)
    else
      var count := FromLE(b[13..17]);
      if count == 0 || count > MAX_COMPONENTS then Err(Corruption)
      else match ReadComponents(count, b[17..])
           case None => Err(Corruption)
           case Some((columns, values, rest)) =>
             if rest != [] then Err(Corruption)
             else match NewIdentity(FromLE(b[5..13]), columns, values)
                  case Ok(id) => Ok(id)
                  case Err(_) => Err(Corruption)
  }

  function CanonicalAll(vs: seq<Value>): (c: seq<Value>)
    ensures |c| == |vs|
    ensures forall i :: 0 <= i < |vs| ==> c[i] == Canonical(vs[i])
  {
    if vs == [] then [] else [Canonical(vs[0])] + CanonicalAll(vs[1..])
  }

  lemma {:induction false} ReadComponentsWritten(columns: seq<u16>, values: seq<Value>)
    requires |columns| == |values| && AllStorable(values)
    requires forall i :: 0 <= i < |values| ==> !values[i].Null?
    ensures ReadComponents(|columns|, EncodeComponents(columns, values)) == Some((columns, CanonicalAll(values), []))
  {
    hide ReadValue, Encode, Canonical;
    if columns != [] {
      Bounds();
      var tail := EncodeComponents(columns[1..], values[1..]);
      var b := EncodeComponents(columns, values);
      assert b == ToLE(columns[0], 2) + (KeyBytes(values[0]) + tail);
      ReadLEWritten(columns[0], 2, KeyBytes(values[0]) + tail);
      ReadValueWritten(Canonical(values[0]), tail);
      ReadComponentsWritten(columns[1..], values[1..]);
      assert [columns[0]] + columns[1..] == columns;
    }
  }

  /** An identity decodes to itself with its values in canonical form. */
  lemma IdentityRoundTrip(id: Identity)
    requires id.Valid() && AllStorable(id.values)
    ensures DecodeIdentity(EncodeIdentity(id)) == Ok(id.(values := CanonicalAll(id.values)))
  {
    hide ReadValue, Encode, ReadValues, EncodeAll, ReadComponents, EncodeComponents, Canonical;
    Bounds();
    var b := EncodeIdentity(id);
    assert b[..5] == IDENTITY_HEADER;
    assert b[5..13] == ToLE(id.table, 8);
    assert b[13..17] == ToLE(|id.columns|, 4);
    assert b[17..] == EncodeComponents(id.columns, id.values);
    LittleEndianRoundTrip(id.table, 8);
    LittleEndianRoundTrip(|id.columns|, 4);
    ReadComponentsWritten(id.columns, id.values);
    assert Identity(id.table, id.columns, CanonicalAll(id.values)).Valid();
  }

  lemma CanonicalAllDecidesEquality(xs: seq<Value>, ys: seq<Value>)
    ensures CanonicalAll(xs) == CanonicalAll(ys) <==> AllSqlEq(xs, ys)
  {
    if |xs| == |ys| {
      forall i | 0 <= i < |xs| ensures SqlEq(xs[i], ys[i]) <==> CanonicalAll(xs)[i] == CanonicalAll(ys)[i] {
        CanonicalDecidesEquality(xs[i], ys[i]);
      }
    }
  }

  lemma {:induction false} ComponentsOfEqualValues(columns: seq<u16>, xs: seq<Value>, ys: seq<Value>)
    requires |columns| == |xs| == |ys| && AllStorable(xs) && AllStorable(ys)
    requires CanonicalAll(xs) == CanonicalAll(ys)
    ensures EncodeComponents(columns, xs) == EncodeComponents(columns, ys)
  {
    if columns != [] {
      assert Canonical(xs[0]) == CanonicalAll(xs)[0] == CanonicalAll(ys)[0];
      assert CanonicalAll(xs[1..]) == CanonicalAll(xs)[1..] == CanonicalAll(ys)[1..] == CanonicalAll(ys[1..]);
      ComponentsOfEqualValues(columns[1..], xs[1..], ys[1..]);
    }
  }

  /** Identity bytes coincide exactly when the table and the columns do and the values
      are equal in SQL. */
  lemma IdentityDecidesEquality(a: Identity, b: Identity)
    requires a.Valid() && b.Valid() && AllStorable(a.values) && AllStorable(b.values)
    ensures EncodeIdentity(a) == EncodeIdentity(b)
            <==> a.table == b.table && a.columns == b.columns && AllSqlEq(a.values, b.values)
  {
    IdentityRoundTrip(a);
    IdentityRoundTrip(b);
    CanonicalAllDecidesEquality(a.values, b.values);
    if a.table == b.table && a.columns == b.columns && AllSqlEq(a.values, b.values) {
      ComponentsOfEqualValues(a.columns, a.values, b.values);
    }
  }

  // ---- identities of tables without a primary key --------------------------

  function EncodeLegacyKey(table: u64, key: ByteString): ByteString
    requires |key| == 16
  {
    EncodeIdentity(Identity(table, [0], [Blob(key)]))
  }

  function DecodeLegacyKey(table: u64, b: ByteString): (r: Result<ByteString>)
    ensures r.Ok? ==> |r.value| == 16
  {
    match DecodeIdentity(b)
    case Err(e) => Err(e)
    case Ok(id) =>
      if id.table != table || id.columns != [0] || !id.values[0].Blob? || |id.values[0].bytes| != 16 then Err(Corruption)
      else Ok(id.values[0].bytes)
  }

  lemma LegacyKeyRoundTrip(table: u64, key: ByteString)
    requires |key| == 16
    ensures DecodeLegacyKey(table, EncodeLegacyKey(table, key)) == Ok(key)
  {
    IdentityRoundTrip(Identity(table, [0], [Blob(key)]));
  }
}
