/** Secondary-index entries: the key of an entry is a big-endian length, the
    encoded value key, a second length and the row identity. All entries of one
    value key share a byte prefix, and a scan bounded by that prefix and its
    computed successor must see exactly those entries. */
module IndexEntries {
  import opened Common
  import opened Bytes

  const U32_BOUND := 0x1_0000_0000

  predicate FitsU32(b: ByteString) {
    |b| < U32_BOUND
  }

  function EntryPrefix(values: ByteString): (p: ByteString)
    requires FitsU32(values)
  {
    Bounds();
    ToBE(|values|, 4) + values
  }

  function EncodeEntry(values: ByteString, identity: ByteString): (key: ByteString)
    requires FitsU32(values) && FitsU32(identity)
  {
    Bounds();
    EntryPrefix(values) + ToBE(|identity|, 4) + identity
  }

  /** The value key and the identity an entry key carries; nothing when the key
      is truncated or has trailing bytes. */
  function DecodeEntry(key: ByteString): (parts: Option<(ByteString, ByteString)>)
  {
    if |key| < 4 then None else
    var valuesEnd := 4 + FromBE(key[..4]);
    if |key| < valuesEnd + 4 then None else
    if |key| != valuesEnd + 4 + FromBE(key[valuesEnd..valuesEnd + 4]) then None else
    Some((key[4..valuesEnd], key[valuesEnd + 4..]))
  }

  predicate WellFormed(key: ByteString) {
    DecodeEntry(key).Some?
  }

  /** An entry decodes to the value key and identity it was built from. */
  lemma EntryRoundTrip(values: ByteString, identity: ByteString)
    requires FitsU32(values) && FitsU32(identity)
    ensures DecodeEntry(EncodeEntry(values, identity)) == Some((values, identity))
  {
    Bounds();
    var key := EncodeEntry(values, identity);
    var n := 4 + |values|;
    BigEndianRoundTrip(|values|, 4);
    BigEndianRoundTrip(|identity|, 4);
    assert key[..4] == ToBE(|values|, 4);
    assert key[n..n + 4] == ToBE(|identity|, 4);
    assert key[4..n] == values;
    assert key[n + 4..] == identity;
  }

  /** Every key that decodes is the encoding of what it decodes to. */
  lemma EntryReadBack(key: ByteString)
    requires WellFormed(key)
    ensures FitsU32(DecodeEntry(key).value.0) && FitsU32(DecodeEntry(key).value.1)
    ensures EncodeEntry(DecodeEntry(key).value.0, DecodeEntry(key).value.1) == key
  {
    Bounds();
    var n := 4 + FromBE(key[..4]);
    BigEndianReadBack(key[..4]);
    BigEndianReadBack(key[n..n + 4]);
    assert key == key[..4] + key[4..n] + key[n..n + 4] + key[n + 4..];
  }

  /** The exclusive upper bound of a prefix scan, byte by byte from the right. */
  function Successor(prefix: ByteString): (end: Option<ByteString>)
    ensures end.Some? ==> |end.value| == |prefix|
  {
    if prefix == [] then None
    else
      var init, last := prefix[..|prefix| - 1], prefix[|prefix| - 1];
      if last < 255 then Some(init + [last + 1])
      else match Successor(init)
           case Some(end) => Some(end + [0])
           case None => None
  }

  /** The in-place increment of the source: 0xFF bytes become zero and carry left. */
  method PrefixSuccessor(prefix: ByteString) returns (end: Option<ByteString>)
    ensures end == Successor(prefix)
  {
    var bytes := prefix;
    var i := |bytes|;
    assert prefix[..i] == prefix && bytes[i..] == [];
    assert Successor(prefix).Some? ==> Successor(prefix).value + [] == Successor(prefix).value;
    while i > 0
      invariant 0 <= i <= |bytes| == |prefix|
      invariant bytes[..i] == prefix[..i]
      invariant forall j :: i <= j < |bytes| ==> bytes[j] == 0
      invariant Successor(prefix) == match Successor(prefix[..i])
                                     case Some(e) => Some(e + bytes[i..])
                                     case None => None
    {
      assert prefix[..i][..i - 1] == prefix[..i - 1];
      i := i - 1;
      if bytes[i] == 255 {
        ghost var before := bytes;
        bytes := bytes[i := 0];
        assert bytes[i..] == [0] + before[i + 1..];
        if Successor(prefix[..i]).Some? {
          var e := Successor(prefix[..i]).value;
          assert (e + [0]) + before[i + 1..] == e + bytes[i..];
        }
      } else {
        ghost var before := bytes;
        bytes := bytes[i := bytes[i] + 1];
        assert bytes == (prefix[..i] + [prefix[i] + 1]) + before[i + 1..];
        return Some(bytes);
      }
    }
    assert prefix[..0] == [];
    end := None;
  }

  /** Where the increment stopped: everything to the left is kept, the byte there
      grew by one, everything to the right was 0xFF and became zero. */
  lemma {:induction false} SuccessorShape(prefix: ByteString) returns (at: nat)
    ensures Successor(prefix).None? ==> forall i :: 0 <= i < |prefix| ==> prefix[i] == 255
    ensures Successor(prefix).Some? ==>
      var end := Successor(prefix).value;
      && at < |prefix| && end[..at] == prefix[..at] && prefix[at] < 255 && end[at] == prefix[at] + 1
      && (forall i :: at < i < |prefix| ==> prefix[i] == 255 && end[i] == 0)
  {
    at := 0;
    if prefix != [] {
      var init, last := prefix[..|prefix| - 1], prefix[|prefix| - 1];
      if last < 255 {
        at := |init|;
      } else {
        at := SuccessorShape(init);
      }
    }
  }

  /** Incrementing a big-endian integer adds one to it. */
  lemma {:induction false} SuccessorAddsOne(b: ByteString)
    ensures Successor(b).Some? ==> FromBE(Successor(b).value) == FromBE(b) + 1
  {
    if b != [] {
      var init, last := b[..|b| - 1], b[|b| - 1];
      SuccessorAddsOne(init);
      if last < 255 {
        assert (init + [last + 1])[..|init|] == init;
      } else if Successor(init).Some? {
        var end := Successor(init).value;
        assert (end + [0])[..|end|] == end;
      }
    }
  }

  /** Lexicographic order from the first position at which two strings differ. */
  lemma {:induction false} LessAt(a: ByteString, b: ByteString, at: nat)
    requires at <= |a| && at < |b| && a[..at] == b[..at]
    requires at == |a| || a[at] < b[at]
    ensures LexLess(a, b)
  {
    if at > 0 {
      assert a[0] == a[..at][0] && b[0] == b[..at][0];
      assert a[1..][..at - 1] == a[..at][1..] && b[1..][..at - 1] == b[..at][1..];
      LessAt(a[1..], b[1..], at - 1);
    }
  }

  lemma {:induction false} FirstDifference(a: ByteString, b: ByteString) returns (at: nat)
    ensures at <= |a| && at <= |b| && a[..at] == b[..at]
    ensures at == |a| || at == |b| || a[at] != b[at]
  {
    if a == [] || b == [] || a[0] != b[0] {
      at := 0;
    } else {
      var rest := FirstDifference(a[1..], b[1..]);
      at := rest + 1;
      assert a[..at] == [a[0]] + a[1..][..rest] && b[..at] == [b[0]] + b[1..][..rest];
    }
  }

  lemma {:induction false} LexAsymmetric(a: ByteString, b: ByteString)
    requires LexLess(a, b)
    ensures a != b && !LexLess(b, a)
  {
    if a != [] && a[0] == b[0] {
      LexAsymmetric(a[1..], b[1..]);
    }
  }

  predicate InRange(key: ByteString, lo: ByteString, hi: Option<ByteString>) {
    LexLeq(lo, key) && (hi.None? || LexLess(key, hi.value))
  }

  /** Keys that begin with the prefix lie in the scanned range. */
  lemma PrefixedInRange(key: ByteString, prefix: ByteString)
    requires prefix <= key
    ensures InRange(key, prefix, Successor(prefix))
  {
    if key != prefix {
      LessAt(prefix, key, |prefix|);
    }
    var at := SuccessorShape(prefix);
    if Successor(prefix).Some? {
      LessAt(key, Successor(prefix).value, at);
    }
  }

  /** A key of the range that does not begin with the prefix is a proper prefix of
      the range's end: it is shorter than the prefix itself. */
  lemma InRangeShape(key: ByteString, prefix: ByteString)
    requires InRange(key, prefix, Successor(prefix)) && !(prefix <= key)
    ensures Successor(prefix).Some? && key < Successor(prefix).value
  {
    var k := FirstDifference(key, prefix);
    if k == |key| || key[k] < prefix[k] {
      LessAt(key, prefix, k);
      LexAsymmetric(key, prefix);
      assert false;
    }
    var at := SuccessorShape(prefix);
    var end := Successor(prefix).value;
    assert k <= at;
    assert key[..k] == end[..k] by {
      assert end[..k] == end[..at][..k] == prefix[..at][..k];
    }
    assert key[k] >= end[k] by {
      assert k < at ==> end[k] == end[..at][k] == prefix[..at][k];
    }
    PrefixOfLarger(key, end, k);
  }

  /** A string below `end` that agrees with it up to `at`, and has at least its byte
      there, is a proper prefix of it when only zeros follow in `end`. */
  lemma PrefixOfLarger(key: ByteString, end: ByteString, at: nat)
    requires LexLess(key, end) && at < |key| && at < |end|
    requires key[..at] == end[..at] && key[at] >= end[at]
    requires forall i :: at < i < |end| ==> end[i] == 0 || key[at] > end[at]
    ensures key < end
  {
    LexAsymmetric(key, end);
    var j := FirstDifference(key, end);
    if j < |key| && (j == |end| || end[j] < key[j]) {
      LessAt(end, key, j);
      assert false;
    }
    if j < at {
      assert false;
    }
  }

  /** A well-formed entry that begins with the prefix of a value key carries it. */
  lemma PrefixedCarries(key: ByteString, values: ByteString)
    requires FitsU32(values) && WellFormed(key) && EntryPrefix(values) <= key
    ensures DecodeEntry(key).value.0 == values
  {
    var prefix := EntryPrefix(values);
    Bounds();
    BigEndianRoundTrip(|values|, 4);
    assert key[..4] == prefix[..4] == ToBE(|values|, 4);
    assert key[4..4 + |values|] == prefix[4..4 + |values|] == values;
  }

  /** A well-formed entry inside the range of a value key begins with its prefix. */
  lemma InRangePrefixed(key: ByteString, values: ByteString)
    requires FitsU32(values) && WellFormed(key)
    requires InRange(key, EntryPrefix(values), Successor(EntryPrefix(values)))
    ensures EntryPrefix(values) <= key
  {
    var prefix := EntryPrefix(values);
    if !(prefix <= key) {
      InRangeShape(key, prefix);
      HeaderGrows(values, key);
      assert false;
    }
  }

  /** Among well-formed entries, the scanned range is exactly the set of entries
      carrying the value key, also when the increment carries through 0xFF bytes
      into the length header. */
  lemma RangeIsExact(key: ByteString, values: ByteString)
    requires FitsU32(values) && WellFormed(key)
    ensures InRange(key, EntryPrefix(values), Successor(EntryPrefix(values)))
            <==> DecodeEntry(key).value.0 == values
  {
    EntryReadBack(key);
    if DecodeEntry(key).value.0 == values {
      PrefixedInRange(key, EntryPrefix(values));
    }
    if InRange(key, EntryPrefix(values), Successor(EntryPrefix(values))) {
      InRangePrefixed(key, values);
      PrefixedCarries(key, values);
    }
  }

  /** The successor of an entry prefix, and every string it begins with that holds
      a whole header, announces at least as many value bytes. */
  lemma HeaderGrows(values: ByteString, key: ByteString)
    requires FitsU32(values) && Successor(EntryPrefix(values)).Some?
    requires 4 <= |key| && key <= Successor(EntryPrefix(values)).value
    ensures FromBE(key[..4]) >= |values|
  {
    var prefix := EntryPrefix(values);
    var end := Successor(prefix).value;
    Bounds();
    BigEndianRoundTrip(|values|, 4);
    var header := prefix[..4];
    assert header == ToBE(|values|, 4);
    assert key[..4] == end[..4];
    var at := SuccessorShape(prefix);
    if at >= 4 {
      assert end[..4] == end[..at][..4] == prefix[..at][..4] == header;
    } else {
      SuccessorByShape(header, end[..4], at) by {
        assert end[..4][..at] == end[..at] && header[..at] == prefix[..at];
      }
      SuccessorAddsOne(header);
    }
  }

  /** The shape of an increment determines it. */
  lemma {:induction false} SuccessorByShape(prefix: ByteString, end: ByteString, at: nat)
    requires at < |prefix| == |end| && end[..at] == prefix[..at] && prefix[at] < 255 && end[at] == prefix[at] + 1
    requires forall i :: at < i < |prefix| ==> prefix[i] == 255 && end[i] == 0
    ensures Successor(prefix) == Some(end)
  {
    var n := |prefix| - 1;
    if at < n {
      SuccessorByShape(prefix[..n], end[..n], at) by {
        assert end[..n][..at] == end[..at] && prefix[..n][..at] == prefix[..at];
      }
      assert end == end[..n] + [0];
    } else {
      assert end == end[..n] + [prefix[n] + 1];
    }
  }

  /** The condition matters: a malformed, truncated key can fall inside the range. */
  lemma ShortKeyInRange()
    ensures !WellFormed([0, 0, 0, 2])
    ensures InRange([0, 0, 0, 2], EntryPrefix([255]), Successor(EntryPrefix([255])))
  {
    var k: ByteString, p: ByteString := [0, 0, 0, 2], [0, 0, 0, 1, 255];
    assert ToBE(1, 4) == [0, 0, 0, 1];
    assert EntryPrefix([255]) == p;
    SuccessorByShape(p, [0, 0, 0, 2, 0], 3);
    LessAt(p, k, 3);
    LessAt(k, [0, 0, 0, 2, 0], 4);
  }
}
