/** One packed page: sorted entries laid out in 4096 bytes with a range header and a checksum,
    and read back. */
module PackedPages {
  import opened Common
  import opened Bytes

  const PAGE_BYTES := 4096
  const HEADER_BYTES := 64
  const PAYLOAD_BYTES := 4032
  const ENTRY_HEADER_BYTES := 21
  const MAGIC: ByteString := [0x44, 0x42, 0x52, 0x50] // "DBRP"
  const VERSION: ByteString := [1, 0]
  const MAX_PAGES: nat := 0x1_0000_0000

  type Key = k: ByteString | |k| == 16 witness [0, 0, 0, 0, 0, 0, 0, 0, 0, 0, 0, 0, 0, 0, 0, 0]

  datatype Entry = Entry(key: Key, value: ByteString)

  /** The checksum function; nothing depends on what it computes. */
  type Checksum = ByteString -> u32

  // ---- order of keys -------------------------------------------------------

  lemma {:induction false} LexTransitive(a: ByteString, b: ByteString, c: ByteString)
    requires LexLess(a, b) && LexLess(b, c)
    ensures LexLess(a, c)
  {
    if a != [] && a[0] == b[0] == c[0] {
      LexTransitive(a[1..], b[1..], c[1..]);
    }
  }

  lemma {:induction false} LexTotal(a: ByteString, b: ByteString)
    ensures LexLess(a, b) || a == b || LexLess(b, a)
    ensures !(LexLess(a, b) && LexLess(b, a))
    ensures !LexLess(a, a)
  {
    if a != [] && b != [] {
      LexTotal(a[1..], b[1..]);
      if a[0] == b[0] && a[1..] == b[1..] {
        assert a == [a[0]] + a[1..] == b;
      }
    } else if a != [] {
      LexTotal(a[1..], []);
    }
  }

  predicate Sorted(es: seq<Entry>) {
    forall i :: 0 <= i < |es| - 1 ==> LexLess(es[i].key, es[i + 1].key)
  }

  lemma {:induction false} SortedApart(es: seq<Entry>, i: nat, j: nat)
    requires Sorted(es) && i < j < |es|
    ensures LexLess(es[i].key, es[j].key)
    decreases j
  {
    hide LexLess;
    if i < j - 1 {
      SortedApart(es, i, j - 1);
      LexTransitive(es[i].key, es[j - 1].key, es[j].key);
    }
  }

  lemma SortedSlice(es: seq<Entry>, lo: nat, hi: nat)
    requires Sorted(es) && lo <= hi <= |es|
    ensures Sorted(es[lo..hi])
  {
    hide LexLess;
  }

  // ---- entries -------------------------------------------------------------

  predicate Fits(e: Entry) {
    ENTRY_HEADER_BYTES + |e.value| <= PAYLOAD_BYTES
  }

  predicate AllFit(es: seq<Entry>) {
    forall i :: 0 <= i < |es| ==> Fits(es[i])
  }

  function Size(es: seq<Entry>): (n: nat)
    ensures n >= ENTRY_HEADER_BYTES * |es|
  {
    if es == [] then 0 else Size(es[..|es| - 1]) + ENTRY_HEADER_BYTES + |es[|es| - 1].value|
  }

  lemma {:induction false} SizeSplit(a: seq<Entry>, b: seq<Entry>)
    ensures Size(a + b) == Size(a) + Size(b)
    decreases |b|
  {
    if b == [] {
      assert a + b == a;
    } else {
      assert (a + b)[..|a + b| - 1] == a + b[..|b| - 1];
      SizeSplit(a, b[..|b| - 1]);
    }
  }

  lemma SizeAt(es: seq<Entry>, lo: nat, mid: nat, hi: nat)
    requires lo <= mid <= hi <= |es|
    ensures Size(es[lo..hi]) == Size(es[lo..mid]) + Size(es[mid..hi])
  {
    assert es[lo..hi] == es[lo..mid] + es[mid..hi];
    SizeSplit(es[lo..mid], es[mid..hi]);
  }

  lemma SizeOne(e: Entry)
    ensures Size([e]) == ENTRY_HEADER_BYTES + |e.value|
  {
    assert [e][..0] == [];
  }

  function WriteEntry(e: Entry): (b: ByteString)
    requires Fits(e)
    ensures |b| == ENTRY_HEADER_BYTES + |e.value|
  {
    Bounds();
    e.key + ToLE(|e.value|, 4) + [1] + e.value
  }

  function Payload(es: seq<Entry>): (b: ByteString)
    requires AllFit(es)
    ensures |b| == Size(es)
  {
    if es == [] then [] else Payload(es[..|es| - 1]) + WriteEntry(es[|es| - 1])
  }

  lemma PayloadLast(es: seq<Entry>)
    requires AllFit(es) && es != []
    ensures Payload(es) == Payload(es[..|es| - 1]) + WriteEntry(es[|es| - 1])
  {
    hide WriteEntry;
  }

  lemma Regrouped(a: ByteString, b: ByteString, c: ByteString)
    ensures (a + b) + c == a + (b + c)
  {
  }

  lemma {:induction false} PayloadFront(es: seq<Entry>)
    requires AllFit(es) && es != []
    ensures Payload(es) == WriteEntry(es[0]) + Payload(es[1..])
    decreases |es|
  {
    hide WriteEntry;
    var n := |es| - 1;
    if n == 0 {
      assert es[..0] == [] && es[1..] == [];
      assert Payload(es) == [] + WriteEntry(es[0]);
    } else {
      hide Payload;
      PayloadLast(es);
      PayloadFront(es[..n]);
      assert es[..n][1..] == es[1..][..n - 1];
      PayloadLast(es[1..]);
      Regrouped(WriteEntry(es[0]), Payload(es[1..][..n - 1]), WriteEntry(es[n]));
    }
  }

  // ---- pages ---------------------------------------------------------------

  function Zeros(n: nat): (z: ByteString)
    ensures |z| == n
  {
    seq(n, _ => 0)
  }

  predicate PageFits(es: seq<Entry>) {
    es != [] && AllFit(es) && Size(es) <= PAYLOAD_BYTES
  }

  function FixedFields(generation: u64, ordinal: u32, count: nat): (h: ByteString)
    requires count < 0x1_0000
    ensures |h| == 22
  {
    Bounds();
    MAGIC + VERSION + [0, 0] + ToLE(generation, 8) + ToLE(ordinal, 4) + ToLE(count, 2)
  }

  /** The header before its checksum. */
  function Header(generation: u64, ordinal: u32, es: seq<Entry>): (h: ByteString)
    requires PageFits(es)
    ensures |h| == 56
  {
    Bounds();
    FixedFields(generation, ordinal, |es|) + ToLE(Size(es), 2) + (es[0].key + es[|es| - 1].key)
  }

  /** What follows the checksum. */
  function Body(es: seq<Entry>): (b: ByteString)
    requires PageFits(es)
    ensures |b| == PAGE_BYTES - 60
  {
    Zeros(4) + Payload(es) + Zeros(PAYLOAD_BYTES - Size(es))
  }

  function PageImage(crc: Checksum, generation: u64, ordinal: u32, es: seq<Entry>): (p: ByteString)
    requires PageFits(es)
    ensures |p| == PAGE_BYTES
  {
    Bounds();
    var header, body := Header(generation, ordinal, es), Body(es);
    header + ToLE(crc(header + body), 4) + body
  }

  function FirstKey(p: ByteString): Key
    requires |p| == PAGE_BYTES
  {
    p[24..40]
  }

  function LastKey(p: ByteString): Key
    requires |p| == PAGE_BYTES
  {
    p[40..56]
  }

  function EntryCount(p: ByteString): nat
    requires |p| == PAGE_BYTES
  {
    FromLE(p[20..22])
  }

  function PayloadLength(p: ByteString): nat
    requires |p| == PAGE_BYTES
  {
    FromLE(p[22..24])
  }

  /** The entries laid out in some bytes, strictly ascending after `previous` and filling the
      bytes exactly. */
  function ReadEntries(count: nat, b: ByteString, previous: Option<Key>): (r: Result<seq<Entry>>)
    ensures r.Ok? ==> |r.value| == count
  {
    if count == 0 then (if b == [] then Ok([]) else Err(Corruption))
    else if |b| < ENTRY_HEADER_BYTES then Err(Corruption)
    else
      var key: Key := b[..16];
      var length := FromLE(b[16..20]);
      if previous.Some? && !LexLess(previous.value, key) then Err(Corruption)
      else if b[20] != 1 || ENTRY_HEADER_BYTES + length > |b| then Err(Corruption)
      else
        var rest :- ReadEntries(count - 1, b[ENTRY_HEADER_BYTES + length..], Some(key));
        Ok([Entry(key, b[ENTRY_HEADER_BYTES..ENTRY_HEADER_BYTES + length])] + rest)
  }

  /** The entries of a page, if its layout and its range header are in order. */
  function PageEntries(p: ByteString): (r: Result<seq<Entry>>)
    requires |p| == PAGE_BYTES
  {
    if PayloadLength(p) > PAYLOAD_BYTES then Err(Corruption)
    else
      var es :- ReadEntries(EntryCount(p), p[HEADER_BYTES..HEADER_BYTES + PayloadLength(p)], None);
      if es != [] && (LexLess(LastKey(p), FirstKey(p)) || es[|es| - 1].key != LastKey(p)) then Err(Corruption)
      else Ok(es)
  }

  function DecodePage(crc: Checksum, b: ByteString, generation: u64, ordinal: u32): Result<ByteString> {
    if |b| != PAGE_BYTES then Err(Corruption)
    else if b[..4] != MAGIC || b[4..6] != VERSION || FromLE(b[8..16]) != generation || FromLE(b[16..20]) != ordinal then Err(Corruption)
    else if PayloadLength(b) > PAYLOAD_BYTES || crc(b[..56] + b[60..]) != FromLE(b[56..60]) then Err(Corruption)
    else
      var _ :- PageEntries(b);
      Ok(b)
  }

  // ---- a page reads back ---------------------------------------------------

  lemma EntryReads(e: Entry, rest: ByteString)
    requires Fits(e)
    ensures var b := WriteEntry(e) + rest;
            && |b| >= ENTRY_HEADER_BYTES && b[..16] == e.key && FromLE(b[16..20]) == |e.value| && b[20] == 1
            && b[ENTRY_HEADER_BYTES..ENTRY_HEADER_BYTES + |e.value|] == e.value
            && b[ENTRY_HEADER_BYTES + |e.value|..] == rest
  {
    hide ToLE, FromLE;
    Bounds();
    LittleEndianRoundTrip(|e.value|, 4);
    var b := WriteEntry(e) + rest;
    assert b[16..20] == ToLE(|e.value|, 4);
  }

  lemma {:induction false} PayloadReadsBack(es: seq<Entry>, previous: Option<Key>)
    requires AllFit(es) && Sorted(es)
    requires previous.Some? && es != [] ==> LexLess(previous.value, es[0].key)
    ensures ReadEntries(|es|, Payload(es), previous) == Ok(es)
    decreases |es|
  {
    hide LexLess, WriteEntry, FromLE, Payload;
    if es != [] {
      PayloadFront(es);
      EntryReads(es[0], Payload(es[1..]));
      PayloadReadsBack(es[1..], Some(es[0].key));
      assert [es[0]] + es[1..] == es;
    }
  }

  lemma Within(h: ByteString, rest: ByteString, i: nat, j: nat)
    requires i <= j <= |h|
    ensures (h + rest)[i..j] == h[i..j]
  {
  }

  /** What stands in three parts laid end to end. */
  lemma ThreeParts(h: ByteString, c: ByteString, b: ByteString, n: nat)
    requires 4 + n <= |b|
    ensures var p := h + c + b;
            && p == h + (c + b) && p[..|h|] == h && p[|h|..|h| + |c|] == c && p[|h| + |c|..] == b
            && p[|h| + |c| + 4..|h| + |c| + 4 + n] == b[4..4 + n]
  {
    var p := h + c + b;
    assert p == h + (c + b);
    assert p[|h| + |c|..] == b;
  }

  lemma PageParts(crc: Checksum, generation: u64, ordinal: u32, es: seq<Entry>)
    requires PageFits(es)
    ensures var h, p := Header(generation, ordinal, es), PageImage(crc, generation, ordinal, es);
            && p == h + p[56..] && p[HEADER_BYTES..HEADER_BYTES + Size(es)] == Payload(es)
            && crc(p[..56] + p[60..]) == FromLE(p[56..60])
  {
    hide ToLE, FromLE, Payload, Size, AllFit, Bound, Header, Body;
    Bounds();
    var h, b := Header(generation, ordinal, es), Body(es);
    var c := ToLE(crc(h + b), 4);
    LittleEndianRoundTrip(crc(h + b), 4);
    ThreeParts(h, c, b, Size(es));
    BodySlice(es);
  }

  lemma HeaderFields(crc: Checksum, generation: u64, ordinal: u32, es: seq<Entry>)
    requires PageFits(es)
    ensures var p := PageImage(crc, generation, ordinal, es);
            && p[..4] == MAGIC && p[4..6] == VERSION && FromLE(p[8..16]) == generation && FromLE(p[16..20]) == ordinal
            && EntryCount(p) == |es| && PayloadLength(p) == Size(es)
            && FirstKey(p) == es[0].key && LastKey(p) == es[|es| - 1].key
  {
    hide FromLE, Payload, Size, AllFit, Header, PageImage, EntryCount, PayloadLength, FirstKey, LastKey;
    var h, p := Header(generation, ordinal, es), PageImage(crc, generation, ordinal, es);
    PageParts(crc, generation, ordinal, es);
    HeaderSlices(generation, ordinal, es);
    HeaderWithin(h, p[56..]);
  }

  lemma HeaderWithin(h: ByteString, rest: ByteString)
    requires |h| == 56 && |rest| == PAGE_BYTES - 56
    ensures var p := h + rest;
            && p[..4] == h[0..4] && p[4..6] == h[4..6] && p[8..16] == h[8..16] && p[16..20] == h[16..20]
            && EntryCount(p) == FromLE(h[20..22]) && PayloadLength(p) == FromLE(h[22..24])
            && FirstKey(p) == h[24..40] && LastKey(p) == h[40..56]
  {
    hide FromLE;
    Within(h, rest, 0, 4);
    Within(h, rest, 4, 6);
    Within(h, rest, 8, 16);
    Within(h, rest, 16, 20);
    Within(h, rest, 20, 22);
    Within(h, rest, 22, 24);
    Within(h, rest, 24, 40);
    Within(h, rest, 40, 56);
  }

  lemma FixedSlices(generation: u64, ordinal: u32, count: nat)
    requires count < 0x1_0000
    ensures var h := FixedFields(generation, ordinal, count);
            && h[0..4] == MAGIC && h[4..6] == VERSION && FromLE(h[8..16]) == generation && FromLE(h[16..20]) == ordinal
            && FromLE(h[20..22]) == count
  {
    hide ToLE, FromLE, Bound;
    Bounds();
    LittleEndianRoundTrip(generation, 8);
    LittleEndianRoundTrip(ordinal, 4);
    LittleEndianRoundTrip(count, 2);
    var h := FixedFields(generation, ordinal, count);
    assert h[8..16] == ToLE(generation, 8);
    assert h[16..20] == ToLE(ordinal, 4);
    assert h[20..22] == ToLE(count, 2);
  }

  lemma HeaderSlices(generation: u64, ordinal: u32, es: seq<Entry>)
    requires PageFits(es)
    ensures var h := Header(generation, ordinal, es);
            && h[0..4] == MAGIC && h[4..6] == VERSION && FromLE(h[8..16]) == generation && FromLE(h[16..20]) == ordinal
            && FromLE(h[20..22]) == |es| && FromLE(h[22..24]) == Size(es)
            && h[24..40] == es[0].key && h[40..56] == es[|es| - 1].key
  {
    hide ToLE, FromLE, Size, AllFit, Bound, FixedFields;
    Bounds();
    var h, f := Header(generation, ordinal, es), FixedFields(generation, ordinal, |es|);
    LittleEndianRoundTrip(Size(es), 2);
    assert h[..22] == f && h[22..24] == ToLE(Size(es), 2);
    FixedSlices(generation, ordinal, |es|);
    assert h == f + h[22..];
    Within(f, h[22..], 0, 4);
    Within(f, h[22..], 4, 6);
    Within(f, h[22..], 8, 16);
    Within(f, h[22..], 16, 20);
    Within(f, h[22..], 20, 22);
  }

  lemma BodySlice(es: seq<Entry>)
    requires PageFits(es)
    ensures Body(es)[4..4 + Size(es)] == Payload(es)
  {
    hide Size, AllFit, Payload;
  }

  lemma FirstNotAfterLast(es: seq<Entry>)
    requires Sorted(es) && es != []
    ensures !LexLess(es[|es| - 1].key, es[0].key)
  {
    hide LexLess;
    LexTotal(es[0].key, es[|es| - 1].key);
    if |es| > 1 {
      SortedApart(es, 0, |es| - 1);
    }
  }

  /** A page built from sorted entries is accepted and decodes to exactly those entries. */
  lemma PageRoundTrip(crc: Checksum, generation: u64, ordinal: u32, es: seq<Entry>)
    requires PageFits(es) && Sorted(es)
    ensures var p := PageImage(crc, generation, ordinal, es);
            PageEntries(p) == Ok(es) && DecodePage(crc, p, generation, ordinal) == Ok(p)
  {
    hide PageImage, LexLess, FromLE, Payload, Size, AllFit, ReadEntries, Sorted;
    HeaderFields(crc, generation, ordinal, es);
    PageParts(crc, generation, ordinal, es);
    PageFitsAll(es);
    PayloadReadsBack(es, None);
    FirstNotAfterLast(es);
  }

  lemma PageFitsAll(es: seq<Entry>)
    requires PageFits(es)
    ensures es != [] && AllFit(es) && Size(es) <= PAYLOAD_BYTES
  {
  }

  // ---- filling a page buffer -----------------------------------------------

  function Spliced(s: ByteString, at: nat, b: ByteString): (r: ByteString)
    requires at + |b| <= |s|
    ensures |r| == |s|
  {
    s[..at] + b + s[at + |b|..]
  }

  /** Copy bytes into a buffer. */
  method Put(a: array<byte>, at: nat, b: ByteString)
    requires at + |b| <= a.Length
    modifies a
    ensures a[..] == Spliced(old(a[..]), at, b)
  {
    var i := 0;
    while i < |b|
      invariant i <= |b|
      invariant forall k :: 0 <= k < a.Length ==> a[k] == if at <= k < at + i then b[k - at] else old(a[k])
    {
      a[at + i] := b[i];
      i := i + 1;
    }
  }

  /** Writing past the end of what is written leaves a gap of zeros. */
  lemma SplicedZeros(head: ByteString, n: nat, gap: nat, b: ByteString)
    requires gap + |b| <= n
    ensures Spliced(head + Zeros(n), |head| + gap, b) == head + Zeros(gap) + b + Zeros(n - gap - |b|)
  {
  }

  lemma SplicedTwice(s: ByteString, at: nat, b: ByteString, c: ByteString)
    requires at + |b| + |c| <= |s|
    ensures Spliced(Spliced(s, at, b), at + |b|, c) == Spliced(s, at, b + c)
  {
    var t := Spliced(s, at, b);
    assert t[..at + |b|] == s[..at] + b;
    assert t[at + |b| + |c|..] == s[at + |b| + |c|..];
  }

  function EarlyHeader(generation: u64, ordinal: u32, es: seq<Entry>): (h: ByteString)
    requires 0 < |es| < 0x1_0000
    ensures |h| == 56
  {
    Bounds();
    FixedFields(generation, ordinal, |es|) + [0, 0] + (es[0].key + es[|es| - 1].key)
  }

  /** Write the leading fields. */
  method PutFixed(a: array<byte>, generation: u64, ordinal: u32, count: nat)
    requires a.Length == PAGE_BYTES && a[..] == Zeros(PAGE_BYTES) && count < 0x1_0000
    modifies a
    ensures a[..] == FixedFields(generation, ordinal, count) + Zeros(PAGE_BYTES - 22)
  {
    hide ToLE, Bound, Zeros, Spliced;
    Bounds();
    var gen, ord, n := ToLE(generation, 8), ToLE(ordinal, 4), ToLE(count, 2);
    NoGap();
    assert a[..] == [] + Zeros(PAGE_BYTES);
    SplicedZeros([], PAGE_BYTES, 0, MAGIC);
    Put(a, 0, MAGIC);
    assert a[..] == MAGIC + Zeros(4092);
    SplicedZeros(MAGIC, 4092, 0, VERSION);
    Put(a, 4, VERSION);
    assert a[..] == MAGIC + VERSION + Zeros(4090);
    SplicedZeros(MAGIC + VERSION, 4090, 2, gen);
    Put(a, 8, gen);
    ghost var h := MAGIC + VERSION + [0, 0] + gen;
    assert a[..] == h + Zeros(4080);
    SplicedZeros(h, 4080, 0, ord);
    Put(a, 16, ord);
    assert a[..] == h + ord + Zeros(4076);
    SplicedZeros(h + ord, 4076, 0, n);
    Put(a, 20, n);
  }

  /** Write the fixed fields; the payload length and the checksum come last. */
  method PutHeader(a: array<byte>, generation: u64, ordinal: u32, es: seq<Entry>)
    requires a.Length == PAGE_BYTES && a[..] == Zeros(PAGE_BYTES) && 0 < |es| < 0x1_0000
    modifies a
    ensures a[..] == EarlyHeader(generation, ordinal, es) + Zeros(PAGE_BYTES - 56)
  {
    hide Zeros, Spliced, FixedFields;
    var first, last := es[0].key, es[|es| - 1].key;
    NoGap();
    PutFixed(a, generation, ordinal, |es|);
    ghost var h := FixedFields(generation, ordinal, |es|);
    SplicedZeros(h, 4074, 2, first);
    Put(a, 24, first);
    assert a[..] == h + [0, 0] + first + Zeros(4056);
    SplicedZeros(h + [0, 0] + first, 4056, 0, last);
    Put(a, 40, last);
    assert a[..] == h + [0, 0] + first + last + Zeros(4040);
  }

  lemma NoGap()
    ensures Zeros(0) == [] && Zeros(2) == [0, 0]
  {
  }

  /** Write one entry at the cursor, field by field. */
  method PutEntry(a: array<byte>, at: nat, e: Entry)
    requires Fits(e) && at + ENTRY_HEADER_BYTES + |e.value| <= a.Length
    modifies a
    ensures a[..] == Spliced(old(a[..]), at, WriteEntry(e))
  {
    hide ToLE, Bound, Spliced;
    Bounds();
    ghost var s, length := a[..], ToLE(|e.value|, 4);
    Put(a, at, e.key);
    Put(a, at + 16, ToLE(|e.value|, 4));
    SplicedTwice(s, at, e.key, length);
    Put(a, at + 20, [1]);
    SplicedTwice(s, at, e.key + length, [1]);
    Put(a, at + ENTRY_HEADER_BYTES, e.value);
    SplicedTwice(s, at, e.key + length + [1], e.value);
  }

  lemma SizeGrows(es: seq<Entry>, n: nat)
    requires n < |es|
    ensures Size(es[..n + 1]) == Size(es[..n]) + ENTRY_HEADER_BYTES + |es[n].value|
    ensures Size(es[..n + 1]) <= Size(es)
  {
    assert es[..n + 1][..n] == es[..n];
    assert es == es[..n + 1] + es[n + 1..];
    SizeSplit(es[..n + 1], es[n + 1..]);
  }

  lemma PayloadGrows(es: seq<Entry>, n: nat)
    requires n < |es| && AllFit(es[..n + 1])
    ensures AllFit(es[..n]) && Payload(es[..n + 1]) == Payload(es[..n]) + WriteEntry(es[n])
  {
    assert es[..n + 1][..n] == es[..n];
    forall i | 0 <= i < n ensures Fits(es[..n][i]) {
      assert es[..n][i] == es[..n + 1][i];
    }
  }

  /** Lay out entries in a page. */
  method FromEntries(crc: Checksum, generation: u64, ordinal: u32, es: seq<Entry>) returns (r: Result<ByteString>)
    ensures r.Ok? <==> PageFits(es)
    ensures r.Ok? ==> r.value == PageImage(crc, generation, ordinal, es)
  {
    hide Size, Payload, ToLE, Bound, AllFit, Spliced, Zeros;
    if es == [] {
      return Err(InvalidState);
    }
    if |es| > 0xFFFF {
      TooMany(es);
      return Err(InvalidState);
    }
    var a := new byte[PAGE_BYTES](_ => 0);
    StartsZero(a[..]);
    PutHeader(a, generation, ordinal, es);
    ghost var head := EarlyHeader(generation, ordinal, es) + Zeros(8);
    ZerosSplit(8, PAYLOAD_BYTES);
    NothingPaid();
    var cursor, n := HEADER_BYTES, 0;
    assert es[..0] == [];
    while n < |es|
      invariant n <= |es| && cursor == HEADER_BYTES + Size(es[..n]) && cursor <= PAGE_BYTES
      invariant AllFit(es[..n]) && a[..] == head + Payload(es[..n]) + Zeros(PAGE_BYTES - cursor)
    {
      SizeGrows(es, n);
      var end := cursor + ENTRY_HEADER_BYTES + |es[n].value|;
      if end > PAGE_BYTES {
        Overflows(es, n);
        return Err(ValueTooLarge);
      }
      FitsMore(es, n);
      PayloadGrows(es, n);
      SplicedZeros(head + Payload(es[..n]), PAGE_BYTES - cursor, 0, WriteEntry(es[n]));
      NoGap();
      assert |head + Payload(es[..n])| + 0 == cursor;
      PutEntry(a, cursor, es[n]);
      PaidMore(head, es, n, PAGE_BYTES - end);
      cursor := end;
      n := n + 1;
    }
    assert es[..n] == es;
    FitsPage(es);
    Bounds();
    ghost var early := a[..];
    Put(a, 22, ToLE(cursor - HEADER_BYTES, 2));
    FullHeader(generation, ordinal, es, early, a[..]);
    var checksum := crc(a[..56] + a[60..]);
    ghost var filled := a[..];
    Put(a, 56, ToLE(checksum, 4));
    SealedPage(crc, generation, ordinal, es, filled, a[..]);
    r := Ok(a[..]);
  }

  lemma StartsZero(s: ByteString)
    requires |s| == PAGE_BYTES && forall i :: 0 <= i < |s| ==> s[i] == 0
    ensures s == Zeros(PAGE_BYTES)
  {
  }

  lemma ZerosSplit(a: nat, b: nat)
    ensures Zeros(a + b) == Zeros(a) + Zeros(b)
  {
  }

  lemma NothingPaid()
    ensures Size([]) == 0 && AllFit([]) && Payload([]) == []
  {
  }

  lemma TooMany(es: seq<Entry>)
    requires |es| > 0xFFFF
    ensures !PageFits(es)
  {
  }

  lemma Overflows(es: seq<Entry>, n: nat)
    requires n < |es| && Size(es[..n + 1]) > PAYLOAD_BYTES && Size(es[..n + 1]) <= Size(es)
    ensures !PageFits(es)
  {
  }

  lemma FitsMore(es: seq<Entry>, n: nat)
    requires n < |es| && AllFit(es[..n]) && Fits(es[n])
    ensures AllFit(es[..n + 1])
  {
    var more := es[..n + 1];
    forall i | 0 <= i < |more| ensures Fits(more[i]) {
      if i < n {
        assert es[..n][i] == more[i];
      }
    }
  }

  lemma PaidMore(head: ByteString, es: seq<Entry>, n: nat, left: nat)
    requires n < |es| && AllFit(es[..n + 1]) && AllFit(es[..n])
    requires Payload(es[..n + 1]) == Payload(es[..n]) + WriteEntry(es[n])
    ensures head + Payload(es[..n]) + Zeros(0) + WriteEntry(es[n]) + Zeros(left) == head + Payload(es[..n + 1]) + Zeros(left)
  {
    hide WriteEntry, Payload;
  }

  lemma FitsPage(es: seq<Entry>)
    requires es != [] && AllFit(es) && Size(es) <= PAYLOAD_BYTES
    ensures PageFits(es)
  {
  }

  lemma FullHeader(generation: u64, ordinal: u32, es: seq<Entry>, early: ByteString, late: ByteString)
    requires PageFits(es) && |es| < 0x1_0000 && Size(es) < Bound(2) && |early| == PAGE_BYTES
    requires early == EarlyHeader(generation, ordinal, es) + Zeros(8) + Payload(es) + Zeros(PAYLOAD_BYTES - Size(es))
    requires late == Spliced(early, 22, ToLE(Size(es), 2))
    ensures late[..56] == Header(generation, ordinal, es) && late[60..] == Body(es) && |late| == PAGE_BYTES
  {
    hide *;
    PageFitsAll(es);
    HeaderParts(generation, ordinal, es);
    BodyRest(es);
    Stamped(FixedFields(generation, ordinal, |es|), ToLE(Size(es), 2), es[0].key + es[|es| - 1].key,
      Zeros(8), Payload(es), Zeros(PAYLOAD_BYTES - Size(es)), Body(es), late);
  }

  lemma Stamped(fields: ByteString, length: ByteString, keys: ByteString, a: ByteString, b: ByteString, c: ByteString, body: ByteString, late: ByteString)
    requires |fields| == 22 && |length| == 2 && |keys| == 32 && |a| == 8 && (a + (b + c))[4..] == body
    requires late == Spliced(fields + [0, 0] + keys + a + b + c, 22, length)
    ensures late[..56] == fields + length + keys && late[60..] == body
  {
    hide Spliced;
    HeaderStamped(fields, length, keys, a, b, c);
    AfterHeader(fields + length + keys, a + (b + c), body, late);
  }

  lemma HeaderParts(generation: u64, ordinal: u32, es: seq<Entry>)
    requires PageFits(es) && |es| < 0x1_0000 && Size(es) < Bound(2)
    ensures var fields, keys := FixedFields(generation, ordinal, |es|), es[0].key + es[|es| - 1].key;
            && Header(generation, ordinal, es) == fields + ToLE(Size(es), 2) + keys
            && EarlyHeader(generation, ordinal, es) == fields + [0, 0] + keys
  {
    hide ToLE, Bound, Size, AllFit, FixedFields;
    Bounds();
  }

  lemma HeaderStamped(fields: ByteString, length: ByteString, keys: ByteString, a: ByteString, b: ByteString, c: ByteString)
    requires |length| == 2
    ensures Spliced(fields + [0, 0] + keys + a + b + c, |fields|, length) == (fields + length + keys) + (a + (b + c))
  {
    Regroup(fields + [0, 0] + keys, a, b, c);
    SplicedMiddle(fields, [0, 0], length, keys, a + (b + c));
  }

  lemma AfterHeader(h: ByteString, rest: ByteString, body: ByteString, late: ByteString)
    requires |h| == 56 && |rest| >= 4 && rest[4..] == body && late == h + rest
    ensures late[..56] == h && late[60..] == body
  {
  }

  lemma Regroup(a: ByteString, b: ByteString, c: ByteString, d: ByteString)
    ensures a + b + c + d == a + (b + (c + d))
  {
  }

  lemma BodyRest(es: seq<Entry>)
    requires PageFits(es)
    ensures (Zeros(8) + (Payload(es) + Zeros(PAYLOAD_BYTES - Size(es))))[4..] == Body(es)
  {
    hide Payload, Size, AllFit;
    ZerosSplit(4, 4);
  }

  lemma SplicedMiddle(a: ByteString, old': ByteString, b: ByteString, c: ByteString, d: ByteString)
    requires |old'| == |b|
    ensures Spliced(a + old' + c + d, |a|, b) == a + b + c + d
  {
  }

  lemma SealedPage(crc: Checksum, generation: u64, ordinal: u32, es: seq<Entry>, filled: ByteString, sealed: ByteString)
    requires PageFits(es) && |filled| == PAGE_BYTES && filled[..56] == Header(generation, ordinal, es) && filled[60..] == Body(es)
    requires Bound(4) == 0x1_0000_0000 && sealed == Spliced(filled, 56, ToLE(crc(filled[..56] + filled[60..]), 4))
    ensures sealed == PageImage(crc, generation, ordinal, es)
  {
    hide ToLE, Bound, Header, Body;
  }
}
