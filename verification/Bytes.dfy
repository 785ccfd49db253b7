/** Bytes, fixed-width integers and their little- and big-endian encodings,
    and the lexicographic order the storage kernel sorts keys by. */
module Bytes {

  type byte = x: int | 0 <= x < 256
  type u16 = x: int | 0 <= x < 0x1_0000
  type u32 = x: int | 0 <= x < 0x1_0000_0000
  type u64 = x: int | 0 <= x < 0x1_0000_0000_0000_0000
  type i32 = x: int | -0x8000_0000 <= x < 0x8000_0000
  type i64 = x: int | -0x8000_0000_0000_0000 <= x < 0x8000_0000_0000_0000
  type i128 = x: int | -0x8000_0000_0000_0000_0000_0000_0000_0000 <= x < 0x8000_0000_0000_0000_0000_0000_0000_0000
  type ByteString = seq<byte>

  /** The largest value plus one of an unsigned integer of `width` bytes. */
  function Bound(width: nat): (b: int)
    ensures b > 0
  {
    if width == 0 then 1 else 256 * Bound(width - 1)
  }

  lemma Bounds()
    ensures Bound(1) == 0x100
    ensures Bound(2) == 0x1_0000
    ensures Bound(4) == 0x1_0000_0000
    ensures Bound(8) == 0x1_0000_0000_0000_0000
    ensures Bound(16) == 0x1_0000_0000_0000_0000_0000_0000_0000_0000
  {
    assert Bound(1) == 256 * Bound(0);
    assert Bound(2) == 256 * Bound(1);
    assert Bound(3) == 256 * Bound(2);
    assert Bound(4) == 256 * Bound(3);
    assert Bound(5) == 256 * Bound(4);
    assert Bound(6) == 256 * Bound(5);
    assert Bound(7) == 256 * Bound(6);
    assert Bound(8) == 256 * Bound(7);
    assert Bound(9) == 256 * Bound(8);
    assert Bound(10) == 256 * Bound(9);
    assert Bound(11) == 256 * Bound(10);
    assert Bound(12) == 256 * Bound(11);
    assert Bound(13) == 256 * Bound(12);
    assert Bound(14) == 256 * Bound(13);
    assert Bound(15) == 256 * Bound(14);
    assert Bound(16) == 256 * Bound(15);
  }

  function ToLE(n: nat, width: nat): (b: ByteString)
    requires n < Bound(width)
    ensures |b| == width
  {
    if width == 0 then [] else [n % 256] + ToLE(n / 256, width - 1)
  }

  function FromLE(b: ByteString): (n: nat)
    ensures n < Bound(|b|)
  {
    if b == [] then 0 else b[0] + 256 * FromLE(b[1..])
  }

  lemma {:induction false} LittleEndianRoundTrip(n: nat, width: nat)
    requires n < Bound(width)
    ensures FromLE(ToLE(n, width)) == n
  {
    if width > 0 {
      LittleEndianRoundTrip(n / 256, width - 1);
      assert ToLE(n, width)[1..] == ToLE(n / 256, width - 1);
    }
  }

  lemma {:induction false} LittleEndianReadBack(b: ByteString)
    ensures ToLE(FromLE(b), |b|) == b
  {
    if b != [] {
      LittleEndianReadBack(b[1..]);
      LowByte(b[0], FromLE(b[1..]));
      assert b == [b[0]] + b[1..];
    }
  }

  lemma LowByte(low: byte, high: nat)
    ensures (low + 256 * high) % 256 == low && (low + 256 * high) / 256 == high
  {
  }

  function ToBE(n: nat, width: nat): (b: ByteString)
    requires n < Bound(width)
    ensures |b| == width
  {
    if width == 0 then [] else ToBE(n / 256, width - 1) + [n % 256]
  }

  function FromBE(b: ByteString): (n: nat)
    ensures n < Bound(|b|)
  {
    if b == [] then 0 else 256 * FromBE(b[..|b| - 1]) + b[|b| - 1]
  }

  lemma {:induction false} BigEndianRoundTrip(n: nat, width: nat)
    requires n < Bound(width)
    ensures FromBE(ToBE(n, width)) == n
  {
    if width > 0 {
      BigEndianRoundTrip(n / 256, width - 1);
      assert ToBE(n, width)[..width - 1] == ToBE(n / 256, width - 1);
    }
  }

  lemma {:induction false} BigEndianReadBack(b: ByteString)
    ensures ToBE(FromBE(b), |b|) == b
  {
    if b != [] {
      BigEndianReadBack(b[..|b| - 1]);
      LowByte(b[|b| - 1], FromBE(b[..|b| - 1]));
      assert b == b[..|b| - 1] + [b[|b| - 1]];
    }
  }

  /** Two's complement reading of a signed integer as an unsigned one. */
  function Unsigned(i: int, width: nat): (n: int)
    requires -Bound(width) <= 2 * i < Bound(width)
    ensures 0 <= n < Bound(width)
  {
    if i < 0 then i + Bound(width) else i
  }

  function Signed(n: nat, width: nat): (i: int)
    requires n < Bound(width)
    ensures -Bound(width) <= 2 * i < Bound(width)
    ensures Unsigned(i, width) == n
  {
    if 2 * n < Bound(width) then n else n - Bound(width)
  }

  /** The kernel's key order: bytes compared left to right, a proper prefix first. */
  predicate LexLess(a: ByteString, b: ByteString) {
    b != [] && (a == [] || a[0] < b[0] || (a[0] == b[0] && LexLess(a[1..], b[1..])))
  }

  predicate LexLeq(a: ByteString, b: ByteString) {
    a == b || LexLess(a, b)
  }
}
