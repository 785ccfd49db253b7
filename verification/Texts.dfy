/** Text: white space, decimal digits, searching and splitting. */
module Texts {
  import opened Common
  import opened Decimals

  // ---- white space ---------------------------------------------------------

  /** The characters with the Unicode property White_Space. */
  predicate IsSpace(c: char) {
    var code := c as int;
    || 0x9 <= code <= 0xD || code == 0x20 || code == 0x85 || code == 0xA0 || code == 0x1680
    || 0x2000 <= code <= 0x200A || code == 0x2028 || code == 0x2029 || code == 0x202F || code == 0x205F || code == 0x3000
  }

  predicate Blank(s: string) {
    forall i :: 0 <= i < |s| ==> IsSpace(s[i])
  }

  function TrimStart(s: string): string {
    if s != [] && IsSpace(s[0]) then TrimStart(s[1..]) else s
  }

  function TrimEnd(s: string): string {
    if s != [] && IsSpace(s[|s| - 1]) then TrimEnd(s[..|s| - 1]) else s
  }

  function Trim(s: string): string {
    TrimEnd(TrimStart(s))
  }

  /** Nothing to trim at either end. */
  predicate Trimmed(s: string) {
    s != [] && !IsSpace(s[0]) && !IsSpace(s[|s| - 1])
  }

  lemma {:induction false} TrimStartDrops(a: string, s: string)
    requires Blank(a) && (s == [] || !IsSpace(s[0]))
    ensures TrimStart(a + s) == s
  {
    if a == [] {
      assert a + s == s;
    } else {
      assert (a + s)[1..] == a[1..] + s;
      TrimStartDrops(a[1..], s);
    }
  }

  lemma {:induction false} TrimEndDrops(s: string, b: string)
    requires Blank(b) && (s == [] || !IsSpace(s[|s| - 1]))
    ensures TrimEnd(s + b) == s
  {
    if b == [] {
      assert s + b == s;
    } else {
      var n := |b| - 1;
      assert (s + b)[..|s + b| - 1] == s + b[..n];
      TrimEndDrops(s, b[..n]);
    }
  }

  /** Trimming removes exactly the white space around a text. */
  lemma TrimDrops(a: string, s: string, b: string)
    requires Blank(a) && Blank(b) && (s == [] || Trimmed(s))
    ensures Trim(a + s + b) == s
  {
    if s == [] {
      assert a + s + b == (a + b) + [];
      TrimStartDrops(a + b, []);
    } else {
      assert a + s + b == a + (s + b);
      TrimStartDrops(a, s + b);
      TrimEndDrops(s, b);
    }
  }

  lemma TrimKeeps(s: string)
    requires s == [] || Trimmed(s)
    ensures Trim(s) == s
  {
    TrimDrops([], s, []);
    assert [] + s + [] == s;
  }

  // ---- digits --------------------------------------------------------------

  predicate IsDigit(c: char) {
    '0' <= c <= '9'
  }

  predicate AllDigits(s: string) {
    forall i :: 0 <= i < |s| ==> IsDigit(s[i])
  }

  function DigitChar(k: nat): (c: char)
    requires k < 10
    ensures IsDigit(c) && c as int - '0' as int == k
  {
    ('0' as int + k) as char
  }

  function NumberOf(s: string): nat
    requires AllDigits(s)
  {
    if s == [] then 0 else 10 * NumberOf(s[..|s| - 1]) + (s[|s| - 1] as int - '0' as int)
  }

  /** The last `width` digits of a number. */
  function FixedDigits(n: nat, width: nat): (s: string)
    ensures |s| == width && AllDigits(s)
  {
    if width == 0 then [] else FixedDigits(n / 10, width - 1) + [DigitChar(n % 10)]
  }

  function NatText(n: nat): (s: string)
    ensures s != [] && AllDigits(s)
  {
    if n < 10 then [DigitChar(n)] else NatText(n / 10) + [DigitChar(n % 10)]
  }

  /** A number zero-filled to a width. */
  function Padded(n: nat, width: nat): (s: string)
    ensures AllDigits(s) && |s| >= width
  {
    var text := NatText(n);
    if |text| >= width then text else seq(width - |text|, _ => '0') + text
  }

  /** A signed number zero-filled to a width that includes its sign. */
  function PaddedSigned(n: int, width: nat): string
    requires width > 0
  {
    if n < 0 then "-" + Padded(-n, width - 1) else Padded(n, width)
  }

  lemma {:induction false} NumberSplit(a: string, b: string)
    requires AllDigits(a) && AllDigits(b)
    ensures NumberOf(a + b) == NumberOf(a) * Pow10(|b|) + NumberOf(b)
  {
    if b == [] {
      assert a + b == a;
    } else {
      var n := |b| - 1;
      assert (a + b)[..|a + b| - 1] == a + b[..n];
      NumberSplit(a, b[..n]);
      MulAssociates(NumberOf(a), 10, Pow10(n));
    }
  }

  lemma {:induction false} NatReads(n: nat)
    ensures NumberOf(NatText(n)) == n
  {
    var s := NatText(n);
    if n >= 10 {
      NatReads(n / 10);
      assert s[..|s| - 1] == NatText(n / 10);
    } else {
      assert s[..0] == [];
    }
  }

  /** A number that fits a width is written by its last digits alone. */
  lemma {:induction false} PaddedFixed(n: nat, width: nat)
    requires n < Pow10(width) && width > 0
    ensures Padded(n, width) == FixedDigits(n, width)
  {
    if n < 10 {
      ZerosBefore(n, width);
    } else {
      assert width > 1;
      PaddedFixed(n / 10, width - 1);
    }
  }

  lemma {:induction false} ZerosBefore(n: nat, width: nat)
    requires n < 10 && width > 0
    ensures seq(width - 1, _ => '0') + [DigitChar(n)] == FixedDigits(n, width)
  {
    if width > 1 {
      ZerosBefore(0, width - 1);
      assert FixedDigits(0, width - 1) == seq(width - 1, _ => '0');
    }
  }

  /** A number too large for a width takes more room. */
  lemma {:induction false} PaddedWide(n: nat, width: nat)
    requires n >= Pow10(width)
    ensures |Padded(n, width)| > width
  {
    if width > 0 {
      PaddedWide(n / 10, width - 1);
    }
  }

  /** A number without its last digits. */
  function Shift(n: nat, low: nat): nat {
    if low == 0 then n else Shift(n / 10, low - 1)
  }

  /** The digits of a number, cut where the last `low` begin. */
  lemma {:induction false} FixedSplit(n: nat, high: nat, low: nat)
    ensures FixedDigits(n, high + low) == FixedDigits(Shift(n, low), high) + FixedDigits(n, low)
  {
    if low == 0 {
    } else {
      FixedSplit(n / 10, high, low - 1);
      Joined(FixedDigits(Shift(n, low), high), FixedDigits(n / 10, low - 1), [DigitChar(n % 10)]);
    }
  }

  lemma {:induction false} ShiftValue(n: nat, low: nat)
    ensures Shift(n, low) * Pow10(low) + NumberOf(FixedDigits(n, low)) == n
  {
    if low > 0 {
      hide NumberOf, FixedDigits;
      ShiftValue(n / 10, low - 1);
      FixedValue(n, low);
      TenParts(Shift(n, low), Pow10(low - 1), NumberOf(FixedDigits(n / 10, low - 1)), n);
    }
  }

  /** Digits are those of the number they write. */
  lemma {:induction false} FixedBack(s: string)
    requires AllDigits(s)
    ensures FixedDigits(NumberOf(s), |s|) == s
  {
    if s != [] {
      var n := |s| - 1;
      FixedBack(s[..n]);
      assert IsDigit(s[n]) && DigitChar(s[n] as int - '0' as int) == s[n];
      assert s == s[..n] + [s[n]];
    }
  }

  lemma {:induction false} ShiftSmall(n: nat, low: nat)
    requires n < Pow10(low)
    ensures Shift(n, low) == 0
  {
    if low > 0 {
      ShiftSmall(n / 10, low - 1);
    }
  }

  lemma SmallReads(n: nat, width: nat)
    requires n < Pow10(width)
    ensures NumberOf(FixedDigits(n, width)) == n
  {
    hide *;
    ShiftSmall(n, width);
    ShiftValue(n, width);
  }

  lemma FixedValue(n: nat, width: nat)
    requires width > 0
    ensures NumberOf(FixedDigits(n, width)) == 10 * NumberOf(FixedDigits(n / 10, width - 1)) + n % 10
  {
    var s := FixedDigits(n, width);
    assert s[..|s| - 1] == FixedDigits(n / 10, width - 1);
  }

  lemma TenParts(q: nat, p: nat, r: nat, n: nat)
    requires q * p + r == n / 10
    ensures q * (10 * p) + (10 * r + n % 10) == n
  {
    assert q * (10 * p) == 10 * (q * p);
  }

  lemma {:induction false} ShiftDigits(n: nat, low: nat)
    ensures Digits(Shift(n, low)) == if Digits(n) > low then Digits(n) - low else 0
  {
    if low > 0 {
      ShiftDigits(n / 10, low - 1);
    }
  }

  lemma Joined(a: string, b: string, c: string)
    ensures a + b + c == a + (b + c)
  {
  }

  /** A number has the digits its size says. */
  lemma {:induction false} NatFixed(n: nat)
    requires n > 0
    ensures NatText(n) == FixedDigits(n, Digits(n))
  {
    if n >= 10 {
      NatFixed(n / 10);
    } else {
      assert Digits(n) == 1;
      assert FixedDigits(n, 1) == [] + [DigitChar(n)];
    }
  }

  // ---- searching and splitting ---------------------------------------------

  /** The position of the first of some characters, or the length of the text. */
  function IndexOf(s: string, marks: set<char>): (i: nat)
    ensures i <= |s| && (i < |s| ==> s[i] in marks) && forall k :: 0 <= k < i ==> s[k] !in marks
  {
    if s == [] || s[0] in marks then 0 else 1 + IndexOf(s[1..], marks)
  }

  lemma FirstMark(a: string, c: char, b: string, marks: set<char>)
    requires c in marks && forall k :: 0 <= k < |a| ==> a[k] !in marks
    ensures IndexOf(a + [c] + b, marks) == |a|
  {
    var s := a + [c] + b;
    assert s[|a|] == c;
    assert forall k :: 0 <= k < |a| ==> s[k] == a[k];
  }

  /** The pieces of a text between separators. */
  function SplitAt(s: string, separator: char): (r: seq<string>)
    ensures r != []
    decreases |s|
  {
    var i := IndexOf(s, {separator});
    if i == |s| then [s] else [s[..i]] + SplitAt(s[i + 1..], separator)
  }

  lemma SplitFirst(a: string, separator: char, rest: string)
    requires separator !in a
    ensures SplitAt(a + [separator] + rest, separator) == [a] + SplitAt(rest, separator)
    ensures SplitAt(a, separator) == [a]
  {
    var s := a + [separator] + rest;
    FirstMark(a, separator, rest, {separator});
    assert s[..|a|] == a && s[|a| + 1..] == rest;
  }

  // ---- signed numbers ------------------------------------------------------

  /** An integer with an optional sign, within bounds. */
  function ParseInteger(s: string, low: int, high: int): Option<int> {
    if s == [] then None
    else
      var body := if s[0] == '-' || s[0] == '+' then s[1..] else s;
      if body == [] || !AllDigits(body) then None
      else
        var n: int := NumberOf(body);
        var n := if s[0] == '-' then -n else n;
        if low <= n <= high then Some(n) else None
  }
}
