/** Decimals as text: written with their stored scale, read with sign, fraction and exponent. */
module DecimalLiterals {
  import opened Common
  import opened Bytes
  import opened Decimals
  import opened Texts

  const I32_MIN := -0x8000_0000
  const I32_MAX := 0x7FFF_FFFF

  // ---- writing -------------------------------------------------------------

  function Sign(mantissa: int): string {
    if mantissa < 0 then "-" else ""
  }

  /** The number before the point, the point, and exactly `scale` digits after it. */
  function Text(d: Fixed): string {
    var a := Abs(d.mantissa);
    if d.scale == 0 then Sign(d.mantissa) + NatText(a)
    else Sign(d.mantissa) + NatText(Shift(a, d.scale)) + "." + FixedDigits(a, d.scale)
  }

  function Zeros(n: nat): string {
    seq(n, _ => '0')
  }

  function Reversed(s: string): (r: string)
    ensures |r| == |s|
  {
    if s == [] then [] else Reversed(s[1..]) + [s[0]]
  }

  lemma {:induction false} ReversedMore(s: string, c: char)
    ensures Reversed(s + [c]) == [c] + Reversed(s)
  {
    if s == [] {
      assert [] + [c] == [c];
      assert [c][1..] == [];
    } else {
      assert (s + [c])[1..] == s[1..] + [c];
      ReversedMore(s[1..], c);
      Joined([c], Reversed(s[1..]), [s[0]]);
    }
  }

  /** The digits of a positive number, least significant first. */
  method DigitStack(n: nat) returns (stack: string)
    requires n > 0
    ensures Reversed(stack) == FixedDigits(n, Digits(n)) && |stack| == Digits(n)
  {
    stack := [];
    var rest := n;
    while rest > 0
      invariant rest == Shift(n, |stack|) && Digits(n) == Digits(rest) + |stack|
      invariant Reversed(stack) == FixedDigits(n, |stack|)
    {
      StackMore(n, |stack|);
      ReversedMore(stack, DigitChar(rest % 10));
      stack := stack + [DigitChar(rest % 10)];
      rest := rest / 10;
    }
  }

  lemma StackMore(n: nat, k: nat)
    ensures FixedDigits(n, k + 1) == [DigitChar(Shift(n, k) % 10)] + FixedDigits(n, k)
    ensures Shift(n, k + 1) == Shift(n, k) / 10
  {
    FixedSplit(n, 1, k);
    assert 1 + k == k + 1;
    OneDigit(Shift(n, k));
    ShiftOnce(n, k);
  }

  lemma OneDigit(n: nat)
    ensures FixedDigits(n, 1) == [DigitChar(n % 10)]
  {
    assert FixedDigits(n / 10, 0) == [];
  }

  lemma {:induction false} ShiftOnce(n: nat, k: nat)
    ensures Shift(n, k + 1) == Shift(n, k) / 10
  {
    if k > 0 {
      ShiftOnce(n / 10, k - 1);
    }
  }

  lemma NoDigits(scale: nat)
    ensures Shift(0, scale) == 0 && FixedDigits(0, scale) == Zeros(scale)
  {
    if scale > 0 {
      NoDigits(scale - 1);
    }
  }

  /** A short number: zeros fill the fraction. */
  lemma ShortText(n: nat, scale: nat)
    requires n > 0 && Digits(n) <= scale
    ensures NatText(Shift(n, scale)) == "0" && FixedDigits(n, scale) == Zeros(scale - Digits(n)) + FixedDigits(n, Digits(n))
  {
    ShiftDigits(n, scale);
    ShiftDigits(n, Digits(n));
    FixedSplit(n, scale - Digits(n), Digits(n));
    NoDigits(scale - Digits(n));
  }

  /** A longer number: its own digits, cut before the last `scale`. */
  lemma LongText(n: nat, scale: nat)
    requires Digits(n) > scale
    ensures FixedDigits(n, Digits(n)) == NatText(Shift(n, scale)) + FixedDigits(n, scale)
    ensures |NatText(Shift(n, scale))| == Digits(n) - scale
  {
    ShiftDigits(n, scale);
    FixedSplit(n, Digits(n) - scale, scale);
    NatFixed(Shift(n, scale));
  }

  /** Write a decimal from its stack of digits. */
  method DecimalText(d: Fixed) returns (out: string)
    ensures out == Text(d)
  {
    hide NatText, FixedDigits, Shift, Digits, Zeros;
    var mantissa, scale := Abs(d.mantissa), d.scale;
    out := "";
    if d.mantissa < 0 {
      out := out + "-";
    }
    if scale == 0 {
      return out + NatText(mantissa);
    }
    if mantissa == 0 {
      NoDigits(scale);
      ZeroText();
      return out + "0" + "." + Zeros(scale);
    }
    var stack := DigitStack(mantissa);
    var total := |stack|;
    ghost var sign, digits := out, Reversed(stack);
    if total <= scale {
      ShortText(mantissa, scale);
      out := out + "0." + Zeros(scale - total) + Reversed(stack);
      assert sign + "0." + Zeros(scale - total) + digits == sign + "0" + "." + (Zeros(scale - total) + digits);
    } else {
      LongText(mantissa, scale);
      out := Pointed(out, Reversed(stack), total - scale);
      assert digits[..total - scale] == NatText(Shift(mantissa, scale)) && digits[total - scale..] == FixedDigits(mantissa, scale);
    }
  }

  lemma ZeroText()
    ensures NatText(0) == "0"
  {
  }

  /** Push digits, with a point before the one at `split`. */
  method Pointed(sign: string, digits: string, split: nat) returns (out: string)
    requires split < |digits|
    ensures out == sign + digits[..split] + "." + digits[split..]
  {
    out := sign;
    var index := 0;
    while index < |digits|
      invariant index <= |digits|
      invariant index <= split ==> out == sign + digits[..index]
      invariant index > split ==> out == sign + digits[..split] + "." + digits[split..index]
    {
      if index == split {
        out := out + ".";
      }
      out := out + [digits[index]];
      index := index + 1;
    }
  }

  // ---- reading -------------------------------------------------------------

  function TrimPlus(s: string): string {
    if s != [] && s[0] == '+' then TrimPlus(s[1..]) else s
  }

  function ParseDecimal(text: string): Result<Decimal> {
    var t := Trim(text);
    var negative := t != "" && t[0] == '-';
    ParseUnsigned(TrimPlus(if negative then t[1..] else t), negative)
  }

  function ParseUnsigned(unsigned: string, negative: bool): Result<Decimal> {
    var e := IndexOf(unsigned, {'e', 'E'});
    var exponent := if e < |unsigned| then ParseInteger(unsigned[e + 1..], I32_MIN, I32_MAX) else Some(0);
    if exponent.None? then Err(InvalidState)
    else ParseMantissa(unsigned[..e], negative, exponent.value)
  }

  function ParseMantissa(s: string, negative: bool, exponent: int): Result<Decimal> {
    var point := IndexOf(s, {'.'});
    var integer, fraction := s[..point], if point < |s| then s[point + 1..] else "";
    if integer == "" && fraction == "" then Err(InvalidState)
    else if !AllDigits(integer) || !AllDigits(fraction) then Err(InvalidState)
    else if NumberOf(integer + fraction) > I128_MAX then Err(OutOfRange)
    else if |fraction| > I32_MAX || !(I32_MIN <= |fraction| - exponent <= I32_MAX) then Err(InvalidState)
    else Scaled(NumberOf(integer + fraction), negative, |fraction| - exponent)
  }

  function Signed(n: int, negative: bool): int {
    if negative then -n else n
  }

  /** The decimal of a mantissa and a scale; a negative scale multiplies the mantissa. */
  function Scaled(mantissa: nat, negative: bool, scale: int): Result<Decimal>
    requires mantissa <= I128_MAX && I32_MIN <= scale <= I32_MAX
  {
    if scale >= 0 then New(Signed(mantissa, negative), scale)
    else if Pow10(-scale) > I128_MAX then Err(InvalidState)
    else
      match CheckedMul(mantissa, Pow10(-scale))
      case None => Err(OutOfRange)
      case Some(grown) => New(Signed(grown, negative), 0)
  }

  function Up(n: int): nat {
    if n > 0 then n else 0
  }

  /** What a decimal text means: its digits, signed, times ten to the exponent, less one power
      of ten for each digit after the point. */
  lemma ParsedValue(s: string, negative: bool, exponent: int)
    requires ParseMantissa(s, negative, exponent).Ok?
    ensures var point := IndexOf(s, {'.'});
            var fraction := if point < |s| then s[point + 1..] else "";
            var d := ParseMantissa(s, negative, exponent).value;
            && AllDigits(s[..point] + fraction)
            && d.mantissa * Pow10(|fraction| + Up(-exponent))
               == Signed(NumberOf(s[..point] + fraction), negative) * Pow10(d.scale + Up(exponent))
  {
    hide NumberOf, Pow10;
    var point := IndexOf(s, {'.'});
    var fraction := if point < |s| then s[point + 1..] else "";
    var n, scale := NumberOf(s[..point] + fraction), |fraction| - exponent;
    if scale < 0 {
      Pow10Add(-scale, |fraction|);
      MulAssociates(Signed(n, negative), Pow10(-scale), Pow10(|fraction|));
      SignedProduct(n, Pow10(-scale), negative);
    }
  }

  lemma SignedProduct(n: int, p: int, negative: bool)
    ensures Signed(n * p, negative) == Signed(n, negative) * p
  {
  }

  // ---- a decimal reads back ------------------------------------------------

  lemma PlainParses(sign: string, digits: string)
    requires (sign == "" || sign == "-") && digits != "" && !IsSpace(digits[0]) && !IsSpace(digits[|digits| - 1])
    requires digits[0] != '-' && digits[0] != '+' && 'e' !in digits && 'E' !in digits
    ensures ParseDecimal(sign + digits) == ParseMantissa(digits, sign == "-", 0)
  {
    hide Trim, ParseMantissa;
    var t := sign + digits;
    assert t[|t| - 1] == digits[|digits| - 1];
    TrimKeeps(t);
    assert (if sign == "-" then t[1..] else t) == digits;
    assert IndexOf(digits, {'e', 'E'}) == |digits|;
    assert digits[..|digits|] == digits;
  }

  /** Sign, digits and exponent of a decimal text: what stands before the exponent mark is the
      mantissa, the number after it the exponent. */
  lemma ExponentParses(sign: string, digits: string, mark: char, exponent: string)
    requires (sign == "" || sign == "-" || sign == "+") && (mark == 'e' || mark == 'E')
    requires digits != "" && !IsSpace(digits[0]) && digits[0] != '-' && digits[0] != '+' && 'e' !in digits && 'E' !in digits
    requires exponent != "" && !IsSpace(exponent[|exponent| - 1])
    ensures ParseDecimal(sign + digits + [mark] + exponent)
            == match ParseInteger(exponent, I32_MIN, I32_MAX)
               case None => Err(InvalidState)
               case Some(n) => ParseMantissa(digits, sign == "-", n)
  {
    hide Trim, ParseUnsigned, TrimPlus, ParseMantissa, ParseInteger;
    var unsigned := digits + [mark] + exponent;
    var t := sign + digits + [mark] + exponent;
    assert t == sign + unsigned && unsigned[|unsigned| - 1] == exponent[|exponent| - 1] && unsigned[0] == digits[0];
    SignedTrimmed(sign, unsigned);
    PlusTrimmed(sign, unsigned);
    MarkParses(digits, mark, exponent, sign == "-");
  }

  lemma SignedTrimmed(sign: string, unsigned: string)
    requires (sign == "" || sign == "-" || sign == "+") && Trimmed(unsigned)
    ensures Trim(sign + unsigned) == sign + unsigned && (sign + unsigned)[0] == if sign == "" then unsigned[0] else sign[0]
  {
    hide Trim;
    var t := sign + unsigned;
    assert t[|t| - 1] == unsigned[|unsigned| - 1];
    TrimKeeps(t);
  }

  lemma MarkParses(digits: string, mark: char, exponent: string, negative: bool)
    requires (mark == 'e' || mark == 'E') && 'e' !in digits && 'E' !in digits
    ensures ParseUnsigned(digits + [mark] + exponent, negative)
            == match ParseInteger(exponent, I32_MIN, I32_MAX)
               case None => Err(InvalidState)
               case Some(n) => ParseMantissa(digits, negative, n)
  {
    hide ParseMantissa, ParseInteger;
    var unsigned := digits + [mark] + exponent;
    FirstMark(digits, mark, exponent, {'e', 'E'});
    assert unsigned[..|digits|] == digits && unsigned[|digits| + 1..] == exponent;
  }

  lemma PlusTrimmed(sign: string, unsigned: string)
    requires (sign == "" || sign == "-" || sign == "+") && unsigned != "" && unsigned[0] != '+' && unsigned[0] != '-'
    ensures TrimPlus(if sign == "-" then (sign + unsigned)[1..] else sign + unsigned) == unsigned
  {
    assert (sign + unsigned)[|sign|..] == unsigned;
    assert sign == "" ==> sign + unsigned == unsigned;
  }

  lemma PointParses(integer: string, fraction: string, negative: bool)
    requires AllDigits(integer) && AllDigits(fraction) && integer != "" && |fraction| <= I32_MAX
    requires NumberOf(integer + fraction) <= I128_MAX
    ensures ParseMantissa(integer + "." + fraction, negative, 0) == Scaled(NumberOf(integer + fraction), negative, |fraction|)
  {
    hide NumberOf, Scaled;
    FirstMark(integer, '.', fraction, {'.'});
    var s := integer + "." + fraction;
    assert s[..|integer|] == integer && s[|integer| + 1..] == fraction;
  }

  lemma WholeParses(integer: string, negative: bool)
    requires AllDigits(integer) && integer != "" && NumberOf(integer) <= I128_MAX
    ensures ParseMantissa(integer, negative, 0) == Scaled(NumberOf(integer), negative, 0)
  {
    hide NumberOf, Scaled;
    assert IndexOf(integer, {'.'}) == |integer|;
    assert integer[..|integer|] == integer && integer + "" == integer;
  }

  lemma WholeReads(sign: string, whole: string)
    requires (sign == "" || sign == "-") && AllDigits(whole) && whole != "" && NumberOf(whole) <= I128_MAX
    ensures ParseDecimal(sign + whole) == Scaled(NumberOf(whole), sign == "-", 0)
  {
    hide NumberOf, Scaled, ParseDecimal, ParseMantissa;
    PlainParses(sign, whole);
    WholeParses(whole, sign == "-");
  }

  lemma PointReads(sign: string, whole: string, fraction: string)
    requires (sign == "" || sign == "-") && AllDigits(whole) && whole != "" && AllDigits(fraction) && fraction != ""
    requires |fraction| <= I32_MAX && NumberOf(whole + fraction) <= I128_MAX
    ensures ParseDecimal(sign + whole + "." + fraction) == Scaled(NumberOf(whole + fraction), sign == "-", |fraction|)
  {
    hide NumberOf, Scaled, ParseDecimal, ParseMantissa;
    var s := whole + "." + fraction;
    assert s[|s| - 1] == fraction[|fraction| - 1] && s[0] == whole[0];
    assert sign + whole + "." + fraction == sign + s;
    PlainParses(sign, s);
    PointParses(whole, fraction, sign == "-");
  }

  /** Every decimal is read back from its text with its mantissa and its scale. */
  lemma DecimalTextReads(d: Decimal)
    ensures ParseDecimal(Text(d)) == Ok(d)
  {
    hide NumberOf, FixedDigits, NatText, Shift, ParseDecimal, Pow10, Digits;
    var a, sign := Abs(d.mantissa), Sign(d.mantissa);
    MantissaBound(d);
    ScaledBack(d);
    if d.scale == 0 {
      NatReads(a);
      WholeReads(sign, NatText(a));
    } else {
      PartsRead(a, d.scale);
      PointReads(sign, NatText(Shift(a, d.scale)), FixedDigits(a, d.scale));
    }
  }

  lemma ScaledBack(d: Decimal)
    requires Abs(d.mantissa) <= I128_MAX
    ensures d.scale <= 38 && Scaled(Abs(d.mantissa), d.mantissa < 0, d.scale) == Ok(d)
  {
  }

  lemma PartsRead(a: nat, scale: nat)
    ensures NumberOf(NatText(Shift(a, scale)) + FixedDigits(a, scale)) == a
  {
    hide NumberOf, FixedDigits, NatText, Shift;
    NatReads(Shift(a, scale));
    NumberSplit(NatText(Shift(a, scale)), FixedDigits(a, scale));
    ShiftValue(a, scale);
  }
}
