/** Fixed-point decimals: mantissa / 10^scale with at most 38 digits, over i128.
    Every unchecked i128 operation of the source is written with the type `i128`,
    so that it verifies only because it cannot overflow. */
module Decimals {
  import opened Common
  import opened Bytes

  const MAX_PRECISION: nat := 38
  const I128_MIN := -0x8000_0000_0000_0000_0000_0000_0000_0000
  const I128_MAX := 0x7FFF_FFFF_FFFF_FFFF_FFFF_FFFF_FFFF_FFFF

  // ---- integer arithmetic --------------------------------------------------

  function Abs(x: int): nat {
    if x < 0 then -x else x
  }

  function Signum(x: int): int {
    if x < 0 then -1 else if x == 0 then 0 else 1
  }

  /** Division truncating toward zero, as in the source language. */
  function Div0(a: int, b: int): int
    requires b != 0
  {
    if (a < 0) == (b < 0) then Abs(a) / Abs(b) else -(Abs(a) / Abs(b))
  }

  /** The remainder of truncating division; it has the sign of the dividend. */
  function Rem0(a: int, b: int): int
    requires b != 0
  {
    if a < 0 then -(Abs(a) % Abs(b)) else Abs(a) % Abs(b)
  }

  function Pow10(n: nat): (p: nat)
    ensures p > 0
  {
    if n == 0 then 1 else 10 * Pow10(n - 1)
  }

  lemma {:induction false} Pow10Add(a: nat, b: nat)
    ensures Pow10(a + b) == Pow10(a) * Pow10(b)
  {
    if a > 0 {
      Pow10Add(a - 1, b);
      assert Pow10(a) * Pow10(b) == 10 * (Pow10(a - 1) * Pow10(b));
    }
  }

  lemma {:induction false} Pow10Monotone(a: nat, b: nat)
    requires a <= b
    ensures Pow10(a) <= Pow10(b)
  {
    if a < b {
      Pow10Monotone(a, b - 1);
    }
  }

  /** Ten to the 38th fits a signed 128-bit integer; ten to the 39th does not. */
  lemma Pow10Limits()
    ensures 10 * Pow10(18) == 0x8AC7_2304_89E8_0000
    ensures Pow10(38) <= I128_MAX < 10 * Pow10(38) == Pow10(39)
  {
    assert Pow10(4) == 10_000 by { assert Pow10(2) == 100; }
    Pow10Add(4, 4);
    Pow10Add(8, 8);
    Pow10Add(16, 2);
    Pow10Add(16, 16);
    Pow10Add(32, 4);
    Pow10Add(36, 2);
    assert Pow10(2) == 100;
    assert Pow10(16) == 10_000_000_000_000_000;
    assert Pow10(36) == 1_000_000_000_000_000_000_000_000_000_000_000_000;
  }

  lemma MulOrder(a: int, b: int, c: int)
    requires c > 0
    ensures CompareInts(a * c, b * c) == CompareInts(a, b)
  {
    if a < b {
      assert (b - a) * c > 0;
    } else if b < a {
      assert (a - b) * c > 0;
    }
  }

  // ---- construction and normal form ----------------------------------------

  /** The number of decimal digits of a mantissa; zero has none. */
  function Digits(n: nat): nat {
    if n == 0 then 0 else 1 + Digits(n / 10)
  }

  lemma {:induction false} DigitsBound(n: nat, k: nat)
    ensures Digits(n) <= k <==> n < Pow10(k)
  {
    if n > 0 {
      if k > 0 {
        DigitsBound(n / 10, k - 1);
      }
    }
  }

  method DigitCount(mantissa: i128) returns (digits: nat)
    ensures digits == Digits(Abs(mantissa))
  {
    digits := 0;
    var value := Abs(mantissa);
    while value > 0
      invariant digits + Digits(value) == Digits(Abs(mantissa))
    {
      value := value / 10;
      digits := digits + 1;
    }
  }

  datatype Fixed = Fixed(mantissa: i128, scale: u32) {
    predicate Valid() {
      Digits(Abs(mantissa)) + scale <= MAX_PRECISION
    }
  }

  /** Decimals are built by `New`, so every one of them fits the precision. */
  type Decimal = d: Fixed | d.Valid() witness Fixed(0, 0)

  function New(mantissa: i128, scale: u32): (r: Result<Decimal>)
    ensures r.Ok? <==> Fixed(mantissa, scale).Valid()
    ensures r.Ok? ==> r.value == Fixed(mantissa, scale)
  {
    if scale > MAX_PRECISION then Err(OutOfRange)
    else if Digits(Abs(mantissa)) + scale > MAX_PRECISION then Err(OutOfRange)
    else Ok(Fixed(mantissa, scale))
  }

  /** Two decimals denote the same number. */
  predicate SameValue(a: Fixed, b: Fixed) {
    a.mantissa * Pow10(b.scale) == b.mantissa * Pow10(a.scale)
  }

  /** Trailing zero digits removed. */
  function Normal(d: Fixed): (n: Fixed)
    ensures n.scale == 0 || n.mantissa % 10 != 0
    ensures n.scale <= d.scale && (d.Valid() ==> n.Valid())
    decreases d.scale
  {
    if d.scale > 0 && d.mantissa % 10 == 0 then
      assert Abs(d.mantissa / 10) == Abs(d.mantissa) / 10;
      Normal(Fixed(d.mantissa / 10, d.scale - 1))
    else d
  }

  method Normalize(d: Fixed) returns (n: Fixed)
    ensures n == Normal(d)
  {
    var mantissa, scale := d.mantissa, d.scale;
    while scale > 0 && Rem0(mantissa, 10) == 0
      invariant Normal(Fixed(mantissa, scale)) == Normal(d)
    {
      assert Div0(mantissa, 10) == mantissa / 10;
      mantissa := mantissa / 10;
      scale := scale - 1;
    }
    n := Fixed(mantissa, scale);
  }

  lemma {:induction false} NormalKeepsValue(d: Fixed)
    ensures SameValue(d, Normal(d))
    decreases d.scale
  {
    if d.scale > 0 && d.mantissa % 10 == 0 {
      var next := Fixed(d.mantissa / 10, d.scale - 1);
      NormalKeepsValue(next);
      TenTimes(next.mantissa, Pow10(Normal(d).scale), Normal(d).mantissa, Pow10(next.scale));
    }
  }

  lemma TenTimes(x: int, p: int, y: int, q: int)
    requires x * p == y * q
    ensures (10 * x) * p == y * (10 * q)
  {
    assert (10 * x) * p == 10 * (x * p);
    assert y * (10 * q) == 10 * (y * q);
  }

  lemma CrossMultiply(x: int, y: int, z: int, pa: int, pb: int, pc: int)
    requires x * pb == y * pa && y * pc == z * pb && pb > 0
    ensures x * pc == z * pa
  {
    assert (x * pc) * pb == (x * pb) * pc;
    assert (y * pa) * pc == (y * pc) * pa;
    assert (z * pb) * pa == (z * pa) * pb;
    MulOrder(x * pc, z * pa, pb);
  }

  lemma SameValueTransitive(a: Fixed, b: Fixed, c: Fixed)
    requires SameValue(a, b) && SameValue(b, c)
    ensures SameValue(a, c)
  {
    CrossMultiply(a.mantissa, b.mantissa, c.mantissa, Pow10(a.scale), Pow10(b.scale), Pow10(c.scale));
  }

  lemma AlignedSame(a: Fixed, b: Fixed)
    requires a.scale <= b.scale
    ensures CompareInts(a.mantissa * Pow10(b.scale - a.scale), b.mantissa) == RationalOrder(a, b)
  {
    Pow10Add(b.scale - a.scale, a.scale);
    MulAssociates(a.mantissa, Pow10(b.scale - a.scale), Pow10(a.scale));
    MulOrder(a.mantissa * Pow10(b.scale - a.scale), b.mantissa, Pow10(a.scale));
  }

  lemma MulAssociates(x: int, y: int, z: int)
    ensures (x * y) * z == x * (y * z) == (x * z) * y
  {
  }

  lemma MultipleOfTen(x: int, k: nat)
    requires k > 0
    ensures (x * Pow10(k)) % 10 == 0
  {
    assert x * (10 * Pow10(k - 1)) == 10 * (x * Pow10(k - 1));
  }

  /** A decimal in normal form is determined by its value. */
  lemma NormalUnique(a: Fixed, b: Fixed)
    requires SameValue(a, b) && a.scale <= b.scale
    requires b.scale == 0 || b.mantissa % 10 != 0
    ensures a == b
  {
    AlignedSame(a, b);
    if a.scale < b.scale {
      MultipleOfTen(a.mantissa, b.scale - a.scale);
      assert false;
    }
  }

  /** Equal numbers, and only those, share one normal form. */
  lemma NormalDecidesValue(a: Fixed, b: Fixed)
    ensures SameValue(a, b) <==> Normal(a) == Normal(b)
  {
    var na, nb := Normal(a), Normal(b);
    NormalKeepsValue(a);
    NormalKeepsValue(b);
    if SameValue(a, b) {
      SameValueTransitive(na, a, b);
      SameValueTransitive(na, b, nb);
      if na.scale <= nb.scale {
        NormalUnique(na, nb);
      } else {
        NormalUnique(nb, na);
      }
    }
    if na == nb {
      SameValueTransitive(a, na, b);
    }
  }

  // ---- order ---------------------------------------------------------------

  function CheckedMul(a: int, b: int): Option<i128> {
    if I128_MIN <= a * b <= I128_MAX then Some(a * b) else None
  }

  /** A decimal against one of larger scale: its mantissa is scaled up, and when that
      overflows the sign decides. */
  function CompareAligned(smaller: Decimal, larger: Decimal): Ordering
    requires smaller.scale < larger.scale
  {
    var factor: i128 := (MantissaBound(larger); Pow10(larger.scale - smaller.scale));
    OrderOrSign(CheckedMul(smaller.mantissa, factor), smaller.mantissa, larger.mantissa)
  }

  function OrderOrSign(product: Option<i128>, mantissa: int, other: int): Ordering {
    match product
    case Some(aligned) => CompareInts(aligned, other)
    case None => if mantissa >= 0 then Greater else Less
  }

  function Reverse(order: Ordering): Ordering {
    match order case Less => Greater case Equal => Equal case Greater => Less
  }

  function Compare(a: Decimal, b: Decimal): Ordering
  {
    if a.scale == b.scale then CompareInts(a.mantissa, b.mantissa)
    else if a.scale < b.scale then CompareAligned(a, b)
    else Reverse(CompareAligned(b, a))
  }

  /** The order of the numbers themselves. */
  function RationalOrder(a: Fixed, b: Fixed): Ordering {
    CompareInts(a.mantissa * Pow10(b.scale), b.mantissa * Pow10(a.scale))
  }

  lemma MantissaBound(d: Decimal)
    ensures Abs(d.mantissa) < Pow10(38) <= I128_MAX
    ensures forall k :: 0 <= k <= 38 ==> Pow10(k) <= Pow10(38)
  {
    DigitsBound(Abs(d.mantissa), 38);
    Pow10Limits();
    forall k | 0 <= k <= 38 ensures Pow10(k) <= Pow10(38) {
      Pow10Monotone(k, 38);
    }
  }

  lemma SignOfProduct(x: int, p: int)
    requires p > 0
    ensures x >= 0 ==> x * p >= 0
    ensures x <= 0 ==> x * p <= 0
  {
  }

  lemma OverflowDecidesOrder(mantissa: int, factor: int, other: int)
    requires factor > 0 && Abs(other) < Pow10(38) <= I128_MAX
    ensures OrderOrSign(CheckedMul(mantissa, factor), mantissa, other) == CompareInts(mantissa * factor, other)
  {
    SignOfProduct(mantissa, factor);
  }

  lemma AlignedOrder(smaller: Decimal, larger: Decimal)
    requires smaller.scale < larger.scale
    ensures CompareAligned(smaller, larger) == RationalOrder(smaller, larger)
  {
    MantissaBound(larger);
    OverflowDecidesOrder(smaller.mantissa, Pow10(larger.scale - smaller.scale), larger.mantissa);
    AlignedSame(smaller, larger);
  }

  /** Comparison is the order of the rational numbers, on the overflow path too. */
  lemma CompareIsRationalOrder(a: Decimal, b: Decimal)
    ensures Compare(a, b) == RationalOrder(a, b)
  {
    if a.scale == b.scale {
      MulOrder(a.mantissa, b.mantissa, Pow10(a.scale));
    } else if a.scale < b.scale {
      AlignedOrder(a, b);
    } else {
      AlignedOrder(b, a);
    }
  }

  /** Comparison finds two decimals equal exactly when their key forms coincide. */
  lemma EqualIffSameNormal(a: Decimal, b: Decimal)
    ensures Compare(a, b) == Equal <==> Normal(a) == Normal(b)
  {
    CompareIsRationalOrder(a, b);
    NormalDecidesValue(a, b);
  }

  function SaturatingMul(a: int, b: int): i128 {
    if a * b < I128_MIN then I128_MIN else if a * b > I128_MAX then I128_MAX else a * b
  }

  /** An integer against a decimal, the integer scaled up with saturation. */
  function CompareScaled(n: i128, d: Fixed): Ordering {
    var power := if Pow10(d.scale) > I128_MAX then I128_MAX else Pow10(d.scale);
    CompareInts(SaturatingMul(n, power), d.mantissa)
  }

  /** Saturation never changes the outcome: integer and decimal compare as numbers. */
  lemma CompareScaledExact(n: i128, d: Decimal)
    ensures CompareScaled(n, d) == RationalOrder(Fixed(n, 0), d)
  {
    Pow10Limits();
    Pow10Monotone(d.scale, 38);
    DigitsBound(Abs(d.mantissa), 38);
  }

  // ---- rounding ------------------------------------------------------------

  /** `q` is the integer nearest to num/den, ties taken away from zero. */
  predicate NearestAway(num: int, den: int, q: int) {
    && 2 * Abs(q * den - num) <= Abs(den)
    && (2 * Abs(q * den - num) == Abs(den) ==> Abs(q * den) > Abs(num))
  }

  /** There is only one such integer. */
  lemma NearestAwayUnique(num: int, den: int, p: int, q: int)
    requires den != 0 && NearestAway(num, den, p) && NearestAway(num, den, q)
    ensures p == q
  {
    AbsScales(p - q, Abs(den));
    assert Abs((p - q) * Abs(den)) == Abs(p * den - q * den) by {
      assert (p - q) * den == p * den - q * den;
      assert (p - q) * -den == -((p - q) * den);
    }
    if p != q {
      SmallMultiple(Abs(p - q), Abs(den), Abs(p * den - q * den));
      assert false;
    }
  }

  lemma SmallMultiple(k: nat, d: nat, x: nat)
    requires k >= 1 && k * d == x
    ensures x >= d && (x == d && d > 0 ==> k == 1)
  {
    assert k * d == d + (k - 1) * d;
    if k >= 2 && d > 0 {
      assert (k - 1) * d >= d;
    }
  }

  lemma AbsScales(x: int, p: nat)
    ensures Abs(x * p) == Abs(x) * p
  {
    if x < 0 {
      assert x * p == -((-x) * p);
    }
  }

  lemma DivMod(a: nat, b: nat)
    requires b > 0
    ensures (a / b) * b + a % b == a && a % b < b
  {
  }

  lemma NatDivision(a: nat, b: nat)
    requires b > 0
    ensures (a / b) * b + a % b == a && a % b < b && (a / b) * b <= a
    ensures a / b <= a && (b >= 2 ==> 2 * (a / b) <= a)
  {
    DivMod(a, b);
    QuotientBound(a / b, b, a);
  }

  lemma QuotientBound(q: nat, b: nat, a: nat)
    requires b > 0 && q * b <= a
    ensures q <= a && (b >= 2 ==> 2 * q <= a)
  {
    assert q * (b - 1) >= 0 && q * b == q * (b - 1) + q;
    if b >= 2 {
      assert q * (b - 2) >= 0 && q * b == q * (b - 2) + 2 * q;
    }
  }

  lemma Negations(q: int, b: int)
    ensures (-q) * b == -(q * b) && q * -b == -(q * b) && (-q) * -b == q * b
  {
  }

  lemma Div0Facts(a: int, b: int)
    requires b != 0
    ensures Div0(a, b) * b + Rem0(a, b) == a
    ensures Abs(Rem0(a, b)) < Abs(b)
    ensures Abs(Div0(a, b)) == Abs(a) / Abs(b) <= Abs(a)
    ensures a >= 0 ==> 0 <= Div0(a, b) * b <= a
    ensures a <= 0 ==> a <= Div0(a, b) * b <= 0
  {
    NatDivision(Abs(a), Abs(b));
    Negations(Abs(a) / Abs(b), Abs(b));
  }

  /** Truncating and stepping away from zero on a large remainder rounds to nearest. */
  lemma RoundingStep(num: int, den: int)
    requires den != 0
    ensures NearestAway(num, den, RoundAway(num, den))
  {
    Div0Facts(num, den);
    var q, r := Div0(num, den), Rem0(num, den);
    if 2 * Abs(r) >= Abs(den) {
      StepProduct(q, Signum(num), den);
    }
  }

  lemma StepProduct(q: int, s: int, den: int)
    ensures (q + s * Signum(den)) * den == q * den + s * Abs(den)
  {
    assert Signum(den) * den == Abs(den);
    assert (s * Signum(den)) * den == s * (Signum(den) * den);
  }

  function RoundAway(num: int, den: int): int
    requires den != 0
  {
    if 2 * Abs(Rem0(num, den)) >= Abs(den)
    then Div0(num, den) + Signum(num) * Signum(den)
    else Div0(num, den)
  }

  function Rescale(d: Decimal, target: u32): Result<Decimal>
  {
    if target >= d.scale then
      if Pow10(target - d.scale) > I128_MAX then Err(OutOfRange)
      else match CheckedMul(d.mantissa, Pow10(target - d.scale))
           case None => Err(OutOfRange)
           case Some(mantissa) => New(mantissa, target)
    else New(RoundDown(d, target), target)
  }

  lemma TruncationFits(m: int, divisor: int)
    requires Abs(m) < Pow10(38) <= I128_MAX && 0 < divisor <= I128_MAX
    ensures I128_MIN < Div0(m, divisor) < I128_MAX && I128_MIN < Rem0(m, divisor) < I128_MAX
  {
    hide Div0, Rem0, Pow10;
    Div0Facts(m, divisor);
  }

  /** The mantissa at a coarser scale: truncated, then stepped away from zero when the
      remainder reaches half the divisor. */
  function RoundDown(d: Decimal, target: u32): i128
    requires target < d.scale
  {
    var divisor: i128 := (MantissaBound(d); Pow10(d.scale - target));
    var quotient: i128 := (MantissaBound(d); TruncationFits(d.mantissa, divisor); Div0(d.mantissa, divisor));
    var remainder: i128 := Rem0(d.mantissa, divisor);
    var half: i128 := divisor / 2;
    if Abs(remainder) >= half then quotient + Signum(d.mantissa) else quotient
  }

  /** A successful rescale is exact when the target is finer, and otherwise the
      nearest value with ties away from zero. */
  lemma RescaleRounds(d: Decimal, target: u32)
    requires Rescale(d, target).Ok?
    ensures var r := Rescale(d, target).value;
            && r.scale == target
            && (target >= d.scale ==> SameValue(r, d))
            && (target < d.scale ==> NearestAway(d.mantissa, Pow10(d.scale - target), r.mantissa))
  {
    if target >= d.scale {
      Pow10Add(target - d.scale, d.scale);
      MulAssociates(d.mantissa, Pow10(target - d.scale), Pow10(d.scale));
    } else {
      RoundDownIsRoundAway(d, target);
      RoundingStep(d.mantissa, Pow10(d.scale - target));
    }
  }

  lemma RoundDownIsRoundAway(d: Decimal, target: u32)
    requires target < d.scale
    ensures RoundDown(d, target) == RoundAway(d.mantissa, Pow10(d.scale - target))
  {
    hide Div0, Rem0, Digits;
    HalfOfPower(Abs(Rem0(d.mantissa, Pow10(d.scale - target))), d.scale - target);
  }

  lemma HalfOfPower(r: nat, k: nat)
    requires k > 0
    ensures r >= Pow10(k) / 2 <==> 2 * r >= Pow10(k)
  {
    var five := 5 * Pow10(k - 1);
    assert Pow10(k) == 2 * five;
    hide Pow10;
  }

  /** Rescaling to a finer scale fails exactly when the digits do not fit. */
  lemma RescaleUpFails(d: Decimal, target: u32)
    requires target >= d.scale
    ensures Rescale(d, target).Ok? <==>
            Digits(Abs(d.mantissa) * Pow10(target - d.scale)) + target <= MAX_PRECISION
  {
    hide Digits, Pow10;
    if target <= MAX_PRECISION {
      MantissaBound(d);
      AbsScales(d.mantissa, Pow10(target - d.scale));
      DigitsBound(Abs(d.mantissa) * Pow10(target - d.scale), 38);
    }
  }

  // ---- arithmetic ----------------------------------------------------------

  datatype Operator = Add | Subtract | Multiply | Divide | Modulo

  function CheckedAdd(a: int, b: int): Option<i128> {
    if I128_MIN <= a + b <= I128_MAX then Some(a + b) else None
  }

  function Evaluate(op: Operator, l: Decimal, r: Decimal): Result<Decimal>
  {
    match op
    case Add | Subtract =>
      var scale := if l.scale >= r.scale then l.scale else r.scale;
      var l1 :- Rescale(l, scale);
      var r1 :- Rescale(r, scale);
      (match CheckedAdd(l1.mantissa, if op == Add then r1.mantissa else 0 - r1.mantissa as int)
       case None => Err(OutOfRange)
       case Some(mantissa) => New(mantissa, scale))
    case Multiply =>
      (match CheckedMul(l.mantissa, r.mantissa)
       case None => Err(OutOfRange)
       case Some(mantissa) => New(mantissa, l.scale + r.scale))
    case Divide => DivideDecimals(l, r)
    case Modulo => Err(Unsupported)
  }

  function DivideDecimals(l: Decimal, r: Decimal): Result<Decimal>
  {
    if r.mantissa == 0 then Err(DivisionByZero)
    else
      var target := l.scale + Digits(Abs(r.mantissa)) + 4;
      var shift := target + r.scale - l.scale;
      if Pow10(shift) > I128_MAX then Err(OutOfRange)
      else match CheckedMul(l.mantissa, Pow10(shift))
           case None => Err(OutOfRange)
           case Some(numerator) =>
             var quotient: i128 := (QuotientFits(l.mantissa, shift, r.mantissa); Div0(numerator, r.mantissa));
             var remainder: i128 := (Div0Facts(numerator, r.mantissa); Rem0(numerator, r.mantissa));
             var rounded: i128 :=
               if 2 * Abs(remainder) >= Abs(r.mantissa)
               then (StepFits(numerator, r.mantissa); quotient + Signum(numerator) * Signum(r.mantissa))
               else quotient;
             New(rounded, target)
  }

  /** The numerator is a multiple of ten, so it is not the most negative i128 and its
      quotient by minus one cannot overflow. */
  lemma QuotientFits(mantissa: int, shift: nat, divisor: int)
    requires divisor != 0 && shift > 0
    requires I128_MIN <= mantissa * Pow10(shift) <= I128_MAX
    ensures I128_MIN <= Div0(mantissa * Pow10(shift), divisor) <= I128_MAX
  {
    Div0Facts(mantissa * Pow10(shift), divisor);
    MultipleOfTen(mantissa, shift);
    assert I128_MIN % 10 != 0;
  }

  /** Rounding is needed only when the divisor is at least two in magnitude, where
      the quotient leaves room for the step. */
  lemma StepFits(numerator: int, divisor: int)
    requires divisor != 0 && 2 * Abs(Rem0(numerator, divisor)) >= Abs(divisor)
    requires I128_MIN <= numerator <= I128_MAX
    ensures I128_MIN <= Div0(numerator, divisor) + Signum(numerator) * Signum(divisor) <= I128_MAX
  {
    Div0Facts(numerator, divisor);
    NatDivision(Abs(numerator), Abs(divisor));
    assert -1 <= Signum(numerator) * Signum(divisor) <= 1;
  }

  /** `v` is the exact sum, difference or product of `l` and `r`. */
  predicate IsExact(op: Operator, l: Fixed, r: Fixed, v: Fixed) {
    var (pl, pr, pv) := (Pow10(l.scale), Pow10(r.scale), Pow10(v.scale));
    match op
    case Add => v.mantissa * (pl * pr) == (l.mantissa * pr + r.mantissa * pl) * pv
    case Subtract => v.mantissa * (pl * pr) == (l.mantissa * pr - r.mantissa * pl) * pv
    case Multiply => v.mantissa * (pl * pr) == (l.mantissa * r.mantissa) * pv
    case _ => false
  }

  lemma SumExact(l1: int, r1: int, l: int, r: int, pl: int, pr: int, pv: int)
    requires l1 * pl == l * pv && r1 * pr == r * pv
    ensures (l1 + r1) * (pl * pr) == (l * pr + r * pl) * pv
  {
    MulAssociates(l1, pl, pr);
    MulAssociates(r1, pr, pl);
    MulAssociates(l, pv, pr);
    MulAssociates(r, pv, pl);
    assert (l1 + r1) * (pl * pr) == l1 * (pl * pr) + r1 * (pr * pl);
    assert (l * pr + r * pl) * pv == (l * pr) * pv + (r * pl) * pv;
  }

  /** Successful addition, subtraction and multiplication are exact. */
  lemma ArithmeticExact(op: Operator, l: Decimal, r: Decimal)
    requires Evaluate(op, l, r).Ok?
    requires op == Add || op == Subtract || op == Multiply
    ensures IsExact(op, l, r, Evaluate(op, l, r).value)
  {
    var v := Evaluate(op, l, r).value;
    var (pl, pr, pv) := (Pow10(l.scale), Pow10(r.scale), Pow10(v.scale));
    if op == Multiply {
      Pow10Add(l.scale, r.scale);
    } else {
      RescaleRounds(l, v.scale);
      RescaleRounds(r, v.scale);
      var l1, r1 := Rescale(l, v.scale).value, Rescale(r, v.scale).value;
      if op == Add {
        SumExact(l1.mantissa, r1.mantissa, l.mantissa, r.mantissa, pl, pr, pv);
      } else {
        Negations(r1.mantissa, pr);
        Negations(r.mantissa, pv);
        Negations(r.mantissa, pl);
        SumExact(l1.mantissa, -(r1.mantissa as int), l.mantissa, -(r.mantissa as int), pl, pr, pv);
      }
    }
  }

  /** A successful division is the true quotient rounded to the result's scale,
      nearest with ties away from zero. */
  lemma DivisionRounds(l: Decimal, r: Decimal)
    requires Evaluate(Divide, l, r).Ok?
    ensures var v := Evaluate(Divide, l, r).value;
            && r.mantissa != 0
            && v.scale == l.scale + Digits(Abs(r.mantissa)) + 4
            && NearestAway(l.mantissa * Pow10(v.scale + r.scale), r.mantissa * Pow10(l.scale), v.mantissa)
  {
    var v := Evaluate(Divide, l, r).value;
    var shift := v.scale + r.scale - l.scale;
    var num := l.mantissa * Pow10(shift);
    assert v.mantissa == RoundAway(num, r.mantissa);
    RoundingStep(num, r.mantissa);
    Pow10Add(shift, l.scale);
    MulAssociates(l.mantissa, Pow10(shift), Pow10(l.scale));
    NearestScales(num, r.mantissa, v.mantissa, Pow10(l.scale));
  }

  lemma ScaledError(num: int, den: int, q: int, p: nat)
    ensures Abs(q * (den * p) - num * p) == Abs(q * den - num) * p
    ensures Abs(q * (den * p)) == Abs(q * den) * p
  {
    MulAssociates(q, den, p);
    assert (q * den - num) * p == (q * den) * p - num * p;
    AbsScales(q * den - num, p);
    AbsScales(q * den, p);
  }

  lemma NearestScales(num: int, den: int, q: int, p: nat)
    requires NearestAway(num, den, q) && p > 0
    ensures NearestAway(num * p, den * p, q)
  {
    ScaledError(num, den, q, p);
    AbsScales(den, p);
    AbsScales(num, p);
    ScaledBounds(Abs(q * den - num), Abs(den), Abs(q * den), Abs(num), p);
  }

  lemma ScaledBounds(e: nat, d: nat, x: nat, n: nat, p: nat)
    requires 2 * e <= d && (2 * e == d ==> x > n) && p > 0
    ensures 2 * (e * p) <= d * p && (2 * (e * p) == d * p ==> x * p > n * p)
  {
    MulOrder(2 * e, d, p);
    MulOrder(x, n, p);
    MulAssociates(2, e, p);
  }
}
