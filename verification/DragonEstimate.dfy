/**
  The exponent that format_float estimates for format_dragon from the binary exponent alone, and
  why it is always right or one too big.
*/
module DragonEstimate {
  import opened Powers
  import opened Limbs
  import opened DragonMath
  import opened Dragon
  import opened FormatDragon
  import opened DragonMeaning

  // ---------------------------------------------------------------- the estimate

  // inv_log2_10
  const INVERSE_LOG: real := 0.3010299956639812

  /** argument is (m * inv_log2_10 - 1e-10), computed with rounding errors of less than 1e-11 in all. */
  ghost predicate Computed(argument: real, m: int) {
    -0.00000000001 <= argument - (m as real * INVERSE_LOG - 0.0000000001) <= 0.00000000001
  }

  /** k is std::ceil(m * inv_log2_10 - 1e-10). */
  ghost predicate EstimatedFrom(k: int, m: int) {
    exists argument: real :: Computed(argument, m) && k as real - 1.0 < argument <= k as real
  }

  /** count_digits<1>: the number of binary digits. */
  ghost predicate BinaryDigits(f: nat, digits: nat) {
    digits > 0 && Pow(2, digits - 1) <= f < Pow(2, digits)
  }

  /** The arguments come from format_float, which asks for the fixup; all floating-point formats have such exponents. */
  ghost predicate FromFormatFloat(input: Input) {
    && -28000 <= input.e <= 28000
    && exists digits: nat :: BinaryDigits(input.f, digits) && digits <= 128 &&
                             EstimatedFrom(input.exp10, input.e + digits - 1)
  }

  // ---------------------------------------------------------------- two powers of two next to powers of ten

  const TENS_BELOW: nat := 4647
  const TWOS_BELOW: nat := 15437
  const TENS_ABOVE: nat := 4004
  const TWOS_ABOVE: nat := 13301

  ghost predicate AtMost(n: nat, u: nat, s: nat) {
    Pow(2, n) <= u * Pow(10, s)
  }

  ghost predicate AtLeast(n: nat, u: nat, s: nat) {
    u * Pow(10, s) <= Pow(2, n)
  }

  lemma Squares(n: nat, u: nat, s: nat, bit: nat, r: nat)
    requires bit <= 1
    ensures Pow(2, 2 * n + bit) == (Pow(2, n) * Pow(2, n)) * (1 + bit)
    ensures (u * Pow(10, s)) * (u * Pow(10, s)) * (1 + bit) == (u * u * (1 + bit)) * Pow(10, 2 * s)
    ensures Pow(10, 2 * s + r) == Pow(10, r) * Pow(10, 2 * s)
  {
    PowAdd(2, n, n);
    PowAdd(2, 2 * n, bit);
    assert Pow(2, 0) == 1 && Pow(2, 1) == 2;
    PowAdd(10, s, s);
    PowAdd(10, r, 2 * s);
    var p := Pow(10, s);
    assert (u * p) * (u * p) == (u * u) * (p * p);
    MulAssoc(u * u, p * p, 1 + bit);
    assert (u * u) * (p * p) * (1 + bit) == (u * u * (1 + bit)) * (p * p);
  }

  lemma DoubledAtMost(n: nat, u: nat, s: nat, bit: nat, w: nat, r: nat)
    requires AtMost(n, u, s) && bit <= 1 && u * u * (1 + bit) <= w * Pow(10, r)
    ensures AtMost(2 * n + bit, w, 2 * s + r)
  {
    var a, b, p := Pow(2, n), u * Pow(10, s), Pow(10, 2 * s);
    Squares(n, u, s, bit, r);
    SquareMonotone(a, b);
    MulLe(a * a, b * b, 1 + bit);
    MulLe(u * u * (1 + bit), w * Pow(10, r), p);
    MulAssoc(w, Pow(10, r), p);
  }

  lemma DoubledAtLeast(n: nat, u: nat, s: nat, bit: nat, w: nat, r: nat)
    requires AtLeast(n, u, s) && bit <= 1 && w * Pow(10, r) <= u * u * (1 + bit)
    ensures AtLeast(2 * n + bit, w, 2 * s + r)
  {
    var a, b, p := u * Pow(10, s), Pow(2, n), Pow(10, 2 * s);
    Squares(n, u, s, bit, r);
    SquareMonotone(a, b);
    MulLe(a * a, b * b, 1 + bit);
    MulLe(w * Pow(10, r), u * u * (1 + bit), p);
    MulAssoc(w, Pow(10, r), p);
  }

  lemma SquareMonotone(a: nat, b: nat)
    requires a <= b
    ensures a * a <= b * b
  {
    MulLe(a, b, a);
    MulLe(a, b, b);
  }

  lemma SmallPowers()
    ensures Pow(10, 4) == 10000 && Pow(10, 7) == 10000000 && Pow(10, 11) == 100000000000
    ensures Pow(10, 12) == 1000000000000 && Pow(10, 13) == 10000000000000
    ensures AtMost(25, 33554432, 0) && AtLeast(30, 1073741824, 0)
  {
    Pow10Values();
    assert Pow(2, 10) == 1024 && Pow(2, 5) == 32;
    assert Pow(10, 0) == 1;
    hide Pow;
    PowAdd(10, 10, 1);
    PowAdd(10, 10, 2);
    PowAdd(10, 10, 3);
    PowAdd(2, 10, 10);
    PowAdd(2, 20, 5);
    PowAdd(2, 20, 10);
  }

  lemma TwosAbove()
    ensures Pow(2, TWOS_ABOVE) < Pow(10, TENS_ABOVE)
  {
    SmallPowers();
    hide Pow, AtMost;
    DoubledAtMost(25, 33554432, 0, 1, 225179981369, 4);
    DoubledAtMost(51, 225179981369, 4, 1, 101412048019, 12);
    DoubledAtMost(103, 101412048019, 20, 1, 205688069669, 11);
    DoubledAtMost(207, 205688069669, 51, 1, 846151640084, 11);
    DoubledAtMost(415, 846151640084, 113, 1, 143194519604, 13);
    DoubledAtMost(831, 143194519604, 239, 0, 205046704447, 11);
    DoubledAtMost(1662, 205046704447, 489, 1, 840883020092, 11);
    DoubledAtMost(3325, 840883020092, 989, 0, 707084253480, 12);
    DoubledAtMost(6650, 707084253480, 1990, 1, 999936283039, 12);
    AtMostMeans(TWOS_ABOVE, 999936283039, 3992, TENS_ABOVE);
  }

  lemma TwosBelow()
    ensures Pow(10, TENS_BELOW) < Pow(2, TWOS_BELOW)
  {
    SmallPowers();
    hide Pow, AtLeast;
    DoubledAtLeast(30, 1073741824, 0, 0, 115292150460, 7);
    DoubledAtLeast(60, 115292150460, 7, 0, 132922799576, 11);
    DoubledAtLeast(120, 132922799576, 25, 1, 353369412942, 11);
    DoubledAtLeast(241, 353369412942, 61, 0, 124869942002, 12);
    DoubledAtLeast(482, 124869942002, 134, 0, 155925024155, 11);
    DoubledAtLeast(964, 155925024155, 279, 1, 486252263154, 11);
    DoubledAtLeast(1929, 486252263154, 569, 1, 472882526844, 12);
    DoubledAtLeast(3859, 472882526844, 1150, 0, 223617884194, 12);
    DoubledAtLeast(7718, 223617884194, 2312, 1, 100009916262, 12);
    AtLeastMeans(TWOS_BELOW, 100009916262, 4636, TENS_BELOW);
  }

  lemma AtMostMeans(n: nat, u: nat, s: nat, t: nat)
    requires AtMost(n, u, s) && t == s + 12 && u < 1000000000000
    ensures Pow(2, n) < Pow(10, t)
  {
    SmallPowers();
    PowAdd(10, 12, s);
    PowPositive(10, s);
    MulLt(u, 1000000000000, Pow(10, s));
  }

  lemma AtLeastMeans(n: nat, u: nat, s: nat, t: nat)
    requires AtLeast(n, u, s) && t == s + 11 && u > 100000000000
    ensures Pow(10, t) < Pow(2, n)
  {
    SmallPowers();
    PowAdd(10, 11, s);
    PowPositive(10, s);
    MulLt(100000000000, u, Pow(10, s));
  }

  // ---------------------------------------------------------------- all powers in between

  lemma {:induction false} BaseMonotone(a: nat, b: nat, n: nat)
    requires a <= b
    ensures Pow(a, n) <= Pow(b, n)
    ensures a < b && n > 0 ==> Pow(a, n) < Pow(b, n)
  {
    if n > 0 {
      BaseMonotone(a, b, n - 1);
      MulLe(a, b, Pow(a, n - 1));
      MulLe(Pow(a, n - 1), Pow(b, n - 1), b);
      if a < b {
        if a == 0 {
          PowPositive(b, n);
        } else {
          PowPositive(a, n - 1);
          MulLt(a, b, Pow(a, n - 1));
        }
      }
    }
  }

  /** From one pair of powers to every pair whose exponents are in no bigger a ratio. */
  lemma SmallerRatio(x: nat, y: nat, a: nat, b: nat, p: nat, m: nat)
    requires x > 0 && b > 0 && m > 0 && Pow(x, a) < Pow(y, b) && p * b <= a * m
    ensures Pow(x, p) < Pow(y, m)
  {
    hide Pow;
    if Pow(y, m) <= Pow(x, p) {
      BaseMonotone(Pow(y, m), Pow(x, p), b);
    }
    PowMul(y, m, b);
    PowMul(x, p, b);
    PowMonotone(x, p * b, a * m);
    PowMul(x, a, m);
    BaseMonotone(Pow(x, a), Pow(y, b), m);
    PowMul(y, b, m);
    Commute(b, m);
  }

  lemma Commute(a: int, b: int)
    ensures a * b == b * a
  {
  }

  /** The two ratios are neighbours: no fraction with a small denominator is in between. */
  lemma NothingBetween(p: nat, m: nat)
    requires 0 < m < 28738
    ensures p * TWOS_BELOW <= TENS_BELOW * m || TENS_ABOVE * m <= p * TWOS_ABOVE
  {
    assert TWOS_BELOW * (TENS_ABOVE * m - p * TWOS_ABOVE) + TWOS_ABOVE * (p * TWOS_BELOW - TENS_BELOW * m) == m;
  }

  /** Which of two powers is bigger is told by the ratio with any error below 10^-10. */
  lemma TensBelow(p: nat, m: nat)
    requires 0 < m < 28738 && p as real < m as real * INVERSE_LOG + 0.0000000002
    ensures Pow(10, p) < Pow(2, m)
  {
    NothingBetween(p, m);
    TwosBelow();
    hide Pow;
    SmallerRatio(10, 2, TENS_BELOW, TWOS_BELOW, p, m);
  }

  lemma TensAbove(p: nat, m: nat)
    requires 0 < m < 28738 && p as real > m as real * INVERSE_LOG - 0.0000000002
    ensures Pow(2, m) < Pow(10, p)
  {
    NothingBetween(p, m);
    TwosAbove();
    hide Pow;
    SmallerRatio(2, 10, TWOS_ABOVE, TENS_ABOVE, m, p);
  }

  /** The estimate from m is the exponent k with 10^(k-1) < 2^m <= 10^k. */
  lemma EstimateBrackets(k: int, m: int)
    requires EstimatedFrom(k, m) && -28738 < m < 28738
    ensures RealPow(10, k - 1) < RealPow(2, m) <= RealPow(10, k)
  {
    var argument: real :| Computed(argument, m) && k as real - 1.0 < argument <= k as real;
    if m > 0 {
      assert k >= 1;
      TensBelow(k - 1, m);
      TensAbove(k, m);
    } else if m < 0 {
      assert k <= 0;
      TensBelow(-k, -m);
      TensAbove(1 - k, -m);
      Reciprocals(Pow(10, -k), Pow(2, -m), Pow(10, 1 - k));
      RealPowOfZero();
    } else {
      assert k == 0;
      RealPowOfZero();
      RealPowNext(10, -1);
      TenthBelowOne(RealPow(10, -1));
    }
  }

  lemma RealPowOfZero()
    ensures RealPow(10, 0) == 1.0 && RealPow(2, 0) == 1.0
  {
    RealPowNat(10, 0);
    RealPowNat(2, 0);
  }

  lemma TenthBelowOne(x: real)
    requires Times(x, 10.0) == 1.0
    ensures x < 1.0
  {
  }

  lemma Reciprocals(a: nat, b: nat, c: nat)
    requires 0 < a < b < c
    ensures 1.0 / c as real < 1.0 / b as real < 1.0 / a as real
  {
    ReciprocalOrder(a as real, b as real);
    ReciprocalOrder(b as real, c as real);
  }

  lemma ReciprocalOrder(x: real, y: real)
    requires 0.0 < x < y
    ensures 1.0 / y < 1.0 / x
  {
    var u, v := 1.0 / x, 1.0 / y;
    assert u * x == 1.0 && v * y == 1.0;
    var w := u * v;
    assert u == w * y && v == w * x;
    assert w > 0.0;
    assert w * y - w * x == w * (y - x);
  }

  // ---------------------------------------------------------------- the estimate of a number

  lemma EstimateInRange(input: Input, m: int)
    requires input.f > 0 && input.e <= m <= input.e + 127 && -28000 <= input.e <= 28000
    requires EstimatedFrom(input.exp10, m)
    ensures input.Valid()
  {
  }

  /** 2^m <= f * 2^e < 2^(m+1) */
  lemma NumberBracketed(input: Input, digits: nat)
    requires BinaryDigits(input.f, digits)
    ensures var m := input.e + digits - 1;
            RealPow(2, m) <= Number(input) < 2.0 * RealPow(2, m)
  {
    var e, f := input.e, input.f as real;
    RealPowAdd(2, digits - 1, e);
    RealPowAdd(2, digits, e);
    RealPowNext(2, e + digits - 1);
    RealPowNat(2, digits - 1);
    RealPowNat(2, digits);
    hide Pow, RealPow;
    TimesMonotone(Pow(2, digits - 1) as real, f, RealPow(2, e));
    TimesOrder(Pow(2, digits) as real, f, RealPow(2, e));
    TimesTwo(RealPow(2, e + digits - 1));
  }

  lemma TimesMonotone(x: real, y: real, z: real)
    requires x <= y && z > 0.0
    ensures Times(x, z) <= Times(y, z)
  {
    TimesOrder(y, x, z);
  }

  lemma TimesTwo(x: real)
    ensures Times(x, 2.0) == 2.0 * x
  {
  }

  /**
    The estimate of format_float is good for every number, normalised or not:
    the number is between a tenth of 10^exp10 and 2 * 10^exp10, so even its upper boundary is
    below 10^(exp10+1).
  */
  lemma EstimateIsGood(input: Input)
    requires FromFormatFloat(input) && input.f > 0
    ensures input.Valid() && GoodEstimate(input, true) && input.Window().BelowTen(input.Even())
    ensures input.Window().num < 2 * input.Window().den
  {
    var digits: nat :| BinaryDigits(input.f, digits) && digits <= 128 &&
                       EstimatedFrom(input.exp10, input.e + digits - 1);
    var m, k := input.e + digits - 1, input.exp10;
    EstimateInRange(input, m);
    EstimateBrackets(k, m);
    NumberBracketed(input, digits);
    WindowMeasures(input);
    GapBelowHalf(input);
    var x := input.Window();
    var c: real :| ScaledBy(x, input, k, c);
    RealPowNext(10, k - 1);
    hide Pow, RealPow, Number, GapBelow, GapAbove, Times, EstimatedFrom, BinaryDigits, Input.Numerator,
      Input.Denominator, Input.Lower, Input.Upper;
    BetweenTenths(Number(input), RealPow(10, k - 1), RealPow(10, k), c);
  }

  lemma BetweenTenths(v: real, tenth: real, ten: real, c: real)
    requires c > 0.0 && tenth < v < 2.0 * ten && ten == Times(tenth, 10.0)
    ensures Times(v, c) < 2.0 * Times(c, ten) && Times(c, ten) < 10.0 * Times(v, c)
  {
    assert (v - tenth) * c > 0.0 && (2.0 * ten - v) * c > 0.0;
  }

  // ---------------------------------------------------------------- what cannot be missed then

  /** A significand of binary128 that is normalised; only a power of two has a closer predecessor. */
  ghost predicate Normalised128(input: Input) {
    && Pow(2, 112) <= input.f < Pow(2, 113)
    && (input.predecessorCloser ==> input.f == Pow(2, 112))
  }

  lemma LargeTwos()
    ensures Pow(2, 112) == 0x1_0000_0000_0000_0000_0000_0000_0000
    ensures Pow(2, 113) == 0x2_0000_0000_0000_0000_0000_0000_0000
    ensures Pow(2, 30) == 0x4000_0000 && Pow(2, 31) == 0x8000_0000
  {
    SmallTwos();
    hide Pow;
    PowAdd(2, 28, 28);
    PowAdd(2, 56, 56);
    PowAdd(2, 112, 1);
    PowAdd(2, 28, 1);
    PowAdd(2, 29, 1);
    PowAdd(2, 30, 1);
  }

  lemma SmallTwos()
    ensures Pow(2, 1) == 2 && Pow(2, 28) == 0x1000_0000
  {
    assert Pow(2, 7) == 128 && Pow(2, 1) == 2;
    hide Pow;
    PowAdd(2, 7, 7);
    PowAdd(2, 14, 14);
  }

  lemma LargeTens()
    ensures Pow(10, 43) == 10_000_000_000_000_000_000_000_000_000_000_000_000_000_000
    ensures Pow(10, 44) == 100_000_000_000_000_000_000_000_000_000_000_000_000_000_000
  {
    Pow10Values();
    hide Pow;
    PowAdd(10, 10, 10);
    PowAdd(10, 20, 20);
    PowAdd(10, 40, 3);
    PowAdd(10, 43, 1);
  }

  lemma LargeFive()
    ensures Pow(5, 49) == 17763568394002504646778106689453125
  {
    assert Pow(5, 7) == 78125;
    hide Pow;
    PowAdd(5, 7, 7);
    PowAdd(5, 14, 7);
    PowAdd(5, 21, 21);
    PowAdd(5, 42, 7);
  }

  /** The fives of the denominator leave no room for more than 48 of them in the significand. */
  lemma FewFives(f: nat, k: nat)
    requires f < Pow(2, 113) && f >= Pow(5, k)
    ensures k <= 48
  {
    LargeTwos();
    LargeFive();
    hide Pow;
    if k > 48 { PowMonotone(5, 49, k); }
  }

  lemma OneSeen(input: Input)
    requires input.Valid() && input.e >= 30 && Normalised128(input) && input.Window().num < 2 * input.Window().den
    ensures !OneMissed(input, FinalWindow(input, true))
  {
    hide Pow, FinalWindow, Input.Window, OneMissed, Input.Numerator, Input.Denominator;
    LargeExponent(input);
    if OneMissed(input, FinalWindow(input, true)) {
      var j := OneIsPower(input);
      EqualExponents(input, j);
      FewFives(input.f, input.exp10 - j);
      SmallExponents(input);
    }
  }

  lemma SmallExponents(input: Input)
    requires input.Valid() && 0 <= input.e <= 49 && input.exp10 >= 43
    ensures input.NumeratorExp() <= input.DenominatorExp()
  {
  }

  lemma OneIsPower(input: Input) returns (j: nat)
    requires input.Valid() && OneMissed(input, FinalWindow(input, true))
    ensures j <= 1 && input.Numerator() * Pow(10, j) == input.Denominator()
    ensures input.NumeratorExp() > input.DenominatorExp()
  {
    assert Pow(10, 0) == 1 && Pow(10, 1) == 10;
    hide Input.Numerator, Input.Denominator, Pow;
    j := if Drops(input, true) then 1 else 0;
  }

  /** At least 2^142 is at least 10^42. */
  lemma LargeExponent(input: Input)
    requires input.Valid() && input.e >= 30 && Normalised128(input) && input.Window().num < 2 * input.Window().den
    ensures input.exp10 >= 43
  {
    var e, k, s := input.e, input.exp10, input.Shift();
    LargeTwos();
    LargeTens();
    PowAdd(2, e, s);
    PowPositive(2, s);
    MulAssoc(input.f, Pow(2, e), Pow(2, s));
    MulAssoc(2, Pow(10, k), Pow(2, s));
    assert input.f * Pow(2, e) < 2 * Pow(10, k) by {
      if input.f * Pow(2, e) >= 2 * Pow(10, k) { MulLe(2 * Pow(10, k), input.f * Pow(2, e), Pow(2, s)); }
    }
    PowMonotone(2, 30, e);
    MulLe(Pow(2, 112), input.f, Pow(2, e));
    MulLe(Pow(2, 30), Pow(2, e), Pow(2, 112));
    assert Pow(10, 43) == 10 * Pow(10, 42);
    hide Pow;
    if k < 43 { PowMonotone(10, k, 42); }
  }

  /** A missed zero needs an interval that was not scaled, and room in the lowest digit. */
  lemma MissedUnscaled(input: Input)
    requires input.Valid() && input.e >= 0 && FinalWindow(input, true).den > 0
    requires ZeroMissed(input, FinalWindow(input, true))
    ensures FinalWindow(input, true) == input.Window() && input.Window().num % input.Window().den == 0
    ensures input.e % 32 + input.Shift() >= 32 && input.exp10 >= 32 * (input.e / 32 + 1)
  {
    GapsAreSmall(input);
    PowReflects(BASE, input.LowerExp(), input.RemainderExp());
  }

  /** f * 2^e as a natural number. */
  ghost function Whole(input: Input): nat
    requires input.e >= 0
  {
    input.f * Pow(2, input.e)
  }

  /** A multiple of the denominator has all its powers of five. */
  lemma MultipleOfPower(input: Input)
    requires input.Valid() && input.e >= 0 && input.exp10 >= input.e
    requires input.Denominator() > 0 && input.Numerator() > 0 && input.Numerator() % input.Denominator() == 0
    ensures input.f >= Pow(5, input.exp10) && Whole(input) >= Pow(10, input.exp10)
  {
    var e, k, s, q := input.e, input.exp10, input.Shift(), input.Numerator() / input.Denominator();
    QuotientParts(input.Numerator(), input.Denominator());
    if q <= 0 { MulLe(q, 0, input.Denominator()); }
    var f, five, two := input.f, Pow(5, k), Pow(2, e);
    PowAdd(2, e, s);
    PowAdd(2, k - e, e);
    PowProduct(5, 2, k);
    PowPositive(2, s);
    PowPositive(2, e);
    PowPositive(2, k - e);
    PowPositive(5, k);
    var more := Pow(2, k - e);
    hide Pow, Input.Numerator, Input.Denominator;
    MulAssoc(f, two, Pow(2, s));
    MulAssoc(q, Pow(10, k), Pow(2, s));
    MulCancelEq(f * two, q * Pow(10, k), Pow(2, s));
    MulAssoc(five, more, two);
    MulAssoc(q, five * more, two);
    MulCancelEq(f, q * (five * more), two);
    MulLe(1, more, five);
    MulPositive(five, more);
    MulLe(1, q, five * more);
    MulPositive(Pow(10, k), 1) by { PowPositive(10, k); }
    MulLe(1, q, Pow(10, k));
  }

  /** Of a normalised significand the estimate goes by 112 bits behind the first. */
  lemma EstimateOf113Bits(input: Input)
    requires FromFormatFloat(input) && Normalised128(input)
    ensures EstimatedFrom(input.exp10, input.e + 112)
  {
    var digits: nat :| BinaryDigits(input.f, digits) && digits <= 128 &&
                       EstimatedFrom(input.exp10, input.e + digits - 1);
    PowReflects(2, digits - 1, 113);
    PowReflects(2, 112, digits);
  }

  lemma EstimateNear43(k: int, e: int)
    requires EstimatedFrom(k, e + 112)
    ensures (e == 30 ==> k == 43) && (e == 31 ==> k == 44)
  {
  }

  lemma ZeroSeen(input: Input)
    requires FromFormatFloat(input) && input.Valid() && input.e >= 0 && Normalised128(input)
    ensures FinalWindow(input, true).den > 0 && !ZeroMissed(input, FinalWindow(input, true))
  {
    WindowIsValid(input);
    hide Pow, FromFormatFloat, Normalised128, Input.Numerator, Input.Denominator, Input.Lower, Input.Upper, Whole,
      Window.ReachesOne, EstimatedFrom, ZeroMissed;
    if ZeroMissed(input, FinalWindow(input, true)) {
      MissedUnscaled(input);
      MultipleOfPower(input);
      EstimateOf113Bits(input);
      TooSmall(input);
    }
  }

  /** The only exponents with so many zero digits are 30 and 31, and there the estimate is too big for a multiple. */
  lemma TooSmall(input: Input)
    requires input.Valid() && input.e >= 0 && Normalised128(input) && EstimatedFrom(input.exp10, input.e + 112)
    requires input.e % 32 + input.Shift() >= 32 && input.exp10 >= 32 * (input.e / 32 + 1)
    requires input.f >= Pow(5, input.exp10)
    ensures Whole(input) < Pow(10, input.exp10)
  {
    FewFives(input.f, input.exp10);
    EstimateNear43(input.exp10, input.e);
    hide Pow, EstimatedFrom, Whole;
    WholeBelow(input);
  }

  lemma WholeBelow(input: Input)
    requires (input.e == 30 && input.f == Pow(2, 112) && input.exp10 == 43) ||
             (input.e == 31 && input.f < Pow(2, 113) && input.exp10 == 44)
    ensures Whole(input) < Pow(10, input.exp10)
  {
    LargeTwos();
    LargeTens();
    hide Pow;
    MulLe(input.f, Pow(2, 113), Pow(2, 31));
  }

  lemma BelowTenStays(input: Input)
    requires input.Valid() && input.Window().BelowTen(input.Even()) && FinalWindow(input, true).den > 0
    ensures !NineGrows(FinalWindow(input, true), input.LowClosed(), input.Even())
  {
    hide Input.Numerator, Input.Denominator, Input.Lower, Input.Upper;
  }

  /**
    From format_float neither a zero nor a one is missed and no nine grows, whether the number is
    a normalised binary128 one, a subnormal, or one of a smaller format.
  */
  lemma OnlyTheBoundaryIsMissed(input: Input)
    requires FromFormatFloat(input) && input.f > 0
    requires input.f < 0x1_0000_0000_0000_0000 || input.e < 0 || Normalised128(input)
    ensures input.Valid() && GoodEstimate(input, true) && FinalWindow(input, true).den > 0
    ensures var y := FinalWindow(input, true);
            !ZeroMissed(input, y) && !OneMissed(input, y) && !NineGrows(y, input.LowClosed(), input.Even())
  {
    EstimateIsGood(input);
    WindowIsValid(input);
    BelowTenStays(input);
    hide FromFormatFloat, Input.Numerator, Input.Denominator, Input.Lower, Input.Upper, Pow, ZeroMissed, OneMissed,
      FinalWindow, GoodEstimate, Normalised128;
    if input.Roomy() {
      RoomyMissesLittle(input, true);
    } else {
      ZeroSeen(input);
      OneSeen(input);
    }
  }
}
