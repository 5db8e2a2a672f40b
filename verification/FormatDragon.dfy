/**
  format_dragon as a whole: setting up the scaled bigints for a binary number f * 2^e, the
  fixup of the estimated exponent, and the choice between the two loops.
*/
module FormatDragon {
  import opened Powers
  import opened Limbs
  import opened BigintLemmas
  import opened Bigints
  import opened Digits
  import opened DragonMath
  import opened Dragon

  datatype Outcome = Digits(buf: string, exp10: int) | NumberIsTooBig

  /** The arguments of format_dragon: value.f, value.e, the flag, and the exponent estimate. */
  datatype Input = Input(f: uint128, e: int, predecessorCloser: bool, exp10: int) {
    ghost predicate Valid() {
      && f > 0 && -0x3FFF_FFF0 <= e <= 0x3FFF_FFF0 && -0x3FFF_FFF0 <= exp10 <= 0x3FFF_FFF0
      && (e >= 0 ==> exp10 >= 0)
    }

    function Shift(): nat {
      if predecessorCloser then 2 else 1
    }

    function Even(): bool {
      f % 2 == 0
    }

    ghost function Numerator(): nat
      requires Valid()
    {
      if e >= 0 then f * Pow(2, e + Shift())
      else if exp10 < 0 then Pow(10, -exp10) * f * Pow(2, Shift())
      else f * Pow(2, Shift())
    }

    ghost function Denominator(): nat
      requires Valid()
    {
      if e >= 0 then Pow(10, exp10) * Pow(2, Shift())
      else if exp10 < 0 then Pow(2, Shift() - e)
      else Pow(10, exp10) * Pow(2, Shift() - e)
    }

    ghost function Lower(): nat
      requires Valid()
    {
      if e >= 0 then Pow(2, e) else if exp10 < 0 then Pow(10, -exp10) else 1
    }

    ghost function Upper(): nat
      requires Valid()
    {
      if predecessorCloser then 2 * Lower() else Lower()
    }

    /** f * 2^e divided by 10^exp10, with its rounding interval. */
    ghost function Window(): Window
      requires Valid()
    {
      DragonMath.Window(Numerator(), Denominator(), Lower(), Upper())
    }

    /** The digit exponents the bigints start with. */
    function NumeratorExp(): nat
      requires Valid()
    {
      if e >= 0 then (e + Shift()) / 32 else if exp10 < 0 then (-exp10) / 32 else 0
    }

    function DenominatorExp(): nat
      requires Valid()
    {
      if e >= 0 then exp10 / 32
      else if exp10 < 0 then (Shift() - e) / 32
      else exp10 / 32 + (Shift() - e) / 32
    }

    function LowerExp(): nat
      requires Valid()
    {
      if e >= 0 then e / 32 else if exp10 < 0 then (-exp10) / 32 else 0
    }

    /** The digit exponent of every remainder. */
    function RemainderExp(): nat
      requires Valid()
    {
      Smaller(NumeratorExp(), DenominatorExp())
    }

    /** Whether the generator counts the lower boundary, as the comparison of equals tells it. */
    predicate LowClosed()
      requires Valid()
    {
      ClosedBelow(Even(), RemainderExp(), LowerExp())
    }

    /** Short significands and exponents that leave room in their lowest digit. */
    predicate Roomy() {
      f < 0x1_0000_0000_0000_0000 || e < 0 || e % 32 + Shift() < 32
    }
  }

  /** The bigints hold the scaled value and its rounding interval. */
  ghost predicate Represents(input: Input, numerator: Bigint, denominator: Bigint, lower: Bigint, upper: Bigint)
    requires input.Valid()
    reads numerator, denominator, lower, upper
  {
    && numerator.Positive() && denominator.Positive() && lower.Positive() && upper.Positive()
    && numerator.Value() == input.Numerator() && denominator.Value() == input.Denominator()
    && lower.Value() == input.Lower() && upper.Value() == input.Upper()
    && numerator.exp == input.NumeratorExp() && denominator.exp == input.DenominatorExp()
    && lower.exp == input.LowerExp()
  }

  /** Initialises the bigints; `upper` is `lower` unless the predecessor is closer. */
  method SetUp(input: Input) returns (numerator: Bigint, denominator: Bigint, lower: Bigint, upper: Bigint)
    requires input.Valid()
    ensures fresh(numerator) && fresh(denominator) && fresh(lower) && fresh(upper)
    ensures numerator !in {denominator, lower, upper} && denominator !in {lower, upper}
    ensures Represents(input, numerator, denominator, lower, upper)
  {
    if input.e >= 0 {
      numerator, denominator, lower, upper := SetUpInteger(input);
    } else if input.exp10 < 0 {
      numerator, denominator, lower, upper := SetUpFraction(input);
    } else {
      numerator, denominator, lower, upper := SetUpMixed(input);
    }
  }

  /** The branch for value.e >= 0. */
  method SetUpInteger(input: Input) returns (numerator: Bigint, denominator: Bigint, lower: Bigint, upper: Bigint)
    requires input.Valid() && input.e >= 0
    ensures fresh(numerator) && fresh(denominator) && fresh(lower) && fresh(upper)
    ensures numerator !in {denominator, lower, upper} && denominator !in {lower, upper}
    ensures Represents(input, numerator, denominator, lower, upper)
  {
    hide Pow, Val, Scaled, Bigint.Value;
    numerator := new Bigint();
    denominator := new Bigint();
    lower := new Bigint();
    upper := lower;
    AssignPositive(numerator, input.f);
    numerator.ShiftLeft(input.e + input.Shift());
    AssignPositive(lower, 1);
    lower.ShiftLeft(input.e);
    if input.predecessorCloser {
      upper := new Bigint();
      AssignPositive(upper, 1);
      upper.ShiftLeft(input.e + 1);
      PowTwoStep(input.e);
    }
    denominator.AssignPow10(input.exp10);
    denominator.ShiftLeft(input.Shift());
  }

  /** The branch for value.e < 0 and exp10 < 0. */
  method SetUpFraction(input: Input) returns (numerator: Bigint, denominator: Bigint, lower: Bigint, upper: Bigint)
    requires input.Valid() && input.e < 0 && input.exp10 < 0
    ensures fresh(numerator) && fresh(denominator) && fresh(lower) && fresh(upper)
    ensures numerator !in {denominator, lower, upper} && denominator !in {lower, upper}
    ensures Represents(input, numerator, denominator, lower, upper)
  {
    hide Pow, Val, Scaled, Bigint.Value;
    numerator := new Bigint();
    denominator := new Bigint();
    lower := new Bigint();
    upper := lower;
    numerator.AssignPow10(-input.exp10);
    lower.Assign(numerator);
    if input.predecessorCloser {
      upper := new Bigint();
      upper.Assign(numerator);
      upper.ShiftLeft(1);
      PowTwoStep(0);
    }
    MultiplyAndShift(numerator, input.f, input.Shift());
    AssignPositive(denominator, 1);
    denominator.ShiftLeft(input.Shift() - input.e);
  }

  /** numerator *= value.f; numerator <<= shift; */
  method MultiplyAndShift(target: Bigint, f: uint128, shift: nat)
    requires target.Positive() && f > 0 && shift < 32
    modifies target
    ensures target.Value() == old(target.Value()) * f * Pow(2, shift)
    ensures target.exp == old(target.exp) && target.Positive()
  {
    hide Pow, Val, Scaled, Bigint.Value;
    target.MultiplyWide(f, BASE * BASE);
    target.ShiftLeft(shift);
  }

  /** The branch for value.e < 0 and exp10 >= 0. */
  method SetUpMixed(input: Input) returns (numerator: Bigint, denominator: Bigint, lower: Bigint, upper: Bigint)
    requires input.Valid() && input.e < 0 && input.exp10 >= 0
    ensures fresh(numerator) && fresh(denominator) && fresh(lower) && fresh(upper)
    ensures numerator !in {denominator, lower, upper} && denominator !in {lower, upper}
    ensures Represents(input, numerator, denominator, lower, upper)
  {
    hide Pow, Val, Scaled, Bigint.Value;
    numerator := new Bigint();
    denominator := new Bigint();
    lower := new Bigint();
    upper := lower;
    AssignPositive(numerator, input.f);
    numerator.ShiftLeft(input.Shift());
    denominator.AssignPow10(input.exp10);
    denominator.ShiftLeft(input.Shift() - input.e);
    AssignPositive(lower, 1);
    if input.predecessorCloser {
      upper := new Bigint();
      AssignPositive(upper, 2);
    }
  }

  /** operator=(Int n), which asserts n > 0. */
  method AssignPositive(target: Bigint, n: uint128)
    requires n > 0
    modifies target
    ensures target.Value() == n && target.exp == 0 && target.Positive()
  {
    target.AssignUInt(n);
    target.NormalZero();
  }

  lemma PowTwoStep(k: nat)
    ensures Pow(2, k + 1) == 2 * Pow(2, k) && Pow(2, 0) == 1
  {
  }

  // ---------------------------------------------------------------- the conditions on the estimate

  /**
    The estimate is right, or too big by one if the fixup is asked for: the number is below
    10^(exp10+1), and its upper boundary reaches 10^exp10, or with the fixup 10^(exp10-1).
  */
  ghost predicate GoodEstimate(input: Input, fixup: bool)
    requires input.Valid()
  {
    var x := input.Window();
    x.num < 10 * x.den && (if fixup then Lowered(x).ReachesOne(input.Even()) else x.ReachesOne(input.Even()))
  }

  /** Without fixup, or when the estimate needs none, the exponent stays. */
  ghost predicate Drops(input: Input, fixup: bool)
    requires input.Valid()
  {
    fixup && !input.Window().ReachesOne(input.Even())
  }

  ghost function FinalWindow(input: Input, fixup: bool): Window
    requires input.Valid()
  {
    if Drops(input, fixup) then Lowered(input.Window()) else input.Window()
  }

  /**
    The numbers the loops work on. When digits are counted the fixup leaves the interval alone,
    which is then ten times too narrow; it matters only if adjust_precision makes the count negative.
  */
  ghost function WorkingWindow(input: Input, fixup: bool, numDigits: int): Window
    requires input.Valid()
  {
    var x := input.Window();
    if Drops(input, fixup) && numDigits >= 0 then DragonMath.Window(10 * x.num, x.den, x.low, x.up)
    else FinalWindow(input, fixup)
  }

  ghost function FinalExp(input: Input, fixup: bool): int
    requires input.Valid()
  {
    if Drops(input, fixup) then input.exp10 - 1 else input.exp10
  }

  lemma WindowIsValid(input: Input)
    requires input.Valid()
    ensures input.Window().Valid()
  {
    var s := input.Shift();
    assert Pow(2, s) >= 2 by { assert Pow(2, 1) == 2 && Pow(2, 2) == 4; }
    if input.e >= 0 {
      PowPositive(2, input.e);
      PowPositive(10, input.exp10);
      PowAdd(2, input.e, s);
      MulPositive(Pow(10, input.exp10), Pow(2, s));
      MulLe(2, Pow(2, s), Pow(2, input.e));
      MulLe(1, input.f, Pow(2, input.e + s));
    } else if input.exp10 < 0 {
      var p := Pow(10, -input.exp10);
      PowPositive(10, -input.exp10);
      PowPositive(2, s - input.e);
      MulLe(1, input.f, p);
      MulLe(p, p * input.f, Pow(2, s));
      MulLe(2, Pow(2, s), p);
    } else {
      PowPositive(10, input.exp10);
      PowPositive(2, s - input.e);
      MulPositive(Pow(10, input.exp10), Pow(2, s - input.e));
      MulLe(1, input.f, Pow(2, s));
    }
  }

  /** A power of ten is at least the power of two with three times the exponent. */
  lemma TenAboveEight(k: nat)
    ensures Pow(2, 3 * k) <= Pow(10, k)
  {
    PowMul(2, 3, k);
    assert Pow(2, 3) == 8;
    EightBelowTen(k);
  }

  lemma {:induction false} EightBelowTen(k: nat)
    ensures Pow(8, k) <= Pow(10, k)
  {
    if k > 0 { EightBelowTen(k - 1); }
  }

  lemma PowReflects(b: nat, m: nat, n: nat)
    requires b > 1 && Pow(b, m) < Pow(b, n)
    ensures m < n
  {
    if n <= m { PowMonotone(b, n, m); }
  }

  /** In the fraction branch the numerator has no more zero digits than the denominator. */
  lemma FractionExponents(input: Input)
    requires input.Valid() && input.e < 0 && input.exp10 < 0
    requires input.Numerator() < 10 * input.Denominator()
    ensures -input.exp10 <= input.Shift() - input.e
  {
    var k, s := -input.exp10, input.Shift();
    var p, q := Pow(10, k), Pow(2, s);
    PowPositive(10, k - 1);
    PowPositive(2, s);
    MulLe(1, input.f, p);
    MulLe(1, q, p * input.f);
    assert p <= p * input.f * q;
    assert p == 10 * Pow(10, k - 1);
    TenAboveEight(k - 1);
    PowReflects(2, 3 * (k - 1), s - input.e);
  }

  /** 10^j times the numerator equals the denominator only for e + j <= exp10. */
  lemma EqualPowers(f: nat, e: nat, j: nat, k: nat)
    requires f > 0 && f * Pow(2, e) * Pow(10, j) == Pow(10, k)
    ensures e + j <= k && f >= Pow(5, k - j)
  {
    SplitPowers(f, e, j, k);
    TwosBounded(f * Pow(5, j), e + j, k);
    FivesLeft(f * Pow(5, j), e + j, k);
    PowAdd(5, k - j, j);
    PowPositive(5, j);
    MulCancelLe(Pow(5, k - j), f, Pow(5, j));
  }

  lemma SplitPowers(f: nat, e: nat, j: nat, k: nat)
    requires f * Pow(2, e) * Pow(10, j) == Pow(10, k)
    ensures (f * Pow(5, j)) * Pow(2, e + j) == Pow(5, k) * Pow(2, k)
  {
    PowProduct(2, 5, j);
    PowProduct(2, 5, k);
    PowAdd(2, e, j);
    hide Pow;
    SortFactors(f, Pow(2, e), Pow(2, j), Pow(5, j));
  }

  lemma TwosBounded(five: nat, m: nat, k: nat)
    requires five * Pow(2, m) == Pow(5, k) * Pow(2, k)
    ensures m <= k
  {
    hide Pow;
    if m > k {
      PowAdd(2, m - k, k);
      CancelRight(five, Pow(2, m - k), Pow(5, k), 1, k);
      EvenIsNotOdd(five, m - k, k);
    }
  }

  lemma FivesLeft(five: nat, m: nat, k: nat)
    requires five * Pow(2, m) == Pow(5, k) * Pow(2, k) && m <= k
    ensures five >= Pow(5, k)
  {
    hide Pow;
    PowAdd(2, k - m, m);
    CancelRight(five, 1, Pow(5, k), Pow(2, k - m), m);
    PowPositive(2, k - m);
    MulLe(1, Pow(2, k - m), Pow(5, k));
  }

  lemma CancelRight(a: nat, b: nat, c: nat, d: nat, m: nat)
    requires a * (b * Pow(2, m)) == c * (d * Pow(2, m))
    ensures a * b == c * d
  {
    PowPositive(2, m);
    MulAssoc(a, b, Pow(2, m));
    MulAssoc(c, d, Pow(2, m));
    MulCancelEq(a * b, c * d, Pow(2, m));
  }

  lemma SortFactors(f: int, a: int, b: int, c: int)
    ensures f * a * (b * c) == (f * c) * (a * b)
  {
    MulAssoc(f * a, b, c);
    MulAssoc(f * c, a, b);
    MulAssoc(f, a, c);
    MulAssoc(f, c, a);
    assert (f * a * b) * c == (f * a * c) * b;
  }

  lemma EvenIsNotOdd(x: nat, m: nat, k: nat)
    requires m > 0
    ensures x * Pow(2, m) != Pow(5, k)
  {
    OddPower(k);
    assert x * Pow(2, m) == 2 * (x * Pow(2, m - 1));
  }

  lemma {:induction false} OddPower(k: nat)
    ensures Pow(5, k) % 2 == 1
  {
    if k > 0 { OddPower(k - 1); }
  }

  ghost predicate NeverEqual(num: nat, den: nat) {
    forall j: nat :: num * Pow(10, j) != den
  }

  /** For a roomy input the number is no power of ten with more stored digits. */
  lemma DivisionsSee(input: Input, fixup: bool)
    requires input.Valid() && input.Roomy() && GoodEstimate(input, fixup)
    ensures input.NumeratorExp() <= input.DenominatorExp() || NeverEqual(input.Numerator(), input.Denominator())
  {
    if input.e < 0 {
      if input.exp10 < 0 {
        WindowIsValid(input);
        FractionExponents(input);
      }
    } else if input.NumeratorExp() > input.DenominatorExp() {
      forall j: nat ensures input.Numerator() * Pow(10, j) != input.Denominator() {
        if input.Numerator() * Pow(10, j) == input.Denominator() {
          EqualAtDigit(input, j);
        }
      }
    }
  }

  lemma EqualAtDigit(input: Input, j: nat)
    requires input.Valid() && input.Roomy() && input.e >= 0
    requires input.Numerator() * Pow(10, j) == input.Denominator()
    ensures input.NumeratorExp() <= input.DenominatorExp()
  {
    hide Pow, Input.Numerator, Input.Denominator;
    EqualExponents(input, j);
    if input.e >= 30 {
      FiveTo30();
      PowMonotone(5, 30, input.exp10 - j);
    }
  }

  /** A number that is a power of ten has at least the powers of five of it in its significand. */
  lemma EqualExponents(input: Input, j: nat)
    requires input.Valid() && input.e >= 0
    requires input.Numerator() * Pow(10, j) == input.Denominator()
    ensures input.e + j <= input.exp10 && input.f >= Pow(5, input.exp10 - j)
  {
    var e, k, s := input.e, input.exp10, input.Shift();
    PowAdd(2, e, s);
    PowPositive(2, s);
    SwapShift(input.f, Pow(2, e), Pow(2, s), Pow(10, j));
    MulCancelEq(input.f * Pow(2, e) * Pow(10, j), Pow(10, k), Pow(2, s));
    EqualPowers(input.f, e, j, k);
  }

  lemma SwapShift(f: int, a: int, s: int, t: int)
    ensures (f * (a * s)) * t == (f * a * t) * s
  {
    MulAssoc(f, a, s);
    MulAssoc(f * a, s, t);
    MulAssoc(f * a, t, s);
  }

  lemma FiveTo30()
    ensures Pow(5, 30) > 0x1_0000_0000_0000_0000
  {
    PowAdd(5, 15, 15);
    assert Pow(5, 15) == 30517578125;
  }

  /** For a roomy input the remainder never has more zero digits than `lower`. */
  lemma RemainderComparable(input: Input, fixup: bool)
    requires input.Valid() && input.Roomy() && GoodEstimate(input, fixup)
    ensures input.RemainderExp() <= input.LowerExp()
  {
    if input.e >= 0 && (input.e + input.Shift()) / 32 > input.e / 32 {
      EstimateBelow(input, fixup);
    }
  }

  /** A 64-bit significand with a large binary exponent has a smaller decimal exponent. */
  lemma EstimateBelow(input: Input, fixup: bool)
    requires input.Valid() && input.e >= 30 && input.f < 0x1_0000_0000_0000_0000 && GoodEstimate(input, fixup)
    ensures input.exp10 <= input.e
  {
    var e, k, s := input.e, input.exp10, input.Shift();
    var two := Pow(2, e);
    PowPositive(2, e);
    PowAdd(2, e, s);
    assert Pow(2, 1) == 2 && Pow(2, 2) == 4;
    UpperEstimate(input.f, two, Pow(2, s), Pow(10, k), input.Upper());
    if k > e {
      PowMonotone(10, e + 1, k);
      PowProduct(2, 5, e);
      FiveTo30();
      PowMonotone(5, 30, e);
      MulLt(0x1_0000_0000_0000_0000, Pow(5, e), two);
    }
  }

  lemma UpperEstimate(f: nat, two: nat, shift: nat, ten: nat, up: nat)
    requires two > 0 && shift >= 2 && f < 0x1_0000_0000_0000_0000 && up <= 2 * two
    requires 10 * (f * (two * shift)) + 10 * up >= ten * shift
    ensures 10 * (two * 0x1_0000_0000_0000_0000) >= ten
  {
    MulLe(2, shift, two);
    assert 10 * (f * (two * shift)) + 10 * (two * shift) == (10 * ((f + 1) * two)) * shift by {
      MulAssoc(f, two, shift);
    }
    MulCancelLe(ten, 10 * ((f + 1) * two), shift);
    MulLe(f + 1, 0x1_0000_0000_0000_0000, two);
  }

  // ---------------------------------------------------------------- what holds for every input

  /** A remainder has at most one zero digit more than `lower`, and then the gaps are below one. */
  lemma GapsAreSmall(input: Input)
    requires input.Valid()
    ensures GapsFit(input.Window(), input.NumeratorExp(), input.DenominatorExp())
    ensures Pow(BASE, input.LowerExp()) <= input.Lower()
  {
    PowPositive(10, if input.exp10 < 0 then -input.exp10 else 0);
    hide GapsFit, Input.Numerator;
    if input.e >= 0 {
      IntegerGaps(input);
    } else if input.exp10 < 0 {
      BaseBelowTen(-input.exp10);
      PowMonotone(BASE, input.RemainderExp(), input.LowerExp());
      GapsFitFrom(input.Window(), input.NumeratorExp(), input.DenominatorExp());
    } else {
      assert Pow(BASE, 0) == 1;
      GapsFitFrom(input.Window(), input.NumeratorExp(), input.DenominatorExp());
    }
  }

  lemma GapsFitFrom(x: Window, numeratorExp: nat, denominatorExp: nat)
    requires x.low >= Pow(BASE, Smaller(numeratorExp, denominatorExp))
    ensures GapsFit(x, numeratorExp, denominatorExp)
  {
  }

  lemma BaseBelowTen(k: nat)
    ensures Pow(BASE, k / 32) <= Pow(10, k)
  {
    TwoTo32();
    PowMul(2, 32, k / 32);
    PowMonotone(2, 32 * (k / 32), k);
    TwoBelowTen(k);
  }

  lemma {:induction false} TwoBelowTen(k: nat)
    ensures Pow(2, k) <= Pow(10, k)
  {
    if k > 0 { TwoBelowTen(k - 1); }
  }

  lemma IntegerGaps(input: Input)
    requires input.Valid() && input.e >= 0
    ensures GapsFit(input.Window(), input.NumeratorExp(), input.DenominatorExp())
    ensures Pow(BASE, input.LowerExp()) <= input.Lower()
  {
    var e, s, el := input.e, input.Shift(), input.LowerExp();
    var exp := input.RemainderExp();
    TwoTo32();
    PowMul(2, 32, el);
    PowMonotone(2, 32 * el, e);
    if exp <= el {
      PowMonotone(BASE, exp, el);
    } else {
      assert exp == el + 1 && e + s >= 32 * exp && input.exp10 >= 32 * exp > e;
      PowMul(2, 32, exp);
      PowMonotone(2, 32 * exp, e + 2);
      assert Pow(2, e + 2) == 4 * Pow(2, e) by { assert Pow(2, e + 2) == 2 * Pow(2, e + 1); }
      GapBelowOne(input);
    }
  }

  lemma GapBelowOne(input: Input)
    requires input.Valid() && input.e >= 0 && input.exp10 > input.e
    ensures input.Lower() <= input.Upper() < input.Denominator()
  {
    var e, s := input.e, input.Shift();
    TwoBelowTen(input.exp10);
    PowMonotone(2, e + 1, input.exp10);
    PowPositive(2, e);
    PowPositive(10, input.exp10);
    assert Pow(2, 1) == 2 && Pow(2, 2) == 4;
    assert Pow(2, e + 1) == 2 * Pow(2, e);
    MulLe(2, Pow(2, s), Pow(10, input.exp10));
  }

  /** The upper gap is at most half the number. */
  lemma GapBelowHalf(input: Input)
    requires input.Valid()
    ensures 2 * input.Upper() <= input.Numerator()
  {
    var s := input.Shift();
    assert Pow(2, 1) == 2 && Pow(2, 2) == 4;
    var p := if input.e >= 0 then Pow(2, input.e) else if input.exp10 < 0 then Pow(10, -input.exp10) else 1;
    var four := if input.predecessorCloser then 4 else 2;
    assert Pow(2, s) == four && input.Lower() == p && 2 * input.Upper() == p * four;
    assert input.Numerator() == input.f * (p * four) by {
      if input.e >= 0 {
        PowAdd(2, input.e, s);
      } else if input.exp10 < 0 {
        MulAssoc(input.f, p, four);
      }
    }
    MulLe(0, p, four);
    MulLe(1, input.f, p * four);
  }

  /** A number whose interval reaches one is no tenth, hundredth, and so on. */
  lemma ReachingOneSuffices(x: Window, upClosed: bool)
    requires x.Valid() && x.ReachesOne(upClosed) && 2 * x.up <= x.num
    ensures NeverEqualLater(x.num, x.den)
  {
    forall j: nat | j > 0 ensures x.num * Pow(10, j) != x.den {
      PowMonotone(10, 1, j);
      assert Pow(10, 1) == 10;
      MulLe(10, Pow(10, j), x.num);
    }
  }

  // ---------------------------------------------------------------- the whole function

  /** The string is x.num / x.den rounded half to even to n digits; exp10 belongs to the last. */
  ghost predicate IsRounded(x: Window, n: nat, exp10: int, buf: string, lastExp: int)
    requires n > 0 && x.den > 0
  {
    var q := RoundHalfEven(x.num * Pow(10, n - 1), x.den);
    && |buf| == n && AllDigits(buf)
    && ((lastExp == exp10 - (n - 1) && Decimal(buf) == q)
        || (lastExp == exp10 - (n - 1) + 1 && q == Pow(10, n) && Decimal(buf) == Pow(10, n - 1)))
  }

  /** No digit is asked for: one digit tells whether the number is more than half of 10^(exp10+1). */
  ghost predicate RoundingDigit(x: Window, exp10: int, buf: string, lastExp: int) {
    lastExp == exp10 + 1 && buf == (if 2 * x.num > 10 * x.den then "1" else "0")
  }

  /** adjust_precision: a precision from the decimal point on, counted from the first digit instead. */
  method AdjustPrecision(precision: int, exp10: int) returns (ok: bool, adjusted: int)
    ensures ok <==> exp10 <= 0 || precision + exp10 <= INT_MAX
    ensures ok ==> adjusted == precision + exp10
    ensures ok && precision <= INT_MAX ==> adjusted <= INT_MAX
  {
    if exp10 > 0 && precision > INT_MAX - exp10 {
      return false, precision;
    }
    return true, precision + exp10;
  }

  /** The number is a single digit whose zero remainder is not seen to be below `lower`. */
  ghost predicate ZeroMissed(input: Input, x: Window)
    requires input.Valid() && x.den > 0
  {
    ZeroUnseen(x, input.RemainderExp())
  }

  /** The scaled number is one but not seen to be: its digit exponent is the bigger one. */
  ghost predicate OneMissed(input: Input, x: Window)
    requires input.Valid()
  {
    UnseenAt(x.num, input.NumeratorExp(), x.den, input.DenominatorExp(), 0)
  }

  /**
    What format_dragon yields for n requested digits: the shortest digits when n < 0, one
    rounding digit when n = 0, and n correctly rounded digits otherwise; with what becomes of
    numbers that are a digit, or one, and whose comparisons fail, or whose first nine grows.
  */
  ghost predicate Correct(input: Input, x: Window, exp10: int, n: int, buf: string, lastExp: int)
    requires input.Valid() && x.den > 0
  {
    if n < 0 then
      LoopResult(x, buf, input.RemainderExp(), input.LowClosed(), input.Even()) && lastExp == exp10 - (|buf| - 1)
    else if n == 0 then
      RoundingDigit(x, exp10, buf, lastExp)
    else if n >= 2 && OneMissed(input, x) then
      EqualLeftOver(buf, n, 0) && lastExp == exp10 - (n - 1)
    else
      IsRounded(x, n, exp10, buf, lastExp)
  }

  ghost function RequestedDigits(input: Input, fixup: bool, fixed: bool, numDigits: int): int
    requires input.Valid()
  {
    if fixup && fixed then numDigits + (FinalExp(input, fixup) + 1) else numDigits
  }

  /** Behind its first digit the number has no digit at which nothing is left of it but one. */
  ghost predicate NeverEqualLater(num: nat, den: nat) {
    forall j: nat :: j > 0 ==> num * Pow(10, j) != den
  }

  /** The bigints hold the window x with the digit exponents they started with. */
  ghost predicate Ready(input: Input, x: Window, numerator: Bigint, denominator: Bigint, lower: Bigint, upper: Bigint)
    requires input.Valid()
    reads numerator, denominator, lower, upper
  {
    && numerator !in {denominator, lower, upper} && denominator !in {lower, upper}
    && numerator.Positive() && denominator.Positive() && lower.Positive() && upper.Positive()
    && numerator.Value() == x.num && denominator.Value() == x.den
    && lower.Value() == x.low && upper.Value() == x.up
    && numerator.exp == input.NumeratorExp() && denominator.exp == input.DenominatorExp()
    && lower.exp == input.LowerExp()
    && Manageable(input, x)
  }

  /** What the loops need to know of the window. */
  ghost predicate Manageable(input: Input, x: Window)
    requires input.Valid()
  {
    && x.Valid() && x.num < 10 * x.den
    && (x.ReachesOne(input.Even()) || Lowered(x).ReachesOne(input.Even()))
    && NeverEqualLater(x.num, x.den)
    && GapsFit(x, input.NumeratorExp(), input.DenominatorExp())
  }

  lemma WorkingIsManageable(input: Input, fixup: bool, numDigits: int)
    requires input.Valid() && GoodEstimate(input, fixup)
    ensures Manageable(input, WorkingWindow(input, fixup, numDigits))
  {
    WindowIsValid(input);
    GapsAreSmall(input);
    GapBelowHalf(input);
    ReachingOneSuffices(FinalWindow(input, fixup), input.Even());
    WorkingGaps(input, fixup, numDigits);
    hide NeverEqualLater, GapsFit, Input.Numerator, Input.Denominator, Input.Lower, Input.Upper;
  }

  lemma WorkingGaps(input: Input, fixup: bool, numDigits: int)
    requires input.Valid() && GapsFit(input.Window(), input.NumeratorExp(), input.DenominatorExp())
    ensures GapsFit(WorkingWindow(input, fixup, numDigits), input.NumeratorExp(), input.DenominatorExp())
  {
    hide Pow, Input.Numerator, Input.Denominator, Input.Lower, Input.Upper;
  }

  /** The fixup block: lowers the exponent by one if the interval does not reach 10^exp10. */
  method ApplyFixup(input: Input, fixup: bool, numDigits: int) returns
      (numerator: Bigint, denominator: Bigint, lower: Bigint, upper: Bigint, exp10: int)
    requires input.Valid() && GoodEstimate(input, fixup)
    ensures fresh(numerator) && fresh(denominator) && fresh(lower) && fresh(upper)
    ensures Ready(input, WorkingWindow(input, fixup, numDigits), numerator, denominator, lower, upper)
    ensures exp10 == FinalExp(input, fixup)
  {
    WorkingIsManageable(input, fixup, numDigits);
    numerator, denominator, lower, upper := SetUp(input);
    exp10 := input.exp10;
    hide Pow, Val, Scaled, Bigint.Value, Manageable, Input.Numerator, Input.Denominator, Input.Lower, Input.Upper;
    if fixup {
      var comparison := AddCompare(numerator, upper, denominator);
      if comparison + (if input.Even() then 1 else 0) <= 0 {
        exp10 := exp10 - 1;
        if numDigits < 0 {
          TimesTen(numerator, lower, upper);
        } else {
          numerator.Multiply32(10);
        }
      }
    }
  }

  /** Both digit loops and the case of no digits, for a number that is Ready. */
  method Generate(input: Input, ghost x: Window, exp10: int, n: int,
                  numerator: Bigint, denominator: Bigint, lower: Bigint, upper: Bigint)
    returns (buf: string, lastExp: int)
    requires input.Valid() && Ready(input, x, numerator, denominator, lower, upper)
    modifies numerator, denominator, lower, upper
    ensures x.den > 0 && Correct(input, x, exp10, n, buf, lastExp)
  {
    hide Pow, Val, Scaled, Bigint.Value, Window.IsShortest, LoopResult, RoundHalfEven, Decimal, EqualLeftOver,
      GapsFit, NeverEqualLater;
    if n < 0 {
      buf := GenerateShortest(numerator, denominator, lower, upper, input.Even());
      lastExp := exp10 - (|buf| - 1);
    } else if n == 0 {
      denominator.Multiply32(10);
      var comparison := AddCompare(numerator, numerator, denominator);
      buf, lastExp := if comparison > 0 then "1" else "0", exp10 + 1;
    } else {
      var carried;
      buf, carried := GenerateFixed(numerator, denominator, n);
      lastExp := exp10 - (n - 1) + if carried then 1 else 0;
      FixedIsCorrect(input, x, exp10, n, buf, lastExp, carried);
    }
  }

  /** An equal can go unseen at the first digit only. */
  lemma FixedIsCorrect(input: Input, x: Window, exp10: int, n: nat, buf: string, lastExp: int, carried: bool)
    requires input.Valid() && x.den > 0 && n > 0 && NeverEqualLater(x.num, x.den)
    requires lastExp == exp10 - (n - 1) + if carried then 1 else 0
    requires forall j: nat :: j + 2 <= n && UnseenAt(x.num, input.NumeratorExp(), x.den, input.DenominatorExp(), j) ==>
               EqualLeftOver(buf, n, j) && !carried
    requires (forall j: nat :: j + 2 <= n ==> !UnseenAt(x.num, input.NumeratorExp(), x.den, input.DenominatorExp(), j))
               ==> FixedResult(x.num, x.den, n, buf, carried)
    ensures Correct(input, x, exp10, n, buf, lastExp)
  {
    hide Input.NumeratorExp, Input.DenominatorExp, RoundHalfEven, Decimal, Pow, EqualLeftOver;
    forall j: nat | j > 0 ensures !UnseenAt(x.num, input.NumeratorExp(), x.den, input.DenominatorExp(), j) {
      assert x.num * Pow(10, j) != x.den;
    }
  }

  /**
    format_dragon: every outcome is what the number of digits asked for demands. The shortest form
    is that of the rounding interval, boundaries counting for an even significand, if and only if
    no zero is missed, no nine grows, and the lower boundary either counts as it should or is not
    the decimal to choose; and the fixed form is rounded right if and only if no one is missed.
  */
  method FormatDragon(input: Input, fixup: bool, fixed: bool, numDigits: int) returns (outcome: Outcome)
    requires input.Valid() && GoodEstimate(input, fixup)
    ensures FinalWindow(input, fixup).Valid() && WorkingWindow(input, fixup, numDigits).Valid()
    ensures outcome.NumberIsTooBig? <==>
            fixup && fixed && FinalExp(input, fixup) + 1 > 0 && numDigits + FinalExp(input, fixup) + 1 > INT_MAX
    ensures outcome.Digits? ==>
              Correct(input, WorkingWindow(input, fixup, numDigits), FinalExp(input, fixup),
                      RequestedDigits(input, fixup, fixed, numDigits), outcome.buf, outcome.exp10)
    ensures var n, y := RequestedDigits(input, fixup, fixed, numDigits), FinalWindow(input, fixup);
            && (outcome.Digits? && n < 0 && numDigits < 0 ==>
                  && outcome.exp10 == FinalExp(input, fixup) - (|outcome.buf| - 1)
                  && (y.IsShortest(outcome.buf, input.Even(), input.Even()) <==>
                      !ZeroMissed(input, y) && !NineGrows(y, input.LowClosed(), input.Even()) &&
                      (input.LowClosed() == input.Even() || !y.BoundaryIsBest(input.Even()))))
            && (outcome.Digits? && n > 0 ==>
                  (IsRounded(y, n, FinalExp(input, fixup), outcome.buf, outcome.exp10) <==>
                   !(n >= 2 && OneMissed(input, y))))
  {
    hide FinalExp, LoopResult;
    var numerator, denominator, lower, upper, exp10 := ApplyFixup(input, fixup, numDigits);
    var n := numDigits;
    WindowIsValid(input);
    if fixup && fixed {
      var ok;
      ok, n := AdjustPrecision(n, exp10 + 1);
      if !ok {
        return NumberIsTooBig;
      }
    }
    ghost var x := WorkingWindow(input, fixup, numDigits);
    SameNumber(input, fixup, numDigits);
    hide WorkingWindow, FinalWindow, IsRounded, Correct;
    var buf, lastExp := Generate(input, x, exp10, n, numerator, denominator, lower, upper);
    OutcomeIsCorrect(input, fixup, numDigits, n, buf, lastExp);
    return Digits(buf, lastExp);
  }

  /** Only the interval can differ between the two windows. */
  lemma SameNumber(input: Input, fixup: bool, numDigits: int)
    requires input.Valid() && GoodEstimate(input, fixup)
    ensures var x, y := WorkingWindow(input, fixup, numDigits), FinalWindow(input, fixup);
            && x.num == y.num && x.den == y.den && y.ReachesOne(input.Even()) && (numDigits < 0 ==> x == y)
            && x.Valid() && y.Valid() && y.num < 10 * y.den
  {
    WindowIsValid(input);
  }

  lemma OutcomeIsCorrect(input: Input, fixup: bool, numDigits: int, n: int, buf: string, lastExp: int)
    requires input.Valid() && GoodEstimate(input, fixup) && WorkingWindow(input, fixup, numDigits).Valid()
    requires Correct(input, WorkingWindow(input, fixup, numDigits), FinalExp(input, fixup), n, buf, lastExp)
    ensures FinalWindow(input, fixup).Valid()
    ensures n < 0 && numDigits < 0 ==>
              var y := FinalWindow(input, fixup);
              && lastExp == FinalExp(input, fixup) - (|buf| - 1)
              && (y.IsShortest(buf, input.Even(), input.Even()) <==>
                  !ZeroMissed(input, y) && !NineGrows(y, input.LowClosed(), input.Even()) &&
                  (input.LowClosed() == input.Even() || !y.BoundaryIsBest(input.Even())))
    ensures n > 0 ==> var y := FinalWindow(input, fixup);
              (IsRounded(y, n, FinalExp(input, fixup), buf, lastExp) <==> !(n >= 2 && OneMissed(input, y)))
  {
    SameNumber(input, fixup, numDigits);
    hide WorkingWindow, FinalWindow, FinalExp, LoopResult, ZeroMissed, NineGrows, Window.IsShortest, RoundHalfEven,
      Input.LowClosed, Input.RemainderExp, Window.BoundaryIsBest, Window.ReachesOne, OneMissed;
    var y := FinalWindow(input, fixup);
    if n < 0 && numDigits < 0 {
      WhenShortest(input, y, buf);
    }
    if n >= 2 && OneMissed(input, y) {
      assert !IsDigit(buf[1]);
    }
  }

  /** What the shortest loop yields is the shortest form exactly if nothing goes wrong. */
  lemma WhenShortest(input: Input, y: Window, buf: string)
    requires input.Valid() && y.Valid() && y.ReachesOne(input.Even())
    requires LoopResult(y, buf, input.RemainderExp(), input.LowClosed(), input.Even())
    ensures y.IsShortest(buf, input.Even(), input.Even()) <==>
            !ZeroMissed(input, y) && !NineGrows(y, input.LowClosed(), input.Even()) &&
            (input.LowClosed() == input.Even() || !y.BoundaryIsBest(input.Even()))
  {
    hide NineGrows, ZeroUnseen, Window.IsShortest, Input.LowClosed, Input.RemainderExp, Window.BoundaryIsBest,
      Window.ReachesOne;
    if ZeroMissed(input, y) {
      NotShortest(y, buf, input.Even(), input.Even());
    } else if NineGrows(y, input.LowClosed(), input.Even()) {
      NoDigit(y, buf, input.Even(), input.Even());
    } else {
      BoundaryDecides(y, buf, input.LowClosed(), input.Even(), input.Even());
    }
  }

  lemma NoDigit(x: Window, buf: string, lowClosed: bool, upClosed: bool)
    requires buf == ":"
    ensures !x.IsShortest(buf, lowClosed, upClosed)
  {
    assert !IsDigit(buf[0]);
  }

  /** A digit with a zero behind it is longer than the digit alone. */
  lemma NotShortest(x: Window, buf: string, lowClosed: bool, upClosed: bool)
    requires x.Valid() && SuperfluousZero(x, buf)
    ensures !x.IsShortest(buf, lowClosed, upClosed)
  {
    assert Pow(10, 0) == 1;
    var d := DigitValue(buf[0]);
    assert x.Inside(d, 0, lowClosed, upClosed);
    assert !x.NoHit(0, lowClosed, upClosed);
  }

  /**
    The first of n digits is zero exactly if the number rounds to less than 10^exp10. It is below it
    only where the fixup goes by the upper boundary, and then n digits are one fewer than asked for.
  */
  lemma FirstDigitZero(x: Window, n: nat, exp10: int, buf: string, lastExp: int)
    requires x.den > 0 && n > 0 && IsRounded(x, n, exp10, buf, lastExp)
    ensures buf[0] == '0' <==>
            2 * (x.num * Pow(10, n - 1)) < (2 * Pow(10, n - 1) - 1) * x.den ||
            (2 * (x.num * Pow(10, n - 1)) == (2 * Pow(10, n - 1) - 1) * x.den && n == 1)
    ensures buf[0] == '0' ==> x.num < x.den
  {
    var p, scaled := Pow(10, n - 1), x.num * Pow(10, n - 1);
    PowPositive(10, n - 1);
    EvenPower(n - 1);
    RoundsBelow(scaled, x.den, p);
    LeadingZero(buf);
    hide RoundHalfEven, Decimal;
    if x.num >= x.den {
      MulLe(x.den, x.num, p);
      assert (2 * p - 1) * x.den == 2 * (p * x.den) - x.den by { MulAssoc(2, p, x.den); }
    }
    if lastExp != exp10 - (n - 1) {
      assert Pow(10, n) == 10 * p;
    }
  }

  lemma EvenPower(k: nat)
    ensures k > 0 ==> Pow(10, k) % 2 == 0
    ensures k == 0 ==> Pow(10, k) == 1
  {
    if k > 0 { assert Pow(10, k) == 2 * (5 * Pow(10, k - 1)); }
  }

  /** When rounding to even stays below p. */
  lemma RoundsBelow(num: nat, den: nat, p: nat)
    requires den > 0 && p > 0
    ensures RoundHalfEven(num, den) < p <==>
            2 * num < (2 * p - 1) * den || (2 * num == (2 * p - 1) * den && p % 2 == 1)
  {
    var q, r, a := num / den, num % den, (p - 1) * den;
    QuotientNonnegative(num, den);
    MulSum(2 * (p - 1), 1, den);
    MulAssoc(2, p - 1, den);
    MulSum(q, 1, den);
    MulSum(p - 1, 1, den);
    if q < p - 1 { MulLe(q + 1, p - 1, den); }
    if q >= p { MulLe(p, q, den); }
    assert (2 * p - 1) * den == 2 * a + den;
  }

  lemma LeadingZero(s: string)
    requires s != "" && AllDigits(s)
    ensures s[0] == '0' <==> Decimal(s) < Pow(10, |s| - 1)
  {
    if s[0] == '0' {
      assert s == "0" + s[1..];
      DecimalConcat("0", s[1..]);
      ZerosOnly("0");
      DecimalBound(s[1..]);
    } else {
      DecimalLowerBound(s);
    }
  }

  /**
    With a significand of at most 64 bits, a negative exponent, or room in the lowest digit, the
    only failure left is a lower boundary that should count and does not.
  */
  lemma RoomyMissesLittle(input: Input, fixup: bool)
    requires input.Valid() && input.Roomy() && GoodEstimate(input, fixup)
    ensures FinalWindow(input, fixup).den > 0
    ensures !ZeroMissed(input, FinalWindow(input, fixup)) && !OneMissed(input, FinalWindow(input, fixup))
    ensures input.LowClosed() ==> input.Even()
  {
    WindowIsValid(input);
    RemainderComparable(input, fixup);
    DivisionsSee(input, fixup);
    GapsAreSmall(input);
    PowMonotone(BASE, input.RemainderExp(), input.LowerExp());
    if input.NumeratorExp() > input.DenominatorExp() {
      assert input.Numerator() * Pow(10, 0) != input.Denominator();
      assert input.Numerator() * Pow(10, 1) != input.Denominator();
      assert Pow(10, 1) == 10 && Pow(10, 0) == 1;
    }
  }
}
