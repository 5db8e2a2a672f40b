/** What format_dragon's digit strings mean as real numbers. */
module DragonMeaning {
  import opened Powers
  import opened Digits
  import opened DragonMath
  import opened Dragon
  import opened FormatDragon

  // ---------------------------------------------------------------- real products and powers

  /** A product by name, so that proofs can treat it as an uninterpreted function. */
  ghost function Times(x: real, y: real): real {
    x * y
  }

  lemma TimesComm(x: real, y: real)
    ensures Times(x, y) == Times(y, x)
  {
  }

  lemma TimesAssoc(x: real, y: real, z: real)
    ensures Times(x, Times(y, z)) == Times(Times(x, y), z)
  {
  }

  lemma TimesOne(x: real)
    ensures Times(x, 1.0) == x && Times(1.0, x) == x
  {
  }

  lemma TimesSum(x: real, y: real, z: real)
    ensures Times(x + y, z) == Times(x, z) + Times(y, z)
    ensures Times(x - y, z) == Times(x, z) - Times(y, z)
  {
  }

  lemma TimesPositive(x: real, y: real)
    requires x > 0.0 && y > 0.0
    ensures Times(x, y) > 0.0
  {
  }

  lemma TimesOrder(x: real, y: real, z: real)
    requires z > 0.0
    ensures x > y <==> Times(x, z) > Times(y, z)
    ensures x == y <==> Times(x, z) == Times(y, z)
  {
    assert (x - y) * z == x * z - y * z;
  }

  lemma TimesIntegers(a: int, b: int)
    ensures (a * b) as real == Times(a as real, b as real)
  {
  }

  /** b^t for any integer t. */
  ghost function RealPow(b: nat, t: int): (r: real)
    requires b > 0
    ensures r > 0.0
  {
    PowPositive(b, if t >= 0 then t else -t);
    if t >= 0 then Pow(b, t) as real else 1.0 / Pow(b, -t) as real
  }

  lemma RealPowNext(b: nat, t: int)
    requires b > 0
    ensures RealPow(b, t + 1) == Times(RealPow(b, t), b as real)
  {
    if t < 0 {
      PowPositive(b, -t - 1);
      var p := Pow(b, -t - 1) as real;
      assert Pow(b, -t) as real == b as real * p;
      Reciprocal(b as real, p);
    }
  }

  lemma Reciprocal(b: real, p: real)
    requires b > 0.0 && p > 0.0
    ensures b * p > 0.0 && 1.0 / p == (1.0 / (b * p)) * b
  {
    var q := 1.0 / (b * p);
    assert q * (b * p) == 1.0;
    assert (q * b) * p == 1.0;
  }

  lemma RealPowNat(b: nat, t: nat)
    requires b > 0
    ensures RealPow(b, t) == Pow(b, t) as real
    ensures RealPow(b, 0) == 1.0
  {
  }

  lemma {:induction false} RealPowAdd(b: nat, s: int, t: int)
    requires b > 0
    ensures RealPow(b, s + t) == Times(RealPow(b, s), RealPow(b, t))
    decreases if t < 0 then -t else t
  {
    hide RealPow, Times;
    if t == 0 {
      RealPowNat(b, 0);
      TimesOne(RealPow(b, s));
    } else if t > 0 {
      RealPowAdd(b, s, t - 1);
      RealPowNext(b, s + t - 1);
      RealPowNext(b, t - 1);
      TimesAssoc(RealPow(b, s), RealPow(b, t - 1), b as real);
    } else {
      RealPowAdd(b, s, t + 1);
      RealPowNext(b, s + t);
      RealPowNext(b, t);
      TimesAssoc(RealPow(b, s), RealPow(b, t), b as real);
      TimesOrder(RealPow(b, s + t), Times(RealPow(b, s), RealPow(b, t)), b as real);
    }
  }

  // ---------------------------------------------------------------- the number and its neighbours

  /** The binary number f * 2^e. */
  ghost function Number(input: Input): real {
    Times(input.f as real, RealPow(2, input.e))
  }

  /** Half the distance to the next number below. */
  ghost function GapBelow(input: Input): real {
    RealPow(2, input.e - input.Shift())
  }

  /** Half the distance to the next number above. */
  ghost function GapAbove(input: Input): real {
    RealPow(2, input.e - 1)
  }

  /** w * 10^t */
  ghost function DecimalNumber(w: int, t: int): real {
    Times(w as real, RealPow(10, t))
  }

  ghost predicate NotBelow(input: Input, d: real, closed: bool) {
    d > Number(input) - GapBelow(input) || (d == Number(input) - GapBelow(input) && closed)
  }

  ghost predicate NotAbove(input: Input, d: real, closed: bool) {
    d < Number(input) + GapAbove(input) || (d == Number(input) + GapAbove(input) && closed)
  }

  /** d rounds to the number f * 2^e, boundaries counting as told. */
  ghost predicate RoundsTo(input: Input, d: real, lowClosed: bool, upClosed: bool) {
    NotBelow(input, d, lowClosed) && NotAbove(input, d, upClosed)
  }

  // ---------------------------------------------------------------- the window measures it

  /** The window is the number with its gaps, all multiplied by c = den / 10^exp10. */
  ghost predicate ScaledBy(x: Window, input: Input, exp10: int, c: real) {
    && c > 0.0 && x.den as real == Times(c, RealPow(10, exp10))
    && x.num as real == Times(Number(input), c)
    && x.low as real == Times(GapBelow(input), c) && x.up as real == Times(GapAbove(input), c)
  }

  ghost predicate Measures(x: Window, input: Input, exp10: int) {
    x.Valid() && exists c: real :: ScaledBy(x, input, exp10, c)
  }

  /** The integers of the window, written with real powers. */
  lemma WindowAsReals(input: Input)
    requires input.Valid()
    ensures var e, s, k, f := input.e, input.Shift(), input.exp10, input.f as real;
            && input.Lower() as real == (if e >= 0 then RealPow(2, e) else if k < 0 then RealPow(10, -k) else 1.0)
            && input.Upper() as real == (if input.predecessorCloser then 2.0 else 1.0) * input.Lower() as real
            && input.Denominator() as real ==
                 (if e >= 0 then Times(RealPow(10, k), RealPow(2, s))
                  else if k < 0 then RealPow(2, s - e) else Times(RealPow(10, k), RealPow(2, s - e)))
            && input.Numerator() as real ==
                 (if e >= 0 then Times(f, RealPow(2, e + s))
                  else if k < 0 then Times(Times(RealPow(10, -k), f), RealPow(2, s)) else Times(f, RealPow(2, s)))
  {
    hide Times, Pow, RealPow;
    var e, s, k := input.e, input.Shift(), input.exp10;
    RealPowNat(2, s);
    RealPowNat(10, if k < 0 then -k else k);
    if e >= 0 {
      RealPowNat(2, e);
      RealPowNat(2, e + s);
      TimesIntegers(input.f, Pow(2, e + s));
      TimesIntegers(Pow(10, k), Pow(2, s));
    } else if k < 0 {
      RealPowNat(2, s - e);
      TimesIntegers(Pow(10, -k), input.f);
      TimesIntegers(Pow(10, -k) * input.f, Pow(2, s));
    } else {
      RealPowNat(2, s - e);
      TimesIntegers(input.f, Pow(2, s));
      TimesIntegers(Pow(10, k), Pow(2, s - e));
    }
  }

  /** Both gaps scaled by 2^t; with t = shift the upper one is two or one lower units wide. */
  lemma GapsScaled(input: Input, t: int)
    ensures Times(GapBelow(input), RealPow(2, t)) == RealPow(2, input.e - input.Shift() + t)
    ensures Times(GapAbove(input), RealPow(2, t)) ==
            (if input.predecessorCloser then 2.0 else 1.0) * RealPow(2, input.e - input.Shift() + t)
  {
    var s := input.Shift();
    RealPowAdd(2, input.e - s, t);
    RealPowAdd(2, input.e - 1, t);
    if input.predecessorCloser {
      RealPowNext(2, input.e - s + t);
    }
  }

  lemma WindowMeasures(input: Input)
    requires input.Valid()
    ensures Measures(input.Window(), input, input.exp10)
  {
    WindowIsValid(input);
    WindowAsReals(input);
    hide Times, RealPow, Input.Numerator, Input.Denominator, Input.Lower, Input.Upper;
    var e, s, k, f := input.e, input.Shift(), input.exp10, input.f as real;
    var t := if e >= 0 then s else s - e;
    GapsScaled(input, t);
    RealPowAdd(2, e, t);
    RealPowNat(2, 0);
    var two := RealPow(2, t);
    if e >= 0 || k >= 0 {
      TimesComm(RealPow(10, k), two);
      TimesAssoc(f, RealPow(2, e), two);
      assert ScaledBy(input.Window(), input, k, two);
    } else {
      var ten := RealPow(10, -k);
      RealPowAdd(10, -k, k);
      RealPowNat(10, 0);
      TimesAssoc(two, ten, RealPow(10, k));
      TimesOne(two);
      TimesOne(ten);
      TimesAssoc(GapBelow(input), two, ten);
      TimesAssoc(GapAbove(input), two, ten);
      TwiceTimes(ten);
      Exchange(f, RealPow(2, e), two, ten);
      TimesPositive(two, ten);
      assert ScaledBy(input.Window(), input, k, Times(two, ten));
    }
  }

  lemma TwiceTimes(x: real)
    ensures Times(2.0, x) == 2.0 * x
  {
  }

  lemma Exchange(f: real, p: real, two: real, ten: real)
    ensures Times(Times(ten, f), Times(p, two)) == Times(Times(f, p), Times(two, ten))
  {
    hide Times;
    TimesComm(ten, f);
    TimesComm(ten, Times(p, two));
    TimesAssoc(f, ten, Times(p, two));
    TimesAssoc(p, two, ten);
    TimesAssoc(f, p, Times(two, ten));
  }

  lemma FinalMeasures(input: Input, fixup: bool)
    requires input.Valid()
    ensures Measures(FinalWindow(input, fixup), input, FinalExp(input, fixup))
  {
    WindowMeasures(input);
    if Drops(input, fixup) {
      var x := input.Window();
      var c: real :| ScaledBy(x, input, input.exp10, c);
      LoweredScaledBy(x, input, input.exp10, c);
    }
  }

  lemma LoweredScaledBy(x: Window, input: Input, exp10: int, c: real)
    requires ScaledBy(x, input, exp10, c)
    ensures ScaledBy(Lowered(x), input, exp10 - 1, 10.0 * c)
  {
    RealPowNext(10, exp10 - 1);
    hide RealPow, Number, GapBelow, GapAbove, Times;
    TenTimes(Number(input), c);
    TenTimes(GapBelow(input), c);
    TenTimes(GapAbove(input), c);
    TenTimes(RealPow(10, exp10 - 1), c);
  }

  lemma TenTimes(a: real, c: real)
    ensures Times(a, 10.0 * c) == 10.0 * Times(a, c) && Times(10.0 * c, a) == Times(c, Times(a, 10.0))
  {
  }

  // ---------------------------------------------------------------- candidates as decimals

  /** Candidates inside the window are the decimals that round to the number. */
  lemma InsideMeans(x: Window, input: Input, exp10: int, w: int, j: nat, closed: bool)
    requires Measures(x, input, exp10)
    ensures x.AboveLower(w, j, closed) <==> NotBelow(input, DecimalNumber(w, exp10 - j), closed)
    ensures x.BelowUpper(w, j, closed) <==> NotAbove(input, DecimalNumber(w, exp10 - j), closed)
  {
    var c: real :| ScaledBy(x, input, exp10, c);
    hide RealPow, Number, GapBelow, GapAbove, Window.Multiple, Window.Lower, Window.Upper, Times, Pow;
    var t, p := RealPow(10, exp10 - j), RealPow(10, j);
    RealPowAdd(10, exp10 - j, j);
    CandidateAsReals(x, w, j);
    Redistribute(w as real, c, t, p);
    var cp := Times(c, p);
    TimesPositive(c, p);
    TimesSum(Number(input), GapBelow(input), c);
    TimesSum(Number(input), GapAbove(input), c);
    TimesAssoc(Number(input) - GapBelow(input), c, p);
    TimesAssoc(Number(input) + GapAbove(input), c, p);
    TimesOrder(DecimalNumber(w, exp10 - j), Number(input) - GapBelow(input), cp);
    TimesOrder(Number(input) + GapAbove(input), DecimalNumber(w, exp10 - j), cp);
  }

  lemma CandidateAsReals(x: Window, w: int, j: nat)
    ensures x.Multiple(w) as real == Times(w as real, x.den as real)
    ensures x.Lower(j) as real == Times(x.num as real - x.low as real, RealPow(10, j))
    ensures x.Upper(j) as real == Times(x.num as real + x.up as real, RealPow(10, j))
  {
    RealPowNat(10, j);
    hide Times, RealPow, Pow;
    TimesIntegers(w, x.den);
    TimesIntegers(x.num - x.low, Pow(10, j));
    TimesIntegers(x.num + x.up, Pow(10, j));
  }

  lemma Redistribute(w: real, c: real, t: real, p: real)
    ensures Times(w, Times(c, Times(t, p))) == Times(Times(w, t), Times(c, p))
  {
    hide Times;
    TimesAssoc(c, t, p);
    TimesComm(c, t);
    TimesAssoc(t, c, p);
    TimesAssoc(w, t, Times(c, p));
  }

  ghost function Apart(x: real, y: real): real {
    if x >= y then x - y else y - x
  }

  /** Distances in the window are distances from the number, in units of c * 10^j. */
  lemma DistanceMeans(x: Window, input: Input, exp10: int, c: real, w: int, j: nat)
    requires ScaledBy(x, input, exp10, c)
    ensures Gap(w, x.num * Pow(10, j), x.den) as real ==
            Times(Apart(DecimalNumber(w, exp10 - j), Number(input)), Times(c, RealPow(10, j)))
    ensures x.Distance(w, j) == Gap(w, x.num * Pow(10, j), x.den)
  {
    var t, p := RealPow(10, exp10 - j), RealPow(10, j);
    RealPowNat(10, j);
    hide RealPow, Number, Times, Pow;
    RealPowAdd(10, exp10 - j, j);
    TimesIntegers(w, x.den);
    TimesIntegers(x.num, Pow(10, j));
    Redistribute(w as real, c, t, p);
    TimesAssoc(Number(input), c, p);
    TimesSum(DecimalNumber(w, exp10 - j), Number(input), Times(c, p));
    TimesSum(Number(input), DecimalNumber(w, exp10 - j), Times(c, p));
    TimesPositive(c, p);
    TimesOrder(DecimalNumber(w, exp10 - j), Number(input), Times(c, p));
  }

  lemma CloserMeans(x: Window, input: Input, exp10: int, v: int, w: int, j: nat)
    requires Measures(x, input, exp10)
    ensures Gap(v, x.num * Pow(10, j), x.den) <= Gap(w, x.num * Pow(10, j), x.den) <==>
            Apart(DecimalNumber(v, exp10 - j), Number(input)) <= Apart(DecimalNumber(w, exp10 - j), Number(input))
    ensures x.Distance(v, j) <= x.Distance(w, j) <==>
            Apart(DecimalNumber(v, exp10 - j), Number(input)) <= Apart(DecimalNumber(w, exp10 - j), Number(input))
  {
    var c: real :| ScaledBy(x, input, exp10, c);
    DistanceMeans(x, input, exp10, c, v, j);
    DistanceMeans(x, input, exp10, c, w, j);
    TimesPositive(c, RealPow(10, j));
    hide Times, RealPow, Gap, Number, Window.Distance, Pow, DecimalNumber;
    TimesOrder(Apart(DecimalNumber(v, exp10 - j), Number(input)), Apart(DecimalNumber(w, exp10 - j), Number(input)),
               Times(c, RealPow(10, j)));
  }

  // ---------------------------------------------------------------- what the results are

  /** q * 10^u is nearer to the number than w * 10^u, or as near and even. */
  ghost predicate NotNearer(input: Input, q: int, w: int, u: int) {
    var dq, dw := Apart(DecimalNumber(q, u), Number(input)), Apart(DecimalNumber(w, u), Number(input));
    dq < dw || (dq == dw && (w == q || q % 2 == 0))
  }

  /**
    The shortest form: it rounds to the number; every decimal w * 10^t that does so has at
    least as many digits; and it is the nearest with its last position, even on a tie.
  */
  lemma ShortestForm(input: Input, fixup: bool, buf: string, lastExp: int, lowClosed: bool, upClosed: bool)
    requires input.Valid() && FinalWindow(input, fixup).den > 0
    requires FinalWindow(input, fixup).IsShortest(buf, lowClosed, upClosed)
    requires lastExp == FinalExp(input, fixup) - (|buf| - 1)
    ensures RoundsTo(input, DecimalNumber(Decimal(buf), lastExp), lowClosed, upClosed)
    ensures forall w: nat, t: int ::
              RoundsTo(input, DecimalNumber(w, t), lowClosed, upClosed) ==> w >= Pow(10, |buf| - 1)
    ensures forall w: int :: RoundsTo(input, DecimalNumber(w, lastExp), lowClosed, upClosed) ==>
              NotNearer(input, Decimal(buf), w, lastExp)
  {
    var x, k, i := FinalWindow(input, fixup), FinalExp(input, fixup), |buf| - 1;
    FinalMeasures(input, fixup);
    InsideMeans(x, input, k, Decimal(buf), i, lowClosed);
    InsideMeans(x, input, k, Decimal(buf), i, upClosed);
    forall w: nat, t: int | RoundsTo(input, DecimalNumber(w, t), lowClosed, upClosed)
      ensures w >= Pow(10, i)
    {
      EnoughDigits(input, x, k, buf, lowClosed, upClosed, w, t);
    }
    forall w: int | RoundsTo(input, DecimalNumber(w, lastExp), lowClosed, upClosed)
      ensures NotNearer(input, Decimal(buf), w, lastExp)
    {
      InsideMeans(x, input, k, w, i, lowClosed);
      InsideMeans(x, input, k, w, i, upClosed);
      assert x.Inside(w, i, lowClosed, upClosed);
      assert x.Beats(Decimal(buf), w, i);
      CloserMeans(x, input, k, Decimal(buf), w, i);
      CloserMeans(x, input, k, w, Decimal(buf), i);
    }
  }

  lemma EnoughDigits(input: Input, x: Window, k: int, buf: string, lowClosed: bool, upClosed: bool, w: nat, t: int)
    requires Measures(x, input, k) && x.IsShortest(buf, lowClosed, upClosed)
    requires RoundsTo(input, DecimalNumber(w, t), lowClosed, upClosed)
    ensures w >= Pow(10, |buf| - 1)
  {
    if t <= k {
      InsideMeans(x, input, k, w, k - t, lowClosed);
      InsideMeans(x, input, k, w, k - t, upClosed);
      x.FewestDigits(buf, lowClosed, upClosed, w, k - t);
    } else {
      CoarseDecimal(w, t, k);
      InsideMeans(x, input, k, w * Pow(10, t - k), 0, lowClosed);
      InsideMeans(x, input, k, w * Pow(10, t - k), 0, upClosed);
      x.FewestDigitsCoarse(buf, lowClosed, upClosed, w, t - k);
    }
  }

  lemma CoarseDecimal(w: int, t: int, k: int)
    requires t >= k
    ensures DecimalNumber(w, t) == DecimalNumber(w * Pow(10, t - k), k)
  {
    RealPowNat(10, t - k);
    hide Pow, RealPow, Times;
    RealPowAdd(10, t - k, k);
    TimesIntegers(w, Pow(10, t - k));
    TimesAssoc(w as real, RealPow(10, t - k), RealPow(10, k));
  }

  /** q * 10^u is nearest to the number among all multiples of 10^u, and q is even on a tie. */
  ghost predicate Nearest(input: Input, q: int, u: int) {
    forall w: int :: NotNearer(input, q, w, u)
  }

  ghost predicate IsNearestDecimal(input: Input, d: real, u: int) {
    exists q: nat :: d == DecimalNumber(q, u) && Nearest(input, q, u)
  }

  /** The form with n digits is the nearest multiple of 10^u, u the position of digit n. */
  lemma RoundedForm(input: Input, fixup: bool, n: nat, buf: string, lastExp: int)
    requires input.Valid() && FinalWindow(input, fixup).den > 0
    requires var x := FinalWindow(input, fixup);
             if n == 0 then x.num < 10 * x.den && RoundingDigit(x, FinalExp(input, fixup), buf, lastExp)
             else IsRounded(x, n, FinalExp(input, fixup), buf, lastExp)
    ensures buf != "" && AllDigits(buf)
    ensures IsNearestDecimal(input, DecimalNumber(Decimal(buf), lastExp), FinalExp(input, fixup) - (n - 1))
  {
    hide Pow, RoundHalfEven, DecimalNumber, Measures, FinalWindow, FinalExp, Nearest, Decimal;
    var x, k := FinalWindow(input, fixup), FinalExp(input, fixup);
    FinalMeasures(input, fixup);
    if n == 0 {
      NoDigits(x, input, k, buf, lastExp);
    } else {
      var q := RoundedNumber(x, n, k, buf, lastExp);
      var u := k - (n - 1);
      NearestRounded(x, input, k, n - 1, q, u);
      assert DecimalNumber(Decimal(buf), lastExp) == DecimalNumber(q, u) && Nearest(input, q, u);
    }
  }

  /** The one digit that stands for a request of no digits is the number rounded to one position more. */
  lemma NoDigits(x: Window, input: Input, k: int, buf: string, lastExp: int)
    requires Measures(x, input, k) && RoundingDigit(x, k, buf, lastExp) && x.num < 10 * x.den
    ensures buf != "" && AllDigits(buf)
    ensures IsNearestDecimal(input, DecimalNumber(Decimal(buf), lastExp), k + 1)
  {
    var y := DragonMath.Window(x.num, 10 * x.den, x.low, x.up);
    var c: real :| ScaledBy(x, input, k, c);
    RaisedScaledBy(x, y, input, k, c);
    var q := if 2 * x.num > 10 * x.den then 1 else 0;
    RoundHalfEvenFrom(x.num, y.den, 0, x.num);
    assert Pow(10, 0) == 1;
    assert buf[..0] == "";
    assert Decimal(buf) == q;
    NearestRounded(y, input, k + 1, 0, q, k + 1);
  }

  lemma RaisedScaledBy(x: Window, y: Window, input: Input, exp10: int, c: real)
    requires ScaledBy(x, input, exp10, c) && y == DragonMath.Window(x.num, 10 * x.den, x.low, x.up)
    ensures ScaledBy(y, input, exp10 + 1, c)
  {
    RealPowNext(10, exp10);
    hide RealPow, Number, GapBelow, GapAbove, Times;
    TenTimes(c, RealPow(10, exp10));
    TimesComm(RealPow(10, exp10), 10.0);
    TenTimes(RealPow(10, exp10), 1.0);
  }

  /** The digits, the last of them at 10^lastExp, are the decimal of precision 10^u nearest to the number. */
  ghost predicate NamesNearest(input: Input, buf: string, lastExp: int, u: int) {
    AllDigits(buf) && IsNearestDecimal(input, DecimalNumber(Decimal(buf), lastExp), u)
  }

  /**
    With a precision counted from the decimal point the result is the nearest decimal of that
    precision, even on a tie, if and only if the count of digits that this leaves is not negative
    and the number is not an unseen one that is to have more than one digit.
  */
  lemma FixedPrecision(input: Input, numDigits: int, buf: string, lastExp: int)
    requires numDigits >= 0 && input.Valid() && GoodEstimate(input, true) && WorkingWindow(input, true, numDigits).den > 0
    requires Correct(input, WorkingWindow(input, true, numDigits), FinalExp(input, true),
                     RequestedDigits(input, true, true, numDigits), buf, lastExp)
    ensures var n := RequestedDigits(input, true, true, numDigits);
            NamesNearest(input, buf, lastExp, -numDigits) <==>
            n >= 0 && !(n >= 2 && OneMissed(input, FinalWindow(input, true)))
  {
    SameNumber(input, true, numDigits);
    var n := RequestedDigits(input, true, true, numDigits);
    var x := WorkingWindow(input, true, numDigits);
    SomethingPrinted(input, x, FinalExp(input, true), n, buf, lastExp);
    hide FinalExp, FinalWindow, WorkingWindow, IsNearestDecimal, LoopResult, DecimalNumber, RoundHalfEven;
    if n < 0 {
      if AllDigits(buf) {
        OnlyZeroIsNearest(input, Decimal(buf), lastExp, -numDigits);
      }
    } else if !(n >= 2 && OneMissed(input, x)) {
      RoundedForm(input, true, n, buf, lastExp);
    }
  }

  /**
    format_dragon in real numbers. It throws exactly if the fixed precision makes the count of
    digits exceed an int. Digits for a fixed precision name the nearest decimal of that precision,
    even on a tie, and any positive count of digits names the nearest with that count, with the one
    exception of an unseen one. Without a count they are the shortest form, nearest and with the
    fewest digits of all decimals that round to the number.
  */
  method FormatDragonMeans(input: Input, fixup: bool, fixed: bool, numDigits: int) returns (outcome: Outcome)
    requires input.Valid() && GoodEstimate(input, fixup)
    ensures FinalWindow(input, fixup).Valid()
    ensures numDigits <= 0x7FFF_FFFF ==>
              (outcome.NumberIsTooBig? <==>
               fixup && fixed && numDigits + FinalExp(input, fixup) + 1 > 0x7FFF_FFFF)
    ensures outcome.Digits? && fixup && fixed && numDigits >= 0 ==>
              var n := RequestedDigits(input, fixup, fixed, numDigits);
              NamesNearest(input, outcome.buf, outcome.exp10, -numDigits) <==>
              n >= 0 && !(n >= 2 && OneMissed(input, FinalWindow(input, fixup)))
    ensures var n := RequestedDigits(input, fixup, fixed, numDigits);
            outcome.Digits? && n >= 0 && !(n >= 2 && OneMissed(input, FinalWindow(input, fixup))) ==>
              NamesNearest(input, outcome.buf, outcome.exp10, FinalExp(input, fixup) - (n - 1))
    ensures var x := FinalWindow(input, fixup);
            outcome.Digits? && RequestedDigits(input, fixup, fixed, numDigits) < 0 && numDigits < 0 &&
            !ZeroMissed(input, x) && !NineGrows(x, input.LowClosed(), input.Even()) &&
            (input.LowClosed() == input.Even() || !x.BoundaryIsBest(input.Even())) ==>
              NamesShortest(input, outcome.buf, outcome.exp10, input.Even())
  {
    outcome := FormatDragon.FormatDragon(input, fixup, fixed, numDigits);
    ghost var n := RequestedDigits(input, fixup, fixed, numDigits);
    if outcome.Digits? {
      SameNumber(input, fixup, numDigits);
      if fixup && fixed && numDigits >= 0 {
        FixedPrecision(input, numDigits, outcome.buf, outcome.exp10);
      }
      if n >= 0 && !(n >= 2 && OneMissed(input, FinalWindow(input, fixup))) {
        RoundedForm(input, fixup, n, outcome.buf, outcome.exp10);
      }
      if n < 0 && numDigits < 0 && FinalWindow(input, fixup).IsShortest(outcome.buf, input.Even(), input.Even()) {
        ShortestForm(input, fixup, outcome.buf, outcome.exp10, input.Even(), input.Even());
      }
    }
  }

  /** The digits, the last of them at 10^lastExp, are the shortest form of the number. */
  ghost predicate NamesShortest(input: Input, buf: string, lastExp: int, closed: bool) {
    && buf != "" && AllDigits(buf)
    && RoundsTo(input, DecimalNumber(Decimal(buf), lastExp), closed, closed)
    && (forall w: nat, t: int ::
          RoundsTo(input, DecimalNumber(w, t), closed, closed) ==> w >= Pow(10, |buf| - 1))
    && (forall w: int :: RoundsTo(input, DecimalNumber(w, lastExp), closed, closed) ==>
          NotNearer(input, Decimal(buf), w, lastExp))
  }

  /** What the shortest loop yields is never zero. */
  lemma ShortestIsPositive(x: Window, buf: string, exp: nat, lowClosed: bool, upClosed: bool)
    requires x.Valid() && LoopResult(x, buf, exp, lowClosed, upClosed)
    ensures AllDigits(buf) ==> Decimal(buf) > 0
  {
    hide Pow, Decimal, Window.Best, ZeroUnseen, NineGrows;
    if ZeroUnseen(x, exp) {
      TwoDigits(buf);
      assert DigitValue(buf[0]) > 0;
    } else if NineGrows(x, lowClosed, upClosed) {
      assert !IsDigit(buf[0]);
    } else if x.ReachesOne(upClosed) {
      PowPositive(10, |buf| - 1);
    } else {
      PowPositive(10, |buf| - 2);
      assert buf == "0" + buf[1..];
      DecimalConcat("0", buf[1..]);
      ZerosOnly("0");
      MulLe(0, Decimal("0"), Pow(10, |buf[1..]|));
    }
  }

  /** The shortest form is never zero, and a missed one leaves a character that is no digit. */
  lemma SomethingPrinted(input: Input, x: Window, exp10: int, n: int, buf: string, lastExp: int)
    requires input.Valid() && x.Valid() && Correct(input, x, exp10, n, buf, lastExp)
    ensures n < 0 && AllDigits(buf) ==> Decimal(buf) > 0
    ensures n >= 2 && OneMissed(input, x) ==> !AllDigits(buf)
  {
    hide RoundHalfEven, OneMissed, LoopResult, IsRounded;
    if n < 0 && AllDigits(buf) {
      ShortestIsPositive(x, buf, input.RemainderExp(), input.LowClosed(), input.Even());
    }
    if n >= 2 && OneMissed(input, x) {
      assert !IsDigit(buf[1]);
    }
  }

  /** Far below 10^u the nearest multiple of 10^u is zero and no other. */
  lemma OnlyZeroIsNearest(input: Input, w: nat, t: int, u: int)
    requires input.Valid() && GoodEstimate(input, true) && w > 0 && u >= FinalExp(input, true) + 2
    ensures !IsNearestDecimal(input, DecimalNumber(w, t), u)
  {
    hide FinalExp, FinalWindow, Times, RealPow;
    BelowNextPower(input, u);
    forall q: nat ensures !(DecimalNumber(w, t) == DecimalNumber(q, u) && Nearest(input, q, u)) {
      TimesPositive(w as real, RealPow(10, t));
      TimesNothing(RealPow(10, u));
      if q > 0 {
        TimesAtLeast(q as real, RealPow(10, u));
        assert !NotNearer(input, q, 0, u);
      }
    }
  }

  lemma TimesNothing(x: real)
    ensures Times(0.0, x) == 0.0
  {
  }

  lemma TimesAtLeast(q: real, x: real)
    requires q >= 1.0 && x > 0.0
    ensures Times(q, x) >= x
  {
    assert (q - 1.0) * x >= 0.0;
  }

  lemma BelowNextPower(input: Input, u: int)
    requires input.Valid() && GoodEstimate(input, true) && u >= FinalExp(input, true) + 2
    ensures 0.0 < Number(input) && 10.0 * Number(input) < RealPow(10, u)
  {
    var x, k := FinalWindow(input, true), FinalExp(input, true);
    FinalMeasures(input, true);
    assert x.num < 10 * x.den;
    var c: real :| ScaledBy(x, input, k, c);
    RealPowNext(10, k);
    RealPowNext(10, k + 1);
    RealPowMonotone(10, k + 2, u);
    hide FinalWindow, FinalExp, RealPow, Number;
    TenTimes(RealPow(10, k), c);
    TimesComm(RealPow(10, k), c);
    TimesTenfold(RealPow(10, k), c);
    TimesOrder(10.0 * RealPow(10, k), Number(input), c);
    TimesNothing(c);
    TimesOrder(Number(input), 0.0, c);
    TimesComm(RealPow(10, k), 10.0);
    TimesComm(RealPow(10, k + 1), 10.0);
  }

  lemma TimesTenfold(x: real, c: real)
    ensures Times(10.0 * x, c) == 10.0 * Times(x, c) && Times(x, 10.0) == 10.0 * x
  {
  }

  lemma {:induction false} RealPowMonotone(b: nat, s: int, t: int)
    requires b > 1 && s <= t
    ensures RealPow(b, s) <= RealPow(b, t)
    decreases t - s
  {
    if s < t {
      RealPowMonotone(b, s, t - 1);
      RealPowNext(b, t - 1);
      hide RealPow;
      TimesComm(RealPow(b, t - 1), b as real);
      TimesAtLeast(b as real, RealPow(b, t - 1));
    }
  }

  lemma RoundedNumber(x: Window, n: nat, k: int, buf: string, lastExp: int) returns (q: nat)
    requires n > 0 && x.den > 0 && IsRounded(x, n, k, buf, lastExp)
    ensures q == RoundHalfEven(x.num * Pow(10, n - 1), x.den)
    ensures DecimalNumber(Decimal(buf), lastExp) == DecimalNumber(q, k - (n - 1))
  {
    q := RoundHalfEven(x.num * Pow(10, n - 1), x.den);
    hide RoundHalfEven, DecimalNumber, Pow;
    if lastExp != k - (n - 1) {
      CarriedForm(n, k - (n - 1));
    }
  }

  lemma NearestRounded(x: Window, input: Input, k: int, j: nat, q: nat, u: int)
    requires Measures(x, input, k) && q == RoundHalfEven(x.num * Pow(10, j), x.den) && u == k - j
    ensures Nearest(input, q, u)
  {
    hide Measures, Pow, RoundHalfEven, NotNearer;
    forall w: int ensures NotNearer(input, q, w, u) {
      RoundedIsNearest(x, input, k, j, w);
    }
  }

  lemma RoundedIsNearest(x: Window, input: Input, k: int, j: nat, w: int)
    requires Measures(x, input, k)
    ensures NotNearer(input, RoundHalfEven(x.num * Pow(10, j), x.den), w, k - j)
  {
    var q := RoundHalfEven(x.num * Pow(10, j), x.den);
    hide Pow, RoundHalfEven, DecimalNumber, Number, Gap;
    RoundHalfEvenIsNearest(x.num * Pow(10, j), x.den, w);
    CloserMeans(x, input, k, q, w, j);
    CloserMeans(x, input, k, w, q, j);
  }

  lemma CarriedForm(n: nat, u: int)
    requires n > 0
    ensures DecimalNumber(Pow(10, n - 1), u + 1) == DecimalNumber(Pow(10, n), u)
  {
    CoarseDecimal(Pow(10, n - 1), u + 1, u);
    PowAdd(10, n - 1, 1);
  }
}
