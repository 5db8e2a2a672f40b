/**
  format_dragon: Steele and White's digit generation on bigints. The two generating loops
  are proved to produce the shortest digit string of the rounding interval and the correctly
  rounded string of a given length.
*/
module Dragon {
  import opened Powers
  import opened Limbs
  import opened BigintLemmas
  import opened Bigints
  import opened Digits
  import opened DragonMath

  function Smaller(x: nat, y: nat): nat {
    if x < y then x else y
  }

  /**
    How compare() answers whether a remainder is at most `lower`: an equal one counts as smaller
    if its digit exponent is bigger, and a zero only if its exponent is below lower's digits.
  */
  ghost predicate SeenBelow(num: nat, exp: nat, low: nat, lowExp: nat, even: bool) {
    if num == 0 then Pow(BASE, exp) <= low
    else num < low || (num == low && ClosedBelow(even, exp, lowExp))
  }

  /** Whether the lower boundary counts for a remainder and a `lower` with these digit exponents. */
  predicate ClosedBelow(even: bool, exp: nat, lowerExp: nat) {
    if exp == lowerExp then even else exp > lowerExp
  }

  /** One pass of the shortest loop: divide, then test the remainder against both boundaries. */
  method DigitAndTests(numerator: Bigint, denominator: Bigint, lower: Bigint, upper: Bigint, even: bool)
    returns (digit: nat, lowTest: bool, highTest: bool)
    requires numerator !in {denominator, lower, upper}
    requires numerator.Normal() && denominator.Positive() && lower.Positive() && upper.Positive()
    requires numerator.Value() < 10 * denominator.Value()
    requires numerator.Value() == 0 ==> numerator.exp <= denominator.exp
    modifies numerator
    ensures numerator.Normal() && digit <= 9
    ensures old(numerator.Value()) == digit * denominator.Value() + numerator.Value()
    ensures if UnseenEqual(old(numerator.Value()), old(numerator.exp), denominator) then digit == 0
            else numerator.Value() < denominator.Value()
    ensures numerator.exp == old(if digit == 0 then numerator.exp else Smaller(numerator.exp, denominator.exp))
    ensures numerator.Value() == 0 ==> numerator.exp <= denominator.exp
    ensures lowTest <==> SeenBelow(numerator.Value(), numerator.exp, lower.Value(), lower.exp, even)
    ensures highTest <==> Reaches(numerator.Value(), upper.Value(), denominator.Value(), even)
  {
    hide Pow, Val, Scaled;
    numerator.NormalZero();
    PositiveValue(denominator);
    PositiveValue(lower);
    digit := numerator.DivmodAssign(denominator);
    if !UnseenEqual(old(numerator.Value()), old(numerator.exp), denominator) {
      DigitBelowTen(old(numerator.Value()), denominator.Value(), digit, numerator.Value());
    }
    numerator.NormalZero();
    PositionsReached(lower, numerator.exp);
    var comparison := Compare(numerator, lower);
    lowTest := comparison - (if even then 1 else 0) < 0;
    comparison := AddCompare(numerator, upper, denominator);
    highTest := comparison + (if even then 1 else 0) > 0;
  }

  lemma PositiveValue(n: Bigint)
    requires n.Positive()
    ensures n.Value() > 0 && n.exp < n.NumBigits()
  {
    PositiveBounds(n.bigits, n.exp);
  }

  /** The number of positions tells which powers of the base a number reaches. */
  lemma PositionsReached(n: Bigint, exp: nat)
    requires n.Positive()
    ensures exp < n.NumBigits() <==> Pow(BASE, exp) <= n.Value()
  {
    PositiveBounds(n.bigits, n.exp);
    HighBounds(n.bigits, n.exp, n.NumBigits());
    if exp < n.NumBigits() {
      PowMonotone(BASE, exp, n.NumBigits() - 1);
    } else {
      PowMonotone(BASE, n.NumBigits(), exp);
    }
  }

  /** num + up >[=] den, the second test of the loop. */
  ghost predicate Reaches(num: nat, up: nat, den: nat, closed: bool) {
    num + up > den || (num + up == den && closed)
  }

  /** Scales the remainder and the boundaries to the next digit. */
  method TimesTen(numerator: Bigint, lower: Bigint, upper: Bigint)
    requires numerator !in {lower, upper}
    requires numerator.Normal() && lower.Positive() && upper.Positive()
    modifies numerator`bigits, lower`bigits, upper`bigits
    ensures numerator.Normal() && lower.Positive() && upper.Positive()
    ensures old(numerator.Positive()) ==> numerator.Positive()
    ensures numerator.Value() == 10 * old(numerator.Value())
    ensures lower.Value() == 10 * old(lower.Value()) && upper.Value() == 10 * old(upper.Value())
  {
    hide Pow, Val, Scaled;
    numerator.Multiply32(10);
    lower.Multiply32(10);
    if upper != lower {
      upper.Multiply32(10);
    }
  }

  /** A number and its interval one decimal position further. */
  ghost function Lowered(x: Window): Window {
    Window(10 * x.num, x.den, 10 * x.low, 10 * x.up)
  }

  /**
    What the loop yields: the shortest digits if the interval reaches one, else a zero before the
    shortest digits from the next position on.
  */
  ghost predicate ShortestDigits(x: Window, buf: string, lowClosed: bool, upClosed: bool) {
    if x.ReachesOne(upClosed) then x.IsShortest(buf, lowClosed, upClosed)
    else buf != "" && buf[0] == '0' && Lowered(x).IsShortest(buf[1..], lowClosed, upClosed)
  }

  /** The number is a single digit, but its zero remainder has an exponent above lower's digits. */
  ghost predicate ZeroUnseen(x: Window, exp: nat)
    requires x.den > 0
  {
    x.num % x.den == 0 && x.low < Pow(BASE, exp)
  }

  /** The single digit, and a zero behind it. */
  ghost predicate SuperfluousZero(x: Window, buf: string) {
    |buf| == 2 && IsDigit(buf[0]) && DigitValue(buf[0]) * x.den == x.num && buf[1] == '0'
  }

  /** The upper boundary reaches ten, and a first digit nine is incremented. */
  ghost predicate NineGrows(x: Window, lowClosed: bool, upClosed: bool)
    requires x.den > 0
  {
    var r := x.num % x.den;
    && !x.BelowTen(upClosed) && x.num / x.den == 9
    && (!(r < x.low || (r == x.low && lowClosed)) || 2 * r >= x.den)
  }

  /** `exp` is the digit exponent of a remainder once something has been subtracted. */
  ghost predicate LoopResult(x: Window, buf: string, exp: nat, lowClosed: bool, upClosed: bool)
    requires x.den > 0
  {
    if ZeroUnseen(x, exp) then SuperfluousZero(x, buf)
    else if NineGrows(x, lowClosed, upClosed) then buf == ":"
    else ShortestDigits(x, buf, lowClosed, upClosed)
  }

  /** A zero remainder exceeds `lower` at most before `lower` is scaled, and then all gaps are small. */
  ghost predicate GapsFit(x: Window, numeratorExp: nat, denominatorExp: nat) {
    var exp := Smaller(numeratorExp, denominatorExp);
    && 10 * x.low >= Pow(BASE, exp)
    && (x.low < Pow(BASE, exp) ==> numeratorExp <= denominatorExp && x.low < x.den && x.up < x.den)
  }

  /**
    The loop for the shortest representation. `upper` may be `lower` itself. Whether the lower
    boundary belongs to the interval depends on the digit exponents, not only on `even`; a
    single digit is followed by a zero if the comparison of `lower` with zero fails; and a first
    digit nine may grow to the character behind it if the upper boundary reaches ten.
  */
  method GenerateShortest(numerator: Bigint, denominator: Bigint, lower: Bigint, upper: Bigint,
                          even: bool) returns (buf: string)
    requires numerator !in {denominator, lower, upper} && denominator !in {lower, upper}
    requires numerator.Positive() && denominator.Positive() && lower.Positive() && upper.Positive()
    requires var x := Window(numerator.Value(), denominator.Value(), lower.Value(), upper.Value());
             x.Valid() && x.num < 10 * x.den && (x.ReachesOne(even) || Lowered(x).ReachesOne(even)) &&
             GapsFit(x, numerator.exp, denominator.exp)
    modifies numerator, lower, upper
    ensures var x := Window(old(numerator.Value()), old(denominator.Value()), old(lower.Value()), old(upper.Value()));
            var exp := old(Smaller(numerator.exp, denominator.exp));
            LoopResult(x, buf, exp, ClosedBelow(even, exp, old(lower.exp)), even)
  {
    ghost var x := Window(numerator.Value(), denominator.Value(), lower.Value(), upper.Value());
    ghost var start := numerator.exp;
    ghost var exp := Smaller(start, denominator.exp);
    ghost var closed := ClosedBelow(even, exp, lower.exp);
    buf := "";
    ShorteningStarts(x, closed, even);
    assert Running(x, buf, start, exp, numerator, denominator, lower, upper, closed, even);
    var more := true;
    hide Running, LoopResult, Window.ReachesOne, Window.Valid, GapsFit, Bigint.Value, Lowered;
    while more
      invariant numerator !in {denominator, lower, upper} && denominator !in {lower, upper}
      invariant more ==> Running(x, buf, start, exp, numerator, denominator, lower, upper, closed, even)
      invariant !more ==> LoopResult(x, buf, exp, closed, even)
      decreases more, 10 * x.den - lower.Value()
    {
      buf, more := ShorteningPass(numerator, denominator, lower, upper, even, buf, x, start, exp, closed);
    }
  }

  /** What the bigints and their exponents satisfy before each pass. */
  ghost predicate Running(x: Window, buf: string, start: nat, exp: nat, numerator: Bigint, denominator: Bigint,
                          lower: Bigint, upper: Bigint, closed: bool, even: bool)
    reads numerator, denominator, lower, upper
  {
    && numerator.Normal() && lower.Positive() && upper.Positive() && denominator.Positive()
    && x.den > 0 && denominator.Value() == x.den && GapsFit(x, start, denominator.exp)
    && exp == Smaller(start, denominator.exp) && closed == ClosedBelow(even, exp, lower.exp)
    && Stage(x, buf, start, exp, numerator.Value(), numerator.exp, lower.Value(), upper.Value(), closed, even)
  }

  /** The numbers before a pass, and the numerator's digit exponent. */
  ghost predicate Stage(x: Window, buf: string, start: nat, exp: nat, num: nat, numExp: nat, low: nat, up: nat,
                        closed: bool, even: bool)
    requires x.den > 0
  {
    && (buf != "" ==> Pow(BASE, exp) <= low)
    && if buf != "" && ZeroUnseen(x, exp) then
         num == 0 && |buf| == 1 && IsDigit(buf[0]) && DigitValue(buf[0]) * x.den == x.num && numExp == exp
       else
         && Awaiting(x, buf, num, low, up, closed, even)
         && numExp == if Body(x, buf, even) == "" then start else exp
  }

  /** The outcome of one division in terms of numbers: an unseen equal leaves everything as it is. */
  ghost predicate Divided(den: nat, denExp: nat, num: nat, numExp: nat, digit: nat, r: nat, rExp: nat) {
    && num == digit * den + r && digit <= 9
    && (if num == den && numExp > denExp then digit == 0 else r < den)
    && rExp == if digit == 0 then numExp else Smaller(numExp, denExp)
  }

  /** One pass of the loop; it ends the loop when a test succeeds. */
  method ShorteningPass(numerator: Bigint, denominator: Bigint, lower: Bigint, upper: Bigint, even: bool,
                        before: string, ghost x: Window, ghost start: nat, ghost exp: nat, ghost closed: bool)
    returns (buf: string, more: bool)
    requires numerator !in {denominator, lower, upper} && denominator !in {lower, upper}
    requires Running(x, before, start, exp, numerator, denominator, lower, upper, closed, even)
    modifies numerator, lower`bigits, upper`bigits
    ensures more ==> Running(x, buf, start, exp, numerator, denominator, lower, upper, closed, even)
    ensures more ==> old(lower.Value()) < lower.Value() <= 10 * x.den
    ensures !more ==> x.den > 0 && LoopResult(x, buf, exp, closed, even)
  {
    hide Pow, Val, Scaled, Decimal, Reaches, Stage, LoopResult, GapsFit, SeenBelow, Divided, Bigint.Value, ClosedBelow;
    ghost var num, numExp, low, up := numerator.Value(), numerator.exp, lower.Value(), upper.Value();
    StageFacts(x, before, start, exp, denominator.exp, num, numExp, low, up, closed, even);
    var digit, lowTest, highTest := DigitAndTests(numerator, denominator, lower, upper, even);
    ghost var r, rExp := numerator.Value(), numerator.exp;
    DividedBy(x.den, denominator.exp, num, numExp, digit, r, rExp);
    buf := before + [DigitChar(digit)];
    more := !lowTest && !highTest;
    if more {
      StageContinues(x, before, start, exp, denominator.exp, num, numExp, low, up, digit, r, rExp,
                     lower.exp, closed, even);
      TimesTen(numerator, lower, upper);
    } else {
      var roundUp := RoundLast(numerator, denominator, digit, lowTest, highTest);
      StageEnds(x, before, start, exp, denominator.exp, num, numExp, low, up, digit, r, rExp,
                lower.exp, lowTest, highTest, roundUp, closed, even);
      if roundUp {
        buf := buf[|before| := (buf[|before|] as int + 1) as char];
      }
    }
  }

  lemma DividedBy(den: nat, denExp: nat, num: nat, numExp: nat, digit: nat, r: nat, rExp: nat)
    requires num == digit * den + r && digit <= 9
    requires if num == den && numExp > denExp then digit == 0 else r < den
    requires rExp == if digit == 0 then numExp else Smaller(numExp, denExp)
    ensures Divided(den, denExp, num, numExp, digit, r, rExp)
  {
  }

  lemma StageFacts(x: Window, buf: string, start: nat, exp: nat, denExp: nat, num: nat, numExp: nat,
                   low: nat, up: nat, closed: bool, even: bool)
    requires x.den > 0 && exp == Smaller(start, denExp)
    requires Stage(x, buf, start, exp, num, numExp, low, up, closed, even)
    ensures num < 10 * x.den && (num == 0 ==> numExp <= denExp)
  {
    hide Awaiting, ZeroUnseen, Pow;
    if !(buf != "" && ZeroUnseen(x, exp)) {
      AwaitingFacts(x, buf, num, low, up, closed, even);
    }
  }

  /** Where neither an equal nor a zero goes unseen the first test means what it should. */
  lemma TestIsExact(x: Window, buf: string, start: nat, exp: nat, denExp: nat, num: nat, numExp: nat, low: nat, up: nat,
                    digit: nat, r: nat, rExp: nat, lowExp: nat, closed: bool, even: bool)
    requires exp == Smaller(start, denExp) && closed == ClosedBelow(even, exp, lowExp)
    requires Awaiting(x, buf, num, low, up, closed, even)
    requires numExp == if Body(x, buf, even) == "" then start else exp
    requires Divided(x.den, denExp, num, numExp, digit, r, rExp)
    requires r == 0 ==> Pow(BASE, exp) <= low
    ensures SeenBelow(r, rExp, low, lowExp, even) <==> r < low || (r == low && closed)
  {
    hide Awaiting, Pow;
    AwaitingFacts(x, buf, num, low, up, closed, even);
  }

  /** The first division leaves no remainder, but zero is not seen to be below `lower`. */
  lemma ZeroSlipsThrough(x: Window, start: nat, exp: nat, denExp: nat, num: nat, low: nat, up: nat,
                         digit: nat, r: nat, rExp: nat, lowExp: nat, closed: bool, even: bool)
    requires x.den > 0 && exp == Smaller(start, denExp) && GapsFit(x, start, denExp) && ZeroUnseen(x, exp)
    requires Awaiting(x, "", num, low, up, closed, even)
    requires Divided(x.den, denExp, num, start, digit, r, rExp)
    ensures r == 0 && digit * x.den == x.num && rExp == exp && low == x.low
    ensures !SeenBelow(r, rExp, low, lowExp, even) && !Reaches(r, up, x.den, even)
  {
    hide Pow;
    AwaitingStart(x, num, low, up, closed, even);
    WholeQuotient(x.num, x.den, digit, r);
  }

  lemma WholeQuotient(num: nat, den: nat, digit: nat, r: nat)
    requires den > 0 && num % den == 0 && num == digit * den + r && r < den
    ensures r == 0
  {
    DivMod(num, den, digit, r);
  }

  lemma AwaitingStart(x: Window, num: nat, low: nat, up: nat, closed: bool, even: bool)
    requires Awaiting(x, "", num, low, up, closed, even)
    ensures num == x.num > 0 && low == x.low && up == x.up
  {
    assert Pow(10, 0) == 1;
    assert Decimal("") == 0;
  }

  lemma StageContinues(x: Window, buf: string, start: nat, exp: nat, denExp: nat, num: nat, numExp: nat,
                       low: nat, up: nat, digit: nat, r: nat, rExp: nat, lowExp: nat, closed: bool, even: bool)
    requires x.den > 0 && exp == Smaller(start, denExp) && GapsFit(x, start, denExp)
    requires closed == ClosedBelow(even, exp, lowExp)
    requires Stage(x, buf, start, exp, num, numExp, low, up, closed, even)
    requires Divided(x.den, denExp, num, numExp, digit, r, rExp)
    requires !SeenBelow(r, rExp, low, lowExp, even) && !Reaches(r, up, x.den, even)
    ensures Stage(x, buf + [DigitChar(digit)], start, exp, 10 * r, rExp, 10 * low, 10 * up, closed, even)
    ensures low < 10 * low <= 10 * x.den
  {
    hide Pow, Awaiting;
    NotPending(x, buf, start, exp, denExp, num, numExp, low, up, digit, r, rExp, lowExp, closed, even);
    AwaitingFacts(x, buf, num, low, up, closed, even);
    if buf == "" {
      AwaitingStart(x, num, low, up, closed, even);
    }
    if buf == "" && ZeroUnseen(x, exp) {
      ZeroSlipsThrough(x, start, exp, denExp, num, low, up, digit, r, rExp, lowExp, closed, even);
    } else {
      RemainderSeen(x, buf, start, exp, denExp, num, numExp, low, up, digit, r, rExp, closed, even);
      TestIsExact(x, buf, start, exp, denExp, num, numExp, low, up, digit, r, rExp, lowExp, closed, even);
      AwaitingContinues(x, buf, num, low, up, digit, r, closed, even);
    }
  }

  /** A zero already waiting to be written, or an unseen equal, ends the loop. */
  lemma NotPending(x: Window, buf: string, start: nat, exp: nat, denExp: nat, num: nat, numExp: nat,
                   low: nat, up: nat, digit: nat, r: nat, rExp: nat, lowExp: nat, closed: bool, even: bool)
    requires x.den > 0 && Stage(x, buf, start, exp, num, numExp, low, up, closed, even)
    requires Divided(x.den, denExp, num, numExp, digit, r, rExp)
    requires !SeenBelow(r, rExp, low, lowExp, even) && !Reaches(r, up, x.den, even)
    ensures buf == "" || !ZeroUnseen(x, exp)
    ensures num != x.den || numExp <= denExp
  {
    hide Pow, Awaiting;
    if buf != "" && ZeroUnseen(x, exp) {
      ZeroDivided(x.den, digit, r);
    } else {
      AwaitingFacts(x, buf, num, low, up, closed, even);
    }
  }

  lemma ZeroDivided(den: nat, digit: nat, r: nat)
    requires 0 == digit * den + r && den > 0
    ensures digit == 0 && r == 0
  {
    MulLe(0, digit, den);
    if digit > 0 { MulPositive(digit, den); }
  }

  lemma RemainderSeen(x: Window, buf: string, start: nat, exp: nat, denExp: nat, num: nat, numExp: nat,
                      low: nat, up: nat, digit: nat, r: nat, rExp: nat, closed: bool, even: bool)
    requires x.den > 0 && Stage(x, buf, start, exp, num, numExp, low, up, closed, even)
    requires !ZeroUnseen(x, exp) && Divided(x.den, denExp, num, numExp, digit, r, rExp)
    ensures r == 0 ==> Pow(BASE, exp) <= low
  {
    hide Pow, Awaiting;
    if buf == "" {
      AwaitingStart(x, num, low, up, closed, even);
      if r == 0 { DivMod(num, x.den, digit, r); }
    }
  }

  lemma StageEnds(x: Window, buf: string, start: nat, exp: nat, denExp: nat, num: nat, numExp: nat, low: nat, up: nat,
                  digit: nat, r: nat, rExp: nat, lowExp: nat,
                  lowTest: bool, highTest: bool, roundUp: bool, closed: bool, even: bool)
    requires x.den > 0 && exp == Smaller(start, denExp) && GapsFit(x, start, denExp)
    requires closed == ClosedBelow(even, exp, lowExp)
    requires Stage(x, buf, start, exp, num, numExp, low, up, closed, even)
    requires Divided(x.den, denExp, num, numExp, digit, r, rExp)
    requires lowTest <==> SeenBelow(r, rExp, low, lowExp, even)
    requires highTest <==> Reaches(r, up, x.den, even)
    requires lowTest || highTest
    requires roundUp <==> !lowTest || (highTest && (2 * r > x.den || (2 * r == x.den && digit % 2 != 0)))
    ensures var s := buf + [DigitChar(digit)];
            LoopResult(x, if roundUp then s[|buf| := (s[|buf|] as int + 1) as char] else s, exp, closed, even)
  {
    hide Pow, Awaiting, ShortestDigits;
    if buf != "" && ZeroUnseen(x, exp) {
      ZeroDivided(x.den, digit, r);
    } else {
      AwaitingFacts(x, buf, num, low, up, closed, even);
      if num == x.den && numExp > denExp {
        UnitEnds(x, buf, start, exp, denExp, num, numExp, low, up, closed, even);
        assert (buf + [DigitChar(0)])[|buf| := '1'] == buf + "1";
      } else {
        if buf == "" && ZeroUnseen(x, exp) {
          ZeroSlipsThrough(x, start, exp, denExp, num, low, up, digit, r, rExp, lowExp, closed, even);
          assert false;
        }
        RemainderSeen(x, buf, start, exp, denExp, num, numExp, low, up, digit, r, rExp, closed, even);
        TestIsExact(x, buf, start, exp, denExp, num, numExp, low, up, digit, r, rExp, lowExp, closed, even);
        AwaitingEnds(x, buf, num, low, up, digit, r, lowTest, highTest, roundUp, closed, even);
        if roundUp && digit == 9 {
          assert (buf + [DigitChar(digit)])[|buf| := ':'] == ":";
        }
      }
    }
  }

  /** An unseen equal can only be the first number; it yields a zero that is rounded up to one. */
  lemma UnitEnds(x: Window, buf: string, start: nat, exp: nat, denExp: nat, num: nat, numExp: nat,
                 low: nat, up: nat, closed: bool, even: bool)
    requires x.den > 0 && exp == Smaller(start, denExp) && GapsFit(x, start, denExp)
    requires Awaiting(x, buf, num, low, up, closed, even) && num == x.den && numExp > denExp
    requires numExp == if Body(x, buf, even) == "" then start else exp
    ensures !ZeroUnseen(x, exp) && !NineGrows(x, closed, even) && ShortestDigits(x, buf + "1", closed, even)
  {
    SmallQuotient(x.num, x.den);
    UnitComesFirst(x, buf, num, low, up, closed, even);
    hide Pow, Awaiting, Window.IsShortest, Window.ReachesOne;
    if x.ReachesOne(even) {
      UnitShortest(x, closed, even);
      assert buf + "1" == "1";
    } else {
      UnitShortest(Lowered(x), closed, even);
      assert (buf + "1")[1..] == "1";
    }
  }

  lemma UnitComesFirst(x: Window, buf: string, num: nat, low: nat, up: nat, closed: bool, even: bool)
    requires Awaiting(x, buf, num, low, up, closed, even) && num == x.den && Body(x, buf, even) == ""
    ensures x.Valid()
    ensures if x.ReachesOne(even) then buf == "" && num == x.num
            else buf == "0" && num == 10 * x.num && x.num % x.den != 0
  {
    assert Pow(10, 0) == 1 && Decimal("") == 0;
    if !x.ReachesOne(even) { SmallRemainder(x.num, x.den); }
  }

  lemma SmallRemainder(num: nat, den: nat)
    ensures 0 < num < den ==> num % den == num
  {
  }

  lemma UnitShortest(x: Window, lowClosed: bool, upClosed: bool)
    requires x.Valid() && x.num == x.den
    ensures x.IsShortest("1", lowClosed, upClosed)
  {
    assert Pow(10, 0) == 1;
    assert "1"[..0] == "";
    assert Decimal("1") == 1;
    forall w: int ensures x.Beats(1, w, 0) {
      if x.Distance(w, 0) == 0 { MulCancelEq(w, 1, x.den); }
    }
  }

  /** Round up, round down, or round in the direction of the remainder. */
  method RoundLast(remainder: Bigint, denominator: Bigint, digit: nat, lowTest: bool, highTest: bool)
    returns (roundUp: bool)
    requires remainder.Normal() && denominator.Positive()
    requires remainder.Value() == 0 ==> remainder.exp <= denominator.exp
    ensures roundUp <==> !lowTest || (highTest && (2 * remainder.Value() > denominator.Value() ||
                                                   (2 * remainder.Value() == denominator.Value() && digit % 2 != 0)))
  {
    roundUp := !lowTest;
    if lowTest && highTest {
      roundUp := RoundsUp(remainder, denominator, digit);
    }
  }

  /** The digits generated so far, without a zero in front. */
  ghost function Body(x: Window, buf: string, upClosed: bool): string {
    if x.ReachesOne(upClosed) || buf == "" then buf else buf[1..]
  }

  /** The loop before a pass: still at the zero in front, or generating digits of x or Lowered(x). */
  ghost predicate Awaiting(x: Window, buf: string, num: nat, low: nat, up: nat, lowClosed: bool, upClosed: bool) {
    var body := Body(x, buf, upClosed);
    if x.ReachesOne(upClosed) then Shortening(x, body, num, low, up, lowClosed, upClosed)
    else if buf == "" then
      && x.Valid() && Lowered(x).ReachesOne(upClosed)
      && num == x.num && low == x.low && up == x.up
    else buf[0] == '0' && Shortening(Lowered(x), body, num, low, up, lowClosed, upClosed)
  }

  /** What holds before each pass of the shortest loop. */
  ghost predicate Shortening(x: Window, buf: string, num: nat, low: nat, up: nat, lowClosed: bool, upClosed: bool) {
    && x.Valid() && x.ReachesOne(upClosed)
    && AllDigits(buf) && Generated(x, |buf|, Decimal(buf), num, low, up)
    && num < 10 * x.den && (x.BelowTen(upClosed) ==> Below(num, up, x.den, upClosed))
    && 0 < low && up > 0 && (|buf| > 0 ==> x.BelowTen(upClosed) && low <= 10 * x.den)
    && (|buf| > 0 ==> Decimal(buf) >= Pow(10, |buf| - 1) && x.num - x.low >= x.den)
    && (forall j: nat :: j < |buf| ==> x.NoHit(j, lowClosed, upClosed))
  }

  lemma ShorteningStarts(x: Window, lowClosed: bool, upClosed: bool)
    requires x.Valid() && x.num < 10 * x.den && (x.ReachesOne(upClosed) || Lowered(x).ReachesOne(upClosed))
    ensures Awaiting(x, "", x.num, x.low, x.up, lowClosed, upClosed)
  {
  }

  lemma ShorteningFacts(x: Window, buf: string, num: nat, low: nat, up: nat, lowClosed: bool, upClosed: bool)
    requires Shortening(x, buf, num, low, up, lowClosed, upClosed)
    ensures num < 10 * x.den && low > 0 && up > 0 && (|buf| == 0 ==> num > low)
  {
  }

  lemma AwaitingFacts(x: Window, buf: string, num: nat, low: nat, up: nat, lowClosed: bool, upClosed: bool)
    requires Awaiting(x, buf, num, low, up, lowClosed, upClosed)
    ensures num < 10 * x.den && low > 0 && up > 0 && (Body(x, buf, upClosed) == "" ==> num > low)
  {
    hide Shortening;
    if x.ReachesOne(upClosed) {
      ShorteningFacts(x, buf, num, low, up, lowClosed, upClosed);
    } else if buf != "" {
      ShorteningFacts(Lowered(x), buf[1..], num, low, up, lowClosed, upClosed);
    }
  }

  /** While the interval does not reach one, the digit is zero and no test succeeds. */
  lemma ZeroInFront(x: Window, num: nat, low: nat, up: nat, digit: nat, r: nat, lowClosed: bool, upClosed: bool)
    requires x.Valid() && !x.ReachesOne(upClosed) && num == x.num && low == x.low && up == x.up
    requires num == digit * x.den + r && r < x.den
    ensures digit == 0 && r == num && low < 10 * low <= 10 * x.den
    ensures !(r < low || (r == low && lowClosed)) && !Reaches(r, up, x.den, upClosed)
  {
    if digit > 0 { MulLe(1, digit, x.den); }
  }

  lemma AwaitingContinues(x: Window, buf: string, num: nat, low: nat, up: nat, digit: nat, r: nat,
                          lowClosed: bool, upClosed: bool)
    requires Awaiting(x, buf, num, low, up, lowClosed, upClosed)
    requires num == digit * x.den + r && r < x.den && digit <= 9
    requires !(r < low || (r == low && lowClosed)) && !Reaches(r, up, x.den, upClosed)
    ensures Awaiting(x, buf + [DigitChar(digit)], 10 * r, 10 * low, 10 * up, lowClosed, upClosed)
    ensures low < 10 * low <= 10 * x.den
    ensures var body, next := Body(x, buf, upClosed), Body(x, buf + [DigitChar(digit)], upClosed);
            && (next == "" ==> body == "" && digit == 0 && r == num == x.num)
            && (next != "" && body == "" ==> digit > 0)
  {
    var after := buf + [DigitChar(digit)];
    hide Shortening, Reaches;
    if x.ReachesOne(upClosed) {
      ShorteningContinues(x, buf, num, low, up, digit, r, lowClosed, upClosed);
    } else if buf == "" {
      ZeroInFront(x, num, low, up, digit, r, lowClosed, upClosed);
      LoweredStarts(x, lowClosed, upClosed);
    } else {
      assert after[1..] == buf[1..] + [DigitChar(digit)];
      ShorteningContinues(Lowered(x), buf[1..], num, low, up, digit, r, lowClosed, upClosed);
    }
  }

  lemma LoweredStarts(x: Window, lowClosed: bool, upClosed: bool)
    requires x.Valid() && !x.ReachesOne(upClosed) && Lowered(x).ReachesOne(upClosed)
    ensures Shortening(Lowered(x), "", 10 * x.num, 10 * x.low, 10 * x.up, lowClosed, upClosed)
  {
  }

  lemma AwaitingEnds(x: Window, buf: string, num: nat, low: nat, up: nat, digit: nat, r: nat,
                     lowTest: bool, highTest: bool, roundUp: bool, lowClosed: bool, upClosed: bool)
    requires Awaiting(x, buf, num, low, up, lowClosed, upClosed)
    requires num == digit * x.den + r && r < x.den && digit <= 9
    requires lowTest <==> r < low || (r == low && lowClosed)
    requires highTest <==> Reaches(r, up, x.den, upClosed)
    requires lowTest || highTest
    requires roundUp <==> !lowTest || (highTest && (2 * r > x.den || (2 * r == x.den && digit % 2 != 0)))
    ensures var s := buf + [DigitChar(digit)];
            if roundUp && digit == 9 then buf == "" && NineGrows(x, lowClosed, upClosed)
            else
              && !NineGrows(x, lowClosed, upClosed)
              && if roundUp then ShortestDigits(x, s[|buf| := (s[|buf|] as int + 1) as char], lowClosed, upClosed)
                 else ShortestDigits(x, s, lowClosed, upClosed)
  {
    hide Shortening, Reaches, Window.IsShortest;
    var body := Body(x, buf, upClosed);
    if !x.ReachesOne(upClosed) { SmallHasNoNine(x, lowClosed, upClosed); }
    if x.ReachesOne(upClosed) {
      ShorteningEnds(x, body, num, low, up, digit, r, lowTest, highTest, roundUp, lowClosed, upClosed);
    } else {
      if buf == "" { ZeroInFront(x, num, low, up, digit, r, lowClosed, upClosed); }
      ShorteningEnds(Lowered(x), body, num, low, up, digit, r, lowTest, highTest, roundUp, lowClosed, upClosed);
      var s, c := buf + [DigitChar(digit)], (DigitChar(digit) as int + 1) as char;
      assert s[1..] == body + [DigitChar(digit)];
      assert s[|buf| := c][1..] == (body + [DigitChar(digit)])[|body| := c];
    }
  }

  /** A number whose interval does not reach one does not begin with a nine, nor does ten times it grow one. */
  lemma SmallHasNoNine(x: Window, lowClosed: bool, upClosed: bool)
    requires x.den > 0 && !x.ReachesOne(upClosed)
    ensures !NineGrows(x, lowClosed, upClosed) && !NineGrows(Lowered(x), lowClosed, upClosed)
  {
    SmallQuotient(x.num, x.den);
  }

  lemma SmallQuotient(num: nat, den: nat)
    requires den > 0
    ensures num <= den ==> num / den <= 1
  {
    QuotientNonnegative(num, den);
    if num / den > 1 { MulLe(2, num / den, den); }
  }

  lemma ScaledAlong(x: Window, i: nat, done: nat, num: nat, low: nat, up: nat)
    requires Generated(x, i, done, num, low, up)
    ensures low == x.low * Pow(10, i) && up == x.up * Pow(10, i)
  {
  }

  lemma ShorteningContinues(x: Window, buf: string, num: nat, low: nat, up: nat, digit: nat, r: nat,
                            lowClosed: bool, upClosed: bool)
    requires Shortening(x, buf, num, low, up, lowClosed, upClosed)
    requires num == digit * x.den + r && r < x.den && digit <= 9
    requires !(r < low || (r == low && lowClosed)) && !Reaches(r, up, x.den, upClosed)
    ensures Shortening(x, buf + [DigitChar(digit)], 10 * r, 10 * low, 10 * up, lowClosed, upClosed)
    ensures low < 10 * low <= 10 * x.den && (buf == "" ==> digit > 0)
  {
    assert buf == "" ==> Decimal(buf) == 0;
    StaysBelowTen(x, buf, num, low, up, digit, r, lowClosed, upClosed);
    NoneAtThisPosition(x, buf, num, low, up, digit, r, lowClosed, upClosed);
    hide Pow, Decimal, Generated, Reaches, Window.BelowTen, Window.NoHit, Window.Splits, Window.AboveLower, Window.BelowUpper;
    DigitStep(x, |buf|, Decimal(buf), num, low, up, digit, r);
    LeadingDigit(x, |buf|, Decimal(buf), num, digit, r, low, up, false, false, lowClosed, upClosed);
    DecimalAppend(buf, digit);
  }

  /** When the upper test fails the upper boundary is below ten. */
  lemma StaysBelowTen(x: Window, buf: string, num: nat, low: nat, up: nat, digit: nat, r: nat,
                      lowClosed: bool, upClosed: bool)
    requires Shortening(x, buf, num, low, up, lowClosed, upClosed)
    requires num == digit * x.den + r && r < x.den && digit <= 9 && !Reaches(r, up, x.den, upClosed)
    ensures x.BelowTen(upClosed) && Below(10 * r, 10 * up, x.den, upClosed)
  {
    if buf == "" {
      assert Pow(10, 0) == 1 && Decimal("") == 0;
      MulLe(digit, 9, x.den);
    }
  }

  /** When both tests fail no decimal of this length lies in the interval. */
  lemma NoneAtThisPosition(x: Window, buf: string, num: nat, low: nat, up: nat, digit: nat, r: nat,
                           lowClosed: bool, upClosed: bool)
    requires Shortening(x, buf, num, low, up, lowClosed, upClosed)
    requires num == digit * x.den + r && r < x.den && digit <= 9
    requires !(r < low || (r == low && lowClosed)) && !Reaches(r, up, x.den, upClosed)
    ensures x.NoHit(|buf|, lowClosed, upClosed)
  {
    var i, done := |buf|, 10 * Decimal(buf) + digit;
    ScaledAlong(x, i, Decimal(buf), num, low, up);
    hide Pow, Decimal, Generated, Window.NoHit, Window.Splits, Window.AboveLower, Window.BelowUpper;
    DigitStep(x, i, Decimal(buf), num, low, up, digit, r);
    DigitTests(x, i, done, r, low, up, lowClosed);
    DigitTests(x, i, done, r, low, up, upClosed);
    NeitherInside(x, i, done, lowClosed, upClosed);
  }

  lemma ShorteningEnds(x: Window, buf: string, num: nat, low: nat, up: nat, digit: nat, r: nat,
                       lowTest: bool, highTest: bool, roundUp: bool, lowClosed: bool, upClosed: bool)
    requires Shortening(x, buf, num, low, up, lowClosed, upClosed)
    requires num == digit * x.den + r && r < x.den && digit <= 9
    requires lowTest <==> r < low || (r == low && lowClosed)
    requires highTest <==> Reaches(r, up, x.den, upClosed)
    requires lowTest || highTest
    requires roundUp <==> !lowTest || (highTest && (2 * r > x.den || (2 * r == x.den && digit % 2 != 0)))
    ensures var s := buf + [DigitChar(digit)];
            if roundUp && digit == 9 then buf == "" && NineGrows(x, lowClosed, upClosed)
            else
              && !NineGrows(x, lowClosed, upClosed)
              && if roundUp then x.IsShortest(s[|buf| := (s[|buf|] as int + 1) as char], lowClosed, upClosed)
                 else x.IsShortest(s, lowClosed, upClosed)
  {
    WhenNineGrows(x, buf, num, low, up, digit, r, lowTest, highTest, roundUp, lowClosed, upClosed);
    var i := |buf|;
    var w := BestCandidate(x, buf, num, low, up, digit, r, lowTest, highTest, lowClosed, upClosed);
    var s := buf + [DigitChar(digit)];
    DecimalAppend(buf, digit);
    if roundUp {
      if digit < 9 {
        DecimalIncrement(s);
        var t := s[i := (s[i] as int + 1) as char];
        hide Pow, Decimal, AllDigits, AlmostDigits, Shortening;
        Settled(x, t, w, lowClosed, upClosed);
      }
    } else {
      Settled(x, s, w, lowClosed, upClosed);
    }
  }

  /** A nine grows only as the first digit, and only if the upper boundary reaches ten. */
  lemma WhenNineGrows(x: Window, buf: string, num: nat, low: nat, up: nat, digit: nat, r: nat,
                      lowTest: bool, highTest: bool, roundUp: bool, lowClosed: bool, upClosed: bool)
    requires Shortening(x, buf, num, low, up, lowClosed, upClosed)
    requires num == digit * x.den + r && r < x.den && digit <= 9
    requires lowTest <==> r < low || (r == low && lowClosed)
    requires highTest <==> Reaches(r, up, x.den, upClosed)
    requires lowTest || highTest
    requires roundUp <==> !lowTest || (highTest && (2 * r > x.den || (2 * r == x.den && digit % 2 != 0)))
    ensures roundUp && digit == 9 <==> buf == "" && NineGrows(x, lowClosed, upClosed)
    ensures buf != "" ==> !NineGrows(x, lowClosed, upClosed)
  {
    if x.BelowTen(upClosed) {
      if highTest { NineCannotGrow(num, up, x.den, digit, r, upClosed); }
    } else {
      assert Pow(10, 0) == 1 && Decimal("") == 0;
      DivMod(x.num, x.den, digit, r);
    }
  }

  lemma Settled(x: Window, s: string, w: nat, lowClosed: bool, upClosed: bool)
    requires s != "" && AllDigits(s) && Decimal(s) == w >= Pow(10, |s| - 1)
    requires x.Inside(w, |s| - 1, lowClosed, upClosed) && x.NoneCloser(w, |s| - 1, lowClosed, upClosed)
    requires forall j: nat :: j < |s| - 1 ==> x.NoHit(j, lowClosed, upClosed)
    requires |s| > 1 ==> x.num - x.low >= x.den
    ensures x.IsShortest(s, lowClosed, upClosed)
  {
  }

  /** The candidate the two tests lead to is big enough, inside, and nearest. */
  lemma BestCandidate(x: Window, buf: string, num: nat, low: nat, up: nat, digit: nat, r: nat,
                      lowTest: bool, highTest: bool, lowClosed: bool, upClosed: bool) returns (w: nat)
    requires Shortening(x, buf, num, low, up, lowClosed, upClosed)
    requires num == digit * x.den + r && r < x.den && digit <= 9
    requires lowTest <==> r < low || (r == low && lowClosed)
    requires highTest <==> Reaches(r, up, x.den, upClosed)
    requires lowTest || highTest
    ensures w == 10 * Decimal(buf) + digit +
                 if !lowTest || (highTest && (2 * r > x.den || (2 * r == x.den && digit % 2 != 0))) then 1 else 0
    ensures w >= Pow(10, |buf|)
    ensures x.Inside(w, |buf|, lowClosed, upClosed) && x.NoneCloser(w, |buf|, lowClosed, upClosed)
  {
    var i, done := |buf|, 10 * Decimal(buf) + digit;
    w := Choice(done, r, x.den, digit % 2 != 0, lowTest, highTest);
    ScaledAlong(x, i, Decimal(buf), num, low, up);
    assert buf == "" ==> Decimal(buf) == 0;
    hide Pow, Decimal, Generated, Window.NoHit, Window.Inside, Window.NoneCloser, Window.Splits, Window.AboveLower,
      Window.BelowUpper;
    DigitStep(x, i, Decimal(buf), num, low, up, digit, r);
    DigitTests(x, i, done, r, low, up, lowClosed);
    DigitTests(x, i, done, r, low, up, upClosed);
    Parity(Decimal(buf), digit);
    LeadingDigit(x, i, Decimal(buf), num, digit, r, low, up, lowTest, highTest, lowClosed, upClosed);
    ChoiceIsBest(x, i, done, r, low, up, digit % 2 != 0, lowTest, highTest, lowClosed, upClosed);
  }

  /** With the upper boundary below ten, a final nine is never incremented. */
  lemma NineCannotGrow(num: nat, up: nat, den: nat, digit: nat, r: nat, closed: bool)
    requires num == digit * den + r && Below(num, up, den, closed)
    requires r + up > den || (r + up == den && closed)
    ensures digit < 9
  {
    if digit >= 9 { MulLe(9, digit, den); }
  }

  /** The first digit is not zero, and after it the lower boundary is at least one. */
  lemma LeadingDigit(x: Window, i: nat, before: nat, num: nat, digit: nat, r: nat, low: nat, up: nat,
                     lowTest: bool, highTest: bool, lowClosed: bool, upClosed: bool)
    requires x.Valid() && x.ReachesOne(upClosed)
    requires Generated(x, i, before, num, low, up) && num == digit * x.den + r && r < x.den
    requires lowTest <==> r < low || (r == low && lowClosed)
    requires highTest <==> r + up > x.den || (r + up == x.den && upClosed)
    requires i > 0 ==> before >= Pow(10, i - 1)
    requires i == 0 ==> before == 0
    ensures lowTest || highTest ==> Choice(10 * before + digit, r, x.den, digit % 2 != 0, lowTest, highTest) >= Pow(10, i)
    ensures !lowTest && !highTest ==> 10 * before + digit >= Pow(10, i)
    ensures !lowTest && !highTest && i == 0 ==> digit > 0 && x.num - x.low >= x.den
  {
    if i == 0 {
      if digit > 0 { MulLe(1, digit, x.den); }
    }
  }

  lemma DigitBelowTen(num: nat, den: nat, digit: nat, r: nat)
    requires num == digit * den + r && r < den && num < 10 * den
    ensures digit <= 9
  {
    if digit >= 10 { MulLe(10, digit, den); }
  }

  /** num + up does not exceed ten times den, nor reach it when the boundary is included. */
  ghost predicate Below(num: nat, up: nat, den: nat, closed: bool) {
    num + up < 10 * den || (num + up == 10 * den && !closed)
  }

  // ---------------------------------------------------------------- a given number of digits

  /** Before digit i of the fixed loop: `done` holds the digits so far, rest what is left. */
  ghost predicate Fixing(num: nat, den: nat, i: nat, done: nat, rest: nat) {
    num * Pow(10, i) == 10 * (done * den) + rest && rest < 10 * den
  }

  lemma FixingStep(num: nat, den: nat, i: nat, done: nat, rest: nat, digit: nat, r: nat)
    requires Fixing(num, den, i, done, rest) && rest == digit * den + r && r < den
    ensures Fixing(num, den, i + 1, 10 * done + digit, 10 * r)
    ensures num * Pow(10, i) == (10 * done + digit) * den + r
  {
    MulTen(num, Pow(10, i));
    assert (10 * done + digit) * den == 10 * (done * den) + digit * den;
  }

  /** One digit of the fixed loop; it is ten if an equal went unseen before. */
  method NextDigit(numerator: Bigint, denominator: Bigint) returns (digit: nat)
    requires numerator != denominator && numerator.Normal() && denominator.Positive()
    requires numerator.Value() <= 10 * denominator.Value()
    requires numerator.Value() == 0 ==> numerator.exp <= denominator.exp
    modifies numerator
    ensures numerator.Normal() && digit <= 10
    ensures old(numerator.Value()) == digit * denominator.Value() + numerator.Value()
    ensures if UnseenEqual(old(numerator.Value()), old(numerator.exp), denominator) then digit == 0
            else numerator.Value() < denominator.Value()
    ensures digit == 0 ==> numerator.exp == old(numerator.exp)
    ensures digit > 0 ==> numerator.exp <= denominator.exp
    ensures numerator.Value() == 0 ==> numerator.exp <= denominator.exp
  {
    hide Pow, Val, Scaled;
    numerator.NormalZero();
    PositiveValue(denominator);
    digit := numerator.DivmodAssign(denominator);
    if !UnseenEqual(old(numerator.Value()), old(numerator.exp), denominator) {
      AtMostTen(old(numerator.Value()), denominator.Value(), digit, numerator.Value());
    }
  }

  lemma AtMostTen(num: nat, den: nat, digit: nat, r: nat)
    requires num == digit * den + r && r < den && num <= 10 * den
    ensures digit <= 10
  {
    if digit > 10 { MulLe(11, digit, den); }
  }

  /** Whether the remainder is more than half of the denominator, or half after an odd digit. */
  method RoundsUp(remainder: Bigint, denominator: Bigint, digit: nat) returns (roundUp: bool)
    requires remainder.Normal() && denominator.Positive()
    requires remainder.Value() == 0 ==> remainder.exp <= denominator.exp
    ensures roundUp <==> 2 * remainder.Value() > denominator.Value() ||
                         (2 * remainder.Value() == denominator.Value() && digit % 2 != 0)
  {
    hide Pow, Val, Scaled;
    remainder.NormalZero();
    var result := AddCompare(remainder, remainder, denominator);
    roundUp := result > 0 || (result == 0 && digit % 2 != 0);
  }

  /** Zeros but for the overflow character behind position m: an equal went unseen at m and nothing repairs it. */
  ghost predicate EqualLeftOver(buf: string, numDigits: nat, m: nat) {
    |buf| == numDigits >= m + 2 && forall i :: 0 <= i < numDigits ==> buf[i] == if i == m + 1 then ':' else '0'
  }

  /** What the loop for a given number of digits leaves; carried tells of a carry out of the first digit. */
  ghost predicate FixedResult(num: nat, den: nat, numDigits: nat, buf: string, carried: bool)
    requires numDigits > 0 && den > 0
  {
    var q := RoundHalfEven(num * Pow(10, numDigits - 1), den);
    && |buf| == numDigits && AllDigits(buf)
    && if carried then q == Pow(10, numDigits) && Decimal(buf) == Pow(10, numDigits - 1) else Decimal(buf) == q
  }

  /** What is left at digit j is one, but compare() does not see it: nothing has been subtracted before. */
  ghost predicate UnseenAt(num: nat, start: nat, den: nat, denExp: nat, j: nat) {
    start > denExp && num * Pow(10, j) == den
  }

  /** m is the first digit at which an equal goes unseen, or numDigits. */
  ghost predicate FirstUnseen(num: nat, start: nat, den: nat, denExp: nat, numDigits: nat, m: nat) {
    && m <= numDigits && (m < numDigits ==> UnseenAt(num, start, den, denExp, m))
    && forall j: nat :: j < m ==> !UnseenAt(num, start, den, denExp, j)
  }

  lemma FindUnseen(num: nat, start: nat, den: nat, denExp: nat, numDigits: nat) returns (m: nat)
    ensures FirstUnseen(num, start, den, denExp, numDigits, m)
  {
    hide UnseenAt;
    m := 0;
    while m < numDigits && !UnseenAt(num, start, den, denExp, m)
      invariant m <= numDigits && forall j: nat :: j < m ==> !UnseenAt(num, start, den, denExp, j)
    {
      m := m + 1;
    }
  }

  /** Before that digit the number is below one; it is the only such digit. */
  lemma UnseenOnce(num: nat, start: nat, den: nat, denExp: nat, m: nat, i: nat)
    requires num > 0 && UnseenAt(num, start, den, denExp, m)
    ensures i < m ==> num * Pow(10, i) < den
    ensures UnseenAt(num, start, den, denExp, i) ==> i == m
  {
    if i < m {
      PowStrict(10, i, m);
      MulLt(Pow(10, i), Pow(10, m), num);
    } else if m < i {
      PowStrict(10, m, i);
      MulLt(Pow(10, m), Pow(10, i), num);
    }
  }

  /** Before digit i > m, after an equal has been missed at digit m. */
  ghost predicate Leftover(buf: string, numDigits: nat, m: nat, i: nat, rest: nat, den: nat) {
    && |buf| == numDigits && m < i < numDigits
    && (forall j :: 0 <= j < numDigits ==> buf[j] == if j == m + 1 && i > m + 1 then ':' else '0')
    && rest == if i == m + 1 then 10 * den else 0
  }

  /** Before digit i, if everything is in order. */
  ghost predicate InOrder(buf: string, numDigits: nat, i: nat, num: nat, rest: nat, den: nat) {
    && |buf| == numDigits && i <= numDigits && AllDigits(buf) && (forall j :: i <= j < numDigits ==> buf[j] == '0')
    && Fixing(num, den, i, Decimal(buf[..i]), rest)
  }

  /**
    The loop for a given number of digits. Together with the carry out of the first digit the
    string is the quotient rounded half to even at its last digit, unless before that digit
    what is left is one and compare() does not see it.
  */
  method GenerateFixed(numerator: Bigint, denominator: Bigint, numDigits: nat)
    returns (buf: string, carried: bool)
    requires numDigits > 0 && numerator != denominator
    requires numerator.Positive() && denominator.Positive()
    requires numerator.Value() < 10 * denominator.Value()
    modifies numerator
    ensures |buf| == numDigits && old(denominator.Value()) > 0
    ensures var num, start, den, denExp := old(numerator.Value()), old(numerator.exp), old(denominator.Value()), old(denominator.exp);
            && (forall j: nat :: j + 2 <= numDigits && UnseenAt(num, start, den, denExp, j) ==>
                  EqualLeftOver(buf, numDigits, j) && !carried)
            && ((forall j: nat :: j + 2 <= numDigits ==> !UnseenAt(num, start, den, denExp, j)) ==>
                  FixedResult(num, den, numDigits, buf, carried))
  {
    hide Pow, Val, Scaled, Decimal, Bigint.Value, InOrder, Leftover, FixedResult, EqualLeftOver, RoundHalfEven,
      Untouched, UnseenAt, FirstUnseen;
    ghost var num, den, start, denExp := numerator.Value(), denominator.Value(), numerator.exp, denominator.exp;
    ghost var m := FindUnseen(num, start, den, denExp, numDigits);
    buf := seq(numDigits, _ => '0');
    FixingStarts(buf, numDigits, num, den);
    PositiveValue(numerator);
    PositiveValue(denominator);
    for i := 0 to numDigits - 1
      invariant numerator.Normal() && denominator.Positive()
      invariant denominator.Value() == den && denominator.exp == denExp && |buf| == numDigits
      invariant AtDigit(buf, numDigits, m, i, num, start, numerator.Value(), numerator.exp, den, denExp)
    {
      ghost var rest, restExp := numerator.Value(), numerator.exp;
      AtDigitFacts(buf, numDigits, m, i, num, start, rest, restExp, den, denExp);
      var digit := NextDigit(numerator, denominator);
      AtDigitStep(buf, numDigits, m, i, num, start, rest, restExp, den, denExp, digit, numerator.Value(), numerator.exp);
      buf := buf[i := DigitChar(digit)];
      numerator.Multiply32(10);
    }
    ghost var rest, restExp := numerator.Value(), numerator.exp;
    AtDigitFacts(buf, numDigits, m, numDigits - 1, num, start, rest, restExp, den, denExp);
    var digit := NextDigit(numerator, denominator);
    var roundUp := RoundsUp(numerator, denominator, digit);
    LastDigit(buf, numDigits, m, num, start, rest, restExp, den, denExp, digit, numerator.Value(), roundUp);
    OnlyFirst(num, start, den, denExp, numDigits, m);
    carried := false;
    if roundUp {
      if digit == 9 {
        buf := buf[numDigits - 1 := ':'];
        buf, carried := PropagateCarry(buf);
        CarriedResult(num, den, numDigits, buf, carried);
        return;
      }
      digit := digit + 1;
    }
    buf := buf[numDigits - 1 := DigitChar(digit)];
  }

  lemma OnlyFirst(num: nat, start: nat, den: nat, denExp: nat, numDigits: nat, m: nat)
    requires num > 0 && FirstUnseen(num, start, den, denExp, numDigits, m)
    ensures forall j: nat :: j + 2 <= numDigits && UnseenAt(num, start, den, denExp, j) ==> j == m
    ensures m + 2 <= numDigits ==> UnseenAt(num, start, den, denExp, m)
  {
    forall j: nat | j + 2 <= numDigits && UnseenAt(num, start, den, denExp, j) ensures j == m {
      if m < numDigits { UnseenOnce(num, start, den, denExp, m, j); }
    }
  }

  /** Before digit i: in order, or an equal has been missed at digit m. */
  ghost predicate AtDigit(buf: string, numDigits: nat, m: nat, i: nat, num: nat, start: nat, rest: nat, restExp: nat,
                          den: nat, denExp: nat)
  {
    && num > 0 && den > 0 && FirstUnseen(num, start, den, denExp, numDigits, m)
    && if i > m then
         Leftover(buf, numDigits, m, i, rest, den) && (rest == 0 ==> restExp <= denExp)
       else
         && InOrder(buf, numDigits, i, num, rest, den)
         && (m < numDigits ==> restExp == start && forall j :: 0 <= j < numDigits ==> buf[j] == '0')
         && (restExp <= denExp || (restExp == start && Untouched(num, i, rest)))
  }

  lemma FixingStarts(buf: string, numDigits: nat, num: nat, den: nat)
    requires |buf| == numDigits && (forall j :: 0 <= j < numDigits ==> buf[j] == '0') && num < 10 * den
    ensures InOrder(buf, numDigits, 0, num, num, den)
    ensures num > 0 ==> Untouched(num, 0, num)
  {
    EmptyDecimal(buf);
  }

  lemma AtDigitFacts(buf: string, numDigits: nat, m: nat, i: nat, num: nat, start: nat, rest: nat, restExp: nat,
                     den: nat, denExp: nat)
    requires AtDigit(buf, numDigits, m, i, num, start, rest, restExp, den, denExp) && i < numDigits
    ensures rest <= 10 * den && (rest == 0 ==> restExp <= denExp) && |buf| == numDigits
    ensures rest == den && restExp > denExp ==> i == m
    ensures i < m < numDigits ==> rest < den
    ensures i == m ==> rest == den && restExp > denExp
  {
    hide Pow, Decimal, Fixing;
    if i <= m {
      FixingFacts(num, den, i, Decimal(buf[..i]), rest);
      assert rest == den && restExp > denExp ==> UnseenAt(num, start, den, denExp, i);
      if m < numDigits {
        UnseenOnce(num, start, den, denExp, m, i);
        if i == m { NothingDone(num, den, i, Decimal(buf[..i]), rest); }
      }
    }
  }

  /** All of the number is left when that is how much it takes. */
  lemma NothingDone(num: nat, den: nat, i: nat, done: nat, rest: nat)
    requires Fixing(num, den, i, done, rest) && num * Pow(10, i) == den && den > 0
    ensures done == 0 && rest == den
  {
    if done > 0 { MulLe(1, done, den); }
  }

  lemma AtDigitStep(buf: string, numDigits: nat, m: nat, i: nat, num: nat, start: nat, rest: nat, restExp: nat,
                    den: nat, denExp: nat, digit: nat, r: nat, rExp: nat)
    requires i < numDigits - 1
    requires AtDigit(buf, numDigits, m, i, num, start, rest, restExp, den, denExp)
    requires rest == digit * den + r && digit <= 10
    requires if rest == den && restExp > denExp then digit == 0 else r < den
    requires if digit == 0 then rExp == restExp else rExp <= denExp
    requires r == 0 ==> rExp <= denExp
    ensures |buf| == numDigits
    ensures AtDigit(buf[i := DigitChar(digit)], numDigits, m, i + 1, num, start, 10 * r, rExp, den, denExp)
  {
    AtDigitFacts(buf, numDigits, m, i, num, start, rest, restExp, den, denExp);
    hide Pow, Decimal, Fixing, Untouched, FirstUnseen, UnseenAt;
    if i > m {
      LeftoverStep(buf, numDigits, m, i, rest, den, digit, r);
    } else if i < m {
      OrderStep(buf, numDigits, i, num, rest, den, digit, r);
      FixingFacts(num, den, i, Decimal(buf[..i]), rest);
      if m < numDigits && digit > 0 { MulLe(1, digit, den); }
    }
  }

  lemma LeftoverStep(buf: string, numDigits: nat, m: nat, i: nat, rest: nat, den: nat, digit: nat, r: nat)
    requires Leftover(buf, numDigits, m, i, rest, den)
    requires rest == digit * den + r && r < den && digit <= 10
    ensures digit == (if i == m + 1 then 10 else 0) && r == 0
    ensures i + 1 < numDigits ==> Leftover(buf[i := DigitChar(digit)], numDigits, m, i + 1, 10 * r, den)
    ensures i + 1 == numDigits ==> EqualLeftOver(buf[i := DigitChar(digit)], numDigits, m)
  {
    SameQuotient(den, digit, r, if i == m + 1 then 10 else 0, 0);
  }

  lemma OrderStep(buf: string, numDigits: nat, i: nat, num: nat, rest: nat, den: nat, digit: nat, r: nat)
    requires InOrder(buf, numDigits, i, num, rest, den) && i < numDigits
    requires rest == digit * den + r && r < den
    ensures digit <= 9 && InOrder(buf[i := DigitChar(digit)], numDigits, i + 1, num, 10 * r, den)
  {
    hide Decimal;
    FixingFacts(num, den, i, Decimal(buf[..i]), rest);
    DigitBelowTen(rest, den, digit, r);
    FixingStep(num, den, i, Decimal(buf[..i]), rest, digit, r);
    DecimalReplace(buf, i, digit);
  }

  /** The last digit, rounded up or not, completes the number; a nine overflows. */
  lemma LastDigit(buf: string, numDigits: nat, m: nat, num: nat, start: nat, rest: nat, restExp: nat, den: nat,
                  denExp: nat, digit: nat, r: nat, roundUp: bool)
    requires numDigits > 0
    requires AtDigit(buf, numDigits, m, numDigits - 1, num, start, rest, restExp, den, denExp)
    requires rest == digit * den + r && digit <= 10
    requires if rest == den && restExp > denExp then digit == 0 else r < den
    requires roundUp <==> 2 * r > den || (2 * r == den && digit % 2 != 0)
    ensures |buf| == numDigits && (roundUp ==> digit <= 9)
    ensures var t := buf[numDigits - 1 := DigitChar(if roundUp then digit + 1 else digit)];
            if m + 2 <= numDigits then !roundUp && EqualLeftOver(t, numDigits, m)
            else if roundUp && digit == 9 then
              && AlmostDigits(t) && AllDigits(t[..numDigits - 1]) && t[numDigits - 1] == ':'
              && Decimal(t) == RoundHalfEven(num * Pow(10, numDigits - 1), den)
            else FixedResult(num, den, numDigits, t, false)
  {
    var i := numDigits - 1;
    AtDigitFacts(buf, numDigits, m, i, num, start, rest, restExp, den, denExp);
    hide Pow, Decimal, RoundHalfEven, Fixing, UnseenAt;
    if i > m {
      LeftoverStep(buf, numDigits, m, i, rest, den, digit, r);
      assert !roundUp && i + 1 == numDigits;
    } else if i == m {
      JustOne(buf, numDigits, num, start, den, denExp);
    } else {
      var d := if roundUp then digit + 1 else digit;
      FixingFacts(num, den, i, Decimal(buf[..i]), rest);
      DigitBelowTen(rest, den, digit, r);
      FixedRounds(num, den, i, Decimal(buf[..i]), rest, digit, r, roundUp);
      DecimalReplace(buf, i, d);
    }
  }

  /** An equal missed at the last digit is repaired by rounding. */
  lemma JustOne(buf: string, numDigits: nat, num: nat, start: nat, den: nat, denExp: nat)
    requires numDigits > 0 && den > 0 && UnseenAt(num, start, den, denExp, numDigits - 1)
    requires |buf| == numDigits && forall j :: 0 <= j < numDigits ==> buf[j] == '0'
    ensures FixedResult(num, den, numDigits, buf[numDigits - 1 := '1'], false)
  {
    RoundHalfEvenFrom(den, den, 1, 0);
    DecimalReplace(buf, numDigits - 1, 1);
    ZerosOnly(buf[..numDigits - 1]);
  }

  lemma CarriedResult(num: nat, den: nat, numDigits: nat, buf: string, carried: bool)
    requires numDigits > 0 && den > 0 && |buf| == numDigits && AllDigits(buf)
    requires var q := RoundHalfEven(num * Pow(10, numDigits - 1), den);
             if carried then q == Pow(10, numDigits) && Decimal(buf) == Pow(10, numDigits - 1) else Decimal(buf) == q
    ensures FixedResult(num, den, numDigits, buf, carried)
  {
  }

  /** The carry chain through the nines of a string whose last character has overflown. */
  method PropagateCarry(s: string) returns (buf: string, carried: bool)
    requires s != "" && AlmostDigits(s) && AllDigits(s[..|s| - 1]) && s[|s| - 1] == ':'
    ensures |buf| == |s| && AllDigits(buf)
    ensures if carried then Decimal(s) == Pow(10, |s|) && Decimal(buf) == Pow(10, |s| - 1)
            else Decimal(buf) == Decimal(s)
  {
    hide Decimal, Pow;
    buf := s;
    var i := |s| - 1;
    while i > 0 && buf[i] == ':'
      invariant 0 <= i < |buf| == |s|
      invariant AllDigits(buf[..i]) && '0' <= buf[i] <= ':'
      invariant forall j :: i < j < |s| ==> buf[j] == '0'
      invariant AlmostDigits(buf) && Decimal(buf) == Decimal(s)
    {
      assert IsDigit(buf[..i][i - 1]);
      assert buf[..i - 1] == buf[..i][..i - 1];
      CarryLeft(buf, i);
      buf := buf[i := '0'];
      buf := buf[i - 1 := (buf[i - 1] as int + 1) as char];
      i := i - 1;
    }
    carried := false;
    if buf[0] == ':' {
      LeadingTen(buf);
      buf := buf[0 := '1'];
      carried := true;
    }
  }

  /** An overflow of the first digit, with only zeros behind it. */
  lemma LeadingTen(s: string)
    requires s != "" && AlmostDigits(s) && s[0] == ':' && forall i :: 0 < i < |s| ==> s[i] == '0'
    ensures AllDigits(s[0 := '1']) && Decimal(s) == Pow(10, |s|) && Decimal(s[0 := '1']) == Pow(10, |s| - 1)
  {
    hide Decimal;
    LeadingOnly(s);
    LeadingOnly(s[0 := '1']);
    assert Pow(10, |s|) == 10 * Pow(10, |s| - 1);
  }

  /** Nothing has been subtracted from the numerator yet. */
  ghost predicate Untouched(num: nat, i: nat, rest: nat) {
    num > 0 && rest == num * Pow(10, i)
  }

  lemma FixedRounds(num: nat, den: nat, i: nat, done: nat, rest: nat, digit: nat, r: nat, roundUp: bool)
    requires Fixing(num, den, i, done, rest) && rest == digit * den + r && r < den
    requires roundUp <==> 2 * r > den || (2 * r == den && digit % 2 != 0)
    ensures RoundHalfEven(num * Pow(10, i), den) == 10 * done + digit + if roundUp then 1 else 0
  {
    FixingStep(num, den, i, done, rest, digit, r);
    Parity(done, digit);
    hide RoundHalfEven, Fixing, Pow;
    RoundHalfEvenFrom(num * Pow(10, i), den, 10 * done + digit, r);
  }

  lemma Parity(done: nat, digit: nat)
    ensures (10 * done + digit) % 2 == digit % 2
  {
  }

  lemma EmptyDecimal(s: string)
    requires AlmostDigits(s)
    ensures Decimal(s[..0]) == 0
  {
  }

  lemma FixingFacts(num: nat, den: nat, i: nat, done: nat, rest: nat)
    requires Fixing(num, den, i, done, rest)
    ensures rest < 10 * den
    ensures Untouched(num, i, rest) ==> rest > 0 && Untouched(num, i + 1, 10 * rest)
    ensures rest <= num * Pow(10, i)
  {
    PowPositive(10, i);
    if num > 0 { MulPositive(num, Pow(10, i)); }
    MulTen(num, Pow(10, i));
  }
}
