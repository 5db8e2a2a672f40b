/** The rounding interval of a scaled number, and rounding, on naturals. */
module DragonMath {
  import opened Powers
  import opened Digits

  // ---------------------------------------------------------------- the interval

  /** The number num/den with the distances low/den and up/den to its two boundaries. */
  datatype Window = Window(num: nat, den: nat, low: nat, up: nat) {
    ghost predicate Valid() {
      0 < den && 0 < low < num && 0 < up
    }

    ghost function Multiple(w: int): int {
      w * den
    }

    ghost function Lower(j: nat): int {
      (num - low) * Pow(10, j)
    }

    ghost function Upper(j: nat): int {
      (num + up) * Pow(10, j)
    }

    /** w / 10^j is not below the lower boundary. */
    ghost predicate AboveLower(w: int, j: nat, closed: bool) {
      Multiple(w) > Lower(j) || (Multiple(w) == Lower(j) && closed)
    }

    /** w / 10^j is not above the upper boundary. */
    ghost predicate BelowUpper(w: int, j: nat, closed: bool) {
      Multiple(w) < Upper(j) || (Multiple(w) == Upper(j) && closed)
    }

    ghost predicate Inside(w: int, j: nat, lowClosed: bool, upClosed: bool) {
      AboveLower(w, j, lowClosed) && BelowUpper(w, j, upClosed)
    }

    ghost predicate NoHit(j: nat, lowClosed: bool, upClosed: bool) {
      forall w: int :: !Inside(w, j, lowClosed, upClosed)
    }

    /** num / den is done / 10^i with remainder r. */
    ghost predicate Splits(i: nat, done: int, r: nat) {
      num * Pow(10, i) == Multiple(done) + r
    }

    /** v / 10^j is nearer to the number than w / 10^j, or as near and even. */
    ghost predicate Beats(v: int, w: int, j: nat) {
      Distance(v, j) < Distance(w, j) || (Distance(v, j) == Distance(w, j) && (v == w || v % 2 == 0))
    }

    ghost predicate NoneCloser(v: int, j: nat, lowClosed: bool, upClosed: bool) {
      forall w: int :: Inside(w, j, lowClosed, upClosed) ==> Beats(v, w, j)
    }

    /** v / 10^j is in the interval, no coarser decimal is, and it beats every other with its last position. */
    ghost predicate Best(v: int, j: nat, lowClosed: bool, upClosed: bool) {
      && Inside(v, j, lowClosed, upClosed)
      && (forall i: nat :: i < j ==> NoHit(i, lowClosed, upClosed))
      && NoneCloser(v, j, lowClosed, upClosed)
    }

    ghost function Distance(w: int, j: nat): nat {
      var d := Multiple(w) - num * Pow(10, j);
      if d < 0 then -d else d
    }

    /** The boundary num + up reaches one, which the fixup step establishes. */
    ghost predicate ReachesOne(upClosed: bool) {
      num + up > den || (num + up == den && upClosed)
    }

    /** The boundary num + up does not reach ten. */
    ghost predicate BelowTen(upClosed: bool) {
      !(num + up > 10 * den || (num + up == 10 * den && upClosed))
    }

    /** The lower boundary itself is the decimal to choose if it counts as part of the interval. */
    ghost predicate BoundaryIsBest(upClosed: bool) {
      exists w: int, j: nat :: Multiple(w) == Lower(j) && Best(w, j, true, upClosed)
    }

    /** s is a decimal w / 10^(|s|-1) of the interval, no coarser decimal is, none is closer. */
    ghost predicate IsShortest(s: string, lowClosed: bool, upClosed: bool) {
      && s != "" && AllDigits(s) && Decimal(s) >= Pow(10, |s| - 1)
      && Best(Decimal(s), |s| - 1, lowClosed, upClosed)
      && (|s| > 1 ==> num - low >= den)
    }

    /**
      The shortest digit string has the fewest digits of all decimals w / 10^j in the
      interval, whatever the position of their last digit.
    */
    lemma FewestDigits(s: string, lowClosed: bool, upClosed: bool, w: nat, j: nat)
      requires Valid() && IsShortest(s, lowClosed, upClosed)
      requires Inside(w, j, lowClosed, upClosed)
      ensures w >= Pow(10, |s| - 1)
    {
      var i := |s| - 1;
      if i > 0 {
        assert !NoHit(j, lowClosed, upClosed);
        PowMonotone(10, i, j);
        AtLeastUnit(w, j);
      } else {
        PowPositive(10, j);
        MulPositive(num - low, Pow(10, j));
        assert Multiple(0) == 0;
      }
    }

    lemma AtLeastUnit(w: nat, j: nat)
      requires Valid() && num - low >= den && Multiple(w) >= Lower(j)
      ensures w >= Pow(10, j)
    {
      MulLe(den, num - low, Pow(10, j));
      if w < Pow(10, j) {
        MulLt(w, Pow(10, j), den);
      }
    }

    /** Neither does a multiple w * 10^k of a power of ten beat it. */
    lemma FewestDigitsCoarse(s: string, lowClosed: bool, upClosed: bool, w: nat, k: nat)
      requires Valid() && IsShortest(s, lowClosed, upClosed)
      requires Inside(w * Pow(10, k), 0, lowClosed, upClosed)
      ensures w >= Pow(10, |s| - 1)
    {
      if |s| == 1 {
        FewestDigits(s, lowClosed, upClosed, w * Pow(10, k), 0);
        assert 0 * Pow(10, k) == 0;
      }
      assert !NoHit(0, lowClosed, upClosed);
    }
  }

  // ---------------------------------------------------------------- one digit of the shortest form

  /** The state after some digits: `done` of them read as a number, rest still to be divided. */
  ghost predicate Generated(x: Window, i: nat, done: nat, rest: nat, low: nat, up: nat) {
    && x.num * Pow(10, i) == 10 * (done * x.den) + rest
    && low == x.low * Pow(10, i) && up == x.up * Pow(10, i)
  }

  /** One division step: the digit is exact and the boundaries have scaled along. */
  lemma DigitStep(x: Window, i: nat, done: nat, rest: nat, low: nat, up: nat, digit: nat, r: nat)
    requires Generated(x, i, done, rest, low, up) && rest == digit * x.den + r
    ensures x.Splits(i, 10 * done + digit, r)
    ensures Generated(x, i + 1, 10 * done + digit, 10 * r, 10 * low, 10 * up)
  {
    var d := 10 * done + digit;
    assert d * x.den == 10 * (done * x.den) + digit * x.den;
    MulTen(x.num, Pow(10, i));
    MulTen(x.low, Pow(10, i));
    MulTen(x.up, Pow(10, i));
  }

  /** What the two tests at a digit say about the candidates done and done + 1. */
  lemma DigitTests(x: Window, i: nat, done: nat, r: nat, low: nat, up: nat, closed: bool)
    requires x.Splits(i, done, r)
    requires low == x.low * Pow(10, i) && up == x.up * Pow(10, i)
    ensures x.AboveLower(done, i, closed) <==> r < low || (r == low && closed)
    ensures x.BelowUpper(done + 1, i, closed) <==> r + up > x.den || (r + up == x.den && closed)
    ensures r < x.den ==> x.AboveLower(done + 1, i, closed)
    ensures up > 0 ==> x.BelowUpper(done, i, closed)
  {
    Boundaries(x, i, done, r, low, up);
  }

  lemma Boundaries(x: Window, i: nat, done: nat, r: nat, low: nat, up: nat)
    requires x.Splits(i, done, r)
    requires low == x.low * Pow(10, i) && up == x.up * Pow(10, i)
    ensures x.Lower(i) == x.Multiple(done) + r - low
    ensures x.Upper(i) == x.Multiple(done) + r + up
    ensures x.Multiple(done + 1) == x.Multiple(done) + x.den
  {
    MulDifference(x.num, x.low, Pow(10, i));
    MulSum(x.num, x.up, Pow(10, i));
    MulSum(done, 1, x.den);
  }

  lemma MulSum(a: int, b: int, p: int)
    ensures (a + b) * p == a * p + b * p
  {
  }

  lemma MulDifference(a: int, b: int, p: int)
    ensures (a - b) * p == a * p - b * p
  {
  }

  /** Candidates beyond the two neighbours are farther from the boundaries. */
  lemma OtherCandidates(x: Window, i: nat, done: int, w: int, closed: bool)
    requires x.den > 0
    ensures w <= done && x.AboveLower(w, i, closed) ==> x.AboveLower(done, i, closed)
    ensures w >= done + 1 && x.BelowUpper(w, i, closed) ==> x.BelowUpper(done + 1, i, closed)
  {
    if w <= done { MulLe(w, done, x.den); }
    if w >= done + 1 { MulLe(done + 1, w, x.den); }
  }

  /** Neither neighbour inside: no decimal with this many digits is. */
  lemma NeitherInside(x: Window, i: nat, done: int, lowClosed: bool, upClosed: bool)
    requires x.den > 0
    requires !x.AboveLower(done, i, lowClosed) && !x.BelowUpper(done + 1, i, upClosed)
    ensures x.NoHit(i, lowClosed, upClosed)
  {
    forall w: int ensures !x.Inside(w, i, lowClosed, upClosed) {
      OtherCandidates(x, i, done, w, lowClosed);
      OtherCandidates(x, i, done, w, upClosed);
    }
  }

  lemma Distances(x: Window, i: nat, done: nat, r: nat, w: int)
    requires x.Splits(i, done, r) && r < x.den
    ensures x.Distance(done, i) == r && x.Distance(done + 1, i) == x.den - r
    ensures w < done ==> x.Distance(w, i) > r
    ensures w > done + 1 ==> x.Distance(w, i) > x.den - r
  {
    MulSum(done, 1, x.den);
    if w < done { MulLt(w, done, x.den); }
    if w > done + 1 { MulLt(done + 1, w, x.den); }
  }

  /** The candidate format_dragon settles for once one of its two tests succeeds. */
  function Choice(done: nat, r: nat, den: nat, odd: bool, lowTest: bool, highTest: bool): nat {
    if !lowTest then done + 1
    else if highTest && (2 * r > den || (2 * r == den && odd)) then done + 1
    else done
  }

  lemma ChoiceIsBest(x: Window, i: nat, done: nat, r: nat, low: nat, up: nat, odd: bool,
                     lowTest: bool, highTest: bool, lowClosed: bool, upClosed: bool)
    requires x.Splits(i, done, r) && r < x.den
    requires low == x.low * Pow(10, i) && up == x.up * Pow(10, i) && up > 0
    requires lowTest <==> x.AboveLower(done, i, lowClosed)
    requires highTest <==> x.BelowUpper(done + 1, i, upClosed)
    requires (lowTest || highTest) && (odd <==> done % 2 != 0)
    ensures var w := Choice(done, r, x.den, odd, lowTest, highTest);
            x.Inside(w, i, lowClosed, upClosed) && x.NoneCloser(w, i, lowClosed, upClosed)
  {
    DigitTests(x, i, done, r, low, up, lowClosed);
    DigitTests(x, i, done, r, low, up, upClosed);
    var w := Choice(done, r, x.den, odd, lowTest, highTest);
    forall v: int | x.Inside(v, i, lowClosed, upClosed) ensures x.Beats(w, v, i) {
      Distances(x, i, done, r, v);
      OtherCandidates(x, i, done, v, lowClosed);
      OtherCandidates(x, i, done, v, upClosed);
    }
  }

  // ---------------------------------------------------------------- there is one shortest form

  /** A decimal inside the interval is inside it at every finer position too. */
  lemma InsideFiner(x: Window, w: int, i: nat, j: nat, lowClosed: bool, upClosed: bool)
    requires i <= j && x.Inside(w, i, lowClosed, upClosed)
    ensures x.Inside(w * Pow(10, j - i), j, lowClosed, upClosed)
  {
    var p := Pow(10, j - i);
    PowPositive(10, j - i);
    PowAdd(10, i, j - i);
    FinerPosition(w, x.den, p, x.num - x.low, Pow(10, i));
    FinerPosition(w, x.den, p, x.num + x.up, Pow(10, i));
  }

  lemma FinerPosition(w: int, den: int, p: int, b: int, q: int)
    requires p > 0
    ensures w * den > b * q <==> (w * p) * den > b * (q * p)
    ensures w * den == b * q <==> (w * p) * den == b * (q * p)
  {
    assert (w * p) * den == (w * den) * p && b * (q * p) == (b * q) * p;
    if w * den > b * q { MulLt(b * q, w * den, p); }
    if w * den < b * q { MulLt(w * den, b * q, p); }
  }

  /** Where no decimal of some length is inside, no shorter one is. */
  lemma NoneCoarser(x: Window, i: nat, j: nat, lowClosed: bool, upClosed: bool)
    requires i <= j && x.NoHit(j, lowClosed, upClosed)
    ensures x.NoHit(i, lowClosed, upClosed)
  {
    forall w: int ensures !x.Inside(w, i, lowClosed, upClosed) {
      if x.Inside(w, i, lowClosed, upClosed) {
        InsideFiner(x, w, i, j, lowClosed, upClosed);
      }
    }
  }

  /** Of two candidates at one distance with another between them, neither is nearest. */
  lemma BetweenIsNearer(x: Window, j: nat, v: int, w: int, lowClosed: bool, upClosed: bool)
    requires x.den > 0 && v + 1 < w && x.Distance(v, j) == x.Distance(w, j)
    requires x.AboveLower(v, j, true) && x.BelowUpper(w, j, upClosed)
    ensures x.Inside(v + 1, j, lowClosed, upClosed) && x.Distance(v + 1, j) < x.Distance(v, j)
  {
    MulLt(v, v + 1, x.den);
    MulLt(v + 1, w, x.den);
    MulLe(v + 2, w, x.den);
    MulSum(v, 1, x.den);
    MulSum(v, 2, x.den);
  }

  lemma NotCoarser(x: Window, v: int, i: nat, j: nat, lowClosed: bool, upClosed: bool)
    requires x.Inside(v, i, lowClosed, upClosed)
    requires forall k: nat :: k < j ==> x.NoHit(k, lowClosed, upClosed)
    ensures i >= j
  {
    assert !x.NoHit(i, lowClosed, upClosed);
  }

  /** The shortest form is unique. */
  lemma OnlyOneBest(x: Window, v: int, i: nat, w: int, j: nat, lowClosed: bool, upClosed: bool)
    requires x.den > 0 && x.Best(v, i, lowClosed, upClosed) && x.Best(w, j, lowClosed, upClosed)
    ensures v == w && i == j
  {
    NotCoarser(x, v, i, j, lowClosed, upClosed);
    NotCoarser(x, w, j, i, lowClosed, upClosed);
    assert x.Beats(v, w, i) && x.Beats(w, v, i);
    if v + 1 < w { BetweenIsNearer(x, i, v, w, lowClosed, upClosed); }
    if w + 1 < v { BetweenIsNearer(x, i, w, v, lowClosed, upClosed); }
  }

  lemma OneShortestString(x: Window, s: string, t: string, lowClosed: bool, upClosed: bool)
    requires x.den > 0 && x.IsShortest(s, lowClosed, upClosed) && x.IsShortest(t, lowClosed, upClosed)
    ensures s == t
  {
    OnlyOneBest(x, Decimal(s), |s| - 1, Decimal(t), |t| - 1, lowClosed, upClosed);
    DecimalInjective(s, t);
  }

  /** The boundary is the only decimal that an open interval lacks. */
  lemma OnlyTheBoundary(x: Window, w: int, j: nat, upClosed: bool)
    requires x.Inside(w, j, true, upClosed) && !x.Inside(w, j, false, upClosed)
    ensures x.Multiple(w) == x.Lower(j)
  {
  }

  lemma SamePlace(x: Window, v: int, w: int)
    requires x.den > 0 && x.Multiple(v) == x.Multiple(w)
    ensures v == w
  {
    MulCancelEq(v, w, x.den);
  }

  lemma {:induction false} NoBoundaryHit(x: Window, i: nat, upClosed: bool)
    requires x.den > 0 && !x.BoundaryIsBest(upClosed)
    requires forall k: nat :: k <= i ==> x.NoHit(k, false, upClosed)
    ensures x.NoHit(i, true, upClosed)
  {
    forall k: nat | k < i ensures x.NoHit(k, true, upClosed) {
      NoBoundaryHit(x, k, upClosed);
    }
    forall w: int ensures !x.Inside(w, i, true, upClosed) {
      if x.Inside(w, i, true, upClosed) {
        assert x.NoHit(i, false, upClosed);
        OnlyTheBoundary(x, w, i, upClosed);
        forall v: int | x.Inside(v, i, true, upClosed) ensures x.Beats(w, v, i) {
          OnlyTheBoundary(x, v, i, upClosed);
          SamePlace(x, v, w);
        }
        assert x.Best(w, i, true, upClosed);
      }
    }
  }

  /** What is best without the boundary beats the boundary unless that is best. */
  lemma BeatsBoundary(x: Window, v: int, i: nat, w: int, upClosed: bool)
    requires x.den > 0 && x.Best(v, i, false, upClosed) && !x.BoundaryIsBest(upClosed)
    requires x.Multiple(w) == x.Lower(i) && x.Inside(w, i, true, upClosed)
    requires forall k: nat :: k < i ==> x.NoHit(k, true, upClosed)
    ensures x.Beats(v, w, i)
  {
    if !x.Beats(v, w, i) {
      if w >= v { MulLe(v, w, x.den); }
      if w + 1 < v && x.Distance(v, i) == x.Distance(w, i) {
        BetweenIsNearer(x, i, w, v, false, upClosed);
        assert x.Beats(v, w + 1, i);
      }
      forall u: int | x.Inside(u, i, true, upClosed) ensures x.Beats(w, u, i) {
        if x.Inside(u, i, false, upClosed) {
          assert x.Beats(v, u, i);
        } else {
          OnlyTheBoundary(x, u, i, upClosed);
          SamePlace(x, u, w);
        }
      }
      assert x.Best(w, i, true, upClosed);
    }
  }

  lemma BestWithout(x: Window, v: int, i: nat, upClosed: bool)
    requires x.den > 0 && x.Best(v, i, false, upClosed)
    ensures x.Best(v, i, true, upClosed) <==> !x.BoundaryIsBest(upClosed)
  {
    if x.BoundaryIsBest(upClosed) {
      var w, j: nat :| x.Multiple(w) == x.Lower(j) && x.Best(w, j, true, upClosed);
      if x.Best(v, i, true, upClosed) {
        OnlyOneBest(x, v, i, w, j, true, upClosed);
      }
    } else {
      forall k: nat | k < i ensures x.NoHit(k, true, upClosed) {
        NoBoundaryHit(x, k, upClosed);
      }
      forall w: int | x.Inside(w, i, true, upClosed) ensures x.Beats(v, w, i) {
        if !x.Inside(w, i, false, upClosed) {
          OnlyTheBoundary(x, w, i, upClosed);
          BeatsBoundary(x, v, i, w, upClosed);
        }
      }
    }
  }

  lemma BestWith(x: Window, v: int, i: nat, upClosed: bool)
    requires x.den > 0 && x.Best(v, i, true, upClosed)
    ensures x.Best(v, i, false, upClosed) <==> !x.BoundaryIsBest(upClosed)
  {
    if x.BoundaryIsBest(upClosed) {
      var w, j: nat :| x.Multiple(w) == x.Lower(j) && x.Best(w, j, true, upClosed);
      OnlyOneBest(x, v, i, w, j, true, upClosed);
    } else {
      forall k: nat | k < i ensures x.NoHit(k, false, upClosed) {
        NoHitOpens(x, k, upClosed);
      }
      assert x.Multiple(v) != x.Lower(i);
      NoneCloserOpens(x, v, i, upClosed);
    }
  }

  lemma NoHitOpens(x: Window, k: nat, upClosed: bool)
    requires x.NoHit(k, true, upClosed)
    ensures x.NoHit(k, false, upClosed)
  {
    forall w: int ensures !x.Inside(w, k, false, upClosed) {
      assert !x.Inside(w, k, true, upClosed);
    }
  }

  lemma NoneCloserOpens(x: Window, v: int, k: nat, upClosed: bool)
    requires x.NoneCloser(v, k, true, upClosed)
    ensures x.NoneCloser(v, k, false, upClosed)
  {
    forall w: int | x.Inside(w, k, false, upClosed) ensures x.Beats(v, w, k) {
      assert x.Inside(w, k, true, upClosed);
    }
  }

  /**
    A shortest form for the wrong kind of lower boundary is the shortest form for the right
    one if and only if that boundary is not itself the decimal to choose.
  */
  lemma BoundaryDecides(x: Window, s: string, counted: bool, lowClosed: bool, upClosed: bool)
    requires x.den > 0 && x.IsShortest(s, counted, upClosed)
    ensures x.IsShortest(s, lowClosed, upClosed) <==> counted == lowClosed || !x.BoundaryIsBest(upClosed)
  {
    hide Window.Best, Window.BoundaryIsBest, Pow;
    if counted && !lowClosed { BestWith(x, Decimal(s), |s| - 1, upClosed); }
    if !counted && lowClosed { BestWithout(x, Decimal(s), |s| - 1, upClosed); }
  }

  // ---------------------------------------------------------------- when the boundary is best

  /** Divisions and comparisons that tell whether the boundary is the decimal to choose at position j. */
  ghost predicate BoundaryTest(x: Window, j: nat, upClosed: bool)
    requires x.den > 0
  {
    var w, gap := x.Lower(j) / x.den, x.low * Pow(10, j);
    && x.Lower(j) % x.den == 0
    && (!x.BelowUpper(w + 1, j, upClosed) || 2 * gap < x.den || (2 * gap == x.den && w % 2 == 0))
    && (j > 0 ==> NothingAbove(x, j - 1, upClosed))
  }

  /** The lower boundary is no decimal of position i, and the next decimal is beyond the upper one. */
  ghost predicate NothingAbove(x: Window, i: nat, upClosed: bool)
    requires x.den > 0
  {
    x.Lower(i) % x.den != 0 && !x.BelowUpper(x.Lower(i) / x.den + 1, i, upClosed)
  }

  lemma NoHitTest(x: Window, i: nat, upClosed: bool)
    requires x.Valid()
    ensures x.NoHit(i, true, upClosed) <==> NothingAbove(x, i, upClosed)
  {
    var q := x.Lower(i) / x.den;
    BoundaryQuotient(x, i, upClosed);
    if NothingAbove(x, i, upClosed) {
      NeitherInside(x, i, q, true, upClosed);
    } else if x.Lower(i) % x.den == 0 {
      assert x.Inside(q, i, true, upClosed);
    } else {
      assert x.Inside(q + 1, i, true, upClosed);
    }
  }

  lemma BoundaryQuotient(x: Window, i: nat, upClosed: bool)
    requires x.Valid()
    ensures var q := x.Lower(i) / x.den;
            && x.Multiple(q) <= x.Lower(i) < x.Multiple(q + 1)
            && (x.Multiple(q) == x.Lower(i) <==> x.Lower(i) % x.den == 0)
            && x.BelowUpper(q, i, upClosed)
  {
    var q := x.Lower(i) / x.den;
    QuotientParts(x.Lower(i), x.den);
    MulSum(q, 1, x.den);
    PowPositive(10, i);
    MulLt(x.num - x.low, x.num + x.up, Pow(10, i));
  }

  lemma QuotientParts(a: int, b: int)
    requires b > 0
    ensures a == (a / b) * b + a % b && 0 <= a % b < b
  {
  }

  lemma BoundaryBeatsTest(x: Window, w: int, j: nat, upClosed: bool)
    requires x.Valid() && x.Multiple(w) == x.Lower(j)
    ensures x.NoneCloser(w, j, true, upClosed) <==>
            !x.BelowUpper(w + 1, j, upClosed) || 2 * (x.low * Pow(10, j)) < x.den ||
            (2 * (x.low * Pow(10, j)) == x.den && w % 2 == 0)
  {
    var gap := x.low * Pow(10, j);
    PowPositive(10, j);
    MulPositive(x.low, Pow(10, j));
    MulDifference(x.num, x.low, Pow(10, j));
    MulSum(w, 1, x.den);
    MulSum(w, 2, x.den);
    assert x.Inside(w + 1, j, true, upClosed) <==> x.BelowUpper(w + 1, j, upClosed);
    assert x.Distance(w, j) == gap;
    forall v: int | x.Inside(v, j, true, upClosed)
      ensures v >= w && (v > w ==> x.BelowUpper(w + 1, j, upClosed))
      ensures 2 * gap <= x.den && v > w + 1 ==> x.Distance(v, j) > gap
    {
      if v < w { MulLt(v, w, x.den); }
      if v > w { MulLe(w + 1, v, x.den); }
      if v > w + 1 { MulLe(w + 2, v, x.den); }
    }
  }

  /** How many positions are worth a test: behind them every interval of this width holds a decimal. */
  function Trials(width: nat, den: nat): (n: nat)
    requires width > 0
    ensures n > 0
    decreases if width < den then den - width else 0
  {
    if width >= den then 1 else 1 + Trials(10 * width, den)
  }

  lemma {:induction false} WithinTrials(width: nat, den: nat, j: nat)
    requires width > 0 && (j > 0 ==> width * Pow(10, j - 1) < den)
    ensures j < Trials(width, den)
    decreases j
  {
    if j > 0 {
      PowPositive(10, j - 1);
      MulLe(1, Pow(10, j - 1), width);
      if j > 1 { MulAssoc(width, 10, Pow(10, j - 2)); }
      WithinTrials(10 * width, den, j - 1);
    }
  }

  /** Between a multiple of den below the interval and the next one above it the interval is narrow. */
  lemma NarrowInterval(x: Window, i: nat, upClosed: bool)
    requires x.Valid() && NothingAbove(x, i, upClosed)
    ensures (x.low + x.up) * Pow(10, i) < x.den
  {
    var q := x.Lower(i) / x.den;
    BoundaryQuotient(x, i, upClosed);
    MulSum(q, 1, x.den);
    MulDifference(x.num, x.low, Pow(10, i));
    MulSum(x.num, x.up, Pow(10, i));
    MulSum(x.low, x.up, Pow(10, i));
  }

  /** Whether the lower boundary is the decimal to choose can be told by a bounded number of divisions. */
  lemma BoundaryIsBestTest(x: Window, upClosed: bool)
    requires x.Valid()
    ensures x.BoundaryIsBest(upClosed) <==>
            exists j: nat :: j < Trials(x.low + x.up, x.den) && BoundaryTest(x, j, upClosed)
  {
    hide Window.NoHit, Window.NoneCloser, Window.Inside, Pow, NothingAbove, Trials;
    if x.BoundaryIsBest(upClosed) {
      var w, j: nat :| x.Multiple(w) == x.Lower(j) && x.Best(w, j, true, upClosed);
      BoundaryTestAt(x, w, j, upClosed);
      if j > 0 { NarrowInterval(x, j - 1, upClosed); }
      WithinTrials(x.low + x.up, x.den, j);
    }
    if j: nat :| j < Trials(x.low + x.up, x.den) && BoundaryTest(x, j, upClosed) {
      BoundaryQuotient(x, j, upClosed);
      BoundaryTestAt(x, x.Lower(j) / x.den, j, upClosed);
    }
  }

  lemma BoundaryTestAt(x: Window, w: int, j: nat, upClosed: bool)
    requires x.Valid() && x.Multiple(w) == x.Lower(j)
    ensures x.Best(w, j, true, upClosed) <==> BoundaryTest(x, j, upClosed)
  {
    BoundaryQuotient(x, j, upClosed);
    DivMod(x.Lower(j), x.den, w, 0);
    BoundaryBeatsTest(x, w, j, upClosed);
    hide Pow, NothingAbove, Window.NoneCloser, Window.NoHit, Window.Multiple, Window.Lower, Window.BelowUpper;
    if j > 0 {
      NoHitTest(x, j - 1, upClosed);
      NoHitBefore(x, j, upClosed);
    }
  }

  lemma NoHitBefore(x: Window, j: nat, upClosed: bool)
    requires j > 0
    ensures x.NoHit(j - 1, true, upClosed) <==> forall i: nat :: i < j ==> x.NoHit(i, true, upClosed)
  {
    if x.NoHit(j - 1, true, upClosed) {
      forall i: nat | i < j ensures x.NoHit(i, true, upClosed) {
        NoneCoarser(x, i, j - 1, true, upClosed);
      }
    }
  }

  // ---------------------------------------------------------------- rounding

  /** num / den rounded to the nearest integer, ties to even. */
  function RoundHalfEven(num: nat, den: nat): nat
    requires den > 0
  {
    var q, r := num / den, num % den;
    if 2 * r > den || (2 * r == den && q % 2 != 0) then q + 1 else q
  }

  ghost function Gap(w: int, num: int, den: int): int {
    var d := w * den - num;
    if d < 0 then -d else d
  }

  /** The defining properties: nearest, and even when two integers are equally near. */
  lemma RoundHalfEvenIsNearest(num: nat, den: nat, w: int)
    requires den > 0
    ensures var q := RoundHalfEven(num, den);
            Gap(q, num, den) <= Gap(w, num, den) &&
            (Gap(q, num, den) == Gap(w, num, den) && w != q ==> q % 2 == 0)
  {
    var q, r := num / den, num % den;
    assert num == q * den + r;
    MulSum(q, 1, den);
    MulSum(q, 2, den);
    MulSum(q, -1, den);
    if w < q { MulLe(w, q - 1, den); }
    if w > q + 1 { MulLe(q + 2, w, den); }
  }

  lemma RoundHalfEvenFrom(num: nat, den: nat, q: nat, r: nat)
    requires den > 0 && num == q * den + r && r < den
    ensures RoundHalfEven(num, den) == if 2 * r > den || (2 * r == den && q % 2 != 0) then q + 1 else q
  {
    var d, m := num / den, num % den;
    assert num == d * den + m;
    MulSum(d, 1, den);
    MulSum(q, 1, den);
    if d < q { MulLe(d + 1, q, den); }
    if d > q { MulLe(q + 1, d, den); }
  }
}
