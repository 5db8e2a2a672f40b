/**
  The fixed-point printing inside format_float: the first 19 digits of a number split into
  subsegments, each printed by multiplication only, and rounded with what is left over.
*/
module Segments {
  import opened Powers
  import opened Digits
  import opened DragonMath

  const TWO_TO_32: nat := 0x1_0000_0000
  const TWO_TO_31: nat := 0x8000_0000
  const TWO_TO_64: nat := 0x1_0000_0000_0000_0000
  const TWO_TO_96: nat := 0x1_0000_0000_0000_0000_0000_0000

  // ---------------------------------------------------------------- fractions

  /** f / 2^32 is r / t, too big by less than 1 / t. */
  ghost predicate Fraction(f: nat, t: nat, r: nat) {
    r * TWO_TO_32 <= f * t < (r + 1) * TWO_TO_32
  }

  /** The integer part of a fraction of r / u gives the digits, the rest is again a fraction. */
  lemma NextDigits(prod: nat, u: nat, r: nat)
    requires u > 0 && Fraction(prod, u, r)
    ensures prod / TWO_TO_32 == r / u
    ensures Fraction(prod % TWO_TO_32, u, r % u)
  {
    var d, l, q, s := prod / TWO_TO_32, prod % TWO_TO_32, r / u, r % u;
    assert r == u * q + s;
    assert prod * u == TWO_TO_32 * (d * u) + l * u;
    MulLe(0, l, u);
    MulLt(l, TWO_TO_32, u);
    assert u * q == q * u;
    if d > q {
      MulLe(q + 1, d, u);
      MulSum(q, 1, u);
      TooBig(d * u, q * u, l * u, s, u, prod * u);
    } else if d < q {
      MulLe(d + 1, q, u);
      MulSum(d, 1, u);
    }
  }

  lemma TooBig(x: int, y: int, z: int, s: int, u: int, product: int)
    requires x >= y + u && z >= 0 && s < u && product == TWO_TO_32 * x + z
    ensures product >= (y + s + 1) * TWO_TO_32
  {
  }

  /** Multiplying the fraction by a hundred moves two digits in front of the point. */
  lemma TwoDigitsOn(f: nat, t: nat, u: nat, r: nat)
    requires Fraction(f, t, r) && t == 100 * u
    ensures Fraction(f * 100, u, r)
  {
    assert (f * 100) * u == f * (100 * u);
  }

  /** The magic multipliers: 720575941 / 2^24 is about 2^32 / 10^8, and 450359963 / 2^20 2^32 / 10^7. */
  lemma FirstDigit(subsegment: nat)
    requires subsegment < 1000000000
    ensures Fraction((subsegment * 720575941) / 0x100_0000 + 1, 100000000, subsegment)
  {
    var product := subsegment * 720575941;
    assert product == 0x100_0000 * (product / 0x100_0000) + product % 0x100_0000;
  }

  lemma FirstTwoDigits(subsegment: nat)
    requires subsegment < 1000000000
    ensures Fraction((subsegment * 450359963) / 0x10_0000 + 1, 10000000, subsegment)
  {
    var product := subsegment * 450359963;
    assert product == 0x10_0000 * (product / 0x10_0000) + product % 0x10_0000;
  }

  /** Two more digits of a number. */
  lemma FinerQuotient(x: nat, t: nat, u: nat)
    requires u > 0 && t == 100 * u
    ensures x / u == 100 * (x / t) + (x % t) / u && x % u == (x % t) % u
    ensures (x % t) / u < 100
  {
    var a, b := x / t, x % t;
    var c, d := b / u, b % u;
    assert x == u * (100 * a + c) + d by {
      assert x == t * a + b && b == u * c + d;
      assert (100 * u) * a == u * (100 * a);
      assert u * (100 * a + c) == u * (100 * a) + u * c;
    }
    DivMod(x, u, 100 * a + c, d);
    if c >= 100 { MulLe(100, c, u); }
  }

  // ---------------------------------------------------------------- printing a subsegment

  /** The first k digits are printed; prod and digits say what is left and what came last. */
  ghost predicate Printed(text: string, k: nat, subsegment: nat, prod: nat, digits: nat)
    requires k <= 9
  {
    var t := Pow(10, 9 - k);
    && t > 0 && |text| == k && AllDigits(text) && Decimal(text) == subsegment / t
    && Fraction(prod % TWO_TO_32, t, subsegment % t)
    && digits % 2 == (subsegment / t) % 2
  }

  lemma StartsWithOne(subsegment: nat, prod: nat)
    requires subsegment < 1000000000 && prod == (subsegment * 720575941) / 0x100_0000 + 1
    ensures prod / TWO_TO_32 <= 9
    ensures Printed([DigitChar(prod / TWO_TO_32)], 1, subsegment, prod, prod / TWO_TO_32)
  {
    Pow10Values();
    FirstDigit(subsegment);
    NextDigits(prod, 100000000, subsegment);
    DecimalAppend("", prod / TWO_TO_32);
    assert "" + [DigitChar(prod / TWO_TO_32)] == [DigitChar(prod / TWO_TO_32)];
  }

  lemma StartsWithTwo(subsegment: nat, prod: nat)
    requires subsegment < 1000000000 && prod == (subsegment * 450359963) / 0x10_0000 + 1
    ensures prod / TWO_TO_32 <= 99
    ensures Printed(Pair(prod / TWO_TO_32), 2, subsegment, prod, prod / TWO_TO_32)
  {
    Pow10Values();
    FirstTwoDigits(subsegment);
    NextDigits(prod, 10000000, subsegment);
    PairAppended("", prod / TWO_TO_32);
    assert "" + Pair(prod / TWO_TO_32) == Pair(prod / TWO_TO_32);
  }

  lemma GoesOnWithTwo(text: string, k: nat, subsegment: nat, prod: nat, digits: nat)
    requires k <= 7 && Printed(text, k, subsegment, prod, digits)
    ensures var next := (prod % TWO_TO_32) * 100;
            && next / TWO_TO_32 <= 99
            && Printed(text + Pair(next / TWO_TO_32), k + 2, subsegment, next, next / TWO_TO_32)
  {
    var t, u := Pow(10, 9 - k), Pow(10, 9 - (k + 2));
    assert t == 100 * u by { assert Pow(10, 9 - k) == 10 * Pow(10, 8 - k); }
    PowPositive(10, 9 - (k + 2));
    var next := (prod % TWO_TO_32) * 100;
    hide Fraction, Decimal, Pow, AllDigits, AlmostDigits, Pair;
    NextPair(subsegment, t, u, prod, next);
    PairAppended(text, next / TWO_TO_32);
  }

  lemma NextPair(subsegment: nat, t: nat, u: nat, prod: nat, next: nat)
    requires u > 0 && t == 100 * u && Fraction(prod % TWO_TO_32, t, subsegment % t)
    requires next == (prod % TWO_TO_32) * 100
    ensures next / TWO_TO_32 <= 99 && subsegment / u == 100 * (subsegment / t) + next / TWO_TO_32
    ensures Fraction(next % TWO_TO_32, u, subsegment % u)
    ensures (next / TWO_TO_32) % 2 == (subsegment / u) % 2
  {
    hide Fraction;
    var a := subsegment % t;
    TwoDigitsOn(prod % TWO_TO_32, t, u, a);
    NextDigits(next, u, a);
    FinerQuotient(subsegment, t, u);
    SameParity(subsegment / u, subsegment / t, next / TWO_TO_32);
  }

  lemma SameParity(x: int, y: int, d: int)
    requires x == 100 * y + d
    ensures x % 2 == d % 2
  {
  }

  /** copy2 with digits2, after a text that is already there. */
  method CopyPair(buffer: array<char>, at: nat, value: nat, ghost before: string, ghost start: nat, ghost text: string)
    requires value <= 99 && at == start + |text| && at + 2 <= |before| == buffer.Length
    requires buffer[..] == Overwritten(before, start, text)
    modifies buffer
    ensures buffer[..] == Overwritten(before, start, text + Pair(value))
  {
    buffer[at], buffer[at + 1] := DigitChar(value / 10), DigitChar(value % 10);
  }

  /** The leading digit, or the leading two when an even number of digits is to be printed. */
  method PrintLeading(subsegment: nat, odd: bool, buffer: array<char>, at: nat)
    returns (prod: nat, digits: nat, printed: nat, ghost text: string)
    requires subsegment < 1000000000 && at + (if odd then 1 else 2) <= buffer.Length
    modifies buffer
    ensures printed == if odd then 1 else 2
    ensures Printed(text, printed, subsegment, prod, digits)
    ensures buffer[..] == Overwritten(old(buffer[..]), at, text)
  {
    hide Printed, Pair, Decimal, AllDigits;
    ghost var before := buffer[..];
    if odd {
      prod := (subsegment * 720575941) / 0x100_0000 + 1;
      digits := prod / TWO_TO_32;
      StartsWithOne(subsegment, prod);
      text := [DigitChar(digits)];
      buffer[at] := DigitChar(digits);
      printed := 1;
    } else {
      prod := (subsegment * 450359963) / 0x10_0000 + 1;
      digits := prod / TWO_TO_32;
      StartsWithTwo(subsegment, prod);
      assert buffer[..] == Overwritten(before, at, "");
      CopyPair(buffer, at, digits, before, at, "");
      text := Pair(digits);
      assert "" + text == text;
      printed := 2;
    }
  }

  lemma PrintedLength(text: string, k: nat, subsegment: nat, prod: nat, digits: nat)
    requires k <= 9 && Printed(text, k, subsegment, prod, digits)
    ensures |text| == k
  {
  }

  /** print_subsegment, for number_of_digits_to_print == k. */
  method PrintSubsegment(subsegment: nat, k: nat, buffer: array<char>, at: nat)
    returns (prod: nat, digits: nat, ghost text: string)
    requires subsegment < 1000000000 && 1 <= k <= 9 && at + k <= buffer.Length
    modifies buffer
    ensures Printed(text, k, subsegment, prod, digits) && |text| == k
    ensures buffer[..] == Overwritten(old(buffer[..]), at, text)
  {
    hide Printed, Pair, Overwritten;
    ghost var before := buffer[..];
    var printed;
    prod, digits, printed, text := PrintLeading(subsegment, k % 2 != 0, buffer, at);
    PrintedLength(text, printed, subsegment, prod, digits);
    ghost var pairs := (k - printed) / 2;
    while printed < k
      invariant k == printed + 2 * pairs && pairs >= 0 && |text| == printed
      invariant Printed(text, printed, subsegment, prod, digits)
      invariant buffer[..] == Overwritten(before, at, text)
    {
      GoesOnWithTwo(text, printed, subsegment, prod, digits);
      prod := (prod % TWO_TO_32) * 100;
      digits := prod / TWO_TO_32;
      CopyPair(buffer, at + printed, digits, before, at, text);
      text, printed, pairs := text + Pair(digits), printed + 2, pairs - 1;
    }
  }

  // ---------------------------------------------------------------- subsegments

  const TEN9: nat := 1000000000
  const TEN10: nat := 10000000000
  const TEN19: nat := 10000000000000000000

  /** The upper 64 bits of a 128-bit product. */
  function Upper64(x: nat, y: nat): nat {
    (x * y) / TWO_TO_64
  }

  /** ceil(2^96 / 10^10) divides by 10^10, and ceil(2^64 / 10) by 10, on the numbers that occur. */
  lemma FirstSubsegment(segment: nat)
    requires segment < TEN19
    ensures Upper64(segment, 7922816251426433760) / TWO_TO_32 == segment / TEN10 < TEN9
  {
    var t, u := segment / TEN10, segment % TEN10;
    var product := segment * 7922816251426433760;
    assert product == TWO_TO_96 * t + (t * 6456049664 + u * 7922816251426433760);
    DivMod(product, TWO_TO_96, t, t * 6456049664 + u * 7922816251426433760);
    var high, low := product / TWO_TO_64, product % TWO_TO_64;
    DivMod(product, TWO_TO_96, high / TWO_TO_32, (high % TWO_TO_32) * TWO_TO_64 + low);
  }

  lemma SecondSubsegment(rest: nat)
    requires rest < TEN10
    ensures Upper64(rest, 1844674407370955162) == rest / 10 < TEN9
    ensures (rest - (rest / 10) * 10) % TWO_TO_32 == rest % 10
  {
    var t, u := rest / 10, rest % 10;
    DivMod(rest * 1844674407370955162, TWO_TO_64, t, t * 4 + u * 1844674407370955162);
  }

  // ---------------------------------------------------------------- the rounding decision

  /** ceil(2^31 + 2^32 / 10^n), for n from 1 to 8 */
  const THRESHOLDS: seq<nat> := [2576980378, 2190433321, 2151778616, 2147913145,
                                 2147526598, 2147487943, 2147484078, 2147483691]

  lemma ThresholdTest(f: nat, t: nat, r: nat, x: nat, threshold: nat)
    requires Fraction(f, t, r) && threshold > 0
    requires (threshold - 1) * t < x * TWO_TO_32 <= threshold * t
    ensures f >= threshold <==> r >= x
  {
    if f >= threshold {
      MulLe(threshold, f, t);
    } else {
      MulLe(f, threshold - 1, t);
    }
  }

  lemma Table(n: nat)
    requires 1 <= n <= 8
    ensures var t := Pow(10, n);
            && t == 2 * (t / 2) > 0
            && (THRESHOLDS[n - 1] - 1) * t < (t / 2 + 1) * TWO_TO_32 <= THRESHOLDS[n - 1] * t
  {
    Pow10Values();
    hide Pow;
  }

  /** The table tells more than a half, the top bit at least a half. */
  lemma HalfTests(f: nat, n: nat, r: nat)
    requires 1 <= n <= 8 && Fraction(f, Pow(10, n), r)
    ensures var half := Pow(10, n) / 2;
            && Pow(10, n) == 2 * half > 0
            && (f >= THRESHOLDS[n - 1] <==> r > half)
            && (f >= TWO_TO_31 <==> r >= half)
  {
    var t := Pow(10, n);
    Table(n);
    hide Pow, Fraction;
    ThresholdTest(f, t, r, t / 2 + 1, THRESHOLDS[n - 1]);
    ThresholdTest(f, t, r, t / 2, TWO_TO_31);
  }

  /** A number known up to a part below its last unit: whether that part is zero is all that matters. */
  function Sticky(more: bool): nat {
    if more then 1 else 0
  }

  /** q wholes of size d, r parts of size b, and a rest. */
  ghost function Mixed(q: int, d: int, r: int, b: int, rest: int): int {
    q * d + (r * b + rest)
  }

  /** The number q.r with r out of 2 * half and a rest out of b, rounded half to even. */
  lemma RoundingDecision(s: nat, q: nat, half: nat, b: nat, r: nat, rest: nat, more: bool, d: nat)
    requires b > 0 && half > 0 && d == 2 * (half * b) && d > 0
    requires s == Mixed(q, d, r, b, rest) && r < 2 * half && rest < b
    ensures RoundHalfEven(2 * s + Sticky(more), 2 * d)
         == if r > half || (r == half && (q % 2 == 1 || rest != 0 || more)) then q + 1 else q
  {
    var x, y := r * b, half * b;
    MulLe(r, 2 * half - 1, b);
    assert (2 * half - 1) * b == 2 * y - b by { MulSum(half, half - 1, b); MulSum(half, -1, b); }
    if r > half {
      MulLe(half + 1, r, b);
      MulSum(half, 1, b);
    } else if r < half {
      MulLe(r, half - 1, b);
      MulSum(half, -1, b);
    }
    hide RoundHalfEven;
    DoubledMixed(q, d, x + rest, Sticky(more));
    RoundHalfEvenFrom(2 * s + Sticky(more), 2 * d, q, 2 * (x + rest) + Sticky(more));
  }

  lemma DoubledMixed(q: int, d: int, part: int, e: int)
    ensures 2 * (q * d + part) + e == q * (2 * d) + (2 * part + e)
  {
  }

  /** Digits of a subsegment were printed and n of it, r, are left: the fraction decides. */
  lemma InsideDecision(s: nat, q: nat, r: nat, n: nat, t: nat, b: nat, low: nat, more: bool, f: nat, digits: nat, d: nat)
    requires 1 <= n <= 8 && t == Pow(10, n) && Fraction(f, t, r) && r < t
    requires b > 0 && low < b && d == t * b && d > 0 && s == Mixed(q, d, r, b, low)
    requires digits % 2 == q % 2
    ensures RoundHalfEven(2 * s + Sticky(more), 2 * d)
         == q + (if f >= THRESHOLDS[n - 1] || (f >= TWO_TO_31 && (digits % 2 != 0 || low != 0 || more)) then 1 else 0)
  {
    HalfTests(f, n, r);
    hide Pow, Fraction, RoundHalfEven, Mixed;
    var half := t / 2;
    Rescaled(half, b);
    RoundingDecision(s, q, half, b, r, low, more, d);
  }

  lemma Rescaled(half: int, b: int)
    ensures (2 * half) * b == 2 * (half * b)
  {
  }

  lemma Recombined(s: int, base: int, sub: int, q: int, r: int, t: int, b: int, low: int)
    requires sub == t * q + r && s == (base * t + sub) * b + low
    ensures s == Mixed(base + q, t * b, r, b, low)
  {
    assert base * t + (t * q + r) == (base + q) * t + r;
    Distribute(b, (base + q) * t, r);
    MulAssoc(base + q, t, b);
  }

  /** The digits end where a subsegment ends: what follows decides. */
  lemma BoundaryDecision(s: nat, q: nat, half: nat, low: nat, more: bool, digits: nat)
    requires half > 0 && low < 2 * half && s == q * (2 * half) + low && digits % 2 == q % 2
    ensures RoundHalfEven(2 * s + Sticky(more), 2 * (2 * half))
         == q + (if low > half || (low == half && (digits % 2 != 0 || more)) then 1 else 0)
  {
    RoundingDecision(s, q, half, 1, low, 0, more, 2 * half);
  }

  /** The number to print at a precision. */
  ghost function Rounded(segment: nat, more: bool, precision: nat): nat
    requires precision <= 19
  {
    PowPositive(10, 19 - precision);
    RoundHalfEven(2 * segment + Sticky(more), 2 * Pow(10, 19 - precision))
  }

  lemma Tens(precision: nat)
    requires 1 <= precision <= 18
    ensures precision <= 9 ==> Pow(10, 19 - precision) == Pow(10, 9 - precision) * TEN10
    ensures precision > 9 ==> Pow(10, 19 - precision) == Pow(10, 18 - precision) * 10
    ensures precision > 9 ==> Pow(10, precision - 9) * Pow(10, 18 - precision) == TEN9
    ensures precision > 9 ==> Pow(10, precision - 9) % 2 == 0
  {
    Pow10Values();
    if precision <= 9 {
      PowAdd(10, 9 - precision, 10);
    } else {
      PowAdd(10, precision - 9, 18 - precision);
      assert Pow(10, precision - 9) == 10 * Pow(10, precision - 10);
    }
  }

  /** A subsegment after an even number base, before a rest below b. */
  lemma SubsegmentInside(segment: nat, base: nat, sub: nat, n: nat, b: nat, low: nat, more: bool, f: nat, digits: nat)
    requires 1 <= n <= 8 && Pow(10, n) > 0 && Fraction(f, Pow(10, n), sub % Pow(10, n)) && base % 2 == 0
    requires b > 0 && low < b && segment == (base * Pow(10, n) + sub) * b + low
    requires digits % 2 == (sub / Pow(10, n)) % 2
    ensures RoundHalfEven(2 * segment + Sticky(more), 2 * (Pow(10, n) * b))
         == base + sub / Pow(10, n)
            + (if f >= THRESHOLDS[n - 1] || (f >= TWO_TO_31 && (digits % 2 != 0 || low != 0 || more)) then 1 else 0)
  {
    hide Pow, Fraction, RoundHalfEven, Mixed;
    var t := Pow(10, n);
    var q, r := sub / t, sub % t;
    QuotientNonnegative(sub, t);
    MulPositive(t, b);
    Recombined(segment, base, sub, q, r, t, b, low);
    InsideDecision(segment, base + q, r, n, t, b, low, more, f, digits, t * b);
  }

  lemma FirstDecides(segment: nat, first: nat, rest: nat, more: bool, k: nat, text: string, prod: nat, digits: nat)
    requires 1 <= k <= 9 && segment == first * TEN10 + rest && rest < TEN10
    requires Printed(text, k, first, prod, digits)
    ensures k < 9 ==>
              var f := prod % TWO_TO_32;
              Rounded(segment, more, k) == Decimal(text)
                + (if f >= THRESHOLDS[8 - k] || (f >= TWO_TO_31 && (digits % 2 != 0 || rest != 0 || more)) then 1 else 0)
    ensures k == 9 ==>
              Rounded(segment, more, k) == Decimal(text)
                + (if rest > 5000000000 || (rest == 5000000000 && (digits % 2 != 0 || more)) then 1 else 0)
  {
    Tens(k);
    Pow10Values();
    hide Pow, RoundHalfEven, Fraction;
    if k < 9 {
      SubsegmentInside(segment, 0, first, 9 - k, TEN10, rest, more, prod % TWO_TO_32, digits);
    } else {
      BoundaryDecision(segment, first, 5000000000, rest, more, digits);
    }
  }

  lemma SecondDecides(segment: nat, first: nat, second: nat, third: nat, more: bool, k: nat,
                      text1: string, text: string, prod: nat, digits: nat)
    requires 1 <= k <= 9 && segment == (first * TEN9 + second) * 10 + third && third < 10
    requires AllDigits(text1) && Decimal(text1) == first && Printed(text, k, second, prod, digits)
    ensures AllDigits(text1 + text)
    ensures k < 9 ==>
              var f := prod % TWO_TO_32;
              Rounded(segment, more, k + 9) == Decimal(text1 + text)
                + (if f >= THRESHOLDS[8 - k] || (f >= TWO_TO_31 && (digits % 2 != 0 || third != 0 || more)) then 1 else 0)
    ensures k == 9 ==>
              Rounded(segment, more, k + 9) == Decimal(text1 + text)
                + (if third > 5 || (third == 5 && (digits % 2 != 0 || more)) then 1 else 0)
  {
    Tens(k + 9);
    SecondText(first, second, k, text1, text, prod, digits);
    assert k == 9 ==> Pow(10, 9 - k) == 1 && Pow(10, 19 - (k + 9)) == 10;
    hide Pow, RoundHalfEven, Fraction, Decimal, AllDigits, AlmostDigits, Printed;
    if k < 9 {
      SecondInner(segment, first, second, third, more, k, Decimal(text1 + text), prod % TWO_TO_32, digits);
    } else {
      SecondAtEnd(segment, first, second, third, more, Decimal(text1 + text), digits);
    }
  }

  lemma SecondText(first: nat, second: nat, k: nat, text1: string, text: string, prod: nat, digits: nat)
    requires 1 <= k <= 9 && AllDigits(text1) && Decimal(text1) == first && Printed(text, k, second, prod, digits)
    ensures var t := Pow(10, 9 - k);
            && t > 0 && AllDigits(text1 + text) && Decimal(text1 + text) == first * Pow(10, k) + second / t
            && digits % 2 == (second / t) % 2 && Fraction(prod % TWO_TO_32, t, second % t)
  {
    hide Fraction;
    DecimalConcat(text1, text);
  }

  lemma SecondInner(segment: nat, first: nat, second: nat, third: nat, more: bool, k: nat,
                    value: nat, f: nat, digits: nat)
    requires 1 <= k < 9 && segment == (first * TEN9 + second) * 10 + third && third < 10
    requires Pow(10, 9 - k) > 0 && Pow(10, k) * Pow(10, 9 - k) == TEN9 && Pow(10, k) % 2 == 0
    requires value == first * Pow(10, k) + second / Pow(10, 9 - k) && digits % 2 == (second / Pow(10, 9 - k)) % 2
    requires Fraction(f, Pow(10, 9 - k), second % Pow(10, 9 - k))
    ensures RoundHalfEven(2 * segment + Sticky(more), 2 * (Pow(10, 9 - k) * 10)) == value
            + (if f >= THRESHOLDS[8 - k] || (f >= TWO_TO_31 && (digits % 2 != 0 || third != 0 || more)) then 1 else 0)
  {
    hide Pow, RoundHalfEven, Fraction;
    var base := SecondBase(first, Pow(10, k), Pow(10, 9 - k));
    SubsegmentInside(segment, base, second, 9 - k, 10, third, more, f, digits);
  }

  lemma SecondAtEnd(segment: nat, first: nat, second: nat, third: nat, more: bool, value: nat, digits: nat)
    requires segment == (first * TEN9 + second) * 10 + third && third < 10
    requires value == first * Pow(10, 9) + second && digits % 2 == second % 2
    ensures RoundHalfEven(2 * segment + Sticky(more), 2 * 10) == value
            + (if third > 5 || (third == 5 && (digits % 2 != 0 || more)) then 1 else 0)
  {
    Pow10Values();
    hide Pow, RoundHalfEven;
    BoundaryDecision(segment, first * TEN9 + second, 5, third, more, digits);
  }

  lemma SecondBase(first: nat, p: nat, t: nat) returns (base: nat)
    requires p * t == TEN9 && p % 2 == 0
    ensures base == first * p && base % 2 == 0 && base * t == first * TEN9
  {
    base := EvenProduct(first, p);
    MulAssoc(first, p, t);
  }

  lemma EvenProduct(x: nat, y: nat) returns (product: nat)
    requires y % 2 == 0
    ensures product == x * y && product % 2 == 0
  {
    MulLe(0, x, y);
    product := x * y;
    var h := y / 2;
    assert x * y == 2 * (x * h);
  }

  // ---------------------------------------------------------------- the whole segment

  /** The first `precision` digits, and whether to round them up. */
  method PrintSegments(segment: nat, more: bool, precision: nat, buf: array<char>)
    returns (roundUp: bool, ghost text: string)
    requires segment < TEN19 && 1 <= precision <= 18 && precision <= buf.Length
    modifies buf
    ensures |text| == precision && AllDigits(text) && buf[..] == Overwritten(old(buf[..]), 0, text)
    ensures Rounded(segment, more, precision) == Decimal(text) + if roundUp then 1 else 0
  {
    hide Rounded, Fraction, Decimal, AllDigits, Pow, Overwritten;
    ghost var before := buf[..];
    FirstSubsegment(segment);
    var first := Upper64(segment, 7922816251426433760) / TWO_TO_32;
    var rest := segment - first * TEN10;
    var prod, digits;
    prod, digits, text := PrintSubsegment(first, if precision > 9 then 9 else precision, buf, 0);
    if precision <= 9 {
      FirstDecides(segment, first, rest, more, precision, text, prod, digits);
      if precision < 9 {
        var fraction := prod % TWO_TO_32;
        roundUp := fraction >= THRESHOLDS[8 - precision]
                   || (fraction >= TWO_TO_31 && (digits % 2 != 0 || rest != 0 || more));
      } else {
        roundUp := rest > 5000000000 || (rest == 5000000000 && (digits % 2 != 0 || more));
      }
    } else {
      SecondSubsegment(rest);
      NinePrinted(text, first, prod, digits);
      var second := Upper64(rest, 1844674407370955162);
      var third := (rest - second * 10) % TWO_TO_32;
      ghost var text1 := text;
      prod, digits, text := PrintSubsegment(second, precision - 9, buf, 9);
      SecondDecides(segment, first, second, third, more, precision - 9, text1, text, prod, digits);
      OverwrittenTwice(before, text1, text);
      text := text1 + text;
      if precision < 18 {
        var fraction := prod % TWO_TO_32;
        roundUp := fraction >= THRESHOLDS[17 - precision]
                   || (fraction >= TWO_TO_31 && (digits % 2 != 0 || third != 0 || more));
      } else {
        roundUp := third > 5 || (third == 5 && (digits % 2 != 0 || more));
      }
    }
  }

  lemma NinePrinted(text: string, first: nat, prod: nat, digits: nat)
    requires Printed(text, 9, first, prod, digits)
    ensures AllDigits(text) && Decimal(text) == first
  {
    Pow10Values();
  }

  lemma OverwrittenTwice(before: string, a: string, b: string)
    requires |a| + |b| <= |before|
    ensures Overwritten(Overwritten(before, 0, a), |a|, b) == Overwritten(before, 0, a + b)
  {
  }

  /** One pass of the carry loop. */
  method CarryOnce(buf: array<char>, i: nat, precision: nat, ghost value: nat)
    requires 0 < i < precision <= buf.Length && Carrying(buf[..precision], i, value) && buf[i] > '9'
    modifies buf
    ensures Carrying(buf[..precision], i - 1, value) && buf[precision..] == old(buf[precision..])
  {
    hide Carrying;
    ghost var s := buf[..precision];
    CarryStep(s, i, value);
    buf[i] := '0';
    buf[i - 1] := (buf[i - 1] as int + 1) as char;
    assert buf[..precision] == s[i := '0'][i - 1 := (s[i - 1] as int + 1) as char];
  }

  /** Adding one to the digits in place, through the nines; true when even the first one overflows. */
  method RoundUp(buf: array<char>, precision: nat) returns (overflow: bool)
    requires 1 <= precision <= buf.Length && AllDigits(buf[..precision])
    modifies buf
    ensures AllDigits(buf[..precision]) && buf[precision..] == old(buf[precision..])
    ensures overflow ==> Decimal(old(buf[..precision])) + 1 == Pow(10, precision)
                         && Decimal(buf[..precision]) == Pow(10, precision - 1)
    ensures !overflow ==> Decimal(buf[..precision]) == Decimal(old(buf[..precision])) + 1
  {
    ghost var before := buf[..precision];
    assert IsDigit(before[precision - 1]);
    hide Carrying, Decimal, Pow;
    ghost var after := StartsCarrying(before);
    buf[precision - 1] := (buf[precision - 1] as int + 1) as char;
    assert buf[..precision] == after;
    var i := precision - 1;
    while i > 0 && buf[i] > '9'
      invariant 0 <= i < precision && buf[precision..] == old(buf[precision..])
      invariant Carrying(buf[..precision], i, Decimal(before) + 1)
    {
      CarryOnce(buf, i, precision, Decimal(before) + 1);
      i := i - 1;
    }
    ghost var s := buf[..precision];
    overflow := buf[0] > '9';
    CarryEnds(s, i, Decimal(before) + 1);
    if overflow {
      buf[0] := '1';
      assert buf[..precision] == s[0 := '1'];
    }
  }

  /** The carry is at position i: digits before it, zeros after it. */
  ghost predicate Carrying(s: string, i: nat, value: nat) {
    && i < |s| && AllDigits(s[..i]) && '0' <= s[i] <= ':' && (forall j :: i < j < |s| ==> s[j] == '0')
    && AlmostDigits(s) && Decimal(s) == value
    && (s[i] == ':' || AllDigits(s))
  }

  lemma IncrementedValue(s: string) returns (t: string)
    requires s != "" && AllDigits(s)
    ensures IsDigit(s[|s| - 1]) && |t| == |s| && '0' <= t[|t| - 1] <= ':'
    ensures t == s[|s| - 1 := (s[|s| - 1] as int + 1) as char]
    ensures AlmostDigits(t) && Decimal(t) == Decimal(s) + 1
    ensures AllDigits(t[..|t| - 1]) && (t[|t| - 1] == ':' || AllDigits(t))
  {
    hide Decimal;
    var p, digit := s[..|s| - 1], s[|s| - 1] as int - '0' as int;
    assert IsDigit(s[|s| - 1]);
    DecimalAppend(p, digit);
    DecimalAppend(p, digit + 1);
    t := p + [DigitChar(digit + 1)];
    assert t[..|t| - 1] == p;
    assert s == p + [DigitChar(digit)];
  }

  lemma StartsCarrying(s: string) returns (t: string)
    requires s != "" && AllDigits(s)
    ensures IsDigit(s[|s| - 1]) && t == s[|s| - 1 := (s[|s| - 1] as int + 1) as char]
    ensures Carrying(t, |s| - 1, Decimal(s) + 1)
  {
    hide Decimal, IsDigit, AllDigits, AlmostDigits;
    t := IncrementedValue(s);
  }

  lemma CarryStep(s: string, i: nat, value: nat)
    requires Carrying(s, i, value) && i > 0 && s[i] > '9'
    ensures IsDigit(s[i - 1])
    ensures Carrying(s[i := '0'][i - 1 := (s[i - 1] as int + 1) as char], i - 1, value)
  {
    assert IsDigit(s[..i][i - 1]);
    var t := s[i := '0'][i - 1 := (s[i - 1] as int + 1) as char];
    CarryLeft(s, i);
    hide Decimal;
    assert t[..i - 1] == s[..i][..i - 1];
    forall j | 0 <= j < i - 1 ensures IsDigit(s[j]) { assert IsDigit(s[..i][j]); }
  }

  lemma CarryEnds(s: string, i: nat, value: nat)
    requires Carrying(s, i, value) && (i == 0 || s[i] <= '9')
    ensures s[0] > '9' ==> value == Pow(10, |s|) && AllDigits(s[0 := '1']) && Decimal(s[0 := '1']) == Pow(10, |s| - 1)
    ensures s[0] <= '9' ==> AllDigits(s) && Decimal(s) == value
  {
    assert i > 0 ==> IsDigit(s[..i][0]);
    if s[0] > '9' {
      LeadingOnly(s);
      LeadingOnly(s[0 := '1']);
    }
  }

  /**
    The digits of the segment at a precision below its own, written to the buffer; `bump` is what
    rounding adds to the decimal exponent.
  */
  method FormatFirstSegment(buf: array<char>, segment: nat, more: bool, precision: int, fixed: bool)
    returns (size: nat, bump: nat)
    requires segment < TEN19 && precision <= 18 && buf.Length >= 19
    modifies buf
    ensures size <= buf.Length && AllDigits(buf[..size]) && buf[size..] == old(buf[size..])
    ensures precision < 0 ==> size == 0 && bump == 0
    ensures precision >= 0 ==> Decimal(buf[..size]) * Pow(10, bump) == Rounded(segment, more, precision)
    ensures precision == 0 ==> size == 1 && bump == 0
    ensures precision > 0 ==>
              var overflow := Rounded(segment, more, precision) == Pow(10, precision);
              && size == precision + (if fixed && overflow then 1 else 0)
              && bump == if overflow && !fixed then 1 else 0
  {
    if precision < 0 { return 0, 0; }
    if precision == 0 {
      // segment | has_more_segments
      var sticky := if more && segment % 2 == 0 then segment + 1 else segment;
      buf[0] := if sticky > 5000000000000000000 then '1' else '0';
      NoDigits(segment, more);
      assert buf[..1] == [buf[0]] && [buf[0]][..0] == "";
      return 1, 0;
    }
    size, bump := RoundSegments(buf, segment, more, precision, fixed);
  }

  method RoundSegments(buf: array<char>, segment: nat, more: bool, precision: nat, fixed: bool)
    returns (size: nat, bump: nat)
    requires segment < TEN19 && 1 <= precision <= 18 && buf.Length >= 19
    modifies buf
    ensures size <= buf.Length && AllDigits(buf[..size]) && buf[size..] == old(buf[size..])
    ensures Decimal(buf[..size]) * Pow(10, bump) == Rounded(segment, more, precision)
    ensures var overflow := Rounded(segment, more, precision) == Pow(10, precision);
            && size == precision + (if fixed && overflow then 1 else 0)
            && bump == if overflow && !fixed then 1 else 0
  {
    hide Rounded, Decimal;
    PowOneAndTen();
    assert Pow(10, precision) == 10 * Pow(10, precision - 1);
    hide Pow;
    var roundUp;
    ghost var text;
    roundUp, text := PrintSegments(segment, more, precision, buf);
    assert buf[..precision] == text;
    size, bump := precision, 0;
    DecimalBound(text);
    if roundUp {
      var overflow := RoundUp(buf, precision);
      if overflow {
        if fixed {
          ghost var digits := buf[..precision];
          buf[precision] := '0';
          assert buf[..precision] == digits;
          ZeroAppended(buf, precision);
          size := precision + 1;
        } else {
          bump := 1;
        }
      } else {
        DecimalBound(buf[..precision]);
      }
    }
  }

  lemma ZeroAppended(buf: array<char>, n: nat)
    requires n < buf.Length && AllDigits(buf[..n]) && buf[n] == '0'
    ensures AllDigits(buf[..n + 1]) && Decimal(buf[..n + 1]) == 10 * Decimal(buf[..n])
  {
    DecimalAppend(buf[..n], 0);
    assert buf[..n + 1] == buf[..n] + [DigitChar(0)];
  }

  lemma PowOneAndTen()
    ensures Pow(10, 0) == 1 && Pow(10, 1) == 10
  {
  }

  lemma NoDigits(segment: nat, more: bool)
    requires segment < TEN19
    ensures Rounded(segment, more, 0)
         == if (if more && segment % 2 == 0 then segment + 1 else segment) > 5000000000000000000 then 1 else 0
  {
    Pow10Values();
    PowAdd(10, 9, 10);
    assert Pow(10, 19) == TEN19;
  }

  /**
    A number a / b of which only its segment, a multiple of the unit, and whether anything follows
    are known: rounding what is known rounds the number itself to the nearest, ties to even.
  */
  lemma RoundingIsExact(segment: nat, unit: nat, more: bool, half: nat, tens: nat, a: nat, b: nat)
    requires b > 0 && (unit == 1 || unit == 10) && segment % unit == 0
    requires tens == 2 * half && half > 0 && half % unit == 0
    requires if more then segment * b < a < (segment + unit) * b else a == segment * b
    ensures b * tens > 0
    ensures RoundHalfEven(a, b * tens) == RoundHalfEven(2 * segment + Sticky(more), 2 * tens)
  {
    MulPositive(b, tens);
    var q, r := segment / tens, segment % tens;
    QuotientNonnegative(segment, tens);
    UnitsOnly(segment, unit, half, tens, q, r);
    var e := Sticky(more);
    hide RoundHalfEven;
    assert RoundHalfEven(2 * segment + e, 2 * tens) == (if RoundsUp(2 * r + e, 2 * half, q) then q + 1 else q) by {
      DoubledMixed(q, tens, r, e);
      RoundHalfEvenFrom(2 * segment + e, 2 * tens, q, 2 * r + e);
    }
    var part := ExactPart(segment, unit, q, r, tens, a, b, more);
    ExactTies(r, unit, half, b, part, more);
    assert RoundHalfEven(a, b * tens) == (if RoundsUp(part, half * b, q) then q + 1 else q) by {
      Rescaled(half, b);
      RoundHalfEvenFrom(a, b * tens, q, part);
    }
  }

  predicate RoundsUp(part: int, half: int, q: int) {
    part > half || (part == half && q % 2 != 0)
  }

  lemma UnitsOnly(segment: nat, unit: nat, half: nat, tens: nat, q: nat, r: nat)
    requires (unit == 1 || unit == 10) && segment % unit == 0 && half % unit == 0 && tens == 2 * half
    requires segment == tens * q + r && r < tens
    ensures r % unit == 0 && r + unit <= tens && (r < half ==> r + unit <= half)
  {
    if unit == 10 {
      var h := half / 10;
      assert tens * q == 10 * (2 * h * q);
      assert r == 10 * (segment / 10 - 2 * h * q);
    }
  }

  lemma ExactPart(segment: nat, unit: nat, q: nat, r: nat, tens: nat, a: nat, b: nat, more: bool) returns (part: nat)
    requires b > 0 && unit > 0 && segment == tens * q + r && r + unit <= tens
    requires if more then segment * b < a < (segment + unit) * b else a == segment * b
    ensures a == q * (b * tens) + part && part < b * tens
    ensures if more then r * b < part < (r + unit) * b else part == r * b
  {
    MulSum(tens * q, r, b);
    MulSum(segment, unit, b);
    MulSum(r, unit, b);
    assert (tens * q) * b == q * (b * tens);
    MulLe(0, r, b);
    MulLe(r + unit, tens, b);
    assert tens * b == b * tens;
    part := a - q * (b * tens);
    if !more { MulLt(r, tens, b); }
  }

  lemma ExactTies(r: nat, unit: nat, half: nat, b: nat, part: nat, more: bool)
    requires b > 0 && (r < half ==> r + unit <= half)
    requires if more then r * b < part < (r + unit) * b else part == r * b
    ensures part > half * b <==> 2 * r + Sticky(more) > 2 * half
    ensures part == half * b <==> 2 * r + Sticky(more) == 2 * half
  {
    if r < half {
      MulLt(r, half, b);
      MulLe(r + unit, half, b);
    } else if r > half {
      MulLt(half, r, b);
    }
  }
}
