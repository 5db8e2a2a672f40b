/** Numbers for which format_dragon does not do what it seems to promise, with what it yields. */
module DragonExamples {
  import opened Powers
  import opened Limbs
  import opened Bigints
  import opened Digits
  import opened DragonMath
  import opened Dragon
  import opened FormatDragon
  import opened DragonEstimate

  // ---------------------------------------------------------------- recognising the shortest form

  /** One division at the last position of t, and one at the position before, identify t. */
  lemma Identified(x: Window, t: string, done: nat, r: nat, before: nat, lowTest: bool, highTest: bool,
                   lowClosed: bool, upClosed: bool)
    requires x.Valid() && |t| > 1 && AllDigits(t) && x.num - x.low >= x.den
    requires x.Splits(|t| - 1, done, r) && r < x.den
    requires lowTest <==> r < x.low * Pow(10, |t| - 1) || (r == x.low * Pow(10, |t| - 1) && lowClosed)
    requires highTest <==> Reaches(r, x.up * Pow(10, |t| - 1), x.den, upClosed)
    requires lowTest || highTest
    requires Decimal(t) == Choice(done, r, x.den, done % 2 != 0, lowTest, highTest) >= Pow(10, |t| - 1)
    requires !x.AboveLower(before, |t| - 2, lowClosed) && !x.BelowUpper(before + 1, |t| - 2, upClosed)
    ensures x.IsShortest(t, lowClosed, upClosed)
  {
    var i := |t| - 1;
    PowPositive(10, i);
    MulPositive(x.low, Pow(10, i));
    MulPositive(x.up, Pow(10, i));
    var low: nat, up: nat := x.low * Pow(10, i), x.up * Pow(10, i);
    hide Pow, Decimal, Window.NoHit, Window.Inside, Window.NoneCloser, Window.Splits, Window.AboveLower, Window.BelowUpper;
    DigitTests(x, i, done, r, low, up, lowClosed);
    DigitTests(x, i, done, r, low, up, upClosed);
    ChoiceIsBest(x, i, done, r, low, up, done % 2 != 0, lowTest, highTest, lowClosed, upClosed);
    NeitherInside(x, i - 1, before, lowClosed, upClosed);
    forall j: nat | j < i ensures x.NoHit(j, lowClosed, upClosed) {
      NoneCoarser(x, j, i - 1, lowClosed, upClosed);
    }
  }

  /** Seven digits read as a number. */
  lemma SevenDigits(s: string)
    requires AllDigits(s) && |s| == 7
    ensures Decimal(s) == 1000000 * DigitValue(s[0]) + 100000 * DigitValue(s[1]) + 10000 * DigitValue(s[2])
                          + 1000 * DigitValue(s[3]) + 100 * DigitValue(s[4]) + 10 * DigitValue(s[5]) + DigitValue(s[6])
  {
    assert s[..7] == s && Decimal(s[..0]) == 0;
    hide Decimal;
    NextPrefix(s, 0);
    NextPrefix(s, 1);
    NextPrefix(s, 2);
    NextPrefix(s, 3);
    NextPrefix(s, 4);
    NextPrefix(s, 5);
    NextPrefix(s, 6);
  }

  /** Seven more digits behind a number. */
  lemma SevenMore(s: string, t: string)
    requires AllDigits(s) && AllDigits(t) && |t| == 7
    ensures AllDigits(s + t) && Decimal(s + t) == 10000000 * Decimal(s) + Decimal(t)
  {
    Pow10Values();
    hide Pow, Decimal;
    DecimalConcat(s, t);
  }

  lemma NextPrefix(s: string, i: nat)
    requires AllDigits(s) && i < |s|
    ensures Decimal(s[..i + 1]) == 10 * Decimal(s[..i]) + DigitValue(s[i])
  {
    assert s[..i + 1][..i] == s[..i];
  }

  lemma PowersOfTwo()
    ensures Pow(2, 1) == 2 && Pow(2, 31) == 0x8000_0000 && Pow(2, 32) == 0x1_0000_0000
    ensures Pow(2, 24) == 0x100_0000 && Pow(2, 25) == 0x200_0000 && Pow(2, 30) == 0x4000_0000
    ensures Pow(2, 63) == 0x8000_0000_0000_0000
    ensures Pow(2, 64) == 0x1_0000_0000_0000_0000 && Pow(2, 65) == 0x2_0000_0000_0000_0000
    ensures Pow(2, 104) == 0x100_0000_0000_0000_0000_0000_0000
  {
    assert Pow(2, 8) == 256 && Pow(2, 1) == 2;
    hide Pow;
    PowAdd(2, 8, 8);
    PowAdd(2, 16, 8);
    PowAdd(2, 24, 1);
    PowAdd(2, 16, 16);
    PowAdd(2, 31, 1);
    PowAdd(2, 30, 1);
    PowAdd(2, 32, 32);
    PowAdd(2, 63, 1);
    PowAdd(2, 64, 1);
    PowAdd(2, 64, 32);
    PowAdd(2, 96, 8);
  }

  lemma PowersOfTen()
    ensures Pow(10, 22) == 10_000_000_000_000_000_000_000 && Pow(10, 24) == 1_000_000_000_000_000_000_000_000
    ensures Pow(10, 25) == 10_000_000_000_000_000_000_000_000 && Pow(10, 28) == 10_000_000_000_000_000_000_000_000_000
    ensures Pow(10, 12) == 1_000_000_000_000 && Pow(10, 13) == 10_000_000_000_000
    ensures Pow(10, 15) == 1_000_000_000_000_000 && Pow(10, 16) == 10_000_000_000_000_000
    ensures Pow(10, 19) == 10_000_000_000_000_000_000 && Pow(10, 20) == 100_000_000_000_000_000_000
    ensures Pow(10, 31) == 10_000_000_000_000_000_000_000_000_000_000
    ensures Pow(10, 35) == 100_000_000_000_000_000_000_000_000_000_000_000
    ensures Pow(10, 43) == 10_000_000_000_000_000_000_000_000_000_000_000_000_000_000
    ensures Pow(10, 44) == 100_000_000_000_000_000_000_000_000_000_000_000_000_000_000
  {
    Pow10Values();
    hide Pow;
    PowAdd(10, 20, 2);
    PowAdd(10, 20, 4);
    PowAdd(10, 20, 5);
    PowAdd(10, 20, 8);
    PowAdd(10, 10, 2);
    PowAdd(10, 10, 3);
    PowAdd(10, 10, 5);
    PowAdd(10, 10, 6);
    PowAdd(10, 10, 9);
    PowAdd(10, 10, 10);
    PowAdd(10, 16, 15);
    PowAdd(10, 20, 15);
    PowAdd(10, 31, 12);
    PowAdd(10, 31, 13);
  }

  /** The exponent is what format_float estimates, even without any rounding error. */
  lemma Estimated(input: Input, digits: nat)
    requires -28000 <= input.e <= 28000 && BinaryDigits(input.f, digits) && digits <= 128
    requires var argument := (input.e + digits - 1) as real * INVERSE_LOG - 0.0000000001;
             input.exp10 as real - 1.0 < argument <= input.exp10 as real
    ensures FromFormatFloat(input)
  {
    var argument := (input.e + digits - 1) as real * INVERSE_LOG - 0.0000000001;
    assert Computed(argument, input.e + digits - 1);
    hide BinaryDigits;
  }

  // ---------------------------------------------------------------- a boundary that should not count

  /**
    An odd significand of 113 bits, so neither boundary belongs to the interval. The remainder has
    more zero digits than `lower`, and an equal one counts as smaller: what is printed is the lower
    boundary, half way to the even neighbour below.
  */
  method LowerNeighbour() returns (outcome: Outcome)
    ensures outcome == Digits("12345678901233", 30)
    ensures var input := Input(5748904729836154729127883911132813, 31, false, 44);
            var y := FinalWindow(input, true);
            && FromFormatFloat(input) && Normalised128(input) && input.Valid() && GoodEstimate(input, true)
            && !input.Even() && input.LowClosed() && FinalExp(input, true) == 43 && y.Multiple(12345678901233) == y.Lower(13)
            && !y.IsShortest("12345678901233", false, false)
  {
    var input := Input(5748904729836154729127883911132813, 31, false, 44);
    ghost var y := FinalWindow(input, true);
    NeighbourNumbers(input);
    LargeTwos();
    Estimated(input, 113);
    outcome := FormatDragon.FormatDragon(input, true, false, -1);
    NeighbourIdentified(y);
    OneShortestString(y, outcome.buf, "12345678901233", true, false);
  }

  lemma NeighbourNumbers(input: Input)
    requires input == Input(5748904729836154729127883911132813, 31, false, 44)
    ensures input.Valid() && GoodEstimate(input, true) && !input.Even() && input.LowClosed() && input.RemainderExp() == 1
    ensures FinalWindow(input, true) == Window(246913578024660000000000000000000021474836480,
              200000000000000000000000000000000000000000000, 21474836480, 21474836480)
    ensures FinalExp(input, true) == 43
  {
    PowersOfTwo();
    PowersOfTen();
  }

  lemma NeighbourText()
    ensures Decimal("12345678901233") == 12345678901233
  {
    hide Decimal;
    SevenDigits("1234567");
    SevenDigits("8901233");
    SevenMore("1234567", "8901233");
    assert "12345678901233" == "1234567" + "8901233";
  }

  lemma NeighbourIdentified(y: Window)
    requires y == Window(246913578024660000000000000000000021474836480,
                         200000000000000000000000000000000000000000000, 21474836480, 21474836480)
    ensures y.IsShortest("12345678901233", true, false) && y.Multiple(12345678901233) == y.Lower(13)
    ensures !y.IsShortest("12345678901233", false, false)
  {
    var t := "12345678901233";
    PowersOfTen();
    NeighbourText();
    hide Pow, Decimal;
    Identified(y, t, 12345678901233, 214748364800000000000000, 1234567890123, true, false, true, false);
  }

  // ---------------------------------------------------------------- a boundary that should count

  /**
    An even double-precision significand, so the boundaries belong to the interval, and the lower
    one has 14 digits. `lower` has more zero digits than the remainder, an equal one is not seen,
    and 17 digits are printed.
  */
  method LowerBoundaryMissed() returns (outcome: Outcome)
    ensures outcome == Digits("15393162788864001", 19)
    ensures var input := Input(8344650268554688, 64, false, 35);
            var y := FinalWindow(input, false);
            && input.Valid() && GoodEstimate(input, false) && input.Even() && !input.LowClosed() && input.Roomy()
            && FinalExp(input, false) == 35 && y.Inside(15393162788864, 13, true, true)
            && !y.IsShortest("15393162788864001", true, true)
  {
    var input := Input(8344650268554688, 64, false, 35);
    ghost var y := FinalWindow(input, false);
    BoundaryNumbers(input);
    outcome := FormatDragon.FormatDragon(input, false, false, -1);
    BoundaryIdentified(y);
    OneShortestString(y, outcome.buf, "15393162788864001", false, true);
  }

  lemma BoundaryNumbers(input: Input)
    requires input == Input(8344650268554688, 64, false, 35)
    ensures input.Valid() && GoodEstimate(input, false) && input.Even() && !input.LowClosed() && input.RemainderExp() == 1
    ensures FinalWindow(input, false) == Window(307863255777280018446744073709551616,
              200000000000000000000000000000000000, 18446744073709551616, 18446744073709551616)
    ensures FinalExp(input, false) == 35
  {
    PowersOfTwo();
    PowersOfTen();
  }

  lemma BoundaryText()
    ensures Decimal("15393162788864001") == 15393162788864001
  {
    ThreeDigits("153");
    hide Decimal;
    SevenDigits("9316278");
    SevenDigits("8864001");
    SevenMore("153", "9316278");
    SevenMore("153" + "9316278", "8864001");
    assert "15393162788864001" == "153" + "9316278" + "8864001";
  }

  lemma ThreeDigits(s: string)
    requires AllDigits(s) && |s| == 3
    ensures Decimal(s) == 100 * DigitValue(s[0]) + 10 * DigitValue(s[1]) + DigitValue(s[2])
  {
    assert s[..3] == s && Decimal(s[..0]) == 0;
    hide Decimal;
    NextPrefix(s, 0);
    NextPrefix(s, 1);
    NextPrefix(s, 2);
  }

  lemma BoundaryIdentified(y: Window)
    requires y == Window(307863255777280018446744073709551616,
                         200000000000000000000000000000000000, 18446744073709551616, 18446744073709551616)
    ensures y.IsShortest("15393162788864001", false, true) && y.Inside(15393162788864, 13, true, true)
    ensures !y.IsShortest("15393162788864001", true, true)
  {
    var t := "15393162788864001";
    PowersOfTen();
    BoundaryText();
    hide Pow, Decimal;
    Identified(y, t, 15393162788864000, 184467440737095516160000000000000000, 1539316278886400, false, true, false, true);
    assert y.Inside(15393162788864, 13, true, true);
    assert !y.NoHit(13, true, true);
  }

  // ---------------------------------------------------------------- a zero that is not seen

  /** Exactly 2 * 10^43, with a zero remainder whose digit exponent exceeds the digits of `lower`. */
  method SuperfluousDigit() returns (outcome: Outcome)
    ensures outcome == Digits("20", 42)
    ensures var input := Input(9313225746154785156250000000000000, 31, false, 43);
            && input.Valid() && GoodEstimate(input, false) && FinalWindow(input, false).Valid()
            && ZeroMissed(input, FinalWindow(input, false))
            && !FinalWindow(input, false).IsShortest("20", input.Even(), input.Even())
  {
    var input := Input(9313225746154785156250000000000000, 31, false, 43);
    ghost var y := FinalWindow(input, false);
    DigitNumbers(input);
    outcome := FormatDragon.FormatDragon(input, false, false, -1);
    assert DigitValue(outcome.buf[0]) == 2;
    assert outcome.buf == "20";
    NotShortest(y, "20", input.Even(), input.Even());
  }

  lemma DigitNumbers(input: Input)
    requires input == Input(9313225746154785156250000000000000, 31, false, 43)
    ensures input.Valid() && GoodEstimate(input, false) && input.RemainderExp() == 1
    ensures FinalWindow(input, false) == Window(40000000000000000000000000000000000000000000,
              20000000000000000000000000000000000000000000, 2147483648, 2147483648)
    ensures FinalExp(input, false) == 43
    ensures ZeroMissed(input, FinalWindow(input, false))
  {
    PowersOfTwo();
    PowersOfTen();
    assert Pow(BASE, 1) == BASE * Pow(BASE, 0);
  }

  // ---------------------------------------------------------------- a one that is not seen

  /** Exactly 10^31, stored with a bigger digit exponent than the denominator: not even digits come out. */
  method BrokenDigits() returns (outcome: Outcome)
    ensures outcome == Digits("0:0", 29)
    ensures var input := Input(4656612873077392578125, 31, false, 31);
            input.Valid() && GoodEstimate(input, false) && OneMissed(input, FinalWindow(input, false))
  {
    var input := Input(4656612873077392578125, 31, false, 31);
    UnitNumbers(input);
    outcome := FormatDragon.FormatDragon(input, false, false, 3);
  }

  lemma UnitNumbers(input: Input)
    requires input == Input(4656612873077392578125, 31, false, 31)
    ensures input.Valid() && GoodEstimate(input, false) && OneMissed(input, FinalWindow(input, false))
    ensures FinalWindow(input, false).Valid() && WorkingWindow(input, false, 3) == FinalWindow(input, false)
    ensures FinalExp(input, false) == 31
  {
    PowersOfTwo();
    PowersOfTen();
  }

  // ---------------------------------------------------------------- a negative count of digits

  /**
    2^-40 with two digits behind the point, which is zero: the count of digits becomes -10, and
    21 digits come out.
  */
  method DigitsBeyondPrecision() returns (outcome: Outcome)
    ensures outcome == Digits("909494701772928237915", -33)
    ensures var input := Input(9223372036854775808, -103, false, -12);
            && FromFormatFloat(input) && input.Valid() && GoodEstimate(input, true)
            && RequestedDigits(input, true, true, 2) == -10
  {
    var input := Input(9223372036854775808, -103, false, -12);
    ghost var x := WorkingWindow(input, true, 2);
    BeyondNumbers(input);
    PowersOfTwo();
    Estimated(input, 64);
    outcome := FormatDragon.FormatDragon(input, true, true, 2);
    BeyondIdentified(x);
    OneShortestString(x, outcome.buf, "909494701772928237915", true, true);
  }

  lemma BeyondNumbers(input: Input)
    requires input == Input(9223372036854775808, -103, false, -12)
    ensures input.Valid() && GoodEstimate(input, true) && input.Even() && input.LowClosed() && input.RemainderExp() == 0
    ensures WorkingWindow(input, true, 2) == Window(184467440737095516160000000000000,
              20282409603651670423947251286016, 1000000000000, 1000000000000)
    ensures FinalExp(input, true) == -13
  {
    PowersOfTwo();
    PowersOfTen();
  }

  lemma BeyondText()
    ensures Decimal("909494701772928237915") == 909494701772928237915
  {
    hide Decimal;
    SevenDigits("9094947");
    SevenDigits("0177292");
    SevenDigits("8237915");
    SevenMore("9094947", "0177292");
    SevenMore("9094947" + "0177292", "8237915");
    assert "909494701772928237915" == "9094947" + "0177292" + "8237915";
  }

  lemma BeyondIdentified(x: Window)
    requires x == Window(184467440737095516160000000000000,
                         20282409603651670423947251286016, 1000000000000, 1000000000000)
    ensures x.IsShortest("909494701772928237915", true, true) && x.Valid() && x.ReachesOne(true)
    ensures !ZeroUnseen(x, 0)
  {
    var t := "909494701772928237915";
    PowersOfTen();
    BeyondText();
    assert Pow(BASE, 0) == 1;
    hide Pow, Decimal;
    Identified(x, t, 909494701772928237915, 792281625142643375935439503360, 90949470177292823791, true, true, true, true);
  }

  // ---------------------------------------------------------------- a nine that grows

  /**
    The double nearest to 10^23 is below it, and its upper boundary above. With the exponent 22 and
    no fixup the nine is incremented, and the character behind it comes out.
  */
  method CharacterBehindNine() returns (outcome: Outcome)
    ensures outcome == Digits(":", 22)
    ensures var input := Input(5960464477539062, 24, false, 22);
            && input.Valid() && GoodEstimate(input, false) && input.Roomy()
            && NineGrows(FinalWindow(input, false), input.LowClosed(), input.Even())
            && FinalWindow(input, false).num >= FinalWindow(input, false).den
  {
    var input := Input(5960464477539062, 24, false, 22);
    NineNumbers(input);
    outcome := FormatDragon.FormatDragon(input, false, false, -1);
  }

  /** The same number to 21 digits is right. */
  method TwentyOneDigits() returns (outcome: Outcome)
    ensures outcome == Digits("999999999999999916114", 2)
  {
    var input := Input(5960464477539062, 24, false, 22);
    ghost var y := FinalWindow(input, false);
    NineNumbers(input);
    outcome := FormatDragon.FormatDragon(input, false, false, 21);
    NineRounded(y, outcome.buf, outcome.exp10);
  }

  lemma NineRounded(y: Window, buf: string, lastExp: int)
    requires y == Window(199999999999999983222784, 20000000000000000000000, 16777216, 16777216)
    requires IsRounded(y, 21, 22, buf, lastExp)
    ensures buf == "999999999999999916114" && lastExp == 2
  {
    PowersOfTen();
    NineText();
    hide Pow, Decimal, RoundHalfEven;
    RoundHalfEvenFrom(y.num * Pow(10, 20), y.den, 999999999999999916113, 18400000000000000000000);
    RoundedIs(y, 21, 22, buf, lastExp, "999999999999999916114");
  }

  /** A rounded number with fewer than n + 1 digits is spelled by its n digits. */
  lemma RoundedIs(y: Window, n: nat, exp10: int, buf: string, lastExp: int, t: string)
    requires y.den > 0 && n > 0 && IsRounded(y, n, exp10, buf, lastExp)
    requires |t| == n && AllDigits(t) && RoundHalfEven(y.num * Pow(10, n - 1), y.den) == Decimal(t)
    ensures buf == t && lastExp == exp10 - (n - 1)
  {
    DecimalBound(t);
    if Decimal(buf) == Decimal(t) { DecimalInjective(buf, t); }
  }

  lemma NineNumbers(input: Input)
    requires input == Input(5960464477539062, 24, false, 22)
    ensures input.Valid() && GoodEstimate(input, false) && input.Even() && input.RemainderExp() == 0
    ensures FinalWindow(input, false) == Window(199999999999999983222784, 20000000000000000000000, 16777216, 16777216)
    ensures FinalWindow(input, false) == WorkingWindow(input, false, -1) == WorkingWindow(input, false, 21)
    ensures FinalExp(input, false) == 22
    ensures NineGrows(FinalWindow(input, false), input.LowClosed(), true) && !ZeroMissed(input, FinalWindow(input, false))
    ensures !OneMissed(input, FinalWindow(input, false))
  {
    PowersOfTwo();
    PowersOfTen();
    assert Pow(BASE, 0) == 1;
  }

  lemma NineText()
    ensures Decimal("999999999999999916114") == 999999999999999916114
  {
    hide Decimal;
    SevenDigits("9999999");
    SevenDigits("9999999");
    SevenDigits("9916114");
    SevenMore("9999999", "9999999");
    SevenMore("9999999" + "9999999", "9916114");
    assert "999999999999999916114" == "9999999" + "9999999" + "9916114";
  }

  // ---------------------------------------------------------------- a digit too few

  /**
    The 64-bit significand nearest to 10^28 is below it, and its upper boundary above. The fixup
    goes by the boundary, so the first of 25 digits is a zero.
  */
  method LeadingZeroDigit() returns (outcome: Outcome)
    ensures outcome == Digits("0999999999999999999973156", 4)
    ensures var input := Input(9313225746154785156, 30, false, 28);
            FromFormatFloat(input) && input.Valid() && GoodEstimate(input, true)
  {
    var input := Input(9313225746154785156, 30, false, 28);
    ghost var y := FinalWindow(input, true);
    LeadingNumbers(input);
    PowersOfTwo();
    Estimated(input, 64);
    outcome := FormatDragon.FormatDragon(input, true, false, 25);
    LeadingRounded(y, outcome.buf, outcome.exp10);
  }

  lemma LeadingRounded(y: Window, buf: string, lastExp: int)
    requires y == Window(19999999999999999999463129088, 20000000000000000000000000000, 1073741824, 1073741824)
    requires IsRounded(y, 25, 28, buf, lastExp)
    ensures buf == "0999999999999999999973156" && lastExp == 4
  {
    PowersOfTen();
    LeadingText();
    hide Pow, Decimal, RoundHalfEven;
    RoundHalfEvenFrom(y.num * Pow(10, 24), y.den, 999999999999999999973156, 9088000000000000000000000000);
    RoundedIs(y, 25, 28, buf, lastExp, "0999999999999999999973156");
  }

  lemma LeadingNumbers(input: Input)
    requires input == Input(9313225746154785156, 30, false, 28)
    ensures input.Valid() && GoodEstimate(input, true)
    ensures FinalWindow(input, true) == Window(19999999999999999999463129088, 20000000000000000000000000000, 1073741824, 1073741824)
    ensures FinalExp(input, true) == 28 && !OneMissed(input, FinalWindow(input, true))
  {
    PowersOfTwo();
    PowersOfTen();
  }

  lemma LeadingText()
    ensures Decimal("0999999999999999999973156") == 999999999999999999973156
  {
    hide Decimal;
    FourDigits("0999");
    SevenDigits("9999999");
    SevenDigits("9999999");
    SevenDigits("9973156");
    SevenMore("0999", "9999999");
    SevenMore("0999" + "9999999", "9999999");
    SevenMore("0999" + "9999999" + "9999999", "9973156");
    assert "0999999999999999999973156" == "0999" + "9999999" + "9999999" + "9973156";
  }

  lemma FourDigits(s: string)
    requires AllDigits(s) && |s| == 4
    ensures Decimal(s) == 1000 * DigitValue(s[0]) + 100 * DigitValue(s[1]) + 10 * DigitValue(s[2]) + DigitValue(s[3])
  {
    assert s[..4] == s && Decimal(s[..0]) == 0;
    hide Decimal;
    NextPrefix(s, 0);
    NextPrefix(s, 1);
    NextPrefix(s, 2);
    NextPrefix(s, 3);
  }
}
