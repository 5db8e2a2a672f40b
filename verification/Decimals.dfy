/** count_digits in its three forms, and format_decimal. */
module Decimals {
  import opened Results
  import opened Powers
  import opened Digits
  import opened FormatSpecs

  // ---------------------------------------------------------------- the digits of a number

  /** The digits of n without leading zeros, except for zero itself. */
  function DecimalText(n: nat): (s: string)
    ensures AllDigits(s) && s != "" && Decimal(s) == n
    ensures s[0] == '0' ==> |s| == 1
  {
    if n < 10 then
      assert [DigitChar(n)][..0] == "";
      [DigitChar(n)]
    else
      DecimalAppend(DecimalText(n / 10), n % 10);
      DecimalText(n / 10) + [DigitChar(n % 10)]
  }

  function DigitCount(n: nat): nat {
    |DecimalText(n)|
  }

  /** Between two powers of ten. */
  lemma DigitCountBounds(n: nat)
    ensures DigitCount(n) >= 1 && n < Pow(10, DigitCount(n))
    ensures n > 0 ==> Pow(10, DigitCount(n) - 1) <= n
  {
    DecimalBound(DecimalText(n));
    if n > 0 { DecimalLowerBound(DecimalText(n)); }
  }

  /** And only one count has that property. */
  lemma DigitCountIs(n: nat, c: nat)
    requires c >= 1 && n < Pow(10, c) && (n > 0 ==> Pow(10, c - 1) <= n) && (n == 0 ==> c == 1)
    ensures DigitCount(n) == c
  {
    DigitCountBounds(n);
    assert n == 0 ==> DigitCount(n) == 1;
    hide DigitCount, Pow;
    if n > 0 {
      if DigitCount(n) < c { PowMonotone(10, DigitCount(n), c - 1); }
      if DigitCount(n) > c { PowMonotone(10, c, DigitCount(n) - 1); }
    }
  }

  /** Four digits fewer. */
  lemma DigitCountFour(n: nat)
    requires n >= 10000
    ensures DigitCount(n) == DigitCount(n / 10000) + 4
  {
    hide DigitCount, Pow;
    var c := DigitCount(n / 10000);
    DigitCountBounds(n / 10000);
    PowAdd(10, c, 4);
    PowAdd(10, c - 1, 4);
    Pow10Values();
    DigitCountIs(n, c + 4);
  }

  lemma SmallCounts(n: nat)
    ensures n < 10 ==> DigitCount(n) == 1
    ensures 10 <= n < 100 ==> DigitCount(n) == 2
    ensures 100 <= n < 1000 ==> DigitCount(n) == 3
    ensures 1000 <= n < 10000 ==> DigitCount(n) == 4
  {
    Pow10Values();
    hide Pow;
    if n < 10 { DigitCountIs(n, 1); }
    else if n < 100 { DigitCountIs(n, 2); }
    else if n < 1000 { DigitCountIs(n, 3); }
    else if n < 10000 { DigitCountIs(n, 4); }
  }

  // ---------------------------------------------------------------- count_digits

  /** count_digits_fallback, for words of any width. */
  method CountDigitsFallback(value: nat) returns (count: nat)
    ensures count == DigitCount(value)
  {
    hide DigitCount;
    var n := value;
    count := 1;
    while true
      invariant DigitCount(value) + 1 == DigitCount(n) + count
      decreases n
    {
      SmallCounts(n);
      if n < 10 { return; }
      if n < 100 { return count + 1; }
      if n < 1000 { return count + 2; }
      if n < 10000 { return count + 3; }
      DigitCountFour(n);
      n := n / 10000;
      count := count + 4;
    }
  }

  /** The position of the highest bit: clz(n) ^ 31 for 32 bits, clzll(n) ^ 63 for 64. */
  function HighBit(n: nat): (b: nat)
    requires n > 0
    ensures Pow(2, b) <= n < Pow(2, b + 1)
  {
    if n == 1 then 0
    else
      var b := HighBit(n / 2);
      assert Pow(2, b + 2) == 2 * Pow(2, b + 1);
      b + 1
  }

  /** n | 1 */
  function OrOne(n: nat): nat {
    if n % 2 == 0 then n + 1 else n
  }

  /** The highest bit of n | 1 places n between two powers of two. */
  lemma HighBitBounds(n: nat)
    ensures var b := HighBit(OrOne(n)); n < Pow(2, b + 1) && (n > 0 ==> Pow(2, b) <= n) && (n == 0 ==> b == 0)
  {
    var b := HighBit(OrOne(n));
    assert Pow(2, b + 1) == 2 * Pow(2, b);
    if b > 0 { assert Pow(2, b) == 2 * Pow(2, b - 1); }
  }

  lemma Pow2Values()
    ensures Pow(2, 0) == 1 && Pow(2, 1) == 2 && Pow(2, 2) == 4 && Pow(2, 3) == 8 && Pow(2, 4) == 16
    ensures Pow(2, 3) == 0x8 && Pow(2, 6) == 0x40 && Pow(2, 9) == 0x200 && Pow(2, 12) == 0x1000
    ensures Pow(2, 13) == 0x2000 && Pow(2, 15) == 0x8000 && Pow(2, 16) == 0x1_0000 && Pow(2, 18) == 0x4_0000
    ensures Pow(2, 19) == 0x8_0000 && Pow(2, 21) == 0x20_0000 && Pow(2, 23) == 0x80_0000
    ensures Pow(2, 24) == 0x100_0000 && Pow(2, 26) == 0x400_0000 && Pow(2, 27) == 0x800_0000
    ensures Pow(2, 29) == 0x2000_0000 && Pow(2, 30) == 0x4000_0000 && Pow(2, 32) == 0x1_0000_0000
    ensures Pow(2, 33) == 0x2_0000_0000 && Pow(2, 36) == 0x10_0000_0000 && Pow(2, 39) == 0x80_0000_0000
    ensures Pow(2, 43) == 0x800_0000_0000 && Pow(2, 46) == 0x4000_0000_0000 && Pow(2, 49) == 0x2_0000_0000_0000
    ensures Pow(2, 53) == 0x20_0000_0000_0000 && Pow(2, 56) == 0x100_0000_0000_0000
    ensures Pow(2, 59) == 0x800_0000_0000_0000 && Pow(2, 63) == 0x8000_0000_0000_0000
    ensures Pow(2, 64) == 0x1_0000_0000_0000_0000
  {
    assert Pow(2, 2) == 4;
    assert Pow(2, 4) == 16;
    hide Pow;
    PowAdd(2, 3, 3); PowAdd(2, 6, 3); PowAdd(2, 9, 3); PowAdd(2, 12, 1); PowAdd(2, 13, 2); PowAdd(2, 15, 1);
    PowAdd(2, 16, 2); PowAdd(2, 18, 1); PowAdd(2, 19, 2); PowAdd(2, 21, 2); PowAdd(2, 23, 1);
    PowAdd(2, 24, 2); PowAdd(2, 26, 1); PowAdd(2, 27, 2); PowAdd(2, 29, 1); PowAdd(2, 30, 2);
    PowAdd(2, 32, 1); PowAdd(2, 33, 3); PowAdd(2, 36, 3); PowAdd(2, 39, 4); PowAdd(2, 43, 3);
    PowAdd(2, 46, 3); PowAdd(2, 49, 4); PowAdd(2, 53, 3); PowAdd(2, 56, 3); PowAdd(2, 59, 4);
    PowAdd(2, 63, 1);
  }

  lemma LargePow10Values()
    ensures Pow(10, 11) == 100000000000 && Pow(10, 12) == 1000000000000 && Pow(10, 13) == 10000000000000
    ensures Pow(10, 14) == 100000000000000 && Pow(10, 15) == 1000000000000000
    ensures Pow(10, 16) == 10000000000000000 && Pow(10, 17) == 100000000000000000
    ensures Pow(10, 18) == 1000000000000000000 && Pow(10, 19) == 10000000000000000000
    ensures Pow(10, 20) == 100000000000000000000
  {
    Pow10Values();
    PowAdd(10, 10, 1); PowAdd(10, 10, 2); PowAdd(10, 10, 3); PowAdd(10, 10, 4); PowAdd(10, 10, 5);
    PowAdd(10, 10, 6); PowAdd(10, 10, 7); PowAdd(10, 10, 8); PowAdd(10, 10, 9); PowAdd(10, 10, 10);
    hide Pow;
  }

  lemma Between(b: nat, lo: nat, hi: nat)
    requires lo <= b < hi
    ensures Pow(2, lo) <= Pow(2, b) && Pow(2, b + 1) <= Pow(2, hi)
  {
    PowMonotone(2, lo, b);
    PowMonotone(2, b + 1, hi);
  }

  /** bsr2log10, the table of the largest count for each highest bit. */
  function Bsr2Log10(b: nat): nat
    requires b < 64
  {
    if b < 3 then 1 else if b < 6 then 2 else if b < 9 then 3 else if b < 13 then 4 else if b < 16 then 5
    else if b < 19 then 6 else if b < 23 then 7 else if b < 26 then 8 else if b < 29 then 9
    else if b < 33 then 10 else if b < 36 then 11 else if b < 39 then 12 else if b < 43 then 13
    else if b < 46 then 14 else if b < 49 then 15 else if b < 53 then 16 else if b < 56 then 17
    else if b < 59 then 18 else if b < 63 then 19 else 20
  }

  /** The entries of the 32-bit table, by the digits of the power of ten in each. */
  function Table32(b: nat): nat
    requires b < 32
  {
    if b < 30 then b / 3 + 1 else 10
  }

  /** zero_or_powers_of_10 */
  function ZeroOrPowerOf10(t: nat): nat
    requires 1 <= t <= 20
  {
    if t == 1 then 0 else Pow(10, t - 1)
  }

  /** Numbers with this highest bit have t digits or one fewer. */
  ghost predicate Entry(t: nat, b: nat) {
    1 <= t <= 20 && Pow(2, b + 1) <= Pow(10, t) && (t >= 2 ==> Pow(10, t - 2) <= Pow(2, b))
  }

  lemma Entries64(b: nat)
    requires b < 64
    ensures Entry(Bsr2Log10(b), b)
  {
    Pow2Values();
    Pow10Values();
    LargePow10Values();
    hide Pow;
    if b < 3 { Between(b, 0, 3); } else if b < 6 { Between(b, 3, 6); } else if b < 9 { Between(b, 6, 9); }
    else if b < 13 { Between(b, 9, 13); } else if b < 16 { Between(b, 13, 16); }
    else if b < 19 { Between(b, 16, 19); } else if b < 23 { Between(b, 19, 23); }
    else if b < 26 { Between(b, 23, 26); } else if b < 29 { Between(b, 26, 29); }
    else if b < 33 { Between(b, 29, 33); } else if b < 36 { Between(b, 33, 36); }
    else if b < 39 { Between(b, 36, 39); } else if b < 43 { Between(b, 39, 43); }
    else if b < 46 { Between(b, 43, 46); } else if b < 49 { Between(b, 46, 49); }
    else if b < 53 { Between(b, 49, 53); } else if b < 56 { Between(b, 53, 56); }
    else if b < 59 { Between(b, 56, 59); } else if b < 63 { Between(b, 59, 63); }
    else { Between(b, 63, 64); }
  }

  lemma Entries32(b: nat)
    requires b < 32
    ensures Entry(Table32(b), b)
  {
    Pow2Values();
    Pow10Values();
    hide Pow;
    if b < 3 { Between(b, 0, 3); } else if b < 6 { Between(b, 3, 6); } else if b < 9 { Between(b, 6, 9); }
    else if b < 12 { Between(b, 9, 12); } else if b < 15 { Between(b, 12, 15); }
    else if b < 18 { Between(b, 15, 18); } else if b < 21 { Between(b, 18, 21); }
    else if b < 24 { Between(b, 21, 24); } else if b < 27 { Between(b, 24, 27); }
    else if b < 30 { Between(b, 27, 30); } else { Between(b, 30, 32); }
  }

  /** What a table entry says about the count. */
  lemma EntryCounts(t: nat, n: nat)
    requires Entry(t, HighBit(OrOne(n)))
    ensures DigitCount(n) == t - (if n < ZeroOrPowerOf10(t) then 1 else 0)
  {
    HighBitBounds(n);
    if n == 0 {
      EntryOfZero(t);
    } else {
      hide DigitCount, HighBit, OrOne;
      EntryOfPositive(t, HighBit(OrOne(n)), n);
    }
  }

  lemma EntryOfPositive(t: nat, b: nat, n: nat)
    requires Entry(t, b) && 0 < Pow(2, b) <= n < Pow(2, b + 1)
    ensures DigitCount(n) == t - (if n < ZeroOrPowerOf10(t) then 1 else 0)
  {
    assert Pow(10, 0) == 1;
    hide Pow, DigitCount;
    if t >= 2 && n < Pow(10, t - 1) { DigitCountIs(n, t - 1); } else { DigitCountIs(n, t); }
  }

  /** For zero the highest bit is bit 0, where no entry is above 2. */
  lemma EntryOfZero(t: nat)
    requires Entry(t, 0)
    ensures DigitCount(0) == 1 == t - (if 0 < ZeroOrPowerOf10(t) then 1 else 0)
  {
    Pow10Values();
    SmallCounts(0);
    assert Pow(2, 0) == 1;
    hide DigitCount;
    if t > 2 { PowMonotone(10, 1, t - 2); }
  }

  const TWO_TO_64: nat := 0x1_0000_0000_0000_0000

  lemma HighBitBelow(n: nat, bits: nat)
    requires n < Pow(2, bits) && bits > 0
    ensures HighBit(OrOne(n)) < bits
  {
    HighBitBounds(n);
    hide HighBit, OrOne;
    var b := HighBit(OrOne(n));
    if n > 0 && b >= bits { PowMonotone(2, bits, b); }
  }

  /** do_count_digits for 64 bits. */
  function CountDigits64(n: nat): (count: int)
    requires n < TWO_TO_64
    ensures count == DigitCount(n)
  {
    Pow2Values();
    HighBitBelow(n, 64);
    var t := Bsr2Log10(HighBit(OrOne(n)));
    Entries64(HighBit(OrOne(n)));
    EntryCounts(t, n);
    t - (if n < ZeroOrPowerOf10(t) then 1 else 0)
  }

  /** FMT_INC: the digits of a power of ten in the upper half, less the power. */
  function Increment(digits: nat): int
    requires 1 <= digits <= 20
  {
    digits * TWO_TO_32 - ZeroOrPowerOf10(digits)
  }

  /** do_count_digits for 32 bits: adding the increment carries into the upper half. */
  function CountDigits32(n: nat): (count: int)
    requires n < TWO_TO_32
    ensures count == DigitCount(n)
  {
    Pow2Values();
    HighBitBelow(n, 32);
    var digits := Table32(HighBit(OrOne(n)));
    Entries32(HighBit(OrOne(n)));
    EntryCounts(digits, n);
    CarriesIntoUpperHalf(digits, n);
    (n + Increment(digits)) / TWO_TO_32
  }

  lemma CarriesIntoUpperHalf(digits: nat, n: nat)
    requires 1 <= digits <= 10 && n < TWO_TO_32
    ensures (n + Increment(digits)) / TWO_TO_32 == digits - (if n < ZeroOrPowerOf10(digits) then 1 else 0)
  {
    Pow10Values();
    if digits >= 2 { PowMonotone(10, digits - 1, 9); PowPositive(10, digits - 1); }
    hide Pow;
    var power := ZeroOrPowerOf10(digits);
    DivMod(n + Increment(digits), TWO_TO_32, if n < power then digits - 1 else digits,
           if n < power then TWO_TO_32 + n - power else n - power);
  }

  // ---------------------------------------------------------------- format_decimal

  /** Two digits fewer. */
  lemma TextEndsInPair(n: nat)
    requires n >= 100
    ensures DecimalText(n) == DecimalText(n / 100) + Pair(n % 100)
  {
    assert n / 10 / 10 == n / 100;
    assert (n / 10) % 10 == (n % 100) / 10;
    assert DecimalText(n) == DecimalText(n / 100) + [DigitChar((n % 100) / 10)] + [DigitChar(n % 10)];
  }

  lemma ShortTexts(n: nat)
    ensures n < 10 ==> DecimalText(n) == [DigitChar(n)]
    ensures 10 <= n < 100 ==> DecimalText(n) == Pair(n)
  {
    if 10 <= n < 100 {
      assert DecimalText(n) == [DigitChar(n / 10)] + [DigitChar(n % 10)];
    }
  }

  /** copy2 with digits2, in front of what was written last. */
  method PutPair(out: array<char>, at: nat, value: nat, ghost before: string, ghost tail: string)
    requires value <= 99 && at + 2 + |tail| <= |before| == out.Length
    requires out[..] == Overwritten(before, at + 2, tail)
    modifies out
    ensures out[..] == Overwritten(before, at, Pair(value) + tail)
  {
    out[at], out[at + 1] := DigitChar(value / 10), DigitChar(value % 10);
  }

  method PutDigit(out: array<char>, at: nat, value: nat, ghost before: string, ghost tail: string)
    requires value <= 9 && at + 1 + |tail| <= |before| == out.Length
    requires out[..] == Overwritten(before, at + 1, tail)
    modifies out
    ensures out[..] == Overwritten(before, at, [DigitChar(value)] + tail)
  {
    out[at] := DigitChar(value);
  }

  /** The text of a number, of which the last digits are already there. */
  ghost predicate Ends(text: string, n: nat, tail: string) {
    text == DecimalText(n) + tail
  }

  lemma EndsInPair(text: string, n: nat, tail: string)
    requires n >= 100 && Ends(text, n, tail)
    ensures Ends(text, n / 100, Pair(n % 100) + tail)
  {
    TextEndsInPair(n);
    hide DecimalText, Pair;
    assert DecimalText(n / 100) + (Pair(n % 100) + tail) == DecimalText(n) + tail;
  }

  lemma EndsNonempty(text: string, n: nat, tail: string)
    requires Ends(text, n, tail)
    ensures |text| >= |tail| + 1 && (n >= 10 ==> |text| >= |tail| + 2)
    ensures n < 10 ==> text == [DigitChar(n)] + tail
    ensures 10 <= n < 100 ==> text == Pair(n) + tail
  {
    ShortTexts(n);
    DigitCountBounds(n);
    SmallCounts(n);
    if n >= 10 && DigitCount(n) < 2 { Pow10Values(); }
  }

  /** format_decimal: exactly the digits, right-aligned in the given size, and nothing else. */
  method FormatDecimal(out: array<char>, at: nat, value: nat, size: nat) returns (begin: nat, end: nat)
    requires DigitCount(value) <= size && at + size <= out.Length
    modifies out
    ensures end == at + size && begin == end - DigitCount(value)
    ensures out[..] == Overwritten(old(out[..]), begin, DecimalText(value))
  {
    hide DecimalText, Overwritten, Pair, Ends;
    ghost var before, text, tail := out[..], DecimalText(value), "";
    end := at + size;
    var n, p := value, end;
    NothingWritten(before, end);
    NothingEnds(value);
    while n >= 100
      invariant Ends(text, n, tail) && p == end - |tail| && |tail| <= size
      invariant out[..] == Overwritten(before, p, tail)
    {
      EndsNonempty(text, n, tail);
      p := p - 2;
      PutPair(out, p, n % 100, before, tail);
      EndsInPair(text, n, tail);
      tail := Pair(n % 100) + tail;
      n := n / 100;
      EndsNonempty(text, n, tail);
    }
    EndsNonempty(text, n, tail);
    if n < 10 {
      p := p - 1;
      PutDigit(out, p, n, before, tail);
    } else {
      p := p - 2;
      PutPair(out, p, n, before, tail);
    }
    begin := p;
  }

  lemma NothingEnds(n: nat)
    ensures Ends(DecimalText(n), n, "")
  {
  }

  lemma NothingWritten(before: string, at: nat)
    requires at <= |before|
    ensures Overwritten(before, at, "") == before
  {
  }

  // ---------------------------------------------------------------- digits around a point

  lemma EndsInDigit(text: string, n: nat, tail: string)
    requires n >= 10 && Ends(text, n, tail)
    ensures Ends(text, n / 10, [DigitChar(n % 10)] + tail)
  {
    assert DecimalText(n / 10) + ([DigitChar(n % 10)] + tail) == DecimalText(n) + tail;
  }

  /** How many digits are still to come says how big the number still is. */
  lemma EndsWithDigits(text: string, n: nat, tail: string)
    requires Ends(text, n, tail)
    ensures |text| == DigitCount(n) + |tail| && text == DecimalText(n) + tail
    ensures |text| >= |tail| + 2 ==> n >= 10
    ensures |text| >= |tail| + 3 ==> n >= 100
  {
    SmallCounts(n);
  }

  /** The digits behind the point, in pairs from the right, one more if their number is odd. */
  method WriteFraction(out: array<char>, end: nat, significand: nat, floating: nat)
    returns (rest: nat, ghost tail: string)
    requires floating < DigitCount(significand) && floating <= end <= out.Length
    modifies out
    ensures |tail| == floating && out[..] == Overwritten(old(out[..]), end - floating, tail)
    ensures DecimalText(significand) == DecimalText(rest) + tail
  {
    hide DecimalText, Overwritten, Pair, Ends;
    ghost var before, text := out[..], DecimalText(significand);
    var p;
    rest, p, tail := significand, end, "";
    NothingWritten(before, end);
    NothingEnds(significand);
    var i := floating / 2;
    while i > 0
      invariant i >= 0 && Ends(text, rest, tail) && p == end - |tail| && |tail| + 2 * i + floating % 2 == floating
      invariant out[..] == Overwritten(before, p, tail)
    {
      EndsWithDigits(text, rest, tail);
      p := p - 2;
      PutPair(out, p, rest % 100, before, tail);
      EndsInPair(text, rest, tail);
      tail := Pair(rest % 100) + tail;
      rest, i := rest / 100, i - 1;
    }
    if floating % 2 != 0 {
      EndsWithDigits(text, rest, tail);
      p := p - 1;
      PutDigit(out, p, rest % 10, before, tail);
      EndsInDigit(text, rest, tail);
      tail := [DigitChar(rest % 10)] + tail;
      rest := rest / 10;
    }
    EndsWithDigits(text, rest, tail);
  }

  /** write_significand with a decimal point: what is behind it, the point, what is before it. */
  method WriteSignificand(out: array<char>, at: nat, significand: nat, size: nat, integral: nat) returns (end: nat)
    requires size == DigitCount(significand) && 1 <= integral <= size && at + size + 1 <= out.Length
    modifies out
    ensures end == at + size + 1
    ensures var text := DecimalText(significand);
            out[..] == Overwritten(old(out[..]), at, text[..integral] + "." + text[integral..])
  {
    hide DecimalText, Overwritten;
    ghost var before, text := out[..], DecimalText(significand);
    end := at + size + 1;
    var rest;
    ghost var tail;
    rest, tail := WriteFraction(out, end, significand, size - integral);
    PutPoint(out, at + integral, before, tail);
    assert text[..integral] == DecimalText(rest) && text[integral..] == tail;
    var begin, _ := FormatDecimal(out, at, rest, integral);
    OverwrittenLeft(before, at + integral, "." + tail, DecimalText(rest));
    assert DecimalText(rest) + "." + tail == DecimalText(rest) + ("." + tail);
  }

  method PutPoint(out: array<char>, at: nat, ghost before: string, ghost tail: string)
    requires at + 1 + |tail| <= |before| == out.Length && out[..] == Overwritten(before, at + 1, tail)
    modifies out
    ensures out[..] == Overwritten(before, at, "." + tail)
  {
    out[at] := '.';
  }

  /** A text grows to the left in the buffer that holds its end. */
  lemma OverwrittenLeft(before: string, at: nat, text: string, more: string)
    requires |more| <= at && at + |text| <= |before|
    ensures Overwritten(Overwritten(before, at, text), at - |more|, more)
         == Overwritten(before, at - |more|, more + text)
  {
  }

  // ---------------------------------------------------------------- reading back

  /** What follows a number must not go on with a digit. */
  predicate Stops(rest: string) {
    rest != "" ==> !IsDigit(rest[0])
  }

  lemma {:induction false} RunEndOf(s: string, p: nat, q: nat)
    requires p <= q <= |s| && AllDigits(s[p..q]) && Stops(s[q..])
    ensures RunEnd(s, p) == q
    decreases q - p
  {
    if p < q {
      assert s[p] == s[p..q][0];
      assert s[p + 1..q] == s[p..q][1..];
      RunEndOf(s, p + 1, q);
    } else if q < |s| {
      assert s[q..][0] == s[q];
    }
  }

  /** Writing a number and parsing it back gives it again, exactly when it is an int. */
  lemma DecimalRoundTrip(n: nat, rest: string)
    requires Stops(rest)
    ensures RunNumber(DecimalText(n) + rest, 0) == if n <= INT_MAX then Ok(n) else Err("number is too big")
    ensures RunEnd(DecimalText(n) + rest, 0) == DigitCount(n)
  {
    var s, q := DecimalText(n) + rest, DigitCount(n);
    assert s[0..q] == DecimalText(n) && s[q..] == rest;
    RunEndOf(s, 0, q);
    assert s[0] == DecimalText(n)[0] && IsDigit(DecimalText(n)[0]);
    RunNumberFitsInt(s, 0);
  }
}
