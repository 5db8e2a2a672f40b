/** Strings of decimal digits and the numbers they denote. */
module Digits {
  import opened Powers

  predicate IsDigit(c: char) {
    '0' <= c <= '9'
  }

  predicate AllDigits(s: string) {
    forall i :: 0 <= i < |s| ==> IsDigit(s[i])
  }

  function DigitValue(c: char): nat
    requires IsDigit(c)
  {
    c as int - '0' as int
  }

  /** static_cast<char>('0' + digit); ten gives the overflow character ':'. */
  function DigitChar(digit: nat): (c: char)
    requires digit <= 10
    ensures digit <= 9 ==> IsDigit(c) && c as int - '0' as int == digit
  {
    ('0' as int + digit) as char
  }

  /** The number a digit string denotes; an overflow character counts ten. */
  function Decimal(s: string): nat
    requires AlmostDigits(s)
  {
    if s == "" then 0 else 10 * Decimal(s[..|s| - 1]) + (s[|s| - 1] as int - '0' as int)
  }

  lemma DecimalAppend(s: string, digit: nat)
    requires AllDigits(s) && digit <= 10
    ensures Decimal(s + [DigitChar(digit)]) == 10 * Decimal(s) + digit
    ensures digit <= 9 ==> AllDigits(s + [DigitChar(digit)])
  {
    var t := s + [DigitChar(digit)];
    assert t[..|t| - 1] == s;
  }

  /** Digits, with overflow characters still allowed. */
  predicate AlmostDigits(s: string) {
    forall i :: 0 <= i < |s| ==> '0' <= s[i] <= ':'
  }

  lemma MulTen(a: nat, p: nat)
    ensures a * (10 * p) == 10 * (a * p)
  {
  }

  lemma {:induction false} DecimalConcat(s: string, t: string)
    requires AlmostDigits(s) && AlmostDigits(t)
    ensures Decimal(s + t) == Decimal(s) * Pow(10, |t|) + Decimal(t)
  {
    if t == "" {
      assert s + t == s;
    } else {
      var u := t[..|t| - 1];
      assert (s + t)[..|s + t| - 1] == s + u;
      DecimalConcat(s, u);
      MulTen(Decimal(s), Pow(10, |u|));
    }
  }

  /** Moving an overflow from position i to the digit before it keeps the number. */
  lemma CarryLeft(s: string, i: nat)
    requires 0 < i < |s| && AlmostDigits(s) && s[i] == ':' && s[i - 1] != ':'
    ensures var t := s[i := '0'][i - 1 := (s[i - 1] as int + 1) as char];
            AlmostDigits(t) && Decimal(t) == Decimal(s)
  {
    hide Decimal, Pow;
    var t := s[i := '0'][i - 1 := (s[i - 1] as int + 1) as char];
    var p, q := s[..i - 1], s[i + 1..];
    var a, b := [s[i - 1], ':'], [t[i - 1], '0'];
    assert s == p + a + q && t == p + b + q;
    DecimalConcat(p + a, q);
    DecimalConcat(p + b, q);
    DecimalConcat(p, a);
    DecimalConcat(p, b);
    TwoDigits(a);
    TwoDigits(b);
  }

  lemma TwoDigits(s: string)
    requires |s| == 2 && AlmostDigits(s)
    ensures Decimal(s) == 10 * (s[0] as int - '0' as int) + (s[1] as int - '0' as int)
  {
    assert s[..1][..0] == "";
    assert Decimal(s[..1]) == s[0] as int - '0' as int;
  }

  /** One leading character followed by zeros. */
  lemma LeadingOnly(s: string)
    requires s != "" && AlmostDigits(s) && forall i :: 0 < i < |s| ==> s[i] == '0'
    ensures Decimal(s) == (s[0] as int - '0' as int) * Pow(10, |s| - 1)
  {
    assert s == [s[0]] + s[1..];
    DecimalConcat([s[0]], s[1..]);
    assert [s[0]][..0] == "";
    ZerosOnly(s[1..]);
  }

  lemma {:induction false} ZerosOnly(s: string)
    requires forall i :: 0 <= i < |s| ==> s[i] == '0'
    ensures Decimal(s) == 0
  {
    if s != "" {
      ZerosOnly(s[..|s| - 1]);
    }
  }

  /** ++data[num_digits - 1] on a digit other than nine. */
  lemma DecimalIncrement(s: string)
    requires s != "" && AllDigits(s) && s[|s| - 1] != '9'
    ensures var t := s[|s| - 1 := (s[|s| - 1] as int + 1) as char];
            AllDigits(t) && Decimal(t) == Decimal(s) + 1
  {
    var t := s[|s| - 1 := (s[|s| - 1] as int + 1) as char];
    assert t[..|t| - 1] == s[..|s| - 1];
  }

  lemma DecimalReplace(s: string, i: nat, digit: nat)
    requires i < |s| && AllDigits(s) && digit <= 10
    ensures var t := s[i := DigitChar(digit)];
            && (digit <= 9 ==> AllDigits(t)) && AlmostDigits(t) && AllDigits(t[..i])
            && Decimal(t[..i + 1]) == 10 * Decimal(s[..i]) + digit
            && (i == |s| - 1 ==> Decimal(t) == 10 * Decimal(s[..i]) + digit)
  {
    var t := s[i := DigitChar(digit)];
    DecimalAppend(s[..i], digit);
    assert t[..i] == s[..i];
    assert t[..i + 1] == s[..i] + [DigitChar(digit)];
    assert t[..|t|] == t;
  }

  lemma {:induction false} DecimalBound(s: string)
    requires AllDigits(s)
    ensures Decimal(s) < Pow(10, |s|)
  {
    if s != "" {
      DecimalBound(s[..|s| - 1]);
    }
  }

  /** A string without a leading zero is at least as big as its length says. */
  lemma {:induction false} DecimalLowerBound(s: string)
    requires s != "" && AllDigits(s) && s[0] != '0'
    ensures Decimal(s) >= Pow(10, |s| - 1)
  {
    assert IsDigit(s[0]);
    if |s| > 1 {
      DecimalLowerBound(s[..|s| - 1]);
      assert IsDigit(s[|s| - 1]);
    }
  }

  /** Digit strings of one length that denote one number are the same string. */
  lemma {:induction false} DecimalInjective(s: string, t: string)
    requires AllDigits(s) && AllDigits(t) && |s| == |t| && Decimal(s) == Decimal(t)
    ensures s == t
  {
    if s != "" {
      DecimalInjective(s[..|s| - 1], t[..|t| - 1]);
      assert s == s[..|s| - 1] + [s[|s| - 1]];
      assert t == t[..|t| - 1] + [t[|t| - 1]];
    }
  }

  /** digits2 */
  function Pair(value: nat): (s: string)
    requires value <= 99
    ensures |s| == 2
  {
    [DigitChar(value / 10), DigitChar(value % 10)]
  }

  lemma PairAppended(s: string, value: nat)
    requires AllDigits(s) && value <= 99
    ensures AllDigits(s + Pair(value)) && Decimal(s + Pair(value)) == 100 * Decimal(s) + value
  {
    DecimalAppend(s, value / 10);
    var t := s + [DigitChar(value / 10)];
    DecimalAppend(t, value % 10);
    assert t + [DigitChar(value % 10)] == s + Pair(value);
  }

  /** A buffer with a text written over what stood at a position. */
  function Overwritten(before: string, at: nat, text: string): (after: string)
    requires at + |text| <= |before|
    ensures |after| == |before| && after[at..at + |text|] == text
    ensures after[..at] == before[..at] && after[at + |text|..] == before[at + |text|..]
  {
    before[..at] + text + before[at + |text|..]
  }

  lemma SliceOfSlice(s: string, p: nat, n: nat, a: nat, b: nat)
    requires p + n <= |s| && a <= b <= n
    ensures s[p..p + n][a..b] == s[p + a..p + b]
  {
    var t := s[p..p + n];
    forall i | 0 <= i < b - a ensures t[a..b][i] == s[p + a..p + b][i] {}
  }
}
