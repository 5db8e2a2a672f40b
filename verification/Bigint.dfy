/**
  fmt's bigint: little-endian 32-bit digits scaled by a digit exponent. Every operation is
  proved against the natural number it represents. Where the code is exact only on part of
  its domain, the contract says on exactly which part.
*/
module Bigints {
  import opened Powers
  import opened Limbs
  import opened BigintLemmas

  const INT_MAX: nat := 0x7FFF_FFFF
  const MAX128: nat := 0xFFFF_FFFF_FFFF_FFFF_FFFF_FFFF_FFFF_FFFF

  type uint128 = x: nat | x <= MAX128

  class Bigint {
    var bigits: seq<bigit>
    var exp: nat

    ghost function Value(): nat
      reads this
    {
      Scaled(bigits, exp)
    }

    function NumBigits(): nat
      reads this
    {
      |bigits| + exp
    }

    /** The top digit is not zero, so neither is the value. */
    predicate Positive()
      reads this
    {
      bigits != [] && bigits[|bigits| - 1] != 0
    }

    /** What every operation leaves behind: no leading zero, zero being a single digit. */
    predicate Normal()
      reads this
    {
      bigits == [0] || Positive()
    }

    lemma NormalZero()
      requires Normal()
      ensures Value() == 0 <==> bigits == [0]
    {
      if Positive() {
        PositiveBounds(bigits, exp);
      } else {
        ValOne(0);
      }
    }

    constructor ()
      ensures bigits == [] && exp == 0
    {
      bigits, exp := [], 0;
    }

    /** Takes over a 64- or 128-bit number, low digit first. */
    method AssignUInt(value: uint128)
      modifies this
      ensures Value() == value && exp == 0 && Normal()
    {
      var n := value;
      bigits := [Low(n)];
      n := Rest(n);
      ValOne(bigits[0]);
      while n != 0
        invariant bigits != []
        invariant Val(bigits) + Weight(n, |bigits|) == value
        invariant n == 0 ==> Normal()
      {
        AppendDigit(bigits, n);
        LowRest(n);
        bigits := bigits + [Low(n)];
        n := Rest(n);
      }
      exp := 0;
    }

    method Assign(other: Bigint)
      modifies this
      ensures bigits == other.bigits && exp == other.exp && Value() == other.Value()
    {
      bigits := other.bigits;
      exp := other.exp;
    }

    method RemoveLeadingZeros()
      modifies this`bigits
      ensures Val(bigits) == old(Val(bigits)) && Value() == old(Value())
      ensures if old(bigits) == [] then bigits == [] else Normal()
    {
      var numBigits := |bigits| - 1;
      assert bigits[..|bigits|] == bigits;
      while numBigits > 0 && bigits[numBigits] == 0
        invariant -1 <= numBigits < |bigits| && bigits == old(bigits)
        invariant numBigits < 0 <==> bigits == []
        invariant Val(bigits[..numBigits + 1]) == Val(bigits)
      {
        ValPrefixStep(bigits, numBigits);
        numBigits := numBigits - 1;
      }
      bigits := bigits[..numBigits + 1];
      if numBigits == 0 {
        assert bigits == [bigits[0]];
      }
    }

    /** multiply(uint32_t) */
    method Multiply32(value: bigit)
      modifies this`bigits
      ensures Value() == old(Value()) * value
      ensures old(Positive()) && value > 0 ==> Positive()
      ensures old(bigits) == [0] ==> bigits == [0]
    {
      hide Weight, Val, Scaled, Multiplied;
      var carry: bigit := 0;
      var i, n := 0, |bigits|;
      ghost var s := bigits;
      MultipliedStart(s, value);
      while i < n
        invariant i <= n == |bigits| == |s| && Multiplied(s, bigits, i, carry, value)
        invariant carry <= value
        invariant s == [0] ==> carry == 0 && bigits == [0]
      {
        DigitProduct(s[i], value, carry);
        MultipliedDigit(s, bigits, i, carry, value);
        var result: double_bigit := bigits[i] * value + carry;
        MultipliedStep(s, bigits, i, carry, value, Low(result), Rest(result));
        bigits := bigits[i := Low(result)];
        carry := Rest(result);
        i := i + 1;
      }
      MultipliedEnd(s, bigits, carry, value, exp);
      if carry != 0 {
        bigits := bigits + [carry];
      }
    }

    /**
      multiply(uint64_t) and multiply(uint128_t): `half` is 2^32 or 2^64, the base in which
      the multiplier is split. The carry never exceeds the multiplier, so it fits its word.
    */
    method MultiplyWide(value: nat, half: nat)
      requires half == BASE || half == BASE * BASE
      requires value < half * half
      modifies this`bigits
      ensures Value() == old(Value()) * value
      ensures old(Positive()) && value > 0 ==> Positive()
      ensures old(bigits) == [0] ==> bigits == [0]
    {
      hide Weight, Val, Scaled, Multiplied, ProductSoFar;
      var shift: nat, lower: nat, upper: nat := Rest(half), value % half, value / half;
      var carry: nat := 0;
      var i, n := 0, |bigits|;
      ghost var s := bigits;
      MultipliedStart(s, value);
      while i < n
        invariant i <= n == |bigits| == |s| && Multiplied(s, bigits, i, carry, value)
        invariant carry <= value
        invariant s == [0] ==> carry == 0 && bigits == [0]
      {
        MultipliedDigit(s, bigits, i, carry, value);
        WideNonNegative(lower, upper, bigits[i], shift);
        var result: nat := lower * bigits[i] + Low(carry);
        var next: nat := upper * bigits[i] * shift + Rest(result) + Rest(carry);
        WideDigit(s[i], value, lower, upper, half, shift, carry, result, next);
        assert result < half * half && next < half * half;
        MultipliedStep(s, bigits, i, carry, value, Low(result), next);
        bigits := bigits[i := Low(result)];
        carry := next;
        i := i + 1;
      }
      MultipliedAll(s, bigits, carry, value);
      while carry != 0
        invariant |bigits| >= n && ProductSoFar(s, bigits, carry, value)
        invariant |bigits| > n && carry == 0 ==> Positive()
        invariant s == [0] ==> carry == 0 && bigits == [0]
      {
        ProductAppend(s, bigits, carry, value);
        bigits := bigits + [Low(carry)];
        carry := Rest(carry);
      }
      ProductScaled(s, bigits, exp, value);
    }

    /** operator<<= */
    method ShiftLeft(shift: nat)
      modifies this
      ensures Value() == old(Value()) * Pow(2, shift)
      ensures exp == old(exp) + shift / 32 && (old(Positive()) ==> Positive())
    {
      ShiftSplit(bigits, exp, shift);
      exp := exp + shift / 32;
      if shift % 32 != 0 {
        ShiftDigits(shift % 32);
      }
    }

    /** The digit loop of operator<<=, for a shift within a digit. */
    method ShiftDigits(shift: nat)
      requires 0 < shift < 32
      modifies this`bigits
      ensures Value() == old(Value()) * Pow(2, shift) && (old(Positive()) ==> Positive())
    {
      hide Weight, Val, Scaled, Multiplied;
      var up, down := Pow(2, shift), Pow(2, 32 - shift);
      ShiftFactors(shift);
      var carry: bigit := 0;
      var i, n := 0, |bigits|;
      ghost var s := bigits;
      MultipliedStart(s, up);
      while i < n
        invariant i <= n == |bigits| == |s| && Multiplied(s, bigits, i, carry, up)
        invariant carry < up
      {
        ShiftDigit(s[i], up, down, carry);
        MultipliedDigit(s, bigits, i, carry, up);
        var c: bigit := bigits[i] / down;
        var digit: bigit := Low(bigits[i] * up) + carry;
        MultipliedStep(s, bigits, i, carry, up, digit, c);
        bigits := bigits[i := digit];
        carry := c;
        i := i + 1;
      }
      MultipliedEnd(s, bigits, carry, up, exp);
      if carry != 0 {
        bigits := bigits + [carry];
      }
    }

    /** Sums the cross products of each diagonal into a 128-bit accumulator. */
    method Square()
      requires 2 * |bigits| <= INT_MAX
      modifies this
      ensures Value() == old(Value()) * old(Value())
      ensures exp == 2 * old(exp) && (old(bigits) != [] ==> Normal()) && (old(Positive()) ==> Positive())
    {
      var numBigits := |bigits|;
      var n := bigits;
      // resize() leaves the new digits unspecified; each of them is written below.
      bigits := seq(2 * numBigits, _ => 0);
      var sum: uint128 := 0;
      SquareStart(n, bigits);
      for index := 0 to numBigits
        invariant exp == old(exp) && |bigits| == 2 * numBigits && SquaredTo(n, bigits, index, sum)
      {
        ghost var carried := sum;
        sum := AddLowDiagonal(n, index, sum);
        SquareStep(n, bigits, index, carried, sum);
        bigits := bigits[index := Low(sum)];
        sum := Rest(sum);
      }
      for index := numBigits to 2 * numBigits
        invariant exp == old(exp) && |bigits| == 2 * numBigits && SquaredTo(n, bigits, index, sum)
      {
        ghost var carried := sum;
        sum := AddHighDiagonal(n, index, sum);
        SquareStep(n, bigits, index, carried, sum);
        bigits := bigits[index := Low(sum)];
        sum := Rest(sum);
      }
      SquareDone(n, bigits, sum);
      RemoveLeadingZeros();
      exp := 2 * exp;
      SquareScaled(n, bigits, old(exp));
      if numBigits != 0 {
        NormalZero();
      }
    }

    /** Inner loop of square() for a digit of the bottom half. */
    static method AddLowDiagonal(n: seq<bigit>, index: nat, carried: uint128) returns (sum: uint128)
      requires index < |n| <= INT_MAX && carried <= |n| * BASE
      ensures sum == carried + Diagonal(n, index, |n|)
    {
      sum := carried;
      var i: nat, j: int := 0, index;
      while j >= 0
        invariant 0 <= i == index - j <= index + 1
        invariant sum == carried + Diagonal(n, index, i)
      {
        sum := AddProduct(n, index, i, j, carried, sum);
        i, j := i + 1, j - 1;
      }
      DiagonalSkip(n, index, index + 1, |n|);
    }

    /** Inner loop of square() for a digit of the top half. */
    static method AddHighDiagonal(n: seq<bigit>, index: nat, carried: uint128) returns (sum: uint128)
      requires |n| <= index < 2 * |n| && |n| <= INT_MAX && carried <= |n| * BASE
      ensures sum == carried + Diagonal(n, index, |n|)
    {
      sum := carried;
      var j := |n| - 1;
      var i: nat := index - j;
      DiagonalSkip(n, index, 0, i);
      while i < |n|
        invariant 0 < i <= |n| && j == index - i
        invariant sum == carried + Diagonal(n, index, i)
      {
        sum := AddProduct(n, index, i, j, carried, sum);
        i, j := i + 1, j - 1;
      }
    }

    /** sum += static_cast<double_bigit>(n[i]) * n[j] */
    static method AddProduct(n: seq<bigit>, index: nat, i: nat, j: nat, ghost carried: nat, before: uint128)
      returns (sum: uint128)
      requires i < |n| && j < |n| <= INT_MAX && i + j == index && carried <= |n| * BASE
      requires before == carried + Diagonal(n, index, i)
      ensures sum == carried + Diagonal(n, index, i + 1)
    {
      var x: nat, y: nat := n[i], n[j];
      DiagonalFits(n, index, i + 1, carried);
      DiagonalStep(n, index, i, x, y);
      sum := before + x * y;
    }

    /** 10^e as 5^e by repeated squaring, then a shift by e. */
    method AssignPow10(e: nat)
      requires e <= INT_MAX / 2
      modifies this
      ensures Value() == Pow(10, e) && Positive()
      ensures exp == e / 32
    {
      if e == 0 {
        AssignUInt(1);
        NormalZero();
        return;
      }
      var bitmask, k := TopBit(e);
      AssignUInt(5);
      NormalZero();
      assert Pow(5, 1) == 5 * Pow(5, 0);
      bitmask := bitmask / 2;
      while bitmask != 0
        invariant bitmask == Half(k)
        invariant Value() == Pow(5, Prefix(e, k)) && Positive() && exp == 0
        decreases k
      {
        PrefixStep(e, k);
        FiveFits(bigits, Prefix(e, k), e);
        Square();
        PowAdd(5, Prefix(e, k), Prefix(e, k));
        if (e / bitmask) % 2 != 0 {
          Multiply32(5);
        }
        bitmask := bitmask / 2;
        k := k - 1;
      }
      if k > 0 { PowPositive(2, k - 1); }
      assert Prefix(e, 0) == e;
      ShiftLeft(e);
      PowProduct(5, 2, e);
    }

    /** The loop of assign_pow10 that finds the top bit of the exponent. */
    static method TopBit(e: nat) returns (bitmask: nat, ghost k: nat)
      requires 0 < e <= INT_MAX / 2
      ensures bitmask == Pow(2, k) && Prefix(e, k) == 1
      ensures bitmask <= e < 2 * bitmask
    {
      bitmask, k := 1, 0;
      while e >= bitmask
        invariant bitmask == Pow(2, k) && 0 < bitmask <= 2 * e
        invariant bitmask == 1 <==> k == 0
        decreases 2 * e - bitmask
      {
        bitmask := 2 * bitmask;
        k := k + 1;
      }
      bitmask := bitmask / 2;
      k := k - 1;
      DivMod(e, bitmask, 1, e - bitmask);
    }

    /** Appends low zero digits until the exponent is no bigger than that of other. */
    method Align(other: Bigint)
      modifies this
      ensures Value() == old(Value())
      ensures exp == if old(exp) <= other.exp then old(exp) else other.exp
      ensures NumBigits() == old(NumBigits()) && bigits[|bigits| - |old(bigits)|..] == old(bigits)
      ensures old(Positive()) ==> Positive()
    {
      var difference := exp - other.exp;
      if difference <= 0 { return; }
      AlignScaled(bigits, exp, difference);
      bigits := seq(difference, _ => 0) + bigits;
      exp := exp - difference;
    }

    method SubtractBits(index: nat, other: bigit, borrow: bigit) returns (next: bigit)
      requires index < |bigits| && borrow <= 1
      modifies this`bigits
      ensures next <= 1 && |bigits| == |old(bigits)|
      ensures bigits == old(bigits)[index := bigits[index]]
      ensures bigits[index] - BASE * next == old(bigits)[index] - other - borrow
    {
      var result: double_bigit := (bigits[index] - other - borrow) % (MAX64 + 1);
      bigits := bigits[index := Low(result)];
      next := result / 0x8000_0000_0000_0000;
    }

    /** The borrowing loop of subtract_aligned, entered with a borrow for digit i. */
    method PayBorrow(i: nat)
      requires i < |bigits|
      modifies this`bigits
      ensures bigits == old(bigits)[i := if old(bigits)[i] == 0 then BASE - 2 else old(bigits)[i] - 1]
    {
      ghost var t := bigits;
      var borrow: bigit := 1;
      while borrow > 0
        invariant borrow <= 1 && |bigits| == |t|
        invariant borrow == 1 ==> bigits == t || (t[i] == 0 && bigits == t[i := BASE - 1])
        invariant borrow == 0 ==> bigits == t[i := if t[i] == 0 then BASE - 2 else t[i] - 1]
        decreases borrow, if bigits[i] == 0 then 1 else 0
      {
        borrow := SubtractBits(i, 0, borrow);
      }
    }

    /**
      Subtracts an aligned number that compare() does not find bigger: a smaller one, or one with
      fewer positions. The last loop keeps borrowing from one and the same digit, so the result
      is right exactly when that digit can pay for a borrow that reaches it, and otherwise too big
      by the largest digit in that place.
    */
    method SubtractAligned(other: Bigint)
      requires this != other && other.exp >= exp
      requires bigits != [] && other.Positive()
      requires Value() >= other.Value() || NumBigits() > other.NumBigits()
      modifies this`bigits
      ensures Normal()
      ensures Value() == old(Value()) - other.Value() <==>
              BorrowStops(old(bigits), other.bigits, other.exp - exp)
      ensures Value() == old(Value()) - other.Value() +
                if BorrowStops(old(bigits), other.bigits, other.exp - exp) then 0
                else Weight(BASE - 1, other.NumBigits())
    {
      hide Weight, Val, Scaled, Pow;
      ghost var s, o, shift := bigits, other.bigits, other.exp - exp;
      if Value() >= other.Value() { LengthsFit(s, exp, o, other.exp); }
      var borrow: bigit := 0;
      var i := other.exp - exp;
      var j, n := 0, |other.bigits|;
      BorrowStart(s, o, shift);
      while j != n
        invariant 0 <= j <= n && i == shift + j && |bigits| == |s|
        invariant Borrowed(s, bigits, o, j, shift, borrow)
      {
        ghost var before, b := bigits, borrow;
        borrow := SubtractBits(i, other.bigits[j], borrow);
        BorrowStep(s, before, bigits, o, j, shift, b, borrow);
        i, j := i + 1, j + 1;
      }
      ghost var aligned := bigits;
      ScaledDifference(s, s, o, exp, shift);
      BorrowOut(s, aligned, o, shift, borrow);
      if borrow > 0 {
        PayBorrow(i);
      }
      BorrowResult(s, aligned, bigits, o, shift, borrow);
      ResultScaled(s, bigits, o, exp, shift);
      RemoveLeadingZeros();
    }

    /**
      Divides by a divisor whose quotient fits an int, leaving the remainder here. The first
      comparison misses an equal divisor that has the smaller digit exponent; nothing happens
      then. In every other case quotient and remainder are exact.
    */
    method DivmodAssign(divisor: Bigint) returns (quotient: nat)
      requires this != divisor && Normal() && divisor.Positive()
      requires Value() < INT_MAX * divisor.Value()
      requires Value() == 0 ==> exp < divisor.NumBigits()
      modifies this
      ensures Normal()
      ensures UnseenEqual(old(Value()), old(exp), divisor) ==>
                quotient == 0 && bigits == old(bigits) && exp == old(exp)
      ensures !UnseenEqual(old(Value()), old(exp), divisor) ==>
                Value() < divisor.Value() && old(Value()) == quotient * divisor.Value() + Value()
      ensures quotient > 0 ==> exp == if old(exp) <= divisor.exp then old(exp) else divisor.exp
      ensures quotient == 0 ==> bigits == old(bigits) && exp == old(exp)
    {
      hide Val, Scaled, Pow;
      NormalZero();
      PositiveBounds(divisor.bigits, divisor.exp);
      var comparison := Compare(this, divisor);
      if comparison < 0 { return 0; }
      Align(divisor);
      quotient := 0;
      ghost var total, d := old(Value()), divisor.Value();
      while true
        invariant Normal() && exp == if old(exp) <= divisor.exp then old(exp) else divisor.exp
        invariant total == quotient * d + Value() && Value() >= d
        decreases Value()
      {
        QuotientFits(total, quotient, d, Value());
        NormalZero();
        BorrowNeverSpreads(bigits, exp, divisor.bigits, divisor.exp);
        SubtractAligned(divisor);
        quotient := quotient + 1;
        NormalZero();
        comparison := Compare(this, divisor);
        if comparison < 0 { break; }
      }
    }

    /**
      The first pass of divmod_assign over a zero with as many positions as the divisor, which
      compare() takes for the bigger number: what it leaves holds the divisor more often than an
      int can count.
    */
    method FirstPassFromZero(divisor: Bigint)
      requires this != divisor && bigits == [0] && divisor.Positive() && exp >= divisor.NumBigits()
      modifies this
      ensures Normal() && Value() > INT_MAX * divisor.Value()
    {
      hide Val, Scaled, Pow;
      NormalZero();
      var comparison := Compare(this, divisor);
      PositiveBounds(divisor.bigits, divisor.exp);
      assert comparison == 1;
      Align(divisor);
      ZeroNeverStops(bigits, exp, divisor.bigits);
      SubtractAligned(divisor);
      HugeRest(divisor.Value(), divisor.NumBigits());
    }
  }

  /** Nothing can be borrowed from zeros. */
  lemma ZeroNeverStops(s: seq<bigit>, exp: nat, o: seq<bigit>)
    requires |s| > |o| && o != [] && o[|o| - 1] != 0 && Scaled(s, exp) == 0
    ensures !BorrowStops(s, o, 0)
  {
    var k := |o|;
    PowPositive(BASE, exp);
    PowPositive(BASE, k);
    PositiveBounds(o, 0);
    if Val(s) > 0 { MulPositive(Val(s), Pow(BASE, exp)); }
    ValSplit(s, k);
    if Val(s[k..]) > 0 { MulPositive(Val(s[k..]), Pow(BASE, k)); }
  }

  lemma HugeRest(d: nat, positions: nat)
    requires d < Pow(BASE, positions)
    ensures Weight(BASE - 1, positions) - d > INT_MAX * d
  {
    var p := Pow(BASE, positions);
    MulLe(d, p, INT_MAX + 1);
    assert p * (BASE - 1) == (BASE - 1) * p;
  }

  // ---------------------------------------------------------------- comparison

  /**
    What compare() returns on normal operands. It is the sign of the difference except for
    two numbers that are equal but have different exponents, of which the one with more
    stored digits counts as bigger, and for zero, which counts as big as its exponent.
  */
  ghost function CompareResult(x: nat, xexp: nat, xtop: nat, y: nat, yexp: nat, ytop: nat): int {
    if x == 0 && y == 0 then Sign(xexp - yexp)
    else if x == 0 then (if xexp >= ytop then 1 else -1)
    else if y == 0 then (if yexp >= xtop then -1 else 1)
    else if x == y then Sign(yexp - xexp)
    else Sign(x - y)
  }

  /** compare() on normal operands is a three-way comparison exactly under this condition. */
  lemma CompareExactly(x: nat, xexp: nat, xtop: nat, y: nat, yexp: nat, ytop: nat)
    requires x > 0 && y > 0
    ensures CompareResult(x, xexp, xtop, y, yexp, ytop) == Sign(x - y) <==> (x != y || xexp == yexp)
  {
  }

  method Compare(lhs: Bigint, rhs: Bigint) returns (result: int)
    requires lhs.Normal() && rhs.Normal()
    ensures result == CompareResult(lhs.Value(), lhs.exp, lhs.NumBigits(), rhs.Value(), rhs.exp, rhs.NumBigits())
  {
    hide High, Val, Scaled, Pow;
    lhs.NormalZero();
    rhs.NormalZero();
    if lhs.NumBigits() != rhs.NumBigits() {
      LongerIsBigger(lhs.bigits, lhs.exp, rhs.bigits, rhs.exp);
      return if lhs.NumBigits() > rhs.NumBigits() then 1 else -1;
    }
    var i, j := |lhs.bigits| - 1, |rhs.bigits| - 1;
    var end := i - j;
    if end < 0 { end := 0; }
    HighNothing(lhs.bigits, lhs.exp);
    HighNothing(rhs.bigits, rhs.exp);
    while i >= end
      invariant end - 1 <= i < |lhs.bigits| && -1 <= j < |rhs.bigits|
      invariant i + lhs.exp == j + rhs.exp
      invariant High(lhs.bigits, lhs.exp, i + lhs.exp + 1) == High(rhs.bigits, rhs.exp, i + lhs.exp + 1)
    {
      HighStep(lhs.bigits, lhs.exp, i + lhs.exp);
      HighStep(rhs.bigits, rhs.exp, i + lhs.exp);
      var lhsBigit, rhsBigit := lhs.bigits[i], rhs.bigits[j];
      if lhsBigit != rhsBigit {
        FirstDifference(lhs.bigits, lhs.exp, rhs.bigits, rhs.exp, i + lhs.exp);
        return if lhsBigit > rhsBigit then 1 else -1;
      }
      i, j := i - 1, j - 1;
    }
    CommonDigits(lhs.bigits, lhs.exp, rhs.bigits, rhs.exp, i + lhs.exp + 1);
    if i != j {
      return if i > j then 1 else -1;
    }
    return 0;
  }

  /** A number is not counted as bigger than it is: only a zero with many positions is. */
  predicate WithinPositions(n: Bigint, positions: nat)
    reads n
  {
    n.Positive() || n.NumBigits() <= positions
  }

  /**
    compare(lhs1 + lhs2, rhs), scanning from the top with a running borrow of 0 or 1. A zero on
    the right counts as big as its number of positions.
  */
  method AddCompare(lhs1: Bigint, lhs2: Bigint, rhs: Bigint) returns (result: int)
    requires lhs1.Normal() && lhs2.Normal() && rhs.Normal()
    ensures rhs.Positive() ==>
              result == (if WithinPositions(lhs1, rhs.NumBigits()) && WithinPositions(lhs2, rhs.NumBigits())
                         then Sign(lhs1.Value() + lhs2.Value() - rhs.Value()) else 1)
    ensures !rhs.Positive() ==>
              result == if lhs1.NumBigits() + 1 < rhs.NumBigits() && lhs2.NumBigits() + 1 < rhs.NumBigits() then -1
                        else if lhs1.NumBigits() > rhs.NumBigits() || lhs2.NumBigits() > rhs.NumBigits() then 1
                        else Sign(lhs1.Value() + lhs2.Value())
  {
    hide High, Val, Scaled, Pow, DigitAt;
    var maxLhsBigits := if lhs1.NumBigits() > lhs2.NumBigits() then lhs1.NumBigits() else lhs2.NumBigits();
    var numRhsBigits := rhs.NumBigits();
    lhs1.NormalZero();
    lhs2.NormalZero();
    rhs.NormalZero();
    if maxLhsBigits + 1 < numRhsBigits {
      if rhs.Positive() {
        SumTooShort(lhs1.bigits, lhs1.exp, lhs2.bigits, lhs2.exp, rhs.bigits, rhs.exp, maxLhsBigits);
      }
      return -1;
    }
    if maxLhsBigits > numRhsBigits {
      if lhs1.Positive() && lhs1.NumBigits() == maxLhsBigits {
        LongerIsBigger(lhs1.bigits, lhs1.exp, rhs.bigits, rhs.exp);
      }
      if lhs2.Positive() && lhs2.NumBigits() == maxLhsBigits {
        LongerIsBigger(lhs2.bigits, lhs2.exp, rhs.bigits, rhs.exp);
      }
      return 1;
    }
    result := ScanDigits(lhs1, lhs2, rhs);
  }

  /** The loop of add_compare, over all digits of rhs and what is below them. */
  method ScanDigits(lhs1: Bigint, lhs2: Bigint, rhs: Bigint) returns (result: int)
    requires lhs1.NumBigits() <= rhs.NumBigits() && lhs2.NumBigits() <= rhs.NumBigits() && rhs.bigits != []
    ensures result == Sign(lhs1.Value() + lhs2.Value() - rhs.Value())
  {
    hide High, Val, Scaled, Pow, DigitAt;
    var numRhsBigits := rhs.NumBigits();
    var borrow: double_bigit := 0;
    var minExp := if lhs1.exp < lhs2.exp then lhs1.exp else lhs2.exp;
    if rhs.exp < minExp { minExp := rhs.exp; }
    HighBeyond(lhs1.bigits, lhs1.exp, numRhsBigits);
    HighBeyond(lhs2.bigits, lhs2.exp, numRhsBigits);
    HighBeyond(rhs.bigits, rhs.exp, numRhsBigits);
    var i := numRhsBigits - 1;
    while i >= minExp
      invariant minExp - 1 <= i < numRhsBigits
      invariant borrow == 0 || borrow == BASE
      invariant borrow == BASE * (High(rhs.bigits, rhs.exp, i + 1)
                                  - High(lhs1.bigits, lhs1.exp, i + 1) - High(lhs2.bigits, lhs2.exp, i + 1))
    {
      HighStep(lhs1.bigits, lhs1.exp, i);
      HighStep(lhs2.bigits, lhs2.exp, i);
      HighStep(rhs.bigits, rhs.exp, i);
      var sum: double_bigit := DigitAt(lhs1.bigits, lhs1.exp, i) as int + DigitAt(lhs2.bigits, lhs2.exp, i);
      var rhsBigit: nat := DigitAt(rhs.bigits, rhs.exp, i);
      if sum > rhsBigit + borrow {
        SumDecided(lhs1.bigits, lhs1.exp, lhs2.bigits, lhs2.exp, rhs.bigits, rhs.exp, i);
        return 1;
      }
      borrow := rhsBigit + borrow - sum;
      if borrow > 1 {
        SumDecided(lhs1.bigits, lhs1.exp, lhs2.bigits, lhs2.exp, rhs.bigits, rhs.exp, i);
        return -1;
      }
      borrow := borrow * BASE;
      i := i - 1;
    }
    SumExact(lhs1.bigits, lhs1.exp, lhs2.bigits, lhs2.exp, rhs.bigits, rhs.exp, minExp);
    return if borrow != 0 then -1 else 0;
  }

  /** Equal to the divisor, but not seen to be: compare() finds more digits in the divisor. */
  ghost predicate UnseenEqual(value: nat, exp: nat, divisor: Bigint)
    reads divisor
  {
    value == divisor.Value() && exp > divisor.exp
  }

  // ---------------------------------------------------------------- operands on which they fail

  /** 2^32 stored as one digit at exponent 1 and as two digits at exponent 0. */
  method TwoForms() returns (short: Bigint, long: Bigint)
    ensures fresh(short) && fresh(long) && short != long
    ensures short.bigits == [1] && short.exp == 1 && long.bigits == [0, 1] && long.exp == 0
    ensures short.Normal() && long.Normal() && short.Value() == BASE == long.Value()
  {
    short := new Bigint();
    short.bigits, short.exp := [1], 1;
    long := new Bigint();
    long.bigits, long.exp := [0, 1], 0;
    TwoFormsAgree();
  }

  lemma TwoFormsAgree()
    ensures Scaled([1], 1) == BASE == Scaled([0, 1], 0)
  {
    assert Pow(BASE, 0) == 1 && Pow(BASE, 1) == BASE;
    ValOne(1);
    assert [0, 1][1..] == [1];
    assert Val([0, 1]) == BASE * 1;
  }

  /** Two equal numbers are told apart. */
  method EqualsCompareUnequal() returns (forth: int, back: int)
    ensures forth == -1 && back == 1
  {
    var short, long := TwoForms();
    forth := Compare(short, long);
    back := Compare(long, short);
  }

  /** A number divided by itself: nothing, or one, depending on which of the two forms is divided. */
  method DividesByItself() returns (quotient: nat, ghost left: nat, other: nat)
    ensures quotient == 0 && left == BASE && other == 1
  {
    hide Scaled;
    var short, long := TwoForms();
    quotient := short.DivmodAssign(long);
    left := short.Value();
    short, long := TwoForms();
    other := long.DivmodAssign(short);
    SelfQuotient(BASE, other, long.Value());
  }

  lemma SelfQuotient(n: nat, q: nat, r: nat)
    requires n > 0 && n == q * n + r && r < n
    ensures q == 1 && r == 0
  {
    SameQuotient(n, q, r, 1, 0);
  }

  /** 2^64 - 1 with the digit that should pay for the borrow being zero: the result is too big. */
  method BorrowsFromZero() returns (difference: nat, ghost value: nat)
    ensures difference == 0x1_FFFF_FFFE_FFFF_FFFF && value == 0xFFFF_FFFF_FFFF_FFFF
    ensures difference == value + 0xFFFF_FFFF_0000_0000
  {
    var n := new Bigint();
    var one := new Bigint();
    n.bigits, n.exp := [0, 0, 1], 0;
    one.bigits, one.exp := [1], 0;
    BorrowOperands();
    ghost var before := n.Value();
    value := before - one.Value();
    n.SubtractAligned(one);
    assert n.Value() == value + Weight(BASE - 1, 1);
    assert Pow(BASE, 0) == 1;
    difference := Val(n.bigits);
  }

  lemma BorrowOperands()
    ensures Scaled([0, 0, 1], 0) == BASE * BASE && Scaled([1], 0) == 1
    ensures !BorrowStops([0, 0, 1], [1], 0)
    ensures Weight(BASE - 1, 1) == BASE * (BASE - 1)
  {
    assert Pow(BASE, 0) == 1 && Pow(BASE, 1) == BASE;
    ValOne(1);
    ValOne(0);
    var s := [0, 0, 1];
    assert s[1..] == [0, 1] && [0, 1][1..] == [1];
    assert Val([0, 1]) == BASE * Val([1]);
    assert s[..1] == [0];
  }

  // ---------------------------------------------------------------- arithmetic of the steps

  /** The first i digits of t, with the carry, are value times those of s; the rest is still s. */
  ghost predicate Multiplied(s: seq<bigit>, t: seq<bigit>, i: nat, carry: nat, value: nat) {
    && i <= |s| == |t| && t[i..] == s[i..]
    && Val(t[..i]) + Weight(carry, i) == Val(s[..i]) * value
  }

  lemma MultipliedStart(s: seq<bigit>, value: nat)
    ensures Multiplied(s, s, 0, 0, value)
  {
  }

  lemma MultipliedDigit(s: seq<bigit>, t: seq<bigit>, i: nat, carry: nat, value: nat)
    requires Multiplied(s, t, i, carry, value) && i < |s|
    ensures t[i] == s[i]
  {
    assert t[i] == t[i..][0] == s[i];
  }

  lemma MultipliedStep(s: seq<bigit>, t: seq<bigit>, i: nat, carry: nat, value: nat, digit: bigit, next: nat)
    requires Multiplied(s, t, i, carry, value) && i < |s|
    requires digit + BASE * next == s[i] * value + carry
    ensures Multiplied(s, t[i := digit], i + 1, next, value)
  {
    assert t[i := digit][i + 1..] == t[i..][1..] == s[i + 1..];
    ValReplace(t, i, digit);
    ValPrefixStep(s, i);
    CarryStep(Val(t[..i]), Pow(BASE, i), carry, Val(s[..i]), value, s[i], digit, next);
  }

  lemma MultipliedAll(s: seq<bigit>, t: seq<bigit>, carry: nat, value: nat)
    requires Multiplied(s, t, |s|, carry, value)
    ensures ProductSoFar(s, t, carry, value)
  {
    hide Weight, Val;
    assert t[..|t|] == t && s[..|s|] == s;
  }

  /** t with the carry still to be appended is value times s. */
  ghost predicate ProductSoFar(s: seq<bigit>, t: seq<bigit>, carry: nat, value: nat) {
    Val(t) + Weight(carry, |t|) == Val(s) * value
  }

  lemma ProductAppend(s: seq<bigit>, t: seq<bigit>, carry: nat, value: nat)
    requires ProductSoFar(s, t, carry, value) && carry > 0
    ensures ProductSoFar(s, t + [Low(carry)], Rest(carry), value)
    ensures Rest(carry) < carry && (Rest(carry) == 0 ==> Low(carry) != 0)
  {
    hide Weight, Val;
    AppendDigit(t, carry);
    LowRest(carry);
  }

  lemma MultipliedEnd(s: seq<bigit>, t: seq<bigit>, carry: bigit, value: nat, exp: nat)
    requires Multiplied(s, t, |s|, carry, value)
    ensures var u := if carry != 0 then t + [carry] else t;
            && Scaled(u, exp) == Scaled(s, exp) * value
            && (s != [] && s[|s| - 1] != 0 && value > 0 ==> u[|u| - 1] != 0)
  {
    hide Weight, Val, Scaled;
    MultipliedAll(s, t, carry, value);
    if carry == 0 {
      ProductScaled(s, t, exp, value);
    } else {
      ProductAppend(s, t, carry, value);
      ProductScaled(s, t + [carry], exp, value);
    }
  }

  lemma AppendDigit(s: seq<bigit>, n: nat)
    ensures Val(s + [Low(n)]) + Weight(Rest(n), |s| + 1) == Val(s) + Weight(n, |s|)
  {
    hide Val;
    ValAppend(s, Low(n));
    LowRest(n);
    Regroup(Pow(BASE, |s|), Low(n), Rest(n), n);
  }

  lemma ValAppend(s: seq<bigit>, x: bigit)
    ensures Val(s + [x]) == Val(s) + Weight(x, |s|)
  {
    var t := s + [x];
    assert t[..|s|] == s && t[..|s| + 1] == t;
    ValPrefixStep(t, |s|);
  }

  lemma Regroup(p: nat, d: nat, q: nat, n: nat)
    requires n == d + BASE * q
    ensures p * d + (BASE * p) * q == p * n
  {
    assert (BASE * p) * q == p * (BASE * q);
    assert p * (d + BASE * q) == p * d + p * (BASE * q);
  }

  lemma DigitProduct(b: bigit, value: bigit, carry: bigit)
    requires carry <= value
    ensures 0 <= b * value + carry <= MAX64
    ensures Rest(b * value + carry) <= value
  {
    MulLe(b, BASE - 1, value);
  }

  lemma WideNonNegative(lower: nat, upper: nat, b: nat, shift: nat)
    ensures lower * b >= 0 && upper * b * shift >= 0
  {
    MulLe(0, lower, b);
    MulLe(0, upper, b);
    MulLe(0, upper * b, shift);
  }

  lemma WideDigit(b: bigit, value: nat, lower: nat, upper: nat, half: nat, shift: nat,
                  carry: nat, result: nat, next: nat)
    requires half == BASE * shift && (shift == 1 || shift == BASE)
    requires lower == value % half && upper == value / half && value < half * half && carry <= value
    requires result == lower * b + Low(carry)
    requires next == upper * b * shift + Rest(result) + Rest(carry)
    ensures result < half * half
    ensures next <= value
    ensures Low(result) + BASE * next == b * value + carry
  {
    MulLe(0, lower, b);
    MulLe(0, upper, b);
    MulLe(0, upper * b, shift);
    MulLe(lower, half - 1, b);
    MulLe(b, BASE - 1, half - 1);
    WideRecombine(b, value, lower, upper, half, shift);
    WideQuotients(result, next, carry, lower * b, upper * b * shift);
    MulLe(b, BASE - 1, value);
    if next > value { MulLe(value + 1, next, BASE); }
  }

  lemma WideQuotients(result: nat, next: nat, carry: nat, low: nat, high: nat)
    requires result == low + Low(carry) && next == high + Rest(result) + Rest(carry)
    ensures Low(result) + BASE * next == low + BASE * high + carry
  {
  }

  lemma WideRecombine(b: nat, value: nat, lower: nat, upper: nat, half: nat, shift: nat)
    requires value == lower + upper * half && half == BASE * shift
    ensures b * value == lower * b + BASE * (upper * b * shift)
  {
    calc {
      b * value;
      b * lower + b * (upper * half);
      { MulAssoc(b, upper, half); }
      b * lower + (b * upper) * (BASE * shift);
      { MulAssoc(b * upper, BASE, shift); }
      b * lower + (b * upper * BASE) * shift;
      b * lower + BASE * (upper * b * shift);
    }
  }

  /** What a finished product of digit strings means once both are scaled. */
  lemma ProductScaled(s: seq<bigit>, t: seq<bigit>, exp: nat, value: nat)
    requires ProductSoFar(s, t, 0, value)
    ensures Scaled(t, exp) == Scaled(s, exp) * value
    ensures s != [] && s[|s| - 1] != 0 && value > 0 && |t| == |s| ==> t[|t| - 1] != 0
  {
    assert Val(t) == Val(s) * value;
    MulAssoc(Val(s), value, Pow(BASE, exp));
    MulAssoc(Val(s), Pow(BASE, exp), value);
    if s != [] && s[|s| - 1] != 0 && value > 0 && |t| == |s| {
      ValTop(s);
      MulLe(1, value, Val(s));
      TopNonzero(t);
    }
  }

  lemma ShiftFactors(k: nat)
    requires k < 32
    ensures Pow(2, k) * Pow(2, 32 - k) == BASE
    ensures Pow(2, k) > 0 && Pow(2, 32 - k) > 0
  {
    PowAdd(2, k, 32 - k);
    PowPositive(2, k);
    PowPositive(2, 32 - k);
    TwoTo32();
  }

  lemma TwoTo32()
    ensures Pow(2, 32) == BASE
  {
    PowAdd(2, 16, 16);
    PowAdd(2, 8, 8);
    PowAdd(2, 4, 4);
    assert Pow(2, 4) == 16;
  }

  lemma ShiftSplit(s: seq<bigit>, exp: nat, shift: nat)
    ensures Scaled(s, exp + shift / 32) * Pow(2, shift % 32) == Scaled(s, exp) * Pow(2, shift)
  {
    var q, r := shift / 32, shift % 32;
    assert Pow(BASE, q) * Pow(2, r) == Pow(2, shift) by {
      TwoTo32();
      PowMul(2, 32, q);
      PowAdd(2, 32 * q, r);
    }
    PowAdd(BASE, exp, q);
    Reassociate(Val(s), Pow(BASE, exp), Pow(BASE, q), Pow(2, r));
  }

  lemma Reassociate(v: int, x: int, y: int, z: int)
    ensures (v * (x * y)) * z == (v * x) * (y * z)
  {
    MulAssoc(v, x, y);
    MulAssoc(v * x, y, z);
  }

  lemma ShiftDigit(b: bigit, up: nat, down: nat, carry: nat)
    requires up * down == BASE && up > 0 && down > 0 && carry < up
    ensures 0 <= b * up && Low(b * up) <= BASE - up
    ensures 0 <= b / down < up
    ensures Low(b * up) + BASE * (b / down) == b * up
  {
    var h, l := DivParts(b, down);
    ShiftParts(b, up, down, h, l);
    LowOf(b * up, h, l * up);
    if h >= up {
      MulLe(up, h, down);
    }
  }

  lemma DivParts(b: nat, down: nat) returns (h: nat, l: nat)
    requires down > 0
    ensures h == b / down && b == down * h + l && l < down
  {
    h, l := b / down, b % down;
  }

  lemma LowOf(x: nat, h: nat, l: nat)
    requires x == BASE * h + l && l < BASE
    ensures Low(x) == l
  {
  }

  lemma ShiftParts(b: nat, up: nat, down: nat, h: nat, l: nat)
    requires up * down == BASE && up > 0 && b == down * h + l && l < down
    ensures b * up == BASE * h + l * up
    ensures 0 <= l * up <= BASE - up
  {
    assert (down * h + l) * up == (down * h) * up + l * up;
    MulAssoc(up, down, h);
    MulLe(0, l, up);
    MulLe(l, down - 1, up);
    assert (down - 1) * up == down * up - up;
  }

  // ---------------------------------------------------------------- squaring

  /** Digits below index of the square are final; sum is what is carried into digit index. */
  ghost predicate SquaredTo(n: seq<bigit>, t: seq<bigit>, index: nat, sum: nat) {
    && index <= |t|
    && Val(t[..index]) + Weight(sum, index) == Diagonals(n, |n|, index)
    && sum <= |n| * BASE
  }

  lemma SquareStart(n: seq<bigit>, t: seq<bigit>)
    ensures SquaredTo(n, t, 0, 0)
  {
    assert t[..0] == [];
  }

  lemma DiagonalFits(n: seq<bigit>, k: nat, m: nat, carried: nat)
    requires |n| <= INT_MAX && m <= |n| && carried <= |n| * BASE
    ensures carried + Diagonal(n, k, m) <= |n| * (BASE * BASE) <= MAX128
  {
    DiagonalBound(n, k, m);
  }

  lemma SquareStep(n: seq<bigit>, t: seq<bigit>, index: nat, carried: nat, sum: nat)
    requires SquaredTo(n, t, index, carried) && index < |t| && |n| <= INT_MAX
    requires sum == carried + Diagonal(n, index, |n|)
    ensures SquaredTo(n, t[index := Low(sum)], index + 1, Rest(sum))
  {
    ValReplace(t, index, Low(sum));
    LowRest(sum);
    DiagonalFits(n, index, |n|, carried);
    AccumulateArithmetic(Val(t[..index]), Pow(BASE, index), carried, Diagonal(n, index, |n|),
                         Low(sum), Rest(sum), Diagonals(n, |n|, index));
  }

  lemma AccumulateArithmetic(v: int, p: int, carried: int, d: int, low: int, rest: int, total: int)
    requires v + p * carried == total && carried + d == low + BASE * rest
    ensures (v + p * low) + (BASE * p) * rest == total + d * p
  {
    assert p * (carried + d) == p * carried + d * p;
    assert p * (low + BASE * rest) == p * low + (BASE * p) * rest;
  }

  lemma SquareDone(n: seq<bigit>, t: seq<bigit>, sum: nat)
    requires |t| == 2 * |n| && SquaredTo(n, t, 2 * |n|, sum)
    ensures Val(t) == Val(n) * Val(n)
  {
    assert t[..2 * |n|] == t && n[..|n|] == n;
    DiagonalsValue(n, |n|);
    ValBound(n);
    PowAdd(BASE, |n|, |n|);
    SquareBelow(Val(n), Pow(BASE, |n|));
    if sum > 0 {
      MulLe(1, sum, Pow(BASE, 2 * |n|));
    }
  }

  lemma SquareBelow(v: nat, b: nat)
    requires v < b
    ensures v * v < b * b
  {
    MulLe(v, b, v);
    MulLt(v, b, b);
  }

  lemma SquareScaled(n: seq<bigit>, t: seq<bigit>, exp: nat)
    requires Val(t) == Val(n) * Val(n)
    ensures Scaled(t, 2 * exp) == Scaled(n, exp) * Scaled(n, exp)
    ensures n != [] && n[|n| - 1] != 0 ==> Scaled(t, 2 * exp) > 0
  {
    if n != [] && n[|n| - 1] != 0 {
      PositiveBounds(n, exp);
      MulPositive(Scaled(n, exp), Scaled(n, exp));
    }
    PowAdd(BASE, exp, exp);
    SquareProduct(Val(n), Pow(BASE, exp));
  }

  lemma SquareProduct(v: int, p: int)
    ensures (v * v) * (p * p) == (v * p) * (v * p)
  {
    MulAssoc(v * v, p, p);
    MulAssoc(v, v, p);
    MulAssoc(v * p, v, p);
    MulAssoc(v, p, v);
  }

  // ---------------------------------------------------------------- powers of ten

  /** The bits of e from bit k up. */
  ghost function Prefix(e: nat, k: nat): nat {
    PowPositive(2, k);
    e / Pow(2, k)
  }

  ghost function Half(k: nat): nat {
    if k == 0 then 0 else Pow(2, k - 1)
  }

  lemma PrefixStep(e: nat, k: nat)
    requires k > 0
    ensures Half(k) > 0 && Half(k) / 2 == Half(k - 1)
    ensures Prefix(e, k - 1) == e / Half(k) == 2 * Prefix(e, k) + (e / Half(k)) % 2
    ensures Prefix(e, k) <= e
  {
    PowPositive(2, k - 1);
    HalfStep(e, Half(k));
    var h, l := DivParts(e, Pow(2, k));
    MulLe(1, Pow(2, k), h);
  }

  lemma HalfStep(e: nat, b: nat)
    requires b > 0
    ensures e / b == 2 * (e / (2 * b)) + (e / b) % 2
  {
    var q, r := DivParts(e, 2 * b);
    MulAssoc(b, 2, q);
    if r >= b {
      assert b * (2 * q + 1) == b * (2 * q) + b;
      DivMod(e, b, 2 * q + 1, r - b);
    } else {
      DivMod(e, b, 2 * q, r);
    }
  }

  /** A number of the form 5^p takes few digits, so square() stays within int. */
  lemma FiveFits(s: seq<bigit>, p: nat, e: nat)
    requires s != [] && s[|s| - 1] != 0 && Scaled(s, 0) == Pow(5, p) && p <= e <= INT_MAX / 2
    ensures 2 * |s| <= INT_MAX
  {
    ValTop(s);
    assert Pow(BASE, 0) == 1;
    FiveBelowEight(p);
    TwoTo32();
    PowMul(2, 32, |s| - 1);
    PowMul(2, 3, p);
    assert Pow(2, 3) == 8;
    if 32 * (|s| - 1) > 3 * p {
      PowMonotone(2, 3 * p, 32 * (|s| - 1));
      PowStrict(2, 3 * p, 32 * (|s| - 1));
    }
  }

  lemma PowStrict(b: nat, m: nat, n: nat)
    requires b > 1 && m < n
    ensures Pow(b, m) < Pow(b, n)
  {
    PowPositive(b, m);
    PowMonotone(b, m + 1, n);
    MulLt(1, b, Pow(b, m));
  }

  lemma {:induction false} FiveBelowEight(p: nat)
    ensures Pow(5, p) <= Pow(8, p)
  {
    if p > 0 { FiveBelowEight(p - 1); }
  }

  // ---------------------------------------------------------------- subtraction

  lemma AlignScaled(s: seq<bigit>, exp: nat, d: nat)
    requires d <= exp
    ensures Scaled(seq<bigit>(d, _ => 0) + s, exp - d) == Scaled(s, exp)
  {
    var z := seq<bigit>(d, _ => 0);
    ValZeros(z);
    ValConcat(z, s);
    PowAdd(BASE, d, exp - d);
    SwapFactors(Pow(BASE, d), Val(s), Pow(BASE, exp - d));
  }

  lemma SwapFactors(p: int, v: int, q: int)
    ensures (p * v) * q == v * (p * q)
  {
    MulAssoc(v, p, q);
  }

  lemma LengthsFit(s: seq<bigit>, exp: nat, o: seq<bigit>, oexp: nat)
    requires o != [] && o[|o| - 1] != 0 && Scaled(s, exp) >= Scaled(o, oexp)
    ensures |s| + exp >= |o| + oexp
  {
    PositiveBounds(o, oexp);
    HighBounds(s, exp, |s| + exp);
    if |s| + exp < |o| + oexp {
      PowMonotone(BASE, |s| + exp, |o| + oexp - 1);
    }
  }

  /** No borrow leaves the digits that other covers, or the next digit can pay for it. */
  ghost predicate BorrowStops(s: seq<bigit>, o: seq<bigit>, shift: nat) {
    var k := shift + |o|;
    k < |s| ==> s[k] != 0 || Val(s[..k]) >= Scaled(o, shift)
  }

  /** Digits below shift + j are those of the difference so far, b being still owed. */
  ghost predicate Borrowed(s: seq<bigit>, t: seq<bigit>, o: seq<bigit>, j: nat, shift: nat, b: nat) {
    && j <= |o| && shift + j <= |s| == |t| && b <= 1
    && t[shift + j..] == s[shift + j..]
    && Val(t[..shift + j]) - (if b == 0 then 0 else Pow(BASE, shift + j)) + Scaled(o[..j], shift) == Val(s[..shift + j])
  }

  lemma BorrowStart(s: seq<bigit>, o: seq<bigit>, shift: nat)
    requires shift <= |s|
    ensures Borrowed(s, s, o, 0, shift, 0)
  {
    assert Scaled(o[..0], shift) == 0;
  }

  lemma BorrowStep(s: seq<bigit>, before: seq<bigit>, after: seq<bigit>, o: seq<bigit>,
                   j: nat, shift: nat, b: nat, next: nat)
    requires Borrowed(s, before, o, j, shift, b) && j < |o| && shift + j < |s|
    requires |after| == |before| && after == before[shift + j := after[shift + j]]
    requires next <= 1 && after[shift + j] - BASE * next == before[shift + j] - o[j] - b
    ensures Borrowed(s, after, o, j + 1, shift, next)
  {
    var i := shift + j;
    assert before[i] == before[i..][0] == s[i];
    assert after[i + 1..] == before[i..][1..] == s[i + 1..];
    ValReplace(before, i, after[i]);
    ValPrefixStep(s, i);
    ScaledPrefixStep(o, j, shift);
    BorrowArithmetic(Val(before[..i]), Pow(BASE, i), b, Scaled(o[..j], shift),
                     Val(s[..i]), after[i], next, s[i], o[j]);
  }

  lemma ScaledPrefixStep(o: seq<bigit>, j: nat, shift: nat)
    requires j < |o|
    ensures Scaled(o[..j + 1], shift) == Scaled(o[..j], shift) + Weight(o[j], shift + j)
  {
    ValPrefixStep(o, j);
    PowAdd(BASE, shift, j);
    DistributeTerm(Val(o[..j]), Pow(BASE, j), o[j], Pow(BASE, shift));
  }

  lemma DistributeTerm(w: int, r: int, y: int, q: int)
    ensures (w + r * y) * q == w * q + (q * r) * y
  {
    assert (w + r * y) * q == w * q + (r * y) * q;
    MulAssoc(q, r, y);
  }

  lemma BorrowArithmetic(v: int, p: int, b: int, w: int, u: int, d: int, next: int, x: int, y: int)
    requires 0 <= b <= 1 && 0 <= next <= 1
    requires v - (if b == 0 then 0 else p) + w == u
    requires d - BASE * next == x - y - b
    ensures (v + p * d) - (if next == 0 then 0 else BASE * p) + (w + p * y) == u + p * x
  {
    assert p * (d - BASE * next) == p * d - p * (BASE * next);
    assert p * (x - y - b) == p * x - p * y - p * b;
    assert p * b == if b == 0 then 0 else p;
    assert p * (BASE * next) == if next == 0 then 0 else BASE * p;
  }

  /** The borrow out of the covered digits says whether those digits were too small. */
  lemma BorrowOut(s: seq<bigit>, t: seq<bigit>, o: seq<bigit>, shift: nat, b: nat)
    requires Borrowed(s, t, o, |o|, shift, b)
    ensures b == 1 <==> Val(s[..shift + |o|]) < Scaled(o, shift)
    ensures shift + |o| == |s| && Val(s) >= Scaled(o, shift) ==> b == 0
    ensures shift + |o| < |s| ==> t[shift + |o|] == s[shift + |o|]
  {
    var k := shift + |o|;
    assert o[..|o|] == o;
    ValBound(t[..k]);
    BorrowBit(Val(t[..k]), Pow(BASE, k), b, Scaled(o, shift), Val(s[..k]));
    if k == |s| {
      assert s[..k] == s;
    } else {
      assert t[k] == t[k..][0] && s[k] == s[k..][0];
    }
  }

  lemma BorrowBit(v: int, p: int, b: int, sub: int, u: int)
    requires 0 <= v < p && 0 <= b <= 1 && v - (if b == 0 then 0 else p) + sub == u
    ensures b == 1 <==> u < sub
  {
  }

  lemma BorrowResult(s: seq<bigit>, aligned: seq<bigit>, t: seq<bigit>, o: seq<bigit>, shift: nat, b: nat)
    requires Borrowed(s, aligned, o, |o|, shift, b)
    requires b == 0 ==> t == aligned
    requires b == 1 ==> shift + |o| < |s| &&
                        t == aligned[shift + |o| := if s[shift + |o|] == 0 then BASE - 2 else s[shift + |o|] - 1]
    ensures Val(t) == Val(s) - Scaled(o, shift) + Surplus(s, o, shift)
  {
    BorrowOut(s, aligned, o, shift, b);
    if b == 0 {
      NothingOwed(s, t, o, shift);
    } else {
      OneOwed(s, aligned, t, o, shift);
    }
  }

  lemma NothingOwed(s: seq<bigit>, t: seq<bigit>, o: seq<bigit>, shift: nat)
    requires Borrowed(s, t, o, |o|, shift, 0)
    ensures Val(t) == Val(s) - Scaled(o, shift)
  {
    var k := shift + |o|;
    assert o[..|o|] == o;
    assert Val(s) - Val(s[..k]) == Val(t) - Val(t[..k]) by {
      ValSplit(s, k);
      ValSplit(t, k);
    }
  }

  lemma OneOwed(s: seq<bigit>, aligned: seq<bigit>, t: seq<bigit>, o: seq<bigit>, shift: nat)
    requires Borrowed(s, aligned, o, |o|, shift, 1) && shift + |o| < |s|
    requires t == aligned[shift + |o| := if s[shift + |o|] == 0 then BASE - 2 else s[shift + |o|] - 1]
    ensures Val(t) == Val(s) - Scaled(o, shift) + if s[shift + |o|] != 0 then 0 else Weight(BASE - 1, shift + |o|)
  {
    var k := shift + |o|;
    hide Weight, Scaled, Pow, Val;
    assert o[..|o|] == o;
    assert t[..k] == aligned[..k];
    assert t[k + 1..] == aligned[k..][1..] == s[k + 1..];
    ValAround(s, k);
    ValAround(t, k);
    BorrowPaid(k, t[k], s[k]);
  }

  lemma ValAround(s: seq<bigit>, k: nat)
    requires k < |s|
    ensures Val(s) == Val(s[..k]) + Weight(s[k], k) + Scaled(s[k + 1..], k + 1)
  {
    ValPrefixStep(s, k);
    ValSplit(s, k + 1);
  }

  lemma BorrowPaid(k: nat, y: nat, x: nat)
    ensures y == x - 1 ==> Weight(y, k) == Weight(x, k) - Pow(BASE, k)
    ensures x == 0 && y == BASE - 2 ==> Weight(y, k) == Weight(x, k) - Pow(BASE, k) + Weight(BASE - 1, k)
  {
    var p := Pow(BASE, k);
    if x == 0 && y == BASE - 2 {
      assert p * y == (BASE - 2) * p && p * x == 0;
    }
  }

  /** What the result is too big by. */
  ghost function Surplus(s: seq<bigit>, o: seq<bigit>, shift: nat): nat {
    if BorrowStops(s, o, shift) then 0 else Weight(BASE - 1, shift + |o|)
  }

  lemma ResultScaled(s: seq<bigit>, t: seq<bigit>, o: seq<bigit>, exp: nat, shift: nat)
    requires Val(t) == Val(s) - Scaled(o, shift) + Surplus(s, o, shift)
    ensures Scaled(t, exp) == Scaled(s, exp) - Scaled(o, exp + shift) +
              if BorrowStops(s, o, shift) then 0 else Weight(BASE - 1, exp + shift + |o|)
    ensures Weight(BASE - 1, exp + shift + |o|) > 0
  {
    PowPositive(BASE, exp + shift + |o|);
    MulPositive(Pow(BASE, exp + shift + |o|), BASE - 1);
    PowAdd(BASE, shift, exp);
    PowAdd(BASE, exp, shift + |o|);
    var p, w := Pow(BASE, exp), Pow(BASE, shift + |o|);
    MulAssoc(Val(o), Pow(BASE, shift), p);
    hide Pow, Val, BorrowStops;
    SurplusScaled(Val(t), Val(s), Scaled(o, shift), Surplus(s, o, shift), p);
    assert p * (w * (BASE - 1)) == (p * w) * (BASE - 1) by { MulAssoc(p, w, BASE - 1); }
  }

  lemma SurplusScaled(t: int, s: int, o: int, more: int, p: int)
    requires t == s - o + more
    ensures t * p == s * p - o * p + p * more
  {
    assert (s - o + more) * p == s * p - o * p + p * more;
  }

  lemma ScaledDifference(s: seq<bigit>, t: seq<bigit>, o: seq<bigit>, exp: nat, shift: nat)
    ensures Val(t) == Val(s) - Scaled(o, shift) <==>
            Scaled(t, exp) == Scaled(s, exp) - Scaled(o, exp + shift)
    ensures Val(s) >= Scaled(o, shift) <==> Scaled(s, exp) >= Scaled(o, exp + shift)
  {
    PowAdd(BASE, shift, exp);
    PowPositive(BASE, exp);
    MulAssoc(Val(o), Pow(BASE, shift), Pow(BASE, exp));
    ScaleDifference(Val(t), Val(s), Scaled(o, shift), Pow(BASE, exp));
  }

  lemma ScaleDifference(t: int, s: int, o: int, p: int)
    requires p > 0
    ensures t == s - o <==> t * p == s * p - o * p
    ensures s >= o <==> s * p >= o * p
  {
    assert (s - o) * p == s * p - o * p;
    if t * p == s * p - o * p { MulCancelEq(t, s - o, p); }
    if s >= o { MulLe(o, s, p); } else { MulLt(s, o, p); }
  }

  // ---------------------------------------------------------------- facts about comparison

  lemma LongerIsBigger(s: seq<bigit>, sexp: nat, t: seq<bigit>, texp: nat)
    ensures s != [] && s[|s| - 1] != 0 && |s| + sexp > |t| + texp ==> Scaled(s, sexp) > Scaled(t, texp)
    ensures t != [] && t[|t| - 1] != 0 && |t| + texp > |s| + sexp ==> Scaled(t, texp) > Scaled(s, sexp)
  {
    HighBounds(s, sexp, |s| + sexp);
    HighBounds(t, texp, |t| + texp);
    if s != [] && s[|s| - 1] != 0 && |s| + sexp > |t| + texp {
      PositiveBounds(s, sexp);
      PowMonotone(BASE, |t| + texp, |s| + sexp - 1);
    }
    if t != [] && t[|t| - 1] != 0 && |t| + texp > |s| + sexp {
      PositiveBounds(t, texp);
      PowMonotone(BASE, |s| + sexp, |t| + texp - 1);
    }
  }

  lemma HighNothing(s: seq<bigit>, exp: nat)
    ensures High(s, exp, |s| + exp) == 0
  {
  }

  lemma HighBeyond(s: seq<bigit>, exp: nat, i: nat)
    requires |s| + exp <= i
    ensures High(s, exp, i) == 0
  {
  }

  lemma FirstDifference(s: seq<bigit>, sexp: nat, t: seq<bigit>, texp: nat, i: nat)
    ensures High(s, sexp, i) > High(t, texp, i) ==> Scaled(s, sexp) > Scaled(t, texp)
    ensures High(s, sexp, i) < High(t, texp, i) ==> Scaled(s, sexp) < Scaled(t, texp)
  {
    HighBounds(s, sexp, i);
    HighBounds(t, texp, i);
    if High(s, sexp, i) > High(t, texp, i) {
      MulLe(High(t, texp, i) + 1, High(s, sexp, i), Pow(BASE, i));
    }
    if High(s, sexp, i) < High(t, texp, i) {
      MulLe(High(s, sexp, i) + 1, High(t, texp, i), Pow(BASE, i));
    }
  }

  /** When all digits down to the larger exponent agree, that operand is exhausted. */
  lemma CommonDigits(s: seq<bigit>, sexp: nat, t: seq<bigit>, texp: nat, i: nat)
    requires High(s, sexp, i) == High(t, texp, i)
    ensures i <= sexp ==> Scaled(s, sexp) <= Scaled(t, texp)
    ensures i <= texp ==> Scaled(t, texp) <= Scaled(s, sexp)
  {
    HighBounds(s, sexp, i);
    HighBounds(t, texp, i);
  }

  lemma SumTooShort(s: seq<bigit>, sexp: nat, t: seq<bigit>, texp: nat, r: seq<bigit>, rexp: nat, top: nat)
    requires |s| + sexp <= top && |t| + texp <= top && top + 1 < |r| + rexp
    requires r != [] && r[|r| - 1] != 0
    ensures Scaled(s, sexp) + Scaled(t, texp) < Scaled(r, rexp)
  {
    HighBounds(s, sexp, top);
    HighBounds(t, texp, top);
    PositiveBounds(r, rexp);
    PowMonotone(BASE, top + 1, |r| + rexp - 1);
  }

  lemma SumDecided(s: seq<bigit>, sexp: nat, t: seq<bigit>, texp: nat, r: seq<bigit>, rexp: nat, i: nat)
    ensures High(s, sexp, i) + High(t, texp, i) > High(r, rexp, i) ==>
              Scaled(s, sexp) + Scaled(t, texp) > Scaled(r, rexp)
    ensures High(s, sexp, i) + High(t, texp, i) + 1 < High(r, rexp, i) ==>
              Scaled(s, sexp) + Scaled(t, texp) < Scaled(r, rexp)
  {
    HighBounds(s, sexp, i);
    HighBounds(t, texp, i);
    HighBounds(r, rexp, i);
    var a, b, c, p := High(s, sexp, i), High(t, texp, i), High(r, rexp, i), Pow(BASE, i);
    SumOfProducts(a, b, p);
    if a + b > c { MulLe(c + 1, a + b, p); }
    if a + b + 1 < c { MulLe(a + b + 2, c, p); }
  }

  lemma SumOfProducts(a: int, b: int, p: int)
    ensures (a + b) * p == a * p + b * p
    ensures (a + b + 2) * p == (a + 1) * p + (b + 1) * p
  {
  }

  lemma SumExact(s: seq<bigit>, sexp: nat, t: seq<bigit>, texp: nat, r: seq<bigit>, rexp: nat, i: nat)
    requires i <= sexp && i <= texp && i <= rexp
    ensures Sign(Scaled(s, sexp) + Scaled(t, texp) - Scaled(r, rexp))
         == Sign(High(s, sexp, i) + High(t, texp, i) - High(r, rexp, i))
  {
    HighBounds(s, sexp, i);
    HighBounds(t, texp, i);
    HighBounds(r, rexp, i);
    PowPositive(BASE, i);
    hide High, Scaled, Pow;
    SignOfSum(High(s, sexp, i), High(t, texp, i), High(r, rexp, i), Pow(BASE, i));
  }

  lemma SignOfSum(a: int, b: int, c: int, p: int)
    requires p > 0
    ensures Sign(a * p + b * p - c * p) == Sign(a + b - c)
  {
    assert a * p + b * p - c * p == (a + b - c) * p;
    SignScaled(a + b - c, p);
  }

  // ---------------------------------------------------------------- division

  lemma QuotientFits(total: nat, q: nat, d: nat, left: nat)
    requires total == q * d + left && left >= d > 0 && total < INT_MAX * d
    ensures q + 1 <= INT_MAX
    ensures left < BASE * d
    ensures total == (q + 1) * d + (left - d)
  {
    MulLe(0, q, d);
    assert (q + 1) * d == q * d + d;
    if q + 1 > INT_MAX { MulLe(INT_MAX, q, d); }
    MulLe(INT_MAX, BASE, d);
  }

  /** A quotient below BASE leaves the minuend at most one digit longer than the divisor. */
  lemma BorrowNeverSpreads(s: seq<bigit>, sexp: nat, o: seq<bigit>, oexp: nat)
    requires s != [] && s[|s| - 1] != 0 && sexp <= oexp
    requires Scaled(s, sexp) < BASE * Scaled(o, oexp)
    ensures BorrowStops(s, o, oexp - sexp)
  {
    var k := oexp - sexp + |o|;
    if k + 1 < |s| {
      PositiveBounds(s, sexp);
      HighBounds(o, oexp, |o| + oexp);
      PowMonotone(BASE, |o| + oexp + 1, |s| + sexp - 1);
    }
  }
}
