/** Positions, carries and diagonal sums behind the operations of Bigints.Bigint. */
module BigintLemmas {
  import opened Powers
  import opened Limbs

  // ---------------------------------------------------------------- digits by absolute position

  /** The digit of weight BASE^i, zero outside the stored range. */
  function DigitAt(s: seq<bigit>, exp: nat, i: nat): bigit {
    if exp <= i < exp + |s| then s[i - exp] else 0
  }

  /** The digits of weight BASE^i and above, read as a number. */
  ghost function High(s: seq<bigit>, exp: nat, i: nat): nat {
    if i >= exp + |s| then 0
    else if i >= exp then Val(s[i - exp..])
    else Val(s) * Pow(BASE, exp - i)
  }

  lemma HighStep(s: seq<bigit>, exp: nat, i: nat)
    ensures High(s, exp, i) == DigitAt(s, exp, i) + BASE * High(s, exp, i + 1)
  {
    if exp <= i < exp + |s| {
      assert s[i - exp..][1..] == s[i + 1 - exp..];
    } else if i < exp {
      assert s[0..] == s;
      if s == [] {
      } else if i + 1 == exp {
        assert Pow(BASE, 1) == BASE * Pow(BASE, 0);
      } else {
        MulAssoc(BASE, Pow(BASE, exp - i - 1), Val(s));
      }
    }
  }

  /** High cuts the value at position i, and loses nothing at or below the exponent. */
  lemma HighBounds(s: seq<bigit>, exp: nat, i: nat)
    ensures High(s, exp, i) * Pow(BASE, i) <= Scaled(s, exp) < (High(s, exp, i) + 1) * Pow(BASE, i)
    ensures i <= exp ==> High(s, exp, i) * Pow(BASE, i) == Scaled(s, exp)
  {
    if i >= exp + |s| {
      HighAbove(s, exp, i);
    } else if i >= exp {
      HighInside(s, exp, i);
    } else {
      PowPositive(BASE, i);
      PowAdd(BASE, exp - i, i);
      MulAssoc(Val(s), Pow(BASE, exp - i), Pow(BASE, i));
      MulLt(High(s, exp, i), High(s, exp, i) + 1, Pow(BASE, i));
    }
  }

  lemma HighAbove(s: seq<bigit>, exp: nat, i: nat)
    requires i >= exp + |s|
    ensures Scaled(s, exp) < Pow(BASE, i)
    ensures i <= exp ==> Scaled(s, exp) == 0
  {
    ValBound(s);
    PowPositive(BASE, exp);
    MulLt(Val(s), Pow(BASE, |s|), Pow(BASE, exp));
    PowAdd(BASE, |s|, exp);
    PowMonotone(BASE, |s| + exp, i);
    if i <= exp { assert s == []; }
  }

  lemma HighInside(s: seq<bigit>, exp: nat, i: nat)
    requires exp <= i < exp + |s|
    ensures High(s, exp, i) * Pow(BASE, i) <= Scaled(s, exp) < (High(s, exp, i) + 1) * Pow(BASE, i)
    ensures i == exp ==> High(s, exp, i) * Pow(BASE, i) == Scaled(s, exp)
  {
    var k := i - exp;
    ValSplit(s, k);
    ValBound(s[..k]);
    PowPositive(BASE, exp);
    PowAdd(BASE, k, exp);
    CutScaled(Val(s[..k]), Pow(BASE, k), Val(s[k..]), Pow(BASE, exp));
    if i == exp { assert s[0..] == s; }
  }

  lemma CutScaled(low: nat, p: nat, high: nat, q: nat)
    requires low < p && q > 0
    ensures high * (p * q) <= (low + p * high) * q < (high + 1) * (p * q)
  {
    calc {
      (low + p * high) * q;
      low * q + (p * high) * q;
      { MulAssoc(high, p, q); }
      low * q + high * (p * q);
    }
    MulLt(low, p, q);
    assert (high + 1) * (p * q) == high * (p * q) + p * q;
  }

  /** A nonzero top digit makes the number of positions a measure of the value. */
  lemma PositiveBounds(s: seq<bigit>, exp: nat)
    requires s != [] && s[|s| - 1] != 0
    ensures Pow(BASE, |s| + exp - 1) <= Scaled(s, exp) < Pow(BASE, |s| + exp)
    ensures Scaled(s, exp) > 0
  {
    ValTop(s);
    PowPositive(BASE, exp);
    PowPositive(BASE, |s| + exp - 1);
    PowAdd(BASE, |s| - 1, exp);
    PowAdd(BASE, |s|, exp);
    MulLe(Pow(BASE, |s| - 1), Val(s), Pow(BASE, exp));
    MulLt(Val(s), Pow(BASE, |s|), Pow(BASE, exp));
  }

  lemma TopNonzero(s: seq<bigit>)
    requires s != [] && Val(s) >= Pow(BASE, |s| - 1)
    ensures s[|s| - 1] != 0
  {
    ValPrefixStep(s, |s| - 1);
    assert s[..|s|] == s;
    ValBound(s[..|s| - 1]);
  }

  // ---------------------------------------------------------------- carry arithmetic

  /** One digit of a product by `value` with a running carry. */
  lemma CarryStep(done: nat, p: nat, carry: nat, prefix: nat, value: nat, b: nat, digit: nat, next: nat)
    requires done + p * carry == prefix * value
    requires digit + BASE * next == b * value + carry
    ensures (done + p * digit) + (BASE * p) * next == (prefix + p * b) * value
  {
    calc {
      (done + p * digit) + (BASE * p) * next;
      done + p * digit + p * (BASE * next);
      done + p * (digit + BASE * next);
      done + p * (b * value + carry);
      done + p * carry + p * (b * value);
      { MulAssoc(p, b, value); }
      prefix * value + (p * b) * value;
      (prefix + p * b) * value;
    }
  }

  /** Replacing digit i extends the processed prefix by that digit. */
  lemma ValReplace(s: seq<bigit>, i: nat, x: bigit)
    requires i < |s|
    ensures Val(s[i := x][..i + 1]) == Val(s[..i]) + Weight(x, i)
  {
    assert s[i := x][..i] == s[..i];
    ValPrefixStep(s[i := x], i);
  }

  // ---------------------------------------------------------------- sums over diagonals

  function Entry(n: seq<bigit>, i: int): bigit {
    if 0 <= i < |n| then n[i] else 0
  }

  /** Sum of n[i] * n[k - i] over i < m. */
  ghost function Diagonal(n: seq<bigit>, k: nat, m: nat): nat {
    if m == 0 then 0 else Diagonal(n, k, m - 1) + Entry(n, m - 1) * Entry(n, k - (m - 1))
  }

  /** Sum of Diagonal(n, k, m) * BASE^k over k < top. */
  ghost function Diagonals(n: seq<bigit>, m: nat, top: nat): nat {
    if top == 0 then 0 else Diagonals(n, m, top - 1) + Diagonal(n, top - 1, m) * Pow(BASE, top - 1)
  }

  /** Sum of Entry(n, k - m) * BASE^k over k < top: the digits of n moved up by m. */
  ghost function Moved(n: seq<bigit>, m: nat, top: nat): nat {
    if top == 0 then 0 else Moved(n, m, top - 1) + Entry(n, top - 1 - m) * Pow(BASE, top - 1)
  }

  lemma {:induction false} DiagonalsStep(n: seq<bigit>, m: nat, top: nat)
    ensures Diagonals(n, m + 1, top) == Diagonals(n, m, top) + Entry(n, m) * Moved(n, m, top)
  {
    if top > 0 {
      DiagonalsStep(n, m, top - 1);
      SplitTerm(Diagonals(n, m, top - 1), Diagonal(n, top - 1, m), Entry(n, m),
                Moved(n, m, top - 1), Entry(n, top - 1 - m), Pow(BASE, top - 1));
    }
  }

  lemma SplitTerm(ds: int, d: int, a: int, mv: int, e: int, p: int)
    ensures (ds + a * mv) + (d + a * e) * p == (ds + d * p) + a * (mv + e * p)
  {
    MulAssoc(a, e, p);
    assert (d + a * e) * p == d * p + (a * e) * p;
    assert a * (mv + e * p) == a * mv + a * (e * p);
  }

  lemma {:induction false} MovedValue(n: seq<bigit>, m: nat, top: nat)
    requires m <= top
    ensures Moved(n, m, top) == Pow(BASE, m) * Val(n[..if top - m < |n| then top - m else |n|])
  {
    if top == m {
      MovedNothing(n, m, top);
      assert Val(n[..0]) == 0;
    } else {
      MovedValue(n, m, top - 1);
      var k := top - 1 - m;
      if k < |n| {
        ValPrefixStep(n, k);
        PowAdd(BASE, m, k);
        assert m + k == top - 1;
        FactorOut(Pow(BASE, m), Val(n[..k]), n[k], Pow(BASE, k));
      }
    }
  }

  lemma FactorOut(p: int, w: int, e: int, q: int)
    ensures p * w + e * (p * q) == p * (w + q * e)
  {
    MulAssoc(e, p, q);
    MulAssoc(p, q, e);
    MulAssoc(p, e, q);
    assert p * (w + q * e) == p * w + p * (q * e);
  }

  lemma {:induction false} MovedNothing(n: seq<bigit>, m: nat, top: nat)
    requires top <= m
    ensures Moved(n, m, top) == 0
  {
    if top > 0 {
      MovedNothing(n, m, top - 1);
    }
  }

  lemma {:induction false} DiagonalsValue(n: seq<bigit>, m: nat)
    requires m <= |n|
    ensures Diagonals(n, m, 2 * |n|) == Val(n[..m]) * Val(n)
  {
    if m == 0 {
      NoDiagonals(n, 2 * |n|);
    } else {
      DiagonalsValue(n, m - 1);
      DiagonalsStep(n, m - 1, 2 * |n|);
      MovedValue(n, m - 1, 2 * |n|);
      assert n[..|n|] == n;
      ValPrefixStep(n, m - 1);
      AddRow(Val(n[..m - 1]), Pow(BASE, m - 1), n[m - 1], Val(n));
    }
  }

  lemma AddRow(w: int, p: int, a: int, v: int)
    ensures w * v + a * (p * v) == (w + p * a) * v
  {
    MulAssoc(a, p, v);
    assert (w + p * a) * v == w * v + (p * a) * v;
  }

  lemma {:induction false} NoDiagonals(n: seq<bigit>, top: nat)
    ensures Diagonals(n, 0, top) == 0
  {
    if top > 0 {
      NoDiagonals(n, top - 1);
    }
  }

  lemma DiagonalStep(n: seq<bigit>, k: nat, i: nat, x: nat, y: nat)
    requires x == Entry(n, i) && y == Entry(n, k - i)
    ensures Diagonal(n, k, i + 1) == Diagonal(n, k, i) + x * y
    ensures 0 <= x * y <= MAX64
  {
    ProductBound(x, y);
  }

  /** The terms that the two inner loops of square() skip are zero. */
  lemma {:induction false} DiagonalSkip(n: seq<bigit>, k: nat, from: nat, m: nat)
    requires from <= m
    requires from > k || m <= k - |n| + 1
    ensures Diagonal(n, k, m) == Diagonal(n, k, from)
  {
    if from < m {
      DiagonalSkip(n, k, from, m - 1);
      assert Entry(n, k - (m - 1)) == 0;
      assert Entry(n, m - 1) * 0 == 0;
    }
  }

  lemma {:induction false} DiagonalBound(n: seq<bigit>, k: nat, m: nat)
    ensures Diagonal(n, k, m) <= m * ((BASE - 1) * (BASE - 1))
  {
    if m > 0 {
      DiagonalBound(n, k, m - 1);
      ProductBound(Entry(n, m - 1), Entry(n, k - (m - 1)));
      assert m * ((BASE - 1) * (BASE - 1)) == (m - 1) * ((BASE - 1) * (BASE - 1)) + (BASE - 1) * (BASE - 1);
    }
  }

  lemma ProductBound(x: bigit, y: bigit)
    ensures 0 <= x * y <= (BASE - 1) * (BASE - 1)
  {
    var top: int := BASE - 1;
    MulLe(0, x, y);
    MulLe(x, top, y);
    MulLe(y, top, top);
  }
}
