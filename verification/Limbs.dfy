/** Powers, and the value of a little-endian sequence of 32-bit digits. */
module Powers {

  function Pow(b: nat, e: nat): nat {
    if e == 0 then 1 else b * Pow(b, e - 1)
  }

  lemma {:induction false} PowPositive(b: nat, e: nat)
    requires b > 0
    ensures Pow(b, e) > 0
  {
    if e > 0 {
      PowPositive(b, e - 1);
      MulPositive(b, Pow(b, e - 1));
    }
  }

  lemma MulPositive(x: int, y: int)
    requires x > 0 && y > 0
    ensures x * y > 0
  {
  }

  lemma {:induction false} PowAdd(b: nat, m: nat, n: nat)
    ensures Pow(b, m + n) == Pow(b, m) * Pow(b, n)
  {
    if m > 0 {
      PowAdd(b, m - 1, n);
      calc {
        Pow(b, m + n);
        b * Pow(b, m + n - 1);
        b * (Pow(b, m - 1) * Pow(b, n));
        { MulAssoc(b, Pow(b, m - 1), Pow(b, n)); }
        Pow(b, m) * Pow(b, n);
      }
    }
  }

  lemma {:induction false} PowMul(b: nat, m: nat, n: nat)
    ensures Pow(Pow(b, m), n) == Pow(b, m * n)
  {
    if n == 0 {
      assert m * n == 0;
    } else {
      PowMul(b, m, n - 1);
      PowAdd(b, m, m * (n - 1));
      assert m * n == m + m * (n - 1);
    }
  }

  lemma {:induction false} PowProduct(a: nat, b: nat, n: nat)
    ensures Pow(a * b, n) == Pow(a, n) * Pow(b, n)
  {
    if n > 0 {
      PowProduct(a, b, n - 1);
      var x, y := Pow(a, n - 1), Pow(b, n - 1);
      calc {
        (a * b) * (x * y);
        { MulAssoc(a * b, x, y); MulAssoc(a, b, x); }
        (a * (b * x)) * y;
        (a * (x * b)) * y;
        { MulAssoc(a, x, b); MulAssoc(a * x, b, y); }
        (a * x) * (b * y);
      }
    }
  }

  lemma PowMonotone(b: nat, m: nat, n: nat)
    requires b > 0 && m <= n
    ensures Pow(b, m) <= Pow(b, n)
  {
    PowAdd(b, m, n - m);
    PowPositive(b, n - m);
    MulLe(1, Pow(b, n - m), Pow(b, m));
  }

  lemma MulAssoc(x: int, y: int, z: int)
    ensures x * (y * z) == (x * y) * z
  {
  }

  lemma MulLe(x: int, y: int, z: int)
    requires x <= y && z >= 0
    ensures x * z <= y * z
    ensures z * x <= z * y
  {
  }

  lemma MulLt(x: int, y: int, z: int)
    requires x < y && z > 0
    ensures x * z < y * z
    ensures z * x < z * y
  {
  }

  lemma MulCancelLe(x: int, y: int, z: int)
    requires x * z <= y * z && z > 0
    ensures x <= y
  {
    if x > y { MulLt(y, x, z); }
  }

  lemma MulCancelEq(x: int, y: int, z: int)
    requires x * z == y * z && z > 0
    ensures x == y
  {
    if x < y { MulLt(x, y, z); }
    if x > y { MulLt(y, x, z); }
  }

  lemma Distribute(a: int, b: int, c: int)
    ensures a * (b + c) == a * b + a * c && (b + c) * a == b * a + c * a
  {
  }

  lemma DivMod(a: int, b: int, q: int, r: int)
    requires b > 0 && a == b * q + r && 0 <= r < b
    ensures a / b == q && a % b == r
  {
    var q', r' := a / b, a % b;
    assert a == b * q' + r';
    SameQuotient(b, q, r, q', r');
  }

  lemma SameQuotient(b: int, q: int, r: int, q': int, r': int)
    requires b > 0 && b * q + r == b * q' + r' && 0 <= r < b && 0 <= r' < b
    ensures q == q' && r == r'
  {
    if q < q' {
      MulLe(q + 1, q', b);
      Distribute(b, q, 1);
      assert false;
    } else if q' < q {
      MulLe(q' + 1, q, b);
      Distribute(b, q', 1);
      assert false;
    }
  }

  lemma QuotientNonnegative(a: int, b: int)
    requires a >= 0 && b > 0
    ensures a / b >= 0 && a == b * (a / b) + a % b && 0 <= a % b < b
  {
  }

  lemma Pow10Values()
    ensures Pow(10, 0) == 1 && Pow(10, 1) == 10 && Pow(10, 2) == 100 && Pow(10, 3) == 1000 && Pow(10, 4) == 10000
    ensures Pow(10, 5) == 100000 && Pow(10, 6) == 1000000 && Pow(10, 7) == 10000000 && Pow(10, 8) == 100000000
    ensures Pow(10, 9) == 1000000000 && Pow(10, 10) == 10000000000
  {
    assert Pow(10, 3) == 10 * Pow(10, 2);
    assert Pow(10, 6) == 10 * Pow(10, 5);
    assert Pow(10, 8) == 10 * Pow(10, 7);
    assert Pow(10, 10) == 10 * Pow(10, 9);
  }

  function Sign(x: int): int {
    if x > 0 then 1 else if x < 0 then -1 else 0
  }

  lemma SignScaled(x: int, z: int)
    requires z > 0
    ensures Sign(x * z) == Sign(x)
  {
    if x > 0 { MulLt(0, x, z); }
    if x < 0 { MulLt(x, 0, z); }
  }
}

module Limbs {
  import opened Powers

  // 2^32, the base of a bigint.
  const BASE: nat := 0x1_0000_0000
  const MAX64: nat := 0xFFFF_FFFF_FFFF_FFFF

  type bigit = x: nat | x < BASE
  // A 64-bit unsigned value; assigning to it proves that no wrap-around happens.
  type double_bigit = x: nat | x <= MAX64

  /** static_cast<bigit>(n) */
  function Low(n: nat): bigit {
    n % BASE
  }

  /** n >> bigit_bits */
  function Rest(n: nat): nat {
    n / BASE
  }

  lemma LowRest(n: nat)
    ensures n == Low(n) + BASE * Rest(n)
    ensures n > 0 ==> Rest(n) < n
  {
  }

  /** The natural number with little-endian digits s. */
  function Val(s: seq<bigit>): nat {
    if s == [] then 0 else s[0] + BASE * Val(s[1..])
  }

  /** The value of s when its lowest digit has weight BASE^exp. */
  ghost function Scaled(s: seq<bigit>, exp: nat): nat {
    Val(s) * Pow(BASE, exp)
  }

  /** x at the position of weight BASE^i. */
  ghost function Weight(x: nat, i: nat): nat {
    Pow(BASE, i) * x
  }

  lemma ScaledUp(s: seq<bigit>, exp: nat)
    ensures Scaled(s, exp + 1) == BASE * Scaled(s, exp)
  {
    MulAssoc(BASE, Pow(BASE, exp), Val(s));
  }

  lemma {:induction false} ValConcat(s: seq<bigit>, t: seq<bigit>)
    ensures Val(s + t) == Val(s) + Scaled(t, |s|)
  {
    if s == [] {
      assert s + t == t;
    } else {
      ValConcat(s[1..], t);
      assert (s + t)[1..] == s[1..] + t;
      ScaledUp(t, |s| - 1);
    }
  }

  lemma ValOne(x: bigit)
    ensures Val([x]) == x
  {
    assert [x][1..] == [];
  }

  lemma ValSplit(s: seq<bigit>, i: nat)
    requires i <= |s|
    ensures Val(s) == Val(s[..i]) + Scaled(s[i..], i)
  {
    assert s == s[..i] + s[i..];
    ValConcat(s[..i], s[i..]);
  }

  /** One more digit in front of the processed prefix. */
  lemma ValPrefixStep(s: seq<bigit>, i: nat)
    requires i < |s|
    ensures Val(s[..i + 1]) == Val(s[..i]) + Weight(s[i], i)
  {
    assert s[..i + 1] == s[..i] + [s[i]];
    ValConcat(s[..i], [s[i]]);
    ValOne(s[i]);
  }

  lemma {:induction false} ValBound(s: seq<bigit>)
    ensures Val(s) < Pow(BASE, |s|)
  {
    if s != [] {
      ValBound(s[1..]);
    }
  }

  /** A nonzero top digit puts the value in the range that belongs to the length. */
  lemma ValTop(s: seq<bigit>)
    requires s != [] && s[|s| - 1] != 0
    ensures Pow(BASE, |s| - 1) <= Val(s) < Pow(BASE, |s|)
  {
    ValBound(s);
    ValPrefixStep(s, |s| - 1);
    assert s[..|s|] == s;
    MulLe(1, s[|s| - 1], Pow(BASE, |s| - 1));
  }

  lemma {:induction false} ValZeros(s: seq<bigit>)
    requires forall i :: 0 <= i < |s| ==> s[i] == 0
    ensures Val(s) == 0
  {
    if s != [] {
      ValZeros(s[1..]);
    }
  }
}
