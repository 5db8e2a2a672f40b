/**
  remove_trailing_zeros: division by 10 and by 100 through multiplication by the inverse of 5 modulo
  the word and a rotation, and division by 10^8 through a 128-bit product.
*/
module TrailingZeros {
  import opened Powers

  // ---------------------------------------------------------------- one divisibility test

  /** rotr by r bits with h == 2^r: the low r bits move to the top. The two parts share no bit. */
  function Rotr(x: nat, h: nat, size: nat): nat
    requires h > 0 && size > 0
  {
    x / h + (x * (size / h)) % size
  }

  lemma RotrParts(x: nat, h: nat, v: nat, size: nat, y: nat, b: nat)
    requires h > 0 && v > 0 && size == h * v && size > 0 && x == h * y + b && b < h
    ensures Rotr(x, h, size) == y + b * v
  {
    DivMod(size, h, v, 0);
    DivMod(x, h, y, b);
    Distribute(v, h * y, b);
    Rearranged(h, y, v);
    MulLt(b, h, v);
    MulLe(0, b, v);
    DivMod(x * v, size, y, b * v);
  }

  lemma Rearranged(h: int, y: int, v: int)
    ensures (h * y) * v == (h * v) * y
  {
  }

  /** n * inv == size * a + x, and x is d's quotient shifted left when d divides n. */
  lemma MultipleRotates(n: nat, m: nat, h: nat, size: nat, inv: nat, c: nat, a: nat, x: nat, t: nat)
    requires m > 0 && h > 0 && n < size && inv * m == size * c + 1 && n == m * (h * t)
    requires n * inv == size * a + x && x < size
    ensures x == h * t
  {
    var y := h * t;
    MulLe(0, t, h);
    MulLe(1, m, y);
    Regrouped(m, y, inv);
    Distribute(y, size * c, 1);
    Rearranged(size, c, y);
    Rearranged(size, y, c);
    MulAssoc(size, y, c);
    SameQuotient(size, a, x, y * c, y);
  }

  lemma Regrouped(m: int, y: int, inv: int)
    ensures (m * y) * inv == (inv * m) * y
  {
  }

  /** The other way: a small rotated product is the quotient. */
  lemma SmallIsMultiple(n: nat, m: nat, h: nat, v: nat, size: nat, inv: nat, c: nat, a: nat, x: nat, y: nat, b: nat)
    requires m > 0 && h > 0 && v > 0 && size == h * v && n < size && inv * m == size * c + 1
    requires n * inv == size * a + x && x == h * y + b && b < h
    requires (m * h) * (y + b * v) < size
    ensures b == 0 && n == (m * h) * y
  {
    MulPositive(m, h);
    MulLe(0, y, m * h);
    if b > 0 {
      MulLe(1, b, v);
      MulLe(v, y + b * v, m * h);
      Rearranged(m, h, v);
      MulAssoc(m, h, v);
      MulLe(1, m, size);
      assert false;
    }
    assert m * x == (m * h) * y by { MulAssoc(m, h, y); }
    assert m * x == n + size * (n * c - m * a) by {
      Regrouped(n, m, inv);
      ProductOfInverse(n, m, inv, c, size, a, x);
    }
    SameQuotient(size, n * c - m * a, n, 0, m * x);
  }

  lemma ProductOfInverse(n: nat, m: nat, inv: nat, c: nat, size: nat, a: int, x: int)
    requires inv * m == size * c + 1 && n * inv == size * a + x
    ensures m * x == n + size * (n * c - m * a)
  {
    assert m * (n * inv) == n * (inv * m);
    Distribute(n, size * c, 1);
    Distribute(m, size * a, x);
    assert n * (size * c) == size * (n * c);
    assert m * (size * a) == size * (m * a);
    assert size * (n * c - m * a) == size * (n * c) - size * (m * a);
  }

  /**
    The test behind the algorithm. For d == m * h with h a power of two and m invertible, the
    rotated product is small exactly when d divides n, and then it is the quotient.
  */
  lemma InverseTest(n: nat, m: nat, h: nat, v: nat, size: nat, inv: nat, c: nat, d: nat)
    requires m > 0 && h > 0 && v > 0 && size == h * v && n < size && inv * m == size * c + 1
    requires size > 0 && d == m * h && d > 0
    ensures var q := Rotr((n * inv) % size, h, size);
            && (q <= (size - 1) / d <==> n % d == 0)
            && (n % d == 0 ==> q == n / d)
  {
    hide Rotr;
    var a, x := (n * inv) / size, (n * inv) % size;
    MulLe(0, n, inv);
    QuotientNonnegative(n * inv, size);
    var y, b := x / h, x % h;
    QuotientNonnegative(x, h);
    RotrParts(x, h, v, size, y, b);
    if n % d == 0 {
      var t := n / d;
      QuotientNonnegative(n, d);
      MulAssoc(m, h, t);
      MultipleRotates(n, m, h, size, inv, c, a, x, t);
      SameQuotient(h, y, b, t, 0);
      BelowQuotient(size, d, t);
    } else if y + b * v <= (size - 1) / d {
      BelowQuotient(size, d, y + b * v);
      SmallIsMultiple(n, m, h, v, size, inv, c, a, x, y, b);
      DivMod(n, d, y, 0);
      assert false;
    }
  }

  lemma BelowQuotient(size: nat, d: nat, t: int)
    requires d > 0 && size > 0
    ensures t <= (size - 1) / d <==> d * t < size
  {
    var b := (size - 1) / d;
    assert size - 1 == d * b + (size - 1) % d;
    if t <= b {
      MulLe(t, b, d);
    } else {
      MulLe(b + 1, t, d);
      Distribute(d, b, 1);
    }
  }

  // ---------------------------------------------------------------- the loops

  const SIZE32: nat := 0x1_0000_0000
  const SIZE64: nat := 0x1_0000_0000_0000_0000
  const INVERSE32: nat := 0xcccccccd
  const INVERSE64: nat := 0xcccccccccccccccd
  const TEN8: nat := 100000000

  /** A word of 32 or 64 bits with the inverses of 5 and 25 that the code computes. */
  datatype Word = Word32 | Word64 {
    function Size(): (size: nat)
      ensures size > 0
    {
      if Word32? then SIZE32 else SIZE64
    }

    function Inverse5(): nat {
      if Word32? then INVERSE32 else INVERSE64
    }

    function Inverse25(): nat {
      (Inverse5() * Inverse5()) % Size()
    }
  }

  lemma Inverses(w: Word)
    ensures w.Inverse5() * 5 == w.Size() * 4 + 1
    ensures w.Inverse25() * 25 == w.Size() * (if w.Word32? then 19 else 14) + 1
    ensures w.Size() == 4 * (w.Size() / 4) == 2 * (w.Size() / 2)
  {
  }

  /** max_value / d */
  function Limit(w: Word, d: nat): nat
    requires d > 0
  {
    (w.Size() - 1) / d
  }

  /** The rotated products whose size says whether 100 or 10 divides n. */
  function By100(w: Word, n: nat): nat {
    Rotr((n * w.Inverse25()) % w.Size(), 4, w.Size())
  }

  function By10(w: Word, n: nat): nat {
    Rotr((n * w.Inverse5()) % w.Size(), 2, w.Size())
  }

  lemma HundredTest(w: Word, n: nat)
    requires n < w.Size()
    ensures By100(w, n) <= Limit(w, 100) <==> n % 100 == 0
    ensures n % 100 == 0 ==> By100(w, n) == n / 100
  {
    Inverses(w);
    InverseTest(n, 25, 4, w.Size() / 4, w.Size(), w.Inverse25(), if w.Word32? then 19 else 14, 100);
  }

  lemma TenTest(w: Word, n: nat)
    requires n < w.Size()
    ensures By10(w, n) <= Limit(w, 10) <==> n % 10 == 0
    ensures n % 10 == 0 ==> By10(w, n) == n / 10
  {
    Inverses(w);
    InverseTest(n, 5, 2, w.Size() / 2, w.Size(), w.Inverse5(), 4, 10);
  }

  /** The value has s trailing zeros and nothing but them was removed. */
  ghost predicate Stripped(n: nat, m: nat, s: nat) {
    n == m * Pow(10, s) && m % 10 != 0
  }

  /** s |= 1 */
  function OrOne(s: nat): nat {
    if s % 2 == 0 then s + 1 else s
  }

  /** Two zeros at a time, then perhaps one more; `done` zeros were removed before. */
  method Strip(w: Word, n: nat, done: nat) returns (m: nat, s: nat)
    requires 0 < n < w.Size() && done % 2 == 0
    ensures s >= done && Stripped(n, m, s - done)
    ensures m <= n
  {
    hide By100, By10, Limit, Rotr, Pow;
    m, s := n, done;
    NoZeros(n);
    while true
      invariant 0 < m <= n && s >= done && s % 2 == 0
      invariant n == m * Pow(10, s - done)
      decreases m
    {
      var q := By100(w, m);
      HundredTest(w, m);
      if q > Limit(w, 100) { break; }
      TwoMore(n, m, q, s - done);
      m := q;
      s := s + 2;
    }
    var q := By10(w, m);
    TenTest(w, m);
    LastDigit(m);
    if q <= Limit(w, 10) {
      OneMore(n, m, q, s - done);
      m := q;
      s := OrOne(s);
    }
  }

  lemma NoZeros(n: nat)
    ensures n == n * Pow(10, 0)
  {
  }

  lemma LastDigit(m: nat)
    ensures m % 100 != 0 && m % 10 == 0 ==> (m / 10) % 10 != 0
  {
  }

  lemma OneMore(n: nat, m: nat, q: nat, zeros: nat)
    requires n == m * Pow(10, zeros) && m == 10 * q
    ensures n == q * Pow(10, zeros + 1)
  {
    assert Pow(10, zeros + 1) == 10 * Pow(10, zeros);
    MulAssoc(q, 10, Pow(10, zeros));
  }

  lemma TwoMore(n: nat, m: nat, q: nat, zeros: nat)
    requires n == m * Pow(10, zeros) && m == 100 * q
    ensures n == q * Pow(10, zeros + 2)
  {
    OneMore(n, m, 10 * q, zeros);
    OneMore(n, 10 * q, q, zeros + 1);
  }

  /** remove_trailing_zeros for 32 bits. */
  method RemoveTrailingZeros32(n: nat) returns (m: nat, s: nat)
    requires 0 < n < SIZE32
    ensures Stripped(n, m, s)
  {
    m, s := Strip(Word32, n, 0);
  }

  // ---------------------------------------------------------------- 64 bits

  const MAGIC: nat := 12379400392853802749
  const TWO_TO_90: nat := 0x400_0000_0000_0000_0000_0000
  const EXCESS: nat := 875776

  /** The magic number is 2^90 / 10^8 rounded up, and the product tests divisibility by 10^8. */
  lemma MagicTest(n: nat)
    requires n < SIZE64
    ensures var nm := n * MAGIC;
            && ((nm / SIZE64) % 0x400_0000 == 0 && nm % SIZE64 < MAGIC <==> n % TEN8 == 0)
            && (n % TEN8 == 0 ==> (nm / SIZE64) / 0x400_0000 == n / TEN8)
  {
    assert MAGIC * TEN8 == TWO_TO_90 + EXCESS;
    var nm, t, u := n * MAGIC, n / TEN8, n % TEN8;
    assert nm == TWO_TO_90 * t + (t * EXCESS + u * MAGIC);
    DivMod(nm, TWO_TO_90, t, t * EXCESS + u * MAGIC);
    HighAndLow(nm);
  }

  lemma HighAndLow(nm: nat)
    ensures nm % TWO_TO_90 == ((nm / SIZE64) % 0x400_0000) * SIZE64 + nm % SIZE64
    ensures nm / TWO_TO_90 == (nm / SIZE64) / 0x400_0000
  {
    var high, low := nm / SIZE64, nm % SIZE64;
    DivMod(nm, TWO_TO_90, high / 0x400_0000, (high % 0x400_0000) * SIZE64 + low);
  }

  /** What the 64-bit function strips: the quotient by 10^8 is truncated to 32 bits. */
  function Seen(n: nat): nat {
    if n % TEN8 == 0 then TEN8 * ((n / TEN8) % SIZE32) else n
  }

  /** remove_trailing_zeros for 64 bits. Where Seen is 0 its loop never ends. */
  method RemoveTrailingZeros64(n: nat) returns (m: nat, s: nat)
    requires 0 < n < SIZE64 && Seen(n) != 0
    ensures Stripped(Seen(n), m, s)
    ensures Stripped(n, m, s) <==> n % TEN8 != 0 || n < SIZE32 * TEN8
  {
    hide Pow;
    var high, low := (n * MAGIC) / SIZE64, (n * MAGIC) % SIZE64;
    MagicTest(n);
    SeenExactly(n);
    if high % 0x400_0000 == 0 && low < MAGIC {
      var n32 := (high / 0x400_0000) % SIZE32;
      m, s := Strip(Word32, n32, 8);
      EightMore(n32, m, s - 8);
    } else {
      m, s := Strip(Word64, n, 0);
    }
  }

  lemma SeenExactly(n: nat)
    ensures Seen(n) == n <==> n % TEN8 != 0 || n < SIZE32 * TEN8
  {
  }

  lemma EightMore(n: nat, m: nat, zeros: nat)
    requires n == m * Pow(10, zeros)
    ensures TEN8 * n == m * Pow(10, zeros + 8)
  {
    PowAdd(10, zeros, 8);
    assert Pow(10, 8) == TEN8 by { assert Pow(10, 4) == 10000; PowAdd(10, 4, 4); }
    MulAssoc(m, Pow(10, zeros), TEN8);
  }

  /** At 0 a pass of the loop does not leave it and changes nothing. */
  lemma ZeroNeverLeaves(w: Word)
    ensures By100(w, 0) == 0 && !(By100(w, 0) > Limit(w, 100))
  {
    HundredTest(w, 0);
  }

  /** The first number for which that happens: 2^32 * 10^8. */
  lemma SmallestEndless(n: nat)
    requires 0 < n < SIZE64
    ensures Seen(n) == 0 ==> n >= SIZE32 * TEN8
    ensures Seen(SIZE32 * TEN8) == 0 && SIZE32 * TEN8 < SIZE64
  {
    var t := n / TEN8;
    assert (SIZE32 * TEN8) / TEN8 == SIZE32;
  }
}
