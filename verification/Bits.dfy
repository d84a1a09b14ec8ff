/**
 Natural numbers as bit strings: powers of two, `x >> k`, the low `k` bits, `x & y`, and what the masks of
 CIDR prefixes do to a number.
 */
module Bits {

  function Pow2(n: nat): (p: nat)
    ensures p >= 1
  {
    if n == 0 then 1 else 2 * Pow2(n - 1)
  }

  /** `x >> k`. */
  function Shr(x: nat, k: nat): nat
    decreases k
  {
    if k == 0 then x else Shr(x / 2, k - 1)
  }

  /** The low `k` bits of `x`. */
  function Low(x: nat, k: nat): nat
    decreases k
  {
    if k == 0 then 0 else 2 * Low(x / 2, k - 1) + x % 2
  }

  /** `x & y`, bit by bit. */
  function And(x: nat, y: nat): nat
  {
    if x == 0 || y == 0 then 0 else 2 * And(x / 2, y / 2) + (if x % 2 == 1 && y % 2 == 1 then 1 else 0)
  }

  /** `0xFF << (8 - r)` cut to a byte: the top `r` bits of a byte. */
  function ByteMask(r: nat): (m: nat)
    requires r <= 8
    ensures m < 256
  {
    Pow2Facts();
    Pow2Mono(8 - r, 8);
    256 - Pow2(8 - r)
  }

  // ---------------------------------------------------------------- powers of two

  lemma Pow2Facts()
    ensures Pow2(8) == 256 && Pow2(32) == 0x1_0000_0000
  {
    assert Pow2(4) == 16;
    assert Pow2(8) == 256;
    assert Pow2(12) == 0x1000;
    assert Pow2(16) == 0x1_0000;
    assert Pow2(20) == 0x10_0000;
    assert Pow2(24) == 0x100_0000;
    assert Pow2(28) == 0x1000_0000;
  }

  lemma {:induction false} Pow2Add(m: nat, n: nat)
    ensures Pow2(m + n) == Pow2(m) * Pow2(n)
  {
    if m > 0 {
      Pow2Add(m - 1, n);
      MulAssoc(2, Pow2(m - 1), Pow2(n));
    }
  }

  lemma Pow2Mono(m: nat, n: nat)
    requires m <= n
    ensures Pow2(m) <= Pow2(n)
  {
  }

  lemma MulAssoc(a: int, b: int, c: int)
    ensures a * (b * c) == (a * b) * c
  {
  }

  // ---------------------------------------------------------------- shifting

  /** A number is its high bits, shifted back, plus its low bits. */
  lemma {:induction false} HighAndLow(x: nat, k: nat)
    ensures x == Shr(x, k) * Pow2(k) + Low(x, k)
    ensures Low(x, k) < Pow2(k)
  {
    if k > 0 {
      HighAndLow(x / 2, k - 1);
      Double(Shr(x, k), Pow2(k - 1));
    }
  }

  lemma Double(a: int, b: int)
    ensures a * (2 * b) == 2 * (a * b)
  {
  }

  lemma {:induction false} ShrShr(x: nat, j: nat, k: nat)
    ensures Shr(Shr(x, j), k) == Shr(x, j + k)
    decreases j
  {
    if j > 0 { ShrShr(x / 2, j - 1, k); }
  }

  /** The low `j + k` bits are zero exactly when the low `j` bits and the `k` bits above them are. */
  lemma {:induction false} LowLow(x: nat, j: nat, k: nat)
    ensures Low(x, j + k) == 0 <==> Low(x, j) == 0 && Low(Shr(x, j), k) == 0
    decreases j
  {
    if j > 0 { LowLow(x / 2, j - 1, k); }
  }

  /** Appending `n` low bits `b` below `v`. */
  lemma {:induction false} ShrAppend(v: nat, b: nat, n: nat, j: nat)
    requires j <= n && b < Pow2(n)
    ensures v * Pow2(n) + b >= 0
    ensures Shr(v * Pow2(n) + b, j) == v * Pow2(n - j) + Shr(b, j)
    ensures Low(v * Pow2(n) + b, j) == Low(b, j)
    ensures Shr(b, j) < Pow2(n - j)
    decreases j
  {
    if j > 0 {
      Double(v, Pow2(n - 1));
      ShrAppend(v, b / 2, n - 1, j - 1);
      assert (v * Pow2(n) + b) / 2 == v * Pow2(n - 1) + b / 2;
    }
  }

  lemma {:induction false} ShrSmall(b: nat, n: nat)
    requires b < Pow2(n)
    ensures Shr(b, n) == 0 && Low(b, n) == b
    decreases n
  {
    if n > 0 { ShrSmall(b / 2, n - 1); }
  }

  /** The pair of a high part and an `m`-bounded low part determines the number. */
  lemma PairEq(a: nat, b: nat, c: nat, d: nat, m: nat)
    requires b < m && d < m
    ensures a * m + b == c * m + d <==> a == c && b == d
  {
    if a * m + b == c * m + d { SmallMultiple(a - c, m, d - b); }
  }

  lemma SmallMultiple(d: int, m: int, r: int)
    requires d * m == r && -m < r < m
    ensures d == 0
  {
    if d >= 1 { MulMono(1, d, m); } else if d <= -1 { MulMono(d, -1, m); }
  }

  lemma MulMono(a: int, b: int, m: int)
    requires a <= b && m >= 0
    ensures a * m <= b * m
  {
  }

  // ---------------------------------------------------------------- masking

  /** AND with a number whose last bit is `b` and whose other bits are `h`. */
  lemma AndStep(x: nat, h: nat, b: nat)
    requires b < 2
    ensures And(x, 2 * h + b) == 2 * And(x / 2, h) + (if x % 2 == 1 && b == 1 then 1 else 0)
  {
    var y := 2 * h + b;
    assert y / 2 == h && y % 2 == b;
  }

  /** A mask of low ones keeps the low bits. */
  lemma {:induction false} AndLow(x: nat, k: nat)
    ensures And(x, Pow2(k) - 1) == Low(x, k)
    decreases k
  {
    if k > 0 {
      AndLow(x / 2, k - 1);
      AndStep(x, Pow2(k - 1) - 1, 1);
      if x == 0 { LowZero(k); }
    }
  }

  lemma LowZero(k: nat)
    ensures Low(0, k) == 0
  {
  }

  /** A mask of high ones, `n - k` of them in an `n`-bit word, clears the low `k` bits. */
  lemma {:induction false} AndHigh(x: nat, n: nat, k: nat)
    requires k <= n && x < Pow2(n)
    ensures Pow2(k) <= Pow2(n)
    ensures And(x, Pow2(n) - Pow2(k)) == x - Low(x, k)
    decreases n
  {
    Pow2Mono(k, n);
    if k == 0 {
      AndLow(x, n);
      ShrSmall(x, n);
    } else {
      AndHigh(x / 2, n - 1, k - 1);
      AndStep(x, Pow2(n - 1) - Pow2(k - 1), 0);
      if x == 0 { LowZero(k); }
    }
  }

  /** Clearing the low bits of two numbers leaves the same number exactly when their high bits agree. */
  lemma {:induction false} SameHigh(x: nat, y: nat, k: nat)
    ensures x - Low(x, k) == y - Low(y, k) <==> Shr(x, k) == Shr(y, k)
    decreases k
  {
    if k > 0 { SameHigh(x / 2, y / 2, k - 1); }
  }
}
