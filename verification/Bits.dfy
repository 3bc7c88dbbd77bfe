/** Bit fields of unsigned machine words, over natural numbers.

    A word is a natural number; `x & (2^n - 1)` is `Rem(x, Pow2(n))`, `x >> n` is `Quot(x, Pow2(n))` and
    `x & ~(2^n - 1)` is `Base(x, Pow2(n))`.  Quotient and remainder are defined by repeated subtraction,
    because the divisors here are variable powers of two; `QuotIsDiv` says they are division and modulus. */
module Bits {

  function Pow2(n: nat): (r: nat)
    ensures r > 0
  {
    if n == 0 then 1 else 2 * Pow2(n - 1)
  }

  lemma {:induction false} Pow2Add(m: nat, n: nat)
    ensures Pow2(m + n) == Pow2(m) * Pow2(n)
  {
    if m > 0 {
      Pow2Add(m - 1, n);
      assert Pow2(m + n) == 2 * Pow2(m - 1 + n);
      assert 2 * (Pow2(m - 1) * Pow2(n)) == (2 * Pow2(m - 1)) * Pow2(n);
    }
  }

  lemma SmallPowers()
    ensures Pow2(2) == 4 && Pow2(3) == 8 && Pow2(4) == 16
  {
  }

  lemma Pow2Values()
    ensures Pow2(2) == 4 && Pow2(3) == 8 && Pow2(8) == 0x100 && Pow2(10) == 0x400 && Pow2(12) == 0x1000
    ensures Pow2(13) == 0x2000
    ensures Pow2(16) == 0x1_0000 && Pow2(24) == 0x100_0000 && Pow2(28) == 0x1000_0000 && Pow2(30) == 0x4000_0000
    ensures Pow2(31) == 0x8000_0000 && Pow2(32) == 0x1_0000_0000 && Pow2(40) == 0x100_0000_0000
    ensures Pow2(48) == 0x1_0000_0000_0000 && Pow2(63) == 0x8000_0000_0000_0000
  {
    hide Pow2;
    SmallPowers();
    Pow2Add(4, 4);
    Pow2Add(8, 2);
    Pow2Add(10, 2);
    Pow2Add(10, 3);
    Pow2Add(8, 8);
    Pow2Add(16, 8);
    Pow2Add(24, 4);
    Pow2Add(28, 2);
    Pow2Add(28, 3);
    Pow2Add(16, 16);
    Pow2Add(32, 8);
    Pow2Add(40, 8);
    Pow2Add(48, 12);
    Pow2Add(60, 3);
  }

  lemma {:induction false} Pow2Monotone(m: nat, n: nat)
    requires m <= n
    ensures Pow2(m) <= Pow2(n)
  {
    if m < n { Pow2Monotone(m, n - 1); }
  }

  // ---------------------------------------------------------------- quotient and remainder

  function Quot(x: nat, b: nat): (q: nat)
    requires b > 0
  {
    if x < b then 0 else 1 + Quot(x - b, b)
  }

  function Rem(x: nat, b: nat): (r: nat)
    requires b > 0
    ensures r < b && r <= x
  {
    if x < b then x else Rem(x - b, b)
  }

  /** The largest multiple of `b` not above `x`. */
  function Base(x: nat, b: nat): (r: nat)
    requires b > 0
    ensures r <= x < r + b
  {
    x - Rem(x, b)
  }

  lemma {:induction false} QuotRem(x: nat, b: nat)
    requires b > 0
    ensures x == Quot(x, b) * b + Rem(x, b)
    decreases x
  {
    if x >= b {
      QuotRem(x - b, b);
      assert (1 + Quot(x - b, b)) * b == b + Quot(x - b, b) * b;
    }
  }

  /** `q * b + r` has quotient `q` and remainder `r`. */
  lemma {:induction false} QuotUnique(q: nat, b: nat, r: nat)
    requires r < b
    ensures q * b >= 0
    ensures Quot(q * b + r, b) == q && Rem(q * b + r, b) == r
    decreases q
  {
    if q > 0 {
      QuotUnique(q - 1, b, r);
      assert (q - 1) * b + b == q * b;
    }
  }

  lemma {:induction false} QuotIsDiv(x: nat, b: nat)
    requires b > 0
    ensures Quot(x, b) == x / b && Rem(x, b) == x % b
    decreases x
  {
    if x >= b {
      QuotIsDiv(x - b, b);
      DivStep(x, b);
    } else {
      DivSmall(x, b);
    }
  }

  lemma DivSmall(x: nat, b: nat)
    requires x < b
    ensures x / b == 0 && x % b == x
  {
  }

  lemma DivStep(x: nat, b: nat)
    requires 0 < b <= x
    ensures x / b == (x - b) / b + 1 && x % b == (x - b) % b
  {
    var q, r := (x - b) / b, (x - b) % b;
    var q', r' := x / b, x % b;
    assert (q + 1 - q') * b == r' - r;
    MulBounds(q + 1 - q', b);
  }

  lemma MulBounds(d: int, b: nat)
    ensures d >= 1 ==> d * b >= b
    ensures d <= -1 ==> d * b + b <= 0
  {
    if d >= 1 {
      assert (d - 1) * b >= 0;
    } else if d <= -1 {
      assert (-d - 1) * b >= 0;
    }
  }

  lemma {:induction false} QuotMonotone(x: nat, y: nat, b: nat)
    requires b > 0 && x <= y
    ensures Quot(x, b) <= Quot(y, b)
    decreases y
  {
    if b <= x { QuotMonotone(x - b, y - b, b); }
  }

  /** Two numbers have the same quotient exactly when they have the same base. */
  lemma SameBlock(x: nat, y: nat, b: nat)
    requires b > 0
    ensures Quot(x, b) == Quot(y, b) <==> Base(x, b) == Base(y, b)
    ensures Quot(x, b) == Quot(y, b) <==> Base(x, b) <= y < Base(x, b) + b
  {
    QuotRem(x, b);
    QuotRem(y, b);
    MulBounds(Quot(x, b) - Quot(y, b), b);
    assert (Quot(x, b) - Quot(y, b)) * b == Base(x, b) - Base(y, b);
  }

  /** A multiple of `b` lies on the same side of `x` and of the whole block of `x`. */
  lemma Boundary(a: nat, b: nat, x: nat)
    requires b > 0 && Rem(a, b) == 0
    ensures a <= x ==> a <= Base(x, b)
    ensures x < a ==> Base(x, b) + b <= a
  {
    var d := Quot(a, b) - Quot(x, b);
    QuotRem(a, b);
    QuotRem(x, b);
    if x < a {
      MulBounds(d, b);
      assert d * b == a - Base(x, b);
    } else {
      QuotMonotone(a, x, b);
      assert d * b == a - Base(x, b);
      MulBounds(-d, b);
    }
  }

  lemma BaseIsAligned(x: nat, b: nat)
    requires b > 0
    ensures Rem(Base(x, b), b) == 0 && Quot(Base(x, b), b) == Quot(x, b)
  {
    QuotRem(x, b);
    QuotUnique(Quot(x, b), b, 0);
  }

  /** Dividing twice is dividing by the product, and a block of `s == n * b` is cut into `n` blocks of `b`. */
  lemma QuotQuot(x: nat, b: nat, n: nat, s: nat)
    requires b > 0 && n > 0 && s == n * b
    ensures s > 0
    ensures Quot(Quot(x, b), n) == Quot(x, s)
    ensures 0 <= Rem(Quot(x, b), n) * b == Base(x, b) - Base(x, s)
    ensures Base(x, b) + b <= Base(x, s) + s
    ensures Rem(Base(x, s), b) == 0
  {
    var y, r := Quot(x, b), Rem(x, b);
    var q, m := Quot(y, n), Rem(y, n);
    QuotRem(x, b);
    QuotRem(y, n);
    CutBlock(x, y, b, n, s, q, m, r);
  }

  lemma CutBlock(x: nat, y: nat, b: nat, n: nat, s: nat, q: nat, m: nat, r: nat)
    requires m < n && r < b && y == q * n + m && x == y * b + r && s == n * b
    ensures s > 0 && 0 <= m * b <= x - r
    ensures Quot(x, s) == q && Rem(x, s) == m * b + r
    ensures m * b + b <= s
    ensures Rem(x - (m * b + r), b) == 0
  {
    var t := m * b;
    MulDistribute(y, q, n, m, b);
    RemainderBound(m, n, r, b);
    RemainderBound(m, n, b - 1, b);
    QuotUnique(q, s, t + r);
    MulDistribute(q * n, q, n, 0, b);
    QuotUnique(q * n, b, 0);
  }

  lemma MulDistribute(y: int, q: int, n: int, m: int, b: int)
    requires y == q * n + m
    ensures y * b == q * (n * b) + m * b
  {
  }

  lemma RemainderBound(m: nat, n: nat, r: nat, b: nat)
    requires m < n && r < b
    ensures 0 <= m * b <= m * b + r < n * b
  {
    MulBounds(n - m, b);
    assert (n - m) * b == n * b - m * b;
  }

  /** Adding `d` whole blocks. */
  lemma AddBlocks(x: nat, d: nat, b: nat)
    requires b > 0
    ensures d * b >= 0
    ensures Quot(x + d * b, b) == Quot(x, b) + d && Rem(x + d * b, b) == Rem(x, b)
  {
    var q, r := Quot(x, b), Rem(x, b);
    QuotRem(x, b);
    assert (q + d) * b + r == x + d * b;
    QuotUnique(q + d, b, r);
  }

  /** A multiple of `s == n * b` is a multiple of `b`. */
  lemma AlignedDown(x: nat, b: nat, n: nat, s: nat)
    requires b > 0 && n > 0 && s == n * b && s > 0 && Rem(x, s) == 0
    ensures Rem(x, b) == 0
  {
    QuotQuot(x, b, n, s);
  }

  lemma AlignedMultiple(k: nat, b: nat, m: nat)
    requires k > 0 && m > 0 && Rem(b, m) == 0
    ensures k * b >= b && Rem(k * b, m) == 0
  {
    hide Quot, Rem;
    var q := Quot(b, m);
    QuotRem(b, m);
    MulBounds(k, b);
    MulAssociates(k, q, m, b);
    QuotUnique(k * q, m, 0);
  }

  lemma MulAssociates(k: nat, q: nat, m: nat, b: nat)
    requires b == q * m
    ensures k * b == (k * q) * m && k * q >= 0
  {
  }

  lemma AlignedSum(x: nat, y: nat, b: nat)
    requires b > 0 && Rem(x, b) == 0
    ensures Rem(x + y, b) == Rem(y, b)
  {
    QuotRem(x, b);
    AddBlocks(y, Quot(x, b), b);
  }

  // ---------------------------------------------------------------- bitwise or

  predicate Bit(x: nat, i: nat) {
    if i == 0 then x % 2 == 1 else Bit(x / 2, i - 1)
  }

  /** Bitwise inclusive or. */
  function BitOr(a: nat, b: nat): nat
    decreases a + b
  {
    if a == 0 && b == 0 then 0
    else (if a % 2 == 1 || b % 2 == 1 then 1 else 0) + 2 * BitOr(a / 2, b / 2)
  }

  /** Bit `i` of an or is the disjunction of the two bits. */
  lemma {:induction false} OrBits(a: nat, b: nat, i: nat)
    ensures Bit(BitOr(a, b), i) <==> Bit(a, i) || Bit(b, i)
    decreases i
  {
    OrStep(a / 2, b / 2, a % 2, b % 2);
    if i > 0 { OrBits(a / 2, b / 2, i - 1); }
  }

  lemma OrStep(a: nat, b: nat, x: nat, y: nat)
    requires x < 2 && y < 2
    ensures BitOr(2 * a + x, 2 * b + y) == 2 * BitOr(a, b) + if x == 1 || y == 1 then 1 else 0
  {
    var a', b' := 2 * a + x, 2 * b + y;
    assert a' / 2 == a && b' / 2 == b && a' % 2 == x && b' % 2 == y;
  }

  lemma {:induction false} OrZero(a: nat)
    ensures BitOr(a, 0) == a && BitOr(0, a) == a
    decreases a
  {
    if a > 0 { OrZero(a / 2); }
  }

  /** Or works separately on the low `k` bits and on the rest. */
  lemma {:induction false} OrParts(k: nat, c: nat, a: nat, b: nat, x: nat, y: nat)
    requires c == Pow2(k) && x < c && y < c
    ensures a * c >= 0 && b * c >= 0
    ensures BitOr(a * c + x, b * c + y) == BitOr(a, b) * c + BitOr(x, y)
    ensures BitOr(x, y) < c
    decreases k
  {
    if k == 0 {
      assert c == 1 && x == 0 && y == 0;
      assert a * c == a && b * c == b;
    } else {
      var d, u, v := Pow2(k - 1), x / 2, y / 2;
      OrParts(k - 1, d, a, b, u, v);
      OrDouble(d, a, b, u, v, x % 2, y % 2);
    }
  }

  lemma OrDouble(d: nat, a: nat, b: nat, u: nat, v: nat, e: nat, f: nat)
    requires e < 2 && f < 2
    requires a * d >= 0 && b * d >= 0
    requires BitOr(a * d + u, b * d + v) == BitOr(a, b) * d + BitOr(u, v)
    ensures a * (2 * d) >= 0 && b * (2 * d) >= 0
    ensures BitOr(a * (2 * d) + (2 * u + e), b * (2 * d) + (2 * v + f)) ==
      BitOr(a, b) * (2 * d) + BitOr(2 * u + e, 2 * v + f)
  {
    var ad, bd := a * d + u, b * d + v;
    OrPartsStep(a, d, u, e);
    OrPartsStep(b, d, v, f);
    OrStep(ad, bd, e, f);
    OrStep(u, v, e, f);
    OrPartsStep(BitOr(a, b), d, 0, 0);
  }

  lemma OrPartsStep(a: nat, d: nat, u: nat, e: nat)
    ensures 2 * (a * d + u) + e == a * (2 * d) + (2 * u + e)
  {
  }

  /** Or of two words with no bit in common, one a multiple of `c == 2^k` and one below it, is their sum. */
  lemma OrDisjoint(k: nat, c: nat, a: nat, y: nat)
    requires c == Pow2(k) && y < c
    ensures a * c >= 0
    ensures BitOr(a * c, y) == a * c + y
    ensures BitOr(y, a * c) == a * c + y
  {
    hide Pow2, BitOr;
    assert 0 * c == 0;
    OrParts(k, c, a, 0, 0, y);
    OrParts(k, c, 0, a, y, 0);
    OrZero(y);
    OrZero(a);
  }
}
