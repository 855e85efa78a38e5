/** Integer facts shared by the class-group modules: the rounding modes of the
  * big-integer library, divisibility, coprimality and a few ring expansions. */
module Integers {

  // ---- rounding ----

  /** mpz_fdiv_q: rounds toward minus infinity. */
  function FloorDiv(n: int, d: int): int
    requires d != 0
  {
    if d > 0 then n / d else (-n) / (-d)
  }

  /** mpz_fdiv_r: the remainder has the sign of the divisor. */
  function FloorMod(n: int, d: int): int
    requires d != 0
  {
    if d > 0 then n % d else -((-n) % (-d))
  }

  lemma FloorDivMod(n: int, d: int)
    requires d != 0
    ensures n == FloorDiv(n, d) * d + FloorMod(n, d)
    ensures d > 0 ==> 0 <= FloorMod(n, d) < d
    ensures d < 0 ==> d < FloorMod(n, d) <= 0
  {
    if d < 0 {
      assert -n == (-n) / (-d) * (-d) + (-n) % (-d);
    }
  }

  /** mpz_tdiv_q: rounds toward zero. */
  function TruncDiv(n: int, d: int): int
    requires d != 0
  {
    if n >= 0 then (if d > 0 then n / d else -(n / -d))
    else if d > 0 then -((-n) / d) else (-n) / (-d)
  }

  /** mpz_tdiv_r: the remainder has the sign of the dividend. */
  function TruncMod(n: int, d: int): int
    requires d != 0
  {
    n - TruncDiv(n, d) * d
  }

  lemma TruncModSmall(n: int, d: int)
    requires d != 0
    ensures Abs(TruncMod(n, d)) < Abs(d)
    ensures n >= 0 ==> TruncMod(n, d) >= 0
    ensures n <= 0 ==> TruncMod(n, d) <= 0
  {
    var m: int, e: int := Abs(n), Abs(d);
    var q := m / e;
    assert m == q * e + m % e;
    if (n >= 0) == (d > 0) {
      assert TruncDiv(n, d) == q;
    } else if n == 0 {
      assert TruncDiv(n, d) == q == 0;
    } else {
      assert TruncDiv(n, d) == -q;
      NegMul(q, d);
    }
    NegMul(q, -d);
  }

  lemma NegMul(x: int, y: int)
    ensures (-x) * y == -(x * y) == x * (-y)
  {}

  function Abs(n: int): nat { if n < 0 then -n else n }

  function Sgn(n: int): int { if n < 0 then -1 else if n == 0 then 0 else 1 }

  lemma DivBounds(n: int, d: int)
    requires d > 0
    ensures n / d * d <= n < n / d * d + d
  {}

  // ---- divisibility ----

  predicate IsQuotient(n: int, d: int, q: int) { n == q * d }

  ghost predicate Divides(d: int, n: int) { exists q :: IsQuotient(n, d, q) }

  lemma DividesBy(d: int, n: int, q: int)
    requires n == q * d
    ensures Divides(d, n)
  {
    assert IsQuotient(n, d, q);
  }

  lemma DividesSum(d: int, m: int, n: int)
    requires Divides(d, m) && Divides(d, n)
    ensures Divides(d, m + n) && Divides(d, m - n)
  {
    var x :| IsQuotient(m, d, x);
    var y :| IsQuotient(n, d, y);
    Dist(d, x, y);
    DividesBy(d, m + n, x + y);
    Dist(d, x, -y);
    DividesBy(d, m - n, x - y);
  }

  lemma DividesMul(d: int, n: int, k: int)
    requires Divides(d, n)
    ensures Divides(d, n * k) && Divides(d, k * n)
  {
    var x :| IsQuotient(n, d, x);
    Swap3(x, d, k);
    DividesBy(d, n * k, x * k);
  }

  lemma Swap3(x: int, y: int, z: int)
    ensures (x * y) * z == (x * z) * y == x * (y * z)
  {}

  /** An exact quotient is unique, whatever rounding computes it. */
  lemma ExactQuotient(n: int, d: int, q: int)
    requires d != 0 && n == q * d
    ensures FloorDiv(n, d) == q && FloorMod(n, d) == 0
    ensures TruncDiv(n, d) == q && TruncMod(n, d) == 0
    ensures n / d == q && n % d == 0
  {
    FloorDivMod(n, d);
    SameQuotient(FloorDiv(n, d), FloorMod(n, d), d, q);
    TruncModSmall(n, d);
    SameQuotient(TruncDiv(n, d), TruncMod(n, d), d, q);
    SameQuotient(n / d, n % d, d, q);
  }

  /** mpz_divexact: callers must divide exactly. */
  function DivExact(n: int, d: int): (q: int)
    requires d != 0 && Divides(d, n)
    ensures q * d == n
  {
    var q :| IsQuotient(n, d, q);
    ExactQuotient(n, d, q);
    FloorDiv(n, d)
  }

  lemma DividesTrans(d: int, m: int, n: int)
    requires Divides(d, m) && Divides(m, n)
    ensures Divides(d, n)
  {
    var q :| IsQuotient(n, m, q);
    DividesMul(d, m, q);
  }

  lemma SameQuotient(e: int, r: int, d: int, q: int)
    requires d != 0 && e * d + r == q * d && Abs(r) < Abs(d)
    ensures e == q && r == 0
  {
    assert r == (q - e) * d;
    SmallMultiple(r, d, q - e);
  }

  lemma SmallMultiple(r: int, d: int, k: int)
    requires r == k * d && Abs(r) < Abs(d)
    ensures k == 0 && r == 0
  {
    if k != 0 {
      AbsMul(k, d);
    }
  }

  lemma AbsMul(k: int, d: int)
    requires k != 0
    ensures Abs(k * d) >= Abs(d)
  {
    var u, v := Abs(k), Abs(d);
    AtLeastFactor(u, v);
    if k < 0 {
      assert k * d == -(u * d);
    }
    if d < 0 {
      assert u * d == -(u * v);
    }
  }

  lemma AtLeastFactor(u: int, v: int)
    requires u >= 1 && v >= 0
    ensures u * v >= v
  {}

  /** Cancelling a nonzero factor. */
  lemma Cancel(x: int, y: int, d: int)
    requires d != 0 && x * d == y * d
    ensures x == y
  {
    SmallMultiple((x - y) * d, d, x - y);
  }

  // ---- coprimality ----

  ghost predicate Coprime(a: int, b: int) { exists s, t :: s * a + t * b == 1 }

  /** If d divides a * n and is coprime to a, it divides n. */
  lemma CoprimeDivides(d: int, a: int, n: int)
    requires Coprime(a, d) && Divides(d, a * n)
    ensures Divides(d, n)
  {
    var s, t :| s * a + t * d == 1;
    var q :| IsQuotient(a * n, d, q);
    CoprimeDividesCalc(s, a, t, d, n, q);
    DividesBy(d, n, s * q + t * n);
  }

  lemma CoprimeDividesCalc(s: int, a: int, t: int, d: int, n: int, q: int)
    requires s * a + t * d == 1 && a * n == q * d
    ensures n == (s * q + t * n) * d
  {
    calc {
      n;
      (s * a + t * d) * n;
      s * (a * n) + (t * n) * d;
      s * (q * d) + (t * n) * d;
      (s * q) * d + (t * n) * d;
      (s * q + t * n) * d;
    }
  }

  // ---- order ----

  lemma StrictSquares(x: int, y: int)
    requires 0 <= x < y
    ensures x * x < y * y
  {}

  lemma EqualSquares(x: int, y: int)
    requires x * x == y * y && x >= 0 && y >= 0
    ensures x == y
  {
    if x < y {
      StrictSquares(x, y);
    } else if y < x {
      StrictSquares(y, x);
    }
  }

  lemma AtLeastTimes(x: int, m: int, d: int)
    requires x >= m && d >= 0
    ensures x * d >= m * d
  {}

  lemma QuotientNonNegative(n: int, d: int)
    requires n >= 0 && d > 0
    ensures n / d >= 0
  {}

  // ---- powers of two ----

  function Pow2(n: nat): (r: nat)
    ensures r >= 1
  {
    if n == 0 then 1 else 2 * Pow2(n - 1)
  }

  lemma {:induction false} Pow2Add(m: nat, n: nat)
    ensures Pow2(m + n) == Pow2(m) * Pow2(n)
  {
    if m > 0 {
      Pow2Add(m - 1, n);
      Swap3(2, Pow2(m - 1), Pow2(n));
    }
  }

  lemma Pow2Monotone(m: nat, n: nat)
    requires m <= n
    ensures Pow2(m) <= Pow2(n)
  {
    Pow2Add(m, n - m);
    AtLeastFactor(Pow2(n - m), Pow2(m));
  }

  lemma QuotientProduct(x: int, y: int)
    requires x >= 0 && y >= 0
    ensures x * y >= 0
  {}

  lemma AbsProduct(x: int, y: int)
    ensures Abs(x * y) == Abs(x) * Abs(y)
  {
    NegMul(x, y);
    NegMul(-x, y);
    if x >= 0 && y >= 0 {
      QuotientProduct(x, y);
    } else if x < 0 && y < 0 {
      QuotientProduct(-x, -y);
    } else if x < 0 {
      QuotientProduct(-x, y);
    } else {
      QuotientProduct(x, -y);
    }
  }

  /** mpz_sizeinbase(x, 2): 1 for x = 0. */
  function BitLen(x: nat): (n: nat)
    ensures n >= 1 && x < Pow2(n)
    ensures x > 0 ==> Pow2(n - 1) <= x
  {
    if x < 2 then assert Pow2(1) == 2; 1 else BitLen(x / 2) + 1
  }

  /** n >> i. */
  function Shift(n: nat, i: nat): nat { if i == 0 then n else Shift(n, i - 1) / 2 }

  lemma {:induction false} ShiftFirst(n: nat, i: nat)
    requires i > 0
    ensures Shift(n, i) == Shift(n / 2, i - 1)
  {
    if i > 1 {
      ShiftFirst(n, i - 1);
    }
  }

  lemma {:induction false} TopBit(n: nat)
    requires n > 0
    ensures Shift(n, BitLen(n) - 1) == 1
  {
    if n >= 2 {
      TopBit(n / 2);
      ShiftFirst(n, BitLen(n) - 1);
    }
  }

  lemma DivUnique(n: int, d: int, q: int, r: int)
    requires n == q * d + r && 0 <= r < d
    ensures n / d == q && n % d == r
  {
    DivBounds(n, d);
    assert (n / d - q) * d == r - (n - n / d * d);
    SmallMultiple((n / d - q) * d, d, n / d - q);
  }

  lemma MultipleSum(x: int, y: int, d: int)
    requires d > 0 && x % d == 0 && y % d == 0
    ensures (x + y) % d == 0
  {
    DivBounds(x, d);
    DivBounds(y, d);
    Dist(d, x / d, y / d);
    assert x == x / d * d && y == y / d * d;
    ExactQuotient(x + y, d, x / d + y / d);
  }

  // ---- ring expansions, kept small on purpose ----

  lemma Dist(x: int, y: int, z: int)
    ensures x * (y + z) == x * y + x * z && (y + z) * x == y * x + z * x
  {}

  lemma Foil(x: int, y: int, z: int, w: int)
    ensures (x + y) * (z + w) == x * z + x * w + y * z + y * w
  {}

  lemma GatherPair(x: int, z: int, a: int, y: int, w: int, b: int)
    ensures (x * a + y * b) + (z * a + w * b) == (x + z) * a + (y + w) * b
    ensures a * (x + z) + b * (y + w) == (a * x + b * y) + (a * z + b * w)
  {}

  lemma Swap4(x: int, a: int, y: int, b: int)
    ensures (x * a) * (y * b) == (x * y) * (a * b)
  {}

  /** (ab + cd)e + (af + cg)h = a(be + fh) + c(de + gh). */
  lemma Regroup(a: int, b: int, c: int, d: int, e: int, f: int, g: int, h: int)
    ensures (a * b + c * d) * e + (a * f + c * g) * h == a * (b * e + f * h) + c * (d * e + g * h)
  {}
}
