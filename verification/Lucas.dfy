/** The probable prime tests (src/primetest.h): the binary ladder for Lucas sequences and the strong
  * test to a base. */
module Lucas {
  import opened Options
  import opened Integers

  // ---- the sequences ----

  function U(p: int, q: int, n: nat): int {
    if n == 0 then 0 else if n == 1 then 1 else p * U(p, q, n - 1) - q * U(p, q, n - 2)
  }

  function V(p: int, q: int, n: nat): int {
    if n == 0 then 2 else if n == 1 then p else p * V(p, q, n - 1) - q * V(p, q, n - 2)
  }

  /** V in terms of U. */
  lemma {:induction false} VFromU(p: int, q: int, n: nat)
    ensures V(p, q, n) == 2 * U(p, q, n + 1) - p * U(p, q, n)
    decreases n
  {
    if n >= 2 {
      VFromU(p, q, n - 1);
      VFromU(p, q, n - 2);
      VStep(p, q, U(p, q, n), U(p, q, n - 1), U(p, q, n - 2));
    }
  }

  lemma VStep(p: int, q: int, a: int, b: int, c: int)
    requires a == p * b - q * c
    ensures p * (2 * a - p * b) - q * (2 * b - p * c) == 2 * (p * a - q * b) - p * a
  {
    Dist(p, 2 * a, -(p * b));
    Dist(q, 2 * b, -(p * c));
    Dist(p, p * b, -(q * c));
    NegMul(p, p * b);
    NegMul(q, p * c);
    NegMul(p, q * c);
    Swap3(q, p, c);
    Swap3(p, q, c);
  }

  /** U(m + n + 1) = U(m + 1) U(n + 1) - Q U(m) U(n). */
  lemma {:induction false} Addition(p: int, q: int, m: nat, n: nat)
    ensures U(p, q, m + n + 1) == U(p, q, m + 1) * U(p, q, n + 1) - q * (U(p, q, m) * U(p, q, n))
    decreases n
  {
    if n == 1 {
      assert U(p, q, n + 1) == p * 1 - q * 0;
      assert U(p, q, m + 2) == p * U(p, q, m + 1) - q * U(p, q, m);
    } else if n >= 2 {
      Addition(p, q, m, n - 1);
      Addition(p, q, m, n - 2);
      AdditionStep(p, q, U(p, q, m + 1), U(p, q, m), U(p, q, n), U(p, q, n - 1), U(p, q, n - 2));
    }
  }

  lemma AdditionStep(p: int, q: int, x: int, y: int, a: int, b: int, c: int)
    requires a == p * b - q * c
    ensures p * (x * a - q * (y * b)) - q * (x * b - q * (y * c)) == x * (p * a - q * b) - q * (y * a)
  {
    TimesStep(x, p, a, q, b);
    TimesStep(y, p, b, q, c);
    Nested(p, q, x * a, y * b, x * b, y * c);
  }

  lemma TimesStep(x: int, p: int, a: int, q: int, b: int)
    ensures x * (p * a - q * b) == p * (x * a) - q * (x * b)
  {
    Dist(x, p * a, -(q * b));
    NegMul(x, q * b);
    Swap3(x, p, a);
    Swap3(x, q, b);
    Swap3(p, x, a);
    Swap3(q, x, b);
  }

  lemma Nested(p: int, q: int, x: int, y: int, z: int, w: int)
    ensures p * (x - q * y) - q * (z - q * w) == (p * x - q * z) - q * (p * y - q * w)
  {
    Dist(p, x, -(q * y));
    NegMul(p, q * y);
    Dist(q, z, -(q * w));
    NegMul(q, q * w);
    Dist(q, p * y, -(q * w));
    Swap3(p, q, y);
    Swap3(q, p, y);
  }

  /** The two doublings of the ladder. */
  lemma Doubling(p: int, q: int, j: nat)
    ensures var u1, u2 := U(p, q, j), U(p, q, j + 1);
      && U(p, q, 2 * j + 1) == u2 * u2 - q * (u1 * u1)
      && U(p, q, 2 * j) == 2 * (u2 * u1) - p * (u1 * u1)
      && U(p, q, 2 * j + 2) == p * (u2 * u2) - (2 * q) * (u2 * u1)
  {
    var u1, u2 := U(p, q, j), U(p, q, j + 1);
    Addition(p, q, j, j);
    if j > 0 {
      Addition(p, q, j, j - 1);
      EvenDoubling(p, q, u2, u1, U(p, q, j - 1));
    }
    LastDoubling(p, q, u2, u1);
  }

  lemma EvenDoubling(p: int, q: int, a: int, b: int, c: int)
    requires a == p * b - q * c
    ensures a * b - q * (b * c) == 2 * (a * b) - p * (b * b)
  {
    Dist(b, p * b, -(q * c));
    NegMul(b, q * c);
    Swap3(b, p, b);
    Swap3(b, q, c);
  }

  lemma LastDoubling(p: int, q: int, a: int, b: int)
    ensures p * (a * a - q * (b * b)) - q * (2 * (a * b) - p * (b * b)) == p * (a * a) - (2 * q) * (a * b)
  {
    Dist(p, a * a, -(q * (b * b)));
    NegMul(p, q * (b * b));
    Dist(q, 2 * (a * b), -(p * (b * b)));
    NegMul(q, p * (b * b));
    Swap3(p, q, b * b);
    Swap3(2, q, a * b);
  }

  // ---- congruences ----

  ghost predicate Congruent(m: int, x: int, y: int) { Divides(m, x - y) }

  lemma CongruentSum(m: int, x: int, x': int, y: int, y': int)
    requires Congruent(m, x, x') && Congruent(m, y, y')
    ensures Congruent(m, x + y, x' + y') && Congruent(m, x - y, x' - y')
  {
    DividesSum(m, x - x', y - y');
  }

  lemma CongruentProduct(m: int, x: int, x': int, y: int, y': int)
    requires Congruent(m, x, x') && Congruent(m, y, y')
    ensures Congruent(m, x * y, x' * y')
  {
    DividesMul(m, x - x', y);
    DividesMul(m, y - y', x');
    DividesSum(m, (x - x') * y, x' * (y - y'));
    Dist(y, x, -x');
    NegMul(x', y);
    Dist(x', y, -y');
    NegMul(x', y');
  }

  lemma CongruentTimes(m: int, k: int, x: int, x': int)
    requires Congruent(m, x, x')
    ensures Congruent(m, k * x, k * x')
  {
    DividesBy(m, k - k, 0);
    CongruentProduct(m, k, k, x, x');
  }

  lemma CongruentRemainder(m: int, x: int, y: int)
    requires m != 0 && Congruent(m, x, y)
    ensures Congruent(m, TruncMod(x, m), y)
  {
    DividesBy(m, TruncDiv(x, m) * m, TruncDiv(x, m));
    DividesSum(m, x - y, TruncDiv(x, m) * m);
  }

  // ---- the ladder ----

  /** The ladder holds U(j) and U(j + 1). */
  ghost predicate Holds(m: int, p: int, q: int, j: nat, u1: int, u2: int) {
    Congruent(m, u1, U(p, q, j)) && Congruent(m, u2, U(p, q, j + 1))
  }

  /** The products of the ladder are congruent to those of the sequence. */
  lemma Products(m: int, q: int, u1: int, u2: int, x1: int, x2: int)
    requires Congruent(m, u1, x1) && Congruent(m, u2, x2)
    ensures Congruent(m, u2 * u1, x2 * x1) && Congruent(m, u2 * u2, x2 * x2) && Congruent(m, u1 * u1, x1 * x1)
    ensures Congruent(m, u2 * u2 - q * (u1 * u1), x2 * x2 - q * (x1 * x1))
  {
    CongruentProduct(m, u2, x2, u1, x1);
    CongruentProduct(m, u2, x2, u2, x2);
    CongruentProduct(m, u1, x1, u1, x1);
    CongruentTimes(m, q, u1 * u1, x1 * x1);
    CongruentSum(m, u2 * u2, x2 * x2, q * (u1 * u1), q * (x1 * x1));
  }

  lemma Combination(m: int, k: int, x: int, x': int, l: int, y: int, y': int)
    requires Congruent(m, x, x') && Congruent(m, y, y')
    ensures Congruent(m, k * x - l * y, k * x' - l * y')
  {
    CongruentTimes(m, k, x, x');
    CongruentTimes(m, l, y, y');
    CongruentSum(m, k * x, k * x', l * y, l * y');
  }

  lemma OddStep(m: int, p: int, q: int, j: nat, u1: int, u2: int)
    requires Holds(m, p, q, j, u1, u2)
    ensures Holds(m, p, q, 2 * j + 1, u2 * u2 - q * (u1 * u1), p * (u2 * u2) - (2 * q) * (u2 * u1))
  {
    var x1, x2 := U(p, q, j), U(p, q, j + 1);
    Doubling(p, q, j);
    Products(m, q, u1, u2, x1, x2);
    Combination(m, p, u2 * u2, x2 * x2, 2 * q, u2 * u1, x2 * x1);
  }

  lemma EvenStep(m: int, p: int, q: int, j: nat, u1: int, u2: int)
    requires Holds(m, p, q, j, u1, u2)
    ensures Holds(m, p, q, 2 * j, 2 * (u2 * u1) - p * (u1 * u1), u2 * u2 - q * (u1 * u1))
  {
    var x1, x2 := U(p, q, j), U(p, q, j + 1);
    Doubling(p, q, j);
    Products(m, q, u1, u2, x1, x2);
    Combination(m, 2, u2 * u1, x2 * x1, p, u1 * u1, x1 * x1);
  }

  lemma HoldsReduced(m: int, p: int, q: int, j: nat, u1: int, u2: int)
    requires m != 0 && Holds(m, p, q, j, u1, u2)
    ensures Holds(m, p, q, j, TruncMod(u1, m), TruncMod(u2, m))
  {
    CongruentRemainder(m, u1, U(p, q, j));
    CongruentRemainder(m, u2, U(p, q, j + 1));
  }

  /** The arithmetic of one step of find_lucas_v, in the order of the source. */
  method LadderProducts(p: int, q: int, bit: bool, u1: int, u2: int) returns (w1: int, w2: int)
    ensures bit ==> w1 == u2 * u2 - q * (u1 * u1) && w2 == p * (u2 * u2) - (2 * q) * (u2 * u1)
    ensures !bit ==> w1 == 2 * (u2 * u1) - p * (u1 * u1) && w2 == u2 * u2 - q * (u1 * u1)
  {
    var tmp := u2 * u1;
    w2 := u2 * u2;
    w1 := u1 * u1;
    NegMul(w1, q);
    NegMul(tmp, 2 * q);
    if bit {
      w1 := w1 * q;
      w1 := w2 - w1;
      if p != 1 {
        w2 := w2 * p;
      }
      w2 := w2 + tmp * -(2 * q);
    } else {
      w2 := w2 + w1 * -q;
      tmp := tmp * 2;
      if p != 1 {
        tmp := tmp - w1 * p;
        w1 := tmp;
      } else {
        w1 := tmp - w1;
      }
    }
  }

  /** One step of find_lucas_v: j becomes 2j or 2j + 1 by the next bit. */
  method LadderStep(m: int, p: int, q: int, bit: bool, u1: int, u2: int, ghost j: nat) returns (w1: int, w2: int)
    requires m != 0 && Holds(m, p, q, j, u1, u2)
    ensures Holds(m, p, q, if bit then 2 * j + 1 else 2 * j, w1, w2)
  {
    w1, w2 := LadderProducts(p, q, bit, u1, u2);
    if bit {
      OddStep(m, p, q, j, u1, u2);
      HoldsReduced(m, p, q, 2 * j + 1, w1, w2);
    } else {
      EvenStep(m, p, q, j, u1, u2);
      HoldsReduced(m, p, q, 2 * j, w1, w2);
    }
    w1 := TruncMod(w1, m);
    w2 := TruncMod(w2, m);
  }

  /** find_lucas_v. */
  method FindLucasV(e: nat, m: int, p: int, q: int) returns (v: int)
    requires e >= 1 && m != 0
    ensures Congruent(m, v, V(p, q, e))
  {
    var u1, u2 := 1, p;
    TopBit(e);
    FirstTwo(m, p, q);
    var i: int := BitLen(e) - 2;
    while i >= 0
      invariant -1 <= i && Holds(m, p, q, Shift(e, i + 1), u1, u2)
    {
      u1, u2 := LadderStep(m, p, q, Shift(e, i) % 2 == 1, u1, u2, Shift(e, i + 1));
      i := i - 1;
    }
    VFromU(p, q, e);
    CongruentTimes(m, 2, u2, U(p, q, e + 1));
    CongruentTimes(m, p, u1, U(p, q, e));
    CongruentSum(m, 2 * u2, 2 * U(p, q, e + 1), p * u1, p * U(p, q, e));
    v := 2 * u2 - u1 * p;
  }

  lemma FirstTwo(m: int, p: int, q: int)
    ensures Holds(m, p, q, 1, 1, p)
  {
    assert U(p, q, 2) == p * 1 - q * 0;
    DividesBy(m, 0, 0);
  }

  // ---- the parameters and the test ----

  const VPRP_MAX_D := 1000

  /** The candidates for the discriminant: 5, -7, 9, -11, ... */
  function Candidate(x: int): int { if x % 4 == 1 then x else -x }

  predicate Rejected(jacobi: int -> int, x: int) { jacobi(Candidate(x)) != -1 }

  ghost predicate AllRejected(jacobi: int -> int, end: int) { forall y :: 5 <= y < end && y % 2 == 1 ==> Rejected(jacobi, y) }

  function Parameters(d: int): (int, int) { if d == 5 then (5, 5) else (1, TruncDiv(1 - d, 4)) }

  /** P^2 - 4Q is the chosen discriminant, and |Q| is at most 250. */
  ghost predicate GoodParameters(d: int, pq: (int, int)) {
    pq.0 * pq.0 - 4 * pq.1 == d && pq.0 == (if d == 5 then 5 else 1) && -250 <= pq.1 <= 250
  }

  lemma ParametersAreGood(x: int)
    requires 5 <= x < VPRP_MAX_D && x % 2 == 1
    ensures GoodParameters(Candidate(x), Parameters(Candidate(x)))
  {
    var d, k := Candidate(x), x / 4;
    assert x == 4 * k + x % 4 && (x % 4 == 1 || x % 4 == 3);
    ExactQuotient(1 - d, 4, if x % 4 == 1 then -k else k + 1);
  }

  /** x gives the first candidate with symbol -1. */
  ghost predicate Chosen(jacobi: int -> int, x: int, pq: (int, int)) {
    5 <= x < VPRP_MAX_D && x % 2 == 1 && !Rejected(jacobi, x) && AllRejected(jacobi, x) && GoodParameters(Candidate(x), pq)
  }

  lemma FirstAccepted(jacobi: int -> int, x: int)
    requires 5 <= x < VPRP_MAX_D && x % 2 == 1 && !Rejected(jacobi, x) && AllRejected(jacobi, x)
    ensures Chosen(jacobi, x, Parameters(Candidate(x)))
  {
    ParametersAreGood(x);
  }

  lemma NextRejected(jacobi: int -> int, x: int)
    requires x % 2 == 1 && Rejected(jacobi, x) && AllRejected(jacobi, x)
    ensures AllRejected(jacobi, x + 2)
  {}

  /** find_pq with the Jacobi symbol of d over the number under test; None when it fails. */
  method FindPQ(jacobi: int -> int) returns (r: Option<(int, int)>)
    ensures r.Some? ==> exists x :: Chosen(jacobi, x, r.value)
    ensures r.None? ==> AllRejected(jacobi, VPRP_MAX_D)
  {
    var x: int := 5;
    while x < VPRP_MAX_D
      invariant 5 <= x <= VPRP_MAX_D + 1 && x % 2 == 1 && AllRejected(jacobi, x)
    {
      var d := Candidate(x);
      if jacobi(d) == -1 {
        FirstAccepted(jacobi, x);
        return Some(Parameters(d));
      }
      NextRejected(jacobi, x);
      x := Abs(d) + 2;
    }
    r := None;
  }

  /** mpz_cdiv_r: the remainder is not positive. */
  function CeilMod(n: int, d: int): int
    requires d > 0
  {
    -((-n) % d)
  }

  /** The last lines of is_vprp decide the congruence to 2Q, provided 2Q is in the range of the remainder. */
  method DecidesTwoQ(v: int, n: int, q: int) returns (res: bool)
    requires n > 0
    ensures res <==> Congruent(n, v, 2 * q) && -n < 2 * q < n
  {
    var r := if q < 0 then CeilMod(v, n) else v % n;
    res := r == 2 * q;
    RemainderCongruent(v, n, q, r);
  }

  lemma RemainderCongruent(v: int, n: int, q: int, r: int)
    requires n > 0 && r == if q < 0 then CeilMod(v, n) else v % n
    ensures r == 2 * q <==> Congruent(n, v, 2 * q) && -n < 2 * q < n
  {
    if q < 0 {
      DividesBy(n, v - r, -((-v) / n));
      NegMul((-v) / n, n);
      DivBounds(-v, n);
    } else {
      DividesBy(n, v - r, v / n);
      DivBounds(v, n);
    }
    if Congruent(n, v, 2 * q) && -n < 2 * q < n {
      DividesSum(n, v - 2 * q, v - r);
      var k :| IsQuotient(r - 2 * q, n, k);
      SmallMultiple(r - 2 * q, n, k);
    }
  }

  lemma NotBelow(jacobi: int -> int, end: int, x: int, pq: (int, int))
    requires AllRejected(jacobi, end) && Chosen(jacobi, x, pq)
    ensures x >= end
  {}

  lemma NoneChosen(jacobi: int -> int)
    requires AllRejected(jacobi, VPRP_MAX_D)
    ensures forall x, pq :: !Chosen(jacobi, x, pq)
  {}

  lemma ChosenUnique(jacobi: int -> int, x: int, pq: (int, int), x': int, pq': (int, int))
    requires Chosen(jacobi, x, pq) && Chosen(jacobi, x', pq')
    ensures pq == pq'
  {
    NotBelow(jacobi, x', x, pq);
    NotBelow(jacobi, x, x', pq');
  }

  /** What is_vprp decides for the parameters it finds. */
  ghost predicate PassesLucas(n: int, pq: (int, int))
    requires n > 0
  {
    Congruent(n, V(pq.0, pq.1, n + 1), 2 * pq.1)
  }

  /** is_vprp: for n > 1000 it decides whether V(n + 1) is 2Q modulo n for the chosen parameters. */
  method IsVprp(n: int, jacobi: int -> int) returns (res: bool)
    requires n > 0
    ensures AllRejected(jacobi, VPRP_MAX_D) ==> !res
    ensures forall x, pq :: Chosen(jacobi, x, pq) ==> (res <==> PassesLucas(n, pq) && -n < 2 * pq.1 < n)
    ensures n > 1000 ==> (res <==> exists x, pq :: Chosen(jacobi, x, pq) && PassesLucas(n, pq))
  {
    var found := FindPQ(jacobi);
    if found.None? {
      NoneChosen(jacobi);
      return false;
    }
    var (p, q) := found.value;
    var v := FindLucasV(n + 1, n, p, q);
    res := DecidesTwoQ(v, n, q);
    CongruentEither(n, v, V(p, q, n + 1), 2 * q);
    ghost var y :| Chosen(jacobi, y, (p, q));
    forall x, pq | Chosen(jacobi, x, pq)
      ensures pq == (p, q)
    {
      ChosenUnique(jacobi, x, pq, y, (p, q));
    }
    assert PassesLucas(n, (p, q)) <==> Congruent(n, V(p, q, n + 1), 2 * q);
  }

  lemma CongruentEither(n: int, x: int, y: int, z: int)
    requires Congruent(n, x, y)
    ensures Congruent(n, x, z) <==> Congruent(n, y, z)
  {
    if Congruent(n, x, z) {
      DividesSum(n, x - z, x - y);
    }
    if Congruent(n, y, z) {
      DividesSum(n, x - y, y - z);
    }
  }

  // ---- the strong test to a base ----

  function Power(b: int, e: nat): int { if e == 0 then 1 else b * Power(b, e - 1) }

  lemma {:induction false} PowerAdd(b: int, m: nat, n: nat)
    ensures Power(b, m + n) == Power(b, m) * Power(b, n)
    decreases m
  {
    if m > 0 {
      PowerAdd(b, m - 1, n);
      Swap3(b, Power(b, m - 1), Power(b, n));
    }
  }

  /** The r-th square of b^d. */
  function SquaredPower(b: int, d: nat, r: nat): int { QuotientProduct(Pow2(r), d); Power(b, Pow2(r) * d) }

  lemma NextSquare(b: int, d: nat, r: nat)
    ensures SquaredPower(b, d, r + 1) == SquaredPower(b, d, r) * SquaredPower(b, d, r)
  {
    QuotientProduct(Pow2(r), d);
    Dist(d, Pow2(r), Pow2(r));
    PowerAdd(b, Pow2(r) * d, Pow2(r) * d);
  }

  /** n is a strong probable prime to base b, where n - 1 = 2^s d: b^d is 1, or one of its first s squares is -1. */
  ghost predicate StrongPrime(n: int, b: int, s: nat, d: nat) {
    Congruent(n, Power(b, d), 1) || exists r :: 0 <= r < s && IsMinusOne(n, b, d, r)
  }

  ghost predicate IsMinusOne(n: int, b: int, d: nat, r: nat) { Congruent(n, SquaredPower(b, d, r), -1) }

  /** mpz_scan1 from bit 1 on and the shift: n - 1 = 2^s d with d odd. */
  method Split(n: nat) returns (s: nat, d: nat)
    requires n >= 3 && n % 2 == 1
    ensures s >= 1 && d % 2 == 1 && n - 1 == Pow2(s) * d
  {
    s, d := 1, n / 2;
    assert Pow2(1) == 2 && d >= 1;
    while d % 2 == 0
      invariant s >= 1 && d >= 1 && n - 1 == Pow2(s) * d
      decreases d
    {
      Swap3(Pow2(s), 2, d / 2);
      d := d / 2;
      s := s + 1;
    }
  }

  /** A residue is a given small number exactly when it is congruent to it. */
  lemma ResidueIs(n: int, x: int, y: int, v: int)
    requires n > 0 && Congruent(n, x, y) && 0 <= x < n && -1 <= v <= 1
    ensures v == 1 && n > 1 ==> (x == 1 <==> Congruent(n, y, 1))
    ensures v == -1 ==> (x + 1 == n <==> Congruent(n, y, -1))
  {
    CongruentEither(n, x, y, v);
    DividesBy(n, n, 1);
    if v == 1 && Congruent(n, x, 1) && n > 1 {
      var k :| IsQuotient(x - 1, n, k);
      SmallMultiple(x - 1, n, k);
    }
    if v == 1 && x == 1 {
      DividesBy(n, 0, 0);
    }
    if v == -1 && Congruent(n, x, -1) {
      DividesSum(n, x + 1, n);
      var k :| IsQuotient(x + 1 - n, n, k);
      SmallMultiple(x + 1 - n, n, k);
    }
  }

  lemma ModCongruent(x: int, y: int, n: int)
    requires n > 0 && Congruent(n, x, y)
    ensures Congruent(n, x % n, y)
  {
    DividesBy(n, x / n * n, x / n);
    DividesSum(n, x - y, x / n * n);
  }

  /** miller_rabin. */
  method MillerRabin(n: nat, base: int) returns (res: bool, s: nat, d: nat)
    requires n >= 3 && n % 2 == 1
    ensures s >= 1 && d % 2 == 1 && n - 1 == Pow2(s) * d
    ensures res <==> StrongPrime(n, base, s, d)
  {
    s, d := Split(n);
    var b := Power(base, d) % n;
    DividesBy(n, 0, 0);
    ModCongruent(Power(base, d), Power(base, d), n);
    ResidueIs(n, b, Power(base, d), 1);
    if b == 1 {
      return true, s, d;
    }
    var r := 0;
    assert Pow2(0) * d == d;
    while true
      invariant 0 <= r < s && 0 <= b < n && Congruent(n, b, SquaredPower(base, d, r))
      invariant !Congruent(n, Power(base, d), 1) && forall k :: 0 <= k < r ==> !IsMinusOne(n, base, d, k)
      decreases s - r
    {
      ResidueIs(n, b, SquaredPower(base, d, r), -1);
      if b + 1 == n {
        assert IsMinusOne(n, base, d, r);
        return true, s, d;
      }
      NextSquare(base, d, r);
      r := r + 1;
      if r == s {
        return false, s, d;
      }
      CongruentProduct(n, b, SquaredPower(base, d, r - 1), b, SquaredPower(base, d, r - 1));
      ModCongruent(b * b, SquaredPower(base, d, r), n);
      b := b * b % n;
    }
  }
}
