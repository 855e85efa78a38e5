/** The phased squaring pipeline (src/vdf_fast.h), one iteration of phases 0 to 4 in the
  * single-thread order. Values keep the source's names. */
module PhasedSquare {
  import opened Integers
  import opened ExtendedGcd
  import opened QuadraticForms
  import opened Composition
  import opened PartialXgcd
  import opened Nucomp
  import opened GcdStream

  const MAX_BITS_AB := 1027

  /** Number of 64-bit limbs, 0 for 0. */
  function NumLimbs(x: nat): nat { if x == 0 then 0 else 1 + NumLimbs(x / LIMB_MOD) }

  lemma {:induction false} MoreLimbsLarger(x: nat, y: nat)
    requires NumLimbs(x) > NumLimbs(y)
    ensures x > y
    decreases x
  {
    if y > 0 {
      MoreLimbsLarger(x / LIMB_MOD, y / LIMB_MOD);
    }
  }

  // ---- algebra of one iteration ----

  /** When the remainder reaches 0, the last one divides both starting numbers. */
  lemma LastRemainder(e: Euclid, R2: int, R1: int, sign: int)
    requires Inv(e, R2, R1, sign) && e.r1 == 0
    ensures e.r2 == 1 <==> Coprime(R2, R1)
  {
    LastDivides(e, R2, R1, sign);
    if Coprime(R2, R1) {
      CommonDivisor(e.r2, R2, R1);
    }
    if e.r2 == 1 {
      NegMul(e.co2, R1);
      assert e.d2 * R2 + (-e.co2) * R1 == 1;
    }
  }

  /** U0 b = 1 (mod a) gives k = -U0 c with k b = -c (mod a): the starting cube of NUDUPL with s = 1. */
  lemma StartedFromInverse(f: Form, U0: int, z: int, k: int) returns (n: int)
    requires f.PositiveDefinite() && U0 * f.b == 1 + z * f.a
    requires k == (-(U0 * f.c)) % f.a
    ensures Started(f, f, 1, k, -k, n, f.a, f.a, f.b, 0)
  {
    var q := (-(U0 * f.c)) / f.a;
    DivBounds(-(U0 * f.c), f.a);
    n := q * f.b + z * f.c;
    assert k == -(U0 * f.c) - q * f.a;
    InverseCalc(f.a, f.b, f.c, U0, z, q);
    NegMul(k, f.a);
    NegMul(q, f.a);
  }

  lemma InverseCalc(a: int, b: int, c: int, u: int, z: int, q: int)
    requires u * b == 1 + z * a
    ensures (q * b + z * c) * a == -((-(u * c) - q * a) * b + c)
  {
    Dist(b, -(u * c), -(q * a));
    assert (u * c) * b == c * (u * b);
    Dist(c, 1, z * a);
    Dist(a, q * b, z * c);
    assert (q * a) * b == (q * b) * a;
    assert c * (z * a) == (z * c) * a;
  }

  /** The phase 2 to 4 formulas in terms of the NUDUPL quantities: S is the sign of v1 = -co1,
    * h = S m2, A = S * h.a, and f = e - 2 v0 h is the middle coefficient of the composite. */
  lemma PhaseFormulas(a: int, b: int, c: int, t: int, co2: int, co1: int, sign: int, m2: int, w: int, ha: int)
    requires a != 0 && co1 != 0 && (sign == 1 || sign == -1)
    requires m2 * a == b * t - c * co1
    requires ha == t * t - co1 * m2
    requires a * t - sign * ha * co2 == w * co1
    ensures var v0, v1 := -co2, -co1;
      && b * t + c * v1 == m2 * a
      && t * t * sign + v1 * (sign * m2) == sign * ha
      && (2 * t) * (a + sign * (t * v0)) == (-2 * w - 2 * (v0 * (sign * m2))) * v1
  {
    var v0, v1 := -co2, -co1;
    NegMul(c, co1);
    NegMul(co1, m2);
    if sign == 1 {
      PhaseCalc(a, t, co2, co1, m2, w);
    } else {
      PhaseCalc(a, t, -co2, co1, m2, w);
      NegMul(ha, co2);
      NegMul(t, -co2);
    }
  }

  lemma PhaseCalc(a: int, t: int, co2: int, co1: int, m2: int, w: int)
    requires a * t - (t * t - co1 * m2) * co2 == w * co1
    ensures (2 * t) * (a + t * (-co2)) == (-2 * w - 2 * ((-co2) * m2)) * (-co1)
    ensures (2 * t) * (a + t * (-co2)) == (-2 * w + 2 * (co2 * m2)) * (-co1)
  {
    Dist(co2, t * t, -(co1 * m2));
    Dist(2 * t, a, t * (-co2));
    assert (2 * t) * (t * (-co2)) == -2 * ((t * t) * co2);
    assert (co1 * m2) * co2 == (co2 * m2) * co1;
    Dist(co1, w, -(co2 * m2));
    assert (-2 * w + 2 * (co2 * m2)) * (-co1) == 2 * ((w - co2 * m2) * co1);
    NegMul(co2, m2);
  }

  /** Any b congruent to h.b modulo 2 h.a gives an equivalent form, with an exact c. */
  lemma FinishAny(h: Form, A: int, B: int) returns (r: Form)
    requires h.PositiveDefinite() && (A == h.a || A == -h.a) && B == h.b % (2 * A)
    ensures Equivalent(h, r) && r.PositiveDefinite() && r.Disc() == h.Disc()
    ensures r.a == Abs(A) && r.b == B && B * B - h.Disc() == r.c * (4 * Abs(A))
  {
    var q := h.b / (2 * A);
    assert h.b == q * (2 * A) + B;
    var n := if A < 0 then q else -q;
    assert B == h.b + 2 * h.a * n by {
      NegMul(q, 2 * h.a);
    }
    var m := Mat(1, n, 0, 1);
    r := Act(h, m);
    EquivalentBy(h, m, r);
    EquivalentPositive(h, r);
    EquivalentDisc(h, r);
    TranslateEntries(h, n);
    assert 4 * r.a * r.c == r.c * (4 * r.a);
  }

  // ---- the values of one iteration, as functions of what it starts from ----

  /** A quotient for every divisor; the divisions of an iteration that completes are exact. */
  function QuotientOf(n: int, d: int): int { if d == 0 then 0 else FloorDiv(n, d) }

  function RemainderOf(n: int, d: int): int { if d == 0 then 0 else n % d }

  /** What the first gcd starts from, and the cofactors that follow it. */
  function FirstPair(a: int, b: int, higher: bool): (int, int) { if higher then (Abs(b), a) else (a, Abs(b)) }

  function FirstCofactors(b: int, higher: bool): (int, int) {
    var u, v := if higher then 1 else 0, if higher then 0 else 1;
    if b < 0 then (-u, -v) else (u, v)
  }

  function COf(a: int, b: int, D: int): int { QuotientOf(b * b - D, 4 * a) }

  function KOf(a: int, c: int, U0: int): int { RemainderOf(-(U0 * c), a) }

  function HOf(a: int, b: int, c: int, t: int, v1: int): int {
    var q := QuotientOf(b * t + c * v1, a);
    if v1 <= 0 then -q else q
  }

  function TTSOf(t: int, v1: int): int { if v1 <= 0 then -(t * t) else t * t }

  function EOf(a: int, b: int, t: int, v0: int, v1: int): int {
    var stv0 := if v1 <= 0 then -(t * v0) else t * v0;
    -(b + QuotientOf((2 * t) * (a + stv0), v1))
  }

  /** What a squaring state holds between iterations, without the count. */
  datatype Square = Square(a: int, b: int, higher: bool)

  /** The new a, with its sign, and the new b before its reduction, from c, t and the two cofactors. */
  function NewSlots(x: Square, c: int, t: int, v0: int, v1: int): (int, int) {
    var h := HOf(x.a, x.b, c, t, v1);
    var A := TTSOf(t, v1) + v1 * h;
    (A, EOf(x.a, x.b, t, v0, v1) - 2 * v0 * h)
  }

  function Finished(A: int, B: int): Square { Square(Abs(A), B, Abs(B) >= Abs(A)) }

  /** k, when the first gcd publishes entries up to m0. */
  function KAfter(x: Square, c: int, plan0: seq<nat>, m0: nat): int {
    var p, u := FirstPair(x.a, x.b, x.higher), FirstCofactors(x.b, x.higher);
    KOf(x.a, c, Fold(Entries(p.0, p.1, 0, plan0, m0), m0, u.0, u.1).0)
  }

  /** What the first four phases prepare. */
  function Composed(x: Square, D: int, L: nat, plan0: seq<nat>, plan1: seq<nat>, m0: nat, m1: nat): (int, int) {
    var c := COf(x.a, x.b, D);
    var k := KAfter(x, c, plan0, m0);
    var v := Fold(Entries(x.a, k, L, plan1, m1), m1, 0, 1);
    NewSlots(x, c, Left(x.a, k, L, plan1, m1).1, v.0, v.1)
  }

  /** The state after one more iteration, when the gcds publish entries up to m0 and m1. */
  function NextSquare(x: Square, D: int, L: nat, plan0: seq<nat>, plan1: seq<nat>, m0: nat, m1: nat): Square {
    var r := Composed(x, D, L, plan0, plan1, m0, m1);
    Finished(r.0, RemainderOf(r.1, 2 * r.0))
  }

  /** An iteration: what it starts from, the last entries of its gcds, what phases 0 to 3 prepare. */
  datatype Iteration = Iteration(x: Square, m0: nat, m1: nat, A: int, f: int) {
    predicate Fits() { m0 <= GCD_MAX_ITERATIONS && m1 <= GCD_MAX_ITERATIONS }
  }

  /** What phases 0 and 1 leave. */
  datatype Begun = Begun(x: Square, m0: nat, m1: nat, c: int, k: int, t: int, v0: int, v1: int)

  // The fields of a state, tied to what the phases compute.

  ghost predicate IsK(c: int, k: int, x: Square, D: int, gcd10: seq<Entry>) {
    forall n: nat :: Opened(OfK, n) ==>
      var u := FirstCofactors(x.b, x.higher);
      |gcd10| >= 1 && c == COf(x.a, x.b, D) && k == KOf(x.a, c, Fold(gcd10, |gcd10| - 1, u.0, u.1).0)
  }

  ghost predicate IsV(v0: int, v1: int, gcdST: seq<Entry>) {
    forall n: nat :: Opened(OfV, n) ==> |gcdST| >= 1 && (v0, v1) == Fold(gcdST, |gcdST| - 1, 0, 1)
  }

  ghost predicate IsH(h: int, v1h: int, x: Square, c: int, t: int, v1: int) {
    forall n: nat :: Opened(OfH, n) ==> h == HOf(x.a, x.b, c, t, v1) && v1h == v1 * h
  }

  ghost predicate IsTTS(ttS: int, t: int, v1: int) {
    forall n: nat :: Opened(OfTTS, n) ==> ttS == TTSOf(t, v1)
  }

  ghost predicate IsE(e: int, x: Square, t: int, v0: int, v1: int) {
    forall n: nat :: Opened(OfE, n) ==> e == EOf(x.a, x.b, t, v0, v1)
  }

  ghost predicate IsFinished(y: Square, A: int, f: int) {
    forall n: nat :: Opened(OfSlots, n) ==> y == Finished(A, RemainderOf(f, 2 * A))
  }

  ghost predicate IsNext(y: Square, x: Square, D: int, L: nat, plan0: seq<nat>, plan1: seq<nat>, m0: nat, m1: nat) {
    forall n: nat :: Opened(OfIteration, n) ==> y == NextSquare(x, D, L, plan0, plan1, m0, m1)
  }

  ghost predicate IsComposed(A: int, f: int, x: Square, D: int, L: nat, plan0: seq<nat>, plan1: seq<nat>, m0: nat, m1: nat) {
    forall n: nat :: Opened(OfPhases, n) ==> (A, f) == Composed(x, D, L, plan0, plan1, m0, m1)
  }

  ghost predicate IsBegun(g: Begun, D: int, L: nat, plan0: seq<nat>, plan1: seq<nat>) {
    forall n: nat :: Opened(OfBegun, n) ==>
      g.c == COf(g.x.a, g.x.b, D) && g.k == KAfter(g.x, g.c, plan0, g.m0)
      && g.t == Left(g.x.a, g.k, L, plan1, g.m1).1 && (g.v0, g.v1) == Fold(Entries(g.x.a, g.k, L, plan1, g.m1), g.m1, 0, 1)
  }

  lemma BegunIs(g: Begun, D: int, L: nat, plan0: seq<nat>, plan1: seq<nat>, gcd10: seq<Entry>, a10: int, b10: int, gcdST: seq<Entry>, s: int)
    requires var p := FirstPair(g.x.a, g.x.b, g.x.higher); IsGcd(gcd10, a10, b10, p.0, p.1, 0, plan0)
    requires IsK(g.c, g.k, g.x, D, gcd10) && IsGcd(gcdST, s, g.t, g.x.a, g.k, L, plan1) && IsV(g.v0, g.v1, gcdST)
    requires |gcd10| == g.m0 + 1 && |gcdST| == g.m1 + 1
    ensures IsBegun(g, D, L, plan0, plan1)
  {
    assert Opened(OfGcd, 0) && Opened(OfK, 0) && Opened(OfV, 0);
    var p := FirstPair(g.x.a, g.x.b, g.x.higher);
    EntriesAre(gcd10, p.0, p.1, 0, plan0);
    EntriesAre(gcdST, g.x.a, g.k, L, plan1);
  }

  lemma ComposedIs(g: Begun, D: int, L: nat, plan0: seq<nat>, plan1: seq<nat>, h: int, v1h: int, ttS: int, e: int, it: Iteration)
    requires IsBegun(g, D, L, plan0, plan1)
    requires IsH(h, v1h, g.x, g.c, g.t, g.v1) && IsTTS(ttS, g.t, g.v1) && IsE(e, g.x, g.t, g.v0, g.v1)
    requires it == Iteration(g.x, g.m0, g.m1, ttS + v1h, e - 2 * g.v0 * h)
    ensures IsComposed(it.A, it.f, it.x, D, L, plan0, plan1, it.m0, it.m1)
  {
    assert Opened(OfBegun, 0) && Opened(OfH, 0) && Opened(OfTTS, 0) && Opened(OfE, 0);
    assert (it.A, it.f) == NewSlots(g.x, g.c, g.t, g.v0, g.v1);
    assert Composed(g.x, D, L, plan0, plan1, g.m0, g.m1) == NewSlots(g.x, g.c, g.t, g.v0, g.v1);
  }

  lemma NextIs(y: Square, A: int, f: int, x: Square, D: int, L: nat, plan0: seq<nat>, plan1: seq<nat>, m0: nat, m1: nat)
    requires IsComposed(A, f, x, D, L, plan0, plan1, m0, m1) && IsFinished(y, A, f)
    ensures IsNext(y, x, D, L, plan0, plan1, m0, m1)
  {
    assert Opened(OfPhases, 0) && Opened(OfSlots, 0);
  }

  lemma NextOpened(y: Square, x: Square, D: int, L: nat, plan0: seq<nat>, plan1: seq<nat>, m0: nat, m1: nat)
    requires IsNext(y, x, D, L, plan0, plan1, m0, m1)
    ensures y == NextSquare(x, D, L, plan0, plan1, m0, m1)
  {
    assert Opened(OfIteration, 0);
  }

  /** mpz_divexact promises its quotient only when the division is exact. */
  method DivideExact(n: int, d: int) returns (q: int)
    ensures d != 0 && Divides(d, n) ==> q * d == n
    ensures q == QuotientOf(n, d)
  {
    q := if d == 0 then 0 else FloorDiv(n, d);
    if d != 0 && Divides(d, n) {
      ghost var x :| IsQuotient(n, d, x);
      ExactQuotient(n, d, x);
    }
  }

  // ---- the cofactor of b and the start of an iteration ----

  ghost function TrackedCofactor(R2: int, R1: int, n: nat, higher: bool, negative: bool): int {
    var r := Run(Start(R2, R1), n);
    var u := if higher then r.d2 else -r.co2;
    if negative then -u else u
  }

  /** k = -U0 c mod a for the tracked cofactor U0. */
  ghost function KFrom(R2: int, R1: int, n: nat, higher: bool, negative: bool, c: int, a: int): int
    requires a != 0
  {
    (-(TrackedCofactor(R2, R1, n, higher, negative) * c)) % a
  }

  lemma CofactorTracked(R2: int, R1: int, n: nat, higher: bool, negative: bool)
    ensures var x, y := if higher then 1 else 0, if higher then 0 else 1;
            ApplyQs(Quotients(Start(R2, R1), n), if negative then -x else x, if negative then -y else y).0
            == TrackedCofactor(R2, R1, n, higher, negative)
  {
    var qs := Quotients(Start(R2, R1), n);
    QuotientsCarry(Start(R2, R1), n);
    ApplyQsNegate(qs, 1, 0);
    ApplyQsNegate(qs, 0, -1);
    ApplyQsNegate(qs, 0, 1);
  }

  /** {R2, R1} are |b| and a, the larger first. */
  predicate Magnitudes(R2: int, R1: int, a: int, b: int, higher: bool) {
    a > 0 && (higher <==> Abs(b) >= a)
    && R2 == (if higher then Abs(b) else a) && R1 == (if higher then a else Abs(b))
  }

  lemma GcdMeansCoprime(R2: int, R1: int, n: nat, a: int, b: int, higher: bool)
    requires Magnitudes(R2, R1, a, b, higher) && Run(Start(R2, R1), n).r1 == 0
    ensures Run(Start(R2, R1), n).r2 == 1 <==> Coprime(b, a)
  {
    StartInv(R2, R1);
    var sign := RunInv(Start(R2, R1), R2, R1, 1, n);
    LastRemainder(Run(Start(R2, R1), n), R2, R1, sign);
    CoprimeAbs(a, b);
  }

  lemma CoprimeAbs(a: int, b: int)
    ensures Coprime(b, a) <==> Coprime(Abs(b), a)
    ensures Coprime(Abs(b), a) <==> Coprime(a, Abs(b))
  {
    if Coprime(b, a) {
      var s, t :| s * b + t * a == 1;
      NegMul(s, b);
      assert (if b < 0 then -s else s) * Abs(b) + t * a == 1;
    }
    if Coprime(Abs(b), a) {
      var s, t :| s * Abs(b) + t * a == 1;
      NegMul(s, Abs(b));
      assert (if b < 0 then -s else s) * b + t * a == 1;
      assert t * a + s * Abs(b) == 1;
    }
    if Coprime(a, Abs(b)) {
      var s, t :| s * a + t * Abs(b) == 1;
      assert t * Abs(b) + s * a == 1;
    }
  }

  lemma StartOfIteration(f: Form, R2: int, R1: int, n: nat, higher: bool, k: int) returns (m: int)
    requires f.PositiveDefinite() && Magnitudes(R2, R1, f.a, f.b, higher)
    requires Run(Start(R2, R1), n).r1 == 0 && Run(Start(R2, R1), n).r2 == 1
    requires k == KFrom(R2, R1, n, higher, f.b < 0, f.c, f.a)
    ensures Started(f, f, 1, k, -k, m, f.a, f.a, f.b, 0)
  {
    var z := TrackedInverse(R2, R1, n, f.a, f.b, higher);
    m := StartedFromInverse(f, TrackedCofactor(R2, R1, n, higher, f.b < 0), z, k);
  }

  lemma TrackedInverse(R2: int, R1: int, n: nat, a: int, b: int, higher: bool) returns (z: int)
    requires Magnitudes(R2, R1, a, b, higher)
    requires Run(Start(R2, R1), n).r1 == 0 && Run(Start(R2, R1), n).r2 == 1
    ensures TrackedCofactor(R2, R1, n, higher, b < 0) * b == 1 + z * a
  {
    var r := Run(Start(R2, R1), n);
    RemainderEquation(R2, R1, n);
    z := CofactorInverse(r.d2, r.co2, R2, R1, a, b, higher);
  }

  lemma RemainderEquation(R2: int, R1: int, n: nat)
    requires 0 <= R1 <= R2 && R2 > 0
    ensures var r := Run(Start(R2, R1), n); r.r2 == r.d2 * R2 - r.co2 * R1
  {
    StartInv(R2, R1);
    var sign := RunInv(Start(R2, R1), R2, R1, 1, n);
  }

  lemma CofactorInverse(d2: int, co2: int, R2: int, R1: int, a: int, b: int, higher: bool) returns (z: int)
    requires Magnitudes(R2, R1, a, b, higher) && d2 * R2 - co2 * R1 == 1
    ensures var u := if higher then d2 else -co2;
            (if b < 0 then -u else u) * b == 1 + z * a
  {
    z := if higher then co2 else -d2;
    NegMul(d2, a);
    NegMul(co2, Abs(b));
    NegMul(if higher then d2 else -co2, b);
  }

  function SignOf(v1: int): int { if v1 <= 0 then -1 else 1 }

  /** What phases 2 to 4 compute, once k is right: all three divisions are exact. */
  lemma MiddleOfIteration(f: Form, k: int, n: int, steps: nat) returns (h: Form, m2: int, w: int)
    requires Started(f, f, 1, k, -k, n, f.a, f.a, f.b, 0)
    ensures Composes(f, f, h) && h.PositiveDefinite() && h.Disc() == f.Disc()
    ensures var r := Run(Start(f.a, k), steps);
            var v0, v1 := -r.co2, -r.co1;
            var S := SignOf(v1);
      && v1 != 0
      && f.b * r.r1 + f.c * v1 == m2 * f.a
      && r.r1 * r.r1 * S + v1 * (S * m2) == S * h.a
      && (2 * r.r1) * (f.a + S * (r.r1 * v0)) == (-2 * w - 2 * (v0 * (S * m2))) * v1
      && h.b == 2 * w - f.b
  {
    var sign := XgcdPartialFacts(f.a, k, steps);
    var r := Run(Start(f.a, k), steps);
    var m1;
    h, m1, m2, w := Composite(r, f, f, 1, k, -k, n, f.a, f.a, f.b, 0, sign);
    CommonFactor(m1, r.r1, f.a);
    assert (f.c * 1) * r.co1 == f.c * r.co1 && (1 * f.b) * r.r1 == f.b * r.r1;
    PhaseFormulas(f.a, f.b, f.c, r.r1, r.co2, r.co1, sign, m2, w, h.a);
  }

  /** The new slots hold a form of the class of the composite. */
  lemma EndOfIteration(f: Form, h: Form, A: int, B: int) returns (r: Form)
    requires Composes(f, f, h) && h.PositiveDefinite()
    requires (A == h.a || A == -h.a) && B == h.b % (2 * A)
    ensures r.a == Abs(A) && r.b == B && r.PositiveDefinite() && r.Disc() == h.Disc() && Composes(f, f, r)
  {
    r := FinishAny(h, A, B);
    ComposesResult(f, f, h, r);
  }

  /** The values the phases leave determine the new slots: A = S * h.a and f = h.b for a composite h. */
  lemma IterationAlgebra(f: Form, k: int, n: int, steps: nat, t: int, v0: int, v1: int,
                         h: int, v1h: int, ttS: int, v02: int, e: int) returns (hf: Form)
    requires Started(f, f, 1, k, -k, n, f.a, f.a, f.b, 0)
    requires var r := Run(Start(f.a, k), steps); r.r1 == t && v0 == -r.co2 && v1 == -r.co1
    requires Divides(f.a, f.b * t + f.c * v1) ==> (SignOf(v1) * h) * f.a == f.b * t + f.c * v1
    requires v1h == v1 * h && ttS == t * t * SignOf(v1) && v02 == 2 * v0
    requires var m := (2 * t) * (f.a + SignOf(v1) * (t * v0));
             v1 != 0 && Divides(v1, m) ==> (-(e + f.b)) * v1 == m
    ensures Composes(f, f, hf) && hf.PositiveDefinite() && hf.Disc() == f.Disc()
    ensures ttS + v1h == SignOf(v1) * hf.a && e - v02 * h == hf.b
  {
    var m2, w;
    hf, m2, w := MiddleOfIteration(f, k, n, steps);
    DividesBy(f.a, f.b * t + f.c * v1, m2);
    SolveFor(SignOf(v1), h, f.a, m2);
    var q := -2 * w - 2 * (v0 * h);
    DividesBy(v1, (2 * t) * (f.a + SignOf(v1) * (t * v0)), q);
    Cancel(-(e + f.b), q, v1);
    Swap3(2, v0, h);
  }

  lemma SolveFor(S: int, h: int, a: int, m2: int)
    requires (S == 1 || S == -1) && a != 0 && (S * h) * a == m2 * a
    ensures h == S * m2
  {
    Cancel(S * h, m2, a);
  }

  /** a and b are those of a positive form of discriminant D. */
  predicate Consistent(a: int, b: int, D: int)
    requires a != 0
  {
    FloorMod(b * b - D, 4 * a) == 0 && a >= 0 && FloorDiv(b * b - D, 4 * a) >= 0
  }

  lemma FormIsConsistent(f: Form, D: int)
    requires f.PositiveDefinite() && f.Disc() == D
    ensures Consistent(f.a, f.b, D) && FloorDiv(f.b * f.b - D, 4 * f.a) == f.c
  {
    CFromDisc(f, D);
    ExactQuotient(f.b * f.b - D, 4 * f.a, f.c);
    PositiveC(f);
  }

  // ---- the state and its phases ----

  /** The size checks of phase 0: at most MAX_BITS_AB bits, and a has more limbs than L. */
  predicate SizesFit(a: nat, b: int, L: nat) {
    (forall x: nat :: x in [a, Abs(b)] ==> BitLen(x) <= MAX_BITS_AB) && NumLimbs(a) > NumLimbs(L)
  }

  /** The gcd of a and |b|, started with the larger one. */
  ghost predicate FirstGcdFits(a: nat, b: int, plan: seq<nat>) {
    if Abs(b) >= a then GcdFits(Abs(b), a, 0, plan) else GcdFits(a, Abs(b), 0, plan)
  }

  /** k = -c / b (mod a), when b has an inverse. */
  ghost predicate IsRatio(f: Form, k: int) {
    0 <= k < f.a && (Coprime(f.b, f.a) ==> Divides(f.a, k * f.b + f.c))
  }

  lemma RatioFromStart(f: Form, k: int, n: int)
    requires Started(f, f, 1, k, -k, n, f.a, f.a, f.b, 0)
    ensures Divides(f.a, k * f.b + f.c)
  {
    NegMul(n, f.a);
    DividesBy(f.a, k * f.b + f.c, -n);
  }

  /** Phase 0 runs to its end in both threads. */
  ghost predicate Begins(a: nat, b: int, L: nat, plan: seq<nat>) {
    SizesFit(a, b, L) && FirstGcdFits(a, b, plan)
  }

  /** Nothing stops an iteration before the last phase. */
  ghost predicate Completes(a: nat, b: int, L: nat, k: int, plan0: seq<nat>, plan1: seq<nat>) {
    Begins(a, b, L, plan0) && GcdFits(a, k, L, plan1)
  }

  class SquareState {
    const D: int
    const L: int

    // phase_start
    var aSlots: seq<int>
    var bSlots: seq<int>
    var abIndex: int
    var higher: bool
    var numValidIterations: nat
    var corruption: bool
    /** The form whose a and b are the current slots. */
    ghost var cur: Form

    // phase 0 master: gcd(b, a, 0)
    var gcd10: seq<Entry>
    var gcd10A: int
    var gcd10B: int
    ghost var steps10: nat

    // phase 0 slave
    var c: int
    var k: int

    // phase 1: gcd(a, k, L)
    var gcdST: seq<Entry>
    var s: int
    var t: int
    ghost var stepsST: nat
    var v0: int
    var v1: int

    // phases 2 and 3
    var h: int
    var v1h: int
    var ttS: int
    var v02: int
    var A2: int
    var e: int

    ghost predicate Slots()
      reads this
    {
      |aSlots| == 2 && |bSlots| == 2 && 0 <= abIndex < 2 && L >= 0 && D < 0
    }

    function a(): int
      requires Slots()
      reads this
    {
      aSlots[abIndex]
    }

    function b(): int
      requires Slots()
      reads this
    {
      bSlots[abIndex]
    }

    /** Between iterations: a form of discriminant D, not flagged as corrupt. */
    ghost predicate Ready()
      reads this
    {
      Slots() && cur.PositiveDefinite() && cur.Disc() == D && cur.a == a() && cur.b == b()
      && !corruption && (higher <==> Abs(b()) >= Abs(a()))
    }

    /** init. */
    constructor (D: int, L: int, f: Form)
      requires f.PositiveDefinite() && f.Disc() == D && L >= 0
      ensures Ready() && cur == f && numValidIterations == 0 && this.D == D && this.L == L
    {
      this.D, this.L := D, L;
      aSlots, bSlots := [f.a, 0], [f.b, 0];
      abIndex, numValidIterations, corruption := 0, 0, false;
      higher := Abs(f.b) >= Abs(f.a);
      cur := f;
    }

    ghost function Current(): Square
      requires Slots()
      reads this
    {
      Square(a(), b(), higher)
    }

    ghost function Big(): int requires Slots() reads this { if higher then Abs(b()) else a() }
    ghost function Small(): int requires Slots() reads this { if higher then a() else Abs(b()) }

    /** phase_0_master: the size checks, then gcd(b, a) on magnitudes. */
    method Phase0Master(plan: seq<nat>) returns (ok: bool)
      requires Ready()
      modifies `gcd10, `gcd10A, `gcd10B, `steps10
      ensures ok <==> Begins(a(), b(), L, plan)
      ensures ok ==> a() > L
      ensures ok ==> WellTerminated(gcd10) && Streams(gcd10, Start(Big(), Small()), steps10)
      ensures ok ==> Run(Start(Big(), Small()), steps10).r2 == gcd10A
      ensures ok ==> Run(Start(Big(), Small()), steps10).r1 == gcd10B == 0
      ensures ok ==> 1 <= |gcd10| <= GCD_MAX_ITERATIONS + 1 && IsGcd(gcd10, gcd10A, gcd10B, Big(), Small(), 0, plan)
    {
      ok := a() >= 0 && BitLen(a()) <= MAX_BITS_AB && BitLen(Abs(b())) <= MAX_BITS_AB;
      if !ok {
        return;
      }
      if NumLimbs(a()) <= NumLimbs(L) {
        return false;
      }
      MoreLimbsLarger(a(), L);
      var x, y := if higher then Abs(b()) else a(), if higher then a() else Abs(b());
      ok, gcd10, gcd10A, gcd10B, steps10 := GcdUnsigned(x, y, 0, plan);
    }

    /** phase_0_slave: c with its remainder and sign checks, then k from the streamed entries. The
      * corruption flag is raised exactly on inconsistent slots. */
    method Phase0Slave() returns (ok: bool)
      requires Slots() && a() != 0
      requires WellTerminated(gcd10) && Streams(gcd10, Start(Big(), Small()), steps10)
      modifies `c, `k, `corruption
      ensures ok <==> Consistent(a(), b(), D)
      ensures corruption == (old(corruption) || !ok)
      ensures c == FloorDiv(b() * b() - D, 4 * a())
      ensures ok ==> 0 <= k < a()
      ensures ok ==> k == KFrom(Big(), Small(), steps10, higher, b() < 0, c, a())
      ensures ok ==> IsK(c, k, Current(), D, gcd10)
    {
      var bb := b() * b();
      var a4 := 4 * a();
      var bbD := bb - D;
      c := FloorDiv(bbD, a4);
      var remainder := FloorMod(bbD, a4);
      if remainder != 0 {
        corruption := true;
        return false;
      }
      if a() < 0 || c < 0 {
        corruption := true;
        return false;
      }
      var U0, U1 := if higher then 1 else 0, if higher then 0 else 1;
      if b() < 0 {
        U0, U1 := -U0, -U1;
      }
      U0, U1 := Consume(gcd10, U0, U1, Start(Big(), Small()), steps10);
      CofactorTracked(Big(), Small(), steps10, higher, b() < 0);
      U0 := U0 * c;
      U0 := -U0;
      k := U0 % a();
      ok := true;
    }

    /** phase_1_slave: gcd(a, k, L). */
    method Phase1Slave(plan: seq<nat>) returns (ok: bool)
      requires Slots() && a() > L && 0 <= k < a()
      modifies `gcdST, `s, `t, `stepsST
      ensures ok <==> GcdFits(a(), k, L, plan)
      ensures ok ==> WellTerminated(gcdST) && Streams(gcdST, Start(a(), k), stepsST)
      ensures ok ==> Run(Start(a(), k), stepsST).r2 == s && Run(Start(a(), k), stepsST).r1 == t
      ensures ok ==> 0 <= t <= L < s
      ensures ok ==> 1 <= |gcdST| <= GCD_MAX_ITERATIONS + 1 && IsGcd(gcdST, s, t, a(), k, L, plan)
    {
      ok, gcdST, s, t, stepsST := GcdUnsigned(a(), k, L, plan);
    }

    /** phase_1_master: v0 and v1 from the streamed entries. */
    method Phase1Master()
      requires Slots() && WellTerminated(gcdST) && Streams(gcdST, Start(a(), k), stepsST)
      modifies `v0, `v1
      ensures v0 == -Run(Start(a(), k), stepsST).co2 && v1 == -Run(Start(a(), k), stepsST).co1
      ensures IsV(v0, v1, gcdST)
    {
      v0, v1 := Consume(gcdST, 0, 1, Start(a(), k), stepsST);
      QuotientsCarry(Start(a(), k), stepsST);
      ApplyQsNegate(Quotients(Start(a(), k), stepsST), 0, -1);
    }

    method Phase2Master()
      requires Slots() && a() > 0
      modifies `h, `v1h
      ensures Divides(a(), b() * t + c * v1) ==> (SignOf(v1) * h) * a() == b() * t + c * v1
      ensures v1h == v1 * h && IsH(h, v1h, Current(), c, t, v1)
    {
      var cv1 := c * v1;
      var bt := b() * t;
      var q := DivideExact(bt + cv1, a());
      h := if v1 <= 0 then -q else q;
      v1h := v1 * h;
    }

    method Phase2Slave()
      modifies `ttS, `v02
      ensures ttS == t * t * SignOf(v1) && v02 == 2 * v0 && IsTTS(ttS, t, v1)
    {
      ttS := t * t;
      if v1 <= 0 {
        ttS := -ttS;
      }
      v02 := 2 * v0;
    }

    method Phase3Master()
      requires Slots()
      modifies `aSlots, `A2
      ensures aSlots == old(aSlots)[1 - abIndex := ttS + v1h] && A2 == 2 * (ttS + v1h)
    {
      aSlots := aSlots[1 - abIndex := ttS + v1h];
      A2 := 2 * aSlots[1 - abIndex];
    }

    method Phase3Slave()
      requires Slots()
      modifies `e
      ensures var n := (2 * t) * (a() + SignOf(v1) * (t * v0));
              v1 != 0 && Divides(v1, n) ==> (-(e + b())) * v1 == n
      ensures IsE(e, Current(), t, v0, v1)
    {
      var stv0 := t * v0;
      if v1 <= 0 {
        stv0 := -stv0;
      }
      var q := DivideExact((2 * t) * (a() + stv0), v1);
      e := b() + q;
      e := -e;
    }

    /** phase_4_master: the gcd check, B, |A|, and the switch of slots. */
    method Phase4Master() returns (ok: bool)
      requires Slots() && A2 == 2 * aSlots[1 - abIndex] && (gcd10A == 1 && gcd10B == 0 ==> A2 != 0)
      modifies `aSlots, `bSlots, `higher, `abIndex, `numValidIterations, `corruption
      ensures ok <==> gcd10A == 1 && gcd10B == 0
      ensures !ok ==> corruption && aSlots == old(aSlots) && bSlots == old(bSlots)
      ensures !ok ==> abIndex == old(abIndex) && numValidIterations == old(numValidIterations) && higher == old(higher)
      ensures ok ==> aSlots == old(aSlots)[1 - old(abIndex) := Abs(old(aSlots[1 - abIndex]))]
      ensures ok ==> bSlots == old(bSlots)[1 - old(abIndex) := (e - v02 * h) % A2]
      ensures ok ==> Slots() && abIndex == 1 - old(abIndex) && corruption == old(corruption)
      ensures ok ==> a() == Abs(old(aSlots[1 - abIndex])) && b() == (e - v02 * h) % A2
      ensures ok ==> (higher <==> Abs(b()) >= Abs(a())) && numValidIterations == old(numValidIterations) + 1
      ensures ok ==> IsFinished(Current(), old(aSlots[1 - abIndex]), e - v02 * h)
    {
      if gcd10A != 1 {
        corruption := true;
        return false;
      }
      if gcd10B != 0 {
        corruption := true;
        return false;
      }
      var v02h := v02 * h;
      var f := e - v02h;
      bSlots := bSlots[1 - abIndex := f % A2];
      aSlots := aSlots[1 - abIndex := Abs(aSlots[1 - abIndex])];
      higher := Abs(bSlots[1 - abIndex]) >= Abs(aSlots[1 - abIndex]);
      abIndex := 1 - abIndex;
      numValidIterations := numValidIterations + 1;
      ok := true;
    }

    /** Phase 0 has run with these batch sizes. */
    ghost predicate Phase0Values(plan: seq<nat>)
      requires Slots()
      reads this
    {
      && 1 <= |gcd10| <= GCD_MAX_ITERATIONS + 1 && IsGcd(gcd10, gcd10A, gcd10B, Big(), Small(), 0, plan)
      && IsK(c, k, Current(), D, gcd10)
    }

    ghost predicate Phase1Values(plan: seq<nat>)
      requires Slots()
      reads this
    {
      1 <= |gcdST| <= GCD_MAX_ITERATIONS + 1 && IsGcd(gcdST, s, t, a(), k, L, plan) && IsV(v0, v1, gcdST)
    }

    ghost function Beginning(): Begun
      requires Slots() && |gcd10| >= 1 && |gcdST| >= 1
      reads this
    {
      Begun(Current(), |gcd10| - 1, |gcdST| - 1, c, k, t, v0, v1)
    }

    /** Phase 0 of the slave on a form of discriminant D: its checks pass and c is the last coefficient. */
    method Phase0SlaveReady(ghost R2: int, ghost R1: int)
      requires Ready() && WellTerminated(gcd10) && Streams(gcd10, Start(R2, R1), steps10) && R2 == Big() && R1 == Small()
      modifies `c, `k, `corruption
      ensures !corruption && c == cur.c && 0 <= k < cur.a && Magnitudes(R2, R1, cur.a, cur.b, higher)
      ensures k == KFrom(R2, R1, steps10, higher, cur.b < 0, cur.c, cur.a)
      ensures IsK(c, k, Current(), D, gcd10)
    {
      FormIsConsistent(cur, D);
      var ok := Phase0Slave();
    }

    /** Phase 0 of both threads: c is right, and when the gcd is 1 the starting cube of NUDUPL exists for k. */
    method Phase0(plan: seq<nat>) returns (ok: bool, ghost n: int)
      requires Ready()
      modifies `gcd10, `gcd10A, `gcd10B, `steps10, `c, `k, `corruption
      ensures !corruption && (ok <==> Begins(cur.a, cur.b, L, plan))
      ensures ok ==> cur.a > L && IsRatio(cur, k) && c == cur.c
      ensures ok ==> gcd10B == 0 && (gcd10A == 1 <==> Coprime(cur.b, cur.a))
      ensures ok && gcd10A == 1 ==> Started(cur, cur, 1, k, -k, n, cur.a, cur.a, cur.b, 0)
      ensures ok ==> Phase0Values(plan)
    {
      n := 0;
      ok := Phase0Master(plan);
      if !ok { return; }
      ghost var R2, R1 := Big(), Small();
      Phase0SlaveReady(R2, R1);
      GcdMeansCoprime(R2, R1, steps10, cur.a, cur.b, higher);
      if gcd10A == 1 {
        n := StartOfIteration(cur, R2, R1, steps10, higher, k);
        RatioFromStart(cur, k, n);
      }
    }

    /** Phase 1 of both threads. */
    method Phase1(plan: seq<nat>) returns (ok: bool)
      requires Slots() && a() > L && 0 <= k < a()
      modifies `gcdST, `s, `t, `stepsST, `v0, `v1
      ensures ok <==> GcdFits(a(), k, L, plan)
      ensures ok ==> var r := Run(Start(a(), k), stepsST); r.r1 == t && v0 == -r.co2 && v1 == -r.co1
      ensures ok ==> Phase1Values(plan)
    {
      ok := Phase1Slave(plan);
      if ok {
        Phase1Master();
      }
    }

    /** Phases 0 and 1. */
    method Phases01(plan0: seq<nat>, plan1: seq<nat>) returns (ok: bool, ghost n: int, ghost g: Begun)
      requires Ready()
      modifies `gcd10, `gcd10A, `gcd10B, `steps10, `c, `k, `corruption, `gcdST, `s, `t, `stepsST, `v0, `v1
      ensures !corruption
      ensures ok <==> Completes(cur.a, cur.b, L, k, plan0, plan1)
      ensures Begins(cur.a, cur.b, L, plan0) ==> IsRatio(cur, k)
      ensures ok ==> gcd10B == 0 && (gcd10A == 1 <==> Coprime(cur.b, cur.a)) && c == cur.c
      ensures ok && gcd10A == 1 ==> Started(cur, cur, 1, k, -k, n, cur.a, cur.a, cur.b, 0)
      ensures ok ==> var r := Run(Start(cur.a, k), stepsST); r.r1 == t && v0 == -r.co2 && v1 == -r.co1
      ensures g.x == old(Current())
      ensures ok ==> 1 <= |gcd10| <= GCD_MAX_ITERATIONS + 1 && 1 <= |gcdST| <= GCD_MAX_ITERATIONS + 1
      ensures ok ==> g == Beginning() && IsBegun(g, D, L, plan0, plan1)
    {
      g := Begun(Current(), 0, 0, 0, 0, 0, 0, 0);
      ok, n := Phase0(plan0);
      if !ok { return; }
      ok := Phase1(plan1);
      if ok {
        g := Begun(g.x, |gcd10| - 1, |gcdST| - 1, c, k, t, v0, v1);
        BegunIs(g, D, L, plan0, plan1, gcd10, gcd10A, gcd10B, gcdST, s);
      }
    }

    /** Phases 2 and 3, with the composite they prepare. */
    method Phases23(ghost f: Form, ghost n: int, ghost good: bool, ghost g: Begun, ghost plan0: seq<nat>, ghost plan1: seq<nat>)
      returns (ghost hf: Form, ghost it: Iteration)
      requires Slots() && f.a == a() > 0 && f.b == b() && f.c == c
      requires good ==> Started(f, f, 1, k, -k, n, f.a, f.a, f.b, 0)
      requires var r := Run(Start(a(), k), stepsST); r.r1 == t && v0 == -r.co2 && v1 == -r.co1
      requires |gcd10| >= 1 && |gcdST| >= 1 && g == Beginning() && IsBegun(g, D, L, plan0, plan1)
      modifies `h, `v1h, `ttS, `v02, `aSlots, `A2, `e
      ensures Slots() && a() == old(a()) && aSlots == old(aSlots)[1 - abIndex := ttS + v1h] && A2 == 2 * (ttS + v1h)
      ensures good ==> Composes(f, f, hf) && hf.PositiveDefinite() && hf.Disc() == f.Disc()
      ensures good ==> ttS + v1h == SignOf(v1) * hf.a && e - v02 * h == hf.b
      ensures it == Iteration(g.x, g.m0, g.m1, aSlots[1 - abIndex], e - v02 * h)
      ensures IsComposed(it.A, it.f, it.x, D, L, plan0, plan1, it.m0, it.m1)
    {
      Phase2Master();
      Phase2Slave();
      Phase3Master();
      Phase3Slave();
      it := Iteration(g.x, g.m0, g.m1, aSlots[1 - abIndex], e - v02 * h);
      ComposedIs(g, D, L, plan0, plan1, h, v1h, ttS, e, it);
      hf := f;
      if good {
        hf := IterationAlgebra(f, k, n, stepsST, t, v0, v1, h, v1h, ttS, v02, e);
      }
    }

    /** Phases 0 to 3. */
    method Phases03(plan0: seq<nat>, plan1: seq<nat>) returns (ok: bool, ghost hf: Form, ghost it: Iteration)
      requires Ready()
      modifies `gcd10, `gcd10A, `gcd10B, `steps10, `c, `k, `corruption, `gcdST, `s, `t, `stepsST, `v0, `v1
      modifies `h, `v1h, `ttS, `v02, `aSlots, `A2, `e
      ensures !corruption
      ensures ok <==> Completes(cur.a, cur.b, L, k, plan0, plan1)
      ensures Begins(cur.a, cur.b, L, plan0) ==> IsRatio(cur, k)
      ensures !ok ==> aSlots == old(aSlots)
      ensures |aSlots| == 2 && aSlots[abIndex] == old(aSlots[abIndex])
      ensures ok ==> A2 == 2 * aSlots[1 - abIndex]
      ensures ok ==> gcd10B == 0 && (gcd10A == 1 <==> Coprime(cur.b, cur.a))
      ensures ok && gcd10A == 1 ==> Composes(cur, cur, hf) && hf.PositiveDefinite() && hf.Disc() == D
      ensures ok && gcd10A == 1 ==> aSlots[1 - abIndex] == SignOf(v1) * hf.a && e - v02 * h == hf.b
      ensures it.x == old(Current())
      ensures ok ==> it.Fits() && it.A == aSlots[1 - abIndex] && it.f == e - v02 * h
      ensures ok ==> IsComposed(it.A, it.f, it.x, D, L, plan0, plan1, it.m0, it.m1)
    {
      ghost var n;
      it := Iteration(Current(), 0, 0, 0, 0);
      hf := cur;
      ghost var g;
      ok, n, g := Phases01(plan0, plan1);
      if ok {
        hf, it := Phases23(cur, n, gcd10A == 1, g, plan0, plan1);
      }
    }

    /** Phase 4 on a prepared composite. */
    method FinishIteration(ghost hf: Form, ghost it: Iteration) returns (ok: bool, ghost y: Square)
      requires Slots() && !corruption && cur.a == a() && cur.b == b()
      requires A2 == 2 * aSlots[1 - abIndex] && gcd10B == 0
      requires gcd10A == 1 ==> Composes(cur, cur, hf) && hf.PositiveDefinite() && hf.Disc() == D
      requires gcd10A == 1 ==> aSlots[1 - abIndex] == SignOf(v1) * hf.a && e - v02 * h == hf.b
      requires it.A == aSlots[1 - abIndex] && it.f == e - v02 * h
      modifies `aSlots, `bSlots, `higher, `abIndex, `numValidIterations, `corruption, `cur
      ensures (ok <==> gcd10A == 1) && (corruption <==> !ok)
      ensures ok ==> Ready() && numValidIterations == old(numValidIterations) + 1 && Composes(old(cur), old(cur), cur)
      ensures !ok ==> aSlots == old(aSlots) && bSlots == old(bSlots) && abIndex == old(abIndex)
      ensures !ok ==> cur == old(cur) && numValidIterations == old(numValidIterations)
      ensures Slots() && y == Current() && (ok ==> IsFinished(y, it.A, it.f) && abIndex == 1 - old(abIndex))
    {
      ghost var S := SignOf(v1);
      if gcd10A == 1 {
        NonZeroDouble(S, hf.a);
      }
      ok := Phase4Master();
      y := Current();
      if ok {
        cur := EndOfIteration(cur, hf, S * hf.a, b());
      }
    }

    /** One iteration. When the sizes fit and both gcds have room for their entries, it succeeds exactly
      * on gcd(a, b) = 1 and raises the corruption flag exactly otherwise. After a success the new slots
      * hold a form that is a composite of the old one with itself, so the next remainder and sign checks
      * pass; otherwise the current slots are untouched. */
    method Iterate(plan0: seq<nat>, plan1: seq<nat>) returns (ok: bool, ghost it: Iteration, ghost y: Square)
      requires Ready()
      modifies this
      ensures ok ==> Ready() && numValidIterations == old(numValidIterations) + 1
      ensures ok ==> Coprime(old(cur.b), old(cur.a)) && Composes(old(cur), old(cur), cur)
      ensures !ok ==> Slots() && cur == old(cur) && a() == cur.a && b() == cur.b
      ensures !ok ==> numValidIterations == old(numValidIterations)
      ensures !ok && !corruption ==> Ready()
      ensures Begins(old(cur.a), old(cur.b), L, plan0) ==> IsRatio(old(cur), k)
      ensures ok <==> Completes(old(cur.a), old(cur.b), L, k, plan0, plan1) && Coprime(old(cur.b), old(cur.a))
      ensures corruption <==> Completes(old(cur.a), old(cur.b), L, k, plan0, plan1) && !Coprime(old(cur.b), old(cur.a))
      ensures ok ==> abIndex == 1 - old(abIndex) && it.Fits() && it.x == old(Current()) && y == Current()
      ensures ok ==> IsNext(y, it.x, D, L, plan0, plan1, it.m0, it.m1)
    {
      ghost var hf;
      y := Current();
      ok, hf, it := Phases03(plan0, plan1);
      if ok {
        ok, y := FinishIteration(hf, it);
        if ok {
          NextIs(y, it.A, it.f, it.x, D, L, plan0, plan1, it.m0, it.m1);
        }
      }
    }
  }

  lemma NonZeroDouble(S: int, a: int)
    requires (S == 1 || S == -1) && a > 0
    ensures 2 * (S * a) != 0 && (S * a == a || S * a == -a)
  {}

  lemma CFromDisc(f: Form, D: int)
    requires f.Disc() == D && f.a > 0
    ensures (f.b * f.b - D) / (4 * f.a) == f.c && f.b * f.b - D == f.c * (4 * f.a)
  {
    assert 4 * f.a * f.c == f.c * (4 * f.a);
    ExactQuotient(f.b * f.b - D, 4 * f.a, f.c);
  }
}
