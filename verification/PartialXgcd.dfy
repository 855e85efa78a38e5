/** The partial extended gcd with Lehmer batches (src/xgcd_partial.c). The specification is the
  * plain Euclidean step; a batch computed on leading words is shown to be that many plain steps. */
module PartialXgcd {
  import opened Integers

  // ---- the specification: Euclid's algorithm with cofactors ----

  /** Remainders and cofactors; d2 and d1 are the second cofactors, which the source does not keep:
    * r2 = d2 * R2 - co2 * R1 and r1 = d1 * R2 - co1 * R1 for the starting pair R2, R1. */
  datatype Euclid = Euclid(r2: int, r1: int, co2: int, co1: int, d2: int, d1: int)

  function Start(r2: int, r1: int): Euclid { Euclid(r2, r1, 0, -1, 1, 0) }

  function Step(e: Euclid): Euclid
    requires e.r1 > 0
  {
    var q := e.r2 / e.r1;
    Euclid(e.r1, e.r2 - q * e.r1, e.co1, e.co2 - q * e.co1, e.d1, e.d2 - q * e.d1)
  }

  /** n steps, stopping early when the remainder is zero. */
  function Run(e: Euclid, n: nat): Euclid
    decreases n
  {
    if n == 0 || e.r1 <= 0 then e else Run(Step(e), n - 1)
  }

  lemma {:induction false} RunMore(e: Euclid, m: nat, n: nat)
    ensures Run(Run(e, m), n) == Run(e, m + n)
    decreases m
  {
    if m > 0 && e.r1 > 0 {
      RunMore(Step(e), m - 1, n);
    }
  }

  /** The second cofactors relate the remainders to the starting pair, and the cofactor matrix has
    * determinant sign, which alternates with the sign of co1. */
  ghost predicate Inv(e: Euclid, R2: int, R1: int, sign: int) {
    && e.r2 == e.d2 * R2 - e.co2 * R1
    && e.r1 == e.d1 * R2 - e.co1 * R1
    && e.co2 * e.d1 - e.co1 * e.d2 == sign
    && 0 <= e.r1 <= e.r2 && e.r2 > 0
    && (sign == 1 || sign == -1)
    && sign * e.co1 <= -1 && sign * e.co2 >= 0
  }

  lemma StartInv(R2: int, R1: int)
    requires 0 <= R1 <= R2 && R2 > 0
    ensures Inv(Start(R2, R1), R2, R1, 1)
  {}

  lemma StepInv(e: Euclid, R2: int, R1: int, sign: int)
    requires Inv(e, R2, R1, sign) && e.r1 > 0
    ensures Inv(Step(e), R2, R1, -sign)
  {
    var q := e.r2 / e.r1;
    DivBounds(e.r2, e.r1);
    QuotientPositive(e.r2, e.r1);
    Combine(e.d2, e.co2, e.d1, e.co1, R2, R1, q);
    DetStep(e.co2, e.co1, e.d2, e.d1, q);
    SignStep(sign, e.co2, e.co1, q);
  }

  lemma QuotientPositive(n: int, d: int)
    requires 0 < d <= n
    ensures n / d >= 1
  {}

  lemma Combine(d2: int, c2: int, d1: int, c1: int, R2: int, R1: int, q: int)
    ensures (d2 * R2 - c2 * R1) - q * (d1 * R2 - c1 * R1) == (d2 - q * d1) * R2 - (c2 - q * c1) * R1
  {}

  lemma DetStep(c2: int, c1: int, d2: int, d1: int, q: int)
    ensures c1 * (d2 - q * d1) - (c2 - q * c1) * d1 == -(c2 * d1 - c1 * d2)
  {}

  lemma SignStep(sign: int, c2: int, c1: int, q: int)
    requires sign * c1 <= -1 && sign * c2 >= 0 && q >= 1 && (sign == 1 || sign == -1)
    ensures -sign * (c2 - q * c1) <= -1 && -sign * c1 >= 0
  {
    var u := -sign * c1;
    AtLeastFactor(q, u);
    assert q * u == -sign * (q * c1);
  }

  /** Every state reached from 0 <= R1 <= R2 satisfies the cofactor relations; in particular
    * co2 * r1 - co1 * r2 = sign * R2 with sign opposite to co1. */
  lemma {:induction false} RunInv(e: Euclid, R2: int, R1: int, sign: int, n: nat) returns (final: int)
    requires Inv(e, R2, R1, sign)
    ensures Inv(Run(e, n), R2, R1, final)
    decreases n
  {
    if n == 0 || e.r1 <= 0 {
      final := sign;
    } else {
      StepInv(e, R2, R1, sign);
      final := RunInv(Step(e), R2, R1, -sign, n - 1);
    }
  }

  lemma CofactorIdentity(e: Euclid, R2: int, R1: int, sign: int)
    requires Inv(e, R2, R1, sign)
    ensures e.co2 * e.r1 - e.co1 * e.r2 == sign * R2
    ensures sign == -Sgn(e.co1)
  {
    CofactorCalc(e.co2, e.co1, e.d2, e.d1, R2, R1);
  }

  /** The last remainder divides both starting numbers. */
  lemma LastDivides(e: Euclid, R2: int, R1: int, sign: int)
    requires Inv(e, R2, R1, sign) && e.r1 == 0
    ensures Divides(e.r2, R2) && Divides(e.r2, R1)
  {
    LastQuotients(e.co2, e.co1, e.d2, e.d1, R2, R1, sign);
    DividesBy(e.r2, R2, -(sign * e.co1));
    DividesBy(e.r2, R1, -(sign * e.d1));
  }

  lemma LastQuotients(c2: int, c1: int, d2: int, d1: int, R2: int, R1: int, sign: int)
    requires c2 * d1 - c1 * d2 == sign && (sign == 1 || sign == -1) && d1 * R2 - c1 * R1 == 0
    ensures R2 == -(sign * c1) * (d2 * R2 - c2 * R1) && R1 == -(sign * d1) * (d2 * R2 - c2 * R1)
  {
    LastCalc(c2, c1, d2, d1, R2, R1);
    NegMul(c1, d2 * R2 - c2 * R1);
    NegMul(d1, d2 * R2 - c2 * R1);
  }

  lemma LastCalc(c2: int, c1: int, d2: int, d1: int, R2: int, R1: int)
    ensures c1 * (d2 * R2 - c2 * R1) == c2 * (d1 * R2 - c1 * R1) - (c2 * d1 - c1 * d2) * R2
    ensures d1 * (d2 * R2 - c2 * R1) == d2 * (d1 * R2 - c1 * R1) - (c2 * d1 - c1 * d2) * R1
  {}

  lemma CofactorCalc(c2: int, c1: int, d2: int, d1: int, R2: int, R1: int)
    ensures c2 * (d1 * R2 - c1 * R1) - c1 * (d2 * R2 - c2 * R1) == (c2 * d1 - c1 * d2) * R2
  {}

  // ---- machine words ----

  const LIMB_BITS := 64
  const LIMB_MOD := 0x1_0000_0000_0000_0000
  const HALF_LIMB := 0x8000_0000_0000_0000

  lemma HalfLimbIsPow2()
    ensures Pow2(63) == HALF_LIMB
  {
    Pow2Square(1, 2);
    Pow2Square(2, 4);
    Pow2Square(4, 16);
    Pow2Square(8, 256);
    Pow2Square(16, 0x1_0000);
    Pow2Square(32, 0x1_0000_0000);
    assert Pow2(64) == 2 * Pow2(63);
  }

  lemma Pow2Square(n: nat, v: nat)
    requires Pow2(n) == v
    ensures Pow2(n + n) == v * v
  {
    Pow2Add(n, n);
  }

  /** The low word of x >> shift, read as a signed word. */
  function ExtractWord(x: nat, shift: nat): int {
    var w := x / Pow2(shift) % LIMB_MOD;
    if w < HALF_LIMB then w else w - LIMB_MOD
  }

  predicate FitsWord(x: int) { -HALF_LIMB <= x < HALF_LIMB }

  lemma ExtractIsShift(x: nat, shift: nat, len: nat)
    requires x < Pow2(len) && len <= shift + 63
    ensures var w, B := ExtractWord(x, shift), Pow2(shift);
            0 <= w < HALF_LIMB && B * w <= x < B * w + B
  {
    var B := Pow2(shift);
    HalfLimbIsPow2();
    Pow2Add(shift, 63);
    Pow2Monotone(len, shift + 63);
    ShiftBounds(x, B);
  }

  lemma ShiftBounds(x: nat, B: nat)
    requires B >= 1 && x < B * HALF_LIMB
    ensures 0 <= x / B < HALF_LIMB && B * (x / B) <= x < B * (x / B) + B
    ensures x / B % LIMB_MOD == x / B
  {
    QuotientBelow(x, B, HALF_LIMB);
    QuotientNonNegative(x, B);
    DivBounds(x, B);
  }

  lemma QuotientBelow(x: nat, d: nat, m: nat)
    requires d > 0 && x < d * m
    ensures x / d < m
  {
    DivBounds(x, d);
    if x / d >= m {
      AtLeastTimes(x / d, m, d);
    }
  }

  // ---- a batch of steps on leading words ----

  /** The words of the inner loop: approximate remainders and the cofactors of the batch. */
  datatype Words = Words(rr2: int, rr1: int, aa2: int, aa1: int, bb2: int, bb1: int)

  /** What the batch does to the long numbers. */
  function Apply(e: Euclid, w: Words): Euclid {
    Euclid(w.bb2 * e.r2 + w.aa2 * e.r1, w.bb1 * e.r2 + w.aa1 * e.r1,
           w.bb2 * e.co2 + w.aa2 * e.co1, w.bb1 * e.co2 + w.aa1 * e.co1,
           w.bb2 * e.d2 + w.aa2 * e.d1, w.bb1 * e.d2 + w.aa1 * e.d1)
  }

  function Next(w: Words): Words
    requires w.rr1 > 0
  {
    var qq := w.rr2 / w.rr1;
    Words(w.rr1, w.rr2 - qq * w.rr1, w.aa1, w.aa2 - qq * w.aa1, w.bb1, w.bb2 - qq * w.bb1)
  }

  /** The exactness test: i & 1 selects which cofactor is the negative one. */
  predicate Accepts(w: Words, i: nat)
    requires w.rr1 > 0
  {
    var n := Next(w);
    if i % 2 == 1 then !(n.rr1 < -n.bb1 || w.rr1 - n.rr1 < n.aa1 - w.aa1)
    else !(n.rr1 < -n.aa1 || w.rr1 - n.rr1 < n.bb1 - w.bb1)
  }

  /** x with the sign that alternates with i. */
  function Alt(i: nat, x: int): int { if i % 2 == 0 then x else -x }

  /** The words after i accepted steps, started from the leading words w2 and w1. */
  ghost predicate BatchInv(w: Words, w2: int, w1: int, i: nat) {
    && w.rr2 == w.bb2 * w2 + w.aa2 * w1
    && w.rr1 == w.bb1 * w2 + w.aa1 * w1
    && w.rr2 >= 0 && w.rr1 >= 0
    && Alt(i, w.aa1) >= 0 && Alt(i, w.aa2) <= 0 && Alt(i, w.bb2) >= 0 && Alt(i, w.bb1) <= 0
    && Alt(i, w.aa1) * w.rr2 - Alt(i, w.aa2) * w.rr1 == w2
    && Alt(i, w.bb1) * w.rr2 - Alt(i, w.bb2) * w.rr1 == -w1
  }

  lemma NextInv(w: Words, w2: int, w1: int, i: nat)
    requires BatchInv(w, w2, w1, i) && w.rr1 > 0
    ensures BatchInv(Next(w), w2, w1, i + 1)
    ensures Next(w).rr1 < w.rr1
  {
    var q := w.rr2 / w.rr1;
    DivBounds(w.rr2, w.rr1);
    QuotientNonNegative(w.rr2, w.rr1);
    CombineWords(w.bb2, w.aa2, w.bb1, w.aa1, w2, w1, q);
    AltStep(i, w.aa2, w.aa1, w.rr2, w.rr1, q);
    AltStep(i, w.bb2, w.bb1, w.rr2, w.rr1, q);
    AltSigns(Alt(i, w.aa2), Alt(i, w.aa1), q);
    AltSigns(-Alt(i, w.bb2), -Alt(i, w.bb1), q);
  }

  lemma CombineWords(b2: int, a2: int, b1: int, a1: int, w2: int, w1: int, q: int)
    ensures (b2 * w2 + a2 * w1) - q * (b1 * w2 + a1 * w1) == (b2 - q * b1) * w2 + (a2 - q * a1) * w1
  {}

  lemma AltSigns(c2: int, c1: int, q: int)
    requires c1 >= 0 && c2 <= 0 && q >= 0
    ensures c2 - q * c1 <= 0
    ensures -c2 + q * (-c1) == -(c2 + q * c1)
    ensures -(-c2 - q * (-c1)) == c2 - q * c1
  {}

  lemma AltStep(i: nat, c2: int, c1: int, x2: int, x1: int, q: int)
    ensures Alt(i + 1, c2 - q * c1) == -(Alt(i, c2) - q * Alt(i, c1))
    ensures Alt(i + 1, c1) == -Alt(i, c1)
    ensures Alt(i + 1, c2 - q * c1) * x1 - Alt(i + 1, c1) * (x2 - q * x1) == Alt(i, c1) * x2 - Alt(i, c2) * x1
  {
    var u, v := Alt(i, c1), Alt(i, c2);
    NegMul(q, c1);
    AltStepCalc(u, v, x2, x1, q);
  }

  lemma AltStepCalc(u: int, v: int, x2: int, x1: int, q: int)
    ensures (-(v - q * u)) * x1 - (-u) * (x2 - q * x1) == u * x2 - v * x1
  {}

  // ---- an accepted batch step is the true Euclidean step ----

  /** The new remainder cannot be negative: its error is below the slack the test leaves. */
  lemma ErrorBelow(B: int, t: int, neg: int, en: int, pos: int, ep: int)
    requires t >= neg >= 0 && pos >= 0 && 0 <= en < B && 0 <= ep
    ensures B * t + pos * ep - neg * en >= 0
  {
    assert B * t >= B * neg;
    assert B * neg >= en * neg;
    assert pos * ep >= 0;
  }

  /** The new remainder is below the previous one. */
  lemma GapPositive(B: int, gap: int, p: int, ep: int, q: int, en: int)
    requires gap > 0 && gap >= p >= 0 && q >= 0 && 0 <= en && 0 <= ep < B
    ensures B * gap - p * ep + q * en > 0
  {
    assert B * gap >= (ep + 1) * gap;
    assert (ep + 1) * gap == ep * gap + gap;
    assert ep * gap >= ep * p;
    assert q * en >= 0;
  }

  /** bb * R2 + aa * R1 splits into the word part and the error of dropping the low bits. */
  lemma SplitLow(B: int, bb: int, aa: int, w2: int, w1: int, e2: int, e1: int, R2: int, R1: int)
    requires R2 == B * w2 + e2 && R1 == B * w1 + e1
    ensures bb * R2 + aa * R1 == B * (bb * w2 + aa * w1) + bb * e2 + aa * e1
  {
    Dist(bb, B * w2, e2);
    Dist(aa, B * w1, e1);
    Swap3(B, bb, w2);
    Swap3(B, aa, w1);
    Dist(B, bb * w2, aa * w1);
  }

  lemma AcceptedStep(e: Euclid, w: Words, B: int, w2: int, w1: int, i: nat)
    requires BatchInv(w, w2, w1, i) && w.rr1 > 0 && Accepts(w, i)
    requires B >= 1 && B * w2 <= e.r2 < B * w2 + B && B * w1 <= e.r1 < B * w1 + B
    ensures Apply(e, w).r1 > 0
    ensures Step(Apply(e, w)) == Apply(e, Next(w))
  {
    var n, x := Next(w), Apply(e, w);
    var q := w.rr2 / w.rr1;
    var e2, e1 := e.r2 - B * w2, e.r1 - B * w1;
    NextInv(w, w2, w1, i);
    SplitLow(B, n.bb1, n.aa1, w2, w1, e2, e1, e.r2, e.r1);
    SplitLow(B, w.bb1, w.aa1, w2, w1, e2, e1, e.r2, e.r1);
    var r := Apply(e, n).r1;
    assert r == B * n.rr1 + n.bb1 * e2 + n.aa1 * e1;
    assert x.r1 == B * w.rr1 + w.bb1 * e2 + w.aa1 * e1;
    GapTerms(B, w.rr1, n.rr1, w.bb1, n.bb1, e2, w.aa1, n.aa1, e1);
    if i % 2 == 0 {
      ErrorBelow(B, n.rr1, -n.aa1, e1, n.bb1, e2);
      GapPositive(B, w.rr1 - n.rr1, n.bb1 - w.bb1, e2, w.aa1 - n.aa1, e1);
      NegMul(n.aa1, e1);
      NegMul(n.bb1 - w.bb1, e2);
    } else {
      ErrorBelow(B, n.rr1, -n.bb1, e2, n.aa1, e1);
      GapPositive(B, w.rr1 - n.rr1, n.aa1 - w.aa1, e1, w.bb1 - n.bb1, e2);
      NegMul(n.bb1, e2);
      NegMul(n.aa1 - w.aa1, e1);
    }
    assert 0 <= r < x.r1;
    ApplyNext(e.r2, e.r1, w, q);
    ApplyNext(e.co2, e.co1, w, q);
    ApplyNext(e.d2, e.d1, w, q);
    DivUnique(x.r2, x.r1, q, r);
  }

  lemma GapTerms(B: int, x: int, y: int, b: int, b': int, e2: int, a: int, a': int, e1: int)
    ensures (B * x + b * e2 + a * e1) - (B * y + b' * e2 + a' * e1) == B * (x - y) + (b - b') * e2 + (a - a') * e1
  {}

  lemma ApplyNext(x2: int, x1: int, w: Words, q: int)
    requires w.rr1 > 0 && q == w.rr2 / w.rr1
    ensures Next(w).bb1 * x2 + Next(w).aa1 * x1
         == (w.bb2 * x2 + w.aa2 * x1) - q * (w.bb1 * x2 + w.aa1 * x1)
  {
    CombineWords(w.bb2, w.aa2, w.bb1, w.aa1, x2, x1, q);
  }

  // ---- widths: the words of a batch never overflow ----

  predicate CofactorsFit(w: Words) {
    Abs(w.aa2) < HALF_LIMB && Abs(w.aa1) < HALF_LIMB && Abs(w.bb2) < HALF_LIMB && Abs(w.bb1) < HALF_LIMB
  }

  lemma SumBelow(u: int, x: int, v: int, y: int, w: int)
    requires u * x + v * y == w && u >= 0 && v >= 0 && x >= 1 && y >= 0
    ensures u <= w
    ensures y >= 1 ==> u + v <= w
  {
    AtLeastTimes(x, 1, u);
    assert v * y >= 0;
    if y >= 1 {
      AtLeastTimes(y, 1, v);
    }
  }

  lemma ColumnFits(i: nat, c2: int, c1: int, x2: int, x1: int, q: int, w: int)
    requires Alt(i, c1) >= 0 && Alt(i, c2) <= 0 && q >= 0 && x1 > 0 && x2 - q * x1 >= 0
    requires Alt(i, c1) * x2 - Alt(i, c2) * x1 == w < HALF_LIMB
    ensures Abs(c2 - q * c1) < HALF_LIMB && Abs(q * c1) < HALF_LIMB
  {
    var u, v := Alt(i, c1), Alt(i, c2);
    AltStepCalc(u, v, x2, x1, q);
    NegMul(u, x2 - q * x1);
    QuotientTimes(q, u);
    SumBelow(-(v - q * u), x1, u, x2 - q * x1, w);
    NegMul(q, c1);
  }

  lemma QuotientTimes(q: int, u: int)
    requires q >= 0 && u >= 0
    ensures q * u >= 0
  {}

  /** Every value the loop body computes fits a signed word, whether or not the step is accepted. */
  lemma NextFits(w: Words, w2: int, w1: int, i: nat)
    requires BatchInv(w, w2, w1, i) && w.rr1 > 0 && CofactorsFit(w)
    requires w2 < HALF_LIMB && w1 < HALF_LIMB
    ensures CofactorsFit(Next(w))
    ensures Abs(w.rr2 / w.rr1 * w.aa1) < HALF_LIMB && Abs(w.rr2 / w.rr1 * w.bb1) < HALF_LIMB
    ensures 0 <= w.rr2 / w.rr1 * w.rr1 <= w.rr2
  {
    var q := w.rr2 / w.rr1;
    DivBounds(w.rr2, w.rr1);
    QuotientNonNegative(w.rr2, w.rr1);
    QuotientTimes(q, w.rr1);
    ColumnFits(i, w.aa2, w.aa1, w.rr2, w.rr1, q, w2);
    NegMul(Alt(i, w.bb1), w.rr2);
    NegMul(Alt(i, w.bb2), w.rr1);
    ColumnFits(i, -w.bb2, -w.bb1, w.rr2, w.rr1, q, w1);
    NegMul(q, w.bb1);
  }

  /** So do the differences of the exactness test that are evaluated. */
  lemma TestFits(w: Words, w2: int, w1: int, i: nat)
    requires BatchInv(w, w2, w1, i) && w.rr1 > 0
    requires 0 < w2 < HALF_LIMB && 0 < w1 < HALF_LIMB
    ensures i % 2 == 1 && !(Next(w).rr1 < -Next(w).bb1) ==> Abs(Next(w).aa1 - w.aa1) < HALF_LIMB
    ensures i % 2 == 0 && !(Next(w).rr1 < -Next(w).aa1) ==> Abs(Next(w).bb1 - w.bb1) < HALF_LIMB
  {
    NextInv(w, w2, w1, i);
    var n, j := Next(w), i + 1;
    NegMul(Alt(j, n.aa2), n.rr1);
    NegMul(Alt(j, n.bb1), n.rr2);
    SumBelow(Alt(j, n.aa1), n.rr2, -Alt(j, n.aa2), n.rr1, w2);
    SumBelow(-Alt(j, n.bb1), n.rr2, Alt(j, n.bb2), n.rr1, w1);
  }

  // ---- the algorithm ----

  function FirstWords(w2: int, w1: int): Words { Words(w2, w1, 0, 1, 1, 0) }

  /** The inner loop goes on. */
  predicate Goes(w: Words, bb: int, i: nat) { w.rr1 > 0 && w.rr1 > bb && Accepts(w, i) }

  /** Where the inner loop ends, looking at most fuel steps ahead. */
  function BatchFrom(w: Words, i: nat, bb: int, fuel: nat): (Words, nat)
    decreases fuel
  {
    if fuel == 0 || !Goes(w, bb, i) then (w, i) else BatchFrom(Next(w), i + 1, bb, fuel - 1)
  }

  /** What the inner loop keeps: the words fit, and the batch so far is i plain steps. */
  ghost predicate BatchState(e: Euclid, w2: int, w1: int, w: Words, i: nat) {
    && BatchInv(w, w2, w1, i) && CofactorsFit(w)
    && (i == 0 ==> w == FirstWords(w2, w1))
    && (i > 0 ==> w1 > 0 && (w2 == 0 ==> w.rr1 == 0))
    && Apply(e, w) == Run(e, i)
    && (i > 0 ==> 0 <= Apply(e, w).r1 < e.r1 && Apply(e, w).r2 > 0)
  }

  ghost predicate LeadingOf(e: Euclid, B: int, w2: int, w1: int) {
    && e.r1 > 0 && e.r2 >= 0 && 0 <= w2 < HALF_LIMB && 0 <= w1 < HALF_LIMB
    && B >= 1 && B * w2 <= e.r2 < B * w2 + B && B * w1 <= e.r1 < B * w1 + B
  }

  lemma BatchStep(e: Euclid, B: int, w2: int, w1: int, w: Words, i: nat)
    requires LeadingOf(e, B, w2, w1) && BatchState(e, w2, w1, w, i) && w.rr1 > 0 && Accepts(w, i)
    ensures BatchState(e, w2, w1, Next(w), i + 1) && Next(w).rr1 < w.rr1
  {
    NextInv(w, w2, w1, i);
    NextFits(w, w2, w1, i);
    AcceptedStep(e, w, B, w2, w1, i);
    RunMore(e, i, 1);
    StepShrinks(Apply(e, w));
  }

  lemma {:induction false} BatchFromState(e: Euclid, B: int, w2: int, w1: int, w: Words, i: nat, bb: int, fuel: nat)
    requires LeadingOf(e, B, w2, w1) && BatchState(e, w2, w1, w, i)
    ensures var r := BatchFrom(w, i, bb, fuel); BatchState(e, w2, w1, r.0, r.1)
    decreases fuel
  {
    if fuel > 0 && Goes(w, bb, i) {
      BatchStep(e, B, w2, w1, w, i);
      BatchFromState(e, B, w2, w1, Next(w), i + 1, bb, fuel - 1);
    }
  }

  /** The exactness test of the loop; the differences it evaluates fit a word. */
  method TestExact(w: Words, ghost w2: int, ghost w1: int, i: nat, t1: int, t2: int, t3: int) returns (exact: bool)
    requires BatchInv(w, w2, w1, i) && w.rr1 > 0 && 0 <= w2 < HALF_LIMB && 0 < w1 < HALF_LIMB
    requires w2 == 0 ==> w == FirstWords(w2, w1) && i == 0
    requires Next(w) == Words(w.rr1, t1, w.aa1, t2, w.bb1, t3)
    ensures exact <==> Accepts(w, i)
  {
    if w2 > 0 {
      TestFits(w, w2, w1, i);
    }
    if i % 2 == 1 {
      if t1 < -t3 { return false; }
      assert FitsWord(t2 - w.aa1);
      if w.rr1 - t1 < t2 - w.aa1 { return false; }
    } else {
      if t1 < -t2 { return false; }
      assert FitsWord(t3 - w.bb1);
      if w.rr1 - t1 < t3 - w.bb1 { return false; }
    }
    exact := true;
  }

  /** The inner loop: a batch of steps on the words of r2 and r1, accepted while exact. */
  method Batch(ghost e: Euclid, ghost B: int, w2: int, w1: int, bb: int) returns (w: Words, i: nat)
    requires LeadingOf(e, B, w2, w1) && 0 <= bb
    ensures BatchState(e, w2, w1, w, i)
    ensures (w, i) == BatchFrom(FirstWords(w2, w1), 0, bb, w1)
  {
    w := FirstWords(w2, w1);
    i := 0;
    while w.rr1 != 0 && w.rr1 > bb
      invariant BatchState(e, w2, w1, w, i) && w.rr1 <= w1 - i
      invariant BatchFrom(w, i, bb, w1 - i) == BatchFrom(FirstWords(w2, w1), 0, bb, w1)
      decreases w.rr1
    {
      var qq := w.rr2 / w.rr1;
      var t1 := w.rr2 - qq * w.rr1;
      var t2 := w.aa2 - qq * w.aa1;
      var t3 := w.bb2 - qq * w.bb1;
      var exact := TestExact(w, w2, w1, i, t1, t2, t3);
      if !exact {
        break;
      }
      BatchStep(e, B, w2, w1, w, i);
      BatchFromNext(w, i, bb, w1 - i);
      w := Words(w.rr1, t1, w.aa1, t2, w.bb1, t3);
      i := i + 1;
    }
  }

  lemma BatchFromNext(w: Words, i: nat, bb: int, fuel: nat)
    requires fuel > 0 && Goes(w, bb, i)
    ensures BatchFrom(w, i, bb, fuel) == BatchFrom(Next(w), i + 1, bb, fuel - 1)
  {}

  lemma StepShrinks(e: Euclid)
    requires e.r1 > 0
    ensures 0 <= Step(e).r1 < e.r1 && Step(e).r2 == e.r1
  {
    DivBounds(e.r2, e.r1);
  }

  /** The leading words of r2 and r1, and the word of L at the same scale; B is the scale. */
  datatype Leading = Leading(rr2: int, rr1: int, bb: int, B: nat)

  function LeadingWords(r2: nat, r1: nat, L: nat): Leading {
    var bits2, bits1 := BitLen(r2), BitLen(r1);
    var bits: int := (if bits2 > bits1 then bits2 else bits1) - LIMB_BITS + 1;
    var shift: nat := if bits < 0 then 0 else bits;
    Leading(ExtractWord(r2, shift), ExtractWord(r1, shift), ExtractWord(L, shift), Pow2(shift))
  }

  lemma LeadingBounds(e: Euclid, L: nat)
    requires 0 <= e.r2 && L < e.r1
    ensures var v := LeadingWords(e.r2, e.r1, L); LeadingOf(e, v.B, v.rr2, v.rr1) && 0 <= v.bb && L < v.B * v.bb + v.B
  {
    var bits2, bits1 := BitLen(e.r2), BitLen(e.r1);
    var bits: int := (if bits2 > bits1 then bits2 else bits1) - LIMB_BITS + 1;
    var shift: nat := if bits < 0 then 0 else bits;
    ExtractIsShift(e.r2, shift, bits2);
    ExtractIsShift(e.r1, shift, bits1);
    ExtractIsShift(L, shift, bits1);
  }

  /** The batch on the leading words of r2 and r1. */
  function BatchOf(e: Euclid, L: nat): (Words, nat)
    requires 0 <= e.r2 && L < e.r1
  {
    LeadingBounds(e, L);
    var v := LeadingWords(e.r2, e.r1, L);
    BatchFrom(FirstWords(v.rr2, v.rr1), 0, v.bb, v.rr1)
  }

  /** One turn of the outer loop: a batch, or a plain step when the batch is empty. */
  function Turn(e: Euclid, L: nat): Euclid
    requires 0 <= e.r2 && L < e.r1
  {
    var (w, i) := BatchOf(e, L);
    if i == 0 then Step(e) else Apply(e, w)
  }

  lemma TurnIs(e: Euclid, L: nat, w: Words, i: nat)
    requires 0 <= e.r2 && L < e.r1 && (w, i) == BatchOf(e, L)
    ensures Turn(e, L) == if i == 0 then Step(e) else Apply(e, w)
  {}

  /** A turn is one or more plain Euclidean steps. */
  lemma TurnIsRun(e: Euclid, L: nat) returns (n: nat)
    requires 0 <= e.r2 && L < e.r1
    ensures Turn(e, L) == Run(e, n) && n > 0
    ensures 0 <= Turn(e, L).r1 < e.r1 && Turn(e, L).r2 > 0
  {
    var v := LeadingWords(e.r2, e.r1, L);
    LeadingBounds(e, L);
    FirstState(e, v.rr2, v.rr1);
    BatchFromState(e, v.B, v.rr2, v.rr1, FirstWords(v.rr2, v.rr1), 0, v.bb, v.rr1);
    n := BatchOf(e, L).1;
    if n == 0 {
      n := 1;
      StepShrinks(e);
      assert Run(e, 1) == Run(Step(e), 0);
    }
  }

  lemma TurnShrinks(e: Euclid, L: nat)
    requires 0 <= e.r2 && L < e.r1
    ensures 0 <= Turn(e, L).r1 < e.r1 && Turn(e, L).r2 > 0
  {
    var _ := TurnIsRun(e, L);
  }

  lemma FirstState(e: Euclid, w2: int, w1: int)
    requires 0 <= w2 < HALF_LIMB && 0 <= w1 < HALF_LIMB
    ensures BatchState(e, w2, w1, FirstWords(w2, w1), 0)
  {}

  /** Where the outer loop ends, looking at most fuel turns ahead. */
  function XgcdEnd(e: Euclid, L: nat, fuel: nat): Euclid
    requires 0 <= e.r2
    decreases fuel
  {
    if fuel == 0 || e.r1 <= L then e else
      TurnShrinks(e, L);
      XgcdEnd(Turn(e, L), L, fuel - 1)
  }

  /** The end is a state of Euclid's algorithm with r1 <= L. */
  lemma {:induction false} XgcdEndIsRun(e: Euclid, L: nat, fuel: nat) returns (n: nat)
    requires 0 <= e.r2 && 0 <= e.r1 <= fuel
    ensures XgcdEnd(e, L, fuel) == Run(e, n)
    ensures 0 <= XgcdEnd(e, L, fuel).r1 <= L && 0 <= XgcdEnd(e, L, fuel).r2
    decreases fuel
  {
    if fuel == 0 || e.r1 <= L {
      n := 0;
    } else {
      var m := TurnIsRun(e, L);
      n := XgcdEndIsRun(Turn(e, L), L, fuel - 1);
      XgcdEndTurn(e, L, fuel);
      RunMore(e, m, n);
      n := m + n;
    }
  }

  lemma XgcdEndTurn(e: Euclid, L: nat, fuel: nat)
    requires fuel > 0 && 0 <= e.r2 && L < e.r1
    ensures Turn(e, L).r2 > 0 && XgcdEnd(e, L, fuel) == XgcdEnd(Turn(e, L), L, fuel - 1)
  {
    TurnShrinks(e, L);
  }

  // ---- the last remainder above L is never stepped over ----

  /** Once the quotients are at least 1, the cofactors that the exactness test compares with are not 0. */
  ghost predicate Growing(w: Words, i: nat) {
    w.rr2 >= w.rr1 && Alt(i, w.aa1) >= 1 && (i == 0 ==> w.bb2 == 1 && w.bb1 == 0) && (i > 0 ==> Alt(i, w.bb1) <= -1)
  }

  lemma NextGrowing(w: Words, w2: int, w1: int, i: nat)
    requires BatchInv(w, w2, w1, i) && w.rr1 > 0 && Growing(w, i)
    ensures Growing(Next(w), i + 1)
  {
    var q := w.rr2 / w.rr1;
    QuotientPositive(w.rr2, w.rr1);
    DivBounds(w.rr2, w.rr1);
    AltStep(i, w.aa2, w.aa1, w.rr2, w.rr1, q);
    AltStep(i, w.bb2, w.bb1, w.rr2, w.rr1, q);
    AtLeastFactor(q, Alt(i, w.aa1));
    if i > 0 {
      AtLeastFactor(q, -Alt(i, w.bb1));
      NegMul(q, Alt(i, w.bb1));
    }
  }

  /** An accepted step never reaches the remainder 0. */
  lemma AcceptedStepPositive(e: Euclid, w: Words, B: int, w2: int, w1: int, i: nat)
    requires BatchInv(w, w2, w1, i) && w.rr1 > 0 && Accepts(w, i) && Growing(w, i)
    requires B >= 1 && B * w2 <= e.r2 < B * w2 + B && B * w1 <= e.r1 < B * w1 + B
    ensures Apply(e, Next(w)).r1 > 0
  {
    var n := Next(w);
    var e2, e1 := e.r2 - B * w2, e.r1 - B * w1;
    NextInv(w, w2, w1, i);
    NextGrowing(w, w2, w1, i);
    SplitLow(B, n.bb1, n.aa1, w2, w1, e2, e1, e.r2, e.r1);
    if i % 2 == 0 {
      ErrorStrictlyBelow(B, n.rr1, -n.aa1, e1, n.bb1, e2);
      NegMul(n.aa1, e1);
    } else {
      ErrorStrictlyBelow(B, n.rr1, -n.bb1, e2, n.aa1, e1);
      NegMul(n.bb1, e2);
    }
  }

  lemma ErrorStrictlyBelow(B: int, t: int, neg: int, en: int, pos: int, ep: int)
    requires t >= neg >= 1 && pos >= 0 && 0 <= en < B && 0 <= ep
    ensures B * t + pos * ep - neg * en > 0
  {
    AtLeastTimes(t, neg, B);
    AtLeastTimes(B, en + 1, neg);
    Dist(neg, en, 1);
    QuotientProduct(pos, ep);
  }

  lemma {:induction false} BatchPositive(e: Euclid, B: int, w2: int, w1: int, w: Words, i: nat, bb: int, fuel: nat)
    requires LeadingOf(e, B, w2, w1) && BatchState(e, w2, w1, w, i) && Growing(w, i) && (i > 0 ==> Apply(e, w).r1 > 0)
    ensures var r := BatchFrom(w, i, bb, fuel); r.1 > 0 ==> Apply(e, r.0).r1 > 0
    decreases fuel
  {
    if fuel > 0 && Goes(w, bb, i) {
      BatchStep(e, B, w2, w1, w, i);
      NextGrowing(w, w2, w1, i);
      AcceptedStepPositive(e, w, B, w2, w1, i);
      BatchPositive(e, B, w2, w1, Next(w), i + 1, bb, fuel - 1);
    }
  }

  lemma BatchOfPositive(e: Euclid, L: nat)
    requires L < e.r1 <= e.r2
    ensures BatchOf(e, L).1 > 0 ==> Apply(e, BatchOf(e, L).0).r1 > 0
  {
    var v := LeadingWords(e.r2, e.r1, L);
    LeadingBounds(e, L);
    FirstState(e, v.rr2, v.rr1);
    WordsOrdered(v.B, v.rr2, v.rr1, e.r2, e.r1);
    BatchPositive(e, v.B, v.rr2, v.rr1, FirstWords(v.rr2, v.rr1), 0, v.bb, v.rr1);
  }

  lemma WordsOrdered(B: int, w2: int, w1: int, x2: int, x1: int)
    requires B >= 1 && x1 <= x2 < B * w2 + B && B * w1 <= x1
    ensures w2 >= w1
  {
    if w2 < w1 {
      AtLeastTimes(w1, w2 + 1, B);
      Dist(B, w2, 1);
    }
  }

  lemma TurnPositive(e: Euclid, L: nat)
    requires L < e.r1 <= e.r2
    ensures 0 <= Turn(e, L).r1 <= Turn(e, L).r2 && (Turn(e, L).r1 == 0 ==> Turn(e, L).r2 > L)
  {
    var (w, i) := BatchOf(e, L);
    BatchOfPositive(e, L);
    TurnIs(e, L, w, i);
    StepShrinks(e);
    var n := TurnIsRun(e, L);
    RunOrdered(e, n);
  }

  lemma {:induction false} RunOrdered(e: Euclid, n: nat)
    requires 0 <= e.r1 <= e.r2
    ensures 0 <= Run(e, n).r1 <= Run(e, n).r2
    decreases n
  {
    if n > 0 && e.r1 > 0 {
      StepShrinks(e);
      RunOrdered(Step(e), n - 1);
    }
  }

  /** If the loop runs down to 0, the last remainder before it was above L. */
  lemma {:induction false} XgcdEndPositive(e: Euclid, L: nat, fuel: nat)
    requires 0 <= e.r1 <= e.r2 && (e.r1 == 0 ==> e.r2 > L)
    ensures XgcdEnd(e, L, fuel).r1 == 0 ==> XgcdEnd(e, L, fuel).r2 > L
    decreases fuel
  {
    if fuel > 0 && e.r1 > L {
      TurnPositive(e, L);
      XgcdEndPositive(Turn(e, L), L, fuel - 1);
    }
  }

  // ---- the loop does not run far past L ----

  /** A step that is taken starts from words whose error is at most half the remainder. */
  lemma AcceptedHalf(w: Words, w2: int, w1: int, i: nat)
    requires BatchInv(w, w2, w1, i) && w.rr1 > 0 && Accepts(w, i) && Growing(w, i)
    ensures w.rr1 >= 2 * (if i % 2 == 0 then -w.bb1 else -w.aa1)
  {
    var q := w.rr2 / w.rr1;
    NextInv(w, w2, w1, i);
    QuotientPositive(w.rr2, w.rr1);
    if i % 2 == 0 {
      AtLeastFactor(q, -w.bb1);
      NegMul(q, w.bb1);
    } else {
      AtLeastFactor(q, -w.aa1);
      NegMul(q, w.aa1);
    }
  }

  /** If a step is taken because the word of r1 is above the word of L, then the long r1 is above L / 2. */
  lemma GoesAbove(e: Euclid, w: Words, B: int, w2: int, w1: int, i: nat, bb: int, L: int)
    requires BatchInv(w, w2, w1, i) && Goes(w, bb, i) && Growing(w, i) && L < B * bb + B
    requires B >= 1 && B * w2 <= e.r2 < B * w2 + B && B * w1 <= e.r1 < B * w1 + B
    ensures 2 * Apply(e, w).r1 > L
  {
    var e2, e1 := e.r2 - B * w2, e.r1 - B * w1;
    AcceptedHalf(w, w2, w1, i);
    SplitLow(B, w.bb1, w.aa1, w2, w1, e2, e1, e.r2, e.r1);
    if i % 2 == 0 {
      HalfAbove(B, w.rr1, -w.bb1, e2, w.aa1, e1, bb, L);
      NegMul(w.bb1, e2);
    } else {
      HalfAbove(B, w.rr1, -w.aa1, e1, w.bb1, e2, bb, L);
      NegMul(w.aa1, e1);
    }
  }

  lemma HalfAbove(B: int, t: int, neg: int, en: int, pos: int, ep: int, bb: int, L: int)
    requires t >= 2 * neg >= 0 && t >= bb + 1 && pos >= 0 && 0 <= en < B && 0 <= ep && L < B * bb + B
    ensures 2 * (B * t + pos * ep - neg * en) > L
  {
    AtLeastTimes(B, en, neg);
    AtLeastTimes(t, 2 * neg, B);
    AtLeastTimes(t, bb + 1, B);
    Dist(B, bb, 1);
    QuotientProduct(pos, ep);
  }

  lemma {:induction false} BatchAbove(e: Euclid, B: int, w2: int, w1: int, w: Words, i: nat, bb: int, fuel: nat, L: int)
    requires LeadingOf(e, B, w2, w1) && BatchState(e, w2, w1, w, i) && Growing(w, i) && L < B * bb + B
    requires i > 0 ==> 2 * Apply(e, w).r2 > L
    ensures var r := BatchFrom(w, i, bb, fuel); r.1 > 0 ==> 2 * Apply(e, r.0).r2 > L
    decreases fuel
  {
    if fuel > 0 && Goes(w, bb, i) {
      GoesAbove(e, w, B, w2, w1, i, bb, L);
      BatchStep(e, B, w2, w1, w, i);
      NextGrowing(w, w2, w1, i);
      assert Apply(e, Next(w)).r2 == Apply(e, w).r1;
      BatchAbove(e, B, w2, w1, Next(w), i + 1, bb, fuel - 1, L);
    }
  }

  /** A turn leaves r2 above L / 2. */
  lemma TurnAbove(e: Euclid, L: nat)
    requires L < e.r1 <= e.r2
    ensures 2 * Turn(e, L).r2 > L
  {
    var v := LeadingWords(e.r2, e.r1, L);
    var (w, i) := BatchOf(e, L);
    LeadingBounds(e, L);
    FirstState(e, v.rr2, v.rr1);
    WordsOrdered(v.B, v.rr2, v.rr1, e.r2, e.r1);
    BatchAbove(e, v.B, v.rr2, v.rr1, FirstWords(v.rr2, v.rr1), 0, v.bb, v.rr1, L);
    TurnIs(e, L, w, i);
    StepShrinks(e);
  }

  /** The batches cannot overshoot: where the loop ends, the remainder before the last is above L / 2, if it
    * was so at the start or a turn is taken. */
  lemma {:induction false} XgcdEndAbove(e: Euclid, L: nat, fuel: nat)
    requires 0 <= e.r1 <= e.r2 && (2 * e.r2 > L || (fuel > 0 && e.r1 > L))
    ensures 2 * XgcdEnd(e, L, fuel).r2 > L
    decreases fuel
  {
    if fuel > 0 && e.r1 > L {
      TurnPositive(e, L);
      TurnAbove(e, L);
      XgcdEndAbove(Turn(e, L), L, fuel - 1);
    }
  }

  /** So the cofactor is below 2 R2 / L. */
  lemma CofactorBelow(e: Euclid, R2: int, R1: int, sign: int, L: nat)
    requires Inv(e, R2, R1, sign) && 2 * e.r2 > L
    ensures Abs(e.co1) * e.r2 <= R2 && Abs(e.co1) * L < 2 * R2
  {
    var u, v := Abs(e.co1), Abs(e.co2);
    CofactorIdentity(e, R2, R1, sign);
    CofactorSizes(e.co2, e.co1, e.r2, e.r1, sign);
    QuotientProduct(v, e.r1);
    AtLeastTimes(2 * e.r2, L + 1, u);
    Swap3(u, 2, e.r2);
    Dist(u, L, 1);
  }

  lemma CofactorSizes(c2: int, c1: int, x2: int, x1: int, sign: int)
    requires (sign == 1 || sign == -1) && sign * c1 <= -1 && sign * c2 >= 0
    ensures Abs(c1) >= 1 && Abs(c2) * x1 + Abs(c1) * x2 == sign * (c2 * x1 - c1 * x2)
  {
    NegMul(c1, x2);
    NegMul(c2, x1);
  }

  lemma ApplyTerms(x2: int, x1: int, w: Words)
    ensures x1 * w.aa1 + x2 * w.bb1 == w.bb1 * x2 + w.aa1 * x1
  {}

  /** The batch applied to the long numbers and their cofactors, with the sign tests of the source. */
  method ApplyBatch(ghost e: Euclid, w: Words, c2: int, c1: int, s2: int, s1: int) returns (co2: int, co1: int, r2: int, r1: int)
    requires e.r2 == s2 && e.r1 == s1 && e.co2 == c2 && e.co1 == c1
    requires Apply(e, w).r1 >= 0 && Apply(e, w).r2 >= 0
    ensures var x := Apply(e, w); x.r2 == r2 && x.r1 == r1 && x.co2 == co2 && x.co1 == co1
  {
    ApplyTerms(s2, s1, w);
    ApplyTerms(c2, c1, w);
    r2 := w.bb2 * s2 + w.aa2 * s1;
    r1 := s1 * w.aa1 + s2 * w.bb1;
    co2 := w.bb2 * c2 + w.aa2 * c1;
    co1 := c1 * w.aa1 + c2 * w.bb1;
    if r1 < 0 { co1, r1 := -co1, -r1; }
    if r2 < 0 { co2, r2 := -co2, -r2; }
  }

  predicate Holds(e: Euclid, co2: int, co1: int, r2: int, r1: int) {
    e.r2 == r2 && e.r1 == r1 && e.co2 == co2 && e.co1 == co1
  }

  method LeadingBatch(ghost e: Euclid, L: nat, s2: int, s1: int) returns (w: Words, i: nat)
    requires e.r2 == s2 && e.r1 == s1 && 0 <= s2 && L < s1
    ensures (w, i) == BatchOf(e, L)
  {
    var v := LeadingWords(s2, s1, L);
    LeadingBounds(e, L);
    w, i := Batch(e, v.B, v.rr2, v.rr1, v.bb);
  }

  /** The body of the outer loop. */
  method OuterTurn(ghost e: Euclid, L: nat, c2: int, c1: int, s2: int, s1: int) returns (co2: int, co1: int, r2: int, r1: int)
    requires Holds(e, c2, c1, s2, s1) && 0 <= s2 && L < s1
    ensures Holds(Turn(e, L), co2, co1, r2, r1)
  {
    TurnShrinks(e, L);
    var w, i := LeadingBatch(e, L, s2, s1);
    TurnIs(e, L, w, i);
    if i == 0 {
      var q := s2 / s1;
      r2, r1 := s1, s2 - q * s1;
      co2, co1 := c1, c2 - c1 * q;
      StepHolds(e, c2, c1, s2, s1, q);
    } else {
      co2, co1, r2, r1 := ApplyBatch(e, w, c2, c1, s2, s1);
    }
  }

  lemma StepHolds(e: Euclid, c2: int, c1: int, s2: int, s1: int, q: int)
    requires Holds(e, c2, c1, s2, s1) && s1 > 0 && q == s2 / s1
    ensures Holds(Step(e), c1, c2 - c1 * q, s1, s2 - q * s1)
  {}

  /** mpz_xgcd_partial: stops at the first batch boundary where r1 <= L. */
  method XgcdPartial(R2: nat, R1: nat, L: nat) returns (co2: int, co1: int, r2: int, r1: int)
    ensures Holds(XgcdEnd(Start(R2, R1), L, R1), co2, co1, r2, r1)
  {
    r2, r1 := R2, R1;
    co2, co1 := 0, -1;
    ghost var e, fuel := Start(R2, R1), R1;
    while r1 != 0 && r1 > L
      invariant 0 <= r1 <= fuel && 0 <= r2 && Holds(e, co2, co1, r2, r1)
      invariant XgcdEnd(e, L, fuel) == XgcdEnd(Start(R2, R1), L, R1)
      decreases r1
    {
      TurnShrinks(e, L);
      co2, co1, r2, r1 := OuterTurn(e, L, co2, co1, r2, r1);
      e, fuel := Turn(e, L), fuel - 1;
    }
    if r2 < 0 {
      co2, co1 := -co2, -co1;
      r2 := -r2;
    }
  }

  /** Its result is the state of Euclid's algorithm after some number of plain steps, the last ones of which
    * do not go below L / 2 before the end. */
  method XgcdRun(R2: int, R1: int, L: int) returns (co2: int, co1: int, r2: int, r1: int, ghost steps: nat)
    requires 0 <= R2 && 0 <= R1 && 0 <= L
    ensures 0 <= r1 && 0 <= r2 && r1 <= L
    ensures var e := Run(Start(R2, R1), steps);
            e.r2 == r2 && e.r1 == r1 && e.co2 == co2 && e.co1 == co1
    ensures R1 <= R2 && L < 2 * R2 ==> L < 2 * r2 && Abs(co1) * r2 <= R2 && Abs(co1) * L < 2 * R2
  {
    co2, co1, r2, r1 := XgcdPartial(R2, R1, L);
    steps := XgcdEndIsRun(Start(R2, R1), L, R1);
    if R1 <= R2 && L < 2 * R2 {
      XgcdEndAbove(Start(R2, R1), L, R1);
      var sign := XgcdPartialFacts(R2, R1, steps);
      CofactorBelow(Run(Start(R2, R1), steps), R2, R1, sign, L);
    }
  }

  /** What the callers rely on: for 0 <= R1 <= R2 the result satisfies the cofactor relations. */
  lemma XgcdPartialFacts(R2: int, R1: int, steps: nat) returns (sign: int)
    requires 0 <= R1 <= R2 && R2 > 0
    ensures Inv(Run(Start(R2, R1), steps), R2, R1, sign)
    ensures sign == -Sgn(Run(Start(R2, R1), steps).co1)
  {
    StartInv(R2, R1);
    sign := RunInv(Start(R2, R1), R2, R1, 1, steps);
    CofactorIdentity(Run(Start(R2, R1), steps), R2, R1, sign);
  }
}
