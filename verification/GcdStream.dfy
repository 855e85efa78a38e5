/** The gcd that streams cofactor matrices to the other thread (src/threading.h): each published
  * entry is the matrix of some number of Euclidean steps, held as unsigned words with a parity. */
module GcdStream {
  import opened Integers
  import opened PartialXgcd

  /** gcd_uv_entry. */
  datatype Entry = Entry(u0: int, u1: int, v0: int, v1: int, odd: bool, exit: bool)

  /** gcd_uv_entry::matrix_multiply. */
  function MatrixMultiply(e: Entry, a: int, b: int): (int, int) {
    ((if e.odd then b else a) * (if e.odd then e.v0 else e.u0) - (if e.odd then a else b) * (if e.odd then e.u0 else e.v0),
     (if e.odd then a else b) * (if e.odd then e.u1 else e.v1) - (if e.odd then b else a) * (if e.odd then e.v1 else e.u1))
  }

  /** The effect of Euclidean steps with the given quotients on a pair that is carried along. */
  function ApplyQs(qs: seq<int>, x: int, y: int): (int, int) {
    if qs == [] then (x, y) else ApplyQs(qs[1..], y, x - qs[0] * y)
  }

  lemma {:induction false} ApplyQsConcat(qs: seq<int>, rs: seq<int>, x: int, y: int)
    ensures ApplyQs(qs + rs, x, y) == ApplyQs(rs, ApplyQs(qs, x, y).0, ApplyQs(qs, x, y).1)
    decreases |qs|
  {
    if qs == [] {
      assert qs + rs == rs;
    } else {
      assert (qs + rs)[1..] == qs[1..] + rs;
      ApplyQsConcat(qs[1..], rs, y, x - qs[0] * y);
    }
  }

  /** The entry a batch publishes. */
  function EntryOf(qs: seq<int>, exit: bool): Entry {
    if qs == [] then Entry(1, 0, 0, 1, false, exit)
    else
      var t := EntryOf(qs[1..], exit);
      Entry(t.v0, t.v1, t.u0 + qs[0] * t.v0, t.u1 + qs[0] * t.v1, !t.odd, exit)
  }

  /** The published words are unsigned, and multiplying by the entry is the batch of steps. */
  lemma {:induction false} EntryIsBatch(qs: seq<int>, exit: bool, x: int, y: int)
    requires forall i :: 0 <= i < |qs| ==> qs[i] >= 0
    ensures var e := EntryOf(qs, exit);
            e.u0 >= 0 && e.u1 >= 0 && e.v0 >= 0 && e.v1 >= 0 && e.exit == exit
            && MatrixMultiply(e, x, y) == ApplyQs(qs, x, y)
    decreases |qs|
  {
    if qs != [] {
      EntryIsBatch(qs[1..], exit, y, x - qs[0] * y);
      var t := EntryOf(qs[1..], exit);
      ConsStep(t.u0, t.v0, x, y, qs[0]);
      ConsStep(t.u1, t.v1, x, y, qs[0]);
    }
  }

  lemma ConsStep(u: int, v: int, x: int, y: int, q: int)
    requires q >= 0
    ensures y * u - (x - q * y) * v == y * (u + q * v) - x * v
    ensures v >= 0 ==> q * v >= 0
  {
    Dist(v, x, -(q * y));
    Dist(y, u, q * v);
    assert (q * y) * v == y * (q * v);
  }

  /** The quotients of n Euclidean steps from e. */
  function Quotients(e: Euclid, n: nat): seq<int>
    decreases n
  {
    if n == 0 || e.r1 <= 0 then [] else [e.r2 / e.r1] + Quotients(Step(e), n - 1)
  }

  lemma {:induction false} QuotientsNonNegative(e: Euclid, n: nat)
    requires e.r2 >= 0 && e.r1 >= 0
    ensures forall i :: 0 <= i < |Quotients(e, n)| ==> Quotients(e, n)[i] >= 0
    decreases n
  {
    if n > 0 && e.r1 > 0 {
      QuotientNonNegative(e.r2, e.r1);
      DivBounds(e.r2, e.r1);
      QuotientsNonNegative(Step(e), n - 1);
    }
  }

  lemma {:induction false} QuotientsMore(e: Euclid, m: nat, n: nat)
    ensures Quotients(e, m + n) == Quotients(e, m) + Quotients(Run(e, m), n)
    decreases m
  {
    if m > 0 && e.r1 > 0 {
      QuotientsMore(Step(e), m - 1, n);
    }
  }

  /** Remainders and both cofactor pairs are carried along by the quotients. */
  lemma {:induction false} QuotientsCarry(e: Euclid, n: nat)
    ensures var qs, f := Quotients(e, n), Run(e, n);
            && ApplyQs(qs, e.r2, e.r1) == (f.r2, f.r1)
            && ApplyQs(qs, e.co2, e.co1) == (f.co2, f.co1)
            && ApplyQs(qs, e.d2, e.d1) == (f.d2, f.d1)
    decreases n
  {
    if n > 0 && e.r1 > 0 {
      QuotientsCarry(Step(e), n - 1);
      assert Quotients(e, n)[1..] == Quotients(Step(e), n - 1);
    }
  }

  lemma {:induction false} ApplyQsNegate(qs: seq<int>, x: int, y: int)
    ensures ApplyQs(qs, -x, -y) == (-ApplyQs(qs, x, y).0, -ApplyQs(qs, x, y).1)
    decreases |qs|
  {
    if qs != [] {
      NegMul(qs[0], y);
      ApplyQsNegate(qs[1..], y, x - qs[0] * y);
    }
  }

  // ---- the consumer's loop, folded ----

  /** The pair after consuming entries 1 to k; entry 0 carries only its exit flag. */
  function Fold(es: seq<Entry>, k: nat, x: int, y: int): (int, int)
    requires k < |es|
  {
    if k == 0 then (x, y) else var p := Fold(es, k - 1, x, y); MatrixMultiply(es[k], p.0, p.1)
  }

  lemma {:induction false} FoldPrefix(es: seq<Entry>, tail: seq<Entry>, k: nat, x: int, y: int)
    requires k < |es|
    ensures Fold(es + tail, k, x, y) == Fold(es, k, x, y)
    decreases k
  {
    if k > 0 {
      FoldPrefix(es, tail, k - 1, x, y);
    }
  }

  /** Only the last entry says exit. */
  predicate WellTerminated(es: seq<Entry>) {
    |es| >= 1 && (forall i :: 0 <= i < |es| ==> (es[i].exit <==> i == |es| - 1))
  }

  /** The entries carry any pair through the steps that take e to Run(e, n). */
  ghost predicate Streams(es: seq<Entry>, e: Euclid, n: nat) {
    |es| >= 1 && forall x: int, y: int {:trigger ApplyQs(Quotients(e, n), x, y)} ::
      Fold(es, |es| - 1, x, y) == ApplyQs(Quotients(e, n), x, y)
  }

  lemma StreamsMore(es: seq<Entry>, e: Euclid, m: nat, n: nat, exit: bool)
    requires Streams(es, e, m) && Run(e, m).r2 >= 0 && Run(e, m).r1 >= 0
    ensures Streams(es + [EntryOf(Quotients(Run(e, m), n), exit)], e, m + n)
  {
    var qs, rs := Quotients(e, m), Quotients(Run(e, m), n);
    var more := es + [EntryOf(rs, exit)];
    QuotientsMore(e, m, n);
    QuotientsNonNegative(Run(e, m), n);
    var k: nat, all := |es|, Quotients(e, m + n);
    forall x: int, y: int
      ensures Fold(more, k, x, y) == ApplyQs(all, x, y)
    {
      var p := ApplyQs(qs, x, y);
      FoldPrefix(es, [EntryOf(rs, exit)], |es| - 1, x, y);
      EntryIsBatch(rs, exit, p.0, p.1);
      ApplyQsConcat(qs, rs, x, y);
    }
  }

  const GCD_MAX_ITERATIONS := 40

  /** How many steps batch i tries to make. */
  function BatchSize(plan: seq<nat>, i: nat): nat { if i < |plan| then plan[i] else 1 }

  /** The quotients of one batch on remainders x and y, and the remainders it leaves. */
  function Batch(x: int, y: int, threshold: nat, size: nat): (seq<int>, int, int)
    decreases size
  {
    if size == 0 || y <= threshold then ([], x, y)
    else
      var r := Batch(y, x - x / y * y, threshold, size - 1);
      ([x / y] + r.0, r.1, r.2)
  }

  function Before(qs: seq<int>, r: (seq<int>, int, int)): (seq<int>, int, int) { (qs + r.0, r.1, r.2) }

  lemma BeforeMore(qs: seq<int>, x: int, y: int, threshold: nat, size: nat)
    requires size > 0 && y > threshold
    ensures Before(qs, Batch(x, y, threshold, size)) == Before(qs + [x / y], Batch(y, x - x / y * y, threshold, size - 1))
  {
    var r := Batch(y, x - x / y * y, threshold, size - 1);
    assert qs + ([x / y] + r.0) == qs + [x / y] + r.0;
  }

  lemma BeforeNothing(r: (seq<int>, int, int))
    ensures Before([], r) == r
  {
    assert [] + r.0 == r.0;
  }

  lemma BeforeNone(qs: seq<int>, x: int, y: int)
    ensures Before(qs, ([], x, y)) == (qs, x, y)
  {
    assert qs + [] == qs;
  }

  /** The remainders after j batches. */
  function Left(x: int, y: int, threshold: nat, plan: seq<nat>, j: nat): (int, int) {
    if j == 0 then (x, y)
    else
      var p := Left(x, y, threshold, plan, j - 1);
      var r := Batch(p.0, p.1, threshold, BatchSize(plan, j - 1));
      (r.1, r.2)
  }

  /** The entry that batch j publishes; entry 0 comes before the first batch. */
  function NextEntry(x: int, y: int, threshold: nat, plan: seq<nat>, j: nat): Entry {
    if j == 0 then Entry(0, 0, 0, 0, false, y <= threshold)
    else
      var r := Batch(x, y, threshold, BatchSize(plan, j - 1));
      EntryOf(r.0, r.2 <= threshold)
  }

  function EntryAt(x: int, y: int, threshold: nat, plan: seq<nat>, j: nat): Entry {
    var p := Left(x, y, threshold, plan, if j == 0 then 0 else j - 1);
    NextEntry(p.0, p.1, threshold, plan, j)
  }

  /** These are the entries that the first batches publish. */
  ghost predicate AreEntries(es: seq<Entry>, x: int, y: int, threshold: nat, plan: seq<nat>) {
    forall j: nat :: j < |es| ==> es[j] == EntryAt(x, y, threshold, plan, j)
  }

  /** What a contract says under `Opened` is carried along as it is; a lemma that uses it mentions Opened. */
  datatype Part = OfGcd | OfK | OfV | OfH | OfTTS | OfE | OfBegun | OfPhases | OfSlots | OfIteration

  predicate Opened(part: Part, n: nat) { n >= 0 || part.OfGcd? }

  /** The gcd of x and y has published es and stopped at a and b. */
  ghost predicate IsGcd(es: seq<Entry>, a: int, b: int, x: int, y: int, threshold: nat, plan: seq<nat>) {
    forall n: nat :: Opened(OfGcd, n) ==> AreEntries(es, x, y, threshold, plan) && |es| >= 1 && (a, b) == Left(x, y, threshold, plan, |es| - 1)
  }

  /** The entries up to number n. */
  function Entries(x: int, y: int, threshold: nat, plan: seq<nat>, n: nat): (es: seq<Entry>)
    ensures |es| == n + 1
  {
    seq(n + 1, j requires 0 <= j <= n => EntryAt(x, y, threshold, plan, j))
  }

  lemma EntriesAre(es: seq<Entry>, x: int, y: int, threshold: nat, plan: seq<nat>)
    requires |es| >= 1 && AreEntries(es, x, y, threshold, plan)
    ensures es == Entries(x, y, threshold, plan, |es| - 1)
  {}

  /** How many steps the first n batches can make. */
  function Budget(plan: seq<nat>, n: nat): nat {
    if n == 0 then 0 else Budget(plan, n - 1) + BatchSize(plan, n - 1)
  }

  /** Remainders only shrink. */
  lemma {:induction false} RemaindersShrink(e: Euclid, m: nat, n: nat)
    requires m <= n && e.r2 >= 0 && e.r1 >= 0
    ensures 0 <= Run(e, n).r1 <= Run(e, m).r1
    decreases n
  {
    if n > 0 && e.r1 > 0 {
      DivBounds(e.r2, e.r1);
      RemaindersShrink(Step(e), if m > 0 then m - 1 else 0, n - 1);
    }
  }

  /** What n batches leave as the smaller remainder. */
  ghost function LeftAfter(a: int, b: int, plan: seq<nat>, n: nat): int { Run(Start(a, b), Budget(plan, n)).r1 }

  /** No more entries than there is room for bring the remainder down to the threshold. */
  ghost predicate GcdFits(a: int, b: int, threshold: int, plan: seq<nat>) {
    exists n: nat :: n <= GCD_MAX_ITERATIONS && LeftAfter(a, b, plan, n) <= threshold
  }

  /** One batch: Euclidean steps until the remainder is at the threshold or the batch is full. */
  method GcdBatch(a: int, b: int, threshold: nat, size: nat, ghost from: Euclid)
    returns (qs: seq<int>, aEnd: int, bEnd: int, ghost steps: nat)
    requires a > threshold && b > threshold && from.r2 == a && from.r1 == b
    ensures 0 <= bEnd && aEnd > threshold && steps <= size && (bEnd > threshold ==> steps == size)
    ensures qs == Quotients(from, steps) && Run(from, steps).r2 == aEnd && Run(from, steps).r1 == bEnd
    ensures Batch(a, b, threshold, size) == (qs, aEnd, bEnd)
  {
    qs, aEnd, bEnd, steps := [], a, b, 0;
    BeforeNothing(Batch(a, b, threshold, size));
    var left := size;
    while bEnd > threshold && left > 0
      invariant 0 <= bEnd && aEnd > threshold && steps + left == size
      invariant qs == Quotients(from, steps)
      invariant Run(from, steps).r2 == aEnd && Run(from, steps).r1 == bEnd
      invariant Batch(a, b, threshold, size) == Before(qs, Batch(aEnd, bEnd, threshold, left))
    {
      BeforeMore(qs, aEnd, bEnd, threshold, left);
      QuotientsMore(from, steps, 1);
      RunMore(from, steps, 1);
      DivBounds(aEnd, bEnd);
      qs := qs + [aEnd / bEnd];
      aEnd, bEnd := bEnd, aEnd - aEnd / bEnd * bEnd;
      left, steps := left - 1, steps + 1;
    }
    BeforeNone(qs, aEnd, bEnd);
  }

  /** gcd_unsigned with any batch sizes: `plan` says how many steps each batch tries to make. It fails
    * exactly when more than GCD_MAX_ITERATIONS entries would be needed; otherwise a > threshold >= b at
    * the end. */
  method GcdUnsigned(a: int, b: int, threshold: int, plan: seq<nat>)
    returns (ok: bool, es: seq<Entry>, aEnd: int, bEnd: int, ghost n: nat)
    requires a >= b >= 0 && a > threshold >= 0
    ensures ok ==> WellTerminated(es) && |es| <= GCD_MAX_ITERATIONS + 1
    ensures ok ==> Streams(es, Start(a, b), n)
    ensures ok ==> Run(Start(a, b), n).r2 == aEnd && Run(Start(a, b), n).r1 == bEnd
    ensures ok ==> 0 <= bEnd <= threshold < aEnd
    ensures ok <==> GcdFits(a, b, threshold, plan)
    ensures ok ==> IsGcd(es, aEnd, bEnd, a, b, threshold, plan)
  {
    ghost var e := Start(a, b);
    aEnd, bEnd, n := a, b, 0;
    es := [Entry(0, 0, 0, 0, false, b <= threshold)];
    ok := true;
    while bEnd > threshold
      invariant ok && 0 <= bEnd && aEnd > threshold
      invariant 1 <= |es| <= GCD_MAX_ITERATIONS + 1
      invariant forall i :: 0 <= i < |es| ==> (es[i].exit <==> i == |es| - 1 && bEnd <= threshold)
      invariant Run(e, n).r2 == aEnd && Run(e, n).r1 == bEnd
      invariant Streams(es, e, n)
      invariant AreEntries(es, a, b, threshold, plan) && (aEnd, bEnd) == Left(a, b, threshold, plan, |es| - 1)
      invariant n <= Budget(plan, |es| - 1) && (bEnd > threshold ==> n == Budget(plan, |es| - 1))
      decreases GCD_MAX_ITERATIONS + 1 - |es|
    {
      if |es| > GCD_MAX_ITERATIONS {
        ok := false;
        forall m: nat | m <= GCD_MAX_ITERATIONS
          ensures LeftAfter(a, b, plan, m) > threshold
        {
          BudgetGrows(plan, m, |es| - 1);
          RemaindersShrink(e, Budget(plan, m), n);
        }
        return;
      }
      var size := BatchSize(plan, |es| - 1);
      var qs;
      ghost var from, steps := Run(e, n), 0;
      qs, aEnd, bEnd, steps := GcdBatch(aEnd, bEnd, threshold, size, from);
      StreamsMore(es, e, n, steps, bEnd <= threshold);
      RunMore(e, n, steps);
      QuotientsNonNegative(from, steps);
      EntryIsBatch(qs, bEnd <= threshold, 0, 0);
      es := es + [EntryOf(qs, bEnd <= threshold)];
      n := n + steps;
    }
    RemaindersShrink(e, n, Budget(plan, |es| - 1));
    assert LeftAfter(a, b, plan, |es| - 1) <= threshold;
  }

  lemma {:induction false} BudgetGrows(plan: seq<nat>, m: nat, n: nat)
    requires m <= n
    ensures Budget(plan, m) <= Budget(plan, n)
    decreases n
  {
    if m < n {
      BudgetGrows(plan, m, n - 1);
    }
  }

  /** The consumer's loop: multiply a pair by the entries in order until one says exit. */
  method Consume(es: seq<Entry>, x0: int, y0: int, ghost e: Euclid, ghost n: nat) returns (x: int, y: int)
    requires WellTerminated(es) && Streams(es, e, n)
    ensures (x, y) == ApplyQs(Quotients(e, n), x0, y0) == Fold(es, |es| - 1, x0, y0)
  {
    x, y := x0, y0;
    var index := 0;
    while true
      invariant 0 <= index < |es|
      invariant (x, y) == Fold(es, if index == 0 then 0 else index - 1, x0, y0)
      decreases |es| - index
    {
      if index != 0 {
        var p := MatrixMultiply(es[index], x, y);
        x, y := p.0, p.1;
      }
      if es[index].exit {
        break;
      }
      index := index + 1;
    }
    assert (x, y) == Fold(es, |es| - 1, x0, y0);
  }
}
