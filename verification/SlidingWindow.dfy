/** Checkpoint storage of the n-weso prover (src/callback.h, src/provers.h, src/fast_storage.h,
  * src/util.h): one range of slots for each segment length 2^(16+2b), holding the last twenty segments of
  * that length. A form is identified with its iteration, so forms[slot] == e says that the slot holds
  * x^(2^e). */
module SlidingWindow {
  import TwoWeso
  import opened Integers

  const WINDOW := 20
  const BUCKET_SIZE_1 := 6554
  const BUCKET_SIZE_2 := 21846

  function Pow4(b: nat): (r: nat)
    ensures r >= 1
  {
    if b == 0 then 1 else 4 * Pow4(b - 1)
  }

  /** power_2: the segment length of a bucket. */
  function Length(b: nat): (r: nat)
    ensures r >= 1
  {
    0x1_0000 * Pow4(b)
  }

  /** kl: the distance of its checkpoints. */
  function Distance(b: nat): (r: nat)
    ensures r >= 1
  {
    if b == 0 then 10 else 12 * Pow4(b - 1)
  }

  function Size(b: nat): nat { if b == 0 then BUCKET_SIZE_1 else BUCKET_SIZE_2 }

  /** buckets_begin. */
  function Begin(b: nat): nat { if b == 0 then 0 else Begin(b - 1) + Size(b - 1) * WINDOW }

  function Part(e: nat, b: nat): (m: nat) { QuotientNonNegative(e, Length(b)); e / Length(b) }

  function Offset(e: nat, b: nat): (r: nat)
    ensures r < Length(b)
  {
    e % Length(b)
  }

  function Index(e: nat, b: nat): (i: nat)
    ensures i < Size(b)
  {
    IndexBelow(Offset(e, b), b);
    Offset(e, b) / Distance(b)
  }

  /** The index inside a segment stays below the bucket size. */
  lemma IndexBelow(r: nat, b: nat)
    requires r < Length(b)
    ensures 0 <= r / Distance(b) < Size(b)
  {
    QuotientNonNegative(r, Distance(b));
    DivBounds(r, Distance(b));
    if r / Distance(b) >= Size(b) {
      AtLeastTimes(r / Distance(b), Size(b), Distance(b));
    }
  }

  /** GetPosition. */
  function Position(e: nat, b: nat): nat { Begin(b) + Part(e, b) % WINDOW * Size(b) + Index(e, b) }

  /** OnIteration stores e in bucket b. */
  predicate Stored(e: nat, b: nat) { Offset(e, b) % Distance(b) == 0 }

  /** Every position lies in the range of its bucket. */
  lemma PositionInRange(e: nat, b: nat)
    ensures Begin(b) <= Position(e, b) < Begin(b + 1)
  {}

  lemma {:induction false} BeginMonotone(b: nat, b': nat)
    requires b <= b'
    ensures Begin(b) <= Begin(b')
    decreases b'
  {
    if b < b' {
      BeginMonotone(b, b' - 1);
    }
  }

  /** Two stored forms less than twenty segments apart never share a slot; different buckets never do. */
  lemma NoClash(e: nat, b: nat, e': nat, b': nat)
    requires Stored(e, b) && Stored(e', b') && Position(e, b) == Position(e', b')
    requires b == b' ==> -WINDOW < Part(e, b) - Part(e', b) < WINDOW
    ensures e == e' && b == b'
  {
    PositionInRange(e, b);
    PositionInRange(e', b');
    if b < b' {
      BeginMonotone(b + 1, b');
    } else if b' < b {
      BeginMonotone(b' + 1, b);
    } else {
      SameSlot(Part(e, b), Part(e', b), Index(e, b), Index(e', b), b);
      SameForm(e, e', b);
    }
  }

  lemma SameSlot(m: nat, m': nat, i: nat, i': nat, b: nat)
    requires i < Size(b) && i' < Size(b) && -WINDOW < m - m' < WINDOW
    requires m % WINDOW * Size(b) + i == m' % WINDOW * Size(b) + i'
    ensures m == m' && i == i'
  {}

  lemma SameForm(e: nat, e': nat, b: nat)
    requires Stored(e, b) && Stored(e', b) && Part(e, b) == Part(e', b) && Index(e, b) == Index(e', b)
    ensures e == e'
  {
    Split(e, Length(b));
    Split(e', Length(b));
    Split(Offset(e, b), Distance(b));
    Split(Offset(e', b), Distance(b));
  }

  lemma Split(n: nat, d: nat)
    requires d > 0
    ensures n == n / d * d + n % d
  {}

  /** The loop has passed e but not entered the twentieth segment after the one of e. */
  predicate InWindow(e: nat, b: nat, now: nat) { e <= now < (Part(e, b) + WINDOW) * Length(b) }

  lemma PartsNear(e: nat, e': nat, b: nat)
    requires e <= e' < (Part(e, b) + WINDOW) * Length(b)
    ensures 0 <= Part(e', b) - Part(e, b) < WINDOW
  {
    var d := Length(b);
    Split(e, d);
    Split(e', d);
    if Part(e', b) < Part(e, b) {
      AtLeastTimes(Part(e, b), Part(e', b) + 1, d);
      Dist(d, Part(e', b), 1);
    }
    if Part(e', b) >= Part(e, b) + WINDOW {
      AtLeastTimes(Part(e', b), Part(e, b) + WINDOW, d);
    }
  }

  /** The first form of segment m of bucket b is stored, and so is every i-th one. */
  lemma SegmentForm(m: nat, b: nat, i: nat)
    requires i * Distance(b) < Length(b)
    ensures m * Length(b) >= 0 && i * Distance(b) >= 0
    ensures var e := m * Length(b) + i * Distance(b); Part(e, b) == m && Offset(e, b) == i * Distance(b) && Stored(e, b)
  {
    QuotientProduct(m, Length(b));
    QuotientProduct(i, Distance(b));
    DivUnique(m * Length(b) + i * Distance(b), Length(b), m, i * Distance(b));
    ExactQuotient(i * Distance(b), Distance(b), i);
  }

  // ---- the callback ----

  function Begins(n: nat): (s: seq<nat>)
    ensures |s| == n
  {
    if n == 0 then [] else Begins(n - 1) + [Begin(n - 1)]
  }

  lemma {:induction false} BeginsAre(n: nat, b: nat)
    requires b < n
    ensures Begins(n)[b] == Begin(b)
    decreases n
  {
    if b < n - 1 {
      BeginsAre(n - 1, b);
    }
  }

  /** buckets_begin, as the constructor fills it. */
  method BucketsBegin(segments: nat) returns (begins: seq<nat>)
    requires segments >= 1
    ensures begins == Begins(segments)
  {
    begins := [0];
    FirstBegins(1);
    if segments > 1 {
      begins := begins + [BUCKET_SIZE_1 * WINDOW];
      for i := 2 to segments
        invariant begins == Begins(i)
      {
        BeginsAre(i, i - 1);
        NextBegin(i);
        begins := begins + [begins[i - 1] + BUCKET_SIZE_2 * WINDOW];
      }
    }
  }

  lemma FirstBegins(one: nat)
    requires one == 1
    ensures Begins(one) == [0] && Begins(one + 1) == [0, BUCKET_SIZE_1 * WINDOW]
  {}

  lemma NextBegin(b: nat)
    requires b >= 1
    ensures Begin(b) == Begin(b - 1) + (if b == 1 then BUCKET_SIZE_1 else BUCKET_SIZE_2) * WINDOW
  {}

  class FastAlgorithmCallback {
    const segments: nat
    const bucketsBegin: seq<nat>
    const forms: array<nat>

    ghost predicate Consistent() {
      && segments >= 1 && bucketsBegin == Begins(segments)
      && forms.Length == Begin(segments)
    }

    ghost predicate InSlot(e: nat, b: nat)
      reads forms
    {
      Position(e, b) < forms.Length && forms[Position(e, b)] == e
    }

    /** Every stored form still in the window of its bucket is in its slot. */
    ghost predicate Holds(now: nat)
      reads forms
    {
      Consistent() && forall e: nat, b: nat :: b < segments && InWindow(e, b, now) && Stored(e, b) ==> InSlot(e, b)
    }

    constructor (segments: nat)
      requires segments >= 1
      ensures this.segments == segments && Holds(0) && fresh(forms)
    {
      var begins := BucketsBegin(segments);
      TotalForms(segments);
      this.segments := segments;
      bucketsBegin := begins;
      forms := new nat[WINDOW * (BUCKET_SIZE_1 + BUCKET_SIZE_2 * (segments - 1))];
      new;
      StoreFirst(0);
    }

    /** GetPosition, as computed. */
    method GetPosition(e: nat, b: nat) returns (position: nat)
      requires Consistent() && b < segments
      ensures position == Position(e, b)
    {
      BeginsAre(segments, b);
      position := bucketsBegin[b];
      var size := if b == 0 then BUCKET_SIZE_1 else BUCKET_SIZE_2;
      position := position + Part(e, b) % WINDOW * size;
      position := position + Index(e, b);
    }

    /** Puts form e into bucket b; every other stored form within reach stays where it is. */
    method Put(e: nat, b: nat, position: nat)
      requires Consistent() && b < segments && Stored(e, b) && position == Position(e, b)
      modifies forms
      ensures InSlot(e, b)
      ensures forall e': nat, b': nat :: b' < segments && Stored(e', b') && old(InSlot(e', b')) && Near(e, e', b') ==> InSlot(e', b')
    {
      PositionInRange(e, b);
      BeginMonotone(b + 1, segments);
      forms[position] := e;
      forall e': nat, b': nat | b' < segments && Stored(e', b') && old(InSlot(e', b')) && Near(e, e', b')
        ensures InSlot(e', b')
      {
        if Position(e', b') == position {
          NoClash(e, b, e', b');
        }
      }
    }

    /** The initial form, that of iteration 0, goes to the first slot of every bucket. */
    method StoreFirst(first: nat)
      requires Consistent() && first == 0
      modifies forms
      ensures Holds(first)
    {
      var i := 0;
      while i < segments
        invariant i <= segments
        invariant forall b: nat :: b < i ==> Stored(first, b) && InSlot(first, b)
      {
        FirstPosition(first, i);
        BeginsAre(segments, i);
        Put(first, i, bucketsBegin[i]);
        i := i + 1;
      }
    }

    /** OnIteration on a machine that stores in the squaring loop. An iteration of the last batch may be
      * reported again: then its forms are stored again and the window stays as it is. */
    method OnIteration(iteration: nat, ghost now: nat)
      requires Holds(now) && iteration <= now <= iteration + TwoWeso.CHECKPOINT_INTERVAL
      modifies forms
      ensures Holds(if iteration == now then now + 1 else now)
    {
      var e := iteration + 1;
      ghost var last := if iteration == now then e else now;
      var i := 0;
      while i < segments
        invariant i <= segments && Consistent()
        invariant forall e': nat, b: nat :: b < segments && InWindow(e', b, last) && Stored(e', b) && (e' != e || b < i || last == now) ==> InSlot(e', b)
      {
        if Stored(e, i) {
          WindowNear(e, last, segments);
          var position := GetPosition(e, i);
          Put(e, i, position);
        }
        i := i + 1;
      }
    }

    /** FastStorage::CalculateIntermediatesInner: a chunk is squared again and its forms are put, in any order of
      * chunks; forms within reach of the whole chunk stay. */
    method CalculateIntermediates(begin: nat, count: nat)
      requires Consistent()
      modifies forms
      ensures forall e: nat, b: nat :: b < segments && begin <= e < begin + count && Stored(e, b) && ChunkNear(begin, count, e, b) ==> InSlot(e, b)
      ensures forall e: nat, b: nat :: b < segments && Stored(e, b) && old(InSlot(e, b)) && ChunkNear(begin, count, e, b) ==> InSlot(e, b)
    {
      var e := begin;
      while e < begin + count
        invariant begin <= e <= begin + count
        invariant forall e': nat, b: nat :: b < segments && begin <= e' < e && Stored(e', b) && ChunkNear(begin, count, e', b) ==> InSlot(e', b)
        invariant forall e': nat, b: nat :: b < segments && Stored(e', b) && old(InSlot(e', b)) && ChunkNear(begin, count, e', b) ==> InSlot(e', b)
      {
        var i := 0;
        while i < segments
          invariant i <= segments
          invariant forall e': nat, b: nat :: b < segments && (begin <= e' < e || (e' == e && b < i)) && Stored(e', b) && ChunkNear(begin, count, e', b) ==> InSlot(e', b)
          invariant forall e': nat, b: nat :: b < segments && Stored(e', b) && old(InSlot(e', b)) && ChunkNear(begin, count, e', b) ==> InSlot(e', b)
        {
          if Stored(e, i) {
            ChunkReach(begin, count, e, segments);
            var position := GetPosition(e, i);
            Put(e, i, position);
          }
          i := i + 1;
        }
        e := e + 1;
      }
    }

    /** InterruptableProver::GetForm for segment n of bucket b. */
    method GetForm(n: nat, b: nat, i: nat, ghost now: nat) returns (r: nat)
      requires Holds(now) && b < segments && i * Distance(b) < Length(b)
      requires n * Length(b) + i * Distance(b) <= now < (n + WINDOW) * Length(b)
      ensures r == n * Length(b) + i * Distance(b)
    {
      SegmentForm(n, b, i);
      var e := n * Length(b) + i * Distance(b);
      assert InSlot(e, b);
      var position := GetPosition(e, b);
      r := forms[position];
    }
  }

  predicate Near(e: nat, e': nat, b: nat) { -WINDOW < Part(e, b) - Part(e', b) < WINDOW }

  /** What is in the window of `now` is within reach of every form of the last batch. */
  lemma WindowNear(e: nat, now: nat, segments: nat)
    requires e <= now <= e + TwoWeso.CHECKPOINT_INTERVAL
    ensures forall e': nat, b: nat :: b < segments && InWindow(e', b, now) ==> Near(e, e', b)
  {
    forall e': nat, b: nat | b < segments && InWindow(e', b, now)
      ensures Near(e, e', b)
    {
      PartsNear(e', now, b);
      BatchParts(e, now, b);
    }
  }

  /** A batch is shorter than any segment. */
  lemma BatchParts(e: nat, now: nat, b: nat)
    requires e <= now <= e + TwoWeso.CHECKPOINT_INTERVAL
    ensures Part(e, b) <= Part(now, b) <= Part(e, b) + 1
  {
    var d := Length(b);
    Split(e, d);
    Split(now, d);
    if Part(now, b) < Part(e, b) {
      AtLeastTimes(Part(e, b), Part(now, b) + 1, d);
      Dist(d, Part(now, b), 1);
    }
    if Part(now, b) > Part(e, b) + 1 {
      AtLeastTimes(Part(now, b), Part(e, b) + 2, d);
      Dist(d, Part(e, b), 2);
    }
  }

  /** Every form of the chunk is less than twenty segments away from e. */
  ghost predicate ChunkNear(begin: nat, count: nat, e: nat, b: nat) {
    forall e': nat :: begin <= e' < begin + count ==> Near(e', e, b)
  }

  lemma ChunkReach(begin: nat, count: nat, e: nat, segments: nat)
    requires begin <= e < begin + count
    ensures forall e': nat, b: nat :: b < segments && ChunkNear(begin, count, e', b) ==> Near(e, e', b)
  {}

  // ---- the squaring loop ----

  /** The listener calls for `count` iterations from base on. */
  method Report(cb: FastAlgorithmCallback, base: nat, count: nat, ghost now: nat)
    requires cb.Holds(now) && base <= now <= base + TwoWeso.CHECKPOINT_INTERVAL && count <= TwoWeso.CHECKPOINT_INTERVAL
    modifies cb.forms
    ensures cb.Holds(if base + count > now then base + count else now)
  {
    ghost var reached := now;
    for i := 0 to count
      invariant cb.Holds(reached) && reached == if base + i > now then base + i else now
    {
      cb.OnIteration(base + i, reached);
      if base + i == reached {
        reached := reached + 1;
      }
    }
  }

  /** One batch of repeated_square: the fast path, and where it gave up the slow one, which reports again from
    * the start of a corrupt batch. */
  method Batch(cb: FastAlgorithmCallback, n: nat, o: TwoWeso.Outcome) returns (n': nat)
    requires cb.Holds(n) && TwoWeso.Possible(o)
    modifies cb.forms
    ensures cb.Holds(n') && n < n' <= n + TwoWeso.CHECKPOINT_INTERVAL
  {
    match o
    case Corrupt(reported) =>
      Report(cb, n, reported, n);
      Report(cb, n, TwoWeso.CHECKPOINT_INTERVAL, n + reported);
      n' := n + TwoWeso.CHECKPOINT_INTERVAL;
    case Fast(count) =>
      Report(cb, n, count, n);
      n' := n + count;
      if count < TwoWeso.CHECKPOINT_INTERVAL {
        Report(cb, n', 1, n');
        n' := n' + 1;
      }
  }

  /** The n-weso side of the loop: whatever the outcomes of the batches, the window of the iteration reached
    * is stored. */
  method RepeatedSquare(cb: FastAlgorithmCallback, wanted: nat, plan: seq<TwoWeso.Outcome>) returns (n: nat)
    requires cb.Holds(0) && forall o :: o in plan ==> TwoWeso.Possible(o)
    modifies cb.forms
    ensures cb.Holds(n) && (n >= |plan| || 0 < wanted < n)
  {
    n := 0;
    for batch := 0 to |plan|
      invariant cb.Holds(n) && n >= batch
    {
      n := Batch(cb, n, plan[batch]);
      if wanted != 0 && n > wanted {
        return;
      }
    }
  }

  const CHUNK := 0x8000

  /** A chunk lies in one segment of every bucket, so all its forms are kept. */
  lemma ChunkInOneSegment(begin: nat, e: nat, b: nat)
    requires begin % CHUNK == 0 && begin <= e < begin + CHUNK
    ensures Part(e, b) == Part(begin, b) && ChunkNear(begin, CHUNK, e, b)
  {
    forall e': nat | begin <= e' < begin + CHUNK
      ensures Part(e', b) == Part(begin, b)
    {
      SamePart(begin, e', b);
    }
  }

  lemma SamePart(begin: nat, e: nat, b: nat)
    requires begin % CHUNK == 0 && begin <= e < begin + CHUNK
    ensures Part(e, b) == Part(begin, b)
  {
    var d, m, q, r := Length(b), Part(begin, b), begin / CHUNK, Offset(begin, b);
    Split(begin, d);
    Split(begin, CHUNK);
    Swap3(m, CHUNK, 2 * Pow4(b));
    RoomForChunk(r, q - m * (2 * Pow4(b)), 2 * Pow4(b));
    DivUnique(e, d, m, r + (e - begin));
  }

  lemma RoomForChunk(r: nat, x: int, y: int)
    requires r == CHUNK * x && r < CHUNK * y
    ensures r + CHUNK <= CHUNK * y
  {}

  lemma FirstPosition(first: nat, b: nat)
    requires first == 0
    ensures Position(first, b) == Begin(b) && Stored(first, b)
  {
    DivUnique(first, Length(b), 0, first);
    DivUnique(first, Distance(b), 0, first);
  }

  lemma {:induction false} TotalForms(segments: nat)
    requires segments >= 1
    ensures Begin(segments) == WINDOW * (BUCKET_SIZE_1 + BUCKET_SIZE_2 * (segments - 1))
    decreases segments
  {
    if segments > 1 {
      TotalForms(segments - 1);
    }
  }

  // ---- the prover's parameters ----

  /** k * l of InterruptableProver is the distance at which its bucket stores. */
  lemma ProverStride(b: nat)
    ensures var length := Length(b);
            var k, l := if length <= 0x1_0000 then 10 else 12, if length <= 0x4_0000 then 1 else length / 0x4_0000;
            k * l == Distance(b)
  {
    if b >= 1 {
      var q := Pow4(b - 1);
      DivUnique(Length(b), 0x4_0000, q, 0);
    }
  }

  /** GetSegmentBucket: half the number of bits above 16. */
  method GetSegmentBucket(length: nat) returns (index: nat)
    ensures index == 0 ==> length / 0x1_0000 < 2
    ensures index > 0 ==> 2 * Pow4(index - 1) <= length / 0x1_0000 < 2 * Pow4(index)
    ensures forall b: nat :: length == Length(b) ==> index == b
  {
    var v := length / 0x1_0000;
    index := 0;
    QuotientNonNegative(length, 0x1_0000);
    ghost var scale := 1;
    while v > 1
      invariant v >= 0 && scale == Pow4(index) && v * scale <= length / 0x1_0000 < (v + 1) * scale
      invariant index > 0 ==> 2 * Pow4(index - 1) <= length / 0x1_0000
      decreases v
    {
      AtLeastTimes(v, 2, scale);
      NextDigit(v, scale, length / 0x1_0000);
      v := v / 4;
      scale := 4 * scale;
      index := index + 1;
    }
    BelowTwo(v, scale, length / 0x1_0000);
    forall b: nat | length == Length(b)
      ensures index == b
    {
      DivUnique(length, 0x1_0000, Pow4(b), 0);
      BucketIs(index, b);
    }
  }

  lemma BelowTwo(v: nat, scale: nat, n: nat)
    requires v <= 1 && n < (v + 1) * scale
    ensures n < 2 * scale
  {
    AtLeastTimes(2, v + 1, scale);
  }

  lemma NextDigit(v: nat, scale: nat, n: nat)
    requires v * scale <= n < (v + 1) * scale
    ensures v / 4 * (4 * scale) <= n < (v / 4 + 1) * (4 * scale)
  {
    var q := v / 4;
    Swap3(q, 4, scale);
    Swap3(q + 1, 4, scale);
    assert q * (4 * scale) == (4 * q) * scale && (q + 1) * (4 * scale) == (4 * q + 4) * scale;
    AtLeastTimes(v, 4 * q, scale);
    AtLeastTimes(4 * q + 4, v + 1, scale);
  }

  lemma BucketIs(index: nat, b: nat)
    requires index == 0 ==> Pow4(b) < 2
    requires index > 0 ==> 2 * Pow4(index - 1) <= Pow4(b) < 2 * Pow4(index)
    ensures index == b
  {
    if b > index {
      Pow4Monotone(index + 1, b);
    } else if index > b {
      Pow4Monotone(b, index - 1);
    }
  }

  lemma {:induction false} Pow4Monotone(m: nat, n: nat)
    requires m <= n
    ensures Pow4(m) <= Pow4(n)
    decreases n
  {
    if m < n {
      Pow4Monotone(m, n - 1);
    }
  }
}
