/** The scheduling round of the n-weso prover's event loop (src/vdf.h: ProverManager::RunEventLoop,
  * src/util.h: Segment): free threads take the best waiting segment, and a running segment is paused for
  * a better one. */
module Scheduler {
  import opened Options
  import Integers
  import opened SlidingWindow

  const U64 := 0x1_0000_0000_0000_0000

  datatype Segment = Segment(start: nat, length: nat)

  /** Segment::IsWorseThan between segments that are not empty: longer, or as long and later. */
  predicate Worse(x: Segment, y: Segment) { x.length > y.length || (x.length == y.length && x.start > y.start) }

  /** Segment::IsWorseThan; None is the empty segment. */
  predicate IsWorseThan(x: Option<Segment>, y: Option<Segment>) {
    match x
    case None => y.Some?
    case Some(s) => y.Some? && Worse(s, y.value)
  }

  /** Order as a number. */
  function Rank(x: Segment): nat { x.length * U64 + x.start }

  lemma RankOrders(x: Segment, y: Segment)
    requires x.start < U64 && y.start < U64
    ensures Worse(x, y) <==> Rank(x) > Rank(y)
  {}

  datatype Prover = Prover(running: bool, seg: Segment)

  // ---- sums over the provers ----

  function Active(ps: seq<Prover>): (n: nat)
    ensures n <= |ps|
  {
    if ps == [] then 0 else Active(ps[..|ps| - 1]) + (if ps[|ps| - 1].running then 1 else 0)
  }

  function RunningRanks(ps: seq<Prover>): nat {
    if ps == [] then 0 else RunningRanks(ps[..|ps| - 1]) + (if ps[|ps| - 1].running then Rank(ps[|ps| - 1].seg) else 0)
  }

  function Segments(ps: seq<Prover>): multiset<Segment> {
    if ps == [] then multiset{} else Segments(ps[..|ps| - 1]) + multiset{ps[|ps| - 1].seg}
  }

  function Toggle(ps: seq<Prover>, i: nat): (r: seq<Prover>)
    requires i < |ps|
    ensures |r| == |ps|
  {
    ps[i := Prover(!ps[i].running, ps[i].seg)]
  }

  lemma TogglePrefix(ps: seq<Prover>, i: nat)
    requires i < |ps|
    ensures var n := |ps| - 1; Toggle(ps, i)[..n] == if i < n then Toggle(ps[..n], i) else ps[..n]
  {}

  lemma {:induction false} ToggleSegments(ps: seq<Prover>, i: nat)
    requires i < |ps|
    ensures Segments(Toggle(ps, i)) == Segments(ps)
    decreases |ps|
  {
    TogglePrefix(ps, i);
    if i < |ps| - 1 {
      ToggleSegments(ps[..|ps| - 1], i);
    }
  }

  lemma {:induction false} ToggleActive(ps: seq<Prover>, i: nat)
    requires i < |ps|
    ensures Active(Toggle(ps, i)) == if ps[i].running then Active(ps) - 1 else Active(ps) + 1
    decreases |ps|
  {
    TogglePrefix(ps, i);
    if i < |ps| - 1 {
      ToggleActive(ps[..|ps| - 1], i);
    }
  }

  lemma {:induction false} ToggleRanks(ps: seq<Prover>, i: nat)
    requires i < |ps|
    ensures RunningRanks(Toggle(ps, i)) == if ps[i].running then RunningRanks(ps) - Rank(ps[i].seg) else RunningRanks(ps) + Rank(ps[i].seg)
    decreases |ps|
  {
    TogglePrefix(ps, i);
    if i < |ps| - 1 {
      ToggleRanks(ps[..|ps| - 1], i);
    }
  }

  lemma SetRunning(ps: seq<Prover>, i: nat)
    requires i < |ps|
    ensures Segments(Toggle(ps, i)) == Segments(ps)
    ensures Active(Toggle(ps, i)) == if ps[i].running then Active(ps) - 1 else Active(ps) + 1
    ensures RunningRanks(Toggle(ps, i)) == if ps[i].running then RunningRanks(ps) - Rank(ps[i].seg) else RunningRanks(ps) + Rank(ps[i].seg)
  {
    ToggleSegments(ps, i);
    ToggleActive(ps, i);
    ToggleRanks(ps, i);
  }

  lemma AddProver(ps: seq<Prover>, x: Segment)
    ensures var ps' := ps + [Prover(true, x)];
            Segments(ps') == Segments(ps) + multiset{x} && Active(ps') == Active(ps) + 1 && RunningRanks(ps') == RunningRanks(ps) + Rank(x)
  {
    assert (ps + [Prover(true, x)])[..|ps|] == ps;
  }

  lemma {:induction false} SomeRunning(ps: seq<Prover>)
    requires Active(ps) > 0
    ensures exists i :: 0 <= i < |ps| && ps[i].running
    decreases |ps|
  {
    var n := |ps| - 1;
    if !ps[n].running {
      SomeRunning(ps[..n]);
      var i :| 0 <= i < n && ps[..n][i].running;
      assert ps[i].running;
    }
  }

  // ---- the segments waiting for a prover ----

  function Total(pending: seq<seq<Segment>>): nat {
    if pending == [] then 0 else Total(pending[..|pending| - 1]) + |pending[|pending| - 1]|
  }

  function All(pending: seq<seq<Segment>>): multiset<Segment> {
    if pending == [] then multiset{} else All(pending[..|pending| - 1]) + multiset(pending[|pending| - 1])
  }

  lemma {:induction false} TakeFirst(pending: seq<seq<Segment>>, b: nat)
    requires b < |pending| && pending[b] != []
    ensures var p' := pending[b := pending[b][1..]];
            Total(p') == Total(pending) - 1 && All(p') + multiset{pending[b][0]} == All(pending)
    decreases |pending|
  {
    var n := |pending| - 1;
    var p' := pending[b := pending[b][1..]];
    if b < n {
      TakeFirst(pending[..n], b);
      assert p'[..n] == pending[..n][b := pending[b][1..]];
      WithRest(All(p'[..n]), multiset{pending[b][0]}, All(pending[..n]), multiset(pending[n]));
    } else {
      assert p'[..n] == pending[..n];
      FirstOf(pending[b]);
      FromLast(All(pending[..n]), multiset(p'[n]), multiset{pending[n][0]}, multiset(pending[n]));
    }
  }

  lemma FirstOf(s: seq<Segment>)
    requires s != []
    ensures multiset(s) == multiset(s[1..]) + multiset{s[0]}
  {
    assert s == [s[0]] + s[1..];
  }

  lemma WithRest(a: multiset<Segment>, x: multiset<Segment>, b: multiset<Segment>, rest: multiset<Segment>)
    requires a + x == b
    ensures (a + rest) + x == b + rest
  {}

  lemma FromLast(a: multiset<Segment>, less: multiset<Segment>, x: multiset<Segment>, last: multiset<Segment>)
    requires last == less + x
    ensures (a + less) + x == a + last
  {}

  /** The event loop appends segments of one length in the order of their starts. */
  ghost predicate Sorted(s: seq<Segment>) { forall i, j :: 0 <= i < j < |s| ==> Worse(s[j], s[i]) }

  predicate Fits(x: Segment) { x.start < U64 }

  ghost predicate BucketOk(s: seq<Segment>) { Sorted(s) && forall i :: 0 <= i < |s| ==> Fits(s[i]) }

  ghost predicate PendingOk(pending: seq<seq<Segment>>) { forall b :: 0 <= b < |pending| ==> BucketOk(pending[b]) }

  /** Consecutive segments of one length. */
  function Tiles(from: nat, length: nat, n: nat): seq<Segment> {
    if n == 0 then [] else Tiles(from, length, n - 1) + [Segment(from + (n - 1) * length, length)]
  }

  /** pending[b] holds segments of length 2^(16+2b), in order and all before lastAppended[b]. */
  ghost predicate Queued(s: seq<Segment>, length: nat, last: nat) {
    forall i :: 0 <= i < |s| ==> s[i].length == length && s[i].start < last
  }

  /** The part of the event loop that queues the segments whose intermediates are complete: every full segment
    * up to `iters` has been queued exactly once. */
  method AppendFinished(queue: seq<Segment>, length: nat, last: nat, iters: nat) returns (queue': seq<Segment>, last': nat, ghost n: nat)
    requires BucketOk(queue) && Queued(queue, length, last) && length > 0 && last % length == 0 && iters < U64
    ensures BucketOk(queue') && Queued(queue', length, last') && last' % length == 0
    ensures queue' == queue + Tiles(last, length, n) && last' == last + n * length
    ensures n > 0 ==> last' <= iters
    ensures iters < last' + length
  {
    queue', last', n := queue, last, 0;
    while last' + length <= iters
      invariant BucketOk(queue') && Queued(queue', length, last') && last' % length == 0
      invariant queue' == queue + Tiles(last, length, n) && last' == last + n * length
      invariant n > 0 ==> last' <= iters
      decreases iters - last'
    {
      NextTile(last, length, n);
      queue' := queue' + [Segment(last', length)];
      Integers.DivUnique(length, length, 1, 0);
      Integers.MultipleSum(last', length, length);
      last', n := last' + length, n + 1;
    }
  }

  lemma NextTile(from: nat, length: nat, n: nat)
    ensures Tiles(from, length, n + 1) == Tiles(from, length, n) + [Segment(from + n * length, length)]
    ensures from + (n + 1) * length == from + n * length + length
  {}

  lemma TailOk(pending: seq<seq<Segment>>, b: nat)
    requires PendingOk(pending) && b < |pending| && pending[b] != []
    ensures PendingOk(pending[b := pending[b][1..]])
  {
    assert BucketOk(pending[b]) && BucketOk(pending[b][1..]);
  }

  lemma Moved(a: multiset<Segment>, b: multiset<Segment>, rest: multiset<Segment>, x: Segment)
    requires rest + multiset{x} == b
    ensures (a + multiset{x}) + rest == a + b
  {}

  // ---- the manager ----

  class ProverManager {
    const maxProvingThreads: nat
    var provers: seq<Prover>
    var pending: seq<seq<Segment>>

    constructor (maxProvingThreads: nat, segmentCount: nat)
      requires maxProvingThreads >= 1
      ensures this.maxProvingThreads == maxProvingThreads && Ready()
    {
      this.maxProvingThreads := maxProvingThreads;
      provers := [];
      pending := seq(segmentCount, _ => []);
    }

    ghost predicate Ready()
      reads this
    {
      && maxProvingThreads >= 1 && Active(provers) <= maxProvingThreads
      && (forall i :: 0 <= i < |provers| ==> Fits(provers[i].seg))
      && PendingOk(pending)
    }

    ghost predicate Paused(w: Segment)
      reads this
    {
      exists i :: 0 <= i < |provers| && !provers[i].running && provers[i].seg == w
    }

    ghost predicate Pending(w: Segment)
      reads this
    {
      exists b, i :: 0 <= b < |pending| && 0 <= i < |pending[b]| && pending[b][i] == w
    }

    ghost predicate Running(r: Segment)
      reads this
    {
      exists i :: 0 <= i < |provers| && provers[i].running && provers[i].seg == r
    }

    /** Nothing that waits is better than x. */
    ghost predicate NoneBetter(x: Segment)
      reads this
    {
      && (forall i :: 0 <= i < |provers| && !provers[i].running ==> !Worse(x, provers[i].seg))
      && (forall b, i :: 0 <= b < |pending| && 0 <= i < |pending[b]| ==> !Worse(x, pending[b][i]))
    }

    /** The best paused or pending segment and where it is. */
    method FindBest() returns (best: Option<Segment>, index: nat, isNew: bool)
      requires Ready()
      ensures best.None? ==> forall w :: !Paused(w) && !Pending(w)
      ensures best.Some? && isNew ==> index < |pending| && pending[index] != [] && pending[index][0] == best.value
      ensures best.Some? && !isNew ==> index < |provers| && !provers[index].running && provers[index].seg == best.value
      ensures best.Some? ==> NoneBetter(best.value) && Fits(best.value)
    {
      best, index, isNew := None, 0, false;
      for i := 0 to |provers|
        invariant best.None? ==> forall j :: 0 <= j < i ==> provers[j].running
        invariant best.Some? ==> index < i && !provers[index].running && provers[index].seg == best.value && !isNew
        invariant best.Some? ==> forall j :: 0 <= j < i && !provers[j].running ==> !Worse(best.value, provers[j].seg)
      {
        if !provers[i].running && IsWorseThan(best, Some(provers[i].seg)) {
          best, index, isNew := Some(provers[i].seg), i, false;
        }
      }
      for i := 0 to |pending|
        invariant best.None? ==> (forall j :: 0 <= j < |provers| ==> provers[j].running) && (forall b :: 0 <= b < i ==> pending[b] == [])
        invariant best.Some? && isNew ==> index < i && pending[index] != [] && pending[index][0] == best.value
        invariant best.Some? && !isNew ==> index < |provers| && !provers[index].running && provers[index].seg == best.value
        invariant best.Some? ==> forall j :: 0 <= j < |provers| && !provers[j].running ==> !Worse(best.value, provers[j].seg)
        invariant best.Some? ==> forall b, j :: 0 <= b < i && 0 <= j < |pending[b]| ==> !Worse(best.value, pending[b][j])
      {
        if |pending[i]| > 0 && IsWorseThan(best, Some(pending[i][0])) {
          best, index, isNew := Some(pending[i][0]), i, true;
        }
        assert BucketOk(pending[i]);
      }
    }

    /** The worst running segment. */
    method FindWorst() returns (worst: Option<Segment>, index: nat)
      ensures worst.None? ==> forall i :: 0 <= i < |provers| ==> !provers[i].running
      ensures worst.Some? ==> index < |provers| && provers[index] == Prover(true, worst.value)
      ensures worst.Some? ==> forall i :: 0 <= i < |provers| && provers[i].running ==> !Worse(provers[i].seg, worst.value)
    {
      worst, index := None, 0;
      for i := 0 to |provers|
        invariant worst.None? ==> forall j :: 0 <= j < i ==> !provers[j].running
        invariant worst.Some? ==> index < i && provers[index] == Prover(true, worst.value)
        invariant worst.Some? ==> forall j :: 0 <= j < i && provers[j].running ==> !Worse(provers[j].seg, worst.value)
      {
        if provers[i].running && (worst.None? || IsWorseThan(Some(provers[i].seg), worst)) {
          worst, index := Some(provers[i].seg), i;
        }
      }
    }

    ghost function Everything(): multiset<Segment>
      reads this
    {
      Segments(provers) + All(pending)
    }

    /** Number of segments without a running prover. */
    ghost function Waiting(): nat
      reads this
    {
      |provers| - Active(provers) + Total(pending)
    }

    method Resume(index: nat)
      requires Ready() && Active(provers) < maxProvingThreads && index < |provers| && !provers[index].running
      modifies `provers
      ensures Ready() && Everything() == old(Everything()) && Waiting() == old(Waiting()) - 1
      ensures Active(provers) == old(Active(provers)) + 1 && RunningRanks(provers) == old(RunningRanks(provers)) + Rank(old(provers[index].seg))
    {
      SetRunning(provers, index);
      provers := Toggle(provers, index);
    }

    method StartNew(best: Segment, index: nat)
      requires Ready() && Active(provers) < maxProvingThreads && Fits(best)
      requires index < |pending| && pending[index] != [] && pending[index][0] == best
      modifies this
      ensures Ready() && Everything() == old(Everything()) && Waiting() == old(Waiting()) - 1
      ensures Active(provers) == old(Active(provers)) + 1 && RunningRanks(provers) == old(RunningRanks(provers)) + Rank(best)
    {
      AddProver(provers, best);
      TakeFirst(pending, index);
      TailOk(pending, index);
      Moved(Segments(provers), All(pending), All(pending[index := pending[index][1..]]), best);
      provers := provers + [Prover(true, best)];
      pending := pending[index := pending[index][1..]];
    }

    /** Resumes a paused prover or starts a new one. */
    method Spawn(best: Segment, index: nat, isNew: bool)
      requires Ready() && Active(provers) < maxProvingThreads && Fits(best)
      requires isNew ==> index < |pending| && pending[index] != [] && pending[index][0] == best
      requires !isNew ==> index < |provers| && !provers[index].running && provers[index].seg == best
      modifies this
      ensures Ready() && Everything() == old(Everything()) && Waiting() == old(Waiting()) - 1
      ensures Active(provers) == old(Active(provers)) + 1 && RunningRanks(provers) == old(RunningRanks(provers)) + Rank(best)
    {
      if !isNew {
        Resume(index);
      } else {
        StartNew(best, index);
      }
    }

    method Pause(index: nat)
      requires Ready() && index < |provers| && provers[index].running
      modifies `provers
      ensures Ready() && provers == Toggle(old(provers), index)
      ensures Everything() == old(Everything()) && Waiting() == old(Waiting()) + 1
      ensures Active(provers) == old(Active(provers)) - 1
      ensures RunningRanks(provers) == old(RunningRanks(provers)) - Rank(old(provers[index].seg))
    {
      SetRunning(provers, index);
      provers := Toggle(provers, index);
    }

    /** Without a free thread: the worst running segment gives way if the candidate is better. */
    method Replace(best: Segment, index: nat, isNew: bool) returns (replaced: bool)
      requires Ready() && Active(provers) == maxProvingThreads && Fits(best)
      requires isNew ==> index < |pending| && pending[index] != [] && pending[index][0] == best
      requires !isNew ==> index < |provers| && !provers[index].running && provers[index].seg == best
      modifies this
      ensures !replaced ==> unchanged(this) && forall i :: 0 <= i < |provers| && provers[i].running ==> !Worse(provers[i].seg, best)
      ensures replaced ==> Ready() && Everything() == old(Everything()) && Waiting() == old(Waiting())
      ensures replaced ==> Active(provers) == old(Active(provers)) && RunningRanks(provers) < old(RunningRanks(provers))
    {
      var worst, worstIndex := FindWorst();
      SomeRunning(provers);
      replaced := IsWorseThan(worst, Some(best));
      if replaced {
        RankOrders(worst.value, best);
        Pause(worstIndex);
        Spawn(best, index, isNew);
      }
    }

    /** One scheduling round: it ends, no segment is lost or doubled, at most maxProvingThreads provers run, all
      * of them if anything waits, and nothing that waits is better than anything that runs. */
    method Schedule()
      requires Ready()
      modifies this
      ensures Ready() && Everything() == old(Everything())
      ensures forall w :: Paused(w) || Pending(w) ==> Active(provers) == maxProvingThreads
      ensures forall w, r :: (Paused(w) || Pending(w)) && Running(r) ==> !Worse(r, w)
    {
      var activeProvers := Active(provers);
      while true
        invariant Ready() && activeProvers == Active(provers) && Everything() == old(Everything())
        decreases Waiting(), RunningRanks(provers)
      {
        var best, index, isNew := FindBest();
        if best.None? {
          break;
        }
        if activeProvers < maxProvingThreads {
          activeProvers := activeProvers + 1;
          Spawn(best.value, index, isNew);
        } else {
          var replaced := Replace(best.value, index, isNew);
          if !replaced {
            break;
          }
        }
      }
    }
  }

  // ---- collecting the segments of a proof ----

  function TotalLength(segs: seq<Segment>): nat {
    if segs == [] then 0 else TotalLength(segs[..|segs| - 1]) + segs[|segs| - 1].length
  }

  /** Every segment starts where the previous one ended, the first at 0. */
  ghost predicate Contiguous(segs: seq<Segment>) {
    forall k: nat :: k < |segs| ==> StartsAt(segs, k)
  }

  predicate StartsAt(segs: seq<Segment>, k: nat) { k < |segs| && segs[k].start == TotalLength(segs[..k]) }

  lemma ContiguousAppend(segs: seq<Segment>, x: Segment)
    requires Contiguous(segs) && x.start == TotalLength(segs)
    ensures Contiguous(segs + [x]) && TotalLength(segs + [x]) == TotalLength(segs) + x.length
  {
    var all := segs + [x];
    assert all[..|segs|] == segs;
    forall k: nat | k < |all|
      ensures StartsAt(all, k)
    {
      if k < |segs| {
        assert StartsAt(segs, k) && all[..k] == segs[..k];
      }
    }
  }

  /** A multiple of a length is a multiple of every shorter one. */
  lemma ShorterDivides(x: nat, b: nat)
    requires x % Length(b + 1) == 0
    ensures x % Length(b) == 0
  {
    var d := Length(b);
    var q := x / Length(b + 1);
    Integers.DivBounds(x, Length(b + 1));
    assert x == q * (4 * d);
    Integers.Swap3(q, 4, d);
    Integers.ExactQuotient(x, d, 4 * q);
  }

  /** Segment number `position` of length i is finished. */
  predicate Finished(x: Segment, done: seq<nat>, i: nat, position: nat) {
    i < |done| && position < done[i] && x == Segment(position * Length(i), Length(i))
  }

  /** No segment of length i can be taken behind the first `proved` iterations: either it is not finished, or it
    * does not fit. */
  predicate Blocked(done: seq<nat>, i: nat, proved: nat, iteration: nat) {
    i < |done| ==> proved / Length(i) >= done[i] || proved + Length(i) > iteration
  }

  /** x is a finished segment that fits, and no longer one could be taken in its place. */
  predicate Longest(x: Segment, done: seq<nat>, i: nat, position: nat, iteration: nat) {
    && Finished(x, done, i, position) && x.start + x.length <= iteration
    && forall j: nat :: i < j < |done| ==> Blocked(done, j, x.start, iteration)
  }

  ghost predicate FromDone(x: Segment, done: seq<nat>, iteration: nat) {
    exists i: nat, position: nat :: Longest(x, done, i, position, iteration)
  }

  ghost predicate AllFromDone(segs: seq<Segment>, done: seq<nat>, iteration: nat) {
    forall k :: 0 <= k < |segs| ==> FromDone(segs[k], done, iteration)
  }

  /** Nothing of length i or longer can be taken. */
  predicate BlockedFrom(done: seq<nat>, i: nat, proved: nat, iteration: nat) {
    forall j: nat :: i <= j < |done| ==> Blocked(done, j, proved, iteration)
  }

  /** What is blocked stays so. */
  lemma BlockedLater(done: seq<nat>, i: nat, proved: nat, later: nat, iteration: nat)
    requires BlockedFrom(done, i, proved, iteration) && proved <= later
    ensures BlockedFrom(done, i, later, iteration)
  {
    forall j: nat | i <= j < |done|
      ensures Blocked(done, j, later, iteration)
    {
      assert Blocked(done, j, proved, iteration);
      QuotientGrows(proved, later, Length(j));
    }
  }

  lemma QuotientGrows(x: nat, y: nat, d: nat)
    requires d > 0 && x <= y
    ensures x / d <= y / d
  {
    Integers.DivBounds(x, d);
    Integers.DivBounds(y, d);
    if x / d > y / d {
      Integers.AtLeastTimes(x / d, y / d + 1, d);
      Integers.Dist(d, y / d, 1);
    }
  }

  /** The segments collected so far, when those of length i and longer are used up. */
  ghost predicate Collecting(segs: seq<Segment>, proved: nat, done: seq<nat>, i: nat, iteration: nat) {
    && Contiguous(segs) && TotalLength(segs) == proved <= iteration
    && AllFromDone(segs, done, iteration) && BlockedFrom(done, i, proved, iteration)
  }

  /** Segments of one length, from the one that starts where the previous segments end, until none is finished
    * or the next one does not fit. */
  method CollectLength(segs0: seq<Segment>, proved0: nat, done: seq<nat>, i: nat, iteration: nat) returns (segs: seq<Segment>, proved: nat)
    requires i < |done| && Collecting(segs0, proved0, done, i + 1, iteration) && proved0 % Length(i) == 0
    ensures Collecting(segs, proved, done, i, iteration) && proved % Length(i) == 0
  {
    segs, proved := segs0, proved0;
    var size := Length(i);
    Integers.QuotientNonNegative(proved, size);
    Integers.DivBounds(proved, size);
    var position := proved / size;
    while position < done[i] && proved + size <= iteration
      invariant Collecting(segs, proved, done, i + 1, iteration) && proved == position * size
      decreases iteration - proved
    {
      var x := Segment(proved, size);
      TakeFinished(segs, x, done, i, position, iteration);
      segs := segs + [x];
      position := position + 1;
      proved := proved + size;
    }
    Integers.ExactQuotient(proved, size, position);
    BlockedNext(done, i, proved, iteration);
  }

  lemma BlockedNext(done: seq<nat>, i: nat, proved: nat, iteration: nat)
    requires BlockedFrom(done, i + 1, proved, iteration) && Blocked(done, i, proved, iteration)
    ensures BlockedFrom(done, i, proved, iteration)
  {}

  /** The segments that can be collected: they run from 0 without gaps, each is the longest finished one that
    * starts there and fits, and none can follow the last. */
  ghost predicate Collected(segs: seq<Segment>, done: seq<nat>, iteration: nat) {
    Contiguous(segs) && AllFromDone(segs, done, iteration) && BlockedFrom(done, 0, TotalLength(segs), iteration)
  }

  /** The collecting loop of ProverManager::Prove: done[i] segments of length i are finished, without holes, and
    * segment number `position` of a length starts at position times the length. The segments taken are the ones
    * that can be collected, so if the finished segments of length 2^16 cover the multiple of 2^16 that is needed,
    * they end exactly there and the check after the loop only asks for at most 63 of them. */
  method CollectSegments(done: seq<nat>, iteration: nat) returns (segs: seq<Segment>, proved: nat, valid: bool)
    requires |done| >= 1
    ensures Collected(segs, done, iteration) && TotalLength(segs) == proved <= iteration
    ensures valid <==> |segs| <= 63 && proved == iteration - iteration % 0x1_0000
    ensures done[0] * 0x1_0000 >= iteration - iteration % 0x1_0000 ==> proved == iteration - iteration % 0x1_0000 && (valid <==> |segs| <= 63)
  {
    segs, proved := [], 0;
    var i: int := |done| - 1;
    Integers.DivUnique(0, Length(i), 0, 0);
    while i >= 0
      invariant -1 <= i < |done| && Collecting(segs, proved, done, i + 1, iteration)
      invariant proved % Length(if i >= 0 then i else 0) == 0
      decreases i
    {
      segs, proved := CollectLength(segs, proved, done, i, iteration);
      if i > 0 {
        ShorterDivides(proved, i - 1);
      }
      i := i - 1;
    }
    SixteenBits(proved, iteration);
    Covered(done, proved, iteration);
    valid := !(|segs| > 63 || proved < iteration - iteration % 0x1_0000);
  }

  lemma TakeFinished(segs: seq<Segment>, x: Segment, done: seq<nat>, i: nat, position: nat, iteration: nat)
    requires Collecting(segs, x.start, done, i + 1, iteration)
    requires Finished(x, done, i, position) && x.start + x.length <= iteration
    ensures Collecting(segs + [x], x.start + x.length, done, i + 1, iteration)
    ensures x.start + x.length == (position + 1) * x.length
  {
    ContiguousAppend(segs, x);
    Integers.Dist(x.length, position, 1);
    assert Longest(x, done, i, position, iteration);
    BlockedLater(done, i + 1, x.start, x.start + x.length, iteration);
  }

  lemma SixteenBits(proved: nat, iteration: nat)
    requires proved % Length(0) == 0 && proved <= iteration
    ensures proved <= iteration - iteration % 0x1_0000
  {
    assert Length(0) == 0x1_0000;
  }

  /** Finished segments of length 2^16 leave nothing of their range uncovered. */
  lemma Covered(done: seq<nat>, proved: nat, iteration: nat)
    requires |done| >= 1 && proved % Length(0) == 0 && proved <= iteration && BlockedFrom(done, 0, proved, iteration)
    ensures done[0] * 0x1_0000 >= iteration - iteration % 0x1_0000 ==> proved == iteration - iteration % 0x1_0000
  {
    assert Length(0) == 0x1_0000 && Blocked(done, 0, proved, iteration);
  }

  /** There is only one such list. */
  lemma CollectedUnique(segs: seq<Segment>, other: seq<Segment>, done: seq<nat>, iteration: nat)
    requires Collected(segs, done, iteration) && Collected(other, done, iteration)
    ensures segs == other
  {
    var n := if |segs| <= |other| then |segs| else |other|;
    SamePrefix(segs, other, done, iteration, n);
    if |segs| < |other| {
      NothingFollows(segs, other, done, iteration);
    } else if |other| < |segs| {
      NothingFollows(other, segs, done, iteration);
    } else {
      assert segs == segs[..n] == other[..n] == other;
    }
  }

  lemma {:induction false} SamePrefix(segs: seq<Segment>, other: seq<Segment>, done: seq<nat>, iteration: nat, n: nat)
    requires Collected(segs, done, iteration) && Collected(other, done, iteration) && n <= |segs| && n <= |other|
    ensures segs[..n] == other[..n]
  {
    if n > 0 {
      SamePrefix(segs, other, done, iteration, n - 1);
      var x, y := segs[n - 1], other[n - 1];
      assert StartsAt(segs, n - 1) && StartsAt(other, n - 1);
      assert FromDone(x, done, iteration) && FromDone(y, done, iteration);
      var i, p :| Longest(x, done, i, p, iteration);
      var j, q :| Longest(y, done, j, q, iteration);
      NotBlocked(x, done, i, p, iteration);
      NotBlocked(y, done, j, q, iteration);
      assert i == j;
      assert segs[..n] == segs[..n - 1] + [x] && other[..n] == other[..n - 1] + [y];
    }
  }

  lemma NotBlocked(x: Segment, done: seq<nat>, i: nat, position: nat, iteration: nat)
    requires Finished(x, done, i, position) && x.start + x.length <= iteration
    ensures !Blocked(done, i, x.start, iteration)
  {
    Integers.ExactQuotient(x.start, Length(i), position);
  }

  lemma NothingFollows(segs: seq<Segment>, other: seq<Segment>, done: seq<nat>, iteration: nat)
    requires Contiguous(other) && AllFromDone(other, done, iteration)
    requires |segs| < |other| && segs == other[..|segs|]
    ensures !BlockedFrom(done, 0, TotalLength(segs), iteration)
  {
    var x := other[|segs|];
    assert StartsAt(other, |segs|) && FromDone(x, done, iteration);
    var i, p :| Longest(x, done, i, p, iteration);
    NotBlocked(x, done, i, p, iteration);
  }
}
