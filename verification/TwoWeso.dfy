/** Checkpoint storage of the 2-weso prover (src/callback.h, src/provers.h, src/vdf.h): one array of
  * forms, a checkpoint every 10 iterations before the switch and every 100 after it. A form is
  * identified with the iteration it belongs to, so forms[slot] == p says that the slot holds x^(2^p). */
module TwoWeso {
  import opened Options
  import opened Integers

  const MAX_ITERS := 800_000_000
  const SWITCH_ITERS := 91_000_000
  const CAPACITY := SWITCH_ITERS / 10 + (MAX_ITERS - SWITCH_ITERS) / 100

  const U32 := 0x1_0000_0000

  // ---- the packed transition state ----

  /** EncodeTransitionState for values that fit their 32 bits; -1 is stored as 0. */
  function Encode(index: nat, iters: int): (s: nat)
    requires index < U32 && -1 <= iters < U32 - 1
    ensures DecodeIndex(s) == index && DecodeIters(s) == iters
  {
    (iters + 1) * U32 + index
  }

  function DecodeIndex(s: nat): nat { s % U32 }

  function DecodeIters(s: nat): int { s / U32 - 1 }

  // ---- positions ----

  function EffectiveKl(power: nat, switch: int): nat { if switch == -1 || power < switch then 10 else 100 }

  /** GetPositionFromSnapshot. */
  function Position(power: nat, switch: int, index: nat): nat {
    if switch == -1 || power < switch then power / 10 else (index as int + (power - switch) / 100) as nat
  }

  /** p is a checkpoint: what OnIteration stores. */
  predicate IsCheckpoint(p: nat, switch: int) { p % EffectiveKl(p, switch) == 0 }

  /** When the switch can happen, and how far the loop can go: see the loop below. */
  const LAST_SWITCH := SWITCH_ITERS + 42_866
  const LAST_ITERATION := MAX_ITERS - 500_000 + 42_866

  predicate Switched(switch: int, index: nat) {
    switch == -1 || (SWITCH_ITERS <= switch <= LAST_SWITCH && switch % 100 == 0 && index == switch / 10)
  }

  /** Every index stays below the capacity. */
  lemma PositionInBounds(p: nat, switch: int, index: nat)
    requires Switched(switch, index) && p <= LAST_ITERATION && (switch == -1 ==> p <= LAST_SWITCH)
    ensures Position(p, switch, index) < CAPACITY
  {}

  /** Distinct checkpoints have distinct slots. */
  lemma PositionInjective(p: nat, q: nat, switch: int, index: nat)
    requires Switched(switch, index) && IsCheckpoint(p, switch) && IsCheckpoint(q, switch)
    requires Position(p, switch, index) == Position(q, switch, index)
    ensures p == q
  {
    if switch == -1 || (p < switch && q < switch) {
      SameTens(p, q);
    } else if p >= switch && q >= switch {
      SameHundreds(p - switch, q - switch);
      HundredShift(p, switch);
      HundredShift(q, switch);
    } else if p < switch {
      AcrossSwitch(p, q, switch);
    } else {
      AcrossSwitch(q, p, switch);
    }
  }

  lemma SameTens(p: nat, q: nat)
    requires p % 10 == 0 && q % 10 == 0 && p / 10 == q / 10
    ensures p == q
  {}

  lemma SameHundreds(p: nat, q: nat)
    ensures p % 100 == 0 && q % 100 == 0 && p / 100 == q / 100 ==> p == q
  {}

  lemma HundredShift(p: nat, switch: int)
    requires p >= switch >= 0 && p % 100 == 0 && switch % 100 == 0
    ensures (p - switch) % 100 == 0
  {}

  lemma AcrossSwitch(p: nat, q: nat, switch: int)
    requires p < switch <= q && switch % 100 == 0 && p % 10 == 0
    ensures p / 10 < switch / 10 <= switch / 10 + (q - switch) / 100
  {}

  /** The switch moves no checkpoint stored before it. */
  lemma AtSwitch(p: nat, n: nat)
    requires p <= n && n % 100 == 0 && IsCheckpoint(p, n)
    ensures IsCheckpoint(p, -1) && Position(p, n, n / 10) == Position(p, -1, 0)
  {
    if p == n {
      ExactQuotient(n, 10, 10 * (n / 100));
    }
  }

  // ---- the callback ----

  class TwoWesolowskiCallback {
    var forms: array<nat>
    var transitionState: nat
    var kl: nat

    ghost predicate Consistent()
      reads this
    {
      && forms.Length == CAPACITY && Switched(DecodeIters(transitionState), DecodeIndex(transitionState))
      && kl == (if DecodeIters(transitionState) == -1 then 10 else 100)
    }

    function Switch(): int
      reads this
    {
      DecodeIters(transitionState)
    }

    /** After the first `now` iterations every checkpoint lies in its own slot. */
    ghost predicate Holds(now: nat)
      reads this, forms
    {
      && Consistent() && Switch() <= now <= LAST_ITERATION && (Switch() == -1 ==> now <= LAST_SWITCH)
      && forall p: nat :: p <= now && IsCheckpoint(p, Switch()) ==> InSlot(p)
    }

    ghost predicate InSlot(p: nat)
      reads this, forms
    {
      var pos := Position(p, DecodeIters(transitionState), DecodeIndex(transitionState));
      pos < forms.Length && forms[pos] == p
    }

    constructor ()
      ensures Holds(0) && Switch() == -1 && fresh(forms)
    {
      forms := new nat[CAPACITY];
      transitionState := Encode(0, -1);
      kl := 10;
      new;
      forms[0] := 0;
    }

    /** Called at the switch. */
    method IncreaseConstants(n: nat)
      requires Holds(n) && Switch() == -1 && n % 100 == 0 && SWITCH_ITERS <= n <= LAST_SWITCH
      modifies `transitionState, `kl
      ensures Holds(n) && Switch() == n
    {
      transitionState := Encode(n / 10, n);
      kl := 100;
      forall p: nat | p <= n && IsCheckpoint(p, n)
        ensures InSlot(p)
      {
        AtSwitch(p, n);
        assert old(InSlot(p));
      }
    }

    /** GetFormCopy; None where it throws. */
    method GetFormCopy(power: nat) returns (r: Option<nat>)
      requires Consistent()
      ensures var pos := Position(power, DecodeIters(transitionState), DecodeIndex(transitionState));
              r == if pos >= CAPACITY then None else Some(forms[pos])
    {
      var pos := Position(power, DecodeIters(transitionState), DecodeIndex(transitionState));
      if pos >= forms.Length {
        return None;
      }
      r := Some(forms[pos]);
    }

    /** OnIteration; the form is that of iteration + 1. It never throws within the bounds of the loop, and it
      * keeps every checkpoint, also when an iteration is reported again. */
    method OnIteration(iteration: nat, ghost now: nat) returns (thrown: bool)
      requires Holds(now) && iteration <= now && iteration + 1 <= LAST_ITERATION && (Switch() == -1 ==> iteration + 1 <= LAST_SWITCH)
      modifies forms
      ensures !thrown && Holds(if iteration == now then now + 1 else now)
    {
      var done := iteration + 1;
      if done % kl != 0 {
        return false;
      }
      var switch, index := DecodeIters(transitionState), DecodeIndex(transitionState);
      if done % EffectiveKl(done, switch) != 0 {
        return false;
      }
      var pos := Position(done, switch, index);
      PositionInBounds(done, switch, index);
      if pos >= forms.Length {
        return true;
      }
      forms[pos] := done;
      forall p: nat | p <= (if iteration == now then now + 1 else now) && IsCheckpoint(p, switch)
        ensures InSlot(p)
      {
        if p != done {
          assert old(InSlot(p));
          if Position(p, switch, index) == pos {
            PositionInjective(p, done, switch, index);
          }
        }
      }
      thrown := false;
    }
  }

  // ---- the squaring loop ----

  const CHECKPOINT_INTERVAL := 10_000
  const STORE_INTERVAL := 0x8000

  /** How a batch of the fast path ends: corrupt after some reported iterations, or with a count. */
  datatype Outcome = Corrupt(reported: nat) | Fast(count: nat)

  predicate Possible(o: Outcome) {
    match o
    case Corrupt(k) => k <= CHECKPOINT_INTERVAL
    case Fast(k) => k <= CHECKPOINT_INTERVAL
  }

  /** The listener calls for `count` iterations from base on. */
  method Report(cb: TwoWesolowskiCallback, base: nat, count: nat, ghost now: nat) returns (thrown: bool)
    requires cb.Holds(now) && base <= now && base + count <= LAST_ITERATION && (cb.Switch() == -1 ==> base + count <= LAST_SWITCH)
    modifies cb.forms
    ensures !thrown && cb.Holds(if base + count > now then base + count else now)
  {
    ghost var reached := now;
    thrown := false;
    for i := 0 to count
      invariant !thrown && cb.Holds(reached)
      invariant reached == if base + i > now then base + i else now
    {
      thrown := cb.OnIteration(base + i, reached);
      if base + i == reached {
        reached := reached + 1;
      }
    }
  }

  /** One batch: the fast path, and where it gave up the slow one. */
  method Batch(cb: TwoWesolowskiCallback, n: nat, o: Outcome) returns (n': nat, thrown: bool)
    requires cb.Holds(n) && Possible(o) && n + CHECKPOINT_INTERVAL <= LAST_ITERATION
    requires cb.Switch() == -1 ==> n + CHECKPOINT_INTERVAL <= LAST_SWITCH
    modifies cb.forms
    ensures !thrown && cb.Holds(n') && n < n' <= n + CHECKPOINT_INTERVAL
  {
    match o
    case Corrupt(reported) =>
      thrown := Report(cb, n, reported, n);
      ghost var now := n + reported;
      thrown := Report(cb, n, CHECKPOINT_INTERVAL, now);
      n' := n + CHECKPOINT_INTERVAL;
    case Fast(count) =>
      thrown := Report(cb, n, count, n);
      n' := n + count;
      if count < CHECKPOINT_INTERVAL {
        thrown := Report(cb, n', 1, n');
        n' := n' + 1;
      }
  }

  /** The 2-weso part of repeated_square: for any outcomes of the batches, no listener call is out of bounds,
    * and at every point every checkpoint passed so far is in its slot. */
  method RepeatedSquare(cb: TwoWesolowskiCallback, wanted: nat, plan: seq<Outcome>) returns (n: nat, thrown: bool)
    requires cb.Holds(0) && cb.Switch() == -1 && forall o :: o in plan ==> Possible(o)
    modifies cb, cb.forms
    ensures !thrown && cb.Holds(n)
    ensures cb.forms == old(cb.forms)
  {
    n, thrown := 0, false;
    var lastCheckpoint := 0;
    var batch := 0;
    while batch < |plan|
      invariant !thrown && cb.Holds(n) && cb.forms == old(cb.forms)
      invariant n < lastCheckpoint || n == lastCheckpoint == 0
      invariant lastCheckpoint < MAX_ITERS - 500_000 + STORE_INTERVAL
      invariant cb.Switch() == -1 ==> lastCheckpoint < SWITCH_ITERS + STORE_INTERVAL
      decreases |plan| - batch
    {
      n, thrown := Batch(cb, n, plan[batch]);
      batch := batch + 1;
      if n >= lastCheckpoint {
        if n >= SWITCH_ITERS && cb.Switch() == -1 {
          var roundUp := (100 - n % 100) % 100;
          if roundUp > 0 {
            thrown := Report(cb, n, roundUp, n);
          }
          RoundsUp(n);
          n := n + roundUp;
          cb.IncreaseConstants(n);
        }
        if n >= MAX_ITERS - 500_000 {
          return;
        }
        lastCheckpoint := lastCheckpoint + STORE_INTERVAL;
      }
      if wanted != 0 && n > wanted {
        return;
      }
    }
  }

  lemma RoundsUp(n: nat)
    ensures var r := (100 - n % 100) % 100; r < 100 && (n + r) % 100 == 0
  {}

  // ---- what the provers read ----

  /** One of the three segments of ProveTwoWeso. */
  datatype Segment = Segment(start: nat, length: nat)

  function FirstPart(iters: nat): nat { iters * 2 / 3 - iters * 2 / 3 % 100 }

  function Segments(iters: nat): (Segment, Segment, Segment) {
    var a := FirstPart(iters);
    var b := FirstPart(iters - a);
    (Segment(0, a), Segment(a, b), Segment(a + b, iters - a - b))
  }

  /** k * l of TwoWesolowskiProver. */
  function Stride(s: Segment): nat { 10 * (if s.length < 10_000_000 then 1 else 10) }

  /** Segments start at multiples of 100, end within iters, and those reaching past the switch are so long
    * that their stride is 100. */
  lemma SegmentShape(iters: nat)
    ensures var (s0, s1, s2) := Segments(iters);
      && GoodSegment(s0, iters) && GoodSegment(s1, iters) && GoodSegment(s2, iters)
      && s1.start == s0.start + s0.length && s2.start == s1.start + s1.length && s2.start + s2.length == iters
  {
    var a := FirstPart(iters);
    PartShape(iters);
    PartShape(iters - a);
    SumOfHundreds(a, FirstPart(iters - a));
    LongSegments(iters, a, FirstPart(iters - a));
  }

  lemma SumOfHundreds(a: nat, b: nat)
    requires a % 100 == 0 && b % 100 == 0
    ensures (a + b) % 100 == 0
  {}

  lemma LongSegments(iters: nat, a: nat, b: nat)
    requires 3 * a <= 2 * iters < 3 * a + 303 && 3 * b <= 2 * (iters - a) < 3 * b + 303
    ensures a + b <= iters
    ensures iters > SWITCH_ITERS ==> a >= 10_000_000 && b >= 10_000_000 && iters - a - b >= 10_000_000
  {}

  predicate GoodSegment(s: Segment, iters: nat) {
    s.start % 100 == 0 && s.start + s.length <= iters && (iters > SWITCH_ITERS ==> Stride(s) == 100)
  }

  lemma PartShape(iters: nat)
    ensures var a := FirstPart(iters); a % 100 == 0 && 3 * a <= 2 * iters && 3 * a + 303 > 2 * iters
  {
    var x := iters * 2 / 3;
    assert (x - x % 100) % 100 == 0 by { HundredsLeft(x); }
  }

  lemma HundredsLeft(x: nat)
    ensures (x - x % 100) % 100 == 0
  {}

  /** Every power a prover asks for, once the loop has passed the end of its segment, is a checkpoint. */
  lemma ReadIsCheckpoint(iters: nat, s: Segment, i: nat, now: nat, switch: int)
    requires GoodSegment(s, iters) && s.start + s.length <= now
    requires switch == -1 || SWITCH_ITERS <= switch
    requires i * Stride(s) < s.length && (switch != -1 && iters <= SWITCH_ITERS ==> s.start + s.length <= switch)
    ensures var p := s.start + i * Stride(s); p <= now && IsCheckpoint(p, switch)
  {
    var p := s.start + i * Stride(s);
    if Stride(s) == 100 {
      Multiple(s.start, i);
    } else {
      MultipleOfTen(s.start, i);
    }
  }

  lemma Multiple(x: nat, i: nat)
    requires x % 100 == 0
    ensures (x + i * 100) % 100 == 0 && (x + i * 100) % 10 == 0
  {
    var q := x / 100;
    ExactQuotient(x + i * 100, 100, q + i);
    ExactQuotient(x + i * 100, 10, 10 * (q + i));
  }

  lemma MultipleOfTen(x: nat, i: nat)
    requires x % 100 == 0
    ensures (x + i * 10) % 10 == 0
  {
    var q := x / 100;
    ExactQuotient(x + i * 10, 10, 10 * q + i);
  }

  function SegmentOf(iters: nat, which: nat): Segment {
    if which == 0 then Segments(iters).0 else if which == 1 then Segments(iters).1 else Segments(iters).2
  }

  lemma SegmentIsGood(iters: nat, which: nat)
    ensures GoodSegment(SegmentOf(iters, which), iters)
  {
    SegmentShape(iters);
  }

  /** The loop has passed the end of a segment, as the prover of the segment waits for; it may still be
    * running, before or after the switch. */
  predicate Passed(iters: nat, which: nat, now: nat) {
    SegmentOf(iters, which).start + SegmentOf(iters, which).length <= now
  }

  /** TwoWesolowskiProver::GetForm: reads exactly the form of the power it computes, as soon as the loop has
    * passed the segment. */
  method GetForm(cb: TwoWesolowskiCallback, iters: nat, which: nat, i: nat, ghost now: nat) returns (r: Option<nat>)
    requires cb.Holds(now) && Passed(iters, which, now) && i * Stride(SegmentOf(iters, which)) < SegmentOf(iters, which).length
    ensures r == Some(SegmentOf(iters, which).start + i * Stride(SegmentOf(iters, which)))
  {
    var s := SegmentOf(iters, which);
    var p := s.start + i * Stride(s);
    SegmentIsGood(iters, which);
    ReadIsCheckpoint(iters, s, i, now, cb.Switch());
    assert cb.InSlot(p);
    r := cb.GetFormCopy(p);
  }

  /** The end points y of the nested segments, and the checkpoint below the end of the last one. */
  method GetEnd(cb: TwoWesolowskiCallback, iters: nat, which: nat, ghost now: nat) returns (power: nat, r: Option<nat>)
    requires cb.Holds(now) && Passed(iters, which, now) && which < 3
    ensures r == Some(power)
    ensures which < 2 ==> power == SegmentOf(iters, which + 1).start
    ensures which == 2 ==> power <= iters < power + 100
  {
    SegmentIsGood(iters, which + 1);
    power := if which < 2 then SegmentOf(iters, which + 1).start else iters - iters % 100;
    HundredsLeft(iters);
    EndIsCheckpoint(power, cb.Switch());
    EndPassed(iters, which, power, now);
    assert cb.InSlot(power);
    r := cb.GetFormCopy(power);
  }

  lemma EndPassed(iters: nat, which: nat, power: nat, now: nat)
    requires Passed(iters, which, now) && which < 3
    requires power == if which < 2 then SegmentOf(iters, which + 1).start else iters - iters % 100
    ensures power <= now
  {
    SegmentShape(iters);
  }

  lemma EndIsCheckpoint(power: nat, switch: int)
    requires power % 100 == 0
    ensures IsCheckpoint(power, switch)
  {
    TensOfHundreds(power);
  }

  lemma TensOfHundreds(p: nat)
    requires p % 100 == 0
    ensures p % 10 == 0
  {
    ExactQuotient(p, 10, 10 * (p / 100));
  }
}
