/** The phased squaring pipeline on two threads (src/vdf_fast.h, src/threading.h): what each thread
  * advances, waits for, reads and writes, for any number of iterations and any number of gcd entries. */
module TwoThread {
  import opened Interleaving

  const NUM_COUNTER := 41
  const PHASE_1 := NUM_COUNTER + 1
  const PHASE_2 := PHASE_1 + NUM_COUNTER + 1
  const PHASE_3 := PHASE_2 + 1
  const PHASE_4 := PHASE_3 + 1
  const COUNTER_END := PHASE_4 + 1

  /** Room for the keys of one iteration and of one phase of one thread. */
  const ITER_KEYS := 1000
  const PHASE_KEYS := 70

  /** One iteration: its number and the last entry index of its two gcds. */
  datatype Iter = Iter(n: nat, m0: nat, m1: nat) {
    predicate Valid() { m0 < NUM_COUNTER && m1 < NUM_COUNTER }

    /** counter_start. */
    function C(): nat { COUNTER_END * n }

    function K(place: nat): nat { ITER_KEYS * n + PHASE_KEYS * place }

    /** ab_index and the other slot. */
    function Cur(): nat { n % 2 }

    function Other(): nat { 1 - n % 2 }
  }

  function Entry(first: bool, j: nat): Loc { if first then Entry10(j) else EntryST(j) }

  // ---- the shapes the phases are made of ----

  /** The start of a phase: advance, wait, compute. */
  function Enter(own: nat, before: nat, seen: nat, op: Op): seq<Instr> { [Advance(own, before), Fence(own, seen), Do(own, seen, op)] }

  function Wait(own: nat, seen: nat, op: Op): seq<Instr> { [Fence(own, seen), Do(own, seen, op)] }

  function Just(own: nat, seen: nat, op: Op): seq<Instr> { [Do(own, seen, op)] }

  function Finish(own: nat, seen: nat, op: Op, next: nat): seq<Instr> { [Do(own, seen, op), Advance(next, seen)] }

  /** gcd_unsigned writes entry j, then sets the counter to base + j. */
  function Publish(base: nat, seen: nat, key: nat, n: nat, first: bool): seq<Instr> {
    if n == 0 then [] else
      var j: nat := n - 1;
      var g := if first then Gcd10 else GcdST;
      Publish(base, seen, key, j, first)
        + Finish(if j == 0 then base else base + j - 1, seen, Op(key + j, [g], [g, Entry(first, j)]), base + j)
  }

  /** get_entry waits for base + j + 1; then entry j is applied to x. Entry 0 has only its exit flag. */
  function Receive(own: nat, base: nat, key: nat, n: nat, first: bool, x: Loc): seq<Instr> {
    if n == 0 then [] else
      var j: nat := n - 1;
      Receive(own, base, key, j, first, x)
        + Wait(own, base + j + 1, Op(key + j, [Entry(first, j), x], if j == 0 then [] else [x]))
  }

  // ---- the phases ----

  function Phase0Master(t: Iter, seen: nat): seq<Instr> {
    var c, k := t.C(), t.K(0);
    Enter(c, seen, c, Op(k, [AbIndex, ASlot(t.Cur()), BSlot(t.Cur()), Higher], [Gcd10]))
      + Publish(c, c, k + 1, t.m0 + 1, true)
      + Finish(c + t.m0, c, Op(k + t.m0 + 2, [Gcd10], [Gcd10]), c + NUM_COUNTER)
  }

  function Phase0Slave(t: Iter, seen: nat): seq<Instr> {
    var c, k := t.C(), t.K(1);
    Enter(c, seen, c, Op(k, [AbIndex, ASlot(t.Cur()), BSlot(t.Cur())], [Validation, Loc.C]))
      + Just(c, c, Op(k + 1, [AbIndex, BSlot(t.Cur()), Higher], [Cofactors]))
      + Receive(c, c, k + 2, t.m0 + 1, true, Cofactors)
      + Just(c, c + t.m0 + 1, Op(k + t.m0 + 3, [Cofactors, Loc.C, AbIndex, ASlot(t.Cur())], [Cofactors, KIndex]))
  }

  /** It waits only for counter_start_phase_0, which it has seen. */
  function Phase1Slave(t: Iter): seq<Instr> {
    var c, k, s := t.C() + PHASE_1, t.K(2), t.C() + t.m0 + 1;
    Enter(c, s, s, Op(k, [AbIndex, ASlot(t.Cur()), Cofactors, KIndex], [GcdST]))
      + Publish(c, s, k + 1, t.m1 + 1, false)
      + Finish(c + t.m1, s, Op(k + t.m1 + 2, [GcdST], [GcdST]), c + NUM_COUNTER)
  }

  function Phase1Master(t: Iter): seq<Instr> {
    var c, k := t.C() + PHASE_1, t.K(3);
    Enter(c, t.C(), c, Op(k, [], [V01]))
      + Receive(c, c, k + 1, t.m1 + 1, false, V01)
      + Just(c, c + t.m1 + 1, Op(k + t.m1 + 2, [V01], [V01]))
  }

  /** The first fence, for counter_start_phase_1, is behind what has been seen. */
  function Phase2Master(t: Iter): seq<Instr> {
    var c, k, s := t.C() + PHASE_2, t.K(4), t.C() + PHASE_1 + t.m1 + 1;
    Enter(c, s, s, Op(k, [Loc.C, V01], [CV1]))
      + Wait(c, c, Op(k + 1, [AbIndex, ASlot(t.Cur()), BSlot(t.Cur()), GcdST, CV1, V01], [BT, H]))
  }

  function Phase2Slave(t: Iter): seq<Instr> {
    var c, k, s := t.C() + PHASE_2, t.K(5), t.C() + PHASE_1;
    Enter(c, t.C() + t.m0 + 1, s, Op(k, [GcdST], [TTS])) + Wait(c, c, Op(k + 1, [V01, TTS], [TTS, V02]))
  }

  function Phase3Master(t: Iter): seq<Instr> {
    var c := t.C() + PHASE_3;
    Enter(c, t.C() + PHASE_2, c, Op(t.K(6), [AbIndex, H, TTS], [ASlot(t.Other()), A2]))
  }

  /** It waits only for counter_start_phase_2. */
  function Phase3Slave(t: Iter): seq<Instr> {
    var c, s := t.C() + PHASE_3, t.C() + PHASE_2;
    Enter(c, s, s, Op(t.K(7), [AbIndex, ASlot(t.Cur()), BSlot(t.Cur()), GcdST, V01], [STV0, E]))
  }

  /** Phase 4, and then the listener, which reads the new slots and recomputes c in place. */
  function Phase4Master(t: Iter): seq<Instr> {
    var c, k, s := t.C() + PHASE_4, t.K(8), t.C() + PHASE_3;
    Enter(c, s, s, Op(k, [Gcd10, V02, H], [V02H]))
      + Wait(c, c, Op(k + 1, [AbIndex, E, V02H, A2, ASlot(t.Other())], [F, BSlot(t.Other()), ASlot(t.Other()), Higher]))
      + Just(c, c, Op(k + 2, [AbIndex, NumValid], [AbIndex, NumValid]))
      + Just(c, c, Op(k + 3, [AbIndex, ASlot(t.Other()), BSlot(t.Other())], [Validation, Loc.C]))
  }

  function Phase4Slave(t: Iter): seq<Instr> { [Advance(t.C() + PHASE_4, t.C() + PHASE_2)] }

  /** What has been waited for when an iteration begins. */
  function SeenBefore(n: nat, phase: nat): nat { if n == 0 then 0 else COUNTER_END * (n - 1) + phase }

  function MasterIter(t: Iter): seq<Instr> {
    Phase0Master(t, SeenBefore(t.n, PHASE_4)) + Phase1Master(t) + Phase2Master(t) + Phase3Master(t) + Phase4Master(t)
  }

  function SlaveIter(t: Iter): seq<Instr> {
    Phase0Slave(t, SeenBefore(t.n, PHASE_2)) + Phase1Slave(t) + Phase2Slave(t) + Phase3Slave(t) + Phase4Slave(t)
  }

  /** repeated_square_fast_work on each thread; counts gives the last entry indices of every iteration. */
  function Master(counts: seq<(nat, nat)>): seq<Instr>
  {
    if counts == [] then [] else
      var n: nat := |counts| - 1;
      Master(counts[..n]) + MasterIter(Iter(n, counts[n].0, counts[n].1))
  }

  function Slave(counts: seq<(nat, nat)>): seq<Instr>
  {
    if counts == [] then [] else
      var n: nat := |counts| - 1;
      Slave(counts[..n]) + SlaveIter(Iter(n, counts[n].0, counts[n].1))
  }

  function AllOps(s: seq<Instr>): seq<Op> { Ops(s, |s|) }

  /** One iteration of repeated_square_fast_single_thread: the thread that runs the gcd goes first. */
  function SingleIter(t: Iter): seq<Op> {
    AllOps(Phase0Master(t, SeenBefore(t.n, PHASE_4))) + AllOps(Phase0Slave(t, SeenBefore(t.n, PHASE_2)))
      + AllOps(Phase1Slave(t)) + AllOps(Phase1Master(t))
      + AllOps(Phase2Master(t)) + AllOps(Phase2Slave(t))
      + AllOps(Phase3Master(t)) + AllOps(Phase3Slave(t))
      + AllOps(Phase4Master(t)) + AllOps(Phase4Slave(t))
  }

  function SingleThread(counts: seq<(nat, nat)>): seq<Op>
  {
    if counts == [] then [] else
      var n: nat := |counts| - 1;
      SingleThread(counts[..n]) + SingleIter(Iter(n, counts[n].0, counts[n].1))
  }

  // ---- programs in pieces ----

  /** s continues a program whose counters are own and seen and ends with own1 and seen1; its operations
    * have ascending keys from k0 to below k1. */
  ghost predicate Piece(s: seq<Instr>, own: nat, seen: nat, own1: nat, seen1: nat, k0: nat, k1: nat) {
    && |s| > 0 && s[|s| - 1].own == own1 && s[|s| - 1].seen == seen1
    && Follows(own, seen, s[0]) && (forall i: nat :: 0 < i < |s| ==> LinkedAt(s, i))
    && Range(AllOps(s), k0, k1)
  }

  ghost predicate Range(h: seq<Op>, k0: nat, k1: nat) { Ascending(h) && forall x :: x in h ==> k0 <= x.key < k1 }

  ghost predicate LinkedAt(s: seq<Instr>, i: nat) { 0 < i < |s| && Follows(s[i - 1].own, s[i - 1].seen, s[i]) }

  lemma {:induction false} OpsConcat(a: seq<Instr>, b: seq<Instr>, n: nat)
    requires n <= |b|
    ensures Ops(a + b, |a| + n) == AllOps(a) + Ops(b, n)
    decreases n
  {
    if n == 0 {
      OpsOfPrefix(a, b, |a|);
    } else {
      OpsConcat(a, b, n - 1);
    }
  }

  lemma {:induction false} OpsOfPrefix(a: seq<Instr>, b: seq<Instr>, n: nat)
    requires n <= |a|
    ensures Ops(a + b, n) == Ops(a, n)
    decreases n
  {
    if n > 0 {
      OpsOfPrefix(a, b, n - 1);
    }
  }

  lemma AllOpsConcat(a: seq<Instr>, b: seq<Instr>)
    ensures AllOps(a + b) == AllOps(a) + AllOps(b)
  {
    OpsConcat(a, b, |b|);
  }

  lemma RangeConcat(h: seq<Op>, q: seq<Op>, k0: nat, k: nat, k1: nat)
    requires Range(h, k0, k) && Range(q, k, k1) && k0 <= k <= k1
    ensures Range(h + q, k0, k1)
  {
    var r := h + q;
    forall i, j | 0 <= i < j < |r|
      ensures r[i].key < r[j].key
    {
      if i < |h| {
        assert r[i] in h;
      }
      if j >= |h| {
        assert r[j] in q;
      }
    }
  }

  lemma Join(a: seq<Instr>, b: seq<Instr>, o0: nat, s0: nat, o1: nat, s1: nat, o2: nat, s2: nat, k0: nat, k1: nat, k2: nat)
    requires Piece(a, o0, s0, o1, s1, k0, k1) && Piece(b, o1, s1, o2, s2, k1, k2) && k0 <= k1 <= k2
    ensures Piece(a + b, o0, s0, o2, s2, k0, k2)
  {
    AllOpsConcat(a, b);
    RangeConcat(AllOps(a), AllOps(b), k0, k1, k2);
    var s := a + b;
    forall i: nat | 0 < i < |s|
      ensures LinkedAt(s, i)
    {
      if i < |a| {
        assert LinkedAt(a, i);
      } else if i > |a| {
        assert LinkedAt(b, i - |a|);
      }
    }
  }

  lemma EnterPiece(o: nat, own: nat, before: nat, seen: nat, op: Op, k0: nat, k1: nat)
    requires o <= own && before <= seen && k0 <= op.key < k1
    ensures Piece(Enter(own, before, seen, op), o, before, own, seen, k0, k1)
  {
    var s := Enter(own, before, seen, op);
    assert !s[0].Do? && !s[1].Do? && s[2] == Do(own, seen, op);
    assert Ops(s, 1) == [];
    assert Ops(s, 2) == [];
    assert Ops(s, 3) == [op];
    assert LinkedAt(s, 1) && LinkedAt(s, 2);
  }

  lemma WaitPiece(own: nat, before: nat, seen: nat, op: Op, k0: nat, k1: nat)
    requires before <= seen && k0 <= op.key < k1
    ensures Piece(Wait(own, seen, op), own, before, own, seen, k0, k1)
  {
    var s := Wait(own, seen, op);
    assert !s[0].Do? && s[1] == Do(own, seen, op);
    assert Ops(s, 1) == [];
    assert Ops(s, 2) == [op];
    assert LinkedAt(s, 1);
  }

  lemma JustPiece(own: nat, seen: nat, op: Op, k0: nat, k1: nat)
    requires k0 <= op.key < k1
    ensures Piece(Just(own, seen, op), own, seen, own, seen, k0, k1)
  {
    var s := Just(own, seen, op);
    assert Ops(s, 1) == [op];
  }

  lemma FinishPiece(own: nat, seen: nat, op: Op, next: nat, k0: nat, k1: nat)
    requires own <= next && k0 <= op.key < k1
    ensures Piece(Finish(own, seen, op, next), own, seen, next, seen, k0, k1)
  {
    var s := Finish(own, seen, op, next);
    assert s[0] == Do(own, seen, op) && !s[1].Do?;
    assert Ops(s, 1) == [op];
    assert Ops(s, 2) == [op];
    assert LinkedAt(s, 1);
  }

  lemma {:induction false} PublishPiece(base: nat, seen: nat, key: nat, n: nat, first: bool)
    requires n > 0
    ensures Piece(Publish(base, seen, key, n, first), base, seen, base + n - 1, seen, key, key + n)
    decreases n
  {
    var j: nat := n - 1;
    var g := if first then Gcd10 else GcdST;
    var own := if j == 0 then base else base + j - 1;
    var op := Op(key + j, [g], [g, Entry(first, j)]);
    FinishPiece(own, seen, op, base + j, key + j, key + n);
    if j == 0 {
      assert Publish(base, seen, key, n, first) == Finish(own, seen, op, base + j);
    } else {
      PublishPiece(base, seen, key, j, first);
      Join(Publish(base, seen, key, j, first), Finish(own, seen, op, base + j), base, seen, own, seen, base + j, seen, key, key + j, key + n);
    }
  }

  lemma {:induction false} ReceivePiece(own: nat, base: nat, key: nat, n: nat, first: bool, x: Loc, before: nat)
    requires n > 0 && before <= base + 1
    ensures Piece(Receive(own, base, key, n, first, x), own, before, own, base + n, key, key + n)
    decreases n
  {
    var j: nat := n - 1;
    var op := Op(key + j, [Entry(first, j), x], if j == 0 then [] else [x]);
    if j == 0 {
      WaitPiece(own, before, base + 1, op, key, key + n);
      assert Receive(own, base, key, n, first, x) == Wait(own, base + 1, op);
    } else {
      WaitPiece(own, base + j, base + n, op, key + j, key + n);
      ReceivePiece(own, base, key, j, first, x, before);
      Join(Receive(own, base, key, j, first, x), Wait(own, base + n, op), own, before, own, base + j, own, base + n, key, key + j, key + n);
    }
  }

  lemma Phase0MasterPiece(t: Iter, o: nat, seen: nat)
    requires t.Valid() && o <= t.C() && seen <= t.C()
    ensures Piece(Phase0Master(t, seen), o, seen, t.C() + NUM_COUNTER, t.C(), t.K(0), t.K(1))
  {
    var c, k, m := t.C(), t.K(0), t.m0;
    var p0 := Enter(c, seen, c, Op(k, [AbIndex, ASlot(t.Cur()), BSlot(t.Cur()), Higher], [Gcd10]));
    var p1 := Publish(c, c, k + 1, m + 1, true);
    var p2 := Finish(c + m, c, Op(k + m + 2, [Gcd10], [Gcd10]), c + NUM_COUNTER);
    EnterPiece(o, c, seen, c, p0[2].op, k, k + 1);
    PublishPiece(c, c, k + 1, m + 1, true);
    FinishPiece(c + m, c, p2[0].op, c + NUM_COUNTER, k + m + 2, t.K(1));
    Join(p0, p1, o, seen, c, c, c + m, c, k, k + 1, k + m + 2);
    Join(p0 + p1, p2, o, seen, c + m, c, c + NUM_COUNTER, c, k, k + m + 2, t.K(1));
  }

  /** Three pieces, the last two made by one thread waiting and computing. */
  lemma JoinThree(p0: seq<Instr>, p1: seq<Instr>, p2: seq<Instr>, o0: nat, s0: nat, o1: nat, s1: nat, o2: nat, s2: nat, o3: nat, s3: nat,
                  k0: nat, k1: nat, k2: nat, k3: nat)
    requires Piece(p0, o0, s0, o1, s1, k0, k1) && Piece(p1, o1, s1, o2, s2, k1, k2) && Piece(p2, o2, s2, o3, s3, k2, k3)
    requires k0 <= k1 <= k2 <= k3
    ensures Piece(p0 + p1 + p2, o0, s0, o3, s3, k0, k3)
  {
    Join(p0, p1, o0, s0, o1, s1, o2, s2, k0, k1, k2);
    Join(p0 + p1, p2, o0, s0, o2, s2, o3, s3, k0, k2, k3);
  }

  lemma Phase0SlavePiece(t: Iter, o: nat, seen: nat)
    requires t.Valid() && o <= t.C() && seen <= t.C()
    ensures Piece(Phase0Slave(t, seen), o, seen, t.C(), t.C() + t.m0 + 1, t.K(1), t.K(2))
  {
    var cur, k, m := t.Cur(), t.K(1), t.m0;
    SlaveStart(Op(k, [AbIndex, ASlot(cur), BSlot(cur)], [Validation, Loc.C]), Op(k + 1, [AbIndex, BSlot(cur), Higher], [Cofactors]),
               Op(k + m + 3, [Cofactors, Loc.C, AbIndex, ASlot(cur)], [Cofactors, KIndex]), o, seen, t.C(), k, m, t.K(2));
  }

  lemma SlaveStart(op0: Op, op1: Op, op3: Op, o: nat, seen: nat, c: nat, k: nat, m: nat, end: nat)
    requires op0.key == k && op1.key == k + 1 && op3.key == k + m + 3 < end && o <= c && seen <= c
    ensures Piece(Enter(c, seen, c, op0) + Just(c, c, op1) + Receive(c, c, k + 2, m + 1, true, Cofactors) + Just(c, c + m + 1, op3),
                  o, seen, c, c + m + 1, k, end)
  {
    EnterPiece(o, c, seen, c, op0, k, k + 1);
    JustPiece(c, c, op1, k + 1, k + 2);
    ReceivePiece(c, c, k + 2, m + 1, true, Cofactors, c);
    JustPiece(c, c + m + 1, op3, k + m + 3, end);
    SlaveStartJoined(Enter(c, seen, c, op0), Just(c, c, op1), Receive(c, c, k + 2, m + 1, true, Cofactors), Just(c, c + m + 1, op3), o, seen, c, k, m, end);
  }

  lemma SlaveStartJoined(p0: seq<Instr>, p1: seq<Instr>, p2: seq<Instr>, p3: seq<Instr>, o: nat, seen: nat, c: nat, k: nat, m: nat, end: nat)
    requires Piece(p0, o, seen, c, c, k, k + 1) && Piece(p1, c, c, c, c, k + 1, k + 2)
    requires Piece(p2, c, c, c, c + (m + 1), k + 2, k + 2 + (m + 1)) && Piece(p3, c, c + m + 1, c, c + m + 1, k + m + 3, end)
    requires k + m + 3 <= end
    ensures Piece(p0 + p1 + p2 + p3, o, seen, c, c + m + 1, k, end)
  {
    JoinThree(p0, p1, p2, o, seen, c, c, c, c, c, c + m + 1, k, k + 1, k + 2, k + m + 3);
    Join(p0 + p1 + p2, p3, o, seen, c, c + m + 1, c, c + m + 1, k, k + m + 3, end);
  }

  lemma Phase1SlavePiece(t: Iter)
    requires t.Valid()
    ensures Piece(Phase1Slave(t), t.C(), t.C() + t.m0 + 1, t.C() + PHASE_1 + NUM_COUNTER, t.C() + t.m0 + 1, t.K(2), t.K(3))
  {
    var c, k, s, m := t.C() + PHASE_1, t.K(2), t.C() + t.m0 + 1, t.m1;
    var p0 := Enter(c, s, s, Op(k, [AbIndex, ASlot(t.Cur()), Cofactors, KIndex], [GcdST]));
    var p1 := Publish(c, s, k + 1, m + 1, false);
    var p2 := Finish(c + m, s, Op(k + m + 2, [GcdST], [GcdST]), c + NUM_COUNTER);
    EnterPiece(t.C(), c, s, s, p0[2].op, k, k + 1);
    PublishPiece(c, s, k + 1, m + 1, false);
    FinishPiece(c + m, s, p2[0].op, c + NUM_COUNTER, k + m + 2, t.K(3));
    Join(p0, p1, t.C(), s, c, s, c + m, s, k, k + 1, k + m + 2);
    Join(p0 + p1, p2, t.C(), s, c + m, s, c + NUM_COUNTER, s, k, k + m + 2, t.K(3));
  }

  lemma Phase1MasterPiece(t: Iter)
    requires t.Valid()
    ensures Piece(Phase1Master(t), t.C() + NUM_COUNTER, t.C(), t.C() + PHASE_1, t.C() + PHASE_1 + t.m1 + 1, t.K(3), t.K(4))
  {
    var c, k, m := t.C() + PHASE_1, t.K(3), t.m1;
    var op0, op2 := Op(k, [], [V01]), Op(k + m + 2, [V01], [V01]);
    EnterPiece(t.C() + NUM_COUNTER, c, t.C(), c, op0, k, k + 1);
    ReceivePiece(c, c, k + 1, m + 1, false, V01, c);
    JustPiece(c, c + m + 1, op2, k + m + 2, t.K(4));
    MasterCofactors(Enter(c, t.C(), c, op0), Receive(c, c, k + 1, m + 1, false, V01), Just(c, c + m + 1, op2), t.C() + NUM_COUNTER, t.C(), c, k, m, t.K(4));
  }

  lemma MasterCofactors(p0: seq<Instr>, p1: seq<Instr>, p2: seq<Instr>, o: nat, seen: nat, c: nat, k: nat, m: nat, end: nat)
    requires Piece(p0, o, seen, c, c, k, k + 1) && Piece(p1, c, c, c, c + (m + 1), k + 1, k + 1 + (m + 1))
    requires Piece(p2, c, c + m + 1, c, c + m + 1, k + m + 2, end) && k + m + 2 <= end
    ensures Piece(p0 + p1 + p2, o, seen, c, c + m + 1, k, end)
  {
    JoinThree(p0, p1, p2, o, seen, c, c, c, c + m + 1, c, c + m + 1, k, k + 1, k + m + 2, end);
  }

  lemma Phase2MasterPiece(t: Iter)
    requires t.Valid()
    ensures Piece(Phase2Master(t), t.C() + PHASE_1, t.C() + PHASE_1 + t.m1 + 1, t.C() + PHASE_2, t.C() + PHASE_2, t.K(4), t.K(5))
  {
    var c, k, s := t.C() + PHASE_2, t.K(4), t.C() + PHASE_1 + t.m1 + 1;
    var p0 := Enter(c, s, s, Op(k, [Loc.C, V01], [CV1]));
    var p1 := Wait(c, c, Op(k + 1, [AbIndex, ASlot(t.Cur()), BSlot(t.Cur()), GcdST, CV1, V01], [BT, H]));
    EnterPiece(t.C() + PHASE_1, c, s, s, p0[2].op, k, k + 1);
    WaitPiece(c, s, c, p1[1].op, k + 1, t.K(5));
    Join(p0, p1, t.C() + PHASE_1, s, c, s, c, c, k, k + 1, t.K(5));
  }

  lemma Phase2SlavePiece(t: Iter)
    requires t.Valid()
    ensures Piece(Phase2Slave(t), t.C() + PHASE_1 + NUM_COUNTER, t.C() + t.m0 + 1, t.C() + PHASE_2, t.C() + PHASE_2, t.K(5), t.K(6))
  {
    var c, k, s := t.C() + PHASE_2, t.K(5), t.C() + PHASE_1;
    var p0 := Enter(c, t.C() + t.m0 + 1, s, Op(k, [GcdST], [TTS]));
    var p1 := Wait(c, c, Op(k + 1, [V01, TTS], [TTS, V02]));
    EnterPiece(t.C() + PHASE_1 + NUM_COUNTER, c, t.C() + t.m0 + 1, s, p0[2].op, k, k + 1);
    WaitPiece(c, s, c, p1[1].op, k + 1, t.K(6));
    Join(p0, p1, t.C() + PHASE_1 + NUM_COUNTER, t.C() + t.m0 + 1, c, s, c, c, k, k + 1, t.K(6));
  }

  lemma Phase3Pieces(t: Iter)
    ensures Piece(Phase3Master(t), t.C() + PHASE_2, t.C() + PHASE_2, t.C() + PHASE_3, t.C() + PHASE_3, t.K(6), t.K(7))
    ensures Piece(Phase3Slave(t), t.C() + PHASE_2, t.C() + PHASE_2, t.C() + PHASE_3, t.C() + PHASE_2, t.K(7), t.K(8))
  {
    var c := t.C() + PHASE_3;
    EnterPiece(t.C() + PHASE_2, c, t.C() + PHASE_2, c, Phase3Master(t)[2].op, t.K(6), t.K(7));
    EnterPiece(t.C() + PHASE_2, c, t.C() + PHASE_2, t.C() + PHASE_2, Phase3Slave(t)[2].op, t.K(7), t.K(8));
  }

  lemma Phase4Pieces(t: Iter)
    ensures Piece(Phase4Master(t), t.C() + PHASE_3, t.C() + PHASE_3, t.C() + PHASE_4, t.C() + PHASE_4, t.K(8), t.K(9))
    ensures Piece(Phase4Slave(t), t.C() + PHASE_3, t.C() + PHASE_2, t.C() + PHASE_4, t.C() + PHASE_2, t.K(9), t.K(10))
  {
    var c, k, s := t.C() + PHASE_4, t.K(8), t.C() + PHASE_3;
    var p0 := Enter(c, s, s, Op(k, [Gcd10, V02, H], [V02H]));
    var p1 := Wait(c, c, Op(k + 1, [AbIndex, E, V02H, A2, ASlot(t.Other())], [F, BSlot(t.Other()), ASlot(t.Other()), Higher]));
    var p2 := Just(c, c, Op(k + 2, [AbIndex, NumValid], [AbIndex, NumValid]));
    var p3 := Just(c, c, Op(k + 3, [AbIndex, ASlot(t.Other()), BSlot(t.Other())], [Validation, Loc.C]));
    EnterPiece(s, c, s, s, p0[2].op, k, k + 1);
    WaitPiece(c, s, c, p1[1].op, k + 1, k + 2);
    JustPiece(c, c, p2[0].op, k + 2, k + 3);
    JustPiece(c, c, p3[0].op, k + 3, t.K(9));
    Join(p0, p1, s, s, c, s, c, c, k, k + 1, k + 2);
    Join(p0 + p1, p2, s, s, c, c, c, c, k, k + 2, k + 3);
    Join(p0 + p1 + p2, p3, s, s, c, c, c, c, k, k + 3, t.K(9));
    assert Ops(Phase4Slave(t), 1) == [];
  }

  lemma Widen(s: seq<Instr>, o0: nat, s0: nat, o1: nat, s1: nat, k0: nat, k1: nat, k2: nat)
    requires Piece(s, o0, s0, o1, s1, k0, k1) && k1 <= k2
    ensures Piece(s, o0, s0, o1, s1, k0, k2)
  {}

  /** The counter of both threads when an iteration begins. */
  function OwnBefore(n: nat): nat { SeenBefore(n, PHASE_4) }

  lemma MasterIterPiece(t: Iter)
    requires t.Valid()
    ensures Piece(MasterIter(t), OwnBefore(t.n), SeenBefore(t.n, PHASE_4), OwnBefore(t.n + 1), SeenBefore(t.n + 1, PHASE_4), t.K(0), t.K(10))
  {
    var o, f, c := OwnBefore(t.n), SeenBefore(t.n, PHASE_4), t.C();
    var p0, p1, p2, p3, p4 := Phase0Master(t, f), Phase1Master(t), Phase2Master(t), Phase3Master(t), Phase4Master(t);
    Phase0MasterPiece(t, o, f);
    Phase1MasterPiece(t);
    Phase2MasterPiece(t);
    Phase3Pieces(t);
    Phase4Pieces(t);
    Widen(p0, o, f, c + NUM_COUNTER, c, t.K(0), t.K(1), t.K(3));
    Widen(p2, c + PHASE_1, c + PHASE_1 + t.m1 + 1, c + PHASE_2, c + PHASE_2, t.K(4), t.K(5), t.K(6));
    Widen(p3, c + PHASE_2, c + PHASE_2, c + PHASE_3, c + PHASE_3, t.K(6), t.K(7), t.K(8));
    Widen(p4, c + PHASE_3, c + PHASE_3, c + PHASE_4, c + PHASE_4, t.K(8), t.K(9), t.K(10));
    Join(p0, p1, o, f, c + NUM_COUNTER, c, c + PHASE_1, c + PHASE_1 + t.m1 + 1, t.K(0), t.K(3), t.K(4));
    Join(p0 + p1, p2, o, f, c + PHASE_1, c + PHASE_1 + t.m1 + 1, c + PHASE_2, c + PHASE_2, t.K(0), t.K(4), t.K(6));
    Join(p0 + p1 + p2, p3, o, f, c + PHASE_2, c + PHASE_2, c + PHASE_3, c + PHASE_3, t.K(0), t.K(6), t.K(8));
    Join(p0 + p1 + p2 + p3, p4, o, f, c + PHASE_3, c + PHASE_3, c + PHASE_4, c + PHASE_4, t.K(0), t.K(8), t.K(10));
  }

  lemma SlaveIterPiece(t: Iter)
    requires t.Valid()
    ensures Piece(SlaveIter(t), OwnBefore(t.n), SeenBefore(t.n, PHASE_2), OwnBefore(t.n + 1), SeenBefore(t.n + 1, PHASE_2), t.K(0), t.K(10))
  {
    var o, f, c := OwnBefore(t.n), SeenBefore(t.n, PHASE_2), t.C();
    var p0, p1, p2, p3, p4 := Phase0Slave(t, f), Phase1Slave(t), Phase2Slave(t), Phase3Slave(t), Phase4Slave(t);
    Phase0SlavePiece(t, o, f);
    Phase1SlavePiece(t);
    Phase2SlavePiece(t);
    Phase3Pieces(t);
    Phase4Pieces(t);
    var s := c + t.m0 + 1;
    Lower(p0, o, f, c, s, t.K(0), t.K(1), t.K(2));
    Widen(p1, c, s, c + PHASE_1 + NUM_COUNTER, s, t.K(2), t.K(3), t.K(5));
    Widen(p2, c + PHASE_1 + NUM_COUNTER, s, c + PHASE_2, c + PHASE_2, t.K(5), t.K(6), t.K(7));
    Widen(p3, c + PHASE_2, c + PHASE_2, c + PHASE_3, c + PHASE_2, t.K(7), t.K(8), t.K(9));
    Join(p0, p1, o, f, c, s, c + PHASE_1 + NUM_COUNTER, s, t.K(0), t.K(2), t.K(5));
    Join(p0 + p1, p2, o, f, c + PHASE_1 + NUM_COUNTER, s, c + PHASE_2, c + PHASE_2, t.K(0), t.K(5), t.K(7));
    Join(p0 + p1 + p2, p3, o, f, c + PHASE_2, c + PHASE_2, c + PHASE_3, c + PHASE_2, t.K(0), t.K(7), t.K(9));
    Join(p0 + p1 + p2 + p3, p4, o, f, c + PHASE_3, c + PHASE_2, c + PHASE_4, c + PHASE_2, t.K(0), t.K(9), t.K(10));
  }

  lemma Lower(s: seq<Instr>, o0: nat, s0: nat, o1: nat, s1: nat, k: nat, k0: nat, k1: nat)
    requires Piece(s, o0, s0, o1, s1, k0, k1) && k <= k0
    ensures Piece(s, o0, s0, o1, s1, k, k1)
  {}

  predicate ValidCounts(counts: seq<(nat, nat)>) { forall n :: 0 <= n < |counts| ==> counts[n].0 < NUM_COUNTER && counts[n].1 < NUM_COUNTER }

  function IterAt(counts: seq<(nat, nat)>, n: nat): Iter
    requires n < |counts|
  {
    Iter(n, counts[n].0, counts[n].1)
  }

  lemma {:induction false} ProgramPieces(counts: seq<(nat, nat)>)
    requires ValidCounts(counts) && counts != []
    ensures Piece(Master(counts), 0, 0, OwnBefore(|counts|), SeenBefore(|counts|, PHASE_4), 0, ITER_KEYS * |counts|)
    ensures Piece(Slave(counts), 0, 0, OwnBefore(|counts|), SeenBefore(|counts|, PHASE_2), 0, ITER_KEYS * |counts|)
    decreases |counts|
  {
    var n: nat := |counts| - 1;
    var t := IterAt(counts, n);
    MasterIterPiece(t);
    SlaveIterPiece(t);
    var k := ITER_KEYS * (n + 1);
    Widen(MasterIter(t), OwnBefore(n), SeenBefore(n, PHASE_4), OwnBefore(n + 1), SeenBefore(n + 1, PHASE_4), t.K(0), t.K(10), k);
    Widen(SlaveIter(t), OwnBefore(n), SeenBefore(n, PHASE_2), OwnBefore(n + 1), SeenBefore(n + 1, PHASE_2), t.K(0), t.K(10), k);
    if n == 0 {
      assert counts[..0] == [];
      assert Master(counts) == MasterIter(t) && Slave(counts) == SlaveIter(t);
    } else {
      ProgramPieces(counts[..n]);
      Join(Master(counts[..n]), MasterIter(t), 0, 0, OwnBefore(n), SeenBefore(n, PHASE_4), OwnBefore(n + 1), SeenBefore(n + 1, PHASE_4), 0, t.K(0), k);
      Join(Slave(counts[..n]), SlaveIter(t), 0, 0, OwnBefore(n), SeenBefore(n, PHASE_2), OwnBefore(n + 1), SeenBefore(n + 1, PHASE_2), 0, t.K(0), k);
    }
  }

  // ---- the single-thread order ----

  lemma SingleIterRange(t: Iter)
    requires t.Valid()
    ensures Range(SingleIter(t), t.K(0), t.K(10))
  {
    var f, g := SeenBefore(t.n, PHASE_4), SeenBefore(t.n, PHASE_2);
    Phase0MasterPiece(t, OwnBefore(t.n), f);
    Phase0SlavePiece(t, OwnBefore(t.n), g);
    Phase1SlavePiece(t);
    Phase1MasterPiece(t);
    Phase2MasterPiece(t);
    Phase2SlavePiece(t);
    Phase3Pieces(t);
    Phase4Pieces(t);
    var h := AllOps(Phase0Master(t, f));
    RangeConcat(h, AllOps(Phase0Slave(t, g)), t.K(0), t.K(1), t.K(2));
    h := h + AllOps(Phase0Slave(t, g));
    RangeConcat(h, AllOps(Phase1Slave(t)), t.K(0), t.K(2), t.K(3));
    h := h + AllOps(Phase1Slave(t));
    RangeConcat(h, AllOps(Phase1Master(t)), t.K(0), t.K(3), t.K(4));
    h := h + AllOps(Phase1Master(t));
    RangeConcat(h, AllOps(Phase2Master(t)), t.K(0), t.K(4), t.K(5));
    h := h + AllOps(Phase2Master(t));
    RangeConcat(h, AllOps(Phase2Slave(t)), t.K(0), t.K(5), t.K(6));
    h := h + AllOps(Phase2Slave(t));
    RangeConcat(h, AllOps(Phase3Master(t)), t.K(0), t.K(6), t.K(7));
    h := h + AllOps(Phase3Master(t));
    RangeConcat(h, AllOps(Phase3Slave(t)), t.K(0), t.K(7), t.K(8));
    h := h + AllOps(Phase3Slave(t));
    RangeConcat(h, AllOps(Phase4Master(t)), t.K(0), t.K(8), t.K(9));
    h := h + AllOps(Phase4Master(t));
    RangeConcat(h, AllOps(Phase4Slave(t)), t.K(0), t.K(9), t.K(10));
  }

  lemma Shuffle(m0: seq<Op>, m1: seq<Op>, m2: seq<Op>, m3: seq<Op>, m4: seq<Op>, s0: seq<Op>, s1: seq<Op>, s2: seq<Op>, s3: seq<Op>, s4: seq<Op>)
    ensures multiset(m0 + s0 + s1 + m1 + m2 + s2 + m3 + s3 + m4 + s4) == multiset(m0 + m1 + m2 + m3 + m4) + multiset(s0 + s1 + s2 + s3 + s4)
  {}

  lemma FiveParts(a: seq<Instr>, b: seq<Instr>, c: seq<Instr>, d: seq<Instr>, e: seq<Instr>)
    ensures AllOps(a + b + c + d + e) == AllOps(a) + AllOps(b) + AllOps(c) + AllOps(d) + AllOps(e)
  {
    AllOpsConcat(a, b);
    AllOpsConcat(a + b, c);
    AllOpsConcat(a + b + c, d);
    AllOpsConcat(a + b + c + d, e);
  }

  lemma SingleIterOps(t: Iter)
    ensures multiset(SingleIter(t)) == multiset(AllOps(MasterIter(t))) + multiset(AllOps(SlaveIter(t)))
  {
    var f, g := SeenBefore(t.n, PHASE_4), SeenBefore(t.n, PHASE_2);
    FiveParts(Phase0Master(t, f), Phase1Master(t), Phase2Master(t), Phase3Master(t), Phase4Master(t));
    FiveParts(Phase0Slave(t, g), Phase1Slave(t), Phase2Slave(t), Phase3Slave(t), Phase4Slave(t));
    Shuffle(AllOps(Phase0Master(t, f)), AllOps(Phase1Master(t)), AllOps(Phase2Master(t)), AllOps(Phase3Master(t)), AllOps(Phase4Master(t)),
            AllOps(Phase0Slave(t, g)), AllOps(Phase1Slave(t)), AllOps(Phase2Slave(t)), AllOps(Phase3Slave(t)), AllOps(Phase4Slave(t)));
  }

  /** The single-thread order does the same operations, in the order of their keys. */
  lemma {:induction false} SingleThreadOps(counts: seq<(nat, nat)>)
    requires ValidCounts(counts)
    ensures multiset(SingleThread(counts)) == multiset(AllOps(Master(counts)) + AllOps(Slave(counts)))
    ensures Range(SingleThread(counts), 0, ITER_KEYS * |counts|)
    decreases |counts|
  {
    if counts != [] {
      var n: nat := |counts| - 1;
      var t, before := IterAt(counts, n), counts[..n];
      SingleThreadOps(before);
      LastIteration(counts, n, t, before);
      SingleIterRange(t);
      SingleIterOps(t);
      AllOpsConcat(Master(before), MasterIter(t));
      AllOpsConcat(Slave(before), SlaveIter(t));
      RangeConcat(SingleThread(before), SingleIter(t), 0, t.K(0), ITER_KEYS * (n + 1));
      TwoTogether(AllOps(Master(before)), AllOps(MasterIter(t)), AllOps(Slave(before)), AllOps(SlaveIter(t)), SingleThread(before), SingleIter(t));
    }
  }

  lemma LastIteration(counts: seq<(nat, nat)>, n: nat, t: Iter, before: seq<(nat, nat)>)
    requires |counts| == n + 1 && t == IterAt(counts, n) && before == counts[..n]
    ensures Master(counts) == Master(before) + MasterIter(t)
    ensures Slave(counts) == Slave(before) + SlaveIter(t)
    ensures SingleThread(counts) == SingleThread(before) + SingleIter(t)
  {}

  lemma TwoTogether(a: seq<Op>, a': seq<Op>, b: seq<Op>, b': seq<Op>, h: seq<Op>, h': seq<Op>)
    requires multiset(h) == multiset(a + b) && multiset(h') == multiset(a') + multiset(b')
    ensures multiset(h + h') == multiset((a + a') + (b + b'))
  {}

  // ---- what each section may touch ----

  /** A phase of one thread, cut where a fence in its middle matters. */
  datatype Section = M0 | M1 | M2a | M2b | M3 | M4a | M4b | S0 | S1 | S2a | S2b | S3 | S4

  predicate OfMaster(x: Section) { x.M0? || x.M1? || x.M2a? || x.M2b? || x.M3? || x.M4a? || x.M4b? }

  function PhaseStart(x: Section): nat {
    match x
    case M0 | S0 => 0
    case M1 | S1 => PHASE_1
    case M2a | M2b | S2a | S2b => PHASE_2
    case M3 | S3 => PHASE_3
    case M4a | M4b | S4 => PHASE_4
  }

  /** How far the counter of the section's thread can be when one of its operations runs. */
  function OwnMost(x: Section, t: Iter): nat {
    match x
    case M0 => t.m0
    case S1 => PHASE_1 + t.m1
    case _ => PhaseStart(x)
  }

  /** What the other thread has certainly reached then. */
  function SeenLeast(x: Section, t: Iter): nat {
    match x
    case M0 => 0
    case M1 => PHASE_1
    case M2a => PHASE_1 + t.m1 + 1
    case M2b => PHASE_2
    case M3 | M4a => PHASE_3
    case M4b => PHASE_4
    case S0 => 0
    case S1 => t.m0 + 1
    case S2a => PHASE_1
    case S2b | S3 | S4 => PHASE_2
  }

  /** No fence of the section waits for more; only the consumer of a gcd waits for more than its phase's start. */
  function WaitMost(x: Section): nat {
    match x
    case S0 => NUM_COUNTER
    case M1 => PHASE_1 + NUM_COUNTER
    case _ => PhaseStart(x)
  }

  /** The place of the section in the single-thread order. */
  function Place(x: Section): nat {
    match x
    case M0 => 0
    case S0 => 1
    case S1 => 2
    case M1 => 3
    case M2a | M2b => 4
    case S2a | S2b => 5
    case M3 => 6
    case S3 => 7
    case M4a | M4b => 8
    case S4 => 9
  }

  predicate MayRead(x: Section, t: Iter, l: Loc) {
    match x
    case M0 => l == AbIndex || l == ASlot(t.Cur()) || l == BSlot(t.Cur()) || l == Higher || l == Gcd10
    case M1 => l == V01 || l.EntryST?
    case M2a => l == Loc.C || l == V01
    case M2b => l == AbIndex || l == ASlot(t.Cur()) || l == BSlot(t.Cur()) || l == GcdST || l == CV1 || l == V01
    case M3 => l == AbIndex || l == H || l == TTS
    case M4a => l == Gcd10 || l == V02 || l == H
    case M4b => l == AbIndex || l == NumValid || l == E || l == V02H || l == A2 || l == ASlot(t.Other()) || l == BSlot(t.Other())
    case S0 => l == AbIndex || l == ASlot(t.Cur()) || l == BSlot(t.Cur()) || l == Higher || l == Cofactors || l == Loc.C || l.Entry10?
    case S1 => l == AbIndex || l == ASlot(t.Cur()) || l == Cofactors || l == KIndex || l == GcdST
    case S2a => l == GcdST
    case S2b => l == V01 || l == TTS
    case S3 => l == AbIndex || l == ASlot(t.Cur()) || l == BSlot(t.Cur()) || l == GcdST || l == V01
    case S4 => false
  }

  predicate MayWrite(x: Section, t: Iter, l: Loc) {
    match x
    case M0 => l == Gcd10 || l.Entry10?
    case M1 => l == V01
    case M2a => l == CV1
    case M2b => l == BT || l == H
    case M3 => l == ASlot(t.Other()) || l == A2
    case M4a => l == V02H
    case M4b => l == AbIndex || l == NumValid || l == Higher || l == F || l == ASlot(t.Other()) || l == BSlot(t.Other())
                || l == Validation || l == Loc.C
    case S0 => l == Validation || l == Loc.C || l == Cofactors || l == KIndex
    case S1 => l == GcdST || l.EntryST?
    case S2a => l == TTS
    case S2b => l == TTS || l == V02
    case S3 => l == STV0 || l == E
    case S4 => false
  }

  /** An entry is written before the counter passes it and read after the counter has. */
  predicate EntryTimes(x: Section, t: Iter, i: Instr)
    requires i.Do?
  {
    match x
    case M0 => forall l :: l in i.op.outs && l.Entry10? ==> i.own <= t.C() + l.index
    case S0 => forall l :: l in i.op.ins && l.Entry10? ==> t.C() + l.index < i.seen
    case S1 => forall l :: l in i.op.outs && l.EntryST? ==> i.own <= t.C() + PHASE_1 + l.index
    case M1 => forall l :: l in i.op.ins && l.EntryST? ==> t.C() + PHASE_1 + l.index < i.seen
    case _ => true
  }

  predicate Fits(x: Section, t: Iter, i: Instr) {
    && t.C() + PhaseStart(x) <= i.own
    && (i.Fence? ==> i.seen <= t.C() + WaitMost(x))
    && (i.Do? ==> && i.own <= t.C() + OwnMost(x, t) && t.C() + SeenLeast(x, t) <= i.seen
                  && t.K(Place(x)) <= i.op.key < t.K(Place(x) + 1)
                  && (forall l :: l in i.op.ins ==> MayRead(x, t, l)) && (forall l :: l in i.op.outs ==> MayWrite(x, t, l))
                  && EntryTimes(x, t, i))
  }

  /** Within one iteration: sections that conflict are ordered by a fence, except for gcd entries, which are
    * ordered one by one. */
  lemma SameIteration(x: Section, y: Section, t: Iter, i: Instr, j: Instr)
    requires t.Valid() && OfMaster(x) && !OfMaster(y) && Fits(x, t, i) && Fits(y, t, j)
    requires i.Do? && j.Do? && Conflict(i.op, j.op)
    ensures Separated(i, j)
  {
    if OwnMost(x, t) < SeenLeast(y, t) && Place(x) < Place(y) {
    } else if OwnMost(y, t) < SeenLeast(x, t) && Place(y) < Place(x) {
    } else {
      Unordered(x, y, t, i, j);
    }
  }

  lemma SharedLocation(x: Section, y: Section, t: Iter, i: Instr, j: Instr) returns (l: Loc)
    requires Fits(x, t, i) && Fits(y, t, j) && i.Do? && j.Do? && Conflict(i.op, j.op)
    ensures Shared(x, y, t, l)
    ensures (l in i.op.outs && (l in j.op.outs || l in j.op.ins)) || (l in j.op.outs && (l in i.op.outs || l in i.op.ins))
  {
    l :| (l in i.op.outs && (l in j.op.outs || l in j.op.ins)) || (l in j.op.outs && (l in i.op.outs || l in i.op.ins));
  }

  lemma Unordered(x: Section, y: Section, t: Iter, i: Instr, j: Instr)
    requires t.Valid() && OfMaster(x) && !OfMaster(y) && Fits(x, t, i) && Fits(y, t, j)
    requires i.Do? && j.Do? && Conflict(i.op, j.op)
    requires !(OwnMost(x, t) < SeenLeast(y, t) && Place(x) < Place(y)) && !(OwnMost(y, t) < SeenLeast(x, t) && Place(y) < Place(x))
    ensures Separated(i, j)
  {
    var l := SharedLocation(x, y, t, i, j);
    OnlyEntries(x, y, t, l);
    if x.M0? {
      assert !MayWrite(y, t, l) && l in i.op.outs && l in j.op.ins;
      assert i.own <= t.C() + l.index < j.seen;
    } else {
      assert !MayWrite(x, t, l) && l in j.op.outs && l in i.op.ins;
      assert j.own <= t.C() + PHASE_1 + l.index < i.seen;
    }
  }

  predicate Shared(x: Section, y: Section, t: Iter, l: Loc) {
    (MayWrite(x, t, l) && (MayWrite(y, t, l) || MayRead(y, t, l))) || (MayWrite(y, t, l) && (MayWrite(x, t, l) || MayRead(x, t, l)))
  }

  lemma OnlyEntries(x: Section, y: Section, t: Iter, l: Loc)
    requires t.Valid() && OfMaster(x) && !OfMaster(y) && Shared(x, y, t, l)
    requires !(OwnMost(x, t) < SeenLeast(y, t) && Place(x) < Place(y)) && !(OwnMost(y, t) < SeenLeast(x, t) && Place(y) < Place(x))
    ensures (x.M0? && y.S0? && l.Entry10?) || (x.M1? && y.S1? && l.EntryST?)
  {
    if x.M0? || x.M1? {
      GcdSections(x, y, t, l);
    } else {
      LaterSections(x, y, t, l);
    }
  }

  lemma GcdSections(x: Section, y: Section, t: Iter, l: Loc)
    requires t.Valid() && (x.M0? || x.M1?) && !OfMaster(y) && Shared(x, y, t, l)
    requires !(OwnMost(x, t) < SeenLeast(y, t) && Place(x) < Place(y)) && !(OwnMost(y, t) < SeenLeast(x, t) && Place(y) < Place(x))
    ensures (x.M0? && y.S0? && l.Entry10?) || (x.M1? && y.S1? && l.EntryST?)
  {}

  /** Sections that no fence orders touch common locations only to read them. */
  lemma LaterSections(x: Section, y: Section, t: Iter, l: Loc)
    requires t.Valid() && OfMaster(x) && !(x.M0? || x.M1?) && !OfMaster(y)
    requires !(OwnMost(x, t) < SeenLeast(y, t) && Place(x) < Place(y)) && !(OwnMost(y, t) < SeenLeast(x, t) && Place(y) < Place(x))
    ensures !Shared(x, y, t, l)
  {
    if x.M2a? || x.M2b? {
      assert y.S2a? || y.S2b? || y.S3? || y.S4?;
      Phase2Sections(x, y, t, l);
    } else {
      assert (y.S3? && !x.M4b?) || y.S4?;
      Phase34Sections(x, y, t, l);
    }
  }

  lemma Phase2Sections(x: Section, y: Section, t: Iter, l: Loc)
    requires (x.M2a? || x.M2b?) && (y.S2a? || y.S2b? || y.S3? || y.S4?)
    ensures !Shared(x, y, t, l)
  {}

  lemma Phase34Sections(x: Section, y: Section, t: Iter, l: Loc)
    requires ((x.M3? || x.M4a?) && y.S3?) || ((x.M3? || x.M4a? || x.M4b?) && y.S4?)
    ensures !Shared(x, y, t, l)
  {}

  // ---- every instruction belongs to a section ----

  ghost predicate FitAll(s: seq<Instr>, x: Section, t: Iter) { forall i :: 0 <= i < |s| ==> Fits(x, t, s[i]) }

  lemma {:induction false} PublishFits(t: Iter, n: nat, first: bool)
    requires t.Valid() && n <= (if first then t.m0 else t.m1) + 1
    ensures first ==> FitAll(Publish(t.C(), t.C(), t.K(0) + 1, n, true), M0, t)
    ensures !first ==> FitAll(Publish(t.C() + PHASE_1, t.C() + t.m0 + 1, t.K(2) + 1, n, false), S1, t)
    decreases n
  {
    if n > 0 {
      PublishFits(t, n - 1, first);
    }
  }

  lemma {:induction false} ReceiveFits(t: Iter, n: nat, first: bool)
    requires t.Valid() && n <= (if first then t.m0 else t.m1) + 1
    ensures first ==> FitAll(Receive(t.C(), t.C(), t.K(1) + 2, n, true, Cofactors), S0, t)
    ensures !first ==> FitAll(Receive(t.C() + PHASE_1, t.C() + PHASE_1, t.K(3) + 1, n, false, V01), M1, t)
    decreases n
  {
    if n > 0 {
      ReceiveFits(t, n - 1, first);
    }
  }

  /** The instruction belongs to some section of the thread in iteration t. */
  ghost predicate Belongs(master: bool, t: Iter, i: Instr) { exists x :: OfMaster(x) == master && Fits(x, t, i) }

  ghost predicate AllBelong(master: bool, t: Iter, s: seq<Instr>) { forall i :: 0 <= i < |s| ==> Belongs(master, t, s[i]) }

  lemma FitBelong(s: seq<Instr>, x: Section, t: Iter)
    requires FitAll(s, x, t)
    ensures AllBelong(OfMaster(x), t, s)
  {}

  lemma BelongConcat(master: bool, t: Iter, a: seq<Instr>, b: seq<Instr>)
    requires AllBelong(master, t, a) && AllBelong(master, t, b)
    ensures AllBelong(master, t, a + b)
  {}

  lemma Phase0MasterBelongs(t: Iter, f: nat)
    requires t.Valid()
    ensures AllBelong(true, t, Phase0Master(t, f))
  {
    PublishFits(t, t.m0 + 1, true);
    assert FitAll(Phase0Master(t, f), M0, t);
    FitBelong(Phase0Master(t, f), M0, t);
  }

  lemma Phase0SlaveBelongs(t: Iter, g: nat)
    requires t.Valid()
    ensures AllBelong(false, t, Phase0Slave(t, g))
  {
    ReceiveFits(t, t.m0 + 1, true);
    assert FitAll(Phase0Slave(t, g), S0, t);
    FitBelong(Phase0Slave(t, g), S0, t);
  }

  lemma Phase1Belong(t: Iter)
    requires t.Valid()
    ensures AllBelong(true, t, Phase1Master(t)) && AllBelong(false, t, Phase1Slave(t))
  {
    PublishFits(t, t.m1 + 1, false);
    ReceiveFits(t, t.m1 + 1, false);
    assert FitAll(Phase1Master(t), M1, t);
    assert FitAll(Phase1Slave(t), S1, t);
    FitBelong(Phase1Master(t), M1, t);
    FitBelong(Phase1Slave(t), S1, t);
  }

  lemma TwoSections(s: seq<Instr>, n: nat, x: Section, y: Section, t: Iter)
    requires n <= |s| && FitAll(s[..n], x, t) && FitAll(s[n..], y, t) && OfMaster(x) == OfMaster(y)
    ensures AllBelong(OfMaster(x), t, s)
  {
    FitBelong(s[..n], x, t);
    FitBelong(s[n..], y, t);
    BelongConcat(OfMaster(x), t, s[..n], s[n..]);
    assert s == s[..n] + s[n..];
  }

  lemma Phase2MasterBelongs(t: Iter)
    requires t.Valid()
    ensures AllBelong(true, t, Phase2Master(t))
  {
    TwoSections(Phase2Master(t), 3, M2a, M2b, t);
  }

  lemma Phase2SlaveBelongs(t: Iter)
    requires t.Valid()
    ensures AllBelong(false, t, Phase2Slave(t))
  {
    TwoSections(Phase2Slave(t), 3, S2a, S2b, t);
  }

  lemma Phase3Belong(t: Iter)
    requires t.Valid()
    ensures AllBelong(true, t, Phase3Master(t)) && AllBelong(false, t, Phase3Slave(t))
  {
    FitBelong(Phase3Master(t), M3, t);
    FitBelong(Phase3Slave(t), S3, t);
  }

  lemma Phase4Belong(t: Iter)
    requires t.Valid()
    ensures AllBelong(true, t, Phase4Master(t)) && AllBelong(false, t, Phase4Slave(t))
  {
    FitBelong(Phase4Slave(t), S4, t);
    TwoSections(Phase4Master(t), 3, M4a, M4b, t);
  }

  lemma IterBelong(t: Iter)
    requires t.Valid()
    ensures AllBelong(true, t, MasterIter(t)) && AllBelong(false, t, SlaveIter(t))
  {
    var f, g := SeenBefore(t.n, PHASE_4), SeenBefore(t.n, PHASE_2);
    Phase0MasterBelongs(t, f);
    Phase0SlaveBelongs(t, g);
    Phase1Belong(t);
    Phase2MasterBelongs(t);
    Phase2SlaveBelongs(t);
    Phase3Belong(t);
    Phase4Belong(t);
    BelongFive(true, t, Phase0Master(t, f), Phase1Master(t), Phase2Master(t), Phase3Master(t), Phase4Master(t));
    BelongFive(false, t, Phase0Slave(t, g), Phase1Slave(t), Phase2Slave(t), Phase3Slave(t), Phase4Slave(t));
  }

  lemma BelongFive(master: bool, t: Iter, a: seq<Instr>, b: seq<Instr>, c: seq<Instr>, d: seq<Instr>, e: seq<Instr>)
    requires AllBelong(master, t, a) && AllBelong(master, t, b) && AllBelong(master, t, c) && AllBelong(master, t, d) && AllBelong(master, t, e)
    ensures AllBelong(master, t, a + b + c + d + e)
  {
    BelongConcat(master, t, a, b);
    BelongConcat(master, t, a + b, c);
    BelongConcat(master, t, a + b + c, d);
    BelongConcat(master, t, a + b + c + d, e);
  }

  ghost predicate InProgram(counts: seq<(nat, nat)>, master: bool, i: Instr) {
    exists n :: 0 <= n < |counts| && Belongs(master, IterAt(counts, n), i)
  }

  lemma EarlierIteration(counts: seq<(nat, nat)>, last: nat, master: bool, i: Instr)
    requires last < |counts| && InProgram(counts[..last], master, i)
    ensures InProgram(counts, master, i)
  {
    var n :| 0 <= n < last && Belongs(master, IterAt(counts[..last], n), i);
    assert IterAt(counts[..last], n) == IterAt(counts, n);
  }

  /** Every instruction of a program belongs to one of its iterations. */
  lemma {:induction false} ProgramBelongs(counts: seq<(nat, nat)>)
    requires ValidCounts(counts)
    ensures forall i :: 0 <= i < |Master(counts)| ==> InProgram(counts, true, Master(counts)[i])
    ensures forall i :: 0 <= i < |Slave(counts)| ==> InProgram(counts, false, Slave(counts)[i])
    decreases |counts|
  {
    if counts != [] {
      var last: nat := |counts| - 1;
      ProgramBelongs(counts[..last]);
      IterBelong(IterAt(counts, last));
      Extended(counts, last, true, Master(counts[..last]), MasterIter(IterAt(counts, last)));
      Extended(counts, last, false, Slave(counts[..last]), SlaveIter(IterAt(counts, last)));
    }
  }

  lemma Extended(counts: seq<(nat, nat)>, last: nat, master: bool, before: seq<Instr>, s: seq<Instr>)
    requires last < |counts| && (forall i :: 0 <= i < |before| ==> InProgram(counts[..last], master, before[i]))
    requires AllBelong(master, IterAt(counts, last), s)
    ensures forall i :: 0 <= i < |before + s| ==> InProgram(counts, master, (before + s)[i])
  {
    forall i | 0 <= i < |before + s|
      ensures InProgram(counts, master, (before + s)[i])
    {
      if i < |before| {
        EarlierIteration(counts, last, master, before[i]);
      } else {
        assert Belongs(master, IterAt(counts, last), s[i - |before|]);
      }
    }
  }

  lemma Locate(counts: seq<(nat, nat)>, master: bool, i: Instr) returns (n: nat, x: Section)
    requires InProgram(counts, master, i)
    ensures n < |counts| && OfMaster(x) == master && Fits(x, IterAt(counts, n), i)
  {
    n :| 0 <= n < |counts| && Belongs(master, IterAt(counts, n), i);
    x :| OfMaster(x) == master && Fits(x, IterAt(counts, n), i);
  }

  // ---- the programs are compatible ----

  lemma AcrossIterations(x: Section, t: Iter, i: Instr, y: Section, u: Iter, j: Instr)
    requires t.Valid() && u.Valid() && t.n < u.n && Fits(x, t, i) && Fits(y, u, j) && i.Do? && j.Do?
    ensures i.own < j.seen && i.op.key < j.op.key
  {}

  lemma PairSeparated(counts: seq<(nat, nat)>, i: Instr, j: Instr)
    requires ValidCounts(counts) && InProgram(counts, true, i) && InProgram(counts, false, j)
    requires i.Do? && j.Do? && Conflict(i.op, j.op)
    ensures Separated(i, j)
  {
    var n, x := Locate(counts, true, i);
    var m, y := Locate(counts, false, j);
    var t, u := IterAt(counts, n), IterAt(counts, m);
    if n < m {
      AcrossIterations(x, t, i, y, u, j);
    } else if m < n {
      AcrossIterations(y, u, j, x, t, i);
    } else {
      SameIteration(x, y, t, i, j);
    }
  }

  lemma ProgramsRaceFree(counts: seq<(nat, nat)>)
    requires ValidCounts(counts)
    ensures RaceFree(Master(counts), Slave(counts))
  {
    var a, b := Master(counts), Slave(counts);
    ProgramBelongs(counts);
    forall i: nat, j: nat | i < |a| && j < |b|
      ensures PairFree(a[i], b[j])
    {
      if a[i].Do? && b[j].Do? && Conflict(a[i].op, b[j].op) {
        PairSeparated(counts, a[i], b[j]);
      }
    }
  }

  /** Two fences never wait for each other. */
  lemma FencesPass(x: Section, t: Iter, i: Instr, y: Section, u: Iter, j: Instr)
    requires OfMaster(x) && !OfMaster(y) && Fits(x, t, i) && Fits(y, u, j) && i.Fence? && j.Fence?
    ensures i.seen <= j.own || j.seen <= i.own
  {
    if t.n == u.n {
      assert WaitMost(x) <= PhaseStart(y) || WaitMost(y) <= PhaseStart(x);
    } else if t.n < u.n {
      assert i.seen <= t.C() + COUNTER_END <= u.C();
    } else {
      assert j.seen <= u.C() + COUNTER_END <= t.C();
    }
  }

  lemma ProgramsNoCircle(counts: seq<(nat, nat)>)
    requires ValidCounts(counts) && WellFormed(Master(counts)) && WellFormed(Slave(counts))
    ensures NoCircle(Master(counts), Slave(counts))
  {
    var a, b := Master(counts), Slave(counts);
    ProgramBelongs(counts);
    forall i: nat, j: nat | i < |a| && j < |b| && a[i].Fence? && b[j].Fence?
      ensures a[i].seen <= OwnAt(b, j) || b[j].seen <= OwnAt(a, i)
    {
      var n, x := Locate(counts, true, a[i]);
      var m, y := Locate(counts, false, b[j]);
      FencesPass(x, IterAt(counts, n), a[i], y, IterAt(counts, m), b[j]);
      assert StepOk(a, i) && StepOk(b, j);
    }
  }

  lemma FencesReached(a: seq<Instr>, b: seq<Instr>)
    requires WellFormed(a) && SeenAt(a, |a|) <= OwnAt(b, |b|)
    ensures Reached(a, b)
  {
    forall i | 0 <= i < |a| && a[i].Fence?
      ensures a[i].seen <= OwnAt(b, |b|)
    {
      Monotone(a, i + 1, |a|);
    }
  }

  lemma ProgramsCompatible(counts: seq<(nat, nat)>)
    requires ValidCounts(counts)
    ensures Compatible(Master(counts), Slave(counts))
  {
    var a, b := Master(counts), Slave(counts);
    ProgramsRaceFree(counts);
    if counts != [] {
      ProgramPieces(counts);
      PieceProgram(a, OwnBefore(|counts|), SeenBefore(|counts|, PHASE_4), ITER_KEYS * |counts|);
      PieceProgram(b, OwnBefore(|counts|), SeenBefore(|counts|, PHASE_2), ITER_KEYS * |counts|);
      ProgramsNoCircle(counts);
      FencesReached(a, b);
      FencesReached(b, a);
    }
  }

  lemma PieceProgram(s: seq<Instr>, own: nat, seen: nat, k: nat)
    requires Piece(s, 0, 0, own, seen, 0, k)
    ensures WellFormed(s) && KeysIncrease(s) && OwnAt(s, |s|) == own && SeenAt(s, |s|) == seen
  {
    forall i: nat | i < |s|
      ensures StepOk(s, i)
    {
      if i > 0 {
        assert LinkedAt(s, i);
      }
    }
  }

  // ---- the main results ----

  /** No run of the two threads has a data race or a deadlock, and it ends after a bounded number of steps. */
  lemma ThreadsAreSafe(counts: seq<(nat, nat)>, run: seq<State>, k: nat)
    requires ValidCounts(counts) && IsRun(Master(counts), Slave(counts), run) && k < |run|
    ensures var a, b, s := Master(counts), Slave(counts), run[k];
      && s.i <= |a| && s.j <= |b| && k == s.i + s.j <= |a| + |b|
      && (s.i < |a| && s.j < |b| && a[s.i].Do? && b[s.j].Do? ==> !Conflict(a[s.i].op, b[s.j].op))
      && (s.i < |a| || s.j < |b| ==> exists s' :: Next(a, b, s, s'))
  {
    var a, b, s := Master(counts), Slave(counts), run[k];
    ProgramsCompatible(counts);
    RunKeeps(a, b, run, k);
    if s.i < |a| && s.j < |b| && a[s.i].Do? && b[s.j].Do? {
      NoRace(a, b, run, k);
    }
    if s.i < |a| || s.j < |b| {
      NoDeadlock(a, b, run, k);
    }
  }

  /** A finished run leaves in every location what the single-thread order leaves, and every operation has
    * read what it reads there. */
  lemma ThreadsMatchSingle(counts: seq<(nat, nat)>, run: seq<State>)
    requires ValidCounts(counts) && IsRun(Master(counts), Slave(counts), run)
    requires run[|run| - 1].i == |Master(counts)| && run[|run| - 1].j == |Slave(counts)|
    ensures var h, q := run[|run| - 1].done, SingleThread(counts);
      && SameMemory(h, q)
      && forall p: nat, r: nat :: p < |h| && r < |q| && h[p] == q[r] ==> Args(h[..p], h[p]) == Args(q[..r], q[r])
  {
    ProgramsCompatible(counts);
    SingleThreadOps(counts);
    RunResult(Master(counts), Slave(counts), run, SingleThread(counts));
  }
}
