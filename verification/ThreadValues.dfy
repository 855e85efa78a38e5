/** What the operations of TwoThread compute. Each one is given its meaning on the contents of the locations, by
  * the functions that the phase methods of PhasedSquare are proved against; then the memory after any run of the
  * two threads holds the a and b that iterations of SquareState reach. */
module ThreadValues {
  import opened Integers
  import opened Interleaving
  import opened GcdStream
  import opened PhasedSquare
  import opened QuadraticForms
  import opened RepeatedSquare
  import F = PhaseFrames
  import T = TwoThread

  type Memory = Loc -> F.Content

  /** The numbers that the operations do not read from memory, and the memory at the beginning. */
  datatype Machine = Machine(D: int, L: nat, plans: seq<(seq<nat>, seq<nat>)>, init: Memory) {
    function Plan(n: nat): (seq<nat>, seq<nat>) { if n < |plans| then plans[n] else ([], []) }
  }

  // ---- the meaning of an operation ----

  function Num(args: seq<F.Content>, i: nat, k: nat): int {
    if i < |args| && args[i].Numbers? && k < |args[i].s| then args[i].s[k] else 0
  }

  function EntryIn(args: seq<F.Content>): Entry {
    if |args| > 0 && args[0].Published? then args[0].e else Entry(0, 0, 0, 0, false, false)
  }

  function One(x: int): F.Content { F.Numbers([x]) }

  function Two(p: (int, int)): F.Content { F.Numbers([p.0, p.1]) }

  predicate IsEntry(l: Loc) { l.Entry10? || l.EntryST? }

  predicate Publishes(op: Op) { |op.outs| == 2 && IsEntry(op.outs[1]) }

  predicate Receives(op: Op) { |op.ins| == 2 && IsEntry(op.ins[0]) }

  /** Iteration, phase and place in the phase of an operation. */
  function IterOf(key: nat): nat { key / T.ITER_KEYS }

  function PhaseOf(key: nat): nat { key % T.ITER_KEYS / T.PHASE_KEYS }

  function IndexOf(key: nat): nat { key % T.ITER_KEYS % T.PHASE_KEYS }

  lemma KeyParts(t: T.Iter, phase: nat, i: nat)
    requires phase < 10 && i < T.PHASE_KEYS
    ensures IterOf(t.K(phase) + i) == t.n && PhaseOf(t.K(phase) + i) == phase && IndexOf(t.K(phase) + i) == i
  {}

  function AfterBatch(x: int, y: int, threshold: nat, plan: seq<nat>, j: nat): (int, int) {
    if j == 0 then (x, y) else var r := Batch(x, y, threshold, BatchSize(plan, j - 1)); (r.1, r.2)
  }

  /** Publishing entry j: a batch on the remainders. */
  function PublishMeaning(l: Loc, args: seq<F.Content>, threshold: nat, plan: seq<nat>, j: nat): F.Content {
    if IsEntry(l) then F.Published(NextEntry(Num(args, 0, 0), Num(args, 0, 1), threshold, plan, j))
    else Two(AfterBatch(Num(args, 0, 0), Num(args, 0, 1), threshold, plan, j))
  }

  function ReceiveMeaning(args: seq<F.Content>): F.Content { Two(MatrixMultiply(EntryIn(args), Num(args, 1, 0), Num(args, 1, 1))) }

  function Kept(args: seq<F.Content>): F.Content { Two((Num(args, 0, 0), Num(args, 0, 1))) }

  /** c and the consistency flag, from a and b. */
  function CheckMeaning(l: Loc, a: int, b: int, D: int): F.Content {
    if l.C? then One(COf(a, b, D)) else One(F.Truth(a == 0 || !Consistent(a, b, D)))
  }

  function Meaning0Master(i: nat, args: seq<F.Content>): F.Content {
    if i == 0 then Two(FirstPair(Num(args, 1, 0), Num(args, 2, 0), Num(args, 3, 0) == 1)) else Kept(args)
  }

  function Meaning0Slave(i: nat, l: Loc, args: seq<F.Content>, D: int): F.Content {
    if i == 0 then CheckMeaning(l, Num(args, 1, 0), Num(args, 2, 0), D)
    else if i == 1 then Two(FirstCofactors(Num(args, 1, 0), Num(args, 2, 0) == 1))
    else if l.KIndex? then One(KOf(Num(args, 3, 0), Num(args, 1, 0), Num(args, 0, 0)))
    else Two((-(Num(args, 0, 0) * Num(args, 1, 0)), Num(args, 0, 1)))
  }

  function Meaning1Slave(i: nat, args: seq<F.Content>): F.Content {
    if i == 0 then Two((Num(args, 1, 0), Num(args, 3, 0))) else Kept(args)
  }

  function Meaning1Master(i: nat, args: seq<F.Content>): F.Content { if i == 0 then Two((0, 1)) else Kept(args) }

  function Meaning2Master(i: nat, l: Loc, args: seq<F.Content>): F.Content {
    if i == 0 then One(Num(args, 0, 0) * Num(args, 1, 1))
    else
      var a, bt, v1 := Num(args, 1, 0), Num(args, 2, 0) * Num(args, 3, 1), Num(args, 5, 1);
      var q := QuotientOf(bt + Num(args, 4, 0), a);
      var h := if v1 <= 0 then -q else q;
      if l.BT? then One(bt) else Two((h, v1 * h))
  }

  function Meaning2Slave(i: nat, l: Loc, args: seq<F.Content>): F.Content {
    if i == 0 then One(Num(args, 0, 1) * Num(args, 0, 1))
    else if l.V02? then One(2 * Num(args, 0, 0))
    else One(if Num(args, 0, 1) <= 0 then -Num(args, 1, 0) else Num(args, 1, 0))
  }

  function Meaning3Master(l: Loc, args: seq<F.Content>): F.Content {
    var A := Num(args, 2, 0) + Num(args, 1, 1);
    One(if l.A2? then 2 * A else A)
  }

  function Meaning3Slave(l: Loc, args: seq<F.Content>): F.Content {
    var t, v0, v1 := Num(args, 3, 1), Num(args, 4, 0), Num(args, 4, 1);
    One(if l.E? then EOf(Num(args, 1, 0), Num(args, 2, 0), t, v0, v1) else if v1 <= 0 then -(t * v0) else t * v0)
  }

  function Meaning4Master(i: nat, l: Loc, args: seq<F.Content>, D: int): F.Content {
    if i == 0 then One(Num(args, 1, 0) * Num(args, 2, 0))
    else if i == 1 then
      var f, A := Num(args, 1, 0) - Num(args, 2, 0), Num(args, 4, 0);
      var B := RemainderOf(f, Num(args, 3, 0));
      if l.F? then One(f) else if l.BSlot? then One(B) else if l.ASlot? then One(Abs(A)) else One(F.Truth(Abs(B) >= Abs(A)))
    else if i == 2 then One(if l.AbIndex? then 1 - Num(args, 0, 0) else Num(args, 1, 0) + 1)
    else CheckMeaning(l, Num(args, 1, 0), Num(args, 2, 0), D)
  }

  /** The meaning of an operation of a phase that neither publishes nor receives. */
  function PhaseMeaning(m: Machine, phase: nat, i: nat, l: Loc, args: seq<F.Content>): F.Content {
    match phase
    case 0 => Meaning0Master(i, args)
    case 1 => Meaning0Slave(i, l, args, m.D)
    case 2 => Meaning1Slave(i, args)
    case 3 => Meaning1Master(i, args)
    case 4 => Meaning2Master(i, l, args)
    case 5 => Meaning2Slave(i, l, args)
    case 6 => Meaning3Master(l, args)
    case 7 => Meaning3Slave(l, args)
    case _ => Meaning4Master(i, l, args, m.D)
  }

  /** What an operation writes to l when it has read args. */
  function Meaning(m: Machine, op: Op, l: Loc, args: seq<F.Content>): F.Content {
    var n, phase, i := IterOf(op.key), PhaseOf(op.key), IndexOf(op.key);
    if Publishes(op) then
      PublishMeaning(l, args, if phase == 0 then 0 else m.L, if phase == 0 then m.Plan(n).0 else m.Plan(n).1, if i == 0 then 0 else i - 1)
    else if Receives(op) then ReceiveMeaning(args)
    else PhaseMeaning(m, phase, i, l, args)
  }

  /** The value of a symbolic content. */
  function Denote(m: Machine, x: Term): F.Content
    decreases x
  {
    match x
    case Initial(l) => m.init(l)
    case Result(op, l, args) => Meaning(m, op, l, seq(|args|, i requires 0 <= i < |args| => Denote(m, args[i])))
  }

  /** What l holds after the operations h. */
  function Now(m: Machine, h: seq<Op>, l: Loc): F.Content { Denote(m, ValueAt(h, l)) }

  function Reads(mem: Memory, z: Op): (r: seq<F.Content>)
    ensures |r| == |z.ins| && forall i :: 0 <= i < |r| ==> r[i] == mem(z.ins[i])
  {
    seq(|z.ins|, i requires 0 <= i < |z.ins| => mem(z.ins[i]))
  }

  /** The memory after one operation, and after many. */
  function Exec(m: Machine, mem: Memory, z: Op): Memory {
    l => if l in z.outs then Meaning(m, z, l, Reads(mem, z)) else mem(l)
  }

  function ExecAll(m: Machine, mem: Memory, h: seq<Op>): Memory {
    if h == [] then mem else Exec(m, ExecAll(m, mem, h[..|h| - 1]), h[|h| - 1])
  }

  lemma ExecMore(m: Machine, mem: Memory, h: seq<Op>, z: Op)
    ensures ExecAll(m, mem, h + [z]) == Exec(m, ExecAll(m, mem, h), z)
  {
    assert (h + [z])[..|h|] == h;
  }

  lemma {:induction false} ExecConcat(m: Machine, mem: Memory, h: seq<Op>, q: seq<Op>)
    ensures ExecAll(m, mem, h + q) == ExecAll(m, ExecAll(m, mem, h), q)
    decreases |q|
  {
    if q == [] {
      assert h + q == h;
    } else {
      var n := |q| - 1;
      assert (h + q)[..|h + q| - 1] == h + q[..n];
      ExecConcat(m, mem, h, q[..n]);
    }
  }

  /** Executing the operations one after the other gives the values of the symbolic contents. */
  lemma {:induction false} NowIsExec(m: Machine, h: seq<Op>, l: Loc)
    ensures Now(m, h, l) == ExecAll(m, m.init, h)(l)
    decreases |h|
  {
    if h != [] {
      var n := |h| - 1;
      var mem := ExecAll(m, m.init, h[..n]);
      forall x
        ensures Now(m, h[..n], x) == mem(x)
      {
        NowIsExec(m, h[..n], x);
      }
      NowLast(m, h[..n], h[n], mem, l);
      assert h[..n] + [h[n]] == h;
    }
  }

  lemma NowLast(m: Machine, h: seq<Op>, z: Op, mem: Memory, l: Loc)
    requires forall x :: Now(m, h, x) == mem(x)
    ensures Now(m, h + [z], l) == Exec(m, mem, z)(l)
  {
    ValueAppend(h, z, l);
    if l in z.outs {
      var args := Args(h, z);
      assert forall i :: 0 <= i < |args| ==> Denote(m, args[i]) == Now(m, h, z.ins[i]);
      assert seq(|args|, i requires 0 <= i < |args| => Denote(m, args[i])) == Reads(mem, z);
    }
  }

  /** Equal memories hold equal values. */
  lemma SameValues(m: Machine, h: seq<Op>, q: seq<Op>, l: Loc)
    requires SameMemory(h, q)
    ensures Now(m, h, l) == Now(m, q, l)
  {
    assert ValueAt(h, l) == ValueAt(q, l);
  }

  // ---- the operations of a phase as a list ----

  lemma EnterOps(own: nat, before: nat, seen: nat, op: Op)
    ensures T.AllOps(T.Enter(own, before, seen, op)) == [op]
  {
    var s := T.Enter(own, before, seen, op);
    assert Ops(s, 1) == [];
    assert Ops(s, 2) == [];
    assert Ops(s, 3) == [op];
  }

  lemma WaitOps(own: nat, seen: nat, op: Op)
    ensures T.AllOps(T.Wait(own, seen, op)) == [op]
  {
    var s := T.Wait(own, seen, op);
    assert Ops(s, 1) == [];
    assert Ops(s, 2) == [op];
  }

  lemma JustOps(own: nat, seen: nat, op: Op)
    ensures T.AllOps(T.Just(own, seen, op)) == [op]
  {
    assert Ops(T.Just(own, seen, op), 1) == [op];
  }

  lemma FinishOps(own: nat, seen: nat, op: Op, next: nat)
    ensures T.AllOps(T.Finish(own, seen, op, next)) == [op]
  {
    var s := T.Finish(own, seen, op, next);
    assert Ops(s, 1) == [op];
    assert Ops(s, 2) == [op];
  }

  // ---- the gcd threads and their readers ----

  function Gcd(first: bool): Loc { if first then Gcd10 else GcdST }

  function Threshold(m: Machine, first: bool): nat { if first then 0 else m.L }

  function GcdPlan(m: Machine, n: nat, first: bool): seq<nat> { if first then m.Plan(n).0 else m.Plan(n).1 }

  predicate IsEntryOf(first: bool, l: Loc) { if first then l.Entry10? else l.EntryST? }

  /** The remainders before batch n. */
  function Remainders(x: int, y: int, threshold: nat, plan: seq<nat>, n: nat): (int, int) {
    Left(x, y, threshold, plan, if n == 0 then 0 else n - 1)
  }

  lemma BatchFollows(x: int, y: int, threshold: nat, plan: seq<nat>, n: nat)
    ensures var r := Remainders(x, y, threshold, plan, n);
            AfterBatch(r.0, r.1, threshold, plan, n) == Left(x, y, threshold, plan, n)
            && NextEntry(r.0, r.1, threshold, plan, n) == EntryAt(x, y, threshold, plan, n)
  {}

  function PublishOp(key: nat, j: nat, first: bool): Op { Op(key + j, [Gcd(first)], [Gcd(first), T.Entry(first, j)]) }

  lemma PublishMeans(m: Machine, t: T.Iter, j: nat, first: bool, l: Loc, args: seq<F.Content>)
    requires j < T.NUM_COUNTER
    ensures Meaning(m, PublishOp(t.K(if first then 0 else 2) + 1, j, first), l, args)
         == PublishMeaning(l, args, Threshold(m, first), GcdPlan(m, t.n, first), j)
  {
    KeyParts(t, if first then 0 else 2, 1 + j);
  }

  /** One entry is published: g and e are the new content of the gcd and of the entry. */
  lemma PublishOne(m: Machine, mem: Memory, t: T.Iter, j: nat, first: bool, r: (int, int), g: (int, int), e: Entry, l: Loc)
    requires j < T.NUM_COUNTER && mem(Gcd(first)) == Two(r)
    requires g == AfterBatch(r.0, r.1, Threshold(m, first), GcdPlan(m, t.n, first), j)
    requires e == NextEntry(r.0, r.1, Threshold(m, first), GcdPlan(m, t.n, first), j)
    ensures Exec(m, mem, PublishOp(t.K(if first then 0 else 2) + 1, j, first))(l)
         == if l == Gcd(first) then Two(g) else if l == T.Entry(first, j) then F.Published(e) else mem(l)
  {
    var op := PublishOp(t.K(if first then 0 else 2) + 1, j, first);
    PublishMeans(m, t, j, first, l, Reads(mem, op));
  }

  function PublishOps(key: nat, n: nat, first: bool): seq<Op> {
    if n == 0 then [] else PublishOps(key, n - 1, first) + [PublishOp(key, n - 1, first)]
  }

  lemma {:induction false} PublishOpsAre(base: nat, seen: nat, key: nat, n: nat, first: bool)
    ensures T.AllOps(T.Publish(base, seen, key, n, first)) == PublishOps(key, n, first)
    decreases n
  {
    if n > 0 {
      var j: nat := n - 1;
      var own := if j == 0 then base else base + j - 1;
      PublishOpsAre(base, seen, key, j, first);
      FinishOps(own, seen, PublishOp(key, j, first), base + j);
      T.AllOpsConcat(T.Publish(base, seen, key, j, first), T.Finish(own, seen, PublishOp(key, j, first), base + j));
    }
  }

  /** Entries and remainders of a gcd, batch by batch. */
  ghost predicate IsTrail(es: seq<Entry>, rs: seq<(int, int)>, threshold: nat, plan: seq<nat>) {
    && |rs| == |es| + 1
    && forall j: nat :: Opened(OfGcd, j) && j < |es| ==>
         rs[j + 1] == AfterBatch(rs[j].0, rs[j].1, threshold, plan, j) && es[j] == NextEntry(rs[j].0, rs[j].1, threshold, plan, j)
  }

  lemma EntriesTrail(x: int, y: int, threshold: nat, plan: seq<nat>, n: nat) returns (rs: seq<(int, int)>)
    ensures IsTrail(Entries(x, y, threshold, plan, n), rs, threshold, plan) && rs[0] == (x, y) && rs[n + 1] == Left(x, y, threshold, plan, n)
  {
    rs := seq(n + 2, j requires 0 <= j < n + 2 => Remainders(x, y, threshold, plan, j));
    forall j: nat | j <= n
      ensures rs[j + 1] == AfterBatch(rs[j].0, rs[j].1, threshold, plan, j)
      ensures EntryAt(x, y, threshold, plan, j) == NextEntry(rs[j].0, rs[j].1, threshold, plan, j)
    {
      BatchFollows(x, y, threshold, plan, j);
    }
  }

  /** n entries have been published, and r is left. */
  ghost predicate HavePublished(mem: Memory, mem2: Memory, first: bool, n: nat, es: seq<Entry>, r: (int, int))
    requires n <= |es|
  {
    && mem2(Gcd(first)) == Two(r)
    && (forall j: nat :: j < n ==> mem2(T.Entry(first, j)) == F.Published(es[j]))
    && forall l :: l != Gcd(first) && !IsEntryOf(first, l) ==> mem2(l) == mem(l)
  }

  lemma PublishedMore(mem: Memory, mem1: Memory, mem2: Memory, first: bool, n: nat, es: seq<Entry>, r: (int, int), g: (int, int))
    requires n < |es| && HavePublished(mem, mem1, first, n, es, r)
    requires forall l :: mem2(l) == if l == Gcd(first) then Two(g) else if l == T.Entry(first, n) then F.Published(es[n]) else mem1(l)
    ensures HavePublished(mem, mem2, first, n + 1, es, g)
  {
    forall j: nat | j < n + 1
      ensures mem2(T.Entry(first, j)) == F.Published(es[j])
    {
      if j < n {
        assert mem2(T.Entry(first, j)) == mem1(T.Entry(first, j));
      }
    }
  }

  /** The first key, the threshold and the plan of a gcd. */
  predicate IsGcdOf(m: Machine, t: T.Iter, first: bool, key: nat, threshold: nat, plan: seq<nat>) {
    key == t.K(if first then 0 else 2) + 1 && threshold == Threshold(m, first) && plan == GcdPlan(m, t.n, first)
  }

  lemma PublishStep(m: Machine, mem: Memory, mem1: Memory, mem2: Memory, t: T.Iter, j: nat, first: bool, key: nat,
                    es: seq<Entry>, rs: seq<(int, int)>, threshold: nat, plan: seq<nat>)
    requires IsGcdOf(m, t, first, key, threshold, plan) && IsTrail(es, rs, threshold, plan)
    requires j < T.NUM_COUNTER && j < |es| && HavePublished(mem, mem1, first, j, es, rs[j]) && mem2 == Exec(m, mem1, PublishOp(key, j, first))
    ensures HavePublished(mem, mem2, first, j + 1, es, rs[j + 1])
  {
    assert Opened(OfGcd, j);
    forall l
      ensures mem2(l) == if l == Gcd(first) then Two(rs[j + 1]) else if l == T.Entry(first, j) then F.Published(es[j]) else mem1(l)
    {
      PublishOne(m, mem1, t, j, first, rs[j], rs[j + 1], es[j], l);
    }
    PublishedMore(mem, mem1, mem2, first, j, es, rs[j], rs[j + 1]);
  }

  /** Publishing n entries leaves the entries and the remainders of the gcd. */
  lemma {:induction false} PublishValues(m: Machine, mem: Memory, t: T.Iter, n: nat, first: bool, key: nat,
                                         es: seq<Entry>, rs: seq<(int, int)>, threshold: nat, plan: seq<nat>)
    requires IsGcdOf(m, t, first, key, threshold, plan) && IsTrail(es, rs, threshold, plan)
    requires n <= T.NUM_COUNTER && n <= |es| && mem(Gcd(first)) == Two(rs[0])
    ensures HavePublished(mem, ExecAll(m, mem, PublishOps(key, n, first)), first, n, es, rs[n])
    decreases n
  {
    if n > 0 {
      var ops := PublishOps(key, n - 1, first);
      PublishValues(m, mem, t, n - 1, first, key, es, rs, threshold, plan);
      ExecMore(m, mem, ops, PublishOp(key, n - 1, first));
      PublishStep(m, mem, ExecAll(m, mem, ops), ExecAll(m, mem, PublishOps(key, n, first)), t, n - 1, first, key, es, rs, threshold, plan);
    }
  }

  function ReceiveOp(key: nat, j: nat, first: bool, x: Loc): Op { Op(key + j, [T.Entry(first, j), x], if j == 0 then [] else [x]) }

  function ReceiveOps(key: nat, n: nat, first: bool, x: Loc): seq<Op> {
    if n == 0 then [] else ReceiveOps(key, n - 1, first, x) + [ReceiveOp(key, n - 1, first, x)]
  }

  lemma {:induction false} ReceiveOpsAre(own: nat, base: nat, key: nat, n: nat, first: bool, x: Loc)
    ensures T.AllOps(T.Receive(own, base, key, n, first, x)) == ReceiveOps(key, n, first, x)
    decreases n
  {
    if n > 0 {
      var j: nat := n - 1;
      ReceiveOpsAre(own, base, key, j, first, x);
      WaitOps(own, base + j + 1, ReceiveOp(key, j, first, x));
      T.AllOpsConcat(T.Receive(own, base, key, j, first, x), T.Wait(own, base + j + 1, ReceiveOp(key, j, first, x)));
    }
  }

  /** Only x has changed. */
  ghost predicate Changed(mem: Memory, mem2: Memory, x: Loc, c: F.Content) {
    forall l :: mem2(l) == if l == x then c else mem(l)
  }

  /** The pair after n entries. */
  function Received(es: seq<Entry>, n: nat, p: (int, int)): (int, int)
    requires n <= |es| && |es| > 0
  {
    Fold(es, if n == 0 then 0 else n - 1, p.0, p.1)
  }

  lemma ReceivedMore(es: seq<Entry>, n: nat, p: (int, int))
    requires n < |es|
    ensures var q := Received(es, n, p); Received(es, n + 1, p) == if n > 0 then MatrixMultiply(es[n], q.0, q.1) else q
  {}

  lemma ReceiveStep(m: Machine, mem: Memory, mem1: Memory, key: nat, j: nat, first: bool, x: Loc, e: Entry, p: (int, int), g: (int, int))
    requires !IsEntry(x) && mem(T.Entry(first, j)) == F.Published(e) && Changed(mem, mem1, x, Two(p))
    requires g == if j > 0 then MatrixMultiply(e, p.0, p.1) else p
    ensures Changed(mem, Exec(m, mem1, ReceiveOp(key, j, first, x)), x, Two(g))
  {}

  /** Receiving the entries applies them in order. */
  lemma {:induction false} ReceiveValues(m: Machine, mem: Memory, key: nat, n: nat, first: bool, x: Loc, es: seq<Entry>, p: (int, int))
    requires n <= |es| && |es| > 0 && !IsEntry(x) && mem(x) == Two(p)
    requires forall j: nat :: j < n ==> mem(T.Entry(first, j)) == F.Published(es[j])
    ensures Changed(mem, ExecAll(m, mem, ReceiveOps(key, n, first, x)), x, Two(Received(es, n, p)))
    decreases n
  {
    if n > 0 {
      var ops := ReceiveOps(key, n - 1, first, x);
      ReceiveValues(m, mem, key, n - 1, first, x, es, p);
      ReceivedMore(es, n - 1, p);
      ReceiveStep(m, mem, ExecAll(m, mem, ops), key, n - 1, first, x, es[n - 1], Received(es, n - 1, p), Received(es, n, p));
      ExecMore(m, mem, ops, ReceiveOp(key, n - 1, first, x));
    }
  }

  // ---- operations one after the other ----

  ghost predicate Same(x: Memory, y: Memory) { x == y }

  /** Executing h on mem gives mem2. It is carried along as it is, and used where a lemma mentions Same. */
  ghost predicate Does(m: Machine, mem: Memory, h: seq<Op>, mem2: Memory) {
    forall x :: Same(x, mem2) ==> x == ExecAll(m, mem, h)
  }

  lemma ExecOne(m: Machine, mem: Memory, z: Op)
    ensures ExecAll(m, mem, [z]) == Exec(m, mem, z)
  {
    assert [z][..0] == [];
  }

  lemma DoesOne(m: Machine, mem: Memory, z: Op, mem2: Memory)
    requires Does(m, mem, [z], mem2)
    ensures mem2 == Exec(m, mem, z)
  {
    assert Same(mem2, mem2);
    ExecOne(m, mem, z);
  }

  lemma DoesSplit(m: Machine, mem: Memory, h: seq<Op>, q: seq<Op>, mem2: Memory) returns (mem1: Memory)
    requires Does(m, mem, h + q, mem2)
    ensures Does(m, mem, h, mem1) && Does(m, mem1, q, mem2)
  {
    assert Same(mem2, mem2);
    mem1 := ExecAll(m, mem, h);
    ExecConcat(m, mem, h, q);
  }

  lemma Means(m: Machine, t: T.Iter, phase: nat, i: nat, op: Op, l: Loc, args: seq<F.Content>)
    requires phase < 10 && i < T.PHASE_KEYS && op.key == t.K(phase) + i && !Publishes(op) && !Receives(op)
    ensures Meaning(m, op, l, args) == PhaseMeaning(m, phase, i, l, args)
  {
    KeyParts(t, phase, i);
  }

  /** What an operation of a phase writes, and what it leaves. */
  lemma WritesAt(m: Machine, mem: Memory, t: T.Iter, phase: nat, i: nat, op: Op, l: Loc, args: seq<F.Content>, mem2: Memory)
    requires phase < 10 && i < T.PHASE_KEYS && op.key == t.K(phase) + i && !Publishes(op) && !Receives(op)
    requires Does(m, mem, [op], mem2) && l in op.outs && args == Reads(mem, op)
    ensures mem2(l) == PhaseMeaning(m, phase, i, l, args)
  {
    DoesOne(m, mem, op, mem2);
    Means(m, t, phase, i, op, l, args);
  }

  lemma Leaves(m: Machine, mem: Memory, op: Op, mem2: Memory)
    requires Does(m, mem, [op], mem2)
    ensures forall l :: l !in op.outs ==> mem2(l) == mem(l)
  {
    DoesOne(m, mem, op, mem2);
  }

  lemma WritesOne(m: Machine, mem: Memory, t: T.Iter, phase: nat, i: nat, op: Op, x: Loc, args: seq<F.Content>, c: F.Content, mem2: Memory)
    requires phase < 10 && i < T.PHASE_KEYS && op.key == t.K(phase) + i && !Publishes(op) && !Receives(op)
    requires Does(m, mem, [op], mem2) && op.outs == [x] && args == Reads(mem, op) && PhaseMeaning(m, phase, i, x, args) == c
    ensures Changed(mem, mem2, x, c)
  {
    WritesAt(m, mem, t, phase, i, op, x, args, mem2);
    Leaves(m, mem, op, mem2);
  }

  lemma ThreePieces(a: seq<Instr>, b: seq<Instr>, c: seq<Instr>)
    ensures T.AllOps(a + b + c) == T.AllOps(a) + T.AllOps(b) + T.AllOps(c)
  {
    T.AllOpsConcat(a, b);
    T.AllOpsConcat(a + b, c);
  }

  lemma TwoOps(a: seq<Instr>, b: seq<Instr>, x: Op, y: Op)
    requires T.AllOps(a) == [x] && T.AllOps(b) == [y]
    ensures T.AllOps(a + b) == [x] + [y]
  {
    T.AllOpsConcat(a, b);
  }

  /** Between iterations: the current slots, their comparison and the two counters. */
  ghost predicate Holding(mem: Memory, n: nat, x: Square) { HoldingAt(mem, n % 2, n, x) }

  ghost predicate HoldingAt(mem: Memory, slot: nat, n: nat, x: Square) {
    && mem(AbIndex) == One(slot) && mem(ASlot(slot)) == One(x.a) && mem(BSlot(slot)) == One(x.b)
    && mem(Higher) == One(F.Truth(x.higher)) && mem(NumValid) == One(n)
  }

  // ---- the gcds: phase 0 of the master, phase 1 of the slave ----

  function StartOp(t: T.Iter, first: bool): Op {
    if first then Op(t.K(0), [AbIndex, ASlot(t.Cur()), BSlot(t.Cur()), Higher], [Gcd10])
    else Op(t.K(2), [AbIndex, ASlot(t.Cur()), Cofactors, KIndex], [GcdST])
  }

  function EndOp(t: T.Iter, first: bool): Op {
    if first then Op(t.K(0) + t.m0 + 2, [Gcd10], [Gcd10]) else Op(t.K(2) + t.m1 + 2, [GcdST], [GcdST])
  }

  function GcdOps(t: T.Iter, first: bool): seq<Op> {
    [StartOp(t, first)] + PublishOps(t.K(if first then 0 else 2) + 1, (if first then t.m0 else t.m1) + 1, first) + [EndOp(t, first)]
  }

  lemma FirstGcdOps(t: T.Iter, seen: nat)
    ensures T.AllOps(T.Phase0Master(t, seen)) == GcdOps(t, true)
  {
    var c, k := t.C(), t.K(0);
    EnterOps(c, seen, c, StartOp(t, true));
    PublishOpsAre(c, c, k + 1, t.m0 + 1, true);
    FinishOps(c + t.m0, c, EndOp(t, true), c + T.NUM_COUNTER);
    ThreePieces(T.Enter(c, seen, c, StartOp(t, true)), T.Publish(c, c, k + 1, t.m0 + 1, true), T.Finish(c + t.m0, c, EndOp(t, true), c + T.NUM_COUNTER));
  }

  lemma SecondGcdOps(t: T.Iter)
    ensures T.AllOps(T.Phase1Slave(t)) == GcdOps(t, false)
  {
    var c, k, s := t.C() + T.PHASE_1, t.K(2), t.C() + t.m0 + 1;
    EnterOps(c, s, s, StartOp(t, false));
    PublishOpsAre(c, s, k + 1, t.m1 + 1, false);
    FinishOps(c + t.m1, s, EndOp(t, false), c + T.NUM_COUNTER);
    ThreePieces(T.Enter(c, s, s, StartOp(t, false)), T.Publish(c, s, k + 1, t.m1 + 1, false), T.Finish(c + t.m1, s, EndOp(t, false), c + T.NUM_COUNTER));
  }

  lemma EndKeeps(m: Machine, mem: Memory, t: T.Iter, first: bool, r: (int, int), mem2: Memory)
    requires t.Valid() && mem(Gcd(first)) == Two(r) && Does(m, mem, [EndOp(t, first)], mem2)
    ensures Changed(mem, mem2, Gcd(first), Two(r))
  {
    var op := EndOp(t, first);
    WritesOne(m, mem, t, if first then 0 else 2, (if first then t.m0 else t.m1) + 2, op, Gcd(first), Reads(mem, op), Two(r), mem2);
  }

  lemma PublishDoes(m: Machine, mem: Memory, t: T.Iter, n: nat, first: bool, key: nat, es: seq<Entry>, rs: seq<(int, int)>, threshold: nat,
                    plan: seq<nat>, mem2: Memory)
    requires IsGcdOf(m, t, first, key, threshold, plan) && IsTrail(es, rs, threshold, plan)
    requires n <= T.NUM_COUNTER && n <= |es| && mem(Gcd(first)) == Two(rs[0]) && Does(m, mem, PublishOps(key, n, first), mem2)
    ensures HavePublished(mem, mem2, first, n, es, rs[n])
  {
    assert Same(mem2, mem2);
    PublishValues(m, mem, t, n, first, key, es, rs, threshold, plan);
  }

  /** A gcd thread publishes the entries of the gcd of what it has read. */
  lemma GcdValues(m: Machine, mem: Memory, t: T.Iter, first: bool, key: nat, x: int, y: int, threshold: nat, plan: seq<nat>, n: nat, mem3: Memory)
    requires t.Valid() && IsGcdOf(m, t, first, key, threshold, plan) && n == (if first then t.m0 else t.m1)
    requires StartsGcd(m, mem, t, first, (x, y)) && Does(m, mem, GcdOps(t, first), mem3)
    ensures HavePublished(mem, mem3, first, n + 1, Entries(x, y, threshold, plan, n), Left(x, y, threshold, plan, n))
  {
    var es := Entries(x, y, threshold, plan, n);
    var rs := EntriesTrail(x, y, threshold, plan, n);
    var mem2 := DoesSplit(m, mem, [StartOp(t, first)] + PublishOps(key, n + 1, first), [EndOp(t, first)], mem3);
    var mem1 := DoesSplit(m, mem, [StartOp(t, first)], PublishOps(key, n + 1, first), mem2);
    PublishDoes(m, mem1, t, n + 1, first, key, es, rs, threshold, plan, mem2);
    EndKeeps(m, mem2, t, first, rs[n + 1], mem3);
    PublishedBetween(mem, mem1, mem2, mem3, first, n + 1, es, (x, y), rs[n + 1]);
  }

  /** The first operation of a gcd puts this pair in its place. */
  ghost predicate StartsGcd(m: Machine, mem: Memory, t: T.Iter, first: bool, p: (int, int)) {
    forall mem1 :: Does(m, mem, [StartOp(t, first)], mem1) ==> Changed(mem, mem1, Gcd(first), Two(p))
  }

  lemma PublishedBetween(mem: Memory, mem1: Memory, mem2: Memory, mem3: Memory, first: bool, n: nat, es: seq<Entry>, p: (int, int), r: (int, int))
    requires n <= |es| && Changed(mem, mem1, Gcd(first), Two(p)) && HavePublished(mem1, mem2, first, n, es, r) && Changed(mem2, mem3, Gcd(first), Two(r))
    ensures HavePublished(mem, mem3, first, n, es, r)
  {}

  lemma FirstGcdStarts(m: Machine, mem: Memory, t: T.Iter, x: Square)
    requires Holding(mem, t.n, x)
    ensures StartsGcd(m, mem, t, true, FirstPair(x.a, x.b, x.higher))
  {
    var op := StartOp(t, true);
    forall mem1 | Does(m, mem, [op], mem1)
      ensures Changed(mem, mem1, Gcd10, Two(FirstPair(x.a, x.b, x.higher)))
    {
      WritesOne(m, mem, t, 0, 0, op, Gcd10, Reads(mem, op), Two(FirstPair(x.a, x.b, x.higher)), mem1);
    }
  }

  lemma SecondGcdStarts(m: Machine, mem: Memory, t: T.Iter, a: int, k: int)
    requires mem(ASlot(t.Cur())) == One(a) && mem(KIndex) == One(k)
    ensures StartsGcd(m, mem, t, false, (a, k))
  {
    var op := StartOp(t, false);
    forall mem1 | Does(m, mem, [op], mem1)
      ensures Changed(mem, mem1, GcdST, Two((a, k)))
    {
      WritesOne(m, mem, t, 2, 0, op, GcdST, Reads(mem, op), Two((a, k)), mem1);
    }
  }

  // ---- phase 0 of the slave ----

  function CheckOp(t: T.Iter): Op { Op(t.K(1), [AbIndex, ASlot(t.Cur()), BSlot(t.Cur())], [Validation, Loc.C]) }

  function CofactorsOp(t: T.Iter): Op { Op(t.K(1) + 1, [AbIndex, BSlot(t.Cur()), Higher], [Cofactors]) }

  function KOp(t: T.Iter): Op { Op(t.K(1) + t.m0 + 3, [Cofactors, Loc.C, AbIndex, ASlot(t.Cur())], [Cofactors, KIndex]) }

  lemma Phase0SlaveOps(t: T.Iter, seen: nat)
    ensures T.AllOps(T.Phase0Slave(t, seen)) == [CheckOp(t)] + [CofactorsOp(t)] + ReceiveOps(t.K(1) + 2, t.m0 + 1, true, Cofactors) + [KOp(t)]
  {
    var c, k := t.C(), t.K(1);
    EnterOps(c, seen, c, CheckOp(t));
    JustOps(c, c, CofactorsOp(t));
    ReceiveOpsAre(c, c, k + 2, t.m0 + 1, true, Cofactors);
    JustOps(c, c + t.m0 + 1, KOp(t));
    var p0, p1, p2, p3 := T.Enter(c, seen, c, CheckOp(t)), T.Just(c, c, CofactorsOp(t)), T.Receive(c, c, k + 2, t.m0 + 1, true, Cofactors), T.Just(c, c + t.m0 + 1, KOp(t));
    ThreePieces(p0, p1, p2);
    T.AllOpsConcat(p0 + p1 + p2, p3);
  }

  ghost predicate HaveC(mem: Memory, mem2: Memory, c: int) {
    mem2(Loc.C) == One(c) && forall l :: l != Validation && l != Loc.C ==> mem2(l) == mem(l)
  }

  lemma CheckValues(m: Machine, mem: Memory, t: T.Iter, a: int, b: int, mem2: Memory)
    requires mem(ASlot(t.Cur())) == One(a) && mem(BSlot(t.Cur())) == One(b) && Does(m, mem, [CheckOp(t)], mem2)
    ensures HaveC(mem, mem2, COf(a, b, m.D))
  {
    var op := CheckOp(t);
    WritesAt(m, mem, t, 1, 0, op, Loc.C, Reads(mem, op), mem2);
    Leaves(m, mem, op, mem2);
  }

  lemma CofactorsValues(m: Machine, mem: Memory, t: T.Iter, b: int, higher: bool, mem2: Memory)
    requires mem(BSlot(t.Cur())) == One(b) && mem(Higher) == One(F.Truth(higher)) && Does(m, mem, [CofactorsOp(t)], mem2)
    ensures Changed(mem, mem2, Cofactors, Two(FirstCofactors(b, higher)))
  {
    var op := CofactorsOp(t);
    WritesOne(m, mem, t, 1, 1, op, Cofactors, Reads(mem, op), Two(FirstCofactors(b, higher)), mem2);
  }

  ghost predicate HaveK(mem: Memory, mem2: Memory, k: int) {
    mem2(KIndex) == One(k) && forall l :: l != Cofactors && l != KIndex ==> mem2(l) == mem(l)
  }

  lemma KNumbers(m: Machine, args: seq<F.Content>, i: nat, u: (int, int), c: int, a: int)
    requires |args| == 4 && i >= 2 && args[0] == Two(u) && args[1] == One(c) && args[3] == One(a)
    ensures PhaseMeaning(m, 1, i, KIndex, args) == One(KOf(a, c, u.0))
  {}

  lemma KValues(m: Machine, mem: Memory, t: T.Iter, u: (int, int), c: int, a: int, mem2: Memory)
    requires t.Valid() && mem(Cofactors) == Two(u) && mem(Loc.C) == One(c) && mem(ASlot(t.Cur())) == One(a) && Does(m, mem, [KOp(t)], mem2)
    ensures HaveK(mem, mem2, KOf(a, c, u.0))
  {
    var op := KOp(t);
    KNumbers(m, Reads(mem, op), t.m0 + 3, u, c, a);
    WritesAt(m, mem, t, 1, t.m0 + 3, op, KIndex, Reads(mem, op), mem2);
    Leaves(m, mem, op, mem2);
  }

  lemma EntriesKept(mem: Memory, mem1: Memory, x: Loc, c: F.Content, first: bool, es: seq<Entry>, n: nat)
    requires Changed(mem, mem1, x, c) && !IsEntry(x) && n <= |es| && forall j: nat :: j < n ==> mem(T.Entry(first, j)) == F.Published(es[j])
    ensures mem1(x) == c && forall j: nat :: j < n ==> mem1(T.Entry(first, j)) == F.Published(es[j])
  {}

  predicate SamePair(q: (int, int), w: (int, int)) { q == w }

  /** w is what receiving n entries makes of p. */
  ghost predicate IsReceived(es: seq<Entry>, n: nat, p: (int, int), w: (int, int)) {
    forall q :: SamePair(q, w) ==> n <= |es| && |es| > 0 && q == Received(es, n, p)
  }

  lemma ReceiveDoes(m: Machine, mem: Memory, key: nat, n: nat, first: bool, x: Loc, es: seq<Entry>, p: (int, int), w: (int, int), mem2: Memory)
    requires n <= |es| && |es| > 0 && !IsEntry(x) && mem(x) == Two(p) && Does(m, mem, ReceiveOps(key, n, first, x), mem2)
    requires (forall j: nat :: j < n ==> mem(T.Entry(first, j)) == F.Published(es[j])) && IsReceived(es, n, p, w)
    ensures Changed(mem, mem2, x, Two(w))
  {
    assert Same(mem2, mem2) && SamePair(w, w);
    ReceiveValues(m, mem, key, n, first, x, es, p);
  }

  /** What phase 0 of the slave leaves. */
  ghost predicate HaveCK(mem: Memory, mem2: Memory, c: int, k: int) {
    mem2(Loc.C) == One(c) && mem2(KIndex) == One(k)
    && forall l :: l != Validation && l != Loc.C && l != Cofactors && l != KIndex ==> mem2(l) == mem(l)
  }

  lemma CheckedKeeps(mem: Memory, mem1: Memory, c: int, slot: nat, es: seq<Entry>, n: nat)
    requires HaveC(mem, mem1, c) && n <= |es| && forall j: nat :: j < n ==> mem(T.Entry(true, j)) == F.Published(es[j])
    ensures mem1(Loc.C) == One(c) && mem1(ASlot(slot)) == mem(ASlot(slot)) && mem1(BSlot(slot)) == mem(BSlot(slot)) && mem1(Higher) == mem(Higher)
    ensures forall j: nat :: j < n ==> mem1(T.Entry(true, j)) == F.Published(es[j])
  {}

  lemma ChangedTwice(mem: Memory, mem1: Memory, mem2: Memory, x: Loc, c: F.Content, d: F.Content)
    requires Changed(mem, mem1, x, c) && Changed(mem1, mem2, x, d)
    ensures Changed(mem, mem2, x, d)
  {}

  lemma KAfterReceiving(mem2: Memory, mem3: Memory, mem4: Memory, w: F.Content, k: int)
    requires Changed(mem2, mem3, Cofactors, w) && HaveK(mem3, mem4, k)
    ensures HaveK(mem2, mem4, k)
  {}

  lemma ReceiveThenK(m: Machine, mem2: Memory, mem3: Memory, mem4: Memory, t: T.Iter, key: nat, a: int, c: int, es: seq<Entry>, u: (int, int), w: (int, int))
    requires t.Valid() && |es| == t.m0 + 1 && mem2(Cofactors) == Two(u) && mem2(Loc.C) == One(c) && mem2(ASlot(t.Cur())) == One(a)
    requires (forall j: nat :: j < t.m0 + 1 ==> mem2(T.Entry(true, j)) == F.Published(es[j])) && IsReceived(es, t.m0 + 1, u, w)
    requires Does(m, mem2, ReceiveOps(key, t.m0 + 1, true, Cofactors), mem3) && Does(m, mem3, [KOp(t)], mem4)
    ensures HaveK(mem2, mem4, KOf(a, c, w.0))
  {
    ReceiveDoes(m, mem2, key, t.m0 + 1, true, Cofactors, es, u, w, mem3);
    KValues(m, mem3, t, w, c, a, mem4);
    KAfterReceiving(mem2, mem3, mem4, Two(w), KOf(a, c, w.0));
  }

  lemma CKTogether(mem: Memory, mem1: Memory, mem2: Memory, mem4: Memory, c: int, u: F.Content, k: int)
    requires HaveC(mem, mem1, c) && Changed(mem1, mem2, Cofactors, u) && HaveK(mem2, mem4, k)
    ensures HaveCK(mem, mem4, c, k)
  {}

  lemma Phase0SlaveSplit(m: Machine, mem: Memory, t: T.Iter, seen: nat, mem4: Memory) returns (mem1: Memory, mem2: Memory, mem3: Memory)
    requires Does(m, mem, T.AllOps(T.Phase0Slave(t, seen)), mem4)
    ensures Does(m, mem, [CheckOp(t)], mem1) && Does(m, mem1, [CofactorsOp(t)], mem2)
    ensures Does(m, mem2, ReceiveOps(t.K(1) + 2, t.m0 + 1, true, Cofactors), mem3) && Does(m, mem3, [KOp(t)], mem4)
  {
    var ops := ReceiveOps(t.K(1) + 2, t.m0 + 1, true, Cofactors);
    Phase0SlaveOps(t, seen);
    mem3 := DoesSplit(m, mem, [CheckOp(t)] + [CofactorsOp(t)] + ops, [KOp(t)], mem4);
    mem2 := DoesSplit(m, mem, [CheckOp(t)] + [CofactorsOp(t)], ops, mem3);
    mem1 := DoesSplit(m, mem, [CheckOp(t)], [CofactorsOp(t)], mem2);
  }

  lemma SlaveBegins(m: Machine, mem: Memory, mem1: Memory, mem2: Memory, t: T.Iter, a: int, b: int, higher: bool, es: seq<Entry>, u: (int, int))
    requires |es| == t.m0 + 1 && mem(ASlot(t.Cur())) == One(a) && mem(BSlot(t.Cur())) == One(b) && mem(Higher) == One(F.Truth(higher))
    requires forall j: nat :: j < t.m0 + 1 ==> mem(T.Entry(true, j)) == F.Published(es[j])
    requires Does(m, mem, [CheckOp(t)], mem1) && Does(m, mem1, [CofactorsOp(t)], mem2) && u == FirstCofactors(b, higher)
    ensures HaveC(mem, mem1, COf(a, b, m.D)) && Changed(mem1, mem2, Cofactors, Two(u))
    ensures mem2(Cofactors) == Two(u) && mem2(Loc.C) == One(COf(a, b, m.D)) && mem2(ASlot(t.Cur())) == One(a)
    ensures forall j: nat :: j < t.m0 + 1 ==> mem2(T.Entry(true, j)) == F.Published(es[j])
  {
    CheckValues(m, mem, t, a, b, mem1);
    CheckedKeeps(mem, mem1, COf(a, b, m.D), t.Cur(), es, t.m0 + 1);
    CofactorsValues(m, mem1, t, b, higher, mem2);
    EntriesKept(mem1, mem2, Cofactors, Two(u), true, es, t.m0 + 1);
  }

  lemma SlaveParts(m: Machine, mem: Memory, mem1: Memory, mem2: Memory, mem3: Memory, mem4: Memory, t: T.Iter, key: nat, a: int, b: int, c: int, higher: bool,
                   es: seq<Entry>, u: (int, int), w: (int, int))
    requires t.Valid() && |es| == t.m0 + 1 && mem(ASlot(t.Cur())) == One(a) && mem(BSlot(t.Cur())) == One(b) && mem(Higher) == One(F.Truth(higher))
    requires forall j: nat :: j < t.m0 + 1 ==> mem(T.Entry(true, j)) == F.Published(es[j])
    requires u == FirstCofactors(b, higher) && IsReceived(es, t.m0 + 1, u, w) && c == COf(a, b, m.D)
    requires Does(m, mem, [CheckOp(t)], mem1) && Does(m, mem1, [CofactorsOp(t)], mem2)
    requires Does(m, mem2, ReceiveOps(key, t.m0 + 1, true, Cofactors), mem3) && Does(m, mem3, [KOp(t)], mem4)
    ensures HaveCK(mem, mem4, c, KOf(a, c, w.0))
  {
    SlaveBegins(m, mem, mem1, mem2, t, a, b, higher, es, u);
    ReceiveThenK(m, mem2, mem3, mem4, t, key, a, c, es, u, w);
    CKTogether(mem, mem1, mem2, mem4, c, Two(u), KOf(a, c, w.0));
  }

  lemma Phase0SlaveValues(m: Machine, mem: Memory, t: T.Iter, seen: nat, a: int, b: int, higher: bool, es: seq<Entry>, u: (int, int), w: (int, int), mem4: Memory)
    requires t.Valid() && |es| == t.m0 + 1 && mem(ASlot(t.Cur())) == One(a) && mem(BSlot(t.Cur())) == One(b) && mem(Higher) == One(F.Truth(higher))
    requires forall j: nat :: j < t.m0 + 1 ==> mem(T.Entry(true, j)) == F.Published(es[j])
    requires u == FirstCofactors(b, higher) && IsReceived(es, t.m0 + 1, u, w) && Does(m, mem, T.AllOps(T.Phase0Slave(t, seen)), mem4)
    ensures HaveCK(mem, mem4, COf(a, b, m.D), KOf(a, COf(a, b, m.D), w.0))
  {
    var mem1, mem2, mem3 := Phase0SlaveSplit(m, mem, t, seen, mem4);
    SlaveParts(m, mem, mem1, mem2, mem3, mem4, t, t.K(1) + 2, a, b, COf(a, b, m.D), higher, es, u, w);
  }

  // ---- phase 1 of the master ----

  function VStartOp(t: T.Iter): Op { Op(t.K(3), [], [V01]) }

  function VEndOp(t: T.Iter): Op { Op(t.K(3) + t.m1 + 2, [V01], [V01]) }

  lemma Phase1MasterOps(t: T.Iter)
    ensures T.AllOps(T.Phase1Master(t)) == [VStartOp(t)] + ReceiveOps(t.K(3) + 1, t.m1 + 1, false, V01) + [VEndOp(t)]
  {
    var c, k := t.C() + T.PHASE_1, t.K(3);
    EnterOps(c, t.C(), c, VStartOp(t));
    ReceiveOpsAre(c, c, k + 1, t.m1 + 1, false, V01);
    JustOps(c, c + t.m1 + 1, VEndOp(t));
    ThreePieces(T.Enter(c, t.C(), c, VStartOp(t)), T.Receive(c, c, k + 1, t.m1 + 1, false, V01), T.Just(c, c + t.m1 + 1, VEndOp(t)));
  }

  lemma VStarts(m: Machine, mem: Memory, t: T.Iter, mem2: Memory)
    requires Does(m, mem, [VStartOp(t)], mem2)
    ensures Changed(mem, mem2, V01, Two((0, 1)))
  {
    var op := VStartOp(t);
    WritesOne(m, mem, t, 3, 0, op, V01, Reads(mem, op), Two((0, 1)), mem2);
  }

  lemma VEnds(m: Machine, mem: Memory, t: T.Iter, v: (int, int), mem2: Memory)
    requires t.Valid() && mem(V01) == Two(v) && Does(m, mem, [VEndOp(t)], mem2)
    ensures Changed(mem, mem2, V01, Two(v))
  {
    var op := VEndOp(t);
    WritesOne(m, mem, t, 3, t.m1 + 2, op, V01, Reads(mem, op), Two(v), mem2);
  }

  lemma Phase1MasterSplit(m: Machine, mem: Memory, t: T.Iter, mem3: Memory) returns (mem1: Memory, mem2: Memory)
    requires Does(m, mem, T.AllOps(T.Phase1Master(t)), mem3)
    ensures Does(m, mem, [VStartOp(t)], mem1) && Does(m, mem1, ReceiveOps(t.K(3) + 1, t.m1 + 1, false, V01), mem2) && Does(m, mem2, [VEndOp(t)], mem3)
  {
    var ops := ReceiveOps(t.K(3) + 1, t.m1 + 1, false, V01);
    Phase1MasterOps(t);
    mem2 := DoesSplit(m, mem, [VStartOp(t)] + ops, [VEndOp(t)], mem3);
    mem1 := DoesSplit(m, mem, [VStartOp(t)], ops, mem2);
  }

  lemma VBegins(m: Machine, mem: Memory, t: T.Iter, es: seq<Entry>, mem1: Memory)
    requires |es| == t.m1 + 1 && Does(m, mem, [VStartOp(t)], mem1)
    requires forall j: nat :: j < t.m1 + 1 ==> mem(T.Entry(false, j)) == F.Published(es[j])
    ensures Changed(mem, mem1, V01, Two((0, 1)))
    ensures mem1(V01) == Two((0, 1)) && forall j: nat :: j < t.m1 + 1 ==> mem1(T.Entry(false, j)) == F.Published(es[j])
  {
    VStarts(m, mem, t, mem1);
    EntriesKept(mem, mem1, V01, Two((0, 1)), false, es, t.m1 + 1);
  }

  lemma VFinishes(m: Machine, mem1: Memory, mem2: Memory, mem3: Memory, t: T.Iter, key: nat, es: seq<Entry>, v: (int, int))
    requires t.Valid() && |es| == t.m1 + 1 && mem1(V01) == Two((0, 1)) && IsReceived(es, t.m1 + 1, (0, 1), v)
    requires forall j: nat :: j < t.m1 + 1 ==> mem1(T.Entry(false, j)) == F.Published(es[j])
    requires Does(m, mem1, ReceiveOps(key, t.m1 + 1, false, V01), mem2) && Does(m, mem2, [VEndOp(t)], mem3)
    ensures Changed(mem1, mem3, V01, Two(v))
  {
    ReceiveDoes(m, mem1, key, t.m1 + 1, false, V01, es, (0, 1), v, mem2);
    VEnds(m, mem2, t, v, mem3);
    ChangedTwice(mem1, mem2, mem3, V01, Two(v), Two(v));
  }

  lemma VParts(m: Machine, mem: Memory, mem1: Memory, mem2: Memory, mem3: Memory, t: T.Iter, key: nat, es: seq<Entry>, v: (int, int))
    requires t.Valid() && |es| == t.m1 + 1 && IsReceived(es, t.m1 + 1, (0, 1), v) && Does(m, mem, [VStartOp(t)], mem1)
    requires forall j: nat :: j < t.m1 + 1 ==> mem(T.Entry(false, j)) == F.Published(es[j])
    requires Does(m, mem1, ReceiveOps(key, t.m1 + 1, false, V01), mem2) && Does(m, mem2, [VEndOp(t)], mem3)
    ensures Changed(mem, mem3, V01, Two(v))
  {
    VBegins(m, mem, t, es, mem1);
    VFinishes(m, mem1, mem2, mem3, t, key, es, v);
    ChangedTwice(mem, mem1, mem3, V01, Two((0, 1)), Two(v));
  }

  /** Phase 1 of the master leaves v0 and v1. */
  lemma Phase1MasterValues(m: Machine, mem: Memory, t: T.Iter, es: seq<Entry>, v: (int, int), mem3: Memory)
    requires t.Valid() && |es| == t.m1 + 1 && IsReceived(es, t.m1 + 1, (0, 1), v) && Does(m, mem, T.AllOps(T.Phase1Master(t)), mem3)
    requires forall j: nat :: j < t.m1 + 1 ==> mem(T.Entry(false, j)) == F.Published(es[j])
    ensures Changed(mem, mem3, V01, Two(v))
  {
    var mem1, mem2 := Phase1MasterSplit(m, mem, t, mem3);
    VParts(m, mem, mem1, mem2, mem3, t, t.K(3) + 1, es, v);
  }

  // ---- phase 2 ----

  function CV1Op(t: T.Iter): Op { Op(t.K(4), [Loc.C, V01], [CV1]) }

  function HOp(t: T.Iter): Op { Op(t.K(4) + 1, [AbIndex, ASlot(t.Cur()), BSlot(t.Cur()), GcdST, CV1, V01], [BT, H]) }

  lemma Phase2MasterOps(t: T.Iter)
    ensures T.AllOps(T.Phase2Master(t)) == [CV1Op(t)] + [HOp(t)]
  {
    var c, s := t.C() + T.PHASE_2, t.C() + T.PHASE_1 + t.m1 + 1;
    EnterOps(c, s, s, CV1Op(t));
    WaitOps(c, c, HOp(t));
    TwoOps(T.Enter(c, s, s, CV1Op(t)), T.Wait(c, c, HOp(t)), CV1Op(t), HOp(t));
  }

  lemma CV1Values(m: Machine, mem: Memory, t: T.Iter, c: int, v: (int, int), mem2: Memory)
    requires mem(Loc.C) == One(c) && mem(V01) == Two(v) && Does(m, mem, [CV1Op(t)], mem2)
    ensures Changed(mem, mem2, CV1, One(c * v.1))
  {
    var op := CV1Op(t);
    WritesOne(m, mem, t, 4, 0, op, CV1, Reads(mem, op), One(c * v.1), mem2);
  }

  lemma HNumbers(m: Machine, args: seq<F.Content>, a: int, b: int, c: int, st: (int, int), v: (int, int), h: (int, int))
    requires |args| == 6 && args[1] == One(a) && args[2] == One(b) && args[3] == Two(st) && args[4] == One(c * v.1) && args[5] == Two(v)
    requires h == (HOf(a, b, c, st.1, v.1), v.1 * HOf(a, b, c, st.1, v.1))
    ensures PhaseMeaning(m, 4, 1, H, args) == Two(h)
  {}

  lemma HWritten(m: Machine, mem: Memory, t: T.Iter, args: seq<F.Content>, h: (int, int), mem2: Memory)
    requires Does(m, mem, [HOp(t)], mem2) && args == Reads(mem, HOp(t)) && PhaseMeaning(m, 4, 1, H, args) == Two(h)
    ensures mem2(H) == Two(h) && forall l :: l != BT && l != H ==> mem2(l) == mem(l)
  {
    WritesAt(m, mem, t, 4, 1, HOp(t), H, args, mem2);
    Leaves(m, mem, HOp(t), mem2);
  }

  lemma HValues(m: Machine, mem: Memory, t: T.Iter, a: int, b: int, c: int, st: (int, int), v: (int, int), h: (int, int), mem2: Memory)
    requires mem(ASlot(t.Cur())) == One(a) && mem(BSlot(t.Cur())) == One(b) && mem(GcdST) == Two(st)
    requires mem(CV1) == One(c * v.1) && mem(V01) == Two(v) && Does(m, mem, [HOp(t)], mem2)
    requires h == (HOf(a, b, c, st.1, v.1), v.1 * HOf(a, b, c, st.1, v.1))
    ensures mem2(H) == Two(h) && forall l :: l != BT && l != H ==> mem2(l) == mem(l)
  {
    HNumbers(m, Reads(mem, HOp(t)), a, b, c, st, v, h);
    HWritten(m, mem, t, Reads(mem, HOp(t)), h, mem2);
  }

  ghost predicate HaveH(mem: Memory, mem2: Memory, h: (int, int)) {
    mem2(H) == Two(h) && forall l :: l != CV1 && l != BT && l != H ==> mem2(l) == mem(l)
  }

  lemma Phase2MasterValues(m: Machine, mem: Memory, t: T.Iter, a: int, b: int, c: int, st: (int, int), v: (int, int), h: (int, int), mem2: Memory)
    requires mem(ASlot(t.Cur())) == One(a) && mem(BSlot(t.Cur())) == One(b) && mem(GcdST) == Two(st)
    requires mem(Loc.C) == One(c) && mem(V01) == Two(v) && Does(m, mem, T.AllOps(T.Phase2Master(t)), mem2)
    requires h == (HOf(a, b, c, st.1, v.1), v.1 * HOf(a, b, c, st.1, v.1))
    ensures HaveH(mem, mem2, h)
  {
    Phase2MasterOps(t);
    var mem1 := DoesSplit(m, mem, [CV1Op(t)], [HOp(t)], mem2);
    CV1Values(m, mem, t, c, v, mem1);
    HValues(m, mem1, t, a, b, c, st, v, h, mem2);
  }

  function TTOp(t: T.Iter): Op { Op(t.K(5), [GcdST], [TTS]) }

  function SignOp(t: T.Iter): Op { Op(t.K(5) + 1, [V01, TTS], [TTS, V02]) }

  lemma Phase2SlaveOps(t: T.Iter)
    ensures T.AllOps(T.Phase2Slave(t)) == [TTOp(t)] + [SignOp(t)]
  {
    var c, s := t.C() + T.PHASE_2, t.C() + T.PHASE_1;
    EnterOps(c, t.C() + t.m0 + 1, s, TTOp(t));
    WaitOps(c, c, SignOp(t));
    TwoOps(T.Enter(c, t.C() + t.m0 + 1, s, TTOp(t)), T.Wait(c, c, SignOp(t)), TTOp(t), SignOp(t));
  }

  lemma TTValues(m: Machine, mem: Memory, t: T.Iter, st: (int, int), mem2: Memory)
    requires mem(GcdST) == Two(st) && Does(m, mem, [TTOp(t)], mem2)
    ensures Changed(mem, mem2, TTS, One(st.1 * st.1))
  {
    var op := TTOp(t);
    WritesOne(m, mem, t, 5, 0, op, TTS, Reads(mem, op), One(st.1 * st.1), mem2);
  }

  ghost predicate HaveTTS(mem: Memory, mem2: Memory, ttS: int, v02: int) {
    mem2(TTS) == One(ttS) && mem2(V02) == One(v02) && forall l :: l != TTS && l != V02 ==> mem2(l) == mem(l)
  }

  lemma SignNumbers(m: Machine, args: seq<F.Content>, t: int, v: (int, int))
    requires |args| == 2 && args[0] == Two(v) && args[1] == One(t * t)
    ensures PhaseMeaning(m, 5, 1, TTS, args) == One(TTSOf(t, v.1)) && PhaseMeaning(m, 5, 1, V02, args) == One(2 * v.0)
  {}

  lemma SignValues(m: Machine, mem: Memory, t: T.Iter, st: (int, int), v: (int, int), mem2: Memory)
    requires mem(V01) == Two(v) && mem(TTS) == One(st.1 * st.1) && Does(m, mem, [SignOp(t)], mem2)
    ensures HaveTTS(mem, mem2, TTSOf(st.1, v.1), 2 * v.0)
  {
    var op := SignOp(t);
    SignNumbers(m, Reads(mem, op), st.1, v);
    WritesAt(m, mem, t, 5, 1, op, TTS, Reads(mem, op), mem2);
    WritesAt(m, mem, t, 5, 1, op, V02, Reads(mem, op), mem2);
    Leaves(m, mem, op, mem2);
  }

  lemma Phase2SlaveValues(m: Machine, mem: Memory, t: T.Iter, st: (int, int), v: (int, int), mem2: Memory)
    requires mem(GcdST) == Two(st) && mem(V01) == Two(v) && Does(m, mem, T.AllOps(T.Phase2Slave(t)), mem2)
    ensures HaveTTS(mem, mem2, TTSOf(st.1, v.1), 2 * v.0)
  {
    Phase2SlaveOps(t);
    var mem1 := DoesSplit(m, mem, [TTOp(t)], [SignOp(t)], mem2);
    TTValues(m, mem, t, st, mem1);
    SignValues(m, mem1, t, st, v, mem2);
  }

  // ---- phase 3 ----

  function AOp(t: T.Iter): Op { Op(t.K(6), [AbIndex, H, TTS], [ASlot(t.Other()), A2]) }

  function EOp(t: T.Iter): Op { Op(t.K(7), [AbIndex, ASlot(t.Cur()), BSlot(t.Cur()), GcdST, V01], [STV0, E]) }

  lemma Phase3Ops(t: T.Iter)
    ensures T.AllOps(T.Phase3Master(t)) == [AOp(t)] && T.AllOps(T.Phase3Slave(t)) == [EOp(t)]
  {
    EnterOps(t.C() + T.PHASE_3, t.C() + T.PHASE_2, t.C() + T.PHASE_3, AOp(t));
    EnterOps(t.C() + T.PHASE_3, t.C() + T.PHASE_2, t.C() + T.PHASE_2, EOp(t));
  }

  ghost predicate HaveA(mem: Memory, mem2: Memory, slot: nat, A: int) {
    mem2(ASlot(slot)) == One(A) && mem2(A2) == One(2 * A) && forall l :: l != ASlot(slot) && l != A2 ==> mem2(l) == mem(l)
  }

  lemma ANumbers(m: Machine, args: seq<F.Content>, h: (int, int), ttS: int, slot: nat)
    requires |args| == 3 && args[1] == Two(h) && args[2] == One(ttS)
    ensures PhaseMeaning(m, 6, 0, ASlot(slot), args) == One(ttS + h.1) && PhaseMeaning(m, 6, 0, A2, args) == One(2 * (ttS + h.1))
  {}

  lemma Phase3MasterValues(m: Machine, mem: Memory, t: T.Iter, h: (int, int), ttS: int, mem2: Memory)
    requires mem(H) == Two(h) && mem(TTS) == One(ttS) && Does(m, mem, [AOp(t)], mem2)
    ensures HaveA(mem, mem2, t.Other(), ttS + h.1)
  {
    var op := AOp(t);
    ANumbers(m, Reads(mem, op), h, ttS, t.Other());
    WritesAt(m, mem, t, 6, 0, op, ASlot(t.Other()), Reads(mem, op), mem2);
    WritesAt(m, mem, t, 6, 0, op, A2, Reads(mem, op), mem2);
    Leaves(m, mem, op, mem2);
  }

  ghost predicate HaveE(mem: Memory, mem2: Memory, e: int) {
    mem2(E) == One(e) && forall l :: l != STV0 && l != E ==> mem2(l) == mem(l)
  }

  lemma ENumbers(m: Machine, args: seq<F.Content>, a: int, b: int, st: (int, int), v: (int, int))
    requires |args| == 5 && args[1] == One(a) && args[2] == One(b) && args[3] == Two(st) && args[4] == Two(v)
    ensures PhaseMeaning(m, 7, 0, E, args) == One(EOf(a, b, st.1, v.0, v.1))
  {}

  lemma Phase3SlaveValues(m: Machine, mem: Memory, t: T.Iter, a: int, b: int, st: (int, int), v: (int, int), mem2: Memory)
    requires mem(ASlot(t.Cur())) == One(a) && mem(BSlot(t.Cur())) == One(b) && mem(GcdST) == Two(st) && mem(V01) == Two(v)
    requires Does(m, mem, [EOp(t)], mem2)
    ensures HaveE(mem, mem2, EOf(a, b, st.1, v.0, v.1))
  {
    var op := EOp(t);
    ENumbers(m, Reads(mem, op), a, b, st, v);
    WritesAt(m, mem, t, 7, 0, op, E, Reads(mem, op), mem2);
    Leaves(m, mem, op, mem2);
  }

  // ---- phase 4 ----

  function V02HOp(t: T.Iter): Op { Op(t.K(8), [Gcd10, V02, H], [V02H]) }

  function SlotsOp(t: T.Iter): Op {
    Op(t.K(8) + 1, [AbIndex, E, V02H, A2, ASlot(t.Other())], [Loc.F, BSlot(t.Other()), ASlot(t.Other()), Higher])
  }

  function SwitchOp(t: T.Iter): Op { Op(t.K(8) + 2, [AbIndex, NumValid], [AbIndex, NumValid]) }

  function ListenOp(t: T.Iter): Op { Op(t.K(8) + 3, [AbIndex, ASlot(t.Other()), BSlot(t.Other())], [Validation, Loc.C]) }

  lemma Phase4MasterOps(t: T.Iter)
    ensures T.AllOps(T.Phase4Master(t)) == [V02HOp(t)] + [SlotsOp(t)] + [SwitchOp(t)] + [ListenOp(t)]
  {
    var c, s := t.C() + T.PHASE_4, t.C() + T.PHASE_3;
    EnterOps(c, s, s, V02HOp(t));
    WaitOps(c, c, SlotsOp(t));
    JustOps(c, c, SwitchOp(t));
    JustOps(c, c, ListenOp(t));
    var p0, p1, p2, p3 := T.Enter(c, s, s, V02HOp(t)), T.Wait(c, c, SlotsOp(t)), T.Just(c, c, SwitchOp(t)), T.Just(c, c, ListenOp(t));
    ThreePieces(p0, p1, p2);
    T.AllOpsConcat(p0 + p1 + p2, p3);
  }

  lemma V02HValues(m: Machine, mem: Memory, t: T.Iter, v02: int, h: (int, int), mem2: Memory)
    requires mem(V02) == One(v02) && mem(H) == Two(h) && Does(m, mem, [V02HOp(t)], mem2)
    ensures Changed(mem, mem2, V02H, One(v02 * h.0))
  {
    var op := V02HOp(t);
    WritesOne(m, mem, t, 8, 0, op, V02H, Reads(mem, op), One(v02 * h.0), mem2);
  }

  lemma SlotsNumbers(m: Machine, args: seq<F.Content>, e: int, v02h: int, A2': int, A: int, slot: nat, y: Square)
    requires |args| == 5 && args[1] == One(e) && args[2] == One(v02h) && args[3] == One(A2') && args[4] == One(A)
    requires y == Finished(A, RemainderOf(e - v02h, A2'))
    ensures PhaseMeaning(m, 8, 1, BSlot(slot), args) == One(y.b)
    ensures PhaseMeaning(m, 8, 1, ASlot(slot), args) == One(y.a)
    ensures PhaseMeaning(m, 8, 1, Higher, args) == One(F.Truth(y.higher))
  {}

  /** B, |A| and their comparison are in the other slots. */
  ghost predicate HaveSlots(mem: Memory, mem2: Memory, slot: nat, y: Square) {
    && mem2(BSlot(slot)) == One(y.b) && mem2(ASlot(slot)) == One(y.a) && mem2(Higher) == One(F.Truth(y.higher))
    && forall l :: l != Loc.F && l != BSlot(slot) && l != ASlot(slot) && l != Higher ==> mem2(l) == mem(l)
  }

  lemma SlotWrites(m: Machine, mem: Memory, t: T.Iter, args: seq<F.Content>, l: Loc, c: F.Content, mem2: Memory)
    requires Does(m, mem, [SlotsOp(t)], mem2) && args == Reads(mem, SlotsOp(t)) && l in SlotsOp(t).outs && PhaseMeaning(m, 8, 1, l, args) == c
    ensures mem2(l) == c
  {
    WritesAt(m, mem, t, 8, 1, SlotsOp(t), l, args, mem2);
  }

  lemma SlotsWritten(m: Machine, mem: Memory, t: T.Iter, args: seq<F.Content>, y: Square, mem2: Memory)
    requires Does(m, mem, [SlotsOp(t)], mem2) && args == Reads(mem, SlotsOp(t))
    requires PhaseMeaning(m, 8, 1, BSlot(t.Other()), args) == One(y.b) && PhaseMeaning(m, 8, 1, ASlot(t.Other()), args) == One(y.a)
    requires PhaseMeaning(m, 8, 1, Higher, args) == One(F.Truth(y.higher))
    ensures HaveSlots(mem, mem2, t.Other(), y)
  {
    SlotWrites(m, mem, t, args, BSlot(t.Other()), One(y.b), mem2);
    SlotWrites(m, mem, t, args, ASlot(t.Other()), One(y.a), mem2);
    SlotWrites(m, mem, t, args, Higher, One(F.Truth(y.higher)), mem2);
    Leaves(m, mem, SlotsOp(t), mem2);
  }

  lemma SlotsValues(m: Machine, mem: Memory, t: T.Iter, e: int, v02h: int, A2': int, A: int, y: Square, mem2: Memory)
    requires mem(E) == One(e) && mem(V02H) == One(v02h) && mem(A2) == One(A2') && mem(ASlot(t.Other())) == One(A)
    requires Does(m, mem, [SlotsOp(t)], mem2) && y == Finished(A, RemainderOf(e - v02h, A2'))
    ensures HaveSlots(mem, mem2, t.Other(), y)
  {
    SlotsNumbers(m, Reads(mem, SlotsOp(t)), e, v02h, A2', A, t.Other(), y);
    SlotsWritten(m, mem, t, Reads(mem, SlotsOp(t)), y, mem2);
  }

  ghost predicate HaveSwitched(mem: Memory, mem2: Memory, slot: nat, n: nat) {
    mem2(AbIndex) == One(slot) && mem2(NumValid) == One(n) && forall l :: l != AbIndex && l != NumValid ==> mem2(l) == mem(l)
  }

  lemma SwitchValues(m: Machine, mem: Memory, t: T.Iter, mem2: Memory)
    requires mem(AbIndex) == One(t.Cur()) && mem(NumValid) == One(t.n) && Does(m, mem, [SwitchOp(t)], mem2)
    ensures HaveSwitched(mem, mem2, t.Other(), t.n + 1)
  {
    var op := SwitchOp(t);
    WritesAt(m, mem, t, 8, 2, op, AbIndex, Reads(mem, op), mem2);
    WritesAt(m, mem, t, 8, 2, op, NumValid, Reads(mem, op), mem2);
    Leaves(m, mem, op, mem2);
  }

  lemma SlotsSwitched(mem1: Memory, mem2: Memory, mem3: Memory, mem4: Memory, slot: nat, n: nat, y: Square)
    requires HaveSlots(mem1, mem2, slot, y) && HaveSwitched(mem2, mem3, slot, n)
    requires forall l :: l != Validation && l != Loc.C ==> mem4(l) == mem3(l)
    ensures HoldingAt(mem4, slot, n, y)
  {}

  lemma Phase4MasterSplit(m: Machine, mem: Memory, t: T.Iter, mem4: Memory) returns (mem1: Memory, mem2: Memory, mem3: Memory)
    requires Does(m, mem, T.AllOps(T.Phase4Master(t)), mem4)
    ensures Does(m, mem, [V02HOp(t)], mem1) && Does(m, mem1, [SlotsOp(t)], mem2) && Does(m, mem2, [SwitchOp(t)], mem3) && Does(m, mem3, [ListenOp(t)], mem4)
  {
    Phase4MasterOps(t);
    mem3 := DoesSplit(m, mem, [V02HOp(t)] + [SlotsOp(t)] + [SwitchOp(t)], [ListenOp(t)], mem4);
    mem2 := DoesSplit(m, mem, [V02HOp(t)] + [SlotsOp(t)], [SwitchOp(t)], mem3);
    mem1 := DoesSplit(m, mem, [V02HOp(t)], [SlotsOp(t)], mem2);
  }

  lemma ListenKeeps(m: Machine, mem: Memory, t: T.Iter, mem2: Memory)
    requires Does(m, mem, [ListenOp(t)], mem2)
    ensures forall l :: l != Validation && l != Loc.C ==> mem2(l) == mem(l)
  {
    Leaves(m, mem, ListenOp(t), mem2);
  }

  lemma SlotsAndSwitch(m: Machine, mem1: Memory, mem2: Memory, mem3: Memory, mem4: Memory, t: T.Iter, y: Square)
    requires HaveSlots(mem1, mem2, t.Other(), y) && mem1(AbIndex) == One(t.Cur()) && mem1(NumValid) == One(t.n)
    requires Does(m, mem2, [SwitchOp(t)], mem3) && Does(m, mem3, [ListenOp(t)], mem4)
    ensures HoldingAt(mem4, t.Other(), t.n + 1, y)
  {
    SwitchValues(m, mem2, t, mem3);
    ListenKeeps(m, mem3, t, mem4);
    SlotsSwitched(mem1, mem2, mem3, mem4, t.Other(), t.n + 1, y);
  }

  lemma Phase4MasterValues(m: Machine, mem: Memory, t: T.Iter, e: int, v02: int, h: (int, int), A: int, y: Square, mem4: Memory)
    requires mem(E) == One(e) && mem(V02) == One(v02) && mem(H) == Two(h) && mem(A2) == One(2 * A) && mem(ASlot(t.Other())) == One(A)
    requires mem(AbIndex) == One(t.Cur()) && mem(NumValid) == One(t.n) && Does(m, mem, T.AllOps(T.Phase4Master(t)), mem4)
    requires y == Finished(A, RemainderOf(e - v02 * h.0, 2 * A))
    ensures HoldingAt(mem4, t.Other(), t.n + 1, y)
  {
    var mem1, mem2, mem3 := Phase4MasterSplit(m, mem, t, mem4);
    V02HValues(m, mem, t, v02, h, mem1);
    SlotsValues(m, mem1, t, e, v02 * h.0, 2 * A, A, y, mem2);
    SlotsAndSwitch(m, mem1, mem2, mem3, mem4, t, y);
  }

  // ---- one iteration ----

  lemma PublishedKeeps(mem: Memory, mem1: Memory, first: bool, n: nat, es: seq<Entry>, r: (int, int), c: nat, x: Square)
    requires n <= |es| && HavePublished(mem, mem1, first, n, es, r) && Holding(mem, c, x)
    ensures Holding(mem1, c, x) && forall j: nat :: j < n ==> mem1(T.Entry(first, j)) == F.Published(es[j])
  {}

  lemma CKKeeps(mem: Memory, mem1: Memory, c: int, k: int, n: nat, x: Square)
    requires HaveCK(mem, mem1, c, k) && Holding(mem, n, x)
    ensures Holding(mem1, n, x) && mem1(KIndex) == One(k) && mem1(Loc.C) == One(c)
  {}

  /** Phases 0 and 1 have run: c, the end of the second gcd, v0 and v1. */
  ghost predicate Midway(mem: Memory, n: nat, x: Square, c: int, st: (int, int), v: (int, int)) {
    Holding(mem, n, x) && mem(Loc.C) == One(c) && mem(GcdST) == Two(st) && mem(V01) == Two(v)
  }

  lemma Phase0Values(m: Machine, mem: Memory, mem1: Memory, mem2: Memory, t: T.Iter, x: Square, c: int, k: int)
    requires t.Valid() && Holding(mem, t.n, x) && c == COf(x.a, x.b, m.D) && k == KAfter(x, c, m.Plan(t.n).0, t.m0)
    requires Does(m, mem, T.AllOps(T.Phase0Master(t, T.SeenBefore(t.n, T.PHASE_4))), mem1)
    requires Does(m, mem1, T.AllOps(T.Phase0Slave(t, T.SeenBefore(t.n, T.PHASE_2))), mem2)
    ensures Holding(mem2, t.n, x) && mem2(KIndex) == One(k) && mem2(Loc.C) == One(c)
  {
    var p, u, plan := FirstPair(x.a, x.b, x.higher), FirstCofactors(x.b, x.higher), m.Plan(t.n).0;
    var es := Entries(p.0, p.1, 0, plan, t.m0);
    var w := Received(es, t.m0 + 1, u);
    FirstGcdOps(t, T.SeenBefore(t.n, T.PHASE_4));
    FirstGcdStarts(m, mem, t, x);
    GcdValues(m, mem, t, true, t.K(0) + 1, p.0, p.1, 0, plan, t.m0, mem1);
    PublishedKeeps(mem, mem1, true, t.m0 + 1, es, Left(p.0, p.1, 0, plan, t.m0), t.n, x);
    Phase0SlaveValues(m, mem1, t, T.SeenBefore(t.n, T.PHASE_2), x.a, x.b, x.higher, es, u, w, mem2);
    CKKeeps(mem1, mem2, c, KOf(x.a, c, w.0), t.n, x);
  }

  lemma PublishedMidway(mem: Memory, mem1: Memory, mem2: Memory, n: nat, x: Square, c: int, st: (int, int), v: (int, int), m1: nat, es: seq<Entry>)
    requires m1 <= |es| && Holding(mem, n, x) && mem(Loc.C) == One(c)
    requires HavePublished(mem, mem1, false, m1, es, st) && Changed(mem1, mem2, V01, Two(v))
    ensures Midway(mem2, n, x, c, st, v)
  {}

  lemma Phase1Values(m: Machine, mem: Memory, mem1: Memory, mem2: Memory, t: T.Iter, x: Square, c: int, k: int, st: (int, int), v: (int, int))
    requires t.Valid() && Holding(mem, t.n, x) && mem(KIndex) == One(k) && mem(Loc.C) == One(c)
    requires Does(m, mem, T.AllOps(T.Phase1Slave(t)), mem1) && Does(m, mem1, T.AllOps(T.Phase1Master(t)), mem2)
    requires st == Left(x.a, k, m.L, m.Plan(t.n).1, t.m1) && v == Fold(Entries(x.a, k, m.L, m.Plan(t.n).1, t.m1), t.m1, 0, 1)
    ensures Midway(mem2, t.n, x, c, st, v)
  {
    var plan := m.Plan(t.n).1;
    var es := Entries(x.a, k, m.L, plan, t.m1);
    SecondGcdOps(t);
    SecondGcdStarts(m, mem, t, x.a, k);
    GcdValues(m, mem, t, false, t.K(2) + 1, x.a, k, m.L, plan, t.m1, mem1);
    PublishedKeeps(mem, mem1, false, t.m1 + 1, es, st, t.n, x);
    Phase1MasterValues(m, mem1, t, es, v, mem2);
    PublishedMidway(mem, mem1, mem2, t.n, x, c, st, v, t.m1 + 1, es);
  }

  /** Phase 2 has run: h, the signed square of t and 2 v0. */
  ghost predicate HavePrepared(mem: Memory, n: nat, x: Square, st: (int, int), v: (int, int), h: (int, int), ttS: int) {
    && Holding(mem, n, x) && mem(GcdST) == Two(st) && mem(V01) == Two(v)
    && mem(H) == Two(h) && mem(TTS) == One(ttS) && mem(V02) == One(2 * v.0)
  }

  lemma HKeeps(mem: Memory, mem1: Memory, n: nat, x: Square, c: int, st: (int, int), v: (int, int), h: (int, int))
    requires Midway(mem, n, x, c, st, v) && HaveH(mem, mem1, h)
    ensures Midway(mem1, n, x, c, st, v) && mem1(H) == Two(h)
  {}

  lemma TTSKeeps(mem: Memory, mem1: Memory, n: nat, x: Square, c: int, st: (int, int), v: (int, int), h: (int, int), ttS: int)
    requires Midway(mem, n, x, c, st, v) && mem(H) == Two(h) && HaveTTS(mem, mem1, ttS, 2 * v.0)
    ensures HavePrepared(mem1, n, x, st, v, h, ttS)
  {}

  lemma Phase2Values(m: Machine, mem: Memory, mem1: Memory, mem2: Memory, t: T.Iter, x: Square, c: int, st: (int, int), v: (int, int), h: (int, int), ttS: int)
    requires Midway(mem, t.n, x, c, st, v)
    requires Does(m, mem, T.AllOps(T.Phase2Master(t)), mem1) && Does(m, mem1, T.AllOps(T.Phase2Slave(t)), mem2)
    requires h == (HOf(x.a, x.b, c, st.1, v.1), v.1 * HOf(x.a, x.b, c, st.1, v.1)) && ttS == TTSOf(st.1, v.1)
    ensures HavePrepared(mem2, t.n, x, st, v, h, ttS)
  {
    Phase2MasterValues(m, mem, t, x.a, x.b, c, st, v, h, mem1);
    HKeeps(mem, mem1, t.n, x, c, st, v, h);
    Phase2SlaveValues(m, mem1, t, st, v, mem2);
    TTSKeeps(mem1, mem2, t.n, x, c, st, v, h, ttS);
  }

  /** Phase 3 has run: the new a, with its sign, twice that, and e. */
  ghost predicate HaveAE(mem: Memory, n: nat, slot: nat, h: (int, int), v02: int, A: int, e: int) {
    && mem(AbIndex) == One(n % 2) && mem(NumValid) == One(n) && mem(H) == Two(h) && mem(V02) == One(v02)
    && mem(ASlot(slot)) == One(A) && mem(A2) == One(2 * A) && mem(E) == One(e)
  }

  lemma AETogether(mem: Memory, mem1: Memory, mem2: Memory, n: nat, slot: nat, h: (int, int), v02: int, A: int, e: int)
    requires mem(AbIndex) == One(n % 2) && mem(NumValid) == One(n) && mem(H) == Two(h) && mem(V02) == One(v02)
    requires HaveA(mem, mem1, slot, A) && HaveE(mem1, mem2, e)
    ensures HaveAE(mem2, n, slot, h, v02, A, e)
  {
    assert mem1(AbIndex) == mem(AbIndex) && mem1(NumValid) == mem(NumValid) && mem1(H) == mem(H) && mem1(V02) == mem(V02);
  }

  lemma AKeeps(mem: Memory, mem1: Memory, cur: nat, slot: nat, A: int)
    requires HaveA(mem, mem1, slot, A) && slot != cur
    ensures mem1(ASlot(cur)) == mem(ASlot(cur)) && mem1(BSlot(cur)) == mem(BSlot(cur)) && mem1(GcdST) == mem(GcdST) && mem1(V01) == mem(V01)
  {}

  lemma AThenE(m: Machine, mem: Memory, mem1: Memory, mem2: Memory, t: T.Iter, x: Square, st: (int, int), v: (int, int),
               h: (int, int), ttS: int, A: int, e: int)
    requires mem(ASlot(t.Cur())) == One(x.a) && mem(BSlot(t.Cur())) == One(x.b) && mem(GcdST) == Two(st) && mem(V01) == Two(v)
    requires mem(H) == Two(h) && mem(TTS) == One(ttS) && A == ttS + h.1 && e == EOf(x.a, x.b, st.1, v.0, v.1)
    requires Does(m, mem, [AOp(t)], mem1) && Does(m, mem1, [EOp(t)], mem2)
    ensures HaveA(mem, mem1, t.Other(), A) && HaveE(mem1, mem2, e)
  {
    Phase3MasterValues(m, mem, t, h, ttS, mem1);
    AKeeps(mem, mem1, t.Cur(), t.Other(), A);
    Phase3SlaveValues(m, mem1, t, x.a, x.b, st, v, mem2);
  }

  lemma Phase3Values(m: Machine, mem: Memory, mem1: Memory, mem2: Memory, t: T.Iter, x: Square, st: (int, int), v: (int, int),
                     h: (int, int), ttS: int, A: int, e: int)
    requires HavePrepared(mem, t.n, x, st, v, h, ttS) && A == ttS + h.1 && e == EOf(x.a, x.b, st.1, v.0, v.1)
    requires Does(m, mem, [AOp(t)], mem1) && Does(m, mem1, [EOp(t)], mem2)
    ensures HaveAE(mem2, t.n, t.Other(), h, 2 * v.0, A, e)
  {
    AThenE(m, mem, mem1, mem2, t, x, st, v, h, ttS, A, e);
    AETogether(mem, mem1, mem2, t.n, t.Other(), h, 2 * v.0, A, e);
  }

  lemma Phase4Values(m: Machine, mem: Memory, t: T.Iter, h: (int, int), v02: int, A: int, e: int, y: Square, mem2: Memory)
    requires HaveAE(mem, t.n, t.Other(), h, v02, A, e) && Does(m, mem, T.AllOps(T.Phase4Master(t)), mem2)
    requires y == Finished(A, RemainderOf(e - v02 * h.0, 2 * A))
    ensures Holding(mem2, t.n + 1, y)
  {
    Phase4MasterValues(m, mem, t, e, v02, h, A, y, mem2);
    assert (t.n + 1) % 2 == t.Other();
  }

  lemma IterSplit(m: Machine, mem: Memory, t: T.Iter, end: Memory) returns (m1: Memory, m2: Memory, m3: Memory, m4: Memory)
    requires Does(m, mem, T.SingleIter(t), end)
    ensures Does(m, mem, T.AllOps(T.Phase0Master(t, T.SeenBefore(t.n, T.PHASE_4))), m1)
    ensures Does(m, m1, T.AllOps(T.Phase0Slave(t, T.SeenBefore(t.n, T.PHASE_2))), m2)
    ensures Does(m, m2, T.AllOps(T.Phase1Slave(t)), m3) && Does(m, m3, T.AllOps(T.Phase1Master(t)), m4) && Does(m, m4, LaterOps(t), end)
  {
    var p0, p1 := T.AllOps(T.Phase0Master(t, T.SeenBefore(t.n, T.PHASE_4))), T.AllOps(T.Phase0Slave(t, T.SeenBefore(t.n, T.PHASE_2)));
    var p2, p3 := T.AllOps(T.Phase1Slave(t)), T.AllOps(T.Phase1Master(t));
    SingleIterIs(t, p0, p1, p2, p3);
    m4 := DoesSplit(m, mem, p0 + p1 + p2 + p3, LaterOps(t), end);
    m3 := DoesSplit(m, mem, p0 + p1 + p2, p3, m4);
    m2 := DoesSplit(m, mem, p0 + p1, p2, m3);
    m1 := DoesSplit(m, mem, p0, p1, m2);
  }

  /** Phases 2 to 4. */
  function LaterOps(t: T.Iter): seq<Op> {
    T.AllOps(T.Phase2Master(t)) + T.AllOps(T.Phase2Slave(t)) + [AOp(t)] + [EOp(t)] + T.AllOps(T.Phase4Master(t))
  }

  lemma SingleIterIs(t: T.Iter, p0: seq<Op>, p1: seq<Op>, p2: seq<Op>, p3: seq<Op>)
    requires p0 == T.AllOps(T.Phase0Master(t, T.SeenBefore(t.n, T.PHASE_4))) && p1 == T.AllOps(T.Phase0Slave(t, T.SeenBefore(t.n, T.PHASE_2)))
    requires p2 == T.AllOps(T.Phase1Slave(t)) && p3 == T.AllOps(T.Phase1Master(t))
    ensures T.SingleIter(t) == p0 + p1 + p2 + p3 + LaterOps(t)
  {
    Phase3Ops(t);
    SlaveEnds(t);
    Regroup(p0 + p1 + p2 + p3, T.AllOps(T.Phase2Master(t)), T.AllOps(T.Phase2Slave(t)), [AOp(t)], [EOp(t)], T.AllOps(T.Phase4Master(t)));
  }

  lemma SlaveEnds(t: T.Iter)
    ensures T.AllOps(T.Phase4Slave(t)) == []
  {
    assert Ops(T.Phase4Slave(t), 1) == [];
  }

  lemma Regroup(h: seq<Op>, a: seq<Op>, b: seq<Op>, c: seq<Op>, d: seq<Op>, e: seq<Op>)
    ensures h + a + b + c + d + e + [] == h + (a + b + c + d + e)
  {}

  lemma LaterSplit(m: Machine, mem: Memory, t: T.Iter, end: Memory) returns (m1: Memory, m2: Memory, m3: Memory, m4: Memory)
    requires Does(m, mem, LaterOps(t), end)
    ensures Does(m, mem, T.AllOps(T.Phase2Master(t)), m1) && Does(m, m1, T.AllOps(T.Phase2Slave(t)), m2)
    ensures Does(m, m2, [AOp(t)], m3) && Does(m, m3, [EOp(t)], m4) && Does(m, m4, T.AllOps(T.Phase4Master(t)), end)
  {
    var p, q := T.AllOps(T.Phase2Master(t)), T.AllOps(T.Phase2Slave(t));
    m4 := DoesSplit(m, mem, p + q + [AOp(t)] + [EOp(t)], T.AllOps(T.Phase4Master(t)), end);
    m3 := DoesSplit(m, mem, p + q + [AOp(t)], [EOp(t)], m4);
    m2 := DoesSplit(m, mem, p + q, [AOp(t)], m3);
    m1 := DoesSplit(m, mem, p, q, m2);
  }

  lemma LaterValues(m: Machine, mem: Memory, t: T.Iter, x: Square, c: int, st: (int, int), v: (int, int), r: (int, int), end: Memory)
    requires Midway(mem, t.n, x, c, st, v) && Does(m, mem, LaterOps(t), end) && r == NewSlots(x, c, st.1, v.0, v.1)
    ensures Holding(end, t.n + 1, Finished(r.0, RemainderOf(r.1, 2 * r.0)))
  {
    var h, ttS := HOf(x.a, x.b, c, st.1, v.1), TTSOf(st.1, v.1);
    var m1, m2, m3, m4 := LaterSplit(m, mem, t, end);
    Phase2Values(m, mem, m1, m2, t, x, c, st, v, (h, v.1 * h), ttS);
    var e := EOf(x.a, x.b, st.1, v.0, v.1);
    Phase3Values(m, m2, m3, m4, t, x, st, v, (h, v.1 * h), ttS, r.0, e);
    Phase4Values(m, m4, t, (h, v.1 * h), 2 * v.0, r.0, e, Finished(r.0, RemainderOf(r.1, 2 * r.0)), end);
  }

  /** An iteration of the single-thread order takes the slots to the next ones. */
  lemma IterationValues(m: Machine, mem: Memory, t: T.Iter, x: Square, end: Memory)
    requires t.Valid() && Holding(mem, t.n, x) && Does(m, mem, T.SingleIter(t), end)
    ensures Holding(end, t.n + 1, NextSquare(x, m.D, m.L, m.Plan(t.n).0, m.Plan(t.n).1, t.m0, t.m1))
  {
    var c := COf(x.a, x.b, m.D);
    var k := KAfter(x, c, m.Plan(t.n).0, t.m0);
    var st, v := Left(x.a, k, m.L, m.Plan(t.n).1, t.m1), Fold(Entries(x.a, k, m.L, m.Plan(t.n).1, t.m1), t.m1, 0, 1);
    var m1, m2, m3, m4 := IterSplit(m, mem, t, end);
    Phase0Values(m, mem, m1, m2, t, x, c, k);
    Phase1Values(m, m2, m3, m4, t, x, c, k, st, v);
    LaterValues(m, m4, t, x, c, st, v, NewSlots(x, c, st.1, v.0, v.1), end);
    assert Composed(x, m.D, m.L, m.Plan(t.n).0, m.Plan(t.n).1, t.m0, t.m1) == NewSlots(x, c, st.1, v.0, v.1);
  }

  // ---- the main results ----

  /** What iterations of SquareState compute from x. */
  function SquareAfter(x: Square, D: int, L: nat, plans: seq<(seq<nat>, seq<nat>)>, counts: seq<(nat, nat)>): Square
    requires |counts| <= |plans|
  {
    if counts == [] then x
    else
      var n := |counts| - 1;
      NextSquare(SquareAfter(x, D, L, plans, counts[..n]), D, L, plans[n].0, plans[n].1, counts[n].0, counts[n].1)
  }

  lemma {:induction false} SingleThreadValues(m: Machine, counts: seq<(nat, nat)>, x: Square, end: Memory)
    requires T.ValidCounts(counts) && |counts| <= |m.plans| && Holding(m.init, 0, x) && Does(m, m.init, T.SingleThread(counts), end)
    ensures Holding(end, |counts|, SquareAfter(x, m.D, m.L, m.plans, counts))
    decreases |counts|
  {
    if counts == [] {
      assert Same(end, end);
    } else {
      var n := |counts| - 1;
      var mem := LastSplit(m, counts, n, end);
      SingleThreadValues(m, counts[..n], x, mem);
      LastValues(m, counts, n, x, mem, end);
    }
  }

  lemma LastSplit(m: Machine, counts: seq<(nat, nat)>, n: nat, end: Memory) returns (mem: Memory)
    requires |counts| == n + 1 && Does(m, m.init, T.SingleThread(counts), end)
    ensures Does(m, m.init, T.SingleThread(counts[..n]), mem) && Does(m, mem, T.SingleIter(T.IterAt(counts, n)), end)
  {
    T.LastIteration(counts, n, T.IterAt(counts, n), counts[..n]);
    mem := DoesSplit(m, m.init, T.SingleThread(counts[..n]), T.SingleIter(T.IterAt(counts, n)), end);
  }

  lemma LastValues(m: Machine, counts: seq<(nat, nat)>, n: nat, x: Square, mem: Memory, end: Memory)
    requires |counts| == n + 1 <= |m.plans| && T.ValidCounts(counts) && Holding(mem, n, SquareAfter(x, m.D, m.L, m.plans, counts[..n]))
    requires Does(m, mem, T.SingleIter(T.IterAt(counts, n)), end)
    ensures Holding(end, n + 1, SquareAfter(x, m.D, m.L, m.plans, counts))
  {
    var y := SquareAfter(x, m.D, m.L, m.plans, counts[..n]);
    AfterLast(x, m.D, m.L, m.plans, counts, n, y);
    IterationValues(m, mem, T.IterAt(counts, n), y, end);
  }

  lemma AfterLast(x: Square, D: int, L: nat, plans: seq<(seq<nat>, seq<nat>)>, counts: seq<(nat, nat)>, n: nat, y: Square)
    requires |counts| == n + 1 <= |plans| && y == SquareAfter(x, D, L, plans, counts[..n])
    ensures SquareAfter(x, D, L, plans, counts) == NextSquare(y, D, L, plans[n].0, plans[n].1, counts[n].0, counts[n].1)
  {}

  /** After h the current slots hold y, of iteration n. */
  ghost predicate Holds(m: Machine, h: seq<Op>, n: nat, y: Square) {
    && Now(m, h, AbIndex) == One(n % 2) && Now(m, h, ASlot(n % 2)) == One(y.a) && Now(m, h, BSlot(n % 2)) == One(y.b)
    && Now(m, h, Higher) == One(F.Truth(y.higher)) && Now(m, h, NumValid) == One(n)
  }

  lemma HoldingHolds(m: Machine, h: seq<Op>, n: nat, y: Square)
    requires Holding(ExecAll(m, m.init, h), n, y)
    ensures Holds(m, h, n, y)
  {
    NowIsExec(m, h, AbIndex);
    NowIsExec(m, h, ASlot(n % 2));
    NowIsExec(m, h, BSlot(n % 2));
    NowIsExec(m, h, Higher);
    NowIsExec(m, h, NumValid);
  }

  lemma HoldsSame(m: Machine, h: seq<Op>, q: seq<Op>, n: nat, y: Square)
    requires SameMemory(h, q) && Holds(m, q, n, y)
    ensures Holds(m, h, n, y)
  {
    SameValues(m, h, q, AbIndex);
    SameValues(m, h, q, ASlot(n % 2));
    SameValues(m, h, q, BSlot(n % 2));
    SameValues(m, h, q, Higher);
    SameValues(m, h, q, NumValid);
  }

  ghost predicate IsFinishedRun(counts: seq<(nat, nat)>, run: seq<State>) {
    IsRun(T.Master(counts), T.Slave(counts), run) && run[|run| - 1].i == |T.Master(counts)| && run[|run| - 1].j == |T.Slave(counts)|
  }

  /** Every finished run of the two threads, in whatever order they step, leaves what the iterations compute. */
  lemma ThreadsCompute(m: Machine, counts: seq<(nat, nat)>, x: Square, run: seq<State>)
    requires T.ValidCounts(counts) && |counts| <= |m.plans| && Holding(m.init, 0, x) && IsFinishedRun(counts, run)
    ensures Holds(m, run[|run| - 1].done, |counts|, SquareAfter(x, m.D, m.L, m.plans, counts))
  {
    var q := T.SingleThread(counts);
    T.ThreadsMatchSingle(counts, run);
    DoesAll(m, q);
    SingleThreadValues(m, counts, x, ExecAll(m, m.init, q));
    HoldingHolds(m, q, |counts|, SquareAfter(x, m.D, m.L, m.plans, counts));
    HoldsSame(m, run[|run| - 1].done, q, |counts|, SquareAfter(x, m.D, m.L, m.plans, counts));
  }

  lemma DoesAll(m: Machine, q: seq<Op>)
    ensures Does(m, m.init, q, ExecAll(m, m.init, q))
  {}

  /** Any finished run of the two threads on the slots of f ends with the slots of g, at iteration n. */
  ghost predicate ThreadsReach(f: Form, D: int, L: nat, plans: seq<(seq<nat>, seq<nat>)>, counts: seq<(nat, nat)>, g: Form) {
    forall init: Memory, run: seq<State> ::
      Holding(init, 0, Square(f.a, f.b, Abs(f.b) >= f.a)) && IsFinishedRun(counts, run) ==>
        var m, h, n := Machine(D, L, plans, init), run[|run| - 1].done, |counts|;
        Now(m, h, AbIndex) == One(n % 2) && Now(m, h, NumValid) == One(n)
        && Now(m, h, ASlot(n % 2)) == One(g.a) && Now(m, h, BSlot(n % 2)) == One(g.b)
  }

  lemma ReachedBy(f: Form, D: int, L: nat, plans: seq<(seq<nat>, seq<nat>)>, counts: seq<(nat, nat)>, g: Form, y: Square)
    requires T.ValidCounts(counts) && |counts| <= |plans| && y == SquareAfter(Square(f.a, f.b, Abs(f.b) >= f.a), D, L, plans, counts)
    requires y.a == g.a && y.b == g.b
    ensures ThreadsReach(f, D, L, plans, counts, g)
  {
    forall init: Memory, run: seq<State> | Holding(init, 0, Square(f.a, f.b, Abs(f.b) >= f.a)) && IsFinishedRun(counts, run)
      ensures Holds(Machine(D, L, plans, init), run[|run| - 1].done, |counts|, y)
    {
      ThreadsCompute(Machine(D, L, plans, init), counts, Square(f.a, f.b, Abs(f.b) >= f.a), run);
    }
  }

  lemma OneMoreSquare(x: Square, D: int, L: nat, plans: seq<(seq<nat>, seq<nat>)>, counts: seq<(nat, nat)>, y: Square, m0: nat, m1: nat, z: Square)
    requires |counts| < |plans| && y == SquareAfter(x, D, L, plans, counts)
    requires IsNext(z, y, D, L, plans[|counts|].0, plans[|counts|].1, m0, m1)
    ensures z == SquareAfter(x, D, L, plans, counts + [(m0, m1)])
  {
    NextOpened(z, y, D, L, plans[|counts|].0, plans[|counts|].1, m0, m1);
    AppendedSquare(x, D, L, plans, counts, counts + [(m0, m1)], y, m0, m1);
  }

  lemma AppendedSquare(x: Square, D: int, L: nat, plans: seq<(seq<nat>, seq<nat>)>, counts: seq<(nat, nat)>, more: seq<(nat, nat)>, y: Square, m0: nat, m1: nat)
    requires |counts| < |plans| && y == SquareAfter(x, D, L, plans, counts) && more == counts + [(m0, m1)]
    ensures SquareAfter(x, D, L, plans, more) == NextSquare(y, D, L, plans[|counts|].0, plans[|counts|].1, m0, m1)
  {
    assert more[..|counts|] == counts;
    AfterLast(x, D, L, plans, more, |counts|, y);
  }

  /** Iterations of SquareState, as long as they succeed; `counts` are the last entry indices of their gcds. Every
    * run of two threads that make the same iterations holds, at its end, the a and b of the form reached, which is
    * f squared that many times. */
  method Iterations(f: Form, D: int, L: int, plans: seq<(seq<nat>, seq<nat>)>) returns (a: int, b: int, ghost g: Form, ghost counts: seq<(nat, nat)>)
    requires f.PositiveDefinite() && f.Disc() == D && L >= 0
    ensures a == g.a && b == g.b && |counts| <= |plans| && T.ValidCounts(counts)
    ensures Squarings(f, |counts|, g) && g.PositiveDefinite() && g.Disc() == D
    ensures |counts| < |plans| ==> !Coprime(g.b, g.a) || Stops(g, L, plans[|counts|])
    ensures ThreadsReach(f, D, L, plans, counts, g)
  {
    EquivalentRefl(f);
    var state := new SquareState(D, L, f);
    ghost var x, y := Square(f.a, f.b, Abs(f.b) >= f.a), state.Current();
    a, b, g, counts := f.a, f.b, f, [];
    var i := 0;
    while i < |plans|
      invariant i == |counts| <= |plans| && T.ValidCounts(counts) && state.D == D && state.L == L
      invariant state.Ready() && Squarings(f, i, g) && y == state.Current() == SquareAfter(x, D, L, plans, counts)
      invariant g == state.cur && a == g.a && b == g.b && g.PositiveDefinite() && g.Disc() == D
    {
      ghost var before := state.cur;
      var ok;
      ghost var it, z;
      ok, it, z := state.Iterate(plans[i].0, plans[i].1);
      if !ok {
        if !state.corruption {
          assert StopsAt(before, L, plans[i], state.k);
        }
        break;
      }
      OneMoreSquare(x, D, L, plans, counts, y, it.m0, it.m1, z);
      SquaringsOneMore(f, i, before, state.cur);
      a, b, g := state.a(), state.b(), state.cur;
      counts, y, i := counts + [(it.m0, it.m1)], z, i + 1;
    }
    ReachedBy(f, D, L, plans, counts, g, y);
  }
}
