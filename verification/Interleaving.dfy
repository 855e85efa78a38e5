/** Two threads over shared memory, each with its own monotone counter (src/threading.h: thread_state).
  * A program is a list of instructions; any interleaving of two programs is a run. The results here
  * hold for all programs whose conflicting operations are separated by a fence. */
module Interleaving {

  /** The shared locations of one squaring state. Slots and gcd entries are separate locations. */
  datatype Loc =
    | ASlot(n: nat) | BSlot(n: nat) | AbIndex | Higher | NumValid
    | Gcd10 | Entry10(index: nat) | GcdST | EntryST(index: nat)
    | Validation | C | Cofactors | KIndex | V01
    | CV1 | BT | H | TTS | V02 | A2 | STV0 | E | V02H | F

  /** One computation on shared memory: reads, then writes. key is its place in the single-thread order. */
  datatype Op = Op(key: nat, ins: seq<Loc>, outs: seq<Loc>)

  predicate Touches(x: Op, y: Op) { exists l :: l in x.outs && (l in y.outs || l in y.ins) }

  predicate Conflict(x: Op, y: Op) { Touches(x, y) || Touches(y, x) }

  // ---- values ----

  /** Values are kept symbolic: what an operation writes is the operation applied to what it read.
    * Equal terms are equal values under every meaning of the operations. */
  datatype Term = Initial(l: Loc) | Result(op: Op, target: Loc, args: seq<Term>)

  /** The content of l after the operations h. */
  function ValueAt(h: seq<Op>, l: Loc): Term
    decreases |h|, 0
  {
    if h == [] then Initial(l)
    else
      var n := |h| - 1;
      if l in h[n].outs then Result(h[n], l, Args(h[..n], h[n])) else ValueAt(h[..n], l)
  }

  /** What x reads after the operations h. */
  function Args(h: seq<Op>, x: Op): (r: seq<Term>)
    ensures |r| == |x.ins| && forall k :: 0 <= k < |r| ==> r[k] == ValueAt(h, x.ins[k])
    decreases |h|, 1
  {
    seq(|x.ins|, k requires 0 <= k < |x.ins| => ValueAt(h, x.ins[k]))
  }

  ghost predicate SameMemory(h: seq<Op>, q: seq<Op>) { forall l :: ValueAt(h, l) == ValueAt(q, l) }

  lemma ValueAppend(h: seq<Op>, z: Op, l: Loc)
    ensures ValueAt(h + [z], l) == if l in z.outs then Result(z, l, Args(h, z)) else ValueAt(h, l)
  {
    assert (h + [z])[..|h|] == h;
  }

  lemma ArgsSame(h: seq<Op>, q: seq<Op>, z: Op)
    requires SameMemory(h, q)
    ensures Args(h, z) == Args(q, z)
  {}

  /** Appending the same operation keeps equal memories equal. */
  lemma AppendSame(h: seq<Op>, q: seq<Op>, z: Op)
    requires SameMemory(h, q)
    ensures SameMemory(h + [z], q + [z])
  {
    ArgsSame(h, q, z);
    forall l
      ensures ValueAt(h + [z], l) == ValueAt(q + [z], l)
    {
      ValueAppend(h, z, l);
      ValueAppend(q, z, l);
    }
  }

  /** An operation does not change what another one reads unless they conflict. */
  lemma ArgsUnaffected(h: seq<Op>, x: Op, y: Op)
    requires !Conflict(x, y)
    ensures Args(h + [x], y) == Args(h, y)
  {
    forall k | 0 <= k < |y.ins|
      ensures ValueAt(h + [x], y.ins[k]) == ValueAt(h, y.ins[k])
    {
      assert y.ins[k] in y.ins;
      ValueAppend(h, x, y.ins[k]);
    }
  }

  /** Neighbours without a conflict commute. */
  lemma SwapLast(h: seq<Op>, x: Op, y: Op)
    requires !Conflict(x, y)
    ensures SameMemory(h + [x] + [y], h + [y] + [x])
  {
    ArgsUnaffected(h, x, y);
    ArgsUnaffected(h, y, x);
    forall l
      ensures ValueAt(h + [x] + [y], l) == ValueAt(h + [y] + [x], l)
    {
      ValueAppend(h + [x], y, l);
      ValueAppend(h + [y], x, l);
      ValueAppend(h, x, l);
      ValueAppend(h, y, l);
    }
  }

  /** z moves behind operations it does not conflict with. */
  lemma {:induction false} MoveLast(h: seq<Op>, z: Op, tail: seq<Op>)
    requires forall y :: y in tail ==> !Conflict(z, y)
    ensures SameMemory(h + [z] + tail, h + tail + [z])
    ensures Args(h, z) == Args(h + tail, z)
    decreases |tail|
  {
    if tail == [] {
      assert h + [z] + tail == h + tail + [z] && h + tail == h;
    } else {
      var n := |tail| - 1;
      var y, init := tail[n], tail[..n];
      assert tail == init + [y] && y in tail;
      forall u | u in init
        ensures !Conflict(z, u)
      {
        assert u in tail;
      }
      MoveLast(h, z, init);
      AppendSame(h + [z] + init, h + init + [z], y);
      SwapLast(h + init, z, y);
      ArgsUnaffected(h + init, y, z);
      assert h + [z] + tail == h + [z] + init + [y] && h + tail == h + init + [y];
    }
  }

  // ---- histories ----

  /** Every two conflicting operations come in the order of their keys. */
  ghost predicate InOrder(h: seq<Op>) {
    forall p, q :: 0 <= p < q < |h| ==> Keeps(h[p], h[q])
  }

  ghost predicate Keeps(x: Op, y: Op) { Conflict(x, y) ==> x.key < y.key }

  lemma {:induction false} LastIndex(h: seq<Op>, z: Op) returns (p: nat)
    requires z in h
    ensures p < |h| && h[p] == z && z !in h[p + 1..]
    decreases |h|
  {
    p := |h| - 1;
    if h[p] != z {
      assert z in h[..p];
      var n := p;
      p := LastIndex(h[..n], z);
      assert h[p + 1..] == h[..n][p + 1..] + [h[n]];
    }
  }

  lemma WithoutMiddle(a: seq<Op>, z: Op, b: seq<Op>)
    ensures multiset(a + [z] + b) == multiset(a + b) + multiset{z}
  {}

  lemma RemovedOps(h: seq<Op>, p: nat, q: seq<Op>)
    requires p < |h| && |q| > 0 && h[p] == q[|q| - 1] && multiset(h) == multiset(q)
    ensures multiset(h[..p] + h[p + 1..]) == multiset(q[..|q| - 1])
  {
    var q' := q[..|q| - 1];
    assert h == h[..p] + [h[p]] + h[p + 1..] && q == q' + [h[p]] + [] && q' + [] == q';
    WithoutMiddle(h[..p], h[p], h[p + 1..]);
    WithoutMiddle(q', h[p], []);
    SameRemainder(multiset(h[..p] + h[p + 1..]), multiset(q'), h[p]);
  }

  lemma SameRemainder(x: multiset<Op>, y: multiset<Op>, z: Op)
    requires x + multiset{z} == y + multiset{z}
    ensures x == y
  {
    assert x == x + multiset{z} - multiset{z};
    assert y == y + multiset{z} - multiset{z};
  }

  lemma RemovedInOrder(h: seq<Op>, p: nat)
    requires p < |h| && InOrder(h)
    ensures InOrder(h[..p] + h[p + 1..])
  {
    var h' := h[..p] + h[p + 1..];
    forall i, j | 0 <= i < j < |h'|
      ensures Keeps(h'[i], h'[j])
    {
      var i', j' := if i < p then i else i + 1, if j < p then j else j + 1;
      assert h'[i] == h[i'] && h'[j] == h[j'];
    }
  }

  lemma PrefixInOrder(h: seq<Op>, n: nat)
    requires n <= |h| && InOrder(h)
    ensures InOrder(h[..n])
  {}

  lemma BehindNoConflict(h: seq<Op>, p: nat, q: seq<Op>, z: Op, y: Op)
    requires p < |h| && h[p] == z && y in h[p + 1..] && y != z && |q| > 0 && q[|q| - 1] == z
    requires multiset(h) == multiset(q) && InOrder(h) && InOrder(q)
    ensures !Conflict(z, y)
  {
    assert y in multiset(h) && y in q;
    var i :| 0 <= i < |q| && q[i] == y;
    var j :| p < j < |h| && h[j] == y;
    assert Keeps(q[i], q[|q| - 1]) && Keeps(h[p], h[j]);
    ConflictSymmetric(z, y);
  }

  lemma ConflictSymmetric(x: Op, y: Op)
    ensures Conflict(x, y) <==> Conflict(y, x)
  {}

  /** The last operation of q sits somewhere in h, with nothing behind it that conflicts with it. */
  lemma TakeOutLast(h: seq<Op>, q: seq<Op>) returns (m: nat)
    requires multiset(h) == multiset(q) && InOrder(h) && InOrder(q) && |q| > 0
    ensures var z, q' := q[|q| - 1], q[..|q| - 1];
      && q == q' + [z] && InOrder(q')
      && m < |h| && h[m] == z && h == h[..m] + [z] + h[m + 1..]
      && multiset(h[..m] + h[m + 1..]) == multiset(q') && InOrder(h[..m] + h[m + 1..])
      && forall y :: y in h[m + 1..] ==> !Conflict(z, y) && y != z
  {
    var z := q[|q| - 1];
    assert z in multiset(q) && z in h;
    m := LastIndex(h, z);
    RemovedOps(h, m, q);
    RemovedInOrder(h, m);
    PrefixInOrder(q, |q| - 1);
    forall y | y in h[m + 1..]
      ensures !Conflict(z, y) && y != z
    {
      BehindNoConflict(h, m, q, z, y);
    }
  }

  /** Histories of the same operations, each of which keeps conflicting operations in order, leave the same
    * memory. */
  lemma {:induction false} Confluent(h: seq<Op>, q: seq<Op>)
    requires multiset(h) == multiset(q) && InOrder(h) && InOrder(q)
    ensures SameMemory(h, q)
    decreases |q|
  {
    if q == [] {
      assert |h| == |multiset(h)| == 0;
    } else {
      var n := |q| - 1;
      var m := TakeOutLast(h, q);
      var h1, h2 := h[..m], h[m + 1..];
      MoveLast(h1, q[n], h2);
      Confluent(h1 + h2, q[..n]);
      AppendSame(h1 + h2, q[..n], q[n]);
    }
  }

  // ---- every operation reads the same ----

  ghost predicate Distinct(h: seq<Op>) { forall i, j :: 0 <= i < j < |h| ==> h[i] != h[j] }

  lemma RemovedDistinct(h: seq<Op>, p: nat)
    requires p < |h| && Distinct(h)
    ensures Distinct(h[..p] + h[p + 1..])
  {
    var h' := h[..p] + h[p + 1..];
    forall i, j | 0 <= i < j < |h'|
      ensures h'[i] != h'[j]
    {
      var i', j' := if i < p then i else i + 1, if j < p then j else j + 1;
      assert h'[i] == h[i'] && h'[j] == h[j'];
    }
  }

  /** Taking out an operation that a later one does not conflict with leaves what the later one reads. */
  lemma ReadsWithout(h1: seq<Op>, z: Op, t: seq<Op>, x: Op)
    requires (forall y :: y in t ==> !Conflict(z, y)) && !Conflict(z, x)
    ensures Args(h1 + [z] + t, x) == Args(h1 + t, x)
  {
    MoveLast(h1, z, t);
    ArgsSame(h1 + [z] + t, h1 + t + [z], x);
    ArgsUnaffected(h1 + t, z, x);
  }

  /** What an operation reads does not change when z, which conflicts with nothing behind it, is taken out. */
  lemma ReadsAfterRemoval(h: seq<Op>, m: nat, p: nat) returns (p': nat)
    requires m < |h| && p < |h| && p != m
    requires forall y :: y in h[m + 1..] ==> !Conflict(h[m], y)
    ensures var h' := h[..m] + h[m + 1..]; p' < |h'| && h'[p'] == h[p] && Args(h'[..p'], h[p]) == Args(h[..p], h[p])
  {
    var z, h1, h2 := h[m], h[..m], h[m + 1..];
    var h' := h1 + h2;
    p' := if p < m then p else p - 1;
    if p < m {
      assert h'[..p] == h[..p];
    } else {
      var t := h[m + 1..p];
      assert h[..p] == h1 + [z] + t && h'[..p'] == h1 + t && h[p] == h2[p - m - 1];
      forall y | y in t
        ensures !Conflict(z, y)
      {
        var k :| 0 <= k < |t| && t[k] == y;
        assert h2[k] == y;
      }
      ReadsWithout(h1, z, t, h[p]);
    }
  }

  /** Every operation reads in one history what it reads in the other. */
  lemma {:induction false} SameReads(h: seq<Op>, q: seq<Op>, p: nat, r: nat)
    requires multiset(h) == multiset(q) && InOrder(h) && InOrder(q) && Distinct(h) && Distinct(q)
    requires p < |h| && r < |q| && h[p] == q[r]
    ensures Args(h[..p], h[p]) == Args(q[..r], q[r])
    decreases |q|
  {
    var n := |q| - 1;
    var m := TakeOutLast(h, q);
    var h1, h2 := h[..m], h[m + 1..];
    if r == n {
      assert p == m;
      MoveLast(h1, q[n], h2);
      Confluent(h1 + h2, q[..n]);
      ArgsSame(h1 + h2, q[..n], q[n]);
    } else {
      assert q[r] != q[n];
      RemovedDistinct(h, m);
      var p' := ReadsAfterRemoval(h, m, p);
      assert q[..n][..r] == q[..r];
      SameReads(h1 + h2, q[..n], p', r);
    }
  }

  // ---- programs and runs ----

  /** own and seen are the counter of the thread and the counter of the other thread it has waited for,
    * after the instruction. */
  datatype Instr =
    | Advance(own: nat, seen: nat)
    | Fence(own: nat, seen: nat)
    | Do(own: nat, seen: nat, op: Op)

  function OwnAt(s: seq<Instr>, i: nat): nat
    requires i <= |s|
  {
    if i == 0 then 0 else s[i - 1].own
  }

  function SeenAt(s: seq<Instr>, i: nat): nat
    requires i <= |s|
  {
    if i == 0 then 0 else s[i - 1].seen
  }

  /** Counters and fences only grow, an advance moves the counter, a fence what has been waited for. */
  predicate Follows(own: nat, seen: nat, x: Instr) {
    match x
    case Advance(o, s) => o >= own && s == seen
    case Fence(o, s) => o == own && s >= seen
    case Do(o, s, _) => o == own && s == seen
  }

  ghost predicate WellFormed(s: seq<Instr>) { forall i: nat :: i < |s| ==> StepOk(s, i) }

  ghost predicate StepOk(s: seq<Instr>, i: nat) { i < |s| && Follows(OwnAt(s, i), SeenAt(s, i), s[i]) }

  lemma {:induction false} Monotone(s: seq<Instr>, i: nat, j: nat)
    requires WellFormed(s) && i <= j <= |s|
    ensures OwnAt(s, i) <= OwnAt(s, j) && SeenAt(s, i) <= SeenAt(s, j)
    decreases j
  {
    if i < j {
      Monotone(s, i, j - 1);
      assert StepOk(s, j - 1);
    }
  }

  /** The operations of the first n instructions. */
  function Ops(s: seq<Instr>, n: nat): seq<Op>
    requires n <= |s|
  {
    if n == 0 then [] else Done(s[n - 1], Ops(s, n - 1))
  }

  function Done(x: Instr, done: seq<Op>): seq<Op> { if x.Do? then done + [x.op] else done }

  ghost predicate Ascending(h: seq<Op>) { forall i, j :: 0 <= i < j < |h| ==> h[i].key < h[j].key }

  /** Operations of one program have increasing keys. */
  ghost predicate KeysIncrease(s: seq<Instr>) { Ascending(Ops(s, |s|)) }

  lemma {:induction false} OpsPrefix(s: seq<Instr>, m: nat, n: nat)
    requires m <= n <= |s|
    ensures |Ops(s, m)| <= |Ops(s, n)| && Ops(s, n)[..|Ops(s, m)|] == Ops(s, m)
    decreases n
  {
    if m < n {
      OpsPrefix(s, m, n - 1);
    }
  }

  /** x of one program and y of the other never overlap: the fence y has passed needs an advance behind x,
    * and x also comes first in the single-thread order; or the other way round. */
  predicate Separated(x: Instr, y: Instr)
    requires x.Do? && y.Do?
  {
    (x.own < y.seen && x.op.key < y.op.key) || (y.own < x.seen && y.op.key < x.op.key)
  }

  ghost predicate RaceFree(a: seq<Instr>, b: seq<Instr>) {
    forall i: nat, j: nat :: i < |a| && j < |b| ==> PairFree(a[i], b[j])
  }

  ghost predicate PairFree(x: Instr, y: Instr) { x.Do? && y.Do? && Conflict(x.op, y.op) ==> Separated(x, y) }

  /** Never two fences that wait for each other. */
  ghost predicate NoCircle(a: seq<Instr>, b: seq<Instr>) {
    forall i: nat, j: nat :: i < |a| && j < |b| && a[i].Fence? && b[j].Fence? ==> a[i].seen <= OwnAt(b, j) || b[j].seen <= OwnAt(a, i)
  }

  /** No fence waits for more than the other thread ever reaches. */
  ghost predicate Reached(a: seq<Instr>, b: seq<Instr>) {
    forall i :: 0 <= i < |a| && a[i].Fence? ==> a[i].seen <= OwnAt(b, |b|)
  }

  ghost predicate Compatible(a: seq<Instr>, b: seq<Instr>) {
    && WellFormed(a) && WellFormed(b) && KeysIncrease(a) && KeysIncrease(b) && RaceFree(a, b)
    && NoCircle(a, b) && Reached(a, b) && Reached(b, a)
  }

  /** Where both threads are, their counters, and the operations done so far. */
  datatype State = State(i: nat, j: nat, master: nat, slave: nat, done: seq<Op>)

  /** A fence waits until the other counter is there. */
  predicate Enabled(x: Instr, other: nat) { x.Fence? ==> other >= x.seen }

  function Counter(x: Instr, own: nat): nat { if x.Advance? then x.own else own }

  ghost predicate Next(a: seq<Instr>, b: seq<Instr>, s: State, s': State) {
    || (s.i < |a| && Enabled(a[s.i], s.slave)
        && s' == State(s.i + 1, s.j, Counter(a[s.i], s.master), s.slave, Done(a[s.i], s.done)))
    || (s.j < |b| && Enabled(b[s.j], s.master)
        && s' == State(s.i, s.j + 1, s.master, Counter(b[s.j], s.slave), Done(b[s.j], s.done)))
  }

  const Start := State(0, 0, 0, 0, [])

  ghost predicate IsRun(a: seq<Instr>, b: seq<Instr>, run: seq<State>) {
    |run| >= 1 && run[0] == Start && forall k: nat :: k + 1 < |run| ==> Next(a, b, run[k], run[k + 1])
  }

  ghost predicate Inv(a: seq<Instr>, b: seq<Instr>, s: State) {
    && s.i <= |a| && s.j <= |b|
    && s.master == OwnAt(a, s.i) && s.slave == OwnAt(b, s.j)
    && SeenAt(a, s.i) <= s.slave && SeenAt(b, s.j) <= s.master
    && multiset(s.done) == multiset(Ops(a, s.i) + Ops(b, s.j)) && InOrder(s.done)
  }

  lemma {:induction false} OpsAre(s: seq<Instr>, n: nat, x: Op) returns (i: nat)
    requires n <= |s| && x in Ops(s, n)
    ensures i < n && s[i].Do? && s[i].op == x
    decreases n
  {
    if s[n - 1].Do? && s[n - 1].op == x {
      i := n - 1;
    } else {
      i := OpsAre(s, n - 1, x);
    }
  }

  lemma LaterKey(s: seq<Instr>, i: nat, y: Op)
    requires KeysIncrease(s) && i < |s| && s[i].Do? && y in Ops(s, i)
    ensures y.key < s[i].op.key
  {
    OpsPrefix(s, i + 1, |s|);
    var h, n := Ops(s, |s|), |Ops(s, i)|;
    var k :| 0 <= k < n && Ops(s, i)[k] == y;
    assert h[..n + 1][k] == y && h[..n + 1][n] == s[i].op;
  }

  /** An operation about to run comes after every conflicting operation already done. */
  lemma NewestInOrder(a: seq<Instr>, b: seq<Instr>, s: State, y: Op)
    requires WellFormed(a) && WellFormed(b) && KeysIncrease(a) && RaceFree(a, b) && s.i < |a| && a[s.i].Do?
    requires s.j <= |b| && SeenAt(b, s.j) <= OwnAt(a, s.i)
    requires (y in Ops(a, s.i) || y in Ops(b, s.j)) && Conflict(y, a[s.i].op)
    ensures y.key < a[s.i].op.key
  {
    if y in Ops(a, s.i) {
      LaterKey(a, s.i, y);
    } else {
      assert StepOk(a, s.i);
      OtherKey(a, b, s.i, s.j, y);
    }
  }

  /** What the other thread has done and conflicts with x comes before x: the fence it has passed would not
    * have let it run after. */
  lemma OtherKey(a: seq<Instr>, b: seq<Instr>, i: nat, j: nat, y: Op)
    requires WellFormed(b) && RaceFree(a, b) && i < |a| && j <= |b| && a[i].Do? && SeenAt(b, j) <= a[i].own
    requires y in Ops(b, j) && Conflict(y, a[i].op)
    ensures y.key < a[i].op.key
  {
    var k := OpsAre(b, j, y);
    Monotone(b, k + 1, j);
    assert PairFree(a[i], b[k]);
    ConflictSymmetric(y, a[i].op);
  }

  function StepOf(a: seq<Instr>, s: State): State
    requires s.i < |a|
  {
    State(s.i + 1, s.j, Counter(a[s.i], s.master), s.slave, Done(a[s.i], s.done))
  }

  lemma OpsGrow(a: seq<Instr>, i: nat, q: seq<Op>, done: seq<Op>)
    requires i < |a| && multiset(done) == multiset(Ops(a, i) + q)
    ensures multiset(Done(a[i], done)) == multiset(Ops(a, i + 1) + q)
  {
    if a[i].Do? {
      assert Ops(a, i + 1) + q == Ops(a, i) + [a[i].op] + q;
      WithoutMiddle(Ops(a, i), a[i].op, q);
      WithoutMiddle(done, a[i].op, []);
      assert done + [a[i].op] == done + [a[i].op] + [] && done + [] == done;
    }
  }

  lemma StepInOrder(a: seq<Instr>, b: seq<Instr>, s: State)
    requires WellFormed(a) && WellFormed(b) && KeysIncrease(a) && RaceFree(a, b) && Inv(a, b, s) && s.i < |a|
    ensures InOrder(Done(a[s.i], s.done))
  {
    if a[s.i].Do? {
      var x := a[s.i].op;
      var h := s.done + [x];
      assert StepOk(a, s.i);
      forall p, q | 0 <= p < q < |h|
        ensures Keeps(h[p], h[q])
      {
        if q < |s.done| {
          assert Keeps(s.done[p], s.done[q]);
        } else if Conflict(h[p], x) {
          assert s.done[p] in multiset(s.done);
          assert h[p] in Ops(a, s.i) + Ops(b, s.j);
          NewestInOrder(a, b, s, h[p]);
        }
      }
    }
  }

  /** A step of the first thread keeps the invariant; the second thread is the same with roles exchanged. */
  lemma StepKeeps(a: seq<Instr>, b: seq<Instr>, s: State)
    requires WellFormed(a) && WellFormed(b) && KeysIncrease(a) && RaceFree(a, b)
    requires Inv(a, b, s) && s.i < |a| && Enabled(a[s.i], s.slave)
    ensures Inv(a, b, StepOf(a, s))
  {
    assert StepOk(a, s.i);
    StepInOrder(a, b, s);
    OpsGrow(a, s.i, Ops(b, s.j), s.done);
  }

  function Exchange(s: State): State { State(s.j, s.i, s.slave, s.master, s.done) }

  lemma InvExchange(a: seq<Instr>, b: seq<Instr>, s: State)
    ensures Inv(a, b, s) <==> Inv(b, a, Exchange(s))
  {
    if s.i <= |a| && s.j <= |b| {
      var x, y := Ops(a, s.i), Ops(b, s.j);
      assert multiset(x + y) == multiset(x) + multiset(y) == multiset(y + x);
    }
  }

  lemma RaceFreeExchange(a: seq<Instr>, b: seq<Instr>)
    requires RaceFree(a, b)
    ensures RaceFree(b, a)
  {
    forall i: nat, j: nat | i < |b| && j < |a|
      ensures PairFree(b[i], a[j])
    {
      assert PairFree(a[j], b[i]);
      if b[i].Do? && a[j].Do? {
        ConflictSymmetric(b[i].op, a[j].op);
      }
    }
  }

  lemma NextKeeps(a: seq<Instr>, b: seq<Instr>, s: State, s': State)
    requires Compatible(a, b) && Inv(a, b, s) && Next(a, b, s, s')
    ensures Inv(a, b, s') && s'.i + s'.j == s.i + s.j + 1
  {
    if s.i < |a| && Enabled(a[s.i], s.slave) && s' == StepOf(a, s) {
      StepKeeps(a, b, s);
    } else {
      RaceFreeExchange(a, b);
      InvExchange(a, b, s);
      StepKeeps(b, a, Exchange(s));
      assert Exchange(s') == StepOf(b, Exchange(s));
      InvExchange(a, b, s');
    }
  }

  /** Every state of every run satisfies the invariant; a run has one state for each instruction done. */
  lemma {:induction false} RunKeeps(a: seq<Instr>, b: seq<Instr>, run: seq<State>, k: nat)
    requires Compatible(a, b) && IsRun(a, b, run) && k < |run|
    ensures Inv(a, b, run[k]) && run[k].i + run[k].j == k <= |a| + |b|
    decreases k
  {
    if k > 0 {
      RunKeeps(a, b, run, k - 1);
      assert Next(a, b, run[k - 1], run[k]);
      NextKeeps(a, b, run[k - 1], run[k]);
    }
  }

  /** No data race: two operations that could run next never conflict. */
  lemma NoRace(a: seq<Instr>, b: seq<Instr>, run: seq<State>, k: nat)
    requires Compatible(a, b) && IsRun(a, b, run) && k < |run|
    requires run[k].i < |a| && run[k].j < |b| && a[run[k].i].Do? && b[run[k].j].Do?
    ensures !Conflict(a[run[k].i].op, b[run[k].j].op)
  {
    RunKeeps(a, b, run, k);
    var i, j := run[k].i, run[k].j;
    assert StepOk(a, i) && StepOk(b, j);
    assert PairFree(a[i], b[j]);
  }

  /** No deadlock: until both threads have finished, one of them can take a step. */
  lemma NoDeadlock(a: seq<Instr>, b: seq<Instr>, run: seq<State>, k: nat)
    requires Compatible(a, b) && IsRun(a, b, run) && k < |run|
    requires run[k].i < |a| || run[k].j < |b|
    ensures exists s :: Next(a, b, run[k], s)
  {
    RunKeeps(a, b, run, k);
    var s := run[k];
    if s.i < |a| && Enabled(a[s.i], s.slave) {
      assert Next(a, b, s, StepOf(a, s));
    } else if s.j < |b| && Enabled(b[s.j], s.master) {
      assert Next(a, b, s, Exchange(StepOf(b, Exchange(s))));
    } else {
      Blocked(a, b, s);
    }
  }

  lemma Blocked(a: seq<Instr>, b: seq<Instr>, s: State)
    requires Compatible(a, b) && Inv(a, b, s) && (s.i < |a| || s.j < |b|)
    ensures (s.i < |a| && Enabled(a[s.i], s.slave)) || (s.j < |b| && Enabled(b[s.j], s.master))
  {}

  /** A finished run has done every operation once and leaves the memory that any history of the same
    * operations in order leaves; every operation has read the same. */
  lemma RunResult(a: seq<Instr>, b: seq<Instr>, run: seq<State>, q: seq<Op>)
    requires Compatible(a, b) && IsRun(a, b, run) && run[|run| - 1].i == |a| && run[|run| - 1].j == |b|
    requires multiset(q) == multiset(Ops(a, |a|) + Ops(b, |b|)) && InOrder(q) && Distinct(q)
    ensures var h := run[|run| - 1].done;
      && multiset(h) == multiset(q) && SameMemory(h, q)
      && forall p: nat, r: nat :: p < |h| && r < |q| && h[p] == q[r] ==> Args(h[..p], h[p]) == Args(q[..r], q[r])
  {
    RunKeeps(a, b, run, |run| - 1);
    var h := run[|run| - 1].done;
    Confluent(h, q);
    DistinctOps(h, q);
    forall p: nat, r: nat | p < |h| && r < |q| && h[p] == q[r]
      ensures Args(h[..p], h[p]) == Args(q[..r], q[r])
    {
      SameReads(h, q, p, r);
    }
  }

  lemma DistinctOps(h: seq<Op>, q: seq<Op>)
    requires multiset(h) == multiset(q) && Distinct(q)
    ensures Distinct(h)
  {
    forall i, j | 0 <= i < j < |h|
      ensures h[i] != h[j]
    {
      if h[i] == h[j] {
        Twice(h, i, j);
        DistinctCount(q, h[i]);
      }
    }
  }

  lemma Twice(h: seq<Op>, i: nat, j: nat)
    requires i < j < |h| && h[i] == h[j]
    ensures multiset(h)[h[i]] >= 2
  {
    assert h == h[..i] + [h[i]] + h[i + 1..j] + [h[j]] + h[j + 1..];
  }

  lemma {:induction false} DistinctCount(q: seq<Op>, x: Op)
    requires Distinct(q)
    ensures multiset(q)[x] <= 1
    decreases |q|
  {
    if q != [] {
      var n := |q| - 1;
      assert q == q[..n] + [q[n]];
      DistinctCount(q[..n], x);
    }
  }
}
