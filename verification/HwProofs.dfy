/** The proof queue of the hardware VDF client (src/hw/hw_proof.cpp): proofs are chained by `prev`,
  * share checkpoints, and are removed when no request needs them any more. */
module HwProofs {
  import opened Options
  import opened Integers

  /** struct vdf_proof; Removed is an entry overwritten with 0xff. */
  datatype Proof =
    | Live(iters: nat, seg: nat, isReq: bool, started: bool, done: bool, prev: Option<nat>, refs: nat)
    | Removed

  const MAX_SEGMENTS := 64
  const CHKP_THRES := 1_000_000

  // ---- chains ----

  predicate IsLive(ps: seq<Proof>, i: nat) { i < |ps| && ps[i].Live? }

  /** The number of segments of the chain that ends in i. */
  function Depth(ps: seq<Proof>, i: nat): (n: nat)
    requires IsLive(ps, i)
    ensures n >= 1
    decreases i
  {
    if ps[i].prev.Some? && ps[i].prev.value < i && IsLive(ps, ps[i].prev.value) then Depth(ps, ps[i].prev.value) + 1 else 1
  }

  /** The sum of the segment lengths of the chain that ends in i. */
  function ChainSum(ps: seq<Proof>, i: nat): nat
    requires IsLive(ps, i)
    decreases i
  {
    ps[i].seg + if ps[i].prev.Some? && ps[i].prev.value < i && IsLive(ps, ps[i].prev.value) then ChainSum(ps, ps[i].prev.value) else 0
  }

  /** Entry i continues a chain of checkpoints; checkpoints are multiples of the interval. */
  ghost predicate LinkOk(ps: seq<Proof>, i: nat, interval: nat)
    requires IsLive(ps, i) && interval > 0
  {
    && (ps[i].prev.None? ==> ps[i].iters == ps[i].seg)
    && (ps[i].prev.Some? ==> var q := ps[i].prev.value;
                             q < i && IsLive(ps, q) && !ps[q].isReq && ps[i].iters == ps[i].seg + ps[q].iters)
    && (!ps[i].isReq ==> ps[i].iters % interval == 0)
    && Depth(ps, i) <= MAX_SEGMENTS
  }

  ghost predicate Links(ps: seq<Proof>, interval: nat) {
    interval > 0 && forall i: nat :: IsLive(ps, i) ==> LinkOk(ps, i, interval)
  }

  /** The segment lengths along a chain sum to the iterations of its end. */
  lemma {:induction false} ChainSums(ps: seq<Proof>, i: nat, interval: nat)
    requires Links(ps, interval) && IsLive(ps, i)
    ensures ChainSum(ps, i) == ps[i].iters
    decreases i
  {
    assert LinkOk(ps, i, interval);
    if ps[i].prev.Some? {
      ChainSums(ps, ps[i].prev.value, interval);
    }
  }

  // ---- reference counts ----

  /** The references of the live entries that continue p, among the first n. */
  function ChildRefs(ps: seq<Proof>, p: nat, n: nat): nat
    requires n <= |ps|
  {
    if n == 0 then 0 else ChildRefs(ps, p, n - 1) + (if ps[n - 1].Live? && ps[n - 1].prev == Some(p) then ps[n - 1].refs else 0)
  }

  function Own(x: Proof): nat { if x.Live? && x.isReq then 1 else 0 }

  /** p is referenced at least once for each reference of its continuations and once if it is a request
    * itself; one more at `slack`, one less at `debt`, none for the requests in `gone`. */
  ghost predicate CountOk(ps: seq<Proof>, p: nat, debt: Option<nat>, slack: Option<nat>, gone: set<nat>)
    requires IsLive(ps, p)
  {
    ps[p].refs + (if debt == Some(p) then 1 else 0)
      >= ChildRefs(ps, p, |ps|) + (if p in gone then 0 else Own(ps[p])) + (if slack == Some(p) then 1 else 0)
  }

  ghost predicate Counted(ps: seq<Proof>, debt: Option<nat>, slack: Option<nat>, gone: set<nat>) {
    forall p: nat :: IsLive(ps, p) ==> CountOk(ps, p, debt, slack, gone)
  }

  ghost predicate Referenced(ps: seq<Proof>) { forall p: nat :: IsLive(ps, p) ==> RefOk(ps[p]) }

  predicate RefOk(x: Proof) { x.Live? ==> x.refs >= 1 && (x.isReq ==> x.refs == 1) }

  function SetRefs(ps: seq<Proof>, i: nat, refs: nat): (r: seq<Proof>)
    requires IsLive(ps, i)
    ensures |r| == |ps|
  {
    ps[i := ps[i].(refs := refs)]
  }

  lemma {:induction false} ChildRefsSet(ps: seq<Proof>, i: nat, refs: nat, p: nat, n: nat)
    requires IsLive(ps, i) && n <= |ps|
    ensures ChildRefs(SetRefs(ps, i, refs), p, n) == ChildRefs(ps, p, n) + if i < n && ps[i].prev == Some(p) then refs - ps[i].refs else 0
    decreases n
  {
    if n > 0 {
      ChildRefsSet(ps, i, refs, p, n - 1);
    }
  }

  /** Changing counts changes no chain. */
  lemma {:induction false} DepthSet(ps: seq<Proof>, i: nat, refs: nat, p: nat)
    requires IsLive(ps, i) && IsLive(ps, p)
    ensures Depth(SetRefs(ps, i, refs), p) == Depth(ps, p)
    decreases p
  {
    if ps[p].prev.Some? && ps[p].prev.value < p && IsLive(ps, ps[p].prev.value) {
      DepthSet(ps, i, refs, ps[p].prev.value);
    }
  }

  lemma LinksSet(ps: seq<Proof>, i: nat, refs: nat, interval: nat)
    requires Links(ps, interval) && IsLive(ps, i)
    ensures Links(SetRefs(ps, i, refs), interval)
  {
    var ps' := SetRefs(ps, i, refs);
    forall p: nat | IsLive(ps', p)
      ensures LinkOk(ps', p, interval)
    {
      assert LinkOk(ps, p, interval);
      DepthSet(ps, i, refs, p);
    }
  }

  /** One step of hw_proof_inc_ref: the debt moves on to the previous entry. */
  lemma IncStep(ps: seq<Proof>, i: nat, slack: Option<nat>, interval: nat)
    requires Links(ps, interval) && IsLive(ps, i) && Counted(ps, Some(i), slack, {})
    ensures Counted(SetRefs(ps, i, ps[i].refs + 1), ps[i].prev, slack, {})
  {
    var ps' := SetRefs(ps, i, ps[i].refs + 1);
    assert LinkOk(ps, i, interval);
    forall p: nat | IsLive(ps', p)
      ensures CountOk(ps', p, ps[i].prev, slack, {})
    {
      assert CountOk(ps, p, Some(i), slack, {});
      ChildRefsSet(ps, i, ps[i].refs + 1, p, |ps|);
    }
  }

  /** One step of hw_proof_dec_ref: the slack moves on to the previous entry. */
  lemma DecStep(ps: seq<Proof>, i: nat, gone: set<nat>, interval: nat)
    requires Links(ps, interval) && IsLive(ps, i) && Counted(ps, None, Some(i), gone)
    ensures ps[i].refs >= 1 && Counted(SetRefs(ps, i, ps[i].refs - 1), None, ps[i].prev, gone)
  {
    assert CountOk(ps, i, None, Some(i), gone);
    var ps' := SetRefs(ps, i, ps[i].refs - 1);
    assert LinkOk(ps, i, interval);
    forall p: nat | IsLive(ps', p)
      ensures CountOk(ps', p, None, ps[i].prev, gone)
    {
      assert CountOk(ps, p, None, Some(i), gone);
      ChildRefsSet(ps, i, ps[i].refs - 1, p, |ps|);
    }
  }

  lemma SlackDropped(ps: seq<Proof>, slack: Option<nat>, gone: set<nat>)
    requires Counted(ps, None, slack, gone)
    ensures Counted(ps, None, None, gone)
  {
    forall p: nat | IsLive(ps, p)
      ensures CountOk(ps, p, None, None, gone)
    {
      assert CountOk(ps, p, None, slack, gone);
    }
  }

  lemma {:induction false} ChildRefsAppend(ps: seq<Proof>, x: Proof, p: nat, n: nat)
    requires n <= |ps|
    ensures ChildRefs(ps + [x], p, n) == ChildRefs(ps, p, n)
    decreases n
  {
    if n > 0 {
      ChildRefsAppend(ps, x, p, n - 1);
    }
  }

  lemma {:induction false} NoLaterChildren(ps: seq<Proof>, p: nat, n: nat, interval: nat)
    requires Links(ps, interval) && n <= |ps| && p >= n
    ensures ChildRefs(ps, p, n) == 0
    decreases n
  {
    if n > 0 {
      NoLaterChildren(ps, p, n - 1, interval);
      if ps[n - 1].Live? {
        assert LinkOk(ps, n - 1, interval);
      }
    }
  }

  lemma {:induction false} DepthAppend(ps: seq<Proof>, x: Proof, p: nat)
    requires IsLive(ps, p)
    ensures Depth(ps + [x], p) == Depth(ps, p)
    decreases p
  {
    if ps[p].prev.Some? && ps[p].prev.value < p && IsLive(ps, ps[p].prev.value) {
      DepthAppend(ps, x, ps[p].prev.value);
    }
  }

  function NewProof(ps: seq<Proof>, seg: nat, prev: Option<nat>, isReq: bool): Proof
    requires prev.Some? ==> IsLive(ps, prev.value)
  {
    Live(seg + (if prev.Some? then ps[prev.value].iters else 0), seg, isReq, false, false, prev, 1)
  }

  /** What hw_queue_proof needs of the entry it continues. */
  ghost predicate Continues(ps: seq<Proof>, seg: nat, prev: Option<nat>, isReq: bool, interval: nat) {
    && interval > 0
    && (prev.Some? ==> IsLive(ps, prev.value) && !ps[prev.value].isReq && Depth(ps, prev.value) < MAX_SEGMENTS)
    && (!isReq ==> NewProof(ps, seg, prev, isReq).iters % interval == 0)
  }

  lemma AppendLinks(ps: seq<Proof>, seg: nat, prev: Option<nat>, isReq: bool, interval: nat)
    requires Links(ps, interval) && Continues(ps, seg, prev, isReq, interval)
    ensures var ps' := ps + [NewProof(ps, seg, prev, isReq)];
            Links(ps', interval) && Depth(ps', |ps|) == if prev.Some? then Depth(ps, prev.value) + 1 else 1
  {
    var x := NewProof(ps, seg, prev, isReq);
    if prev.Some? {
      DepthAppend(ps, x, prev.value);
    }
    forall p: nat | IsLive(ps + [x], p)
      ensures LinkOk(ps + [x], p, interval)
    {
      if p < |ps| {
        assert LinkOk(ps, p, interval);
        DepthAppend(ps, x, p);
      }
    }
  }

  /** The predecessor has one reference to spare, and so has a new checkpoint. */
  lemma AppendCounted(ps: seq<Proof>, seg: nat, prev: Option<nat>, isReq: bool, interval: nat)
    requires Links(ps, interval) && Continues(ps, seg, prev, isReq, interval) && Counted(ps, None, prev, {})
    ensures Counted(ps + [NewProof(ps, seg, prev, isReq)], None, if isReq then None else Some(|ps|), {})
  {
    var x := NewProof(ps, seg, prev, isReq);
    forall p: nat | IsLive(ps + [x], p)
      ensures CountOk(ps + [x], p, None, if isReq then None else Some(|ps|), {})
    {
      ChildRefsAppend(ps, x, p, |ps|);
      if p < |ps| {
        assert CountOk(ps, p, None, prev, {});
      } else {
        NoLaterChildren(ps, p, |ps|, interval);
      }
    }
  }

  /** hw_queue_proof appends an entry with one reference. */
  lemma AppendKeeps(ps: seq<Proof>, seg: nat, prev: Option<nat>, isReq: bool, interval: nat)
    requires Links(ps, interval) && Referenced(ps) && Counted(ps, None, prev, {}) && Continues(ps, seg, prev, isReq, interval)
    ensures var ps' := ps + [NewProof(ps, seg, prev, isReq)];
      && Links(ps', interval) && Referenced(ps') && Counted(ps', None, if isReq then None else Some(|ps|), {})
      && Depth(ps', |ps|) == if prev.Some? then Depth(ps, prev.value) + 1 else 1
  {
    AppendLinks(ps, seg, prev, isReq, interval);
    AppendCounted(ps, seg, prev, isReq, interval);
    var ps' := ps + [NewProof(ps, seg, prev, isReq)];
    forall p: nat | IsLive(ps', p)
      ensures RefOk(ps'[p])
    {
      if p < |ps| {
        assert RefOk(ps[p]);
      }
    }
  }

  // ---- removal ----

  /** Entries without references are removed. */
  function Sweep(ps: seq<Proof>): (r: seq<Proof>)
    ensures |r| == |ps|
  {
    seq(|ps|, i requires 0 <= i < |ps| => if ps[i].Live? && ps[i].refs == 0 then Removed else ps[i])
  }

  /** The entries above i have been swept. */
  ghost predicate SweptAbove(before: seq<Proof>, ps: seq<Proof>, i: int) {
    |ps| == |before| && forall p :: 0 <= p < |ps| ==> ps[p] == if p <= i then before[p] else Sweep(before)[p]
  }

  lemma {:induction false} ChildRefsSweep(ps: seq<Proof>, p: nat, n: nat)
    requires n <= |ps|
    ensures ChildRefs(Sweep(ps), p, n) == ChildRefs(ps, p, n)
    decreases n
  {
    if n > 0 {
      ChildRefsSweep(ps, p, n - 1);
    }
  }

  lemma {:induction false} ChildRefsAtLeast(ps: seq<Proof>, p: nat, i: nat, n: nat)
    requires i < n <= |ps| && ps[i].Live? && ps[i].prev == Some(p)
    ensures ChildRefs(ps, p, n) >= ps[i].refs
    decreases n
  {
    if i < n - 1 {
      ChildRefsAtLeast(ps, p, i, n - 1);
    }
  }

  /** An entry that survives keeps its whole chain: its predecessor has at least as many references. */
  lemma PrevSurvives(ps: seq<Proof>, i: nat, gone: set<nat>, interval: nat)
    requires Links(ps, interval) && Counted(ps, None, None, gone) && IsLive(Sweep(ps), i) && ps[i].prev.Some?
    ensures IsLive(Sweep(ps), ps[i].prev.value)
  {
    var q := ps[i].prev.value;
    assert LinkOk(ps, i, interval) && CountOk(ps, q, None, None, gone);
    ChildRefsAtLeast(ps, q, i, |ps|);
  }

  lemma {:induction false} DepthSweep(ps: seq<Proof>, i: nat, gone: set<nat>, interval: nat)
    requires Links(ps, interval) && Counted(ps, None, None, gone) && IsLive(Sweep(ps), i)
    ensures Depth(Sweep(ps), i) == Depth(ps, i)
    decreases i
  {
    assert LinkOk(ps, i, interval);
    if ps[i].prev.Some? {
      PrevSurvives(ps, i, gone, interval);
      DepthSweep(ps, ps[i].prev.value, gone, interval);
    }
  }

  /** gone are the requests that have lost their reference. */
  ghost predicate GoneOk(ps: seq<Proof>, gone: set<nat>) {
    forall p: nat :: IsLive(ps, p) ==> GoneEntry(ps, p, gone)
  }

  predicate GoneEntry(ps: seq<Proof>, p: nat, gone: set<nat>)
    requires IsLive(ps, p)
  {
    (p in gone ==> ps[p].isReq && ps[p].refs == 0) && (ps[p].isReq && p !in gone ==> ps[p].refs == 1)
  }

  lemma SweepKeeps(ps: seq<Proof>, gone: set<nat>, interval: nat)
    requires Links(ps, interval) && Counted(ps, None, None, gone) && GoneOk(ps, gone)
    ensures Links(Sweep(ps), interval) && Referenced(Sweep(ps)) && Counted(Sweep(ps), None, None, {})
    ensures forall p: nat :: IsLive(ps, p) && ps[p].isReq && p !in gone ==> Sweep(ps)[p] == ps[p]
  {
    var ps' := Sweep(ps);
    forall p: nat | IsLive(ps, p)
      ensures ps[p].isReq && p !in gone ==> ps'[p] == ps[p]
    {
      assert GoneEntry(ps, p, gone);
    }
    forall p: nat | IsLive(ps', p)
      ensures LinkOk(ps', p, interval) && RefOk(ps'[p]) && CountOk(ps', p, None, None, {})
    {
      assert LinkOk(ps, p, interval) && CountOk(ps, p, None, None, gone) && GoneEntry(ps, p, gone);
      ChildRefsSweep(ps, p, |ps|);
      DepthSweep(ps, p, gone, interval);
      if ps[p].prev.Some? {
        PrevSurvives(ps, p, gone, interval);
      }
    }
  }

  lemma {:induction false} DepthPrefix(ps: seq<Proof>, n: nat, p: nat)
    requires n <= |ps| && p < n && IsLive(ps, p)
    ensures Depth(ps[..n], p) == Depth(ps, p)
    decreases p
  {
    if ps[p].prev.Some? && ps[p].prev.value < p && IsLive(ps, ps[p].prev.value) {
      DepthPrefix(ps, n, ps[p].prev.value);
    }
  }

  lemma {:induction false} ChildRefsPrefix(ps: seq<Proof>, n: nat, p: nat, m: nat)
    requires n <= m <= |ps| && forall i :: n <= i < m ==> ps[i].Removed?
    ensures ChildRefs(ps[..n], p, n) == ChildRefs(ps, p, m)
    decreases m
  {
    if m > n {
      ChildRefsPrefix(ps, n, p, m - 1);
    } else if n > 0 {
      ChildRefsShorter(ps, n, p, n);
    }
  }

  lemma {:induction false} ChildRefsShorter(ps: seq<Proof>, n: nat, p: nat, m: nat)
    requires m <= n <= |ps|
    ensures ChildRefs(ps[..n], p, m) == ChildRefs(ps, p, m)
    decreases m
  {
    if m > 0 {
      ChildRefsShorter(ps, n, p, m - 1);
    }
  }

  /** Removed entries at the end are cut off. */
  lemma CutKeeps(ps: seq<Proof>, n: nat, interval: nat)
    requires Links(ps, interval) && Referenced(ps) && Counted(ps, None, None, {})
    requires n <= |ps| && forall i :: n <= i < |ps| ==> ps[i].Removed?
    ensures Links(ps[..n], interval) && Referenced(ps[..n]) && Counted(ps[..n], None, None, {})
  {
    var ps' := ps[..n];
    forall p: nat | IsLive(ps', p)
      ensures LinkOk(ps', p, interval) && RefOk(ps'[p]) && CountOk(ps', p, None, None, {})
    {
      assert LinkOk(ps, p, interval) && RefOk(ps[p]) && CountOk(ps, p, None, None, {});
      DepthPrefix(ps, n, p);
      ChildRefsPrefix(ps, n, p, |ps|);
    }
  }

  /** Only reference counts differ. */
  ghost predicate SameButRefs(a: seq<Proof>, b: seq<Proof>) {
    |a| == |b| && forall i :: 0 <= i < |a| ==> SameEntry(a[i], b[i])
  }

  predicate SameEntry(x: Proof, y: Proof) { x == y || (x.Live? && y.Live? && y == x.(refs := y.refs)) }

  /** Entries that were requests survive unchanged or are gone. */
  ghost predicate Survives(a: seq<Proof>, b: seq<Proof>, r: nat)
    requires IsLive(a, r)
  {
    IsLive(b, r) && b[r].isReq && b[r].iters == a[r].iters
  }

  // ---- what removal does, exactly ----

  /** The queue holds live entries that have not been started, each once. */
  ghost predicate QueueGood(ps: seq<Proof>, queued: seq<nat>) {
    NoDup(queued) && forall i: nat :: i in queued ==> IsLive(ps, i) && !ps[i].started
  }

  predicate Dropped(ps: seq<Proof>, p: nat) { IsLive(ps, p) && ps[p].refs == 0 }

  /** Where the run of dropped entries at the end of the first n begins. */
  function CutLength(ps: seq<Proof>, n: nat): (k: nat)
    requires n <= |ps|
    ensures k <= n && (k > 0 ==> !Dropped(ps, k - 1)) && forall p: nat :: k <= p < n ==> Dropped(ps, p)
  {
    if n > 0 && Dropped(ps, n - 1) then CutLength(ps, n - 1) else n
  }

  /** s without x. */
  function Omit(s: seq<nat>, x: nat): seq<nat> {
    if s == [] then [] else Omit(s[..|s| - 1], x) + (if s[|s| - 1] == x then [] else [s[|s| - 1]])
  }

  /** s without the dropped entries from `from` on. */
  function OmitDropped(s: seq<nat>, ps: seq<Proof>, from: nat): seq<nat> {
    if s == [] then [] else
      OmitDropped(s[..|s| - 1], ps, from) + (if s[|s| - 1] >= from && Dropped(ps, s[|s| - 1]) then [] else [s[|s| - 1]])
  }

  lemma {:induction false} OmitOneMore(s: seq<nat>, ps: seq<Proof>, i: nat)
    requires Dropped(ps, i)
    ensures OmitDropped(s, ps, i) == Omit(OmitDropped(s, ps, i + 1), i)
    decreases |s|
  {
    if s != [] {
      var init, x := s[..|s| - 1], s[|s| - 1];
      var rest := OmitDropped(init, ps, i + 1);
      OmitOneMore(init, ps, i);
      if x >= i + 1 && Dropped(ps, x) {
        assert rest + [] == rest;
      } else {
        OmitLast(rest, x, i);
      }
    }
  }

  lemma {:induction false} OmitSame(s: seq<nat>, ps: seq<Proof>, i: nat)
    requires !Dropped(ps, i)
    ensures OmitDropped(s, ps, i) == OmitDropped(s, ps, i + 1)
    decreases |s|
  {
    if s != [] {
      OmitSame(s[..|s| - 1], ps, i);
    }
  }

  lemma OmitLast(s: seq<nat>, x: nat, i: nat)
    ensures Omit(s + [x], i) == Omit(s, i) + if x == i then [] else [x]
  {
    assert (s + [x])[..|s|] == s;
  }

  lemma {:induction false} OmitNone(s: seq<nat>, ps: seq<Proof>)
    ensures OmitDropped(s, ps, |ps|) == s
    decreases |s|
  {
    if s != [] {
      OmitNone(s[..|s| - 1], ps);
    }
  }

  /** Leaving out x leaves the others, each once. */
  lemma {:induction false} OmitFacts(s: seq<nat>, x: nat)
    requires NoDup(s)
    ensures NoDup(Omit(s, x)) && forall y :: y in Omit(s, x) <==> y in s && y != x
    decreases |s|
  {
    if s != [] {
      var init, y := s[..|s| - 1], s[|s| - 1];
      assert s == init + [y];
      NoDupInit(init, y);
      OmitFacts(init, x);
      if y != x {
        NoDupMore(Omit(init, x), y);
      }
    }
  }

  lemma NoDupInit(s: seq<nat>, x: nat)
    requires NoDup(s + [x])
    ensures NoDup(s) && x !in s
  {
    var all := s + [x];
    NoDupLater(all, |s|);
    assert all[..|s|] == s;
    forall y
      ensures multiset(s)[y] <= 1
    {
      assert multiset(all)[y] <= 1;
    }
  }

  lemma NoDupMore(s: seq<nat>, x: nat)
    requires NoDup(s) && x !in s
    ensures NoDup(s + [x])
  {
    forall y
      ensures multiset(s + [x])[y] <= 1
    {
      assert multiset(s)[y] <= 1 && x !in multiset(s);
    }
  }

  /** The state of the removal when the entries above i have been looked at. */
  ghost predicate Sweeping(before: seq<Proof>, ps: seq<Proof>, waiting: seq<nat>, queued: seq<nat>, i: int, last: int) {
    && -1 <= i <= last < |before| && SweptAbove(before, ps, i)
    && CutLength(before, |before|) == (if i == last then CutLength(before, last + 1) else last + 1)
    && queued == OmitDropped(waiting, before, i + 1) && QueueGood(ps, queued)
  }

  lemma CutRemoved(ps: seq<Proof>, k: nat)
    requires k == CutLength(ps, |ps|)
    ensures forall p: nat :: k <= p < |ps| ==> Sweep(ps)[p].Removed?
  {
    forall p: nat | k <= p < |ps|
      ensures Sweep(ps)[p].Removed?
    {
      assert Dropped(ps, p);
    }
  }

  lemma SweepStart(ps: seq<Proof>, queued: seq<nat>)
    requires QueueGood(ps, queued)
    ensures Sweeping(ps, ps, queued, queued, |ps| - 1, |ps| - 1)
  {
    OmitNone(queued, ps);
  }

  lemma SweepEnd(before: seq<Proof>, ps: seq<Proof>, waiting: seq<nat>, queued: seq<nat>, last: int)
    requires Sweeping(before, ps, waiting, queued, -1, last)
    ensures ps == Sweep(before) && QueueGood(ps, queued) && queued == OmitDropped(waiting, before, 0)
    ensures last + 1 == CutLength(before, |before|) && -1 <= last < |before|
  {}

  lemma SweepOne(before: seq<Proof>, ps: seq<Proof>, waiting: seq<nat>, queued: seq<nat>, i: nat, last: int,
                 ps': seq<Proof>, queued': seq<nat>, last': int)
    requires Sweeping(before, ps, waiting, queued, i, last) && Dropped(before, i)
    requires |ps'| == |ps| && i < |ps| && ps' == ps[i := Removed] && queued' == Omit(queued, i)
    requires last' == if i == last then last - 1 else last
    ensures Sweeping(before, ps', waiting, queued', i - 1, last')
  {
    SweptMore(before, ps, ps', i);
    CutMore(before, i, last);
    OmitOneMore(waiting, before, i);
    QueueWithout(ps, queued, ps', i);
  }

  lemma SweptMore(before: seq<Proof>, ps: seq<Proof>, ps': seq<Proof>, i: nat)
    requires SweptAbove(before, ps, i) && Dropped(before, i) && |ps'| == |ps| && i < |ps| && ps' == ps[i := Removed]
    ensures SweptAbove(before, ps', i - 1)
  {}

  lemma CutMore(before: seq<Proof>, i: nat, last: int)
    requires Dropped(before, i) && i <= last < |before|
    ensures i == last ==> CutLength(before, last + 1) == CutLength(before, last)
  {}

  lemma QueueWithout(ps: seq<Proof>, queued: seq<nat>, ps': seq<Proof>, i: nat)
    requires QueueGood(ps, queued) && i < |ps| && ps' == ps[i := Removed]
    ensures QueueGood(ps', Omit(queued, i))
  {
    OmitFacts(queued, i);
  }

  lemma SweepNone(before: seq<Proof>, ps: seq<Proof>, waiting: seq<nat>, queued: seq<nat>, i: nat, last: int)
    requires Sweeping(before, ps, waiting, queued, i, last) && !Dropped(before, i)
    ensures Sweeping(before, ps, waiting, queued, i - 1, last)
  {
    OmitSame(waiting, before, i);
  }

  // ---- conservation of requests ----

  function RequestAt(ps: seq<Proof>, p: nat, gone: set<nat>): multiset<nat> {
    if IsLive(ps, p) && ps[p].isReq && p !in gone then multiset{ps[p].iters} else multiset{}
  }

  /** The iterations of the live requests among the first n entries, other than those in `gone`. */
  function Requests(ps: seq<Proof>, n: nat, gone: set<nat>): multiset<nat> {
    if n == 0 then multiset{} else Requests(ps, n - 1, gone) + RequestAt(ps, n - 1, gone)
  }

  lemma {:induction false} RequestsSame(a: seq<Proof>, b: seq<Proof>, n: nat, ga: set<nat>, gb: set<nat>)
    requires forall p: nat :: p < n ==> RequestAt(a, p, ga) == RequestAt(b, p, gb)
    ensures Requests(a, n, ga) == Requests(b, n, gb)
    decreases n
  {
    if n > 0 {
      RequestsSame(a, b, n - 1, ga, gb);
    }
  }

  lemma {:induction false} RequestsBeyond(ps: seq<Proof>, n: nat, gone: set<nat>)
    requires n >= |ps|
    ensures Requests(ps, n, gone) == Requests(ps, |ps|, gone)
    decreases n
  {
    if n > |ps| {
      RequestsBeyond(ps, n - 1, gone);
    }
  }

  lemma {:induction false} RequestsGone(ps: seq<Proof>, n: nat, gone: set<nat>, more: set<nat>, r: nat)
    requires r < n && IsLive(ps, r) && ps[r].isReq && r !in gone && more == gone + {r}
    ensures Requests(ps, n, gone) == Requests(ps, n, more) + multiset{ps[r].iters}
    decreases n
  {
    if r < n - 1 {
      RequestsGone(ps, n - 1, gone, more, r);
      OtherMember(gone, more, r, n - 1);
      GoneEarlier(ps, n, gone, more, multiset{ps[r].iters});
    } else {
      GoneLast(ps, n, gone, more, r);
    }
  }

  lemma OtherMember(gone: set<nat>, more: set<nat>, r: nat, p: nat)
    requires more == gone + {r} && p != r
    ensures p in gone <==> p in more
  {}

  lemma GoneEarlier(ps: seq<Proof>, n: nat, gone: set<nat>, more: set<nat>, x: multiset<nat>)
    requires n > 0 && Requests(ps, n - 1, gone) == Requests(ps, n - 1, more) + x && (n - 1 in gone <==> n - 1 in more)
    ensures Requests(ps, n, gone) == Requests(ps, n, more) + x
  {
    AddBoth(Requests(ps, n - 1, gone), Requests(ps, n - 1, more), x, RequestAt(ps, n - 1, gone));
  }

  lemma GoneLast(ps: seq<Proof>, n: nat, gone: set<nat>, more: set<nat>, r: nat)
    requires n == r + 1 && IsLive(ps, r) && ps[r].isReq && r !in gone && more == gone + {r}
    ensures Requests(ps, n, gone) == Requests(ps, n, more) + multiset{ps[r].iters}
  {
    GoneBelow(ps, gone, more, r);
    RequestsUnfold(ps, n, gone);
    RequestsUnfold(ps, n, more);
    AtGone(ps, gone, more, r);
    LastDiffers(Requests(ps, r, gone), RequestAt(ps, r, gone), Requests(ps, r, more), RequestAt(ps, r, more));
  }

  lemma GoneBelow(ps: seq<Proof>, gone: set<nat>, more: set<nat>, r: nat)
    requires more == gone + {r}
    ensures Requests(ps, r, gone) == Requests(ps, r, more)
  {
    forall p: nat | p < r
      ensures RequestAt(ps, p, gone) == RequestAt(ps, p, more)
    {
      OtherMember(gone, more, r, p);
    }
    RequestsSame(ps, ps, r, gone, more);
  }

  lemma RequestsUnfold(ps: seq<Proof>, n: nat, gone: set<nat>)
    requires n > 0
    ensures Requests(ps, n, gone) == Requests(ps, n - 1, gone) + RequestAt(ps, n - 1, gone)
  {}

  lemma AtGone(ps: seq<Proof>, gone: set<nat>, more: set<nat>, r: nat)
    requires IsLive(ps, r) && ps[r].isReq && r !in gone && more == gone + {r}
    ensures RequestAt(ps, r, gone) == multiset{ps[r].iters} && RequestAt(ps, r, more) == multiset{}
  {}

  lemma LastDiffers(a: multiset<nat>, x: multiset<nat>, b: multiset<nat>, none: multiset<nat>)
    requires a == b && none == multiset{}
    ensures a + x == (b + none) + x
  {}

  lemma AddBoth(a: multiset<nat>, b: multiset<nat>, x: multiset<nat>, c: multiset<nat>)
    requires a == b + x
    ensures a + c == (b + c) + x
  {}

  /** The chain to continue: it ends at `iters`, with room for more segments. */
  ghost predicate Tip(ps: seq<Proof>, prev: Option<nat>, iters: nat, room: nat, interval: nat) {
    && interval > 0 && iters % interval == 0 && room <= MAX_SEGMENTS
    && match prev
       case None => iters == 0
       case Some(p) => IsLive(ps, p) && !ps[p].isReq && ps[p].iters == iters && Depth(ps, p) + room <= MAX_SEGMENTS
  }

  lemma BaseTip(ps: seq<Proof>, base: Option<nat>, reqIters: nat, interval: nat)
    requires Links(ps, interval) && (base.Some? ==> Usable(ps, base.value, reqIters))
    ensures var iters := if base.Some? then ps[base.value].iters else 0; iters <= reqIters && Tip(ps, base, iters, 3, interval)
  {
    if base.Some? {
      assert LinkOk(ps, base.value, interval);
    }
  }

  /** No new entry is a request. */
  ghost predicate NoNewRequest(a: seq<Proof>, b: seq<Proof>) {
    a <= b && forall p: nat :: |a| <= p < |b| && IsLive(b, p) ==> !b[p].isReq
  }

  lemma AppendCheckpoint(a: seq<Proof>, b: seq<Proof>, x: Proof)
    requires NoNewRequest(a, b) && x.Live? && !x.isReq
    ensures NoNewRequest(a, b + [x])
  {}

  lemma AppendRequest(a: seq<Proof>, b: seq<Proof>, x: Proof)
    requires NoNewRequest(a, b) && x.Live? && x.isReq
    ensures OnlyNewRequest(a, b + [x], |b|)
  {}

  /** Only entry pos of the new ones is a request. */
  ghost predicate OnlyNewRequest(a: seq<Proof>, b: seq<Proof>, pos: nat) {
    a <= b && |a| <= pos && IsLive(b, pos) && b[pos].isReq
    && forall p: nat :: |a| <= p < |b| && p != pos && IsLive(b, p) ==> !b[p].isReq
  }

  lemma RequestsAppended(a: seq<Proof>, b: seq<Proof>, pos: nat)
    requires OnlyNewRequest(a, b, pos)
    ensures Requests(b, |b|, {}) == Requests(a, |a|, {}) + multiset{b[pos].iters}
  {
    RequestsGone(b, |b|, {}, {pos}, pos);
    RequestsSame(b, a, |b|, {pos}, {});
    RequestsBeyond(a, |b|, {});
  }

  lemma RequestsKeep(a: seq<Proof>, b: seq<Proof>)
    requires SameButRefs(a, b)
    ensures Requests(a, |a|, {}) == Requests(b, |b|, {})
  {
    forall p: nat | p < |a|
      ensures RequestAt(a, p, {}) == RequestAt(b, p, {})
    {
      assert SameEntry(a[p], b[p]);
    }
    RequestsSame(a, b, |a|, {}, {});
  }

  /** The iterations of the given entries. */
  function ItersOfAll(ps: seq<Proof>, idxs: seq<nat>): multiset<nat> {
    if idxs == [] then multiset{} else ItersOfAll(ps, idxs[..|idxs| - 1]) + multiset{ItersOf(ps)(idxs[|idxs| - 1])}
  }

  /** Just the given requests are gone. */
  ghost predicate OnlyGone(a: seq<Proof>, b: seq<Proof>, gone: set<nat>) {
    |b| <= |a| && forall p: nat :: p < |a| ==> RequestAt(a, p, gone) == RequestAt(b, p, {})
  }

  lemma OnlyGoneAt(before: seq<Proof>, walked: seq<Proof>, gone: set<nat>, p: nat)
    requires SameButRefs(before, walked) && GoneOk(walked, gone) && p < |before|
    ensures RequestAt(before, p, gone) == RequestAt(Sweep(walked)[..CutLength(walked, |walked|)], p, {})
  {
    assert SameEntry(before[p], walked[p]);
    var k, after := CutLength(walked, |walked|), Sweep(walked)[..CutLength(walked, |walked|)];
    if IsLive(walked, p) && walked[p].isReq {
      assert GoneEntry(walked, p, gone);
      assert Dropped(walked, p) <==> p in gone;
      assert p < k ==> after[p] == Sweep(walked)[p];
    } else {
      assert p < k ==> after[p] == walked[p] || after[p].Removed?;
    }
  }

  lemma RemovalOnlyGone(before: seq<Proof>, walked: seq<Proof>, gone: set<nat>)
    requires SameButRefs(before, walked) && GoneOk(walked, gone)
    ensures OnlyGone(before, Sweep(walked)[..CutLength(walked, |walked|)], gone)
  {
    forall p: nat | p < |before|
      ensures RequestAt(before, p, gone) == RequestAt(Sweep(walked)[..CutLength(walked, |walked|)], p, {})
    {
      OnlyGoneAt(before, walked, gone, p);
    }
  }

  function SetOf(s: seq<nat>): set<nat> { set x | x in s }

  /** The given requests have their iterations taken out, one by one. */
  lemma {:induction false} RequestsOfGone(ps: seq<Proof>, idxs: seq<nat>)
    requires forall k :: 0 <= k < |idxs| ==> IsLive(ps, idxs[k]) && ps[idxs[k]].isReq
    requires forall j, k :: 0 <= j < k < |idxs| ==> idxs[j] != idxs[k]
    ensures Requests(ps, |ps|, {}) == Requests(ps, |ps|, SetOf(idxs)) + ItersOfAll(ps, idxs)
    decreases |idxs|
  {
    if idxs == [] {
      assert SetOf(idxs) == {};
    } else {
      var init, x := idxs[..|idxs| - 1], idxs[|idxs| - 1];
      RequestsOfGone(ps, init);
      assert idxs == init + [x];
      assert SetOf(idxs) == SetOf(init) + {x};
      RequestsGone(ps, |ps|, SetOf(init), SetOf(idxs), x);
      TakeBoth(Requests(ps, |ps|, {}), Requests(ps, |ps|, SetOf(init)), ItersOfAll(ps, init), Requests(ps, |ps|, SetOf(idxs)), multiset{ps[x].iters});
    }
  }

  lemma TakeBoth(a: multiset<nat>, b: multiset<nat>, x: multiset<nat>, c: multiset<nat>, y: multiset<nat>)
    requires a == b + x && b == c + y
    ensures a == c + (x + y)
  {}

  /** Requests given up, and put back among those that wait: none is lost or doubled. */
  lemma GivenBack(a: seq<Proof>, b: seq<Proof>, idxs: seq<nat>, r0: seq<nat>, r1: seq<nat>)
    requires forall k :: 0 <= k < |idxs| ==> IsLive(a, idxs[k]) && a[idxs[k]].isReq
    requires forall j, k :: 0 <= j < k < |idxs| ==> idxs[j] != idxs[k]
    requires OnlyGone(a, b, SetOf(idxs)) && multiset(r1) == multiset(r0) + ItersOfAll(a, idxs)
    ensures OutstandingOf(b, r1) == OutstandingOf(a, r0) && multiset(r0) <= multiset(r1)
  {
    RequestsOfGone(a, idxs);
    RequestsSame(a, b, |a|, SetOf(idxs), {});
    RequestsBeyond(b, |a|, {});
    MoveOver(Requests(a, |a|, {}), Requests(b, |b|, {}), ItersOfAll(a, idxs), multiset(r0), multiset(r1));
  }

  lemma MoveOver(a: multiset<nat>, b: multiset<nat>, x: multiset<nat>, r0: multiset<nat>, r1: multiset<nat>)
    requires a == b + x && r1 == r0 + x
    ensures b + r1 == a + r0 && r0 <= r1
  {}

  /** All requests: those that have become proofs and those that wait. */
  function OutstandingOf(ps: seq<Proof>, reqs: seq<nat>): multiset<nat> { Requests(ps, |ps|, {}) + multiset(reqs) }

  /** toDel are requests among the first n of the queue, each once. */
  ghost predicate GivenUp(ps: seq<Proof>, queued: seq<nat>, n: nat, toDel: seq<nat>) {
    && n <= |queued|
    && (forall k :: 0 <= k < |toDel| ==> IsLive(ps, toDel[k]) && ps[toDel[k]].isReq && !ps[toDel[k]].started && toDel[k] in queued[..n])
    && forall j, k :: 0 <= j < k < |toDel| ==> toDel[j] != toDel[k]
  }

  lemma GivenUpMore(ps: seq<Proof>, queued: seq<nat>, n: nat, toDel: seq<nat>)
    requires GivenUp(ps, queued, n, toDel) && n < |queued| && QueueGood(ps, queued) && IsLive(ps, queued[n]) && ps[queued[n]].isReq
    ensures GivenUp(ps, queued, n + 1, toDel + [queued[n]])
  {
    NoDupLater(queued, n);
    assert queued[n] in queued && queued[..n + 1] == queued[..n] + [queued[n]];
  }

  lemma GivenIn(r0: seq<nat>, r1: seq<nat>, ps: seq<Proof>, idxs: seq<nat>, k: nat)
    requires k < |idxs| && IsLive(ps, idxs[k]) && multiset(r1) == multiset(r0) + ItersOfAll(ps, idxs)
    ensures ps[idxs[k]].iters in r1
  {
    ItersIn(ps, idxs, k);
    assert ps[idxs[k]].iters in multiset(r1);
  }

  lemma {:induction false} ItersIn(ps: seq<Proof>, idxs: seq<nat>, k: nat)
    requires k < |idxs| && IsLive(ps, idxs[k])
    ensures ps[idxs[k]].iters in ItersOfAll(ps, idxs)
    decreases |idxs|
  {
    if k < |idxs| - 1 {
      ItersIn(ps, idxs[..|idxs| - 1], k);
    }
  }

  lemma OneMoreGiven(r0: seq<nat>, r1: seq<nat>, r2: seq<nat>, ps: seq<Proof>, idxs: seq<nat>, x: nat)
    requires multiset(r1) == multiset(r0) + ItersOfAll(ps, idxs) && multiset(r2) == multiset(r1) + multiset{ItersOf(ps)(x)}
    ensures multiset(r2) == multiset(r0) + ItersOfAll(ps, idxs + [x])
  {
    assert (idxs + [x])[..|idxs|] == idxs;
  }

  /** The first request becomes a proof. */
  lemma FirstServed(a: seq<Proof>, b: seq<Proof>, pos: nat, first: nat, rest: seq<nat>)
    requires OnlyNewRequest(a, b, pos) && b[pos].iters == first
    ensures OutstandingOf(b, rest) == OutstandingOf(a, [first] + rest)
  {
    RequestsAppended(a, b, pos);
  }

  lemma FirstBack(a: seq<Proof>, b: seq<Proof>, first: nat, r0: seq<nat>, r1: seq<nat>)
    requires OutstandingOf(a, r0) == OutstandingOf(b, r1)
    ensures OutstandingOf(a, [first] + r0) == OutstandingOf(b, [first] + r1)
  {
    assert multiset([first] + r0) == multiset{first} + multiset(r0);
    assert multiset([first] + r1) == multiset{first} + multiset(r1);
    BothMore(Requests(a, |a|, {}), multiset(r0), Requests(b, |b|, {}), multiset(r1), multiset{first});
  }

  lemma BothMore(a: multiset<nat>, x: multiset<nat>, b: multiset<nat>, y: multiset<nat>, z: multiset<nat>)
    requires a + x == b + y
    ensures a + (z + x) == b + (z + y)
  {
    assert a + (z + x) == z + (a + x) && b + (z + y) == z + (b + y);
  }

  // ---- sorted lists ----

  /** s is ordered by the given key of each element. */
  ghost predicate Ascending(s: seq<nat>, key: nat -> nat) { forall i, j :: 0 <= i < j < |s| ==> key(s[i]) <= key(s[j]) }

  function ItersOf(ps: seq<Proof>): nat -> nat {
    (i: nat) => if IsLive(ps, i) then ps[i].iters else 0
  }

  function Same(): nat -> nat { i => i }

  lemma InsertedElements(s: seq<nat>, i: nat, x: nat)
    requires i <= |s|
    ensures multiset(s[..i] + [x] + s[i..]) == multiset(s) + multiset{x}
  {
    assert s == s[..i] + s[i..];
  }

  lemma InsertedOrder(s: seq<nat>, key: nat -> nat, i: nat, x: nat)
    requires Ascending(s, key) && i <= |s|
    requires (i > 0 ==> key(s[i - 1]) <= key(x)) && forall j :: i <= j < |s| ==> key(x) <= key(s[j])
    ensures Ascending(s[..i] + [x] + s[i..], key)
  {
    var r := s[..i] + [x] + s[i..];
    forall j, k | 0 <= j < k < |r|
      ensures key(r[j]) <= key(r[k])
    {
      assert r[j] == if j < i then s[j] else if j == i then x else s[j - 1];
      assert r[k] == if k < i then s[k] else if k == i then x else s[k - 1];
    }
  }

  /** push_back and sort. */
  method InsertSorted(s: seq<nat>, key: nat -> nat, x: nat) returns (r: seq<nat>)
    requires Ascending(s, key)
    ensures Ascending(r, key) && multiset(r) == multiset(s) + multiset{x}
  {
    var i := |s|;
    while i > 0 && key(s[i - 1]) > key(x)
      invariant 0 <= i <= |s| && forall j :: i <= j < |s| ==> key(s[j]) > key(x)
    {
      i := i - 1;
    }
    InsertedElements(s, i, x);
    InsertedOrder(s, key, i, x);
    r := s[..i] + [x] + s[i..];
  }

  method Sort(s: seq<nat>, key: nat -> nat) returns (r: seq<nat>)
    ensures Ascending(r, key) && multiset(r) == multiset(s)
  {
    r := [];
    for i := 0 to |s|
      invariant Ascending(r, key) && multiset(r) == multiset(s[..i])
    {
      assert s[..i + 1] == s[..i] + [s[i]];
      r := InsertSorted(r, key, s[i]);
    }
    assert s[..|s|] == s;
  }

  // ---- the queue ----

  class VdfState {
    const interval: nat
    var proofs: seq<Proof>
    var queued: seq<nat>
    var reqs: seq<nat>

    ghost predicate QueueOk()
      reads this
    {
      QueueGood(proofs, queued)
    }

    ghost predicate Valid()
      reads this
    {
      Links(proofs, interval) && Referenced(proofs) && Counted(proofs, None, None, {}) && QueueOk() && Ascending(reqs, Same())
    }

    constructor (interval: nat)
      requires interval > 0
      ensures Valid() && proofs == [] && this.interval == interval
    {
      this.interval := interval;
      proofs, queued, reqs := [], [], [];
    }

    /** hw_request_proof. */
    method RequestProof(iters: nat)
      requires Ascending(reqs, Same())
      modifies `reqs
      ensures Ascending(reqs, Same()) && multiset(reqs) == multiset(old(reqs)) + multiset{iters}
    {
      reqs := InsertSorted(reqs, Same(), iters);
    }

    /** hw_queue_proof. */
    method QueueProof(seg: nat, prev: Option<nat>, isReq: bool) returns (pos: nat)
      requires Links(proofs, interval) && Referenced(proofs) && Counted(proofs, None, prev, {}) && QueueOk()
      requires Continues(proofs, seg, prev, isReq, interval)
      modifies `proofs, `queued
      ensures Links(proofs, interval) && Referenced(proofs) && Counted(proofs, None, if isReq then None else Some(pos), {}) && QueueOk()
      ensures pos == |old(proofs)| && proofs == old(proofs) + [NewProof(old(proofs), seg, prev, isReq)]
      ensures Depth(proofs, pos) == if prev.Some? then Depth(old(proofs), prev.value) + 1 else 1
    {
      AppendKeeps(proofs, seg, prev, isReq, interval);
      pos := |proofs|;
      assert pos !in queued && multiset(queued)[pos] == 0;
      proofs := proofs + [NewProof(proofs, seg, prev, isReq)];
      queued := queued + [pos];
    }

    /** hw_proof_cnt_segments. */
    method CountSegments(idx: nat) returns (cnt: nat)
      requires Links(proofs, interval) && IsLive(proofs, idx)
      ensures cnt == Depth(proofs, idx) <= MAX_SEGMENTS
    {
      cnt := 1;
      var i := idx;
      assert LinkOk(proofs, idx, interval);
      while proofs[i].prev.Some?
        invariant IsLive(proofs, i) && cnt + Depth(proofs, i) == Depth(proofs, idx) + 1
        decreases i
      {
        assert LinkOk(proofs, i, interval);
        i := proofs[i].prev.value;
        cnt := cnt + 1;
      }
      assert LinkOk(proofs, i, interval);
    }

    /** hw_proof_inc_ref: the whole chain gains a reference, so its end has one to spare. */
    method IncRef(idx: nat)
      requires Links(proofs, interval) && Referenced(proofs) && Counted(proofs, None, None, {}) && IsLive(proofs, idx) && !proofs[idx].isReq
      modifies `proofs
      ensures Links(proofs, interval) && Referenced(proofs) && Counted(proofs, None, Some(idx), {}) && SameButRefs(old(proofs), proofs)
    {
      var i: Option<nat> := Some(idx);
      forall p: nat | IsLive(proofs, p)
        ensures CountOk(proofs, p, i, i, {})
      {
        assert CountOk(proofs, p, None, None, {});
      }
      while i.Some?
        invariant Links(proofs, interval) && Referenced(proofs) && Counted(proofs, i, Some(idx), {}) && SameButRefs(old(proofs), proofs)
        invariant i.Some? ==> IsLive(proofs, i.value) && !proofs[i.value].isReq
        decreases if i.Some? then i.value + 1 else 0
      {
        var p: nat := i.value;
        assert LinkOk(proofs, p, interval) && RefOk(proofs[p]);
        IncStep(proofs, p, Some(idx), interval);
        LinksSet(proofs, p, proofs[p].refs + 1, interval);
        i := proofs[p].prev;
        ghost var before := proofs;
        proofs := SetRefs(proofs, p, proofs[p].refs + 1);
        StillReferenced(before, p);
      }
    }

    /** One walk of hw_proof_dec_ref, from a queued request down to a started proof. */
    method DecWalk(idx: nat, ghost gone: set<nat>, toDel0: set<nat>) returns (toDel: set<nat>)
      requires Walking(proofs, interval, gone, None, toDel0)
      requires IsLive(proofs, idx) && proofs[idx].isReq && !proofs[idx].started && idx !in gone
      modifies `proofs
      ensures Walking(proofs, interval, gone + {idx}, None, toDel) && SameButRefs(old(proofs), proofs)
    {
      FirstDec(proofs, idx, gone, toDel0, interval);
      var i: Option<nat> := proofs[idx].prev;
      toDel := toDel0 + {idx};
      proofs := SetRefs(proofs, idx, proofs[idx].refs - 1);
      while i.Some?
        invariant Walking(proofs, interval, gone + {idx}, i, toDel) && SameButRefs(old(proofs), proofs)
        invariant i.Some? ==> IsLive(proofs, i.value) && !proofs[i.value].isReq
        decreases if i.Some? then i.value + 1 else 0
      {
        var p: nat := i.value;
        if proofs[p].started {
          break;
        }
        WalkStep(proofs, p, gone + {idx}, toDel, interval);
        i := proofs[p].prev;
        proofs := SetRefs(proofs, p, proofs[p].refs - 1);
        if proofs[p].refs == 0 {
          toDel := toDel + {p};
        }
      }
      SlackDropped(proofs, i, gone + {idx});
    }

    /** Entries without references are overwritten and leave the queue, from the last one on. */
    method Overwrite(toDel: set<nat>) returns (last: int)
      requires Unreferenced(proofs, toDel) && QueueOk()
      modifies `proofs, `queued
      ensures proofs == Sweep(old(proofs)) && QueueOk() && queued == OmitDropped(old(queued), old(proofs), 0)
      ensures -1 <= last < |proofs| && last + 1 == CutLength(old(proofs), |old(proofs)|)
    {
      ghost var before, waiting := proofs, queued;
      SweepStart(proofs, queued);
      last := |proofs| - 1;
      var i: int := |proofs| - 1;
      while i >= 0
        invariant |proofs| == |before| && Sweeping(before, proofs, waiting, queued, i, last)
        decreases i
      {
        ghost var ps, queue, end := proofs, queued, last;
        if i in toDel && proofs[i].Live? {
          if i == last {
            last := last - 1;
          }
          queued := Without(queued, i);
          proofs := proofs[i := Removed];
          SweepOne(before, ps, waiting, queue, i, end, proofs, queued, last);
        } else {
          SweepNone(before, ps, waiting, queue, i, end);
        }
        i := i - 1;
      }
      SweepEnd(before, proofs, waiting, queued, last);
    }

    /** The second half of hw_proof_dec_ref: exactly the unreferenced entries are removed and leave the queue, and
      * the run of them at the end is cut off. */
    method Remove(toDel: set<nat>, ghost gone: set<nat>)
      requires Walking(proofs, interval, gone, None, toDel) && QueueOk()
      modifies `proofs, `queued
      ensures Links(proofs, interval) && Referenced(proofs) && Counted(proofs, None, None, {}) && QueueOk()
      ensures proofs == Sweep(old(proofs))[..CutLength(old(proofs), |old(proofs)|)]
      ensures queued == OmitDropped(old(queued), old(proofs), 0)
      ensures forall r: nat :: IsLive(old(proofs), r) && old(proofs)[r].isReq && r !in gone ==> IsLive(proofs, r) && proofs[r] == old(proofs)[r]
    {
      SweepKeeps(proofs, gone, interval);
      ghost var before := proofs;
      var last := Overwrite(toDel);
      CutRemoved(before, last + 1);
      CutKeeps(proofs, last + 1, interval);
      proofs := proofs[..last + 1];
    }

    /** hw_proof_dec_ref for queued requests. */
    method DecRef(idxs: seq<nat>)
      requires Valid() && (forall k :: 0 <= k < |idxs| ==> IsLive(proofs, idxs[k]) && proofs[idxs[k]].isReq && !proofs[idxs[k]].started)
      requires forall j, k :: 0 <= j < k < |idxs| ==> idxs[j] != idxs[k]
      modifies `proofs, `queued
      ensures Valid()
      ensures OnlyGone(old(proofs), proofs, SetOf(idxs))
      ensures forall r: nat :: IsLive(old(proofs), r) && old(proofs)[r].isReq && r !in idxs ==> Survives(old(proofs), proofs, r)
    {
      var toDel: set<nat> := {};
      ghost var gone: set<nat> := {};
      ghost var before := proofs;
      forall p: nat | IsLive(proofs, p)
        ensures GoneEntry(proofs, p, {}) && proofs[p].refs > 0
      {
        assert RefOk(proofs[p]);
      }
      for i := 0 to |idxs|
        invariant Walking(proofs, interval, gone, None, toDel) && SameButRefs(before, proofs) && QueueOk()
        invariant forall x :: x in gone <==> x in idxs[..i]
      {
        assert SameEntry(before[idxs[i]], proofs[idxs[i]]);
        ghost var step := proofs;
        toDel := DecWalk(idxs[i], gone, toDel);
        SameTransitive(before, step, proofs);
        QueueSame(step, proofs, queued);
        gone := gone + {idxs[i]};
      }
      ghost var walked := proofs;
      Remove(toDel, gone);
      assert gone == SetOf(idxs);
      RemovalOnlyGone(before, walked, gone);
      forall r: nat | IsLive(before, r) && before[r].isReq && r !in idxs
        ensures Survives(before, proofs, r)
      {
        assert SameEntry(before[r], walked[r]);
      }
    }

    /** The queued requests that end no earlier than a new one are requested again. */
    method RequestAgain(reqIters: nat) returns (toDel: seq<nat>)
      requires Valid()
      modifies `reqs
      ensures Valid() && GivenUp(proofs, queued, |queued|, toDel)
      ensures multiset(reqs) == multiset(old(reqs)) + ItersOfAll(proofs, toDel)
    {
      toDel := [];
      for i := 0 to |queued|
        invariant Valid() && GivenUp(proofs, queued, i, toDel)
        invariant multiset(reqs) == multiset(old(reqs)) + ItersOfAll(proofs, toDel)
      {
        var idx := queued[i];
        assert idx in queued;
        if proofs[idx].isReq && reqIters <= proofs[idx].iters {
          ghost var reqs0 := reqs;
          RequestProof(proofs[idx].iters);
          OneMoreGiven(old(reqs), reqs0, reqs, proofs, toDel, idx);
          GivenUpMore(proofs, queued, i, toDel);
          toDel := toDel + [idx];
        }
      }
    }

    /** Queued requests that end no earlier than a new one are requested again and give up their chains; all
      * others keep theirs, and no request is lost or doubled. */
    method Requeue(reqIters: nat)
      requires Valid()
      modifies `proofs, `queued, `reqs
      ensures Valid() && forall r: nat :: IsLive(old(proofs), r) && old(proofs)[r].isReq ==> Kept(old(proofs), r)
      ensures Outstanding() == old(Outstanding()) && multiset(old(reqs)) <= multiset(reqs)
    {
      ghost var before, waiting := proofs, reqs;
      var toDel := RequestAgain(reqIters);
      forall k | 0 <= k < |toDel|
        ensures before[toDel[k]].iters in reqs
      {
        GivenIn(waiting, reqs, before, toDel, k);
      }
      DecRef(toDel);
      GivenBack(before, proofs, toDel, waiting, reqs);
    }

    ghost function Outstanding(): multiset<nat>
      reads this
    {
      OutstandingOf(proofs, reqs)
    }

    /** Request r is still there, or has been put back among the requests. */
    ghost predicate Kept(before: seq<Proof>, r: nat)
      requires IsLive(before, r)
      reads this
    {
      Survives(before, proofs, r) || before[r].iters in reqs
    }

    method IsUsable(idx: nat, reqIters: nat) returns (usable: bool)
      requires Links(proofs, interval) && IsLive(proofs, idx)
      ensures usable <==> Usable(proofs, idx, reqIters)
    {
      var n := CountSegments(idx);
      usable := !proofs[idx].isReq && proofs[idx].iters <= reqIters && n <= MAX_SEGMENTS - 3;
    }

    /** The queued checkpoint to continue: the latest one in the queue that is not past the request and leaves
      * room for three more segments. */
    method FindBase(reqIters: nat) returns (base: Option<nat>)
      requires Links(proofs, interval) && forall i: nat :: i in queued ==> IsLive(proofs, i)
      ensures base.Some? ==> exists k :: 0 <= k < |queued| && queued[k] == base.value && IsLastUsable(proofs, queued, k, reqIters)
      ensures base.None? ==> forall k :: 0 <= k < |queued| ==> !Usable(proofs, queued[k], reqIters)
    {
      base := None;
      var i: int := |queued| - 1;
      while i >= 0
        invariant -1 <= i < |queued|
        invariant forall k :: i < k < |queued| ==> !Usable(proofs, queued[k], reqIters)
      {
        var usable := IsUsable(queued[i], reqIters);
        if usable {
          assert IsLastUsable(proofs, queued, i, reqIters);
          return Some(queued[i]);
        }
        i := i - 1;
      }
    }

    /** Finds the checkpoint to continue and takes a reference on its chain. */
    method TakeBase(reqIters: nat) returns (base: Option<nat>)
      requires Valid()
      modifies `proofs
      ensures Links(proofs, interval) && Referenced(proofs) && Counted(proofs, None, base, {}) && QueueOk()
      ensures SameButRefs(old(proofs), proofs) && (base.Some? ==> Usable(proofs, base.value, reqIters))
    {
      base := FindBase(reqIters);
      if base.Some? {
        ghost var before := proofs;
        assert base.value in queued;
        IncRef(base.value);
        QueueSame(before, proofs, queued);
        assert SameEntry(before[base.value], proofs[base.value]);
        SameDepth(before, proofs, base.value);
      }
    }

    method SortQueue()
      requires QueueOk()
      modifies `queued
      ensures QueueOk() && Ascending(queued, ItersOf(proofs)) && multiset(queued) == multiset(old(queued))
    {
      ghost var unsorted := queued;
      queued := Sort(queued, ItersOf(proofs));
      forall i: nat | i in queued
        ensures IsLive(proofs, i) && !proofs[i].started
      {
        assert i in multiset(unsorted);
      }
    }

    /** The state while a chain is built: its last entry is prev, which ends at iters and leaves room. */
    ghost predicate Building(prev: Option<nat>, iters: nat, room: nat, before: seq<Proof>)
      reads this
    {
      && Links(proofs, interval) && Referenced(proofs) && Counted(proofs, None, prev, {}) && QueueOk()
      && Tip(proofs, prev, iters, room, interval) && NoNewRequest(before, proofs)
    }

    /** Queues a checkpoint of at most the given length, cut down to the interval. */
    method QueueCheckpoint(length: nat, prev: Option<nat>, ghost iters: nat, ghost room: nat, ghost before: seq<Proof>)
      returns (pos: nat, chkp: nat)
      requires Building(prev, iters, room, before) && room > 0
      modifies `proofs, `queued
      ensures AtMark(chkp, length, interval) && pos == |old(proofs)| == |proofs| - 1
      ensures Building(Some(pos), iters + chkp, room - 1, before)
      ensures proofs == old(proofs) + [proofs[pos]] && IsEntry(proofs[pos], iters + chkp, prev)
    {
      chkp := RoundDown(length, interval);
      MultipleSum(iters, chkp, interval);
      ghost var now := proofs;
      pos := QueueProof(chkp, prev, false);
      AppendCheckpoint(before, now, proofs[pos]);
    }

    /** Queues the checkpoints before a request that is `total` iterations past its base: none, one at 75% of the
      * way, or two at 69% and 92%. */
    method QueueCheckpoints(base: Option<nat>, total: nat, ghost from: nat, ghost before: seq<Proof>)
      returns (prev: Option<nat>, iters: nat, ghost room: nat, ghost added: seq<Proof>)
      requires Building(base, from, 3, before) && proofs == before
      modifies `proofs, `queued
      ensures iters <= total && room > 0 && Building(prev, from + (total - iters), room, before)
      ensures proofs == before + added && IsNewStart(added, |before|, base, from, total, interval)
      ensures prev == if added == [] then base else Some(|proofs| - 1)
    {
      prev, iters, room, added := base, total, 3, [];
      if iters > CHKP_THRES {
        var length: nat := iters * 3 / 4;
        ghost var chkp0: nat := 0;
        if iters - length > CHKP_THRES {
          var pos1, chkp1 := QueueCheckpoint(iters * 69 / 100, prev, from, room, before);
          Thirds(iters, chkp1);
          length := iters * 92 / 100 - chkp1;
          prev := Some(pos1);
          iters := iters - chkp1;
          chkp0, room, added := chkp1, room - 1, [proofs[pos1]];
        }
        var pos2, chkp2 := QueueCheckpoint(length, prev, from + chkp0, room, before);
        StartAppended(added, proofs[pos2], |before|, base, prev, from, chkp0, chkp2, total, interval);
        prev := Some(pos2);
        iters := iters - chkp2;
        room, added := room - 1, added + [proofs[pos2]];
      }
    }

    method QueueRequest(iters: nat, prev: Option<nat>, ghost start: nat, ghost room: nat, ghost before: seq<Proof>) returns (pos: nat)
      requires Building(prev, start, room, before) && room > 0
      modifies `proofs, `queued
      ensures Links(proofs, interval) && Referenced(proofs) && Counted(proofs, None, None, {}) && QueueOk()
      ensures pos == |old(proofs)| == |proofs| - 1
      ensures proofs == old(proofs) + [proofs[pos]] && IsEntry(proofs[pos], start + iters, prev) && proofs[pos].isReq
      ensures OnlyNewRequest(before, proofs, pos)
    {
      ghost var now := proofs;
      pos := QueueProof(iters, prev, true);
      AppendRequest(before, now, proofs[pos]);
    }

    /** Queues the new request, behind up to two new checkpoints. */
    method QueueChain(reqIters: nat, base: Option<nat>) returns (pos: nat)
      requires Links(proofs, interval) && Referenced(proofs) && Counted(proofs, None, base, {}) && QueueOk()
      requires base.Some? ==> Usable(proofs, base.value, reqIters)
      modifies `proofs, `queued
      ensures Links(proofs, interval) && Referenced(proofs) && Counted(proofs, None, None, {}) && QueueOk()
      ensures OnlyNewRequest(old(proofs), proofs, pos) && proofs[pos].iters == reqIters && pos == |proofs| - 1
      ensures interval > 0 && StartOf(old(proofs), base) <= reqIters
      ensures NewChain(old(proofs), proofs, base, StartOf(old(proofs), base), reqIters - StartOf(old(proofs), base), interval)
    {
      BaseTip(proofs, base, reqIters, interval);
      var from := StartOf(proofs, base);
      pos := QueueFrom(base, from, reqIters - from, proofs);
    }

    method QueueFrom(base: Option<nat>, from: nat, total: nat, ghost before: seq<Proof>) returns (pos: nat)
      requires Building(base, from, 3, before) && proofs == before
      modifies `proofs, `queued
      ensures Links(proofs, interval) && Referenced(proofs) && Counted(proofs, None, None, {}) && QueueOk()
      ensures OnlyNewRequest(before, proofs, pos) && proofs[pos].iters == from + total && pos == |proofs| - 1
      ensures interval > 0 && NewChain(before, proofs, base, from, total, interval)
    {
      ghost var room, added;
      var prev, iters;
      prev, iters, room, added := QueueCheckpoints(base, total, from, before);
      ghost var now := proofs;
      pos := QueueRequest(iters, prev, from + (total - iters), room, before);
      ChainAppended(before, added, proofs[pos], proofs, base, from, total, interval);
    }

    /** The chosen request becomes a proof, behind the checkpoint it continues and up to two new ones. */
    method Serve(reqIters: nat) returns (pos: nat)
      requires Valid()
      modifies `proofs, `queued
      ensures Valid() && IsLive(proofs, pos) && proofs[pos].isReq && proofs[pos].iters == reqIters
      ensures forall r: nat :: IsLive(old(proofs), r) && old(proofs)[r].isReq ==> Survives(old(proofs), proofs, r)
      ensures OutstandingOf(proofs, reqs) == OutstandingOf(old(proofs), [reqIters] + reqs)
    {
      ghost var before := proofs;
      var base := TakeBase(reqIters);
      ghost var counted := proofs;
      pos := QueueChain(reqIters, base);
      SortQueue();
      forall r: nat | IsLive(before, r) && before[r].isReq
        ensures Survives(before, proofs, r)
      {
        assert SameEntry(before[r], counted[r]) && proofs[r] == counted[r];
      }
      RequestsKeep(before, counted);
      FirstServed(counted, proofs, pos, reqIters, reqs);
    }

    /** hw_proof_process_req: the smallest request becomes a proof whose chain of at most 64 segments sums to it;
      * every other request keeps its proof or is requested again, and none is lost or doubled. */
    method ProcessReq() returns (pos: nat)
      requires Valid() && reqs != []
      modifies `proofs, `queued, `reqs
      ensures Valid() && IsLive(proofs, pos) && proofs[pos].isReq && proofs[pos].iters == old(reqs[0])
      ensures ChainSum(proofs, pos) == old(reqs[0]) && Depth(proofs, pos) <= MAX_SEGMENTS
      ensures forall r: nat :: IsLive(old(proofs), r) && old(proofs)[r].isReq ==> Kept(old(proofs), r)
      ensures Outstanding() == old(Outstanding()) && multiset(old(reqs[1..])) <= multiset(reqs)
    {
      var reqIters := reqs[0];
      ghost var before := proofs;
      assert reqs == [reqIters] + reqs[1..];
      reqs := reqs[1..];
      ghost var rest := reqs;
      if queued != [] && ShouldQueue(reqIters) {
        Requeue(reqIters);
      }
      ghost var middle := proofs;
      FirstBack(before, middle, reqIters, rest, reqs);
      pos := Serve(reqIters);
      ChainSums(proofs, pos, interval);
      assert LinkOk(proofs, pos, interval);
    }

    /** hw_proof_should_queue: the request comes before the end of the queue. */
    predicate ShouldQueue(iters: nat)
      requires queued != []
      reads this
    {
      var last := queued[|queued| - 1];
      IsLive(proofs, last) && iters < proofs[last].iters
    }

    /** hw_proof_process_work starts the first queued proof. */
    method StartFirst() returns (idx: nat)
      requires Valid() && queued != []
      modifies `proofs, `queued
      ensures Valid() && idx == old(queued[0]) && queued == old(queued[1..])
      ensures IsLive(old(proofs), idx) && proofs == old(proofs)[idx := old(proofs)[idx].(started := true)]
    {
      idx := queued[0];
      NoDupLater(queued, 0);
      NoDupTail(queued);
      assert idx in queued;
      ghost var before := proofs;
      ghost var queue := queued;
      queued := queued[1..];
      proofs := proofs[idx := proofs[idx].(started := true)];
      StartKeeps(before, idx, interval);
      forall i: nat | i in queued
        ensures IsLive(proofs, i) && !proofs[i].started
      {
        assert i in queue;
      }
    }

    /** The check of hw_retrieve_proof: whether all checkpoints behind a proof are done, and how many there are. */
    method ChainDone(idx: nat) returns (done: bool, cnt: nat)
      requires Valid() && IsLive(proofs, idx)
      ensures done == BehindDone(proofs, idx) && (done ==> cnt + 1 == Depth(proofs, idx))
    {
      cnt := 0;
      var i := idx;
      assert LinkOk(proofs, idx, interval);
      while proofs[i].prev.Some?
        invariant IsLive(proofs, i) && cnt + Depth(proofs, i) == Depth(proofs, idx)
        invariant BehindDone(proofs, i) == BehindDone(proofs, idx)
        decreases i
      {
        assert LinkOk(proofs, i, interval);
        i := proofs[i].prev.value;
        if !proofs[i].done {
          return false, cnt;
        }
        cnt := cnt + 1;
      }
      done := true;
    }
  }

  /** Every checkpoint on the chain behind i is done. */
  predicate BehindDone(ps: seq<Proof>, i: nat)
    requires IsLive(ps, i)
    decreases i
  {
    ps[i].prev.Some? && ps[i].prev.value < i && IsLive(ps, ps[i].prev.value) ==>
      ps[ps[i].prev.value].done && BehindDone(ps, ps[i].prev.value)
  }

  /** Each proof is queued once. */
  ghost predicate NoDup(s: seq<nat>) { forall x :: multiset(s)[x] <= 1 }

  lemma NoDupLater(s: seq<nat>, i: nat)
    requires NoDup(s) && i < |s|
    ensures s[i] !in s[..i] && s[i] !in s[i + 1..]
  {
    assert s == s[..i] + [s[i]] + s[i + 1..];
    assert multiset(s)[s[i]] == multiset(s[..i])[s[i]] + 1 + multiset(s[i + 1..])[s[i]];
  }

  lemma NoDupTail(s: seq<nat>)
    requires NoDup(s) && s != []
    ensures NoDup(s[1..])
  {
    assert s == [s[0]] + s[1..];
    forall x
      ensures multiset(s[1..])[x] <= 1
    {
      assert multiset(s)[x] == multiset{s[0]}[x] + multiset(s[1..])[x];
    }
  }

  /** A checkpoint a new chain can continue. */
  ghost predicate Usable(ps: seq<Proof>, x: nat, reqIters: nat) {
    IsLive(ps, x) && !ps[x].isReq && ps[x].iters <= reqIters && Depth(ps, x) <= MAX_SEGMENTS - 3
  }

  /** Place k of the queue holds the last usable checkpoint. */
  ghost predicate IsLastUsable(ps: seq<Proof>, queued: seq<nat>, k: nat, reqIters: nat) {
    k < |queued| && Usable(ps, queued[k], reqIters) && forall j :: k < j < |queued| ==> !Usable(ps, queued[j], reqIters)
  }

  lemma {:induction false} SameDepth(a: seq<Proof>, b: seq<Proof>, i: nat)
    requires SameButRefs(a, b) && IsLive(a, i)
    ensures IsLive(b, i) && Depth(b, i) == Depth(a, i)
    decreases i
  {
    assert SameEntry(a[i], b[i]);
    if a[i].prev.Some? && a[i].prev.value < i {
      var q := a[i].prev.value;
      assert SameEntry(a[q], b[q]);
      if IsLive(a, q) {
        SameDepth(a, b, q);
      }
    }
  }

  function RoundDown(n: nat, d: nat): (r: nat)
    requires d > 0
    ensures r <= n < r + d && r % d == 0
  {
    QuotientNonNegative(n, d);
    DivBounds(n, d);
    QuotientProduct(n / d, d);
    ExactQuotient(n / d * d, d, n / d);
    n / d * d
  }

  /** x is the last multiple of the interval up to a mark. */
  predicate AtMark(x: int, mark: nat, interval: nat)
    requires interval > 0
  {
    x % interval == 0 && x <= mark < x + interval
  }

  /** The entries put behind the first n ones for a request that is `total` iterations past its base, which ends at
    * `start`: each continues the one before it; up to the threshold there is only the request, with a last
    * quarter up to the threshold there is a checkpoint at 75% of the way, otherwise there are two, at 69% and 92%. */
  predicate IsNewChain(added: seq<Proof>, n: nat, base: Option<nat>, start: nat, total: nat, interval: nat)
    requires interval > 0
  {
    && (forall k: nat :: k < |added| ==> added[k].Live?)
    && (forall k: nat :: k < |added| ==> added[k].prev == if k == 0 then base else Some(n + k - 1))
    && if total <= CHKP_THRES then |added| == 1
       else if total - total * 3 / 4 <= CHKP_THRES then
         |added| == 2 && AtMark(added[0].iters - start, total * 3 / 4, interval)
       else
         |added| == 3 && AtMark(added[0].iters - start, total * 69 / 100, interval)
         && AtMark(added[1].iters - start, total * 92 / 100, interval)
  }

  function StartOf(ps: seq<Proof>, base: Option<nat>): nat
    requires base.Some? ==> IsLive(ps, base.value)
  {
    if base.Some? then ps[base.value].iters else 0
  }

  ghost predicate NewChain(a: seq<Proof>, b: seq<Proof>, base: Option<nat>, start: nat, total: nat, interval: nat)
    requires interval > 0
  {
    a <= b && IsNewChain(b[|a|..], |a|, base, start, total, interval)
  }

  predicate IsEntry(x: Proof, iters: int, prev: Option<nat>) { x.Live? && x.iters == iters && x.prev == prev }

  lemma MarkAfter(chkp1: nat, chkp2: nat, mark: nat, interval: nat)
    requires interval > 0 && chkp1 % interval == 0 && chkp1 <= mark && AtMark(chkp2, mark - chkp1, interval)
    ensures AtMark(chkp1 + chkp2, mark, interval)
  {
    MultipleSum(chkp1, chkp2, interval);
  }

  /** The checkpoints put in before the request. */
  predicate IsNewStart(added: seq<Proof>, n: nat, base: Option<nat>, start: nat, total: nat, interval: nat)
    requires interval > 0
  {
    if total <= CHKP_THRES then added == []
    else if total - total * 3 / 4 <= CHKP_THRES then
      |added| == 1 && added[0].Live? && added[0].prev == base && AtMark(added[0].iters - start, total * 3 / 4, interval)
    else
      && |added| == 2 && added[0].Live? && added[0].prev == base && added[1].Live? && added[1].prev == Some(n)
      && AtMark(added[0].iters - start, total * 69 / 100, interval) && AtMark(added[1].iters - start, total * 92 / 100, interval)
  }

  predicate FirstOfTwo(added: seq<Proof>, base: Option<nat>, start: nat, chkp1: int, total: nat, interval: nat)
    requires interval > 0
  {
    && |added| == 1 && IsEntry(added[0], start + chkp1, base)
    && chkp1 >= 0 && AtMark(chkp1, total * 69 / 100, interval)
  }

  lemma StartAppended(added: seq<Proof>, x: Proof, n: nat, base: Option<nat>, prev: Option<nat>, start: nat, chkp1: int, chkp2: nat, total: nat, interval: nat)
    requires interval > 0 && total > CHKP_THRES && IsEntry(x, start + chkp1 + chkp2, prev)
    requires if total - total * 3 / 4 > CHKP_THRES
             then FirstOfTwo(added, base, start, chkp1, total, interval) && prev == Some(n) && AtMark(chkp2, total * 92 / 100 - chkp1, interval)
             else added == [] && prev == base && chkp1 == 0 && AtMark(chkp2, total * 3 / 4, interval)
    ensures IsNewStart(added + [x], n, base, start, total, interval)
  {
    if added != [] {
      MarkAfter(chkp1, chkp2, total * 92 / 100, interval);
    }
  }

  lemma ChainAppended(a: seq<Proof>, added: seq<Proof>, x: Proof, b: seq<Proof>, base: Option<nat>, start: nat, total: nat, interval: nat)
    requires interval > 0 && IsNewStart(added, |a|, base, start, total, interval) && b == a + added + [x]
    requires x.Live? && x.prev == if added == [] then base else Some(|a| + |added| - 1)
    ensures NewChain(a, b, base, start, total, interval)
  {
    assert b[|a|..] == added + [x];
  }

  lemma Thirds(iters: nat, chkp: nat)
    requires chkp <= iters * 69 / 100
    ensures chkp <= iters * 92 / 100 <= iters
  {}

  lemma {:induction false} ChildRefsStart(ps: seq<Proof>, i: nat, p: nat, n: nat)
    requires IsLive(ps, i) && n <= |ps|
    ensures ChildRefs(ps[i := ps[i].(started := true)], p, n) == ChildRefs(ps, p, n)
    decreases n
  {
    if n > 0 {
      ChildRefsStart(ps, i, p, n - 1);
    }
  }

  lemma {:induction false} DepthStart(ps: seq<Proof>, i: nat, p: nat)
    requires IsLive(ps, i) && IsLive(ps, p)
    ensures Depth(ps[i := ps[i].(started := true)], p) == Depth(ps, p)
    decreases p
  {
    if ps[p].prev.Some? && ps[p].prev.value < p && IsLive(ps, ps[p].prev.value) {
      DepthStart(ps, i, ps[p].prev.value);
    }
  }

  lemma StartKeeps(ps: seq<Proof>, i: nat, interval: nat)
    requires Links(ps, interval) && Referenced(ps) && Counted(ps, None, None, {}) && IsLive(ps, i)
    ensures var ps' := ps[i := ps[i].(started := true)]; Links(ps', interval) && Referenced(ps') && Counted(ps', None, None, {})
  {
    var ps' := ps[i := ps[i].(started := true)];
    forall p: nat | IsLive(ps', p)
      ensures LinkOk(ps', p, interval) && RefOk(ps'[p]) && CountOk(ps', p, None, None, {})
    {
      assert LinkOk(ps, p, interval) && RefOk(ps[p]) && CountOk(ps, p, None, None, {});
      DepthStart(ps, i, p);
      ChildRefsStart(ps, i, p, |ps|);
    }
  }

  method Without(s: seq<nat>, x: nat) returns (r: seq<nat>)
    ensures r == Omit(s, x)
  {
    r := [];
    for i := 0 to |s|
      invariant r == Omit(s[..i], x)
    {
      OmitLast(s[..i], s[i], x);
      assert s[..i + 1] == s[..i] + [s[i]];
      if s[i] != x {
        r := r + [s[i]];
      }
    }
    assert s[..|s|] == s;
  }

  lemma SameTransitive(a: seq<Proof>, b: seq<Proof>, c: seq<Proof>)
    requires SameButRefs(a, b) && SameButRefs(b, c)
    ensures SameButRefs(a, c)
  {
    forall i | 0 <= i < |a|
      ensures SameEntry(a[i], c[i])
    {
      assert SameEntry(a[i], b[i]) && SameEntry(b[i], c[i]);
    }
  }

  lemma QueueSame(a: seq<Proof>, b: seq<Proof>, queued: seq<nat>)
    requires SameButRefs(a, b) && forall i: nat :: i in queued ==> IsLive(a, i) && !a[i].started
    ensures forall i: nat :: i in queued ==> IsLive(b, i) && !b[i].started
  {
    forall i: nat | i in queued
      ensures IsLive(b, i) && !b[i].started
    {
      assert SameEntry(a[i], b[i]);
    }
  }

  lemma StillReferenced(ps: seq<Proof>, i: nat)
    requires Referenced(ps) && IsLive(ps, i) && !ps[i].isReq
    ensures Referenced(SetRefs(ps, i, ps[i].refs + 1))
  {
    var ps' := SetRefs(ps, i, ps[i].refs + 1);
    forall p: nat | IsLive(ps', p)
      ensures RefOk(ps'[p])
    {
      assert RefOk(ps[p]);
    }
  }

  lemma GoneSet(ps: seq<Proof>, i: nat, refs: nat, gone: set<nat>)
    requires GoneOk(ps, gone) && IsLive(ps, i) && !ps[i].isReq
    ensures GoneOk(SetRefs(ps, i, refs), gone)
  {
    var ps' := SetRefs(ps, i, refs);
    forall p: nat | IsLive(ps', p)
      ensures GoneEntry(ps', p, gone)
    {
      assert GoneEntry(ps, p, gone);
    }
  }

  /** What the walks of hw_proof_dec_ref keep. */
  ghost predicate Walking(ps: seq<Proof>, interval: nat, gone: set<nat>, slack: Option<nat>, toDel: set<nat>) {
    Links(ps, interval) && Counted(ps, None, slack, gone) && GoneOk(ps, gone) && Unreferenced(ps, toDel)
  }

  ghost predicate Unreferenced(ps: seq<Proof>, toDel: set<nat>) {
    forall p: nat :: IsLive(ps, p) ==> (p in toDel <==> ps[p].refs == 0)
  }

  lemma WalkStep(ps: seq<Proof>, p: nat, gone: set<nat>, toDel: set<nat>, interval: nat)
    requires Walking(ps, interval, gone, Some(p), toDel) && IsLive(ps, p) && !ps[p].isReq
    ensures ps[p].refs >= 1
    ensures var ps' := SetRefs(ps, p, ps[p].refs - 1);
      && Walking(ps', interval, gone, ps[p].prev, if ps[p].refs == 1 then toDel + {p} else toDel)
      && (ps[p].prev.Some? ==> ps[p].prev.value < p && IsLive(ps', ps[p].prev.value) && !ps'[ps[p].prev.value].isReq)
  {
    DecStep(ps, p, gone, interval);
    assert LinkOk(ps, p, interval);
    LinksSet(ps, p, ps[p].refs - 1, interval);
    GoneSet(ps, p, ps[p].refs - 1, gone);
  }

  /** The request itself loses its only reference. */
  lemma FirstDec(ps: seq<Proof>, r: nat, gone: set<nat>, toDel: set<nat>, interval: nat)
    requires Walking(ps, interval, gone, None, toDel) && IsLive(ps, r) && ps[r].isReq && r !in gone
    ensures ps[r].refs == 1
    ensures var ps' := SetRefs(ps, r, 0);
      && Walking(ps', interval, gone + {r}, ps[r].prev, toDel + {r})
      && (ps[r].prev.Some? ==> ps[r].prev.value < r && IsLive(ps', ps[r].prev.value) && !ps'[ps[r].prev.value].isReq)
  {
    var gone' := gone + {r};
    assert GoneEntry(ps, r, gone) && LinkOk(ps, r, interval);
    forall p: nat | IsLive(ps, p)
      ensures CountOk(ps, p, None, Some(r), gone')
    {
      assert CountOk(ps, p, None, None, gone);
    }
    DecStep(ps, r, gone', interval);
    LinksSet(ps, r, 0, interval);
    forall p: nat | IsLive(SetRefs(ps, r, 0), p)
      ensures GoneEntry(SetRefs(ps, r, 0), p, gone')
    {
      assert GoneEntry(ps, p, gone);
    }
  }

  // ---- reference counts cover the chains ----

  predicate HasPrev(ps: seq<Proof>, i: nat)
    requires IsLive(ps, i)
  {
    ps[i].prev.Some? && ps[i].prev.value < i && IsLive(ps, ps[i].prev.value)
  }

  /** p is on the chain that ends in i. */
  predicate OnChain(ps: seq<Proof>, i: nat, p: nat)
    requires IsLive(ps, i)
    decreases i
  {
    i == p || (HasPrev(ps, i) && OnChain(ps, ps[i].prev.value, p))
  }

  predicate Passes(ps: seq<Proof>, i: nat, p: nat) { IsLive(ps, i) && ps[i].isReq && OnChain(ps, i, p) }

  /** How many of the first n entries are live requests whose chain passes p. */
  function ReqCount(ps: seq<Proof>, p: nat, n: nat): nat
    requires n <= |ps|
  {
    if n == 0 then 0 else ReqCount(ps, p, n - 1) + (if Passes(ps, n - 1, p) then 1 else 0)
  }

  /** The same, summed over the first m entries that continue p. */
  function ChildCount(ps: seq<Proof>, p: nat, n: nat, m: nat): nat
    requires n <= |ps| && m <= |ps|
  {
    if m == 0 then 0 else ChildCount(ps, p, n, m - 1) + (if ps[m - 1].Live? && ps[m - 1].prev == Some(p) then ReqCount(ps, m - 1, n) else 0)
  }

  lemma {:induction false} ChildCountGrows(ps: seq<Proof>, p: nat, n: nat, m: nat, c: nat)
    requires 0 < n <= |ps| && m <= |ps|
    ensures ChildCount(ps, p, n, m) >= ChildCount(ps, p, n - 1, m)
    ensures c < m && ps[c].Live? && ps[c].prev == Some(p) && Passes(ps, n - 1, c) ==> ChildCount(ps, p, n, m) > ChildCount(ps, p, n - 1, m)
    decreases m
  {
    if m > 0 {
      ChildCountGrows(ps, p, n, m - 1, c);
    }
  }

  /** The entry through which a chain reaches p. */
  lemma {:induction false} ChildOn(ps: seq<Proof>, i: nat, p: nat) returns (c: nat)
    requires IsLive(ps, i) && OnChain(ps, i, p) && i != p
    ensures IsLive(ps, c) && ps[c].prev == Some(p) && OnChain(ps, i, c)
    decreases i
  {
    if ps[i].prev.value == p {
      c := i;
    } else {
      c := ChildOn(ps, ps[i].prev.value, p);
    }
  }

  lemma {:induction false} ThroughChildren(ps: seq<Proof>, p: nat, n: nat)
    requires n <= |ps| && IsLive(ps, p)
    ensures ReqCount(ps, p, n) <= (if p < n then Own(ps[p]) else 0) + ChildCount(ps, p, n, |ps|)
    decreases n
  {
    if n > 0 {
      ThroughChildren(ps, p, n - 1);
      var i: nat := n - 1;
      if Passes(ps, i, p) && i != p {
        var c := ChildOn(ps, i, p);
        ChildCountGrows(ps, p, n, |ps|, c);
      } else {
        ChildCountGrows(ps, p, n, |ps|, 0);
      }
    }
  }

  lemma {:induction false} ChildrenCovered(ps: seq<Proof>, p: nat, m: nat)
    requires m <= |ps|
    requires forall c: nat :: IsLive(ps, c) && ps[c].prev == Some(p) ==> ReqCount(ps, c, |ps|) <= ps[c].refs
    ensures ChildCount(ps, p, |ps|, m) <= ChildRefs(ps, p, m)
    decreases m
  {
    if m > 0 {
      ChildrenCovered(ps, p, m - 1);
    }
  }

  /** ref_cnt is at least the number of live requests whose chain passes the entry. */
  lemma {:induction false} RefsCoverRequests(ps: seq<Proof>, p: nat, interval: nat)
    requires Links(ps, interval) && Counted(ps, None, None, {}) && IsLive(ps, p)
    ensures ReqCount(ps, p, |ps|) <= ps[p].refs
    decreases |ps| - p
  {
    forall c: nat | IsLive(ps, c) && ps[c].prev == Some(p)
      ensures ReqCount(ps, c, |ps|) <= ps[c].refs
    {
      assert LinkOk(ps, c, interval);
      RefsCoverRequests(ps, c, interval);
    }
    ThroughChildren(ps, p, |ps|);
    ChildrenCovered(ps, p, |ps|);
    assert CountOk(ps, p, None, None, {});
  }
}
