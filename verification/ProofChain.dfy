/** Nested proofs (src/verifier.h, src/vdf.h): the blob layout, the walk over its segments, and the
  * layouts the n-weso and 2-weso provers write. */
module ProofChain {
  import opened Options
  import opened Integers
  import opened Bytes
  import opened ClassGroup
  import opened Wesolowski

  const FORM_SIZE := 100
  const B_BYTES := 33
  const LENGTH_BYTES := 8
  const SEGMENT_LEN := LENGTH_BYTES + B_BYTES + FORM_SIZE
  const BASE_LEN := 2 * FORM_SIZE

  /** What B can be: a remainder modulo it exists. */
  type Modulus = b: nat | b > 0 witness 1

  /** How forms are written and read, and the hash that gives B. `read` is None where
    * DeserializeForm throws. */
  datatype Context<!G(!new)> = Context(grp: Group<G>, write: G -> seq<Byte>, read: seq<Byte> -> Option<G>, hash: (G, G) -> Modulus) {
    function Write(x: G): seq<Byte> { write(x) }

    function Read(s: seq<Byte>): Option<G> { read(s) }

    function Hash(x: G, y: G): Modulus { hash(x, y) }
  }

  ghost predicate WritesBack<G(!new)>(c: Context<G>, x: G) {
    |c.Write(x)| == FORM_SIZE && c.Read(c.Write(x)) == Some(x)
  }

  /** B has its top bit, number 263, set. */
  ghost predicate HashInRange<G(!new)>(c: Context<G>, x: G, y: G) {
    Pow256(B_BYTES - 1) <= c.Hash(x, y) < Pow256(B_BYTES)
  }

  ghost predicate Lawful<G(!new)>(c: Context<G>) {
    && Abelian(c.grp)
    && (forall x :: WritesBack(c, x))
    && (forall x, y :: HashInRange(c, x, y))
  }

  /** One nested segment: its length, its prime and its proof. */
  datatype Link<G> = Link(iters: nat, B: Modulus, proof: G)

  /** The y for which the segment's equation holds. */
  function NextPoint<G(!new)>(c: Context<G>, x: G, link: Link<G>): G {
    c.grp.Mul(Pow(c.grp, link.proof, link.B), Pow(c.grp, x, Pow2(link.iters) % link.B))
  }

  /** The point after all links, starting from x. */
  function ChainEnd<G(!new)>(c: Context<G>, x: G, links: seq<Link<G>>): G {
    if links == [] then x else NextPoint(c, ChainEnd(c, x, links[..|links| - 1]), links[|links| - 1])
  }

  function TotalIters<G>(links: seq<Link<G>>): nat {
    if links == [] then 0 else TotalIters(links[..|links| - 1]) + links[|links| - 1].iters
  }

  /** Link k satisfies its equation (its end point is defined by it) and its hash check. */
  ghost predicate LinkChecks<G(!new)>(c: Context<G>, x: G, links: seq<Link<G>>, k: nat) {
    k < |links| && links[k].B == c.Hash(ChainEnd(c, x, links[..k]), ChainEnd(c, x, links[..k + 1]))
  }

  ghost predicate ChainChecks<G(!new)>(c: Context<G>, x: G, links: seq<Link<G>>) {
    forall k: nat :: k < |links| ==> LinkChecks(c, x, links, k)
  }

  // ---- the blob ----

  /** None stands for the exceptions: a form that does not decode, or a remainder modulo B = 0. */
  function ReadLink<G(!new)>(c: Context<G>, bytes: seq<Byte>): Option<Link<G>>
    requires |bytes| == SEGMENT_LEN
  {
    var iters, B := FromBE(bytes[..LENGTH_BYTES]), FromBE(bytes[LENGTH_BYTES..LENGTH_BYTES + B_BYTES]);
    match c.Read(bytes[LENGTH_BYTES + B_BYTES..])
    case None => None
    case Some(proof) => if B > 0 then Some(Link(iters, B, proof)) else None
  }

  /** The k-th segment counted from the end of the blob. */
  function SegmentAt(blob: seq<Byte>, k: nat): (s: seq<Byte>)
    requires |blob| >= SEGMENT_LEN * (k + 1)
    ensures |s| == SEGMENT_LEN
  {
    blob[|blob| - SEGMENT_LEN * (k + 1)..|blob| - SEGMENT_LEN * k]
  }

  /** The segments of the blob, last one first, are these links. */
  ghost predicate Reads<G(!new)>(c: Context<G>, blob: seq<Byte>, links: seq<Link<G>>) {
    |blob| >= SEGMENT_LEN * |links| && forall k: nat :: k < |links| ==> ReadsAt(c, blob, links, k)
  }

  ghost predicate ReadsAt<G(!new)>(c: Context<G>, blob: seq<Byte>, links: seq<Link<G>>, k: nat) {
    k < |links| && |blob| >= SEGMENT_LEN * (k + 1) && ReadLink(c, SegmentAt(blob, k)) == Some(links[k])
  }

  lemma ReadsSame<G(!new)>(c: Context<G>, blob: seq<Byte>, links: seq<Link<G>>, more: seq<Link<G>>)
    requires Reads(c, blob, links) && Reads(c, blob, more) && |links| <= |more|
    ensures more[..|links|] == links
  {
    forall k: nat | k < |links|
      ensures more[k] == links[k]
    {
      assert ReadsAt(c, blob, links, k) && ReadsAt(c, blob, more, k);
    }
  }

  lemma {:induction false} TotalItersPrefix<G>(links: seq<Link<G>>, k: nat)
    requires k <= |links|
    ensures TotalIters(links[..k]) <= TotalIters(links)
    decreases |links|
  {
    if k < |links| {
      var init := links[..|links| - 1];
      TotalItersPrefix(init, k);
      assert init[..k] == links[..k];
    } else {
      assert links[..k] == links;
    }
  }

  /** A link list with everything the walk checks. */
  ghost predicate Walkable<G(!new)>(c: Context<G>, x: G, blob: seq<Byte>, links: seq<Link<G>>, iterations: nat, skip: bool) {
    && Reads(c, blob, links)
    && (!skip ==> ChainChecks(c, x, links))
    && TotalIters(links) <= iterations
  }

  /** VerifyWesoSegment: computes the end point of a segment and compares B with its hash. */
  method VerifyWesoSegment<G(!new, ==)>(c: Context<G>, x: G, proof: G, B: Modulus, iters: nat) returns (matches: bool, y: G)
    requires Abelian(c.grp)
    ensures y == NextPoint(c, x, Link(iters, B, proof)) && (matches <==> B == c.Hash(x, y))
  {
    var r := Pow2(iters) % B;
    var f1 := FastPow(c.grp, proof, B);
    var f2 := FastPow(c.grp, x, r);
    y := c.grp.Mul(f1, f2);
    matches := B == c.Hash(x, y);
  }

  datatype Walk<G> = Walked(x: G, iterations: nat) | Refused | Threw

  /** The loop of CheckProofOfTimeNWesolowskiCommon (and of CheckProofOfTimeNWesolowski, without
    * `skip`): it walks exactly the blobs that hold a checked chain no longer than `iterations`. */
  method WalkSegments<G(!new, ==)>(c: Context<G>, x0: G, blob: seq<Byte>, depth: nat, lastSegment: nat, iterations0: nat, skip: bool)
    returns (w: Walk<G>, ghost links: seq<Link<G>>)
    requires Lawful(c) && |blob| == lastSegment + SEGMENT_LEN * depth
    ensures w.Walked? ==> |links| == depth && Walkable(c, x0, blob, links, iterations0, skip)
    ensures w.Walked? ==> w.x == ChainEnd(c, x0, links) && w.iterations == iterations0 - TotalIters(links)
    ensures !w.Walked? ==> forall more: seq<Link<G>> :: |more| == depth ==> !Walkable(c, x0, blob, more, iterations0, skip)
  {
    var i := |blob|;
    var x, iterations := x0, iterations0;
    links := [];
    while i > lastSegment
      invariant |links| <= depth && i == |blob| - SEGMENT_LEN * |links|
      invariant Walkable(c, x0, blob, links, iterations0, skip)
      invariant x == ChainEnd(c, x0, links) && iterations == iterations0 - TotalIters(links)
      decreases i
    {
      i := i - SEGMENT_LEN;
      var bytes := blob[i..i + SEGMENT_LEN];
      assert bytes == SegmentAt(blob, |links|);
      var segmentIters := FromBE(bytes[..LENGTH_BYTES]);
      var read := c.Read(bytes[LENGTH_BYTES + B_BYTES..]);
      if read.None? {
        NotRead(c, x0, blob, links, depth, iterations0, skip);
        return Threw, links;
      }
      var proof := read.value;
      var B := FromBE(bytes[LENGTH_BYTES..LENGTH_BYTES + B_BYTES]);
      if B == 0 {
        NotRead(c, x0, blob, links, depth, iterations0, skip);
        return Threw, links;
      }
      ghost var link := Link(segmentIters, B, proof);
      var matches, xnew := VerifyWesoSegment(c, x, proof, B, segmentIters);
      if !skip && !matches {
        NotExtended(c, x0, blob, links, link, depth, iterations0, skip);
        return Refused, links;
      }
      if segmentIters > iterations {
        NotExtended(c, x0, blob, links, link, depth, iterations0, skip);
        return Refused, links;
      }
      Extend(c, x0, blob, links, link, iterations0, skip);
      x := xnew;
      iterations := iterations - segmentIters;
      links := links + [link];
    }
    w := Walked(x, iterations);
  }

  lemma ExtendReads<G(!new)>(c: Context<G>, blob: seq<Byte>, links: seq<Link<G>>, link: Link<G>)
    requires Reads(c, blob, links) && |blob| >= SEGMENT_LEN * (|links| + 1)
    requires ReadLink(c, SegmentAt(blob, |links|)) == Some(link)
    ensures Reads(c, blob, links + [link])
  {
    forall k: nat | k < |links + [link]|
      ensures ReadsAt(c, blob, links + [link], k)
    {
      if k < |links| {
        ReadsGives(c, blob, links, k);
      }
    }
  }

  lemma ExtendChecks<G(!new)>(c: Context<G>, x0: G, links: seq<Link<G>>, link: Link<G>)
    requires ChainChecks(c, x0, links)
    requires link.B == c.Hash(ChainEnd(c, x0, links), NextPoint(c, ChainEnd(c, x0, links), link))
    ensures ChainChecks(c, x0, links + [link])
  {
    var more := links + [link];
    forall k: nat | k < |more|
      ensures LinkChecks(c, x0, more, k)
    {
      assert more[..|links|] == links && more[..|links| + 1] == more;
      if k < |links| {
        assert LinkChecks(c, x0, links, k);
        assert more[..k] == links[..k] && more[..k + 1] == links[..k + 1];
      }
    }
  }

  lemma Extend<G(!new)>(c: Context<G>, x0: G, blob: seq<Byte>, links: seq<Link<G>>, link: Link<G>, iterations: nat, skip: bool)
    requires Walkable(c, x0, blob, links, iterations, skip) && |blob| >= SEGMENT_LEN * (|links| + 1)
    requires ReadLink(c, SegmentAt(blob, |links|)) == Some(link)
    requires !skip ==> link.B == c.Hash(ChainEnd(c, x0, links), NextPoint(c, ChainEnd(c, x0, links), link))
    requires TotalIters(links) + link.iters <= iterations
    ensures Walkable(c, x0, blob, links + [link], iterations, skip)
    ensures ChainEnd(c, x0, links + [link]) == NextPoint(c, ChainEnd(c, x0, links), link)
    ensures TotalIters(links + [link]) == TotalIters(links) + link.iters
  {
    assert (links + [link])[..|links|] == links;
    ExtendReads(c, blob, links, link);
    if !skip {
      ExtendChecks(c, x0, links, link);
    }
  }

  lemma ReadsGives<G(!new)>(c: Context<G>, blob: seq<Byte>, more: seq<Link<G>>, k: nat)
    requires Reads(c, blob, more) && k < |more|
    ensures ReadLink(c, SegmentAt(blob, k)) == Some(more[k])
  {
    assert ReadsAt(c, blob, more, k);
  }

  /** The link after a common prefix passes its checks in any list that passes them all. */
  lemma NextLinkChecks<G(!new)>(c: Context<G>, x0: G, blob: seq<Byte>, links: seq<Link<G>>, link: Link<G>, more: seq<Link<G>>, iterations: nat, skip: bool)
    requires Reads(c, blob, links) && Walkable(c, x0, blob, more, iterations, skip) && |links| < |more|
    requires ReadLink(c, SegmentAt(blob, |links|)) == Some(link)
    ensures TotalIters(links) + link.iters <= iterations
    ensures !skip ==> link.B == c.Hash(ChainEnd(c, x0, links), NextPoint(c, ChainEnd(c, x0, links), link))
  {
    var n := |links|;
    ReadsSame(c, blob, links, more);
    ReadsGives(c, blob, more, n);
    var next := more[..n + 1];
    assert next[..n] == links && next[n] == link;
    TotalItersPrefix(more, n + 1);
    if !skip {
      assert LinkChecks(c, x0, more, n);
    }
  }

  /** A segment that does not decode rules out every list of links. */
  lemma NotRead<G(!new)>(c: Context<G>, x0: G, blob: seq<Byte>, links: seq<Link<G>>, depth: nat, iterations: nat, skip: bool)
    requires |links| < depth && |blob| >= SEGMENT_LEN * depth
    requires ReadLink(c, SegmentAt(blob, |links|)).None?
    ensures forall more: seq<Link<G>> :: |more| == depth ==> !Walkable(c, x0, blob, more, iterations, skip)
  {
    var n: nat := |links|;
    forall more: seq<Link<G>> | |more| == depth
      ensures !Walkable(c, x0, blob, more, iterations, skip)
    {
      if Reads(c, blob, more) {
        ReadsGives(c, blob, more, n);
      }
    }
  }

  /** So does a link that fails one of its checks. */
  lemma NotExtended<G(!new)>(c: Context<G>, x0: G, blob: seq<Byte>, links: seq<Link<G>>, link: Link<G>, depth: nat, iterations: nat, skip: bool)
    requires Reads(c, blob, links) && |links| < depth && |blob| >= SEGMENT_LEN * depth
    requires ReadLink(c, SegmentAt(blob, |links|)) == Some(link)
    requires (!skip && link.B != c.Hash(ChainEnd(c, x0, links), NextPoint(c, ChainEnd(c, x0, links), link)))
          || TotalIters(links) + link.iters > iterations
    ensures forall more: seq<Link<G>> :: |more| == depth ==> !Walkable(c, x0, blob, more, iterations, skip)
  {
    forall more: seq<Link<G>> | |more| == depth
      ensures !Walkable(c, x0, blob, more, iterations, skip)
    {
      if Walkable(c, x0, blob, more, iterations, skip) {
        NextLinkChecks(c, x0, blob, links, link, more, iterations, skip);
      }
    }
  }

  // ---- the three entry points ----

  datatype Verdict = Accept | Reject | Throw

  const MAX_D_BITS := 1024

  /** What acceptance means: the blob is y, the last proof and `depth` segments; the segments form a
    * checked chain from x whose lengths leave a remainder of `iterations`, and the last proof satisfies
    * its equation from the end of the chain to y for exactly that remainder. */
  ghost predicate ValidProof<G(!new)>(c: Context<G>, xs: seq<Byte>, blob: seq<Byte>, iterations: nat, depth: nat, links: seq<Link<G>>) {
    && |blob| == BASE_LEN + depth * SEGMENT_LEN && |links| == depth
    && c.Read(xs).Some? && c.Read(blob[..FORM_SIZE]).Some? && c.Read(blob[FORM_SIZE..BASE_LEN]).Some?
    && var x, y, proof := c.Read(xs).value, c.Read(blob[..FORM_SIZE]).value, c.Read(blob[FORM_SIZE..BASE_LEN]).value;
    && Walkable(c, x, blob, links, iterations, false)
    && var xd := ChainEnd(c, x, links);
    Equation(c.grp, xd, y, proof, c.Hash(xd, y), iterations - TotalIters(links))
  }

  /** CheckProofOfTimeNWesolowski, for discriminants of dBits bits. */
  method CheckProofOfTimeNWesolowski<G(!new, ==)>(c: Context<G>, dBits: nat, xs: seq<Byte>, blob: seq<Byte>, iterations: nat, depth: nat)
    returns (v: Verdict)
    requires Lawful(c)
    ensures v.Accept? <==> 0 < dBits <= MAX_D_BITS && exists links: seq<Link<G>> :: ValidProof(c, xs, blob, iterations, depth, links)
  {
    if dBits == 0 || dBits > MAX_D_BITS {
      return Reject;
    }
    if |blob| != BASE_LEN + depth * SEGMENT_LEN {
      return Reject;
    }
    var xr := c.Read(xs);
    if xr.None? {
      return Throw;
    }
    var w;
    ghost var links;
    w, links := WalkSegments(c, xr.value, blob, depth, BASE_LEN, iterations, false);
    if !w.Walked? {
      return if w.Threw? then Throw else Reject;
    }
    var yr, pr := c.Read(blob[..FORM_SIZE]), c.Read(blob[FORM_SIZE..BASE_LEN]);
    if yr.None? || pr.None? {
      return Throw;
    }
    assert HashInRange(c, w.x, yr.value);
    var valid := Wesolowski.VerifyWesolowskiProof(c.grp, w.x, yr.value, pr.value, c.Hash(w.x, yr.value), w.iterations);
    forall more: seq<Link<G>> | ValidProof(c, xs, blob, iterations, depth, more)
      ensures more == links
    {
      ReadsSame(c, blob, links, more);
    }
    if valid {
      assert ValidProof(c, xs, blob, iterations, depth, links);
      return Accept;
    }
    return Reject;
  }

  /** CheckProofOfTimeNWesolowskiWithB: the blob has no y; B is given and y is returned. */
  method CheckWithB<G(!new, ==)>(c: Context<G>, dBits: nat, B: Modulus, xs: seq<Byte>, blob: seq<Byte>, iterations: nat, depth: nat)
    returns (v: Verdict, ys: seq<Byte>)
    requires Lawful(c)
    ensures v.Accept? <==> 0 < dBits <= MAX_D_BITS && exists links: seq<Link<G>> :: ValidWithB(c, B, xs, blob, iterations, depth, links)
    ensures v.Accept? ==> exists links: seq<Link<G>> ::
      ValidWithB(c, B, xs, blob, iterations, depth, links) && ys == c.Write(EndWithB(c, B, xs, blob, iterations, links))
  {
    ys := [];
    if dBits == 0 || dBits > MAX_D_BITS {
      return Reject, ys;
    }
    var xr := c.Read(xs);
    if xr.None? {
      return Throw, ys;
    }
    if |blob| != FORM_SIZE + depth * SEGMENT_LEN {
      return Reject, ys;
    }
    var w;
    ghost var links;
    w, links := WalkSegments(c, xr.value, blob, depth, FORM_SIZE, iterations, false);
    if !w.Walked? {
      return if w.Threw? then Throw else Reject, ys;
    }
    var pr := c.Read(blob[..FORM_SIZE]);
    if pr.None? {
      return Throw, ys;
    }
    var matches, y := VerifyWesoSegment(c, w.x, pr.value, B, w.iterations);
    forall more: seq<Link<G>> | ValidWithB(c, B, xs, blob, iterations, depth, more)
      ensures more == links
    {
      ReadsSame(c, blob, links, more);
    }
    if !matches {
      return Reject, ys;
    }
    ys := c.Write(y);
    assert ValidWithB(c, B, xs, blob, iterations, depth, links);
    v := Accept;
  }

  /** The y that CheckProofOfTimeNWesolowskiWithB computes. */
  ghost function EndWithB<G(!new)>(c: Context<G>, B: Modulus, xs: seq<Byte>, blob: seq<Byte>, iterations: nat, links: seq<Link<G>>): G
    requires |blob| >= FORM_SIZE && c.Read(xs).Some? && c.Read(blob[..FORM_SIZE]).Some?
    requires TotalIters(links) <= iterations
  {
    NextPoint(c, ChainEnd(c, c.Read(xs).value, links), Link(iterations - TotalIters(links), B, c.Read(blob[..FORM_SIZE]).value))
  }

  ghost predicate ValidWithB<G(!new)>(c: Context<G>, B: Modulus, xs: seq<Byte>, blob: seq<Byte>, iterations: nat, depth: nat, links: seq<Link<G>>)
  {
    && |blob| == FORM_SIZE + depth * SEGMENT_LEN && |links| == depth
    && c.Read(xs).Some? && c.Read(blob[..FORM_SIZE]).Some?
    && Walkable(c, c.Read(xs).value, blob, links, iterations, false)
    && B == c.Hash(ChainEnd(c, c.Read(xs).value, links), EndWithB(c, B, xs, blob, iterations, links))
  }

  /** The segments are counted from the end, so what precedes them does not matter. */
  lemma SameSegments<G(!new)>(c: Context<G>, head: seq<Byte>, rest: seq<Byte>, links: seq<Link<G>>)
    requires |rest| >= SEGMENT_LEN * |links|
    ensures Reads(c, head + rest, links) <==> Reads(c, rest, links)
  {
    forall k: nat | k < |links|
      ensures ReadsAt(c, head + rest, links, k) <==> ReadsAt(c, rest, links, k)
    {
      assert SegmentAt(head + rest, k) == SegmentAt(rest, k);
    }
  }

  /** Taking y off an accepted blob leaves one that is accepted with B = hash(chain end, y), and the y
    * computed is the y taken off; and putting back the computed y gives an accepted blob. */
  lemma WithBMatches<G(!new)>(c: Context<G>, xs: seq<Byte>, ys: seq<Byte>, rest: seq<Byte>, iterations: nat, depth: nat, links: seq<Link<G>>, B: Modulus)
    requires Lawful(c) && |ys| == FORM_SIZE
    ensures (ValidProof(c, xs, ys + rest, iterations, depth, links) && B == c.Hash(ChainEnd(c, c.Read(xs).value, links), c.Read(ys).value))
       <==> (ValidWithB(c, B, xs, rest, iterations, depth, links) && c.Read(ys) == Some(EndWithB(c, B, xs, rest, iterations, links)))
  {
    var blob := ys + rest;
    assert blob[..FORM_SIZE] == ys;
    if |rest| == FORM_SIZE + depth * SEGMENT_LEN && |links| == depth {
      assert blob[FORM_SIZE..BASE_LEN] == rest[..FORM_SIZE];
      SameSegments(c, ys, rest, links);
    }
  }

  /** The blob is y, a last proof and `depth` segments that read as a chain no longer than `iterations`,
    * hash checks aside, and B is the hash of the end of the chain and y. */
  ghost predicate GivesB<G(!new)>(c: Context<G>, xs: seq<Byte>, blob: seq<Byte>, iterations: nat, depth: nat, links: seq<Link<G>>, B: nat) {
    && |blob| == BASE_LEN + depth * SEGMENT_LEN && |links| == depth
    && c.Read(xs).Some? && c.Read(blob[..FORM_SIZE]).Some?
    && Walkable(c, c.Read(xs).value, blob, links, iterations, true)
    && B == c.Hash(ChainEnd(c, c.Read(xs).value, links), c.Read(blob[..FORM_SIZE]).value)
  }

  /** GetBFromProof: walks the segments without their hash checks; None stands for the exceptions. */
  method GetBFromProof<G(!new, ==)>(c: Context<G>, dBits: nat, xs: seq<Byte>, blob: seq<Byte>, iterations: nat, depth: nat)
    returns (B: Option<nat>)
    requires Lawful(c)
    ensures B.Some? ==> 0 < dBits <= MAX_D_BITS && exists links: seq<Link<G>> :: GivesB(c, xs, blob, iterations, depth, links, B.value)
    ensures B.None? && 0 < dBits <= MAX_D_BITS ==> forall links: seq<Link<G>>, v: nat :: !GivesB(c, xs, blob, iterations, depth, links, v)
  {
    B := None;
    if dBits == 0 || dBits > MAX_D_BITS {
      return;
    }
    var xr := c.Read(xs);
    if xr.None? || |blob| != BASE_LEN + depth * SEGMENT_LEN {
      return;
    }
    var w;
    ghost var links;
    w, links := WalkSegments(c, xr.value, blob, depth, BASE_LEN, iterations, true);
    if !w.Walked? {
      return;
    }
    var yr := c.Read(blob[..FORM_SIZE]);
    if yr.None? {
      return;
    }
    B := Some(c.Hash(w.x, yr.value));
    assert GivesB(c, xs, blob, iterations, depth, links, B.value);
  }

  // ---- the blobs the provers write ----

  /** One nested segment as the provers append it. */
  function WriteLink<G(!new)>(c: Context<G>, link: Link<G>): seq<Byte> {
    ToBE(link.iters, LENGTH_BYTES) + ToBE(link.B, B_BYTES) + c.Write(link.proof)
  }

  /** The segments behind the last proof: the first link of the chain is written last. */
  function WriteLinks<G(!new)>(c: Context<G>, links: seq<Link<G>>): seq<Byte> {
    if links == [] then [] else WriteLinks(c, links[1..]) + WriteLink(c, links[0])
  }

  lemma WriteLinkReads<G(!new)>(c: Context<G>, link: Link<G>)
    requires Lawful(c) && Fits(link)
    ensures |WriteLink(c, link)| == SEGMENT_LEN && ReadLink(c, WriteLink(c, link)) == Some(link)
  {
    assert WritesBack(c, link.proof);
    BigEndianRoundTrip(link.iters, LENGTH_BYTES);
    BigEndianRoundTrip(link.B, B_BYTES);
    ThreeParts(ToBE(link.iters, LENGTH_BYTES), ToBE(link.B, B_BYTES), c.Write(link.proof));
  }

  lemma ThreeParts(a: seq<Byte>, b: seq<Byte>, p: seq<Byte>)
    ensures var w := a + b + p;
            w[..|a|] == a && w[|a|..|a| + |b|] == b && w[|a| + |b|..] == p
  {}

  ghost predicate Writable<G>(links: seq<Link<G>>) {
    forall k :: 0 <= k < |links| ==> Fits(links[k])
  }

  predicate Fits<G>(link: Link<G>) { link.iters < Pow256(LENGTH_BYTES) && link.B < Pow256(B_BYTES) }

  lemma {:induction false} WriteLinksLength<G(!new)>(c: Context<G>, links: seq<Link<G>>)
    requires Lawful(c)
    ensures |WriteLinks(c, links)| == SEGMENT_LEN * |links|
  {
    if links != [] {
      WriteLinksLength(c, links[1..]);
      assert WritesBack(c, links[0].proof);
    }
  }

  lemma SegmentShift(body: seq<Byte>, last: seq<Byte>, k: nat)
    requires |last| == SEGMENT_LEN && |body| >= SEGMENT_LEN * k
    ensures k == 0 ==> SegmentAt(body + last, 0) == last
    ensures k > 0 ==> SegmentAt(body + last, k) == SegmentAt(body, k - 1)
  {}

  lemma AppendReads<G(!new)>(c: Context<G>, body: seq<Byte>, last: seq<Byte>, link: Link<G>, rest: seq<Link<G>>)
    requires Reads(c, body, rest) && |last| == SEGMENT_LEN && ReadLink(c, last) == Some(link)
    ensures Reads(c, body + last, [link] + rest)
  {
    var links := [link] + rest;
    forall k: nat | k < |links|
      ensures ReadsAt(c, body + last, links, k)
    {
      SegmentShift(body, last, k);
      if k > 0 {
        ReadsGives(c, body, rest, k - 1);
      }
    }
  }

  /** Whatever precedes them, written segments are read back as the same links. */
  lemma {:induction false} WriteLinksRead<G(!new)>(c: Context<G>, head: seq<Byte>, links: seq<Link<G>>)
    requires Lawful(c) && Writable(links)
    ensures Reads(c, head + WriteLinks(c, links), links)
  {
    if links != [] {
      var rest := links[1..];
      var body, last := head + WriteLinks(c, rest), WriteLink(c, links[0]);
      WriteLinksRead(c, head, rest);
      WriteLinkReads(c, links[0]);
      assert head + WriteLinks(c, links) == body + last;
      AppendReads(c, body, last, links[0], rest);
      assert [links[0]] + rest == links;
    }
  }

  /** The proof an honest prover makes for T squarings of x. */
  function HonestProof<G(!new)>(c: Context<G>, x: G, T: nat, B: Modulus): G {
    QuotientNonNegative(Pow2(T), B);
    Pow(c.grp, x, Pow2(T) / B)
  }

  function Squared<G(!new)>(c: Context<G>, x: G, T: nat): G { Pow(c.grp, x, Pow2(T)) }

  /** The link from x over T squarings; its B is the hash of both ends. */
  function HonestLink<G(!new)>(c: Context<G>, x: G, T: nat): Link<G> {
    Link(T, c.Hash(x, Squared(c, x, T)), HonestProof(c, x, T, c.Hash(x, Squared(c, x, T))))
  }

  lemma SquaredAgain<G(!new)>(c: Context<G>, x: G, m: nat, n: nat)
    requires Abelian(c.grp)
    ensures Squared(c, Squared(c, x, m), n) == Squared(c, x, m + n)
  {
    PowPow(c.grp, x, Pow2(m), Pow2(n));
    Pow2Add(m, n);
  }

  /** links are honest segments of the run from x: link k starts where link k-1 ended. */
  ghost predicate HonestLinks<G(!new)>(c: Context<G>, x: G, links: seq<Link<G>>) {
    forall k: nat :: k < |links| ==> IsHonest(c, x, links, k)
  }

  ghost predicate IsHonest<G(!new)>(c: Context<G>, x: G, links: seq<Link<G>>, k: nat)
    requires k < |links|
  {
    var from := Squared(c, x, TotalIters(links[..k]));
    links[k] == HonestLink(c, from, links[k].iters)
  }

  /** Honest links pass their checks and lead to x^(2^total). */
  lemma {:induction false} HonestChain<G(!new)>(c: Context<G>, x: G, links: seq<Link<G>>)
    requires Lawful(c) && HonestLinks(c, x, links)
    ensures ChainChecks(c, x, links) && ChainEnd(c, x, links) == Squared(c, x, TotalIters(links))
    decreases |links|
  {
    if links == [] {
      PowOne(c.grp, x);
    } else {
      var n := |links| - 1;
      var init := links[..n];
      forall k: nat | k < |init|
        ensures IsHonest(c, x, init, k)
      {
        assert IsHonest(c, x, links, k) && init[..k] == links[..k];
      }
      HonestChain(c, x, init);
      assert IsHonest(c, x, links, n);
      var from := Squared(c, x, TotalIters(init));
      HonestEquation(c.grp, from, Squared(c, from, links[n].iters), links[n].B, links[n].iters);
      assert NextPoint(c, from, links[n]) == Squared(c, from, links[n].iters);
      SquaredAgain(c, x, TotalIters(init), links[n].iters);
      forall k: nat | k < |links|
        ensures LinkChecks(c, x, links, k)
      {
        assert links[..n + 1] == links;
        if k < n {
          assert LinkChecks(c, x, init, k);
          assert init[..k] == links[..k] && init[..k + 1] == links[..k + 1];
        }
      }
    }
  }

  /** The blob of an honest nested proof: y, the last proof, and the links. */
  function HonestBlob<G(!new)>(c: Context<G>, x: G, links: seq<Link<G>>, last: nat): seq<Byte> {
    var from := Squared(c, x, TotalIters(links));
    var y := Squared(c, from, last);
    c.Write(y) + c.Write(HonestProof(c, from, last, c.Hash(from, y))) + WriteLinks(c, links)
  }

  lemma HonestBlobParts<G(!new)>(c: Context<G>, ys: seq<Byte>, ps: seq<Byte>, links: seq<Link<G>>)
    requires Lawful(c) && Writable(links) && |ys| == FORM_SIZE == |ps|
    ensures var blob := ys + ps + WriteLinks(c, links);
      && |blob| == BASE_LEN + |links| * SEGMENT_LEN && Reads(c, blob, links)
      && blob[..FORM_SIZE] == ys && blob[FORM_SIZE..BASE_LEN] == ps
  {
    WriteLinksRead(c, ys + ps, links);
    WriteLinksLength(c, links);
  }

  /** A blob with the right parts is a valid proof. */
  lemma PartsValid<G(!new)>(c: Context<G>, x: G, y: G, proof: G, blob: seq<Byte>, iterations: nat, links: seq<Link<G>>, from: G, last: nat)
    requires WritesBack(c, x) && WritesBack(c, y) && WritesBack(c, proof)
    requires |blob| == BASE_LEN + |links| * SEGMENT_LEN && Reads(c, blob, links)
    requires blob[..FORM_SIZE] == c.Write(y) && blob[FORM_SIZE..BASE_LEN] == c.Write(proof)
    requires ChainChecks(c, x, links) && TotalIters(links) + last == iterations
    requires from == ChainEnd(c, x, links) && Equation(c.grp, from, y, proof, c.Hash(from, y), last)
    ensures ValidProof(c, c.Write(x), blob, iterations, |links|, links)
  {}

  /** What a nested proof of x over iters squarings is. */
  ghost predicate NestedProof<G(!new)>(c: Context<G>, x: G, iters: nat, bytes: seq<Byte>, links: seq<Link<G>>, last: nat) {
    && HonestLinks(c, x, links) && Writable(links) && TotalIters(links) + last == iters
    && bytes == HonestBlob(c, x, links, last)
  }

  lemma BlobValid<G(!new)>(c: Context<G>, x: G, from: G, y: G, proof: G, links: seq<Link<G>>, total: nat, last: nat, blob: seq<Byte>)
    requires Lawful(c) && Writable(links) && ChainChecks(c, x, links)
    requires total == TotalIters(links) + last && from == ChainEnd(c, x, links)
    requires Equation(c.grp, from, y, proof, c.Hash(from, y), last)
    requires blob == c.Write(y) + c.Write(proof) + WriteLinks(c, links)
    ensures ValidProof(c, c.Write(x), blob, total, |links|, links)
  {
    assert WritesBack(c, x) && WritesBack(c, y) && WritesBack(c, proof);
    HonestBlobParts(c, c.Write(y), c.Write(proof), links);
    PartsValid(c, x, y, proof, blob, total, links, from, last);
  }

  /** Completeness for any depth: the honest blob is a valid proof of the total number of iterations. */
  lemma HonestBlobValid<G(!new)>(c: Context<G>, x: G, links: seq<Link<G>>, last: nat, total: nat, blob: seq<Byte>)
    requires Lawful(c) && NestedProof(c, x, total, blob, links, last)
    ensures ValidProof(c, c.Write(x), blob, total, |links|, links)
  {
    var t := TotalIters(links);
    HonestChain(c, x, links);
    var from := Squared(c, x, t);
    var y := Squared(c, from, last);
    HonestEquation(c.grp, from, y, c.Hash(from, y), last);
    BlobValid(c, x, from, y, HonestProof(c, from, last, c.Hash(from, y)), links, total, last, blob);
  }

  // ---- the n-weso and 2-weso layouts ----

  /** ProverManager::Prove after the segments are collected: the last one gives the last proof, the others
    * are appended from the last to the first. */
  method LayoutSegments<G(!new)>(c: Context<G>, y: G, segments: seq<Link<G>>) returns (ys: seq<Byte>, proof: seq<Byte>)
    requires |segments| >= 1
    ensures ys == c.Write(y)
    ensures proof == c.Write(segments[|segments| - 1].proof) + WriteLinks(c, segments[..|segments| - 1])
  {
    ys := c.Write(y);
    var n := |segments| - 1;
    proof := c.Write(segments[n].proof);
    ghost var head := proof;
    LayoutEnds(c, head, segments, n);
    for i := n downto 0
      invariant proof == head + WriteLinks(c, segments[i..n])
    {
      LayoutStep(c, head, segments, i, n);
      proof := proof + ToBE(segments[i].iters, LENGTH_BYTES);
      proof := proof + ToBE(segments[i].B, B_BYTES);
      proof := proof + c.Write(segments[i].proof);
    }
  }

  lemma LayoutEnds<G(!new)>(c: Context<G>, head: seq<Byte>, segments: seq<Link<G>>, n: nat)
    requires n <= |segments|
    ensures head == head + WriteLinks(c, segments[n..n])
    ensures WriteLinks(c, segments[0..n]) == WriteLinks(c, segments[..n])
  {
    assert segments[0..n] == segments[..n];
  }

  lemma LayoutStep<G(!new)>(c: Context<G>, head: seq<Byte>, segments: seq<Link<G>>, i: nat, n: nat)
    requires i < n <= |segments|
    ensures head + WriteLinks(c, segments[i + 1..n]) + ToBE(segments[i].iters, LENGTH_BYTES) + ToBE(segments[i].B, B_BYTES)
              + c.Write(segments[i].proof)
         == head + WriteLinks(c, segments[i..n])
  {
    var link, tail := segments[i], segments[i + 1..n];
    assert segments[i..n] == [link] + tail;
    PrependLink(c, head, link, tail);
    AppendThree(head + WriteLinks(c, tail), ToBE(link.iters, LENGTH_BYTES), ToBE(link.B, B_BYTES), c.Write(link.proof));
  }

  lemma AppendLink<G(!new)>(c: Context<G>, head: seq<Byte>, before: seq<Byte>, link: Link<G>)
    ensures head + (before + ToBE(link.iters, LENGTH_BYTES) + ToBE(link.B, B_BYTES) + c.Write(link.proof)) == head + before + WriteLink(c, link)
  {}

  lemma AppendThree(s: seq<Byte>, x: seq<Byte>, y: seq<Byte>, z: seq<Byte>)
    ensures s + x + y + z == s + (x + y + z)
  {}

  lemma PrependLink<G(!new)>(c: Context<G>, head: seq<Byte>, link: Link<G>, tail: seq<Link<G>>)
    ensures head + WriteLinks(c, [link] + tail) == head + WriteLinks(c, tail) + WriteLink(c, link)
  {
    assert ([link] + tail)[1..] == tail;
  }

  lemma {:induction false} PrependTotal<G>(link: Link<G>, tail: seq<Link<G>>)
    ensures TotalIters([link] + tail) == link.iters + TotalIters(tail)
    decreases |tail|
  {
    var all := [link] + tail;
    if tail != [] {
      PrependTotal(link, tail[..|tail| - 1]);
      assert all[..|all| - 1] == [link] + tail[..|tail| - 1];
    } else {
      assert all[..0] == [];
    }
  }

  lemma PrependHonest<G(!new)>(c: Context<G>, x: G, link: Link<G>, tail: seq<Link<G>>)
    requires Lawful(c) && link == HonestLink(c, x, link.iters)
    requires HonestLinks(c, Squared(c, x, link.iters), tail)
    ensures HonestLinks(c, x, [link] + tail)
  {
    var all := [link] + tail;
    var x1 := Squared(c, x, link.iters);
    forall k: nat | k < |all|
      ensures IsHonest(c, x, all, k)
    {
      if k == 0 {
        assert all[..0] == [];
        PowOne(c.grp, x);
      } else {
        assert IsHonest(c, x1, tail, k - 1);
        assert all[..k] == [link] + tail[..k - 1];
        PrependTotal(link, tail[..k - 1]);
        SquaredAgain(c, x, link.iters, TotalIters(tail[..k - 1]));
      }
    }
  }

  lemma PrependBlob<G(!new)>(c: Context<G>, x: G, link: Link<G>, tail: seq<Link<G>>, last: nat)
    requires Lawful(c)
    ensures TotalIters([link] + tail) == link.iters + TotalIters(tail)
    ensures HonestBlob(c, x, [link] + tail, last) == HonestBlob(c, Squared(c, x, link.iters), tail, last) + WriteLink(c, link)
  {
    PrependTotal(link, tail);
    SquaredAgain(c, x, link.iters, TotalIters(tail));
    assert ([link] + tail)[1..] == tail;
  }

  lemma BlobOfLink<G(!new)>(c: Context<G>, x: G, init: seq<Link<G>>, link: Link<G>, from: G, y: G)
    requires from == Squared(c, x, TotalIters(init)) && link == HonestLink(c, from, link.iters) && y == Squared(c, from, link.iters)
    ensures c.Write(y) + (c.Write(link.proof) + WriteLinks(c, init)) == HonestBlob(c, x, init, link.iters)
  {}

  lemma HonestPrefix<G(!new)>(c: Context<G>, x: G, links: seq<Link<G>>, n: nat)
    requires n <= |links| && HonestLinks(c, x, links)
    ensures HonestLinks(c, x, links[..n])
  {
    forall k: nat | k < n
      ensures IsHonest(c, x, links[..n], k)
    {
      assert IsHonest(c, x, links, k) && links[..n][..k] == links[..k];
    }
  }

  /** The last of a run of honest segments gives y and the last proof. */
  lemma LastSegmentBlob<G(!new)>(c: Context<G>, x: G, y: G, segments: seq<Link<G>>, n: nat)
    requires Lawful(c) && |segments| == n + 1 && HonestLinks(c, x, segments) && y == Squared(c, x, TotalIters(segments))
    ensures c.Write(y) + (c.Write(segments[n].proof) + WriteLinks(c, segments[..n])) == HonestBlob(c, x, segments[..n], segments[n].iters)
    ensures TotalIters(segments) == TotalIters(segments[..n]) + segments[n].iters
  {
    assert IsHonest(c, x, segments, n);
    var t := TotalIters(segments[..n]);
    SquaredAgain(c, x, t, segments[n].iters);
    BlobOfLink(c, x, segments[..n], segments[n], Squared(c, x, t), y);
  }

  /** Any number of honest segments laid out by Prove is accepted for all their iterations. */
  method LayoutAndCheck<G(!new, ==)>(c: Context<G>, dBits: nat, x: G, y: G, segments: seq<Link<G>>, total: nat) returns (v: Verdict)
    requires Lawful(c) && 0 < dBits <= MAX_D_BITS && |segments| >= 1
    requires HonestLinks(c, x, segments) && Writable(segments)
    requires total == TotalIters(segments) && y == Squared(c, x, total)
    ensures v.Accept?
  {
    var n := |segments| - 1;
    var ys, proof := LayoutSegments(c, y, segments);
    LastSegmentBlob(c, x, y, segments, n);
    HonestPrefix(c, x, segments, n);
    HonestBlobValid(c, x, segments[..n], segments[n].iters, total, ys + proof);
    v := CheckProofOfTimeNWesolowski(c, dBits, c.Write(x), ys + proof, total, n);
  }

  lemma NoSegments<G(!new)>(c: Context<G>, x: G, iters: nat)
    requires Lawful(c)
    ensures var y := Squared(c, x, iters);
            NestedProof(c, x, iters, c.Write(y) + c.Write(HonestProof(c, x, iters, c.Hash(x, y))), [], iters)
  {
    PowOne(c.grp, x);
    var y := Squared(c, x, iters);
    var bytes := c.Write(y) + c.Write(HonestProof(c, x, iters, c.Hash(x, y)));
    assert bytes + [] == bytes;
  }

  lemma OneMoreSegment<G(!new)>(c: Context<G>, x: G, link: Link<G>, x1: G, rest: nat, bytes: seq<Byte>, links: seq<Link<G>>, last: nat, total: nat)
    requires Lawful(c) && Fits(link) && link == HonestLink(c, x, link.iters) && x1 == Squared(c, x, link.iters)
    requires NestedProof(c, x1, rest, bytes, links, last) && total == link.iters + rest
    ensures NestedProof(c, x, total, bytes + WriteLink(c, link), [link] + links, last)
  {
    PrependHonest(c, x, link, links);
    PrependBlob(c, x, link, links, last);
  }

  lemma LinkFits<G(!new)>(c: Context<G>, x: G, iters: nat)
    requires Lawful(c) && iters < Pow256(LENGTH_BYTES)
    ensures Fits(HonestLink(c, x, iters))
  {
    assert HashInRange(c, x, Squared(c, x, iters));
  }

  /** ProveTwoWeso: two thirds of the iterations, rounded down to a multiple of 100, in a nested segment
    * at depths 0 and 1; the rest at depth 2. */
  method ProveTwoWeso<G(!new)>(c: Context<G>, x: G, iters: nat, depth: nat)
    returns (ys: seq<Byte>, proof: seq<Byte>, ghost links: seq<Link<G>>, ghost last: nat)
    requires Lawful(c) && depth <= 2 && iters < Pow256(LENGTH_BYTES)
    ensures |links| == 2 - depth && |ys| == FORM_SIZE && NestedProof(c, x, iters, ys + proof, links, last)
    decreases 2 - depth
  {
    if depth == 2 {
      var y := Squared(c, x, iters);
      assert WritesBack(c, y);
      NoSegments(c, x, iters);
      links, last := [], iters;
      ys := c.Write(y);
      proof := c.Write(HonestProof(c, x, iters, c.Hash(x, y)));
      return;
    }
    var iterations1, iterations2 := SplitIterations(iters);
    var y1 := Squared(c, x, iterations1);
    var link := HonestLink(c, x, iterations1);
    ghost var tail;
    ys, proof, tail, last := ProveTwoWeso(c, y1, iterations2, depth + 1);
    ghost var before := proof;
    proof := proof + ToBE(link.iters, LENGTH_BYTES);
    proof := proof + ToBE(link.B, B_BYTES);
    proof := proof + c.Write(link.proof);
    links := [link] + tail;
    LinkFits(c, x, iterations1);
    OneMoreSegment(c, x, link, y1, iterations2, ys + before, tail, last, iters);
    AppendLink(c, ys, before, link);
  }

  method SplitIterations(iters: nat) returns (iterations1: nat, iterations2: nat)
    ensures iterations1 + iterations2 == iters && iterations1 % 100 == 0
    ensures iterations1 <= iters * 2 / 3 < iterations1 + 100
  {
    iterations1 := iters * 2 / 3;
    iterations1 := iterations1 - iterations1 % 100;
    iterations2 := iters - iterations1;
  }

  /** A 2-weso proof is accepted for its own iterations at depth 2. */
  method ProveAndCheckTwoWeso<G(!new, ==)>(c: Context<G>, dBits: nat, x: G, iters: nat) returns (v: Verdict)
    requires Lawful(c) && iters < Pow256(LENGTH_BYTES) && 0 < dBits <= MAX_D_BITS
    ensures v.Accept?
  {
    var ys, proof;
    ghost var links, last;
    ys, proof, links, last := ProveTwoWeso(c, x, iters, 0);
    HonestBlobValid(c, x, links, last, iters, ys + proof);
    v := CheckProofOfTimeNWesolowski(c, dBits, c.Write(x), ys + proof, iters, 2);
  }
}
