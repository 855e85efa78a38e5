/** The Wesolowski prover (src/prover_slow.h, src/prover_impl.hpp): the proof is x to the power
  * floor(2^T / B), assembled from base-2^k digits sorted into buckets. Group elements are tracked by
  * their exponents, so every step is an identity between integers. */
module Wesolowski {
  import opened Integers
  import opened ClassGroup

  // ---- the digits of floor(2^T / B) ----

  /** T iterations, blocks of k bits, checkpoints every k * l iterations, and the prime B. */
  datatype Params = Params(T: nat, k: nat, l: nat, B: nat) {
    predicate Valid() { k >= 1 && l >= 1 && B > Pow2(k) }

    /** Number of checkpoints, ceil(T / (k l)). */
    function Limit(): nat
      requires Valid()
    {
      QuotientProduct(k, l);
      AtLeastFactor(k, l);
      CeilNonNegative(T, k * l);
      if T % (k * l) != 0 then T / (k * l) + 1 else T / (k * l)
    }
  }

  lemma CeilNonNegative(n: nat, d: nat)
    requires d > 0
    ensures n / d >= 0
  {
    QuotientNonNegative(n, d);
  }

  predicate HasBlock(s: Params, i: nat) { s.T >= s.k * (i + 1) }

  /** GetBlock: floor(2^k * (2^(T - k(i+1)) mod B) / B). */
  function GetBlock(s: Params, i: nat): (b: nat)
    requires s.Valid() && HasBlock(s, i)
    ensures b < Pow2(s.k)
  {
    var r := Pow2(s.T - s.k * (i + 1)) % s.B;
    BlockBounds(r, Pow2(s.k), s.B);
    r * Pow2(s.k) / s.B
  }

  lemma BlockBounds(r: nat, p: nat, B: nat)
    requires r < B && p >= 1
    ensures 0 <= r * p / B < p
  {
    DivBounds(r * p, B);
    QuotientProduct(r, p);
    QuotientNonNegative(r * p, B);
    AtLeastTimes(B - 1, r, p);
    if r * p / B >= p {
      AtLeastTimes(r * p / B, p, B);
    }
  }

  /** The value of block i in place, 0 past the last block. */
  function Term(s: Params, i: nat): nat
    requires s.Valid()
  {
    if HasBlock(s, i) then QuotientProduct(GetBlock(s, i), Pow2(s.k * i)); GetBlock(s, i) * Pow2(s.k * i) else 0
  }

  function TermSum(s: Params, n: nat): nat
    requires s.Valid()
  {
    if n == 0 then 0 else TermSum(s, n - 1) + Term(s, n - 1)
  }

  /** Long division in base 2^k: the first n blocks leave the remainder of 2^(T - k n). */
  lemma {:induction false} LongDivision(s: Params, n: nat)
    requires s.Valid() && s.T >= s.k * n
    ensures TermSum(s, n) * s.B + Pow2(s.T) % s.B == Pow2(s.k * n) * (Pow2(s.T - s.k * n) % s.B)
  {
    if n > 0 {
      var i := n - 1;
      KTimesNext(s.k, i);
      LongDivision(s, i);
      LongDivisionStep(s, i);
    }
  }

  lemma LongDivisionStep(s: Params, i: nat)
    requires s.Valid() && s.T >= s.k * (i + 1) && s.k * (i + 1) == s.k * i + s.k && s.k * i >= 0
    requires TermSum(s, i) * s.B + Pow2(s.T) % s.B == Pow2(s.k * i) * (Pow2(s.T - s.k * i) % s.B)
    ensures TermSum(s, i + 1) * s.B + Pow2(s.T) % s.B == Pow2(s.k * (i + 1)) * (Pow2(s.T - s.k * (i + 1)) % s.B)
  {
    var e := s.T - s.k * (i + 1);
    var x, p, q := Pow2(e), Pow2(s.k), Pow2(s.k * i);
    Pow2Add(s.k, e);
    Pow2Add(s.k * i, s.k);
    ModProduct(x, p, s.B);
    LongDivisionCalc(TermSum(s, i), q, GetBlock(s, i), s.B, x % s.B, p, Pow2(s.T) % s.B, (p * x) % s.B);
  }

  lemma KTimesNext(k: nat, i: nat)
    ensures k * (i + 1) == k * i + k && k * i >= 0
  {
    QuotientProduct(k, i);
  }

  /** (x mod B) p and x p leave the same remainder, and the first is the quotient part plus it. */
  lemma ModProduct(x: nat, p: nat, B: nat)
    requires B > 0
    ensures (x % B) * p == (x % B) * p / B * B + (p * x) % B
  {
    var r, q := x % B, x / B;
    var z := r * p;
    assert x == q * B + r by { DivBounds(x, B); }
    DivBounds(z, B);
    var r' := z - z / B * B;
    Dist(p, q * B, r);
    Swap3(p, q, B);
    Dist(B, p * q, z / B);
    assert p * x == (p * q + z / B) * B + r';
    DivBounds(p * x, B);
    SmallMultiple((p * x / B - (p * q + z / B)) * B, B, p * x / B - (p * q + z / B));
  }

  lemma LongDivisionCalc(t: int, q: int, b: int, B: int, r: int, p: int, m: int, r': int)
    requires t * B + m == q * r' && p * r == b * B + r'
    ensures (t + b * q) * B + m == (q * p) * r
  {
    Dist(B, t, b * q);
    assert (b * q) * B == q * (b * B);
    Dist(q, b * B, r');
    Swap3(q, p, r);
  }

  /** n is the number of whole blocks, floor(T / k). */
  predicate BlockCount(s: Params, n: nat) { s.k * n <= s.T < s.k * n + s.k }

  /** The blocks are the base-2^k digits of floor(2^T / B). */
  lemma BlocksAreDigits(s: Params, n: nat)
    requires s.Valid() && BlockCount(s, n)
    ensures TermSum(s, n) == Pow2(s.T) / s.B
  {
    var e := s.T - s.k * n;
    LongDivision(s, n);
    Pow2Monotone(e, s.k);
    Pow2Add(s.k * n, e);
    SmallMod(Pow2(e), s.B);
    QuotientFromRemainder(Pow2(s.T), s.B, TermSum(s, n));
  }

  lemma SmallMod(x: nat, B: nat)
    requires x < B
    ensures x % B == x
  {}

  lemma QuotientFromRemainder(n: nat, d: nat, t: int)
    requires d > 0 && t * d + n % d == n
    ensures t == n / d
  {
    DivBounds(n, d);
    assert (n / d - t) * d == n / d * d - t * d;
    SmallMultiple((n / d - t) * d, d, n / d - t);
  }

  /** Blocks past the last contribute nothing. */
  lemma {:induction false} TermSumPast(s: Params, n: nat, m: nat)
    requires s.Valid() && BlockCount(s, n) && m >= n
    ensures TermSum(s, m) == TermSum(s, n)
    decreases m
  {
    if m > n {
      TermSumPast(s, n, m - 1);
      PastLastBlock(s, n, m);
    }
  }

  lemma PastLastBlock(s: Params, n: nat, m: nat)
    requires s.Valid() && BlockCount(s, n) && m > n
    ensures !HasBlock(s, m - 1)
  {
    AtLeastTimes(m, n + 1, s.k);
    KTimesNext(s.k, n);
  }

  // ---- sums over the buckets ----

  /** sum of b * e[b] for b < n. */
  function WeightedSum(e: seq<nat>, n: nat): nat
    requires n <= |e|
  {
    if n == 0 then 0 else QuotientProduct(n - 1, e[n - 1]); WeightedSum(e, n - 1) + (n - 1) * e[n - 1]
  }

  /** sum of e[start + c] for c < n. */
  function RowSum(e: seq<nat>, start: nat, n: nat): nat
    requires start + n <= |e|
  {
    if n == 0 then 0 else RowSum(e, start, n - 1) + e[start + n - 1]
  }

  /** sum of c * e[start + c] for c < n. */
  function LocalSum(e: seq<nat>, start: nat, n: nat): nat
    requires start + n <= |e|
  {
    if n == 0 then 0 else QuotientProduct(n - 1, e[start + n - 1]); LocalSum(e, start, n - 1) + (n - 1) * e[start + n - 1]
  }

  lemma {:induction false} WeightedSplit(e: seq<nat>, start: nat, n: nat)
    requires start + n <= |e|
    ensures WeightedSum(e, start + n) == WeightedSum(e, start) + start * RowSum(e, start, n) + LocalSum(e, start, n)
  {
    if n > 0 {
      WeightedSplit(e, start, n - 1);
      Dist(start, RowSum(e, start, n - 1), e[start + n - 1]);
      Dist(e[start + n - 1], start, n - 1);
    }
  }

  /** sum of e[r * w + c] for r < h. */
  function ColSum(e: seq<nat>, w: nat, h: nat, c: nat): nat
    requires c < w && h * w <= |e|
  {
    if h == 0 then 0 else RowFits(h, w); ColSum(e, w, h - 1, c) + e[(h - 1) * w + c]
  }

  lemma RowFits(h: nat, w: nat)
    requires h > 0
    ensures h * w == (h - 1) * w + w && (h - 1) * w >= 0
  {
    Dist(w, h - 1, 1);
    QuotientProduct(h - 1, w);
  }

  /** sum of (r w) * (sum of row r) for r < h: what the first double loop adds. */
  function RowsPart(e: seq<nat>, w: nat, h: nat): nat
    requires h * w <= |e|
  {
    if h == 0 then 0 else
      RowFits(h, w);
      QuotientProduct((h - 1) * w, RowSum(e, (h - 1) * w, w));
      RowsPart(e, w, h - 1) + ((h - 1) * w) * RowSum(e, (h - 1) * w, w)
  }

  /** sum of c * (sum of column c) for c < n: what the second double loop adds. */
  function ColsPart(e: seq<nat>, w: nat, h: nat, n: nat): nat
    requires n <= w && h * w <= |e|
  {
    if n == 0 then 0 else
      QuotientProduct(n - 1, ColSum(e, w, h, n - 1));
      ColsPart(e, w, h, n - 1) + (n - 1) * ColSum(e, w, h, n - 1)
  }

  lemma {:induction false} ColsPartNextRow(e: seq<nat>, w: nat, h: nat, n: nat)
    requires h > 0 && n <= w && h * w <= |e| && h * w == (h - 1) * w + w && (h - 1) * w >= 0
    ensures ColsPart(e, w, h, n) == ColsPart(e, w, h - 1, n) + LocalSum(e, (h - 1) * w, n)
    decreases n
  {
    if n > 0 {
      ColsPartNextRow(e, w, h, n - 1);
      Dist(n - 1, ColSum(e, w, h - 1, n - 1), e[(h - 1) * w + n - 1]);
    }
  }

  /** Splitting the index of a bucket into its high and low part: the two double loops together raise
    * every bucket to its index. */
  lemma {:induction false} SplitIndex(e: seq<nat>, w: nat, h: nat)
    requires h * w <= |e|
    ensures RowsPart(e, w, h) + ColsPart(e, w, h, w) == WeightedSum(e, h * w)
    decreases h
  {
    if h == 0 {
      ZeroCols(e, w, w);
    } else {
      RowFits(h, w);
      SplitIndex(e, w, h - 1);
      ColsPartNextRow(e, w, h, w);
      WeightedSplit(e, (h - 1) * w, w);
    }
  }

  lemma {:induction false} ZeroCols(e: seq<nat>, w: nat, n: nat)
    requires n <= w
    ensures ColsPart(e, w, 0, n) == 0
  {
    if n > 0 {
      ZeroCols(e, w, n - 1);
    }
  }

  lemma {:induction false} WeightedUpdate(e: seq<nat>, b: nat, d: nat, n: nat)
    requires b < n <= |e|
    ensures WeightedSum(e[b := e[b] + d], n) == WeightedSum(e, n) + b * d
    decreases n
  {
    var e' := e[b := e[b] + d];
    if n - 1 == b {
      WeightedSame(e, e', b);
      Dist(b, e[b], d);
    } else {
      WeightedUpdate(e, b, d, n - 1);
    }
  }

  lemma {:induction false} WeightedSame(e: seq<nat>, e': seq<nat>, n: nat)
    requires n <= |e| && n <= |e'| && forall i :: 0 <= i < n ==> e[i] == e'[i]
    ensures WeightedSum(e, n) == WeightedSum(e', n)
    decreases n
  {
    if n > 0 {
      WeightedSame(e, e', n - 1);
    }
  }

  lemma {:induction false} WeightedZero(e: seq<nat>, n: nat)
    requires n <= |e| && forall i :: 0 <= i < n ==> e[i] == 0
    ensures WeightedSum(e, n) == 0
    decreases n
  {
    if n > 0 {
      WeightedZero(e, n - 1);
    }
  }

  // ---- the sums over blocks ----

  /** The exponent the buckets of pass j hold: sum of block(i l + j) * 2^(k l i) for i < m. */
  function PassSum(s: Params, j: nat, m: nat): nat
    requires s.Valid()
  {
    if m == 0 then 0 else
      var i := m - 1;
      BlockIndex(i, s.l, j);
      PassSum(s, j, i) + PassTerm(s, j, i)
  }

  function PassTerm(s: Params, j: nat, i: nat): nat
    requires s.Valid()
  {
    BlockIndex(i, s.l, j);
    BlockIndex(s.k * s.l, i, 0);
    QuotientProduct(s.k, s.l);
    QuotientProduct(s.k * s.l, i);
    if HasBlock(s, i * s.l + j)
    then QuotientProduct(GetBlock(s, i * s.l + j), Pow2(s.k * s.l * i)); GetBlock(s, i * s.l + j) * Pow2(s.k * s.l * i)
    else 0
  }

  lemma BlockIndex(i: int, l: int, j: int)
    requires i >= 0 && l >= 0 && j >= 0
    ensures i * l + j >= 0
  {
    QuotientProduct(i, l);
  }

  /** sum of Term(i l + j) for i < m. */
  function ColumnTerms(s: Params, j: nat, m: nat): nat
    requires s.Valid()
  {
    if m == 0 then 0 else BlockIndex(m - 1, s.l, j); ColumnTerms(s, j, m - 1) + Term(s, (m - 1) * s.l + j)
  }

  /** 2^(kj) times pass j is its share of the digit sum. */
  lemma {:induction false} PassIsColumn(s: Params, j: nat, m: nat)
    requires s.Valid()
    ensures s.k * j >= 0 && Pow2(s.k * j) * PassSum(s, j, m) == ColumnTerms(s, j, m)
    decreases m
  {
    QuotientProduct(s.k, j);
    if m > 0 {
      var i := m - 1;
      PassIsColumn(s, j, i);
      Dist(Pow2(s.k * j), PassSum(s, j, i), PassTerm(s, j, i));
      PassTermIsTerm(s, j, i);
    }
  }

  lemma PassTermIsTerm(s: Params, j: nat, i: nat)
    requires s.Valid() && s.k * j >= 0 && i * s.l + j >= 0
    ensures Pow2(s.k * j) * PassTerm(s, j, i) == Term(s, i * s.l + j)
  {
    QuotientProduct(s.k, s.l);
    QuotientProduct(s.k * s.l, i);
    QuotientProduct(s.k, i * s.l + j);
    assert s.k * (i * s.l + j) == s.k * j + s.k * s.l * i by {
      Dist(s.k, i * s.l, j);
      Swap3(s.k, s.l, i);
      Swap3(s.k, i, s.l);
    }
    Pow2Add(s.k * j, s.k * s.l * i);
    if HasBlock(s, i * s.l + j) {
      Swap3(Pow2(s.k * j), GetBlock(s, i * s.l + j), Pow2(s.k * s.l * i));
      Swap3(GetBlock(s, i * s.l + j), Pow2(s.k * j), Pow2(s.k * s.l * i));
    }
  }

  /** sum of ColumnTerms(j) for lo <= j < hi. */
  function ColumnRange(s: Params, lo: nat, hi: nat, m: nat): nat
    requires s.Valid() && lo <= hi
    decreases hi - lo
  {
    if lo == hi then 0 else ColumnTerms(s, lo, m) + ColumnRange(s, lo + 1, hi, m)
  }

  lemma {:induction false} ColumnRangeSplit(s: Params, lo: nat, mid: nat, hi: nat, m: nat)
    requires s.Valid() && lo <= mid <= hi
    ensures ColumnRange(s, lo, hi, m) == ColumnRange(s, lo, mid, m) + ColumnRange(s, mid, hi, m)
    decreases mid - lo
  {
    if lo < mid {
      ColumnRangeSplit(s, lo + 1, mid, hi, m);
    }
  }

  /** All l passes over m checkpoints cover the first m l blocks once each. */
  lemma {:induction false} PassesCoverBlocks(s: Params, m: nat)
    requires s.Valid()
    ensures m * s.l >= 0 && ColumnRange(s, 0, s.l, m) == TermSum(s, m * s.l)
    decreases m
  {
    QuotientProduct(m, s.l);
    if m == 0 {
      EmptyColumns(s, 0);
    } else {
      RowFits(m, s.l);
      PassesCoverBlocks(s, m - 1);
      NextRow(s, 0, m);
    }
  }

  lemma {:induction false} EmptyColumns(s: Params, lo: nat)
    requires s.Valid() && lo <= s.l
    ensures ColumnRange(s, lo, s.l, 0) == 0
    decreases s.l - lo
  {
    if lo < s.l {
      EmptyColumns(s, lo + 1);
    }
  }

  lemma {:induction false} NextRow(s: Params, lo: nat, m: nat)
    requires s.Valid() && lo <= s.l && m > 0 && (m - 1) * s.l >= 0
    ensures ColumnRange(s, lo, s.l, m) + TermSum(s, (m - 1) * s.l + lo)
         == ColumnRange(s, lo, s.l, m - 1) + TermSum(s, (m - 1) * s.l + s.l)
    decreases s.l - lo
  {
    if lo < s.l {
      NextRow(s, lo + 1, m);
    }
  }

  // ---- the prover ----

  /** The checkpoints are x0^(2^(k l i)). */
  ghost predicate Checkpoints<G(!new)>(grp: Group<G>, x0: G, inter: seq<G>, s: Params)
    requires s.Valid()
  {
    && |inter| >= s.Limit()
    && forall i: nat :: i < s.Limit() ==> IsCheckpoint(grp, x0, inter[i], s, i)
  }

  ghost predicate IsCheckpoint<G(!new)>(grp: Group<G>, x0: G, c: G, s: Params, i: nat) {
    s.k * s.l * i >= 0 && c == Pow(grp, x0, Pow2(s.k * s.l * i))
  }

  ghost predicate Tracks<G(!new)>(grp: Group<G>, x0: G, ys: seq<G>, e: seq<nat>) {
    |ys| == |e| && forall b :: 0 <= b < |ys| ==> ys[b] == Pow(grp, x0, e[b])
  }

  /** The buckets of pass j: checkpoint i goes to the bucket of block i l + j. */
  method FillBuckets<G(!new)>(grp: Group<G>, ghost x0: G, inter: seq<G>, s: Params, j: nat)
    returns (ys: array<G>, ghost e: seq<nat>)
    requires Abelian(grp) && s.Valid() && Checkpoints(grp, x0, inter, s)
    ensures fresh(ys) && ys.Length == Pow2(s.k) && Tracks(grp, x0, ys[..], e)
    ensures WeightedSum(e, |e|) == PassSum(s, j, s.Limit())
  {
    ys := new G[Pow2(s.k)](_ => grp.id);
    e := seq(Pow2(s.k), _ => 0);
    WeightedZero(e, |e|);
    var i := 0;
    while i < s.Limit()
      invariant 0 <= i <= s.Limit() && |e| == ys.Length
      invariant forall b :: 0 <= b < ys.Length ==> ys[b] == Pow(grp, x0, e[b])
      invariant WeightedSum(e, |e|) == PassSum(s, j, i)
    {
      BlockIndex(i, s.l, j);
      if s.T >= s.k * (i * s.l + j + 1) {
        var b := GetBlock(s, i * s.l + j);
        assert IsCheckpoint(grp, x0, inter[i], s, i);
        ghost var d := Pow2(s.k * s.l * i);
        PowAdd(grp, x0, e[b], d);
        WeightedUpdate(e, b, d, |e|);
        ys[b] := grp.Mul(ys[b], inter[i]);
        e := e[b := e[b] + d];
      }
      i := i + 1;
    }
  }

  lemma CellFits(b1: nat, h: nat, w: nat)
    requires b1 < h
    ensures b1 * w >= 0 && b1 * w + w <= h * w
  {
    QuotientProduct(b1, w);
    AtLeastTimes(h, b1 + 1, w);
    Dist(w, b1, 1);
  }

  /** The two double loops multiply x by every bucket raised to its index. */
  method FoldBuckets<G(!new)>(grp: Group<G>, ghost x0: G, ys: array<G>, k: nat, x: G, ghost e: seq<nat>, ghost xe: nat)
    returns (r: G)
    requires Abelian(grp) && ys.Length == Pow2(k) && Tracks(grp, x0, ys[..], e) && x == Pow(grp, x0, xe)
    ensures r == Pow(grp, x0, xe + WeightedSum(e, |e|))
  {
    var k1 := k / 2;
    var k0 := k - k1;
    var h, w := Pow2(k1), Pow2(k0);
    Pow2Add(k1, k0);
    assert forall b :: 0 <= b < ys.Length ==> ys[b] == ys[..][b];
    r := FoldRows(grp, x0, ys, h, w, x, e, xe);
    r := FoldCols(grp, x0, ys, h, w, r, e, xe + RowsPart(e, w, h));
    SplitIndex(e, w, h);
  }

  method FoldRows<G(!new)>(grp: Group<G>, ghost x0: G, ys: array<G>, h: nat, w: nat, x: G, ghost e: seq<nat>, ghost xe: nat)
    returns (r: G)
    requires Abelian(grp) && x == Pow(grp, x0, xe) && h * w == ys.Length == |e|
    requires forall b :: 0 <= b < ys.Length ==> ys[b] == Pow(grp, x0, e[b])
    ensures r == Pow(grp, x0, xe + RowsPart(e, w, h))
  {
    r := x;
    var b1 := 0;
    while b1 < h
      invariant 0 <= b1 <= h && b1 * w <= |e| && r == Pow(grp, x0, xe + RowsPart(e, w, b1))
    {
      CellFits(b1, h, w);
      RowFits(b1 + 1, w);
      var z := grp.id;
      for b0 := 0 to w
        invariant z == Pow(grp, x0, RowSum(e, b1 * w, b0))
      {
        PowAdd(grp, x0, RowSum(e, b1 * w, b0), e[b1 * w + b0]);
        z := grp.Mul(z, ys[b1 * w + b0]);
      }
      z := FastPow(grp, z, b1 * w);
      ghost var row := RowSum(e, b1 * w, w);
      PowPow(grp, x0, row, b1 * w);
      QuotientProduct(b1 * w, row);
      assert row * (b1 * w) == (b1 * w) * row;
      PowAdd(grp, x0, xe + RowsPart(e, w, b1), (b1 * w) * row);
      r := grp.Mul(r, z);
      b1 := b1 + 1;
    }
  }

  method FoldCols<G(!new)>(grp: Group<G>, ghost x0: G, ys: array<G>, h: nat, w: nat, x: G, ghost e: seq<nat>, ghost xe: nat)
    returns (r: G)
    requires Abelian(grp) && x == Pow(grp, x0, xe) && h * w == ys.Length == |e|
    requires forall b :: 0 <= b < ys.Length ==> ys[b] == Pow(grp, x0, e[b])
    ensures r == Pow(grp, x0, xe + ColsPart(e, w, h, w))
  {
    r := x;
    for b0 := 0 to w
      invariant r == Pow(grp, x0, xe + ColsPart(e, w, h, b0))
    {
      var z := grp.id;
      var b1 := 0;
      while b1 < h
        invariant 0 <= b1 <= h && b1 * w <= |e| && z == Pow(grp, x0, ColSum(e, w, b1, b0))
      {
        CellFits(b1, h, w);
        RowFits(b1 + 1, w);
        PowAdd(grp, x0, ColSum(e, w, b1, b0), e[b1 * w + b0]);
        z := grp.Mul(z, ys[b1 * w + b0]);
        b1 := b1 + 1;
      }
      z := FastPow(grp, z, b0);
      ghost var col := ColSum(e, w, h, b0);
      PowPow(grp, x0, col, b0);
      QuotientProduct(b0, col);
      assert col * b0 == b0 * col;
      PowAdd(grp, x0, xe + ColsPart(e, w, h, b0), b0 * col);
      r := grp.Mul(r, z);
    }
  }

  /** Passes hi-1 down to lo, the loop shared by the sequential and the parallel prover: 2^(k lo) times
    * the exponent reached is the sum of the columns lo to hi-1. */
  method Passes<G(!new)>(grp: Group<G>, ghost x0: G, inter: seq<G>, s: Params, lo: nat, hi: nat) returns (x: G, ghost xe: nat)
    requires Abelian(grp) && s.Valid() && lo <= hi && Checkpoints(grp, x0, inter, s)
    ensures x == Pow(grp, x0, xe)
    ensures s.k * lo >= 0 && Pow2(s.k * lo) * xe == ColumnRange(s, lo, hi, s.Limit())
  {
    x, xe := grp.id, 0;
    QuotientProduct(s.k, hi);
    var j: int := hi - 1;
    while j >= lo
      invariant lo - 1 <= j < hi && x == Pow(grp, x0, xe)
      invariant s.k * (j + 1) >= 0
      invariant Pow2(s.k * (j + 1)) * xe == ColumnRange(s, j + 1, hi, s.Limit())
    {
      x := FastPow(grp, x, Pow2(s.k));
      PowPow(grp, x0, xe, Pow2(s.k));
      ghost var shifted: nat := xe * Pow2(s.k);
      var ys;
      ghost var e;
      ys, e := FillBuckets(grp, x0, inter, s, j);
      x := FoldBuckets(grp, x0, ys, s.k, x, e, shifted);
      KTimesNext(s.k, j);
      Pow2Add(s.k * j, s.k);
      PassIsColumn(s, j, s.Limit());
      HornerStep(Pow2(s.k * j), Pow2(s.k), xe, PassSum(s, j, s.Limit()));
      xe := shifted + PassSum(s, j, s.Limit());
      j := j - 1;
    }
  }

  lemma HornerStep(q: nat, p: nat, e: nat, t: nat)
    ensures q * (e * p + t) == (q * p) * e + q * t
  {
    Dist(q, e * p, t);
    Swap3(q, p, e);
    Swap3(q, e, p);
  }

  /** All columns together are floor(2^T / B). */
  lemma AllColumns(s: Params)
    requires s.Valid()
    ensures ColumnRange(s, 0, s.l, s.Limit()) == Pow2(s.T) / s.B
  {
    var n := s.T / s.k;
    var m := s.Limit();
    DivBounds(s.T, s.k);
    QuotientNonNegative(s.T, s.k);
    assert BlockCount(s, n) by { NegMul(n, s.k); }
    LimitCovers(s, n, m);
    PassesCoverBlocks(s, m);
    TermSumPast(s, n, m * s.l);
    BlocksAreDigits(s, n);
  }

  lemma LimitCovers(s: Params, n: nat, m: nat)
    requires s.Valid() && BlockCount(s, n) && m == s.Limit()
    ensures m * s.l >= n
  {
    QuotientProduct(s.k, s.l);
    AtLeastFactor(s.k, s.l);
    CeilCovers(s.T, s.k * s.l);
    assert m * (s.k * s.l) == (m * s.l) * s.k;
    if m * s.l < n {
      AtLeastTimes(n - 1, m * s.l, s.k);
      Dist(s.k, n, -1);
    }
  }

  lemma CeilCovers(n: nat, d: nat)
    requires d > 0
    ensures (if n % d != 0 then n / d + 1 else n / d) * d >= n
  {
    DivBounds(n, d);
    Dist(d, n / d, 1);
    assert n == n / d * d + n % d;
  }

  /** GenerateWesolowski and Prover::GenerateProof. */
  method GenerateWesolowski<G(!new)>(grp: Group<G>, ghost x0: G, inter: seq<G>, s: Params) returns (proof: G)
    requires Abelian(grp) && s.Valid() && Checkpoints(grp, x0, inter, s)
    ensures proof == Pow(grp, x0, Pow2(s.T) / s.B)
  {
    ghost var xe;
    proof, xe := Passes(grp, x0, inter, s, 0, s.l);
    AllColumns(s);
  }

  /** ParallelProver::ProvePart: passes start-1 down to start-len, then end * k squarings. */
  method ProvePart<G(!new)>(grp: Group<G>, ghost x0: G, inter: seq<G>, s: Params, start: nat, len: nat) returns (x: G)
    requires Abelian(grp) && s.Valid() && len <= start && Checkpoints(grp, x0, inter, s)
    ensures x == Pow(grp, x0, ColumnRange(s, start - len, start, s.Limit()))
  {
    var end := start - len;
    ghost var xe;
    x, xe := Passes(grp, x0, inter, s, end, start);
    Commute(end, s.k);
    var count: nat := end * s.k;
    x := SquareFormN(grp, x, count);
    PowPow(grp, x0, xe, Pow2(count));
    Commute(xe, Pow2(count));
  }

  lemma Commute(x: nat, y: nat)
    ensures x * y == y * x && x * y >= 0
  {
    QuotientProduct(x, y);
  }

  method SquareFormN<G(!new)>(grp: Group<G>, f: G, cnt: nat) returns (r: G)
    requires Abelian(grp)
    ensures r == Pow(grp, f, Pow2(cnt))
  {
    r := f;
    PowOne(grp, f);
    for i := 0 to cnt
      invariant r == Pow(grp, f, Pow2(i))
    {
      PowAdd(grp, f, Pow2(i), Pow2(i));
      r := grp.Mul(r, r);
    }
  }

  /** ParallelProver::GenerateProof: the two parts multiply to the sequential proof, also when l = 1. */
  method ParallelGenerateProof<G(!new)>(grp: Group<G>, ghost x0: G, inter: seq<G>, s: Params) returns (proof: G)
    requires Abelian(grp) && s.Valid() && Checkpoints(grp, x0, inter, s)
    ensures proof == Pow(grp, x0, Pow2(s.T) / s.B)
  {
    var l0 := s.l / 2;
    var l1 := s.l - l0;
    var x0part := ProvePart(grp, x0, inter, s, s.l, l0);
    var x1part := ProvePart(grp, x0, inter, s, l1, l1);
    PowAdd(grp, x0, ColumnRange(s, l1, s.l, s.Limit()), ColumnRange(s, 0, l1, s.Limit()));
    ColumnRangeSplit(s, 0, l1, s.l, s.Limit());
    AllColumns(s);
    proof := grp.Mul(x0part, x1part);
  }

  // ---- the squaring loop of ProveSlow and the verifier ----

  /** ProveSlow: squares T times and keeps y before every (k l)-th squaring. */
  method SquareAndCheckpoint<G(!new)>(grp: Group<G>, x: G, s: Params) returns (y: G, inter: seq<G>)
    requires Abelian(grp) && s.Valid()
    ensures y == Pow(grp, x, Pow2(s.T)) && |inter| == s.Limit() && Checkpoints(grp, x, inter, s)
  {
    QuotientProduct(s.k, s.l);
    AtLeastFactor(s.k, s.l);
    var kl := s.k * s.l;
    y, inter := x, [];
    PowOne(grp, x);
    for i := 0 to s.T
      invariant y == Pow(grp, x, Pow2(i))
      invariant |inter| == (if i % kl != 0 then i / kl + 1 else i / kl)
      invariant forall c: nat :: c < |inter| ==> IsCheckpoint(grp, x, inter[c], s, c)
    {
      NextMultiple(i, kl);
      if i % kl == 0 {
        DivBounds(i, kl);
        assert s.k * s.l * (i / kl) == i by { NegMul(i / kl, kl); }
        assert IsCheckpoint(grp, x, y, s, i / kl);
        inter := inter + [y];
      }
      PowAdd(grp, x, Pow2(i), Pow2(i));
      y := grp.Mul(y, y);
    }
  }

  lemma NextMultiple(i: nat, d: nat)
    requires d >= 1
    ensures i / d >= 0 && i % d >= 0
    ensures (if (i + 1) % d != 0 then (i + 1) / d + 1 else (i + 1) / d) == i / d + 1
    ensures i % d == 0 ==> i == i / d * d
  {
    var q, r := i / d, i % d;
    assert i == q * d + r by { DivBounds(i, d); }
    QuotientNonNegative(i, d);
    var n := i + 1;
    DivBounds(n, d);
    assert n == n / d * d + n % d;
    if r + 1 == d {
      Dist(d, q, 1);
      SmallMultiple((n / d - (q + 1)) * d, d, n / d - (q + 1));
    } else {
      SmallMultiple((n / d - q) * d, d, n / d - q);
    }
  }

  /** VerifyWesolowskiProof's equation: proof^B * x^(2^iters mod B) = y. */
  method VerifyWesolowskiProof<G(!new, ==)>(grp: Group<G>, x: G, y: G, proof: G, B: nat, iters: nat) returns (valid: bool)
    requires Abelian(grp) && B > 0
    ensures valid <==> Equation(grp, x, y, proof, B, iters)
  {
    var r := Pow2(iters) % B;
    var f1 := FastPow(grp, proof, B);
    var f2 := FastPow(grp, x, r);
    valid := grp.Mul(f1, f2) == y;
  }

  ghost predicate Equation<G(!new)>(grp: Group<G>, x: G, y: G, proof: G, B: nat, iters: nat)
    requires B > 0
  {
    grp.Mul(Pow(grp, proof, B), Pow(grp, x, Pow2(iters) % B)) == y
  }

  /** An honest proof satisfies the equation for exactly one y. */
  lemma HonestEquation<G(!new)>(grp: Group<G>, x: G, y: G, B: nat, T: nat)
    requires Abelian(grp) && B > 0
    ensures Pow2(T) / B >= 0
    ensures Equation(grp, x, y, Pow(grp, x, Pow2(T) / B), B, T) <==> y == Pow(grp, x, Pow2(T))
  {
    var n := Pow2(T);
    DivBounds(n, B);
    QuotientNonNegative(n, B);
    PowPow(grp, x, n / B, B);
    QuotientProduct(n / B, B);
    assert n == n / B * B + n % B;
    PowAdd(grp, x, n / B * B, n % B);
  }

  /** Completeness: for all T, k, l >= 1 and B > 2^k, what ProveSlow computes is accepted. */
  method ProveAndVerify<G(!new, ==)>(grp: Group<G>, x: G, s: Params) returns (y: G, proof: G, valid: bool)
    requires Abelian(grp) && s.Valid()
    ensures y == Pow(grp, x, Pow2(s.T)) && valid
  {
    var inter;
    y, inter := SquareAndCheckpoint(grp, x, s);
    proof := GenerateWesolowski(grp, x, inter, s);
    HonestEquation(grp, x, y, s.B, s.T);
    valid := VerifyWesolowskiProof(grp, x, y, proof, s.B, s.T);
  }
}
