/** The batched reducer (src/Reducer.h): substitutions computed on word approximations are applied
  * to the long coefficients, so that any approximation keeps the form in its class. */
module Reducer {
  import opened Integers
  import opened ExtendedGcd
  import opened QuadraticForms
  import opened Reduction
  import opened VdfNew

  /** One round of `run`: the slow step, or a batch on the words that approximate a, b and c. */
  datatype Round = Slow | Fast(a: int, b: int, c: int)

  const THRESH := 0x8000_0000

  /** floor((floor(b / c) + 1) / 2), as the slow step computes it, is floor((b + c) / (2c)). */
  lemma SlowQuotient(b: int, c: int)
    requires c > 0
    ensures (b / c + 1) / 2 == (b + c) / (2 * c)
  {
    var r := b / c;
    var s := (r + 1) / 2;
    DivBounds(b, c);
    SlowBounds(b, c, r, s);
    DivUnique(b + c, 2 * c, s, b + c - s * (2 * c));
  }

  lemma SlowBounds(b: int, c: int, r: int, s: int)
    requires c > 0 && r * c <= b < r * c + c && 2 * s <= r + 1 <= 2 * s + 1
    ensures s * (2 * c) <= b + c < s * (2 * c) + 2 * c
  {
    AtLeastTimes(r + 1, 2 * s, c);
    AtLeastTimes(2 * s + 1, r + 1, c);
    Dist(c, r, 1);
    Dist(c, 2 * s, 1);
    Swap3(s, 2, c);
  }

  /** |v| <= 2^31 and |x| <= 2^31, tested as (|v| | |x|) <= THRESH: with a power of two as the bound
    * the bitwise or stays at or below it only when both do and, if one reaches it, the other is 0
    * or reaches it too. */
  predicate BelowThreshold(v: int, x: int) {
    Abs(v) <= THRESH && Abs(x) <= THRESH
    && (Abs(v) == THRESH ==> x == 0 || Abs(x) == THRESH)
    && (Abs(x) == THRESH ==> v == 0 || Abs(v) == THRESH)
  }

  predicate WithinThreshold(m: Mat) {
    Abs(m.p) <= THRESH && Abs(m.q) <= THRESH && Abs(m.r) <= THRESH && Abs(m.s) <= THRESH
  }

  /** The matrix that follows m when the rounded quotient is s. */
  function Follow(m: Mat, s: int): Mat { Mat(m.q, -m.p + s * m.q, m.s, -m.r + s * m.s) }

  /** The matrix built from a list of quotients. */
  function Product(ss: seq<int>): Mat {
    if ss == [] then ID else Follow(Product(ss[..|ss| - 1]), ss[|ss| - 1])
  }

  /** Its determinant is 1, whatever the quotients are. */
  lemma {:induction false} ProductDet(ss: seq<int>)
    ensures Product(ss).Det() == 1
  {
    if ss != [] {
      ProductDet(ss[..|ss| - 1]);
      StepDet(Product(ss[..|ss| - 1]), ss[|ss| - 1]);
    }
  }

  /** 2 s c is the multiple of 2c nearest to b. */
  predicate Nearest(b: int, c: int, s: int) { c > 0 && Abs(b - 2 * (s * c)) <= c }

  /** The nearest quotient, away from 0 on a tie. */
  function Rounded(b: int, c: int): (s: int)
    requires c > 0
    ensures Nearest(b, c, s)
  {
    assert Nearest(b, c, if b >= 0 then (b + c) / (2 * c) else -((-b + c) / (2 * c))) by {
      var n := if b >= 0 then b + c else -b + c;
      DivBounds(n, 2 * c);
      NegMul(n / (2 * c), c);
      Swap3(n / (2 * c), 2, c);
    }
    if b >= 0 then (b + c) / (2 * c) else -((-b + c) / (2 * c))
  }

  /** The words that a list of quotients leads to. */
  function After(f: Form, ss: seq<int>): Form { Act(f, Product(ss)) }

  /** The second column of the matrix of a list of quotients is within the threshold. */
  predicate Fits(ss: seq<int>) { BelowThreshold(Product(ss).q, Product(ss).s) }

  /** The loop goes on from the words that it has reached. */
  predicate GoesOn(g: Form) { g.a > g.c > 0 }

  /** s is the next quotient: there is one, and it is the nearest. */
  predicate IsNext(g: Form, s: int) { g.c > 0 && s == Rounded(g.b, g.c) }

  /** Quotient i is taken: the loop goes on, it is the next one, and it keeps the column within the threshold. */
  predicate StepAt(f: Form, ss: seq<int>, i: nat) {
    i < |ss| && IsNext(After(f, ss[..i]), ss[i]) && Fits(ss[..i + 1]) && (i > 0 ==> GoesOn(After(f, ss[..i])))
  }

  ghost predicate Steps(f: Form, ss: seq<int>) {
    forall i: nat :: i < |ss| ==> StepAt(f, ss, i)
  }

  /** Where the loop stops: at a <= c, at c <= 0, or before a step that leaves the threshold. */
  ghost predicate Ends(f: Form, ss: seq<int>) {
    var g := After(f, ss);
    if ss != [] && !GoesOn(g) then true else exists s :: IsNext(g, s) && !Fits(ss + [s])
  }

  lemma OneMoreQuotient(f: Form, ss: seq<int>, s: int)
    ensures Product(ss + [s]) == Follow(Product(ss), s)
    ensures After(f, ss + [s]) == Act(After(f, ss), Mat(0, -1, 1, s))
  {
    assert (ss + [s])[..|ss|] == ss;
    assert Product(ss + [s]) == Product(ss).Mul(Mat(0, -1, 1, s));
    ActMul(f, Product(ss), Mat(0, -1, 1, s));
  }

  lemma OneMoreStep(f: Form, ss: seq<int>, s: int)
    requires Steps(f, ss) && (ss != [] ==> GoesOn(After(f, ss))) && Fits(ss + [s]) && IsNext(After(f, ss), s)
    ensures Steps(f, ss + [s])
  {
    var more := ss + [s];
    forall i: nat | i < |more|
      ensures StepAt(f, more, i)
    {
      if i < |ss| {
        assert StepAt(f, ss, i);
        SameStep(f, ss, more, i);
      } else {
        assert more[..|ss|] == ss && more[..|more|] == more;
      }
    }
  }

  /** A step depends on the quotients up to it. */
  lemma SameStep(f: Form, ss: seq<int>, tt: seq<int>, i: nat)
    requires i < |ss| && i < |tt| && ss[..i + 1] == tt[..i + 1] && StepAt(f, ss, i)
    ensures StepAt(f, tt, i)
  {
    assert ss[..i] == ss[..i + 1][..i] == tt[..i + 1][..i] == tt[..i] && ss[i] == ss[..i + 1][i] == tt[..i + 1][i] == tt[i];
  }

  /** The words determine the quotients, so Steps and Ends say which matrix calc_uvwx returns. */
  lemma BatchUnique(f: Form, ss: seq<int>, tt: seq<int>)
    requires Steps(f, ss) && Ends(f, ss) && Steps(f, tt) && Ends(f, tt)
    ensures ss == tt
  {
    var n := if |ss| <= |tt| then |ss| else |tt|;
    SamePrefix(f, ss, tt, n);
    if |ss| < |tt| {
      NotPast(f, ss, tt);
    } else if |tt| < |ss| {
      NotPast(f, tt, ss);
    } else {
      assert ss == ss[..n] == tt[..n] == tt;
    }
  }

  lemma {:induction false} SamePrefix(f: Form, ss: seq<int>, tt: seq<int>, n: nat)
    requires Steps(f, ss) && Steps(f, tt) && n <= |ss| && n <= |tt|
    ensures ss[..n] == tt[..n]
  {
    if n > 0 {
      SamePrefix(f, ss, tt, n - 1);
      SameNext(f, ss, tt, n - 1);
      assert ss[..n] == ss[..n - 1] + [ss[n - 1]] && tt[..n] == tt[..n - 1] + [tt[n - 1]];
    }
  }

  lemma SameNext(f: Form, ss: seq<int>, tt: seq<int>, i: nat)
    requires Steps(f, ss) && Steps(f, tt) && i < |ss| && i < |tt| && ss[..i] == tt[..i]
    ensures ss[i] == tt[i]
  {
    assert StepAt(f, ss, i) && StepAt(f, tt, i);
    NextUnique(After(f, ss[..i]), ss[i], tt[i]);
  }

  lemma NextUnique(g: Form, s: int, t: int)
    requires IsNext(g, s) && IsNext(g, t)
    ensures s == t
  {}

  lemma NotPast(f: Form, ss: seq<int>, tt: seq<int>)
    requires Steps(f, tt) && |ss| < |tt| && ss == tt[..|ss|]
    ensures !Ends(f, ss)
  {
    var n := |ss|;
    var g := After(f, ss);
    assert tt[..n + 1] == ss + [tt[n]];
    assert StepAt(f, tt, n);
  }

  /** A batch takes at least one step exactly if the first quotient is within the threshold. */
  lemma FirstStep(f: Form, ss: seq<int>)
    requires f.c > 0 && Steps(f, ss) && Ends(f, ss)
    ensures ss != [] <==> Abs(Rounded(f.b, f.c)) < THRESH
  {
    var s := Rounded(f.b, f.c);
    ActId(f);
    assert After(f, []) == f;
    OneMoreQuotient(f, [], s);
    assert Product([s]) == Mat(0, -1, 1, s) by {
      assert [] + [s] == [s];
    }
    assert Fits([s]) <==> Abs(s) < THRESH;
    if ss != [] {
      assert StepAt(f, ss, 0) && ss[..0] == [] && ss[..1] == [s];
    } else {
      assert ss + [s] == [s];
    }
  }

  /** One pass of the loop body of calc_uvwx: the reduction step on the words, and the matrix that
    * follows m. */
  method BatchStep(a: int, b: int, c: int, m: Mat) returns (a': int, b': int, c': int, next: Mat, below: bool)
    requires c > 0
    ensures Form(a', b', c') == Act(Form(a, b, c), Mat(0, -1, 1, Rounded(b, c))) && next == Follow(m, Rounded(b, c))
    ensures below <==> BelowThreshold(next.q, next.s)
    ensures WithinThreshold(m) && below ==> WithinThreshold(next)
  {
    var s := if b >= 0 then TruncDiv(b + c, 2 * c) else TruncDiv(-(-b + c), 2 * c);
    assert s == Rounded(b, c);
    a' := c;
    b' := -b + 2 * (c * s);
    c' := a - s * (b - c * s);
    next := Mat(m.q, -m.p + s * m.q, m.s, -m.r + s * m.s);
    below := BelowThreshold(next.q, next.s);
    SlowTerms(a, b, c, s);
    StepTerms(a, b, c, s);
  }

  /** calc_uvwx: the matrix of the reduction steps on the words, up to the last one within the threshold;
    * it stops only there, at a <= c or at c <= 0. */
  method CalcUvwx(a0: int, b0: int, c0: int) returns (m: Mat, ghost ss: seq<int>)
    requires c0 > 0
    ensures m == Product(ss) && WithinThreshold(m)
    ensures Steps(Form(a0, b0, c0), ss) && Ends(Form(a0, b0, c0), ss)
    ensures ss != [] <==> Abs(Rounded(b0, c0)) < THRESH
  {
    m, ss := ID, [];
    ghost var f := Form(a0, b0, c0);
    ActId(f);
    var a, b, c, next, below;
    ghost var s := Rounded(b0, c0);
    a, b, c, next, below := BatchStep(a0, b0, c0, m);
    OneMoreQuotient(f, ss, s);
    while below && a > c && c > 0
      invariant m == Product(ss) && WithinThreshold(m) && Steps(f, ss) && (ss != [] ==> GoesOn(After(f, ss)))
      invariant IsNext(After(f, ss), s)
      invariant next == Product(ss + [s]) && (below <==> Fits(ss + [s])) && (below ==> WithinThreshold(next))
      invariant Form(a, b, c) == After(f, ss + [s])
      decreases if below && a > c && c > 0 then c else 0
    {
      OneMoreStep(f, ss, s);
      m, ss, s := next, ss + [s], Rounded(b, c);
      a, b, c, next, below := BatchStep(a, b, c, m);
      OneMoreQuotient(f, ss, s);
    }
    if below {
      OneMoreStep(f, ss, s);
      m, ss := next, ss + [s];
    }
    FirstStep(f, ss);
  }

  lemma StepDet(m: Mat, s: int)
    ensures Follow(m, s).Det() == m.Det()
  {
    Dist(m.q, -m.r, s * m.s);
    Dist(m.s, -m.p, s * m.q);
    Swap3(m.q, s, m.s);
    Swap3(m.s, s, m.q);
  }

  /** The nine multipliers of the update fit a signed 64-bit word. */
  lemma MultipliersFit(m: Mat)
    requires m.Det() == 1 && WithinThreshold(m)
    ensures var half := 0x8000_0000_0000_0000;
      && 0 <= m.p * m.p < half && 0 <= m.r * m.r < half && 0 <= m.q * m.q < half && 0 <= m.s * m.s < half
      && Abs(m.p * m.r) < half && Abs(m.q * m.s) < half
      && Abs(2 * (m.p * m.q)) < half && Abs(2 * (m.r * m.s)) < half
      && -half <= m.p * m.s + m.q * m.r < half
  {
    WordProduct(m.p, m.p); WordProduct(m.r, m.r); WordProduct(m.q, m.q); WordProduct(m.s, m.s);
    WordProduct(m.p, m.r); WordProduct(m.q, m.s); WordProduct(m.p, m.q); WordProduct(m.r, m.s);
    WordProduct(m.p, m.s); WordProduct(m.q, m.r);
    SquareNonNegative(m.p); SquareNonNegative(m.q); SquareNonNegative(m.r); SquareNonNegative(m.s);
    if Abs(m.p) == THRESH && Abs(m.q) == THRESH {
      NotBothThreshold(m.p, m.q, m.s, m.r);
    }
    if Abs(m.r) == THRESH && Abs(m.s) == THRESH {
      NotBothThreshold(m.s, m.r, m.p, m.q);
    }
  }

  lemma WordProduct(x: int, y: int)
    requires Abs(x) <= THRESH && Abs(y) <= THRESH
    ensures Abs(x * y) <= THRESH * THRESH
    ensures Abs(x * y) == THRESH * THRESH ==> Abs(x) == THRESH && Abs(y) == THRESH
  {
    var u, v: int := Abs(x), Abs(y);
    assert Abs(x * y) == u * v;
    AtLeastTimes(THRESH, v, u);
    if u < THRESH {
      AtLeastTimes(THRESH - 1, u, v);
    }
    if v < THRESH {
      AtLeastTimes(THRESH - 1, v, u);
    }
  }

  lemma NotBothThreshold(x: int, y: int, s: int, r: int)
    requires Abs(x) == THRESH && Abs(y) == THRESH
    ensures x * s - y * r != 1
  {
    var t := (if x > 0 then s else -s) - (if y > 0 then r else -r);
    assert x * s - y * r == THRESH * t;
  }

  // ---- the long coefficients ----

  /** ClassGroupContext's a, b and c, updated in place. */
  class Context {
    var a: int
    var b: int
    var c: int

    constructor (f: Form)
      ensures Value() == f
    {
      a, b, c := f.a, f.b, f.c;
    }

    function Value(): Form
      reads this
    {
      Form(a, b, c)
    }

    /** isReduced: answers whether |b| is at most a and c, and if so arranges a, b and c. */
    method IsReduced() returns (done: bool)
      requires Value().PositiveDefinite()
      modifies this
      ensures done <==> Abs(old(b)) <= old(a) && Abs(old(b)) <= old(c)
      ensures Value() == if done then Arranged(old(Value())) else old(Value())
      ensures Equivalent(old(Value()), Value()) && Value().PositiveDefinite() && (done ==> Ordered(Value()))
    {
      EquivalentRefl(Value());
      if Abs(a) < Abs(b) || Abs(c) < Abs(b) {
        PositiveC(Value());
        return false;
      }
      PositiveC(Value());
      SwapEquivalent(Value());
      if a > c {
        a, c := c, a;
        b := -b;
      } else if a == c && b < 0 {
        b := -b;
      }
      EquivalentPositive(old(Value()), Value());
      return true;
    }

    /** reducer: the slow step, one division by c on the long numbers. */
    method SlowStep()
      requires c > 0
      modifies this
      ensures SlowFrom(old(Value()), Value())
    {
      var r := FloorDiv(b, c);
      r := r + 1;
      var s := FloorDiv(r, 2);
      SlowQuotient(b, c);
      ghost var f := Value();
      NearestMultiple(c, -b, s);
      var m := c * s;
      r := 2 * m;
      m := m - b;
      b := r - b;
      a, c := c, a;
      c := c + s * m;
      SlowTerms(f.a, f.b, f.c, s);
      StepTerms(f.a, f.b, f.c, s);
      assert IsStep(f, s, Value());
    }

    /** The nine products and six sums that apply the matrix. */
    method ApplyMatrix(m: Mat)
      requires m.Det() == 1
      modifies this
      ensures Value() == Act(old(Value()), m) && Equivalent(old(Value()), Value())
    {
      ghost var f := Value();
      var faa, fab, fac := a * (m.p * m.p), b * (m.p * m.r), c * (m.r * m.r);
      var fba, fbb, fbc := a * (2 * (m.p * m.q)), b * (m.p * m.s + m.q * m.r), c * (2 * (m.r * m.s));
      var fca, fcb, fcc := a * (m.q * m.q), b * (m.q * m.s), c * (m.s * m.s);
      a := faa + fab;
      a := a + fac;
      b := fba + fbb;
      b := b + fbc;
      c := fca + fcb;
      c := c + fcc;
      NineTerms(f.a, f.b, f.c, m);
      EquivalentBy(f, m, Value());
    }

    /** One round on a form that fails the test. */
    method Reduce(round: Round)
      requires Value().PositiveDefinite() && (round.Fast? ==> round.c > 0)
      modifies this
      ensures RoundFrom(old(Value()), round, Value())
      ensures Equivalent(old(Value()), Value()) && Value().PositiveDefinite()
    {
      ghost var before := Value();
      PositiveC(before);
      match round {
        case Slow =>
          SlowStep();
          SlowEquivalent(before, Value());
        case Fast(wa, wb, wc) =>
          var m;
          ghost var ss;
          m, ss := CalcUvwx(wa, wb, wc);
          ProductDet(ss);
          ApplyMatrix(m);
          assert IsBatch(before, wa, wb, wc, ss, Value());
      }
      EquivalentPositive(before, Value());
    }

    /** run, for as many rounds as are given: the forms it goes through are those of the rounds, each one
      * reached from a form that fails the test, and the last one is arranged if it passes. Whatever the
      * approximations, the form stays in its class, and if the loop stops by itself then |b| <= a <= c,
      * with b >= 0 when a = c; that is the reduced form h of the class, or (a, -a, c) if h = (a, a, c) with
      * a < c. Slow rounds alone get there, after at most |b| or log3(c) + 1 of them. */
    method Run(rounds: seq<Round>) returns (done: bool, ghost trace: seq<Form>)
      requires Value().PositiveDefinite()
      requires forall i :: 0 <= i < |rounds| && rounds[i].Fast? ==> rounds[i].c > 0
      modifies this
      ensures IsTrace(trace, rounds) && trace[0] == old(Value())
      ensures done <==> Passes(trace[|trace| - 1])
      ensures Value() == if done then Arranged(trace[|trace| - 1]) else trace[|trace| - 1]
      ensures !done ==> |trace| == |rounds| + 1
      ensures Equivalent(old(Value()), Value()) && Value().PositiveDefinite()
      ensures done ==> Ordered(Value())
      ensures done ==> forall h :: Equivalent(old(Value()), h) && h.IsReduced() ==> Value() == h || (OnEdge(h) && Value() == Form(h.a, -h.a, h.c))
      ensures (forall i :: 0 <= i < |rounds| ==> rounds[i].Slow?) && |rounds| >= Abs(old(b)) ==> done
      ensures (forall i :: 0 <= i < |rounds| ==> rounds[i].Slow?) && |rounds| > 0 && Pow3(|rounds| - 1) >= old(c) ==> done
    {
      EquivalentRefl(Value());
      ghost var start := Value();
      trace := [start];
      done := IsReduced();
      for i := 0 to |rounds|
        invariant IsTrace(trace, rounds) && |trace| <= i + 1 && trace[0] == start
        invariant done <==> Passes(trace[|trace| - 1])
        invariant Value() == if done then Arranged(trace[|trace| - 1]) else trace[|trace| - 1]
        invariant !done ==> |trace| == i + 1
        invariant Equivalent(start, Value()) && Value().PositiveDefinite() && (done ==> Ordered(Value()))
      {
        if done {
          break;
        }
        ghost var before := Value();
        Reduce(rounds[i]);
        ghost var after := Value();
        EquivalentTrans(start, before, after);
        TraceGrows(trace, rounds, after);
        trace := trace + [after];
        done := IsReduced();
        EquivalentTrans(start, after, Value());
      }
      if done {
        OrderedIsAll(start, Value());
      } else if forall i :: 0 <= i < |rounds| ==> rounds[i].Slow? {
        SlowRunEnds(trace, rounds);
      }
    }
  }

  // ---- what the rounds do, and how many there are ----

  predicate Passes(f: Form) { Abs(f.b) <= f.a && Abs(f.b) <= f.c }

  predicate IsStep(f: Form, s: int, g: Form) { g == Act(f, Mat(0, -1, 1, s)) && IsNormal(g) }

  /** The slow step: c is brought to the front, and b into (-c, c]. */
  ghost predicate SlowFrom(f: Form, g: Form) { exists s :: IsStep(f, s, g) }

  ghost predicate IsBatch(f: Form, a: int, b: int, c: int, ss: seq<int>, g: Form)
  {
    Steps(Form(a, b, c), ss) && Ends(Form(a, b, c), ss) && g == Act(f, Product(ss))
  }

  ghost predicate RoundFrom(f: Form, round: Round, g: Form) {
    match round
    case Slow => SlowFrom(f, g)
    case Fast(a, b, c) => c > 0 && exists ss :: IsBatch(f, a, b, c, ss, g)
  }

  /** A run of the loop: every form but the last fails the test, and the next round leads to the next form. */
  ghost predicate IsTrace(trace: seq<Form>, rounds: seq<Round>) {
    0 < |trace| <= |rounds| + 1
    && forall i :: 0 <= i < |trace| - 1 ==> !Passes(trace[i]) && RoundFrom(trace[i], rounds[i], trace[i + 1])
  }

  lemma TraceGrows(trace: seq<Form>, rounds: seq<Round>, g: Form)
    requires IsTrace(trace, rounds) && |trace| <= |rounds|
    requires !Passes(trace[|trace| - 1]) && RoundFrom(trace[|trace| - 1], rounds[|trace| - 1], g)
    ensures IsTrace(trace + [g], rounds)
  {}

  lemma SlowEquivalent(f: Form, g: Form)
    requires SlowFrom(f, g)
    ensures Equivalent(f, g) && g.a == f.c && IsNormal(g)
  {
    var s :| IsStep(f, s, g);
    StepTerms(f.a, f.b, f.c, s);
    EquivalentBy(f, Mat(0, -1, 1, s), g);
  }

  predicate Ordered(f: Form) { Abs(f.b) <= f.a <= f.c && (f.a == f.c ==> f.b >= 0) }

  function Pow3(n: nat): nat { if n == 0 then 1 else 3 * Pow3(n - 1) }

  /** A slow step does not raise |b|, and from a normal form that fails the test it lowers |b|. */
  lemma SlowLowers(f: Form, g: Form)
    requires f.PositiveDefinite() && !Passes(f) && SlowFrom(f, g)
    ensures Abs(g.b) <= Abs(f.b) && (IsNormal(f) ==> Abs(g.b) < Abs(f.b))
  {
    PositiveC(f);
    SlowEquivalent(f, g);
    if Abs(f.b) <= f.c {
      var s :| IsStep(f, s, g);
      StepTerms(f.a, f.b, f.c, s);
      SmallTranslate(f.b, f.c, s, g.b);
    }
  }

  lemma SmallTranslate(b: int, c: int, s: int, b': int)
    requires c > 0 && Abs(b) <= c && b' == 2 * (s * c) - b && -c < b' <= c
    ensures Abs(b') == Abs(b)
  {
    Swap3(s, 2, c);
    if b' + b == 0 {
    } else if b' == c == b {
    } else {
      SmallMultiple(b' + b, 2 * c, s);
    }
  }

  /** Two normal forms in a row that fail the test: a falls to less than a third. */
  lemma SlowThird(f: Form, g: Form)
    requires f.PositiveDefinite() && IsNormal(f) && !Passes(f) && SlowFrom(f, g) && !Passes(g)
    ensures 3 * g.a < f.a
  {
    PositiveC(f);
    SlowEquivalent(f, g);
    EquivalentDisc(f, g);
    EquivalentPositive(f, g);
    PositiveC(g);
    Third(f.a, f.b, f.c, g.b, g.c);
  }

  lemma Third(a: int, b: int, c: int, b': int, c': int)
    requires 0 < c < Abs(b) <= a && 0 < c' < Abs(b') <= c && b * b - 4 * a * c == b' * b' - 4 * c * c'
    ensures 3 * c < a
  {
    ThirdAbove(a, Abs(b), c);
    ThirdBelow(c, Abs(b'), c');
    if a <= 3 * c {
      ThirdProduct(a, c);
    }
  }

  lemma ThirdAbove(a: int, b: int, c: int)
    requires 0 <= b <= a
    ensures b * b - 4 * a * c <= a * a - 4 * a * c
  {
    AtLeastTimes(a, b, b);
    AtLeastTimes(a, b, a);
  }

  lemma ThirdBelow(c: int, b: int, c': int)
    requires 0 < c' < b <= c
    ensures b * b - 4 * c * c' > -3 * (c * c)
  {
    AtLeastTimes(b, c' + 1, c);
    assert (c - b) * (3 * c - b) == 3 * (c * c) - 4 * (b * c) + b * b;
    QuotientProduct(c - b, 3 * c - b);
  }

  lemma ThirdProduct(a: int, c: int)
    requires c < a <= 3 * c
    ensures a * a - 4 * a * c <= -3 * (c * c)
  {
    assert (a - c) * (3 * c - a) == 4 * a * c - a * a - 3 * (c * c);
    QuotientProduct(a - c, 3 * c - a);
  }

  /** While the test fails, |b| has fallen by one in every slow round but the first, and c has fallen to a
    * third in every one but the first. */
  lemma {:induction false} SlowFalls(trace: seq<Form>, rounds: seq<Round>, n: nat)
    requires IsTrace(trace, rounds) && (forall i :: 0 <= i < |rounds| ==> rounds[i].Slow?)
    requires trace[0].PositiveDefinite() && n < |trace| && !Passes(trace[n])
    ensures trace[n].PositiveDefinite()
    ensures n > 0 ==> IsNormal(trace[n]) && Abs(trace[n].b) + n - 1 <= Abs(trace[0].b)
    ensures n > 0 ==> trace[n].a * Pow3(n - 1) <= trace[0].c
  {
    if n > 0 {
      var f, g := trace[n - 1], trace[n];
      SlowFalls(trace, rounds, n - 1);
      assert RoundFrom(f, rounds[n - 1], g);
      SlowEquivalent(f, g);
      EquivalentPositive(f, g);
      SlowLowers(f, g);
      if n > 1 {
        SlowThird(f, g);
        AtLeastTimes(f.a, 3 * g.a, Pow3(n - 2));
        Swap3(g.a, 3, Pow3(n - 2));
      }
    }
  }

  lemma SlowRunEnds(trace: seq<Form>, rounds: seq<Round>)
    requires IsTrace(trace, rounds) && (forall i :: 0 <= i < |rounds| ==> rounds[i].Slow?)
    requires trace[0].PositiveDefinite() && |trace| == |rounds| + 1 && !Passes(trace[|rounds|])
    ensures |rounds| < Abs(trace[0].b) && (|rounds| > 0 ==> Pow3(|rounds| - 1) < trace[0].c)
  {
    var n := |rounds|;
    var g := trace[n];
    SlowFalls(trace, rounds, n);
    PositiveC(g);
    if n > 0 {
      AtLeastTimes(g.a, 2, Pow3(n - 1));
    }
  }

  lemma SwapEquivalent(f: Form)
    ensures Equivalent(f, Form(f.c, -f.b, f.a))
  {
    ReduceStep(f, 0);
  }

  lemma SlowTerms(a: int, b: int, c: int, s: int)
    ensures a + s * (c * s - b) == c * s * s - b * s + a
    ensures 2 * (c * s) - b == 2 * (s * c) - b
  {
    Dist(s, c * s, -b);
    Swap3(c, s, s);
  }

  lemma NineTerms(a: int, b: int, c: int, m: Mat)
    ensures a * (m.p * m.p) + b * (m.p * m.r) + c * (m.r * m.r) == Form(a, b, c).At(m.p, m.r)
    ensures a * (m.q * m.q) + b * (m.q * m.s) + c * (m.s * m.s) == Form(a, b, c).At(m.q, m.s)
    ensures a * (2 * (m.p * m.q)) + b * (m.p * m.s + m.q * m.r) + c * (2 * (m.r * m.s)) == Act(Form(a, b, c), m).b
  {
    Swap3(a, m.p, m.p); Swap3(b, m.p, m.r); Swap3(c, m.r, m.r);
    Swap3(a, m.q, m.q); Swap3(b, m.q, m.s); Swap3(c, m.s, m.s);
    TwiceProduct(a, m.p, m.q);
    TwiceProduct(c, m.r, m.s);
  }

  lemma TwiceProduct(a: int, p: int, q: int)
    ensures a * (2 * (p * q)) == 2 * a * p * q
  {}

  /** What isReduced makes of a form that passes its test: the smaller outer coefficient first. */
  function Arranged(f: Form): Form {
    if f.a > f.c then Form(f.c, -f.b, f.a)
    else if f.a == f.c && f.b < 0 then Form(f.a, -f.b, f.c)
    else f
  }

  /** A form on which `run` stops at once is turned into the reduced one, except on two edges. */
  lemma ArrangedIsReduced(f: Form)
    requires f.PositiveDefinite() && Abs(f.b) <= f.a && Abs(f.b) <= f.c
    ensures Ordered(Arranged(f))
    ensures Arranged(f).IsReduced() <==> !(f.a < f.c && f.b == -f.a) && !(f.c < f.a && f.b == f.c)
  {
    PositiveC(f);
  }

  /** Such an edge: (2, -2, 3) is left as it is, and the reduced form of its class is (2, 2, 3). */
  lemma StopsUnreduced(f: Form)
    requires f == Form(2, -2, 3)
    ensures f.PositiveDefinite() && Abs(f.b) <= f.a && Abs(f.b) <= f.c && Arranged(f) == f && !f.IsReduced()
    ensures Form(2, 2, 3).IsReduced() && Equivalent(f, Form(2, 2, 3))
  {
    Translate(f, 1, 2, 3);
  }

  /** The classes in which `run` can stop elsewhere than at the reduced form h. */
  predicate OnEdge(h: Form) { h.a == h.b && h.a < h.c }

  /** What `run` ends with is h, or (a, -a, c) if h = (a, a, c) with a < c. */
  lemma OrderedIs(f: Form, g: Form, h: Form)
    requires f.PositiveDefinite() && Equivalent(f, g) && Ordered(g) && Equivalent(f, h) && h.IsReduced()
    ensures g == h || (OnEdge(h) && g == Form(h.a, -h.a, h.c))
  {
    EquivalentPositive(f, g);
    EquivalentSym(f, g);
    if g.b == -g.a {
      var r := Form(g.a, g.a, g.c);
      TranslateByOne(g.a, g.b, g.c);
      Translate(g, 1, g.a, g.c);
      EquivalentTrans(f, g, r);
      EquivalentPositive(f, r);
      SameReduced(f, r, h);
    } else {
      SameReduced(f, g, h);
    }
  }

  lemma OrderedIsAll(f: Form, g: Form)
    requires f.PositiveDefinite() && Equivalent(f, g) && Ordered(g)
    ensures forall h :: Equivalent(f, h) && h.IsReduced() ==> g == h || (OnEdge(h) && g == Form(h.a, -h.a, h.c))
  {
    forall h | Equivalent(f, h) && h.IsReduced()
      ensures g == h || (OnEdge(h) && g == Form(h.a, -h.a, h.c))
    {
      OrderedIs(f, g, h);
    }
  }

  lemma SameReduced(f: Form, g: Form, h: Form)
    requires f.PositiveDefinite() && Equivalent(f, g) && Equivalent(f, h) && g.IsReduced() && h.IsReduced()
    ensures g == h
  {
    EquivalentPositive(f, g);
    EquivalentSym(f, g);
    EquivalentTrans(g, f, h);
    ReducedUnique(g, h);
  }

  /** Exactly when stopping means being reduced: every place where `run` can stop in the class of f is its
    * reduced form h if and only if h is not (a, a, c) with a < c. */
  lemma StopsReducedExactly(f: Form, h: Form)
    requires f.PositiveDefinite() && Equivalent(f, h) && h.IsReduced()
    ensures (forall g :: Equivalent(f, g) && Ordered(g) ==> g == h) <==> !OnEdge(h)
  {
    forall g | Equivalent(f, g) && Ordered(g)
      ensures g == h || OnEdge(h)
    {
      OrderedIs(f, g, h);
    }
    if OnEdge(h) {
      var g := Form(h.a, -h.a, h.c);
      EquivalentPositive(f, h);
      Translate(h, -1, -h.a, h.c);
      EquivalentTrans(f, h, g);
      assert Equivalent(f, g) && Ordered(g) && g != h;
    }
  }

  /** For a prime discriminant only the principal class is such a class. */
  lemma OnlyPrincipalOnEdge(p: int, h: Form)
    requires IsPrime(p) && p > 3 && h.Disc() == -p && h.a > 0 && h.IsReduced()
    ensures OnEdge(h) <==> h.a == 1
  {
    if OnEdge(h) {
      EdgeDivides(h, p);
      PrimeDivisors(p, h.a);
      ReducedBelow(h, p);
    }
    if h.a == 1 && h.b == 0 {
      DividesBy(2, p, 2 * h.c);
      PrimeDivisors(p, 2);
    }
  }

  lemma EdgeDivides(h: Form, p: int)
    requires h.a == h.b && h.Disc() == -p
    ensures Divides(h.a, p)
  {
    var a, c := h.a, h.c;
    EdgeProduct(a, c);
    DividesBy(a, p, 4 * c - a);
  }

  lemma EdgeProduct(a: int, c: int)
    ensures a * a - 4 * a * c == -((4 * c - a) * a)
  {}

  lemma TranslateByOne(a: int, b: int, c: int)
    requires b == -a
    ensures a == b + 2 * a * 1 && c == a * 1 * 1 + b * 1 + c
  {}
}
