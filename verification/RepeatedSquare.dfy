/** The squaring loops (src/vdf.h, src/vdf_original.h, src/vdf_fast.h): whatever mix of NUDUPL, the
  * phased pipeline, the fallback squaring and lazy reduction they use, T iterations lead to one class,
  * hence to one reduced form. */
module RepeatedSquare {
  import opened Integers
  import opened ExtendedGcd
  import opened QuadraticForms
  import opened Composition
  import opened Reduction
  import opened VdfNew
  import opened Nucomp
  import opened Reducer
  import opened PhasedSquare

  /** g is in the class of f squared n times: every step may take any composite of any
    * representative with itself. */
  ghost predicate Squarings(f: Form, n: nat, g: Form)
    decreases n
  {
    if n == 0 then Equivalent(f, g)
    else exists m: Form :: Squarings(f, n - 1, m) && Composes(m, m, g)
  }

  lemma {:induction false} SquaringsDisc(f: Form, n: nat, g: Form)
    requires Squarings(f, n, g)
    ensures g.Disc() == f.Disc()
    decreases n
  {
    if n == 0 {
      EquivalentDisc(f, g);
    } else {
      var m: Form :| Squarings(f, n - 1, m) && Composes(m, m, g);
      SquaringsDisc(f, n - 1, m);
      OneDiscriminant(m, m, g);
    }
  }

  lemma SquaringsEquivalent(f: Form, n: nat, g: Form, h: Form)
    requires Squarings(f, n, g) && Equivalent(g, h)
    ensures Squarings(f, n, h)
  {
    if n == 0 {
      EquivalentTrans(f, g, h);
    } else {
      var m: Form :| Squarings(f, n - 1, m) && Composes(m, m, g);
      ComposesResult(m, m, g, h);
    }
  }

  lemma SquaringsOneMore(f: Form, n: nat, g: Form, h: Form)
    requires Squarings(f, n, g) && Composes(g, g, h)
    ensures Squarings(f, n + 1, h)
  {}

  lemma {:induction false} SquaringsJoin(f: Form, m: nat, g: Form, n: nat, h: Form)
    requires Squarings(f, m, g) && Squarings(g, n, h)
    ensures Squarings(f, m + n, h)
    decreases n
  {
    if n == 0 {
      SquaringsEquivalent(f, m, g, h);
    } else {
      var k: Form :| Squarings(g, n - 1, k) && Composes(k, k, h);
      SquaringsJoin(f, m, g, n - 1, k);
      SquaringsOneMore(f, m + n - 1, k, h);
    }
  }

  /** For a prime discriminant the class reached after n squarings depends only on the starting class. */
  lemma {:induction false} SquaringsUnique(p: int, f: Form, f': Form, n: nat, g: Form, g': Form)
    requires IsPrime(p) && f'.Disc() == -p
    requires Equivalent(f, f') && Squarings(f, n, g) && Squarings(f', n, g')
    ensures Equivalent(g, g')
    decreases n
  {
    if n == 0 {
      EquivalentSym(f, g);
      EquivalentTrans(g, f, f');
      EquivalentTrans(g, f', g');
    } else {
      var m: Form :| Squarings(f, n - 1, m) && Composes(m, m, g);
      var m': Form :| Squarings(f', n - 1, m') && Composes(m', m', g');
      SquaringsUnique(p, f, f', n - 1, m, m');
      SquaringsDisc(f', n - 1, m');
      PrimePrimitive(m', p);
      CompositeUnique(m, m, g, m', m', g');
    }
  }

  /** Two runs of n iterations from the same class, by whatever implementations, have the same
    * reduced result: the VDF output y = x^(2^n) is a function of x. */
  lemma VdfOutputUnique(p: int, f: Form, f': Form, n: nat, g: Form, g': Form)
    requires IsPrime(p) && f.Disc() == -p && f.PositiveDefinite()
    requires Equivalent(f, f') && Squarings(f, n, g) && Squarings(f', n, g')
    requires g.PositiveDefinite() && g.IsReduced() && g'.IsReduced()
    ensures g == g'
  {
    EquivalentDisc(f, f');
    SquaringsUnique(p, f, f', n, g, g');
    ReducedUnique(g, g');
  }

  // ---- the fallback squaring ----

  /** gcd(a, b) divides c, which for a primitive form means gcd(a, b) = 1. */
  predicate FallbackWorks(f: Form)
    requires f.a > 0
  {
    f.c % GcdExt(f.b, f.a).0 == 0
  }

  lemma FallbackDivides(f: Form)
    requires f.a > 0
    ensures FallbackWorks(f) <==> Divides(GcdExt(f.b, f.a).0, f.c)
  {
    var g := GcdExt(f.b, f.a).0;
    if FallbackWorks(f) {
      DividesBy(g, f.c, f.c / g);
    }
    if Divides(g, f.c) {
      var q :| IsQuotient(f.c, g, q);
      ExactQuotient(f.c, g, q);
    }
  }

  lemma ReducedFallbackWorks(p: int, f: Form)
    requires IsPrime(p) && p > 3 && f.Disc() == -p && f.PositiveDefinite() && f.IsReduced()
    ensures FallbackWorks(f)
  {
    ReducedBelow(f, p);
    if !FallbackWorks(f) {
      LargeWithoutFallback(p, f);
    }
  }

  /** A form below p always suits the fallback, so only forms that have grown past p do not. */
  lemma LargeWithoutFallback(p: int, f: Form)
    requires IsPrime(p) && f.Disc() == -p && f.a > 0 && !FallbackWorks(f)
    ensures f.a >= p
  {
    if f.a < p {
      PrimeCoprime(f, p);
      UnitGcd(f.b, f.a);
      DividesBy(1, f.c, f.c);
      FallbackDivides(f);
    }
  }

  /** vdf_original keeps its result in the scratch form f3. */
  class VdfOriginal {
    var mu: int
    var m: int
    var f3: Form

    constructor ()
      ensures f3 == Form(0, 0, 0)
    {
      mu, m, f3 := 0, 0, Form(0, 0, 0);
    }

    /** square: the same three coefficients as vdf_new, then reduce. */
    method Square(f1: Form)
      requires f1.PositiveDefinite() && FallbackWorks(f1)
      modifies this
      ensures Composes(f1, f1, f3) && f3.IsReduced() && f3.PositiveDefinite() && f3.Disc() == f1.Disc()
    {
      FallbackDivides(f1);
      var (g, d, e) := GcdExt(f1.b, f1.a);
      mu := (FloorDiv(f1.c, g) * d) % f1.a;
      m := FloorDiv(f1.b * mu - f1.c, f1.a);
      f3 := Form(f1.a * f1.a, f1.b - 2 * (f1.a * mu), mu * mu - m);
      RawSquareComposes(f1);
      var raw := f3;
      OneDiscriminant(f1, f1, raw);
      ProductPositive(f1.a, f1.a);
      f3 := Reduce(raw);
      ComposesResult(f1, f1, raw, f3);
      EquivalentDisc(raw, f3);
    }

    /** repeated_square_original. */
    method Repeat(p: int, f: Form, iterations: nat) returns (r: Form)
      requires IsPrime(p) && p > 3 && f.Disc() == -p && f.PositiveDefinite()
      requires iterations > 0 ==> FallbackWorks(f)
      modifies this
      ensures Squarings(f, iterations, r) && r.PositiveDefinite() && r.Disc() == -p
      ensures iterations > 0 ==> r.IsReduced()
    {
      r := f;
      EquivalentRefl(f);
      for i := 0 to iterations
        invariant Squarings(f, i, r) && r.PositiveDefinite() && r.Disc() == -p
        invariant i < iterations ==> FallbackWorks(r)
        invariant i > 0 ==> r.IsReduced()
      {
        Square(r);
        SquaringsOneMore(f, i, r, f3);
        r := f3;
        ReducedFallbackWorks(p, r);
      }
    }
  }

  // ---- NUDUPL with lazy reduction ----

  predicate ValidRounds(rounds: seq<Round>) {
    forall i :: 0 <= i < |rounds| && rounds[i].Fast? ==> rounds[i].c > 0
  }

  /** repeated_square_nudupl: after each NUDUPL the reducer may or may not run, for any number of
    * rounds; `schedule` says which. No condition on gcd(a, b) is needed. */
  method RepeatedSquareNudupl(f: Form, D: int, L: int, iterations: nat, schedule: seq<seq<Round>>) returns (r: Form)
    requires f.PositiveDefinite() && f.Disc() == D && L >= 0
    requires |schedule| == iterations && forall i :: 0 <= i < iterations ==> ValidRounds(schedule[i])
    ensures Squarings(f, iterations, r) && r.PositiveDefinite() && r.Disc() == D
  {
    r := f;
    EquivalentRefl(f);
    for i := 0 to iterations
      invariant Squarings(f, i, r) && r.PositiveDefinite() && r.Disc() == D
    {
      var squared := QfbNudupl(r, D, L);
      SquaringsOneMore(f, i, r, squared);
      var ctx := new Context(squared);
      var done;
      ghost var trace;
      done, trace := ctx.Run(schedule[i]);
      r := ctx.Value();
      SquaringsEquivalent(f, i + 1, squared, r);
      EquivalentDisc(squared, r);
    }
  }

  // ---- the phased pipeline ----

  /** The sizes of f or the room for gcd entries stop an iteration before its last phase. */
  ghost predicate StopsAt(f: Form, L: nat, plan: (seq<nat>, seq<nat>), k: int) {
    f.a > 0 && (Begins(f.a, f.b, L, plan.0) ==> IsRatio(f, k)) && !Completes(f.a, f.b, L, k, plan.0, plan.1)
  }

  ghost predicate Stops(f: Form, L: nat, plan: (seq<nat>, seq<nat>)) {
    exists k :: StopsAt(f, L, plan, k)
  }

  /** A form reached before iteration n shares a factor between a and b. */
  ghost predicate MeetsCommonFactor(f: Form, n: nat) {
    exists i: nat, m: Form :: i < n && Squarings(f, i, m) && !Coprime(m.b, m.a)
  }

  /** repeated_square_fast in single-thread order, with `assign` at the end. -1 stands for ~0: the
    * corruption flag was raised, because a form with gcd(a, b) > 1 was reached, and f is returned
    * unchanged; otherwise f has advanced by `actual`, and it stops early only where an iteration cannot
    * run. */
  method RepeatedSquareFast(f: Form, D: int, L: int, iterations: nat, plans: seq<(seq<nat>, seq<nat>)>)
    returns (r: Form, actual: int)
    requires f.PositiveDefinite() && f.Disc() == D && L >= 0 && |plans| == iterations
    ensures -1 <= actual <= iterations && (actual == -1 ==> r == f)
    ensures actual >= 0 ==> Squarings(f, actual, r)
    ensures actual == -1 ==> MeetsCommonFactor(f, iterations)
    ensures 0 <= actual < iterations ==> Stops(r, L, plans[actual])
    ensures r.PositiveDefinite() && r.Disc() == D
  {
    EquivalentRefl(f);
    var state := new SquareState(D, L, f);
    var iter := 0;
    while iter < iterations
      invariant 0 <= iter <= iterations && state.D == D && state.numValidIterations == iter
      invariant state.L == L && state.Ready() && Squarings(f, iter, state.cur)
    {
      ghost var before := state.cur;
      var ok;
      ghost var it, y;
      ok, it, y := state.Iterate(plans[iter].0, plans[iter].1);
      if !ok {
        if state.corruption {
          assert Squarings(f, iter, before) && !Coprime(before.b, before.a);
        } else {
          assert StopsAt(before, L, plans[iter], state.k);
        }
        break;
      }
      SquaringsOneMore(f, iter, before, state.cur);
      iter := iter + 1;
    }
    r, actual := Assign(state, f, D);
  }

  /** assign: recomputes c; with a flagged state nothing is assigned. */
  method Assign(state: SquareState, f: Form, D: int) returns (r: Form, actual: int)
    requires state.D == D && f.PositiveDefinite() && f.Disc() == D && state.Slots()
    requires !state.corruption ==> state.Ready()
    ensures state.corruption ==> actual == -1 && r == f
    ensures !state.corruption ==> actual == state.numValidIterations && r == state.cur
  {
    if state.corruption {
      return f, -1;
    }
    var a, b := state.a(), state.b();
    FormIsConsistent(state.cur, D);
    r := Form(a, b, FloorDiv(b * b - D, 4 * a));
    actual := state.numValidIterations;
  }

  // ---- repeated_square ----

  /** One batch: what the pipeline gave up is redone or continued by the fallback. `sound` is false if
    * the fallback is given a form whose gcd(a, b) does not divide c, which needs a >= p. */
  method SquareBatch(vdfo: VdfOriginal, p: int, f: Form, L: int, batch: nat, plans: seq<(seq<nat>, seq<nat>)>)
    returns (r: Form, count: nat, sound: bool)
    requires IsPrime(p) && p > 3 && f.Disc() == -p && f.PositiveDefinite() && L >= 0 && |plans| == batch > 0
    modifies vdfo
    ensures Squarings(f, count, r) && r.PositiveDefinite() && r.Disc() == -p
    ensures sound ==> 1 <= count <= batch
    ensures !sound ==> r.a >= p && !FallbackWorks(r)
  {
    EquivalentRefl(f);
    var next, actual := RepeatedSquareFast(f, -p, L, batch, plans);
    var done, todo := actual, 0;
    if actual == -1 {
      done, todo := 0, batch;
    } else if actual < batch {
      todo := 1;
    }
    if todo > 0 && !FallbackWorks(next) {
      LargeWithoutFallback(p, next);
      return next, done, false;
    }
    r := vdfo.Repeat(p, next, todo);
    SquaringsJoin(f, done, next, todo, r);
    count, sound := done + todo, true;
  }

  /** The outer loop, for one batch per entry of `plans`: a corrupt batch is redone by the fallback from
    * the form it started with, a batch cut short is followed by one fallback iteration, and the count
    * of iterations is the number of squarings done. The model stops where a batch is not sound. */
  method RepeatedSquare(p: int, f: Form, L: int, batch: nat, plans: seq<seq<(seq<nat>, seq<nat>)>>)
    returns (r: Form, numIterations: nat, sound: bool)
    requires IsPrime(p) && p > 3 && f.Disc() == -p && f.PositiveDefinite() && L >= 0 && batch > 0
    requires forall i :: 0 <= i < |plans| ==> |plans[i]| == batch
    ensures Squarings(f, numIterations, r) && r.PositiveDefinite() && r.Disc() == -p
    ensures sound ==> |plans| <= numIterations <= |plans| * batch
    ensures !sound ==> r.a >= p && !FallbackWorks(r)
  {
    r, numIterations, sound := f, 0, true;
    EquivalentRefl(f);
    var vdfo := new VdfOriginal();
    for i := 0 to |plans|
      invariant Squarings(f, numIterations, r) && r.PositiveDefinite() && r.Disc() == -p && sound
      invariant i <= numIterations <= i * batch
    {
      var next, count;
      next, count, sound := SquareBatch(vdfo, p, r, L, batch, plans[i]);
      SquaringsJoin(f, numIterations, r, count, next);
      r, numIterations := next, numIterations + count;
      if !sound {
        return;
      }
      Dist(batch, i, 1);
    }
  }
}
