/** Reduction of positive definite forms (src/vdf_new.h), and Gauss's theorem that a class
  * holds exactly one reduced form. */
module Reduction {
  import opened Integers
  import opened QuadraticForms

  // ---- the reduced form of a class is unique ----

  /** A reduced form takes no value below c at a vector with y != 0, and none below a at all. */
  lemma Minima(f: Form, x: int, y: int)
    requires f.IsReduced() && f.PositiveDefinite() && !(x == 0 && y == 0)
    ensures f.At(x, y) >= f.a
    ensures y != 0 ==> f.At(x, y) >= f.c
  {
    var u, v := Abs(x), Abs(y);
    MixedTerm(f, x, y);
    if y == 0 {
      AtLeastFactor2(u, f.a);
    } else if u >= v {
      SplitWide(f.a, f.c, u, v);
    } else {
      SplitTall(f.a, f.c, u, v);
    }
  }

  lemma MixedTerm(f: Form, x: int, y: int)
    requires Abs(f.b) <= f.a
    ensures f.At(x, y) >= f.a * Abs(x) * Abs(x) - f.a * (Abs(x) * Abs(y)) + f.c * Abs(y) * Abs(y)
  {
    AbsSquare(f.a, x);
    AbsSquare(f.c, y);
    AbsProduct(x, y);
    Swap3(f.b, x, y);
    BoundProduct(f.b, x * y, f.a, Abs(x) * Abs(y));
  }

  lemma AbsSquare(a: int, x: int)
    ensures a * x * x == a * Abs(x) * Abs(x)
  {}

  lemma BoundProduct(b: int, z: int, a: int, w: int)
    requires Abs(b) <= a && Abs(z) <= w
    ensures b * z >= -(a * w)
  {
    assert Abs(b) * Abs(z) <= a * Abs(z) <= a * w;
  }

  lemma AtLeastFactor2(u: int, a: int)
    requires u >= 1 && a >= 0
    ensures a * u * u >= a
  {
    AtLeastFactor(u, u);
    AtLeastFactor(u * u, a);
  }

  lemma SplitWide(a: int, c: int, u: int, v: int)
    requires 0 < a <= c && u >= v >= 1
    ensures a * u * u - a * (u * v) + c * v * v >= c
  {
    assert a * u * u - a * (u * v) == (a * u) * (u - v);
    AtLeastFactor2(v, c);
  }

  lemma SplitTall(a: int, c: int, u: int, v: int)
    requires 0 < a <= c && 0 <= u < v
    ensures a * u * u - a * (u * v) + c * v * v >= c
  {
    QuotientProduct(u, v);
    AtLeastTimes(c, a, u * v);
    TallFactor(c, u, v);
    QuotientProduct(c, v);
    AtLeastFactor(v - u, c * v);
    AtLeastFactor(v, c);
    SquareTimes(a, u);
  }

  lemma TallFactor(c: int, u: int, v: int)
    ensures c * v * v - c * (u * v) == (v - u) * (c * v)
  {}

  lemma SquareTimes(a: int, u: int)
    requires a >= 0
    ensures a * u * u >= 0
  {
    SquareNonNegative(u);
    QuotientProduct(a, u * u);
    Swap3(a, u, u);
  }

  /** Two properly equivalent reduced positive definite forms are equal, so comparing reduced
    * forms decides equality of classes. */
  lemma ReducedUnique(f: Form, g: Form)
    requires f.PositiveDefinite() && f.IsReduced() && g.IsReduced()
    requires Equivalent(f, g)
    ensures f == g
  {
    EquivalentDisc(f, g);
    EquivalentPositive(f, g);
    var m :| Via(f, m, g);
    var n := m.Adj();
    AdjMul(m);
    ActMul(f, m, n);
    ActId(f);
    assert Via(g, n, f);
    NotBothZero(m.p, m.q, m.r, m.s);
    Minima(f, m.p, m.r);
    Minima(g, n.p, n.r);
    assert f.a == g.a;
    if m.r == 0 {
      UnitDiagonal(m.p, m.s);
      TranslateSmall(f, g, m);
    } else {
      assert f.c == f.a && g.c == g.a;
      EqualSquares(f.b, g.b);
    }
  }

  lemma NotBothZero(p: int, q: int, r: int, s: int)
    requires p * s - q * r == 1
    ensures !(p == 0 && r == 0) && !(s == 0 && r == 0)
  {}

  lemma UnitDiagonal(p: int, s: int)
    requires p * s == 1
    ensures p == s && (p == 1 || p == -1)
  {
    if p != 1 && p != -1 {
      if s != 0 && p != 0 {
        AbsMul(s, p);
      }
    }
  }

  lemma TranslateSmall(f: Form, g: Form, m: Mat)
    requires Via(f, m, g) && f.IsReduced() && g.IsReduced() && f.a > 0 && f.Disc() == g.Disc()
    requires m.r == 0 && m.p == m.s && (m.p == 1 || m.p == -1)
    ensures f == g
  {
    var k := if m.p == 1 then m.q else -m.q;
    TranslateTerms(f.a, f.b, f.c, m.p, m.q, m.r);
    assert g.a == f.a && g.b == f.b + k * (2 * f.a);
    SmallMultiple(g.b - f.b, 2 * f.a, k);
    LastCoefficient(f, g);
  }

  lemma TranslateTerms(a: int, b: int, c: int, p: int, q: int, r: int)
    requires (p == 1 || p == -1) && r == 0
    ensures a * p * p + b * p * r + c * r * r == a
    ensures 2 * a * p * q + b * (p * p + q * r) + 2 * c * r * p == b + (if p == 1 then q else -q) * (2 * a)
  {}

  // ---- the reduction loop ----

  predicate IsNormal(f: Form) { -f.a < f.b <= f.a }

  /** b is moved into (-a, a]. */
  method Normalize(f: Form) returns (g: Form)
    requires f.a > 0
    ensures Equivalent(f, g) && g.a == f.a && IsNormal(g)
    ensures IsNormal(f) ==> g == f
  {
    var r := (f.a - f.b) / (2 * f.a);
    NearestMultiple(f.a, f.b, r);
    g := Form(f.a, f.b + 2 * (r * f.a), f.a * r * r + f.b * r + f.c);
    Double(r, f.a);
    Translate(f, r, g.b, g.c);
  }

  lemma NearestMultiple(a: int, b: int, r: int)
    requires a > 0 && r == (a - b) / (2 * a)
    ensures -a < b + 2 * (r * a) <= a
    ensures -a < b <= a ==> r == 0
  {
    DivBounds(a - b, 2 * a);
    Double(r, a);
    if -a < b <= a {
      SmallMultiple(r * (2 * a), 2 * a, r);
    }
  }

  lemma Double(r: int, a: int)
    ensures r * (2 * a) == 2 * (r * a)
  {}

  /** One step: swaps the outer coefficients and normalizes against the new first one. */
  method ReduceImpl(f: Form) returns (g: Form)
    requires f.c > 0
    ensures Equivalent(f, g) && g.a == f.c && IsNormal(g)
    ensures -f.c < -f.b <= f.c ==> g == Form(f.c, -f.b, f.a)
  {
    var s := (f.c + f.b) / (2 * f.c);
    NearestMultiple(f.c, -f.b, s);
    g := Form(f.c, 2 * (s * f.c) - f.b, f.c * s * s - f.b * s + f.a);
    ReduceStep(f, s);
  }

  lemma ReduceStep(f: Form, s: int)
    ensures Equivalent(f, Form(f.c, 2 * (s * f.c) - f.b, f.c * s * s - f.b * s + f.a))
  {
    var m := Mat(0, -1, 1, s);
    StepTerms(f.a, f.b, f.c, s);
    EquivalentBy(f, m, Act(f, m));
  }

  lemma StepTerms(a: int, b: int, c: int, s: int)
    ensures a * 0 * 0 + b * 0 * 1 + c * 1 * 1 == c
    ensures 2 * a * 0 * (-1) + b * (0 * s + (-1) * 1) + 2 * c * 1 * s == 2 * (s * c) - b
    ensures a * (-1) * (-1) + b * (-1) * s + c * s * s == c * s * s - b * s + a
  {}

  /** The reduced form of a class: the loop terminates on every positive definite form, stays in
    * the class, and returns its only reduced form. */
  method Reduce(f: Form) returns (g: Form)
    requires f.PositiveDefinite()
    ensures Equivalent(f, g) && g.IsReduced() && g.PositiveDefinite()
    ensures forall h: Form :: Equivalent(f, h) && h.IsReduced() ==> h == g
  {
    g := Normalize(f);
    EquivalentPositive(f, g);
    PositiveC(g);
    while g.a > g.c || (g.a == g.c && g.b < 0)
      invariant Equivalent(f, g) && g.PositiveDefinite() && IsNormal(g) && g.c > 0
      decreases g.a, if g.b < 0 then 1 else 0
    {
      ghost var before := g;
      g := ReduceImpl(g);
      EquivalentTrans(f, before, g);
      EquivalentPositive(f, g);
      PositiveC(g);
    }
    ghost var last := g;
    g := Normalize(g);
    EquivalentTrans(f, last, g);
    forall h: Form | Equivalent(f, h) && h.IsReduced()
      ensures h == g
    {
      EquivalentSym(f, g);
      EquivalentTrans(g, f, h);
      ReducedUnique(g, h);
    }
  }
}
