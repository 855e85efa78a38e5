/** Squaring and multiplication with full-size numbers (src/vdf_new.h), and what a prime
  * discriminant gives. */
module VdfNew {
  import opened Integers
  import opened ExtendedGcd
  import opened QuadraticForms
  import opened Composition
  import opened Reduction

  // ---- forms of discriminant -p, p prime ----

  lemma SquareDivides(d: int, b: int, a: int, c: int)
    requires Divides(d, b) && Divides(d, a)
    ensures Divides(d, b * b - 4 * a * c)
  {
    DividesMul(d, b, b);
    DividesMul(d, a, 4 * c);
    assert 4 * a * c == a * (4 * c);
    DividesSum(d, b * b, a * (4 * c));
  }

  /** A form of discriminant -p whose leading coefficient is below p has gcd(a, b) = 1. */
  lemma PrimeCoprime(f: Form, p: int)
    requires IsPrime(p) && f.Disc() == -p && 0 < f.a < p
    ensures Coprime(f.b, f.a)
  {
    var (g, s, t) := GcdExt(f.b, f.a);
    SquareDivides(g, f.b, f.a, f.c);
    DividesMul(g, -p, -1);
    PrimeDivisors(p, g);
    if g == p {
      var q :| IsQuotient(f.a, p, q);
      SmallMultiple(f.a, p, q);
    }
    UnitGcd(f.b, f.a);
  }

  /** Every form of discriminant -p is primitive. */
  lemma PrimePrimitive(f: Form, p: int)
    requires IsPrime(p) && f.Disc() == -p
    ensures Primitive(f)
  {
    var (g, s, t) := GcdExt(f.a, f.b);
    var (d, x, z) := GcdExt(g, f.c);
    DividesTrans(d, g, f.a);
    DividesTrans(d, g, f.b);
    SquareDivides(d, f.b, f.a, f.c);
    DividesMul(d, -p, -1);
    PrimeDivisors(p, d);
    if d == p {
      PrimeSquareTooBig(f, p);
    }
    assert d == 1;
    assert Bezout3(f, x * s, x * t, z) by {
      Dist(x, s * f.a, t * f.b);
      Swap3(x, s, f.a);
      Swap3(x, t, f.b);
    }
  }

  /** p cannot divide all three coefficients: p^2 would divide p. */
  lemma PrimeSquareTooBig(f: Form, p: int)
    requires p > 1 && f.Disc() == -p
    ensures !(Divides(p, f.a) && Divides(p, f.b) && Divides(p, f.c))
  {
    if Divides(p, f.a) && Divides(p, f.b) && Divides(p, f.c) {
      PrimeSquareRemainder(f, p);
    }
  }

  lemma PrimeSquareRemainder(f: Form, p: int)
    requires p > 1 && Divides(p, f.a) && Divides(p, f.b) && Divides(p, f.c)
    ensures f.Disc() != -p
  {
    var x :| IsQuotient(f.a, p, x);
    var y :| IsQuotient(f.b, p, y);
    var z :| IsQuotient(f.c, p, z);
    var w := y * y - 4 * (x * z);
    FactorSquare(x, y, z, p);
    if (w * p) * p == -p {
      Cancel(w * p, -1, p);
      SmallMultiple(-1, p, w);
    }
  }

  lemma FactorSquare(x: int, y: int, z: int, p: int)
    ensures (y * p) * (y * p) - 4 * (x * p) * (z * p) == ((y * y - 4 * (x * z)) * p) * p
  {}

  /** In a reduced form 3 a^2 <= -D, so a is below a prime -D. */
  lemma ReducedBelow(f: Form, p: int)
    requires f.IsReduced() && f.a > 0 && f.Disc() == -p && p > 3
    ensures f.a < p
  {
    SquaresOrdered(f.b, f.a);
    AtLeastTimes(f.c, f.a, f.a);
    Swap3(4, f.a, f.c);
    AtLeastFactor(f.a, f.a);
  }

  lemma SquaresOrdered(x: int, y: int)
    requires -y <= x <= y
    ensures x * x <= y * y
  {
    assert y * y - x * x == (y - x) * (y + x);
    QuotientProduct(y - x, y + x);
  }

  // ---- square ----

  /** The three assignments of `square` before reduction; the quotient by a is a floor. */
  function RawSquare(f: Form): Form
    requires f.a > 0
  {
    var (g, s, t) := GcdExt(f.b, f.a);
    var u := (FloorDiv(f.c, g) * s) % f.a;
    Form(f.a * f.a, f.b - 2 * (f.a * u), u * u - (f.b * u - f.c) / f.a)
  }

  /** What the floor division leaves: the discriminant is off by 4a times the remainder. */
  lemma RawSquareDisc(f: Form, u: int)
    requires f.a > 0
    ensures Form(f.a * f.a, f.b - 2 * (f.a * u), u * u - (f.b * u - f.c) / f.a).Disc()
         == f.Disc() - 4 * f.a * ((f.b * u - f.c) % f.a)
  {
    var n := f.b * u - f.c;
    var q, r := n / f.a, n % f.a;
    assert n == q * f.a + r by { DivBounds(n, f.a); }
    SquareDiscCalc(f.a, f.b, f.c, u, q, r);
  }

  lemma SquareDiscCalc(a: int, b: int, c: int, u: int, q: int, r: int)
    requires b * u - c == q * a + r
    ensures (b - 2 * (a * u)) * (b - 2 * (a * u)) - 4 * (a * a) * (u * u - q) == b * b - 4 * a * c - 4 * a * r
  {
    var v := a * u;
    Foil(b, -2 * v, b, -2 * v);
    Dist(4 * (a * a), u * u, -q);
    assert (4 * (a * a)) * (u * u) == 4 * (v * v) by { Swap4(a, u, a, u); }
    assert (4 * (a * a)) * q == (4 * a) * (q * a);
    assert b * v == a * (b * u);
    Dist(4 * a, b * u - c, -r);
    Dist(4 * a, b * u, -c);
  }

  /** The congruence b u = c (mod a) that `square` solves has a solution exactly when the gcd
    * divides c, and then the computed u is one. */
  lemma SquareCongruence(f: Form)
    requires f.a > 0
    ensures var (g, s, t) := GcdExt(f.b, f.a);
            var u := (FloorDiv(f.c, g) * s) % f.a;
            (f.b * u - f.c) % f.a == 0 <==> Divides(g, f.c)
  {
    var (g, s, t) := GcdExt(f.b, f.a);
    var v := FloorDiv(f.c, g) * s;
    var u := v % f.a;
    if Divides(g, f.c) {
      SolvesWhenDivides(f, g, s, t, u);
    }
    if (f.b * u - f.c) % f.a == 0 {
      DividesWhenSolved(f, g, u);
    }
  }

  lemma SolvesWhenDivides(f: Form, g: int, s: int, t: int, u: int)
    requires f.a > 0 && g != 0 && g == s * f.b + t * f.a && Divides(g, f.c) && u == (FloorDiv(f.c, g) * s) % f.a
    ensures (f.b * u - f.c) % f.a == 0
  {
    var v := FloorDiv(f.c, g) * s;
    var q :| IsQuotient(f.c, g, q);
    ExactQuotient(f.c, g, q);
    DivBounds(v, f.a);
    SquareSolves(f, g, s, t, q, v / f.a, u);
    ExactQuotient(f.b * u - f.c, f.a, -(f.b * (v / f.a) + q * t));
  }

  lemma DividesWhenSolved(f: Form, g: int, u: int)
    requires f.a > 0 && Divides(g, f.a) && Divides(g, f.b) && (f.b * u - f.c) % f.a == 0
    ensures Divides(g, f.c)
  {
    var n := f.b * u - f.c;
    DivBounds(n, f.a);
    DividesMul(g, f.a, n / f.a);
    DividesMul(g, f.b, u);
    DividesSum(g, f.b * u, n / f.a * f.a);
  }

  lemma SquareSolves(f: Form, g: int, s: int, t: int, q: int, e: int, u: int)
    requires g == s * f.b + t * f.a && f.c == q * g && u == q * s - e * f.a
    ensures f.b * u - f.c == (-(f.b * e + q * t)) * f.a
  {
    Dist(f.b, q * s, -(e * f.a));
    Dist(q, s * f.b, t * f.a);
    assert f.b * (q * s) == q * (s * f.b);
    assert f.b * (e * f.a) == (f.b * e) * f.a;
    assert q * (t * f.a) == (q * t) * f.a;
    Dist(f.a, f.b * e, q * t);
    NegMul(f.b * e + q * t, f.a);
  }

  /** `square` keeps the discriminant exactly when gcd(a, b) divides c. */
  lemma SquareKeepsDisc(f: Form)
    requires f.a > 0
    ensures RawSquare(f).Disc() == f.Disc() <==> Divides(GcdExt(f.b, f.a).0, f.c)
  {
    var (g, s, t) := GcdExt(f.b, f.a);
    var u := (FloorDiv(f.c, g) * s) % f.a;
    RawSquareDisc(f, u);
    SquareCongruence(f);
    var r := (f.b * u - f.c) % f.a;
    if r > 0 {
      ProductPositive(4 * f.a, r);
    }
  }

  /** A form on which it fails: gcd(3, 3) does not divide 1. */
  lemma SquareCounterexample(f: Form)
    requires f.a == 3 && f.b == 3 && f.c == 1
    ensures f.PositiveDefinite() && Primitive(f) && RawSquare(f).Disc() != f.Disc()
  {
    assert Bezout3(f, 0, 0, 1);
    GcdOfThrees(f.a, f.b);
    SquareFails(f);
  }

  lemma SquareFails(f: Form)
    requires f.a > 0 && !Divides(GcdExt(f.b, f.a).0, f.c)
    ensures RawSquare(f).Disc() != f.Disc()
  {
    SquareKeepsDisc(f);
  }

  lemma GcdOfThrees(a: int, b: int)
    requires a == 3 && b == 3
    ensures !Divides(GcdExt(b, a).0, 1)
  {
    var r := GcdExt(b, a);
    assert IsGcdExt(b, a, r);
    MultipleOfThree(r);
  }

  lemma MultipleOfThree(r: (int, int, int))
    requires r.0 == r.1 * 3 + r.2 * 3
    ensures !Divides(r.0, 1)
  {
    if Divides(r.0, 1) {
      DividesBy(3, r.0, r.1 + r.2);
      DividesTrans(3, r.0, 1);
      DivisorOfOne(3);
    }
  }

  /** When the congruence is solvable the three coefficients are a composite of f with itself. */
  lemma RawSquareComposes(f: Form)
    requires f.a > 0 && Divides(GcdExt(f.b, f.a).0, f.c)
    ensures Composes(f, f, RawSquare(f))
  {
    var (g, s, t) := GcdExt(f.b, f.a);
    var u := (FloorDiv(f.c, g) * s) % f.a;
    SquareCongruence(f);
    var m := (f.b * u - f.c) / f.a;
    DivBounds(f.b * u - f.c, f.a);
    SquareCube(f, u, m);
  }

  lemma SquareCube(f: Form, u: int, m: int)
    requires f.b * u - f.c == m * f.a
    ensures Composes(f, f, Form(f.a * f.a, f.b - 2 * (f.a * u), u * u - m))
  {
    var k := Cube(Mat(1, u, u, m), Mat(0, f.a, f.a, f.b));
    SquareEntries(f.a, f.b, u, m);
    ComposesBy(k);
  }

  lemma SquareEntries(a: int, b: int, u: int, m: int)
    ensures 1 * a - u * 0 == a && -(0 * b - a * a) == a * a && -(1 * m - u * u) == u * u - m
    ensures 1 * b + a * u - u * a - 0 * m == b && 1 * b + 0 * m == b
    ensures 1 * b + m * 0 - u * a - u * a == b - 2 * (a * u)
    ensures u * b - m * a == b * u - m * a
  {}

  /** `form square(const form&)`. */
  method Square(f: Form) returns (r: Form)
    requires f.PositiveDefinite() && Divides(GcdExt(f.b, f.a).0, f.c)
    ensures Composes(f, f, r) && r.IsReduced() && r.PositiveDefinite()
  {
    var raw := RawSquare(f);
    RawSquareComposes(f);
    OneDiscriminant(f, f, raw);
    ProductPositive(f.a, f.a);
    r := Reduce(raw);
    ComposesResult(f, f, raw, r);
  }

  // ---- multiply ----

  /** mu = q d (mod m) with q = b / g, and v = m / g, for g = gcd(a, m) = d a + e m. */
  method SolveLinearCongruence(a: int, b: int, m: int) returns (mu: int, v: int)
    requires m > 0 && Divides(GcdExt(a, m).0, b)
    ensures Divides(m, a * mu - b)
    ensures v * GcdExt(a, m).0 == m && Divides(m, a * v)
  {
    var (g, d, e) := GcdExt(a, m);
    var q := DivExact(b, g);
    mu := (q * d) % m;
    ghost var z := q * d / m;
    CongruenceSolved(a, m, g, d, e, q, z, mu);
    DividesBy(m, a * mu - b, -(q * e) - a * z);
    v := DivExact(m, g);
    Lcm(a, m, g, v);
  }

  lemma Lcm(a: int, m: int, g: int, v: int)
    requires Divides(g, a) && v * g == m
    ensures Divides(m, a * v)
  {
    var x :| IsQuotient(a, g, x);
    Swap3(x, g, v);
    DividesBy(m, a * v, x);
  }

  lemma CongruenceSolved(a: int, m: int, g: int, d: int, e: int, q: int, z: int, mu: int)
    requires g == d * a + e * m && mu == q * d - z * m
    ensures a * mu - q * g == (-(q * e) - a * z) * m
  {
    Dist(a, q * d, -(z * m));
    Dist(q, d * a, e * m);
    assert a * (q * d) == q * (d * a);
    assert a * (z * m) == (a * z) * m;
    assert q * (e * m) == (q * e) * m;
    Dist(m, -(q * e), -(a * z));
    NegMul(q * e, m);
    NegMul(a * z, m);
  }

  method ThreeGcd(a: int, b: int, c: int) returns (w: int, ghost x: int, ghost y: int, ghost z: int)
    requires a > 0
    ensures w > 0 && w == x * a + y * b + z * c
    ensures Divides(w, a) && Divides(w, b) && Divides(w, c)
  {
    var (g, s, t) := GcdExt(a, b);
    var (d, p, q) := GcdExt(g, c);
    w := d;
    x, y, z := p * s, p * t, q;
    Dist(p, s * a, t * b);
    Swap3(p, s, a);
    Swap3(p, t, b);
    DividesTrans(w, g, a);
    DividesTrans(w, g, b);
  }

  /** 1 = x s + y t + z u, and h u + s c1 = t c2: what dividing by the gcd leaves. */
  ghost predicate Split(f1: Form, f2: Form, w: int, s: int, t: int, u: int, h: int, x: int, y: int, z: int) {
    && w > 0 && s > 0 && t > 0 && f1.a == w * s && f2.a == w * t
    && f1.b + f2.b == 2 * (w * u) && f2.b - f1.b == 2 * h
    && x * s + y * t + z * u == 1
    && h * u + s * f1.c == t * f2.c
  }

  lemma SplitFacts(f1: Form, f2: Form, g: int, h: int, w: int, s: int, t: int, u: int, x: int, y: int, z: int)
    requires f1.a > 0 && f2.a > 0 && f1.Disc() == f2.Disc()
    requires f1.b + f2.b == 2 * g && f2.b - f1.b == 2 * h
    requires w > 0 && f1.a == s * w && f2.a == t * w && g == u * w
    requires w == x * f1.a + y * f2.a + z * g
    ensures Split(f1, f2, w, s, t, u, h, x, y, z)
  {
    PositiveFactor(w, s);
    PositiveFactor(w, t);
    Swap3(x, s, w); Swap3(y, t, w); Swap3(z, u, w);
    Dist(w, x * s, y * t); Dist(w, x * s + y * t, z * u);
    Cancel(x * s + y * t + z * u, 1, w);
    ProductOfHalves(f2, f1, g, h);
    Swap3(h, u, w);
    Swap3(s, w, f1.c); Swap3(t, w, f2.c);
    Swap3(w, s, f1.c); Swap3(w, t, f2.c);
    Dist(w, h * u, s * f1.c);
    Cancel(h * u + s * f1.c, t * f2.c, w);
  }

  /** The first congruence is solvable. */
  lemma FirstSolvable(s: int, t: int, u: int, h: int, c1: int, c2: int, x: int, y: int, z: int, g: int)
    requires x * s + y * t + z * u == 1 && h * u + s * c1 == t * c2
    requires Divides(g, t * u) && Divides(g, s * t)
    ensures Divides(g, h * u + s * c1)
  {
    var r := t * c2;
    assert r == r * (x * s + y * t + z * u);
    Dist(r, x * s, y * t); Dist(r, x * s + y * t, z * u);
    assert r * (x * s) == (s * t) * (x * c2) by { Reassoc(t, c2, x, s); }
    assert r * (z * u) == (t * u) * (z * c2) by { Reassoc(t, c2, z, u); }
    assert (h * u + s * c1) * (y * t) == (t * u) * (y * h) + (s * t) * (y * c1) by {
      Dist(y * t, h * u, s * c1);
      Swap4(h, u, y, t);
      Swap4(s, c1, y, t);
      Swap4(t, u, y, h);
      Swap4(s, t, y, c1);
    }
    DividesMul(g, s * t, x * c2);
    DividesMul(g, t * u, z * c2);
    DividesMul(g, t * u, y * h);
    DividesMul(g, s * t, y * c1);
    DividesSum(g, (s * t) * (x * c2), (t * u) * (z * c2));
    DividesSum(g, (t * u) * (y * h), (s * t) * (y * c1));
    DividesSum(g, (s * t) * (x * c2) + (t * u) * (z * c2), (t * u) * (y * h) + (s * t) * (y * c1));
  }

  lemma Reassoc(t: int, c: int, x: int, s: int)
    ensures (t * c) * (x * s) == (s * t) * (x * c) == (t * s) * (x * c)
  {}

  /** A solution of the first congruence makes the second one solvable. */
  lemma SecondSolvable(s: int, t: int, u: int, h: int, c1: int, c2: int, x: int, y: int, z: int,
                       k0: int, v: int, g: int, d: int, e: int, w: int)
    requires s > 0 && t > 0 && x * s + y * t + z * u == 1 && h * u + s * c1 == t * c2
    requires g == d * (t * u) + e * (s * t) && Divides(g, t * u) && Divides(g, s * t)
    requires Divides(s * t, (t * u) * k0 - (h * u + s * c1)) && v * g == s * t
    requires Divides(w, t * v) && Divides(w, s)
    ensures Divides(w, h - t * k0)
  {
    // g = t g', s = v g', u = u' g' and 1 = d u' + e v
    var g' := d * u + e * s;
    assert g == t * g' by { GcdTimes(d, e, t, u, s); }
    assert s == v * g' by { Swap3(v, g', t); Cancel(s, v * g', t); }
    var u' :| IsQuotient(t * u, g, u');
    assert u == u' * g' by { Swap3(u', g', t); Cancel(u, u' * g', t); }
    assert g' != 0;
    CoprimeQuotients(u, s, g', d, e, u', v);
    // u X = s Y for X = t k0 - h
    var j :| IsQuotient((t * u) * k0 - (h * u + s * c1), s * t, j);
    var X, Y := t * k0 - h, c1 + t * j;
    assert u * X == s * Y by { SecondCalc(s, t, u, h, c1, c2, k0, j); }
    assert u' * X == v * Y by {
      Swap3(u', g', X); Swap3(v, g', Y);
      Cancel(u' * X, v * Y, g');
    }
    assert X == (d * Y + e * X) * v by { CombineX(d, u', e, v, X, Y); }
    // w divides v
    assert v == s * (x * v + z * u') + (t * v) * y by { VFromUnit(x, s, y, t, z, u, u', v, g'); }
    DividesMul(w, s, x * v + z * u');
    DividesMul(w, t * v, y);
    DividesSum(w, s * (x * v + z * u'), (t * v) * y);
    DividesMul(w, v, d * Y + e * X);
    DividesMul(w, X, -1);
  }

  lemma GcdTimes(d: int, e: int, t: int, u: int, s: int)
    ensures d * (t * u) + e * (s * t) == t * (d * u + e * s)
  {}

  lemma SecondCalc(s: int, t: int, u: int, h: int, c1: int, c2: int, k0: int, j: int)
    requires (t * u) * k0 - (h * u + s * c1) == j * (s * t)
    ensures u * (t * k0 - h) == s * (c1 + t * j)
  {
    Dist(u, t * k0, -h);
    Dist(s, c1, t * j);
    assert u * (t * k0) == (t * u) * k0;
    assert s * (t * j) == j * (s * t);
  }

  lemma CombineX(d: int, u: int, e: int, v: int, X: int, Y: int)
    requires d * u + e * v == 1 && u * X == v * Y
    ensures X == (d * Y + e * X) * v
  {
    Dist(X, d * u, e * v);
    Dist(v, d * Y, e * X);
    assert (d * u) * X == d * (u * X);
    assert d * (v * Y) == (d * Y) * v;
    assert (e * v) * X == (e * X) * v;
  }

  lemma VFromUnit(x: int, s: int, y: int, t: int, z: int, u: int, u': int, v: int, g: int)
    requires x * s + y * t + z * u == 1 && s == v * g && u == u' * g
    ensures v == s * (x * v + z * u') + (t * v) * y
  {
    Dist(s, x * v, z * u');
    assert v * (x * s + y * t + z * u) == v;
    Dist(v, x * s, y * t); Dist(v, x * s + y * t, z * u);
    assert s * (x * v) == v * (x * s);
    assert s * (z * u') == (v * g) * (z * u') == v * (z * (u' * g)) by { Reassoc(v, g, z, u'); Swap3(z, u', g); }
    assert v * (y * t) == (t * v) * y;
  }

  /** The quotients l and m of the final step are exact, and (w k l m / 0 s t u) carries f1 and f2. */
  lemma MultiplyCube(f1: Form, f2: Form, w: int, s: int, t: int, u: int, h: int, x: int, y: int, z: int,
                     k: int, l: int, m: int)
    requires f1.Disc() == f2.Disc() && Split(f1, f2, w, s, t, u, h, x, y, z)
    requires t * k - h == l * s && t * u * k - h * u - s * f1.c == m * (s * t)
    ensures Composes(f1, f2, Form(s * t, w * u - (k * t + l * s), k * l - w * m))
  {
    var c := Cube(Mat(w, k, l, m), Mat(0, s, t, u));
    assert (k * u - m * s) * t == f2.c * t by {
      assert (k * u - m * s) * t == t * u * k - m * (s * t) by { MultiplyTerms(k, u, m, s, t); }
    }
    Cancel(k * u - m * s, f2.c, t);
    assert Second(c) == f2;
    FirstSecondDisc(c);
    ProductPositive(w, s);
    LastCoefficient(First(c), f1);
    ComposesBy(c);
  }

  lemma MultiplyTerms(k: int, u: int, m: int, s: int, t: int)
    ensures (k * u - m * s) * t == t * u * k - m * (s * t)
  {}

  /** `multiply`: both congruences are solvable, every division is exact, and the result is the
    * reduced composite. */
  method Multiply(f1: Form, f2: Form) returns (f3: Form)
    requires f1.PositiveDefinite() && f2.PositiveDefinite() && f1.Disc() == f2.Disc()
    ensures Composes(f1, f2, f3) && f3.IsReduced() && f3.PositiveDefinite() && f3.Disc() == f1.Disc()
  {
    SameParity(f2, f1);
    var g := FloorDiv(f2.b + f1.b, 2);
    var h := FloorDiv(f2.b - f1.b, 2);
    var w;
    ghost var x, y, z;
    w, x, y, z := ThreeGcd(f1.a, f2.a, g);
    var j := w;
    var s, t, u := DivExact(f1.a, w), DivExact(f2.a, w), DivExact(g, w);
    SplitFacts(f1, f2, g, h, w, s, t, u, x, y, z);
    var k, l, m := SolveForCube(f1, f2, w, s, t, u, h, x, y, z);
    MultiplyCube(f1, f2, w, s, t, u, h, x, y, z, k, l, m);
    f3 := Form(s * t, j * u - (k * t + l * s), k * l - j * m);
    var raw := f3;
    ProductPositive(s, t);
    OneDiscriminant(f1, f2, raw);
    f3 := Reduce(raw);
    ComposesResult(f1, f2, raw, f3);
    EquivalentDisc(raw, f3);
  }

  /** The unknowns of `multiply`, from its two linear congruences. */
  method SolveForCube(f1: Form, ghost f2: Form, ghost w: int, s: int, t: int, u: int, h: int,
                      ghost x: int, ghost y: int, ghost z: int) returns (k: int, l: int, m: int)
    requires Split(f1, f2, w, s, t, u, h, x, y, z)
    ensures t * k - h == l * s && t * u * k - h * u - s * f1.c == m * (s * t)
  {
    ghost var G := GcdExt(t * u, s * t);
    ProductPositive(s, t);
    FirstSolvable(s, t, u, h, f1.c, f2.c, x, y, z, G.0);
    var kTemp, v := SolveLinearCongruence(t * u, h * u + s * f1.c, s * t);
    SecondSolvable(s, t, u, h, f1.c, f2.c, x, y, z, kTemp, v, G.0, G.1, G.2, GcdExt(t * v, s).0);
    var n, v2 := SolveLinearCongruence(t * v, h - t * kTemp, s);
    k := kTemp + v * n;
    ShiftedSolution(s, t, u, h, f1.c, kTemp, v, n);
    l := DivExact(t * k - h, s);
    m := DivExact(t * u * k - h * u - s * f1.c, s * t);
  }

  lemma ShiftedSolution(s: int, t: int, u: int, h: int, c1: int, k0: int, v: int, n: int)
    requires Divides(s, (t * v) * n - (h - t * k0))
    requires Divides(s * t, (t * u) * k0 - (h * u + s * c1)) && Divides(s * t, (t * u) * v)
    ensures Divides(s, t * (k0 + v * n) - h)
    ensures Divides(s * t, t * u * (k0 + v * n) - h * u - s * c1)
  {
    Dist(t, k0, v * n);
    Swap3(t, v, n);
    Dist(t * u, k0, v * n);
    Swap3(t * u, v, n);
    DividesMul(s * t, (t * u) * v, n);
    DividesSum(s * t, (t * u) * k0 - (h * u + s * c1), ((t * u) * v) * n);
  }
}
