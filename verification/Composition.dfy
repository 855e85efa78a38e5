/** Gauss composition through 2x2x2 cubes of integers. A cube has three associated forms of one
  * discriminant; h is a composite of f and g when a cube carries f, g and h. The source's
  * `multiply`, `square`, `qfb_nucomp`, `qfb_nudupl` and phased squaring all build such a cube;
  * the class of a composite is fixed by the classes of the factors, so they all agree. */
module Composition {
  import opened Integers
  import opened QuadraticForms

  /** Rows (p0 p1 / p2 p3) and (q0 q1 / q2 q3). */
  datatype Cube = Cube(p: Mat, q: Mat)

  function Mixed(a: Mat, b: Mat): int { a.p * b.s + a.s * b.p - a.q * b.r - a.r * b.q }

  /** det(x a + y b) as a form in x and y. */
  function DetForm(a: Mat, b: Mat): Form { Form(a.Det(), Mixed(a, b), b.Det()) }

  // The slices of a cube by its first, second and third index.
  function Row0(k: Cube): Mat { Mat(k.p.p, k.p.q, k.q.p, k.q.q) }
  function Row1(k: Cube): Mat { Mat(k.p.r, k.p.s, k.q.r, k.q.s) }
  function Col0(k: Cube): Mat { Mat(k.p.p, k.p.r, k.q.p, k.q.r) }
  function Col1(k: Cube): Mat { Mat(k.p.q, k.p.s, k.q.q, k.q.s) }

  function First(k: Cube): Form { DetForm(Row0(k), Row1(k)) }
  function Second(k: Cube): Form { DetForm(Col0(k), Col1(k)) }
  function Third(k: Cube): Form { Form(-k.q.Det(), Mixed(k.p, k.q), -k.p.Det()) }

  predicate Carries(k: Cube, f: Form, g: Form, h: Form) {
    First(k) == f && Second(k) == g && Third(k) == h
  }

  /** h is a composite of f and g. */
  ghost predicate Composes(f: Form, g: Form, h: Form) { exists k :: Carries(k, f, g, h) }

  lemma ComposesBy(k: Cube)
    ensures Composes(First(k), Second(k), Third(k))
  {
    assert Carries(k, First(k), Second(k), Third(k));
  }

  // ---- what a cube says: f(x, y) * g(z, w) = h(X, Y) with X and Y bilinear ----

  function Bilinear(m: Mat, x: int, y: int, z: int, w: int): int {
    x * (m.p * z + m.q * w) + y * (m.r * z + m.s * w)
  }

  /** The identity that gives composition its name. */
  lemma GaussIdentity(k: Cube, x: int, y: int, z: int, w: int)
    ensures First(k).At(x, y) * Second(k).At(z, w)
         == Third(k).At(Bilinear(k.p, x, y, z, w), Bilinear(k.q, x, y, z, w))
  {
    var u, v := Bilinear(k.p, x, y, z, w), Bilinear(k.q, x, y, z, w);
    var m := k.q.Scale(u).Plus(k.p.Scale(-v));
    ThirdIsDet(k, u, v);
    LeftImage(k, x, y, z, w);
    RightImage(k, x, y, z, w);
    var d1, d2 := First(k).At(x, y), Second(k).At(z, w);
    if x != 0 {
      DetFromImages(m, x, y, z, w, d1, d2);
    } else if y != 0 {
      DetFromImagesY(m, x, y, z, w, d1, d2);
    } else {
      assert u == 0 && v == 0;
    }
  }

  lemma ThirdIsDet(k: Cube, u: int, v: int)
    ensures Third(k).At(u, v) == -k.q.Scale(u).Plus(k.p.Scale(-v)).Det()
  {
    DetCombo(k.q, k.p, u, -v);
    ThirdIsDetCalc(k.q.Det(), Mixed(k.p, k.q), k.p.Det(), u, v);
  }

  lemma ThirdIsDetCalc(a: int, b: int, c: int, u: int, v: int)
    ensures (-a) * u * u + b * u * v + (-c) * v * v == -(a * u * u + b * u * (-v) + c * (-v) * (-v))
  {}

  /** det(x a + y b) is the form DetForm(a, b) at (x, y). */
  lemma DetCombo(a: Mat, b: Mat, x: int, y: int)
    ensures a.Scale(x).Plus(b.Scale(y)).Det() == DetForm(a, b).At(x, y)
    ensures Mixed(a, b) == Mixed(b, a)
  {
    Foil(x * a.p, y * b.p, x * a.s, y * b.s);
    Foil(x * a.q, y * b.q, x * a.r, y * b.r);
    DetComboTerms(a, b, x, y);
  }

  lemma DetComboTerms(a: Mat, b: Mat, x: int, y: int)
    ensures (x * a.p) * (x * a.s) - (x * a.q) * (x * a.r) == a.Det() * x * x
    ensures (y * b.p) * (y * b.s) - (y * b.q) * (y * b.r) == b.Det() * y * y
    ensures (x * a.p) * (y * b.s) - (x * a.q) * (y * b.r) + ((y * b.p) * (x * a.s) - (y * b.q) * (x * a.r))
         == Mixed(a, b) * x * y
  {
    ScaledMinor(x, x, a.p, a.s, a.q, a.r);
    ScaledMinor(y, y, b.p, b.s, b.q, b.r);
    ScaledMinor(x, y, a.p, b.s, a.q, b.r);
    ScaledMinor(y, x, b.p, a.s, b.q, a.r);
    AddScaled(x, y, a.p * b.s - a.q * b.r, b.p * a.s - b.q * a.r);
  }

  lemma ScaledMinor(x: int, y: int, a: int, b: int, c: int, d: int)
    ensures (x * a) * (y * b) - (x * c) * (y * d) == (a * b - c * d) * x * y
  {
    Swap4(x, a, y, b);
    Swap4(x, c, y, d);
    FactorPairs(x * y, a * b, c * d);
    Swap3(a * b - c * d, x, y);
  }

  lemma FactorPairs(z: int, s: int, t: int)
    ensures z * s - z * t == (s - t) * z
  {}

  lemma AddScaled(x: int, y: int, s: int, t: int)
    ensures s * x * y + t * y * x == (s + t) * x * y
  {}

  /** (x y) (u Q - v P) = f(x, y) * (-w z). */
  lemma LeftImage(k: Cube, x: int, y: int, z: int, w: int)
    ensures var u, v := Bilinear(k.p, x, y, z, w), Bilinear(k.q, x, y, z, w);
            var m := k.q.Scale(u).Plus(k.p.Scale(-v));
            var d := First(k).At(x, y);
            x * m.p + y * m.r == -(d * w) && x * m.q + y * m.s == d * z
  {
    var a0, a1 := x * k.p.p + y * k.p.r, x * k.p.q + y * k.p.s;
    var b0, b1 := x * k.q.p + y * k.q.r, x * k.q.q + y * k.q.s;
    DetCombo(Row0(k), Row1(k), x, y);
    BilinearByRows(k.p, x, y, z, w);
    BilinearByRows(k.q, x, y, z, w);
    var u, v := Bilinear(k.p, x, y, z, w), Bilinear(k.q, x, y, z, w);
    Swirl(a0, a1, b0, b1, z, w);
    Collect(x, y, u, v, k.q.p, k.q.r, k.p.p, k.p.r);
    Collect(x, y, u, v, k.q.q, k.q.s, k.p.q, k.p.s);
  }

  lemma BilinearByRows(m: Mat, x: int, y: int, z: int, w: int)
    ensures Bilinear(m, x, y, z, w) == (x * m.p + y * m.r) * z + (x * m.q + y * m.s) * w
  {}

  lemma BilinearByCols(m: Mat, x: int, y: int, z: int, w: int)
    ensures Bilinear(m, x, y, z, w) == (z * m.p + w * m.q) * x + (z * m.r + w * m.s) * y
  {}

  lemma Collect(x: int, y: int, u: int, v: int, q0: int, q1: int, p0: int, p1: int)
    ensures x * (u * q0 + (-v) * p0) + y * (u * q1 + (-v) * p1) == u * (x * q0 + y * q1) - v * (x * p0 + y * p1)
  {}

  lemma Swirl(a0: int, a1: int, b0: int, b1: int, z: int, w: int)
    ensures var d := a0 * b1 - a1 * b0;
            var u, v := a0 * z + a1 * w, b0 * z + b1 * w;
            u * b0 - v * a0 == -(d * w) && u * b1 - v * a1 == d * z
  {}

  /** (u Q - v P) (z w) = g(z, w) * (-y x). */
  lemma RightImage(k: Cube, x: int, y: int, z: int, w: int)
    ensures var u, v := Bilinear(k.p, x, y, z, w), Bilinear(k.q, x, y, z, w);
            var m := k.q.Scale(u).Plus(k.p.Scale(-v));
            var d := Second(k).At(z, w);
            z * m.p + w * m.q == -(d * y) && z * m.r + w * m.s == d * x
  {
    var a0, a1 := z * k.p.p + w * k.p.q, z * k.p.r + w * k.p.s;
    var b0, b1 := z * k.q.p + w * k.q.q, z * k.q.r + w * k.q.s;
    DetCombo(Col0(k), Col1(k), z, w);
    BilinearByCols(k.p, x, y, z, w);
    BilinearByCols(k.q, x, y, z, w);
    var u, v := Bilinear(k.p, x, y, z, w), Bilinear(k.q, x, y, z, w);
    Swirl(a0, a1, b0, b1, x, y);
    Collect(z, w, u, v, k.q.p, k.q.q, k.p.p, k.p.q);
    Collect(z, w, u, v, k.q.r, k.q.s, k.p.r, k.p.s);
  }

  lemma DetFromImages(m: Mat, x: int, y: int, z: int, w: int, d1: int, d2: int)
    requires x * m.p + y * m.r == -(d1 * w) && x * m.q + y * m.s == d1 * z
    requires z * m.r + w * m.s == d2 * x
    requires x != 0
    ensures m.Det() == -(d1 * d2)
  {
    CrossRows(x, y, m.p, m.r, m.q, m.s);
    CommonImage(d1, d2, w, m.s, z, m.r, x);
    Cancel(m.Det(), -(d1 * d2), x);
  }

  lemma CommonImage(d1: int, d2: int, w: int, s: int, z: int, r: int, x: int)
    requires z * r + w * s == d2 * x
    ensures (-(d1 * w)) * s - (d1 * z) * r == (-(d1 * d2)) * x
  {
    ImageFactor(d1, w, s, z, r);
    Swap3(d1, d2, x);
    NegMul(d1 * d2, x);
  }

  lemma ImageFactor(d: int, w: int, s: int, z: int, r: int)
    ensures (-(d * w)) * s - (d * z) * r == -(d * (z * r + w * s))
  {}

  lemma DetFromImagesY(m: Mat, x: int, y: int, z: int, w: int, d1: int, d2: int)
    requires x * m.p + y * m.r == -(d1 * w) && x * m.q + y * m.s == d1 * z
    requires z * m.p + w * m.q == -(d2 * y)
    requires y != 0
    ensures m.Det() == -(d1 * d2)
  {
    CrossRows(y, x, m.r, m.p, m.s, m.q);
    CommonImage(d1, -d2, w, m.q, z, m.p, y);
    NegMul(d2, y);
    NegMul(d1, d2);
    NegMul(m.Det(), y);
    NegMul(d1 * d2, y);
    Cancel(m.Det(), -(d1 * d2), y);
  }

  lemma CrossRows(x: int, y: int, p: int, r: int, q: int, s: int)
    ensures (p * s - q * r) * x == (x * p + y * r) * s - (x * q + y * s) * r
  {}

  // ---- changing the basis of one factor ----

  lemma Polarize(a: Mat, b: Mat)
    ensures Mixed(a, b) == a.Plus(b).Det() - a.Det() - b.Det()
  {
    Foil(a.p, b.p, a.s, b.s);
    Foil(a.q, b.q, a.r, b.r);
  }

  lemma DistribMul(a: Mat, b: Mat, m: Mat)
    ensures a.Plus(b).Mul(m) == a.Mul(m).Plus(b.Mul(m))
    ensures m.Mul(a.Plus(b)) == m.Mul(a).Plus(m.Mul(b))
  {
    GatherPair(a.p, b.p, m.p, a.q, b.q, m.r);
    GatherPair(a.p, b.p, m.q, a.q, b.q, m.s);
    GatherPair(a.r, b.r, m.p, a.s, b.s, m.r);
    GatherPair(a.r, b.r, m.q, a.s, b.s, m.s);
    GatherPair(a.p, b.p, m.p, a.r, b.r, m.q);
    GatherPair(a.q, b.q, m.p, a.s, b.s, m.q);
    GatherPair(a.p, b.p, m.r, a.r, b.r, m.s);
    GatherPair(a.q, b.q, m.r, a.s, b.s, m.s);
  }

  /** Multiplying both slices by a matrix of determinant 1 keeps their form. */
  lemma DetFormMul(a: Mat, b: Mat, m: Mat)
    requires m.Det() == 1
    ensures DetForm(a.Mul(m), b.Mul(m)) == DetForm(a, b) == DetForm(m.Mul(a), m.Mul(b))
  {
    Polarize(a, b);
    Polarize(a.Mul(m), b.Mul(m));
    Polarize(m.Mul(a), m.Mul(b));
    DistribMul(a, b, m);
    DetMul(a, m); DetMul(b, m); DetMul(a.Plus(b), m);
    DetMul(m, a); DetMul(m, b); DetMul(m, a.Plus(b));
  }

  /** Recombining the two slices acts on their form. */
  lemma DetFormAct(a: Mat, b: Mat, m: Mat)
    ensures DetForm(a.Scale(m.p).Plus(b.Scale(m.r)), a.Scale(m.q).Plus(b.Scale(m.s))) == Act(DetForm(a, b), m)
  {
    var u, v := a.Scale(m.p).Plus(b.Scale(m.r)), a.Scale(m.q).Plus(b.Scale(m.s));
    DetCombo(a, b, m.p, m.r);
    DetCombo(a, b, m.q, m.s);
    DetCombo(a, b, m.p + m.q, m.r + m.s);
    Polarize(u, v);
    PlusOfCombos(a, b, m);
    AtPolar(DetForm(a, b), m);
  }

  lemma PlusOfCombos(a: Mat, b: Mat, m: Mat)
    ensures a.Scale(m.p).Plus(b.Scale(m.r)).Plus(a.Scale(m.q).Plus(b.Scale(m.s)))
         == a.Scale(m.p + m.q).Plus(b.Scale(m.r + m.s))
  {
    GatherPair(m.p, m.q, a.p, m.r, m.s, b.p);
    GatherPair(m.p, m.q, a.q, m.r, m.s, b.q);
    GatherPair(m.p, m.q, a.r, m.r, m.s, b.r);
    GatherPair(m.p, m.q, a.s, m.r, m.s, b.s);
  }

  lemma AtPolar(f: Form, m: Mat)
    ensures Act(f, m).b == f.At(m.p + m.q, m.r + m.s) - f.At(m.p, m.r) - f.At(m.q, m.s)
  {
    Foil(m.p, m.q, m.p, m.q);
    Foil(m.r, m.s, m.r, m.s);
    Foil(m.p, m.q, m.r, m.s);
    AtPolarTerms(f.a, m.p + m.q, m.p + m.q);
    AtPolarTerms(f.b, m.p + m.q, m.r + m.s);
    AtPolarTerms(f.c, m.r + m.s, m.r + m.s);
    AtPolarSum(f, m);
  }

  lemma AtPolarTerms(a: int, x: int, y: int)
    ensures a * x * y == a * (x * y)
  {}

  lemma AtPolarSum(f: Form, m: Mat)
    ensures Act(f, m).b + f.At(m.p, m.r) + f.At(m.q, m.s)
         == f.a * (m.p * m.p + m.p * m.q + m.q * m.p + m.q * m.q)
          + f.b * (m.p * m.r + m.p * m.s + m.q * m.r + m.q * m.s)
          + f.c * (m.r * m.r + m.r * m.s + m.s * m.r + m.s * m.s)
  {
    PolarOuter(f.a, m.p, m.q);
    PolarMiddle(f.b, m.p, m.q, m.r, m.s);
    PolarOuter(f.c, m.r, m.s);
  }

  lemma PolarOuter(a: int, p: int, q: int)
    ensures 2 * a * p * q + a * p * p + a * q * q == a * (p * p + p * q + q * p + q * q)
  {}

  lemma PolarMiddle(b: int, p: int, q: int, r: int, s: int)
    ensures b * (p * s + q * r) + b * p * r + b * q * s == b * (p * r + p * s + q * r + q * s)
  {}

  lemma ActFirst(k: Cube, m: Mat)
    requires m.Det() == 1
    ensures Composes(Act(First(k), m), Second(k), Third(k))
  {
    var t := m.Transpose();
    var n := Cube(t.Mul(k.p), t.Mul(k.q));
    SlicesOfFirst(k, m);
    DetFormAct(Row0(k), Row1(k), m);
    DetFormMul(Col0(k), Col1(k), m);
    DetFormMul(k.p, k.q, t);
    ComposesBy(n);
  }

  lemma SlicesOfFirst(k: Cube, m: Mat)
    ensures var n := Cube(m.Transpose().Mul(k.p), m.Transpose().Mul(k.q));
            && Row0(n) == Row0(k).Scale(m.p).Plus(Row1(k).Scale(m.r))
            && Row1(n) == Row0(k).Scale(m.q).Plus(Row1(k).Scale(m.s))
            && Col0(n) == Col0(k).Mul(m) && Col1(n) == Col1(k).Mul(m)
  {
    EntriesOfProduct(k.p, m);
    EntriesOfProduct(k.q, m);
  }

  lemma EntriesOfProduct(x: Mat, m: Mat)
    ensures m.Transpose().Mul(x) == Mat(x.p * m.p + x.r * m.r, x.q * m.p + x.s * m.r, x.p * m.q + x.r * m.s, x.q * m.q + x.s * m.s)
  {}

  /** Composition does not depend on the order of the factors. */
  lemma ComposesCommutes(f: Form, g: Form, h: Form)
    requires Composes(f, g, h)
    ensures Composes(g, f, h)
  {
    var k :| Carries(k, f, g, h);
    var n := Cube(k.p.Transpose(), k.q.Transpose());
    assert Carries(n, g, f, h);
  }

  /** The cube whose p and q are recombined by the rows of the adjugate of m. */
  function Recombine(k: Cube, m: Mat): Cube {
    Cube(k.p.Scale(m.s).Plus(k.q.Scale(-m.q)), k.p.Scale(-m.r).Plus(k.q.Scale(m.p)))
  }

  lemma ActThird(k: Cube, m: Mat)
    requires m.Det() == 1
    ensures First(Recombine(k, m)) == First(k) && Second(Recombine(k, m)) == Second(k)
    ensures Third(Recombine(k, m)) == Act(Third(k), m)
  {
    var n := Recombine(k, m);
    var t := m.Adj();
    AdjMul(m);
    assert Row0(n) == t.Mul(Row0(k)) && Row1(n) == t.Mul(Row1(k));
    assert Col0(n) == t.Mul(Col0(k)) && Col1(n) == t.Mul(Col1(k));
    DetFormMul(Row0(k), Row1(k), t);
    DetFormMul(Col0(k), Col1(k), t);
    DetFormAct(k.p, k.q, Mat(m.s, -m.r, -m.q, m.p));
    ThirdOfDetForm(DetForm(k.p, k.q), m);
  }

  lemma ThirdOfDetForm(f: Form, m: Mat)
    ensures var d := Act(f, Mat(m.s, -m.r, -m.q, m.p));
            Form(-d.c, d.b, -d.a) == Act(Form(-f.c, f.b, -f.a), m)
  {
    OuterCoefficient(f.a, f.b, f.c, m.p, m.r);
    OuterCoefficient(f.c, f.b, f.a, m.s, m.q);
    MiddleCoefficient(f.a, f.b, f.c, m.p, m.q, m.r, m.s);
  }

  lemma OuterCoefficient(a: int, b: int, c: int, p: int, r: int)
    ensures a * -r * -r + b * -r * p + c * p * p == -(-c * p * p + b * p * r + -a * r * r)
    ensures c * p * p + b * p * -r + a * -r * -r == -(-a * r * r + b * r * p + -c * p * p)
  {}

  lemma MiddleCoefficient(a: int, b: int, c: int, p: int, q: int, r: int, s: int)
    ensures 2 * a * s * -r + b * (s * p + -r * -q) + 2 * c * -q * p == 2 * -c * p * q + b * (p * s + q * r) + 2 * -a * r * s
  {}

  /** Equivalent factors have the same composites. */
  lemma ComposesFactors(f: Form, g: Form, h: Form, f': Form, g': Form)
    requires Composes(f, g, h) && Equivalent(f, f') && Equivalent(g, g')
    ensures Composes(f', g', h)
  {
    var k :| Carries(k, f, g, h);
    var m :| Via(f, m, f');
    ActFirst(k, m);
    ComposesCommutes(f', g, h);
    var k' :| Carries(k', g, f', h);
    var n :| Via(g, n, g');
    ActFirst(k', n);
    ComposesCommutes(g', f', h);
  }

  /** Every form equivalent to a composite is a composite. */
  lemma ComposesResult(f: Form, g: Form, h: Form, h': Form)
    requires Composes(f, g, h) && Equivalent(h, h')
    ensures Composes(f, g, h')
  {
    var k :| Carries(k, f, g, h);
    var m :| Via(h, m, h');
    ActThird(k, m);
    ComposesBy(Recombine(k, m));
  }

  // ---- one discriminant ----

  lemma Plucker(p0: int, p1: int, p2: int, p3: int, q0: int, q1: int, q2: int, q3: int)
    ensures (p0 * q1 - p1 * q0) * (p2 * q3 - p3 * q2) - (p0 * q2 - p2 * q0) * (p1 * q3 - p3 * q1)
          + (p0 * q3 - p3 * q0) * (p1 * q2 - p2 * q1) == 0
  {}

  lemma FirstSecondDisc(k: Cube)
    ensures First(k).Disc() == Second(k).Disc()
  {
    var p, q := k.p, k.q;
    Plucker(p.p, p.q, p.r, p.s, q.p, q.q, q.r, q.s);
    SumAndDifference(p.p * q.s - p.s * q.p, p.q * q.r - p.r * q.q);
  }

  lemma SumAndDifference(x: int, y: int)
    ensures (x + y) * (x + y) - (x - y) * (x - y) == 4 * (x * y)
  {}

  /** The three forms of a cube have the same discriminant. */
  lemma OneDiscriminant(f: Form, g: Form, h: Form)
    requires Composes(f, g, h)
    ensures f.Disc() == g.Disc() == h.Disc()
  {
    var k :| Carries(k, f, g, h);
    var turned := Cube(Row0(k), Row1(k));
    assert Second(turned) == g;
    assert First(turned) == DetForm(k.p, k.q);
    FirstSecondDisc(k);
    FirstSecondDisc(turned);
    assert (-k.q.Det()) * (-k.p.Det()) == k.p.Det() * k.q.Det();
  }

  // ---- the class of a composite is unique ----

  predicate Bezout3(f: Form, x: int, y: int, z: int) { x * f.a + y * f.b + z * f.c == 1 }

  /** The coefficients have no common factor. */
  ghost predicate Primitive(f: Form) { exists x, y, z :: Bezout3(f, x, y, z) }

  function Minor(v: (int, int), w: (int, int)): int { v.0 * w.1 - w.0 * v.1 }

  /** Column i of (p q). */
  function Column(k: Cube, i: nat): (int, int) {
    if i == 0 then (k.p.p, k.q.p) else if i == 1 then (k.p.q, k.q.q)
    else if i == 2 then (k.p.r, k.q.r) else (k.p.s, k.q.s)
  }

  lemma SameMinors(k: Cube, n: Cube, i: nat, j: nat)
    requires First(k) == First(n) && Second(k) == Second(n) && i < 4 && j < 4
    ensures Minor(Column(k, i), Column(k, j)) == Minor(Column(n, i), Column(n, j))
  {}

  /** With equal minors, u times the minor of v and w is a combination of the other pair. */
  lemma Dependent(u: (int, int), v: (int, int), w: (int, int), u': (int, int), v': (int, int), w': (int, int))
    requires Minor(u, v) == Minor(u', v') && Minor(u, w) == Minor(u', w') && Minor(v, w) == Minor(v', w')
    ensures u'.0 * Minor(v, w) == u.0 * (v'.0 * w.1 - w'.0 * v.1) - u.1 * (v'.0 * w.0 - w'.0 * v.0)
    ensures u'.1 * Minor(v, w) == u.0 * (v'.1 * w.1 - w'.1 * v.1) - u.1 * (v'.1 * w.0 - w'.1 * v.0)
  {
    ThreeColumns(u', v', w');
    Spread(v'.0, w'.0, u, v, w);
    Spread(v'.1, w'.1, u, v, w);
  }

  lemma ThreeColumns(u: (int, int), v: (int, int), w: (int, int))
    ensures u.0 * Minor(v, w) == v.0 * Minor(u, w) - w.0 * Minor(u, v)
    ensures u.1 * Minor(v, w) == v.1 * Minor(u, w) - w.1 * Minor(u, v)
  {}

  lemma Spread(x: int, y: int, u: (int, int), v: (int, int), w: (int, int))
    ensures x * Minor(u, w) - y * Minor(u, v) == u.0 * (x * w.1 - y * v.1) - u.1 * (x * w.0 - y * v.0)
  {}

  /** x m01 + y (m03 - m12) + z m23 for a quantity m indexed by pairs of columns. */
  function Weigh(x: int, y: int, z: int, m01: int, m03: int, m12: int, m23: int): int {
    x * m01 + y * (m03 - m12) + z * m23
  }

  lemma WeighLinear(x: int, y: int, z: int, t: int, u0: int, u1: int,
                    m01: int, m03: int, m12: int, m23: int,
                    a01: int, a03: int, a12: int, a23: int,
                    b01: int, b03: int, b12: int, b23: int)
    requires t * m01 == u0 * a01 - u1 * b01 && t * m03 == u0 * a03 - u1 * b03
    requires t * m12 == u0 * a12 - u1 * b12 && t * m23 == u0 * a23 - u1 * b23
    ensures t * Weigh(x, y, z, m01, m03, m12, m23)
         == u0 * Weigh(x, y, z, a01, a03, a12, a23) - u1 * Weigh(x, y, z, b01, b03, b12, b23)
  {
    WeighScale(x, y, z, t, m01, m03, m12, m23);
    WeighScale(x, y, z, u0, a01, a03, a12, a23);
    WeighScale(x, y, z, u1, b01, b03, b12, b23);
    WeighMinus(x, y, z, u0 * a01, u0 * a03, u0 * a12, u0 * a23, u1 * b01, u1 * b03, u1 * b12, u1 * b23);
  }

  lemma WeighScale(x: int, y: int, z: int, t: int, m01: int, m03: int, m12: int, m23: int)
    ensures t * Weigh(x, y, z, m01, m03, m12, m23) == Weigh(x, y, z, t * m01, t * m03, t * m12, t * m23)
  {
    Swap3(x, m01, t); Swap3(y, m03 - m12, t); Swap3(z, m23, t);
    Dist(t, m03, -m12);
  }

  lemma WeighMinus(x: int, y: int, z: int, a01: int, a03: int, a12: int, a23: int,
                   b01: int, b03: int, b12: int, b23: int)
    ensures Weigh(x, y, z, a01 - b01, a03 - b03, a12 - b12, a23 - b23)
         == Weigh(x, y, z, a01, a03, a12, a23) - Weigh(x, y, z, b01, b03, b12, b23)
  {}

  /** s * w - t * v, the cross term of one entry of two columns of n with an entry of two columns of k. */
  function Cross(s: int, t: int, v: int, w: int): int { s * w - t * v }

  function WeighCross(b: Mat, a: Mat, x: int, y: int, z: int): int {
    Weigh(x, y, z, Cross(b.p, b.q, a.p, a.q), Cross(b.p, b.s, a.p, a.s), Cross(b.q, b.r, a.q, a.r), Cross(b.r, b.s, a.r, a.s))
  }

  function WeighMinors(k: Cube, x: int, y: int, z: int): int { WeighCross(k.p, k.q, x, y, z) }

  lemma WeighMinorsIsBezout(k: Cube, x: int, y: int, z: int)
    requires Bezout3(First(k), x, y, z)
    ensures WeighMinors(k, x, y, z) == 1
  {}

  /** The entry t of column u' is the combination of the entries of u given by the weighed crosses of
    * its matrix b with q and with p. */
  lemma EntryCombination(k: Cube, n: Cube, x: int, y: int, z: int, i: nat)
    requires First(k) == First(n) && Second(k) == Second(n) && i < 4
    requires Bezout3(First(k), x, y, z)
    ensures Column(n, i).0 == Column(k, i).0 * WeighCross(n.p, k.q, x, y, z) - Column(k, i).1 * WeighCross(n.p, k.p, x, y, z)
    ensures Column(n, i).1 == Column(k, i).0 * WeighCross(n.q, k.q, x, y, z) - Column(k, i).1 * WeighCross(n.q, k.p, x, y, z)
  {
    EntryPair(k, n, i, 0, 1);
    EntryPair(k, n, i, 0, 3);
    EntryPair(k, n, i, 1, 2);
    EntryPair(k, n, i, 2, 3);
    WeighMinorsIsBezout(k, x, y, z);
    EntryWeighed(k, n.p, x, y, z, Column(n, i).0, Column(k, i).0, Column(k, i).1);
    EntryWeighed(k, n.q, x, y, z, Column(n, i).1, Column(k, i).0, Column(k, i).1);
  }

  lemma EntryPair(k: Cube, n: Cube, i: nat, j: nat, l: nat)
    requires First(k) == First(n) && Second(k) == Second(n) && i < 4 && j < 4 && l < 4
    ensures var u, v, w, u', v', w' := Column(k, i), Column(k, j), Column(k, l), Column(n, i), Column(n, j), Column(n, l);
      && u'.0 * Cross(v.0, w.0, v.1, w.1) == u.0 * Cross(v'.0, w'.0, v.1, w.1) - u.1 * Cross(v'.0, w'.0, v.0, w.0)
      && u'.1 * Cross(v.0, w.0, v.1, w.1) == u.0 * Cross(v'.1, w'.1, v.1, w.1) - u.1 * Cross(v'.1, w'.1, v.0, w.0)
  {
    SameMinors(k, n, i, j);
    SameMinors(k, n, i, l);
    SameMinors(k, n, j, l);
    Dependent(Column(k, i), Column(k, j), Column(k, l), Column(n, i), Column(n, j), Column(n, l));
  }

  lemma EntryWeighed(k: Cube, b: Mat, x: int, y: int, z: int, t: int, u0: int, u1: int)
    requires t * Cross(k.p.p, k.p.q, k.q.p, k.q.q) == u0 * Cross(b.p, b.q, k.q.p, k.q.q) - u1 * Cross(b.p, b.q, k.p.p, k.p.q)
    requires t * Cross(k.p.p, k.p.s, k.q.p, k.q.s) == u0 * Cross(b.p, b.s, k.q.p, k.q.s) - u1 * Cross(b.p, b.s, k.p.p, k.p.s)
    requires t * Cross(k.p.q, k.p.r, k.q.q, k.q.r) == u0 * Cross(b.q, b.r, k.q.q, k.q.r) - u1 * Cross(b.q, b.r, k.p.q, k.p.r)
    requires t * Cross(k.p.r, k.p.s, k.q.r, k.q.s) == u0 * Cross(b.r, b.s, k.q.r, k.q.s) - u1 * Cross(b.r, b.s, k.p.r, k.p.s)
    ensures t * WeighMinors(k, x, y, z) == u0 * WeighCross(b, k.q, x, y, z) - u1 * WeighCross(b, k.p, x, y, z)
  {
    WeighLinear(x, y, z, t, u0, u1,
                Cross(k.p.p, k.p.q, k.q.p, k.q.q), Cross(k.p.p, k.p.s, k.q.p, k.q.s),
                Cross(k.p.q, k.p.r, k.q.q, k.q.r), Cross(k.p.r, k.p.s, k.q.r, k.q.s),
                Cross(b.p, b.q, k.q.p, k.q.q), Cross(b.p, b.s, k.q.p, k.q.s),
                Cross(b.q, b.r, k.q.q, k.q.r), Cross(b.r, b.s, k.q.r, k.q.s),
                Cross(b.p, b.q, k.p.p, k.p.q), Cross(b.p, b.s, k.p.p, k.p.s),
                Cross(b.q, b.r, k.p.q, k.p.r), Cross(b.r, b.s, k.p.r, k.p.s));
  }

  /** Two cubes with the same first form (a primitive one) and the same second form differ by a
    * recombination of determinant 1. */
  lemma CubesDifferByMatrix(k: Cube, n: Cube) returns (m: Mat)
    requires First(k) == First(n) && Second(k) == Second(n) && Primitive(First(k))
    ensures m.Det() == 1 && n == Recombine(k, m)
  {
    var x, y, z :| Bezout3(First(k), x, y, z);
    m := Mat(-WeighCross(n.q, k.p, x, y, z), WeighCross(n.p, k.p, x, y, z),
             -WeighCross(n.q, k.q, x, y, z), WeighCross(n.p, k.q, x, y, z));
    EntryCombination(k, n, x, y, z, 0);
    EntryCombination(k, n, x, y, z, 1);
    EntryCombination(k, n, x, y, z, 2);
    EntryCombination(k, n, x, y, z, 3);
    assert RecombinesColumn(k, n, m, 0) && RecombinesColumn(k, n, m, 1);
    assert RecombinesColumn(k, n, m, 2) && RecombinesColumn(k, n, m, 3);
    RecombineEntries(k, n, m);
    RecombineMinors(k, m);
    UnitScale(First(k), First(n), m.Det(), x, y, z);
  }

  lemma RecombineEntries(k: Cube, n: Cube, m: Mat)
    requires RecombinesColumn(k, n, m, 0) && RecombinesColumn(k, n, m, 1)
    requires RecombinesColumn(k, n, m, 2) && RecombinesColumn(k, n, m, 3)
    ensures n == Recombine(k, m)
  {
    RecombineEntry(k.p.p, k.q.p, m); RecombineEntry(k.p.q, k.q.q, m);
    RecombineEntry(k.p.r, k.q.r, m); RecombineEntry(k.p.s, k.q.s, m);
  }

  predicate RecombinesColumn(k: Cube, n: Cube, m: Mat, i: nat) {
    && Column(n, i).0 == Column(k, i).0 * m.s - Column(k, i).1 * m.q
    && Column(n, i).1 == Column(k, i).0 * (-m.r) - Column(k, i).1 * (-m.p)
  }

  lemma RecombineEntry(p: int, q: int, m: Mat)
    ensures p * m.s - q * m.q == m.s * p + (-m.q) * q
    ensures p * (-m.r) - q * (-m.p) == (-m.r) * p + m.p * q
  {}

  lemma RecombineMinors(k: Cube, m: Mat)
    ensures First(Recombine(k, m)) == Form(m.Det() * First(k).a, m.Det() * First(k).b, m.Det() * First(k).c)
  {
    var n := Recombine(k, m);
    var t := m.Adj();
    AdjMul(m);
    assert Row0(n) == t.Mul(Row0(k)) && Row1(n) == t.Mul(Row1(k));
    DetMul(t, Row0(k)); DetMul(t, Row1(k)); DetMul(t, Row0(k).Plus(Row1(k)));
    DistribMul(Row0(k), Row1(k), t);
    Polarize(Row0(k), Row1(k));
    Polarize(Row0(n), Row1(n));
  }

  lemma UnitScale(f: Form, g: Form, d: int, x: int, y: int, z: int)
    requires Bezout3(f, x, y, z) && f == g == Form(d * f.a, d * f.b, d * f.c)
    ensures d == 1
  {
    assert x * (d * f.a) + y * (d * f.b) + z * (d * f.c) == d * (x * f.a + y * f.b + z * f.c);
  }

  /** Composition is an operation on classes: equivalent factors, one of them primitive, have
    * equivalent composites. */
  lemma CompositeUnique(f: Form, g: Form, h: Form, f': Form, g': Form, h': Form)
    requires Composes(f, g, h) && Composes(f', g', h')
    requires Equivalent(f, f') && Equivalent(g, g') && Primitive(f')
    ensures Equivalent(h, h')
  {
    ComposesFactors(f, g, h, f', g');
    var k :| Carries(k, f', g', h);
    var n :| Carries(n, f', g', h');
    var m := CubesDifferByMatrix(k, n);
    ActThird(k, m);
    EquivalentBy(h, m, h');
  }
}
