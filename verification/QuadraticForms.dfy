/** Binary quadratic forms a*x^2 + b*x*y + c*y^2 (the source's `form`), the action of
  * integer matrices on them, and proper equivalence. Identities are proved through
  * 2-by-2 matrices, so that no single step has a high degree. */
module QuadraticForms {
  import opened Integers

  datatype Mat = Mat(p: int, q: int, r: int, s: int) {
    function Det(): int { p * s - q * r }

    function Mul(o: Mat): Mat {
      Mat(p * o.p + q * o.r, p * o.q + q * o.s, r * o.p + s * o.r, r * o.q + s * o.s)
    }

    function Plus(o: Mat): Mat { Mat(p + o.p, q + o.q, r + o.r, s + o.s) }

    function Scale(x: int): Mat { Mat(x * p, x * q, x * r, x * s) }

    function Adj(): Mat { Mat(s, -q, -r, p) }

    function Transpose(): Mat { Mat(p, r, q, s) }
  }

  const ID := Mat(1, 0, 0, 1)

  lemma DetMul(m: Mat, n: Mat)
    ensures m.Mul(n).Det() == m.Det() * n.Det()
  {}

  lemma MulAssoc(a: Mat, b: Mat, c: Mat)
    ensures a.Mul(b).Mul(c) == a.Mul(b.Mul(c))
  {
    Regroup(a.p, b.p, a.q, b.r, c.p, b.q, b.s, c.r);
    Regroup(a.p, b.p, a.q, b.r, c.q, b.q, b.s, c.s);
    Regroup(a.r, b.p, a.s, b.r, c.p, b.q, b.s, c.r);
    Regroup(a.r, b.p, a.s, b.r, c.q, b.q, b.s, c.s);
  }

  lemma TransposeMul(a: Mat, b: Mat)
    ensures a.Mul(b).Transpose() == b.Transpose().Mul(a.Transpose())
  {}

  lemma AdjMul(m: Mat)
    ensures m.Mul(m.Adj()) == Mat(m.Det(), 0, 0, m.Det()) == m.Adj().Mul(m)
    ensures m.Adj().Det() == m.Det()
  {}

  datatype Form = Form(a: int, b: int, c: int) {
    function Disc(): int { b * b - 4 * a * c }

    function At(x: int, y: int): int { a * x * x + b * x * y + c * y * y }

    predicate PositiveDefinite() { a > 0 && Disc() < 0 }

    /** -a < b <= a <= c, and b >= 0 when a = c. */
    predicate IsReduced() { -a < b <= a <= c && (a == c ==> b >= 0) }

    function Gram(): Mat { Mat(2 * a, b, b, 2 * c) }
  }

  lemma GramInjective(f: Form, g: Form)
    requires f.Gram() == g.Gram()
    ensures f == g
  {}

  lemma PositiveC(f: Form)
    requires f.PositiveDefinite()
    ensures f.c > 0
  {
    if f.c <= 0 {
      NonPositive(f.a, f.c);
      SquareNonNegative(f.b);
    }
  }

  lemma NonPositive(a: int, c: int)
    requires a > 0 && c <= 0
    ensures 4 * a * c <= 0
  {}

  lemma SquareNonNegative(b: int)
    ensures b * b >= 0
  {}

  /** f(p x + q y, r x + s y). */
  function Act(f: Form, m: Mat): Form {
    Form(f.At(m.p, m.r),
         2 * f.a * m.p * m.q + f.b * (m.p * m.s + m.q * m.r) + 2 * f.c * m.r * m.s,
         f.At(m.q, m.s))
  }

  lemma GramAct(f: Form, m: Mat)
    ensures Act(f, m).Gram() == m.Transpose().Mul(f.Gram()).Mul(m)
  {
    GramEntry(f.a, f.b, f.c, m.p, m.r, m.p, m.r);
    GramEntry(f.a, f.b, f.c, m.p, m.r, m.q, m.s);
    GramEntry(f.a, f.b, f.c, m.q, m.s, m.p, m.r);
    GramEntry(f.a, f.b, f.c, m.q, m.s, m.q, m.s);
    GramDiagonal(f.a, f.b, f.c, m.p, m.r);
    GramDiagonal(f.a, f.b, f.c, m.q, m.s);
    GramSymmetric(f.a, f.b, f.c, m.p, m.r, m.q, m.s);
  }

  lemma GramEntry(a: int, b: int, c: int, x: int, y: int, z: int, w: int)
    ensures (x * (2 * a) + y * b) * z + (x * b + y * (2 * c)) * w == 2 * a * x * z + b * (x * w + y * z) + 2 * c * y * w
  {}

  lemma GramDiagonal(a: int, b: int, c: int, x: int, y: int)
    ensures 2 * a * x * x + b * (x * y + y * x) + 2 * c * y * y == 2 * (a * x * x + b * x * y + c * y * y)
  {}

  lemma GramSymmetric(a: int, b: int, c: int, x: int, y: int, z: int, w: int)
    ensures 2 * a * x * z + b * (x * w + y * z) + 2 * c * y * w == 2 * a * x * z + b * (x * w + z * y) + 2 * c * y * w
    ensures 2 * a * z * x + b * (z * y + w * x) + 2 * c * w * y == 2 * a * x * z + b * (x * w + z * y) + 2 * c * y * w
  {}

  lemma ActMul(f: Form, m: Mat, n: Mat)
    ensures Act(Act(f, m), n) == Act(f, m.Mul(n))
  {
    var g := f.Gram();
    var mt, nt := m.Transpose(), n.Transpose();
    GramAct(f, m);
    GramAct(Act(f, m), n);
    GramAct(f, m.Mul(n));
    TransposeMul(m, n);
    calc {
      nt.Mul(mt.Mul(g).Mul(m)).Mul(n);
      { MulAssoc(nt, mt.Mul(g), m); MulAssoc(nt, mt, g); }
      nt.Mul(mt).Mul(g).Mul(m).Mul(n);
      { MulAssoc(nt.Mul(mt).Mul(g), m, n); }
      nt.Mul(mt).Mul(g).Mul(m.Mul(n));
    }
    GramInjective(Act(Act(f, m), n), Act(f, m.Mul(n)));
  }

  lemma ActId(f: Form)
    ensures Act(f, ID) == f
  {}

  /** A substitution multiplies the discriminant by the square of its determinant. */
  lemma ActDisc(f: Form, m: Mat)
    ensures Act(f, m).Disc() == f.Disc() * (m.Det() * m.Det())
  {
    var g := Act(f, m);
    GramDet(f);
    GramDet(g);
    GramAct(f, m);
    DetMul(m.Transpose().Mul(f.Gram()), m);
    DetMul(m.Transpose(), f.Gram());
    ActDiscCalc(m.Det(), f.Disc());
  }

  lemma ActDiscCalc(d: int, disc: int)
    ensures d * (-disc) * d == -(disc * (d * d))
  {}

  lemma GramDet(f: Form)
    ensures f.Gram().Det() == -f.Disc()
  {}

  // ---- proper equivalence ----

  predicate Via(f: Form, m: Mat, g: Form) { m.Det() == 1 && Act(f, m) == g }

  /** Some substitution of determinant 1 takes f to g: they are in the same class. */
  ghost predicate Equivalent(f: Form, g: Form) { exists m :: Via(f, m, g) }

  lemma EquivalentBy(f: Form, m: Mat, g: Form)
    requires m.Det() == 1 && Act(f, m) == g
    ensures Equivalent(f, g)
  {
    assert Via(f, m, g);
  }

  lemma EquivalentRefl(f: Form)
    ensures Equivalent(f, f)
  {
    ActId(f);
    EquivalentBy(f, ID, f);
  }

  lemma EquivalentSym(f: Form, g: Form)
    requires Equivalent(f, g)
    ensures Equivalent(g, f)
  {
    var m :| Via(f, m, g);
    AdjMul(m);
    ActMul(f, m, m.Adj());
    ActId(f);
    EquivalentBy(g, m.Adj(), f);
  }

  lemma EquivalentTrans(f: Form, g: Form, h: Form)
    requires Equivalent(f, g) && Equivalent(g, h)
    ensures Equivalent(f, h)
  {
    var m :| Via(f, m, g);
    var n :| Via(g, n, h);
    ActMul(f, m, n);
    DetMul(m, n);
    EquivalentBy(f, m.Mul(n), h);
  }

  lemma EquivalentDisc(f: Form, g: Form)
    requires Equivalent(f, g)
    ensures f.Disc() == g.Disc()
  {
    var m :| Via(f, m, g);
    ActDisc(f, m);
  }

  /** x -> x + n y keeps a and moves b by 2an. */
  lemma Translate(f: Form, n: int, b: int, c: int)
    requires b == f.b + 2 * f.a * n
    requires c == f.a * n * n + f.b * n + f.c
    ensures Equivalent(f, Form(f.a, b, c))
  {
    EquivalentBy(f, Mat(1, n, 0, 1), Form(f.a, b, c));
  }

  lemma LastCoefficient(f: Form, g: Form)
    requires f.a == g.a != 0 && f.b == g.b && f.Disc() == g.Disc()
    ensures f == g
  {
    Cancel(f.c, g.c, 4 * f.a);
  }

  /** Equivalent forms of a positive definite form are positive definite:
    * 4a * f(x, y) = (2ax + by)^2 - disc * y^2. */
  lemma EquivalentPositive(f: Form, g: Form)
    requires Equivalent(f, g) && f.PositiveDefinite()
    ensures g.PositiveDefinite()
  {
    EquivalentDisc(f, g);
    var m :| Via(f, m, g);
    Positive(f, m.p, m.r);
  }

  lemma Positive(f: Form, x: int, y: int)
    requires f.PositiveDefinite() && !(x == 0 && y == 0)
    ensures f.At(x, y) > 0
  {
    CompleteSquare(f, x, y);
    var z := 2 * f.a * x + f.b * y;
    SquareNonNegative(z);
    if y != 0 {
      SquarePositive(y);
      ProductPositive(-f.Disc(), y * y);
    } else {
      SquarePositive(z);
    }
    PositiveFactor(4 * f.a, f.At(x, y));
  }

  lemma CompleteSquare(f: Form, x: int, y: int)
    ensures 4 * f.a * f.At(x, y)
         == (2 * f.a * x + f.b * y) * (2 * f.a * x + f.b * y) + (-f.Disc()) * (y * y)
  {
    var u, v := 2 * f.a * x, f.b * y;
    Foil(u, v, u, v);
    CompleteSquareTerms(f, x, y);
  }

  lemma CompleteSquareTerms(f: Form, x: int, y: int)
    ensures 4 * f.a * f.At(x, y)
         == (2 * f.a * x) * (2 * f.a * x) + 2 * ((2 * f.a * x) * (f.b * y)) + 4 * f.a * f.c * (y * y)
    ensures (f.b * y) * (f.b * y) + (-f.Disc()) * (y * y) == 4 * f.a * f.c * (y * y)
  {}

  lemma SquarePositive(y: int)
    requires y != 0
    ensures y * y > 0
  {}

  lemma ProductPositive(x: int, y: int)
    requires x > 0 && y > 0
    ensures x * y > 0
  {}

  lemma PositiveFactor(x: int, y: int)
    requires x > 0 && x * y > 0
    ensures y > 0
  {
    if y <= 0 {
      NonPositive(x, y);
    }
  }

  // ---- middle coefficients of forms of one discriminant ----

  /** Two numbers whose difference is even have halves that add up. */
  predicate Halves(f: Form, g: Form, ss: int, m: int) {
    f.b + g.b == 2 * ss && f.b - g.b == 2 * m
  }

  lemma SameParity(f: Form, g: Form)
    requires f.Disc() == g.Disc()
    ensures Halves(f, g, (f.b + g.b) / 2, (f.b - g.b) / 2)
  {
    var x := EvenGap(f.b);
    var y := EvenGap(g.b);
    Swap3(4, f.a, f.c);
    Swap3(4, g.a, g.c);
    HalvesOfSum(f.b, g.b, x, y, f.a * f.c - g.a * g.c);
  }

  lemma HalvesOfSum(b: int, b': int, x: int, y: int, z: int)
    requires (b + 2 * x) - (b' + 2 * y) == 4 * z
    ensures b + b' == 2 * ((b + b') / 2) && b - b' == 2 * ((b - b') / 2)
  {}

  /** b^2 - b is even. */
  lemma EvenGap(b: int) returns (x: int)
    ensures b * b == b + 2 * x
  {
    var h := b / 2;
    if b == 2 * h {
      x := h * (b - 1);
      assert b * b - b == b * (b - 1);
      Swap3(2, h, b - 1);
    } else {
      x := b * h;
      assert b * b - b == b * (b - 1);
      Swap3(b, 2, h);
    }
  }

  lemma ProductOfHalves(f: Form, g: Form, ss: int, m: int)
    requires f.Disc() == g.Disc() && Halves(f, g, ss, m)
    ensures m * ss + g.a * g.c == f.a * f.c
  {
    assert f.b == ss + m && g.b == ss - m;
    Foil(ss, m, ss, m);
    Foil(ss, -m, ss, -m);
  }
}
