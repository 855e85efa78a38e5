/** NUCOMP and NUDUPL (src/nucomp.h). Both build a cube carrying the two factors, recombine its
  * p and q rows by the cofactors of the partial extended gcd, and read off a composite. */
module Nucomp {
  import opened Integers
  import opened ExtendedGcd
  import opened QuadraticForms
  import opened Composition
  import opened PartialXgcd

  // ---- the starting cube ----

  /** p = (s, -k, l, n) and q = (0, a1, a2, u). */
  function BaseCube(s: int, k: int, l: int, n: int, a1: int, a2: int, u: int): Cube {
    Cube(Mat(s, -k, l, n), Mat(0, a1, a2, u))
  }

  lemma BaseCarries(f: Form, g: Form, s: int, k: int, l: int, n: int, a1: int, a2: int, u: int, m: int)
    requires f.Disc() == g.Disc() && f.a != 0 && f.a == s * a1 && g.a == s * a2
    requires Halves(f, g, s * u, m)
    requires l * a1 == m - k * a2 && n * a1 == -(k * u + g.c)
    ensures var c := BaseCube(s, k, l, n, a1, a2, u);
            First(c) == f && Second(c) == g
            && Third(c).a == a1 * a2 && Third(c).b == g.b + 2 * (k * a2)
            && Third(c).Disc() == f.Disc()
  {
    var c := BaseCube(s, k, l, n, a1, a2, u);
    NegMul(k, u);
    NegMul(k, a2);
    FirstSecondDisc(c);
    LastCoefficient(First(c), f);
    ComposesBy(c);
    OneDiscriminant(First(c), Second(c), Third(c));
  }

  /** The two divisions that give l and n are exact. */
  lemma BaseExact(a1: int, a2: int, c1: int, c2: int, m: int, ss: int,
                  s: int, v1: int, y: int, v2: int, u2: int, sp: int, n1: int, n2: int, k: int,
                  x1: int, x2: int, u: int) returns (l: int, n: int)
    requires a1 == s * x1 && a2 == s * x2 && ss == s * u && s != 0
    requires m * ss + a2 * c2 == a1 * c1
    requires sp == v1 * a2 + y * a1
    requires s == v2 * ss + u2 * sp
    requires k == (m * v1 + n1 * a1) * u2 - v2 * c2 + n2 * x1
    ensures l * x1 == m - k * x2
    ensures n * x1 == -(k * u + c2)
  {
    // s m - k a2 is a multiple of a1
    l := v2 * c1 - n1 * u2 * a2 + m * u2 * y - n2 * x2;
    ExactL(a1, a2, c1, c2, m, ss, s, v1, y, v2, u2, sp, n1, n2, k, x1, x2);
    assert (m - k * x2) * s == (l * x1) * s by {
      Swap3(k, x2, s);
      Swap3(l, x1, s);
    }
    Cancel(m - k * x2, l * x1, s);
    // k ss + s c2 is a multiple of a1
    var z := u2 * (v1 * c1 + y * c2) + n1 * u2 * ss + n2 * u;
    ExactN(a1, a2, c1, c2, m, ss, s, v1, y, v2, u2, sp, n1, n2, k, x1, u);
    assert (k * u + c2) * s == (z * x1) * s by {
      Swap3(k, u, s);
      Swap3(z, x1, s);
    }
    Cancel(k * u + c2, z * x1, s);
    n := -z;
    NegMul(z, x1);
  }

  lemma ExactL(a1: int, a2: int, c1: int, c2: int, m: int, ss: int,
               s: int, v1: int, y: int, v2: int, u2: int, sp: int, n1: int, n2: int, k: int, x1: int, x2: int)
    requires a1 == s * x1 && a2 == s * x2
    requires m * ss + a2 * c2 == a1 * c1
    requires sp == v1 * a2 + y * a1
    requires s == v2 * ss + u2 * sp
    requires k == (m * v1 + n1 * a1) * u2 - v2 * c2 + n2 * x1
    ensures m * s - k * a2 == (v2 * c1 - n1 * u2 * a2 + m * u2 * y - n2 * x2) * a1
  {
    calc {
      k * a2;
      { KTimes(m * v1, n1 * a1, u2, v2 * c2, n2 * x1, a2); }
      (m * v1) * u2 * a2 + (n1 * a1) * u2 * a2 - v2 * c2 * a2 + n2 * x1 * a2;
      { Reorder(m, v1, u2, a2);
        Reorder(n1, a1, u2, a2);
        CrossMultiples(n2, x1, x2, s); }
      (m * u2) * (sp - y * a1) + (n1 * u2 * a2) * a1 - v2 * c2 * a2 + (n2 * x2) * a1;
      { Dist(m * u2, sp, -(y * a1));
        Swap3(m * u2, y, a1);
        Swap3(m, u2, sp);
        Dist(m, s, -(v2 * ss)); }
      m * s - m * (v2 * ss) - (m * u2 * y) * a1 + (n1 * u2 * a2) * a1 - v2 * c2 * a2 + (n2 * x2) * a1;
      { Dist(v2, m * ss, a2 * c2);
        PullFront(v2, m, ss);
        PullFront(v2, c2, a2);
        Swap3(v2, a1, c1); }
      m * s - (v2 * c1) * a1 - (m * u2 * y) * a1 + (n1 * u2 * a2) * a1 + (n2 * x2) * a1;
    }
    FourTerms(v2 * c1, -(n1 * u2 * a2), m * u2 * y, -(n2 * x2), a1);
  }

  lemma Reorder(m: int, v: int, u: int, a: int)
    ensures (m * v) * u * a == (m * u) * (v * a) == (m * u * a) * v
  {}

  lemma PullFront(v: int, m: int, s: int)
    ensures m * (v * s) == v * (m * s) == v * m * s == v * (s * m)
  {}

  lemma KTimes(x: int, y: int, u: int, v: int, w: int, z: int)
    ensures ((x + y) * u - v + w) * z == x * u * z + y * u * z - v * z + w * z
  {
    Dist(u, x, y);
    FourTerms(x * u, y * u, -v, w, z);
  }

  lemma FourTerms(x: int, y: int, v: int, w: int, z: int)
    ensures (x + y + v + w) * z == x * z + y * z + v * z + w * z
  {}

  lemma CrossMultiples(n: int, x1: int, x2: int, s: int)
    ensures n * x1 * (s * x2) == (n * x2) * (s * x1)
  {}

  lemma ExactN(a1: int, a2: int, c1: int, c2: int, m: int, ss: int,
               s: int, v1: int, y: int, v2: int, u2: int, sp: int, n1: int, n2: int, k: int, x1: int, u: int)
    requires a1 == s * x1 && ss == s * u
    requires m * ss + a2 * c2 == a1 * c1
    requires sp == v1 * a2 + y * a1
    requires s == v2 * ss + u2 * sp
    requires k == (m * v1 + n1 * a1) * u2 - v2 * c2 + n2 * x1
    ensures k * ss + c2 * s == (u2 * (v1 * c1 + y * c2) + n1 * u2 * ss + n2 * u) * a1
  {
    calc {
      k * ss;
      { KTimes(m * v1, n1 * a1, u2, v2 * c2, n2 * x1, ss); }
      (m * v1) * u2 * ss + (n1 * a1) * u2 * ss - v2 * c2 * ss + n2 * x1 * ss;
      { Reorder(m, v1, u2, ss);
        Reorder(n1, a1, u2, ss);
        PullFront(m, u2, v1 * ss);
        PullFront(v1, m, ss);
        CrossMultiples(n2, x1, u, s); }
      u2 * (v1 * (m * ss)) + (n1 * u2 * ss) * a1 - v2 * c2 * ss + (n2 * u) * a1;
    }
    assert c2 * s == c2 * (v2 * ss) + c2 * (u2 * sp) by { Dist(c2, v2 * ss, u2 * sp); }
    assert c2 * (v2 * ss) == v2 * c2 * ss;
    InnerN(a1, a2, c1, c2, m, ss, v1, y, sp);
    assert u2 * (v1 * (m * ss)) + c2 * (u2 * sp) == u2 * (v1 * (m * ss) + c2 * sp) by {
      Dist(u2, v1 * (m * ss), c2 * sp);
      Swap3(c2, u2, sp);
    }
    Swap3(u2, v1 * c1 + y * c2, a1);
    FourTerms(u2 * (v1 * c1 + y * c2), n1 * u2 * ss, n2 * u, 0, a1);
  }

  lemma InnerN(a1: int, a2: int, c1: int, c2: int, m: int, ss: int, v1: int, y: int, sp: int)
    requires m * ss + a2 * c2 == a1 * c1
    requires sp == v1 * a2 + y * a1
    ensures v1 * (m * ss) + c2 * sp == (v1 * c1 + y * c2) * a1
  {
    Dist(c2, v1 * a2, y * a1);
    assert c2 * (v1 * a2) == v1 * (a2 * c2);
    Dist(v1, m * ss, a2 * c2);
    assert v1 * (a1 * c1) == (v1 * c1) * a1;
    assert c2 * (y * a1) == (y * c2) * a1;
    Dist(a1, v1 * c1, y * c2);
  }

  // ---- recombination by the cofactors of the partial gcd ----

  /** Determinant 1 whatever the sign: the second row is negated when the cofactors have determinant -1. */
  function CofactorMat(e: Euclid, sign: int): Mat { Mat(sign * e.d1, -e.d2, -(sign * e.co1), e.co2) }

  lemma CofactorMatDet(e: Euclid, a1: int, k: int, sign: int)
    requires Inv(e, a1, k, sign)
    ensures CofactorMat(e, sign).Det() == 1
  {
    if sign == -1 {
      NegMul(e.d1, e.co2);
    }
  }

  /** The recombined cube, entry by entry: m2, m1 and n2, n1 are the combined third and fourth columns. */
  function Combined(e: Euclid, s: int, m2: int, m1: int, n2: int, n1: int, sign: int): Cube {
    Cube(Mat(e.co2 * s, e.r2, m2, n2),
         Mat(sign * (e.co1 * s), sign * e.r1, sign * m1, sign * n1))
  }

  lemma RecombineBase(e: Euclid, s: int, k: int, l: int, n: int, a1: int, a2: int, u: int, sign: int)
    requires Inv(e, a1, k, sign)
    ensures Recombine(BaseCube(s, k, l, n, a1, a2, u), CofactorMat(e, sign))
         == Combined(e, s, e.co2 * l + e.d2 * a2, e.co1 * l + e.d1 * a2,
                     e.co2 * n + e.d2 * u, e.co1 * n + e.d1 * u, sign)
  {
    NegMul(e.co2, k);
    NegMul(e.co1, k);
    SignedEntry(sign, e.co1, s, e.d1, 0);
    SignedEntry(sign, e.co1, -k, e.d1, a1);
    SignedEntry(sign, e.co1, l, e.d1, a2);
    SignedEntry(sign, e.co1, n, e.d1, u);
  }

  lemma SignedEntry(sign: int, c: int, x: int, d: int, y: int)
    ensures (sign * c) * x + (sign * d) * y == sign * (c * x + d * y)
  {
    Swap3(sign, c, x);
    Swap3(sign, d, y);
    Dist(sign, c * x, d * y);
  }

  /** What the source divides exactly by a1: m1 and s * n1. */
  lemma CombinedColumns(e: Euclid, s: int, k: int, l: int, n: int, a1: int, a2: int, u: int, m: int, c2: int, sign: int)
    requires Inv(e, a1, k, sign)
    requires l * a1 == m - k * a2 && n * a1 == -(k * u + c2)
    ensures (e.co1 * l + e.d1 * a2) * a1 == m * e.co1 + a2 * e.r1
    ensures (s * (e.co1 * n + e.d1 * u)) * a1 == (s * u) * e.r1 - (c2 * s) * e.co1
  {
    NegMul(k, a2);
    NegMul(k, u);
    ColumnTimes(e.co1, e.d1, e.r1, l, a2, a1, m, k);
    ColumnTimes(e.co1, e.d1, e.r1, n, u, a1, -c2, k);
    ScaleColumn(s, e.co1 * n + e.d1 * u, a1, -c2, e.co1, u, e.r1);
  }

  lemma ColumnTimes(co: int, d: int, r: int, l: int, a2: int, a1: int, x: int, k: int)
    requires r == d * a1 - co * k && l * a1 == x - k * a2
    ensures (co * l + d * a2) * a1 == x * co + a2 * r
  {
    Dist(a1, co * l, d * a2);
    Swap3(co, l, a1);
    Dist(co, x, -(k * a2));
    Dist(a2, d * a1, -(co * k));
    ColumnAtoms(co, d, a2, a1, k);
  }

  lemma ColumnAtoms(co: int, d: int, a2: int, a1: int, k: int)
    ensures (d * a2) * a1 == a2 * (d * a1)
    ensures co * (-(k * a2)) == a2 * (-(co * k))
  {}

  lemma ScaleColumn(s: int, c: int, a1: int, x: int, co: int, u: int, r: int)
    requires c * a1 == x * co + u * r
    ensures (s * c) * a1 == (s * u) * r - ((-x) * s) * co
  {
    Swap3(s, c, a1);
    Dist(s, x * co, u * r);
    Swap3(s, u, r);
    assert s * (x * co) == -(((-x) * s) * co);
  }

  /** The coefficients of the composite the recombined cube carries, in the source's terms:
    * ca = r1 * m1 - co1 * m2 up to sign, and cb = 2 (a2 r1 - ca co2) / co1 - b2 exactly. */
  lemma CombinedThird(e: Euclid, f: Form, g: Form, s: int, a2: int, ss: int, m: int,
                      x2: int, x1: int, n2: int, n1: int, sign: int) returns (w: int)
    requires sign == 1 || sign == -1
    requires s != 0 && g.a == s * a2 && Halves(f, g, ss, m)
    requires First(Combined(e, s, x2, x1, n2, n1, sign)) == f
    requires Second(Combined(e, s, x2, x1, n2, n1, sign)) == g
    ensures var h := Third(Combined(e, s, x2, x1, n2, n1, sign));
            && h.a == e.r1 * x1 - e.co1 * (s * n1)
            && a2 * e.r1 - sign * h.a * e.co2 == w * e.co1
            && h.b == 2 * w - g.b
  {
    var c := Combined(e, s, x2, x1, n2, n1, sign);
    var h := Third(c);
    SignSquare(sign, e.r1, x1, e.co1 * s, n1);
    Swap3(e.co1, s, n1);
    // minors of the recombined cube, cleared of the sign
    var p02 := (e.co2 * s) * x1 - x2 * (e.co1 * s);
    var p03 := (e.co2 * s) * n1 - n2 * (e.co1 * s);
    var p12 := e.r2 * x1 - x2 * e.r1;
    SignMinor(sign, e.co2 * s, x1, x2, e.co1 * s);
    SignMinor(sign, e.co2 * s, n1, n2, e.co1 * s);
    SignMinor(sign, e.r2, x1, x2, e.r1);
    assert sign * p02 == g.a && sign * p03 == ss && sign * p12 == -m;
    ClearS(e.co2, e.co1, s, x1, x2, a2, sign);
    w := sign * (e.co2 * (s * n1) - x2 * e.r1);
    LeadingIdentity(e, s, a2, x2, x1, n1, sign, h.a);
    MiddleSum(sign, (e.co2 * s) * n1, n2 * (e.co1 * s), e.r2 * x1, x2 * e.r1);
    MixedSigned(sign, e.co2 * s, n1, n2, e.co1 * s, e.r2, x1, x2, e.r1);
    Swap3(e.co2, s, n1);
  }

  lemma SignSquare(sign: int, r: int, x: int, c: int, n: int)
    requires sign == 1 || sign == -1
    ensures (sign * r) * (sign * x) - (sign * c) * (sign * n) == r * x - c * n
  {}

  lemma SignMinor(sign: int, a: int, x: int, y: int, b: int)
    requires sign == 1 || sign == -1
    ensures a * (sign * x) - y * (sign * b) == sign * (a * x - y * b)
  {}

  lemma ClearS(co2: int, co1: int, s: int, x1: int, x2: int, a2: int, sign: int)
    requires sign == 1 || sign == -1
    requires s != 0 && sign * ((co2 * s) * x1 - x2 * (co1 * s)) == s * a2
    ensures sign * (co2 * x1 - x2 * co1) == a2
  {
    var z := co2 * x1 - x2 * co1;
    assert (co2 * s) * x1 - x2 * (co1 * s) == z * s;
    Swap3(sign, z, s);
    Cancel(sign * z, a2, s);
  }

  lemma LeadingIdentity(e: Euclid, s: int, a2: int, x2: int, x1: int, n1: int, sign: int, a: int)
    requires sign == 1 || sign == -1
    requires a == e.r1 * x1 - e.co1 * (s * n1)
    requires sign * (e.co2 * x1 - x2 * e.co1) == a2
    ensures a2 * e.r1 - sign * a * e.co2 == (sign * (e.co2 * (s * n1) - x2 * e.r1)) * e.co1
  {
    var y := s * n1;
    LeadingCalc(e.co2, e.co1, e.r1, x2, x1, y);
    if sign == -1 {
      NegMul(a, e.co2);
      NegMul(e.co2 * x1 - x2 * e.co1, e.r1);
      NegMul(e.co2 * y - x2 * e.r1, e.co1);
    }
  }

  lemma LeadingCalc(co2: int, co1: int, r1: int, x2: int, x1: int, y: int)
    ensures (co2 * x1 - x2 * co1) * r1 - (r1 * x1 - co1 * y) * co2 == (co2 * y - x2 * r1) * co1
  {}

  lemma MiddleSum(sign: int, a: int, b: int, c: int, d: int)
    ensures sign * (a + b - c - d) == 2 * (sign * (a - d)) - sign * (a - b) - sign * (c - d)
  {}

  lemma MixedSigned(sign: int, a: int, n1: int, n2: int, b: int, r2: int, x1: int, x2: int, r1: int)
    requires sign == 1 || sign == -1
    ensures a * (sign * n1) + n2 * (sign * b) - r2 * (sign * x1) - x2 * (sign * r1)
         == sign * (a * n1 + n2 * b - r2 * x1 - x2 * r1)
  {}

  // ---- from the recombined cube to the result ----

  /** f, g and the numbers computed before the partial gcd describe a cube carrying f and g. */
  ghost predicate Started(f: Form, g: Form, s: int, k: int, l: int, n: int, a1: int, a2: int, u: int, m: int) {
    && f.PositiveDefinite() && g.PositiveDefinite() && f.Disc() == g.Disc()
    && s >= 1 && a1 >= 1 && a2 >= 1 && f.a == s * a1 && g.a == s * a2
    && Halves(f, g, s * u, m) && 0 <= k < a1
    && l * a1 == m - k * a2 && n * a1 == -(k * u + g.c)
  }

  /** The composite read off the recombined cube, with the exact quotients the source forms:
    * m1 = (m co1 + a2 r1) / a1, m2 = (ss r1 - c2 s co1) / a1 and w = (a2 r1 - ca co2) / co1. */
  lemma Composite(e: Euclid, f: Form, g: Form, s: int, k: int, l: int, n: int, a1: int, a2: int, u: int, m: int, sign: int)
    returns (h: Form, m1: int, m2: int, w: int)
    requires Started(f, g, s, k, l, n, a1, a2, u, m) && Inv(e, a1, k, sign)
    ensures Composes(f, g, h) && h.PositiveDefinite() && h.Disc() == f.Disc()
    ensures m1 * a1 == m * e.co1 + a2 * e.r1
    ensures m2 * a1 == (s * u) * e.r1 - (g.c * s) * e.co1
    ensures h.a == e.r1 * m1 - e.co1 * m2
    ensures a2 * e.r1 - sign * h.a * e.co2 == w * e.co1
    ensures h.b == 2 * w - g.b
  {
    var c := BaseCube(s, k, l, n, a1, a2, u);
    BaseCarries(f, g, s, k, l, n, a1, a2, u, m);
    ProductPositive(a1, a2);
    var mat := CofactorMat(e, sign);
    CofactorMatDet(e, a1, k, sign);
    ActThird(c, mat);
    h := Act(Third(c), mat);
    EquivalentBy(Third(c), mat, h);
    EquivalentPositive(Third(c), h);
    EquivalentDisc(Third(c), h);
    ComposesBy(Recombine(c, mat));
    RecombineBase(e, s, k, l, n, a1, a2, u, sign);
    CombinedColumns(e, s, k, l, n, a1, a2, u, m, g.c, sign);
    m1 := e.co1 * l + e.d1 * a2;
    var n1 := e.co1 * n + e.d1 * u;
    m2 := s * n1;
    w := CombinedThird(e, f, g, s, a2, s * u, m, e.co2 * l + e.d2 * a2, m1, e.co2 * n + e.d2 * u, n1, sign);
  }

  /** Reducing b modulo 2 ca and recomputing c stays in the class; both divisions are exact. ca may be -h.a. */
  lemma FinishForm(h: Form, ca: int, cb: int) returns (r: Form, cc: int)
    requires h.PositiveDefinite() && (ca == h.a || ca == -h.a)
    requires cb == FloorMod(h.b, 2 * ca)
    ensures cb * cb - h.Disc() == (4 * cc) * ca
    ensures r == Form(Abs(ca), cb, if ca < 0 then -cc else cc)
    ensures Equivalent(h, r) && r.PositiveDefinite() && r.Disc() == h.Disc()
  {
    FloorDivMod(h.b, 2 * ca);
    var q := FloorDiv(h.b, 2 * ca);
    var n := if ca < 0 then q else -q;
    assert cb == h.b + 2 * h.a * n by {
      NegMul(q, 2 * h.a);
    }
    var t := Mat(1, n, 0, 1);
    r := Act(h, t);
    EquivalentBy(h, t, r);
    EquivalentPositive(h, r);
    EquivalentDisc(h, r);
    cc := if ca < 0 then -r.c else r.c;
    TranslateEntries(h, n);
    SignedProduct(ca, h.a, r.c);
  }

  lemma TranslateEntries(h: Form, n: int)
    ensures Act(h, Mat(1, n, 0, 1)).a == h.a && Act(h, Mat(1, n, 0, 1)).b == h.b + 2 * h.a * n
  {}

  lemma SignedProduct(ca: int, a: int, c: int)
    requires ca == a || ca == -a
    ensures a == ca ==> 4 * a * c == (4 * c) * ca
    ensures a == -ca ==> 4 * a * c == (4 * (-c)) * ca
  {}

  // ---- the size of the result ----

  /** What stopping the partial gcd near L gains: the first coefficient x of the composite satisfies
    * a x L^2 <= a' L^4 + 2 a |b'| L^2 + 4 a^2 c' for the factors (a, b, c) and (a', b', c'). */
  predicate Compact(f: Form, g: Form, L: int, x: int) {
    (L * L) * (f.a * x) <= g.a * ((L * L) * (L * L)) + 2 * ((f.a * Abs(g.b)) * (L * L)) + 4 * ((f.a * f.a) * g.c)
  }

  /** In terms of g, the first coefficient is its value at the last remainder and s times the cofactor, over f.a. */
  lemma LeadingValue(f: Form, g: Form, s: int, a1: int, a2: int, ss: int, m: int, r1: int, co1: int, m1: int, m2: int, x: int)
    requires f.a == s * a1 && g.a == s * a2 && g.b == ss - m && a1 != 0
    requires m1 * a1 == m * co1 + a2 * r1 && m2 * a1 == ss * r1 - (g.c * s) * co1 && x == r1 * m1 - co1 * m2
    ensures f.a * x == g.a * (r1 * r1) - g.b * (r1 * (s * co1)) + g.c * ((s * co1) * (s * co1))
  {
    LeadingTimes(r1, co1, m1, m2, a1);
    LeadingSum(r1, co1, m, a2, ss, g.c * s);
    LeadingScale(s, a2, g.b, g.c, r1, co1);
    Swap3(s, a1, x);
  }

  lemma LeadingTimes(r1: int, co1: int, m1: int, m2: int, a1: int)
    ensures a1 * (r1 * m1 - co1 * m2) == r1 * (m1 * a1) - co1 * (m2 * a1)
  {}

  lemma LeadingSum(r1: int, co1: int, m: int, a2: int, ss: int, c: int)
    ensures r1 * (m * co1 + a2 * r1) - co1 * (ss * r1 - c * co1) == a2 * (r1 * r1) - (ss - m) * (r1 * co1) + c * (co1 * co1)
  {}

  lemma LeadingScale(s: int, a2: int, b: int, c: int, r1: int, co1: int)
    ensures s * (a2 * (r1 * r1) - b * (r1 * co1) + (c * s) * (co1 * co1))
         == (s * a2) * (r1 * r1) - b * (r1 * (s * co1)) + c * ((s * co1) * (s * co1))
  {}

  lemma CompactBy(f: Form, g: Form, L: int, r1: int, co: int, x: int)
    requires 0 <= r1 <= L && Abs(co) * L <= 2 * f.a && g.a >= 0 && g.c >= 0 && f.a >= 0
    requires f.a * x == g.a * (r1 * r1) - g.b * (r1 * co) + g.c * (co * co)
    ensures Compact(f, g, L, x)
  {
    var M, C: int, t := L * L, Abs(co), 2 * f.a;
    SquareBelow(r1, L);
    AtLeastTimes(L, r1, L);
    TermA(g.a, r1 * r1, M);
    TermB(g.b, r1, co, L, t);
    TermC(g.c, co, L, t);
    DistThree(M, g.a * (r1 * r1), g.b * (r1 * co), g.c * (co * co));
    TwiceTerms(f.a, Abs(g.b), g.c, M);
  }

  lemma SquareBelow(x: int, y: int)
    requires 0 <= x <= y
    ensures x * x <= y * y
  {
    AtLeastTimes(y, x, x);
    AtLeastTimes(y, x, y);
  }

  lemma TermA(a: int, z: int, M: int)
    requires a >= 0 && M >= 0 && z <= M
    ensures M * (a * z) <= a * (M * M)
  {
    QuotientProduct(a, M);
    AtLeastTimes(M, z, a * M);
    Swap3(M, a, z);
    Swap3(M, a, M);
  }

  lemma TermB(b: int, r1: int, co: int, L: int, t: int)
    requires 0 <= r1 <= L && Abs(co) * L <= t
    ensures (L * L) * (-(b * (r1 * co))) <= (t * Abs(b)) * (L * L)
  {
    var B: int, C: int := Abs(b), Abs(co);
    AbsProduct(b, r1 * co);
    AbsProduct(r1, co);
    SquareNonNegative(L);
    AtLeastTimes(B * (r1 * C), -(b * (r1 * co)), L * L);
    TermBSplit(B, r1, C, L);
    QuotientProduct(r1, L);
    QuotientProduct(B, r1 * L);
    AtLeastTimes(t, C * L, B * (r1 * L));
    AtLeastTimes(L, r1, L);
    QuotientProduct(C, L);
    QuotientProduct(t, B);
    AtLeastTimes(L * L, r1 * L, t * B);
    Swap3(t, B, r1 * L);
  }

  lemma TermBSplit(B: int, r1: int, C: int, L: int)
    ensures (L * L) * (B * (r1 * C)) == (C * L) * (B * (r1 * L))
  {}

  lemma TermC(c: int, co: int, L: int, t: int)
    requires c >= 0 && Abs(co) * L <= t && L >= 0
    ensures (L * L) * (c * (co * co)) <= (t * t) * c
  {
    var C: int := Abs(co);
    QuotientProduct(C, L);
    SquareBelow(C * L, t);
    AtLeastTimes(t * t, (C * L) * (C * L), c);
    TermCSplit(L, c, C);
  }

  lemma TermCSplit(L: int, c: int, C: int)
    ensures (L * L) * (c * (C * C)) == ((C * L) * (C * L)) * c
  {}

  lemma DistThree(M: int, x: int, y: int, z: int)
    ensures M * (x - y + z) == M * x + M * (-y) + M * z
  {}

  lemma TwiceTerms(a: int, b: int, c: int, M: int)
    ensures ((2 * a) * b) * M == 2 * ((a * b) * M)
    ensures ((2 * a) * (2 * a)) * c == 4 * ((a * a) * c)
  {}

  lemma CompactLarge(f: Form, g: Form, s: int, a1: int, a2: int, ss: int, m: int, r1: int, co1: int, m1: int, m2: int, x: int, L: int)
    requires f.PositiveDefinite() && g.PositiveDefinite() && s >= 1 && 0 <= r1 <= L && Abs(co1) * L < 2 * a1
    requires f.a == s * a1 && g.a == s * a2 && g.b == ss - m && a1 != 0
    requires m1 * a1 == m * co1 + a2 * r1 && m2 * a1 == ss * r1 - (g.c * s) * co1 && x == r1 * m1 - co1 * m2
    ensures Compact(f, g, L, x)
  {
    PositiveC(g);
    LeadingValue(f, g, s, a1, a2, ss, m, r1, co1, m1, m2, x);
    AbsProduct(s, co1);
    AtLeastTimes(2 * a1, Abs(co1) * L, s);
    Swap3(s, Abs(co1), L);
    Swap3(s, 2, a1);
    CompactBy(f, g, L, r1, s * co1, x);
  }

  /** The composite of the starting cube itself, when a1 < L. */
  lemma CompactSmall(f: Form, g: Form, s: int, a1: int, a2: int, L: int)
    requires f.PositiveDefinite() && g.PositiveDefinite() && f.a == s * a1 && g.a == s * a2 && 0 <= a1 < L
    ensures Compact(f, g, L, a2 * a1)
  {
    PositiveC(g);
    SquareBelow(a1, L);
    SquareNonNegative(L);
    QuotientProduct(f.a, f.a);
    QuotientProduct(f.a * f.a, g.c);
    QuotientProduct(f.a, Abs(g.b));
    QuotientProduct(f.a * Abs(g.b), L * L);
    TermA(g.a, a1 * a1, L * L);
    assert f.a * (a2 * a1) == g.a * (a1 * a1);
  }

  /** For a square: L^2 x <= (L^2 + |b|)^2 - D. */
  lemma CompactSquare(f: Form, L: int, x: int)
    requires f.a > 0 && Compact(f, f, L, x)
    ensures (L * L) * x <= (L * L + Abs(f.b)) * (L * L + Abs(f.b)) - f.Disc()
  {
    var M, B: int := L * L, Abs(f.b);
    CompactFactor(f.a, f.c, M, B, x);
    CancelBelow(f.a, M * x, M * M + 2 * (B * M) + 4 * (f.a * f.c));
    Foil(M, B, M, B);
    AbsProduct(f.b, f.b);
    Swap3(4, f.a, f.c);
  }

  lemma CompactFactor(a: int, c: int, M: int, B: int, x: int)
    ensures M * (a * x) == a * (M * x)
    ensures a * (M * M) + 2 * ((a * B) * M) + 4 * ((a * a) * c) == a * (M * M + 2 * (B * M) + 4 * (a * c))
  {}

  lemma CancelBelow(a: int, x: int, y: int)
    requires a > 0 && a * x <= a * y
    ensures x <= y
  {
    if x > y {
      AtLeastTimes(x, y + 1, a);
      Dist(a, y, 1);
    }
  }

  // ---- qfb_nucomp ----

  /** The part before the branch on a1 < L. */
  method StartNucomp(f: Form, g: Form)
    returns (a1: int, a2: int, c2: int, ss: int, m: int, k: int, ghost s: int, ghost l: int, ghost n: int, ghost u: int)
    requires f.PositiveDefinite() && g.PositiveDefinite() && f.Disc() == g.Disc()
    ensures Started(f, g, s, k, l, n, a1, a2, u, m)
    ensures ss == s * u && c2 == g.c * s
  {
    a1, a2, c2 := f.a, g.a, g.c;
    SameParity(f, g);
    ss := FloorDiv(f.b + g.b, 2);
    m := FloorDiv(f.b - g.b, 2);
    ProductOfHalves(f, g, ss, m);
    var sp, v1;
    ghost var y;
    sp, v1, y := FirstGcd(a1, a2);
    k := FloorMod(m * v1, a1);
    FloorDivMod(m * v1, a1);
    ghost var n1 := -FloorDiv(m * v1, a1);
    NegMul(FloorDiv(m * v1, a1), a1);
    if sp != 1 {
      a1, a2, c2, k, s, l, n, u := SecondGcd(f, g, a1, a2, c2, ss, m, k, sp, v1, y, n1);
    } else {
      s, u := 1, ss;
      l, n := BaseExact(a1, a2, f.c, c2, m, ss, 1, v1, y, 0, 1, 1, n1, 0, k, a1, a2, ss);
    }
  }

  /** s = gcd(ss, sp): everything is divided by it. */
  method SecondGcd(ghost f: Form, ghost g: Form, a1: int, a2: int, c2: int, ss: int, ghost m: int, k: int, sp: int,
                   ghost v1: int, ghost y: int, ghost n1: int)
    returns (b1: int, b2: int, c2': int, k': int, ghost s: int, ghost l: int, ghost n: int, ghost u: int)
    requires f.PositiveDefinite() && g.PositiveDefinite() && f.Disc() == g.Disc()
    requires a1 == f.a && a2 == g.a && c2 == g.c && Halves(f, g, ss, m) && m * ss + g.a * g.c == f.a * f.c
    requires sp == v1 * a2 + y * a1 && sp > 0 && Divides(sp, a1) && Divides(sp, a2) && k == m * v1 + n1 * a1
    ensures Started(f, g, s, k', l, n, b1, b2, u, m)
    ensures ss == s * u && c2' == g.c * s
  {
    var (s', v2, u2) := GcdExt(ss, sp);
    s := s';
    var t := v2 * c2;
    k' := k * u2 - t;
    DividesTrans(s, sp, a1);
    DividesTrans(s, sp, a2);
    b1, b2, c2' := a1, a2, c2;
    if s' != 1 {
      b1, b2 := DivExact(a1, s'), DivExact(a2, s');
      c2' := c2 * s';
    }
    u := DivExact(ss, s);
    PositiveFactor(s, b1);
    PositiveFactor(s, b2);
    ghost var k0 := k';
    k' := FloorMod(k', b1);
    FloorDivMod(k0, b1);
    ghost var n2 := -FloorDiv(k0, b1);
    NegMul(FloorDiv(k0, b1), b1);
    l, n := BaseExact(a1, a2, f.c, g.c, m, ss, s, v1, y, v2, u2, sp, n1, n2, k', b1, b2, u);
  }

  /** sp = gcd(a1, a2) with v1 a2 = sp (mod a1). */
  method FirstGcd(a1: int, a2: int) returns (sp: int, v1: int, ghost y: int)
    requires a1 > 0 && a2 > 0
    ensures sp == v1 * a2 + y * a1 && sp > 0
    ensures Divides(sp, a1) && Divides(sp, a2)
  {
    var t := FloorMod(a2, a1);
    FloorDivMod(a2, a1);
    ghost var q := FloorDiv(a2, a1);
    if t == 0 {
      v1, sp := 0, a1;
      y := 1;
      DividesBy(a1, a1, 1);
      DividesBy(a1, a2, q);
    } else {
      var (g, v, z) := GcdExt(t, a1);
      sp, v1 := g, v;
      y := z - v1 * q;
      ReplaceRemainder(v1, z, q, a1, a2, t);
      DividesMul(sp, a1, q);
      DividesSum(sp, q * a1, t);
    }
  }

  lemma ReplaceRemainder(v: int, z: int, q: int, a1: int, a2: int, t: int)
    requires a2 == q * a1 + t
    ensures v * t + z * a1 == v * a2 + (z - v * q) * a1
  {}

  /** NUCOMP: every division is exact and the result is a composite of f and g of their discriminant, with
    * a first coefficient that the partial gcd has kept small. */
  method QfbNucomp(f: Form, g: Form, D: int, L: int) returns (r: Form)
    requires f.PositiveDefinite() && g.PositiveDefinite() && f.Disc() == D == g.Disc() && L >= 0
    ensures Composes(f, g, r) && r.PositiveDefinite() && r.Disc() == D
    ensures if f.a <= g.a then Compact(f, g, L, r.a) else Compact(g, f, L, r.a)
    decreases if f.a > g.a then 1 else 0
  {
    if f.a > g.a {
      r := QfbNucomp(g, f, D, L);
      ComposesCommutes(g, f, r);
      return;
    }
    var a1, a2, c2, ss, m, k;
    ghost var s, l, n, u;
    a1, a2, c2, ss, m, k, s, l, n, u := StartNucomp(f, g);
    if a1 < L {
      r := SmallNucomp(f, g, a1, a2, c2, k, s, l, n, u, m);
      CompactSmall(f, g, s, a1, a2, L);
    } else {
      var co2, co1, r2, r1;
      ghost var steps;
      co2, co1, r2, r1, steps := XgcdRun(a1, k, L);
      ghost var sign := XgcdPartialFacts(a1, k, steps);
      ghost var e := Run(Start(a1, k), steps);
      ghost var h, m1', m2', w := Composite(e, f, g, s, k, l, n, a1, a2, u, m, sign);
      var t := a2 * r1;
      DividesBy(a1, m * co1 + t, m1');
      var m1 := DivExact(m * co1 + t, a1);
      Cancel(m1, m1', a1);
      DividesBy(a1, ss * r1 - c2 * co1, m2');
      var m2 := DivExact(ss * r1 - c2 * co1, a1);
      Cancel(m2, m2', a1);
      var ca := r1 * m1;
      ca := if co1 < 0 then ca - co1 * m2 else co1 * m2 - ca;
      SignTimes(co1, r1 * m1, co1 * m2, sign, h.a);
      Twice(w, co1);
      DividesBy(co1, 2 * (t - ca * co2), 2 * w);
      var cb := DivExact(2 * (t - ca * co2), co1);
      Cancel(cb, 2 * w, co1);
      cb := cb - g.b;
      cb := FloorMod(cb, 2 * ca);
      r := Assemble(h, ca, cb, D);
      ComposesResult(f, g, h, r);
      CompactLarge(f, g, s, a1, a2, ss, m, r1, co1, m1, m2, h.a, L);
    }
  }

  lemma SignTimes(co: int, x: int, y: int, sign: int, a: int)
    requires (sign == 1 || sign == -1) && sign == -Sgn(co) && a == x - y
    ensures sign * a == if co < 0 then x - y else y - x
    ensures sign * a == a || sign * a == -a
  {}

  lemma Twice(w: int, co: int)
    ensures 2 * (w * co) == (2 * w) * co
  {}

  /** cc = (cb^2 - D) / (4 ca), with the sign of ca moved into the form. */
  method Assemble(ghost h: Form, ca: int, cb: int, D: int) returns (r: Form)
    requires h.PositiveDefinite() && (ca == h.a || ca == -h.a) && D == h.Disc()
    requires cb == FloorMod(h.b, 2 * ca)
    ensures Equivalent(h, r) && r.PositiveDefinite() && r.Disc() == D && r.a == h.a
  {
    ghost var r', cc' := FinishForm(h, ca, cb);
    DividesBy(ca, cb * cb - D, 4 * cc');
    var cc := DivExact(cb * cb - D, ca);
    Cancel(cc, 4 * cc', ca);
    cc := FloorDiv(cc, 4);
    r := Form(ca, cb, cc);
    if ca < 0 {
      r := Form(-ca, cb, -cc);
    }
  }

  /** The branch a1 < L: the composite of the starting cube itself. */
  method SmallNucomp(ghost f: Form, g: Form, a1: int, a2: int, c2: int, k: int,
                     ghost s: int, ghost l: int, ghost n: int, ghost u: int, ghost m: int) returns (r: Form)
    requires Started(f, g, s, k, l, n, a1, a2, u, m) && c2 == g.c * s
    ensures Composes(f, g, r) && r.PositiveDefinite() && r.Disc() == f.Disc() && r.a == a2 * a1
  {
    var t := a2 * k;
    var ca := a2 * a1;
    var cb := 2 * t + g.b;
    var cc := (g.b + t) * k + c2;
    ghost var c := BaseCube(s, k, l, n, a1, a2, u);
    BaseCarries(f, g, s, k, l, n, a1, a2, u, m);
    ProductPositive(a2, a1);
    ComposesBy(c);
    SmallQuotient(s, k, l, n, a1, a2, u, m, g.b, g.c);
    DividesBy(a1, cc, Third(c).c);
    cc := DivExact(cc, a1);
    Cancel(cc, Third(c).c, a1);
    r := Form(ca, cb, cc);
  }

  lemma SmallQuotient(s: int, k: int, l: int, n: int, a1: int, a2: int, u: int, m: int, b2: int, c2: int)
    requires s * u - m == b2
    requires l * a1 == m - k * a2 && n * a1 == -(k * u + c2)
    ensures (b2 + a2 * k) * k + c2 * s == Third(BaseCube(s, k, l, n, a1, a2, u)).c * a1
  {
    var c := -(s * n - (-k) * l);
    assert Third(BaseCube(s, k, l, n, a1, a2, u)).c == c;
    Swap3(s, n, a1);
    Swap3(k, l, a1);
    assert c * a1 == -(s * (n * a1)) - k * (l * a1) by {
      Dist(a1, -(s * n), -(k * l));
      NegMul(s * n, a1);
      NegMul(k * l, a1);
      NegMul(k, l);
    }
    Dist(s, -(k * u), -c2);
    Dist(k, m, -(k * a2));
    assert s * (k * u) == (s * u) * k;
    Dist(k, b2, a2 * k);
    assert (s * u) * k - k * m == b2 * k;
    assert k * (k * a2) == k * (a2 * k);
  }

  // ---- qfb_nudupl ----

  /** mpz_tdiv_r followed by the fix-up for a negative remainder is the floor remainder. */
  function TruncModFixed(k: int, a: int): int
    requires a > 0
  {
    var r := TruncMod(k, a);
    if r < 0 then r + a else r
  }

  lemma TruncModFixedQuotient(k: int, a: int) returns (n: int)
    requires a > 0
    ensures 0 <= TruncModFixed(k, a) < a && TruncModFixed(k, a) == k + n * a
  {
    TruncModSmall(k, a);
    n := -TruncDiv(k, a) + (if TruncMod(k, a) < 0 then 1 else 0);
    NegMul(TruncDiv(k, a), a);
    Dist(a, -TruncDiv(k, a), 1);
  }

  /** The part before the branch: a1 = a / s, c1 = c s and k = -c / b (mod a1). */
  method StartNudupl(f: Form) returns (a1: int, c1: int, k: int, ghost s: int, ghost l: int, ghost n: int, ghost u: int)
    requires f.PositiveDefinite()
    ensures Started(f, f, s, k, l, n, a1, a1, u, 0)
    ensures f.b == s * u && c1 == f.c * s
  {
    a1, c1 := f.a, f.c;
    var (s', v2, w) := GcdExt(if f.b < 0 then -f.b else f.b, a1);
    DividesAbs(s', f.b);
    NegMul(v2, -f.b);
    var v := if f.b < 0 then -v2 else v2;
    s := s';
    assert s == v * f.b + w * a1;
    k := -(v * c1);
    u := DivExact(f.b, s);
    if s' != 1 {
      ExactQuotient(a1, s', DivExact(a1, s'));
      PositiveFactor(s', DivExact(a1, s'));
      a1 := FloorDiv(a1, s');
      c1 := c1 * s';
    }
    ghost var n2 := TruncModFixedQuotient(k, a1);
    k := TruncModFixed(k, a1);
    l, n := BaseExact(f.a, f.a, f.c, f.c, 0, f.b, s, 0, 1, v, w, f.a, 0, n2, k, a1, a1, u);
  }

  /** NUDUPL: every division is exact and the result is a composite of f with itself, of the
    * same discriminant, with a first coefficient that the partial gcd has kept small. */
  method QfbNudupl(f: Form, D: int, L: int) returns (r: Form)
    requires f.PositiveDefinite() && f.Disc() == D && L >= 0
    ensures Composes(f, f, r) && r.PositiveDefinite() && r.Disc() == D
    ensures (L * L) * r.a <= (L * L + Abs(f.b)) * (L * L + Abs(f.b)) - D
  {
    var a1, c1, k;
    ghost var s, l, n, u;
    a1, c1, k, s, l, n, u := StartNudupl(f);
    if a1 < L {
      var t := a1 * k;
      ghost var c := BaseCube(s, k, l, n, a1, a1, u);
      BaseCarries(f, f, s, k, l, n, a1, a1, u, 0);
      ProductPositive(a1, a1);
      ComposesBy(c);
      SmallQuotient(s, k, l, n, a1, a1, u, 0, f.b, f.c);
      ExactQuotient((f.b + t) * k + c1, a1, Third(c).c);
      r := Form(a1 * a1, 2 * t + f.b, FloorDiv((f.b + t) * k + c1, a1));
      CompactSmall(f, f, s, a1, a1, L);
      CompactSquare(f, L, r.a);
    } else {
      var co2, co1, r2, r1;
      ghost var steps;
      co2, co1, r2, r1, steps := XgcdRun(a1, k, L);
      ghost var sign := XgcdPartialFacts(a1, k, steps);
      ghost var e := Run(Start(a1, k), steps);
      ghost var h, m1', m2', w := Composite(e, f, f, s, k, l, n, a1, a1, u, 0, sign);
      CommonFactor(m1', r1, a1);
      var m2 := f.b * r1 - c1 * co1;
      DividesBy(a1, m2, m2');
      m2 := DivExact(m2, a1);
      Cancel(m2, m2', a1);
      var ra := r1 * r1 - co1 * m2;
      if co1 >= 0 {
        ra := -ra;
      }
      SignTimes(co1, r1 * r1, co1 * m2, sign, h.a);
      var cb := -(ra * co2 - a1 * r1);
      cb := 2 * cb;
      Twice(w, co1);
      DividesBy(co1, cb, 2 * w);
      cb := DivExact(cb, co1);
      Cancel(cb, 2 * w, co1);
      cb := cb - f.b;
      cb := FloorMod(cb, 2 * ra);
      r := Assemble(h, ra, cb, D);
      ComposesResult(f, f, h, r);
      CompactLarge(f, f, s, a1, a1, f.b, 0, r1, co1, m1', m2', h.a, L);
      CompactSquare(f, L, h.a);
    }
  }

  lemma CommonFactor(m1: int, r1: int, a1: int)
    requires m1 * a1 == a1 * r1 && a1 != 0
    ensures m1 == r1
  {
    Cancel(m1, r1, a1);
  }
}
