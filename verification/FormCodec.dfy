/** The compressed form codec (src/bqfc.c): a form (a, b) is kept as a / g, t / g, g = gcd(a, t) and a
  * small quotient, where t comes from the partial gcd; b is rebuilt from a square root modulo a / g
  * that is the square root of an integer. */
module FormCodec {
  import opened Options
  import opened Integers
  import opened ExtendedGcd
  import opened PartialXgcd

  // ---- mpz_sqrt, mpz_perfect_square_p ----

  function Isqrt(n: nat): (r: nat)
    ensures r * r <= n < (r + 1) * (r + 1)
  {
    if n == 0 then 0 else
      var r := Isqrt(n - 1);
      if (r + 1) * (r + 1) <= n then NextSquare(r, n); r + 1 else r
  }

  lemma NextSquare(r: nat, n: nat)
    requires n - 1 < (r + 1) * (r + 1)
    ensures n < (r + 1 + 1) * (r + 1 + 1)
  {
    Foil(r + 1, 1, r + 1, 1);
  }

  lemma IsqrtOfSquare(s: nat)
    ensures Isqrt(s * s) == s
  {
    var r := Isqrt(s * s);
    if s < r {
      StrictSquares(s, r);
    } else if r < s {
      AtLeastTimes(s, r + 1, s);
      AtLeastTimes(s, r + 1, r + 1);
    }
  }

  // ---- compression ----

  /** struct qfb_c. */
  datatype Compressed = Compressed(a: nat, t: int, g: nat, b0: nat, bSign: bool)

  function Gcd(x: int, y: int): (g: nat) { GcdExt(x, y).0 }

  /** The state in which the partial gcd of a and |b| stops. */
  function Stop(a: nat, b: int): Euclid { XgcdEnd(Start(a, Abs(b)), Isqrt(a), Abs(b)) }

  /** Forms the encoder is called with. */
  predicate Encodable(a: int, b: int) { a > 0 || (a == 0 && b == 0) }

  function Compress(a: int, b: int): Compressed
    requires Encodable(a, b)
  {
    if a == b then Compressed(a, 0, 0, 0, false)
    else
      var t := -Stop(a, b).co1;
      var g := Gcd(a, t);
      if g == 1 then Compressed(a, t, g, 0, b < 0)
      else
        PositiveQuotient(a, g);
        QuotientNonNegative(Abs(b), DivExact(a, g));
        Compressed(DivExact(a, g), DivExact(t, g), g, Abs(b) / DivExact(a, g), b < 0)
  }

  lemma PositiveQuotient(a: nat, g: int)
    requires a > 0 && g > 0 && Divides(g, a)
    ensures DivExact(a, g) > 0
  {
    var q := DivExact(a, g);
    if q <= 0 {
      AtLeastTimes(0, q, g);
    }
  }

  /** bqfc_compr. */
  method Compr(a: int, b: int) returns (c: Compressed)
    requires Encodable(a, b)
    ensures c == Compress(a, b)
  {
    if a == b {
      return Compressed(a, 0, 0, 0, false);
    }
    var sign := b < 0;
    var aSqrt := Isqrt(a);
    var _, co1, _, _ := XgcdPartial(a, if sign then -b else b, aSqrt);
    var t := -co1;
    var g := Gcd(a, t);
    if g == 1 {
      return Compressed(a, t, g, 0, sign);
    }
    PositiveQuotient(a, g);
    var a' := DivExact(a, g);
    t := DivExact(t, g);
    var b0 := TruncDiv(b, a');
    if sign {
      b0 := -b0;
    }
    QuotientNonNegative(Abs(b), a');
    c := Compressed(a', t, g, b0, sign);
  }

  // ---- decompression ----

  /** The positive part v + a' b0 of b: v is the residue whose product with t is the integer root s of
    * t^2 D modulo a'. */
  ghost predicate Root(D: int, c: Compressed, s: nat, v: int) {
    && c.a > 0 && Coprime(c.t, c.a) && 0 <= v < c.a
    && s * s < c.a && Divides(c.a, c.t * c.t * D - s * s) && Divides(c.a, c.t * v - s)
  }

  function Assembled(c: Compressed, v: int): (int, int) {
    var b := v + c.a * c.b0;
    (if c.g > 1 then c.a * c.g else c.a, if c.bSign then -b else b)
  }

  /** What a compressed form stands for. */
  ghost predicate DecodesTo(D: int, c: Compressed, p: (int, int)) {
    if c.t == 0 then p == (c.a as int, c.a as int) else exists s, v :: Root(D, c, s, v) && p == Assembled(c, v)
  }

  lemma RootUnique(D: int, c: Compressed, s: nat, v: int, s': nat, v': int)
    requires Root(D, c, s, v) && Root(D, c, s', v')
    ensures s == s' && v == v'
  {
    DividesSum(c.a, c.t * c.t * D - s * s, c.t * c.t * D - s' * s');
    SameResidue(s * s, s' * s', c.a);
    EqualSquares(s, s');
    DividesSum(c.a, c.t * v - s, c.t * v' - s');
    Dist(c.t, v, -v');
    NegMul(c.t, v');
    CoprimeDivides(c.a, c.t, v - v');
    SameResidue(v, v', c.a);
  }

  lemma SameResidue(x: int, y: int, a: int)
    requires 0 <= x < a && 0 <= y < a && (Divides(a, x - y) || Divides(a, y - x))
    ensures x == y
  {
    if Divides(a, x - y) {
      var q :| IsQuotient(x - y, a, q);
      SmallMultiple(x - y, a, q);
    } else {
      var q :| IsQuotient(y - x, a, q);
      SmallMultiple(y - x, a, q);
    }
  }

  /** Decoding is a function. */
  lemma DecodeUnique(D: int, c: Compressed, p: (int, int), q: (int, int))
    requires DecodesTo(D, c, p) && DecodesTo(D, c, q)
    ensures p == q
  {
    if c.t != 0 {
      var s, v :| Root(D, c, s, v) && p == Assembled(c, v);
      var s', v' :| Root(D, c, s', v') && q == Assembled(c, v');
      RootUnique(D, c, s, v, s', v');
    }
  }

  /** The residue of s of least absolute value. */
  function Centered(s: int, a: nat): (r: int)
    requires a > 0
    ensures Abs(r) < a && Divides(a, s - r)
  {
    DivisionDivides(s, a);
    var r := s % a;
    if 2 * r > a then NextResidue(s - r, a); r - a else r
  }

  lemma NextResidue(n: int, a: int)
    requires Divides(a, n)
    ensures Divides(a, n + a)
  {
    DividesBy(a, a, 1);
    DividesSum(a, n, a);
  }

  /** mpz_gcdext with the cofactor of the first operand in its documented range. */
  function GcdInverse(t: int, a: nat): (r: (int, int))
    requires a > 0
    ensures r.0 == Gcd(t, a) && Abs(r.1) < a && Divides(a, r.1 * t - r.0)
  {
    var (g, s, k) := GcdExt(t, a);
    CenteredCofactor(t, a, g, s, k, Centered(s, a));
    (g, Centered(s, a))
  }

  lemma CenteredCofactor(t: int, a: int, g: int, s: int, k: int, s': int)
    requires g == s * t + k * a && Divides(a, s - s')
    ensures Divides(a, s' * t - g)
  {
    DividesMul(a, s - s', t);
    DividesBy(a, k * a, k);
    DividesSum(a, (s - s') * t, k * a);
    Dist(t, s, -s');
    NegMul(s', t);
    DividesMul(a, (s - s') * t + k * a, -1);
  }

  /** t^2 D mod a, as the source multiplies it out. */
  function SquareResidue(t: int, D: int, a: nat): (r: nat)
    requires a > 0
    ensures r < a && Divides(a, t * t * D - r)
  {
    var u, d := (t * t) % a, FloorMod(D, a);
    var r := (u * d) % a;
    ResidueSteps(t * t, D, a, u, d, r);
    r
  }

  lemma ResidueSteps(x: int, D: int, a: int, u: int, d: int, r: int)
    requires a > 0 && u == x % a && d == D % a && r == (u * d) % a
    ensures Divides(a, x * D - r)
  {
    DivisionDivides(x, a);
    DivisionDivides(D, a);
    DivisionDivides(u * d, a);
    DividesMul(a, x - u, D);
    DividesMul(a, D - d, u);
    Dist(D, x, -u);
    Dist(u, D, -d);
    NegMul(u, D);
    NegMul(u, d);
    DividesSum(a, (x - u) * D, u * (D - d));
    DividesSum(a, (x - u) * D + u * (D - d), u * d - r);
  }

  lemma DivisionDivides(n: int, d: int)
    requires d > 0
    ensures Divides(d, n - n % d)
  {
    DividesBy(d, n - n % d, n / d);
  }

  /** bqfc_decompr: succeeds exactly on the compressed forms that stand for some (a, b), which in strict
    * mode must have |b| <= a. */
  method Decompr(D: int, c: Compressed, strict: bool) returns (r: Option<(int, int)>)
    ensures r.Some? ==> DecodesTo(D, c, r.value) && (strict ==> Abs(r.value.1) <= r.value.0)
    ensures r.None? ==> forall p :: DecodesTo(D, c, p) ==> strict && Abs(p.1) > p.0
  {
    if c.t == 0 {
      return Some((c.a, c.a));
    }
    var t := if c.t < 0 then c.t + c.a else c.t;
    if c.a == 0 {
      return None;
    }
    var (g, tInv) := GcdInverse(t, c.a);
    UnitGcd(t, c.a);
    ShiftCoprime(c.t, c.a);
    if g != 1 {
      return None;
    }
    if tInv < 0 {
      tInv := tInv + c.a;
    }
    var tmp := SquareResidue(c.t, D, c.a);
    ghost var square := tmp;
    if Isqrt(tmp) * Isqrt(tmp) != tmp {
      forall s: nat, v: int | Root(D, c, s, v)
        ensures false
      {
        RootOfResidue(D, c, s, v, tmp);
        IsqrtOfSquare(s);
      }
      return None;
    }
    tmp := Isqrt(tmp);
    QuotientProduct(tmp, tInv);
    var v := TruncMod(tmp * tInv, c.a);
    SolvesRoot(D, c, t, tInv, tmp, v);
    var outA := if c.g > 1 then c.a * c.g else c.a;
    var outB := v;
    if c.b0 > 0 {
      outB := outB + c.a * c.b0;
    }
    if c.bSign {
      outB := -outB;
    }
    assert Root(D, c, tmp, v) && (outA, outB) == Assembled(c, v);
    if strict && Abs(outB) > outA {
      forall p | DecodesTo(D, c, p)
        ensures p == (outA, outB)
      {
        DecodeUnique(D, c, p, (outA, outB));
      }
      return None;
    }
    r := Some((outA, outB));
  }

  lemma ShiftCoprime(t: int, a: int)
    ensures Coprime(t, a) <==> Coprime(t + a, a)
  {
    if Coprime(t, a) {
      var x, y :| x * t + y * a == 1;
      Dist(x, t, a);
      Dist(a, y, -x);
      NegMul(x, a);
      assert x * (t + a) + (y - x) * a == 1;
    }
    if Coprime(t + a, a) {
      var x, y :| x * (t + a) + y * a == 1;
      Dist(x, t, a);
      Dist(a, x, y);
      assert x * t + (x + y) * a == 1;
    }
  }

  lemma RootOfResidue(D: int, c: Compressed, s: nat, v: int, tmp: nat)
    requires Root(D, c, s, v) && tmp < c.a && Divides(c.a, c.t * c.t * D - tmp)
    ensures s * s == tmp
  {
    DividesSum(c.a, c.t * c.t * D - s * s, c.t * c.t * D - tmp);
    SameResidue(s * s, tmp, c.a);
  }

  lemma SolvesRoot(D: int, c: Compressed, t: int, tInv: int, s: nat, v: int)
    requires c.a > 0 && Coprime(c.t, c.a) && (t == c.t || t == c.t + c.a) && tInv >= 0
    requires Divides(c.a, tInv * t - 1) || Divides(c.a, (tInv - c.a) * t - 1)
    requires s * s < c.a && Divides(c.a, c.t * c.t * D - s * s)
    requires v == TruncMod(s * tInv, c.a)
    ensures Root(D, c, s, v)
  {
    var a := c.a;
    QuotientProduct(s, tInv);
    TruncModSmall(s * tInv, a);
    var q := TruncDiv(s * tInv, a);
    InverseOf(a, c.t, t, tInv);
    // t v - s = s (t tInv - 1) - t q a
    DividesMul(a, c.t * tInv - 1, s);
    DividesBy(a, (c.t * q) * a, c.t * q);
    DividesSum(a, s * (c.t * tInv - 1), (c.t * q) * a);
    SolvesCalc(c.t, tInv, s, q, a);
  }

  lemma SolvesCalc(t: int, i: int, s: int, q: int, a: int)
    ensures t * (s * i - q * a) - s == s * (t * i - 1) - (t * q) * a
  {
    Dist(t, s * i, -(q * a));
    NegMul(t, q * a);
    Swap3(t, s, i);
    Swap3(t, q, a);
    Dist(s, t * i, -1);
    Swap3(s, t, i);
  }

  lemma InverseOf(a: int, t0: int, t: int, i: int)
    requires a > 0 && (t == t0 || t == t0 + a) && (Divides(a, i * t - 1) || Divides(a, (i - a) * t - 1))
    ensures Divides(a, t0 * i - 1)
  {
    if !Divides(a, i * t - 1) {
      Dist(t, i, -a);
      NegMul(a, t);
      DividesBy(a, a * t, t);
      DividesSum(a, (i - a) * t - 1, a * t);
    }
    assert Divides(a, i * t - 1);
    if t != t0 {
      Dist(i, t0, a);
      DividesBy(a, i * a, i);
      DividesSum(a, i * t - 1, i * a);
    }
  }

  // ---- what compression keeps ----

  /** (a, b) with a > 0 is a form of discriminant D, up to its last coefficient: D = b^2 - 4ac. */
  ghost predicate HasDisc(a: int, b: int, D: int) { Divides(a, b * b - D) }

  /** t^2 D is r^2 modulo a, because t |b| is r modulo a and D is b^2 modulo a. */
  lemma SquareCongruence(a: int, t: int, b: int, D: int, r: int, d: int)
    requires HasDisc(a, b, D) && r == d * a + t * Abs(b)
    ensures Divides(a, t * t * D - r * r)
  {
    var B: int := Abs(b);
    var u := t * B;
    NegMul(b, b);
    assert B * B == b * b;
    SquareOfSum(d, a, u);
    Swap4(t, B, t, B);
    DividesMul(a, b * b - D, t * t);
    Dist(t * t, b * b, -D);
    NegMul(t * t, D);
    DividesBy(a, (d * (d * a + 2 * u)) * a, d * (d * a + 2 * u));
    DividesSum(a, (t * t) * (b * b - D), (d * (d * a + 2 * u)) * a);
    DividesMul(a, (t * t) * (b * b - D) + (d * (d * a + 2 * u)) * a, -1);
  }

  lemma SquareOfSum(d: int, a: int, u: int)
    ensures (d * a + u) * (d * a + u) == (d * (d * a + 2 * u)) * a + u * u
  {
    Foil(d * a, u, d * a, u);
    Dist(d, d * a, 2 * u);
    Dist(a, d * (d * a), d * (2 * u));
    Swap3(d, d * a, a);
    Swap3(d, 2 * u, a);
  }

  /** The encoder stopped exactly at a square root of a that is coprime to the cofactor. */
  predicate Stuck(a: nat, b: int) {
    var e := Stop(a, b);
    a > 1 && e.r1 * e.r1 == a && Gcd(a, -e.co1) == 1
  }

  /** The relations of the state in which the partial gcd stops: t |b| is r modulo a, and r^2 <= a. */
  ghost predicate Relations(a: int, b: int, t: int, r: int, d: int) {
    r == d * a + t * Abs(b) && t != 0 && 0 <= r && r * r <= a
  }

  lemma StopFacts(a: nat, b: int) returns (d: int)
    requires a > 0 && Abs(b) < a
    ensures Relations(a, b, -Stop(a, b).co1, Stop(a, b).r1, d)
  {
    var L := Isqrt(a);
    var n := XgcdEndIsRun(Start(a, Abs(b)), L, Abs(b));
    var sign := XgcdPartialFacts(a, Abs(b), n);
    var e := Stop(a, b);
    d := e.d1;
    NegMul(e.co1, Abs(b));
    AtLeastTimes(L, e.r1, L);
    AtLeastTimes(L, e.r1, e.r1);
  }

  /** How large the cofactor is where the partial gcd stops. */
  lemma StopBelow(a: nat, b: int)
    requires a > 0 && Abs(b) <= a
    ensures Stop(a, b).co1 != 0 && Abs(Stop(a, b).co1) * Isqrt(a) < 2 * a
  {
    var L := Isqrt(a);
    var n := XgcdEndIsRun(Start(a, Abs(b)), L, Abs(b));
    var sign := XgcdPartialFacts(a, Abs(b), n);
    AtLeastTimes(L, if L == 0 then 0 else 1, L);
    XgcdEndAbove(Start(a, Abs(b)), L, Abs(b));
    CofactorBelow(Stop(a, b), a, Abs(b), sign, L);
  }

  /** What has to be stored: a, divided by g; a cofactor t with |t| sqrt(a) < 2a, divided by g; and a quotient
    * of at most g. */
  predicate Sizes(a: nat, c: Compressed) {
    c.a * c.g == a && c.g >= 1 && c.t != 0 && c.b0 <= c.g && (Abs(c.t) * c.g) * Isqrt(a) < 2 * a
  }

  lemma CompressSizes(a: nat, b: int)
    requires a > 0 && Abs(b) <= a && a != b
    ensures Sizes(a, Compress(a, b))
  {
    var t := -Stop(a, b).co1;
    StopBelow(a, b);
    var g := Gcd(a, t);
    if g == 1 {
      CompressCoprime(a, b, t);
    } else {
      SizesWithGcd(a, b, t, g);
    }
  }

  lemma SizesWithGcd(a: nat, b: int, t: int, g: nat)
    requires a > 0 && Abs(b) <= a && a != b && t == -Stop(a, b).co1 && g == Gcd(a, t) != 1
    requires t != 0 && Abs(t) * Isqrt(a) < 2 * a
    ensures Sizes(a, Compress(a, b))
  {
    PositiveQuotient(a, g);
    var a': nat, t' := DivExact(a, g), DivExact(t, g);
    QuotientNonNegative(Abs(b), a');
    CompressDivided(a, b, t, g, a', t', Abs(b) / a');
    DividedSizes(a, b, t, g, a', t', Abs(b) / a');
  }

  lemma DividedSizes(a: nat, b: int, t: int, g: nat, a': nat, t': int, b0: nat)
    requires a > 0 && Abs(b) <= a && t != 0 && Abs(t) * Isqrt(a) < 2 * a && g >= 1
    requires a' > 0 && a' * g == a && t' * g == t && b0 == Abs(b) / a'
    ensures Sizes(a, Compressed(a', t', g, b0, b < 0))
  {
    QuotientAtMost(Abs(b), a', g, a);
    AbsProduct(t', g);
  }

  lemma QuotientAtMost(n: nat, d: nat, g: nat, a: nat)
    requires d > 0 && n <= a == d * g
    ensures n / d <= g
  {
    DivBounds(n, d);
    if n / d > g {
      AtLeastTimes(n / d, g + 1, d);
      Dist(d, g, 1);
    }
  }

  lemma CompressDivided(a: nat, b: int, t: int, g: nat, a': nat, t': int, b0: nat)
    requires a > 0 && a != b && t == -Stop(a, b).co1 && g == Gcd(a, t) != 1
    requires a' == DivExact(a, g) > 0 && t' == DivExact(t, g) && b0 == Abs(b) / a'
    ensures Compress(a, b) == Compressed(a', t', g, b0, b < 0)
  {}

  lemma CompressCoprime(a: nat, b: int, t: int)
    requires a > 0 && a != b && t == -Stop(a, b).co1 && Gcd(a, t) == 1
    ensures Compress(a, b) == Compressed(a, t, 1, 0, b < 0)
  {}

  /** g = 1: the stored t is the cofactor itself and |b| is the residue. */
  lemma UnitRoot(a: nat, b: int, D: int, t: int, r: nat, d: int) returns (s: nat)
    requires a > 0 && Abs(b) < a && HasDisc(a, b, D) && Coprime(t, a)
    requires r == d * a + t * Abs(b) && (r * r < a || a == 1)
    ensures Root(D, Compressed(a, t, 1, 0, b < 0), s, Abs(b))
  {
    if r * r < a {
      s := r;
      SquareCongruence(a, t, b, D, r, d);
      NegMul(d, a);
      DividesBy(a, t * Abs(b) - r, -d);
    } else {
      s := 0;
      DividesBy(1, t * t * D - 0, t * t * D);
      DividesBy(1, t * 0 - 0, 0);
    }
  }

  lemma UnitDecodes(a: nat, b: int, D: int, d: int)
    requires a > 0 && Abs(b) < a && HasDisc(a, b, D) && !Stuck(a, b)
    requires Relations(a, b, -Stop(a, b).co1, Stop(a, b).r1, d) && Gcd(a, -Stop(a, b).co1) == 1
    ensures DecodesTo(D, Compress(a, b), (a, b))
  {
    var t := -Stop(a, b).co1;
    UnitDecodesAs(a, b, D, t, Stop(a, b).r1, d);
    CompressUnit(a, b, t);
  }

  lemma CompressUnit(a: nat, b: int, t: int)
    requires Abs(b) < a && t == -Stop(a, b).co1 && Gcd(a, t) == 1
    ensures Compress(a, b) == Compressed(a, t, 1, 0, b < 0)
  {}

  lemma UnitDecodesAs(a: nat, b: int, D: int, t: int, r: int, d: int)
    requires a > 0 && Abs(b) < a && HasDisc(a, b, D) && Relations(a, b, t, r, d)
    requires Gcd(a, t) == 1 && !(a > 1 && r * r == a)
    ensures DecodesTo(D, Compressed(a, t, 1, 0, b < 0), (a, b))
  {
    CoprimeSwap(a, t);
    var s := UnitRoot(a, b, D, t, r, d);
    RootDecodes(D, Compressed(a, t, 1, 0, b < 0), s, Abs(b), (a, b));
  }

  lemma RootDecodes(D: int, c: Compressed, s: nat, v: int, p: (int, int))
    requires c.t != 0 && Root(D, c, s, v) && p == Assembled(c, v)
    ensures DecodesTo(D, c, p)
  {}

  lemma CoprimeSwap(a: int, t: int)
    requires Gcd(a, t) == 1
    ensures Coprime(t, a)
  {
    UnitGcd(a, t);
    var x, y :| x * a + y * t == 1;
    assert y * t + x * a == 1;
  }

  /** g > 1: everything is divided by g, and |b| is the residue plus b0 times a / g. */
  lemma ReducedRoot(a: nat, b: int, D: int, t: int, r: nat, d: int, g: nat, a': nat, t': int, b0: nat)
    requires a > 0 && HasDisc(a, b, D) && Relations(a, b, t, r, d)
    requires g > 1 && a == a' * g && t == t' * g && Coprime(t', a') && a' > 0 && b0 == Abs(b) / a'
    ensures Root(D, Compressed(a', t', g, b0, b < 0), Abs(d * a' + t' * Abs(b)), Abs(b) - a' * b0)
  {
    var B: nat := Abs(b);
    var s := d * a' + t' * B;
    ScaledRemainder(d, a', t', B, g, r);
    NonNegativeFactor(s, g, r);
    SmallSquare(s, g, a', r, a);
    DividesBy(a', a, g);
    DividesTrans(a', a, b * b - D);
    SquareCongruence(a', t', b, D, s, d);
    DivBounds(B, a');
    ResidueOfB(t', B, a', b0, s, d);
  }

  lemma ReducedDecodes(a: nat, b: int, D: int, d: int)
    requires a > 0 && Abs(b) < a && HasDisc(a, b, D)
    requires Relations(a, b, -Stop(a, b).co1, Stop(a, b).r1, d) && Gcd(a, -Stop(a, b).co1) != 1
    ensures DecodesTo(D, Compress(a, b), (a, b))
  {
    var t := -Stop(a, b).co1;
    var (g, x, y) := GcdExt(a, t);
    PositiveQuotient(a, g);
    QuotientNonNegative(Abs(b), DivExact(a, g));
    var a', t', b0 := DivExact(a, g), DivExact(t, g), Abs(b) / DivExact(a, g);
    ReducedDecodesAs(a, b, D, t, Stop(a, b).r1, d, g, x, y, a', t', b0);
    CompressDivided(a, b, t, g, a', t', b0);
  }

  lemma ReducedDecodesAs(a: nat, b: int, D: int, t: int, r: int, d: int, g: nat, x: int, y: int, a': nat, t': int, b0: nat)
    requires a > 0 && Abs(b) < a && HasDisc(a, b, D) && Relations(a, b, t, r, d)
    requires g > 1 && g == x * a + y * t && a == a' * g && t == t' * g && a' > 0 && t' != 0 && b0 == Abs(b) / a'
    ensures DecodesTo(D, Compressed(a', t', g, b0, b < 0), (a, b))
  {
    var c := Compressed(a', t', g, b0, b < 0);
    CoprimeQuotients(a, t, g, x, y, a', t');
    CoprimeSides(a', t', x, y);
    ReducedRoot(a, b, D, t, r, d, g, a', t', b0);
    ReducedAssembled(a, b, c);
    RootDecodes(D, c, Abs(d * a' + t' * Abs(b)), Abs(b) - a' * b0, (a, b));
  }

  lemma ReducedAssembled(a: nat, b: int, c: Compressed)
    requires c.g > 1 && a == c.a * c.g && c.bSign == (b < 0)
    ensures Assembled(c, Abs(b) - c.a * c.b0) == (a as int, b)
  {}

  lemma CoprimeSides(x: int, y: int, s: int, t: int)
    requires s * x + t * y == 1
    ensures Coprime(y, x)
  {
    assert t * y + s * x == 1;
  }

  lemma ScaledRemainder(d: int, a': int, t': int, B: int, g: int, r: int)
    requires r == d * (a' * g) + (t' * g) * B
    ensures r == (d * a' + t' * B) * g
  {
    Swap3(d, a', g);
    Swap3(t', g, B);
    Dist(g, d * a', t' * B);
  }

  lemma NonNegativeFactor(s: int, g: int, r: int)
    requires r == s * g && r >= 0 && g > 0
    ensures s >= 0
  {
    if s < 0 {
      AtLeastTimes(-1, s, g);
    }
  }

  /** s^2 < a' when (s g)^2 <= a' g and g >= 2. */
  lemma SmallSquare(s: nat, g: int, a': int, r: int, a: int)
    requires r == s * g && a == a' * g && r * r <= a && g >= 2 && a' > 0
    ensures s * s < a'
  {
    Swap4(s, g, s, g);
    var q := s * s;
    assert (q * g) * g == q * (g * g);
    if q >= a' {
      AtLeastTimes(q, a', g);
      AtLeastTimes(g, 2, q * g);
      QuotientProduct(q, g);
      AtLeastFactor(g, a');
    }
  }

  lemma ResidueOfB(t: int, B: int, a: int, q: int, s: int, d: int)
    requires s == d * a + t * B
    ensures Divides(a, t * (B - a * q) - s)
  {
    Dist(t, B, -(a * q));
    NegMul(t, a * q);
    Swap3(t, q, a);
    Dist(a, -d, -(t * q));
    NegMul(d, a);
    NegMul(t * q, a);
    DividesBy(a, t * (B - a * q) - s, -d - t * q);
  }

  /** A divisor of a is coprime to whatever a is coprime to. */
  lemma DivisorCoprime(a: int, t: int, r: int)
    requires Gcd(a, t) == 1 && Divides(r, a)
    ensures Coprime(t, r)
  {
    CoprimeSwap(a, t);
    var x, y :| x * t + y * a == 1;
    var q :| IsQuotient(a, r, q);
    Swap3(y, q, r);
    assert x * t + (y * q) * r == 1;
  }

  /** The round trip of the compression, exactly: it fails only for stuck forms. */
  lemma RoundTripExactly(a: nat, b: int, D: int)
    requires a > 0 && Abs(b) < a && HasDisc(a, b, D)
    ensures DecodesTo(D, Compress(a, b), (a, b)) <==> !Stuck(a, b)
  {
    var d := StopFacts(a, b);
    var e := Stop(a, b);
    if Gcd(a, -e.co1) != 1 {
      ReducedDecodes(a, b, D, d);
    } else if !Stuck(a, b) {
      UnitDecodes(a, b, D, d);
    } else {
      StuckFails(a, b, D, d);
    }
  }

  /** The same without the encoder: a is the square of gcd(a, b). */
  predicate Lossy(a: nat, b: int) { a > 1 && Gcd(a, b) * Gcd(a, b) == a }

  lemma StuckExactly(a: nat, b: int)
    requires a > 0 && Abs(b) < a
    ensures Stuck(a, b) <==> Lossy(a, b)
  {
    if Stuck(a, b) {
      var d := StopFacts(a, b);
      StuckGcd(a, b, -Stop(a, b).co1, Stop(a, b).r1, d);
    }
    if Lossy(a, b) {
      LossyIsStuck(a, b, Gcd(a, b));
    }
  }

  /** Stopping at a root of a with a coprime cofactor means that the root is gcd(a, b). */
  lemma StuckGcd(a: nat, b: int, t: int, r: nat, d: int)
    requires a > 1 && Relations(a, b, t, r, d) && r * r == a && Gcd(a, t) == 1
    ensures Gcd(a, b) == r
  {
    DividesBy(r, a, r);
    DividesMul(r, a, d);
    DividesBy(r, r, 1);
    DividesSum(r, r, d * a);
    DivisorCoprime(a, t, r);
    CoprimeDivides(r, t, Abs(b));
    DividesAbs(r, b);
    var (h, x, y) := GcdExt(a, b);
    CombinationDivides(r, a, b, x, y);
    AbsDivides(h, b);
    CombinationDivides(h, a, Abs(b), d, t);
    MutualDivisors(h, r);
  }

  lemma CombinationDivides(d: int, m: int, n: int, x: int, y: int)
    requires Divides(d, m) && Divides(d, n)
    ensures Divides(d, x * m + y * n)
  {
    DividesMul(d, m, x);
    DividesMul(d, n, y);
    DividesSum(d, x * m, y * n);
  }

  lemma AbsDivides(d: int, n: int)
    requires Divides(d, n)
    ensures Divides(d, Abs(n))
  {
    DividesMul(d, n, -1);
  }

  lemma MutualDivisors(m: nat, n: nat)
    requires Divides(m, n) && Divides(n, m)
    ensures m == n
  {
    if m < n {
      DivisorBelow(n, m);
    } else if n < m {
      DivisorBelow(m, n);
    }
  }

  /** Nothing but 0 below d is a multiple of d. */
  lemma DivisorBelow(d: nat, n: nat)
    requires Divides(d, n) && n < d
    ensures n == 0
  {
    var q :| IsQuotient(n, d, q);
    SmallMultiple(n, d, q);
  }

  /** On a = gcd(a, b)^2 every remainder is a multiple of gcd(a, b), so the partial gcd stops exactly there. */
  lemma LossyIsStuck(a: nat, b: int, h: nat)
    requires a > 1 && Abs(b) < a && h == Gcd(a, b) && h * h == a
    ensures Stuck(a, b)
  {
    var B: nat, L := Abs(b), Isqrt(a);
    IsqrtOfSquare(h);
    StrictSquares(1, h);
    AtLeastTimes(h, 2, h);
    var n := XgcdEndIsRun(Start(a, B), L, B);
    var sign := XgcdPartialFacts(a, B, n);
    XgcdEndPositive(Start(a, B), L, B);
    var e := Stop(a, b);
    if e.r1 == 0 {
      LastBelowGcd(e, a, b, sign);
    } else {
      StopsAtGcd(e, a, b, h, sign);
    }
  }

  lemma LastBelowGcd(e: Euclid, a: nat, b: int, sign: int)
    requires a > 0 && Inv(e, a, Abs(b), sign) && e.r1 == 0
    ensures e.r2 <= Gcd(a, b)
  {
    var (h, x, y) := GcdExt(a, b);
    LastDivides(e, a, Abs(b), sign);
    DividesAbs(e.r2, b);
    CombinationDivides(e.r2, a, b, x, y);
    if h < e.r2 {
      DivisorBelow(e.r2, h);
    }
  }

  lemma StopsAtGcd(e: Euclid, a: nat, b: int, h: nat, sign: int)
    requires h == Gcd(a, b) && h * h == a > 0 && Inv(e, a, Abs(b), sign) && 0 < e.r1 <= h
    ensures e.r1 == h && Gcd(a, -e.co1) == 1
  {
    var bb := CommonFactor(a, b, h);
    RootFacts(e.d1, e.co1, h, bb, e.r1);
    UnitGcd(a, -e.co1);
  }

  lemma RootFacts(d: int, c: int, h: int, bb: int, r: int)
    requires r == d * (h * h) - c * (bb * h) && 0 < r <= h
    ensures r == h && Coprime(h * h, -c)
  {
    RemainderFactor(d, c, h, bb);
    UnitMultiple(d * h - c * bb, h, r);
    NegMul(c, bb);
    SquareCoprime(h, -c, d, bb);
  }

  lemma CommonFactor(a: nat, b: int, h: nat) returns (bb: int)
    requires h == Gcd(a, b)
    ensures Abs(b) == bb * h
  {
    AbsDivides(h, b);
    bb :| IsQuotient(Abs(b), h, bb);
  }

  lemma RemainderFactor(d: int, c: int, h: int, bb: int)
    ensures d * (h * h) - c * (bb * h) == (d * h - c * bb) * h
  {}

  lemma UnitMultiple(m: int, h: int, r: int)
    requires r == m * h && 0 < r <= h
    ensures m == 1
  {
    if m >= 2 {
      AtLeastTimes(m, 2, h);
    } else if m <= 0 {
      AtLeastTimes(0, m, h);
    }
  }

  lemma SquareCoprime(h: int, t: int, x: int, y: int)
    requires x * h + y * t == 1
    ensures Coprime(h * h, t)
  {
    var u := x * h;
    Foil(u, y * t, u, y * t);
    SquareTerms(x, h, y, t);
    assert (x * x) * (h * h) + (2 * (u * y) + y * (y * t)) * t == 1;
  }

  lemma SquareTerms(x: int, h: int, y: int, t: int)
    ensures (x * h) * (x * h) == (x * x) * (h * h)
    ensures (x * h) * (y * t) + (y * t) * (x * h) + (y * t) * (y * t) == (2 * ((x * h) * y) + y * (y * t)) * t
  {}

  /** The round trip of the compression for every form with -a < b <= a: it fails exactly if a > 1 is the
    * square of gcd(a, b). */
  lemma DecodesExactly(a: nat, b: int, D: int)
    requires a > 0 && Abs(b) <= a && b + a != 0 && HasDisc(a, b, D)
    ensures DecodesTo(D, Compress(a, b), (a, b)) <==> !Lossy(a, b)
  {
    if a == b {
      EqualNotLossy(a, Gcd(a, b));
    } else {
      StuckExactly(a, b);
      RoundTripExactly(a, b, D);
    }
  }

  /** With gcd(a, b) = 1 nothing is lost. */
  lemma CoprimeNotLossy(a: nat, b: int)
    requires Coprime(a, b)
    ensures !Lossy(a, b)
  {
    UnitGcd(a, b);
  }

  /** A form coprime to its middle coefficient never gets stuck. */
  lemma CoprimeNotStuck(a: nat, b: int)
    requires a > 0 && Abs(b) < a && Coprime(a, b)
    ensures !Stuck(a, b)
  {
    CoprimeNotLossy(a, b);
    StuckExactly(a, b);
  }

  lemma EqualNotLossy(a: nat, h: nat)
    requires a > 0 && h == Gcd(a, a)
    ensures !Lossy(a, a)
  {
    var (g, x, y) := GcdExt(a, a);
    DividesBy(a, a, 1);
    CombinationDivides(a, a, a, x, y);
    MutualDivisors(a, g);
    if a > 1 {
      AtLeastTimes(a, 2, a);
    }
  }

  lemma StuckRoot(a: nat, b: int, D: int, t: int, r: nat, d: int, s: nat, v: int)
    requires a > 1 && HasDisc(a, b, D) && Relations(a, b, t, r, d) && r * r == a
    requires Root(D, Compressed(a, t, 1, 0, b < 0), s, v)
    ensures v == 0
  {
    SquareCongruence(a, t, b, D, r, d);
    DividesSum(a, t * t * D - s * s, t * t * D - r * r);
    DividesBy(a, a, 1);
    DividesSum(a, (t * t * D - s * s) - (t * t * D - r * r), a);
    SameResidue(0, s * s, a);
    ZeroSquare(s);
    CoprimeDivides(a, t, v);
    SameResidue(v, 0, a);
  }

  lemma StuckFails(a: nat, b: int, D: int, d: int)
    requires a > 0 && Abs(b) < a && HasDisc(a, b, D) && Stuck(a, b)
    requires Relations(a, b, -Stop(a, b).co1, Stop(a, b).r1, d)
    ensures !DecodesTo(D, Compress(a, b), (a, b))
  {
    var t, r := -Stop(a, b).co1, Stop(a, b).r1;
    var c := Compressed(a, t, 1, 0, b < 0);
    assert Compress(a, b) == c;
    if DecodesTo(D, c, (a, b)) {
      var s, v :| Root(D, c, s, v) && (a as int, b) == Assembled(c, v);
      StuckRoot(a, b, D, t, r, d, s, v);
    }
  }

  lemma ZeroSquare(s: nat)
    requires s * s == 0
    ensures s == 0
  {}

  /** Every reduced form with gcd(a, b) = 1 survives compression. */
  lemma CoprimeDecodes(a: nat, b: int, D: int)
    requires 0 < a && Abs(b) <= a && b + a != 0 && Coprime(a, b) && HasDisc(a, b, D)
    ensures DecodesTo(D, Compress(a, b), (a, b))
  {
    CoprimeNotLossy(a, b);
    DecodesExactly(a, b, D);
  }

  /** When |b| is at most the square root of a, the cofactor is 1 and the residue is |b|. */
  lemma StopsAtOnce(a: nat, b: int)
    requires Abs(b) <= Isqrt(a)
    ensures Stop(a, b) == Start(a, Abs(b))
  {}

  /** Without gcd(a, b) = 1 it can fail: every (m^2, m) with m > 1 is stuck; (4, 2, 5), reduced and of
    * discriminant -76, is one. */
  lemma StuckFamily(m: nat, D: int)
    requires m > 1 && HasDisc(m * m, m, D)
    ensures m * m > m && Stuck(m * m, m) && !DecodesTo(D, Compress(m * m, m), (m * m, m))
  {
    IsqrtOfSquare(m);
    StrictSquares(1, m);
    AtLeastTimes(m, 2, m);
    StopsAtOnce(m * m, m);
    assert 0 * (m * m) + 1 * 1 == 1;
    UnitGcd(m * m, 1);
    RoundTripExactly(m * m, m, D);
  }
}
