/** mpz_gcdext, used only through Bezout's identity: nothing depends on which of the possible
  * cofactors the big-integer library returns. */
module ExtendedGcd {
  import opened Integers

  /** r is a gcd of a and b with its cofactors. */
  ghost predicate IsGcdExt(a: int, b: int, r: (int, int, int)) {
    && r.0 == r.1 * a + r.2 * b
    && Divides(r.0, a) && Divides(r.0, b)
    && r.0 >= 0 && (a != 0 || b != 0 ==> r.0 > 0)
  }

  function GcdExt(a: int, b: int): (r: (int, int, int))
    ensures IsGcdExt(a, b, r)
  {
    var (g, s, t) := GcdNat(Abs(a), Abs(b));
    GcdSigns(a, b, g, s, t);
    (g, if a < 0 then -s else s, if b < 0 then -t else t)
  }

  function GcdNat(a: nat, b: nat): (r: (int, int, int))
    ensures IsGcdExt(a, b, r)
    decreases b
  {
    if b == 0 then
      DividesBy(a, a, 1);
      DividesBy(a, 0, 0);
      (a, 1, 0)
    else
      DivBounds(a, b);
      var (g, s, t) := GcdNat(b, a - a / b * b);
      BackSubstitute(a, b, g, s, t);
      (g, t, s - a / b * t)
  }

  lemma BackSubstitute(a: nat, b: nat, g: int, s: int, t: int)
    requires b > 0 && a - a / b * b >= 0 && IsGcdExt(b, a - a / b * b, (g, s, t))
    ensures IsGcdExt(a, b, (g, t, s - a / b * t))
  {
    var q := a / b;
    BackSubstituteCalc(s, t, b, q, a - q * b);
    DividesMul(g, b, q);
    DividesSum(g, q * b, a - q * b);
  }

  lemma BackSubstituteCalc(s: int, t: int, b: int, q: int, r: int)
    ensures s * b + t * r == t * (q * b + r) + (s - q * t) * b
  {}

  lemma GcdSigns(a: int, b: int, g: int, s: int, t: int)
    requires IsGcdExt(Abs(a), Abs(b), (g, s, t))
    ensures IsGcdExt(a, b, (g, if a < 0 then -s else s, if b < 0 then -t else t))
  {
    DividesAbs(g, a);
    DividesAbs(g, b);
    NegMul(s, Abs(a));
    NegMul(t, Abs(b));
  }

  lemma DividesAbs(g: int, a: int)
    requires Divides(g, Abs(a))
    ensures Divides(g, a)
  {
    DividesMul(g, Abs(a), -1);
  }

  /** A gcd of 1 is coprimality, and conversely. */
  lemma UnitGcd(a: int, b: int)
    ensures GcdExt(a, b).0 == 1 <==> Coprime(a, b)
  {
    var (g, s, t) := GcdExt(a, b);
    if Coprime(a, b) {
      CommonDivisor(g, a, b);
    }
  }

  lemma CommonDivisor(g: int, a: int, b: int)
    requires g >= 0 && Divides(g, a) && Divides(g, b) && Coprime(a, b)
    ensures g == 1
  {
    var x, y :| x * a + y * b == 1;
    DividesMul(g, a, x);
    DividesMul(g, b, y);
    DividesSum(g, x * a, y * b);
    DivisorOfOne(g);
  }

  lemma DivisorOfOne(g: int)
    requires g >= 0 && Divides(g, 1)
    ensures g == 1
  {
    var q :| IsQuotient(1, g, q);
    if g > 1 && q >= 1 {
      AtLeastFactor(q, g);
    }
  }

  /** Dividing two numbers by their gcd leaves coprime numbers. */
  lemma CoprimeQuotients(a: int, b: int, g: int, s: int, t: int, x: int, y: int)
    requires g != 0 && g == s * a + t * b && a == g * x && b == g * y
    ensures s * x + t * y == 1 && Coprime(x, y)
  {
    Swap3(s, x, g);
    Swap3(t, y, g);
    assert (s * x + t * y) * g == 1 * g by { Dist(g, s * x, t * y); }
    Cancel(s * x + t * y, 1, g);
  }

  // ---- prime discriminants ----

  ghost predicate IsPrime(p: int) {
    p > 1 && forall d :: 1 < d < p ==> !Divides(d, p)
  }

  lemma PrimeDivisors(p: int, d: int)
    requires IsPrime(p) && d >= 0 && Divides(d, p)
    ensures d == 1 || d == p
  {
    var q :| IsQuotient(p, d, q);
    if d > p {
      if q >= 1 {
        AtLeastFactor(q, d);
      } else {
        AtLeastTimes(0, q, d);
      }
    }
  }
}
