/** The group the proofs live in, kept abstract: an element type with an identity and an operation
  * that is assumed commutative and associative. Inverses are never needed. */
module ClassGroup {
  import opened Integers

  datatype Group<!G(!new)> = Group(id: G, op: (G, G) -> G) {
    function Mul(x: G, y: G): G { op(x, y) }
  }

  ghost predicate Unit<G(!new)>(grp: Group<G>, x: G) { grp.Mul(x, grp.id) == x }

  ghost predicate Commutes<G(!new)>(grp: Group<G>, x: G, y: G) { grp.Mul(x, y) == grp.Mul(y, x) }

  ghost predicate Associates<G(!new)>(grp: Group<G>, x: G, y: G, z: G) {
    grp.Mul(grp.Mul(x, y), z) == grp.Mul(x, grp.Mul(y, z))
  }

  ghost predicate Abelian<G(!new)>(grp: Group<G>) {
    && (forall x :: Unit(grp, x))
    && (forall x, y :: Commutes(grp, x, y))
    && (forall x, y, z :: Associates(grp, x, y, z))
  }

  function Pow<G(!new)>(grp: Group<G>, x: G, n: nat): G {
    if n == 0 then grp.id else grp.Mul(x, Pow(grp, x, n - 1))
  }

  lemma {:induction false} PowAdd<G(!new)>(grp: Group<G>, x: G, m: nat, n: nat)
    requires Abelian(grp)
    ensures grp.Mul(Pow(grp, x, m), Pow(grp, x, n)) == Pow(grp, x, m + n)
    decreases m
  {
    if m > 0 {
      PowAdd(grp, x, m - 1, n);
      assert Associates(grp, x, Pow(grp, x, m - 1), Pow(grp, x, n));
    } else {
      assert Commutes(grp, grp.id, Pow(grp, x, n)) && Unit(grp, Pow(grp, x, n));
    }
  }

  lemma {:induction false} PowPow<G(!new)>(grp: Group<G>, x: G, m: nat, n: nat)
    requires Abelian(grp)
    ensures Pow(grp, Pow(grp, x, m), n) == Pow(grp, x, m * n)
    decreases n
  {
    if n > 0 {
      PowPow(grp, x, m, n - 1);
      OneMore(m, n);
      PowAdd(grp, x, m, m * (n - 1));
    }
  }

  lemma PowOne<G(!new)>(grp: Group<G>, x: G)
    requires Abelian(grp)
    ensures Pow(grp, x, 1) == x
  {
    assert Pow(grp, x, 1) == grp.Mul(x, Pow(grp, x, 0));
    assert Unit(grp, x);
  }

  lemma OneMore(m: nat, n: nat)
    requires n > 0
    ensures m * n == m + m * (n - 1) && m * (n - 1) >= 0
  {
    QuotientProduct(m, n - 1);
  }

  /** FastPowFormNucomp: square and multiply from the bit below the top one. */
  method FastPow<G(!new)>(grp: Group<G>, x: G, n: nat) returns (res: G)
    requires Abelian(grp)
    ensures res == Pow(grp, x, n)
  {
    if n == 0 {
      return grp.id;
    }
    res := x;
    PowOne(grp, x);
    TopBit(n);
    var i: int := BitLen(n) - 2;
    while i >= 0
      invariant i >= -1 && res == Pow(grp, x, Shift(n, i + 1))
    {
      ghost var top := Shift(n, i + 1);
      PowAdd(grp, x, top, top);
      res := grp.Mul(res, res);
      if Shift(n, i) % 2 == 1 {
        PowOne(grp, x);
        PowAdd(grp, x, 2 * top, 1);
        res := grp.Mul(res, x);
      }
      i := i - 1;
    }
  }
}
