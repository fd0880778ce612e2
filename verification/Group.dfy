/**
 * An abelian group and its integer multiples: what the scalar multiplications of
 * tendermint/ed25519/edwards25519/edwards25519.go need to know about the points of the curve.
 */
module Group {

  /** The operations on points; the source's five coordinate systems are one type of points here. */
  datatype Group<!P> = Group(zero: P, add: (P, P) -> P, neg: P -> P)

  // names a point or points a law below is to be used for
  ghost predicate For1<P>(x: P) { true }
  ghost predicate For2<P>(x: P, y: P) { true }
  ghost predicate For3<P>(x: P, y: P, z: P) { true }

  ghost predicate Abelian<P(!new)>(g: Group<P>)
  {
    && (forall x, y, z {:trigger For3(x, y, z)} :: g.add(g.add(x, y), z) == g.add(x, g.add(y, z)))
    && (forall x, y {:trigger For2(x, y)} :: g.add(x, y) == g.add(y, x))
    && (forall x {:trigger For1(x)} :: g.add(g.zero, x) == x && g.add(x, g.neg(x)) == g.zero)
  }

  lemma Assoc<P(!new)>(g: Group<P>, x: P, y: P, z: P)
    requires Abelian(g)
    ensures g.add(g.add(x, y), z) == g.add(x, g.add(y, z))
  {
    assert For3(x, y, z);
  }

  lemma Comm<P(!new)>(g: Group<P>, x: P, y: P)
    requires Abelian(g)
    ensures g.add(x, y) == g.add(y, x)
  {
    assert For2(x, y);
  }

  lemma Zero<P(!new)>(g: Group<P>, x: P)
    requires Abelian(g)
    ensures g.add(g.zero, x) == x == g.add(x, g.zero) && g.add(x, g.neg(x)) == g.zero == g.add(g.neg(x), x)
  {
    assert For1(x) && For2(g.zero, x) && For2(x, g.neg(x));
  }

  lemma Swap<P(!new)>(g: Group<P>, x: P, y: P, z: P)
    requires Abelian(g)
    ensures g.add(x, g.add(y, z)) == g.add(y, g.add(x, z))
  {
    Assoc(g, x, y, z);
    Comm(g, x, y);
    Assoc(g, y, x, z);
  }

  /** What undoes x is the inverse of x. */
  lemma UniqueInverse<P(!new)>(g: Group<P>, x: P, y: P)
    requires Abelian(g) && g.add(x, y) == g.zero
    ensures y == g.neg(x)
  {
    Zero(g, x);
    Zero(g, y);
    Zero(g, g.neg(x));
    Assoc(g, g.neg(x), x, y);
  }

  ghost function Times<P>(g: Group<P>, n: nat, x: P): P
  {
    if n == 0 then g.zero else g.add(x, Times(g, n - 1, x))
  }

  /** n x, also for negative n. */
  ghost function Mul<P>(g: Group<P>, n: int, x: P): P
  {
    if n >= 0 then Times(g, n, x) else g.neg(Times(g, -n, x))
  }

  lemma NegZero<P(!new)>(g: Group<P>)
    requires Abelian(g)
    ensures g.neg(g.zero) == g.zero
  {
    Zero(g, g.zero);
    UniqueInverse(g, g.zero, g.zero);
  }

  lemma MulNext<P(!new)>(g: Group<P>, n: int, x: P)
    requires Abelian(g)
    ensures Mul(g, n + 1, x) == g.add(x, Mul(g, n, x))
  {
    if n < 0 {
      var k := -n;
      var y := Times(g, k - 1, x);
      assert Times(g, k, x) == g.add(x, y);
      // x + neg(x + y) undoes y
      Zero(g, g.add(x, y));
      Assoc(g, x, y, g.neg(g.add(x, y)));
      Swap(g, x, y, g.neg(g.add(x, y)));
      UniqueInverse(g, y, g.add(x, g.neg(g.add(x, y))));
      if k == 1 { NegZero(g); }
    }
  }

  lemma {:induction false} MulAdd<P(!new)>(g: Group<P>, m: int, n: int, x: P)
    requires Abelian(g)
    ensures Mul(g, m + n, x) == g.add(Mul(g, m, x), Mul(g, n, x))
    decreases if m < 0 then -m else m
  {
    if m == 0 {
      Zero(g, Mul(g, n, x));
    } else if m > 0 {
      MulAdd(g, m - 1, n + 1, x);
      MulNext(g, n, x);
      MulNext(g, m - 1, x);
      Swap(g, Mul(g, m - 1, x), x, Mul(g, n, x));
      Assoc(g, x, Mul(g, m - 1, x), Mul(g, n, x));
    } else {
      MulAdd(g, m + 1, n - 1, x);
      MulNext(g, m, x);
      MulNext(g, n - 1, x);
      Assoc(g, x, Mul(g, m, x), Mul(g, n - 1, x));
      Swap(g, Mul(g, m, x), x, Mul(g, n - 1, x));
    }
  }

  lemma MulOne<P(!new)>(g: Group<P>, x: P)
    requires Abelian(g)
    ensures Mul(g, 0, x) == g.zero && Mul(g, 1, x) == x
  {
    Zero(g, x);
    assert Times(g, 1, x) == g.add(x, Times(g, 0, x));
  }

  lemma MulNeg<P(!new)>(g: Group<P>, n: int, x: P)
    requires Abelian(g)
    ensures Mul(g, -n, x) == g.neg(Mul(g, n, x))
  {
    MulAdd(g, n, -n, x);
    UniqueInverse(g, Mul(g, n, x), Mul(g, -n, x));
  }

  lemma {:induction false} MulMul<P(!new)>(g: Group<P>, m: int, n: int, x: P)
    requires Abelian(g)
    ensures Mul(g, m * n, x) == Mul(g, m, Mul(g, n, x))
    decreases if m < 0 then 1 - 2 * m else 2 * m
  {
    if m == 0 {
      assert m * n == 0;
    } else if m > 0 {
      MulMul(g, m - 1, n, x);
      assert m * n == n + (m - 1) * n;
      MulAdd(g, n, (m - 1) * n, x);
      MulNext(g, m - 1, Mul(g, n, x));
    } else {
      MulMul(g, -m, n, x);
      assert m * n == -((-m) * n);
      MulNeg(g, (-m) * n, x);
      MulNeg(g, -m, Mul(g, n, x));
    }
  }

  /** m x + n y */
  ghost function Lin<P>(g: Group<P>, m: int, x: P, n: int, y: P): P
  {
    g.add(Mul(g, m, x), Mul(g, n, y))
  }

  lemma LinAdd<P(!new)>(g: Group<P>, m: int, m': int, x: P, n: int, n': int, y: P)
    requires Abelian(g)
    ensures g.add(Lin(g, m, x, n, y), Lin(g, m', x, n', y)) == Lin(g, m + m', x, n + n', y)
  {
    MulAdd(g, m, m', x);
    MulAdd(g, n, n', y);
    var a, b, c, d := Mul(g, m, x), Mul(g, n, y), Mul(g, m', x), Mul(g, n', y);
    Assoc(g, a, b, g.add(c, d));
    Swap(g, b, c, d);
    Assoc(g, a, c, g.add(b, d));
  }

  lemma LinTwice<P(!new)>(g: Group<P>, m: int, x: P, n: int, y: P)
    requires Abelian(g)
    ensures g.add(Lin(g, m, x, n, y), Lin(g, m, x, n, y)) == Lin(g, 2 * m, x, 2 * n, y)
  {
    LinAdd(g, m, m, x, n, n, y);
    assert m + m == 2 * m && n + n == 2 * n;
  }

  lemma LinMoreX<P(!new)>(g: Group<P>, m: int, x: P, n: int, y: P, k: int)
    requires Abelian(g)
    ensures g.add(Lin(g, m, x, n, y), Mul(g, k, x)) == Lin(g, m + k, x, n, y)
  {
    LinAdd(g, m, k, x, n, 0, y);
    Zero(g, Mul(g, k, x));
  }

  lemma LinMoreY<P(!new)>(g: Group<P>, m: int, x: P, n: int, y: P, k: int)
    requires Abelian(g)
    ensures g.add(Lin(g, m, x, n, y), Mul(g, k, y)) == Lin(g, m, x, n + k, y)
  {
    LinAdd(g, m, 0, x, n, k, y);
    Zero(g, Mul(g, k, y));
  }
}
