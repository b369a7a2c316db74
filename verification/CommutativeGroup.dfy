/** An arbitrary commutative group, standing for the points of the curve under addition. */
module CommutativeGroup {

  datatype Group<!T> = Group(zero: T, add: (T, T) -> T, neg: T -> T)

  /** Mentioned where a group law is to be used at x, y and z. */
  ghost predicate At<T>(x: T, y: T, z: T) { true }

  ghost predicate IsGroup<T(!new)>(g: Group<T>) {
    forall x, y, z {:trigger At(x, y, z)} ::
      && g.add(g.add(x, y), z) == g.add(x, g.add(y, z))
      && g.add(x, y) == g.add(y, x)
      && g.add(x, g.zero) == x
      && g.add(x, g.neg(x)) == g.zero
  }

  /** The multiple k·x. */
  ghost function Mul<T>(g: Group<T>, k: int, x: T): T
    decreases k < 0, if k < 0 then -k else k
  {
    if k == 0 then g.zero
    else if k > 0 then g.add(Mul(g, k - 1, x), x)
    else g.neg(Mul(g, -k, x))
  }

  lemma Laws<T(!new)>(g: Group<T>, x: T, y: T, z: T)
    requires IsGroup(g)
    ensures g.add(g.add(x, y), z) == g.add(x, g.add(y, z))
    ensures g.add(x, y) == g.add(y, x)
    ensures g.add(x, g.zero) == x && g.add(g.zero, x) == x
    ensures g.add(x, g.neg(x)) == g.zero
  {
    assert At(x, y, z) && At(g.zero, x, x);
  }

  /** Inverses are unique. */
  lemma NegUnique<T(!new)>(g: Group<T>, x: T, y: T)
    requires IsGroup(g) && g.add(x, y) == g.zero
    ensures y == g.neg(x)
  {
    var n := g.neg(x);
    calc {
      y;
      { Laws(g, y, y, y); Laws(g, y, g.zero, y); }
      g.add(y, g.zero);
      { Laws(g, x, y, y); }
      g.add(y, g.add(x, n));
      { Laws(g, y, x, n); }
      g.add(g.add(y, x), n);
      { Laws(g, y, x, n); }
      g.add(g.zero, n);
      { Laws(g, n, n, n); }
      n;
    }
  }

  lemma NegAdd<T(!new)>(g: Group<T>, x: T, y: T)
    requires IsGroup(g)
    ensures g.neg(g.add(x, y)) == g.add(g.neg(x), g.neg(y))
  {
    var m, n := g.neg(x), g.neg(y);
    calc {
      g.add(g.add(x, y), g.add(m, n));
      { Laws(g, m, n, n); }
      g.add(g.add(x, y), g.add(n, m));
      { Laws(g, x, y, g.add(n, m)); }
      g.add(x, g.add(y, g.add(n, m)));
      { Laws(g, y, n, m); }
      g.add(x, g.add(g.add(y, n), m));
      { Laws(g, y, n, m); Laws(g, m, m, m); }
      g.add(x, m);
      { Laws(g, x, x, x); }
      g.zero;
    }
    NegUnique(g, g.add(x, y), g.add(m, n));
  }

  lemma {:induction false} MulSucc<T(!new)>(g: Group<T>, k: int, x: T)
    requires IsGroup(g)
    ensures Mul(g, k + 1, x) == g.add(Mul(g, k, x), x)
  {
    if k < 0 {
      // k + 1 = -(j), k = -(j + 1) with j >= 0
      var j := -k - 1;
      var y := Mul(g, j, x);
      assert Mul(g, -k, x) == g.add(y, x);
      NegAdd(g, y, x);
      assert Mul(g, k, x) == g.add(g.neg(y), g.neg(x));
      Laws(g, g.neg(y), g.neg(x), x);
      Laws(g, x, g.neg(x), x);
      Laws(g, g.neg(y), x, x);
      if j == 0 {
        Laws(g, g.neg(g.zero), g.zero, x);
        Laws(g, g.zero, g.zero, x);
      }
    }
  }

  lemma {:induction false} MulAdd<T(!new)>(g: Group<T>, j: int, k: int, x: T)
    requires IsGroup(g)
    ensures Mul(g, j + k, x) == g.add(Mul(g, j, x), Mul(g, k, x))
    decreases k < 0, if k < 0 then -k else k
  {
    var y := Mul(g, j, x);
    if k == 0 {
      Laws(g, y, y, y);
    } else if k > 0 {
      MulAdd(g, j, k - 1, x);
      MulSucc(g, j + k - 1, x);
      Laws(g, y, Mul(g, k - 1, x), x);
    } else {
      MulAdd(g, j + k, -k, x);
      var z := Mul(g, j + k, x);
      var m := Mul(g, -k, x);
      Laws(g, z, m, g.neg(m));
      Laws(g, m, m, m);
      Laws(g, z, z, z);
    }
  }

  lemma {:induction false} MulMul<T(!new)>(g: Group<T>, j: int, k: nat, x: T)
    requires IsGroup(g)
    ensures Mul(g, j * k, x) == Mul(g, k, Mul(g, j, x))
  {
    if k == 0 {
      assert j * k == 0;
    } else {
      MulMul(g, j, k - 1, x);
      assert j * k == j * (k - 1) + j;
      MulAdd(g, j * (k - 1), j, x);
    }
  }

  lemma MulOne<T(!new)>(g: Group<T>, x: T)
    requires IsGroup(g)
    ensures Mul(g, 1, x) == x
  {
    Laws(g, x, x, x);
    assert Mul(g, 1, x) == g.add(Mul(g, 0, x), x);
  }

  lemma MulNeg<T(!new)>(g: Group<T>, k: int, x: T)
    requires IsGroup(g)
    ensures Mul(g, -k, x) == g.neg(Mul(g, k, x))
  {
    MulAdd(g, k, -k, x);
    assert Mul(g, 0, x) == g.zero;
    NegUnique(g, Mul(g, k, x), Mul(g, -k, x));
  }

  /** Multiples of a point of order dividing n depend only on the residue modulo n. */
  lemma MulModulo<T(!new)>(g: Group<T>, k: int, m: int, n: nat, x: T)
    requires IsGroup(g) && Mul(g, n, x) == g.zero
    ensures Mul(g, k + n * m, x) == Mul(g, k, x)
  {
    assert Mul(g, n * m, x) == g.zero by {
      if m >= 0 {
        MulMul(g, n, m, x);
        MulZero(g, m);
      } else {
        MulMul(g, n, -m, x);
        MulZero(g, -m);
        MulNeg(g, n * -m, x);
        assert n * m == -(n * -m);
        Laws(g, g.zero, g.zero, x);
        NegUnique(g, g.zero, g.zero);
      }
    }
    MulAdd(g, k, n * m, x);
    Laws(g, Mul(g, k, x), x, x);
  }

  lemma {:induction false} MulZero<T(!new)>(g: Group<T>, k: nat)
    requires IsGroup(g)
    ensures Mul(g, k, g.zero) == g.zero
  {
    if k > 0 {
      MulZero(g, k - 1);
      Laws(g, g.zero, g.zero, g.zero);
    }
  }
}
