/** Fermat's little theorem, by the binomial expansion modulo a prime. */
module Fermat {
  import opened Words
  import opened ModArith
  import opened FieldPower
  import Field1271

  ghost predicate IsPrime(p: nat) {
    p >= 2 && forall d :: 1 < d < p ==> p % d != 0
  }

  /** A prime dividing a product divides the other factor. */
  lemma {:induction false} Euclid(p: nat, r: nat, b: int)
    requires IsPrime(p) && 0 < r < p && r * b % p == 0
    ensures b % p == 0
    decreases r
  {
    var q, s := p / r, p % r;
    assert p == r * q + s;
    if s == 0 {
      assert r == 1;
    } else {
      // s * b = p * b - q * (r * b) is again a multiple of p
      assert s * b == p * b - q * (r * b) by {
        assert (r * q + s) * b == q * (r * b) + s * b;
      }
      var m := r * b / p;
      assert r * b == p * m;
      assert s * b == p * (b - q * m) by {
        assert q * (p * m) == p * (q * m);
      }
      DivModUnique(s * b, p, b - q * m, 0);
      Euclid(p, s, b);
    }
  }

  /** Pascal's triangle. */
  ghost function Choose(n: nat, k: nat): nat {
    if k == 0 then 1 else if n == 0 then 0 else Choose(n - 1, k - 1) + Choose(n - 1, k)
  }

  lemma {:induction false} Absorption(n: nat, k: nat)
    requires n > 0 && k > 0
    ensures k * Choose(n, k) == n * Choose(n - 1, k - 1)
  {
    if n == 1 {
      assert Choose(0, k) == 0;
      if k > 1 {
        assert Choose(0, k - 1) == 0;
      } else {
        assert Choose(1, 1) == 1;
      }
    } else {
      Absorption(n - 1, k);
      if k > 1 {
        Absorption(n - 1, k - 1);
        AbsorptionAlgebra(n, k, Choose(n - 1, k - 1), Choose(n - 1, k), Choose(n - 2, k - 2), Choose(n - 2, k - 1));
      } else {
        assert Choose(n - 1, 0) == Choose(n - 2, 0) == 1;
      }
    }
  }

  lemma AbsorptionAlgebra(n: int, k: int, c: int, d: int, e: int, f: int)
    requires c == e + f && k * d == (n - 1) * f && (k - 1) * c == (n - 1) * e
    ensures k * (c + d) == n * c
  {
    assert k * (c + d) == (k - 1) * c + c + k * d;
    assert (n - 1) * e + (n - 1) * f == (n - 1) * c;
  }

  lemma {:induction false} ChooseBeyond(n: nat, k: nat)
    requires k > n
    ensures Choose(n, k) == 0
  {
    if n > 0 {
      ChooseBeyond(n - 1, k - 1);
      ChooseBeyond(n - 1, k);
    }
  }

  lemma {:induction false} ChooseAll(n: nat)
    ensures Choose(n, n) == 1
  {
    if n > 0 {
      ChooseAll(n - 1);
      ChooseBeyond(n - 1, n);
    }
  }

  /** The binomial sum up to x^m. */
  ghost function Binomial(n: nat, m: nat, x: int): int
    decreases m, n
  {
    if m == 0 then 1 else Binomial(n, m - 1, x) + Choose(n, m) * Pow(x, m)
  }

  lemma {:induction false} BinomialPascal(n: nat, m: nat, x: int)
    requires n > 0 && m > 0
    ensures Binomial(n, m, x) == Binomial(n - 1, m, x) + x * Binomial(n - 1, m - 1, x)
    decreases m
  {
    var c, d, p := Choose(n - 1, m - 1), Choose(n - 1, m), Pow(x, m - 1);
    if m == 1 {
      assert Choose(n - 1, 0) == 1;
      assert Binomial(n - 1, 0, x) == 1 && Binomial(n, 0, x) == 1;
      assert Pow(x, 0) == 1;
      assert (1 + d) * x == x + d * x;
    } else {
      BinomialPascal(n, m - 1, x);
      PascalAlgebra(Binomial(n, m - 1, x), Binomial(n - 1, m - 1, x), Binomial(n - 1, m - 2, x), c, d, p, x);
    }
  }

  lemma PascalAlgebra(b1: int, b2: int, b3: int, c: int, d: int, p: int, x: int)
    requires b1 == b2 + x * b3 && b2 == b3 + c * p
    ensures b1 + (c + d) * (x * p) == b2 + d * (x * p) + x * b2
  {
    assert x * b2 == x * b3 + x * (c * p);
    assert (c + d) * (x * p) == x * (c * p) + d * (x * p);
  }

  lemma {:induction false} BinomialTheorem(n: nat, x: int)
    ensures Pow(x + 1, n) == Binomial(n, n, x)
  {
    if n > 0 {
      BinomialTheorem(n - 1, x);
      BinomialPascal(n, n, x);
      ChooseBeyond(n - 1, n);
      var b := Binomial(n - 1, n - 1, x);
      assert Binomial(n - 1, n, x) == b;
      assert (x + 1) * b == x * b + b;
    }
  }

  /** The inner binomial coefficients of a prime vanish modulo it. */
  lemma {:induction false} BinomialModPrime(p: nat, m: nat, x: int)
    requires IsPrime(p) && m < p
    ensures Binomial(p, m, x) % p == 1
    decreases m
  {
    if m == 0 {
      ModSmall(1, p);
    } else {
      BinomialModPrime(p, m - 1, x);
      PrimeDividesChoose(p, m);
      MultipleTerm(Binomial(p, m - 1, x), Choose(p, m), Pow(x, m), p);
    }
  }

  lemma PrimeDividesChoose(p: nat, m: nat)
    requires IsPrime(p) && 0 < m < p
    ensures Choose(p, m) % p == 0
  {
    Absorption(p, m);
    DivModUnique(m * Choose(p, m), p, Choose(p - 1, m - 1), 0);
    Euclid(p, m, Choose(p, m));
  }

  lemma MultipleTerm(b: int, c: int, y: int, p: int)
    requires p > 0 && c % p == 0
    ensures (b + c * y) % p == b % p
  {
    var q := c / p;
    assert c == p * q;
    assert (p * q) * y == p * (q * y);
    ModShift(b, q * y, p);
  }

  lemma {:induction false} FermatPower(p: nat, a: nat)
    requires IsPrime(p)
    ensures Pow(a, p) % p == a % p
  {
    if a == 0 {
      assert Pow(0, p) == 0 * Pow(0, p - 1);
    } else {
      var x := a - 1;
      FermatPower(p, x);
      BinomialTheorem(p, x);
      ChooseAll(p);
      BinomialModPrime(p, p - 1, x);
      var b := Binomial(p, p - 1, x);
      assert Binomial(p, p, x) == b + Pow(x, p);
      ModAdd(b, Pow(x, p), p);
      ModAdd(Pow(x, p), 1, p);
      ModAdd(x, 1, p);
    }
  }

  /** a^(p - 1) = 1 modulo p, for a not a multiple of the prime p. */
  lemma FermatLittle(p: nat, a: nat)
    requires IsPrime(p) && a % p != 0
    ensures Pow(a, p - 1) % p == 1
  {
    FermatPower(p, a);
    var t := Pow(a, p - 1);
    var r := a % p;
    var k := SameResidue(a * t, a, p);
    assert r * (t - 1) % p == 0 by {
      var q := a / p;
      assert a * (t - 1) == p * k;
      assert r * (t - 1) == p * (k - q * (t - 1)) by {
        assert a == p * q + r;
        assert (p * q) * (t - 1) == p * (q * (t - 1));
      }
      DivModUnique(r * (t - 1), p, k - q * (t - 1), 0);
    }
    Euclid(p, r, t - 1);
    ModAdd(t - 1, 1, p);
    ModSmall(1, p);
  }

  /** Given that 2^127 - 1 is prime, the power p - 2 inverts every nonzero residue and keeps zero. */
  lemma InverseModP(a: nat, e: nat)
    requires IsPrime(Field1271.P) && e == Field1271.P - 2
    ensures a % Field1271.P != 0 ==> a * Pow(a, e) % Field1271.P == 1
    ensures a % Field1271.P == 0 ==> Pow(a, e) % Field1271.P == 0
  {
    assert Pow(a, e + 1) == a * Pow(a, e);
    if a % Field1271.P != 0 {
      FermatLittle(Field1271.P, a);
    } else {
      assert Pow(a, e) == a * Pow(a, e - 1);
      MultipleTerm(0, a, Pow(a, e - 1), Field1271.P);
    }
  }
}
