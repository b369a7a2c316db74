/** What a prime modulus gives: inverses, square roots of one and minus one, and norms. */
module PrimeField {
  import opened Words
  import opened ModArith
  import opened Field1271
  import opened FieldPower
  import opened Fermat
  import opened LucasLehmer

  // ---------------------------------------------------------------- residues modulo any prime

  lemma ZeroProduct(n: nat, x: int, y: int)
    requires IsPrime(n) && x * y % n == 0
    ensures x % n == 0 || y % n == 0
  {
    if x % n != 0 {
      ModMul(x, y, n);
      Euclid(n, x % n, y);
    }
  }

  lemma InverseExists(n: nat, a: int) returns (w: int)
    requires IsPrime(n) && a % n != 0
    ensures a * w % n == 1
  {
    var r := a % n;
    ModSmall(r, n);
    FermatLittle(n, r);
    w := Pow(r, n - 2);
    assert Pow(r, n - 1) == r * w;
    ModMul(a, w, n);
  }

  lemma {:induction false} PowOfMinusOne(s: int, k: nat, n: int)
    requires n > 2 && s % n == n - 1
    ensures Pow(s, k) % n == if k % 2 == 0 then 1 else n - 1
  {
    if k == 0 {
      ModSmall(1, n);
    } else {
      PowOfMinusOne(s, k - 1, n);
      MinusOneTimes(s, Pow(s, k - 1), n);
    }
  }

  lemma MinusOneTimes(s: int, t: int, n: int)
    requires n > 2 && s % n == n - 1
    ensures t % n == 1 ==> s * t % n == n - 1
    ensures t % n == n - 1 ==> s * t % n == 1
  {
    ModMulBoth(s, t, n);
    ModSmall(n - 1, n);
    assert (n - 1) * (n - 1) == n * (n - 2) + 1;
    DivModUnique((n - 1) * (n - 1), n, n - 2, 1);
  }

  lemma {:induction false} PowOfSquare(a: int, k: nat)
    ensures Pow(a * a, k) == Pow(a, 2 * k)
  {
    if k > 0 {
      PowOfSquare(a, k - 1);
      assert Pow(a, 2 * k) == a * Pow(a, 2 * k - 1) && Pow(a, 2 * k - 1) == a * Pow(a, 2 * k - 2);
      assert a * (a * Pow(a, 2 * k - 2)) == (a * a) * Pow(a, 2 * k - 2);
    }
  }

  /** Minus one is not a square modulo a prime of the form 4m + 3. */
  lemma MinusOneIsNoSquare(n: nat, z: int)
    requires IsPrime(n) && n % 4 == 3
    ensures (z * z + 1) % n != 0
  {
    if (z * z + 1) % n == 0 {
      var a, k := z % n, (n - 1) / 2;
      ModMulBoth(z, z, n);
      SquareIsMinusOne(z * z, n);
      if a == 0 {
        ModSmall(0, n);
      }
      ModSmall(a, n);
      FermatLittle(n, a);
      PowOfSquare(a, k);
      PowOfMinusOne(a * a, k, n);
    }
  }

  lemma SquareIsMinusOne(s: int, n: int)
    requires n > 1 && (s + 1) % n == 0
    ensures s % n == n - 1
  {
    DivModUnique(s, n, (s + 1) / n - 1, n - 1);
  }

  /** So the norm x^2 + y^2 vanishes only at zero. */
  lemma NormIsNonzero(n: nat, x: int, y: int)
    requires IsPrime(n) && n % 4 == 3 && (x % n != 0 || y % n != 0)
    ensures (x * x + y * y) % n != 0
  {
    if (x * x + y * y) % n == 0 {
      if y % n == 0 {
        MultipleTerm(x * x, y, y, n);
        ZeroProduct(n, x, x);
      } else {
        var w := InverseExists(n, y);
        MinusOneIsNoSquare(n, x * w);
        NormTimesSquare(n, x, y, w);
      }
    }
  }

  lemma NormTimesSquare(n: nat, x: int, y: int, w: int)
    requires n > 0 && (x * x + y * y) % n == 0 && y * w % n == 1
    ensures ((x * w) * (x * w) + 1) % n == 0
  {
    var m, t := (x * x + y * y) / n, y * w / n;
    NormAlgebra(n, m, t, x, y, w, y * w);
    DivModUnique((x * w) * (x * w) + 1, n, w * w * m - t * (y * w) - t, 0);
  }

  lemma NormAlgebra(n: int, m: int, t: int, x: int, y: int, w: int, u: int)
    requires x * x + y * y == n * m && u == y * w == n * t + 1
    ensures (x * w) * (x * w) + 1 == n * (w * w * m - t * u - t)
  {
    var z, v := x * w, w * w;
    calc {
      z * z + u * u;
      { SquareOfProduct(1, x, w); SquareOfProduct(1, y, w); }
      v * (x * x) + v * (y * y);
      v * (x * x + y * y);
      v * (n * m);
      n * (v * m);
    }
    assert u * u == n * (t * u) + n * t + 1 by {
      assert (n * t + 1) * u == n * (t * u) + u;
    }
  }

  /** One has only its two square roots. */
  lemma RootsOfOne(n: nat, z: int)
    requires IsPrime(n) && (z * z - 1) % n == 0
    ensures (z - 1) % n == 0 || (z + 1) % n == 0
  {
    assert (z - 1) * (z + 1) == z * z - 1;
    ZeroProduct(n, z - 1, z + 1);
  }

  lemma UnitRoot(n: nat, z: int)
    requires IsPrime(n) && n > 2 && 0 <= z <= n && (z * z - 1) % n == 0
    ensures z == 1 || z == n - 1
  {
    hide IsPrime;
    RootsOfOne(n, z);
    MultipleInRange(n, z + 1);
    if z == 0 {
      assert (n - 1) % n == n - 1 by { ModSmall(n - 1, n); }
      ModShift(-1, 1, n);
    } else if z > 1 {
      MultipleInRange(n, z - 1);
    }
  }

  /** The multiples of n from 1 to 2n - 1. */
  lemma MultipleInRange(n: nat, z: int)
    requires 0 < z < 2 * n
    ensures z % n == 0 <==> z == n
  {
    if z < n {
      ModSmall(z, n);
    } else {
      DivModUnique(z, n, 1, z - n);
    }
  }

  /** A square of a multiple does not matter. */
  lemma DropSquare(n: nat, u: int, v: int)
    requires n > 0 && v % n == 0
    ensures (u - v * v) % n == u % n && (u + v * v) % n == u % n
  {
    var s := v * v;
    assert v * -v == -s;
    MultipleTerm(u, v, -v, n);
    MultipleTerm(u, v, v, n);
  }

  lemma ZeroTimes(u: int, v: int, n: nat)
    requires n > 0 && u % n == 0
    ensures u * v % n == 0
  {
    MultipleTerm(0, u, v, n);
  }

  lemma ZeroNegated(n: nat, u: int)
    requires n > 0
    ensures (-u) % n == 0 <==> u % n == 0
  {
    if u % n == 0 { DivModUnique(-u, n, -(u / n), 0); }
    if (-u) % n == 0 { DivModUnique(u, n, -((-u) / n), 0); }
  }

  // ---------------------------------------------------------------- the inverse

  /** The chain of `fpinv1271` inverts every nonzero residue and keeps zero. */
  lemma NativeInverse(v: int)
    requires v >= 0
    ensures v % P != 0 ==> v * (v * SquareN(Ones(v, 125), 2)) % P == 1
    ensures v % P == 0 ==> v * SquareN(Ones(v, 125), 2) % P == 0
  {
    hide IsPrime;
    PIsPrime();
    InverseExponent(v, P - 2);
    InverseModP(v, P - 2);
  }

  lemma InverseIsUnique(a: int, x: int, y: int, n: int)
    requires n > 1 && a * x % n == 1 && a * y % n == 1
    ensures x % n == y % n
  {
    ModMul(a * x, y, n);
    ModMul(a * y, x, n);
    Rotate(a, x, y);
  }

  lemma Rotate(a: int, x: int, y: int)
    ensures (a * x) * y == (a * y) * x
  {
  }

  lemma InverseOfSame(v: int, x: int, y: int, n: int)
    requires n > 0 && x % n == y % n
    ensures v * x % n == v * y % n
  {
    ModMul(x, v, n);
    ModMul(y, v, n);
  }

  /** c = a^(2^127 - 3), that is a^(p - 2): the inverse of a nonzero residue, and zero for zero. */
  method FpInv1271(a: array<word>, c: array<word>)
    requires Felm(a) && c.Length == 2
    modifies c
    ensures Felm(c) && Same(Fe(c), old(Fe(a)) * SquareN(Ones(old(Fe(a)), 125), 2))
    ensures old(Fe(a)) % P != 0 ==> old(Fe(a)) * Fe(c) % P == 1
    ensures old(Fe(a)) % P == 0 ==> Fe(c) % P == 0
  {
    ghost var x := Fe(a);
    var t := new word[2];
    FpExp1251(a, t);
    ghost var e := Fe(t);
    SquareTimes(t, t, 2);
    SameSquareN(e, Ones(x, 125), 2);
    ghost var s := Fe(t);
    FpMul1271(a, t, c);
    SameMul(x, s, x, SquareN(Ones(x, 125), 2));
    NativeInverse(x);
    InverseOfSame(x, Fe(c), x * SquareN(Ones(x, 125), 2), P);
  }
}
