/** The curve membership test and the normalisation of projective points, on coordinates in memory. */
module Points {
  import opened Words
  import opened ModArith
  import opened Field1271
  import opened FieldPower
  import opened CommutativeRing
  import opened Fermat
  import opened LucasLehmer
  import opened PrimeField
  import opened Fp2

  /** The affine curve equation -x^2 + y^2 = 1 + d x^2 y^2. */
  ghost predicate OnAffineCurve(d: Gf2, x: Gf2, y: Gf2) {
    var r := Gf2Ring();
    r.sub(r.sq(y), r.sq(x)) == r.add(r.one, r.mul(d, r.mul(r.sq(x), r.sq(y))))
  }

  // ---------------------------------------------------------------- the test

  lemma ZeroDifference(x: Gf2, y: Gf2)
    ensures Gf2Ring().sub(x, y) == Pair(0, 0) <==> x == y
  {
    Gf2IsRing();
    DifferenceIsZero(Gf2Ring(), x, y);
  }

  lemma DifferenceIsZero<T(!new)>(r: Ring<T>, x: T, y: T)
    requires IsRing(r)
    ensures r.sub(x, y) == r.zero <==> x == y
  {
    Laws(r, y, r.neg(y), y);
    if r.sub(x, y) == r.zero {
      Cancel(r, x, y, r.neg(y));
    }
  }

  /** y is written so that the imaginary part of y^2 comes out as p, and that of x^2 as 0. */
  ghost predicate Unlucky(x0: int, x1: int, y0: int, y1: int) {
    y0 != 0 && y1 != 0 && y0 * y1 % P == 0 && (x0 == 0 || x1 == 0)
  }

  /** The imaginary part of the square of y0 + y1 i, in whichever representation it came out. */
  lemma ImaginaryOfSquare(re: int, im: int, y0: int, y1: int)
    requires 0 <= im <= P && Residue(re, im) == GMul(Residue(y0, y1), Residue(y0, y1))
    ensures im == 0 || im == P <==> y0 * y1 % P == 0
  {
    hide GMul;
    MulResidues(y0, y1, y0, y1);
    var m := y0 * y1;
    assert y0 * y1 + y1 * y0 == m + m;
    ReduceSame(im);
    ReduceSame(m + m);
    TwiceIsZero(im, m);
  }

  lemma TwiceIsZero(f: int, m: int)
    requires 0 <= f <= P && Same(f, m + m)
    ensures f == 0 || f == P <==> m % P == 0
  {
    if f == 0 || f == P {
      SameShift(f, 0, if f == 0 then 0 else 1);
      var k := SameResidue(m + m, 0, P);
      DivModUnique(m, P, k / 2, 0);
    } else {
      ModSmall(f, P);
      if m % P == 0 {
        ModAdd(m, m, P);
      }
    }
  }

  /** y^2 in t1, x^2 in t2 and their difference in t3, whose imaginary part is p only for unlucky coordinates. */
  method CurveSquares(x: F2, y: F2, t1: F2, t2: F2, t3: F2)
    requires Owned(x) && Owned(y) && Room(t1) && Room(t2) && Room(t3)
    requires {x.re, x.im, y.re, y.im} !! {t1.re, t1.im} !! {t2.re, t2.im} !! {t3.re, t3.im}
    modifies t1.re, t1.im, t2.re, t2.im, t3.re, t3.im
    ensures Owned(t1) && Owned(t2) && Owned(t3)
    ensures Elt(t1) == GMul(Elt(y), Elt(y)) && Elt(t2) == GMul(Elt(x), Elt(x))
    ensures Elt(t3) == Gf2Ring().sub(Elt(t1), Elt(t2))
    ensures Fe(t3.im) == P <==> Unlucky(Fe(x.re), Fe(x.im), Fe(y.re), Fe(y.im))
  {
    hide GMul;
    Fp2Sqr(y, t1);
    Fp2Sqr(x, t2);
    ImaginaryOfSquare(Fe(t1.re), Fe(t1.im), Fe(y.re), Fe(y.im));
    Fp2Sub(t1, t2, t3);
  }

  /** d * t1 * t2 in t2; its imaginary part is never p, because no part of d is 0. */
  method MulTwice(d: F2, t1: F2, t2: F2)
    requires Owned(d) && Owned(t1) && Owned(t2)
    requires {d.re, d.im} !! {t1.re, t1.im} !! {t2.re, t2.im}
    modifies t1.re, t1.im, t2.re, t2.im
    ensures Owned(t2) && Elt(t2) == GMul(GMul(old(Elt(t1)), old(Elt(t2))), Elt(d))
    ensures Fe(d.re) > 0 && Fe(d.im) > 0 ==> Fe(t2.im) < P
  {
    hide GMul;
    Fp2Mul(t1, t2, t1);
    Fp2Mul(t1, d, t2);
  }

  method AddOne(t1: F2, t2: F2)
    requires Room(t1) && Owned(t2) && {t1.re, t1.im} !! {t2.re, t2.im}
    modifies t1.re, t1.im, t2.re, t2.im
    ensures Owned(t2) && Elt(t2) == GAdd(old(Elt(t2)), Pair(1, 0))
    ensures Fe(t2.re) != 0
    ensures old(Fe(t2.im)) < P ==> Fe(t2.im) < P
  {
    t1.re[0], t1.re[1], t1.im[0], t1.im[1] := 1, 0, 0, 0;
    ResidueOfResidue(1, 0);
    ghost var m := Fe(t2.im);
    Fp2Add(t2, t1, t2);
    ImaginaryKept(m, Fe(t2.im));
  }

  /** Adding a zero imaginary part does not turn zero into p. */
  lemma ImaginaryKept(m: int, f: int)
    requires 0 <= m <= P && 0 <= f <= P && (f == 0 <==> m == 0)
    requires Reduce(f) == Reduce(Reduce(m))
    ensures m < P ==> f < P
  {
  }

  ghost function LeftSide(x: Gf2, y: Gf2): Gf2 {
    Gf2Ring().sub(GMul(y, y), GMul(x, x))
  }

  ghost function RightSide(d: Gf2, x: Gf2, y: Gf2): Gf2 {
    GAdd(GMul(GMul(GMul(y, y), GMul(x, x)), d), Pair(1, 0))
  }

  /** The two sides of the curve equation in t3 and t2. */
  method CurveSides(x: F2, y: F2, d: F2, t1: F2, t2: F2, t3: F2)
    requires Owned(x) && Owned(y) && Owned(d) && Room(t1) && Room(t2) && Room(t3)
    requires {x.re, x.im, y.re, y.im, d.re, d.im} !! {t1.re, t1.im} !! {t2.re, t2.im} !! {t3.re, t3.im}
    modifies t1.re, t1.im, t2.re, t2.im, t3.re, t3.im
    ensures Owned(t2) && Owned(t3)
    ensures Elt(t3) == LeftSide(Elt(x), Elt(y)) && Elt(t2) == RightSide(Elt(d), Elt(x), Elt(y))
    ensures Fe(t3.im) == P <==> Unlucky(Fe(x.re), Fe(x.im), Fe(y.re), Fe(y.im))
    ensures Fe(t2.re) != 0 && (Fe(d.re) > 0 && Fe(d.im) > 0 ==> Fe(t2.im) < P)
  {
    hide GMul;
    hide GAdd;
    hide Unlucky;
    CurveSquares(x, y, t1, t2, t3);
    MulTwice(d, t1, t2);
    AddOne(t1, t2);
  }

  /** The test of the last line: it also accepts both words all ones, which no element reaches. */
  method IsZero(t: F2) returns (zero: bool)
    requires Owned(t)
    ensures zero <==> Fe(t.re) == 0 && Fe(t.im) == 0
  {
    zero := && ((t.re[0] == 0 && t.re[1] == 0) || ((t.re[0] + 1) % W == 0 && (t.re[1] + 1) % W == 0))
            && ((t.im[0] == 0 && t.im[1] == 0) || ((t.im[0] + 1) % W == 0 && (t.im[1] + 1) % W == 0));
  }

  /** Accepts only points of the curve, and all of them but those whose coordinates are unlucky: then the difference of
      the two sides comes out as p instead of 0. */
  method Validate(x: F2, y: F2, d: F2) returns (valid: bool)
    requires Owned(x) && Owned(y) && Owned(d)
    ensures valid ==> OnAffineCurve(Elt(d), Elt(x), Elt(y))
    ensures Fe(d.re) > 0 && Fe(d.im) > 0 ==>
            (valid <==> OnAffineCurve(Elt(d), Elt(x), Elt(y)) && !Unlucky(Fe(x.re), Fe(x.im), Fe(y.re), Fe(y.im)))
  {
    hide LeftSide;
    hide RightSide;
    hide OnAffineCurve;
    hide Unlucky;
    hide GAdd;
    hide GMul;
    hide Residue;
    var t1 := NewF2();
    var t2 := NewF2();
    var t3 := NewF2();
    CurveSides(x, y, d, t1, t2, t3);
    ghost var l0, l1, r0, r1 := Fe(t3.re), Fe(t3.im), Fe(t2.re), Fe(t2.im);
    Fp2Sub(t3, t2, t1);
    valid := IsZero(t1);
    Verdict(Elt(d), Elt(x), Elt(y), l0, l1, r0, r1, Fe(t1.re), Fe(t1.im));
  }

  /** The two sides (l0, l1) and (r0, r1) and their difference (re, im): it is zero on the curve, but written as p when
      the left part was p and the right part 0. */
  lemma Verdict(d: Gf2, x: Gf2, y: Gf2, l0: int, l1: int, r0: int, r1: int, re: int, im: int)
    requires 0 <= l1 <= P && 0 <= r1 <= P && 0 <= re <= P && 0 <= im <= P
    requires Residue(l0, l1) == LeftSide(x, y) && Residue(r0, r1) == RightSide(d, x, y)
    requires Residue(re, im) == Gf2Ring().sub(Residue(l0, l1), Residue(r0, r1))
    requires r0 != 0 && (re == P <==> l0 == P && r0 == 0) && (im == P <==> l1 == P && r1 == 0)
    ensures re == 0 && im == 0 ==> OnAffineCurve(d, x, y)
    ensures r1 < P ==> (re == 0 && im == 0 <==> OnAffineCurve(d, x, y) && l1 != P)
  {
    hide LeftSide;
    hide RightSide;
    hide OnAffineCurve;
    hide GAdd;
    hide GNeg;
    SidesMeet(d, x, y);
    ZeroResidues(re, im);
    if l1 == P && LeftSide(x, y) == RightSide(d, x, y) { ZeroImaginary(r1); }
  }

  lemma ZeroImaginary(im: int)
    requires 0 <= im <= P && Reduce(im) == Reduce(P)
    ensures im < P ==> im == 0
  {
  }

  lemma ZeroResidues(re: int, im: int)
    requires 0 <= re <= P && 0 <= im <= P
    ensures Residue(re, im) == Pair(0, 0) <==> (re == 0 || re == P) && (im == 0 || im == P)
  {
    if re < P { ModSmall(re, P); }
    if im < P { ModSmall(im, P); }
  }

  lemma SidesMeet(d: Gf2, x: Gf2, y: Gf2)
    ensures Gf2Ring().sub(LeftSide(x, y), RightSide(d, x, y)) == Pair(0, 0) <==> OnAffineCurve(d, x, y)
    ensures LeftSide(x, y) == RightSide(d, x, y) <==> OnAffineCurve(d, x, y)
  {
    ZeroDifference(LeftSide(x, y), RightSide(d, x, y));
    Gf2IsRing();
    RightSideForm(Gf2Ring(), d, x, y);
  }

  lemma RightSideForm<T(!new)>(r: Ring<T>, d: T, x: T, y: T)
    requires IsRing(r)
    ensures r.add(r.mul(r.mul(r.sq(y), r.sq(x)), d), r.one) == r.add(r.one, r.mul(d, r.mul(r.sq(x), r.sq(y))))
  {
    Laws(r, r.sq(y), r.sq(x), r.one);
    Laws(r, r.mul(r.sq(x), r.sq(y)), d, r.one);
    Laws(r, r.one, r.mul(d, r.mul(r.sq(x), r.sq(y))), r.one);
    Laws(r, r.mul(d, r.mul(r.sq(x), r.sq(y))), r.one, r.one);
  }

  // ---------------------------------------------------------------- the points it wrongly rejects

  /** With real squares a of x and b of y, the curve equation is b - a = 1 + d a b, part by part. */
  lemma RealSquares(d: Gf2, x: Gf2, y: Gf2, a: int, b: int)
    requires GMul(x, x) == Residue(a, 0) && GMul(y, y) == Residue(b, 0)
    ensures OnAffineCurve(d, x, y) <==> Same(b - a, 1 + d.re * (a * b)) && Same(0, d.im * (a * b))
  {
    hide GMul;
    hide GAdd;
    var ab := a * b;
    SubResidues(b, 0, a, 0);
    MulResidues(a, 0, b, 0);
    Canonical(d);
    MulResidues(d.re, d.im, ab, 0);
    ResidueOfResidue(1, 0);
    AddResidues(1, 0, d.re * ab, d.im * ab);
    SameIfEqual(b - a, 1 + d.re * ab);
    SameIfEqual(0, d.im * ab);
  }

  lemma SameIfEqual(u: int, v: int)
    ensures Reduce(u) == Reduce(v) <==> Same(u, v)
  {
    ReduceSame(u);
    ReduceSame(v);
    if Same(u, v) { SameReduce(u, v); }
  }

  /** The square of x0 + x1 i is real when the product of the parts vanishes. */
  lemma RealSquare(x0: int, x1: int)
    requires x0 * x1 % P == 0
    ensures GMul(Residue(x0, x1), Residue(x0, x1)) == Residue(x0 * x0 - x1 * x1, 0)
  {
    hide GMul;
    var m := x0 * x1;
    MulResidues(x0, x1, x0, x1);
    assert x0 * x1 + x1 * x0 == m + m;
    ModAdd(m, m, P);
    SameResidues(x0 * x0 - x1 * x1, m + m, x0 * x0 - x1 * x1, 0);
  }

  lemma SameByZero(u: int, v: int)
    ensures Same(u, v) <==> (u - v) % P == 0
  {
    if Same(u, v) {
      var k := SameResidue(u, v, P);
      DivModUnique(u - v, P, k, 0);
    }
    if (u - v) % P == 0 {
      SameShift(u, v, (u - v) / P);
    }
  }

  /** Where the product of real squares is not killed by d, one of them is zero: the equation is b - a = 1. */
  lemma OneSquareIsZero(d0: int, d1: int, a: int, b: int)
    requires d1 % P != 0
    ensures Same(b - a, 1 + d0 * (a * b)) && Same(0, d1 * (a * b))
       <==> (b - a - 1) % P == 0 && (a % P == 0 || b % P == 0)
  {
    hide IsPrime;
    PIsPrime();
    var ab := a * b;
    SameByZero(b - a, 1 + d0 * ab);
    SameByZero(0, d1 * ab);
    ZeroNegated(P, d1 * ab);
    if d1 * ab % P == 0 {
      ZeroProduct(P, d1, ab);
      ZeroProduct(P, a, b);
      MultipleTerm(b - a - 1, ab, -d0, P);
    }
    if a % P == 0 || b % P == 0 {
      if a % P == 0 { MultipleTerm(0, a, b, P); } else { MultipleTerm(0, b, a, P); }
      MultipleTerm(0, ab, d1, P);
      MultipleTerm(b - a - 1, ab, -d0, P);
    }
  }

  /** The coordinates of the curve points that are rejected, with n for p: plus or minus one with the zero part written
      as p, and, with y written as (p, p), the two points x = (0, 1) and x = (0, -1). */
  ghost predicate OneOfEight(n: int, x0: int, x1: int, y0: int, y1: int) {
    || (y1 == n && (y0 == 1 || y0 == n - 1) && (x0 == 0 || x0 == n) && (x1 == 0 || x1 == n) && (x0 == 0 || x1 == 0))
    || (y0 == n && y1 == n && x0 == 0 && (x1 == 1 || x1 == n - 1))
  }

  lemma ZeroSquare(n: nat, x0: int, x1: int)
    requires IsPrime(n) && 0 <= x0 <= n && 0 <= x1 <= n && (x0 == 0 || x1 == 0) && (x0 * x0 - x1 * x1) % n == 0
    ensures (x0 == 0 || x0 == n) && (x1 == 0 || x1 == n)
  {
    if x0 == 0 {
      ZeroNegated(n, x1 * x1);
      ZeroProduct(n, x1, x1);
      if x1 > 0 { MultipleInRange(n, x1); }
    } else {
      ZeroProduct(n, x0, x0);
      MultipleInRange(n, x0);
    }
  }

  /** A square root of one with a part that is zero: the other part is plus or minus one, and not the imaginary part. */
  lemma RealRootOfOne(n: nat, y0: int, y1: int)
    requires IsPrime(n) && n % 4 == 3 && 0 < y0 <= n && 0 < y1 <= n && y0 * y1 % n == 0
    requires (y0 * y0 - y1 * y1 - 1) % n == 0
    ensures y1 == n && (y0 == 1 || y0 == n - 1)
  {
    ZeroProduct(n, y0, y1);
    if y1 % n == 0 {
      MultipleInRange(n, y1);
      DropSquare(n, y0 * y0 - 1, y1);
      UnitRoot(n, y0);
    } else {
      DropSquare(n, -(y1 * y1) - 1, y0);
      ZeroNegated(n, y1 * y1 + 1);
      MinusOneIsNoSquare(n, y1);
    }
  }

  lemma ZeroSquareOfUnreduced(n: nat, y0: int, y1: int)
    requires IsPrime(n) && 0 < y0 <= n && 0 < y1 <= n && y0 * y1 % n == 0 && (y0 * y0 - y1 * y1) % n == 0
    ensures y0 == n && y1 == n
  {
    ZeroProduct(n, y0, y1);
    if y0 % n == 0 {
      DropSquare(n, -(y1 * y1), y0);
      ZeroNegated(n, y1 * y1);
      ZeroProduct(n, y1, y1);
    } else {
      DropSquare(n, y0 * y0, y1);
      ZeroProduct(n, y0, y0);
    }
    MultipleInRange(n, y0);
    MultipleInRange(n, y1);
  }

  lemma ImaginaryRootOfMinusOne(n: nat, x0: int, x1: int)
    requires IsPrime(n) && n % 4 == 3 && 0 <= x0 <= n && 0 <= x1 <= n && (x0 == 0 || x1 == 0)
    requires (x0 * x0 - x1 * x1 + 1) % n == 0
    ensures x0 == 0 && (x1 == 1 || x1 == n - 1)
  {
    if x0 == 0 {
      ZeroNegated(n, x1 * x1 - 1);
      UnitRoot(n, x1);
    } else {
      MinusOneIsNoSquare(n, x0);
    }
  }

  /** Real squares with b - a = 1 and one of them zero: only the eight. */
  lemma OnlyThese(n: nat, x0: int, x1: int, y0: int, y1: int, a: int, b: int)
    requires IsPrime(n) && n % 4 == 3 && 0 <= x0 <= n && 0 <= x1 <= n && 0 < y0 <= n && 0 < y1 <= n
    requires (x0 == 0 || x1 == 0) && y0 * y1 % n == 0
    requires a == x0 * x0 - x1 * x1 && b == y0 * y0 - y1 * y1
    requires (b - a - 1) % n == 0 && (a % n == 0 || b % n == 0)
    ensures OneOfEight(n, x0, x1, y0, y1)
  {
    if a % n == 0 {
      MultipleTerm(b - a - 1, a, 1, n);
      ZeroSquare(n, x0, x1);
      RealRootOfOne(n, y0, y1);
    } else {
      MultipleTerm(b - a - 1, b, -1, n);
      ZeroNegated(n, a + 1);
      ZeroSquareOfUnreduced(n, y0, y1);
      ImaginaryRootOfMinusOne(n, x0, x1);
    }
  }

  /** The eight indeed. */
  lemma AllOfThese(n: nat, x0: int, x1: int, y0: int, y1: int, a: int, b: int)
    requires n > 2 && OneOfEight(n, x0, x1, y0, y1) && a == x0 * x0 - x1 * x1 && b == y0 * y0 - y1 * y1
    ensures y0 != 0 && y1 != 0 && y0 * y1 % n == 0 && (x0 == 0 || x1 == 0)
    ensures (b - a - 1) % n == 0 && (a % n == 0 || b % n == 0)
  {
    DivModUnique(n, n, 1, 0);
    if y0 == n {
      ZeroTimes(n, y1, n);
      UnitSquare(n, x1);
    } else {
      ZeroTimes(n, y0, n);
      UnitSquare(n, y0);
      DropSquare(n, y0 * y0 - 1, n);
      DivModUnique(0, n, 0, 0);
      DropSquare(n, y0 * y0 - n * n - 1, x0);
      DropSquare(n, y0 * y0 - n * n - 1, x1);
      DropSquare(n, 0, x0);
      DropSquare(n, 0, x1);
    }
  }

  lemma UnitSquare(n: nat, z: int)
    requires n > 0 && (z == 1 || z == n - 1)
    ensures (z * z - 1) % n == 0
  {
    if z == 1 {
      DivModUnique(0, n, 0, 0);
    } else {
      assert (n - 1) * (n - 1) - 1 == n * (n - 2);
      DivModUnique(z * z - 1, n, n - 2, 0);
    }
  }

  /** The curve points the test rejects are these eight pairs of coordinates, whatever the curve constant. */
  lemma RejectedCurvePoints(d: Gf2, x0: int, x1: int, y0: int, y1: int)
    requires d.im != 0 && 0 <= x0 <= P && 0 <= x1 <= P && 0 <= y0 <= P && 0 <= y1 <= P
    ensures OnAffineCurve(d, Residue(x0, x1), Residue(y0, y1)) && Unlucky(x0, x1, y0, y1)
       <==> OneOfEight(P, x0, x1, y0, y1)
  {
    hide OnAffineCurve;
    hide GMul;
    hide OneOfEight;
    hide IsPrime;
    PIsPrime();
    var a, b := x0 * x0 - x1 * x1, y0 * y0 - y1 * y1;
    if OneOfEight(P, x0, x1, y0, y1) {
      AllOfThese(P, x0, x1, y0, y1, a, b);
    }
    if Unlucky(x0, x1, y0, y1) {
      RealSquare(x0, x1);
      RealSquare(y0, y1);
      RealSquares(d, Residue(x0, x1), Residue(y0, y1), a, b);
      ModSmall(d.im, P);
      OneSquareIsZero(d.re, d.im, a, b);
      if (b - a - 1) % P == 0 && (a % P == 0 || b % P == 0) {
        OnlyThese(P, x0, x1, y0, y1, a, b);
      }
    }
  }

  /** The neutral point with its zero part written as p is on the curve, and one of the eight. */
  lemma NeutralIsRejected(d: Gf2)
    ensures OnAffineCurve(d, Residue(0, 0), Residue(1, P))
    ensures Unlucky(0, 0, 1, P) && OneOfEight(P, 0, 0, 1, P)
  {
    hide OnAffineCurve;
    hide GMul;
    AllOfThese(P, 0, 0, 1, P, 0, 1 - P * P);
    RealSquare(0, 0);
    RealSquare(1, P);
    RealSquares(d, Residue(0, 0), Residue(1, P), 0, 1 - P * P);
    SameByZero(1 - P * P, 1);
  }

  /** `PARAMETER_d`. */
  const PARAMETER_D: seq<word> := [0x142, 0xE4, 0xB3821488F1FC0C8D, 0x5E472F846657E0FC]

  ghost predicate IsParameterD(d: F2)
    reads d.re, d.im
  {
    d.re.Length == 2 && d.im.Length == 2 && d.re[..] == PARAMETER_D[..2] && d.im[..] == PARAMETER_D[2..]
  }

  /** Accepts only points of the curve, and all of them except eight that write a zero part of y as p. In particular,
      where the imaginary part of y is below p, it decides the curve equation. */
  method EccPointValidate(x: F2, y: F2, d: F2) returns (valid: bool)
    requires Owned(x) && Owned(y) && d.re != d.im && IsParameterD(d)
    ensures valid ==> OnAffineCurve(Elt(d), Elt(x), Elt(y))
    ensures valid <==> OnAffineCurve(Elt(d), Elt(x), Elt(y)) && !Unlucky(Fe(x.re), Fe(x.im), Fe(y.re), Fe(y.im))
    ensures valid <==> OnAffineCurve(Elt(d), Elt(x), Elt(y)) && !OneOfEight(P, Fe(x.re), Fe(x.im), Fe(y.re), Fe(y.im))
    ensures Fe(y.im) < P ==> (valid <==> OnAffineCurve(Elt(d), Elt(x), Elt(y)))
  {
    hide OnAffineCurve;
    hide Unlucky;
    assert d.re[0] == PARAMETER_D[..2][0] && d.re[1] == PARAMETER_D[..2][1];
    assert d.im[0] == PARAMETER_D[2..][0] && d.im[1] == PARAMETER_D[2..][1];
    valid := Validate(x, y, d);
    RejectedCurvePoints(Elt(d), Fe(x.re), Fe(x.im), Fe(y.re), Fe(y.im));
  }

  // ---------------------------------------------------------------- normalisation

  /** The conjugate over the norm n is the inverse. */
  lemma ConjugateOverNorm(z0: int, z1: int, n: int, u: int, v: int)
    requires Same(u, z0 * n) && Same(v, (P - z1) * n)
    requires (z0 * z0 + z1 * z1) * n % P == 1
    ensures GMul(Residue(u, v), Residue(z0, z1)) == Pair(1, 0)
  {
    hide GMul;
    var p, q := z0 * n, (P - z1) * n;
    MulResidues(u, v, z0, z1);
    ModSmall(1, P);
    SameProductSum(u, z0, v, z1, p, z0, q, z1);
    SameProductSum(u, z1, v, z0, p, z1, q, z0);
    ConjugateAlgebra(z0, z1, n);
    SameShift(p * z0 - q * z1, (z0 * z0 + z1 * z1) * n, -(n * z1));
    SameShift(p * z1 + q * z0, 0, n * z0);
    SameResidues(u * z0 - v * z1, u * z1 + v * z0, 1, 0);
    ResidueOfResidue(1, 0);
  }

  lemma ConjugateAlgebra(z0: int, z1: int, n: int)
    ensures (z0 * n) * z0 - ((P - z1) * n) * z1 == (z0 * z0 + z1 * z1) * n - P * (n * z1)
    ensures (z0 * n) * z1 + ((P - z1) * n) * z0 == P * (n * z0)
  {
    assert (P - z1) * n == P * n - z1 * n;
    assert (P * n - z1 * n) * z1 == P * (n * z1) - (z1 * z1) * n;
    assert (P * n - z1 * n) * z0 == P * (n * z0) - (z1 * z0) * n;
  }

  lemma ResidueIsZero(z0: int, z1: int)
    ensures Residue(z0, z1) == Pair(0, 0) <==> z0 % P == 0 && z1 % P == 0
  {
    SameIfEqual(z0, 0);
    SameIfEqual(z1, 0);
  }

  lemma InvertedNonzero(z0: int, z1: int, norm: int, n: int, u: int, v: int)
    requires Same(norm, z0 * z0 + z1 * z1) && (norm % P != 0 ==> norm * n % P == 1)
    requires Same(u, z0 * n) && Same(v, (P - z1) * n) && Residue(z0, z1) != Pair(0, 0)
    ensures GMul(Residue(u, v), Residue(z0, z1)) == Pair(1, 0)
  {
    hide GMul;
    hide IsPrime;
    PIsPrime();
    ResidueIsZero(z0, z1);
    NormIsNonzero(P, z0, z1);
    SameMul(norm, n, z0 * z0 + z1 * z1, n);
    ConjugateOverNorm(z0, z1, n, u, v);
  }

  lemma InvertedZero(z0: int, z1: int, n: int, u: int, v: int)
    requires Same(u, z0 * n) && Same(v, (P - z1) * n) && Residue(z0, z1) == Pair(0, 0)
    ensures Residue(u, v) == Pair(0, 0)
  {
    hide Residue;
    ResidueIsZero(z0, z1);
    ResidueIsZero(u, v);
    ZeroTimes(z0, n, P);
    ModSub(z1, P, P);
    ZeroTimes(P - z1, n, P);
  }

  method NormOf(z: F2) returns (t: array<word>)
    requires Owned(z)
    ensures fresh(t) && Felm(t) && Same(Fe(t), Fe(z.re) * Fe(z.re) + Fe(z.im) * Fe(z.im))
  {
    hide Same;
    ghost var z0, z1 := Fe(z.re), Fe(z.im);
    t := new word[2];
    var t1 := new word[2];
    FpSqr1271(z.re, t);
    FpSqr1271(z.im, t1);
    ghost var s0, s1 := Fe(t), Fe(t1);
    FpAdd1271(t, t1, t);
    SameSum(s0, s1, z0 * z0, z1 * z1);
    SameTrans(Fe(t), s0 + s1, z0 * z0 + z1 * z1);
  }

  /** z becomes its inverse, and zero stays zero. */
  method InvertInPlace(z: F2)
    requires Owned(z)
    modifies z.re, z.im
    ensures Owned(z)
    ensures old(Elt(z)) != Pair(0, 0) ==> GMul(Elt(z), old(Elt(z))) == Pair(1, 0)
    ensures old(Elt(z)) == Pair(0, 0) ==> Elt(z) == Pair(0, 0)
  {
    hide GMul;
    hide Same;
    ghost var z0, z1 := Fe(z.re), Fe(z.im);
    var t := NormOf(z);
    ghost var norm := Fe(t);
    FpInv1271(t, t);
    ghost var n := Fe(t);
    FpNeg1271(z.im);
    FpMul1271(z.re, t, z.re);
    FpMul1271(z.im, t, z.im);
    if Residue(z0, z1) != Pair(0, 0) {
      InvertedNonzero(z0, z1, norm, n, Fe(z.re), Fe(z.im));
    }
    if Residue(z0, z1) == Pair(0, 0) {
      InvertedZero(z0, z1, n, Fe(z.re), Fe(z.im));
    }
  }

  method ReduceBoth(q: F2)
    requires Owned(q)
    modifies q.re, q.im
    ensures Owned(q) && Fe(q.re) < P && Fe(q.im) < P && Elt(q) == old(Elt(q))
  {
    ghost var a, b := Fe(q.re), Fe(q.im);
    Mod1271(q.re);
    Mod1271(q.im);
    ReducedRange(a);
    ReducedRange(b);
    SameResidues(Fe(q.re), Fe(q.im), a, b);
  }

  lemma ReducedRange(a: int)
    ensures 0 <= a % P < P && Same(a % P, a)
  {
    ModSmall(a % P, P);
  }

  /** The quotient by z, from an inverse of z. */
  lemma QuotientTimesDivisor(q: Gf2, x: Gf2, z: Gf2, inverse: Gf2)
    requires q == GMul(x, inverse) && GMul(inverse, z) == Pair(1, 0)
    ensures GMul(q, z) == x
  {
    hide GMul;
    MulAssociates(x, inverse, z);
    MulOne(x);
  }

  lemma TimesZero(x: Gf2)
    ensures GMul(x, Pair(0, 0)) == Pair(0, 0)
  {
    hide GMul;
    Canonical(x);
    MulResidues(x.re, x.im, 0, 0);
    ResidueOfResidue(0, 0);
  }

  /** (X : Y : Z) to the affine point (X / Z, Y / Z), fully reduced; Z is overwritten. With Z = 0 both coordinates are 0. */
  method EccNorm(X: F2, Y: F2, Z: F2, x: F2, y: F2)
    requires Owned(X) && Owned(Y) && Owned(Z) && Room(x) && Room(y)
    requires {X.re, X.im, Y.re, Y.im} !! {Z.re, Z.im} !! {x.re, x.im} !! {y.re, y.im}
    modifies Z.re, Z.im, x.re, x.im, y.re, y.im
    ensures Owned(x) && Fe(x.re) < P && Fe(x.im) < P && Owned(y) && Fe(y.re) < P && Fe(y.im) < P
    ensures old(Elt(Z)) != Pair(0, 0) ==>
            GMul(Elt(x), old(Elt(Z))) == Elt(X) && GMul(Elt(y), old(Elt(Z))) == Elt(Y)
    ensures old(Elt(Z)) == Pair(0, 0) ==> Elt(x) == Pair(0, 0) && Elt(y) == Pair(0, 0)
  {
    hide Residue;
    hide Reduce;
    hide GMul;
    ghost var z := Elt(Z);
    InvertInPlace(Z);
    Fp2Mul(X, Z, x);
    Fp2Mul(Y, Z, y);
    ReduceBoth(x);
    ReduceBoth(y);
    if z != Pair(0, 0) {
      QuotientTimesDivisor(Elt(x), Elt(X), z, Elt(Z));
      QuotientTimesDivisor(Elt(y), Elt(Y), z, Elt(Z));
    }
    TimesZero(Elt(X));
    TimesZero(Elt(Y));
  }

  lemma InverseInField(z: Gf2) returns (w: Gf2)
    requires z != Pair(0, 0)
    ensures GMul(w, z) == Pair(1, 0)
  {
    hide GMul;
    hide IsPrime;
    PIsPrime();
    Canonical(z);
    ResidueIsZero(z.re, z.im);
    NormIsNonzero(P, z.re, z.im);
    var n := InverseExists(P, z.re * z.re + z.im * z.im);
    w := Residue(z.re * n, (P - z.im) * n);
    ConjugateOverNorm(z.re, z.im, n, z.re * n, (P - z.im) * n);
  }

  /** Projective coordinates of one point normalise to one result. */
  lemma NormalFormIsUnique(q: Gf2, q': Gf2, x: Gf2, z: Gf2, x': Gf2, z': Gf2)
    requires z != Pair(0, 0) && z' != Pair(0, 0)
    requires GMul(q, z) == x && GMul(q', z') == x' && GMul(x, z') == GMul(x', z)
    ensures q == q'
  {
    hide GMul;
    var w := InverseInField(z);
    var w' := InverseInField(z');
    // q z z' = q' z z', and both factors can be cancelled
    MulAssociates(q, z, z');
    MulAssociates(q', z', z);
    MulCommutes(z', z);
    CancelFactor(q, z, z', w, w');
    CancelFactor(q', z, z', w, w');
  }

  lemma CancelFactor(q: Gf2, z: Gf2, z': Gf2, w: Gf2, w': Gf2)
    requires GMul(w, z) == Pair(1, 0) && GMul(w', z') == Pair(1, 0)
    ensures GMul(GMul(GMul(q, GMul(z, z')), w'), w) == q
  {
    hide GMul;
    MulCommutes(w, z);
    MulCommutes(w', z');
    MulAssociates(q, z, z');
    MulAssociates(GMul(q, z), z', w');
    MulOne(GMul(q, z));
    MulAssociates(q, z, w);
    MulOne(q);
  }
}
