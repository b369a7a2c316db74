/** The a = -1 twisted Edwards formulas in extended coordinates, over any commutative ring. */
module Edwards {
  import opened CommutativeRing

  /** (X : Y : Z) with the product T = Ta * Tb kept in two factors. */
  datatype Point<T> = Point(x: T, y: T, z: T, ta: T, tb: T)

  /** T = X * Y / Z, and the curve equation Y^2 - X^2 = Z^2 + d * T^2. */
  ghost predicate OnCurve<T>(r: Ring<T>, d: T, p: Point<T>) {
    && Coherent(r, p)
    && r.sub(r.sq(p.y), r.sq(p.x)) == r.add(r.sq(p.z), r.mul(d, r.sq(r.mul(p.ta, p.tb))))
  }

  ghost predicate Coherent<T>(r: Ring<T>, p: Point<T>) {
    r.mul(p.x, p.y) == r.mul(p.z, r.mul(p.ta, p.tb))
  }

  /** s is the Edwards sum of p and q, with denominators multiplied out:
      x = (x1*y2 + y1*x2) / (1 + d*x1*x2*y1*y2) and y = (y1*y2 + x1*x2) / (1 - d*x1*x2*y1*y2). */
  ghost predicate IsSum<T>(r: Ring<T>, d: T, p: Point<T>, q: Point<T>, s: Point<T>) {
    var zz := r.mul(p.z, q.z);
    var e := r.mul(d, r.mul(r.mul(p.x, p.y), r.mul(q.x, q.y)));
    && r.mul(s.x, r.add(r.sq(zz), e)) == r.mul(s.z, r.mul(r.add(r.mul(p.x, q.y), r.mul(p.y, q.x)), zz))
    && r.mul(s.y, r.sub(r.sq(zz), e)) == r.mul(s.z, r.mul(r.add(r.mul(p.y, q.y), r.mul(p.x, q.x)), zz))
  }

  /** In projective form the curve equation reads Z^2 (Y^2 - X^2) = Z^4 + d X^2 Y^2. */
  lemma ProjectiveEquation<T(!new)>(r: Ring<T>, d: T, p: Point<T>)
    requires IsRing(r) && OnCurve(r, d, p)
    ensures r.mul(r.sq(p.z), r.sub(r.sq(p.y), r.sq(p.x)))
         == r.add(r.sq(r.sq(p.z)), r.mul(d, r.mul(r.sq(p.x), r.sq(p.y))))
  {
    var t := r.mul(p.ta, p.tb);
    Transfer(r, Mul(Sq(V(0)), Add(Sq(V(0)), Mul(V(2), Sq(V(1))))),
                Add(Sq(Sq(V(0))), Mul(V(2), Sq(Mul(V(0), V(1))))), [p.z, t, d]);
    SquareOfProduct(r, p.x, p.y);
  }

  // ---------------------------------------------------------------- doubling

  /** With E = 2XY, F = Y^2 - X^2 and G = X^2 + Y^2: G^2 = F^2 + E^2. */
  lemma SumOfSquares<T(!new)>(r: Ring<T>, x: T, y: T)
    requires IsRing(r)
    ensures r.sq(r.add(r.sq(x), r.sq(y))) == r.add(r.sq(r.sub(r.sq(y), r.sq(x))), r.sq(r.dbl(r.mul(x, y))))
    ensures r.sub(r.sq(r.add(x, y)), r.add(r.sq(x), r.sq(y))) == r.dbl(r.mul(x, y))
  {
    Transfer(r, Sq(Add(Sq(V(0)), Sq(V(1)))), Add(Sq(Minus(Sq(V(1)), Sq(V(0)))), Sq(Dbl(Mul(V(0), V(1))))), [x, y]);
    SquareOfSum(r, x, y);
  }

  lemma SquareOfSum<T(!new)>(r: Ring<T>, x: T, y: T)
    requires IsRing(r)
    ensures r.sub(r.sq(r.add(x, y)), r.add(r.sq(x), r.sq(y))) == r.dbl(r.mul(x, y))
  {
    Transfer(r, Minus(Sq(Add(V(0), V(1))), Add(Sq(V(0)), Sq(V(1)))), Dbl(Mul(V(0), V(1))), [x, y]);
  }

  /** With H = 2Z^2 - F and F = Z^2 + d T^2: H^2 = F^2 - d E^2 for E = 2ZT. */
  lemma DoublingDenominator<T(!new)>(r: Ring<T>, z: T, t: T, d: T)
    requires IsRing(r)
    ensures var F := r.add(r.sq(z), r.mul(d, r.sq(t)));
            r.sq(r.sub(r.dbl(r.sq(z)), F)) == r.sub(r.sq(F), r.mul(d, r.sq(r.dbl(r.mul(z, t)))))
  {
    Transfer(r, Sq(Minus(Dbl(Sq(V(0))), Add(Sq(V(0)), Mul(V(2), Sq(V(1)))))),
                Minus(Sq(Add(Sq(V(0)), Mul(V(2), Sq(V(1))))), Mul(V(2), Sq(Dbl(Mul(V(0), V(1)))))), [z, t, d]);
  }

  lemma DoubledProduct<T(!new)>(r: Ring<T>, E: T, F: T, G: T, H: T)
    requires IsRing(r)
    ensures r.mul(r.mul(H, E), r.mul(F, G)) == r.mul(r.mul(F, H), r.mul(E, G))
  {
    Transfer(r, Mul(Mul(V(3), V(0)), Mul(V(1), V(2))), Mul(Mul(V(1), V(3)), Mul(V(0), V(2))), [E, F, G, H]);
  }

  /** The curve equation of (HE, FG, FH) with T = EG follows from those two squares. */
  lemma DoubledEquation<T(!new)>(r: Ring<T>, E: T, F: T, G: T, H: T, d: T)
    requires IsRing(r)
    requires r.sq(G) == r.add(r.sq(F), r.sq(E)) && r.sq(H) == r.sub(r.sq(F), r.mul(d, r.sq(E)))
    ensures OnCurve(r, d, Point(r.mul(H, E), r.mul(F, G), r.mul(F, H), E, G))
  {
    DoubledProduct(r, E, F, G, H);
    var e, f := r.sq(E), r.sq(F);
    SquareOfProduct(r, F, G);
    SquareOfProduct(r, H, E);
    SquareOfProduct(r, F, H);
    SquareOfProduct(r, E, G);
    DoubledSquares(r, e, f, d);
  }

  /** f (f + e) - (f - d e) e = f (f - d e) + d e (f + e). */
  lemma DoubledSquares<T(!new)>(r: Ring<T>, e: T, f: T, d: T)
    requires IsRing(r)
    ensures r.sub(r.mul(f, r.add(f, e)), r.mul(r.sub(f, r.mul(d, e)), e))
         == r.add(r.mul(f, r.sub(f, r.mul(d, e))), r.mul(d, r.mul(e, r.add(f, e))))
  {
    Transfer(r, Minus(Mul(V(1), Add(V(1), V(0))), Mul(Minus(V(1), Mul(V(2), V(0))), V(0))),
                Add(Mul(V(1), Minus(V(1), Mul(V(2), V(0)))), Mul(V(2), Mul(V(0), Add(V(1), V(0))))), [e, f, d]);
  }

  lemma SquareOfProduct<T(!new)>(r: Ring<T>, x: T, y: T)
    requires IsRing(r)
    ensures r.sq(r.mul(x, y)) == r.mul(r.sq(x), r.sq(y))
  {
    Transfer(r, Sq(Mul(V(0), V(1))), Mul(Sq(V(0)), Sq(V(1))), [x, y]);
  }

  /** zz^2 - e = zz (2 zz - F) once zz F = zz^2 + e. */
  lemma OtherDenominator<T(!new)>(r: Ring<T>, zz: T, F: T, e: T)
    requires IsRing(r) && r.mul(zz, F) == r.add(r.sq(zz), e)
    ensures r.sub(r.sq(zz), e) == r.mul(zz, r.sub(r.dbl(zz), F))
  {
    Transfer(r, Minus(Sq(V(0)), V(1)), Minus(Dbl(Sq(V(0))), Add(Sq(V(0)), V(1))), [zz, e]);
    Transfer(r, Minus(Dbl(Sq(V(0))), Mul(V(0), V(1))), Mul(V(0), Minus(Dbl(V(0)), V(1))), [zz, F]);
  }

  /** (b*a) * (n*c) = (c*b) * (a*n). */
  lemma Quotient<T(!new)>(r: Ring<T>, a: T, b: T, c: T, n: T)
    requires IsRing(r)
    ensures r.mul(r.mul(b, a), r.mul(n, c)) == r.mul(r.mul(c, b), r.mul(a, n))
    ensures r.mul(r.mul(a, b), r.mul(n, c)) == r.mul(r.mul(b, c), r.mul(a, n))
  {
    Transfer(r, Mul(Mul(V(1), V(0)), Mul(V(3), V(2))), Mul(Mul(V(2), V(1)), Mul(V(0), V(3))), [a, b, c, n]);
    Laws(r, a, b, c);
    Laws(r, c, b, a);
  }

  /** Doubling is adding a point to itself: the denominators are Z^2 F and Z^2 H on the curve. */
  lemma DoublingIsSum<T(!new)>(r: Ring<T>, d: T, p: Point<T>)
    requires IsRing(r) && OnCurve(r, d, p)
    ensures IsSum(r, d, p, p, Doubled(r, p))
  {
    var x, y, zz := p.x, p.y, r.sq(p.z);
    var E, F, G := r.dbl(r.mul(x, y)), r.sub(r.sq(y), r.sq(x)), r.add(r.sq(x), r.sq(y));
    var H := r.sub(r.dbl(zz), F);
    var e := r.mul(d, r.sq(r.mul(x, y)));
    ProjectiveEquation(r, d, p);
    SquareOfProduct(r, x, y);
    OtherDenominator(r, zz, F, e);
    Quotient(r, E, H, F, zz);
    Quotient(r, G, F, H, zz);
    Laws(r, x, y, x);
    Laws(r, r.sq(x), r.sq(y), zz);
    Laws(r, F, H, G);
  }

  /** (HE : FG : FH) with T = EG. */
  ghost function Doubled<T>(r: Ring<T>, p: Point<T>): Point<T> {
    var E, F, G := r.dbl(r.mul(p.x, p.y)), r.sub(r.sq(p.y), r.sq(p.x)), r.add(r.sq(p.x), r.sq(p.y));
    var H := r.sub(r.dbl(r.sq(p.z)), F);
    Point(r.mul(H, E), r.mul(F, G), r.mul(F, H), E, G)
  }

  lemma DoublingOnCurve<T(!new)>(r: Ring<T>, d: T, p: Point<T>)
    requires IsRing(r) && OnCurve(r, d, p)
    ensures OnCurve(r, d, Doubled(r, p))
  {
    SumOfSquares(r, p.x, p.y);
    DoublingDenominator(r, p.z, r.mul(p.ta, p.tb), d);
    var E, F, G := r.dbl(r.mul(p.x, p.y)), r.sub(r.sq(p.y), r.sq(p.x)), r.add(r.sq(p.x), r.sq(p.y));
    DoubledEquation(r, E, F, G, r.sub(r.dbl(r.sq(p.z)), F), d);
  }

  /** The neutral point (0 : 1 : 1), whose factors of T were never assigned: one doubling puts it on the curve. */
  lemma NeutralDoubledOnCurve<T(!new)>(r: Ring<T>, d: T, ta: T, tb: T)
    requires IsRing(r)
    ensures OnCurve(r, d, Doubled(r, Point(r.zero, r.one, r.one, ta, tb)))
  {
    var p := Point(r.zero, r.one, r.one, r.zero, r.zero);
    NegZero(r);
    MulZero(r, r.zero);
    MulZero(r, r.one);
    MulZero(r, d);
    Laws(r, r.one, r.zero, d);
    Laws(r, d, r.zero, d);
    assert OnCurve(r, d, p);
    DoublingOnCurve(r, d, p);
    assert Doubled(r, p) == Doubled(r, Point(r.zero, r.one, r.one, ta, tb));
  }

  // ---------------------------------------------------------------- addition

  /** `point_extproj_precomp`: (X + Y, Y - X, 2Z, 2dT), or with Z and T in place of 2Z and 2dT. */
  datatype Precomp<T> = Precomp(xy: T, yx: T, z2: T, t2: T)

  /** X*Y = Z*Ta*Tb for (2A*2D : 2B*2C : 2C*2D) with Ta = 2B and Tb = 2A, whatever A, B, C, D are. */
  lemma AddedCoherent<T(!new)>(r: Ring<T>, a2: T, b2: T, c2: T, d2: T)
    requires IsRing(r)
    ensures Coherent(r, Point(r.mul(a2, d2), r.mul(b2, c2), r.mul(c2, d2), b2, a2))
  {
    Transfer(r, Mul(Mul(V(0), V(3)), Mul(V(1), V(2))), Mul(Mul(V(2), V(3)), Mul(V(1), V(0))), [a2, b2, c2, d2]);
  }

  /** The four cross terms of an addition, without their common factor two. */
  ghost function CrossA<T>(r: Ring<T>, p: Point<T>, q: Point<T>): T { r.add(r.mul(p.x, q.y), r.mul(p.y, q.x)) }
  ghost function CrossB<T>(r: Ring<T>, p: Point<T>, q: Point<T>): T { r.add(r.mul(p.y, q.y), r.mul(p.x, q.x)) }
  ghost function CrossT<T>(r: Ring<T>, d: T, p: Point<T>, q: Point<T>): T {
    r.mul(d, r.mul(r.mul(p.ta, p.tb), r.mul(q.ta, q.tb)))
  }
  ghost function CrossC<T>(r: Ring<T>, d: T, p: Point<T>, q: Point<T>): T { r.add(r.mul(p.z, q.z), CrossT(r, d, p, q)) }
  ghost function CrossD<T>(r: Ring<T>, d: T, p: Point<T>, q: Point<T>): T { r.sub(r.mul(p.z, q.z), CrossT(r, d, p, q)) }

  /** (2A*2D : 2B*2C : 2C*2D). */
  ghost function Added<T>(r: Ring<T>, d: T, p: Point<T>, q: Point<T>): Point<T> {
    var a2, b2, c2, d2 := r.dbl(CrossA(r, p, q)), r.dbl(CrossB(r, p, q)), r.dbl(CrossC(r, d, p, q)), r.dbl(CrossD(r, d, p, q));
    Point(r.mul(a2, d2), r.mul(b2, c2), r.mul(c2, d2), b2, a2)
  }

  /** (X1 + Y1)(X2 + Y2) - (Y1 - X1)(Y2 - X2) = 2 (X1 Y2 + Y1 X2). */
  lemma CrossDifference<T(!new)>(r: Ring<T>, x1: T, y1: T, x2: T, y2: T)
    requires IsRing(r)
    ensures r.sub(r.mul(r.add(x1, y1), r.add(x2, y2)), r.mul(r.sub(y1, x1), r.sub(y2, x2))) == r.dbl(r.add(r.mul(x1, y2), r.mul(y1, x2)))
  {
    Transfer(r, Minus(Mul(Add(V(0), V(1)), Add(V(2), V(3))), Mul(Minus(V(1), V(0)), Minus(V(3), V(2)))),
                Dbl(Add(Mul(V(0), V(3)), Mul(V(1), V(2)))), [x1, y1, x2, y2]);
  }

  /** (X1 + Y1)(X2 + Y2) + (Y1 - X1)(Y2 - X2) = 2 (Y1 Y2 + X1 X2). */
  lemma CrossSum<T(!new)>(r: Ring<T>, x1: T, y1: T, x2: T, y2: T)
    requires IsRing(r)
    ensures r.add(r.mul(r.add(x1, y1), r.add(x2, y2)), r.mul(r.sub(y1, x1), r.sub(y2, x2))) == r.dbl(r.add(r.mul(y1, y2), r.mul(x1, x2)))
  {
    Transfer(r, Add(Mul(Add(V(0), V(1)), Add(V(2), V(3))), Mul(Minus(V(1), V(0)), Minus(V(3), V(2)))),
                Dbl(Add(Mul(V(1), V(3)), Mul(V(0), V(2)))), [x1, y1, x2, y2]);
  }

  /** d (Z1 T1)(Z2 T2) = (Z1 Z2)(d T1 T2). */
  lemma CrossDenominator<T(!new)>(r: Ring<T>, z1: T, t1: T, z2: T, t2: T, d: T)
    requires IsRing(r)
    ensures r.mul(d, r.mul(r.mul(z1, t1), r.mul(z2, t2))) == r.mul(r.mul(z1, z2), r.mul(d, r.mul(t1, t2)))
  {
    Transfer(r, Mul(V(4), Mul(Mul(V(0), V(1)), Mul(V(2), V(3)))), Mul(Mul(V(0), V(2)), Mul(V(4), Mul(V(1), V(3)))), [z1, t1, z2, t2, d]);
  }

  lemma Factor<T(!new)>(r: Ring<T>, n: T, t: T)
    requires IsRing(r)
    ensures r.add(r.sq(n), r.mul(n, t)) == r.mul(n, r.add(n, t))
    ensures r.sub(r.sq(n), r.mul(n, t)) == r.mul(n, r.sub(n, t))
  {
    Transfer(r, Add(Sq(V(0)), Mul(V(0), V(1))), Mul(V(0), Add(V(0), V(1))), [n, t]);
    Transfer(r, Minus(Sq(V(0)), Mul(V(0), V(1))), Mul(V(0), Minus(V(0), V(1))), [n, t]);
  }

  /** (2a*2b) * (n*c) = (2c*2b) * (a*n). */
  lemma SumQuotient<T(!new)>(r: Ring<T>, a: T, b: T, c: T, n: T)
    requires IsRing(r)
    ensures r.mul(r.mul(r.dbl(a), r.dbl(b)), r.mul(n, c)) == r.mul(r.mul(r.dbl(c), r.dbl(b)), r.mul(a, n))
  {
    Transfer(r, Mul(Mul(Dbl(V(0)), Dbl(V(1))), Mul(V(3), V(2))), Mul(Mul(Dbl(V(2)), Dbl(V(1))), Mul(V(0), V(3))), [a, b, c, n]);
  }

  /** The added point is the Edwards sum. */
  lemma AddedIsSum<T(!new)>(r: Ring<T>, d: T, p: Point<T>, q: Point<T>)
    requires IsRing(r) && Coherent(r, p) && Coherent(r, q)
    ensures IsSum(r, d, p, q, Added(r, d, p, q))
  {
    var A, B, C, D := CrossA(r, p, q), CrossB(r, p, q), CrossC(r, d, p, q), CrossD(r, d, p, q);
    var zz := r.mul(p.z, q.z);
    CrossDenominator(r, p.z, r.mul(p.ta, p.tb), q.z, r.mul(q.ta, q.tb), d);
    Factor(r, zz, CrossT(r, d, p, q));
    SumQuotient(r, A, D, C, zz);
    SumQuotient(r, B, C, D, zz);
    Laws(r, r.dbl(D), r.dbl(C), zz);
  }

  // ---------------------------------------------------------------- addition stays on the curve

  lemma DifferenceOfSquares<T(!new)>(r: Ring<T>, A: T, B: T, s: T, t: T)
    requires IsRing(r)
    ensures r.sub(r.sq(r.mul(B, r.add(s, t))), r.sq(r.mul(A, r.sub(s, t))))
         == r.add(r.mul(r.sub(r.sq(B), r.sq(A)), r.add(r.sq(s), r.sq(t))), r.mul(r.dbl(r.mul(s, t)), r.add(r.sq(A), r.sq(B))))
  {
    Transfer(r, Minus(Sq(Mul(V(1), Add(V(2), V(3)))), Sq(Mul(V(0), Minus(V(2), V(3))))),
                Add(Mul(Minus(Sq(V(1)), Sq(V(0))), Add(Sq(V(2)), Sq(V(3)))), Mul(Dbl(Mul(V(2), V(3))), Add(Sq(V(0)), Sq(V(1))))),
             [A, B, s, t]);
  }

  lemma CrossNorm<T(!new)>(r: Ring<T>, x1: T, y1: T, x2: T, y2: T)
    requires IsRing(r)
    ensures r.sub(r.sq(r.add(r.mul(y1, y2), r.mul(x1, x2))), r.sq(r.add(r.mul(x1, y2), r.mul(y1, x2))))
         == r.mul(r.sub(r.sq(y1), r.sq(x1)), r.sub(r.sq(y2), r.sq(x2)))
  {
    Transfer(r, Minus(Sq(Add(Mul(V(1), V(3)), Mul(V(0), V(2)))), Sq(Add(Mul(V(0), V(3)), Mul(V(1), V(2))))),
                Mul(Minus(Sq(V(1)), Sq(V(0))), Minus(Sq(V(3)), Sq(V(2)))), [x1, y1, x2, y2]);
  }

  lemma CrossSquares<T(!new)>(r: Ring<T>, x1: T, y1: T, x2: T, y2: T)
    requires IsRing(r)
    ensures r.add(r.sq(r.add(r.mul(x1, y2), r.mul(y1, x2))), r.sq(r.add(r.mul(y1, y2), r.mul(x1, x2))))
         == r.add(r.mul(r.add(r.sq(x1), r.sq(y1)), r.add(r.sq(x2), r.sq(y2))), r.dbl(r.dbl(r.mul(r.mul(x1, y1), r.mul(x2, y2)))))
  {
    Transfer(r, Add(Sq(Add(Mul(V(0), V(3)), Mul(V(1), V(2)))), Sq(Add(Mul(V(1), V(3)), Mul(V(0), V(2))))),
                Add(Mul(Add(Sq(V(0)), Sq(V(1))), Add(Sq(V(2)), Sq(V(3)))), Dbl(Dbl(Mul(Mul(V(0), V(1)), Mul(V(2), V(3)))))),
             [x1, y1, x2, y2]);
  }

  lemma CrossProduct<T(!new)>(r: Ring<T>, x1: T, y1: T, x2: T, y2: T)
    requires IsRing(r)
    ensures r.mul(r.add(r.mul(x1, y2), r.mul(y1, x2)), r.add(r.mul(y1, y2), r.mul(x1, x2)))
         == r.add(r.mul(r.mul(x1, y1), r.add(r.sq(x2), r.sq(y2))), r.mul(r.mul(x2, y2), r.add(r.sq(x1), r.sq(y1))))
  {
    Transfer(r, Mul(Add(Mul(V(0), V(3)), Mul(V(1), V(2))), Add(Mul(V(1), V(3)), Mul(V(0), V(2)))),
                Add(Mul(Mul(V(0), V(1)), Add(Sq(V(2)), Sq(V(3)))), Mul(Mul(V(2), V(3)), Add(Sq(V(0)), Sq(V(1))))),
             [x1, y1, x2, y2]);
  }

  lemma WeightedSquare<T(!new)>(r: Ring<T>, a: T, b: T, alpha: T, beta: T, d: T)
    requires IsRing(r)
    ensures r.mul(d, r.sq(r.add(r.mul(a, beta), r.mul(b, alpha))))
         == r.add(r.add(r.mul(r.mul(d, r.sq(a)), r.sq(beta)), r.mul(r.mul(d, r.sq(b)), r.sq(alpha))),
                  r.dbl(r.mul(r.mul(d, r.mul(a, b)), r.mul(alpha, beta))))
  {
    Transfer(r, Mul(V(4), Sq(Add(Mul(V(0), V(3)), Mul(V(1), V(2))))),
                Add(Add(Mul(Mul(V(4), Sq(V(0))), Sq(V(3))), Mul(Mul(V(4), Sq(V(1))), Sq(V(2)))),
                    Dbl(Mul(Mul(V(4), Mul(V(0), V(1))), Mul(V(2), V(3))))),
             [a, b, alpha, beta, d]);
  }

  lemma ReplaceSquare<T(!new)>(r: Ring<T>, a: T, b: T, e: T, d: T)
    requires IsRing(r)
    ensures r.mul(r.mul(d, r.sq(a)), r.add(r.sq(e), r.sq(r.dbl(b))))
         == r.add(r.mul(r.mul(d, r.sq(a)), r.sq(e)), r.dbl(r.dbl(r.mul(r.mul(d, r.mul(a, b)), r.mul(a, b)))))
  {
    Transfer(r, Mul(Mul(V(3), Sq(V(0))), Add(Sq(V(2)), Sq(Dbl(V(1))))),
                Add(Mul(Mul(V(3), Sq(V(0))), Sq(V(2))), Dbl(Dbl(Mul(Mul(V(3), Mul(V(0), V(1))), Mul(V(0), V(1)))))),
             [a, b, e, d]);
  }

  lemma ReplaceSquares<T(!new)>(r: Ring<T>, a: T, b: T, e1: T, e2: T, d: T)
    requires IsRing(r)
    ensures r.add(r.mul(r.mul(d, r.sq(a)), r.add(r.sq(e2), r.sq(r.dbl(b)))), r.mul(r.mul(d, r.sq(b)), r.add(r.sq(e1), r.sq(r.dbl(a)))))
         == r.add(r.add(r.mul(r.mul(d, r.sq(a)), r.sq(e2)), r.mul(r.mul(d, r.sq(b)), r.sq(e1))),
                  r.dbl(r.dbl(r.dbl(r.mul(r.mul(d, r.mul(a, b)), r.mul(a, b))))))
  {
    ReplaceSquare(r, a, b, e2, d);
    ReplaceSquare(r, b, a, e1, d);
    Laws(r, a, b, a);
    var four := r.dbl(r.dbl(r.mul(r.mul(d, r.mul(a, b)), r.mul(a, b))));
    Interchange(r, r.mul(r.mul(d, r.sq(a)), r.sq(e2)), four, r.mul(r.mul(d, r.sq(b)), r.sq(e1)), four);
  }

  lemma Balance<T(!new)>(r: Ring<T>, m: T, n: T, m': T, n': T)
    requires IsRing(r)
    ensures r.mul(r.mul(r.add(m, n), r.add(m', n')), r.add(r.mul(m, m'), r.mul(n, n')))
         == r.add(r.sq(r.sub(r.mul(m, m'), r.mul(n, n'))),
                  r.add(r.mul(r.mul(m, n), r.sq(r.add(m', n'))), r.mul(r.mul(m', n'), r.sq(r.add(m, n)))))
  {
    Transfer(r, Mul(Mul(Add(V(0), V(1)), Add(V(2), V(3))), Add(Mul(V(0), V(2)), Mul(V(1), V(3)))),
                Add(Sq(Minus(Mul(V(0), V(2)), Mul(V(1), V(3)))),
                    Add(Mul(Mul(V(0), V(1)), Sq(Add(V(2), V(3)))), Mul(Mul(V(2), V(3)), Sq(Add(V(0), V(1)))))),
             [m, n, m', n']);
  }

  lemma Collect<T(!new)>(r: Ring<T>, base: T, q: T, w: T, v: T)
    requires IsRing(r)
    ensures r.add(base, r.mul(r.dbl(q), r.add(w, r.dbl(r.dbl(v)))))
         == r.add(r.add(base, r.dbl(r.dbl(r.dbl(r.mul(q, v))))), r.dbl(r.mul(q, w)))
  {
    Transfer(r, Add(V(0), Mul(Dbl(V(1)), Add(V(2), Dbl(Dbl(V(3)))))),
                Add(Add(V(0), Dbl(Dbl(Dbl(Mul(V(1), V(3)))))), Dbl(Mul(V(1), V(2)))), [base, q, w, v]);
  }

  /** d (Z T)^2 = Z^2 * d T^2. */
  lemma SplitWeight<T(!new)>(r: Ring<T>, z: T, t: T, d: T)
    requires IsRing(r)
    ensures r.mul(d, r.sq(r.mul(z, t))) == r.mul(r.sq(z), r.mul(d, r.sq(t)))
  {
    Transfer(r, Mul(V(2), Sq(Mul(V(0), V(1)))), Mul(Sq(V(0)), Mul(V(2), Sq(V(1)))), [z, t, d]);
  }

  /** (d T1 T2)^2 = (d T1^2)(d T2^2). */
  lemma SplitCross<T(!new)>(r: Ring<T>, t1: T, t2: T, d: T)
    requires IsRing(r)
    ensures r.sq(r.mul(d, r.mul(t1, t2))) == r.mul(r.mul(d, r.sq(t1)), r.mul(d, r.sq(t2)))
  {
    Transfer(r, Sq(Mul(V(2), Mul(V(0), V(1)))), Mul(Mul(V(2), Sq(V(0))), Mul(V(2), Sq(V(1)))), [t1, t2, d]);
  }

  lemma SumTimesDifference<T(!new)>(r: Ring<T>, s: T, t: T)
    requires IsRing(r)
    ensures r.mul(r.add(s, t), r.sub(s, t)) == r.sub(r.sq(s), r.sq(t))
  {
    Transfer(r, Mul(Add(V(0), V(1)), Minus(V(0), V(1))), Minus(Sq(V(0)), Sq(V(1))), [s, t]);
  }

  ghost function Sixteen<T>(r: Ring<T>, x: T): T { r.dbl(r.dbl(r.dbl(r.dbl(x)))) }

  lemma ScaleLeft<T(!new)>(r: Ring<T>, a: T, b: T, c: T, e: T)
    requires IsRing(r)
    ensures r.sub(r.sq(r.mul(r.dbl(b), r.dbl(c))), r.sq(r.mul(r.dbl(a), r.dbl(e))))
         == Sixteen(r, r.sub(r.sq(r.mul(b, c)), r.sq(r.mul(a, e))))
  {
    Transfer(r, Minus(Sq(Mul(Dbl(V(1)), Dbl(V(2)))), Sq(Mul(Dbl(V(0)), Dbl(V(3))))),
                Dbl(Dbl(Dbl(Dbl(Minus(Sq(Mul(V(1), V(2))), Sq(Mul(V(0), V(3)))))))), [a, b, c, e]);
  }

  lemma ScaleRight<T(!new)>(r: Ring<T>, a: T, b: T, c: T, e: T, d: T)
    requires IsRing(r)
    ensures r.add(r.sq(r.mul(r.dbl(c), r.dbl(e))), r.mul(d, r.sq(r.mul(r.dbl(b), r.dbl(a)))))
         == Sixteen(r, r.add(r.sq(r.mul(c, e)), r.mul(d, r.sq(r.mul(a, b)))))
  {
    Transfer(r, Add(Sq(Mul(Dbl(V(2)), Dbl(V(3)))), Mul(V(4), Sq(Mul(Dbl(V(1)), Dbl(V(0)))))),
                Dbl(Dbl(Dbl(Dbl(Add(Sq(Mul(V(2), V(3))), Mul(V(4), Sq(Mul(V(0), V(1))))))))), [a, b, c, e, d]);
  }

  /** d (A B)^2 in terms of a = X1 Y1, b = X2 Y2 and the curve's own differences of squares. */
  lemma WeightedCross<T(!new)>(r: Ring<T>, d: T, p: Point<T>, q: Point<T>)
    requires IsRing(r)
    ensures var a, b := r.mul(p.x, p.y), r.mul(q.x, q.y);
            var e1, e2 := r.sub(r.sq(p.y), r.sq(p.x)), r.sub(r.sq(q.y), r.sq(q.x));
            var w := r.mul(r.add(r.sq(p.x), r.sq(p.y)), r.add(r.sq(q.x), r.sq(q.y)));
            (r.mul(d, r.sq(r.mul(CrossA(r, p, q), CrossB(r, p, q))))
         == r.add(r.add(r.add(r.mul(r.mul(d, r.sq(a)), r.sq(e2)), r.mul(r.mul(d, r.sq(b)), r.sq(e1))),
                        r.dbl(r.dbl(r.dbl(r.mul(r.mul(d, r.mul(a, b)), r.mul(a, b)))))),
                  r.dbl(r.mul(r.mul(d, r.mul(a, b)), w))))
  {
    var a, b := r.mul(p.x, p.y), r.mul(q.x, q.y);
    CrossProduct(r, p.x, p.y, q.x, q.y);
    WeightedSquare(r, a, b, r.add(r.sq(p.x), r.sq(p.y)), r.add(r.sq(q.x), r.sq(q.y)), d);
    SumOfSquares(r, p.x, p.y);
    SumOfSquares(r, q.x, q.y);
    ReplaceSquares(r, a, b, r.sub(r.sq(p.y), r.sq(p.x)), r.sub(r.sq(q.y), r.sq(q.x)), d);
  }

  /** The common value of both sides of the sum's curve equation. */
  ghost function Middle<T>(r: Ring<T>, d: T, p: Point<T>, q: Point<T>): T {
    var m, n := r.sq(p.z), r.mul(d, r.sq(r.mul(p.ta, p.tb)));
    var m', n' := r.sq(q.z), r.mul(d, r.sq(r.mul(q.ta, q.tb)));
    var ab := r.mul(r.mul(p.x, p.y), r.mul(q.x, q.y));
    var w := r.mul(r.add(r.sq(p.x), r.sq(p.y)), r.add(r.sq(q.x), r.sq(q.y)));
    var base := r.mul(r.mul(r.add(m, n), r.add(m', n')), r.add(r.mul(m, m'), r.mul(n, n')));
    r.add(base, r.mul(r.dbl(r.mul(d, ab)), r.add(w, r.dbl(r.dbl(ab)))))
  }

  lemma LeftSide<T(!new)>(r: Ring<T>, d: T, p: Point<T>, q: Point<T>)
    requires IsRing(r) && OnCurve(r, d, p) && OnCurve(r, d, q)
    ensures r.sub(r.sq(r.mul(CrossB(r, p, q), CrossC(r, d, p, q))), r.sq(r.mul(CrossA(r, p, q), CrossD(r, d, p, q))))
         == Middle(r, d, p, q)
  {
    CurveTerms(r, d, p, q);
    DifferenceOfSquares(r, CrossA(r, p, q), CrossB(r, p, q), r.mul(p.z, q.z), CrossT(r, d, p, q));
    CrossNorm(r, p.x, p.y, q.x, q.y);
    CrossSquares(r, p.x, p.y, q.x, q.y);
  }

  lemma RightSide<T(!new)>(r: Ring<T>, d: T, p: Point<T>, q: Point<T>)
    requires IsRing(r) && OnCurve(r, d, p) && OnCurve(r, d, q)
    ensures r.add(r.sq(r.mul(CrossC(r, d, p, q), CrossD(r, d, p, q))), r.mul(d, r.sq(r.mul(CrossA(r, p, q), CrossB(r, p, q)))))
         == Middle(r, d, p, q)
  {
    var m, n := r.sq(p.z), r.mul(d, r.sq(r.mul(p.ta, p.tb)));
    var m', n' := r.sq(q.z), r.mul(d, r.sq(r.mul(q.ta, q.tb)));
    var ab := r.mul(r.mul(p.x, p.y), r.mul(q.x, q.y));
    var w := r.mul(r.add(r.sq(p.x), r.sq(p.y)), r.add(r.sq(q.x), r.sq(q.y)));
    var base := r.mul(r.mul(r.add(m, n), r.add(m', n')), r.add(r.mul(m, m'), r.mul(n, n')));
    var g := r.mul(d, ab);
    CurveTerms(r, d, p, q);
    WeightedCross(r, d, p, q);
    SumTimesDifference(r, r.mul(p.z, q.z), CrossT(r, d, p, q));
    Balance(r, m, n, m', n');
    Collect(r, base, g, w, ab);
    var square := r.sq(r.sub(r.mul(m, m'), r.mul(n, n')));
    var cross := r.add(r.mul(r.mul(m, n), r.sq(r.add(m', n'))), r.mul(r.mul(m', n'), r.sq(r.add(m, n))));
    var eight, two := r.dbl(r.dbl(r.dbl(r.mul(g, ab)))), r.dbl(r.mul(g, w));
    Laws(r, square, r.add(cross, eight), two);
    Laws(r, square, cross, eight);
  }

  /** The products the curve and coherence equations rewrite. */
  lemma CurveTerms<T(!new)>(r: Ring<T>, d: T, p: Point<T>, q: Point<T>)
    requires IsRing(r) && OnCurve(r, d, p) && OnCurve(r, d, q)
    ensures var t1, t2 := r.mul(p.ta, p.tb), r.mul(q.ta, q.tb);
            var s, t := r.mul(p.z, q.z), CrossT(r, d, p, q);
            var a, b := r.mul(p.x, p.y), r.mul(q.x, q.y);
            var m, n, m', n' := r.sq(p.z), r.mul(d, r.sq(t1)), r.sq(q.z), r.mul(d, r.sq(t2));
            && r.sq(s) == r.mul(m, m') && r.sq(t) == r.mul(n, n') && r.mul(s, t) == r.mul(d, r.mul(a, b))
            && r.mul(d, r.sq(a)) == r.mul(m, n) && r.mul(d, r.sq(b)) == r.mul(m', n')
            && r.sub(r.sq(p.y), r.sq(p.x)) == r.add(m, n) && r.sub(r.sq(q.y), r.sq(q.x)) == r.add(m', n')
  {
    var t1, t2 := r.mul(p.ta, p.tb), r.mul(q.ta, q.tb);
    SquareOfProduct(r, p.z, q.z);
    SplitCross(r, t1, t2, d);
    CrossDenominator(r, p.z, t1, q.z, t2, d);
    SplitWeight(r, p.z, t1, d);
    SplitWeight(r, q.z, t2, d);
  }

  lemma AddedOnCurve<T(!new)>(r: Ring<T>, d: T, p: Point<T>, q: Point<T>)
    requires IsRing(r) && OnCurve(r, d, p) && OnCurve(r, d, q)
    ensures OnCurve(r, d, Added(r, d, p, q))
  {
    var A, B, C, D := CrossA(r, p, q), CrossB(r, p, q), CrossC(r, d, p, q), CrossD(r, d, p, q);
    LeftSide(r, d, p, q);
    RightSide(r, d, p, q);
    ScaleLeft(r, A, B, C, D);
    ScaleRight(r, A, B, C, D, d);
    AddedCoherent(r, r.dbl(A), r.dbl(B), r.dbl(C), r.dbl(D));
  }

  // ---------------------------------------------------------------- precomputed forms

  ghost function R2<T>(r: Ring<T>, d: T, p: Point<T>): Precomp<T> {
    Precomp(r.add(p.x, p.y), r.sub(p.y, p.x), r.dbl(p.z), r.mul(r.mul(r.dbl(p.ta), p.tb), d))
  }

  ghost function R3<T>(r: Ring<T>, p: Point<T>): Precomp<T> {
    Precomp(r.add(p.x, p.y), r.sub(p.y, p.x), p.z, r.mul(p.ta, p.tb))
  }

  ghost function Negated<T>(r: Ring<T>, p: Point<T>): Point<T> {
    Point(r.neg(p.x), p.y, p.z, r.neg(p.ta), p.tb)
  }

  /** 2Z1 * Z2 and 2dT1 * T2 combine to twice the denominators. */
  lemma PrecompDenominators<T(!new)>(r: Ring<T>, d: T, p: Point<T>, q: Point<T>)
    requires IsRing(r)
    ensures var u, v := r.mul(r.dbl(p.z), q.z), r.mul(r.mul(r.mul(r.dbl(p.ta), p.tb), d), r.mul(q.ta, q.tb));
            (r.sub(u, v) == r.dbl(CrossD(r, d, p, q)) && r.add(u, v) == r.dbl(CrossC(r, d, p, q)))
  {
    DoubledTerms(r, p.z, q.z, p.ta, p.tb, r.mul(q.ta, q.tb), d);
    var u, v := r.mul(p.z, q.z), CrossT(r, d, p, q);
    Transfer(r, Minus(Dbl(V(0)), Dbl(V(1))), Dbl(Minus(V(0), V(1))), [u, v]);
    Transfer(r, Add(Dbl(V(0)), Dbl(V(1))), Dbl(Add(V(0), V(1))), [u, v]);
  }

  lemma DoubledTerms<T(!new)>(r: Ring<T>, z1: T, z2: T, ta: T, tb: T, t2: T, d: T)
    requires IsRing(r)
    ensures r.mul(r.dbl(z1), z2) == r.dbl(r.mul(z1, z2))
    ensures r.mul(r.mul(r.mul(r.dbl(ta), tb), d), t2) == r.dbl(r.mul(d, r.mul(r.mul(ta, tb), t2)))
  {
    Transfer(r, Mul(Dbl(V(0)), V(1)), Dbl(Mul(V(0), V(1))), [z1, z2]);
    Transfer(r, Mul(Mul(Mul(Dbl(V(0)), V(1)), V(3)), V(2)), Dbl(Mul(V(3), Mul(Mul(V(0), V(1)), V(2)))), [ta, tb, t2, d]);
  }

  /** Negating a precomputed point swaps its first two entries and negates the last. */
  lemma NegatedPrecomp<T(!new)>(r: Ring<T>, d: T, p: Point<T>)
    requires IsRing(r)
    ensures var q := R2(r, d, p);
            R2(r, d, Negated(r, p)) == Precomp(q.yx, q.xy, q.z2, r.neg(q.t2))
    ensures OnCurve(r, d, p) ==> OnCurve(r, d, Negated(r, p))
  {
    NegatedEntries(r, p.x, p.y);
    Transfer(r, Mul(Mul(Dbl(Neg(V(0))), V(1)), V(2)), Neg(Mul(Mul(Dbl(V(0)), V(1)), V(2))), [p.ta, p.tb, d]);
    NegatedCurve(r, d, p);
  }

  lemma NegatedEntries<T(!new)>(r: Ring<T>, x: T, y: T)
    requires IsRing(r)
    ensures r.add(r.neg(x), y) == r.sub(y, x) && r.sub(y, r.neg(x)) == r.add(x, y)
  {
    Transfer(r, Add(Neg(V(0)), V(1)), Minus(V(1), V(0)), [x, y]);
    Transfer(r, Minus(V(1), Neg(V(0))), Add(V(0), V(1)), [x, y]);
  }

  lemma NegatedCurve<T(!new)>(r: Ring<T>, d: T, p: Point<T>)
    requires IsRing(r)
    ensures OnCurve(r, d, p) ==> OnCurve(r, d, Negated(r, p))
  {
    MulNeg(r, p.x, p.y);
    MulNeg(r, p.ta, p.tb);
    var t := r.mul(p.ta, p.tb);
    Transfer(r, Mul(V(0), Neg(V(1))), Neg(Mul(V(0), V(1))), [p.z, t]);
    SquareOfNeg(r, p.x);
    SquareOfNeg(r, t);
  }

  lemma SquareOfNeg<T(!new)>(r: Ring<T>, x: T)
    requires IsRing(r)
    ensures r.sq(r.neg(x)) == r.sq(x)
  {
    Transfer(r, Sq(Neg(V(0))), Sq(V(0)), [x]);
  }

  // ---------------------------------------------------------------- the sum law

  lemma Trivial<T(!new)>(r: Ring<T>, x: T)
    requires IsRing(r)
    ensures r.mul(r.zero, x) == r.zero && r.mul(x, r.zero) == r.zero && r.mul(r.one, x) == x && r.mul(x, r.one) == x
    ensures r.add(x, r.zero) == x && r.sub(x, r.zero) == x
  {
    MulZero(r, x);
    NegZero(r);
    Laws(r, x, r.zero, x);
    Laws(r, x, r.one, x);
  }

  lemma NeutralTerms<T(!new)>(r: Ring<T>, d: T, x: T, y: T, z: T)
    requires IsRing(r)
    ensures r.mul(z, r.one) == z && r.mul(d, r.mul(r.mul(x, y), r.mul(r.zero, r.one))) == r.zero
    ensures r.add(r.mul(x, r.one), r.mul(y, r.zero)) == x && r.add(r.mul(y, r.one), r.mul(x, r.zero)) == y
  {
    Trivial(r, x);
    Trivial(r, y);
    Trivial(r, z);
    Trivial(r, d);
    Trivial(r, r.one);
    Trivial(r, r.mul(x, y));
  }

  /** Adding the neutral point gives the point back. */
  lemma NeutralIsSum<T(!new)>(r: Ring<T>, d: T, p: Point<T>, ta: T, tb: T)
    requires IsRing(r)
    ensures IsSum(r, d, p, Point(r.zero, r.one, r.one, ta, tb), p)
  {
    var x, y, z := p.x, p.y, p.z;
    NeutralTerms(r, d, x, y, z);
    Trivial(r, r.sq(z));
    Transfer(r, Mul(V(0), Sq(V(1))), Mul(V(1), Mul(V(0), V(1))), [x, z]);
    Transfer(r, Mul(V(0), Sq(V(1))), Mul(V(1), Mul(V(0), V(1))), [y, z]);
  }

  /** A point of the curve and its negative add up to the neutral point. */
  lemma NegatedIsSum<T(!new)>(r: Ring<T>, d: T, p: Point<T>, ta: T, tb: T)
    requires IsRing(r) && OnCurve(r, d, p)
    ensures IsSum(r, d, p, Negated(r, p), Point(r.zero, r.one, r.one, ta, tb))
  {
    var x, y, z := p.x, p.y, p.z;
    var zz, xy := r.sq(z), r.mul(x, y);
    var e := r.mul(d, r.mul(xy, r.mul(r.neg(x), y)));
    ProjectiveEquation(r, d, p);
    OppositeTerms(r, x, y, z, d);
    Laws(r, xy, xy, xy);
    Trivial(r, zz);
    Trivial(r, r.add(r.sq(zz), e));
    Trivial(r, r.sub(r.sq(zz), e));
    Trivial(r, r.mul(r.add(r.mul(y, y), r.mul(x, r.neg(x))), zz));
    Trivial(r, r.zero);
    Trivial(r, r.one);
  }

  lemma OppositeTerms<T(!new)>(r: Ring<T>, x: T, y: T, z: T, d: T)
    requires IsRing(r)
    ensures r.sub(r.sq(r.sq(z)), r.mul(d, r.mul(r.mul(x, y), r.mul(r.neg(x), y))))
         == r.add(r.sq(r.sq(z)), r.mul(d, r.mul(r.sq(x), r.sq(y))))
    ensures r.mul(r.add(r.mul(y, y), r.mul(x, r.neg(x))), r.sq(z)) == r.mul(r.sq(z), r.sub(r.sq(y), r.sq(x)))
    ensures r.add(r.mul(x, y), r.mul(y, r.neg(x))) == r.sub(r.mul(x, y), r.mul(x, y))
  {
    OppositeProducts(r, x, y);
    SubtractNegative(r, r.sq(r.sq(z)), d, r.mul(r.sq(x), r.sq(y)));
    Laws(r, r.sq(z), r.sub(r.sq(y), r.sq(x)), z);
  }

  lemma OppositeProducts<T(!new)>(r: Ring<T>, x: T, y: T)
    requires IsRing(r)
    ensures r.mul(r.mul(x, y), r.mul(r.neg(x), y)) == r.neg(r.mul(r.sq(x), r.sq(y)))
    ensures r.mul(x, r.neg(x)) == r.neg(r.sq(x)) && r.mul(y, r.neg(x)) == r.neg(r.mul(x, y))
  {
    MulNeg(r, x, y);
    MulNeg(r, x, x);
    MulNeg(r, r.mul(x, y), r.mul(x, y));
    SquareOfProduct(r, x, y);
    Laws(r, x, r.neg(x), y);
    Laws(r, y, r.neg(x), y);
    Laws(r, r.mul(x, y), r.neg(r.mul(x, y)), x);
  }

  lemma SubtractNegative<T(!new)>(r: Ring<T>, a: T, d: T, s: T)
    requires IsRing(r)
    ensures r.sub(a, r.mul(d, r.neg(s))) == r.add(a, r.mul(d, s))
  {
    Transfer(r, Minus(V(0), Mul(V(1), Neg(V(2)))), Add(V(0), Mul(V(1), V(2))), [a, d, s]);
  }

  /** The sum does not depend on the order. */
  lemma SumCommutes<T(!new)>(r: Ring<T>, d: T, p: Point<T>, q: Point<T>, s: Point<T>)
    requires IsRing(r) && IsSum(r, d, p, q, s)
    ensures IsSum(r, d, q, p, s)
  {
    Laws(r, p.z, q.z, p.z);
    Laws(r, r.mul(p.x, p.y), r.mul(q.x, q.y), d);
    Laws(r, p.x, q.y, p.x);
    Laws(r, p.y, q.x, p.x);
    Laws(r, p.y, q.y, p.x);
    Laws(r, p.x, q.x, p.x);
    Laws(r, r.mul(p.x, q.y), r.mul(p.y, q.x), d);
  }

  // ---------------------------------------------------------------- the in-place formulas

  /** `point_extproj`. */
  class ExtPoint<T(!new)> {
    var x: T
    var y: T
    var z: T
    var ta: T
    var tb: T

    constructor (p: Point<T>)
      ensures Get() == p
    {
      x, y, z, ta, tb := p.x, p.y, p.z, p.ta, p.tb;
    }

    ghost function Get(): Point<T>
      reads this
    {
      Point(x, y, z, ta, tb)
    }

    /** P = 2P. */
    method EccDouble(r: Ring<T>, ghost d: T)
      requires IsRing(r)
      modifies this
      ensures Coherent(r, Get())
      ensures OnCurve(r, d, old(Get())) ==> OnCurve(r, d, Get()) && IsSum(r, d, old(Get()), old(Get()), Get())
    {
      ghost var p := Get();
      var t1 := r.sq(x);
      var t2 := r.sq(y);
      x := r.add(x, y);
      tb := r.add(t1, t2);
      t1 := r.sub(t2, t1);
      ta := r.sq(x);
      t2 := r.sq(z);
      ta := r.sub(ta, tb);
      t2 := r.add(t2, t2);
      t2 := r.sub(t2, t1);
      y := r.mul(t1, tb);
      x := r.mul(t2, ta);
      z := r.mul(t1, t2);
      SumOfSquares(r, p.x, p.y);
      assert Get() == Doubled(r, p);
      AddedCoherent(r, ta, tb, t1, t2);
      Laws(r, t2, ta, t1);
      Laws(r, ta, tb, t1);
      Laws(r, tb, t1, ta);
      if OnCurve(r, d, p) {
        DoublingOnCurve(r, d, p);
        DoublingIsSum(r, d, p);
      }
    }

    /** R = P + Q for P in the form (X+Y, Y-X, 2Z, 2dT) and Q in the form (X+Y, Y-X, Z, T). */
    method EccAddCore(r: Ring<T>, P: Precomp<T>, Q: Precomp<T>, ghost d: T, ghost p: Point<T>, ghost q: Point<T>)
      requires IsRing(r) && P == R2(r, d, p) && Q == R3(r, q)
      modifies this
      ensures Get() == Added(r, d, p, q)
    {
      z := r.mul(P.t2, Q.t2);
      var t1 := r.mul(P.z2, Q.z2);
      x := r.mul(P.xy, Q.xy);
      y := r.mul(P.yx, Q.yx);
      var t2 := r.sub(t1, z);
      t1 := r.add(t1, z);
      tb := r.sub(x, y);
      ta := r.add(x, y);
      x := r.mul(tb, t2);
      z := r.mul(t1, t2);
      y := r.mul(ta, t1);
      CrossDifference(r, p.x, p.y, q.x, q.y);
      CrossSum(r, p.x, p.y, q.x, q.y);
      PrecompDenominators(r, d, p, q);
    }

    /** P = P + Q, for a precomputed Q. */
    method EccAdd(r: Ring<T>, Q: Precomp<T>, ghost d: T, ghost q: Point<T>)
      requires IsRing(r) && Q == R2(r, d, q)
      requires OnCurve(r, d, Get()) && OnCurve(r, d, q)
      modifies this
      ensures OnCurve(r, d, Get()) && IsSum(r, d, q, old(Get()), Get())
    {
      ghost var p := Get();
      var R := Precomp(r.add(x, y), r.sub(y, x), z, r.mul(ta, tb));
      EccAddCore(r, Q, R, d, q, p);
      AddedOnCurve(r, d, q, p);
      AddedIsSum(r, d, q, p);
    }

    /** P = P + Q for an affine Q, precomputed as (x+y, y-x, 2dxy). */
    method EccMadd(r: Ring<T>, xy: T, yx: T, t2d: T, ghost d: T, ghost q: Point<T>)
      requires IsRing(r) && OnCurve(r, d, Get()) && OnCurve(r, d, q) && q.z == r.one
      requires xy == R2(r, d, q).xy && yx == R2(r, d, q).yx && t2d == R2(r, d, q).t2
      modifies this
      ensures OnCurve(r, d, Get()) && IsSum(r, d, q, old(Get()), Get())
    {
      ghost var p := Get();
      ta := r.mul(ta, tb);
      var t1 := r.add(z, z);
      ta := r.mul(ta, t2d);
      z := r.add(x, y);
      tb := r.sub(y, x);
      var t2 := r.sub(t1, ta);
      t1 := r.add(t1, ta);
      ta := r.mul(xy, z);
      x := r.mul(yx, tb);
      z := r.mul(t1, t2);
      tb := r.sub(ta, x);
      ta := r.add(ta, x);
      x := r.mul(tb, t2);
      y := r.mul(ta, t1);
      CrossDifference(r, q.x, q.y, p.x, p.y);
      CrossSum(r, q.x, q.y, p.x, p.y);
      AffineDenominators(r, d, q, p);
      assert Get() == Added(r, d, q, p);
      AddedOnCurve(r, d, q, p);
      AddedIsSum(r, d, q, p);
    }
  }

  lemma AffineDenominators<T(!new)>(r: Ring<T>, d: T, q: Point<T>, p: Point<T>)
    requires IsRing(r) && q.z == r.one
    ensures var u, v := r.dbl(p.z), r.mul(r.mul(p.ta, p.tb), R2(r, d, q).t2);
            (r.sub(u, v) == r.dbl(CrossD(r, d, q, p)) && r.add(u, v) == r.dbl(CrossC(r, d, q, p)))
  {
    PrecompDenominators(r, d, q, p);
    var t := r.mul(p.ta, p.tb);
    Laws(r, t, R2(r, d, q).t2, t);
    Transfer(r, Mul(Dbl(One), V(0)), Dbl(V(0)), [p.z]);
  }
}
