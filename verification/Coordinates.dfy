/** The Edwards formulas on coordinates in memory: through every aliasing call, what is left there are the formulas of
    `Edwards` over GF(p^2). */
module Coordinates {
  import opened Fp2
  import opened CommutativeRing
  import opened Edwards
  import Points

  /** `point_extproj`: five field elements in memory. */
  datatype MemPoint = MemPoint(x: F2, y: F2, z: F2, ta: F2, tb: F2)

  /** a and c do not overlap. */
  ghost predicate Clear(a: F2, c: F2) {
    a.re != c.re && a.re != c.im && a.im != c.re && a.im != c.im
  }

  /** a overlaps no coordinate of p. */
  ghost predicate Outside(a: F2, p: MemPoint) {
    Clear(a, p.x) && Clear(a, p.y) && Clear(a, p.z) && Clear(a, p.ta) && Clear(a, p.tb)
  }

  /** No two coordinates overlap. */
  ghost predicate Separate(p: MemPoint) {
    && Clear(p.x, p.y) && Clear(p.x, p.z) && Clear(p.x, p.ta) && Clear(p.x, p.tb) && Clear(p.y, p.z)
    && Clear(p.y, p.ta) && Clear(p.y, p.tb) && Clear(p.z, p.ta) && Clear(p.z, p.tb) && Clear(p.ta, p.tb)
    && Room(p.x) && Room(p.y) && Room(p.z) && Room(p.ta) && Room(p.tb)
  }

  /** Two temporaries outside p. */
  ghost predicate Scratch(t1: F2, t2: F2, p: MemPoint) {
    Room(t1) && Room(t2) && Clear(t1, t2) && Outside(t1, p) && Outside(t2, p)
  }

  ghost predicate OwnedPoint(p: MemPoint)
    reads p.x.re, p.x.im, p.y.re, p.y.im, p.z.re, p.z.im, p.ta.re, p.ta.im, p.tb.re, p.tb.im
  {
    Separate(p) && Owned(p.x) && Owned(p.y) && Owned(p.z) && Owned(p.ta) && Owned(p.tb)
  }

  ghost function PointAt(p: MemPoint): Point<Gf2>
    requires Separate(p)
    reads p.x.re, p.x.im, p.y.re, p.y.im, p.z.re, p.z.im, p.ta.re, p.ta.im, p.tb.re, p.tb.im
  {
    Point(Elt(p.x), Elt(p.y), Elt(p.z), Elt(p.ta), Elt(p.tb))
  }

  // ---------------------------------------------------------------- doubling

  /** t1 = Y^2 - X^2, tb = X^2 + Y^2, x = X + Y. */
  method DoubleSquares(p: MemPoint, t1: F2, t2: F2)
    requires OwnedPoint(p) && Scratch(t1, t2, p)
    modifies t1.re, t1.im, t2.re, t2.im, p.x.re, p.x.im, p.tb.re, p.tb.im
    ensures Owned(t1) && Owned(t2) && Owned(p.x) && Owned(p.tb)
    ensures var X, Y := old(Elt(p.x)), old(Elt(p.y));
            && Elt(t1) == Gf2Ring().sub(GMul(Y, Y), GMul(X, X))
            && Elt(p.tb) == GAdd(GMul(X, X), GMul(Y, Y))
            && Elt(p.x) == GAdd(X, Y)
  {
    hide GMul;
    hide GAdd;
    hide Gf2Ring;
    hide Elt;
    hide Owned;
    Fp2Sqr(p.x, t1);
    Fp2Sqr(p.y, t2);
    Fp2Add(p.x, p.y, p.x);
    Fp2Add(t1, t2, p.tb);
    Fp2Sub(t2, t1, t1);
  }

  /** ta = x^2 - tb and t2 = 2 Z^2 - t1. */
  method DoubleTerms(p: MemPoint, t1: F2, t2: F2)
    requires OwnedPoint(p) && Owned(t1) && Scratch(t1, t2, p)
    modifies t2.re, t2.im, p.ta.re, p.ta.im
    ensures Owned(t2) && Owned(p.ta)
    ensures var r, zz := Gf2Ring(), GMul(Elt(p.z), Elt(p.z));
            && Elt(p.ta) == r.sub(GMul(Elt(p.x), Elt(p.x)), Elt(p.tb))
            && Elt(t2) == r.sub(GAdd(zz, zz), Elt(t1))
  {
    hide GMul;
    hide GAdd;
    hide Gf2Ring;
    hide Elt;
    hide Owned;
    Fp2Sqr(p.x, p.ta);
    Fp2Sqr(p.z, t2);
    Fp2Sub(p.ta, p.tb, p.ta);
    Fp2Add(t2, t2, t2);
    Fp2Sub(t2, t1, t2);
  }

  /** y = t1 * tb, x = t2 * ta, z = t1 * t2. */
  method DoubleProducts(p: MemPoint, t1: F2, t2: F2)
    requires OwnedPoint(p) && Owned(t1) && Owned(t2) && Scratch(t1, t2, p)
    modifies p.x.re, p.x.im, p.y.re, p.y.im, p.z.re, p.z.im
    ensures OwnedPoint(p)
    ensures Elt(p.y) == GMul(Elt(t1), Elt(p.tb)) && Elt(p.x) == GMul(Elt(t2), Elt(p.ta))
    ensures Elt(p.z) == GMul(Elt(t1), Elt(t2))
  {
    hide GMul;
    hide Elt;
    hide Owned;
    Fp2Mul(t1, p.tb, p.y);
    Fp2Mul(t2, p.ta, p.x);
    Fp2Mul(t1, t2, p.z);
  }

  /** Doubling with 2XY found as (X + Y)^2 - (X^2 + Y^2). */
  lemma DoubledBySquares<T(!new)>(r: Ring<T>, p: Point<T>)
    requires IsRing(r)
    ensures var F, G := r.sub(r.sq(p.y), r.sq(p.x)), r.add(r.sq(p.x), r.sq(p.y));
            var E, H := r.sub(r.sq(r.add(p.x, p.y)), G), r.sub(r.dbl(r.sq(p.z)), F);
            Doubled(r, p) == Point(r.mul(H, E), r.mul(F, G), r.mul(F, H), E, G)
  {
    SumOfSquares(r, p.x, p.y);
  }

  lemma DoubleResult(p: Point<Gf2>, F: Gf2, G: Gf2, s: Gf2, E: Gf2, H: Gf2, d: Gf2)
    requires F == Gf2Ring().sub(GMul(p.y, p.y), GMul(p.x, p.x)) && G == GAdd(GMul(p.x, p.x), GMul(p.y, p.y))
    requires s == GAdd(p.x, p.y) && E == Gf2Ring().sub(GMul(s, s), G)
    requires H == Gf2Ring().sub(GAdd(GMul(p.z, p.z), GMul(p.z, p.z)), F)
    ensures Point(GMul(H, E), GMul(F, G), GMul(F, H), E, G) == Doubled(Gf2Ring(), p)
    ensures OnCurve(Gf2Ring(), d, p) ==> OnCurve(Gf2Ring(), d, Doubled(Gf2Ring(), p))
  {
    hide GMul;
    hide GAdd;
    hide GNeg;
    hide OnCurve;
    Gf2IsRing();
    DoubledBySquares(Gf2Ring(), p);
    if OnCurve(Gf2Ring(), d, p) {
      DoublingOnCurve(Gf2Ring(), d, p);
    }
  }

  /** P = 2P. */
  method EccDouble(p: MemPoint, ghost d: Gf2)
    requires OwnedPoint(p)
    modifies p.x.re, p.x.im, p.y.re, p.y.im, p.z.re, p.z.im, p.ta.re, p.ta.im, p.tb.re, p.tb.im
    ensures OwnedPoint(p) && PointAt(p) == Doubled(Gf2Ring(), old(PointAt(p)))
    ensures OnCurve(Gf2Ring(), d, old(PointAt(p))) ==> OnCurve(Gf2Ring(), d, PointAt(p))
  {
    hide GMul;
    hide GAdd;
    hide Gf2Ring;
    hide Elt;
    hide Owned;
    hide OnCurve;
    hide Doubled;
    ghost var before := PointAt(p);
    var t1 := NewF2();
    var t2 := NewF2();
    DoubleSquares(p, t1, t2);
    DoubleTerms(p, t1, t2);
    DoubleResult(before, Elt(t1), Elt(p.tb), Elt(p.x), Elt(p.ta), Elt(t2), d);
    DoubleProducts(p, t1, t2);
  }

  // ---------------------------------------------------------------- precomputed forms

  /** `point_extproj_precomp`. */
  datatype MemPrecomp = MemPrecomp(xy: F2, yx: F2, z2: F2, t2: F2)

  ghost predicate PrecompOutside(q: MemPrecomp, p: MemPoint) {
    Outside(q.xy, p) && Outside(q.yx, p) && Outside(q.z2, p) && Outside(q.t2, p)
  }

  ghost predicate PrecompClear(q: MemPrecomp, c: F2) {
    Clear(q.xy, c) && Clear(q.yx, c) && Clear(q.z2, c) && Clear(q.t2, c)
  }

  ghost predicate OwnedPrecomp(q: MemPrecomp)
    reads q.xy.re, q.xy.im, q.yx.re, q.yx.im, q.z2.re, q.z2.im, q.t2.re, q.t2.im
  {
    Owned(q.xy) && Owned(q.yx) && Owned(q.z2) && Owned(q.t2)
  }

  ghost function PrecompAt(q: MemPrecomp): Precomp<Gf2>
    requires Room(q.xy) && Room(q.yx) && Room(q.z2) && Room(q.t2)
    reads q.xy.re, q.xy.im, q.yx.re, q.yx.im, q.z2.re, q.z2.im, q.t2.re, q.t2.im
  {
    Precomp(Elt(q.xy), Elt(q.yx), Elt(q.z2), Elt(q.t2))
  }

  method Copy(a: F2, c: F2)
    requires Owned(a) && Room(c) && Clear(a, c)
    modifies c.re, c.im
    ensures Owned(c) && Elt(c) == Elt(a)
  {
    c.re[0], c.re[1], c.im[0], c.im[1] := a.re[0], a.re[1], a.im[0], a.im[1];
  }

  /** The two forms in the operations on elements. */
  lemma Forms(d: Gf2, p: Point<Gf2>)
    ensures R3(Gf2Ring(), p) == Precomp(GAdd(p.x, p.y), Gf2Ring().sub(p.y, p.x), p.z, GMul(p.ta, p.tb))
    ensures R2(Gf2Ring(), d, p)
         == Precomp(GAdd(p.x, p.y), Gf2Ring().sub(p.y, p.x), GAdd(p.z, p.z), GMul(GMul(GAdd(p.ta, p.ta), p.tb), d))
  {
    hide GMul;
    hide GAdd;
    hide GNeg;
  }

  /** q is room for a precomputed form, outside p. */
  ghost predicate PrecompRoom(q: MemPrecomp, p: MemPoint) {
    && Room(q.xy) && Room(q.yx) && Room(q.z2) && Room(q.t2) && PrecompOutside(q, p)
    && Clear(q.xy, q.yx) && Clear(q.xy, q.z2) && Clear(q.xy, q.t2)
    && Clear(q.yx, q.z2) && Clear(q.yx, q.t2) && Clear(q.z2, q.t2)
  }

  /** X + Y and Y - X. */
  method SumAndDifference(p: MemPoint, sum: F2, difference: F2)
    requires OwnedPoint(p) && Room(sum) && Room(difference)
    requires Clear(sum, difference) && Outside(sum, p) && Outside(difference, p)
    modifies sum.re, sum.im, difference.re, difference.im
    ensures Owned(sum) && Elt(sum) == GAdd(Elt(p.x), Elt(p.y))
    ensures Owned(difference) && Elt(difference) == Gf2Ring().sub(Elt(p.y), Elt(p.x))
  {
    hide GAdd;
    hide Gf2Ring;
    hide Elt;
    hide Owned;
    Fp2Add(p.x, p.y, sum);
    Fp2Sub(p.y, p.x, difference);
  }

  /** `R1_to_R3`: (X + Y, Y - X, Z, T). */
  method R1ToR3(p: MemPoint, q: MemPrecomp)
    requires OwnedPoint(p) && PrecompRoom(q, p)
    modifies q.xy.re, q.xy.im, q.yx.re, q.yx.im, q.z2.re, q.z2.im, q.t2.re, q.t2.im
    ensures OwnedPrecomp(q) && PrecompAt(q) == R3(Gf2Ring(), PointAt(p))
  {
    hide GMul;
    hide GAdd;
    hide Gf2Ring;
    hide R2;
    hide R3;
    hide Elt;
    hide Owned;
    Forms(Elt(p.x), PointAt(p));
    SumAndDifference(p, q.xy, q.yx);
    Fp2Mul(p.ta, p.tb, q.t2);
    Copy(p.z, q.z2);
  }

  /** t = 2 Ta Tb d. */
  method WeightedT(p: MemPoint, d: F2, t: F2)
    requires OwnedPoint(p) && Owned(d) && Room(t) && Outside(t, p) && Clear(t, d)
    modifies t.re, t.im
    ensures Owned(t) && Elt(t) == GMul(GMul(GAdd(Elt(p.ta), Elt(p.ta)), Elt(p.tb)), Elt(d))
  {
    assert Room(d);
    hide GMul;
    hide GAdd;
    hide Elt;
    hide Owned;
    Fp2Add(p.ta, p.ta, t);
    Fp2Mul(t, p.tb, t);
    Fp2Mul(t, d, t);
  }

  /** `R1_to_R2`: (X + Y, Y - X, 2Z, 2dT). The code starts T before the other three; they do not overlap. */
  method R1ToR2(p: MemPoint, d: F2, q: MemPrecomp)
    requires OwnedPoint(p) && PrecompRoom(q, p) && Owned(d) && PrecompClear(q, d)
    modifies q.xy.re, q.xy.im, q.yx.re, q.yx.im, q.z2.re, q.z2.im, q.t2.re, q.t2.im
    ensures OwnedPrecomp(q) && PrecompAt(q) == R2(Gf2Ring(), Elt(d), PointAt(p))
  {
    assert Room(d);
    hide GMul;
    hide GAdd;
    hide Gf2Ring;
    hide R2;
    hide R3;
    hide Elt;
    hide Owned;
    Forms(Elt(d), PointAt(p));
    WeightedT(p, d, q.t2);
    SumAndDifference(p, q.xy, q.yx);
    Fp2Add(p.z, p.z, q.z2);
  }

  method NewPrecomp() returns (q: MemPrecomp)
    ensures fresh({q.xy.re, q.xy.im, q.yx.re, q.yx.im, q.z2.re, q.z2.im, q.t2.re, q.t2.im})
    ensures Room(q.xy) && Room(q.yx) && Room(q.z2) && Room(q.t2)
    ensures Clear(q.xy, q.yx) && Clear(q.xy, q.z2) && Clear(q.xy, q.t2)
    ensures Clear(q.yx, q.z2) && Clear(q.yx, q.t2) && Clear(q.z2, q.t2)
  {
    var xy := NewF2();
    var yx := NewF2();
    var z2 := NewF2();
    var t2 := NewF2();
    q := MemPrecomp(xy, yx, z2, t2);
  }

  // ---------------------------------------------------------------- addition

  /** The four products of the two forms, in z, t1, x and y. */
  method AddProducts(P: MemPrecomp, Q: MemPrecomp, p: MemPoint, t1: F2)
    requires OwnedPrecomp(P) && OwnedPrecomp(Q) && Separate(p) && Room(t1) && Outside(t1, p)
    requires PrecompOutside(P, p) && PrecompOutside(Q, p) && PrecompClear(P, t1) && PrecompClear(Q, t1)
    modifies p.x.re, p.x.im, p.y.re, p.y.im, p.z.re, p.z.im, t1.re, t1.im
    ensures Owned(p.x) && Owned(p.y) && Owned(p.z) && Owned(t1)
    ensures Elt(p.z) == GMul(Elt(P.t2), Elt(Q.t2)) && Elt(t1) == GMul(Elt(P.z2), Elt(Q.z2))
    ensures Elt(p.x) == GMul(Elt(P.xy), Elt(Q.xy)) && Elt(p.y) == GMul(Elt(P.yx), Elt(Q.yx))
  {
    hide GMul;
    hide Elt;
    hide Owned;
    Fp2Mul(P.t2, Q.t2, p.z);
    Fp2Mul(P.z2, Q.z2, t1);
    Fp2Mul(P.xy, Q.xy, p.x);
    Fp2Mul(P.yx, Q.yx, p.y);
  }

  /** Sums and differences: t2 = t1 - z, t1 = t1 + z, tb = x - y, ta = x + y. */
  method AddDifferences(p: MemPoint, t1: F2, t2: F2)
    requires Separate(p) && Owned(p.x) && Owned(p.y) && Owned(p.z) && Owned(t1)
    requires Scratch(t1, t2, p)
    modifies t1.re, t1.im, t2.re, t2.im, p.ta.re, p.ta.im, p.tb.re, p.tb.im
    ensures Owned(t1) && Owned(t2) && Owned(p.ta) && Owned(p.tb)
    ensures Elt(t2) == Gf2Ring().sub(old(Elt(t1)), Elt(p.z)) && Elt(t1) == GAdd(old(Elt(t1)), Elt(p.z))
    ensures Elt(p.tb) == Gf2Ring().sub(Elt(p.x), Elt(p.y)) && Elt(p.ta) == GAdd(Elt(p.x), Elt(p.y))
  {
    hide GAdd;
    hide Gf2Ring;
    hide Elt;
    hide Owned;
    Fp2Sub(t1, p.z, t2);
    Fp2Add(t1, p.z, t1);
    Fp2Sub(p.x, p.y, p.tb);
    Fp2Add(p.x, p.y, p.ta);
  }

  /** x = tb * t2, z = t1 * t2, y = ta * t1. */
  method AddFinish(p: MemPoint, t1: F2, t2: F2)
    requires OwnedPoint(p) && Owned(t1) && Owned(t2) && Scratch(t1, t2, p)
    modifies p.x.re, p.x.im, p.y.re, p.y.im, p.z.re, p.z.im
    ensures OwnedPoint(p)
    ensures Elt(p.x) == GMul(Elt(p.tb), Elt(t2)) && Elt(p.z) == GMul(Elt(t1), Elt(t2))
    ensures Elt(p.y) == GMul(Elt(p.ta), Elt(t1))
  {
    hide GMul;
    hide Elt;
    hide Owned;
    Fp2Mul(p.tb, t2, p.x);
    Fp2Mul(t1, t2, p.z);
    Fp2Mul(p.ta, t1, p.y);
  }

  /** From the four products to the added point. */
  lemma AddResult(d: Gf2, p: Point<Gf2>, q: Point<Gf2>, x: Gf2, y: Gf2, z: Gf2, t: Gf2)
    requires var P, Q := R2(Gf2Ring(), d, p), R3(Gf2Ring(), q);
             x == GMul(P.xy, Q.xy) && y == GMul(P.yx, Q.yx) && z == GMul(P.t2, Q.t2) && t == GMul(P.z2, Q.z2)
    ensures var r := Gf2Ring(); var a2, b2, c2, d2 := r.sub(x, y), GAdd(x, y), GAdd(t, z), r.sub(t, z);
            (Point(GMul(a2, d2), GMul(b2, c2), GMul(c2, d2), b2, a2) == Added(r, d, p, q))
  {
    hide GMul;
    hide GAdd;
    hide GNeg;
    Gf2IsRing();
    CrossDifference(Gf2Ring(), p.x, p.y, q.x, q.y);
    CrossSum(Gf2Ring(), p.x, p.y, q.x, q.y);
    PrecompDenominators(Gf2Ring(), d, p, q);
  }

  /** R = P + Q for P in the form (X + Y, Y - X, 2Z, 2dT) and Q in the form (X + Y, Y - X, Z, T). */
  method EccAddCore(P: MemPrecomp, Q: MemPrecomp, p: MemPoint, ghost d: Gf2, ghost a: Point<Gf2>, ghost b: Point<Gf2>)
    requires OwnedPrecomp(P) && OwnedPrecomp(Q) && Separate(p)
    requires PrecompOutside(P, p) && PrecompOutside(Q, p)
    requires PrecompAt(P) == R2(Gf2Ring(), d, a) && PrecompAt(Q) == R3(Gf2Ring(), b)
    modifies p.x.re, p.x.im, p.y.re, p.y.im, p.z.re, p.z.im, p.ta.re, p.ta.im, p.tb.re, p.tb.im
    ensures OwnedPoint(p) && PointAt(p) == Added(Gf2Ring(), d, a, b)
  {
    hide GMul;
    hide GAdd;
    hide Gf2Ring;
    hide Elt;
    hide Owned;
    hide Added;
    hide R2;
    hide R3;
    var t1 := NewF2();
    var t2 := NewF2();
    AddProducts(P, Q, p, t1);
    ghost var x, y, z, t := Elt(p.x), Elt(p.y), Elt(p.z), Elt(t1);
    AddResult(d, a, b, x, y, z, t);
    AddDifferences(p, t1, t2);
    AddFinish(p, t1, t2);
  }

  /** P = P + Q, for a precomputed Q. */
  method EccAdd(Q: MemPrecomp, p: MemPoint, ghost d: Gf2, ghost q: Point<Gf2>)
    requires OwnedPrecomp(Q) && OwnedPoint(p) && PrecompOutside(Q, p)
    requires PrecompAt(Q) == R2(Gf2Ring(), d, q)
    modifies p.x.re, p.x.im, p.y.re, p.y.im, p.z.re, p.z.im, p.ta.re, p.ta.im, p.tb.re, p.tb.im
    ensures OwnedPoint(p) && PointAt(p) == Added(Gf2Ring(), d, q, old(PointAt(p)))
    ensures OnCurve(Gf2Ring(), d, q) && OnCurve(Gf2Ring(), d, old(PointAt(p))) ==> OnCurve(Gf2Ring(), d, PointAt(p))
  {
    hide Gf2Ring;
    hide Elt;
    hide Owned;
    hide Added;
    hide R2;
    hide R3;
    hide OnCurve;
    hide IsRing;
    ghost var before := PointAt(p);
    var R := NewPrecomp();
    R1ToR3(p, R);
    EccAddCore(Q, R, p, d, q, before);
    Gf2IsRing();
    if OnCurve(Gf2Ring(), d, q) && OnCurve(Gf2Ring(), d, before) {
      AddedOnCurve(Gf2Ring(), d, q, before);
    }
  }

  // ---------------------------------------------------------------- entering projective coordinates

  /** What the membership test accepts is on the curve of the formulas, with Z = 1 and T = xy. */
  lemma ValidatedOnCurve(d: Gf2, x: Gf2, y: Gf2)
    ensures Points.OnAffineCurve(d, x, y) <==> OnCurve(Gf2Ring(), d, Point(x, y, Gf2Ring().one, x, y))
  {
    hide OnCurve;
    hide Gf2Ring;
    Gf2IsRing();
    hide IsRing;
    AffineCurve(Gf2Ring(), d, x, y);
  }

  lemma AffineCurve<T(!new)>(r: Ring<T>, d: T, x: T, y: T)
    requires IsRing(r)
    ensures r.sub(r.sq(y), r.sq(x)) == r.add(r.one, r.mul(d, r.mul(r.sq(x), r.sq(y)))) <==> OnCurve(r, d, Point(x, y, r.one, x, y))
  {
    SquareOfProduct(r, x, y);
    Trivial(r, r.one);
    Trivial(r, r.mul(x, y));
  }

  // ---------------------------------------------------------------- mixed addition

  /** `point_precomp`: (x + y, y - x, 2dxy) of an affine point. */
  datatype MemAffine = MemAffine(xy: F2, yx: F2, t2: F2)

  ghost predicate OwnedAffine(q: MemAffine)
    reads q.xy.re, q.xy.im, q.yx.re, q.yx.im, q.t2.re, q.t2.im
  {
    Owned(q.xy) && Owned(q.yx) && Owned(q.t2)
  }

  ghost predicate AffineOutside(q: MemAffine, p: MemPoint) {
    && Room(q.xy) && Room(q.yx) && Room(q.t2)
    && Outside(q.xy, p) && Outside(q.yx, p) && Outside(q.t2, p)
  }

  ghost predicate AffineClear(q: MemAffine, t: F2) {
    Clear(q.xy, t) && Clear(q.yx, t) && Clear(q.t2, t)
  }

  /** The three entries are those of the precomputed form of the affine point a. */
  ghost predicate Holds(q: MemAffine, d: Gf2, a: Point<Gf2>)
    requires Room(q.xy) && Room(q.yx) && Room(q.t2)
    reads q.xy.re, q.xy.im, q.yx.re, q.yx.im, q.t2.re, q.t2.im
  {
    var form := R2(Gf2Ring(), d, a);
    a.z == Gf2Ring().one && Elt(q.xy) == form.xy && Elt(q.yx) == form.yx && Elt(q.t2) == form.t2
  }

  /** ta = Ta Tb t2, t1 = 2Z, z = X + Y, tb = Y - X. */
  method MixedStart(q: MemAffine, p: MemPoint, t1: F2)
    requires OwnedPoint(p) && OwnedAffine(q) && AffineOutside(q, p) && AffineClear(q, t1) && Room(t1) && Outside(t1, p)
    modifies p.ta.re, p.ta.im, p.z.re, p.z.im, p.tb.re, p.tb.im, t1.re, t1.im
    ensures Owned(p.ta) && Owned(p.z) && Owned(p.tb) && Owned(t1)
    ensures Elt(p.ta) == GMul(GMul(old(Elt(p.ta)), old(Elt(p.tb))), Elt(q.t2))
    ensures Elt(t1) == GAdd(old(Elt(p.z)), old(Elt(p.z)))
    ensures Elt(p.z) == GAdd(Elt(p.x), Elt(p.y)) && Elt(p.tb) == Gf2Ring().sub(Elt(p.y), Elt(p.x))
  {
    hide GMul;
    hide GAdd;
    hide Gf2Ring;
    hide Elt;
    hide Owned;
    Fp2Mul(p.ta, p.tb, p.ta);
    Fp2Add(p.z, p.z, t1);
    Fp2Mul(p.ta, q.t2, p.ta);
    Fp2Add(p.x, p.y, p.z);
    Fp2Sub(p.y, p.x, p.tb);
  }

  /** t2 = t1 - ta, t1 = t1 + ta, ta = xy * z, x = yx * tb, z = t1 * t2. */
  method MixedProducts(q: MemAffine, p: MemPoint, t1: F2, t2: F2)
    requires OwnedPoint(p) && OwnedAffine(q) && AffineOutside(q, p) && AffineClear(q, t1) && AffineClear(q, t2)
    requires Owned(t1) && Scratch(t1, t2, p)
    modifies p.ta.re, p.ta.im, p.x.re, p.x.im, p.z.re, p.z.im, t1.re, t1.im, t2.re, t2.im
    ensures Owned(p.ta) && Owned(p.x) && Owned(p.z) && Owned(t1) && Owned(t2)
    ensures Elt(t2) == Gf2Ring().sub(old(Elt(t1)), old(Elt(p.ta))) && Elt(t1) == GAdd(old(Elt(t1)), old(Elt(p.ta)))
    ensures Elt(p.ta) == GMul(Elt(q.xy), old(Elt(p.z))) && Elt(p.x) == GMul(Elt(q.yx), Elt(p.tb))
    ensures Elt(p.z) == GMul(Elt(t1), Elt(t2))
  {
    hide GMul;
    hide GAdd;
    hide Gf2Ring;
    hide Elt;
    hide Owned;
    Fp2Sub(t1, p.ta, t2);
    Fp2Add(t1, p.ta, t1);
    Fp2Mul(q.xy, p.z, p.ta);
    Fp2Mul(q.yx, p.tb, p.x);
    Fp2Mul(t1, t2, p.z);
  }

  /** tb = ta - x, ta = ta + x, x = tb * t2, y = ta * t1. */
  method MixedFinish(p: MemPoint, t1: F2, t2: F2)
    requires OwnedPoint(p) && Owned(t1) && Owned(t2) && Scratch(t1, t2, p)
    modifies p.ta.re, p.ta.im, p.tb.re, p.tb.im, p.x.re, p.x.im, p.y.re, p.y.im
    ensures OwnedPoint(p)
    ensures Elt(p.tb) == Gf2Ring().sub(old(Elt(p.ta)), old(Elt(p.x)))
    ensures Elt(p.ta) == GAdd(old(Elt(p.ta)), old(Elt(p.x)))
    ensures Elt(p.x) == GMul(Elt(p.tb), Elt(t2)) && Elt(p.y) == GMul(Elt(p.ta), Elt(t1))
  {
    hide GMul;
    hide GAdd;
    hide Gf2Ring;
    hide Elt;
    hide Owned;
    Fp2Sub(p.ta, p.x, p.tb);
    Fp2Add(p.ta, p.x, p.ta);
    Fp2Mul(p.tb, t2, p.x);
    Fp2Mul(p.ta, t1, p.y);
  }

  /** From the terms of the mixed formulas to the added point. */
  lemma MixedResult(d: Gf2, q: Point<Gf2>, p: Point<Gf2>, t: Gf2, s: Gf2, e: Gf2, zz: Gf2, u: Gf2, v: Gf2)
    requires q.z == Gf2Ring().one
    requires t == GMul(GMul(p.ta, p.tb), R2(Gf2Ring(), d, q).t2) && zz == GAdd(p.z, p.z)
    requires s == GAdd(p.x, p.y) && e == Gf2Ring().sub(p.y, p.x)
    requires u == GMul(R2(Gf2Ring(), d, q).xy, s) && v == GMul(R2(Gf2Ring(), d, q).yx, e)
    ensures var r := Gf2Ring(); var a2, b2, c2, d2 := r.sub(u, v), GAdd(u, v), GAdd(zz, t), r.sub(zz, t);
            (Point(GMul(a2, d2), GMul(b2, c2), GMul(c2, d2), b2, a2) == Added(r, d, q, p))
  {
    hide GMul;
    hide GAdd;
    hide GNeg;
    Gf2IsRing();
    CrossDifference(Gf2Ring(), q.x, q.y, p.x, p.y);
    CrossSum(Gf2Ring(), q.x, q.y, p.x, p.y);
    AffineDenominators(Gf2Ring(), d, q, p);
  }

  /** Everything up to the last four operations. */
  method MixedTerms(q: MemAffine, p: MemPoint, t1: F2, t2: F2, ghost d: Gf2, ghost a: Point<Gf2>)
    requires OwnedPoint(p) && OwnedAffine(q) && AffineOutside(q, p) && AffineClear(q, t1) && AffineClear(q, t2)
    requires Scratch(t1, t2, p) && Holds(q, d, a)
    modifies p.x.re, p.x.im, p.z.re, p.z.im, p.ta.re, p.ta.im, p.tb.re, p.tb.im, t1.re, t1.im, t2.re, t2.im
    ensures OwnedPoint(p) && Owned(t1) && Owned(t2)
    ensures var b2, a2 := GAdd(Elt(p.ta), Elt(p.x)), Gf2Ring().sub(Elt(p.ta), Elt(p.x));
            Point(GMul(a2, Elt(t2)), GMul(b2, Elt(t1)), Elt(p.z), b2, a2) == Added(Gf2Ring(), d, a, old(PointAt(p)))
  {
    hide GMul;
    hide GAdd;
    hide Gf2Ring;
    hide Elt;
    hide Owned;
    hide Added;
    hide R2;
    ghost var before := PointAt(p);
    MixedStart(q, p, t1);
    ghost var t, s, e, zz := Elt(p.ta), Elt(p.z), Elt(p.tb), Elt(t1);
    MixedProducts(q, p, t1, t2);
    MixedResult(d, a, before, t, s, e, zz, Elt(p.ta), Elt(p.x));
  }

  /** P = P + Q for an affine Q. */
  method EccMadd(q: MemAffine, p: MemPoint, ghost d: Gf2, ghost a: Point<Gf2>)
    requires OwnedPoint(p) && OwnedAffine(q) && AffineOutside(q, p) && Holds(q, d, a)
    modifies p.x.re, p.x.im, p.y.re, p.y.im, p.z.re, p.z.im, p.ta.re, p.ta.im, p.tb.re, p.tb.im
    ensures OwnedPoint(p) && PointAt(p) == Added(Gf2Ring(), d, a, old(PointAt(p)))
    ensures OnCurve(Gf2Ring(), d, a) && OnCurve(Gf2Ring(), d, old(PointAt(p))) ==> OnCurve(Gf2Ring(), d, PointAt(p))
  {
    hide GMul;
    hide GAdd;
    hide Gf2Ring;
    hide Elt;
    hide Owned;
    hide Added;
    hide R2;
    hide Holds;
    hide OnCurve;
    hide IsRing;
    ghost var before := PointAt(p);
    var t1 := NewF2();
    var t2 := NewF2();
    assert Scratch(t1, t2, p) && AffineClear(q, t1) && AffineClear(q, t2);
    MixedTerms(q, p, t1, t2, d, a);
    MixedFinish(p, t1, t2);
    Gf2IsRing();
    if OnCurve(Gf2Ring(), d, a) && OnCurve(Gf2Ring(), d, before) {
      AddedOnCurve(Gf2Ring(), d, a, before);
    }
  }
}
