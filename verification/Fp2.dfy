/** GF(p^2) = GF(p)[i] / (i^2 + 1) on pairs of two-word elements. */
module Fp2 {
  import opened Words
  import opened ModArith
  import opened Field1271
  import opened FieldPower
  import opened CommutativeRing

  // ---------------------------------------------------------------- the ring

  type residue = x: int | 0 <= x < P
  datatype Gf2 = Pair(re: residue, im: residue)

  /** The residue modulo p, by adding or taking off p. */
  function Reduce(a: int): residue
    decreases if a < 0 then P - a else a
  {
    if a < 0 then Reduce(a + P) else if a >= P then Reduce(a - P) else a
  }

  lemma {:induction false} ReduceSame(a: int)
    ensures Same(Reduce(a), a)
    decreases if a < 0 then P - a else a
  {
    if a < 0 {
      ReduceSame(a + P);
      ModShift(a, 1, P);
    } else if a >= P {
      ReduceSame(a - P);
      ModShift(a - P, 1, P);
    }
  }

  lemma SameReduce(a: int, b: int)
    requires Same(a, b)
    ensures Reduce(a) == Reduce(b)
  {
    ReduceSame(a);
    ReduceSame(b);
    ModSmall(Reduce(a), P);
    ModSmall(Reduce(b), P);
  }

  function Residue(a: int, b: int): Gf2 {
    Pair(Reduce(a), Reduce(b))
  }

  function GAdd(x: Gf2, y: Gf2): Gf2 { Residue(x.re as int + y.re, x.im as int + y.im) }
  function GNeg(x: Gf2): Gf2 { Residue(-(x.re as int), -(x.im as int)) }
  function GMul(x: Gf2, y: Gf2): Gf2 {
    Residue(Times(x.re, y.re) - Times(x.im, y.im), Times(x.re, y.im) + Times(x.im, y.re))
  }

  /** Multiplication as repeated addition, so that unfolding GMul leaves no nonlinear terms behind. */
  function Times(a: nat, b: int): int {
    if a == 0 then 0 else b + Times(a - 1, b)
  }

  lemma {:induction false} TimesIsProduct(a: nat, b: int)
    ensures Times(a, b) == a * b
  {
    if a > 0 {
      TimesIsProduct(a - 1, b);
    }
  }

  lemma GMulIs(x: Gf2, y: Gf2)
    ensures GMul(x, y) == Residue(x.re * y.re - x.im * y.im, x.re * y.im + x.im * y.re)
  {
    TimesIsProduct(x.re, y.re);
    TimesIsProduct(x.im, y.im);
    TimesIsProduct(x.re, y.im);
    TimesIsProduct(x.im, y.re);
  }

  function Gf2Ring(): Ring<Gf2> {
    Ring(Pair(0, 0), Pair(1, 0), GAdd, GNeg, GMul)
  }

  lemma ResidueOfResidue(a: int, b: int)
    ensures 0 <= a < P && 0 <= b < P ==> Residue(a, b) == Pair(a, b)
  {
  }

  lemma AddResidues(a: int, b: int, c: int, d: int)
    ensures GAdd(Residue(a, b), Residue(c, d)) == Residue(a + c, b + d)
  {
    SumOfReduced(a, c);
    SumOfReduced(b, d);
  }

  lemma SumOfReduced(a: int, c: int)
    ensures Reduce(Reduce(a) as int + Reduce(c)) == Reduce(a + c)
  {
    ReduceSame(a);
    ReduceSame(c);
    SameSum(Reduce(a), Reduce(c), a, c);
    SameReduce(Reduce(a) as int + Reduce(c), a + c);
  }

  lemma NegResidue(a: int, b: int)
    ensures GNeg(Residue(a, b)) == Residue(-a, -b)
  {
    NegOfReduced(a);
    NegOfReduced(b);
  }

  lemma NegOfReduced(a: int)
    ensures Reduce(-(Reduce(a) as int)) == Reduce(-a)
  {
    ReduceSame(a);
    SameDifference(0, Reduce(a), 0, a);
    SameReduce(-(Reduce(a) as int), -a);
  }

  lemma SameProductSum(a: int, b: int, c: int, d: int, a': int, b': int, c': int, d': int)
    requires Same(a, a') && Same(b, b') && Same(c, c') && Same(d, d')
    ensures Same(a * b + c * d, a' * b' + c' * d') && Same(a * b - c * d, a' * b' - c' * d')
  {
    ModMulBoth(a, b, P);
    ModMulBoth(a', b', P);
    ModMulBoth(c, d, P);
    ModMulBoth(c', d', P);
    SameSum(a * b, c * d, a' * b', c' * d');
    SameDifference(a * b, c * d, a' * b', c' * d');
  }

  lemma SameSum(x: int, y: int, x': int, y': int)
    requires Same(x, x') && Same(y, y')
    ensures Same(x + y, x' + y')
  {
    ModAdd(x, y, P);
    ModAdd(y, x % P, P);
    ModAdd(x', y', P);
    ModAdd(y', x' % P, P);
  }

  lemma SameDifference(x: int, y: int, x': int, y': int)
    requires Same(x, x') && Same(y, y')
    ensures Same(x - y, x' - y')
  {
    ModSub(x, y, P);
    ModSub(y, x % P, P);
    ModSub(x', y', P);
    ModSub(y', x' % P, P);
  }

  lemma MulResidues(a: int, b: int, c: int, d: int)
    ensures GMul(Residue(a, b), Residue(c, d)) == Residue(a * c - b * d, a * d + b * c)
  {
    var a', b', c', d' := Reduce(a) as int, Reduce(b) as int, Reduce(c) as int, Reduce(d) as int;
    ReduceSame(a);
    ReduceSame(b);
    ReduceSame(c);
    ReduceSame(d);
    SameProductSum(a', c', b', d', a, c, b, d);
    SameProductSum(a', d', b', c', a, d, b, c);
    SameReduce(a' * c' - b' * d', a * c - b * d);
    SameReduce(a' * d' + b' * c', a * d + b * c);
    GMulIs(Residue(a, b), Residue(c, d));
  }

  lemma Canonical(x: Gf2)
    ensures x == Residue(x.re, x.im)
  {
    ResidueOfResidue(x.re, x.im);
  }

  lemma AddAssociates(x: Gf2, y: Gf2, z: Gf2)
    ensures GAdd(GAdd(x, y), z) == GAdd(x, GAdd(y, z))
  {
    calc {
      GAdd(GAdd(x, y), z);
      { Canonical(z); }
      GAdd(Residue(x.re + y.re, x.im + y.im), Residue(z.re, z.im));
      { AddResidues(x.re + y.re, x.im + y.im, z.re, z.im); }
      Residue(x.re + y.re + z.re, x.im + y.im + z.im);
      { AddResidues(x.re, x.im, y.re + z.re, y.im + z.im); }
      GAdd(Residue(x.re, x.im), Residue(y.re + z.re, y.im + z.im));
      { Canonical(x); }
      GAdd(x, GAdd(y, z));
    }
  }

  lemma AddInverse(x: Gf2)
    ensures GAdd(x, GNeg(x)) == Pair(0, 0)
  {
    Canonical(x);
    AddResidues(x.re, x.im, -(x.re as int), -(x.im as int));
    ResidueOfResidue(0, 0);
  }

  lemma MulAssociates(x: Gf2, y: Gf2, z: Gf2)
    ensures GMul(GMul(x, y), z) == GMul(x, GMul(y, z))
  {
    hide GMul;
    var a, b, c, d, e, f := x.re as int, x.im as int, y.re as int, y.im as int, z.re as int, z.im as int;
    Canonical(x);
    Canonical(y);
    Canonical(z);
    MulResidues(a, b, c, d);
    MulResidues(a * c - b * d, a * d + b * c, e, f);
    MulResidues(c, d, e, f);
    MulResidues(a, b, c * e - d * f, c * f + d * e);
    GaussianAssociates(a, b, c, d, e, f);
  }

  lemma MulCommutes(x: Gf2, y: Gf2)
    ensures GMul(x, y) == GMul(y, x)
  {
    GMulIs(x, y);
    GMulIs(y, x);
  }

  lemma MulOne(x: Gf2)
    ensures GMul(x, Pair(1, 0)) == x
  {
    Canonical(x);
    GMulIs(x, Pair(1, 0));
  }

  lemma MulDistributes(x: Gf2, y: Gf2, z: Gf2)
    ensures GMul(GAdd(x, y), z) == GAdd(GMul(x, z), GMul(y, z))
  {
    hide GMul;
    hide GAdd;
    var a, b, c, d, e, f := x.re as int, x.im as int, y.re as int, y.im as int, z.re as int, z.im as int;
    Canonical(x);
    Canonical(y);
    Canonical(z);
    AddResidues(a, b, c, d);
    MulResidues(a + c, b + d, e, f);
    MulResidues(a, b, e, f);
    MulResidues(c, d, e, f);
    AddResidues(a * e - b * f, a * f + b * e, c * e - d * f, c * f + d * e);
    GaussianDistributes(a, b, c, d, e, f);
  }

  lemma Gf2SumLaws(x: Gf2, y: Gf2, z: Gf2)
    ensures SumLaws(Gf2Ring(), x, y, z)
  {
    Canonical(x);
    AddAssociates(x, y, z);
    AddInverse(x);
  }

  lemma Gf2ProductLaws(x: Gf2, y: Gf2, z: Gf2)
    ensures ProductLaws(Gf2Ring(), x, y, z)
  {
    MulAssociates(x, y, z);
    MulCommutes(x, y);
    MulOne(x);
    MulDistributes(x, y, z);
  }

  lemma Gf2IsRing()
    ensures IsRing(Gf2Ring())
  {
    forall x, y, z
      ensures LawsAt(Gf2Ring(), x, y, z)
    {
      Gf2SumLaws(x, y, z);
      Gf2ProductLaws(x, y, z);
    }
  }

  lemma GaussianAssociates(a: int, b: int, c: int, d: int, e: int, f: int)
    ensures (a * c - b * d) * e - (a * d + b * c) * f == a * (c * e - d * f) - b * (c * f + d * e)
    ensures (a * c - b * d) * f + (a * d + b * c) * e == a * (c * f + d * e) + b * (c * e - d * f)
  {
    assert (a * c) * e == a * (c * e) && (b * d) * e == b * (d * e) && (a * d) * f == a * (d * f) && (b * c) * f == b * (c * f);
    assert (a * c) * f == a * (c * f) && (b * d) * f == b * (d * f) && (a * d) * e == a * (d * e) && (b * c) * e == b * (c * e);
  }

  lemma GaussianDistributes(a: int, b: int, c: int, d: int, e: int, f: int)
    ensures (a + c) * e - (b + d) * f == (a * e - b * f) + (c * e - d * f)
    ensures (a + c) * f + (b + d) * e == (a * f + b * e) + (c * f + d * e)
  {
  }

  // ---------------------------------------------------------------- elements in memory

  /** `f2elm_t`: two field elements in memory. */
  datatype F2 = F2(re: array<word>, im: array<word>)

  ghost predicate Owned(a: F2)
    reads a.re, a.im
  {
    a.re != a.im && Felm(a.re) && Felm(a.im)
  }

  ghost predicate Room(c: F2) {
    c.re != c.im && c.re.Length == 2 && c.im.Length == 2
  }

  /** c is a itself or does not overlap it. */
  ghost predicate Apart(a: F2, c: F2) {
    a.re != c.im && a.im != c.re
  }

  ghost function Elt(a: F2): Gf2
    requires a.re.Length == 2 && a.im.Length == 2
    reads a.re, a.im
  {
    Residue(Fe(a.re), Fe(a.im))
  }

  lemma SameResidues(a: int, b: int, c: int, d: int)
    requires Same(a, c) && Same(b, d)
    ensures Residue(a, b) == Residue(c, d)
  {
    SameReduce(a, c);
    SameReduce(b, d);
  }

  method Fp2Add(a: F2, b: F2, c: F2)
    requires Owned(a) && Owned(b) && Room(c) && Apart(a, c) && Apart(b, c)
    modifies c.re, c.im
    ensures Owned(c) && Elt(c) == GAdd(old(Elt(a)), old(Elt(b)))
    ensures Fe(c.re) == 0 <==> old(Fe(a.re)) == 0 && old(Fe(b.re)) == 0
    ensures Fe(c.im) == 0 <==> old(Fe(a.im)) == 0 && old(Fe(b.im)) == 0
  {
    ghost var a0, a1, b0, b1 := Fe(a.re), Fe(a.im), Fe(b.re), Fe(b.im);
    FpAdd1271(a.re, b.re, c.re);
    FpAdd1271(a.im, b.im, c.im);
    AddResidues(a0, a1, b0, b1);
    SameResidues(Fe(c.re), Fe(c.im), a0 + b0, a1 + b1);
  }

  method Fp2Sub(a: F2, b: F2, c: F2)
    requires Owned(a) && Owned(b) && Room(c) && Apart(a, c) && Apart(b, c)
    modifies c.re, c.im
    ensures Owned(c) && Elt(c) == Gf2Ring().sub(old(Elt(a)), old(Elt(b)))
    ensures Fe(c.re) == P <==> old(Fe(a.re)) == P && old(Fe(b.re)) == 0
    ensures Fe(c.im) == P <==> old(Fe(a.im)) == P && old(Fe(b.im)) == 0
  {
    ghost var a0, a1, b0, b1 := Fe(a.re), Fe(a.im), Fe(b.re), Fe(b.im);
    FpSub1271(a.re, b.re, c.re);
    FpSub1271(a.im, b.im, c.im);
    SubResidues(a0, a1, b0, b1);
    SameResidues(Fe(c.re), Fe(c.im), a0 - b0, a1 - b1);
  }

  lemma SubResidues(a: int, b: int, c: int, d: int)
    ensures Gf2Ring().sub(Residue(a, b), Residue(c, d)) == Residue(a - c, b - d)
  {
    NegResidue(c, d);
    AddResidues(a, b, -c, -d);
  }

  method Fp2Neg(a: F2)
    requires Owned(a)
    modifies a.re, a.im
    ensures Owned(a) && Elt(a) == GNeg(old(Elt(a)))
  {
    ghost var a0, a1 := Fe(a.re), Fe(a.im);
    FpNeg1271(a.re);
    FpNeg1271(a.im);
    NegResidue(a0, a1);
    SameResidues(Fe(a.re), Fe(a.im), -a0, -a1);
  }

  lemma DifferenceOfThree(s: int, p: int, q: int, m: int, t1: int, t2: int, u: int, v: int)
    requires Same(m, s) && Same(t1, p) && Same(t2, q) && Same(u, m - t1) && Same(v, u - t2)
    ensures Same(v, s - p - q)
  {
    SameDifference(m, t1, s, p);
    SameDifference(u, t2, s - p, q);
  }

  lemma CrossTerms(a0: int, a1: int, b0: int, b1: int)
    ensures (a0 + a1) * (b0 + b1) - a0 * b0 - a1 * b1 == a0 * b1 + a1 * b0
  {
  }

  method ProductOf(x: array<word>, y: array<word>, ghost p: int) returns (t: array<word>)
    requires Felm(x) && Felm(y) && Fe(x) * Fe(y) == p
    ensures fresh(t) && Felm(t) && Same(Fe(t), p) && (Fe(t) == 0 <==> Fe(x) == 0 || Fe(y) == 0)
  {
    t := new word[2];
    FpMul1271(x, y, t);
  }

  method SumOf(x: array<word>, y: array<word>) returns (t: array<word>)
    requires Felm(x) && Felm(y)
    ensures fresh(t) && Felm(t) && Same(Fe(t), Fe(x) + Fe(y)) && (Fe(t) == 0 <==> Fe(x) == 0 && Fe(y) == 0)
  {
    t := new word[2];
    FpAdd1271(x, y, t);
  }

  lemma SumsMultiply(t3: int, t4: int, a0: int, a1: int, b0: int, b1: int)
    requires Same(t3, a0 + a1) && Same(t4, b0 + b1)
    ensures Same(t3 * t4, a0 * b0 + a1 * b1 + (a0 * b1 + a1 * b0))
  {
    SameMul(t3, t4, a0 + a1, b0 + b1);
    CrossTerms(a0, a1, b0, b1);
  }

  lemma SameTrans(x: int, y: int, z: int)
    requires Same(x, y) && Same(y, z)
    ensures Same(x, z)
  {
  }

  method CombineProducts(t1: array<word>, t2: array<word>, t3: array<word>, t4: array<word>, c: F2,
                         ghost p: int, ghost q: int, ghost s: int)
    requires Felm(t1) && Felm(t2) && Felm(t3) && Felm(t4) && t3 != t4 && t3 != t1 && t3 != t2
    requires Room(c) && {t1, t2, t3, t4} !! {c.re, c.im}
    requires Same(Fe(t1), p) && Same(Fe(t2), q) && Same(Fe(t3) * Fe(t4), s)
    modifies c.re, c.im, t3
    ensures Owned(c) && Same(Fe(c.re), p - q) && Same(Fe(c.im), s - p - q)
    ensures Fe(c.im) == P ==> old(Fe(t1)) == 0 && old(Fe(t2)) == 0 && old(Fe(t3)) != 0
  {
    hide Same;
    ghost var s1, s2 := Fe(t1), Fe(t2);
    FpSub1271(t1, t2, c.re);
    SameDifference(s1, s2, p, q);
    SameTrans(Fe(c.re), s1 - s2, p - q);
    ghost var m0 := Fe(t3) * Fe(t4);
    FpMul1271(t3, t4, t3);
    ghost var m := Fe(t3);
    SameTrans(m, m0, s);
    FpSub1271(t3, t1, t3);
    ghost var u := Fe(t3);
    FpSub1271(t3, t2, c.im);
    DifferenceOfThree(s, p, q, m, s1, s2, u, Fe(c.im));
  }

  /** Three products instead of four. */
  method MulParts(a: F2, b: F2, c: F2, ghost p: int, ghost q: int, ghost m: int)
    requires Owned(a) && Owned(b) && Room(c) && Apart(a, c) && Apart(b, c)
    requires p == Fe(a.re) * Fe(b.re) && q == Fe(a.im) * Fe(b.im) && m == Fe(a.re) * Fe(b.im) + Fe(a.im) * Fe(b.re)
    modifies c.re, c.im
    ensures Owned(c) && Same(Fe(c.re), p - q) && Same(Fe(c.im), m)
    ensures old(Fe(b.re)) > 0 && old(Fe(b.im)) > 0 ==> Fe(c.im) < P
  {
    ghost var a0, a1, b0, b1 := Fe(a.re), Fe(a.im), Fe(b.re), Fe(b.im);
    var t1 := ProductOf(a.re, b.re, p);
    var t2 := ProductOf(a.im, b.im, q);
    var t3 := SumOf(a.re, a.im);
    var t4 := SumOf(b.re, b.im);
    SumsMultiply(Fe(t3), Fe(t4), a0, a1, b0, b1);
    CombineProducts(t1, t2, t3, t4, c, p, q, p + q + m);
  }

  method Fp2Mul(a: F2, b: F2, c: F2)
    requires Owned(a) && Owned(b) && Room(c) && Apart(a, c) && Apart(b, c)
    modifies c.re, c.im
    ensures Owned(c) && Elt(c) == GMul(old(Elt(a)), old(Elt(b)))
    ensures old(Fe(b.re)) > 0 && old(Fe(b.im)) > 0 ==> Fe(c.im) < P
  {
    ghost var a0, a1, b0, b1 := Fe(a.re), Fe(a.im), Fe(b.re), Fe(b.im);
    ghost var p, q, m := a0 * b0, a1 * b1, a0 * b1 + a1 * b0;
    MulResidues(a0, a1, b0, b1);
    MulParts(a, b, c, p, q, m);
    SameResidues(Fe(c.re), Fe(c.im), p - q, m);
  }

  lemma SquareParts(a0: int, a1: int, t1: int, t2: int, t3: int, u: int, v: int)
    requires Same(t1, a0 + a1) && Same(t2, a0 - a1) && Same(t3, a0 * a1)
    requires Same(u, t1 * t2) && Same(v, t3 + t3)
    ensures Same(u, a0 * a0 - a1 * a1) && Same(v, a0 * a1 + a1 * a0)
  {
    SameMul(t1, t2, a0 + a1, a0 - a1);
    assert (a0 + a1) * (a0 - a1) == a0 * a0 - a1 * a1;
    SameSum(t3, t3, a0 * a1, a0 * a1);
  }

  method Fp2Sqr(a: F2, c: F2)
    requires Owned(a) && Room(c) && Apart(a, c)
    modifies c.re, c.im
    ensures Owned(c) && Elt(c) == GMul(old(Elt(a)), old(Elt(a)))
    ensures Fe(c.im) == 0 <==> old(Fe(a.re)) == 0 || old(Fe(a.im)) == 0
  {
    hide GMul;
    ghost var a0, a1 := Fe(a.re), Fe(a.im);
    MulResidues(a0, a1, a0, a1);
    var t1, t2, t3 := new word[2], new word[2], new word[2];
    FpAdd1271(a.re, a.im, t1);
    FpSub1271(a.re, a.im, t2);
    FpMul1271(a.re, a.im, t3);
    ghost var s1, s2, s3 := Fe(t1), Fe(t2), Fe(t3);
    FpMul1271(t1, t2, c.re);
    FpAdd1271(t3, t3, c.im);
    SquareParts(a0, a1, s1, s2, s3, Fe(c.re), Fe(c.im));
    SameResidues(Fe(c.re), Fe(c.im), a0 * a0 - a1 * a1, a0 * a1 + a1 * a0);
  }

  /** Both coordinates halved. */
  method Fp2Div(a: F2)
    requires Owned(a)
    modifies a.re, a.im
    ensures Owned(a) && GAdd(Elt(a), Elt(a)) == old(Elt(a))
  {
    ghost var a0, a1 := Fe(a.re), Fe(a.im);
    hide Same;
    hide GAdd;
    FpDiv2(a.re);
    FpDiv2(a.im);
    ghost var h0, h1 := Fe(a.re), Fe(a.im);
    AddResidues(h0, h1, h0, h1);
    assert h0 + h0 == 2 * h0 && h1 + h1 == 2 * h1;
    SameResidues(2 * h0, 2 * h1, a0, a1);
  }

  method NewF2() returns (f: F2)
    ensures Room(f) && fresh(f.re) && fresh(f.im)
  {
    var re, im := new word[2], new word[2];
    f := F2(re, im);
  }
}
