/** The alternative field backend: products and inverses come from the host, and `take` alone decides what is let
    through. A proof system guarantees that the host's answer is congruent to the right one, not that it is reduced. */
module Bigint2 {
  import opened Words
  import opened ModArith
  import opened Field1271
  import opened FieldPower
  import opened PrimeField
  import opened Fp2

  type uint32 = x: int | 0 <= x < 0x1_0000_0000

  const B := 0x1_0000_0000

  /** The little-endian words of a precompile result. */
  ghost function Value(r: seq<uint32>): int {
    if r == [] then 0 else Push(r[0], Value(r[1..]))
  }

  ghost function Push(x: int, rest: int): int {
    x + B * rest
  }

  lemma ValueOfEight(r: seq<uint32>)
    requires |r| == 8
    ensures Value(r)
         == Push(r[0], Push(r[1], Push(r[2], Push(r[3], Push(r[4], Push(r[5], Push(r[6], Push(r[7], 0))))))))
  {
    ValueFrom(r, 0);
    ValueFrom(r, 1);
    ValueFrom(r, 2);
    ValueFrom(r, 3);
    ValueFrom(r, 4);
    ValueFrom(r, 5);
    ValueFrom(r, 6);
    ValueFrom(r, 7);
    assert r[0..] == r && Value(r[8..]) == 0;
  }

  lemma ValueInNumbers(r: seq<uint32>)
    requires |r| == 8
    ensures Value(r) == r[0] as int + 0x1_0000_0000 * (r[1] as int + 0x1_0000_0000 * (r[2] as int + 0x1_0000_0000
                        * (r[3] as int + 0x1_0000_0000 * (r[4] as int + 0x1_0000_0000 * (r[5] as int + 0x1_0000_0000
                        * (r[6] as int + 0x1_0000_0000 * r[7] as int))))))
  {
    ValueOfEight(r);
  }

  lemma ValueFrom(r: seq<uint32>, i: nat)
    requires i < |r|
    ensures Value(r[i..]) == Push(r[i], Value(r[i + 1..]))
  {
    assert r[i..][1..] == r[i + 1..];
  }

  /** Copies a result out exactly when it is the representative below p; otherwise nothing is written. */
  method Take(d: array<word>, r: seq<uint32>) returns (ok: bool)
    requires d.Length == 2 && |r| == 8
    modifies d
    ensures ok <==> Value(r) < P
    ensures ok ==> Felm(d) && Fe(d) == Value(r)
    ensures !ok ==> d[..] == old(d[..])
  {
    ValueOfEight(r);
    var hi := r[4] == 0 && r[5] == 0 && r[6] == 0 && r[7] == 0;
    var ones := r[0] == 0xFFFF_FFFF && r[1] == 0xFFFF_FFFF && r[2] == 0xFFFF_FFFF;
    var below := r[3] < 0x7FFF_FFFF || (r[3] == 0x7FFF_FFFF && !ones);
    ok := hi && below;
    if ok {
      d[0] := r[0] as int + B * r[1] as int;
      d[1] := r[2] as int + B * r[3] as int;
    }
  }

  /** Whatever representative the host supplies, a product that gets through is the reduced one. */
  method FpMulBigint2(a: array<word>, b: array<word>, c: array<word>, r: seq<uint32>) returns (ok: bool)
    requires Felm(a) && Felm(b) && c.Length == 2 && |r| == 8
    requires Same(Value(r), Fe(a) * Fe(b))
    modifies c
    ensures ok <==> Value(r) < P
    ensures ok ==> Felm(c) && Fe(c) == old(Fe(a)) * old(Fe(b)) % P
  {
    ghost var v := Fe(a) * Fe(b);
    ValueNonnegative(r);
    ok := Take(c, r);
    if ok {
      ModSmall(Fe(c), P);
    }
  }

  lemma {:induction false} ValueNonnegative(r: seq<uint32>)
    ensures Value(r) >= 0
  {
    if r != [] {
      ValueNonnegative(r[1..]);
    }
  }

  /** Both backends give one reduced product. */
  method FpMulBothWays(a: array<word>, b: array<word>, r: seq<uint32>) returns (agree: bool)
    requires Felm(a) && Felm(b) && |r| == 8
    requires Same(Value(r), Fe(a) * Fe(b)) && Value(r) < P
    ensures agree
  {
    var native, host := new word[2], new word[2];
    FpMul1271(a, b, native);
    Mod1271(native);
    var ok := FpMulBigint2(a, b, host, r);
    SameWords(native[0], native[1], host[0], host[1]);
    agree := ok && native[0] == host[0] && native[1] == host[1];
  }

  lemma Reduced(a: int, b: int, re: int, im: int)
    requires 0 <= a < P && 0 <= b < P && Same(a, re) && Same(b, im)
    ensures Pair(a, b) == Residue(re, im)
  {
    SameResidues(a, b, re, im);
  }

  /** The GF(p^2) product: both coefficients must come back reduced, and then the result is the product itself. */
  method Fp2MulBigint2(a: F2, b: F2, c: F2, r0: seq<uint32>, r1: seq<uint32>) returns (ok: bool)
    requires Owned(a) && Owned(b) && Room(c) && Apart(a, c) && Apart(b, c) && |r0| == |r1| == 8
    requires Same(Value(r0), Fe(a.re) * Fe(b.re) - Fe(a.im) * Fe(b.im))
    requires Same(Value(r1), Fe(a.re) * Fe(b.im) + Fe(a.im) * Fe(b.re))
    modifies c.re, c.im
    ensures ok <==> Value(r0) < P && Value(r1) < P
    ensures ok ==> Owned(c) && Fe(c.re) < P && Fe(c.im) < P
    ensures ok ==> Pair(Fe(c.re), Fe(c.im)) == GMul(old(Elt(a)), old(Elt(b)))
  {
    hide GMul;
    ghost var a0, a1, b0, b1 := Fe(a.re), Fe(a.im), Fe(b.re), Fe(b.im);
    MulResidues(a0, a1, b0, b1);
    ValueNonnegative(r0);
    ValueNonnegative(r1);
    ok := Take(c.re, r0);
    if ok {
      ok := Take(c.im, r1);
    }
    if ok {
      Reduced(Value(r0), Value(r1), a0 * b0 - a1 * b1, a0 * b1 + a1 * b0);
    }
  }

  lemma SameWords(a0: word, a1: word, b0: word, b1: word)
    ensures a0 + W * a1 == b0 + W * b1 ==> a0 == b0 && a1 == b1
  {
  }

  /** a^-1 as the guest computes it: zero is answered without the host, which has no inverse to offer. */
  method FpInvBigint2(a: array<word>, c: array<word>, r: seq<uint32>) returns (ok: bool)
    requires Felm(a) && c.Length == 2 && |r| == 8
    requires Fe(a) % P != 0 ==> Fe(a) % P * Value(r) % P == 1
    modifies c
    ensures old(Fe(a)) % P == 0 ==> ok && Felm(c) && Fe(c) == 0
    ensures old(Fe(a)) % P != 0 ==> (ok <==> Value(r) < P)
    ensures ok ==> Felm(c) && Fe(c) == old(Fe(a)) * SquareN(Ones(old(Fe(a)), 125), 2) % P
  {
    ghost var v := Fe(a);
    var t := new word[2];
    t[0], t[1] := a[0], a[1];
    Mod1271(t);
    NativeInverse(v);
    if t[0] == 0 && t[1] == 0 {
      c[0], c[1] := 0, 0;
      return true;
    }
    ok := Take(c, r);
    if ok {
      ValueNonnegative(r);
      ModMul(v, Value(r), P);
      InverseIsUnique(v, Value(r), v * SquareN(Ones(v, 125), 2), P);
      ModSmall(Fe(c), P);
    }
  }
}
