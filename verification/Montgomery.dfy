/** Montgomery multiplication modulo the 246-bit order of the FourQ subgroup. */
module Montgomery {
  import opened Words
  import opened Limbs
  import opened ModArith

  /** The curve order, and its four words. */
  const ORDER := 0x0029CBC14E5E0A72_F05397829CBC14E5_DFBD004DFE0F7999_2FB2540EC7768CE7
  const CURVE_ORDER: seq<word> := [0x2FB2540EC7768CE7, 0xDFBD004DFE0F7999, 0xF05397829CBC14E5, 0x0029CBC14E5E0A72]
  /** -1/ORDER modulo 2^256. */
  const SMALL_R_PRIME: seq<word> := [0xE12FE5F079BC3929, 0xD75E78B8D1FCDCF3, 0xBCE409ED76B5DB21, 0xF32702FDAFC1C074]
  const R_PRIME_VALUE := 0xF32702FDAFC1C074_BCE409ED76B5DB21_D75E78B8D1FCDCF3_E12FE5F079BC3929
  /** 2^512 modulo ORDER. */
  const MONTGOMERY_RPRIME: seq<word> := [0xC81DB8795FF3D621, 0x173EA5AAEA6B387D, 0x3D01B7C72136F61C, 0x0006A5F16AC8F9D3]
  const RPRIME_VALUE := 0x0006A5F16AC8F9D3_3D01B7C72136F61C_173EA5AAEA6B387D_C81DB8795FF3D621
  const ONE: seq<word> := [1, 0, 0, 0]

  const R := 0x1_0000000000000000_0000000000000000_0000000000000000_0000000000000000
  /** The quotient of ORDER * R_PRIME_VALUE + 1 by 2^256; also the inverse of 2^256 modulo ORDER. */
  const R_INVERSE := 0x0027b2c704d8c6d1_0dd5b24ac3811877_5d78fa35b9b3d9c0_01c9fa340fc44477

  lemma Powers()
    ensures WPow(4) == R && WPow(8) == R * R
  {
    assert WPow(2) == W * W;
    WPowAdds(2, 2);
    WPowAdds(4, 4);
  }

  lemma OrderValue()
    ensures Val(CURVE_ORDER) == ORDER
  {
    Val4(CURVE_ORDER);
  }

  lemma ConstantValues()
    ensures Val(SMALL_R_PRIME) == R_PRIME_VALUE
    ensures Val(MONTGOMERY_RPRIME) == RPRIME_VALUE < ORDER
    ensures Val(ONE) == 1
  {
    Val4(SMALL_R_PRIME);
    Val4(MONTGOMERY_RPRIME);
    Val4(ONE);
  }

  /** r' is minus the inverse of ORDER, and Montgomery_Rprime is 2^512. */
  lemma ConstantIdentities()
    ensures ORDER * R_PRIME_VALUE + 1 == R * R_INVERSE
    ensures (RPRIME_VALUE - R * R) % ORDER == 0
  {
  }

  /** What Montgomery multiplication computes: a * b / 2^256 modulo ORDER. */
  function MontgomeryProduct(a: nat, b: nat): (m: nat)
    ensures m < ORDER
  {
    a * b * R_INVERSE % ORDER
  }

  /** A reduced number is the Montgomery product as soon as it is right after multiplying by 2^256. */
  lemma MontgomeryProductUnique(m: nat, a: nat, b: nat, k: int)
    requires m < ORDER && m * R == a * b + ORDER * k
    ensures m == MontgomeryProduct(a, b)
  {
    var ab := a * b;
    ConstantIdentities();
    calc {
      ab * R_INVERSE % ORDER;
      { InverseShift(m, ab, k); }
      (m + ORDER * (m * R_PRIME_VALUE - k * R_INVERSE)) % ORDER;
      { ModShift(m, m * R_PRIME_VALUE - k * R_INVERSE, ORDER); }
      m % ORDER;
      { ModSmall(m, ORDER); }
      m;
    }
  }

  lemma InverseShift(m: int, ab: int, k: int)
    requires m * R == ab + ORDER * k
    ensures ab * R_INVERSE == m + ORDER * (m * R_PRIME_VALUE - k * R_INVERSE)
  {
    ConstantIdentities();
    calc {
      ab * R_INVERSE;
      (m * R - ORDER * k) * R_INVERSE;
      m * (R * R_INVERSE) - ORDER * (k * R_INVERSE);
      m * (ORDER * R_PRIME_VALUE + 1) - ORDER * (k * R_INVERSE);
      m + ORDER * (m * R_PRIME_VALUE) - ORDER * (k * R_INVERSE);
    }
  }

  /** Multiplying by 2^512 and then by 1 is reduction modulo the order. */
  lemma ReductionByMontgomery(k: nat)
    ensures MontgomeryProduct(MontgomeryProduct(k, RPRIME_VALUE), 1) == k % ORDER
  {
    ConstantIdentities();
    var unit := RPRIME_VALUE * R_INVERSE;
    calc {
      MontgomeryProduct(MontgomeryProduct(k, RPRIME_VALUE), 1);
      (k * RPRIME_VALUE * R_INVERSE % ORDER) * R_INVERSE % ORDER;
      { ModMul(k * RPRIME_VALUE * R_INVERSE, R_INVERSE, ORDER); }
      k * RPRIME_VALUE * R_INVERSE * R_INVERSE % ORDER;
      { assert k * RPRIME_VALUE * R_INVERSE * R_INVERSE == (RPRIME_VALUE * R_INVERSE * R_INVERSE) * k; }
      (RPRIME_VALUE * R_INVERSE * R_INVERSE) * k % ORDER;
      { ModMul(RPRIME_VALUE * R_INVERSE * R_INVERSE, k, ORDER); }
      (RPRIME_VALUE * R_INVERSE * R_INVERSE % ORDER) * k % ORDER;
      { assert RPRIME_VALUE * R_INVERSE * R_INVERSE % ORDER == 1; }
      k % ORDER;
    }
  }

  // ---------------------------------------------------------------- carry chains

  /** Four chained `addcarry64`. */
  method AddChain(cin: bit, x: seq<word>, y: seq<word>) returns (cout: bit, z: seq<word>)
    requires |x| == |y| == 4
    ensures |z| == 4 && Val(z) + WPow(4) * cout == Val(x) + Val(y) + cin
  {
    var c, z0, z1, z2, z3;
    c, z0 := AddCarry64(cin, x[0], y[0]);
    c, z1 := AddCarry64(c, x[1], y[1]);
    c, z2 := AddCarry64(c, x[2], y[2]);
    c, z3 := AddCarry64(c, x[3], y[3]);
    cout, z := c, [z0, z1, z2, z3];
    Val4(x);
    Val4(y);
    Val4(z);
    Powers();
  }

  /** Four chained `subborrow64`. */
  method SubChain(x: seq<word>, y: seq<word>) returns (bout: bit, z: seq<word>)
    requires |x| == |y| == 4
    ensures |z| == 4 && Val(z) - WPow(4) * bout == Val(x) - Val(y)
  {
    var b, z0, z1, z2, z3;
    b, z0 := SubBorrow64(0, x[0], y[0]);
    b, z1 := SubBorrow64(b, x[1], y[1]);
    b, z2 := SubBorrow64(b, x[2], y[2]);
    b, z3 := SubBorrow64(b, x[3], y[3]);
    bout, z := b, [z0, z1, z2, z3];
    Val4(x);
    Val4(y);
    Val4(z);
    Powers();
  }

  // ---------------------------------------------------------------- the product

  /** Row i of the truncated product: only the columns below word 4, the carry out dropped. */
  method LowRow(r: array<word>, i: nat, x: word, rp: array<word>) returns (ghost dropped: nat)
    requires r.Length == rp.Length == 4 && r != rp && i < 4
    modifies r
    ensures Val(r[..]) + WPow(4) * dropped == old(Val(r[..])) + WPow(i) * (x * Val(rp[..4 - i]))
  {
    ghost var y, before := rp[..], Val(r[..]);
    assert Val(y[..0]) == 0;
    hide Val;
    hide WPow;
    var carry: word := 0;
    for j := 0 to 4 - i
      invariant rp[..] == y
      invariant Val(r[..]) + WPow(i + j) * carry == before + WPow(i) * (x * Val(y[..j]))
    {
      ghost var v, column, c := Val(r[..]), r[i + j], carry;
      carry := AccumulateAt(r, i + j, x, rp[j], carry);
      ValPrefix(y, j);
      RowStep(i, j, x, rp[j], v, column, c, r[i + j], carry, Val(y[..j]), before);
    }
    assert y[..4 - i] == rp[..4 - i];
    dropped := carry;
  }

  /** Q = P * r' modulo 2^256, with what is dropped as a witness. */
  method LowProduct(P: array<word>, rp: array<word>) returns (r: array<word>, ghost dropped: int)
    requires P.Length >= 4 && rp.Length == 4
    ensures fresh(r) && r.Length == 4
    ensures Val(r[..]) + WPow(4) * dropped == Val(P[..4]) * Val(rp[..])
  {
    ghost var p, y := P[..], rp[..];
    assert Val(p[..0]) == 0;
    hide Val;
    hide WPow;
    r := new word[4](_ => 0);
    ValZeros(r[..]);
    dropped := 0;
    for i := 0 to 4
      invariant Val(r[..]) + WPow(4) * dropped == Val(p[..i]) * Val(y)
      invariant P[..] == p && rp[..] == y
      modifies r
    {
      ghost var before := Val(r[..]);
      ghost var d := LowRow(r, i, P[i], rp);
      assert rp[..4 - i] == y[..4 - i];
      LowRowOf(i, p, y, before, Val(r[..]), d, dropped);
      dropped := dropped + d + p[i] * Val(y[4 - i..]);
    }
    assert p[..4] == P[..4];
  }

  lemma LowRowOf(i: nat, p: seq<word>, y: seq<word>, before: int, after: int, d: int, dropped: int)
    requires i < 4 <= |p| && |y| == 4
    requires before + WPow(4) * dropped == Val(p[..i]) * Val(y)
    requires after + WPow(4) * d == before + WPow(i) * (p[i] * Val(y[..4 - i]))
    ensures after + WPow(4) * (dropped + d + p[i] * Val(y[4 - i..])) == Val(p[..i + 1]) * Val(y)
  {
    hide Val;
    hide WPow;
    ValPrefix(p, i);
    ValSplit(y, 4 - i);
    WPowAdds(i, 4 - i);
    LowRowStep(WPow(i), WPow(4 - i), WPow(4), p[i], Val(y[..4 - i]), Val(y[4 - i..]), Val(p[..i]), before, after, d, dropped);
  }

  lemma LowRowStep(p: int, t: int, whole: int, x: int, low: int, high: int, prefix: int, before: int, after: int, d: int, dropped: int)
    requires p * t == whole
    requires before + whole * dropped == prefix * (low + t * high)
    requires after + whole * d == before + p * (x * low)
    ensures after + whole * (dropped + d + x * high) == (prefix + p * x) * (low + t * high)
  {
    calc {
      (prefix + p * x) * (low + t * high);
      prefix * (low + t * high) + (p * x) * (low + t * high);
      { assert (p * x) * (low + t * high) == p * (x * low) + (p * t) * (x * high); }
      before + whole * dropped + p * (x * low) + whole * (x * high);
      after + whole * d + whole * dropped + whole * (x * high);
    }
  }

  // ---------------------------------------------------------------- the unrolled low product

  /** The first row of the unrolled low product; its top product is truncated and its last carry dropped. */
  method UnrolledLowRow0(x: word, rp: seq<word>) returns (q0: word, q1: word, q2: word, q3: word, ghost d: int)
    requires |rp| == 4
    ensures q0 + W * q1 + W * W * q2 + W * W * W * q3 + W * W * W * W * d
         == x * rp[0] + W * (x * rp[1]) + W * W * (x * rp[2]) + W * W * W * (x * rp[3])
  {
    var u, tmp, uv, cy;
    MulBound(x, rp[1], W - 1, W - 1);
    MulBound(x, rp[2], W - 1, W - 1);
    q0, u := UMul128(x, rp[0]);
    tmp, uv := UMul128(x, rp[1]);
    cy, q1 := AddCarry64(0, tmp, u);
    u := cy + uv;
    tmp, uv := UMul128(x, rp[2]);
    cy, q2 := AddCarry64(0, tmp, u);
    u := cy + uv;
    cy, q3 := AddCarry64(0, x * rp[3] % W, u);
    d := x * rp[3] / W + cy;
  }

  method UnrolledLowRow1(x: word, rp: seq<word>, q1: word, q2: word, q3: word)
    returns (q1': word, q2': word, q3': word, ghost d: int)
    requires |rp| == 4
    ensures q1' + W * q2' + W * W * q3' + W * W * W * d
         == q1 + W * q2 + W * W * q3 + x * rp[0] + W * (x * rp[1]) + W * W * (x * rp[2])
  {
    var u, v, tmp, uv, cy, cv;
    MulBound(x, rp[0], W - 1, W - 1);
    MulBound(x, rp[1], W - 1, W - 1);
    tmp, uv := UMul128(x, rp[0]);
    cy, q1' := AddCarry64(0, q1, tmp);
    u := cy + uv;
    tmp, uv := UMul128(x, rp[1]);
    cy, v := AddCarry64(0, tmp, u);
    u := cy + uv;
    cy, q2' := AddCarry64(0, q2, v);
    cv, v := AddCarry64(cy, x * rp[2] % W, u);
    cy, q3' := AddCarry64(0, q3, v);
    d := x * rp[2] / W + cv + cy;
  }

  method UnrolledLowRow2(x: word, rp: seq<word>, q2: word, q3: word) returns (q2': word, q3': word, ghost d: int)
    requires |rp| == 4
    ensures q2' + W * q3' + W * W * d == q2 + W * q3 + x * rp[0] + W * (x * rp[1])
  {
    var u, v, tmp, uv, cy, cv;
    MulBound(x, rp[0], W - 1, W - 1);
    tmp, uv := UMul128(x, rp[0]);
    cy, q2' := AddCarry64(0, q2, tmp);
    u := cy + uv;
    cv, v := AddCarry64(0, x * rp[1] % W, u);
    cy, q3' := AddCarry64(0, q3, v);
    d := x * rp[1] / W + cv + cy;
  }

  method UnrolledLowRow3(x: word, rp: seq<word>, q3: word) returns (q3': word, ghost d: int)
    requires |rp| == 4
    ensures q3' + W * d == q3 + x * rp[0]
  {
    var cy;
    cy, q3' := AddCarry64(0, q3, x * rp[0] % W);
    d := x * rp[0] / W + cy;
  }

  /** The four rows together, over plain integers. */
  lemma LowRowsSum(p0: int, p1: int, p2: int, p3: int, c0: int, c1: int, c2: int, c3: int,
                   q0: int, q1: int, q2: int, q3: int, r1: int, r2: int, r3: int, s2: int, s3: int, t3: int,
                   d0: int, d1: int, d2: int, d3: int) returns (dropped: int)
    requires q0 + W * q1 + W * W * q2 + W * W * W * q3 + W * W * W * W * d0
          == p0 * c0 + W * (p0 * c1) + W * W * (p0 * c2) + W * W * W * (p0 * c3)
    requires r1 + W * r2 + W * W * r3 + W * W * W * d1
          == q1 + W * q2 + W * W * q3 + p1 * c0 + W * (p1 * c1) + W * W * (p1 * c2)
    requires s2 + W * s3 + W * W * d2 == r2 + W * r3 + p2 * c0 + W * (p2 * c1)
    requires t3 + W * d3 == s3 + p3 * c0
    ensures q0 + W * (r1 + W * (s2 + W * t3)) + W * W * W * W * dropped
         == (p0 + W * (p1 + W * (p2 + W * p3))) * (c0 + W * (c1 + W * (c2 + W * c3)))
  {
    ProductColumns(p0, p1, p2, p3, c0, c1, c2, c3);
    dropped := d0 + d1 + d2 + d3 + (p1 * c3 + p2 * c2 + p3 * c1) + W * (p2 * c3 + p3 * c2 + W * (p3 * c3));
  }

  /** The reference core's straight-line low product: Q = P * r' modulo 2^256. */
  method UnrolledLowProduct(P: array<word>, rp: seq<word>) returns (Q: array<word>, ghost dropped: int)
    requires P.Length >= 4 && |rp| == 4
    ensures fresh(Q) && Q.Length == 4
    ensures Val(Q[..]) + WPow(4) * dropped == Val(P[..4]) * Val(rp)
  {
    var q0, q1, q2, q3, d0 := UnrolledLowRow0(P[0], rp);
    var r1, r2, r3, d1 := UnrolledLowRow1(P[1], rp, q1, q2, q3);
    var s2, s3, d2 := UnrolledLowRow2(P[2], rp, r2, r3);
    var t3, d3 := UnrolledLowRow3(P[3], rp, s3);
    Q := new word[] [q0, r1, s2, t3];
    assert WPow(4) == W * W * W * W;
    hide Val;
    hide WPow;
    Val4(Q[..]);
    Val4(P[..4]);
    Val4(rp);
    dropped := LowRowsSum(P[0], P[1], P[2], P[3], rp[0], rp[1], rp[2], rp[3],
                          q0, q1, q2, q3, r1, r2, r3, s2, s3, t3, d0, d1, d2, d3);
  }

  // ---------------------------------------------------------------- reduction

  /** x and y have the same residue modulo the order. */
  ghost predicate Congruent(x: int, y: int) {
    (x - y) % ORDER == 0
  }

  lemma CongruentBy(x: int, y: int, k: int)
    requires x == y + ORDER * k
    ensures Congruent(x, y)
  {
    ModShift(0, k, ORDER);
  }

  /** The multiple of the order that clears the low half of p. */
  ghost function Multiplier(p: nat): nat {
    (p % R) * R_PRIME_VALUE % R
  }

  /** The sum's upper part, (p + Q * ORDER) / 2^256. */
  ghost function Upper(p: nat): nat {
    (p + Multiplier(p) * ORDER) / R
  }

  /** What is left after one subtraction of the order, where it fits. */
  ghost function Folded(p: nat): nat {
    if Upper(p) < ORDER then Upper(p) else Upper(p) - ORDER
  }

  lemma MultiplierIs(low: nat, high: nat, q: nat, dropped: int)
    requires low < R && q < R && q + R * dropped == low * R_PRIME_VALUE
    ensures q == Multiplier(low + R * high)
  {
    DivModUnique(low + R * high, R, high, low);
    DivModUnique(low * R_PRIME_VALUE, R, dropped, q);
  }

  /** Adding Q * ORDER clears the low half: the upper part times 2^256 is p plus a multiple of the order. It is below
      2 * ORDER, without a carry, when p is below 2^256 * ORDER; with a carry the upper words are below the order. */
  lemma MontgomeryQuotient(p: nat, low: nat, high: nat, q: nat, dropped: int, sumLow: nat, sumHigh: nat, carry: bit)
    requires p < R * R && low < R && q < R
    requires p == low + R * high
    requires q + R * dropped == low * R_PRIME_VALUE
    requires sumLow < R && sumHigh < R && sumLow + R * (sumHigh + R * carry) == p + q * ORDER
    ensures (sumHigh + R * carry) * R == p + ORDER * q
    ensures Upper(p) == sumHigh + R * carry < R + ORDER
    ensures p < R * ORDER ==> Upper(p) < 2 * ORDER
    ensures carry == 1 ==> sumHigh < ORDER
  {
    ConstantIdentities();
    MultiplierIs(low, high, q, dropped);
    var u := high + low * R_INVERSE - dropped * ORDER;
    FoldAlgebra(p, low, high, q, dropped);
    DivModUnique(p + q * ORDER, R, u, 0);
    DivModUnique(p + q * ORDER, R, sumHigh + R * carry, sumLow);
    UpperBound(u, p, q);
  }

  lemma UpperBound(u: int, p: nat, q: nat)
    requires R * u == p + q * ORDER && q < R
    ensures p < R * R ==> u < R + ORDER
    ensures p < R * ORDER ==> u < 2 * ORDER
  {
  }

  lemma FoldAlgebra(p: int, low: int, high: int, q: int, dropped: int)
    requires p == low + R * high && q + R * dropped == low * R_PRIME_VALUE
    ensures p + q * ORDER == R * (high + low * R_INVERSE - dropped * ORDER)
  {
    ConstantIdentities();
  }

  /** The eight chained additions, on the two halves; the low half vanishes. */
  method FoldWords(pLow: seq<word>, pHigh: seq<word>, tLow: seq<word>, tHigh: seq<word>,
                   ghost p: nat, ghost q: nat, ghost dropped: int)
    returns (high: seq<word>, addCarry: bit)
    requires |pLow| == |pHigh| == |tLow| == |tHigh| == 4
    requires p == Val(pLow) + R * Val(pHigh) && p < R * R
    requires q < R && q * ORDER == Val(tLow) + R * Val(tHigh)
    requires q + R * dropped == Val(pLow) * R_PRIME_VALUE
    ensures |high| == 4 && Val(high) + R * addCarry == Upper(p)
    ensures Upper(p) * R == p + ORDER * q
    ensures p < R * ORDER ==> Upper(p) < 2 * ORDER
    ensures addCarry == 1 ==> Val(high) < ORDER
  {
    hide Upper;
    var low;
    addCarry, low := AddChain(0, pLow, tLow);
    addCarry, high := AddChain(addCarry, pHigh, tHigh);
    ValBound(low);
    ValBound(high);
    ValBound(pLow);
    Powers();
    MontgomeryQuotient(p, Val(pLow), Val(pHigh), q, dropped, Val(low), Val(high), addCarry);
  }

  lemma Halves(s: seq<word>)
    requires |s| == 8
    ensures Val(s) == Val(s[..4]) + R * Val(s[4..]) && Val(s) < R * R
  {
    Powers();
    ValSplit(s, 4);
    ValBound(s);
  }

  /** The final subtraction of the order, undone when it borrows and the sum had no carry. */
  method FinalSubtract(high: seq<word>, addCarry: bit) returns (m: seq<word>)
    requires |high| == 4 && (addCarry == 1 ==> Val(high) < ORDER)
    ensures |m| == 4
    ensures var u := Val(high) + R * addCarry; Val(m) == if u < ORDER then u else u - ORDER
  {
    hide Val;
    var borrow;
    borrow, m := SubChain(high, CURVE_ORDER);
    ghost var unreduced, carry := m, 0;
    if (addCarry as int - borrow) % 256 != 0 {
      carry, m := AddChain(0, m, CURVE_ORDER);
    }
    OrderValue();
    ValBound(unreduced);
    ValBound(high);
    ValBound(m);
    Powers();
    FinalAdd(Val(high), addCarry, borrow, Val(unreduced), carry, Val(m));
  }

  lemma FinalAdd(high: nat, addCarry: bit, borrow: bit, m: nat, carry: bit, m': nat)
    requires high < R && m < R && m' < R && (addCarry == 1 ==> high < ORDER)
    requires m - R * borrow == high - ORDER
    requires if addCarry == borrow then m' == m else m' + R * carry == m + ORDER
    ensures var u := high + R * addCarry; m' == if u < ORDER then u else u - ORDER
  {
  }

  /** The additions and the final subtraction, on P and temp = Q * ORDER. */
  method MontgomeryFold(P: array<word>, temp: array<word>, ghost q: nat, ghost dropped: int) returns (m: seq<word>)
    requires P.Length == temp.Length == 8
    requires q < R && Val(temp[..]) == q * ORDER && q + R * dropped == Val(P[..4]) * R_PRIME_VALUE
    ensures |m| == 4 && Val(m) == Folded(Val(P[..]))
    ensures Upper(Val(P[..])) * R == Val(P[..]) + ORDER * q
    ensures Val(P[..]) < R * ORDER ==> Upper(Val(P[..])) < 2 * ORDER
  {
    hide Upper;
    Halves(P[..]);
    Halves(temp[..]);
    assert P[..][..4] == P[..4];
    var high, addCarry := FoldWords(P[..4], P[4..], temp[..4], temp[4..], Val(P[..]), q, dropped);
    m := FinalSubtract(high, addCarry);
  }

  /** The result is a * b / 2^256 modulo the order, and is the reduced one once an operand is below the order. */
  lemma FoldedProduct(m: nat, a: nat, b: nat, q: int)
    requires a < R && b < R && m == Folded(a * b)
    requires Upper(a * b) * R == a * b + ORDER * q
    requires a * b < R * ORDER ==> Upper(a * b) < 2 * ORDER
    ensures Congruent(m * R, a * b)
    ensures a < ORDER || b < ORDER ==> m == MontgomeryProduct(a, b)
  {
    hide Upper;
    hide Congruent;
    hide MontgomeryProduct;
    var k := if Upper(a * b) < ORDER then q else q - R;
    assert m * R == a * b + ORDER * k;
    CongruentBy(m * R, a * b, k);
    if a < ORDER || b < ORDER {
      if a < ORDER { MulBound(a, b, ORDER - 1, R - 1); } else { MulBound(a, b, R - 1, ORDER - 1); }
      MontgomeryProductUnique(m, a, b, k);
    }
  }

  /** For operands that are both unreduced, when the result is reduced. */
  lemma ReducedExactly(a: nat, b: nat)
    ensures Folded(a * b) < ORDER <==> Upper(a * b) < 2 * ORDER
  {
  }

  /** It need not be: 2^256 - 1 times itself leaves a result above the order. */
  lemma UnreducedResult()
    ensures Folded((R - 1) * (R - 1)) > ORDER
  {
    var p := (R - 1) * (R - 1);
    DivModUnique(p, R, R - 2, 1);
    ConstantIdentities();
    DivModUnique(R_PRIME_VALUE, R, 0, R_PRIME_VALUE);
    DivModUnique(p + R_PRIME_VALUE * ORDER, R, R - 2 + R_INVERSE, 0);
  }

  // ---------------------------------------------------------------- both programs

  method FromWords(s: seq<word>) returns (a: array<word>)
    requires |s| == 4
    ensures fresh(a) && a.Length == 4 && a[..] == s && a[..4] == s
  {
    a := new word[4](i requires 0 <= i < 4 => s[i]);
  }

  method StoreWords(m: seq<word>, mc: array<word>)
    requires |m| == 4 && mc.Length >= 4
    modifies mc
    ensures mc[..4] == m && mc[4..] == old(mc[4..])
  {
    mc[0], mc[1], mc[2], mc[3] := m[0], m[1], m[2], m[3];
  }

  /** P = ma, the shortcut for mb = 1. */
  method ProductWithOne(ma: array<word>, mb: array<word>) returns (P: array<word>)
    requires ma.Length >= 4 && mb.Length >= 4 && mb[0] == 1 && mb[1] == 0 && mb[2] == 0 && mb[3] == 0
    ensures fresh(P) && P.Length == 8
    ensures Val(P[..]) == Val(ma[..4]) * Val(mb[..4])
  {
    P := new word[8];
    P[0], P[1], P[2], P[3] := ma[0], ma[1], ma[2], ma[3];
    P[4], P[5], P[6], P[7] := 0, 0, 0, 0;
    ghost var p := P[..];
    assert p[..4] == ma[..4];
    Val4(mb[..4]);
    ValSplit(p, 4);
    ValZeros(p[4..]);
  }

  lemma OperandBound(s: seq<word>)
    requires |s| == 4
    ensures Val(s) < R
  {
    ValBound(s);
    Powers();
  }

  /** P = ma * mb, taking the shortcut for mb = 1. */
  method FirstProduct(ma: array<word>, mb: array<word>) returns (P: array<word>)
    requires ma.Length >= 4 && mb.Length >= 4
    ensures fresh(P) && P.Length == 8
    ensures Val(P[..]) == Val(ma[..4]) * Val(mb[..4])
  {
    if mb[0] == 1 && mb[1] == 0 && mb[2] == 0 && mb[3] == 0 {
      P := ProductWithOne(ma, mb);
    } else {
      P := new word[8];
      Multiply(ma, mb, P);
    }
  }

  method FirstProductUnrolled(ma: array<word>, mb: array<word>) returns (P: array<word>)
    requires ma.Length >= 4 && mb.Length >= 4
    ensures fresh(P) && P.Length == 8
    ensures Val(P[..]) == Val(ma[..4]) * Val(mb[..4])
  {
    if mb[0] == 1 && mb[1] == 0 && mb[2] == 0 && mb[3] == 0 {
      P := ProductWithOne(ma, mb);
    } else {
      P := new word[8];
      MultiplyUnrolled(ma, mb, P);
    }
  }

  /** temp = Q * ORDER, where Q is the low product of P and r'. */
  method MultipleOfOrder(P: array<word>) returns (temp: array<word>, ghost q: nat, ghost dropped: int)
    requires P.Length == 8
    ensures fresh(temp) && temp.Length == 8 && q < R && Val(temp[..]) == q * ORDER
    ensures q + R * dropped == Val(P[..4]) * R_PRIME_VALUE
  {
    ConstantValues();
    Powers();
    OrderValue();
    var rp := FromWords(SMALL_R_PRIME);
    var order := FromWords(CURVE_ORDER);
    var Q;
    Q, dropped := LowProduct(P, rp);
    OperandBound(Q[..]);
    assert Q[..4] == Q[..];
    q := Val(Q[..]);
    temp := new word[8];
    Multiply(Q, order, temp);
  }

  method MultipleOfOrderUnrolled(P: array<word>) returns (temp: array<word>, ghost q: nat, ghost dropped: int)
    requires P.Length == 8
    ensures fresh(temp) && temp.Length == 8 && q < R && Val(temp[..]) == q * ORDER
    ensures q + R * dropped == Val(P[..4]) * R_PRIME_VALUE
  {
    ConstantValues();
    Powers();
    OrderValue();
    var order := FromWords(CURVE_ORDER);
    var Q;
    Q, dropped := UnrolledLowProduct(P, SMALL_R_PRIME);
    OperandBound(Q[..]);
    assert Q[..4] == Q[..];
    q := Val(Q[..]);
    temp := new word[8];
    MultiplyUnrolled(Q, order, temp);
  }

  /** What remains after both products: m = a * b / 2^256 modulo the order. */
  method Reduce(P: array<word>, temp: array<word>, ghost a: nat, ghost b: nat, ghost q: nat, ghost dropped: int)
    returns (m: seq<word>)
    requires P.Length == temp.Length == 8 && a < R && b < R && Val(P[..]) == a * b
    requires q < R && Val(temp[..]) == q * ORDER && q + R * dropped == Val(P[..4]) * R_PRIME_VALUE
    ensures |m| == 4 && Congruent(Val(m) * R, a * b) && Val(m) == Folded(a * b)
    ensures a < ORDER || b < ORDER ==> Val(m) == MontgomeryProduct(a, b)
  {
    hide Folded;
    hide Upper;
    hide Congruent;
    hide MontgomeryProduct;
    m := MontgomeryFold(P, temp, q, dropped);
    FoldedProduct(Val(m), a, b, q);
  }

  /** mc = ma * mb / 2^256 modulo the order for any 256-bit operands, fully reduced as soon as one of them is below the
      order; mc may be either operand, and words beyond the fourth are left alone. */
  method MontgomeryMultiply(ma: array<word>, mb: array<word>, mc: array<word>)
    requires ma.Length >= 4 && mb.Length >= 4 && mc.Length >= 4
    modifies mc
    ensures Congruent(Val(mc[..4]) * R, old(Val(ma[..4])) * old(Val(mb[..4])))
    ensures old(Val(ma[..4])) < ORDER || old(Val(mb[..4])) < ORDER
            ==> Val(mc[..4]) == MontgomeryProduct(old(Val(ma[..4])), old(Val(mb[..4])))
    ensures Val(mc[..4]) == Folded(old(Val(ma[..4])) * old(Val(mb[..4])))
    ensures mc[4..] == old(mc[4..])
  {
    hide *;
    ghost var a, b := Val(ma[..4]), Val(mb[..4]);
    OperandBound(ma[..4]);
    OperandBound(mb[..4]);
    var P := FirstProduct(ma, mb);
    var temp, q, dropped := MultipleOfOrder(P);
    var m := Reduce(P, temp, a, b, q, dropped);
    StoreWords(m, mc);
  }

  /** The reference core's version: straight-line products throughout. */
  method MontgomeryMultiplyUnrolled(ma: array<word>, mb: array<word>, mc: array<word>)
    requires ma.Length >= 4 && mb.Length >= 4 && mc.Length >= 4
    modifies mc
    ensures Congruent(Val(mc[..4]) * R, old(Val(ma[..4])) * old(Val(mb[..4])))
    ensures old(Val(ma[..4])) < ORDER || old(Val(mb[..4])) < ORDER
            ==> Val(mc[..4]) == MontgomeryProduct(old(Val(ma[..4])), old(Val(mb[..4])))
    ensures Val(mc[..4]) == Folded(old(Val(ma[..4])) * old(Val(mb[..4])))
    ensures mc[4..] == old(mc[4..])
  {
    hide *;
    ghost var a, b := Val(ma[..4]), Val(mb[..4]);
    OperandBound(ma[..4]);
    OperandBound(mb[..4]);
    var P := FirstProductUnrolled(ma, mb);
    var temp, q, dropped := MultipleOfOrderUnrolled(P);
    var m := Reduce(P, temp, a, b, q, dropped);
    StoreWords(m, mc);
  }

  /** Both programs write the same four words, for any operands, reduced or not. */
  method BothMontgomeryAgree(ma: array<word>, mb: array<word>) returns (loop: array<word>, straight: array<word>)
    requires ma.Length >= 4 && mb.Length >= 4
    ensures loop[..] == straight[..]
  {
    loop, straight := new word[4], new word[4];
    MontgomeryMultiply(ma, mb, loop);
    MontgomeryMultiplyUnrolled(ma, mb, straight);
    assert loop[..4] == loop[..] && straight[..4] == straight[..];
    ValInjective(loop[..], straight[..]);
  }
}
