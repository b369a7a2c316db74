/** The scalar half of a SchnorrQ signature, the verifier's range check, and why signing meets verifying. */
module Schnorr {
  import opened Words
  import opened ModArith
  import opened Limbs
  import opened Montgomery
  import opened CommutativeGroup
  import opened Comb

  // ---------------------------------------------------------------- Montgomery form

  /** Multiplying by 2^512 enters Montgomery form. */
  lemma EnterForm(x: nat)
    ensures MontgomeryProduct(x, RPRIME_VALUE) == x * R % ORDER
  {
    var m := x * R % ORDER;
    var k := SameResidue(RPRIME_VALUE, R * R, ORDER) by {
      ConstantIdentities();
      var d := SameResidue(RPRIME_VALUE - R * R, 0, ORDER);
      ModShift(R * R, d, ORDER);
    }
    var j := x * R / ORDER;
    assert m == x * R - ORDER * j;
    assert m * R == x * RPRIME_VALUE + ORDER * (-(x * k) - j * R) by {
      FormAlgebra(x, RPRIME_VALUE, k, j, m);
    }
    MontgomeryProductUnique(m, x, RPRIME_VALUE, -(x * k) - j * R);
  }

  lemma FormAlgebra(x: int, rp: int, k: int, j: int, m: int)
    requires rp == R * R + ORDER * k && m == x * R - ORDER * j
    ensures m * R == x * rp + ORDER * (-(x * k) - j * R)
  {
    assert x * rp == x * (R * R) + ORDER * (x * k);
    assert x * (R * R) == (x * R) * R;
  }

  /** The product of two numbers in Montgomery form is their product in Montgomery form. */
  lemma ProductOfForms(x: nat, y: nat)
    ensures MontgomeryProduct(x * R % ORDER, y * R % ORDER) == x * y * R % ORDER
  {
    var a, b, m := x * R % ORDER, y * R % ORDER, x * y * R % ORDER;
    var i, j, l := x * R / ORDER, y * R / ORDER, x * y * R / ORDER;
    FormProduct(x, y, a, b, m, i, j, l);
    MontgomeryProductUnique(m, a, b, x * R * j + i * b - l * R);
  }

  lemma FormProduct(x: int, y: int, a: int, b: int, m: int, i: int, j: int, l: int)
    requires a == x * R - ORDER * i && b == y * R - ORDER * j && m == x * y * R - ORDER * l
    ensures m * R == a * b + ORDER * (x * R * j + i * b - l * R)
  {
    calc {
      a * b;
      (x * R) * b - (ORDER * i) * b;
      (x * R) * (y * R) - (x * R) * (ORDER * j) - ORDER * (i * b);
      { assert (x * R) * (y * R) == (x * y * R) * R; assert (x * R) * (ORDER * j) == ORDER * (x * R * j); }
      (x * y * R) * R - ORDER * (x * R * j) - ORDER * (i * b);
    }
  }

  /** Multiplying by 1 leaves Montgomery form. */
  lemma LeaveForm(z: nat)
    ensures MontgomeryProduct(z * R % ORDER, 1) == z % ORDER
  {
    var a, m := z * R % ORDER, z % ORDER;
    var i, j := z * R / ORDER, z / ORDER;
    assert m * R == a * 1 + ORDER * (i - j * R);
    MontgomeryProductUnique(m, a, 1, i - j * R);
  }

  // ---------------------------------------------------------------- signing

  method ConstantWords() returns (rprime: array<word>, one: array<word>)
    ensures fresh(rprime) && fresh(one) && rprime != one && rprime.Length == one.Length == 4
    ensures Val(rprime[..4]) == RPRIME_VALUE && Val(one[..4]) == 1
  {
    rprime := new word[4](i requires 0 <= i < 4 => MONTGOMERY_RPRIME[i]);
    one := new word[4](i requires 0 <= i < 4 => ONE[i]);
    assert rprime[..4] == MONTGOMERY_RPRIME && one[..4] == ONE;
    ConstantValues();
  }

  /** S = h * k modulo the order, by four Montgomery products; h ends in Montgomery form. */
  method SignProduct(k: array<word>, h: array<word>, S: array<word>)
    requires k.Length >= 4 && h.Length >= 4 && S.Length >= 4 && k != h && k != S && h != S
    modifies h, S
    ensures Val(S[..4]) == old(Val(k[..4])) * old(Val(h[..4])) % ORDER
  {
    ghost var k0, h0 := Val(k[..4]), Val(h[..4]);
    var rprime, one := ConstantWords();
    MontgomeryMultiplyUnrolled(k, rprime, S);
    MontgomeryMultiplyUnrolled(h, rprime, h);
    EnterForm(k0);
    EnterForm(h0);
    MontgomeryMultiplyUnrolled(S, h, S);
    ProductOfForms(k0, h0);
    MontgomeryMultiplyUnrolled(S, one, S);
    NatProduct(k0, h0);
    LeaveForm(k0 * h0);
  }

  lemma NatProduct(x: nat, y: nat)
    ensures x * y >= 0
  {
  }

  /** S = r - S modulo the order, for reduced r and S: subtract, and add the order back on a borrow. */
  method SubtractModOrder(r: array<word>, S: array<word>)
    requires r.Length >= 4 && S.Length >= 4 && r != S
    requires Val(r[..4]) < ORDER && Val(S[..4]) < ORDER
    modifies S
    ensures Val(S[..4]) == (Val(r[..4]) - old(Val(S[..4]))) % ORDER
  {
    hide Val;
    ghost var d := Val(r[..4]) - Val(S[..4]);
    var borrow, z := SubChain(r[..4], S[..4]);
    ghost var low, carry := z, 0;
    if borrow != 0 {
      carry, z := AddChain(0, z, CURVE_ORDER);
    }
    S[0], S[1], S[2], S[3] := z[0], z[1], z[2], z[3];
    assert S[..4] == z;
    Powers();
    OrderValue();
    ValBound(low);
    ValBound(z);
    BorrowedDifference(d, borrow, Val(low), carry, Val(z));
  }

  lemma BorrowedDifference(d: int, borrow: bit, low: nat, carry: bit, z: nat)
    requires -ORDER < d < ORDER && low < R && z < R && low - R * borrow == d
    requires if borrow == 0 then z == low else z + R * carry == low + ORDER
    ensures z == d % ORDER
  {
    if d >= 0 {
      ModSmall(d, ORDER);
    } else {
      ModShift(d, 1, ORDER);
      ModSmall(d + ORDER, ORDER);
    }
  }

  /** S = r - h * k modulo the order, for any 256-bit r, h and k; r is left reduced. */
  method SignScalar(k: array<word>, r: array<word>, h: array<word>, S: array<word>)
    requires k.Length >= 4 && r.Length >= 4 && h.Length >= 4 && S.Length >= 4
    requires k != r && k != h && k != S && r != h && r != S && h != S
    modifies r, h, S
    ensures Val(S[..4]) == (old(Val(r[..4])) - old(Val(h[..4])) * old(Val(k[..4]))) % ORDER
    ensures Val(r[..4]) == old(Val(r[..4])) % ORDER
  {
    ghost var k0, r0, h0 := Val(k[..4]), Val(r[..4]), Val(h[..4]);
    ReduceModOrder(r, r);
    ReduceModOrder(h, h);
    SignProduct(k, h, S);
    SubtractModOrder(r, S);
    ResidueOfS(r0, h0, k0);
  }

  lemma ResidueOfS(r: int, h: int, k: int)
    ensures (r % ORDER - k * (h % ORDER) % ORDER) % ORDER == (r - h * k) % ORDER
  {
    ModMul(h, k, ORDER);
    ModSub(r, k * (h % ORDER) % ORDER, ORDER);
    ModSub(h * k, r, ORDER);
  }

  // ---------------------------------------------------------------- verifying

  /** The first differing word, from the top, decides a comparison. */
  lemma CompareAt(s: seq<word>, t: seq<word>, i: nat)
    requires |s| == |t| && i < |s| && s[i + 1..] == t[i + 1..] && s[i] < t[i]
    ensures Val(s) < Val(t)
  {
    ValSplit(s, i + 1);
    ValSplit(t, i + 1);
    ValPrefix(s, i);
    ValPrefix(t, i);
    ValBound(s[..i]);
    assert s[..i + 1][..i] == s[..i] && t[..i + 1][..i] == t[..i];
    CompareNumbers(Val(s[..i]), Val(t[..i]), WPow(i), s[i], t[i]);
  }

  lemma CompareNumbers(low: nat, low': nat, p: nat, a: int, b: int)
    requires low <= p - 1 && a < b
    ensures low + p * a < low' + p * b
  {
    MulLe(a + 1, b, p);
  }

  /** The verifier's range check, top word first: it decides exactly s < ORDER. */
  method ScalarIsCanonical(s: seq<word>) returns (canonical: bool)
    requires |s| == 4
    ensures canonical <==> Val(s) < ORDER
  {
    OrderValue();
    canonical := false;
    for i := 4 downto 0
      invariant s[i..] == CURVE_ORDER[i..]
    {
      if s[i] < CURVE_ORDER[i] {
        CompareAt(s, CURVE_ORDER, i);
        canonical := true;
        return;
      }
      if s[i] > CURVE_ORDER[i] {
        CompareAt(CURVE_ORDER, s, i);
        return;
      }
      assert s[i..] == [s[i]] + s[i + 1..] && CURVE_ORDER[i..] == [CURVE_ORDER[i]] + CURVE_ORDER[i + 1..];
    }
    assert s[0..] == s && CURVE_ORDER[0..] == CURVE_ORDER;
  }

  /** What the signer writes is in range and solves S + h * k = r; nothing else in range does. */
  lemma SignedScalarUnique(k: int, r: int, h: int, S: int)
    ensures 0 <= S < ORDER && (S + h * k - r) % ORDER == 0 <==> S == (r - h * k) % ORDER
  {
    var d := r - h * k;
    if S == d % ORDER {
      ModAdd(d, -d, ORDER);
    }
    if 0 <= S < ORDER && (S + h * k - r) % ORDER == 0 {
      var m := SameResidue(S - d, 0, ORDER);
      ModShift(d, m, ORDER);
      ModSmall(S, ORDER);
    }
  }

  /** A signature made with secret k verifies: S·G + h·A is the nonce point r·G, where A is the public
      key k·G as `ecc_mul_fixed` computes it. */
  lemma SignatureVerifies<T(!new)>(g: Group<T>, G: T, k: nat, r: nat, h: nat)
    requires IsGroup(g) && Mul(g, ORDER, G) == g.zero
    ensures var S, A := (r - h * k) % ORDER, Mul(g, k % ORDER, G);
            g.add(Mul(g, S, G), Mul(g, h, A)) == Mul(g, r % ORDER, G)
  {
    var S, a := (r - h * k) % ORDER, k % ORDER;
    calc {
      g.add(Mul(g, S, G), Mul(g, h, Mul(g, a, G)));
      { MulMul(g, a, h, G); }
      g.add(Mul(g, S, G), Mul(g, a * h, G));
      { MulAdd(g, S, a * h, G); }
      Mul(g, S + a * h, G);
      { var m := SignedSum(k, r, h); MulModulo(g, r % ORDER, m, ORDER, G); }
      Mul(g, r % ORDER, G);
    }
  }

  lemma SignedSum(k: int, r: int, h: int) returns (m: int)
    ensures (r - h * k) % ORDER + (k % ORDER) * h == r % ORDER + ORDER * m
  {
    var q, j, l := (r - h * k) / ORDER, k / ORDER, r / ORDER;
    m := l - q - j * h;
    assert (k % ORDER) * h == k * h - ORDER * (j * h) by {
      assert k % ORDER == k - ORDER * j;
      assert (k - ORDER * j) * h == k * h - ORDER * (j * h);
    }
    assert ORDER * m == ORDER * l - ORDER * q - ORDER * (j * h);
  }
}
