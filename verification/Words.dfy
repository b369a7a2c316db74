/** 64-bit machine words as naturals, with the portable carry helpers of the C core.
    A mask is written as `%`, a right shift as `/`, a left shift as a product reduced modulo
    2^64, and `|` of two disjoint bit fields as `+`. */
module Words {

  const W := 0x1_0000_0000_0000_0000
  const HALF := 0x1_0000_0000

  type word = x: int | 0 <= x < W
  /** A carry or borrow: the C code keeps it in an `unsigned char`. */
  type bit = x: int | 0 <= x <= 1

  /** 64x64 -> 128 multiply out of four 32x32 -> 64 products. */
  method UMul128(a: word, b: word) returns (lo: word, hi: word)
    ensures lo + W * hi == a * b
  {
    var aLo, aHi := a % HALF, a / HALF;
    var bLo, bHi := b % HALF, b / HALF;
    MulBound(aLo, bLo, HALF - 1, HALF - 1);
    MulBound(aLo, bHi, HALF - 1, HALF - 1);
    MulBound(aHi, bLo, HALF - 1, HALF - 1);
    MulBound(aHi, bHi, HALF - 1, HALF - 1);
    MulBound(a, b, W - 1, W - 1);
    var pLL: word, pLH: word, pHL: word, pHH: word := aLo * bLo, aLo * bHi, aHi * bLo, aHi * bHi;
    SplitProduct(a, b, aLo, aHi, bLo, bHi);
    MiddleColumn(pLL, pLH, pHL, pHH, a * b);
    var mid: word := pLL / HALF + pLH % HALF + pHL % HALF;
    lo := pLL % HALF + mid * HALF % W;
    hi := pHH + pLH / HALF + pHL / HALF + mid / HALF;
  }

  /** The middle column collects the crossing halves; its own carry goes to the high word. */
  lemma MiddleColumn(pLL: word, pLH: word, pHL: word, pHH: word, product: nat)
    requires product == pLL + HALF * pLH + HALF * pHL + W * pHH <= (W - 1) * (W - 1)
    ensures var mid := pLL / HALF + pLH % HALF + pHL % HALF;
            var lo, hi := pLL % HALF + mid * HALF % W, pHH + pLH / HALF + pHL / HALF + mid / HALF;
            && mid < W && lo < W && 0 <= hi < W
            && lo + W * hi == product
  {
    var mid := pLL / HALF + pLH % HALF + pHL % HALF;
    var m0, m1 := mid % HALF, mid / HALF;
    DivModUnique(mid * HALF, W, m1, m0 * HALF);
    var lo, hi := pLL % HALF + m0 * HALF, pHH + pLH / HALF + pHL / HALF + m1;
    assert lo + W * hi == product;
  }

  lemma SplitProduct(a: int, b: int, aLo: int, aHi: int, bLo: int, bHi: int)
    requires a == aLo + HALF * aHi && b == bLo + HALF * bHi
    ensures a * b == aLo * bLo + HALF * (aLo * bHi) + HALF * (aHi * bLo) + W * (aHi * bHi)
  {
    assert a * b == aLo * b + HALF * (aHi * b);
    assert aLo * b == aLo * bLo + HALF * (aLo * bHi);
    assert aHi * b == aHi * bLo + HALF * (aHi * bHi);
  }

  lemma MulLe(x: int, y: int, k: nat)
    requires x <= y
    ensures x * k <= y * k
  {
  }

  /** A product of naturals is at most the product of their bounds. */
  lemma MulBound(x: nat, y: nat, xMax: nat, yMax: nat)
    requires x <= xMax && y <= yMax
    ensures 0 <= x * y <= xMax * yMax
  {
    MulLe(x, xMax, y);
    MulLe(y, yMax, xMax);
  }

  /** Add with carry-in; the carry-out is found by comparing each wrapped sum with its operand. */
  method AddCarry64(cin: bit, a: word, b: word) returns (cout: bit, out: word)
    ensures out + W * cout == a + b + cin
  {
    var t: word := (a + cin) % W;
    var s: word := (t + b) % W;
    out := s;
    cout := if t < a || s < t then 1 else 0;
  }

  /** Subtract with borrow-in. */
  method SubBorrow64(bin: bit, a: word, b: word) returns (bout: bit, out: word)
    ensures out - W * bout == a - b - bin
  {
    var t: word := (a - b) % W;
    var s: word := (t - bin) % W;
    out := s;
    bout := if a < b || t < bin then 1 else 0;
  }

  function Pow2(n: nat): (p: nat)
    ensures p > 0
  {
    if n == 0 then 1 else 2 * Pow2(n - 1)
  }

  lemma {:induction false} Pow2Adds(m: nat, n: nat)
    ensures Pow2(m + n) == Pow2(m) * Pow2(n)
  {
    if m > 0 {
      Pow2Adds(m - 1, n);
      assert Pow2(m) * Pow2(n) == 2 * (Pow2(m - 1) * Pow2(n));
    }
  }

  lemma Pow2Is8()
    ensures Pow2(8) == 256
  {
  }

  lemma Pow2Is64()
    ensures Pow2(64) == W
  {
    hide Pow2;
    Pow2Is8();
    Pow2Adds(8, 8);
    Pow2Adds(16, 16);
    Pow2Adds(32, 32);
  }

  /** Funnel shift right: the low word of (hi:lo) >> n. */
  method ShiftRight128(lo: word, hi: word, n: nat) returns (r: word)
    requires n < 64
    ensures r == (lo + W * hi) / Pow2(n) % W
  {
    if n == 0 {
      assert (lo + W * hi) % W == lo;
      return lo;
    }
    var p, q := Pow2(n), Pow2(64 - n);
    assert p * q == W by { Pow2Adds(n, 64 - n); Pow2Is64(); }
    FunnelRight(lo, hi, p, q);
    r := lo / p + hi * q % W;
  }

  lemma FunnelRight(lo: word, hi: word, p: nat, q: nat)
    requires p * q == W && p > 0 && q > 0
    ensures 0 <= lo / p + hi * q % W < W
    ensures lo / p + hi * q % W == (lo + W * hi) / p % W
  {
    var h1, h0, l1, l0 := hi / p, hi % p, lo / p, lo % p;
    QuotientBound(lo, p, q);
    FunnelParts(lo, hi, p, q, h1, h0, l1, l0);
    var m := Remainder(h0, p, q);
    FunnelQuotients(lo, hi, p, q, h1, m, l1, l0);
  }

  lemma Remainder(h0: nat, p: nat, q: nat) returns (m: nat)
    requires p * q == W && h0 < p
    ensures m == h0 * q && m + q <= W
  {
    m := h0 * q;
    MulLe(h0 + 1, p, q);
  }

  lemma FunnelQuotients(lo: nat, hi: nat, p: nat, q: nat, h1: nat, m: nat, l1: nat, l0: nat)
    requires p > 0 && l0 < p && m + q <= W && l1 < q
    requires hi * q == W * h1 + m && lo + W * hi == p * (W * h1 + (m + l1)) + l0
    ensures 0 <= l1 + hi * q % W < W && l1 + hi * q % W == (lo + W * hi) / p % W
  {
    DivModUnique(hi * q, W, h1, m);
    DivModUnique(lo + W * hi, p, W * h1 + (m + l1), l0);
    DivModUnique(W * h1 + (m + l1), W, h1, m + l1);
  }

  lemma FunnelParts(lo: nat, hi: nat, p: nat, q: nat, h1: nat, h0: nat, l1: nat, l0: nat)
    requires p * q == W && hi == p * h1 + h0 && lo == p * l1 + l0
    ensures hi * q == W * h1 + h0 * q
    ensures lo + W * hi == p * (W * h1 + (h0 * q + l1)) + l0
  {
    calc {
      hi * q;
      (p * h1) * q + h0 * q;
      (p * q) * h1 + h0 * q;
    }
    calc {
      p * (W * h1 + (h0 * q + l1)) + l0;
      p * (W * h1) + p * (h0 * q) + p * l1 + l0;
      W * (p * h1) + (p * q) * h0 + p * l1 + l0;
    }
  }

  /** Funnel shift left: the high word of (hi:lo) << n. */
  method ShiftLeft128(lo: word, hi: word, n: nat) returns (r: word)
    requires n < 64
    ensures r == (lo + W * hi) * Pow2(n) / W % W
  {
    if n == 0 {
      assert (lo + W * hi) / W == hi;
      return hi;
    }
    var p, q := Pow2(n), Pow2(64 - n);
    assert p * q == W by { Pow2Adds(n, 64 - n); Pow2Is64(); }
    FunnelLeft(lo, hi, p, q);
    r := hi * p % W + lo / q;
  }

  lemma FunnelLeft(lo: word, hi: word, p: nat, q: nat)
    requires p * q == W && p > 0 && q > 0
    ensures 0 <= hi * p % W + lo / q < W
    ensures hi * p % W + lo / q == (lo + W * hi) * p / W % W
  {
    assert q * p == W;
    FunnelRight(lo, hi, q, p);
    var s, l0 := (lo + W * hi) / q, lo % q;
    var v := lo + W * hi;
    assert v == q * s + v % q;
    assert v * p == W * s + (v % q) * p by { assert v * p == (q * p) * s + (v % q) * p; }
    assert 0 <= (v % q) * p < W by { assert (v % q) * p <= (q - 1) * p; assert (q - 1) * p == W - p; }
    DivModUnique(v * p, W, s, (v % q) * p);
  }

  lemma QuotientBound(x: nat, p: nat, q: nat)
    requires p > 0 && x < p * q
    ensures x / p < q
  {
    if q <= x / p {
      MulLe(q, x / p, p);
    }
  }

  /** The quotient and remainder of x by d are determined. */
  lemma DivModUnique(x: int, d: int, q: int, r: int)
    requires d > 0 && 0 <= r < d && x == d * q + r
    ensures x / d == q && x % d == r
  {
    var q', r' := x / d, x % d;
    assert x == d * q' + r';
    if q < q' {
      MulLe(q + 1, q', d);
    } else if q' < q {
      MulLe(q' + 1, q, d);
    }
  }
}
