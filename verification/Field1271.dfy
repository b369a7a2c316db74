/** Arithmetic modulo p = 2^127 - 1 on two words. Elements range over the closed interval [0, p]: both 0 and p stand for
    zero, and each contract says which of the two comes out. Every output array may be one of the inputs. */
module Field1271 {
  import opened Words
  import opened ModArith

  const P := 0x7FFF_FFFF_FFFF_FFFF_FFFF_FFFF_FFFF_FFFF
  const TOP := 0x8000_0000_0000_0000
  const ALL_ONES: word := 0xFFFF_FFFF_FFFF_FFFF
  const HALF_ONES: word := 0x7FFF_FFFF_FFFF_FFFF

  /** `felm_t`. */
  ghost predicate Felm(a: array<word>)
    reads a
  {
    a.Length == 2 && a[1] < TOP
  }

  ghost function Fe(a: array<word>): int
    requires a.Length == 2
    reads a
  {
    a[0] + W * a[1]
  }

  /** x and y stand for the same residue. */
  ghost predicate Same(x: int, y: int) {
    x % P == y % P
  }

  lemma SameShift(x: int, y: int, k: int)
    requires x == y + P * k
    ensures Same(x, y)
  {
    ModShift(y, k, P);
  }

  // ---------------------------------------------------------------- addition

  method Mod1271(a: array<word>)
    requires Felm(a)
    modifies a
    ensures Felm(a) && Fe(a) == old(Fe(a)) % P
  {
    var b, x0 := SubBorrow64(0, a[0], ALL_ONES);
    var over, x1 := SubBorrow64(b, a[1], HALF_ONES);
    var mask: word := if x1 / TOP == 1 then ALL_ONES else 0;
    var c, y0 := AddCarry64(0, x0, mask);
    var over', y1 := AddCarry64(c, x1, if mask == 0 then 0 else HALF_ONES);
    SubtractedWords(a[0], a[1], b, x0, over, x1, c, y0, over', y1);
    a[0], a[1] := y0, y1;
  }

  /** Subtracting p and adding it back on a borrow. */
  lemma SubtractedWords(a0: word, a1: word, b: bit, x0: word, over: bit, x1: word,
                        c: bit, y0: word, over': bit, y1: word)
    requires a1 < TOP
    requires x0 - W * b == a0 - ALL_ONES && x1 - W * over == a1 - HALF_ONES - b
    requires y0 + W * c == x0 + (if x1 / TOP == 1 then ALL_ONES else 0)
    requires y1 + W * over' == x1 + (if x1 / TOP == 1 then HALF_ONES else 0) + c
    ensures y1 < TOP && y0 + W * y1 == (a0 + W * a1) % P
  {
    if a0 + W * a1 < P { ModSmall(a0 + W * a1, P); } else { assert a0 + W * a1 == P; }
  }

  /** Fold bit 127 of a two-word sum back in at weight 1. */
  method FoldTop(c: array<word>)
    requires c.Length == 2 && Fe(c) <= 2 * P
    modifies c
    ensures Felm(c) && Fe(c) == if old(Fe(c)) > P then old(Fe(c)) - P else old(Fe(c))
  {
    var cc, x0 := AddCarry64(0, c[0], c[1] / TOP);
    var over, x1 := AddCarry64(cc, c[1] % TOP, 0);
    FoldedWords(c[0], c[1], cc, x0, over, x1);
    c[0], c[1] := x0, x1;
  }

  lemma FoldedWords(c0: word, c1: word, cc: bit, x0: word, over: bit, x1: word)
    requires c0 + W * c1 <= 2 * P
    requires x0 + W * cc == c0 + c1 / TOP && x1 + W * over == c1 % TOP + cc
    ensures x1 < TOP
    ensures x0 + W * x1 == if c0 + W * c1 > P then c0 + W * c1 - P else c0 + W * c1
  {
  }

  /** Take the borrow of a two-word difference, held in bit 127, off at weight 1. */
  method BorrowTop(c: array<word>, ghost s: int)
    requires c.Length == 2 && -P <= s <= P
    requires Fe(c) == if s >= 0 then s else s + W * W
    modifies c
    ensures Felm(c) && Fe(c) == if s >= 0 then s else s + P
  {
    var bb, x0 := SubBorrow64(0, c[0], c[1] / TOP);
    var over, x1 := SubBorrow64(bb, c[1] % TOP, 0);
    BorrowedWords(c[0], c[1], s, bb, x0, over, x1);
    c[0], c[1] := x0, x1;
  }

  lemma BorrowedWords(c0: word, c1: word, s: int, bb: bit, x0: word, over: bit, x1: word)
    requires -P <= s <= P && c0 + W * c1 == if s >= 0 then s else s + W * W
    requires x0 - W * bb == c0 - c1 / TOP && x1 - W * over == c1 % TOP - bb
    ensures x1 < TOP
    ensures x0 + W * x1 == if s >= 0 then s else s + P
  {
  }

  method FpAdd1271(a: array<word>, b: array<word>, c: array<word>)
    requires Felm(a) && Felm(b) && c.Length == 2
    modifies c
    ensures Felm(c) && Same(Fe(c), old(Fe(a)) + old(Fe(b)))
    ensures Fe(c) == 0 <==> old(Fe(a)) == 0 && old(Fe(b)) == 0
  {
    ghost var s := Fe(a) + Fe(b);
    var cc, x0 := AddCarry64(0, a[0], b[0]);
    var over, x1 := AddCarry64(cc, a[1], b[1]);
    c[0], c[1] := x0, x1;
    assert over == 0 && Fe(c) == s <= 2 * P;
    FoldTop(c);
    SameShift(Fe(c), s, if s > P then -1 else 0);
  }

  method FpSub1271(a: array<word>, b: array<word>, c: array<word>)
    requires Felm(a) && Felm(b) && c.Length == 2
    modifies c
    ensures Felm(c) && Same(Fe(c), old(Fe(a)) - old(Fe(b)))
    ensures Fe(c) == P <==> old(Fe(a)) == P && old(Fe(b)) == 0
  {
    ghost var s := Fe(a) - Fe(b);
    var bb, x0 := SubBorrow64(0, a[0], b[0]);
    c[0] := x0;
    var _, x1 := SubBorrow64(bb, a[1], b[1]);
    c[1] := x1;
    BorrowTop(c, s);
    SameShift(Fe(c), s, if s >= 0 then 0 else 1);
  }

  method FpNeg1271(a: array<word>)
    requires Felm(a)
    modifies a
    ensures Felm(a) && Fe(a) == P - old(Fe(a)) && Same(Fe(a), -old(Fe(a)))
  {
    ghost var v := Fe(a);
    a[0] := W - 1 - a[0];
    a[1] := HALF_ONES - a[1];
    SameShift(Fe(a), -v, 1);
  }

  // ---------------------------------------------------------------- multiplication

  /** The accumulated middle column, a0*b1 + a1*b0 + high(a0*b0), on two words. */
  method MiddleColumn(hi00: word, lo01: word, hi01: word, lo10: word, hi10: word) returns (t0: word, t1: word)
    requires hi00 + lo01 + lo10 + W * (hi01 as int + hi10) < W * W
    ensures t0 + W * t1 == hi00 + lo01 + lo10 + W * (hi01 as int + hi10)
  {
    var cc, discard;
    cc, t0 := AddCarry64(0, lo01, hi00);
    discard, t1 := AddCarry64(cc, hi01, 0);
    cc, t0 := AddCarry64(0, t0, lo10);
    discard, t1 := AddCarry64(cc, t1, hi10);
  }

  lemma WindowAt63(t0: word, t1: word)
    ensures Pow2(63) == TOP && Pow2(1) == 2
    ensures (t0 + W * t1) / TOP % W + W * (t1 / TOP) == (t0 + W * t1) / TOP
    ensures (t0 + W * t1) % TOP == t0 % TOP
  {
    assert Pow2(64) == 2 * Pow2(63);
    Pow2Is64();
    DivModUnique(t0 + W * t1, TOP, t0 / TOP + 2 * t1, t0 % TOP);
    DivModUnique(t0 / TOP + 2 * t1, W, t1 / TOP, t0 / TOP + 2 * (t1 % TOP));
  }

  /** Twice the top product plus the middle column's bits from 63 up. */
  method HighPart(t0: word, t1: word, lo11: word, hi11: word) returns (h0: word, h1: word)
    requires 2 * (lo11 + W * hi11) + (t0 + W * t1) / TOP < W * W
    ensures h0 + W * h1 == 2 * (lo11 + W * hi11) + (t0 + W * t1) / TOP
  {
    WindowAt63(t0, t1);
    DoubledWords(lo11, hi11);
    hide Pow2;
    var doubled := ShiftLeft128(lo11, hi11, 1);
    var window := ShiftRight128(t0, t1, 63);
    var cc, x0 := AddCarry64(0, window, lo11 * 2 % W);
    var over, x1 := AddCarry64(cc, t1 / TOP, doubled);
    h0, h1 := x0, x1;
    HighPartSum(window, t1 / TOP, lo11 * 2 % W, 2 * hi11 + lo11 / TOP, lo11, hi11, (t0 + W * t1) / TOP, cc, x0, over, x1);
  }

  /** Both words of twice a two-word number; the bit shifted out of the top is lost in the second. */
  lemma DoubledWords(lo: word, hi: word)
    ensures lo * 2 % W == lo % TOP * 2
    ensures (lo + W * hi) * 2 / W == 2 * hi + lo / TOP
  {
    DivModUnique(lo * 2, W, lo / TOP, lo % TOP * 2);
    DivModUnique((lo + W * hi) * 2, W, 2 * hi + lo / TOP, lo % TOP * 2);
  }

  lemma HighPartSum(w0: int, w1: int, d0: int, d1: int, lo: int, hi: int, window: int,
                    cc: bit, x0: word, over: bit, x1: word)
    requires w0 + W * w1 == window && d0 == lo % TOP * 2 && d1 == 2 * hi + lo / TOP
    requires x0 + W * cc == w0 + d0 && x1 + W * over == w1 + d1 % W + cc
    requires lo >= 0 && hi >= 0 && window >= 0 && 2 * (lo + W * hi) + window < W * W
    ensures x0 + W * x1 == 2 * (lo + W * hi) + window
  {
    assert d0 + W * d1 == 2 * (lo + W * hi);
    assert d1 < W by { assert W * d1 < W * W; }
  }

  /** The reduction shared by multiplication and squaring: v = lo00 + 2^64 * middle + 2^128 * top. */
  method ReduceProduct(lo00: word, t0: word, t1: word, lo11: word, hi11: word, c: array<word>, ghost v: int)
    requires c.Length == 2 && 0 <= v <= P * P
    requires v == lo00 + W * (t0 + W * t1) + W * W * (lo11 + W * hi11)
    modifies c
    ensures Felm(c) && Same(Fe(c), v) && (Fe(c) == 0 <==> v == 0)
  {
    ghost var high, low := 2 * (lo11 + W * hi11) + (t0 + W * t1) / TOP, lo00 + W * (t0 % TOP);
    WindowAt63(t0, t1);
    assert v == low + (P + 1) * high;
    assert high <= P;
    var h0, h1 := HighPart(t0, t1, lo11, hi11);
    var cc, x0 := AddCarry64(0, lo00, h0);
    c[0] := x0;
    var _, x1 := AddCarry64(cc, t0 % TOP, h1);
    c[1] := x1;
    assert Fe(c) == low + high;
    FoldTop(c);
    SameShift(Fe(c), v, -high - (if low + high > P then 1 else 0));
  }

  method FpMul1271(a: array<word>, b: array<word>, c: array<word>)
    requires Felm(a) && Felm(b) && c.Length == 2
    modifies c
    ensures Felm(c) && Same(Fe(c), old(Fe(a)) * old(Fe(b)))
    ensures Fe(c) == 0 <==> old(Fe(a)) == 0 || old(Fe(b)) == 0
  {
    ghost var v := Fe(a) * Fe(b);
    var lo00, hi00 := UMul128(a[0], b[0]);
    var lo01, hi01 := UMul128(a[0], b[1]);
    var lo10, hi10 := UMul128(a[1], b[0]);
    var lo11, hi11 := UMul128(a[1], b[1]);
    ProductWords(a[0], a[1], b[0], b[1], lo00, hi00, lo01, hi01, lo10, hi10, lo11, hi11);
    var t0, t1 := MiddleColumn(hi00, lo01, hi01, lo10, hi10);
    ReduceProduct(lo00, t0, t1, lo11, hi11, c, v);
  }

  lemma ProductWords(a0: word, a1: word, b0: word, b1: word,
                     lo00: word, hi00: word, lo01: word, hi01: word, lo10: word, hi10: word, lo11: word, hi11: word)
    requires a1 < TOP && b1 < TOP
    requires lo00 + W * hi00 == a0 * b0 && lo01 + W * hi01 == a0 * b1
    requires lo10 + W * hi10 == a1 * b0 && lo11 + W * hi11 == a1 * b1
    ensures hi00 + lo01 + lo10 + W * (hi01 as int + hi10) < W * W
    ensures (a0 + W * a1) * (b0 + W * b1)
         == lo00 + W * (hi00 + lo01 + lo10 + W * (hi01 as int + hi10)) + W * W * (lo11 + W * hi11)
    ensures 0 <= (a0 + W * a1) * (b0 + W * b1) <= P * P
    ensures (a0 + W * a1) * (b0 + W * b1) == 0 <==> a0 + W * a1 == 0 || b0 + W * b1 == 0
  {
    PositiveProduct(a0 + W * a1, b0 + W * b1);
    MulBound(a0, b1, W - 1, TOP - 1);
    MulBound(a1, b0, TOP - 1, W - 1);
    MulBound(a0 + W * a1, b0 + W * b1, P, P);
    Expand(a0, a1, b0, b1);
  }

  lemma PositiveProduct(x: nat, y: nat)
    ensures x * y == 0 <==> x == 0 || y == 0
  {
    if x > 0 && y > 0 {
      MulLe(1, x, y);
    }
  }

  lemma Expand(a0: int, a1: int, b0: int, b1: int)
    ensures (a0 + W * a1) * (b0 + W * b1) == a0 * b0 + W * (a0 * b1 + a1 * b0) + W * W * (a1 * b1)
  {
    assert (a0 + W * a1) * (b0 + W * b1) == a0 * (b0 + W * b1) + W * (a1 * (b0 + W * b1));
    assert a0 * (b0 + W * b1) == a0 * b0 + W * (a0 * b1);
    assert a1 * (b0 + W * b1) == a1 * b0 + W * (a1 * b1);
  }

  /** The middle column of a square, a0*a1 added twice to high(a0*a0). */
  method DoubledColumn(hi00: word, lo01: word, hi01: word) returns (t0: word, t1: word)
    requires hi00 + lo01 + lo01 + W * (hi01 as int + hi01) < W * W
    ensures t0 + W * t1 == hi00 + lo01 + lo01 + W * (hi01 as int + hi01)
  {
    var cc, s0 := AddCarry64(0, lo01, hi00);
    var _, s1 := AddCarry64(cc, hi01, 0);
    cc, t0 := AddCarry64(0, lo01, s0);
    var _, top := AddCarry64(cc, hi01, s1);
    t1 := top;
  }

  method FpSqr1271(a: array<word>, c: array<word>)
    requires Felm(a) && c.Length == 2
    modifies c
    ensures Felm(c) && Same(Fe(c), old(Fe(a)) * old(Fe(a)))
    ensures Fe(c) == 0 <==> old(Fe(a)) == 0
  {
    ghost var v := Fe(a) * Fe(a);
    var lo00, hi00 := UMul128(a[0], a[0]);
    var lo01, hi01 := UMul128(a[0], a[1]);
    var lo11, hi11 := UMul128(a[1], a[1]);
    ProductWords(a[0], a[1], a[0], a[1], lo00, hi00, lo01, hi01, lo01, hi01, lo11, hi11);
    var t0, t1 := DoubledColumn(hi00, lo01, hi01);
    ReduceProduct(lo00, t0, t1, lo11, hi11, c, v);
  }

  method HalveWords(x0: word, x1: word) returns (h0: word, h1: word)
    ensures h0 + W * h1 == (x0 + W * x1) / 2
  {
    assert Pow2(1) == 2;
    h0 := ShiftRight128(x0, x1, 1);
    h1 := x1 / 2;
    DivModUnique(x0 + W * x1, 2, x0 / 2 + TOP * x1, x0 % 2);
    DivModUnique(x0 / 2 + TOP * x1, W, x1 / 2, x0 / 2 + TOP * (x1 % 2));
  }

  /** An odd element gains p. */
  method MakeEven(a0: word, a1: word) returns (x0: word, x1: word)
    requires a1 < TOP
    ensures x0 + W * x1 == (if (a0 + W * a1) % 2 == 1 then a0 + W * a1 + P else a0 + W * a1)
  {
    var mask: word := if a0 % 2 == 1 then ALL_ONES else 0;
    var cc;
    cc, x0 := AddCarry64(0, a0, mask);
    var _, high := AddCarry64(cc, a1, mask / 2);
    x1 := high;
    DivModUnique(a0 + W * a1, 2, a0 / 2 + TOP * a1, a0 % 2);
  }

  /** Halving: an odd element first gains p. */
  method FpDiv2(a: array<word>)
    requires Felm(a)
    modifies a
    ensures Felm(a) && Same(2 * Fe(a), old(Fe(a)))
  {
    hide Same;
    ghost var v := Fe(a);
    var x0, x1 := MakeEven(a[0], a[1]);
    var h0, h1 := HalveWords(x0, x1);
    a[0], a[1] := h0, h1;
    HalfIsSame(v, x0 + W * x1, Fe(a));
  }

  lemma HalfIsSame(v: int, w: int, h: int)
    requires w == (if v % 2 == 1 then v + P else v) && h == w / 2
    ensures Same(2 * h, v)
  {
    if v % 2 == 1 {
      SameShift(2 * h, v, 1);
    } else {
      SameShift(2 * h, v, 0);
    }
  }
}
