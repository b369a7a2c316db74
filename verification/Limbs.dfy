/** Little-endian multi-word integers: schoolbook and hand-unrolled products, carry chains. */
module Limbs {
  import opened Words

  /** The number whose base-2^64 digits, least significant first, are s. */
  function Val(s: seq<word>): (v: nat)
  {
    if s == [] then 0 else s[0] + W * Val(s[1..])
  }

  function WPow(n: nat): (p: nat)
    ensures p > 0
  {
    if n == 0 then 1 else W * WPow(n - 1)
  }

  lemma {:induction false} WPowAdds(m: nat, n: nat)
    ensures WPow(m + n) == WPow(m) * WPow(n)
  {
    if m > 0 {
      WPowAdds(m - 1, n);
      assert W * (WPow(m - 1) * WPow(n)) == WPow(m) * WPow(n);
    }
  }

  lemma {:induction false} ValSplit(s: seq<word>, k: nat)
    requires k <= |s|
    ensures Val(s) == Val(s[..k]) + WPow(k) * Val(s[k..])
  {
    if k == 0 {
      assert s[..0] == [] && s[0..] == s;
    } else {
      ValSplit(s[1..], k - 1);
      assert s[1..][..k - 1] == s[..k][1..] && s[1..][k - 1..] == s[k..];
      PrependDigit(s[0], Val(s[1..][..k - 1]), WPow(k - 1), Val(s[k..]));
    }
  }

  lemma PrependDigit(x: int, low: int, p: int, high: int)
    ensures x + W * (low + p * high) == x + W * low + (W * p) * high
  {
  }

  lemma ValPrefix(s: seq<word>, k: nat)
    requires k < |s|
    ensures Val(s[..k + 1]) == Val(s[..k]) + WPow(k) * s[k]
  {
    ValSplit(s[..k + 1], k);
    assert s[..k + 1][..k] == s[..k] && s[..k + 1][k..] == [s[k]];
    assert Val([s[k]]) == s[k];
  }

  lemma {:induction false} ValBound(s: seq<word>)
    ensures Val(s) <= WPow(|s|) - 1
  {
    if s != [] {
      ValBound(s[1..]);
    }
  }

  lemma {:induction false} ValZeros(s: seq<word>)
    requires forall k :: 0 <= k < |s| ==> s[k] == 0
    ensures Val(s) == 0
  {
    if s != [] {
      ValZeros(s[1..]);
    }
  }

  lemma {:induction false} ValUpdate(s: seq<word>, k: nat, x: word)
    requires k < |s|
    ensures Val(s[k := x]) == Val(s) + WPow(k) * (x - s[k])
  {
    if k == 0 {
      assert s[0 := x][1..] == s[1..];
    } else {
      ValUpdate(s[1..], k - 1, x);
      assert s[k := x][1..] == s[1..][k - 1 := x];
      assert W * (WPow(k - 1) * (x - s[k])) == WPow(k) * (x - s[k]);
    }
  }

  /** Digits are determined by the number they write. */
  lemma {:induction false} ValInjective(s: seq<word>, t: seq<word>)
    requires |s| == |t| && Val(s) == Val(t)
    ensures s == t
  {
    if s != [] {
      DivModUnique(Val(s), W, Val(s[1..]), s[0]);
      DivModUnique(Val(t), W, Val(t[1..]), t[0]);
      ValInjective(s[1..], t[1..]);
      assert s == [s[0]] + s[1..] && t == [t[0]] + t[1..];
    }
  }

  /** One multiply-accumulate of the schoolbook loops: the new column and the carry to the next. */
  method MulAcc(column: word, a: word, b: word, carry: word) returns (column': word, carry': word)
    ensures column' + W * carry' == column + a * b + carry
  {
    var lo, hi := UMul128(a, b);
    var c1, s := AddCarry64(0, column, lo);
    var c2, out := AddCarry64(0, s, carry);
    MulBound(a, b, W - 1, W - 1);
    var next := hi + c1 + c2;
    assert out + W * next == column + a * b + carry;
    column', carry' := out, next;
  }

  /** One step of a row, in place: x * y and the carry enter word k. */
  method AccumulateAt(r: array<word>, k: nat, x: word, y: word, carry: word) returns (carry': word)
    requires k < r.Length
    modifies r
    ensures r[..] == old(r[..])[k := r[k]]
    ensures r[k] + W * carry' == old(r[k]) + x * y + carry
    ensures Val(r[..]) == old(Val(r[..])) + WPow(k) * (r[k] as int - old(r[k]))
  {
    hide Val;
    hide WPow;
    ghost var s := r[..];
    var column;
    column, carry' := MulAcc(r[k], x, y, carry);
    r[k] := column;
    assert r[..] == s[k := column];
    ValUpdate(s, k, column);
  }

  /** One row of a schoolbook product: r[i..] += x * b, the carry landing in the untouched r[i + 4]. */
  method MulRow(r: array<word>, i: nat, x: word, b: array<word>)
    requires r.Length == 8 && b.Length >= 4 && r != b && i < 4
    requires forall k :: i + 4 <= k < 8 ==> r[k] == 0
    modifies r
    ensures Val(r[..]) == old(Val(r[..])) + WPow(i) * (x * Val(old(b[..4])))
    ensures forall k :: i + 5 <= k < 8 ==> r[k] == 0
  {
    ghost var y, before := b[..], Val(r[..]);
    assert Val(y[..0]) == 0;
    hide Val;
    hide WPow;
    var carry: word := 0;
    for j := 0 to 4
      invariant b[..] == y
      invariant forall k :: i + 4 <= k < 8 ==> r[k] == 0
      invariant Val(r[..]) + WPow(i + j) * carry == before + WPow(i) * (x * Val(y[..j]))
    {
      ghost var v, column, c := Val(r[..]), r[i + j], carry;
      carry := AccumulateAt(r, i + j, x, b[j], carry);
      ValPrefix(y, j);
      RowStep(i, j, x, b[j], v, column, c, r[i + j], carry, Val(y[..j]), before);
    }
    assert y[..4] == b[..4];
    ghost var s := r[..];
    r[i + 4] := r[i + 4] + carry;
    assert r[..] == s[i + 4 := carry];
    ValUpdate(s, i + 4, carry);
  }

  lemma RowStep(i: nat, j: nat, x: int, y: int, v: int, column: int, c: int, column': int, c': int, prefix: int, before: int)
    requires v + WPow(i + j) * c == before + WPow(i) * (x * prefix)
    requires column' + W * c' == column + x * y + c
    ensures v + WPow(i + j) * (column' - column) + WPow(i + (j + 1)) * c'
         == before + WPow(i) * (x * (prefix + WPow(j) * y))
  {
    WPowAdds(i, j);
    assert WPow(i + (j + 1)) == W * WPow(i + j);
    RowAlgebra(WPow(i), WPow(j), WPow(i + j), W, x, y, v, column, c, column', c', prefix, before);
  }

  lemma RowAlgebra(q: int, t: int, p: int, w: int, x: int, y: int, v: int, column: int, c: int, column': int, c': int, prefix: int, before: int)
    requires p == q * t
    requires v + p * c == before + q * (x * prefix)
    requires column' + w * c' == column + x * y + c
    ensures v + p * (column' - column) + (w * p) * c' == before + q * (x * (prefix + t * y))
  {
    calc {
      v + p * (column' - column) + (w * p) * c';
      v + p * (column' - column) + p * (w * c');
      v + p * (column' - column + w * c');
      v + p * (x * y + c);
      v + p * (x * y) + p * c;
      before + q * (x * prefix) + p * (x * y);
      before + q * (x * prefix) + (q * t) * (x * y);
      { assert (q * t) * (x * y) == q * (x * (t * y)); }
      before + q * (x * prefix) + q * (x * (t * y));
      before + q * (x * prefix + x * (t * y));
      { assert x * prefix + x * (t * y) == x * (prefix + t * y); }
      before + q * (x * (prefix + t * y));
    }
  }

  lemma ProductStep(prefix: int, p: int, x: int, y: int)
    ensures (prefix + p * x) * y == prefix * y + p * (x * y)
  {
  }

  /** The row loops shared by `multiply` and `mul_truncate`, on their zeroed local array. */
  method MultiplyRows(a: array<word>, b: array<word>) returns (r: array<word>)
    requires a.Length >= 4 && b.Length >= 4
    ensures fresh(r) && r.Length == 8
    ensures Val(r[..]) == Val(a[..4]) * Val(b[..4])
  {
    r := new word[8](_ => 0);
    ValZeros(r[..]);
    for i := 0 to 4
      invariant forall k :: i + 4 <= k < 8 ==> r[k] == 0
      invariant Val(r[..]) == Val(a[..i]) * Val(b[..4])
      modifies r
    {
      MulRow(r, i, a[i], b);
      ValPrefix(a[..], i);
      assert a[..][..i + 1] == a[..i + 1] && a[..][..i] == a[..i];
      ProductStep(Val(a[..i]), WPow(i), a[i], Val(b[..4]));
    }
  }

  /** c = a * b, four words by four; c may be one of the operands. */
  method Multiply(a: array<word>, b: array<word>, c: array<word>)
    requires a.Length >= 4 && b.Length >= 4 && c.Length == 8
    modifies c
    ensures Val(c[..]) == old(Val(a[..4]) * Val(b[..4]))
  {
    ghost var product := Val(a[..4]) * Val(b[..4]);
    var r := MultiplyRows(a, b);
    assert Val(r[..]) == product;
    ghost var digits := r[..];
    for k := 0 to 8
      invariant forall j :: 0 <= j < k ==> c[j] == digits[j]
      invariant forall j :: 0 <= j < 8 ==> r[j] == digits[j]
    {
      c[k] := r[k];
    }
    assert c[..] == digits;
  }

  /** The word at weight 2^256 of a * b. */
  method MulTruncate(s: array<word>, C: array<word>) returns (t: word)
    requires s.Length >= 4 && C.Length >= 4
    ensures t == Val(s[..4]) * Val(C[..4]) / WPow(4) % W
  {
    var prod := MultiplyRows(s, C);
    t := prod[4];
    ValDigit(prod[..], 4);
  }

  lemma ValDigit(s: seq<word>, k: nat)
    requires k < |s|
    ensures s[k] == Val(s) / WPow(k) % W
  {
    ValSplit(s, k);
    ValBound(s[..k]);
    DivModUnique(Val(s), WPow(k), Val(s[k..]), Val(s[..k]));
    DivModUnique(Val(s[k..]), W, Val(s[k + 1..]), s[k]);
    assert s[k..][1..] == s[k + 1..];
  }

  // ---------------------------------------------------------------- hand-unrolled carry chains

  lemma Val4(s: seq<word>)
    requires |s| == 4
    ensures Val(s) == s[0] + W * (s[1] + W * (s[2] + W * s[3]))
  {
    assert s[1..][1..] == s[2..] && s[2..][1..] == s[3..] && s[3..][1..] == [];
    assert Val(s[3..]) == s[3];
    assert Val(s[2..]) == s[2] + W * s[3];
  }

  lemma Val5(s: seq<word>)
    requires |s| == 5
    ensures Val(s) == s[0] + W * (s[1] + W * (s[2] + W * (s[3] + W * s[4])))
  {
    Val4(s[1..]);
  }

  /** The first row of the unrolled product: five words of x * b. */
  method UnrolledFirstRow(x: word, b: seq<word>) returns (c: seq<word>)
    requires |b| == 4
    ensures |c| == 5 && Val(c) == x * Val(b)
  {
    var u, tmp, uv, cy;
    var c0, c1, c2, c3;
    forall k | 0 <= k < 4 ensures 0 <= x * b[k] <= (W - 1) * (W - 1) { MulBound(x, b[k], W - 1, W - 1); }
    c0, u := UMul128(x, b[0]);
    tmp, uv := UMul128(x, b[1]);
    cy, c1 := AddCarry64(0, tmp, u);
    u := cy + uv;
    tmp, uv := UMul128(x, b[2]);
    cy, c2 := AddCarry64(0, tmp, u);
    u := cy + uv;
    tmp, uv := UMul128(x, b[3]);
    cy, c3 := AddCarry64(0, tmp, u);
    c := [c0, c1, c2, c3, cy + uv];
    Val4(b);
    Val5(c);
    RowProduct(x, b[0], b[1], b[2], b[3]);
  }

  lemma RowProduct(x: int, b0: int, b1: int, b2: int, b3: int)
    ensures x * (b0 + W * (b1 + W * (b2 + W * b3))) == x * b0 + W * (x * b1 + W * (x * b2 + W * (x * b3)))
  {
    assert x * (b0 + W * (b1 + W * (b2 + W * b3))) == x * b0 + W * (x * (b1 + W * (b2 + W * b3)));
    assert x * (b1 + W * (b2 + W * b3)) == x * b1 + W * (x * (b2 + W * b3));
    assert x * (b2 + W * b3) == x * b2 + W * (x * b3);
  }

  /** Every later row: add x * b to four words in place and produce the fifth. */
  method UnrolledRow(x: word, b: seq<word>, c: seq<word>) returns (c': seq<word>)
    requires |b| == 4 && |c| == 4
    ensures |c'| == 5 && Val(c') == Val(c) + x * Val(b)
  {
    hide Val;
    var u, v, tmp, uv, cy;
    var c0, c1, c2, c3 := c[0], c[1], c[2], c[3];
    forall k | 0 <= k < 4 ensures 0 <= x * b[k] <= (W - 1) * (W - 1) { MulBound(x, b[k], W - 1, W - 1); }
    tmp, uv := UMul128(x, b[0]);
    cy, c0 := AddCarry64(0, c0, tmp);
    u := cy + uv;
    tmp, uv := UMul128(x, b[1]);
    cy, v := AddCarry64(0, tmp, u);
    u := cy + uv;
    tmp, uv := UMul128(x, b[2]);
    cy, c1 := AddCarry64(0, c1, v);
    cy, v := AddCarry64(cy, tmp, u);
    u := cy + uv;
    tmp, uv := UMul128(x, b[3]);
    cy, c2 := AddCarry64(0, c2, v);
    cy, v := AddCarry64(cy, tmp, u);
    tmp := cy;
    cy, c3 := AddCarry64(0, c3, v);
    Val4(b);
    Val4(c);
    RowProduct(x, b[0], b[1], b[2], b[3]);
    var c4 := tmp + uv + cy;
    assert c0 + W * (c1 + W * (c2 + W * (c3 + W * c4))) == Val(c) + x * Val(b);
    c' := [c0, c1, c2, c3, c4];
    Val5(c');
  }

  /** A row of the unrolled product, in place in c[i..i + 5]. */
  method UnrolledRowAt(c: array<word>, i: nat, x: word, b: array<word>)
    requires c.Length == 8 && b.Length >= 4 && c != b && 1 <= i < 4
    modifies c
    ensures Val(c[..i + 5]) == old(Val(c[..i + 4]) + WPow(i) * (x * Val(b[..4])))
  {
    hide Val;
    hide WPow;
    ghost var s, y := c[..i + 4], Val(b[..4]);
    var row := UnrolledRow(x, b[..4], c[i..i + 4]);
    c[i], c[i + 1], c[i + 2], c[i + 3], c[i + 4] := row[0], row[1], row[2], row[3], row[4];
    ghost var t := c[..i + 5];
    assert t[..i] == s[..i] && t[i..] == row;
    ValSplit(s, i);
    ValSplit(t, i);
    assert s[i..] == old(c[i..i + 4]);
    ScaleSum(WPow(i), Val(s[i..]), x * y);
  }

  lemma ScaleSum(k: int, x: int, y: int)
    ensures k * (x + y) == k * x + k * y
  {
  }

  /** The reference core's straight-line product; it writes c while still reading a and b. */
  method MultiplyUnrolled(a: array<word>, b: array<word>, c: array<word>)
    requires a.Length >= 4 && b.Length >= 4 && c.Length == 8 && c != a && c != b
    modifies c
    ensures Val(c[..]) == old(Val(a[..4]) * Val(b[..4]))
  {
    hide Val;
    ghost var s, y := a[..4], Val(b[..4]);
    var row := UnrolledFirstRow(a[0], b[..4]);
    c[0], c[1], c[2], c[3], c[4] := row[0], row[1], row[2], row[3], row[4];
    assert c[..5] == row;
    UnrolledRowAt(c, 1, a[1], b);
    UnrolledRowAt(c, 2, a[2], b);
    UnrolledRowAt(c, 3, a[3], b);
    assert c[..8] == c[..];
    Val4(s);
    RowsProduct(s[0], s[1], s[2], s[3], y);
    assert WPow(1) == W && WPow(2) == W * WPow(1) && WPow(3) == W * WPow(2);
  }

  lemma RowsProduct(a0: int, a1: int, a2: int, a3: int, y: int)
    ensures (a0 + W * (a1 + W * (a2 + W * a3))) * y == a0 * y + W * (a1 * y) + W * W * (a2 * y) + W * W * W * (a3 * y)
  {
    assert (a2 + W * a3) * y == a2 * y + W * (a3 * y);
    assert (a1 + W * (a2 + W * a3)) * y == a1 * y + W * ((a2 + W * a3) * y);
    assert (a0 + W * (a1 + W * (a2 + W * a3))) * y == a0 * y + W * ((a1 + W * (a2 + W * a3)) * y);
  }

  /** Both products write the same eight words. */
  method BothProductsAgree(a: array<word>, b: array<word>) returns (loop: array<word>, straight: array<word>)
    requires a.Length >= 4 && b.Length >= 4
    ensures loop[..] == straight[..]
  {
    loop, straight := new word[8], new word[8];
    Multiply(a, b, loop);
    MultiplyUnrolled(a, b, straight);
    ValInjective(loop[..], straight[..]);
  }

  /** The reference core's straight-line truncated product: the carry it leaves unchecked, out of t2 + high20 + carry,
      cannot occur. */
  method MulTruncateUnrolled(s: array<word>, C: array<word>) returns (t: word)
    requires s.Length == 4 && C.Length == 4
    ensures t == Val(s[..]) * Val(C[..]) / WPow(4) % W
  {
    var low00, high00 := UMul128(s[0], C[0]);
    var low10, high10 := UMul128(s[1], C[0]);
    var low01, high01 := UMul128(s[0], C[1]);
    var low20, high20 := UMul128(s[2], C[0]);
    var low02, high02 := UMul128(s[0], C[2]);
    var low11, high11 := UMul128(s[1], C[1]);
    var low03, high03 := UMul128(s[0], C[3]);
    var low30, high30 := UMul128(s[3], C[0]);
    var low12, high12 := UMul128(s[1], C[2]);
    var low21, high21 := UMul128(s[2], C[1]);
    var low13, low22, low31 := s[1] * C[3] % W, s[2] * C[2] % W, s[3] * C[1] % W;
    HighWordBound(s[0], C[0], low00, high00);
    MulBound(s[1], C[0], W - 1, W - 1);
    MulBound(s[0], C[1], W - 1, W - 1);
    MulBound(s[2], C[0], W - 1, W - 1);
    ghost var low, k;
    t, low, k := TruncateAdditions(low00, high00, low10, high10, low01, high01, low20, high20, low02, high02, low11, high11,
                                   low03, high03, low30, high30, low12, high12, low21, high21, low13, low22, low31);
    LowColumnsByWords(s[0], s[1], s[2], s[3], C[0], C[1], C[2], C[3], low00, high00, low10, high10, low01, high01,
                      low20, high20, low02, high02, low11, high11, low03, high03, low30, high30, low12, high12, low21, high21,
                      low + W * W * W * W * (t + W * k), low13 + low22 + low31);
    ProductByColumns(s[..], C[..]);
    ghost var rest := (s[2] as int) * C[3] + (s[3] as int) * C[2] + W * ((s[3] as int) * C[3]);
    TruncateTop(Val(s[..]) * Val(C[..]), low, t, k, LowColumns(s[0], s[1], s[2], s[3], C[0], C[1], C[2], C[3]),
                (s[1] as int) * C[3], (s[2] as int) * C[2], (s[3] as int) * C[1], rest);
  }

  /** Both programs truncate alike, whatever the scalar and the constant. */
  method TruncationsAgree(s: array<word>, C: array<word>) returns (loop: word, straight: word)
    requires s.Length == 4 && C.Length == 4
    ensures loop == straight == Val(s[..]) * Val(C[..]) / WPow(4) % W
  {
    assert s[..4] == s[..] && C[..4] == C[..];
    loop := MulTruncate(s, C);
    straight := MulTruncateUnrolled(s, C);
  }

  /** Its additions, in order: t is the word at weight 2^256 of the columns. */
  method TruncateAdditions(ghost low00: word, high00: word, low10: word, high10: word, low01: word, high01: word,
                           low20: word, high20: word, low02: word, high02: word, low11: word, high11: word,
                           low03: word, high03: word, low30: word, high30: word, low12: word, high12: word,
                           low21: word, high21: word, low13: word, low22: word, low31: word)
    returns (t: word, ghost low: nat, ghost k: int)
    requires high00 <= W - 2
    requires low10 + W * high10 <= (W - 1) * (W - 1) && low01 + W * high01 <= (W - 1) * (W - 1)
    requires low20 + W * high20 <= (W - 1) * (W - 1)
    ensures low < W * W * W * W
    ensures low + W * W * W * W * (t + W * k)
         == low00 + W * (high00 as int + low10 + low01) + W * W * (high10 as int + high01 + low20 + low02 + low11)
            + W * W * W * (high20 as int + high02 + high11 + low03 + low30 + low12 + low21)
            + W * W * W * W * (high03 as int + high30 + high12 + high21 + low13 + low22 + low31)
  {
    var none, t0, t1 := AddPair(high00, high10, low10, 0);
    var t2, d1, t3 := AddPair(t0, t1, low01, high01);
    var unchecked, t4, t5 := AddPair(t3, high20, low20, t2);
    assert none == 0 && unchecked == 0;
    var t6, t7, t8 := AddPair(t4, t5, low02, high02);
    var t9, d2, t10 := AddPair(t7, t8, low11, high11);
    var over1, t11, t12 := AddPair(t10, (t6 as int) + t9, low03, high03);
    var over2, t13, t14 := AddPair(t11, t12, low30, high30);
    var over3, t15, t16 := AddPair(t13, t14, low12, high12);
    var cy, d3 := AddCarry64(0, t15, low21);
    ghost var sum := cy + t16 + high21 + low13 + low22 + low31;
    t := (cy + t16 + high21 + low13 + low22 + low31) % W;
    low := low00 + W * d1 + W * W * d2 + W * W * W * d3;
    k := sum / W + over1 + over2 + over3;
  }

  lemma ProductByColumns(s: seq<word>, C: seq<word>)
    requires |s| == |C| == 4
    ensures Val(s) * Val(C) ==
            LowColumns(s[0], s[1], s[2], s[3], C[0], C[1], C[2], C[3])
            + W * W * W * W * ((s[1] as int) * C[3] + (s[2] as int) * C[2] + (s[3] as int) * C[1])
            + W * W * W * W * W * ((s[2] as int) * C[3] + (s[3] as int) * C[2] + W * ((s[3] as int) * C[3]))
  {
    Val4(s);
    Val4(C);
    ProductColumns(s[0], s[1], s[2], s[3], C[0], C[1], C[2], C[3]);
  }

  lemma LowColumnsByWords(s0: int, s1: int, s2: int, s3: int, c0: int, c1: int, c2: int, c3: int,
                          low00: int, high00: int, low10: int, high10: int, low01: int, high01: int, low20: int, high20: int,
                          low02: int, high02: int, low11: int, high11: int, low03: int, high03: int, low30: int, high30: int,
                          low12: int, high12: int, low21: int, high21: int, sum: int, top: int)
    requires low00 + W * high00 == s0 * c0 && low10 + W * high10 == s1 * c0 && low01 + W * high01 == s0 * c1
    requires low20 + W * high20 == s2 * c0 && low02 + W * high02 == s0 * c2 && low11 + W * high11 == s1 * c1
    requires low03 + W * high03 == s0 * c3 && low30 + W * high30 == s3 * c0
    requires low12 + W * high12 == s1 * c2 && low21 + W * high21 == s2 * c1
    requires sum == low00 + W * (high00 + low10 + low01) + W * W * (high10 + high01 + low20 + low02 + low11)
                    + W * W * W * (high20 + high02 + high11 + low03 + low30 + low12 + low21)
                    + W * W * W * W * (high03 + high30 + high12 + high21 + top)
    ensures sum == LowColumns(s0, s1, s2, s3, c0, c1, c2, c3) + W * W * W * W * top
  {
  }

  lemma TruncateTop(v: int, low: nat, t: word, k: int, cols: int, x: int, y: int, z: int, rest: int)
    requires low < W * W * W * W
    requires low + W * W * W * W * (t + W * k) == cols + W * W * W * W * (x % W + y % W + z % W)
    requires v == cols + W * W * W * W * (x + y + z) + W * W * W * W * W * rest
    ensures v / WPow(4) % W == t
  {
    assert WPow(4) == W * W * W * W;
    var top := k + x / W + y / W + z / W + rest;
    DivModUnique(v, WPow(4), t + W * top, low);
    DivModUnique(t + W * top, W, top, t);
  }

  /** The columns of weight below 2^256 of a four-word product, whole products at their weights. */
  ghost function LowColumns(s0: int, s1: int, s2: int, s3: int, c0: int, c1: int, c2: int, c3: int): int {
    s0 * c0 + W * (s1 * c0 + s0 * c1) + W * W * (s2 * c0 + s0 * c2 + s1 * c1)
    + W * W * W * (s0 * c3 + s3 * c0 + s1 * c2 + s2 * c1)
  }

  /** The idiom `_addcarry_u64(_addcarry_u64(0, x, lo, &x'), y, hi, &y')`. */
  method AddPair(x: word, y: word, lo: word, hi: word) returns (cout: bit, x': word, y': word)
    ensures x' + W * y' + W * W * cout == x + W * y + lo + W * hi
  {
    var cy;
    cy, x' := AddCarry64(0, x, lo);
    cout, y' := AddCarry64(cy, y, hi);
  }

  lemma ProductColumns(s0: int, s1: int, s2: int, s3: int, c0: int, c1: int, c2: int, c3: int)
    ensures (s0 + W * (s1 + W * (s2 + W * s3))) * (c0 + W * (c1 + W * (c2 + W * c3))) ==
            LowColumns(s0, s1, s2, s3, c0, c1, c2, c3)
            + W * W * W * W * (s1 * c3 + s2 * c2 + s3 * c1)
            + W * W * W * W * W * (s2 * c3 + s3 * c2 + W * (s3 * c3))
  {
    var c := c0 + W * (c1 + W * (c2 + W * c3));
    RowsProduct(s0, s1, s2, s3, c);
    RowProduct(s0, c0, c1, c2, c3);
    RowProduct(s1, c0, c1, c2, c3);
    RowProduct(s2, c0, c1, c2, c3);
    RowProduct(s3, c0, c1, c2, c3);
  }

  /** The high word of a product is below the top word value. */
  lemma HighWordBound(x: word, y: word, lo: word, hi: word)
    requires lo + W * hi == x * y
    ensures hi <= W - 2
  {
    MulBound(x, y, W - 1, y);
  }
}
