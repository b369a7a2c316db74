/** Double-scalar multiplication: four variable-base and four fixed-base sub-scalars, interleaved. */
module DoubleScalar {
  import opened Words
  import opened CommutativeGroup
  import opened WNaf

  // ---------------------------------------------------------------- linear combinations

  /** The sum of c[i]·points[i]. */
  ghost function Combination<T>(g: Group<T>, c: seq<int>, points: seq<T>): T
    requires |c| == |points|
  {
    if c == [] then g.zero else g.add(Mul(g, c[0], points[0]), Combination(g, c[1..], points[1..]))
  }

  lemma {:induction false} CombinationAdd<T(!new)>(g: Group<T>, c: seq<int>, points: seq<T>, i: nat, d: int)
    requires IsGroup(g) && |c| == |points| && i < |c|
    ensures Combination(g, c[i := c[i] + d], points) == g.add(Combination(g, c, points), Mul(g, d, points[i]))
  {
    var head, rest := Mul(g, c[0], points[0]), Combination(g, c[1..], points[1..]);
    var m := Mul(g, d, points[i]);
    if i == 0 {
      assert c[0 := c[0] + d][1..] == c[1..];
      MulAdd(g, c[0], d, points[0]);
      Laws(g, head, m, rest);
      Laws(g, m, rest, rest);
      Laws(g, head, rest, m);
    } else {
      assert c[i := c[i] + d][1..] == c[1..][i - 1 := c[1..][i - 1] + d];
      CombinationAdd(g, c[1..], points[1..], i - 1, d);
      Laws(g, head, rest, m);
    }
  }

  ghost function Doubled(c: seq<int>): (r: seq<int>)
    ensures |r| == |c|
  {
    seq(|c|, i requires 0 <= i < |c| => 2 * c[i])
  }

  lemma {:induction false} CombinationDouble<T(!new)>(g: Group<T>, c: seq<int>, points: seq<T>)
    requires IsGroup(g) && |c| == |points|
    ensures Combination(g, Doubled(c), points) == g.add(Combination(g, c, points), Combination(g, c, points))
  {
    if c == [] {
      Laws(g, g.zero, g.zero, g.zero);
    } else {
      var x, y := Mul(g, c[0], points[0]), Combination(g, c[1..], points[1..]);
      assert Doubled(c)[1..] == Doubled(c[1..]);
      CombinationDouble(g, c[1..], points[1..]);
      MulAdd(g, c[0], c[0], points[0]);
      Shuffle(g, x, y);
    }
  }

  lemma Shuffle<T(!new)>(g: Group<T>, x: T, y: T)
    requires IsGroup(g)
    ensures g.add(g.add(x, x), g.add(y, y)) == g.add(g.add(x, y), g.add(x, y))
  {
    Laws(g, x, x, g.add(y, y));
    Laws(g, x, y, y);
    Laws(g, x, y, x);
    Laws(g, y, x, y);
    Laws(g, x, y, g.add(x, y));
  }

  lemma {:induction false} CombinationZero<T(!new)>(g: Group<T>, c: seq<int>, points: seq<T>)
    requires IsGroup(g) && |c| == |points| && forall i :: 0 <= i < |c| ==> c[i] == 0
    ensures Combination(g, c, points) == g.zero
  {
    if c != [] {
      CombinationZero(g, c[1..], points[1..]);
      Laws(g, g.zero, g.zero, g.zero);
    }
  }

  // ---------------------------------------------------------------- tables

  /** table[base..base + n] holds P, 3P, 5P, ... */
  ghost predicate OddMultiples<T>(g: Group<T>, table: seq<T>, base: nat, n: nat, P: T) {
    base + n <= |table| && forall j :: 0 <= j < n ==> table[base + j] == Mul(g, 2 * j + 1, P)
  }

  /** The four odd multiples of a variable base, by repeated addition of 2P. */
  method EccPrecompDouble<T(!new)>(g: Group<T>, P: T) returns (table: seq<T>)
    requires IsGroup(g)
    ensures |table| == 4 && OddMultiples(g, table, 0, 4, P)
    ensures table == [Mul(g, 1, P), Mul(g, 3, P), Mul(g, 5, P), Mul(g, 7, P)]
  {
    var t0 := P;
    var PP := g.add(P, P);
    var t1 := g.add(t0, PP);
    var t2 := g.add(t1, PP);
    var t3 := g.add(t2, PP);
    table := [t0, t1, t2, t3];
    MulOne(g, P);
    MulAdd(g, 1, 1, P);
    MulAdd(g, 1, 2, P);
    MulAdd(g, 3, 2, P);
    MulAdd(g, 5, 2, P);
  }

  /** Add or subtract the table entry that a digit selects; digit >> 1 indexes the odd multiple. */
  method AddDigit<T(!new)>(g: Group<T>, t: T, table: seq<T>, base: nat, d: int8, w: nat, ghost P: T) returns (t': T)
    requires IsGroup(g) && 2 <= w <= 8 && WindowDigit(d, w)
    requires OddMultiples(g, table, base, Pow2(w - 2), P)
    ensures t' == g.add(t, Mul(g, d, P))
  {
    DigitIndex(d, w);
    if d < 0 {
      var entry := table[base + -d / 2];
      MulNeg(g, -d, P);
      Laws(g, g.neg(entry), t, t);
      t' := g.add(g.neg(entry), t);
    } else if d > 0 {
      var entry := table[base + d / 2];
      Laws(g, entry, t, t);
      t' := g.add(entry, t);
    } else {
      Laws(g, t, t, t);
      t' := t;
    }
  }

  lemma DigitIndex(d: int, w: nat)
    requires 2 <= w <= 8 && WindowDigit(d, w)
    ensures d > 0 ==> d / 2 < Pow2(w - 2) && d == 2 * (d / 2) + 1
    ensures d < 0 ==> -d / 2 < Pow2(w - 2) && -d == 2 * (-d / 2) + 1
  {
    assert Pow2(w - 1) == 2 * Pow2(w - 2);
  }

  // ---------------------------------------------------------------- the loop

  /** Digits as `wNAF_recode` leaves them. */
  ghost predicate Naf(s: seq<int8>, scalar: int, w: nat)
    requires w >= 1
  {
    |s| == 65 && DigitSum(s) == scalar && forall i :: 0 <= i < 65 ==> WindowDigit(s[i], w)
  }

  /** Four full digit buffers. */
  ghost predicate Full(l: seq<seq<int8>>) {
    |l| == 4 && |l[0]| == 65 && |l[1]| == 65 && |l[2]| == 65 && |l[3]| == 65
  }

  /** What the digits from place i up contribute. */
  ghost function Tails(l: seq<seq<int8>>, k: seq<seq<int8>>, i: nat): seq<int>
    requires Full(l) && Full(k) && i <= 65
  {
    [DigitSum(l[0][i..]), DigitSum(l[1][i..]), DigitSum(l[2][i..]), DigitSum(l[3][i..]),
     DigitSum(k[0][i..]), DigitSum(k[1][i..]), DigitSum(k[2][i..]), DigitSum(k[3][i..])]
  }

  /** The accumulator after the first n of the digits d. */
  ghost function Accumulated<T>(g: Group<T>, d: seq<int8>, points: seq<T>, t: T, n: nat): T
    requires n <= |d| == |points|
  {
    if n == 0 then t else g.add(Accumulated(g, d, points, t, n - 1), Mul(g, d[n - 1], points[n - 1]))
  }

  /** Four digits of one column, each against its own table. */
  method AddFour<T(!new)>(g: Group<T>, t: T, tables: seq<seq<T>>, bases: seq<nat>, d: seq<int8>, w: nat, ghost points: seq<T>) returns (t': T)
    requires IsGroup(g) && 2 <= w <= 8
    requires |tables| == |bases| == |d| == |points| == 4
    requires forall m :: 0 <= m < 4 ==> WindowDigit(d[m], w) && OddMultiples(g, tables[m], bases[m], Pow2(w - 2), points[m])
    ensures t' == Accumulated(g, d, points, t, 4)
  {
    t' := AddDigit(g, t, tables[0], bases[0], d[0], w, points[0]);
    t' := AddDigit(g, t', tables[1], bases[1], d[1], w, points[1]);
    t' := AddDigit(g, t', tables[2], bases[2], d[2], w, points[2]);
    assert t' == Accumulated(g, d, points, t, 3) by {
      assert Accumulated(g, d, points, t, 1) == g.add(t, Mul(g, d[0], points[0]));
    }
    t' := AddDigit(g, t', tables[3], bases[3], d[3], w, points[3]);
  }

  /** The tables in use: odd multiples of each variable base Q[m] and, in one flat table, of each G[m]. */
  ghost predicate Tables<T>(g: Group<T>, qTables: seq<seq<T>>, dst: seq<T>, Q: seq<T>, G: seq<T>) {
    && |qTables| == |Q| == |G| == 4
    && (forall m :: 0 <= m < 4 ==> OddMultiples(g, qTables[m], 0, 4, Q[m]))
    && (forall m :: 0 <= m < 4 ==> OddMultiples(g, dst, 64 * m, 64, G[m]))
  }

  /** One column of digits added to the accumulator: four variable-base, then four fixed-base. */
  method AddColumn<T(!new)>(g: Group<T>, t: T, qTables: seq<seq<T>>, dst: seq<T>, l: seq<int8>, k: seq<int8>,
                            ghost c: seq<int>, ghost Q: seq<T>, ghost G: seq<T>) returns (t': T)
    requires IsGroup(g) && Tables(g, qTables, dst, Q, G)
    requires |c| == 8 && t == Combination(g, c, Q + G)
    requires |l| == 4 && forall m :: 0 <= m < 4 ==> WindowDigit(l[m], 4)
    requires |k| == 4 && forall m :: 0 <= m < 4 ==> WindowDigit(k[m], 8)
    ensures t' == Combination(g, AddDigits(c, l + k), Q + G)
  {
    assert Pow2(2) == 4 && Pow2(6) == 64;
    var u := AddFour(g, t, qTables, [0, 0, 0, 0], l, 4, Q);
    t' := AddFour(g, u, [dst, dst, dst, dst], [0, 64, 2 * 64, 3 * 64], k, 8, G);
    AccumulatedConcat(g, l, Q, k, G, t, 4);
    AccumulatedCombination(g, c, l + k, Q + G, t, 8);
    assert AddDigits(c, l + k)[..8] + c[8..] == AddDigits(c, l + k);
  }

  ghost function AddDigits(c: seq<int>, d: seq<int8>): (r: seq<int>)
    requires |c| == |d|
    ensures |r| == |c|
  {
    seq(|c|, i requires 0 <= i < |c| => c[i] + d[i])
  }

  lemma {:induction false} AccumulatedCombination<T(!new)>(g: Group<T>, c: seq<int>, d: seq<int8>, points: seq<T>, t: T, n: nat)
    requires IsGroup(g) && n <= |c| == |d| == |points| && t == Combination(g, c, points)
    ensures Accumulated(g, d, points, t, n) == Combination(g, AddDigits(c, d)[..n] + c[n..], points)
  {
    var s := AddDigits(c, d);
    if n == 0 {
      assert s[..0] + c[0..] == c;
    } else {
      AccumulatedCombination(g, c, d, points, t, n - 1);
      var before := s[..n - 1] + c[n - 1..];
      assert before[n - 1 := before[n - 1] + d[n - 1]] == s[..n] + c[n..];
      CombinationAdd(g, before, points, n - 1, d[n - 1]);
    }
  }

  lemma {:induction false} AccumulatedConcat<T>(g: Group<T>, l: seq<int8>, p: seq<T>, k: seq<int8>, q: seq<T>, t: T, n: nat)
    requires |l| == |p| && |k| == |q| && n <= |k|
    ensures Accumulated(g, l + k, p + q, t, |l| + n) == Accumulated(g, k, q, Accumulated(g, l, p, t, |l|), n)
  {
    if n == 0 {
      AccumulatedPrefix(g, l, p, k, q, t, |l|);
    } else {
      AccumulatedConcat(g, l, p, k, q, t, n - 1);
    }
  }

  lemma {:induction false} AccumulatedPrefix<T>(g: Group<T>, l: seq<int8>, p: seq<T>, k: seq<int8>, q: seq<T>, t: T, n: nat)
    requires |l| == |p| && |k| == |q| && n <= |l|
    ensures Accumulated(g, l + k, p + q, t, n) == Accumulated(g, l, p, t, n)
  {
    if n > 0 {
      AccumulatedPrefix(g, l, p, k, q, t, n - 1);
    }
  }

  lemma TailsStep(l: seq<seq<int8>>, k: seq<seq<int8>>, i: nat)
    requires Full(l) && Full(k) && i < 65
    ensures Tails(l, k, i) == AddDigits(Doubled(Tails(l, k, i + 1)), [l[0][i], l[1][i], l[2][i], l[3][i]] + [k[0][i], k[1][i], k[2][i], k[3][i]])
  {
    forall m | 0 <= m < 4
      ensures DigitSum(l[m][i..]) == l[m][i] + 2 * DigitSum(l[m][i + 1..])
      ensures DigitSum(k[m][i..]) == k[m][i] + 2 * DigitSum(k[m][i + 1..])
    {
      assert l[m][i..][1..] == l[m][i + 1..] && k[m][i..][1..] == k[m][i + 1..];
    }
  }

  /** The 65 interleaved double-and-add steps. */
  method Interleave<T(!new)>(g: Group<T>, qTables: seq<seq<T>>, dst: seq<T>, l: seq<seq<int8>>, k: seq<seq<int8>>,
                             ghost Q: seq<T>, ghost G: seq<T>) returns (t: T)
    requires IsGroup(g) && Tables(g, qTables, dst, Q, G)
    requires Full(l) && Full(k)
    requires forall m :: 0 <= m < 4 ==> Naf(l[m], DigitSum(l[m]), 4)
    requires forall m :: 0 <= m < 4 ==> Naf(k[m], DigitSum(k[m]), 8)
    ensures t == Combination(g, Tails(l, k, 0), Q + G)
  {
    hide Mul;
    hide WindowDigit;
    hide Combination;
    t := g.zero;
    CombinationZero(g, Tails(l, k, 65), Q + G);
    var i := 65;
    while i > 0
      invariant 0 <= i <= 65
      invariant t == Combination(g, Tails(l, k, i), Q + G)
    {
      i := i - 1;
      ghost var c := Tails(l, k, i + 1);
      CombinationDouble(g, c, Q + G);
      t := g.add(t, t);
      TailsStep(l, k, i);
      t := AddColumn(g, t, qTables, dst, [l[0][i], l[1][i], l[2][i], l[3][i]], [k[0][i], k[1][i], k[2][i], k[3][i]],
                     Doubled(c), Q, G);
    }
  }

  /** `decompose` recombines: the four sub-scalars write k against P and its images under the two
      endomorphisms. */
  ghost predicate Recombines<T>(g: Group<T>, scalars: seq<word>, k: int, points: seq<T>, P: T) {
    |scalars| == |points| == 4 && Combination(g, scalars, points) == Mul(g, k, P)
  }

  method Recode(scalar: word, w: nat) returns (digits: seq<int8>)
    requires 2 <= w <= 8
    ensures Naf(digits, scalar, w)
  {
    var buffer := new int8[65];
    WNafRecode(scalar, w, buffer);
    digits := buffer[..];
  }

  /** The combination of the sub-scalars with the images Q1..Q4 of Q and the fixed table's images of G, which is
      k·G + l·Q as soon as the sub-scalars recombine to k and l. */
  method EccMulDouble<T(!new)>(g: Group<T>, kScalars: seq<word>, lScalars: seq<word>, Q: seq<T>, dst: seq<T>,
                               ghost G: seq<T>, ghost k: int, ghost l: int) returns (t: T)
    requires IsGroup(g) && |Q| == |G| == 4 && |kScalars| == |lScalars| == 4
    requires forall m :: 0 <= m < 4 ==> OddMultiples(g, dst, 64 * m, 64, G[m])
    ensures t == g.add(Combination(g, kScalars, G), Combination(g, lScalars, Q))
    ensures Recombines(g, kScalars, k, G, G[0]) && Recombines(g, lScalars, l, Q, Q[0]) ==>
              t == g.add(Mul(g, k, G[0]), Mul(g, l, Q[0]))
  {
    hide Mul;
    hide DigitSum;
    hide OddMultiples;
    hide Naf;
    var k1 := Recode(kScalars[0], 8);
    var k2 := Recode(kScalars[1], 8);
    var k3 := Recode(kScalars[2], 8);
    var k4 := Recode(kScalars[3], 8);
    var l1 := Recode(lScalars[0], 4);
    var l2 := Recode(lScalars[1], 4);
    var l3 := Recode(lScalars[2], 4);
    var l4 := Recode(lScalars[3], 4);
    var t1 := EccPrecompDouble(g, Q[0]);
    var t2 := EccPrecompDouble(g, Q[1]);
    var t3 := EccPrecompDouble(g, Q[2]);
    var t4 := EccPrecompDouble(g, Q[3]);
    t := Interleave(g, [t1, t2, t3, t4], dst, [l1, l2, l3, l4], [k1, k2, k3, k4], Q, G);
    WholeTails([l1, l2, l3, l4], lScalars, [k1, k2, k3, k4], kScalars);
    CombinationConcat(g, lScalars, Q, kScalars, G);
    Laws(g, Combination(g, kScalars, G), Combination(g, lScalars, Q), g.zero);
  }

  lemma WholeTails(l: seq<seq<int8>>, lScalars: seq<word>, k: seq<seq<int8>>, kScalars: seq<word>)
    requires Full(l) && Full(k) && |lScalars| == |kScalars| == 4
    requires forall m :: 0 <= m < 4 ==> Naf(l[m], lScalars[m], 4)
    requires forall m :: 0 <= m < 4 ==> Naf(k[m], kScalars[m], 8)
    ensures Tails(l, k, 0) == lScalars + kScalars
  {
    assert forall m :: 0 <= m < 4 ==> l[m][0..] == l[m] && k[m][0..] == k[m];
  }

  lemma {:induction false} CombinationConcat<T(!new)>(g: Group<T>, c: seq<int>, p: seq<T>, d: seq<int>, q: seq<T>)
    requires IsGroup(g) && |c| == |p| && |d| == |q|
    ensures Combination(g, c + d, p + q) == g.add(Combination(g, c, p), Combination(g, d, q))
  {
    if c == [] {
      assert c + d == d && p + q == q;
      Laws(g, Combination(g, d, q), g.zero, g.zero);
    } else {
      assert (c + d)[1..] == c[1..] + d && (p + q)[1..] == p[1..] + q;
      CombinationConcat(g, c[1..], p[1..], d, q);
      Laws(g, Mul(g, c[0], p[0]), Combination(g, c[1..], p[1..]), Combination(g, d, q));
    }
  }

  // ---------------------------------------------------------------- cofactor clearing

  /** n doublings in a row. */
  method Doublings<T(!new)>(g: Group<T>, x: T, n: nat, ghost k: int, ghost R: T) returns (y: T)
    requires IsGroup(g) && x == Mul(g, k, R)
    ensures y == Mul(g, k * Pow2(n), R)
  {
    y := x;
    for i := 0 to n
      invariant y == Mul(g, k * Pow2(i), R)
    {
      MulAdd(g, k * Pow2(i), k * Pow2(i), R);
      y := g.add(y, y);
      assert k * Pow2(i + 1) == k * Pow2(i) + k * Pow2(i);
    }
  }

  /** 392 = 2^3 * 7^2 by the chain 2, 3, 48, 49, 392: eight doublings and two additions. */
  method CofactorClearing<T(!new)>(g: Group<T>, R: T) returns (r: T)
    requires IsGroup(g)
    ensures r == Mul(g, 392, R)
  {
    MulOne(g, R);
    assert Pow2(1) == 2 && Pow2(2) == 4 && Pow2(3) == 8 && Pow2(4) == 16;
    r := Doublings(g, R, 1, 1, R);
    MulAdd(g, 2, 1, R);
    r := g.add(r, R);
    r := Doublings(g, r, 4, 3, R);
    MulAdd(g, 48, 1, R);
    r := g.add(r, R);
    r := Doublings(g, r, 3, 49, R);
  }
}
