/** Fixed-base scalar multiplication with a signed comb: 5 blocks of 16 table points, 50 columns. */
module Comb {
  import opened Words
  import opened ModArith
  import opened Limbs
  import opened Montgomery
  import opened CommutativeGroup

  /** `unsigned int`: a digit row holds 0, 1 and, for a negative sign, 2^32 - 1. */
  type uint32 = x: int | 0 <= x < 0x1_0000_0000
  const MINUS_ONE: uint32 := 0xFFFF_FFFF

  // ---------------------------------------------------------------- binary sums

  /** The sum of e[i] * 2^i. */
  ghost function Eval(e: seq<int>): int {
    if e == [] then 0 else e[0] + 2 * Eval(e[1..])
  }

  lemma {:induction false} EvalAppend(e: seq<int>, f: seq<int>)
    ensures Eval(e + f) == Eval(e) + Pow2(|e|) * Eval(f)
  {
    if e == [] {
      assert e + f == f;
    } else {
      EvalAppend(e[1..], f);
      assert (e + f)[1..] == e[1..] + f;
      TwoTimes(Pow2(|e| - 1), Eval(f));
    }
  }

  lemma TwoTimes(a: int, b: int)
    ensures 2 * (a * b) == (2 * a) * b
  {
  }

  /** x + k * y, element by element. */
  ghost function Scaled(x: seq<int>, k: int, y: seq<int>): (r: seq<int>)
    requires |x| == |y|
    ensures |r| == |x|
  {
    seq(|x|, i requires 0 <= i < |x| => x[i] + k * y[i])
  }

  lemma {:induction false} EvalScaled(x: seq<int>, k: int, y: seq<int>)
    requires |x| == |y|
    ensures Eval(Scaled(x, k, y)) == Eval(x) + k * Eval(y)
  {
    if x != [] {
      EvalScaled(x[1..], k, y[1..]);
      assert Scaled(x, k, y)[1..] == Scaled(x[1..], k, y[1..]);
      assert 2 * (k * Eval(y[1..])) + k * y[0] == k * (y[0] + 2 * Eval(y[1..]));
    }
  }

  /** The digits e[i], e[i + n], e[i + 2 n], ... weighted by the powers of 2^n. */
  ghost function ColumnSum(e: seq<int>, n: nat, i: nat): int
    requires n > 0
    decreases |e| - i
  {
    if i >= |e| then 0 else e[i] + Pow2(n) * ColumnSum(e, n, i + n)
  }

  /** Rows of n digits on top of each other, summed by columns. */
  ghost function Columns(e: seq<int>, n: nat): (r: seq<int>)
    requires n > 0
    ensures |r| == n
  {
    seq(n, i requires 0 <= i < n => ColumnSum(e, n, i))
  }

  lemma {:induction false} ColumnSumShift(e: seq<int>, n: nat, i: nat)
    requires 0 < n <= |e|
    ensures ColumnSum(e, n, n + i) == ColumnSum(e[n..], n, i)
    decreases |e| - i
  {
    if n + i < |e| {
      ColumnSumShift(e, n, i + n);
    }
  }

  lemma {:induction false} EvalZeros(n: nat)
    ensures Eval(seq(n, _ => 0)) == 0
  {
    if n > 0 {
      EvalZeros(n - 1);
      assert seq(n, _ => 0)[1..] == seq(n - 1, _ => 0);
    }
  }

  /** Summing by columns is summing by rows. */
  lemma {:induction false} EvalColumns(e: seq<int>, n: nat)
    requires n > 0 && |e| % n == 0
    ensures Eval(Columns(e, n)) == Eval(e)
    decreases |e|
  {
    if |e| < n {
      ModSmall(|e|, n);
      EvalZeros(n);
      assert Columns(e, n) == seq(n, _ => 0);
    } else {
      ModShift(|e|, -1, n);
      EvalColumns(e[n..], n);
      forall i | 0 <= i < n ensures ColumnSum(e, n, i) == e[i] + Pow2(n) * ColumnSum(e[n..], n, i) {
        ColumnSumShift(e, n, i);
      }
      assert Columns(e, n) == Scaled(e[..n], Pow2(n), Columns(e[n..], n));
      EvalScaled(e[..n], Pow2(n), Columns(e[n..], n));
      EvalAppend(e[..n], e[n..]);
      assert e == e[..n] + e[n..];
    }
  }

  // ---------------------------------------------------------------- limb steps

  lemma HalfWindow(lo: word, hi: word)
    ensures (lo + W * hi) / 2 % W == lo / 2 + hi % 2 * (W / 2)
  {
    DivModUnique(lo + W * hi, 2, lo / 2 + (W / 2) * hi, lo % 2);
    DivModUnique(lo / 2 + (W / 2) * hi, W, hi / 2, lo / 2 + hi % 2 * (W / 2));
  }

  method HalfFunnel(lo: word, hi: word) returns (r: word)
    ensures r == lo / 2 + hi % 2 * (W / 2)
  {
    r := ShiftRight128(lo, hi, 1);
    assert Pow2(1) == 2;
    HalfWindow(lo, hi);
  }

  /** Shift a four-word scalar right by one. */
  method ShiftRightOne(scalar: array<word>)
    requires scalar.Length == 4
    modifies scalar
    ensures Val(scalar[..]) == old(Val(scalar[..])) / 2
  {
    ghost var s := scalar[..];
    scalar[0] := HalfFunnel(scalar[0], scalar[1]);
    scalar[1] := HalfFunnel(scalar[1], scalar[2]);
    scalar[2] := HalfFunnel(scalar[2], scalar[3]);
    scalar[3] := scalar[3] / 2;
    HalfWordsValue(s, scalar[..]);
  }

  lemma HalfWordsValue(s: seq<word>, t: seq<word>)
    requires |s| == |t| == 4
    requires forall i :: 0 <= i < 3 ==> t[i] == s[i] / 2 + s[i + 1] % 2 * (W / 2)
    requires t[3] == s[3] / 2
    ensures Val(t) == Val(s) / 2
  {
    Val4(s);
    Val4(t);
    HalfNumber(s[0], s[1], s[2], s[3]);
    assert t[0] == s[0] / 2 + s[1] % 2 * (W / 2);
    assert t[1] == s[1] / 2 + s[2] % 2 * (W / 2);
    assert t[2] == s[2] / 2 + s[3] % 2 * (W / 2);
  }

  lemma HalfNumber(s0: int, s1: int, s2: int, s3: int)
    ensures (s0 + W * (s1 + W * (s2 + W * s3))) / 2
         == s0 / 2 + s1 % 2 * (W / 2) + W * (s1 / 2 + s2 % 2 * (W / 2) + W * (s2 / 2 + s3 % 2 * (W / 2) + W * (s3 / 2)))
  {
    HalfDigit(s0, s1 + W * (s2 + W * s3));
    HalfDigit(s1, s2 + W * s3);
    HalfDigit(s2, s3);
  }

  /** Halving moves the lowest bit of the rest down one digit. */
  lemma HalfDigit(x: int, rest: int)
    ensures (x + W * rest) / 2 == x / 2 + rest % 2 * (W / 2) + W * (rest / 2)
    ensures (x + W * rest) % 2 == x % 2
  {
    DivModUnique(x + W * rest, 2, x / 2 + (W / 2) * rest, x % 2);
  }

  lemma LowBit(s: seq<word>)
    requires |s| == 4
    ensures Val(s) % 2 == s[0] % 2
  {
    Val4(s);
  }

  /** The carry of a single added bit, found by testing each word for wrap-around to zero. */
  method AddBit(scalar: array<word>, temp: bit)
    requires scalar.Length == 4 && Val(scalar[..]) + temp < R
    modifies scalar
    ensures Val(scalar[..]) == old(Val(scalar[..])) + temp
  {
    hide Val;
    ghost var s := scalar[..];
    scalar[0] := (scalar[0] + temp) % W;
    var carry: bit := if scalar[0] != 0 then 0 else temp;
    var c1 := carry;
    scalar[1] := (scalar[1] + carry) % W;
    carry := if scalar[1] != 0 then 0 else carry;
    var c2 := carry;
    scalar[2] := (scalar[2] + carry) % W;
    carry := if scalar[2] != 0 then 0 else carry;
    scalar[3] := (scalar[3] + carry) % W;
    Ripple(s[0], temp);
    Ripple(s[1], c1);
    Ripple(s[2], c2);
    RippleSum(s, scalar[..], temp, c1, c2, carry);
  }

  lemma Ripple(x: word, c: bit)
    ensures (x + c) % W + W * (if (x + c) % W != 0 then 0 else c) == x + c
  {
  }

  lemma RippleSum(s: seq<word>, t: seq<word>, c0: bit, c1: bit, c2: bit, c3: bit)
    requires |s| == |t| == 4 && Val(s) + c0 < R
    requires t[0] + W * c1 == s[0] + c0
    requires t[1] + W * c2 == s[1] + c1
    requires t[2] + W * c3 == s[2] + c2
    requires t[3] == (s[3] + c3) % W
    ensures Val(t) == Val(s) + c0
  {
    hide Val;
    Val4(s);
    Val4(t);
    ghost var c4 := (s[3] + c3) / W;
    RippleNumber(s[0], s[1], s[2], s[3], t[0], t[1], t[2], t[3], c0, c1, c2, c3, c4, Val(s), Val(t));
    NoTopCarry(Val(t), Val(s) + c0, c4);
  }

  lemma NoTopCarry(t: nat, s: nat, c: nat)
    requires t + R * c == s < R
    ensures t == s
  {
  }

  lemma RippleNumber(s0: int, s1: int, s2: int, s3: int, t0: int, t1: int, t2: int, t3: int,
                     c0: int, c1: int, c2: int, c3: int, c4: int, s: int, t: int)
    requires t0 + W * c1 == s0 + c0 && t1 + W * c2 == s1 + c1 && t2 + W * c3 == s2 + c2 && t3 + W * c4 == s3 + c3
    requires s == s0 + W * (s1 + W * (s2 + W * s3)) && t == t0 + W * (t1 + W * (t2 + W * t3))
    ensures t + R * c4 == s + c0
  {
  }

  // ---------------------------------------------------------------- recoding

  /** The sign row's convention: zero is plus, all ones is minus. */
  function Sign(d: uint32): int {
    if d == 0 then 1 else -1
  }

  /** The signed digits: the sign row itself, then each later digit under its column's sign. */
  function Signed(s: seq<uint32>): (e: seq<int>)
    ensures |e| == |s|
  {
    seq(|s|, i requires 0 <= i < |s| => SignedDigit(s, i))
  }

  function SignedDigit(s: seq<uint32>, i: nat): int
    requires i < |s|
  {
    if i < 50 then Sign(s[i]) else Sign(s[i % 50]) * s[i]
  }

  /** A (partly filled) digit array: signs below 50, the top one plus, and bits above. */
  ghost predicate Shape(s: seq<uint32>) {
    && (forall i :: 0 <= i < |s| && i < 50 ==> s[i] == 0 || s[i] == MINUS_ONE)
    && (|s| > 49 ==> s[49] == 0)
    && (forall i :: 50 <= i < |s| ==> s[i] == 0 || s[i] == 1)
  }

  /** Invariant of the sign loop: s so far, v left of v0. */
  ghost predicate SignsSoFar(s: seq<uint32>, v: nat, v0: nat) {
    && |s| <= 49 && Shape(s)
    && 2 * v0 + 1 == Eval(Signed(s)) + Pow2(|s|) * (2 * v + 1)
    && v <= Pow2(246 - |s|)
  }

  function Room(i: nat): (b: nat) {
    if i <= 247 then Pow2(247 - i) else if i < 250 then 1 else 0
  }

  /** Invariant of the digit loop. */
  ghost predicate DigitsSoFar(s: seq<uint32>, v: nat, v0: nat) {
    && 50 <= |s| <= 250 && Shape(s)
    && 2 * v0 + 1 == Eval(Signed(s)) + Pow2(|s|) * v
    && v <= Room(|s|)
  }

  lemma SignedAppend(s: seq<uint32>, d: uint32)
    ensures Eval(Signed(s + [d])) == Eval(Signed(s))
         + Pow2(|s|) * (if |s| < 50 then Sign(d) else Sign(s[|s| % 50]) * d)
  {
    var x := SignedDigit(s + [d], |s|);
    SignedPrefix(s, d);
    EvalAppend(Signed(s), [x]);
    assert Eval([x]) == x;
  }

  lemma SignedPrefix(s: seq<uint32>, d: uint32)
    ensures Signed(s + [d]) == Signed(s) + [SignedDigit(s + [d], |s|)]
  {
    forall i | 0 <= i < |s| ensures SignedDigit(s + [d], i) == SignedDigit(s, i) {}
  }

  lemma SignStep(s: seq<uint32>, v: nat, v0: nat, d: uint32)
    requires SignsSoFar(s, v, v0) && |s| < 49
    requires d == if v % 2 == 0 then MINUS_ONE else 0
    ensures SignsSoFar(s + [d], v / 2, v0)
  {
    SignedAppend(s, d);
    Recombine(Pow2(|s|), 2, Pow2(|s| + 1), 2 * v + 1, Sign(d), 2 * (v / 2) + 1);
    assert Pow2(246 - |s|) == 2 * Pow2(246 - |s| - 1);
  }

  /** a * n = a * x + (a * b) * y when n = x + b * y. */
  lemma Recombine(a: int, b: int, ab: int, n: int, x: int, y: int)
    requires ab == a * b && n == x + b * y
    ensures a * n == a * x + ab * y
  {
    assert a * (b * y) == ab * y;
  }

  lemma TopSign(s: seq<uint32>, v: nat, v0: nat)
    requires SignsSoFar(s, v, v0) && |s| == 49
    ensures DigitsSoFar(s + [0], v, v0)
  {
    assert Pow2(50) == Pow2(49) * 2;
    hide Eval;
    hide Pow2;
    hide Shape;
    hide Signed;
    TopShape(s);
    SignedAppend(s, 0);
    Recombine(Pow2(49), 2, Pow2(50), 2 * v + 1, 1, v);
  }

  lemma TopShape(s: seq<uint32>)
    requires Shape(s) && |s| == 49
    ensures Shape(s + [0])
  {
  }

  lemma DigitStep(s: seq<uint32>, v: nat, v0: nat, d: bit, v': nat)
    requires DigitsSoFar(s, v, v0) && |s| < 250 && d == v % 2
    requires v' == v / 2 + (if s[|s| % 50] == 0 then 0 else d)
    ensures DigitsSoFar(s + [d], v', v0)
  {
    var b := Sign(s[|s| % 50]);
    SignedAppend(s, d);
    Recombine(Pow2(|s|), 2, Pow2(|s| + 1), v, b * d, v');
    RoomStep(|s|, v);
    assert (s + [d])[49] == s[49];
  }

  /** The scalar shrinks to at most one, which the plus sign of the last column absorbs. */
  lemma RoomStep(i: nat, v: nat)
    requires 50 <= i < 250 && v <= Room(i)
    ensures i < 249 ==> (v + 1) / 2 <= Room(i + 1)
    ensures i == 249 ==> v / 2 <= Room(i + 1)
  {
    if i < 247 {
      assert Pow2(247 - i) == 2 * Pow2(247 - i - 1);
    } else {
      assert Pow2(0) == 1;
    }
  }

  lemma SignsStart(v0: nat)
    requires v0 <= Pow2(246)
    ensures SignsSoFar([], v0, v0)
  {
    assert Signed([]) == [];
  }

  lemma RecodingDone(s: seq<uint32>, v: nat, v0: nat)
    requires |s| == 250 && DigitsSoFar(s, v, v0)
    ensures Shape(s) && v == 0 && Eval(Signed(s)) == 2 * v0 + 1
  {
  }

  /** Fill the digit rows from the halved odd scalar, which ends up exactly used. */
  method CombRecode(scalar: array<word>, digits: array<uint32>)
    requires scalar.Length == 4 && digits.Length == 250
    requires Val(scalar[..]) <= Pow2(246)
    modifies scalar, digits
    ensures Shape(digits[..])
    ensures Eval(Signed(digits[..])) == 2 * old(Val(scalar[..])) + 1
    ensures Val(scalar[..]) == 0
  {
    hide Val;
    hide Eval;
    ghost var v0 := Val(scalar[..]);
    SignsStart(v0);
    assert digits[..0] == [];
    for i := 0 to 49
      invariant SignsSoFar(digits[..i], Val(scalar[..]), v0)
    {
      SignRowStep(scalar, digits, i, v0);
    }
    TopSignStep(scalar, digits, v0);
    for i := 50 to 250
      invariant DigitsSoFar(digits[..i], Val(scalar[..]), v0)
    {
      DigitRowStep(scalar, digits, i, v0);
    }
    assert digits[..250] == digits[..];
    RecodingDone(digits[..], Val(scalar[..]), v0);
  }

  method SignRowStep(scalar: array<word>, digits: array<uint32>, i: nat, ghost v0: nat)
    requires scalar.Length == 4 && digits.Length == 250 && i < 49
    requires SignsSoFar(digits[..i], Val(scalar[..]), v0)
    modifies scalar, digits
    ensures SignsSoFar(digits[..i + 1], Val(scalar[..]), v0)
  {
    ghost var s, v := digits[..i], Val(scalar[..]);
    LowBit(scalar[..]);
    digits[i] := (scalar[0] as int % 2 - 1) % 0x1_0000_0000;
    ShiftRightOne(scalar);
    SignStep(s, v, v0, digits[i]);
    assert digits[..i + 1] == s + [digits[i]];
  }

  method TopSignStep(scalar: array<word>, digits: array<uint32>, ghost v0: nat)
    requires scalar.Length == 4 && digits.Length == 250
    requires SignsSoFar(digits[..49], Val(scalar[..]), v0)
    modifies digits
    ensures DigitsSoFar(digits[..50], Val(scalar[..]), v0)
  {
    digits[49] := 0;
    assert digits[..50] == digits[..49] + [0];
    TopSign(digits[..49], Val(scalar[..]), v0);
  }

  method DigitRowStep(scalar: array<word>, digits: array<uint32>, i: nat, ghost v0: nat)
    requires scalar.Length == 4 && digits.Length == 250 && 50 <= i < 250
    requires DigitsSoFar(digits[..i], Val(scalar[..]), v0)
    modifies scalar, digits
    ensures DigitsSoFar(digits[..i + 1], Val(scalar[..]), v0)
  {
    ghost var s, v := digits[..i], Val(scalar[..]);
    LowBit(scalar[..]);
    ValBound(scalar[..]);
    Powers();
    digits[i] := scalar[0] % 2;
    ShiftRightOne(scalar);
    var row := digits[i - i / 50 * 50];
    var temp := (0 - row as int) % 0x1_0000_0000 * digits[i];
    AddBit(scalar, temp);
    DigitStep(s, v, v0, digits[i], Val(scalar[..]));
    assert digits[..i + 1] == s + [digits[i]];
  }

  // ---------------------------------------------------------------- evaluation

  /** The odd multiple that four digits of a column add to the sign row. */
  ghost function Weight(d1: int, d2: int, d3: int, d4: int): int {
    1 + Pow2(50) * (d1 + Pow2(50) * (d2 + Pow2(50) * (d3 + Pow2(50) * d4)))
  }

  /** What FIXED_BASE_TABLE holds in block v for the digits d4 d3 d2 d1. */
  ghost predicate CombEntry<T>(g: Group<T>, table: seq<T>, G: T, v: nat, d1: bit, d2: bit, d3: bit, d4: bit)
    requires |table| == 80 && v < 5
  {
    table[16 * v + (8 * d4 + 4 * d3 + 2 * d2 + d1)] == Mul(g, Pow2(10 * v) * Weight(d1, d2, d3, d4), G)
  }

  ghost predicate CombTable<T>(g: Group<T>, table: seq<T>, G: T) {
    |table| == 80
    && forall v: nat, d1: bit, d2: bit, d3: bit, d4: bit | v < 5 :: CombEntry(g, table, G, v, d1, d2, d3, d4)
  }

  /** The table's entries in numbers: block v, digits d1 (lowest) to d4. */
  lemma TableInNumbers<T(!new)>(g: Group<T>, table: seq<T>, G: T, v: nat, d1: bit, d2: bit, d3: bit, d4: bit)
    requires CombTable(g, table, G) && v < 5
    ensures table[16 * v + d1 + 2 * d2 + 4 * d3 + 8 * d4]
         == Mul(g, Pow2(10 * v) * (1 + Pow2(50) * d1 + Pow2(100) * d2 + Pow2(150) * d3 + Pow2(200) * d4), G)
  {
    hide Pow2;
    hide Mul;
    assert CombEntry(g, table, G, v, d1, d2, d3, d4);
    WeightSum(d1, d2, d3, d4);
  }

  lemma WeightSum(d1: int, d2: int, d3: int, d4: int)
    ensures Weight(d1, d2, d3, d4) == 1 + Pow2(50) * d1 + Pow2(100) * d2 + Pow2(150) * d3 + Pow2(200) * d4
  {
    hide Pow2;
    Pow2Adds(50, 50);
    Pow2Adds(50, 100);
    Pow2Adds(50, 150);
    NestedPowers(Pow2(50), Pow2(100), Pow2(150), Pow2(200), d1, d2, d3, d4);
  }

  lemma NestedPowers(p: int, p2: int, p3: int, p4: int, d1: int, d2: int, d3: int, d4: int)
    requires p2 == p * p && p3 == p * p2 && p4 == p * p3
    ensures p * (d1 + p * (d2 + p * (d3 + p * d4))) == p * d1 + p2 * d2 + p3 * d3 + p4 * d4
  {
    NestedOnce(p, p, p2, d4, 0, d3);
    NestedOnce(p, p, p2, d3, p2 * d4, d2);
    NestedOnce(p, p2, p3, d4, 0, 0);
    NestedOnce(p, p, p2, d2, p2 * d3 + p3 * d4, d1);
    NestedOnce(p, p2, p3, d3, p3 * d4, 0);
    NestedOnce(p, p3, p4, d4, 0, 0);
  }

  lemma NestedOnce(p: int, q: int, pq: int, x: int, rest: int, d: int)
    requires pq == p * q
    ensures p * (d + (q * x + rest)) == p * d + (pq * x + p * rest)
  {
    assert p * (q * x) == pq * x;
  }

  /** The signed value of each of the 50 columns. */
  ghost function ColumnValues(s: seq<uint32>): (c: seq<int>)
    requires |s| == 250
    ensures |c| == 50
  {
    Columns(Signed(s), 50)
  }

  /** The value of each of the ten groups of five columns evaluated between doublings. */
  ghost function BlockValues(s: seq<uint32>): (c: seq<int>)
    requires |s| == 250
    ensures |c| == 10
  {
    Columns(ColumnValues(s), 10)
  }

  lemma BlocksEvaluate(s: seq<uint32>)
    requires |s| == 250
    ensures Eval(BlockValues(s)) == Eval(Signed(s))
  {
    EvalColumns(Signed(s), 50);
    EvalColumns(ColumnValues(s), 10);
  }

  /** Five rows, column by column. */
  lemma FiveRows(e: seq<int>, n: nat, i: nat)
    requires n > 0 && |e| == n + n + n + n + n && i < n
    ensures Columns(e, n)[i]
         == e[i] + Pow2(n) * (e[n + i] + Pow2(n) * (e[2 * n + i] + Pow2(n) * (e[3 * n + i] + Pow2(n) * e[4 * n + i])))
  {
    assert ColumnSum(e, n, 5 * n + i) == 0;
    Nested(Pow2(n), ColumnSum(e, n, i), ColumnSum(e, n, i + n), ColumnSum(e, n, i + n + n), ColumnSum(e, n, i + n + n + n),
           ColumnSum(e, n, i + n + n + n + n), e[i], e[n + i], e[2 * n + i], e[3 * n + i], e[4 * n + i]);
  }

  lemma Nested(p: int, c0: int, c1: int, c2: int, c3: int, c4: int, e0: int, e1: int, e2: int, e3: int, e4: int)
    requires c0 == e0 + p * c1 && c1 == e1 + p * c2 && c2 == e2 + p * c3 && c3 == e3 + p * c4 && c4 == e4
    ensures c0 == e0 + p * (e1 + p * (e2 + p * (e3 + p * e4)))
  {
  }

  lemma ColumnWeight(s: seq<uint32>, i: nat)
    requires |s| == 250 && i < 50
    ensures ColumnValues(s)[i] == Sign(s[i]) * Weight(s[50 + i], s[100 + i], s[150 + i], s[200 + i])
  {
    hide Pow2;
    hide ColumnSum;
    var e, b := Signed(s), Sign(s[i]);
    FiveRows(e, 50, i);
    assert e[50 + i] == b * s[50 + i] && e[100 + i] == b * s[100 + i];
    assert e[150 + i] == b * s[150 + i] && e[200 + i] == b * s[200 + i];
    SignedWeight(Pow2(50), b, s[50 + i], s[100 + i], s[150 + i], s[200 + i]);
  }

  lemma SignedWeight(p: int, b: int, d1: int, d2: int, d3: int, d4: int)
    ensures b + p * (b * d1 + p * (b * d2 + p * (b * d3 + p * (b * d4)))) == b * (1 + p * (d1 + p * (d2 + p * (d3 + p * d4))))
  {
    FactorSign(p, b, d3, d4);
    FactorSign(p, b, d2, d3 + p * d4);
    FactorSign(p, b, d1, d2 + p * (d3 + p * d4));
    FactorSign(p, b, 1, d1 + p * (d2 + p * (d3 + p * d4)));
  }

  lemma FactorSign(p: int, b: int, x: int, y: int)
    ensures b * x + p * (b * y) == b * (x + p * y)
  {
    assert p * (b * y) == b * (p * y);
  }

  /** A table entry, negated under a minus sign. */
  function TableLookup<T>(g: Group<T>, table: seq<T>, digit: nat, sign: uint32): T
    requires digit < |table|
  {
    if sign != 0 then g.neg(table[digit]) else table[digit]
  }

  /** The entry of block v that column 10 v + c selects. */
  function ColumnLookup<T>(g: Group<T>, table: seq<T>, s: seq<uint32>, v: nat, c: nat): T
    requires |table| == 80 && |s| == 250 && Shape(s) && v < 5 && c < 10
  {
    var i := 10 * v + c;
    TableLookup(g, table, 16 * v + (((s[200 + i] * 2 + s[150 + i]) * 2 + s[100 + i]) * 2) + s[50 + i], s[i])
  }

  /** Every index falls in its own block of sixteen, and the entry there is the column's multiple of G. */
  lemma LookupValue<T(!new)>(g: Group<T>, table: seq<T>, s: seq<uint32>, v: nat, c: nat, G: T)
    requires IsGroup(g) && CombTable(g, table, G) && |s| == 250 && Shape(s) && v < 5 && c < 10
    ensures ColumnLookup(g, table, s, v, c) == Mul(g, BlockTerm(s, c, v), G)
  {
    var i := 10 * v + c;
    var d1, d2, d3, d4 := s[50 + i], s[100 + i], s[150 + i], s[200 + i];
    assert CombEntry(g, table, G, v, d1, d2, d3, d4);
    ColumnWeight(s, i);
    SignedEntry(g, Pow2(10 * v), Weight(d1, d2, d3, d4), Sign(s[i]), G);
  }

  lemma SignedEntry<T(!new)>(g: Group<T>, p: int, weight: int, b: int, G: T)
    requires IsGroup(g) && (b == 1 || b == -1)
    ensures Mul(g, p * (b * weight), G) == if b == -1 then g.neg(Mul(g, p * weight, G)) else Mul(g, p * weight, G)
  {
    if b == -1 {
      MulNeg(g, p * weight, G);
      assert p * (b * weight) == -(p * weight);
    } else {
      assert b * weight == weight;
    }
  }

  ghost function BlockTerm(s: seq<uint32>, c: nat, v: nat): int
    requires |s| == 250 && c < 10 && v < 5
  {
    Pow2(10 * v) * ColumnValues(s)[10 * v + c]
  }

  ghost function Sum(terms: seq<int>, n: nat): int
    requires n <= |terms|
  {
    if n == 0 then 0 else Sum(terms, n - 1) + terms[n - 1]
  }

  /** terms says which multiples of G the five lookups of column group c select. */
  ghost predicate Selects<T>(g: Group<T>, table: seq<T>, s: seq<uint32>, c: nat, terms: seq<int>, G: T)
    requires |table| == 80 && |s| == 250 && Shape(s) && c < 10
  {
    |terms| == 5 && forall v :: 0 <= v < 5 ==> ColumnLookup(g, table, s, v, c) == Mul(g, terms[v], G)
  }

  /** ... and that they add up to the group's value. */
  ghost predicate SelectsBlock<T>(g: Group<T>, table: seq<T>, s: seq<uint32>, c: nat, terms: seq<int>, block: int, G: T)
    requires |table| == 80 && |s| == 250 && Shape(s) && c < 10
  {
    Selects(g, table, s, c, terms, G) && Sum(terms, 5) == block
  }

  ghost function Terms(s: seq<uint32>, c: nat): (t: seq<int>)
    requires |s| == 250 && c < 10
    ensures |t| == 5
  {
    [BlockTerm(s, c, 0), BlockTerm(s, c, 1), BlockTerm(s, c, 2), BlockTerm(s, c, 3), BlockTerm(s, c, 4)]
  }

  lemma TermsSelect<T(!new)>(g: Group<T>, table: seq<T>, s: seq<uint32>, c: nat, G: T)
    requires IsGroup(g) && CombTable(g, table, G) && |s| == 250 && Shape(s) && c < 10
    ensures Selects(g, table, s, c, Terms(s, c), G)
  {
    hide Mul;
    hide TableLookup;
    hide BlockTerm;
    hide CombTable;
    LookupValue(g, table, s, 0, c, G);
    LookupValue(g, table, s, 1, c, G);
    LookupValue(g, table, s, 2, c, G);
    LookupValue(g, table, s, 3, c, G);
    LookupValue(g, table, s, 4, c, G);
  }

  lemma TermsSum(s: seq<uint32>, c: nat)
    requires |s| == 250 && c < 10
    ensures Sum(Terms(s, c), 5) == BlockValues(s)[c]
  {
    hide Pow2;
    hide ColumnSum;
    var e := ColumnValues(s);
    FiveRows(e, 10, c);
    PowersOfTen();
    Horner(Pow2(10), e[c], e[10 + c], e[20 + c], e[30 + c], e[40 + c]);
    SumFive(Terms(s, c));
  }

  lemma PowersOfTen()
    ensures var p := Pow2(10); Pow2(0) == 1 && Pow2(20) == p * p && Pow2(30) == p * p * p && Pow2(40) == p * p * p * p
  {
    Pow2Adds(10, 10);
    Pow2Adds(20, 10);
    Pow2Adds(30, 10);
  }

  lemma SumFive(t: seq<int>)
    requires |t| == 5
    ensures Sum(t, 5) == t[0] + t[1] + t[2] + t[3] + t[4]
  {
    assert Sum(t, 1) == t[0];
    assert Sum(t, 2) == Sum(t, 1) + t[1];
    assert Sum(t, 4) == Sum(t, 2) + t[2] + t[3];
  }

  lemma Horner(p: int, e0: int, e1: int, e2: int, e3: int, e4: int)
    ensures e0 + p * (e1 + p * (e2 + p * (e3 + p * e4))) == e0 + p * e1 + (p * p) * e2 + (p * p * p) * e3 + (p * p * p * p) * e4
  {
    OneLevel(p, p * p, e3, e4);
    OneLevel(p, p, e2, e3 + p * e4);
    OneLevel(p, 1, e1, e2 + p * (e3 + p * e4));
    OneLevel(p, p * p * p, e4, 0);
    Shift(p, p, e3 + p * e4);
    Shift(p, p * p, e4);
  }

  lemma OneLevel(p: int, q: int, x: int, rest: int)
    ensures q * (p * (x + p * rest)) == (q * p) * x + (q * p) * (p * rest)
  {
  }

  lemma Shift(p: int, q: int, x: int)
    ensures (p * q) * x == p * (q * x) == q * (p * x)
  {
  }

  /** Add the entries of blocks v0 - 1 down to 0 for column group c. */
  method AddBlocks<T(!new)>(g: Group<T>, table: seq<T>, s: seq<uint32>, c: nat, v0: nat, start: T,
                            ghost k: int, ghost terms: seq<int>, ghost G: T) returns (P: T)
    requires IsGroup(g) && |table| == 80 && |s| == 250 && Shape(s) && c < 10 && v0 <= 5
    requires start == Mul(g, k, G) && Selects(g, table, s, c, terms, G)
    ensures P == Mul(g, k + Sum(terms, v0), G)
  {
    P := start;
    var v := v0;
    ghost var sum := k;
    while v > 0
      invariant 0 <= v <= v0
      invariant sum + Sum(terms, v) == k + Sum(terms, v0)
      invariant P == Mul(g, sum, G)
    {
      v := v - 1;
      var S := ColumnLookup(g, table, s, v, c);
      MulAdd(g, sum, terms[v], G);
      P := g.add(P, S);
      sum := sum + terms[v];
    }
  }

  lemma EvalFrom(e: seq<int>, k: nat)
    requires k < |e|
    ensures Eval(e[k..]) == e[k] + 2 * Eval(e[k + 1..])
  {
    assert e[k..][1..] == e[k + 1..];
  }

  /** Ten groups of five additions, a doubling between groups. The first lookup starts the
      accumulator: its sign digit is always plus. */
  method CombEvaluate<T(!new)>(g: Group<T>, table: seq<T>, s: seq<uint32>, ghost terms: seq<seq<int>>, ghost blocks: seq<int>, ghost G: T)
    returns (P: T)
    requires IsGroup(g) && |table| == 80 && |s| == 250 && Shape(s) && |terms| == |blocks| == 10
    requires forall c :: 0 <= c < 10 ==> SelectsBlock(g, table, s, c, terms[c], blocks[c], G)
    ensures P == Mul(g, Eval(blocks), G)
  {
    hide Mul;
    hide ColumnLookup;
    hide Shape;
    assert Sum(terms[9], 5) == Sum(terms[9], 4) + terms[9][4];
    EvalFrom(blocks, 9);
    assert blocks[10..] == [] && Eval([]) == 0;
    hide Eval;
    hide Sum;
    P := ColumnLookup(g, table, s, 4, 9);
    P := AddBlocks(g, table, s, 9, 4, P, terms[9][4], terms[9], G);
    var c := 9;
    while c > 0
      invariant 0 <= c <= 9
      invariant P == Mul(g, Eval(blocks[c..]), G)
    {
      c := c - 1;
      ghost var k := Eval(blocks[c + 1..]);
      MulAdd(g, k, k, G);
      P := g.add(P, P);
      P := AddBlocks(g, table, s, c, 5, P, 2 * k, terms[c], G);
      EvalFrom(blocks, c);
    }
    assert blocks[0..] == blocks;
  }

  lemma CombTerms<T(!new)>(g: Group<T>, table: seq<T>, s: seq<uint32>, G: T) returns (terms: seq<seq<int>>, blocks: seq<int>)
    requires IsGroup(g) && CombTable(g, table, G) && |s| == 250 && Shape(s)
    ensures |terms| == |blocks| == 10
    ensures forall c :: 0 <= c < 10 ==> SelectsBlock(g, table, s, c, terms[c], blocks[c], G)
    ensures Eval(blocks) == Eval(Signed(s))
  {
    terms, blocks := seq(10, c requires 0 <= c < 10 => Terms(s, c)), BlockValues(s);
    forall c | 0 <= c < 10
      ensures SelectsBlock(g, table, s, c, terms[c], blocks[c], G)
    {
      TermsSelect(g, table, s, c, G);
      TermsSum(s, c);
    }
    BlocksEvaluate(s);
  }

  // ---------------------------------------------------------------- the whole multiplication

  lemma OddScalarFits()
    ensures ORDER <= Pow2(246) && ORDER % 2 == 1
  {
    assert Pow2(3) == 8;
    Pow2Is64();
    Pow2Adds(64, 64);
    Pow2Adds(128, 64);
    Pow2Adds(192, 54);
    assert Pow2(54) == 0x40_0000_0000_0000 by {
      assert Pow2(9) == 512;
      Pow2Adds(9, 9);
      Pow2Adds(18, 9);
      Pow2Adds(27, 27);
    }
  }

  /** scalar = k modulo the order, by two Montgomery products. */
  method ReduceModOrder(k: array<word>, scalar: array<word>)
    requires k.Length >= 4 && scalar.Length >= 4
    modifies scalar
    ensures Val(scalar[..4]) == old(Val(k[..4])) % ORDER
    ensures scalar[4..] == old(scalar[4..])
  {
    var rprime := new word[4](i requires 0 <= i < 4 => MONTGOMERY_RPRIME[i]);
    var one := new word[4](i requires 0 <= i < 4 => ONE[i]);
    assert rprime[..4] == MONTGOMERY_RPRIME && one[..4] == ONE;
    ConstantValues();
    ghost var k0 := Val(k[..4]);
    MontgomeryMultiplyUnrolled(k, rprime, scalar);
    assert one[..4] == ONE;
    MontgomeryMultiplyUnrolled(scalar, one, scalar);
    ReductionByMontgomery(k0);
  }

  method AddOrder(scalar: array<word>)
    requires scalar.Length == 4 && Val(scalar[..]) < ORDER
    modifies scalar
    ensures Val(scalar[..]) == old(Val(scalar[..])) + ORDER
  {
    var carry, z := AddChain(0, scalar[..], CURVE_ORDER);
    scalar[0], scalar[1], scalar[2], scalar[3] := z[0], z[1], z[2], z[3];
    assert scalar[..] == z;
    OrderValue();
    ValBound(z);
    Powers();
  }

  /** An odd scalar of the same residue. */
  method MakeOdd(scalar: array<word>, ghost r: nat) returns (ghost m: int)
    requires scalar.Length == 4 && Val(scalar[..]) == r < ORDER
    modifies scalar
    ensures Val(scalar[..]) == r + ORDER * m && Val(scalar[..]) % 2 == 1 && Val(scalar[..]) < 2 * ORDER
  {
    hide Val;
    OddScalarFits();
    LowBit(scalar[..]);
    m := 0;
    if scalar[0] % 2 == 0 {
      AddOrder(scalar);
      m := 1;
    }
  }

  /** Make the scalar odd, adding the order to an even one, and drop its low bit. */
  method HalveOdd(scalar: array<word>, ghost r: nat) returns (ghost m: int)
    requires scalar.Length == 4 && Val(scalar[..]) == r < ORDER
    modifies scalar
    ensures 2 * Val(scalar[..]) + 1 == r + ORDER * m && Val(scalar[..]) <= Pow2(246)
  {
    hide Val;
    OddScalarFits();
    m := MakeOdd(scalar, r);
    ShiftRightOne(scalar);
  }

  /** k·G for any 256-bit k. */
  method EccMulFixed<T(!new)>(g: Group<T>, k: array<word>, table: seq<T>, ghost G: T) returns (P: T)
    requires IsGroup(g) && CombTable(g, table, G) && k.Length >= 4
    requires Mul(g, ORDER, G) == g.zero
    ensures P == Mul(g, Val(k[..4]) % ORDER, G)
  {
    ghost var r := Val(k[..4]) % ORDER;
    var scalar := new word[4];
    var digits := new uint32[250];
    ReduceModOrder(k, scalar);
    assert scalar[..4] == scalar[..];
    ghost var m := HalveOdd(scalar, r);
    CombRecode(scalar, digits);
    ghost var terms, blocks := CombTerms(g, table, digits[..], G);
    P := CombEvaluate(g, table, digits[..], terms, blocks, G);
    MulModulo(g, r, m, ORDER, G);
  }
}
