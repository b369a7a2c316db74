/** Bytes, exclusive-or on naturals bit by bit, and little-endian lanes. */
module Bytes {
  import opened Words

  type byte = x: int | 0 <= x < 256

  // ---------------------------------------------------------------- exclusive or

  /** Exclusive or of the low n bits. */
  function XorBits(a: nat, b: nat, n: nat): nat
    decreases n, a
  {
    if n == 0 then 0 else (a % 2 + b % 2) % 2 + 2 * XorBits(a / 2, b / 2, n - 1)
  }

  lemma {:induction false} XorBound(a: nat, b: nat, n: nat)
    ensures XorBits(a, b, n) < Pow2(n)
    decreases n
  {
    if n > 0 {
      XorBound(a / 2, b / 2, n - 1);
    }
  }

  lemma {:induction false} XorZero(a: nat, n: nat)
    requires a < Pow2(n)
    ensures XorBits(a, 0, n) == a && XorBits(0, a, n) == a
    decreases n
  {
    if n > 0 {
      XorZero(a / 2, n - 1);
    }
  }

  lemma XorHalves(a: nat, b: nat, n: nat)
    requires n > 0
    ensures XorBits(a, b, n) % 2 == (a % 2 + b % 2) % 2
    ensures XorBits(a, b, n) / 2 == XorBits(a / 2, b / 2, n - 1)
  {
  }

  lemma {:induction false} XorAssociates(a: nat, b: nat, c: nat, n: nat)
    ensures XorBits(XorBits(a, b, n), c, n) == XorBits(a, XorBits(b, c, n), n)
    decreases n
  {
    if n > 0 {
      XorHalves(a, b, n);
      XorHalves(b, c, n);
      XorAssociates(a / 2, b / 2, c / 2, n - 1);
      AssociateStep(a, b, c, XorBits(a, b, n), XorBits(b, c, n), n);
    }
  }

  lemma BitsAssociate(a: nat, b: nat, c: nat)
    requires a < 2 && b < 2 && c < 2
    ensures ((a + b) % 2 + c) % 2 == (a + (b + c) % 2) % 2
  {
  }

  lemma AssociateStep(a: nat, b: nat, c: nat, x: nat, y: nat, n: nat)
    requires n > 0 && x % 2 == (a % 2 + b % 2) % 2 && y % 2 == (b % 2 + c % 2) % 2
    requires XorBits(x / 2, c / 2, n - 1) == XorBits(a / 2, y / 2, n - 1)
    ensures XorBits(x, c, n) == XorBits(a, y, n)
  {
    BitsAssociate(a % 2, b % 2, c % 2);
    assert XorBits(x, c, n) == (x % 2 + c % 2) % 2 + 2 * XorBits(x / 2, c / 2, n - 1);
    assert XorBits(a, y, n) == (a % 2 + y % 2) % 2 + 2 * XorBits(a / 2, y / 2, n - 1);
  }

  /** Exclusive or acts on the low n bits and the bits above separately. */
  lemma {:induction false} XorSplit(a: nat, b: nat, a': nat, b': nat, n: nat, m: nat)
    requires a < Pow2(n) && b < Pow2(n)
    ensures XorBits(a + Pow2(n) * a', b + Pow2(n) * b', n + m) == XorBits(a, b, n) + Pow2(n) * XorBits(a', b', m)
    decreases n
  {
    if n > 0 {
      var p := Pow2(n - 1);
      HalfOfSum(a, a', p);
      HalfOfSum(b, b', p);
      HalfOfSum(0, XorBits(a', b', m), p);
      XorSplit(a / 2, b / 2, a', b', n - 1, m);
      SplitStep(a + 2 * p * a', b + 2 * p * b', a, b, n, m, p * XorBits(a', b', m));
    } else {
      assert Pow2(n) * a' == a' && Pow2(n) * b' == b';
    }
  }

  lemma SplitStep(u: nat, v: nat, a: nat, b: nat, n: nat, m: nat, h: nat)
    requires n > 0 && u % 2 == a % 2 && v % 2 == b % 2
    requires XorBits(u / 2, v / 2, n - 1 + m) == XorBits(a / 2, b / 2, n - 1) + h
    ensures XorBits(u, v, n + m) == XorBits(a, b, n) + 2 * h
  {
  }

  lemma HalfOfSum(a: nat, b: nat, p: nat)
    ensures 2 * p * b == 2 * (p * b) && p * b >= 0
    ensures (a + 2 * p * b) % 2 == a % 2 && (a + 2 * p * b) / 2 == a / 2 + p * b
  {
  }

  /** Bit i of the exclusive or is the sum of the two bits modulo 2. */
  lemma {:induction false} XorBit(a: nat, b: nat, n: nat, i: nat)
    requires i < n
    ensures XorBits(a, b, n) / Pow2(i) % 2 == (a / Pow2(i) % 2 + b / Pow2(i) % 2) % 2
    decreases i
  {
    XorHalves(a, b, n);
    if i > 0 {
      XorBit(a / 2, b / 2, n - 1, i - 1);
      HalveFirst(a, Pow2(i - 1));
      HalveFirst(b, Pow2(i - 1));
      HalveFirst(XorBits(a, b, n), Pow2(i - 1));
    }
  }

  lemma HalveFirst(v: nat, p: nat)
    requires p > 0
    ensures v / 2 / p == v / (2 * p)
  {
    var a, q := v / 2, v / 2 / p;
    DivModUnique(v, 2 * p, q, a % p * 2 + v % 2);
  }

  function Xor(a: byte, b: byte): byte {
    XorBound(a, b, 8);
    PowersOf256();
    XorBits(a, b, 8)
  }

  lemma XorByteBit(a: byte, b: byte, i: nat)
    requires i < 8
    ensures Xor(a, b) / Pow2(i) % 2 == (a / Pow2(i) % 2 + b / Pow2(i) % 2) % 2
  {
    XorBit(a, b, 8, i);
  }

  lemma PowersOf256()
    ensures Pow2(8) == 256
  {
    assert Pow2(4) == 16;
    Pow2Adds(4, 4);
  }

  // ---------------------------------------------------------------- little-endian numbers

  /** The number whose little-endian bytes are b. */
  function Le(b: seq<byte>): nat {
    if b == [] then 0 else b[0] as int + 256 * Le(b[1..])
  }

  lemma {:induction false} LeBound(b: seq<byte>)
    ensures Le(b) < Pow2(8 * |b|)
  {
    if b != [] {
      LeBound(b[1..]);
      PowersOf256();
      Pow2Adds(8, 8 * (|b| - 1));
      assert 8 + 8 * (|b| - 1) == 8 * |b|;
    }
  }

  /** Eight bytes are a word. */
  lemma LeWord(b: seq<byte>)
    requires |b| == 8
    ensures Le(b) < W
  {
    LeBound(b);
    assert 8 * |b| == 64;
    Pow2Is64();
  }

  function ToBytes(x: nat, n: nat): (b: seq<byte>)
    ensures |b| == n
    decreases n, x
  {
    if n == 0 then [] else [x % 256] + ToBytes(x / 256, n - 1)
  }

  lemma {:induction false} ToBytesLe(b: seq<byte>)
    ensures ToBytes(Le(b), |b|) == b
  {
    if b != [] {
      ToBytesLe(b[1..]);
      assert Le(b) % 256 == b[0] && Le(b) / 256 == Le(b[1..]);
    }
  }

  lemma {:induction false} LeToBytes(x: nat, n: nat)
    requires x < Pow2(8 * n)
    ensures Le(ToBytes(x, n)) == x
    decreases n
  {
    if n > 0 {
      Pow2Adds(8, 8 * (n - 1));
      PowersOf256();
      LeToBytes(x / 256, n - 1);
      assert ToBytes(x, n)[1..] == ToBytes(x / 256, n - 1);
    }
  }

  ghost function Pow256(n: nat): nat {
    if n == 0 then 1 else 256 * Pow256(n - 1)
  }

  lemma {:induction false} Pow256Positive(n: nat)
    ensures Pow256(n) > 0
  {
    if n > 0 {
      Pow256Positive(n - 1);
    }
  }

  lemma DivideTwice(v: nat, p: nat)
    requires p > 0
    ensures v / 256 / p == v / (256 * p)
  {
    var a, q := v / 256, v / 256 / p;
    DivModUnique(v, 256 * p, q, a % p * 256 + v % 256);
  }

  /** Byte i of a number is its digit of weight 256^i. */
  lemma {:induction false} ToBytesDigit(x: nat, n: nat, i: nat)
    requires i < n
    ensures Pow256(i) > 0 && ToBytes(x, n)[i] == x / Pow256(i) % 256
    decreases i
  {
    Pow256Positive(i);
    if i > 0 {
      ToBytesDigit(x / 256, n - 1, i - 1);
      DivideTwice(x, Pow256(i - 1));
    }
  }

  lemma LeDigit(b: seq<byte>, i: nat)
    requires i < |b|
    ensures Pow256(i) > 0 && b[i] == Le(b) / Pow256(i) % 256
  {
    ToBytesLe(b);
    ToBytesDigit(Le(b), |b|, i);
  }

  function Zeros(n: nat): (z: seq<byte>)
    ensures |z| == n && forall i :: 0 <= i < n ==> z[i] == 0
  {
    seq(n, _ => 0)
  }

  lemma {:induction false} LeHighZeros(b: seq<byte>, n: nat)
    ensures Le(b + Zeros(n)) == Le(b)
  {
    if b == [] {
      assert b + Zeros(n) == Zeros(n);
      LeZeros(n);
    } else {
      assert (b + Zeros(n))[1..] == b[1..] + Zeros(n);
      LeHighZeros(b[1..], n);
    }
  }

  lemma {:induction false} LeZeros(n: nat)
    ensures Le(Zeros(n)) == 0
  {
    if n > 0 {
      assert Zeros(n)[1..] == Zeros(n - 1);
      LeZeros(n - 1);
    }
  }

  /** Shifting a number left by whole bytes puts zero bytes below it. */
  lemma {:induction false} LeLowZeros(n: nat, b: seq<byte>)
    ensures Le(Zeros(n) + b) == Pow2(8 * n) * Le(b)
  {
    if n == 0 {
      assert Zeros(n) + b == b;
    } else {
      assert (Zeros(n) + b)[1..] == Zeros(n - 1) + b;
      LeLowZeros(n - 1, b);
      ShiftOneMore(n, Le(b));
    }
  }

  lemma ShiftOneMore(n: nat, x: int)
    requires n > 0
    ensures Pow2(8 * n) * x == 256 * (Pow2(8 * (n - 1)) * x)
  {
    PowersOf256();
    Pow2Adds(8, 8 * (n - 1));
    MulAssociates(256, Pow2(8 * (n - 1)), x);
    assert 8 + 8 * (n - 1) == 8 * n;
  }

  lemma MulAssociates(a: int, b: int, c: int)
    ensures (a * b) * c == a * (b * c)
  {
  }

  function XorSeq(a: seq<byte>, b: seq<byte>): (c: seq<byte>)
    requires |a| == |b|
    ensures |c| == |a| && forall i :: 0 <= i < |a| ==> c[i] == Xor(a[i], b[i])
  {
    seq(|a|, i requires 0 <= i < |a| => Xor(a[i], b[i]))
  }

  /** Exclusive or of numbers is exclusive or of their bytes. */
  lemma {:induction false} XorLe(a: seq<byte>, b: seq<byte>)
    requires |a| == |b|
    ensures XorBits(Le(a), Le(b), 8 * |a|) == Le(XorSeq(a, b))
  {
    if a != [] {
      XorLe(a[1..], b[1..]);
      var n := |a| - 1;
      XorLowByte(a[0], b[0], Le(a[1..]), Le(b[1..]), 8 * n);
      assert 8 + 8 * n == 8 * |a|;
      assert XorSeq(a, b)[1..] == XorSeq(a[1..], b[1..]);
    }
  }

  lemma XorLowByte(a: byte, b: byte, a': nat, b': nat, n: nat)
    ensures XorBits(a + 256 * a', b + 256 * b', 8 + n) == Xor(a, b) + 256 * XorBits(a', b', n)
  {
    PowersOf256();
    XorSplit(a, b, a', b', 8, n);
  }

  lemma EightBytes(q: word, n: nat)
    requires n == 8
    ensures Le(ToBytes(q, n)) == q
  {
    Pow2Is64();
    LeToBytes(q, n);
  }
}
