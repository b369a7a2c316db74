/** The addition chains of `fpexp1251` and `fpinv1271`, and why the result is the inverse. */
module FieldPower {
  import opened Words
  import opened ModArith
  import opened Field1271

  /** x^(2^n). */
  ghost function SquareN(x: int, n: nat): int {
    if n == 0 then x else SquareN(x, n - 1) * SquareN(x, n - 1)
  }

  /** a^(2^k - 1). */
  ghost function Ones(a: int, k: nat): int {
    if k == 0 then 1 else a * (Ones(a, k - 1) * Ones(a, k - 1))
  }

  lemma SameMul(x: int, y: int, x': int, y': int)
    requires Same(x, x') && Same(y, y')
    ensures Same(x * y, x' * y')
  {
    ModMulBoth(x, y, P);
    ModMulBoth(x', y', P);
  }

  lemma {:induction false} SameSquareN(x: int, y: int, n: nat)
    requires Same(x, y)
    ensures Same(SquareN(x, n), SquareN(y, n))
  {
    if n > 0 {
      SameSquareN(x, y, n - 1);
      SameMul(SquareN(x, n - 1), SquareN(x, n - 1), SquareN(y, n - 1), SquareN(y, n - 1));
    }
  }

  /** Squaring n times and multiplying appends n ones to the exponent. */
  lemma {:induction false} OnesAdd(a: int, k: nat, n: nat)
    ensures Ones(a, k + n) == SquareN(Ones(a, k), n) * Ones(a, n)
  {
    if n > 0 {
      OnesAdd(a, k, n - 1);
      var s, o := SquareN(Ones(a, k), n - 1), Ones(a, n - 1);
      SquareOfProduct(a, s, o);
      assert SquareN(Ones(a, k), n) == s * s;
    }
  }

  lemma SquareOfProduct(a: int, s: int, o: int)
    ensures a * ((s * o) * (s * o)) == (s * s) * (a * (o * o))
  {
    assert (s * o) * (s * o) == (s * s) * (o * o);
  }

  lemma OnesOne(a: int)
    ensures Ones(a, 1) == a
  {
    assert Ones(a, 0) == 1;
  }

  /** Square src n times into dst, which may be src. */
  method SquareTimes(src: array<word>, dst: array<word>, n: nat)
    requires Felm(src) && dst.Length == 2 && n >= 1
    modifies dst
    ensures Felm(dst) && Same(Fe(dst), SquareN(old(Fe(src)), n))
  {
    ghost var x := Fe(src);
    FpSqr1271(src, dst);
    assert SquareN(x, 1) == x * x;
    for i := 1 to n
      invariant Felm(dst) && Same(Fe(dst), SquareN(x, i))
    {
      ghost var y := Fe(dst);
      FpSqr1271(dst, dst);
      SameMul(y, y, SquareN(x, i), SquareN(x, i));
    }
  }

  /** t holds a to a run of k ones. */
  ghost predicate Holds(t: array<word>, a: int, k: nat)
    reads t
  {
    Felm(t) && Same(Fe(t), Ones(a, k))
  }

  /** dst = src^(2^n) * y, where src and y hold runs of k and n ones. */
  method Extend(src: array<word>, n: nat, y: array<word>, dst: array<word>, ghost a: int, ghost k: nat)
    requires Holds(src, a, k) && Holds(y, a, n) && dst.Length == 2 && y != dst && n >= 1
    modifies dst
    ensures Holds(dst, a, k + n)
  {
    ghost var x := Fe(src);
    SquareTimes(src, dst, n);
    SameSquareN(x, Ones(a, k), n);
    ghost var s := Fe(dst);
    FpMul1271(y, dst, dst);
    SameMul(Fe(y), s, Ones(a, n), SquareN(Ones(a, k), n));
    OnesAdd(a, k, n);
    assert Ones(a, n) * SquareN(Ones(a, k), n) == SquareN(Ones(a, k), n) * Ones(a, n);
  }

  /** The runs of 2, 4, 8, 16 and 32 ones, each from the one before. */
  method DoublingRuns(a: array<word>, t2: array<word>, t3: array<word>, t4: array<word>, t5: array<word>)
    requires Felm(a) && t2.Length == t3.Length == t4.Length == t5.Length == 2
    requires a != t2 && a != t3 && a != t4 && a != t5
    requires t3 != t4 && t4 != t5 && t3 != t5 && t2 != t3 && t2 != t4 && t2 != t5
    modifies t2, t3, t4, t5
    ensures Holds(t3, Fe(a), 4) && Holds(t4, Fe(a), 8) && Holds(t5, Fe(a), 16) && Holds(t2, Fe(a), 32)
  {
    ghost var x := Fe(a);
    OnesOne(x);
    assert Holds(a, x, 1);
    hide Holds;
    hide Felm;
    hide Fe;
    Extend(a, 1, a, t2, x, 1);
    Extend(t2, 2, t2, t3, x, 2);
    Extend(t3, 4, t3, t4, x, 4);
    Extend(t4, 8, t4, t5, x, 8);
    Extend(t5, 16, t5, t2, x, 16);
  }

  /** The run of 124 ones from the shorter ones. */
  method LongRun(t1: array<word>, t2: array<word>, t3: array<word>, t4: array<word>, t5: array<word>, ghost x: int)
    requires Holds(t2, x, 32) && Holds(t3, x, 4) && Holds(t4, x, 8) && Holds(t5, x, 16)
    requires t1.Length == 2 && t1 != t2 && t1 != t3 && t1 != t4 && t1 != t5
    modifies t1
    ensures Holds(t1, x, 124)
  {
    hide Holds;
    Extend(t2, 32, t2, t1, x, 32);
    Extend(t1, 32, t2, t1, x, 64);
    Extend(t1, 16, t5, t1, x, 96);
    Extend(t1, 8, t4, t1, x, 112);
    Extend(t1, 4, t3, t1, x, 120);
  }

  /** The run of 124 ones of a. */
  method LongRunOf(a: array<word>) returns (t1: array<word>)
    requires Felm(a)
    ensures fresh(t1) && Holds(t1, Fe(a), 124)
  {
    t1 := new word[2];
    var t2, t3, t4, t5 := new word[2], new word[2], new word[2], new word[2];
    DoublingRuns(a, t2, t3, t4, t5);
    LongRun(t1, t2, t3, t4, t5, Fe(a));
  }

  /** af = a^(2^125 - 1). */
  method FpExp1251(a: array<word>, af: array<word>)
    requires Felm(a) && af.Length == 2
    modifies af
    ensures Felm(af) && Same(Fe(af), Ones(old(Fe(a)), 125))
  {
    ghost var x := Fe(a);
    var t1 := LongRunOf(a);
    ExtendByOne(t1, a, af, x);
  }

  method ExtendByOne(t1: array<word>, a: array<word>, af: array<word>, ghost x: int)
    requires Holds(t1, x, 124) && Felm(a) && Fe(a) == x && af.Length == 2 && t1 != a && t1 != af
    modifies t1, af
    ensures Felm(af) && Same(Fe(af), Ones(x, 125))
  {
    SquareTimes(t1, t1, 1);
    SameSquareN(old(Fe(t1)), Ones(x, 124), 1);
    ghost var s := Fe(t1);
    FpMul1271(a, t1, af);
    SameMul(x, s, x, SquareN(Ones(x, 124), 1));
    OnesStep(x, 124);
  }

  lemma OnesStep(x: int, k: nat)
    ensures Ones(x, k + 1) == x * SquareN(Ones(x, k), 1)
  {
    assert SquareN(Ones(x, k), 1) == Ones(x, k) * Ones(x, k);
  }

  // ---------------------------------------------------------------- exponents

  /** b^e. The second rank keeps the verifier from computing it for a constant exponent. */
  ghost function Pow(b: int, e: nat): int
    decreases e, b
  {
    if e == 0 then 1 else b * Pow(b, e - 1)
  }

  lemma {:induction false} PowAdds(b: int, m: nat, n: nat)
    ensures Pow(b, m + n) == Pow(b, m) * Pow(b, n)
  {
    if m > 0 {
      PowAdds(b, m - 1, n);
      assert Pow(b, m - 1 + n) == Pow(b, m - 1) * Pow(b, n);
      assert b * (Pow(b, m - 1) * Pow(b, n)) == (b * Pow(b, m - 1)) * Pow(b, n);
    }
  }

  /** A run of k ones is the exponent 2^k - 1. */
  lemma {:induction false} OnesIsPow(a: int, k: nat)
    ensures Ones(a, k) == Pow(a, Pow2(k) - 1)
  {
    if k > 0 {
      OnesIsPow(a, k - 1);
      var e := Pow2(k - 1) - 1;
      PowAdds(a, e, e);
      assert Pow2(k) - 1 == e + e + 1;
    }
  }

  lemma {:induction false} SquareNIsPow(a: int, e: nat, n: nat, f: nat)
    requires f == e * Pow2(n)
    ensures SquareN(Pow(a, e), n) == Pow(a, f)
  {
    if n > 0 {
      var h := e * Pow2(n - 1);
      assert f == h + h && h >= 0;
      SquareNIsPow(a, e, n - 1, h);
      PowAdds(a, h, h);
    }
  }

  /** What `fpinv1271` computes is the power p - 2. */
  lemma InverseExponent(a: int, e: nat)
    requires e == P - 2
    ensures a * SquareN(Ones(a, 125), 2) == Pow(a, e)
  {
    OnesIsPow(a, 125);
    assert Pow2(2) == 4;
    Pow2Adds(125, 2);
    PisPow2();
    var o := Pow2(125) - 1;
    assert e == 1 + 4 * o;
    SquareNIsPow(a, o, 2, 4 * o);
  }

  lemma PisPow2()
    ensures P == Pow2(127) - 1
  {
    Pow2Is64();
    Pow2Adds(64, 63);
    assert Pow2(64) == 2 * Pow2(63);
  }
}
