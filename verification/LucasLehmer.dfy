/** 2^127 - 1 is prime: the Lucas-Lehmer test, by the powers of 2 + sqrt(3). */
module LucasLehmer {
  import opened Words
  import opened ModArith
  import opened Field1271
  import opened FieldPower
  import opened Fermat
  import opened Wrappers

  // ---------------------------------------------------------------- powers of 2 + sqrt(3)

  /** (2 + sqrt(3))^k is X(k) + Y(k) sqrt(3). */
  ghost function X(k: nat): int {
    if k == 0 then 1 else 2 * X(k - 1) + 3 * Y(k - 1)
  }

  ghost function Y(k: nat): int {
    if k == 0 then 0 else X(k - 1) + 2 * Y(k - 1)
  }

  lemma {:induction false} Sum(m: nat, n: nat)
    ensures X(m + n) == X(m) * X(n) + 3 * (Y(m) * Y(n))
    ensures Y(m + n) == X(m) * Y(n) + Y(m) * X(n)
    decreases m
  {
    if m > 0 {
      Sum(m - 1, n);
      SumAlgebra(X(m - 1), Y(m - 1), X(n), Y(n));
    }
  }

  lemma SumAlgebra(a: int, b: int, x: int, y: int)
    ensures 2 * (a * x + 3 * (b * y)) + 3 * (a * y + b * x) == (2 * a + 3 * b) * x + 3 * ((a + 2 * b) * y)
    ensures a * x + 3 * (b * y) + 2 * (a * y + b * x) == (2 * a + 3 * b) * y + (a + 2 * b) * x
  {
  }

  lemma {:induction false} Norm(k: nat)
    ensures X(k) * X(k) - 3 * (Y(k) * Y(k)) == 1
  {
    if k > 0 {
      Norm(k - 1);
      NormAlgebra(X(k - 1), Y(k - 1));
    }
  }

  lemma NormAlgebra(a: int, b: int)
    ensures (2 * a + 3 * b) * (2 * a + 3 * b) - 3 * ((a + 2 * b) * (a + 2 * b)) == a * a - 3 * (b * b)
  {
  }

  lemma Doubled(k: nat)
    ensures X(2 * k) == 2 * (X(k) * X(k)) - 1 && Y(2 * k) == 2 * (X(k) * Y(k))
  {
    Sum(k, k);
    Norm(k);
    assert k + k == 2 * k;
  }

  lemma Difference(i: nat, j: nat)
    requires i <= j
    ensures X(j - i) == X(j) * X(i) - 3 * (Y(j) * Y(i))
    ensures Y(j - i) == Y(j) * X(i) - X(j) * Y(i)
  {
    hide X;
    hide Y;
    Sum(i, j - i);
    Norm(i);
    DifferenceAlgebra(X(i), Y(i), X(j - i), Y(j - i));
  }

  lemma DifferenceAlgebra(a: int, b: int, x: int, y: int)
    requires a * a - 3 * (b * b) == 1
    ensures x == (a * x + 3 * (b * y)) * a - 3 * ((a * y + b * x) * b)
    ensures y == (a * y + b * x) * a - (a * x + 3 * (b * y)) * b
  {
    assert (a * a - 3 * (b * b)) * x == (a * a) * x - 3 * ((b * b) * x);
    assert (a * a - 3 * (b * b)) * y == (a * a) * y - 3 * ((b * b) * y);
    assert (a * x + 3 * (b * y)) * a == (a * a) * x + 3 * (a * b * y);
    assert (a * y + b * x) * b == a * b * y + (b * b) * x;
    assert (a * y + b * x) * a == (a * a) * y + a * b * x;
    assert (a * x + 3 * (b * y)) * b == a * b * x + 3 * ((b * b) * y);
  }

  /** The Lucas-Lehmer sequence. */
  ghost function S(i: nat): int {
    if i == 0 then 4 else S(i - 1) * S(i - 1) - 2
  }

  lemma {:induction false} SequenceIsTwiceX(i: nat)
    ensures S(i) == 2 * X(Pow2(i))
  {
    if i == 0 {
      assert X(1) == 2 * X(0) + 3 * Y(0);
    } else {
      SequenceIsTwiceX(i - 1);
      Doubled(Pow2(i - 1));
      var x := X(Pow2(i - 1));
      assert (2 * x) * (2 * x) == 4 * (x * x);
    }
  }

  // ---------------------------------------------------------------- modulo a divisor

  /** The power k is 1 modulo q. */
  ghost predicate IsOne(k: nat, q: nat)
    requires q > 1
  {
    X(k) % q == 1 && Y(k) % q == 0
  }

  ghost predicate IsMinusOne(k: nat, q: nat)
    requires q > 1
  {
    (X(k) + 1) % q == 0 && Y(k) % q == 0
  }

  /** A sum whose second product vanishes modulo q. */
  lemma FirstTerm(a: int, x: int, b: int, y: int, q: nat)
    requires q > 1 && (b % q == 0 || y % q == 0)
    ensures (a * x + 3 * (b * y)) % q == a * x % q && (a * x + b * y) % q == a * x % q
  {
    if b % q == 0 { MultipleTerm(0, b, y, q); } else { MultipleTerm(0, y, b, q); }
    MultipleTerm(a * x, b * y, 1, q);
    MultipleTerm(a * x, b * y, 3, q);
  }

  lemma {:induction false} MultipleOfOne(k: nat, c: nat, q: nat)
    requires q > 1 && IsOne(k, q)
    ensures IsOne(c * k, q)
  {
    if c == 0 {
      ModSmall(1, q);
      ModSmall(0, q);
      assert c * k == 0;
    } else {
      MultipleOfOne(k, c - 1, q);
      var m := (c - 1) * k;
      assert c * k == k + m;
      Sum(k, m);
      FirstTerm(X(k), X(m), Y(k), Y(m), q);
      FirstTerm(X(k), Y(m), Y(k), X(m), q);
      ModMulBoth(X(k), X(m), q);
      ModMulBoth(X(k), Y(m), q);
      ModSmall(1, q);
      ModSmall(0, q);
    }
  }

  /** An odd multiple of a power that is -1 is -1. */
  lemma {:induction false} OddMultipleOfMinusOne(h: nat, m: nat, q: nat)
    requires q > 1 && IsMinusOne(h, q) && m % 2 == 1
    ensures IsMinusOne(m * h, q)
  {
    if m == 1 {
      assert m * h == h;
    } else {
      OddMultipleOfMinusOne(h, m - 2, q);
      var k := (m - 2) * h;
      assert m * h == h + (h + k);
      MinusOneTwice(h, k, q);
    }
  }

  lemma MinusOneTimes(h: nat, k: nat, q: nat)
    requires q > 1 && IsMinusOne(h, q)
    ensures (X(h + k) + X(k)) % q == 0 && (Y(h + k) + Y(k)) % q == 0
  {
    Sum(h, k);
    NegativeProduct(X(h), X(k), Y(h), Y(k), q);
    NegativeProduct(X(h), Y(k), Y(h), X(k), q);
  }

  lemma NegativeProduct(a: int, x: int, b: int, y: int, q: nat)
    requires q > 1 && (a + 1) % q == 0 && b % q == 0
    ensures (a * x + 3 * (b * y) + x) % q == 0 && (a * x + b * y + x) % q == 0
  {
    var s, t := (a + 1) / q, b / q;
    assert a + 1 == q * s && b == q * t;
    assert (a + 1) * x == q * (s * x) && b * y == q * (t * y);
    assert (a + 1) * x == a * x + x;
    DivModUnique(a * x + 3 * (b * y) + x, q, s * x + 3 * (t * y), 0);
    DivModUnique(a * x + b * y + x, q, s * x + t * y, 0);
  }

  lemma MinusOneTwice(h: nat, k: nat, q: nat)
    requires q > 1 && IsMinusOne(h, q) && IsMinusOne(k, q)
    ensures IsMinusOne(h + (h + k), q)
  {
    hide X;
    hide Y;
    MinusOneTimes(h, k, q);
    MinusOneTimes(h, h + k, q);
    CancelNegations(X(h + (h + k)), X(h + k), X(k), 1, q);
    CancelNegations(Y(h + (h + k)), Y(h + k), Y(k), 0, q);
  }

  lemma CancelNegations(u: int, v: int, w: int, c: int, q: nat)
    requires q > 1 && (u + v) % q == 0 && (v + w) % q == 0 && (w + c) % q == 0
    ensures (u + c) % q == 0
  {
    DivModUnique(u + c, q, (u + v) / q - (v + w) / q + (w + c) / q, 0);
  }

  lemma {:induction false} OddPart(k: nat) returns (t: nat, m: nat)
    requires k > 0
    ensures k == m * Pow2(t) && m % 2 == 1
  {
    if k % 2 == 1 {
      t, m := 0, k;
    } else {
      t, m := OddPart(k / 2);
      assert m * Pow2(t + 1) == 2 * (m * Pow2(t));
      t := t + 1;
    }
  }

  lemma {:induction false} Pow2Order(s: nat, t: nat)
    requires s <= t
    ensures Pow2(s) <= Pow2(t)
    decreases t - s
  {
    if s < t {
      Pow2Order(s + 1, t);
    }
  }

  /** When the power 2^n is -1, no power from 1 to 2^(n + 1) - 1 is 1: raised to a further power of two it would be an odd
      power of -1. */
  lemma OrderIsFull(k: nat, n: nat, q: nat)
    requires q > 2 && IsMinusOne(Pow2(n), q) && 0 < k < Pow2(n + 1)
    ensures !IsOne(k, q)
  {
    hide X;
    hide Y;
    hide Pow2;
    if IsOne(k, q) {
      var t, m := OddPart(k);
      MulLe(1, m, Pow2(t));
      if t > n { Pow2Order(n + 1, t); }
      Pow2Adds(n - t, t);
      var c := Pow2(n - t);
      Reassociate(c, m, Pow2(t));
      MultipleOfOne(k, c, q);
      OddMultipleOfMinusOne(Pow2(n), m, q);
      OneIsNotMinusOne(X(c * k), q);
    }
  }

  lemma Reassociate(c: int, m: int, p: int)
    ensures c * (m * p) == m * (c * p)
  {
  }

  lemma OneIsNotMinusOne(x: int, q: nat)
    requires q > 2 && x % q == 1
    ensures (x + 1) % q != 0
  {
    DivModUnique(x + 1, q, x / q, 2);
  }

  lemma DifferenceIsOne(a: int, b: int, x: int, y: int, q: nat)
    requires q > 1 && a * a - 3 * (b * b) == 1 && a % q == x % q && b % q == y % q
    ensures (x * a - 3 * (y * b)) % q == 1 && (y * a - x * b) % q == 0
  {
    var s := SameResidue(x, a, q);
    var t := SameResidue(y, b, q);
    MultiplyShift(x, a, s, q, a);
    MultiplyShift(x, a, s, q, b);
    MultiplyShift(y, b, t, q, a);
    MultiplyShift(y, b, t, q, b);
    var u, v := s * a - 3 * (t * b), t * a - s * b;
    assert x * a - 3 * (y * b) == 1 + q * u;
    assert y * a - x * b == q * v;
    DivModUnique(x * a - 3 * (y * b), q, u, 1);
    DivModUnique(y * a - x * b, q, v, 0);
  }

  lemma MultiplyShift(x: int, a: int, s: int, q: int, c: int)
    requires x == a + q * s
    ensures x * c == a * c + q * (s * c)
  {
  }

  /** So the first 2^(n + 1) powers differ modulo q. */
  lemma PowersDiffer(i: nat, j: nat, n: nat, q: nat)
    requires q > 2 && IsMinusOne(Pow2(n), q) && i < j < Pow2(n + 1)
    ensures X(i) % q != X(j) % q || Y(i) % q != Y(j) % q
  {
    if X(i) % q == X(j) % q && Y(i) % q == Y(j) % q {
      OrderIsFull(j - i, n, q);
      Difference(i, j);
      Norm(i);
      DifferenceIsOne(X(i), Y(i), X(j), Y(j), q);
    }
  }

  // ---------------------------------------------------------------- the test

  /** The residues of power k, as one number below q^2. */
  ghost function Code(k: nat, q: nat): (c: nat)
    requires q > 1
  {
    X(k) % q + q * (Y(k) % q)
  }

  lemma CodeBound(k: nat, q: nat)
    requires q > 1
    ensures Code(k, q) < q * q
  {
    MulLe(Y(k) % q, q - 1, q);
    assert q * (q - 1) == q * q - q;
  }

  lemma CodesDiffer(i: nat, j: nat, n: nat, q: nat)
    requires q > 2 && IsMinusOne(Pow2(n), q) && i < j < Pow2(n + 1)
    ensures Code(i, q) != Code(j, q)
  {
    hide X;
    hide Y;
    PowersDiffer(i, j, n, q);
    DivModUnique(Code(i, q), q, Y(i) % q, X(i) % q);
    DivModUnique(Code(j, q), q, Y(j) % q, X(j) % q);
  }

  ghost function Codes(m: nat, q: nat): set<nat>
    requires q > 1
  {
    if m == 0 then {} else Codes(m - 1, q) + {Code(m - 1, q)}
  }

  lemma {:induction false} CodesSize(m: nat, n: nat, q: nat)
    requires q > 2 && IsMinusOne(Pow2(n), q) && m <= Pow2(n + 1)
    ensures |Codes(m, q)| == m && forall c :: c in Codes(m, q) ==> exists k: nat :: k < m && c == Code(k, q)
    decreases m
  {
    hide Code;
    hide IsMinusOne;
    if m > 0 {
      CodesSize(m - 1, n, q);
      forall k: nat | k < m - 1 ensures Code(k, q) != Code(m - 1, q) {
        CodesDiffer(k, m - 1, n, q);
      }
    }
  }

  ghost function Below(n: nat): (s: set<nat>)
    ensures |s| == n && forall x: nat :: x in s <==> x < n
  {
    if n == 0 then {} else Below(n - 1) + {n - 1}
  }

  /** There are only q^2 pairs of residues. */
  lemma Pigeonhole(n: nat, q: nat)
    requires q > 2 && IsMinusOne(Pow2(n), q)
    ensures Pow2(n + 1) <= q * q
  {
    hide Code;
    var m := Pow2(n + 1);
    CodesSize(m, n, q);
    forall c | c in Codes(m, q) ensures c in Below(q * q) {
      var k: nat :| k < m && c == Code(k, q);
      CodeBound(k, q);
    }
    SubsetSize(Codes(m, q), Below(q * q));
  }

  /** A composite number has a divisor up to its square root. */
  lemma SmallDivisor(n: nat) returns (q: nat)
    requires n >= 2 && !IsPrime(n)
    ensures 1 < q && q * q <= n && n % q == 0
  {
    var d :| 1 < d < n && n % d == 0;
    var e := n / d;
    assert n == d * e;
    if d <= e {
      MulLe(d, e, d);
      q := d;
    } else {
      if e <= 1 { MulLe(e, 1, d); }
      MulLe(e, d, e);
      DivModUnique(n, e, d, 0);
      q := e;
    }
  }

  lemma DivisorOfMultiple(x: int, n: nat, q: nat)
    requires q > 0 && n > 0 && n % q == 0 && x % n == 0
    ensures x % q == 0
  {
    var a, b := x / n, n / q;
    assert x == n * a && n == q * b;
    assert (q * b) * a == q * (b * a);
    DivModUnique(x, q, b * a, 0);
  }

  lemma HalfOfZero(x: int, q: nat)
    requires q % 2 == 1 && 2 * x % q == 0
    ensures x % q == 0
  {
    var k := 2 * x / q;
    assert 2 * x == q * k;
    OddTimes(q, k, x);
    DivModUnique(x, q, k / 2, 0);
  }

  lemma OddTimes(q: nat, k: int, x: int)
    requires q % 2 == 1 && q * k == 2 * x
    ensures k % 2 == 0 && x == q * (k / 2)
  {
    var h, j := q / 2, k / 2;
    assert q * k == 2 * (h * k) + k by {
      assert (2 * h + 1) * k == 2 * (h * k) + k;
    }
    assert q * (2 * j) == 2 * (q * j);
  }

  /** Where 2 X(k) vanishes, the power 2 k is -1. */
  lemma VanishingDoubles(k: nat, q: nat)
    requires q > 1 && X(k) % q == 0
    ensures IsMinusOne(2 * k, q)
  {
    hide X;
    hide Y;
    Doubled(k);
    var t := X(k) / q;
    assert X(k) == q * t;
    assert X(k) * X(k) == q * (t * X(k)) && X(k) * Y(k) == q * (t * Y(k));
    DivModUnique(2 * (X(k) * X(k)), q, 2 * (t * X(k)), 0);
    DivModUnique(2 * (X(k) * Y(k)), q, 2 * (t * Y(k)), 0);
  }

  lemma OddDivisor(n: nat, q: nat)
    requires q > 1 && n % 2 == 1 && n % q == 0
    ensures q % 2 == 1 && q > 2
  {
    if q % 2 == 0 {
      DivisorOfMultiple(n, q, 2);
    }
  }

  /** The Lucas-Lehmer test: if 2^n - 1 divides the term n - 2 of the sequence, it is prime. */
  lemma TestIsSufficient(n: nat, m: nat)
    requires n >= 2 && m == Pow2(n) - 1 && S(n - 2) % m == 0
    ensures IsPrime(m)
  {
    hide X;
    hide S;
    hide IsPrime;
    assert Pow2(n) == 2 * Pow2(n - 1) && Pow2(n - 1) == 2 * Pow2(n - 2);
    if !IsPrime(m) {
      var q := SmallDivisor(m);
      OddDivisor(m, q);
      SequenceIsTwiceX(n - 2);
      DivisorOfMultiple(S(n - 2), m, q);
      HalfOfZero(X(Pow2(n - 2)), q);
      VanishingDoubles(Pow2(n - 2), q);
      Pigeonhole(n - 1, q);
    }
  }

  // ---------------------------------------------------------------- the exponent 127

  /** Term i of the sequence is r modulo p. */
  ghost predicate Term(i: nat, r: int) {
    S(i) % P == r
  }

  lemma Next(i: nat, r: int, r': int)
    requires Term(i, r) && (r * r - 2) % P == r'
    ensures Term(i + 1, r')
  {
    ModMulBoth(S(i), S(i), P);
    ModSub(S(i) * S(i), 2, P);
    ModSub(r * r, 2, P);
  }

  lemma Terms0(i: nat)
    requires Term(i, 0x4)
    ensures Term(i + 25, 0x25BF2BA1F12931FCFCDA11CAD3F41FDD)
  {
    hide Term;
    Next(i, 0x4, 0xE);
    Next(i + 1, 0xE, 0xC2);
    Next(i + 2, 0xC2, 0x9302);
    Next(i + 3, 0x9302, 0x546B4C02);
    Next(i + 4, 0x546B4C02, 0x1BD696D9F03D3002);
    Next(i + 5, 0x1BD696D9F03D3002, 0x306F7B285EEAD7D8CC88407A9F4C002);
    Next(i + 6, 0x306F7B285EEAD7D8CC88407A9F4C002, 0x6F90BE04448B1245AD3F06B65E5948EF);
    Next(i + 7, 0x6F90BE04448B1245AD3F06B65E5948EF, 0xD7E1E9269F12FECA5AA0F2C5ECD40AD);
    Next(i + 8, 0xD7E1E9269F12FECA5AA0F2C5ECD40AD, 0x40A03675270457732EEA4E02FFF1083C);
    Next(i + 9, 0x40A03675270457732EEA4E02FFF1083C, 0x57A071037C53ABF356D80DA56A5E87E9);
    Next(i + 10, 0x57A071037C53ABF356D80DA56A5E87E9, 0x259914CBE6F33B647BBA1F14EE73E7FB);
    Next(i + 11, 0x259914CBE6F33B647BBA1F14EE73E7FB, 0x78DF9B8009AA9BB2BFA5D8FAAF68B785);
    Next(i + 12, 0x78DF9B8009AA9BB2BFA5D8FAAF68B785, 0x46EDE367F074C926FF0B2127F0544F10);
    Next(i + 13, 0x46EDE367F074C926FF0B2127F0544F10, 0x514186263219B172078D709A706499C0);
    Next(i + 14, 0x514186263219B172078D709A706499C0, 0x17DFD74D0E4CA8B5762C0A88499DF578);
    Next(i + 15, 0x17DFD74D0E4CA8B5762C0A88499DF578, 0x1E789644D9B6E0BF70C2C25225F6002E);
    Next(i + 16, 0x1E789644D9B6E0BF70C2C25225F6002E, 0x46C8B5C713959D163C64292E8BF5B38C);
    Next(i + 17, 0x46C8B5C713959D163C64292E8BF5B38C, 0x6CB4880607B419D671B4CE98E8D1C6BA);
    Next(i + 18, 0x6CB4880607B419D671B4CE98E8D1C6BA, 0xFC3D7F352E604388D7DF01551A8185C);
    Next(i + 19, 0xFC3D7F352E604388D7DF01551A8185C, 0x778DEEDDEEAE22FA99D341AAA0863C36);
    Next(i + 20, 0x778DEEDDEEAE22FA99D341AAA0863C36, 0x27C677E95A118B08151C5D445DB0C020);
    Next(i + 21, 0x27C677E95A118B08151C5D445DB0C020, 0x71F814132D63E2656E67ADCEAC514C0A);
    Next(i + 22, 0x71F814132D63E2656E67ADCEAC514C0A, 0x4787EA066E236A3E901F8E77521391B4);
    Next(i + 23, 0x4787EA066E236A3E901F8E77521391B4, 0xCA9D4DEFD7F3E189A245204045AA828);
    Next(i + 24, 0xCA9D4DEFD7F3E189A245204045AA828, 0x25BF2BA1F12931FCFCDA11CAD3F41FDD);
  }

  lemma Terms25(i: nat)
    requires Term(i, 0x25BF2BA1F12931FCFCDA11CAD3F41FDD)
    ensures Term(i + 25, 0x4AECD23F1E00E5476B3B081C075B9F36)
  {
    hide Term;
    Next(i, 0x25BF2BA1F12931FCFCDA11CAD3F41FDD, 0x6C9636269128A33486238CFAC55EC8B6);
    Next(i + 1, 0x6C9636269128A33486238CFAC55EC8B6, 0x626B706A3E0F1E3F6E7FCFB92CB6F279);
    Next(i + 2, 0x626B706A3E0F1E3F6E7FCFB92CB6F279, 0x4D231F59D123721523B7BC4158078DB3);
    Next(i + 3, 0x4D231F59D123721523B7BC4158078DB3, 0x556569B7FABB65D99AEF52942C708DA3);
    Next(i + 4, 0x556569B7FABB65D99AEF52942C708DA3, 0x9DB0368623D5F02234C29CF7B63465);
    Next(i + 5, 0x9DB0368623D5F02234C29CF7B63465, 0x4A6260A2464AB7043269E5F3F99CD920);
    Next(i + 6, 0x4A6260A2464AB7043269E5F3F99CD920, 0x56A27562B2BB32C04AD1074B7C02FD71);
    Next(i + 7, 0x56A27562B2BB32C04AD1074B7C02FD71, 0x2E97B5D151606CD4F276CCD22DDAF4AB);
    Next(i + 8, 0x2E97B5D151606CD4F276CCD22DDAF4AB, 0x7A0D63EBAA4603738E2010D8F1F60B92);
    Next(i + 9, 0x7A0D63EBAA4603738E2010D8F1F60B92, 0x67FC9B221D6563B2352A7EE24A39F0FA);
    Next(i + 10, 0x67FC9B221D6563B2352A7EE24A39F0FA, 0x9830496DFBFED7F5063AA49117C76FE);
    Next(i + 11, 0x9830496DFBFED7F5063AA49117C76FE, 0x5127F38B4DFDE6CD085DFFDACE593EF3);
    Next(i + 12, 0x5127F38B4DFDE6CD085DFFDACE593EF3, 0x4F16C8938AEAFA9E8D1A53C6834A0D51);
    Next(i + 13, 0x4F16C8938AEAFA9E8D1A53C6834A0D51, 0x6FCFCDA765ABF15235077B0ECBF6C3B);
    Next(i + 14, 0x6FCFCDA765ABF15235077B0ECBF6C3B, 0x10F5D4E66A723F65611D6D9142196F07);
    Next(i + 15, 0x10F5D4E66A723F65611D6D9142196F07, 0x6D5598196FA13EB76D7B40BFADA33A0F);
    Next(i + 16, 0x6D5598196FA13EB76D7B40BFADA33A0F, 0x23EB57DE36BD537602610773889D714);
    Next(i + 17, 0x23EB57DE36BD537602610773889D714, 0x1C4425E5FF1B2D86B3C941780B0D288D);
    Next(i + 18, 0x1C4425E5FF1B2D86B3C941780B0D288D, 0x67B79C0253AD7A6DB497E7E8F6728337);
    Next(i + 19, 0x67B79C0253AD7A6DB497E7E8F6728337, 0x2AD872B599DC4E48B75D5A3074E01213);
    Next(i + 20, 0x2AD872B599DC4E48B75D5A3074E01213, 0x19258658B675754C17172879079FD405);
    Next(i + 21, 0x19258658B675754C17172879079FD405, 0x5085C0AC7259F09E82A98D9F79978690);
    Next(i + 22, 0x5085C0AC7259F09E82A98D9F79978690, 0x287086475D31E6D2CECA7CEE560B17C7);
    Next(i + 23, 0x287086475D31E6D2CECA7CEE560B17C7, 0x236EF599E4ABD6027748EC9C6485FE6D);
    Next(i + 24, 0x236EF599E4ABD6027748EC9C6485FE6D, 0x4AECD23F1E00E5476B3B081C075B9F36);
  }

  lemma Terms50(i: nat)
    requires Term(i, 0x4AECD23F1E00E5476B3B081C075B9F36)
    ensures Term(i + 25, 0xE40D700C643B5289D6EC3D92D6C9BE4)
  {
    hide Term;
    Next(i, 0x4AECD23F1E00E5476B3B081C075B9F36, 0x359D02406FC390C868AC78002CF28465);
    Next(i + 1, 0x359D02406FC390C868AC78002CF28465, 0x46319DC2D76A5CFABFB7F34D3D399CE5);
    Next(i + 2, 0x46319DC2D76A5CFABFB7F34D3D399CE5, 0x5A733633392EA5720B423B922794A1B1);
    Next(i + 3, 0x5A733633392EA5720B423B922794A1B1, 0x58CC254E9E71B114F283AEF607F287FB);
    Next(i + 4, 0x58CC254E9E71B114F283AEF607F287FB, 0x1FE8FC13B3F618B8762C7CC1A3E3326);
    Next(i + 5, 0x1FE8FC13B3F618B8762C7CC1A3E3326, 0x6D32165D582601837AD09DCC97DE3E22);
    Next(i + 6, 0x6D32165D582601837AD09DCC97DE3E22, 0x2F64D8114178FF96DC179ACB84E19F46);
    Next(i + 7, 0x2F64D8114178FF96DC179ACB84E19F46, 0x3E843946BFA8AA0C6E97DF85712DC35F);
    Next(i + 8, 0x3E843946BFA8AA0C6E97DF85712DC35F, 0x236FA8A27784EFEE5FB674F90125885C);
    Next(i + 9, 0x236FA8A27784EFEE5FB674F90125885C, 0x115E3587E4EEB099D51882C587F8B130);
    Next(i + 10, 0x115E3587E4EEB099D51882C587F8B130, 0x13D913DBB0B16B6A3A92A4874C02282);
    Next(i + 11, 0x13D913DBB0B16B6A3A92A4874C02282, 0x6DD6F37B142E81BF00453AB1D92FBCBA);
    Next(i + 12, 0x6DD6F37B142E81BF00453AB1D92FBCBA, 0x2BB05E0356ABAEB3EE5D310E28CB3C45);
    Next(i + 13, 0x2BB05E0356ABAEB3EE5D310E28CB3C45, 0x4015D6304052A1822639528629E28675);
    Next(i + 14, 0x4015D6304052A1822639528629E28675, 0x1A39C69B77CFEA76981139A9CCDAF63);
    Next(i + 15, 0x1A39C69B77CFEA76981139A9CCDAF63, 0x6B5164D4897DA5DF74297F352528DE8F);
    Next(i + 16, 0x6B5164D4897DA5DF74297F352528DE8F, 0x62B067CB3BF055E5B307515E41D36CB7);
    Next(i + 17, 0x62B067CB3BF055E5B307515E41D36CB7, 0x11E70526AF7B40F5056DAC13240E4009);
    Next(i + 18, 0x11E70526AF7B40F5056DAC13240E4009, 0x473CE29B93C33D44B38D87E680EF42AE);
    Next(i + 19, 0x473CE29B93C33D44B38D87E680EF42AE, 0x15CA1853DD4920AAAE3B655BEB1F5D79);
    Next(i + 20, 0x15CA1853DD4920AAAE3B655BEB1F5D79, 0x71B57F397C152836534CFD78E66784B0);
    Next(i + 21, 0x71B57F397C152836534CFD78E66784B0, 0x3978FC677E478B22F0D295A612889067);
    Next(i + 22, 0x3978FC677E478B22F0D295A612889067, 0x23E781FD5525BC707718433F370ED729);
    Next(i + 23, 0x23E781FD5525BC707718433F370ED729, 0x4E79DD0314814D62E827A3E03DA9D0A8);
    Next(i + 24, 0x4E79DD0314814D62E827A3E03DA9D0A8, 0xE40D700C643B5289D6EC3D92D6C9BE4);
  }

  lemma Terms75(i: nat)
    requires Term(i, 0xE40D700C643B5289D6EC3D92D6C9BE4)
    ensures Term(i + 25, 0x35254C3D1D0DC71616F9E919708E087)
  {
    hide Term;
    Next(i, 0xE40D700C643B5289D6EC3D92D6C9BE4, 0x7BC06A1DEB31A09FD258B42BD2510E59);
    Next(i + 1, 0x7BC06A1DEB31A09FD258B42BD2510E59, 0xE877061EA6AD731ADC85D51ABAFE4C6);
    Next(i + 2, 0xE877061EA6AD731ADC85D51ABAFE4C6, 0x14DDDC6BC7BC1433B0AD903B4B6BA692);
    Next(i + 3, 0x14DDDC6BC7BC1433B0AD903B4B6BA692, 0x1BAFDF498A13A666BD2F57EE11B9BD5);
    Next(i + 4, 0x1BAFDF498A13A666BD2F57EE11B9BD5, 0x6FD9211E6F62094C37BC8A03672F34E8);
    Next(i + 5, 0x6FD9211E6F62094C37BC8A03672F34E8, 0x219EE997DA0EA44EB9405906C8367E27);
    Next(i + 6, 0x219EE997DA0EA44EB9405906C8367E27, 0x55F43C0F2070D79CCA6CE2D1F1AD26DB);
    Next(i + 7, 0x55F43C0F2070D79CCA6CE2D1F1AD26DB, 0x639140BECA5B77FA4DAE480A1E3B3EE7);
    Next(i + 8, 0x639140BECA5B77FA4DAE480A1E3B3EE7, 0x3E5D9B1D6EA9E684A649D19B0298AD52);
    Next(i + 9, 0x3E5D9B1D6EA9E684A649D19B0298AD52, 0x3E1AA777367CBD7E197845F0C2CD3ACD);
    Next(i + 10, 0x3E1AA777367CBD7E197845F0C2CD3ACD, 0x38E852CB489F7093AA6A6B0368D177F3);
    Next(i + 11, 0x38E852CB489F7093AA6A6B0368D177F3, 0x5D46412AE223B7E0E2E619EC7F4B0B65);
    Next(i + 12, 0x5D46412AE223B7E0E2E619EC7F4B0B65, 0x3DE1237D6042775C8CC40E2E3908863D);
    Next(i + 13, 0x3DE1237D6042775C8CC40E2E3908863D, 0x6847E45E76AFBF303AE1080E3DA31E04);
    Next(i + 14, 0x6847E45E76AFBF303AE1080E3DA31E04, 0x1CABCDDF4BBE6EA8E40F45D031CADA5A);
    Next(i + 15, 0x1CABCDDF4BBE6EA8E40F45D031CADA5A, 0x693123D3AE7D725FD56B79E7C37B6C0D);
    Next(i + 16, 0x693123D3AE7D725FD56B79E7C37B6C0D, 0x44BFF493C1FC026C98874C6D1CDDCCAB);
    Next(i + 17, 0x44BFF493C1FC026C98874C6D1CDDCCAB, 0x7F887E289792D5B2523789F5A0ECAA63);
    Next(i + 18, 0x7F887E289792D5B2523789F5A0ECAA63, 0x7F291593CBEEB3CBD51D6CFF451813E4);
    Next(i + 19, 0x7F291593CBEEB3CBD51D6CFF451813E4, 0x39004E639C27F8429CB5A1E44ED102BF);
    Next(i + 20, 0x39004E639C27F8429CB5A1E44ED102BF, 0x2595392CB1A5ED1262939E5E8470D95F);
    Next(i + 21, 0x2595392CB1A5ED1262939E5E8470D95F, 0x23609DD10526F0A25F66153DF552D4);
    Next(i + 22, 0x23609DD10526F0A25F66153DF552D4, 0x7B28359B52F970779C8F74C0D43D885E);
    Next(i + 23, 0x7B28359B52F970779C8F74C0D43D885E, 0x7F34183569B911299F8A3138B2C00B4B);
    Next(i + 24, 0x7F34183569B911299F8A3138B2C00B4B, 0x35254C3D1D0DC71616F9E919708E087);
  }

  lemma Terms100(i: nat)
    requires Term(i, 0x35254C3D1D0DC71616F9E919708E087)
    ensures Term(i + 25, 0x0)
  {
    hide Term;
    Next(i, 0x35254C3D1D0DC71616F9E919708E087, 0x52CCA2951AE8C926ECDA66959B83FEDD);
    Next(i + 1, 0x52CCA2951AE8C926ECDA66959B83FEDD, 0x3CF51D110DC9F3611EDBEC1979B4118);
    Next(i + 2, 0x3CF51D110DC9F3611EDBEC1979B4118, 0x13D0DFEAC99D5985E4DA6C5D471043D7);
    Next(i + 3, 0x13D0DFEAC99D5985E4DA6C5D471043D7, 0x4541E291D3B88D044CDC2077DD1B62AD);
    Next(i + 4, 0x4541E291D3B88D044CDC2077DD1B62AD, 0x1313E00DFD11B9B511F6D2DC872400D6);
    Next(i + 5, 0x1313E00DFD11B9B511F6D2DC872400D6, 0x2B2D38E9A578E343EEE1ADDDB67916CD);
    Next(i + 6, 0x2B2D38E9A578E343EEE1ADDDB67916CD, 0x37B662E51DE7A29F1715D913ECF562F);
    Next(i + 7, 0x37B662E51DE7A29F1715D913ECF562F, 0x2F4FDD8B072EBCF1CD49EF6B655FC549);
    Next(i + 8, 0x2F4FDD8B072EBCF1CD49EF6B655FC549, 0x3EC8CEE7E82B6E9FF1CC256487B5745C);
    Next(i + 9, 0x3EC8CEE7E82B6E9FF1CC256487B5745C, 0x6521240FCB93719D7FFB5EBB596418A5);
    Next(i + 10, 0x6521240FCB93719D7FFB5EBB596418A5, 0xBF5FE6456B929A850862B8ECFB31CA6);
    Next(i + 11, 0xBF5FE6456B929A850862B8ECFB31CA6, 0x76F77DCCDD83C78DFC30F54FC48D34F2);
    Next(i + 12, 0x76F77DCCDD83C78DFC30F54FC48D34F2, 0x50E83DBBA2F53E25E40F37533893675);
    Next(i + 13, 0x50E83DBBA2F53E25E40F37533893675, 0xA9FB4338F5E9DCDB078C3B8831A816);
    Next(i + 14, 0xA9FB4338F5E9DCDB078C3B8831A816, 0x79D1B8381140B4FAEB8EB99686416B89);
    Next(i + 15, 0x79D1B8381140B4FAEB8EB99686416B89, 0x3C6B23EB925A99C38680BA5EEDF42C5C);
    Next(i + 16, 0x3C6B23EB925A99C38680BA5EEDF42C5C, 0x538D9F6DB88B58F5120C4AEEC9F423F8);
    Next(i + 17, 0x538D9F6DB88B58F5120C4AEEC9F423F8, 0x63E8E7EF5B1C704DD08D06016DD8157);
    Next(i + 18, 0x63E8E7EF5B1C704DD08D06016DD8157, 0x63B188109E10530AA66647FD59834FB3);
    Next(i + 19, 0x63B188109E10530AA66647FD59834FB3, 0x2341B7EFA3A22601A44780285506EF21);
    Next(i + 20, 0x2341B7EFA3A22601A44780285506EF21, 0x26A4DAF84D77E7DF90BBAE1291AD9AC0);
    Next(i + 21, 0x26A4DAF84D77E7DF90BBAE1291AD9AC0, 0x6B6DDD812278DA149A55ECECFD2F182E);
    Next(i + 22, 0x6B6DDD812278DA149A55ECECFD2F182E, 0x41F5D7AF9DCDE77EB7696225A197B8D9);
    Next(i + 23, 0x41F5D7AF9DCDE77EB7696225A197B8D9, 0x10000000000000000);
    Next(i + 24, 0x10000000000000000, 0x0);
  }

  /** 2^127 - 1 is prime. */
  lemma PIsPrime()
    ensures IsPrime(P)
  {
    hide IsPrime;
    hide Pow2;
    hide S;
    PisPow2();
    TermZero(0);
    Terms0(0);
    Terms25(25);
    Terms50(50);
    Terms75(75);
    Terms100(100);
    TestIsSufficient(127, P);
  }

  lemma TermZero(i: nat)
    requires i == 0
    ensures Term(i, 0x4)
  {
    ModSmall(4, P);
  }
}
