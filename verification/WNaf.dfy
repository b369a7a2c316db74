/** Signed-window (wNAF) recoding of a 64-bit scalar into 65 digits. */
module WNaf {
  import opened Words

  type int8 = d: int | -128 <= d < 128

  /** The number written by signed binary digits, least significant first. */
  function DigitSum(s: seq<int8>): int
  {
    if s == [] then 0 else s[0] + 2 * DigitSum(s[1..])
  }

  lemma {:induction false} DigitSumPrefix(s: seq<int8>, k: nat)
    requires k < |s|
    ensures DigitSum(s[..k + 1]) == DigitSum(s[..k]) + Pow2(k) * s[k]
  {
    if k == 0 {
      assert s[..1][1..] == [];
    } else {
      DigitSumPrefix(s[1..], k - 1);
      assert s[..k + 1][1..] == s[1..][..k] && s[..k][1..] == s[1..][..k - 1];
      assert 2 * (Pow2(k - 1) * s[k]) == Pow2(k) * s[k];
    }
  }

  lemma {:induction false} DigitSumZeros(s: seq<int8>, k: nat)
    requires k <= |s| && forall i :: k <= i < |s| ==> s[i] == 0
    ensures DigitSum(s) == DigitSum(s[..k])
    decreases |s| - k
  {
    if k == |s| {
      assert s[..k] == s;
    } else {
      DigitSumPrefix(s, k);
      DigitSumZeros(s, k + 1);
    }
  }

  /** Digits a table of odd multiples up to 2^(w-1) - 1 can serve: zero, or odd and small. */
  predicate WindowDigit(d: int, w: nat)
    requires w >= 1
  {
    d == 0 || (d % 2 == 1 && -(Pow2(w - 1) - 1) <= d <= Pow2(w - 1) - 1)
  }

  /** Nonzero digits are at least w places apart. */
  ghost predicate Spaced(s: seq<int8>, w: nat) {
    forall i, j :: 0 <= i < j < |s| && s[i] != 0 && s[j] != 0 ==> j - i >= w
  }

  lemma {:induction false} Pow2Monotone(m: nat, n: nat)
    requires m <= n
    ensures Pow2(m) <= Pow2(n)
  {
    if m < n {
      Pow2Monotone(m, n - 1);
    }
  }

  /** The windows the loop uses are small powers of two. */
  lemma WindowPowers(w: nat)
    requires 2 <= w <= 8
    ensures Pow2(w) == 2 * Pow2(w - 1) && 2 <= Pow2(w - 1) <= 128
    ensures Pow2(w - 1) % 2 == 0
  {
    Pow2Monotone(w - 1, 7);
    assert Pow2(7) == 128;
    assert Pow2(w - 1) == 2 * Pow2(w - 2);
  }

  /** An odd scalar that spills into a negative digit has at least w bits left, so the zeros after the
      digit stay inside the buffer. */
  lemma SpillRoom(scalar: nat, room: nat, w: nat)
    requires 2 <= w <= 8 && scalar <= Pow2(room)
    requires scalar % 2 == 1
    requires scalar % Pow2(w) > Pow2(w - 1) - 1 || scalar / Pow2(w) > 0
    ensures room >= w
  {
    WindowPowers(w);
    if room < w {
      Pow2Monotone(room, w - 1);
      DivModUnique(scalar, Pow2(w), 0, scalar);
    }
  }

  /** What is left after a digit fits the remaining places. */
  lemma RestFits(scalar: nat, room: nat, w: nat, rest: nat)
    requires 2 <= w <= 8 && scalar <= Pow2(room) && room >= w && scalar % 2 == 1
    requires rest == scalar / Pow2(w) || rest == scalar / Pow2(w) + 1
    ensures rest <= Pow2(room - w)
  {
    WindowPowers(w);
    Pow2Adds(w, room - w);
    var p, q := Pow2(w), scalar / Pow2(w);
    assert scalar < Pow2(room) by {
      Pow2Even(room);
    }
    QuotientBound(scalar, p, Pow2(room - w));
  }

  lemma Pow2Even(n: nat)
    requires n > 0
    ensures Pow2(n) % 2 == 0
  {
  }

  /** The loop invariant: s is the digits written so far and scalar what is left of scalar0. */
  ghost predicate Partial(s: seq<int8>, scalar: nat, scalar0: int, w: nat)
    requires w >= 1
  {
    && |s| <= 65
    && (|s| == 65 ==> scalar == 0)
    && (|s| <= 64 ==> scalar <= Pow2(64 - |s|))
    && DigitSum(s) + Pow2(|s|) * scalar == scalar0
    && (forall i :: 0 <= i < |s| ==> WindowDigit(s[i], w))
    && Spaced(s, w)
    && (scalar != 0 ==> Cleared(s, w))
  }

  /** The last w - 1 digits are zero, so a nonzero digit may come next. */
  ghost predicate Cleared(s: seq<int8>, w: nat) {
    forall i :: 0 <= i < |s| && |s| - w < i ==> s[i] == 0
  }

  lemma AppendZero(s: seq<int8>, w: nat)
    requires w >= 1 && Spaced(s, w)
    ensures DigitSum(s + [0]) == DigitSum(s)
    ensures Spaced(s + [0], w)
  {
    DigitSumPrefix(s + [0], |s|);
    assert (s + [0])[..|s|] == s && (s + [0])[..|s| + 1] == s + [0];
  }

  lemma EvenStep(s: seq<int8>, scalar: nat, scalar0: int, w: nat)
    requires 2 <= w <= 8 && Partial(s, scalar, scalar0, w) && scalar % 2 == 0 && scalar > 0
    ensures |s| <= 64 && Partial(s + [0], scalar / 2, scalar0, w)
  {
    AppendZero(s, w);
    assert Pow2(0) == 1;
    assert |s| < 64 ==> Pow2(64 - |s|) == 2 * Pow2(64 - |s| - 1);
    WeightedRest(Pow2(|s|), 2, Pow2(|s| + 1), scalar, 0, scalar / 2);
  }

  function Zeros(n: nat): seq<int8> {
    seq(n, _ => 0)
  }

  /** The w - 1 zeros that follow a nonzero digit. */
  lemma {:induction false} AppendZeros(s: seq<int8>, n: nat, w: nat)
    requires w >= 1 && Spaced(s, w)
    ensures DigitSum(s + Zeros(n)) == DigitSum(s)
    ensures Spaced(s + Zeros(n), w)
  {
    if n == 0 {
      assert s + Zeros(0) == s;
    } else {
      AppendZeros(s, n - 1, w);
      AppendZero(s + Zeros(n - 1), w);
      assert s + Zeros(n) == s + Zeros(n - 1) + [0];
    }
  }

  lemma AppendDigit(s: seq<int8>, d: int8, w: nat)
    requires 2 <= w <= 8 && Spaced(s, w) && Cleared(s, w)
    ensures DigitSum(s + [d]) == DigitSum(s) + Pow2(|s|) * d
    ensures Spaced(s + [d], w)
  {
    DigitSumPrefix(s + [d], |s|);
    assert (s + [d])[..|s|] == s && (s + [d])[..|s| + 1] == s + [d];
  }

  /** The digit an odd scalar produces and what it leaves. */
  lemma OddDigit(scalar: nat, w: nat) returns (d: int8, rest: nat)
    requires 2 <= w <= 8 && scalar % 2 == 1
    ensures d == if scalar % Pow2(w) > Pow2(w - 1) - 1 then scalar % Pow2(w) - Pow2(w) else scalar % Pow2(w)
    ensures rest == if d < 0 then scalar / Pow2(w) + 1 else scalar / Pow2(w)
    ensures WindowDigit(d, w) && d != 0
    ensures scalar == d + Pow2(w) * rest
  {
    WindowPowers(w);
    var p, h, q := Pow2(w), Pow2(w - 1), scalar / Pow2(w);
    var m := scalar % p;
    assert scalar == p * q + m;
    hide Pow2;
    OddRemainder(scalar, h, q, m);
    d := if m > h - 1 then m - p else m;
    rest := if d < 0 then q + 1 else q;
    CenteredDigit(scalar, p, h, q, m, d, rest);
  }

  lemma CenteredDigit(n: int, p: int, h: int, q: int, m: int, d: int, rest: int)
    requires p == 2 * h && h % 2 == 0 && 0 <= m < p && m % 2 == 1 && n == p * q + m
    requires d == (if m > h - 1 then m - p else m) && rest == (if d < 0 then q + 1 else q)
    ensures n == d + p * rest && d % 2 == 1 && -(h - 1) <= d <= h - 1
  {
    assert p * (q + 1) == p * q + p;
  }

  lemma OddRemainder(n: int, h: int, q: int, m: int)
    requires n == (2 * h) * q + m && n % 2 == 1
    ensures m % 2 == 1
  {
    assert (2 * h) * q == 2 * (h * q);
  }

  /** An odd step that empties the scalar writes its digit alone. */
  lemma OddLastStep(s: seq<int8>, scalar: nat, scalar0: int, w: nat, d: int8)
    requires 2 <= w <= 8 && Partial(s, scalar, scalar0, w) && scalar % 2 == 1
    requires scalar == d && WindowDigit(d, w)
    ensures |s| <= 64 && Partial(s + [d], 0, scalar0, w)
  {
    AppendDigit(s, d, w);
  }

  /** Any other odd step writes its digit and w - 1 zeros, still inside the 65 places. */
  lemma OddStep(s: seq<int8>, scalar: nat, scalar0: int, w: nat, d: int8, rest: nat)
    requires 2 <= w <= 8 && Partial(s, scalar, scalar0, w) && scalar % 2 == 1
    requires WindowDigit(d, w) && d != 0 && scalar == d + Pow2(w) * rest && rest > 0
    requires rest == if d < 0 then scalar / Pow2(w) + 1 else scalar / Pow2(w)
    requires scalar % Pow2(w) > Pow2(w - 1) - 1 || scalar / Pow2(w) > 0
    ensures |s| + w <= 64 && Partial(s + [d] + Zeros(w - 1), rest, scalar0, w)
  {
    hide DigitSum;
    hide Spaced;
    hide Pow2;
    SpillRoom(scalar, 64 - |s|, w);
    RestFits(scalar, 64 - |s|, w, rest);
    AppendDigit(s, d, w);
    AppendZeros(s + [d], w - 1, w);
    Pow2Adds(|s|, w);
    WeightedRest(Pow2(|s|), Pow2(w), Pow2(|s| + w), scalar, d, rest);
  }

  lemma WeightedRest(a: int, b: int, ab: int, n: int, d: int, rest: int)
    requires ab == a * b && n == d + b * rest
    ensures a * n == a * d + ab * rest
  {
    assert a * (b * rest) == ab * rest;
  }

  /** An odd step: the digit, what is left, and the new prefix. */
  lemma OddTransition(s: seq<int8>, scalar: nat, scalar0: int, w: nat) returns (d: int8, rest: nat)
    requires 2 <= w <= 8 && Partial(s, scalar, scalar0, w) && scalar % 2 == 1
    ensures d == if scalar % Pow2(w) > Pow2(w - 1) - 1 then scalar % Pow2(w) - Pow2(w) else scalar % Pow2(w)
    ensures rest == if d < 0 then scalar / Pow2(w) + 1 else scalar / Pow2(w)
    ensures |s| <= 64 && (rest != 0 ==> |s| + w <= 64)
    ensures Partial(s + [d] + Zeros(if rest != 0 then w - 1 else 0), rest, scalar0, w)
  {
    hide Partial;
    hide WindowDigit;
    hide Pow2;
    d, rest := OddDigit(scalar, w);
    if rest != 0 {
      OddStep(s, scalar, scalar0, w, d, rest);
    } else {
      OddLastStep(s, scalar, scalar0, w, d);
      assert s + [d] + Zeros(0) == s + [d];
    }
  }

  /** The digit, and the w - 1 zeros unless the scalar is used up. */
  method WriteWindow(digits: array<int8>, start: nat, digit: int8, w: nat, more: bool) returns (index: nat)
    requires w >= 1 && start < digits.Length && (more ==> start + w <= digits.Length)
    modifies digits
    ensures index == if more then start + w - 1 else start
    ensures digits[..index + 1] == old(digits[..start]) + [digit] + Zeros(if more then w - 1 else 0)
  {
    index := start;
    digits[index] := digit;
    if more {
      ghost var s := digits[..start + 1];
      for i := 0 to w - 1
        invariant index == start + i
        invariant digits[..index + 1] == s + Zeros(i)
      {
        index := index + 1;
        digits[index] := 0;
      }
    }
  }

  /** One pass of the recoding loop. */
  method WNafStep(digits: array<int8>, start: nat, scalar: nat, w: nat, ghost scalar0: int) returns (index: nat, rest: nat)
    requires 2 <= w <= 8 && digits.Length == 65 && start <= 65
    requires Partial(digits[..start], scalar, scalar0, w) && scalar != 0
    modifies digits
    ensures start < index <= 65
    ensures Partial(digits[..index], rest, scalar0, w)
  {
    hide DigitSum;
    hide Pow2;
    var val1, val2 := Pow2(w - 1) - 1, Pow2(w);
    ghost var s := digits[..start];
    if scalar % 2 == 0 {
      EvenStep(s, scalar, scalar0, w);
      rest := scalar / 2;
      digits[start] := 0;
      index := start;
      assert digits[..start + 1] == s + [0];
    } else {
      ghost var d, r := OddTransition(s, scalar, scalar0, w);
      var digit := scalar % val2;
      rest := scalar / val2;
      if digit > val1 { digit := digit - val2; }
      if digit < 0 { rest := rest + 1; }
      index := WriteWindow(digits, start, digit, w, rest != 0);
    }
    index := index + 1;
  }

  /** The zeros after the last digit. */
  method ZeroRest(digits: array<int8>, index: nat)
    requires index <= digits.Length
    modifies digits
    ensures digits[..] == old(digits[..index]) + Zeros(digits.Length - index)
  {
    for k := index to digits.Length
      invariant digits[..index] == old(digits[..index])
      invariant forall i :: index <= i < k ==> digits[i] == 0
    {
      digits[k] := 0;
    }
  }

  /** Recode scalar with window w. Exactly digits[0..65] are written; no write falls outside. */
  method WNafRecode(scalar0: word, w: nat, digits: array<int8>)
    requires 2 <= w <= 8 && digits.Length == 65
    modifies digits
    ensures DigitSum(digits[..]) == scalar0
    ensures forall i :: 0 <= i < 65 ==> WindowDigit(digits[i], w)
    ensures Spaced(digits[..], w)
  {
    var scalar: nat, index := scalar0, 0;
    PartialStart(scalar0, w);
    assert digits[..0] == [];
    while scalar != 0
      invariant 0 <= index <= 65
      invariant Partial(digits[..index], scalar, scalar0, w)
      decreases 65 - index
    {
      index, scalar := WNafStep(digits, index, scalar, w, scalar0);
    }
    ghost var s := digits[..index];
    ZeroRest(digits, index);
    AppendZeros(s, 65 - index, w);
    forall i | 0 <= i < 65 ensures WindowDigit(digits[i], w) {
      assert digits[..][i] == if i < index then s[i] else 0;
    }
  }

  lemma PartialStart(scalar0: word, w: nat)
    requires w >= 1
    ensures Partial([], scalar0, scalar0, w)
  {
    Pow2Is64();
  }
}
