/** The permutation of the sponge: Keccak-p[1600, 12] on 64-bit words. */
module Permutation {
  import opened Words
  import opened Bytes
  import opened Sponge
  import opened Keccak
  import opened RoundConstants
  import KeccakLoops

  /** The complement of a, and b, on the low n bits. */
  function AndNotBits(a: nat, b: nat, n: nat): nat
    decreases n, a
  {
    if n == 0 then 0 else (1 - a % 2) * (b % 2) + 2 * AndNotBits(a / 2, b / 2, n - 1)
  }

  lemma {:induction false} AndNotBound(a: nat, b: nat, n: nat)
    ensures AndNotBits(a, b, n) < Pow2(n)
    decreases n
  {
    if n > 0 {
      AndNotBound(a / 2, b / 2, n - 1);
      BitProduct(a % 2, b % 2);
    }
  }

  lemma AndNotHalves(a: nat, b: nat, n: nat)
    requires n > 0
    ensures AndNotBits(a, b, n) % 2 == (1 - a % 2) * (b % 2)
    ensures AndNotBits(a, b, n) / 2 == AndNotBits(a / 2, b / 2, n - 1)
  {
    var bit, rest := (1 - a % 2) * (b % 2), AndNotBits(a / 2, b / 2, n - 1);
    assert AndNotBits(a, b, n) == bit + 2 * rest;
    hide AndNotBits;
    BitProduct(a % 2, b % 2);
    LastBit(bit, rest);
  }

  lemma LastBit(bit: int, rest: int)
    requires 0 <= bit < 2
    ensures (bit + 2 * rest) % 2 == bit && (bit + 2 * rest) / 2 == rest
  {
  }

  lemma {:induction false} AndNotBit(a: nat, b: nat, n: nat, i: nat)
    requires i < n
    ensures AndNotBits(a, b, n) / Pow2(i) % 2 == (1 - a / Pow2(i) % 2) * (b / Pow2(i) % 2)
    decreases i
  {
    AndNotHalves(a, b, n);
    if i > 0 {
      AndNotBit(a / 2, b / 2, n - 1, i - 1);
      HalveFirst(a, Pow2(i - 1));
      HalveFirst(b, Pow2(i - 1));
      HalveFirst(AndNotBits(a, b, n), Pow2(i - 1));
    }
  }

  lemma BitProduct(a: nat, b: nat)
    requires a < 2 && b < 2
    ensures 0 <= (1 - a) * b < 2
  {
  }

  function XorWord(a: word, b: word): word {
    XorBound(a, b, 64);
    Pow2Is64();
    XorBits(a, b, 64)
  }

  function AndNotWord(a: word, b: word): word {
    AndNotBound(a, b, 64);
    Pow2Is64();
    AndNotBits(a, b, 64)
  }

  /** `ROL64`: the two shifted parts joined by exclusive or; no shift at offset 0. */
  function RotateLeft(a: word, n: nat): word {
    if n == 0 || n >= 64 then a
    else
      XorBound(a * Pow2(n) % W, a / Pow2(64 - n), 64);
      Pow2Is64();
      XorBits(a * Pow2(n) % W, a / Pow2(64 - n), 64)
  }

  // ---------------------------------------------------------------- what the three operations are

  /** Bit i of the exclusive or. */
  lemma XorWordBit(a: word, b: word, i: nat)
    requires i < 64
    ensures XorWord(a, b) / Pow2(i) % 2 == (a / Pow2(i) % 2 + b / Pow2(i) % 2) % 2
  {
    XorBit(a, b, 64, i);
  }

  /** Bit i of `~a & b`: the first operand is the complemented one. */
  lemma AndNotWordBit(a: word, b: word, i: nat)
    requires i < 64
    ensures AndNotWord(a, b) / Pow2(i) % 2 == (1 - a / Pow2(i) % 2) * (b / Pow2(i) % 2)
  {
    AndNotBit(a, b, 64, i);
  }

  /** The rotation is to the left: the low bits move up by n, the n high bits come in below. */
  lemma RotatedLeft(a: word, n: nat)
    requires 0 < n < 64
    ensures RotateLeft(a, n) == a * Pow2(n) % W + a / Pow2(64 - n)
  {
    hide Pow2;
    hide XorBits;
    var p, q := Pow2(n), Pow2(64 - n);
    Pow2Adds(n, 64 - n);
    Pow2Is64();
    ShiftedParts(a, p, q);
    JoinedParts(a / q, a % q, n, 64 - n);
  }

  /** Parts that do not overlap. */
  lemma JoinedParts(h: nat, l: nat, n: nat, m: nat)
    requires h < Pow2(n) && l < Pow2(m)
    ensures XorBits(Pow2(n) * l, h, n + m) == Pow2(n) * l + h
  {
    hide XorBits;
    hide Pow2;
    XorSplit(0, h, l, 0, n, m);
    XorZero(h, n);
    XorZero(l, m);
  }

  lemma ShiftedParts(a: word, p: nat, q: nat)
    requires p > 0 && q > 0 && p * q == W
    ensures a * p % W == p * (a % q) && a / q < p
  {
    var h, l := a / q, a % q;
    assert a * p == W * h + p * l by {
      assert (q * h + l) * p == (q * h) * p + l * p;
      assert (q * h) * p == (p * q) * h;
    }
    assert p * l <= p * (q - 1) by { MulBound(p, l, p, q - 1); }
    assert p * (q - 1) == p * q - p;
    DivModUnique(a * p, W, h, p * l);
    QuotientBelow(a, p, q);
  }

  lemma QuotientBelow(a: nat, p: nat, q: nat)
    requires q > 0 && a < p * q
    ensures a / q < p
  {
    if p <= a / q {
      MulLe(p, a / q, q);
    }
  }

  function WordOps(): LaneOps<word> {
    LaneOps(XorWord, RotateLeft, AndNotWord)
  }

  function KeccakLanes(l: lanes): lanes {
    Rounds(WordOps(), l, ROUND_CONSTANTS)
  }

  /** The permutation on 200 bytes. */
  function KeccakP(s: state): state {
    StateOf(KeccakLanes(Lanes(s)))
  }

  /** On lanes, the sponge's permutation is the rounds themselves. */
  lemma KeccakOnLanes(l: lanes)
    ensures OnLanes(KeccakP, l) == KeccakLanes(l)
  {
    LanesOfState(l);
    LanesOfState(KeccakLanes(l));
  }

  /** The states of a run: each is the next round of the one before. */
  ghost predicate Run(t: seq<lanes>, rc: seq<word>) {
    |t| == |rc| + 1 && forall i {:trigger rc[i]} :: 0 <= i < |rc| ==> t[i + 1] == Round(WordOps(), t[i], rc[i])
  }

  lemma {:induction false} RunReaches(t: seq<lanes>, rc: seq<word>, n: nat)
    requires Run(t, rc) && n <= |rc|
    ensures t[n] == Rounds(WordOps(), t[0], rc[..n])
  {
    hide Round;
    hide WordOps;
    if n > 0 {
      RunReaches(t, rc, n - 1);
      RoundsSnoc(WordOps(), t[0], rc[..n - 1], rc[n - 1]);
      assert rc[..n - 1] + [rc[n - 1]] == rc[..n];
    }
  }

  /** From the little-endian lanes of s through the rounds, the permutation writes the last state back as bytes. */
  lemma PermutationRuns(s: state, t: seq<lanes>, last: lanes, k: nat)
    requires |t| == 13 && t[12] == last && Run(t, ROUND_CONSTANTS) && k < 25
    requires forall j :: 0 <= j < 25 ==> t[0][j] == Le(s[8 * j..8 * j + 8])
    ensures KeccakP(s)[8 * k..8 * k + 8] == ToBytes(last[k], 8)
  {
    hide Run;
    hide Rounds;
    RunReaches(t, ROUND_CONSTANTS, 12);
    assert ROUND_CONSTANTS[..12] == ROUND_CONSTANTS;
    assert t[0] == Lanes(s);
    BytesOfLane(last, k);
  }

  /** The unrolled rounds on lanes in memory. */
  method UnrolledRounds(a: array<word>)
    requires a.Length == 25
    modifies a
    ensures a[..] == OnLanes(KeccakP, old(a[..]))
  {
    KeccakOnLanes(a[..]);
    Rounds12(WordOps(), a, ROUND_CONSTANTS);
  }

  /** The loop-and-table rounds on the 5 by 5 array. */
  method LoopRounds(l: array2<word>, ghost s: lanes)
    requires KeccakLoops.Shows(l, s)
    modifies l
    ensures KeccakLoops.Shows(l, OnLanes(KeccakP, s))
  {
    KeccakOnLanes(s);
    KeccakLoops.KeccakP160012(WordOps(), l, ROUND_CONSTANTS, s);
  }
}
