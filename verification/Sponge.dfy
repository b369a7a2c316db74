/** The KangarooTwelve sponge: a 200-byte state at rate 168 around a permutation of 25 lanes, absorbed by whole
    blocks, by aligned lanes and by shifted lanes, against absorption one byte at a time. */
module Sponge {
  import opened Words
  import opened ModArith
  import opened Bytes

  const RATE := 168

  type state = s: seq<byte> | |s| == 200 witness Zeros(200)
  type lanes = l: seq<word> | |l| == 25 witness seq(25, _ => 0)
  type permutation = state -> state

  // ---------------------------------------------------------------- bytes and lanes

  function Lane(s: state, k: nat): word
    requires k < 25
  {
    LeWord(s[8 * k..8 * k + 8]);
    Le(s[8 * k..8 * k + 8])
  }

  function Lanes(s: state): lanes {
    seq(25, k requires 0 <= k < 25 => Lane(s, k))
  }

  function ByteOf(l: lanes, i: nat): byte
    requires i < 200
  {
    ToBytes(l[i / 8], 8)[i % 8]
  }

  function StateOf(l: lanes): state {
    seq(200, i requires 0 <= i < 200 => ByteOf(l, i))
  }

  lemma StateOfLanes(s: state)
    ensures StateOf(Lanes(s)) == s
  {
    forall i | 0 <= i < 200
      ensures ByteOf(Lanes(s), i) == s[i]
    {
      ByteOfLanes(s, i, i / 8, i % 8);
    }
  }

  lemma ByteOfLanes(s: state, i: nat, k: nat, m: nat)
    requires i < 200 && k == i / 8 && m == i % 8
    ensures ByteOf(Lanes(s), i) == s[i]
  {
    assert i == 8 * k + m;
    var cell := s[8 * k..8 * k + 8];
    ToBytesLe(cell);
    assert cell[m] == s[i];
  }

  lemma LanesOfState(l: lanes)
    ensures Lanes(StateOf(l)) == l
  {
    forall k | 0 <= k < 25
      ensures Lane(StateOf(l), k) == l[k]
    {
      LaneOfState(l, k);
    }
  }

  lemma BytesOfLane(l: lanes, k: nat)
    requires k < 25
    ensures StateOf(l)[8 * k..8 * k + 8] == ToBytes(l[k], 8)
  {
    var b, c := StateOf(l)[8 * k..8 * k + 8], ToBytes(l[k], 8);
    forall m | 0 <= m < 8
      ensures b[m] == c[m]
    {
      ByteInLane(l, 8 * k + m, k, m);
    }
  }

  lemma ByteInLane(l: lanes, i: nat, k: nat, m: nat)
    requires k < 25 && m < 8 && i == 8 * k + m
    ensures i < 200 && ByteOf(l, i) == ToBytes(l[k], 8)[m]
  {
    assert i / 8 == k && i % 8 == m;
  }

  lemma LaneOfState(l: lanes, k: nat)
    requires k < 25
    ensures Lane(StateOf(l), k) == l[k]
  {
    BytesOfLane(l, k);
    Pow2Is64();
    LeToBytes(l[k], 8);
  }

  /** The permutation seen on lanes. */
  function OnLanes(f: permutation, l: lanes): lanes {
    Lanes(f(StateOf(l)))
  }

  // ---------------------------------------------------------------- byte at a time

  datatype Sponge = Sponge(s: state, i: nat)

  function AbsorbByte(f: permutation, p: Sponge, b: byte): (q: Sponge)
    requires p.i < RATE
    ensures q.i < RATE
  {
    var s := p.s[p.i := Xor(p.s[p.i], b)];
    if p.i + 1 == RATE then Sponge(f(s), 0) else Sponge(s, p.i + 1)
  }

  function Absorbed(f: permutation, p: Sponge, data: seq<byte>): (q: Sponge)
    requires p.i < RATE
    ensures q.i < RATE
    decreases |data|
  {
    if data == [] then p else Absorbed(f, AbsorbByte(f, p, data[0]), data[1..])
  }

  lemma {:induction false} AbsorbedIndex(f: permutation, p: Sponge, data: seq<byte>)
    requires p.i < RATE
    ensures Absorbed(f, p, data).i == (p.i + |data|) % RATE
    decreases |data|
  {
    if data == [] {
      ModSmall(p.i, RATE);
    } else {
      AbsorbedIndex(f, AbsorbByte(f, p, data[0]), data[1..]);
      IndexStep(p.i, |data| - 1);
    }
  }

  lemma IndexStep(i: nat, n: nat)
    requires i < RATE
    ensures ((if i + 1 == RATE then 0 else i + 1) + n) % RATE == (i + (n + 1)) % RATE
  {
    if i + 1 == RATE {
      ModShift(n, 1, RATE);
    }
  }

  /** Absorbing x and then y is absorbing x followed by y. */
  lemma {:induction false} AbsorbedConcat(f: permutation, p: Sponge, x: seq<byte>, y: seq<byte>)
    requires p.i < RATE
    ensures Absorbed(f, Absorbed(f, p, x), y) == Absorbed(f, p, x + y)
    decreases |x|
  {
    if x == [] {
      assert x + y == y;
    } else {
      assert (x + y)[1..] == x[1..] + y;
      AbsorbedConcat(f, AbsorbByte(f, p, x[0]), x[1..], y);
    }
  }

  /** Exclusive or of data into the state from byte o on. */
  function XorInto(s: state, o: nat, data: seq<byte>): state
    requires o + |data| <= 200
  {
    seq(200, k requires 0 <= k < 200 => if o <= k < o + |data| then Xor(s[k], data[k - o]) else s[k])
  }

  lemma XorIntoTwice(s: state, o: nat, x: seq<byte>, y: seq<byte>)
    requires o + |x| + |y| <= 200
    ensures XorInto(XorInto(s, o, x), o + |x|, y) == XorInto(s, o, x + y)
  {
  }

  lemma XorByteZero(a: byte)
    ensures Xor(a, 0) == a && Xor(0, a) == a
  {
    PowersOf256();
    XorZero(a, 8);
  }

  lemma XorIntoPadded(s: state, o: nat, m: nat, x: seq<byte>, n: nat)
    requires o + m + |x| + n <= 200
    ensures XorInto(s, o, Zeros(m) + x + Zeros(n)) == XorInto(s, o + m, x)
  {
    var z := Zeros(m) + x + Zeros(n);
    forall k | 0 <= k < 200
      ensures XorInto(s, o, z)[k] == XorInto(s, o + m, x)[k]
    {
      hide Xor;
      XorByteZero(s[k]);
      if o + m <= k < o + m + |x| {
        assert z[k - o] == x[k - o - m];
      } else if o <= k < o + |z| {
        assert z[k - o] == 0;
      }
    }
  }

  /** Data that does not overflow the block: one exclusive or, and one permutation exactly when the block fills. */
  lemma {:induction false} AbsorbedWithinBlock(f: permutation, p: Sponge, data: seq<byte>)
    requires data != [] && p.i + |data| <= RATE
    ensures var s := XorInto(p.s, p.i, data);
            Absorbed(f, p, data) == if p.i + |data| < RATE then Sponge(s, p.i + |data|) else Sponge(f(s), 0)
    decreases |data|
  {
    var b := data[0];
    assert p.s[p.i := Xor(p.s[p.i], b)] == XorInto(p.s, p.i, [b]);
    if |data| == 1 {
      assert data == [b];
    } else {
      AbsorbedWithinBlock(f, AbsorbByte(f, p, b), data[1..]);
      XorIntoTwice(p.s, p.i, [b], data[1..]);
      assert [b] + data[1..] == data;
    }
  }

  // ---------------------------------------------------------------- the state in memory

  /** `((uint64_t*)state)[j] ^= lane`, where lane holds the little-endian bytes b. */
  method XorLane(state: array<byte>, j: nat, lane: word, ghost b: seq<byte>)
    requires state.Length == 200 && j < 25 && |b| == 8 && lane == Le(b)
    modifies state
    ensures state[..] == XorInto(old(state[..]), 8 * j, b)
  {
    ghost var s := state[..];
    var bytes := XoredCell(state[8 * j..8 * j + 8], lane, b);
    for k := 0 to 8
      invariant state[..] == XorInto(s, 8 * j, b[..k])
    {
      state[8 * j + k] := bytes[k];
    }
    assert b[..8] == b;
  }

  method XoredCell(cell: seq<byte>, lane: word, ghost b: seq<byte>) returns (bytes: seq<byte>)
    requires |cell| == |b| == 8 && lane == Le(b)
    ensures bytes == XorSeq(cell, b)
  {
    bytes := ToBytes(XorBits(Le(cell), lane, 64), 8);
    XorLe(cell, b);
    ToBytesLe(XorSeq(cell, b));
  }

  lemma WordOfBytes(b: seq<byte>)
    requires |b| <= 8
    ensures Le(b) == Le(b + Zeros(8 - |b|)) < W
  {
    hide Le;
    LeHighZeros(b, 8 - |b|);
    LeWord(b + Zeros(8 - |b|));
  }

  /** The partial block when the sponge stands at byte 0: whole lanes, then one short lane. */
  method AbsorbAligned(state: array<byte>, data: seq<byte>)
    requires state.Length == 200 && |data| <= RATE
    modifies state
    ensures state[..] == XorInto(old(state[..]), 0, data)
  {
    ghost var s := state[..];
    assert s == XorInto(s, 0, []);
    for j := 0 to |data| / 8
      invariant state[..] == XorInto(s, 0, data[..8 * j])
    {
      var cell := data[8 * j..8 * j + 8];
      WordOfBytes(cell);
      assert cell + Zeros(0) == cell;
      XorLane(state, j, Le(cell), cell);
      XorIntoTwice(s, 0, data[..8 * j], cell);
      assert data[..8 * j] + cell == data[..8 * j + 8];
    }
    var whole := |data| / 8 * 8;
    if |data| % 8 != 0 {
      var tail := data[whole..];
      WordOfBytes(tail);
      XorLane(state, |data| / 8, Le(tail), tail + Zeros(8 - |tail|));
      PaddedTail(s, whole, data[..whole], tail, 8 - |tail|);
      assert data[..whole] + tail == data;
    } else {
      assert data[..whole] == data;
    }
  }

  lemma PaddedTail(s: state, o: nat, x: seq<byte>, y: seq<byte>, n: nat)
    requires |x| == o && o + |y| + n <= 200
    ensures XorInto(XorInto(s, 0, x), o, y + Zeros(n)) == XorInto(s, 0, x + y)
  {
    assert Zeros(0) + y + Zeros(n) == y + Zeros(n);
    XorIntoPadded(XorInto(s, 0, x), o, 0, y, n);
    XorIntoTwice(s, 0, x, y);
  }

  /** The bytes that still fit the current lane, moved up to their place in it. */
  method XorShifted(state: array<byte>, lanePosition: nat, offsetInLane: nat, data: seq<byte>)
    requires state.Length == 200 && lanePosition < 25 && offsetInLane + |data| <= 8
    modifies state
    ensures state[..] == XorInto(old(state[..]), 8 * lanePosition + offsetInLane, data)
  {
    ghost var n := 8 - offsetInLane - |data|;
    var lane := ShiftLane(data, offsetInLane, n);
    XorLane(state, lanePosition, lane, Zeros(offsetInLane) + data + Zeros(n));
    XorIntoPadded(old(state[..]), 8 * lanePosition, offsetInLane, data, n);
  }

  /** `lane << (offset << 3)` for a lane loaded from data. */
  method ShiftLane(data: seq<byte>, offset: nat, ghost n: nat) returns (lane: word)
    requires offset + |data| + n == 8
    ensures lane == Le(Zeros(offset) + data + Zeros(n))
  {
    ShiftedLane(offset, data, n);
    lane := Le(data) * Pow2(8 * offset) % W;
  }

  lemma ShiftedLane(m: nat, data: seq<byte>, n: nat)
    requires m + |data| + n == 8
    ensures Le(data) * Pow2(8 * m) % W == Le(Zeros(m) + data + Zeros(n))
  {
    LeLowZeros(m, data);
    LeHighZeros(Zeros(m) + data, n);
    LeWord(Zeros(m) + data + Zeros(n));
    ModSmall(Le(Zeros(m) + data + Zeros(n)), W);
    Swap(Le(data), Pow2(8 * m));
  }

  lemma Swap(a: int, b: int)
    ensures a * b == b * a
  {
  }

  method XorPiece(state: array<byte>, lanePosition: nat, offsetInLane: nat, byteIOIndex: nat, data: seq<byte>,
                  cur: nat, next: nat, ghost s: state)
    requires state.Length == 200 && lanePosition < 25 && cur <= next <= |data| && byteIOIndex + |data| <= RATE
    requires 8 * lanePosition + offsetInLane == byteIOIndex + cur && offsetInLane + (next - cur) <= 8
    requires state[..] == XorInto(s, byteIOIndex, data[..cur])
    modifies state
    ensures state[..] == XorInto(s, byteIOIndex, data[..next])
  {
    XorShifted(state, lanePosition, offsetInLane, data[cur..next]);
    XorIntoTwice(s, byteIOIndex, data[..cur], data[cur..next]);
    SliceJoins(data, cur, next);
  }

  /** The partial block anywhere else: the rest of the first lane, then lane by lane. */
  method AbsorbUnaligned(state: array<byte>, byteIOIndex: nat, data: seq<byte>)
    requires state.Length == 200 && byteIOIndex + |data| <= RATE
    modifies state
    ensures state[..] == XorInto(old(state[..]), byteIOIndex, data)
  {
    ghost var s := state[..];
    var sizeLeft: nat, cur: nat := |data|, 0;
    var lanePosition, offsetInLane := byteIOIndex / 8, byteIOIndex % 8;
    assert s == XorInto(s, byteIOIndex, []);
    while sizeLeft > 0
      invariant cur + sizeLeft == |data| && 0 <= offsetInLane < 8
      invariant sizeLeft > 0 ==> 8 * lanePosition + offsetInLane == byteIOIndex + cur
      invariant state[..] == XorInto(s, byteIOIndex, data[..cur])
    {
      var bytesInLane := 8 - offsetInLane;
      if bytesInLane > sizeLeft {
        bytesInLane := sizeLeft;
      }
      if bytesInLane > 0 {
        XorPiece(state, lanePosition, offsetInLane, byteIOIndex, data, cur, cur + bytesInLane, s);
      }
      sizeLeft := sizeLeft - bytesInLane;
      lanePosition := lanePosition + 1;
      offsetInLane := 0;
      cur := cur + bytesInLane;
    }
    assert data[..cur] == data;
  }

  // ---------------------------------------------------------------- whole blocks

  /** One lane of a block absorbed into the loaded state. */
  lemma XoredLane(s: state, block: seq<byte>, k: nat)
    requires |block| == RATE && k < 25
    ensures k < 21 ==> Lane(XorInto(s, 0, block), k) == XorBits(Lane(s, k), Le(block[8 * k..8 * k + 8]), 64)
    ensures k >= 21 ==> Lane(XorInto(s, 0, block), k) == Lane(s, k)
  {
    var r := XorInto(s, 0, block);
    if k < 21 {
      assert r[8 * k..8 * k + 8] == XorSeq(s[8 * k..8 * k + 8], block[8 * k..8 * k + 8]);
      XorLe(s[8 * k..8 * k + 8], block[8 * k..8 * k + 8]);
    } else {
      assert r[8 * k..8 * k + 8] == s[8 * k..8 * k + 8];
    }
  }

  method CopyFromState(state: array<byte>) returns (a: array<word>)
    requires state.Length == 200
    ensures fresh(a) && a.Length == 25 && a[..] == Lanes(state[..])
  {
    a := new word[25];
    for k := 0 to 25
      invariant forall m :: 0 <= m < k ==> a[m] == Lane(state[..], m)
    {
      LeWord(state[8 * k..8 * k + 8]);
      assert state[..][8 * k..8 * k + 8] == state[8 * k..8 * k + 8];
      a[k] := Le(state[8 * k..8 * k + 8]);
    }
  }

  method CopyToState(a: array<word>, state: array<byte>)
    requires state.Length == 200 && a.Length == 25
    modifies state
    ensures state[..] == StateOf(a[..])
  {
    for i := 0 to 200
      invariant forall m :: 0 <= m < i ==> state[m] == ByteOf(a[..], m)
    {
      state[i] := ToBytes(a[i / 8], 8)[i % 8];
    }
  }

  /** One block into lanes 0 to 20. */
  method XorBlock(a: array<word>, block: seq<byte>, ghost s: state)
    requires a.Length == 25 && |block| == RATE && a[..] == Lanes(s)
    modifies a
    ensures a[..] == Lanes(XorInto(s, 0, block))
  {
    ghost var r := XorInto(s, 0, block);
    for k := 0 to 21
      invariant forall m :: 0 <= m < k ==> a[m] == Lane(r, m)
      invariant forall m :: k <= m < 25 ==> a[m] == Lane(s, m)
    {
      XoredLane(s, block, k);
      a[k] := XorBits(a[k], Le(block[8 * k..8 * k + 8]), 64);
    }
    forall m | 21 <= m < 25
      ensures a[m] == Lane(r, m)
    {
      XoredLane(s, block, m);
    }
  }

  method PermuteLanes(f: permutation, a: array<word>)
    requires a.Length == 25
    modifies a
    ensures a[..] == OnLanes(f, old(a[..]))
  {
    var b := OnLanes(f, a[..]);
    for k := 0 to 25
      invariant a[..k] == b[..k]
    {
      a[k] := b[k];
    }
    assert a[..25] == b[..25];
  }

  /** One whole block on the loaded state. */
  method AbsorbBlock(f: permutation, a: array<word>, block: seq<byte>, ghost s: state) returns (ghost s': state)
    requires a.Length == 25 && |block| == RATE && a[..] == Lanes(s)
    modifies a
    ensures a[..] == Lanes(s') && Sponge(s', 0) == Absorbed(f, Sponge(s, 0), block)
  {
    XorBlock(a, block, s);
    PermuteLanes(f, a);
    StateOfLanes(XorInto(s, 0, block));
    AbsorbedWithinBlock(f, Sponge(s, 0), block);
    s' := f(XorInto(s, 0, block));
  }

  lemma AbsorbedNext(f: permutation, p: Sponge, data: seq<byte>, i: nat, j: nat)
    requires p.i < RATE && i <= j <= |data|
    ensures Absorbed(f, Absorbed(f, p, data[..i]), data[i..j]) == Absorbed(f, p, data[..j])
  {
    SliceJoins(data, i, j);
    AbsorbedConcat(f, p, data[..i], data[i..j]);
  }

  lemma SliceJoins(data: seq<byte>, i: nat, j: nat)
    requires i <= j <= |data|
    ensures data[..i] + data[i..j] == data[..j]
  {
  }

  /** As many whole blocks as the data holds, with the state kept in lanes throughout. */
  method AbsorbBlocks(f: permutation, state: array<byte>, data: seq<byte>) returns (left: nat)
    requires state.Length == 200 && |data| >= RATE
    modifies state
    ensures left < RATE && left <= |data|
    ensures Sponge(state[..], 0) == Absorbed(f, Sponge(old(state[..]), 0), data[..|data| - left])
  {
    ghost var p: Sponge, s: state := Sponge(state[..], 0), state[..];
    var a := CopyFromState(state);
    var cur := 0;
    left := |data|;
    while left >= RATE
      invariant left + cur == |data| && 0 <= cur
      invariant a[..] == Lanes(s) && Sponge(s, 0) == Absorbed(f, p, data[..cur])
    {
      s := AbsorbBlock(f, a, data[cur..cur + RATE], s);
      AbsorbedNext(f, p, data, cur, cur + RATE);
      cur := cur + RATE;
      left := left - RATE;
    }
    CopyToState(a, state);
    StateOfLanes(s);
  }

  // ---------------------------------------------------------------- KangarooTwelve_F

  class KangarooTwelveF {
    const state: array<byte>
    var byteIOIndex: nat

    ghost predicate Valid()
      reads this
    {
      state.Length == 200 && byteIOIndex < RATE
    }

    ghost function View(): Sponge
      requires Valid()
      reads this, state
    {
      Sponge(state[..], byteIOIndex)
    }

    constructor ()
      ensures Valid() && fresh(state) && View() == Sponge(Zeros(200), 0)
    {
      state := new byte[200](_ => 0);
      byteIOIndex := 0;
      new;
      assert state[..] == Zeros(200);
    }

    method PermuteState(f: permutation)
      requires state.Length == 200
      modifies state
      ensures state[..] == f(old(state[..]))
    {
      StateOfLanes(state[..]);
      StateOfLanes(f(state[..]));
      var a := CopyFromState(state);
      PermuteLanes(f, a);
      CopyToState(a, state);
    }

    method AbsorbPartial(f: permutation, data: seq<byte>) returns (partialBlock: nat)
      requires Valid() && data != []
      modifies this, state
      ensures Valid() && 0 < partialBlock <= |data|
      ensures View() == Absorbed(f, old(View()), data[..partialBlock])
    {
      if |data| + byteIOIndex > RATE {
        partialBlock := RATE - byteIOIndex;
      } else {
        partialBlock := |data|;
      }
      var part := data[..partialBlock];
      AbsorbedWithinBlock(f, View(), part);
      if byteIOIndex == 0 {
        AbsorbAligned(state, part);
      } else {
        AbsorbUnaligned(state, byteIOIndex, part);
      }
      byteIOIndex := byteIOIndex + partialBlock;
      if byteIOIndex == RATE {
        PermuteState(f);
        byteIOIndex := 0;
      }
    }

    /** Whatever the byte index and the data, the same as absorbing byte by byte. */
    method Absorb(f: permutation, data: seq<byte>)
      requires Valid()
      modifies this, state
      ensures Valid() && View() == Absorbed(f, old(View()), data)
    {
      ghost var p := View();
      var i := 0;
      while i < |data|
        invariant 0 <= i <= |data| && Valid()
        invariant View() == Absorbed(f, p, data[..i])
      {
        ghost var i0 := i;
        if byteIOIndex == 0 && |data| >= i + RATE {
          var left := AbsorbBlocks(f, state, data[i..]);
          i := |data| - left;
        } else {
          var partialBlock := AbsorbPartial(f, data[i..]);
          i := i + partialBlock;
        }
        assert data[i0..][..i - i0] == data[i0..i];
        AbsorbedNext(f, p, data, i0, i);
      }
      assert data[..i] == data;
    }
  }
}
