/** The KangarooTwelve driver against KT128 of RFC 9861 with an empty customization string. */
module KangarooTwelve {
  import opened Words
  import opened Bytes
  import opened Sponge

  const CHUNK := 8192
  const LEAF: byte := 0x0B

  // ---------------------------------------------------------------- the standard

  /** M || D, zero bytes up to a whole number of blocks, and 80 into the last byte. */
  function Padded(m: seq<byte>, d: byte): (r: seq<byte>)
    ensures |r| % RATE == 0 && |r| > |m|
  {
    var q := m + [d];
    var r := q + Zeros(Fill(|q|));
    r[|r| - 1 := Xor(r[|r| - 1], 0x80)]
  }

  function Fill(n: nat): (z: nat)
    ensures (n + z) % RATE == 0 && z < RATE
  {
    if n % RATE == 0 then 0 else RATE - n % RATE
  }

  /** Block by block from the zero state. */
  function AbsorbedBlocks(f: permutation, s: state, blocks: seq<byte>): state
    requires |blocks| % RATE == 0
    decreases |blocks|
  {
    if blocks == [] then s
    else AbsorbedBlocks(f, f(XorInto(s, 0, blocks[..RATE])), blocks[RATE..])
  }

  /** TurboSHAKE128 for outputs of one block (RFC 9861, section 2.2). */
  function TurboShake128(f: permutation, m: seq<byte>, d: byte, len: nat): (r: seq<byte>)
    requires len <= RATE
    ensures |r| == len
  {
    AbsorbedBlocks(f, Zeros(200), Padded(m, d))[..len]
  }

  /** The big-endian digits of x base 256, none for zero. */
  function BigEndian(x: nat): seq<byte> {
    if x == 0 then [] else BigEndian(x / 256) + [x % 256]
  }

  /** length_encode (RFC 9861, section 3.3); below 256^255 the digit count is a byte. */
  function LengthEncode(x: nat): seq<byte>
    requires |BigEndian(x)| < 256
  {
    BigEndian(x) + [|BigEndian(x)|]
  }

  /** The chaining values of the chunks of s. */
  function ChainingValues(f: permutation, s: seq<byte>): seq<byte>
    decreases |s|
  {
    if s == [] then []
    else if |s| <= CHUNK then TurboShake128(f, s, LEAF, 32)
    else TurboShake128(f, s[..CHUNK], LEAF, 32) + ChainingValues(f, s[CHUNK..])
  }

  function Chunks(n: nat): nat {
    (n + CHUNK - 1) / CHUNK
  }

  /** The first chunk and the marker 03 00 00 00 00 00 00 00. */
  function Head(s: seq<byte>): seq<byte>
    requires |s| >= CHUNK
  {
    s[..CHUNK] + [0x03, 0, 0, 0, 0, 0, 0, 0]
  }

  /** The final node of a message of more than one chunk. */
  function FinalNode(f: permutation, s: seq<byte>): seq<byte>
    requires CHUNK < |s| <= 0x1_0000_0000
  {
    Head(s) + ChainingValues(f, s[CHUNK..]) + Trailer(Leaves(|s|))
  }

  /** The number of chunks after the first. */
  function Leaves(n: nat): (k: nat)
    requires CHUNK < n <= 0x1_0000_0000
    ensures k + 1 == Chunks(n) && |BigEndian(k)| < 8
  {
    BlocksFitFourBytes(n);
    Chunks(n) - 1
  }

  /** The leaf count and FF FF. */
  function Trailer(leaves: nat): seq<byte>
    requires |BigEndian(leaves)| < 8
  {
    LengthEncode(leaves) + [0xFF, 0xFF]
  }

  /** KT128(M, empty, len) of RFC 9861, section 3.2: S = M || length_encode(0). */
  function Kt128(f: permutation, m: seq<byte>, len: nat): (r: seq<byte>)
    requires |m| < 0x1_0000_0000 && len <= RATE
    ensures |r| == len
  {
    var s := m + LengthEncode(0);
    if |s| <= CHUNK then TurboShake128(f, s, 0x07, len)
    else TurboShake128(f, FinalNode(f, s), 0x06, len)
  }

  lemma BlocksFitFourBytes(n: nat)
    requires CHUNK < n <= 0x1_0000_0000
    ensures 0 < Chunks(n) && |BigEndian(Chunks(n) - 1)| < 8
  {
    ShortEncoding(Chunks(n) - 1, 4);
  }

  lemma {:induction false} ShortEncoding(x: nat, n: nat)
    requires x < Pow256(n)
    ensures |BigEndian(x)| <= n
  {
    if x > 0 && n > 0 {
      ShortEncoding(x / 256, n - 1);
    }
  }

  // ---------------------------------------------------------------- closing a sponge

  function Start(): Sponge { Sponge(Zeros(200), 0) }

  /** The domain byte at the index and 80 at the end of the block. */
  function Closed(p: Sponge, d: byte): state
    requires p.i < RATE
  {
    var t := p.s[p.i := Xor(p.s[p.i], d)];
    t[RATE - 1 := Xor(t[RATE - 1], 0x80)]
  }

  lemma {:induction false} BlocksAreBytes(f: permutation, s: state, blocks: seq<byte>)
    requires |blocks| % RATE == 0
    ensures Sponge(AbsorbedBlocks(f, s, blocks), 0) == Absorbed(f, Sponge(s, 0), blocks)
    decreases |blocks|
  {
    if blocks != [] {
      var block, rest := blocks[..RATE], blocks[RATE..];
      var s' := f(XorInto(s, 0, block));
      BlocksAreBytes(f, s', rest);
      AbsorbedWithinBlock(f, Sponge(s, 0), block);
      JoinedBlocks(f, s, blocks, block, rest);
    }
  }

  lemma JoinedBlocks(f: permutation, s: state, blocks: seq<byte>, block: seq<byte>, rest: seq<byte>)
    requires blocks == block + rest
    ensures Absorbed(f, Absorbed(f, Sponge(s, 0), block), rest) == Absorbed(f, Sponge(s, 0), blocks)
  {
    AbsorbedConcat(f, Sponge(s, 0), block, rest);
  }

  /** What Padded adds after m. */
  function Tail(d: byte, z: nat): (t: seq<byte>)
    ensures |t| == z + 1
  {
    var t := [d] + Zeros(z);
    t[z := Xor(t[z], 0x80)]
  }

  lemma PaddedIsTail(m: seq<byte>, d: byte)
    ensures Padded(m, d) == m + Tail(d, Fill(|m| + 1))
  {
  }

  lemma FillsBlock(n: nat)
    ensures n % RATE + Fill(n + 1) + 1 == RATE
  {
  }

  lemma XorByteAssociates(a: byte, b: byte, c: byte)
    ensures Xor(Xor(a, b), c) == Xor(a, Xor(b, c))
  {
    XorAssociates(a, b, c, 8);
  }

  lemma ClosedIsXor(p: Sponge, d: byte, z: nat)
    requires p.i + z + 1 == RATE
    ensures XorInto(p.s, p.i, Tail(d, z)) == Closed(p, d)
  {
    var r, c := XorInto(p.s, p.i, Tail(d, z)), Closed(p, d);
    forall k | 0 <= k < 200
      ensures r[k] == c[k]
    {
      ClosedByte(p, d, z, k);
    }
  }

  lemma ClosedByte(p: Sponge, d: byte, z: nat, k: nat)
    requires p.i + z + 1 == RATE && k < 200
    ensures XorInto(p.s, p.i, Tail(d, z))[k] == Closed(p, d)[k]
  {
    var a, last := p.s[k], RATE - 1;
    XorByteZero(a);
    XorByteZero(0x80);
    if k == p.i == last {
      XorByteAssociates(a, d, 0x80);
    }
  }

  lemma ClosingTail(f: permutation, p: Sponge, d: byte, z: nat)
    requires p.i + z + 1 == RATE
    ensures Absorbed(f, p, Tail(d, z)) == Sponge(f(Closed(p, d)), 0)
  {
    AbsorbedWithinBlock(f, p, Tail(d, z));
    ClosedIsXor(p, d, z);
  }

  lemma AbsorbedJoin(f: permutation, x: seq<byte>, y: seq<byte>, z: seq<byte>)
    requires x + y == z
    ensures Absorbed(f, Absorbed(f, Start(), x), y) == Absorbed(f, Start(), z)
  {
    AbsorbedConcat(f, Start(), x, y);
  }

  lemma AbsorbedTail(f: permutation, m: seq<byte>, d: byte, z: nat, r: seq<byte>)
    requires m + Tail(d, z) == r && Absorbed(f, Start(), m).i + z + 1 == RATE
    ensures Absorbed(f, Start(), r) == Sponge(f(Closed(Absorbed(f, Start(), m), d)), 0)
  {
    var t := Tail(d, z);
    AbsorbedJoin(f, m, t, r);
    ClosingTail(f, Absorbed(f, Start(), m), d, z);
  }

  lemma AbsorbedPadding(f: permutation, m: seq<byte>, d: byte)
    ensures Absorbed(f, Start(), Padded(m, d)) == Sponge(f(Closed(Absorbed(f, Start(), m), d)), 0)
  {
    AbsorbedIndex(f, Start(), m);
    FillsBlock(|m|);
    PaddedIsTail(m, d);
    AbsorbedTail(f, m, d, Fill(|m| + 1), Padded(m, d));
  }

  /** Absorbing byte by byte and closing is TurboSHAKE128 on padded blocks. */
  lemma ClosedIsTurbo(f: permutation, m: seq<byte>, d: byte, len: nat)
    requires len <= RATE
    ensures f(Closed(Absorbed(f, Start(), m), d))[..len] == TurboShake128(f, m, d, len)
  {
    BlocksAreBytes(f, Zeros(200), Padded(m, d));
    AbsorbedPadding(f, m, d);
  }

  // ---------------------------------------------------------------- length_encode

  lemma {:induction false} BigEndianDigit(v: nat, k: nat)
    requires k < |BigEndian(v)|
    ensures Pow256(|BigEndian(v)| - 1 - k) > 0
    ensures BigEndian(v)[k] == v / Pow256(|BigEndian(v)| - 1 - k) % 256
  {
    var n := |BigEndian(v)|;
    Pow256Positive(n - 1 - k);
    if k < n - 1 {
      BigEndianDigit(v / 256, k);
      DivideTwice(v, Pow256(n - 2 - k));
    }
  }

  /** The digit count is the least that fits. */
  lemma {:induction false} DigitCount(v: nat)
    ensures v < Pow256(|BigEndian(v)|)
    ensures v > 0 ==> |BigEndian(v)| > 0 && v >= Pow256(|BigEndian(v)| - 1)
  {
    if v > 0 {
      DigitCount(v / 256);
      if v / 256 == 0 {
        assert BigEndian(v / 256) == [];
      }
    }
  }

  /** What follows the chaining values: the least number n of big-endian digits that holds the leaf count, then n, then
      FF FF. */
  lemma TrailerLayout(leaves: nat, t: seq<byte>, n: nat, k: nat)
    requires |BigEndian(leaves)| < 8 && t == Trailer(leaves) && n + 3 == |t|
    ensures leaves < Pow256(n) && (n > 0 ==> leaves >= Pow256(n - 1))
    ensures k < n ==> Pow256(n - 1 - k) > 0 && t[k] == leaves / Pow256(n - 1 - k) % 256
    ensures t[n] == n && t[n + 1] == 0xFF && t[n + 2] == 0xFF
  {
    CountAndMarks(BigEndian(leaves), t);
    DigitCount(leaves);
    assert leaves == 0 ==> BigEndian(leaves) == [];
    hide BigEndian;
    if k < n {
      BigEndianDigit(leaves, k);
    }
  }

  lemma CountAndMarks(d: seq<byte>, t: seq<byte>)
    requires |d| < 8 && t == d + [|d|] + [0xFF, 0xFF]
    ensures |t| == |d| + 3 && t[|d|] == |d| && t[|d| + 1] == 0xFF && t[|d| + 2] == 0xFF
    ensures forall k :: 0 <= k < |d| ==> t[k] == d[k]
  {
  }

  /** `x >> (8 * n)`. */
  method ShiftDown(x: nat, n: nat) returns (r: nat)
    ensures Pow256(n) > 0 && r == x / Pow256(n)
  {
    r := x;
    var i := 0;
    while i < n
      invariant 0 <= i <= n && Pow256(i) > 0 && r == x / Pow256(i)
    {
      DivideLast(x, Pow256(i));
      r := r / 256;
      i := i + 1;
    }
  }

  lemma DivideLast(v: nat, p: nat)
    requires p > 0
    ensures v / p / 256 == v / (256 * p)
  {
    var a := v / p;
    LastDigit(p, a / 256, a % 256, v % p);
    DivModUnique(v, 256 * p, a / 256, p * (a % 256) + v % p);
  }

  lemma LastDigit(p: int, a1: int, a0: int, r: int)
    requires 0 <= a0 < 256 && 0 <= r < p
    ensures p * (256 * a1 + a0) + r == (256 * p) * a1 + (p * a0 + r)
    ensures 0 <= p * a0 + r < 256 * p
  {
    assert p * (256 * a1 + a0) == p * (256 * a1) + p * a0;
    assert p * a0 <= p * 255;
  }

  method CountDigits(blockNumber: nat) returns (n: nat)
    requires |BigEndian(blockNumber)| < 8
    ensures n == |BigEndian(blockNumber)|
  {
    n := 0;
    var v := blockNumber;
    while v != 0 && n < 8
      invariant |BigEndian(blockNumber)| == n + |BigEndian(v)|
    {
      n, v := n + 1, v / 256;
    }
  }

  /** length_encode followed by FF FF. */
  method EncodeLength(blockNumber: nat) returns (encoded: seq<byte>)
    requires |BigEndian(blockNumber)| < 8
    ensures encoded == Trailer(blockNumber)
  {
    var n := CountDigits(blockNumber);
    var encbuf := new byte[11];
    var j := 1;
    while j <= n
      invariant 1 <= j <= n + 1 && encbuf[..j - 1] == BigEndian(blockNumber)[..j - 1]
    {
      var shifted := ShiftDown(blockNumber, n - j);
      BigEndianDigit(blockNumber, j - 1);
      encbuf[j - 1] := shifted % 256;
      j := j + 1;
    }
    encbuf[n], encbuf[n + 1], encbuf[n + 2] := n, 0xFF, 0xFF;
    encoded := encbuf[..n + 3];
    assert encoded[..n] == BigEndian(blockNumber)[..n];
  }

  // ---------------------------------------------------------------- nodes

  /** The node has absorbed exactly m since it was reset. */
  ghost predicate Holds(f: permutation, node: KangarooTwelveF, m: seq<byte>)
    reads node, node.state
  {
    node.Valid() && node.View() == Absorbed(f, Start(), m)
  }

  method Extend(f: permutation, node: KangarooTwelveF, data: seq<byte>, ghost m: seq<byte>)
    requires Holds(f, node, m)
    modifies node, node.state
    ensures Holds(f, node, m + data)
  {
    node.Absorb(f, data);
    AbsorbedConcat(f, Start(), m, data);
  }

  method Reset(f: permutation, node: KangarooTwelveF)
    requires node.state.Length == 200
    modifies node, node.state
    ensures Holds(f, node, [])
  {
    for k := 0 to 200
      invariant forall i :: 0 <= i < k ==> node.state[i] == 0
    {
      node.state[k] := 0;
    }
    node.byteIOIndex := 0;
    assert node.state[..] == Zeros(200);
  }

  /** A node holding the single byte 00. */
  method ResetToZeroByte(f: permutation, node: KangarooTwelveF)
    requires node.state.Length == 200
    modifies node, node.state
    ensures Holds(f, node, [0])
  {
    Reset(f, node);
    node.byteIOIndex := 1;
    ZeroByte(f, Start());
    assert [] + [0] == [0];
  }

  lemma ZeroByte(f: permutation, p: Sponge)
    requires p.i < RATE
    ensures Absorbed(f, p, [0]) == if p.i + 1 == RATE then Sponge(f(p.s), 0) else Sponge(p.s, p.i + 1)
  {
    XorByteZero(p.s[p.i]);
    assert p.s[p.i := p.s[p.i]] == p.s;
  }

  /** A 00 byte, which only moves the index. */
  method AppendZero(f: permutation, node: KangarooTwelveF, ghost m: seq<byte>)
    requires Holds(f, node, m)
    modifies node, node.state
    ensures Holds(f, node, m + [0])
  {
    ZeroByte(f, node.View());
    AbsorbedConcat(f, Start(), m, [0]);
    node.byteIOIndex := node.byteIOIndex + 1;
    if node.byteIOIndex == RATE {
      node.PermuteState(f);
      node.byteIOIndex := 0;
    }
  }

  /** Zero bytes from index i up to the next lane, none at the end of the block. */
  function ToLane(i: nat): nat {
    if i == RATE then 0 else (i + 7) / 8 * 8 - i
  }

  lemma MarkedByte(f: permutation, p: Sponge, z: nat)
    requires p.i + 1 + z < RATE || (p.i + 1 == RATE && z == 0)
    ensures var s := p.s[p.i := Xor(p.s[p.i], 0x03)];
            Absorbed(f, p, [0x03] + Zeros(z)) == if p.i + 1 == RATE then Sponge(f(s), 0) else Sponge(s, p.i + 1 + z)
  {
    var m: seq<byte> := [0x03] + Zeros(z);
    AbsorbedWithinBlock(f, p, m);
    MarkerIsOneByte(p.s, p.i, z);
  }

  lemma MarkerIsOneByte(s: state, i: nat, z: nat)
    requires i + 1 + z <= RATE
    ensures XorInto(s, i, [0x03] + Zeros(z)) == s[i := Xor(s[i], 0x03)]
  {
    assert Zeros(0) + [0x03] + Zeros(z) == [0x03] + Zeros(z);
    XorIntoPadded(s, i, 0, [0x03], z);
    assert XorInto(s, i, [0x03]) == s[i := Xor(s[i], 0x03)];
  }

  /** After the first chunk: 03, and zero bytes by moving the index up to a lane boundary. */
  method MarkFirstChunk(f: permutation, node: KangarooTwelveF, ghost m: seq<byte>)
    requires Holds(f, node, m) && (node.byteIOIndex < 160 || node.byteIOIndex + 1 == RATE)
    modifies node, node.state
    ensures Holds(f, node, m + ([0x03] + Zeros(ToLane(old(node.byteIOIndex) + 1))))
  {
    ghost var z := ToLane(node.byteIOIndex + 1);
    MarkedByte(f, node.View(), z);
    AbsorbedConcat(f, Start(), m, [0x03] + Zeros(z));
    node.state[node.byteIOIndex] := Xor(node.state[node.byteIOIndex], 0x03);
    node.byteIOIndex := node.byteIOIndex + 1;
    if node.byteIOIndex == RATE {
      node.PermuteState(f);
      node.byteIOIndex := 0;
    } else {
      node.byteIOIndex := (node.byteIOIndex + 7) / 8 * 8;
    }
  }

  /** The suffix at the index, 80 at the end of the block, and the permutation. */
  method CloseNode(f: permutation, node: KangarooTwelveF, d: byte, ghost m: seq<byte>)
    requires Holds(f, node, m)
    modifies node.state
    ensures node.state[..] == f(Closed(Absorbed(f, Start(), m), d))
  {
    node.state[node.byteIOIndex] := Xor(node.state[node.byteIOIndex], d);
    node.state[RATE - 1] := Xor(node.state[RATE - 1], 0x80);
    node.PermuteState(f);
  }

  /** Close a leaf holding t and absorb its chaining value. */
  method AbsorbLeaf(f: permutation, queueNode: KangarooTwelveF, finalNode: KangarooTwelveF,
                    ghost t: seq<byte>, ghost m: seq<byte>)
    requires Holds(f, queueNode, t) && Holds(f, finalNode, m)
    requires queueNode != finalNode && queueNode.state != finalNode.state
    modifies queueNode.state, finalNode, finalNode.state
    ensures Holds(f, finalNode, m + TurboShake128(f, t, LEAF, 32))
  {
    CloseNode(f, queueNode, LEAF, t);
    ClosedIsTurbo(f, t, LEAF, 32);
    assert queueNode.state[..32] == queueNode.state[..][..32];
    Extend(f, finalNode, queueNode.state[..32], m);
  }

  // ---------------------------------------------------------------- the tree

  /** Before the chunk at byte p of s, with the chaining values cv of the earlier leaves absorbed. */
  ghost predicate AtChunk(f: permutation, s: seq<byte>, p: nat, cv: seq<byte>) {
    CHUNK <= p < |s| && cv + ChainingValues(f, s[p..]) == ChainingValues(f, s[CHUNK..])
  }

  lemma NextChunk(f: permutation, s: seq<byte>, p: nat, cv: seq<byte>)
    requires AtChunk(f, s, p, cv) && |s| > p + CHUNK
    ensures AtChunk(f, s, p + CHUNK, cv + TurboShake128(f, s[p..p + CHUNK], LEAF, 32))
  {
    var t := TurboShake128(f, s[p..p + CHUNK], LEAF, 32);
    assert s[p..][..CHUNK] == s[p..p + CHUNK] && s[p..][CHUNK..] == s[p + CHUNK..];
    assert (cv + t) + ChainingValues(f, s[p + CHUNK..]) == cv + (t + ChainingValues(f, s[p + CHUNK..]));
  }

  lemma LastChunk(f: permutation, s: seq<byte>, p: nat, cv: seq<byte>)
    requires AtChunk(f, s, p, cv) && |s| <= p + CHUNK
    ensures cv + TurboShake128(f, s[p..], LEAF, 32) == ChainingValues(f, s[CHUNK..])
  {
  }

  lemma LastChunkAfter(f: permutation, s: seq<byte>, p: nat, cv: seq<byte>, m: seq<byte>)
    requires AtChunk(f, s, p, cv) && |s| <= p + CHUNK
    ensures m + cv + TurboShake128(f, s[p..], LEAF, 32) == m + ChainingValues(f, s[CHUNK..])
  {
    LastChunk(f, s, p, cv);
    JoinRight(m, cv, TurboShake128(f, s[p..], LEAF, 32));
  }

  lemma JoinRight(a: seq<byte>, b: seq<byte>, c: seq<byte>)
    ensures a + b + c == a + (b + c)
  {
  }

  /** Reset the node and absorb one chunk. */
  method LoadChunk(f: permutation, node: KangarooTwelveF, chunk: seq<byte>)
    requires node.state.Length == 200
    modifies node, node.state
    ensures Holds(f, node, chunk)
  {
    Reset(f, node);
    node.Absorb(f, chunk);
  }

  lemma LeafAppended(f: permutation, input: seq<byte>, p: nat, cv: seq<byte>, t: seq<byte>)
    requires |input| >= p + CHUNK && AtChunk(f, input + [0], p, cv)
    requires t == TurboShake128(f, input[p..p + CHUNK], LEAF, 32)
    ensures AtChunk(f, input + [0], p + CHUNK, cv + t)
    ensures Head(input) + cv + t == Head(input) + (cv + t)
  {
    assert (input + [0])[p..p + CHUNK] == input[p..p + CHUNK];
    NextChunk(f, input + [0], p, cv);
  }

  /** A whole chunk becomes a leaf at once. */
  method AbsorbFullChunk(f: permutation, finalNode: KangarooTwelveF, queueNode: KangarooTwelveF, chunk: seq<byte>,
                         ghost m: seq<byte>)
    requires queueNode != finalNode && queueNode.state != finalNode.state && queueNode.state.Length == 200
    requires Holds(f, finalNode, m)
    modifies queueNode, queueNode.state, finalNode, finalNode.state
    ensures Holds(f, finalNode, m + TurboShake128(f, chunk, LEAF, 32))
  {
    LoadChunk(f, queueNode, chunk);
    AbsorbLeaf(f, queueNode, finalNode, chunk, m);
    queueNode.byteIOIndex := 32;
  }

  /** The final node holds m; the bytes of the current chunk, from p0 to p, wait in the queue node. */
  ghost predicate NodesHold(f: permutation, finalNode: KangarooTwelveF, queueNode: KangarooTwelveF, input: seq<byte>,
                            p0: nat, p: nat, m: seq<byte>)
    reads finalNode, finalNode.state, queueNode, queueNode.state
  {
    && p0 <= p <= |input| && p < p0 + CHUNK && Holds(f, finalNode, m) && queueNode.state.Length == 200
    && (p0 < p ==> p == |input| && Holds(f, queueNode, input[p0..p]))
  }

  /** blockNumber chunks are complete, and queueLen bytes of the last one wait in the queue node. */
  ghost predicate Progress(f: permutation, finalNode: KangarooTwelveF, queueNode: KangarooTwelveF, input: seq<byte>,
                           p: nat, blockNumber: nat, queueLen: nat, cv: seq<byte>)
    reads finalNode, finalNode.state, queueNode, queueNode.state
  {
    && p == CHUNK * blockNumber + queueLen && AtChunk(f, input + [0], CHUNK * blockNumber, cv)
    && p <= |input| && NodesHold(f, finalNode, queueNode, input, CHUNK * blockNumber, p, Head(input) + cv)
  }

  lemma ProgressByLeaf(f: permutation, input: seq<byte>, p: nat, m: seq<byte>, cv: seq<byte>) returns (t: seq<byte>)
    requires |input| >= p + CHUNK && AtChunk(f, input + [0], p, cv) && m == Head(input) + cv
    ensures t == TurboShake128(f, input[p..p + CHUNK], LEAF, 32)
    ensures AtChunk(f, input + [0], p + CHUNK, cv + t) && m + t == Head(input) + (cv + t)
  {
    t := TurboShake128(f, input[p..p + CHUNK], LEAF, 32);
    LeafAppended(f, input, p, cv, t);
  }

  method FullStep(f: permutation, finalNode: KangarooTwelveF, queueNode: KangarooTwelveF, input: seq<byte>, p: nat,
                  ghost m: seq<byte>)
    requires queueNode != finalNode && queueNode.state != finalNode.state
    requires p + CHUNK <= |input| && NodesHold(f, finalNode, queueNode, input, p, p, m)
    modifies queueNode, queueNode.state, finalNode, finalNode.state
    ensures NodesHold(f, finalNode, queueNode, input, p + CHUNK, p + CHUNK,
                      m + TurboShake128(f, input[p..p + CHUNK], LEAF, 32))
  {
    AbsorbFullChunk(f, finalNode, queueNode, input[p..p + CHUNK], m);
  }

  method PartialStep(f: permutation, finalNode: KangarooTwelveF, queueNode: KangarooTwelveF, input: seq<byte>, p: nat,
                     ghost m: seq<byte>)
    requires queueNode != finalNode && queueNode.state != finalNode.state
    requires p < |input| < p + CHUNK && NodesHold(f, finalNode, queueNode, input, p, p, m)
    modifies queueNode, queueNode.state
    ensures NodesHold(f, finalNode, queueNode, input, p, |input|, m)
  {
    LoadChunk(f, queueNode, input[p..]);
    assert input[p..] == input[p..|input|];
  }

  method FullChunk(f: permutation, finalNode: KangarooTwelveF, queueNode: KangarooTwelveF, input: seq<byte>, p: nat,
                   ghost blockNumber: nat, ghost cv: seq<byte>) returns (ghost cv': seq<byte>)
    requires queueNode != finalNode && queueNode.state != finalNode.state
    requires p + CHUNK <= |input| && Progress(f, finalNode, queueNode, input, p, blockNumber, 0, cv)
    modifies queueNode, queueNode.state, finalNode, finalNode.state
    ensures Progress(f, finalNode, queueNode, input, p + CHUNK, blockNumber + 1, 0, cv')
  {
    hide TurboShake128;
    hide ChainingValues;
    hide Absorbed;
    ghost var m := Head(input) + cv;
    ghost var t := ProgressByLeaf(f, input, p, m, cv);
    cv' := cv + t;
    FullStep(f, finalNode, queueNode, input, p, m);
  }

  /** The loop over the input after the first chunk: complete chunks become leaves, a shorter last one stays in the
      queue node. */
  method AbsorbChunks(f: permutation, finalNode: KangarooTwelveF, queueNode: KangarooTwelveF, input: seq<byte>)
    returns (blockNumber: nat, queueLen: nat, ghost cv: seq<byte>)
    requires queueNode != finalNode && queueNode.state != finalNode.state && queueNode.state.Length == 200
    requires |input| > CHUNK && Holds(f, finalNode, Head(input))
    modifies queueNode, queueNode.state, finalNode, finalNode.state
    ensures Progress(f, finalNode, queueNode, input, |input|, blockNumber, queueLen, cv)
  {
    hide Absorbed;
    hide ChainingValues;
    var p := CHUNK;
    blockNumber, queueLen, cv := 1, 0, [];
    FirstChunk(f, input);
    while p < |input|
      invariant p >= 0 && Progress(f, finalNode, queueNode, input, p, blockNumber, queueLen, cv)
    {
      var clen := if |input| - p < CHUNK then |input| - p else CHUNK;
      if clen == CHUNK {
        cv := FullChunk(f, finalNode, queueNode, input, p, blockNumber, cv);
        blockNumber := blockNumber + 1;
      } else {
        PartialStep(f, finalNode, queueNode, input, p, Head(input) + cv);
        queueLen := clen;
      }
      p := p + clen;
    }
  }

  lemma FirstChunk(f: permutation, input: seq<byte>)
    requires |input| >= CHUNK
    ensures AtChunk(f, input + [0], CHUNK, []) && Head(input) + [] == Head(input)
  {
    var rest := ChainingValues(f, (input + [0])[CHUNK..]);
    assert [] + rest == rest;
  }

  // ---------------------------------------------------------------- the end of the message

  /** All of S = input || 00 is accounted for: in the final node, or with its last leaf in the queue node. */
  ghost predicate Ready(f: permutation, finalNode: KangarooTwelveF, queueNode: KangarooTwelveF, s: seq<byte>,
                        blockNumber: nat, queueLen: nat)
    requires |s| > CHUNK
    reads finalNode, finalNode.state, queueNode, queueNode.state
  {
    if queueLen == 0 then Complete(f, finalNode, s, blockNumber)
    else exists cv, p :: LastInQueue(f, finalNode, queueNode, s, blockNumber, cv, p)
  }

  ghost predicate Complete(f: permutation, finalNode: KangarooTwelveF, s: seq<byte>, blockNumber: nat)
    requires |s| > CHUNK
    reads finalNode, finalNode.state
  {
    blockNumber == Chunks(|s|) && Holds(f, finalNode, Head(s) + ChainingValues(f, s[CHUNK..]))
  }

  ghost predicate LastInQueue(f: permutation, finalNode: KangarooTwelveF, queueNode: KangarooTwelveF, s: seq<byte>,
                              blockNumber: nat, cv: seq<byte>, p: nat)
    requires |s| > CHUNK
    reads finalNode, finalNode.state, queueNode, queueNode.state
  {
    && blockNumber + 1 == Chunks(|s|) && |s| <= p + CHUNK && AtChunk(f, s, p, cv)
    && Holds(f, finalNode, Head(s) + cv) && Holds(f, queueNode, s[p..])
  }

  /** The last leaf joins the final node. */
  method AbsorbLastLeaf(f: permutation, finalNode: KangarooTwelveF, queueNode: KangarooTwelveF, ghost s: seq<byte>,
                        ghost blockNumber: nat, ghost cv: seq<byte>, ghost p: nat)
    requires |s| > CHUNK && queueNode != finalNode && queueNode.state != finalNode.state
    requires LastInQueue(f, finalNode, queueNode, s, blockNumber, cv, p)
    modifies queueNode.state, finalNode, finalNode.state
    ensures Complete(f, finalNode, s, blockNumber + 1)
  {
    ghost var m := Head(s);
    LastChunkAfter(f, s, p, cv, m);
    AbsorbLeaf(f, queueNode, finalNode, s[p..], m + cv);
  }

  lemma LastChunkNumber(n: nat, b: nat)
    requires CHUNK * b < n <= CHUNK * (b + 1)
    ensures Chunks(n) == b + 1
  {
    DivModUnique(n + CHUNK - 1, CHUNK, b + 1, n - 1 - CHUNK * b);
  }

  lemma WithZeroByte(input: seq<byte>, p: nat)
    requires CHUNK <= p <= |input|
    ensures Head(input + [0]) == Head(input) && (input + [0])[p..] == input[p..] + [0]
    ensures input[p..|input|] == input[p..] && (p == |input| ==> (input + [0])[p..] == [0])
  {
  }

  /** The empty customization string's 00 byte completes the message; the chunk it completes may be a full one. */
  method AppendToQueue(f: permutation, finalNode: KangarooTwelveF, queueNode: KangarooTwelveF, input: seq<byte>,
                       blockNumber: nat, queueLen: nat, ghost cv: seq<byte>)
    returns (blockNumber': nat, queueLen': nat)
    requires queueNode != finalNode && queueNode.state != finalNode.state && |input| > CHUNK && queueLen > 0
    requires Progress(f, finalNode, queueNode, input, |input|, blockNumber, queueLen, cv)
    modifies queueNode, queueNode.state, finalNode, finalNode.state
    ensures Ready(f, finalNode, queueNode, input + [0], blockNumber', queueLen')
  {
    ghost var s: seq<byte>, p := input + [0], CHUNK * blockNumber;
    LastChunkNumber(|s|, blockNumber);
    WithZeroByte(input, p);
    AppendZero(f, queueNode, input[p..]);
    blockNumber', queueLen' := blockNumber, queueLen + 1;
    assert LastInQueue(f, finalNode, queueNode, s, blockNumber, cv, p);
    if queueLen' == CHUNK {
      blockNumber', queueLen' := blockNumber + 1, 0;
      AbsorbLastLeaf(f, finalNode, queueNode, s, blockNumber, cv, p);
      queueNode.byteIOIndex := 32;
    }
  }

  /** When the last chunk was full, the 00 byte is a chunk of its own. */
  method QueueZeroByte(f: permutation, finalNode: KangarooTwelveF, queueNode: KangarooTwelveF, input: seq<byte>,
                       blockNumber: nat, ghost cv: seq<byte>) returns (queueLen: nat)
    requires queueNode != finalNode && queueNode.state != finalNode.state
    requires CHUNK <= |input| && CHUNK * blockNumber == |input| && AtChunk(f, input + [0], |input|, cv)
    requires Holds(f, finalNode, Head(input) + cv) && queueNode.state.Length == 200
    modifies queueNode, queueNode.state
    ensures queueLen > 0 && Ready(f, finalNode, queueNode, input + [0], blockNumber, queueLen)
  {
    LastChunkNumber(|input| + 1, blockNumber);
    WithZeroByte(input, |input|);
    ResetToZeroByte(f, queueNode);
    queueLen := 1;
    assert LastInQueue(f, finalNode, queueNode, input + [0], blockNumber, cv, |input|);
  }

  /** The node holds m and the domain byte d. */
  ghost predicate Suffixed(f: permutation, node: KangarooTwelveF, m: seq<byte>, d: byte)
    reads node, node.state
  {
    var p := Absorbed(f, Start(), m);
    node.state.Length == 200 && node.state[..] == p.s[p.i := Xor(p.s[p.i], d)]
  }

  /** A message of less than one chunk: its 00 byte and the suffix, across a block boundary if need be. */
  method FinishShort(f: permutation, finalNode: KangarooTwelveF, ghost m: seq<byte>)
    requires Holds(f, finalNode, m)
    modifies finalNode, finalNode.state
    ensures Suffixed(f, finalNode, m + [0], 0x07)
  {
    ZeroByte(f, finalNode.View());
    AbsorbedConcat(f, Start(), m, [0]);
    finalNode.byteIOIndex := finalNode.byteIOIndex + 1;
    if finalNode.byteIOIndex == RATE {
      finalNode.PermuteState(f);
      finalNode.state[0] := Xor(finalNode.state[0], 0x07);
    } else {
      finalNode.state[finalNode.byteIOIndex] := Xor(finalNode.state[finalNode.byteIOIndex], 0x07);
    }
  }

  method AppendTrailer(f: permutation, finalNode: KangarooTwelveF, leaves: nat, ghost m: seq<byte>)
    requires Holds(f, finalNode, m) && |BigEndian(leaves)| < 8
    modifies finalNode, finalNode.state
    ensures Holds(f, finalNode, m + Trailer(leaves))
  {
    var encbuf := EncodeLength(leaves);
    Extend(f, finalNode, encbuf, m);
  }

  /** The number of leaves and FF FF. */
  method AppendLeafCount(f: permutation, finalNode: KangarooTwelveF, blockNumber: nat, ghost s: seq<byte>)
    requires CHUNK < |s| <= 0x1_0000_0000 && Complete(f, finalNode, s, blockNumber)
    modifies finalNode, finalNode.state
    ensures Holds(f, finalNode, FinalNode(f, s))
  {
    hide BigEndian;
    hide Absorbed;
    hide ChainingValues;
    hide Trailer;
    assert blockNumber - 1 == Leaves(|s|);
    AppendTrailer(f, finalNode, blockNumber - 1, Head(s) + ChainingValues(f, s[CHUNK..]));
  }

  method AddSuffix(f: permutation, node: KangarooTwelveF, d: byte, ghost m: seq<byte>)
    requires Holds(f, node, m)
    modifies node.state
    ensures Suffixed(f, node, m, d)
  {
    node.state[node.byteIOIndex] := Xor(node.state[node.byteIOIndex], d);
  }

  method MarkHead(f: permutation, finalNode: KangarooTwelveF, ghost input: seq<byte>)
    requires |input| >= CHUNK && Holds(f, finalNode, input[..CHUNK])
    modifies finalNode, finalNode.state
    ensures Holds(f, finalNode, Head(input))
  {
    hide Absorbed;
    AbsorbedIndex(f, Start(), input[..CHUNK]);
    MarkFirstChunk(f, finalNode, input[..CHUNK]);
    assert [0x03] + Zeros(7) == [0x03, 0, 0, 0, 0, 0, 0, 0];
  }

  /** Everything a message of at least one chunk needs before its length: the marker, the leaves, the last 00. */
  method GrowTree(f: permutation, finalNode: KangarooTwelveF, queueNode: KangarooTwelveF, input: seq<byte>)
    returns (blockNumber: nat, queueLen: nat)
    requires queueNode != finalNode && queueNode.state != finalNode.state && queueNode.state.Length == 200
    requires |input| >= CHUNK && Holds(f, finalNode, input[..CHUNK])
    modifies queueNode, queueNode.state, finalNode, finalNode.state
    ensures Ready(f, finalNode, queueNode, input + [0], blockNumber, queueLen)
  {
    MarkHead(f, finalNode, input);
    if |input| > CHUNK {
      ghost var cv;
      blockNumber, queueLen, cv := AbsorbChunks(f, finalNode, queueNode, input);
      if queueLen > 0 {
        blockNumber, queueLen := AppendToQueue(f, finalNode, queueNode, input, blockNumber, queueLen, cv);
      } else {
        queueLen := QueueZeroByte(f, finalNode, queueNode, input, blockNumber, cv);
      }
    } else {
      FirstChunk(f, input);
      blockNumber := 1;
      queueLen := QueueZeroByte(f, finalNode, queueNode, input, blockNumber, []);
    }
  }

  /** The end of the last block, one squeeze of at most a block. */
  method Squeeze(f: permutation, node: KangarooTwelveF, len: nat, ghost m: seq<byte>, ghost d: byte)
    returns (output: seq<byte>)
    requires Suffixed(f, node, m, d) && len <= RATE
    modifies node.state
    ensures output == TurboShake128(f, m, d, len)
  {
    node.state[RATE - 1] := Xor(node.state[RATE - 1], 0x80);
    node.PermuteState(f);
    output := node.state[..len];
    assert output == node.state[..][..len];
    ClosedIsTurbo(f, m, d, len);
  }

  lemma ShortMessage(f: permutation, m: seq<byte>, len: nat)
    requires |m| < CHUNK && len <= RATE
    ensures Kt128(f, m, len) == TurboShake128(f, m + [0], 0x07, len)
  {
    assert LengthEncode(0) == [0];
  }

  lemma LongMessage(f: permutation, m: seq<byte>, len: nat)
    requires CHUNK <= |m| < 0x1_0000_0000 && len <= RATE
    ensures Kt128(f, m, len) == TurboShake128(f, FinalNode(f, m + [0]), 0x06, len)
  {
    assert LengthEncode(0) == [0];
  }

  // ---------------------------------------------------------------- the layouts in numbers

  /** A padded message is whole blocks of 168 bytes, at most one block longer: the message, the domain byte, zero bytes,
      and 80 in the last byte. */
  lemma PaddedLayout(m: seq<byte>, d: byte, k: nat)
    ensures (var p := Padded(m, d);
             && |p| % 168 == 0 && |m| < |p| <= |m| + 168 && p[..|m|] == m
             && (|p| == |m| + 1 ==> p[|m|] == Xor(d, 0x80))
             && (|p| > |m| + 1 ==> p[|m|] == d && p[|p| - 1] == 0x80)
             && (|m| < k < |p| - 1 ==> p[k] == 0))
  {
    XorByteZero(0x80);
    assert Padded(m, d)[..|m|] == m;
  }

  /** The state after whole blocks: the last one joins the state before it in bytes 0 to 167, and the permutation follows. */
  lemma {:induction false} LastBlock(f: permutation, s: state, blocks: seq<byte>, block: seq<byte>)
    requires |blocks| % 168 == 0 && |block| == 168
    ensures AbsorbedBlocks(f, s, blocks + block) == f(XorSeq(AbsorbedBlocks(f, s, blocks), block + Zeros(32)))
    decreases |blocks|
  {
    if blocks == [] {
      assert blocks + block == block && block[..RATE] == block;
      BlockIsBytes(s, block);
    } else {
      assert (blocks + block)[..RATE] == blocks[..RATE] && (blocks + block)[RATE..] == blocks[RATE..] + block;
      LastBlock(f, f(XorInto(s, 0, blocks[..RATE])), blocks[RATE..], block);
    }
  }

  lemma BlockIsBytes(s: state, block: seq<byte>)
    requires |block| == RATE
    ensures XorInto(s, 0, block) == XorSeq(s, block + Zeros(32))
  {
    hide Xor;
    forall k | 0 <= k < 200
      ensures XorInto(s, 0, block)[k] == XorSeq(s, block + Zeros(32))[k]
    {
      XorByteZero(s[k]);
    }
  }

  /** A message that fits one block: one permutation of the padded block with 32 zero bytes of capacity. */
  lemma OneBlock(f: permutation, m: seq<byte>, d: byte, len: nat)
    requires |m| < 168 && len <= 168
    ensures |Padded(m, d)| == 168 && TurboShake128(f, m, d, len) == f(Padded(m, d) + Zeros(32))[..len]
  {
    PaddedLayout(m, d, 0);
    hide Padded;
    hide AbsorbedBlocks;
    SingleBlock(|m|, |Padded(m, d)|);
    FirstBlock(f, Padded(m, d));
  }

  lemma SingleBlock(n: nat, p: nat)
    requires n < 168 && p % 168 == 0 && n < p <= n + 168
    ensures p == 168
  {
  }

  lemma FirstBlock(f: permutation, p: seq<byte>)
    requires |p| == 168
    ensures AbsorbedBlocks(f, Zeros(200), p) == f(p + Zeros(32))
  {
    hide XorSeq;
    assert AbsorbedBlocks(f, Zeros(200), []) == Zeros(200);
    hide AbsorbedBlocks;
    LastBlock(f, Zeros(200), [], p);
    assert [] + p == p;
    XorZeros(p + Zeros(32));
  }

  lemma XorZeros(b: state)
    ensures XorSeq(Zeros(200), b) == b
  {
    hide Xor;
    forall k | 0 <= k < 200
      ensures XorSeq(Zeros(200), b)[k] == b[k]
    {
      XorByteZero(b[k]);
    }
  }

  /** Where a chunk ends. */
  function ChunkEnd(n: nat, i: nat): nat {
    if 8192 * (i + 1) < n then 8192 * (i + 1) else n
  }

  /** Chaining value i is the 32-byte hash of chunk i with the domain byte 0B. */
  lemma {:induction false} ChainingValueAt(f: permutation, s: seq<byte>, i: nat, n: nat)
    requires 8192 * n < |s| <= 8192 * (n + 1) && i <= n
    ensures |ChainingValues(f, s)| == 32 * (n + 1)
    ensures ChainingValues(f, s)[32 * i..32 * i + 32] == TurboShake128(f, s[8192 * i..ChunkEnd(|s|, i)], 0x0B, 32)
    decreases n
  {
    hide TurboShake128;
    if n == 0 {
      assert s[..|s|] == s;
    } else {
      var first, rest := TurboShake128(f, s[..CHUNK], LEAF, 32), ChainingValues(f, s[CHUNK..]);
      var j := if i == 0 then 0 else i - 1;
      ChainingValueAt(f, s[CHUNK..], j, n - 1);
      if i > 0 {
        SliceAfter(first, rest, 32 * j, 32 * j + 32);
        SliceAfter(s[..CHUNK], s[CHUNK..], 8192 * j, ChunkEnd(|s| - CHUNK, j));
        assert s == s[..CHUNK] + s[CHUNK..];
      }
    }
  }

  lemma SliceAfter(a: seq<byte>, b: seq<byte>, i: nat, k: nat)
    requires i <= k <= |b|
    ensures (a + b)[|a| + i..|a| + k] == b[i..k]
  {
  }

  lemma ThreeParts(a: seq<byte>, b: seq<byte>, c: seq<byte>, i: nat, k: nat)
    ensures (var s := a + b + c;
             && s[..|a|] == a && s[|a|..|a| + |b|] == b && s[|a| + |b|..] == c
             && (i + 32 <= |b| ==> s[|a| + i..|a| + i + 32] == b[i..i + 32]) && (k < |c| ==> s[|a| + |b| + k] == c[k]))
  {
  }

  /** The three parts of a final node, by their places. */
  lemma FinalNodeParts(f: permutation, s: seq<byte>, leaves: nat, i: nat) returns (t: seq<byte>)
    requires CHUNK < |s| <= 0x1_0000_0000 && 8192 * leaves < |s| <= 8192 * (leaves + 1)
    ensures |BigEndian(leaves)| < 8 && t == Trailer(leaves)
    ensures |FinalNode(f, s)| == 8200 + 32 * leaves + |t| && FinalNode(f, s)[8200 + 32 * leaves..] == t
    ensures FinalNode(f, s)[..8200] == s[..8192] + [0x03, 0, 0, 0, 0, 0, 0, 0]
    ensures i < leaves ==>
              FinalNode(f, s)[8200 + 32 * i..8232 + 32 * i] == TurboShake128(f, s[8192 * (i + 1)..ChunkEnd(|s|, i + 1)], 0x0B, 32)
  {
    hide TurboShake128;
    hide Trailer;
    hide BigEndian;
    LastChunkNumber(|s|, leaves);
    var rest, cv := s[CHUNK..], ChainingValues(f, s[CHUNK..]);
    t := Trailer(Leaves(|s|));
    ChainingValueAt(f, rest, if i < leaves then i else 0, leaves - 1);
    hide ChainingValues;
    ThreeParts(Head(s), cv, t, 32 * i, 0);
    if i < leaves {
      assert rest[8192 * i..ChunkEnd(|rest|, i)] == s[8192 * (i + 1)..ChunkEnd(|s|, i + 1)];
    }
  }

  /** A message of at least one chunk is hashed through its final node: the first chunk, 03 and seven zero bytes, the
      chaining value of each further chunk of m || 00, their number in n big-endian digits with no leading zero, n, and
      FF FF. */
  lemma LongMessageLayout(f: permutation, m: seq<byte>, len: nat, node: seq<byte>, leaves: nat, n: int, i: nat, k: nat)
    requires 8192 <= |m| < 0x1_0000_0000 && len <= 168 && node == FinalNode(f, m + [0])
    requires 8192 * leaves < |m| + 1 <= 8192 * (leaves + 1) && n == |node| - 32 * leaves - 8203
    ensures Kt128(f, m, len) == TurboShake128(f, node, 0x06, len)
    ensures n >= 0 && node[..8200] == m[..8192] + [0x03, 0, 0, 0, 0, 0, 0, 0]
    ensures i < leaves ==>
              node[8200 + 32 * i..8232 + 32 * i] == TurboShake128(f, (m + [0])[8192 * (i + 1)..ChunkEnd(|m| + 1, i + 1)], 0x0B, 32)
    ensures leaves < Pow256(n) && (n > 0 ==> leaves >= Pow256(n - 1))
    ensures k < n ==> Pow256(n - 1 - k) > 0 && node[8200 + 32 * leaves + k] == leaves / Pow256(n - 1 - k) % 256
    ensures node[8200 + 32 * leaves + n..] == [n, 0xFF, 0xFF]
  {
    hide FinalNode;
    hide Kt128;
    hide TurboShake128;
    LongMessage(f, m, len);
    var t := FinalNodeParts(f, m + [0], leaves, i);
    assert |t| == n + 3;
    TrailerLayout(leaves, t, n, k);
    assert (m + [0])[..8192] == m[..8192];
  }

  /** Close the leaf that is still waiting, if there is one. */
  method CompleteTree(f: permutation, finalNode: KangarooTwelveF, queueNode: KangarooTwelveF, ghost s: seq<byte>,
                      blockNumber: nat, queueLen: nat) returns (blockNumber': nat)
    requires |s| > CHUNK && queueNode != finalNode && queueNode.state != finalNode.state
    requires Ready(f, finalNode, queueNode, s, blockNumber, queueLen)
    modifies queueNode.state, finalNode, finalNode.state
    ensures Complete(f, finalNode, s, blockNumber')
  {
    blockNumber' := blockNumber;
    if queueLen > 0 {
      blockNumber' := blockNumber' + 1;
      ghost var cv, p :| LastInQueue(f, finalNode, queueNode, s, blockNumber, cv, p);
      AbsorbLastLeaf(f, finalNode, queueNode, s, blockNumber, cv, p);
    }
  }

  /** The tree for a message of at least one chunk, up to the suffix. */
  method AbsorbTree(f: permutation, finalNode: KangarooTwelveF, queueNode: KangarooTwelveF, input: seq<byte>)
    requires queueNode != finalNode && queueNode.state != finalNode.state && queueNode.state.Length == 200
    requires CHUNK <= |input| < 0x1_0000_0000 && Holds(f, finalNode, input[..CHUNK])
    modifies queueNode, queueNode.state, finalNode, finalNode.state
    ensures Suffixed(f, finalNode, FinalNode(f, input + [0]), 0x06)
  {
    var blockNumber, queueLen := GrowTree(f, finalNode, queueNode, input);
    ghost var s := input + [0];
    blockNumber := CompleteTree(f, finalNode, queueNode, s, blockNumber, queueLen);
    AppendLeafCount(f, finalNode, blockNumber, s);
    AddSuffix(f, finalNode, 0x06, FinalNode(f, s));
  }

  /** KangarooTwelve is KT128 with an empty customization string, for every message and every output of a block. */
  method KangarooTwelve(f: permutation, input: seq<byte>, outputByteLen: nat) returns (output: seq<byte>)
    requires |input| < 0x1_0000_0000 && outputByteLen <= RATE
    ensures output == Kt128(f, input, outputByteLen)
  {
    var finalNode := new KangarooTwelveF();
    var queueNode := new KangarooTwelveF();
    var len := if CHUNK < |input| then CHUNK else |input|;
    finalNode.Absorb(f, input[..len]);
    if len == CHUNK {
      AbsorbTree(f, finalNode, queueNode, input);
      LongMessage(f, input, outputByteLen);
      output := Squeeze(f, finalNode, outputByteLen, FinalNode(f, input + [0]), 0x06);
    } else {
      assert input[..len] == input;
      FinishShort(f, finalNode, input);
      ShortMessage(f, input, outputByteLen);
      output := Squeeze(f, finalNode, outputByteLen, input + [0], 0x07);
    }
  }
}
