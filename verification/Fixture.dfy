/** The ZKQFIX02 fixture file: a printer and a cursor-driven parser that undo each other. */
module Fixture {
  import opened Words
  import opened ModArith
  import opened Bytes
  import opened Wrappers

  const MAGIC: seq<byte> := [0x5A, 0x4B, 0x51, 0x46, 0x49, 0x58, 0x30, 0x32]
  const NUMBER_OF_COMPUTORS := 676
  const SIGNATURE_SIZE := 64
  const PACKET_SIZE := 2 + NUMBER_OF_COMPUTORS * 32 + SIGNATURE_SIZE
  const LIMIT32 := 0x1_0000_0000

  datatype Fixture = Fixture(computorsPacket: seq<byte>, queryId: word, queryTx: seq<byte>, reply: seq<byte>,
                             commitTxs: seq<seq<byte>>, revealTx: seq<byte>)

  // ---------------------------------------------------------------- printing

  /** Lengths fit their 32-bit prefixes and the packet has its one size. */
  ghost predicate Fits(f: Fixture) {
    && |f.computorsPacket| == PACKET_SIZE && |f.queryTx| < LIMIT32 && |f.reply| < LIMIT32
    && |f.commitTxs| < LIMIT32 && AllFit(f.commitTxs) && |f.revealTx| < LIMIT32
  }

  ghost predicate AllFit(blobs: seq<seq<byte>>) {
    forall i :: 0 <= i < |blobs| ==> |blobs[i]| < LIMIT32
  }

  /** `(x as u32).to_le_bytes()`. */
  function U32(x: nat): (b: seq<byte>)
    ensures |b| == 4
  {
    ToBytes(x % LIMIT32, 4)
  }

  function Blob(b: seq<byte>): seq<byte> {
    U32(|b|) + b
  }

  function Blobs(blobs: seq<seq<byte>>): seq<byte> {
    if blobs == [] then [] else Blob(blobs[0]) + Blobs(blobs[1..])
  }

  function Serialized(f: Fixture): seq<byte> {
    MAGIC + f.computorsPacket + ToBytes(f.queryId, 8) + Blob(f.queryTx) + Blob(f.reply)
    + U32(|f.commitTxs|) + Blobs(f.commitTxs) + Blob(f.revealTx)
  }

  function CommitsFrame(f: Fixture): seq<byte> {
    U32(|f.commitTxs|) + Blobs(f.commitTxs)
  }

  // ---------------------------------------------------------------- reading what is left

  /** The first n bytes and the rest. */
  function Take(s: seq<byte>, n: nat): Option<(seq<byte>, seq<byte>)> {
    if n <= |s| then Some((s[..n], s[n..])) else None
  }

  function ReadU32(s: seq<byte>): Option<(nat, seq<byte>)> {
    if 4 <= |s| then Some((Le(s[..4]), s[4..])) else None
  }

  function ReadBlob(s: seq<byte>): Option<(seq<byte>, seq<byte>)> {
    if 4 <= |s| then Take(s[4..], Le(s[..4])) else None
  }

  function ReadBlobs(s: seq<byte>, n: nat): Option<(seq<seq<byte>>, seq<byte>)>
    decreases n
  {
    if n == 0 then Some(([], s))
    else
      match ReadBlob(s)
      case None => None
      case Some((b, s')) =>
        match ReadBlobs(s', n - 1)
        case None => None
        case Some((rest, s'')) => Some(([b] + rest, s''))
  }

  lemma FourBytes(x: nat, b: seq<byte>, n: nat)
    requires n == 4
    ensures x < LIMIT32 ==> Le(ToBytes(x, n)) == x
    ensures |b| == n ==> Le(b) < LIMIT32 && ToBytes(Le(b), n) == b
  {
    assert Pow2(8 * n) == LIMIT32 by {
      PowersOf256();
      Pow2Adds(8, 8);
      Pow2Adds(16, 16);
    }
    if x < LIMIT32 {
      LeToBytes(x, n);
    }
    if |b| == n {
      LeBound(b);
      ToBytesLe(b);
    }
  }

  lemma U32Value(x: nat)
    requires x < LIMIT32
    ensures Le(U32(x)) == x
  {
    ModSmall(x, LIMIT32);
    FourBytes(x, [], 4);
  }

  lemma U32Bytes(b: seq<byte>)
    requires |b| == 4
    ensures Le(b) < LIMIT32 && U32(Le(b)) == b
  {
    FourBytes(0, b, 4);
    ModSmall(Le(b), LIMIT32);
  }

  /** A printed blob is read back, whatever follows it. */
  lemma BlobReadBack(b: seq<byte>, rest: seq<byte>)
    requires |b| < LIMIT32
    ensures ReadBlob(Blob(b) + rest) == Some((b, rest))
  {
    U32Value(|b|);
    var s := Blob(b) + rest;
    assert s[..4] == U32(|b|) && s[4..] == b + rest;
  }

  /** What is read is the printed form of the result, then the rest. */
  lemma BlobWasPrinted(s: seq<byte>)
    requires ReadBlob(s).Some?
    ensures (var (b, rest) := ReadBlob(s).value; |b| < LIMIT32 && s == Blob(b) + rest)
  {
    var (b, rest) := ReadBlob(s).value;
    U32Bytes(s[..4]);
    assert s == s[..4] + (b + rest);
  }

  lemma {:induction false} BlobsReadBack(blobs: seq<seq<byte>>, rest: seq<byte>)
    requires AllFit(blobs)
    ensures ReadBlobs(Blobs(blobs) + rest, |blobs|) == Some((blobs, rest))
    decreases |blobs|
  {
    if blobs == [] {
      assert Blobs(blobs) + rest == rest;
    } else {
      assert Blobs(blobs) + rest == Blob(blobs[0]) + (Blobs(blobs[1..]) + rest);
      BlobReadBack(blobs[0], Blobs(blobs[1..]) + rest);
      BlobsReadBack(blobs[1..], rest);
      assert [blobs[0]] + blobs[1..] == blobs;
    }
  }

  lemma BlobsCons(b: seq<byte>, blobs: seq<seq<byte>>, rest: seq<byte>)
    ensures Blobs([b] + blobs) + rest == Blob(b) + (Blobs(blobs) + rest)
  {
    assert ([b] + blobs)[1..] == blobs;
  }

  lemma {:induction false} BlobsWerePrinted(s: seq<byte>, n: nat)
    requires ReadBlobs(s, n).Some?
    ensures (var (blobs, rest) := ReadBlobs(s, n).value; |blobs| == n && AllFit(blobs) && s == Blobs(blobs) + rest)
    decreases n
  {
    if n > 0 {
      BlobWasPrinted(s);
      var (b, s') := ReadBlob(s).value;
      BlobsWerePrinted(s', n - 1);
      var (blobs, rest) := ReadBlobs(s', n - 1).value;
      BlobsCons(b, blobs, rest);
    } else {
      assert s == Blobs([]) + s;
    }
  }

  /** Every blob costs at least its length prefix. */
  lemma {:induction false} BlobsAreLong(blobs: seq<seq<byte>>)
    ensures |Blobs(blobs)| >= 4 * |blobs|
  {
    if blobs != [] {
      BlobsAreLong(blobs[1..]);
    }
  }

  // ---------------------------------------------------------------- the parser's specification

  /** The fields in file order. */
  function ParsePrefix(s: seq<byte>, size: nat): Option<(Fixture, seq<byte>)> {
    if |s| < 16 + PACKET_SIZE || s[..8] != MAGIC then None
    else
      var packet := s[8..][..PACKET_SIZE];
      var s1 := s[8..][PACKET_SIZE..];
      ParseTail(packet, s1, size)
  }

  function ParseTail(packet: seq<byte>, s: seq<byte>, size: nat): Option<(Fixture, seq<byte>)>
    requires |s| >= 8
  {
    LeWord(s[..8]);
    var queryId: word := Le(s[..8]);
    match ReadBlob(s[8..])
    case None => None
    case Some((queryTx, s1)) =>
      match ReadBlob(s1)
      case None => None
      case Some((reply, s2)) =>
        match ReadU32(s2)
        case None => None
        case Some((n, s3)) =>
          if n > size / 4 then None else
            match ReadBlobs(s3, n)
            case None => None
            case Some((commitTxs, s4)) =>
              match ReadBlob(s4)
              case None => None
              case Some((revealTx, s5)) => Some((Fixture(packet, queryId, queryTx, reply, commitTxs, revealTx), s5))
  }

  /** The file from the query id on, followed by anything. */
  function TailThen(f: Fixture, rest: seq<byte>): seq<byte> {
    ToBytes(f.queryId, 8) + (Blob(f.queryTx) + (Blob(f.reply) + CommitsThen(f.commitTxs, Blob(f.revealTx) + rest)))
  }

  function CommitsThen(commitTxs: seq<seq<byte>>, rest: seq<byte>): seq<byte> {
    U32(|commitTxs|) + (Blobs(commitTxs) + rest)
  }

  lemma QueryIdReadBack(q: word, rest: seq<byte>)
    ensures |ToBytes(q, 8) + rest| >= 8
    ensures Le((ToBytes(q, 8) + rest)[..8]) == q && (ToBytes(q, 8) + rest)[8..] == rest
  {
    assert (ToBytes(q, 8) + rest)[..8] == ToBytes(q, 8);
    Pow2Is64();
    EightBytes(q, 8);
  }

  lemma CountReadBack(commitTxs: seq<seq<byte>>, rest: seq<byte>)
    requires |commitTxs| < LIMIT32 && AllFit(commitTxs)
    ensures ReadU32(CommitsThen(commitTxs, rest)) == Some((|commitTxs|, Blobs(commitTxs) + rest))
    ensures ReadBlobs(Blobs(commitTxs) + rest, |commitTxs|) == Some((commitTxs, rest))
  {
    U32Value(|commitTxs|);
    assert CommitsThen(commitTxs, rest)[..4] == U32(|commitTxs|);
    assert CommitsThen(commitTxs, rest)[4..] == Blobs(commitTxs) + rest;
    BlobsReadBack(commitTxs, rest);
  }

  lemma TailReadBack(f: Fixture, rest: seq<byte>, size: nat)
    requires Fits(f) && |f.commitTxs| <= size / 4
    ensures ParseTail(f.computorsPacket, TailThen(f, rest), size) == Some((f, rest))
  {
    var s4 := Blob(f.revealTx) + rest;
    var s2 := CommitsThen(f.commitTxs, s4);
    var s1 := Blob(f.reply) + s2;
    QueryIdReadBack(f.queryId, Blob(f.queryTx) + s1);
    BlobReadBack(f.queryTx, s1);
    BlobReadBack(f.reply, s2);
    CountReadBack(f.commitTxs, s4);
    BlobReadBack(f.revealTx, rest);
  }

  lemma CountWasPrinted(s: seq<byte>, n: nat, s': seq<byte>)
    requires ReadU32(s) == Some((n, s'))
    ensures n < LIMIT32 && s == U32(n) + s'
  {
    U32Bytes(s[..4]);
  }

  lemma QueryIdWasPrinted(s: seq<byte>)
    requires |s| >= 8
    ensures Le(s[..8]) < W && s == ToBytes(Le(s[..8]), 8) + s[8..]
  {
    LeWord(s[..8]);
    ToBytesLe(s[..8]);
  }

  lemma TailWasPrinted(packet: seq<byte>, s: seq<byte>, size: nat)
    requires |packet| == PACKET_SIZE && |s| >= 8 && ParseTail(packet, s, size).Some?
    ensures (var (f, rest) := ParseTail(packet, s, size).value;
             f.computorsPacket == packet && Fits(f) && s == TailThen(f, rest))
  {
    QueryIdWasPrinted(s);
    BlobWasPrinted(s[8..]);
    var (queryTx, s1) := ReadBlob(s[8..]).value;
    BlobWasPrinted(s1);
    var (reply, s2) := ReadBlob(s1).value;
    var (n, s3) := ReadU32(s2).value;
    CountWasPrinted(s2, n, s3);
    BlobsWerePrinted(s3, n);
    var (commitTxs, s4) := ReadBlobs(s3, n).value;
    BlobWasPrinted(s4);
  }

  // ---------------------------------------------------------------- parsing and printing

  function Parsed(bytes: seq<byte>): Option<Fixture> {
    match ParsePrefix(bytes, |bytes|)
    case None => None
    case Some((f, rest)) => if rest == [] then Some(f) else None
  }

  function FileThen(f: Fixture, rest: seq<byte>): seq<byte> {
    MAGIC + (f.computorsPacket + TailThen(f, rest))
  }

  lemma SerializedThen(f: Fixture, rest: seq<byte>)
    ensures Serialized(f) + rest == FileThen(f, rest)
  {
    Regroup(MAGIC, f.computorsPacket, ToBytes(f.queryId, 8), Blob(f.queryTx), Blob(f.reply), U32(|f.commitTxs|),
            Blobs(f.commitTxs), Blob(f.revealTx), rest);
  }

  lemma HeadThenTail(s: seq<byte>, packet: seq<byte>, tail: seq<byte>)
    requires |packet| == PACKET_SIZE && s == MAGIC + (packet + tail)
    ensures |s| >= 8 + PACKET_SIZE && s[..8] == MAGIC && s[8..][..PACKET_SIZE] == packet && s[8..][PACKET_SIZE..] == tail
  {
    assert s[8..] == packet + tail;
  }

  lemma Regroup(a: seq<byte>, b: seq<byte>, c: seq<byte>, d: seq<byte>, e: seq<byte>, g: seq<byte>, h: seq<byte>,
                i: seq<byte>, j: seq<byte>)
    ensures a + b + c + d + e + g + h + i + j == a + (b + (c + (d + (e + (g + (h + (i + j)))))))
  {
  }

  lemma PrefixReadBack(f: Fixture, rest: seq<byte>, size: nat)
    requires Fits(f) && size >= |Serialized(f)|
    ensures ParsePrefix(Serialized(f) + rest, size) == Some((f, rest))
  {
    SerializedThen(f, rest);
    HeadThenTail(FileThen(f, rest), f.computorsPacket, TailThen(f, rest));
    BlobsAreLong(f.commitTxs);
    TailReadBack(f, rest, size);
  }

  lemma PrefixParts(s: seq<byte>, size: nat) returns (packet: seq<byte>, tail: seq<byte>)
    requires ParsePrefix(s, size).Some?
    ensures |packet| == PACKET_SIZE && |tail| >= 8 && s == MAGIC + (packet + tail)
    ensures ParsePrefix(s, size) == ParseTail(packet, tail, size)
  {
    packet, tail := s[8..][..PACKET_SIZE], s[8..][PACKET_SIZE..];
    assert s == s[..8] + s[8..] && s[8..] == packet + tail;
  }

  lemma PrefixWasPrinted(s: seq<byte>, size: nat) returns (f: Fixture, rest: seq<byte>)
    requires ParsePrefix(s, size).Some?
    ensures ParsePrefix(s, size) == Some((f, rest)) && Fits(f) && s == Serialized(f) + rest
  {
    var packet, tail := PrefixParts(s, size);
    TailWasPrinted(packet, tail, size);
    f, rest := ParseTail(packet, tail, size).value.0, ParseTail(packet, tail, size).value.1;
    SerializedThen(f, rest);
  }

  /** Printing and then parsing gives the fixture back; the commit-count guard never gets in the way. */
  lemma ParseOfSerialized(f: Fixture)
    requires Fits(f)
    ensures Parsed(Serialized(f)) == Some(f)
  {
    assert Serialized(f) + [] == Serialized(f);
    PrefixReadBack(f, [], |Serialized(f)|);
  }

  /** An accepted file is the printed form of what it parses to. */
  lemma SerializedOfParsed(bytes: seq<byte>)
    requires Parsed(bytes).Some?
    ensures Fits(Parsed(bytes).value) && Serialized(Parsed(bytes).value) == bytes
  {
    var f, rest := PrefixWasPrinted(bytes, |bytes|);
    assert Serialized(f) + [] == Serialized(f);
  }

  /** Lengths that do not fit are truncated when printed: the round trip holds exactly for fixtures that fit. */
  lemma RoundTripExactly(f: Fixture)
    ensures Parsed(Serialized(f)) == Some(f) <==> Fits(f)
  {
    if Fits(f) {
      ParseOfSerialized(f);
    }
    if Parsed(Serialized(f)) == Some(f) {
      SerializedOfParsed(Serialized(f));
    }
  }

  lemma TrailingBytes(bytes: seq<byte>, f: Fixture, rest: seq<byte>)
    requires ParsePrefix(bytes, |bytes|) == Some((f, rest)) && rest != []
    ensures Parsed(bytes).None?
  {
  }

  /** No proper prefix of an accepted file is accepted. */
  lemma NoPrefixParses(bytes: seq<byte>, k: nat)
    requires Parsed(bytes).Some? && k < |bytes|
    ensures Parsed(bytes[..k]).None?
  {
    if Parsed(bytes[..k]).Some? {
      SerializedOfParsed(bytes[..k]);
      SplitFile(bytes, k, Parsed(bytes[..k]).value);
    }
  }

  lemma SplitFile(bytes: seq<byte>, k: nat, g: Fixture)
    requires k < |bytes| && Fits(g) && Serialized(g) == bytes[..k]
    ensures Parsed(bytes).None?
  {
    assert bytes[..k] + bytes[k..] == bytes;
    PrefixReadBack(g, bytes[k..], |bytes|);
    TrailingBytes(bytes, g, bytes[k..]);
  }

  // ---------------------------------------------------------------- the file in numbers

  /** The bytes that n transactions take up before transaction n, each with four bytes of length. */
  ghost function PlaceOf(blobs: seq<seq<byte>>, n: nat): nat
    requires n <= |blobs|
  {
    if n == 0 then 0 else PlaceOf(blobs, n - 1) + 4 + |blobs[n - 1]|
  }

  lemma {:induction false} BlobsAppend(blobs: seq<seq<byte>>, b: seq<byte>)
    ensures Blobs(blobs + [b]) == Blobs(blobs) + Blob(b)
  {
    if blobs == [] {
      assert blobs + [b] == [b];
    } else {
      assert (blobs + [b])[1..] == blobs[1..] + [b];
      BlobsAppend(blobs[1..], b);
      JoinTwice(Blob(blobs[0]), Blobs(blobs[1..]), Blob(b));
    }
  }

  lemma JoinTwice(a: seq<byte>, b: seq<byte>, c: seq<byte>)
    ensures a + b + c == a + (b + c)
  {
  }

  /** Transaction i stands, after its length, at its place in the list. */
  lemma {:induction false} BlobPlace(blobs: seq<seq<byte>>, i: nat, n: nat)
    requires AllFit(blobs) && i < n <= |blobs|
    ensures |Blobs(blobs[..n])| == PlaceOf(blobs, n) >= PlaceOf(blobs, i) + 4 + |blobs[i]|
    ensures (var o := PlaceOf(blobs, i);
             && Blobs(blobs[..n])[o..o + 4] == ToBytes(|blobs[i]|, 4)
             && Blobs(blobs[..n])[o + 4..o + 4 + |blobs[i]|] == blobs[i])
    decreases n
  {
    hide ToBytes;
    assert blobs[..n - 1] + [blobs[n - 1]] == blobs[..n];
    BlobsAppend(blobs[..n - 1], blobs[n - 1]);
    if n == 1 {
      assert blobs[..0] == [];
    } else {
      BlobPlace(blobs, if i < n - 1 then i else 0, n - 1);
    }
    ModSmall(|blobs[i]|, LIMIT32);
  }

  /** The file: ZKQFIX02, the packet in bytes 8 to 21705, the query id in the next eight, then the query transaction, the
      reply, the commits and the reveal transaction, each after its length or count in four bytes. */
  lemma FileLayout(f: Fixture, s: seq<byte>, a: nat, b: nat, d: nat)
    requires Fits(f) && s == Serialized(f) && a == 21718 + |f.queryTx| && b == a + 4 + |f.reply|
    requires d == |s| - |f.revealTx|
    ensures b + 4 + 4 <= d <= |s|
    ensures s[..8] == [0x5A, 0x4B, 0x51, 0x46, 0x49, 0x58, 0x30, 0x32] && s[8..21706] == f.computorsPacket
    ensures s[21706..21714] == ToBytes(f.queryId, 8)
    ensures s[21714..21718] == ToBytes(|f.queryTx|, 4) && s[21718..a] == f.queryTx
    ensures s[a..a + 4] == ToBytes(|f.reply|, 4) && s[a + 4..b] == f.reply
    ensures s[b..b + 4] == ToBytes(|f.commitTxs|, 4) && s[b + 4..d - 4] == Blobs(f.commitTxs)
    ensures s[d - 4..d] == ToBytes(|f.revealTx|, 4) && s[d..] == f.revealTx
  {
    ModSmall(|f.queryTx|, LIMIT32);
    ModSmall(|f.reply|, LIMIT32);
    ModSmall(|f.commitTxs|, LIMIT32);
    ModSmall(|f.revealTx|, LIMIT32);
    FileParts(s, MAGIC, f.computorsPacket, ToBytes(f.queryId, 8), U32(|f.queryTx|), f.queryTx, U32(|f.reply|), f.reply,
              U32(|f.commitTxs|), Blobs(f.commitTxs), U32(|f.revealTx|), f.revealTx, a, b, d);
  }

  lemma FileParts(s: seq<byte>, magic: seq<byte>, packet: seq<byte>, id: seq<byte>, n1: seq<byte>, b1: seq<byte>,
                  n2: seq<byte>, b2: seq<byte>, n3: seq<byte>, blobs: seq<byte>, n4: seq<byte>, b4: seq<byte>,
                  a: nat, b: nat, d: int)
    requires |magic| == |id| == 8 && |packet| == 21698 && |n1| == |n2| == |n3| == |n4| == 4
    requires s == magic + packet + id + (n1 + b1) + (n2 + b2) + n3 + blobs + (n4 + b4)
    requires a == 21718 + |b1| && b == a + 4 + |b2| && d == |s| - |b4|
    ensures b + 8 <= d <= |s| && s[..8] == magic && s[8..21706] == packet && s[21706..21714] == id
    ensures s[21714..21718] == n1 && s[21718..a] == b1 && s[a..a + 4] == n2 && s[a + 4..b] == b2
    ensures s[b..b + 4] == n3 && s[b + 4..d - 4] == blobs && s[d - 4..d] == n4 && s[d..] == b4
  {
  }

  // ---------------------------------------------------------------- the cursor

  /** The `take` closure: n bytes at the cursor, or an error that leaves the cursor in place. */
  method TakeAt(bytes: seq<byte>, off: nat, n: nat) returns (b: Option<seq<byte>>, off': nat)
    requires off <= |bytes|
    ensures off <= off' <= |bytes|
    ensures b == match Take(bytes[off..], n) case None => None case Some((x, _)) => Some(x)
    ensures b.Some? ==> off' == off + n && bytes[off'..] == bytes[off..][n..]
  {
    if off + n <= |bytes| {
      b, off' := Some(bytes[off..off + n]), off + n;
      assert bytes[off..][..n] == bytes[off..off + n];
    } else {
      b, off' := None, off;
    }
  }

  method ReadBlobAt(bytes: seq<byte>, off: nat) returns (b: Option<seq<byte>>, off': nat)
    requires off <= |bytes|
    ensures off <= off' <= |bytes|
    ensures match b case None => ReadBlob(bytes[off..]).None? case Some(x) => ReadBlob(bytes[off..]) == Some((x, bytes[off'..]))
  {
    var len;
    len, off' := TakeAt(bytes, off, 4);
    if len.None? {
      return None, off';
    }
    b, off' := TakeAt(bytes, off', Le(len.value));
  }

  /** The commit loop. */
  method ReadBlobsAt(bytes: seq<byte>, off: nat, n: nat) returns (blobs: Option<seq<seq<byte>>>, off': nat)
    requires off <= |bytes|
    ensures off' <= |bytes|
    ensures match blobs
            case None => ReadBlobs(bytes[off..], n).None?
            case Some(x) => ReadBlobs(bytes[off..], n) == Some((x, bytes[off'..]))
  {
    var txs: seq<seq<byte>> := [];
    off' := off;
    NothingRead(ReadBlobs(bytes[off..], n));
    for i := 0 to n
      invariant off' <= |bytes|
      invariant ReadBlobs(bytes[off..], n) == AfterReading(txs, ReadBlobs(bytes[off'..], n - i))
    {
      var b;
      ghost var before, off0 := txs, off';
      b, off' := ReadBlobAt(bytes, off');
      if b.None? {
        return None, off';
      }
      txs := txs + [b.value];
      OneMoreRead(before, b.value, bytes[off0..], bytes[off'..], n - i);
    }
    assert txs + [] == txs;
    blobs := Some(txs);
  }

  /** The outcome of the whole loop, from the blobs read so far and the outcome of the rest. */
  function AfterReading(txs: seq<seq<byte>>, r: Option<(seq<seq<byte>>, seq<byte>)>): Option<(seq<seq<byte>>, seq<byte>)> {
    match r
    case None => None
    case Some((rest, s)) => Some((txs + rest, s))
  }

  lemma NothingRead(r: Option<(seq<seq<byte>>, seq<byte>)>)
    ensures AfterReading([], r) == r
  {
    match r
    case None =>
    case Some((rest, _)) => assert [] + rest == rest;
  }

  lemma OneMoreRead(txs: seq<seq<byte>>, b: seq<byte>, s: seq<byte>, s': seq<byte>, n: nat)
    requires n > 0 && ReadBlob(s) == Some((b, s'))
    ensures AfterReading(txs, ReadBlobs(s, n)) == AfterReading(txs + [b], ReadBlobs(s', n - 1))
  {
    match ReadBlobs(s', n - 1)
    case None =>
    case Some((rest, _)) => assert txs + ([b] + rest) == txs + [b] + rest;
  }

  /** `Fixture::parse`. */
  method Parse(bytes: seq<byte>) returns (r: Option<Fixture>)
    ensures r == Parsed(bytes)
  {
    var off := 0;
    var magic, packet, id;
    assert bytes[0..] == bytes;
    magic, off := TakeAt(bytes, off, 8);
    if magic.None? || magic.value != MAGIC {
      return None;
    }
    packet, off := TakeAt(bytes, off, PACKET_SIZE);
    if packet.None? {
      return None;
    }
    ghost var tail := bytes[off..];
    id, off := TakeAt(bytes, off, 8);
    if id.None? {
      return None;
    }
    r := ParseFrom(bytes, off, packet.value, id.value, tail);
  }

  method ParseFrom(bytes: seq<byte>, start: nat, packet: seq<byte>, id: seq<byte>, ghost tail: seq<byte>)
    returns (r: Option<Fixture>)
    requires start <= |bytes| && |tail| >= 8 && id == tail[..8] && bytes[start..] == tail[8..]
    ensures r == match ParseTail(packet, tail, |bytes|)
                 case None => None
                 case Some((f, rest)) => if rest == [] then Some(f) else None
  {
    LeWord(id);
    var off := start;
    var queryTx, reply, count, commitTxs, revealTx;
    queryTx, off := ReadBlobAt(bytes, off);
    if queryTx.None? {
      return None;
    }
    reply, off := ReadBlobAt(bytes, off);
    if reply.None? {
      return None;
    }
    count, off := TakeAt(bytes, off, 4);
    if count.None? {
      return None;
    }
    var n := Le(count.value);
    if n > |bytes| / 4 {
      return None;
    }
    commitTxs, off := ReadBlobsAt(bytes, off, n);
    if commitTxs.None? {
      return None;
    }
    revealTx, off := ReadBlobAt(bytes, off);
    if revealTx.None? || off != |bytes| {
      return None;
    }
    r := Some(Fixture(packet, Le(id), queryTx.value, reply.value, commitTxs.value, revealTx.value));
  }

  /** `Fixture::serialize`. */
  method Serialize(f: Fixture) returns (out: seq<byte>)
    requires |f.computorsPacket| == PACKET_SIZE
    ensures out == Serialized(f)
  {
    out := MAGIC;
    out := out + f.computorsPacket;
    out := out + ToBytes(f.queryId, 8);
    out := out + Blob(f.queryTx);
    out := out + Blob(f.reply);
    out := out + U32(|f.commitTxs|);
    out := AppendBlobs(out, f.commitTxs);
    out := out + Blob(f.revealTx);
  }

  method AppendBlobs(out: seq<byte>, blobs: seq<seq<byte>>) returns (out': seq<byte>)
    ensures out' == out + Blobs(blobs)
  {
    out' := out;
    assert blobs[0..] == blobs;
    for i := 0 to |blobs|
      invariant out' + Blobs(blobs[i..]) == out + Blobs(blobs)
    {
      NextBlob(out', blobs, i);
      out' := out' + U32(|blobs[i]|);
      out' := out' + blobs[i];
    }
  }

  lemma NextBlob(out: seq<byte>, blobs: seq<seq<byte>>, i: nat)
    requires i < |blobs|
    ensures out + U32(|blobs[i]|) + blobs[i] + Blobs(blobs[i + 1..]) == out + Blobs(blobs[i..])
  {
    assert blobs[i..][1..] == blobs[i + 1..];
    JoinThree(out, U32(|blobs[i]|), blobs[i], Blobs(blobs[i + 1..]));
  }

  lemma JoinThree(a: seq<byte>, b: seq<byte>, c: seq<byte>, d: seq<byte>)
    ensures a + b + c + d == a + ((b + c) + d)
  {
  }

  /** The guest's fifth input frame, and what the guest reads from it. */
  method WriteCommitsFrame(f: Fixture) returns (out: seq<byte>)
    ensures out == CommitsFrame(f)
  {
    out := U32(|f.commitTxs|);
    out := AppendBlobs(out, f.commitTxs);
  }

  lemma CommitsFrameReadBack(f: Fixture)
    requires Fits(f)
    ensures ReadU32(CommitsFrame(f)) == Some((|f.commitTxs|, Blobs(f.commitTxs)))
    ensures ReadBlobs(Blobs(f.commitTxs), |f.commitTxs|) == Some((f.commitTxs, []))
    ensures CommitsFrame(f) == ToBytes(|f.commitTxs|, 4) + Blobs(f.commitTxs)
  {
    ModSmall(|f.commitTxs|, LIMIT32);
    CountReadBack(f.commitTxs, []);
    assert Blobs(f.commitTxs) + [] == Blobs(f.commitTxs);
  }
}
