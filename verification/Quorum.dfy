/** The guest program: which inputs it attests, and the journal it commits. A panic is an absent result. */
module Quorum {
  import opened Words
  import opened Bytes
  import opened Fixture
  import opened Wrappers

  const QUORUM := 451
  const PACKET_SIGNED_SIZE := PACKET_SIZE - SIGNATURE_SIZE
  const TX_HEADER_SIZE := 80
  const COMMIT_ITEM_SIZE := 72
  const QUERY_INPUT_TYPE := 10
  const COMMIT_INPUT_TYPE := 6
  const REVEAL_INPUT_TYPE := 7

  type digest = d: seq<byte> | |d| == 32 witness Zeros(32)

  /** The hash and the signature check of the C core. */
  datatype Crypto = Crypto(k12: seq<byte> -> digest, verify: (seq<byte>, seq<byte>, digest) -> bool)

  // ---------------------------------------------------------------- transactions

  datatype Tx = Tx(source: seq<byte>, destIsZero: bool, amount: int, tick: nat, inputType: nat, input: seq<byte>,
                   sig: seq<byte>)

  /** Two's complement. */
  function Signed64(x: nat): int {
    if x < W / 2 then x else x - W
  }

  function InputSize(tx: seq<byte>): nat
    requires |tx| >= TX_HEADER_SIZE
  {
    Le(tx[78..80])
  }

  function ParseTx(tx: seq<byte>): Option<Tx> {
    if |tx| < TX_HEADER_SIZE + SIGNATURE_SIZE then None
    else
      var inputSize := InputSize(tx);
      if |tx| != TX_HEADER_SIZE + inputSize + SIGNATURE_SIZE then None
      else
        Some(Tx(tx[..32], forall i :: 32 <= i < 64 ==> tx[i] == 0, Signed64(Le(tx[64..72])), Le(tx[72..76]),
                Le(tx[76..78]), tx[TX_HEADER_SIZE..TX_HEADER_SIZE + inputSize], tx[TX_HEADER_SIZE + inputSize..]))
  }

  /** The parts of a transaction by their places. */
  lemma TxParts(tx: seq<byte>, source: seq<byte>, dest: seq<byte>, amount: seq<byte>, tick: seq<byte>, inputType: seq<byte>,
                size: seq<byte>, input: seq<byte>, sig: seq<byte>)
    requires |source| == |dest| == 32 && |amount| == 8 && |tick| == 4 && |inputType| == |size| == 2 && |sig| == 64
    requires tx == source + dest + amount + tick + inputType + size + input + sig
    ensures |tx| == 144 + |input| && tx[..32] == source && tx[32..64] == dest && tx[64..72] == amount && tx[72..76] == tick
    ensures tx[76..78] == inputType && tx[78..80] == size && tx[80..80 + |input|] == input && tx[80 + |input|..] == sig
  {
  }

  lemma TxJoined(tx: seq<byte>, n: nat)
    requires |tx| == 144 + n
    ensures tx == tx[..32] + tx[32..64] + tx[64..72] + tx[72..76] + tx[76..78] + tx[78..80] + tx[80..80 + n] + tx[80 + n..]
  {
  }

  lemma Widths()
    ensures Pow2(8 * 2) == 0x1_0000 && Pow2(8 * 4) == 0x1_0000_0000 && Pow2(8 * 8) == W
  {
    PowersOf256();
    Pow2Adds(8, 8);
    Pow2Adds(16, 16);
    Pow2Is64();
  }

  lemma TwosComplement(amount: int)
    requires -0x8000_0000_0000_0000 <= amount < 0x8000_0000_0000_0000
    ensures Signed64(amount % W) == amount
  {
  }

  lemma NumberReadBack(x: nat, n: nat)
    requires (n == 2 && x < 0x1_0000) || (n == 4 && x < 0x1_0000_0000) || (n == 8 && x < W)
    ensures Le(ToBytes(x, n)) == x
  {
    Widths();
    LeToBytes(x, n);
  }

  lemma NumberWasPrinted(b: seq<byte>)
    ensures |b| == 2 ==> Le(b) < 0x1_0000
    ensures |b| == 4 ==> Le(b) < 0x1_0000_0000
    ensures |b| == 8 ==> Le(b) < W
    ensures ToBytes(Le(b), |b|) == b
  {
    Widths();
    LeBound(b);
    ToBytesLe(b);
  }

  /** A transaction is its source, destination, amount, tick, input type, input size, input and signature, in this
      order. */
  lemma ParseOfTx(source: seq<byte>, dest: seq<byte>, amount: int, tick: nat, inputType: nat, input: seq<byte>,
                  sig: seq<byte>)
    requires |source| == |dest| == 32 && |sig| == 64 && -0x8000_0000_0000_0000 <= amount < 0x8000_0000_0000_0000
    requires tick < 0x1_0000_0000 && inputType < 0x1_0000 && |input| < 0x1_0000
    ensures ParseTx(source + dest + ToBytes(amount % W, 8) + ToBytes(tick, 4) + ToBytes(inputType, 2)
                    + ToBytes(|input|, 2) + input + sig)
         == Some(Tx(source, dest == Zeros(32), amount, tick, inputType, input, sig))
  {
    hide ToBytes;
    hide Le;
    var a, t, y, z := ToBytes(amount % W, 8), ToBytes(tick, 4), ToBytes(inputType, 2), ToBytes(|input|, 2);
    var tx := source + dest + a + t + y + z + input + sig;
    TxParts(tx, source, dest, a, t, y, z, input, sig);
    NumberReadBack(amount % W, 8);
    NumberReadBack(tick, 4);
    NumberReadBack(inputType, 2);
    NumberReadBack(|input|, 2);
    TwosComplement(amount);
    assert forall i :: 32 <= i < 64 ==> tx[i] == dest[i - 32];
  }

  /** Every accepted byte string is such a transaction. */
  lemma TxWasPrinted(raw: seq<byte>) returns (tx: Tx, dest: seq<byte>)
    requires ParseTx(raw).Some?
    ensures ParseTx(raw) == Some(tx) && |tx.source| == |dest| == 32 && |tx.sig| == 64
    ensures -0x8000_0000_0000_0000 <= tx.amount < 0x8000_0000_0000_0000 && tx.tick < 0x1_0000_0000
    ensures tx.inputType < 0x1_0000 && |tx.input| < 0x1_0000 && (tx.destIsZero <==> dest == Zeros(32))
    ensures raw == tx.source + dest + ToBytes(tx.amount % W, 8) + ToBytes(tx.tick, 4) + ToBytes(tx.inputType, 2)
                   + ToBytes(|tx.input|, 2) + tx.input + tx.sig
  {
    hide ToBytes;
    hide Le;
    tx, dest := ParseTx(raw).value, raw[32..64];
    NumberWasPrinted(raw[64..72]);
    NumberWasPrinted(raw[72..76]);
    NumberWasPrinted(raw[76..78]);
    NumberWasPrinted(raw[78..80]);
    TxJoined(raw, |tx.input|);
    assert forall i :: 32 <= i < 64 ==> raw[i] == dest[i - 32];
  }

  function Unsigned(raw: seq<byte>): seq<byte>
    requires |raw| >= SIGNATURE_SIZE
  {
    raw[..|raw| - SIGNATURE_SIZE]
  }

  predicate TxSignatureValid(c: Crypto, raw: seq<byte>, tx: Tx)
    requires |raw| >= SIGNATURE_SIZE
  {
    c.verify(tx.source, tx.sig, c.k12(Unsigned(raw)))
  }

  // ---------------------------------------------------------------- the computor list

  type keys = k: seq<byte> | |k| == 32 * NUMBER_OF_COMPUTORS witness Zeros(32 * NUMBER_OF_COMPUTORS)

  function PubkeyAt(pubkeys: keys, i: nat): (key: seq<byte>)
    requires i < NUMBER_OF_COMPUTORS
    ensures |key| == 32
  {
    pubkeys[32 * i..32 * i + 32]
  }

  ghost predicate Distinct(pubkeys: keys) {
    forall i, j :: 0 <= i < j < NUMBER_OF_COMPUTORS ==> PubkeyAt(pubkeys, i) != PubkeyAt(pubkeys, j)
  }

  /** Byte strings in lexicographic order. */
  predicate Below(a: seq<byte>, b: seq<byte>) {
    b != [] && (a == [] || a[0] < b[0] || (a[0] == b[0] && Below(a[1..], b[1..])))
  }

  lemma {:induction false} BelowTrans(a: seq<byte>, b: seq<byte>, c: seq<byte>)
    requires Below(a, b) && Below(b, c)
    ensures Below(a, c)
  {
    if a != [] && a[0] == b[0] == c[0] {
      BelowTrans(a[1..], b[1..], c[1..]);
    }
  }

  lemma {:induction false} BelowIrreflexive(a: seq<byte>)
    ensures !Below(a, a)
  {
    if a != [] {
      BelowIrreflexive(a[1..]);
    }
  }

  lemma {:induction false} BelowTotal(a: seq<byte>, b: seq<byte>)
    ensures a == b || Below(a, b) || Below(b, a)
  {
    if a != [] && b != [] && a[0] == b[0] {
      BelowTotal(a[1..], b[1..]);
      assert a == [a[0]] + a[1..] && b == [b[0]] + b[1..];
    }
  }

  /** Every index once, keys in non-decreasing order: what the library sort guarantees. */
  ghost predicate SortedIndex(pubkeys: keys, order: seq<nat>) {
    && |order| == NUMBER_OF_COMPUTORS
    && (forall p :: 0 <= p < |order| ==> order[p] < NUMBER_OF_COMPUTORS)
    && (forall i :: 0 <= i < NUMBER_OF_COMPUTORS ==> i in order)
    && (forall p, q :: 0 <= p < q < |order| ==> order[p] != order[q])
    && (forall p, q :: 0 <= p < q < |order| ==> !Below(PubkeyAt(pubkeys, order[q]), PubkeyAt(pubkeys, order[p])))
  }

  /** The same for the first n keys. */
  ghost predicate SortedPrefix(pubkeys: keys, n: nat, order: seq<nat>) {
    && n <= NUMBER_OF_COMPUTORS && |order| == n
    && (forall p :: 0 <= p < |order| ==> order[p] < n)
    && (forall i :: 0 <= i < n ==> i in order)
    && (forall p, q :: 0 <= p < q < |order| ==> order[p] != order[q])
    && (forall p, q :: 0 <= p < q < |order| ==> !Below(PubkeyAt(pubkeys, order[q]), PubkeyAt(pubkeys, order[p])))
  }

  lemma BelowAsymmetric(a: seq<byte>, b: seq<byte>)
    requires Below(a, b)
    ensures !Below(b, a)
  {
    if Below(b, a) {
      BelowTrans(a, b, a);
      BelowIrreflexive(a);
    }
  }

  /** What is below a key is below every later one. */
  lemma BelowLater(x: seq<byte>, a: seq<byte>, b: seq<byte>)
    requires Below(x, a) && !Below(b, a)
    ensures Below(x, b)
  {
    BelowTotal(a, b);
    if a != b {
      BelowTrans(x, a, b);
    }
  }

  /** Where a key belongs in a sorted index. */
  lemma {:induction false} Place(pubkeys: keys, n: nat, order: seq<nat>, x: seq<byte>, m: nat) returns (k: nat)
    requires SortedPrefix(pubkeys, n, order) && m <= n
    requires forall p :: m <= p < n ==> Below(x, PubkeyAt(pubkeys, order[p]))
    ensures k <= n
    ensures forall p :: 0 <= p < k ==> !Below(x, PubkeyAt(pubkeys, order[p]))
    ensures forall p :: k <= p < n ==> Below(x, PubkeyAt(pubkeys, order[p]))
    decreases m
  {
    if m > 0 && Below(x, PubkeyAt(pubkeys, order[m - 1])) {
      k := Place(pubkeys, n, order, x, m - 1);
    } else {
      k := m;
      forall p | 0 <= p < m - 1
        ensures !Below(x, PubkeyAt(pubkeys, order[p]))
      {
        if Below(x, PubkeyAt(pubkeys, order[p])) {
          BelowLater(x, PubkeyAt(pubkeys, order[p]), PubkeyAt(pubkeys, order[m - 1]));
        }
      }
    }
  }

  lemma InsertNext(pubkeys: keys, n: nat, order: seq<nat>, k: nat) returns (next: seq<nat>)
    requires SortedPrefix(pubkeys, n, order) && n < NUMBER_OF_COMPUTORS && k <= n
    requires forall p :: 0 <= p < k ==> !Below(PubkeyAt(pubkeys, n), PubkeyAt(pubkeys, order[p]))
    requires forall p :: k <= p < n ==> Below(PubkeyAt(pubkeys, n), PubkeyAt(pubkeys, order[p]))
    ensures SortedPrefix(pubkeys, n + 1, next)
  {
    hide Below;
    hide PubkeyAt;
    next := order[..k] + [n] + order[k..];
    forall i | 0 <= i < n + 1
      ensures i in next
    {
      InsertCovers(order, n, k, i);
    }
    forall p, q | 0 <= p < q < |next|
      ensures !Below(PubkeyAt(pubkeys, next[q]), PubkeyAt(pubkeys, next[p]))
    {
      if p == k {
        BelowAsymmetric(PubkeyAt(pubkeys, n), PubkeyAt(pubkeys, order[q - 1]));
      }
    }
  }

  lemma InsertCovers(order: seq<nat>, n: nat, k: nat, i: nat)
    requires k <= |order| && (i in order || i == n)
    ensures i in order[..k] + [n] + order[k..]
  {
    assert order == order[..k] + order[k..];
  }

  lemma {:induction false} SortPrefix(pubkeys: keys, n: nat) returns (order: seq<nat>)
    requires n <= NUMBER_OF_COMPUTORS
    ensures SortedPrefix(pubkeys, n, order)
  {
    if n == 0 {
      order := [];
    } else {
      hide Below;
      hide PubkeyAt;
      hide SortedPrefix;
      var before := SortPrefix(pubkeys, n - 1);
      var k := Place(pubkeys, n - 1, before, PubkeyAt(pubkeys, n - 1), n - 1);
      order := InsertNext(pubkeys, n - 1, before, k);
    }
  }

  /** Every list of keys has a sorted index. */
  lemma SortedIndexExists(pubkeys: keys)
    ensures exists order :: SortedIndex(pubkeys, order)
  {
    var order := SortPrefix(pubkeys, NUMBER_OF_COMPUTORS);
    assert SortedIndex(pubkeys, order);
  }

  /** Keys strictly increasing along the index. */
  ghost predicate StrictIndex(pubkeys: keys, order: seq<nat>) {
    && SortedIndex(pubkeys, order)
    && forall p, q :: 0 <= p < q < |order| ==> Below(PubkeyAt(pubkeys, order[p]), PubkeyAt(pubkeys, order[q]))
  }

  function SortedKey(pubkeys: keys, order: seq<nat>, p: nat): seq<byte>
    requires p < |order| && order[p] < NUMBER_OF_COMPUTORS
  {
    PubkeyAt(pubkeys, order[p])
  }

  lemma {:induction false} StrictFromAdjacent(pubkeys: keys, order: seq<nat>, p: nat, q: nat)
    requires SortedIndex(pubkeys, order) && p < q < |order|
    requires forall w :: 0 <= w < |order| - 1 ==> Below(SortedKey(pubkeys, order, w), SortedKey(pubkeys, order, w + 1))
    ensures Below(SortedKey(pubkeys, order, p), SortedKey(pubkeys, order, q))
    decreases q - p
  {
    if p + 1 < q {
      StrictFromAdjacent(pubkeys, order, p, q - 1);
      assert Below(SortedKey(pubkeys, order, q - 1), SortedKey(pubkeys, order, q - 1 + 1));
      BelowTrans(SortedKey(pubkeys, order, p), SortedKey(pubkeys, order, q - 1), SortedKey(pubkeys, order, q));
    }
  }

  lemma DistinctFromStrict(pubkeys: keys, order: seq<nat>)
    requires StrictIndex(pubkeys, order)
    ensures Distinct(pubkeys)
  {
    forall i, j | 0 <= i < j < NUMBER_OF_COMPUTORS
      ensures PubkeyAt(pubkeys, i) != PubkeyAt(pubkeys, j)
    {
      assert i in order && j in order;
      var p :| 0 <= p < |order| && order[p] == i;
      var q :| 0 <= q < |order| && order[q] == j;
      BelowIrreflexive(PubkeyAt(pubkeys, i));
    }
  }

  /** `reject_duplicate_pubkeys` after its sort: neighbours decide, because the index is sorted. */
  method RejectDuplicatePubkeys(pubkeys: keys, order: seq<nat>) returns (ok: bool)
    requires SortedIndex(pubkeys, order)
    ensures ok <==> Distinct(pubkeys)
    ensures ok ==> StrictIndex(pubkeys, order)
  {
    for w := 0 to |order| - 1
      invariant forall v :: 0 <= v < w ==> Below(SortedKey(pubkeys, order, v), SortedKey(pubkeys, order, v + 1))
    {
      var a, b := SortedKey(pubkeys, order, w), SortedKey(pubkeys, order, w + 1);
      if a == b {
        assert order[w] != order[w + 1];
        return false;
      }
      BelowTotal(a, b);
    }
    forall p, q | 0 <= p < q < |order|
      ensures Below(PubkeyAt(pubkeys, order[p]), PubkeyAt(pubkeys, order[q]))
    {
      StrictFromAdjacent(pubkeys, order, p, q);
    }
    DistinctFromStrict(pubkeys, order);
    ok := true;
  }

  /** `find_computor`: a binary search that returns what a scan of the list would. */
  method FindComputor(pubkeys: keys, sorted: seq<nat>, key: seq<byte>) returns (r: Option<nat>)
    requires StrictIndex(pubkeys, sorted)
    ensures r.Some? ==> r.value < NUMBER_OF_COMPUTORS && PubkeyAt(pubkeys, r.value) == key
    ensures r.None? ==> forall i :: 0 <= i < NUMBER_OF_COMPUTORS ==> PubkeyAt(pubkeys, i) != key
  {
    var lo, hi := 0, |sorted|;
    while lo < hi
      invariant 0 <= lo <= hi <= |sorted|
      invariant forall p :: 0 <= p < lo ==> Below(SortedKey(pubkeys, sorted, p), key)
      invariant forall p :: hi <= p < |sorted| ==> Below(key, SortedKey(pubkeys, sorted, p))
    {
      var mid := (lo + hi) / 2;
      var k := SortedKey(pubkeys, sorted, mid);
      if k == key {
        return Some(sorted[mid]);
      } else if Below(k, key) {
        LowerHalf(pubkeys, sorted, mid, key);
        lo := mid + 1;
      } else {
        BelowTotal(k, key);
        UpperHalf(pubkeys, sorted, mid, key);
        hi := mid;
      }
    }
    forall i | 0 <= i < NUMBER_OF_COMPUTORS
      ensures PubkeyAt(pubkeys, i) != key
    {
      assert i in sorted;
      var p :| 0 <= p < |sorted| && sorted[p] == i;
      assert Below(SortedKey(pubkeys, sorted, p), key) || Below(key, SortedKey(pubkeys, sorted, p));
      BelowIrreflexive(key);
    }
    r := None;
  }

  lemma LowerHalf(pubkeys: keys, sorted: seq<nat>, mid: nat, key: seq<byte>)
    requires StrictIndex(pubkeys, sorted) && mid < |sorted| && Below(SortedKey(pubkeys, sorted, mid), key)
    ensures forall p :: 0 <= p <= mid ==> Below(SortedKey(pubkeys, sorted, p), key)
  {
    forall p | 0 <= p < mid
      ensures Below(SortedKey(pubkeys, sorted, p), key)
    {
      BelowTrans(SortedKey(pubkeys, sorted, p), SortedKey(pubkeys, sorted, mid), key);
    }
  }

  lemma UpperHalf(pubkeys: keys, sorted: seq<nat>, mid: nat, key: seq<byte>)
    requires StrictIndex(pubkeys, sorted) && mid < |sorted| && Below(key, SortedKey(pubkeys, sorted, mid))
    ensures forall p :: mid <= p < |sorted| ==> Below(key, SortedKey(pubkeys, sorted, p))
  {
    forall p | mid < p < |sorted|
      ensures Below(key, SortedKey(pubkeys, sorted, p))
    {
      BelowTrans(key, SortedKey(pubkeys, sorted, mid), SortedKey(pubkeys, sorted, p));
    }
  }

  // ---------------------------------------------------------------- one commit

  /** What a commit is checked against. */
  datatype Query = Query(pubkeys: keys, queryId: seq<byte>, queryTick: nat, replyDigest: digest, reply: seq<byte>)

  /** What member idx must have hashed: the reply followed by idx as a 16-bit number. */
  function KnowledgeProof(c: Crypto, q: Query, idx: nat): digest {
    c.k12(q.reply + ToBytes(idx, 2))
  }

  function Item(input: seq<byte>, j: nat): seq<byte>
    requires COMMIT_ITEM_SIZE * (j + 1) <= |input|
  {
    input[COMMIT_ITEM_SIZE * j..COMMIT_ITEM_SIZE * (j + 1)]
  }

  function CommitItem(c: Crypto, q: Query, idx: nat): seq<byte> {
    q.queryId + q.replyDigest + KnowledgeProof(c, q, idx)
  }

  /** Some whole 72-byte item of the input commits member idx to the reply. */
  ghost predicate HasItem(c: Crypto, q: Query, idx: nat, input: seq<byte>) {
    exists j: nat :: COMMIT_ITEM_SIZE * (j + 1) <= |input| && Item(input, j) == CommitItem(c, q, idx)
  }

  /** raw is a valid commit of list member idx: the whole of SPEC step 4 for one transaction. */
  ghost predicate ValidCommit(c: Crypto, q: Query, raw: seq<byte>, idx: nat) {
    idx < NUMBER_OF_COMPUTORS && ParseTx(raw).Some? &&
    var tx := ParseTx(raw).value;
    && tx.inputType == COMMIT_INPUT_TYPE && tx.destIsZero && tx.amount == 0 && tx.tick > q.queryTick
    && tx.source == PubkeyAt(q.pubkeys, idx)
    && HasItem(c, q, idx, tx.input)
    && TxSignatureValid(c, raw, tx)
  }

  lemma OneMember(c: Crypto, q: Query, raw: seq<byte>, i: nat, j: nat)
    requires Distinct(q.pubkeys) && ValidCommit(c, q, raw, i) && ValidCommit(c, q, raw, j)
    ensures i == j
  {
    assert PubkeyAt(q.pubkeys, i) == PubkeyAt(q.pubkeys, j);
  }

  /** The scan over whole items. */
  method AnyItem(c: Crypto, q: Query, idx: nat, input: seq<byte>) returns (matched: bool)
    requires |q.queryId| == 8
    ensures matched <==> HasItem(c, q, idx, input)
  {
    var proof := KnowledgeProof(c, q, idx);
    var j := 0;
    while COMMIT_ITEM_SIZE * (j + 1) <= |input|
      invariant 0 <= j && COMMIT_ITEM_SIZE * j <= |input|
      invariant forall k: nat :: k < j ==> Item(input, k) != CommitItem(c, q, idx)
      decreases |input| - COMMIT_ITEM_SIZE * j
    {
      var item := Item(input, j);
      ItemParts(item, q.queryId, q.replyDigest, proof);
      if item[..8] == q.queryId && item[8..40] == q.replyDigest && item[40..72] == proof {
        return true;
      }
      j := j + 1;
    }
    matched := false;
  }

  lemma ItemParts(item: seq<byte>, a: seq<byte>, b: seq<byte>, d: seq<byte>)
    requires |item| == COMMIT_ITEM_SIZE && |a| == 8 && |b| == 32 && |d| == 32
    ensures item == a + b + d <==> item[..8] == a && item[8..40] == b && item[40..72] == d
  {
    assert item == item[..8] + item[8..40] + item[40..72];
  }

  /** `check_commit`: the member a commit counts for, unless that member was seen before. */
  method CheckCommit(c: Crypto, q: Query, sorted: seq<nat>, raw: seq<byte>, seen: array<bool>) returns (r: Option<nat>)
    requires StrictIndex(q.pubkeys, sorted) && |q.queryId| == 8 && seen.Length == NUMBER_OF_COMPUTORS
    ensures r.Some? ==> ValidCommit(c, q, raw, r.value) && !seen[r.value]
    ensures r.None? ==> forall i :: 0 <= i < NUMBER_OF_COMPUTORS && ValidCommit(c, q, raw, i) ==> seen[i]
  {
    var parsed := ParseTx(raw);
    if parsed.None? {
      return None;
    }
    var tx := parsed.value;
    if tx.inputType != COMMIT_INPUT_TYPE || !tx.destIsZero || tx.amount != 0 || tx.tick <= q.queryTick {
      return None;
    }
    var found := FindComputor(q.pubkeys, sorted, tx.source);
    if found.None? {
      return None;
    }
    var idx := found.value;
    SameSource(c, q, sorted, raw, idx);
    if seen[idx] {
      return None;
    }
    var matched := AnyItem(c, q, idx, tx.input);
    if !matched || !TxSignatureValid(c, raw, tx) {
      return None;
    }
    r := Some(idx);
  }

  /** Only the member whose key is the source can be committed. */
  lemma SameSource(c: Crypto, q: Query, sorted: seq<nat>, raw: seq<byte>, idx: nat)
    requires StrictIndex(q.pubkeys, sorted) && idx < NUMBER_OF_COMPUTORS
    requires ParseTx(raw).Some? && PubkeyAt(q.pubkeys, idx) == ParseTx(raw).value.source
    ensures forall i :: 0 <= i < NUMBER_OF_COMPUTORS && ValidCommit(c, q, raw, i) ==> i == idx
  {
    DistinctFromStrict(q.pubkeys, sorted);
    forall i | 0 <= i < NUMBER_OF_COMPUTORS && ValidCommit(c, q, raw, i)
      ensures i == idx
    {
      assert PubkeyAt(q.pubkeys, i) == PubkeyAt(q.pubkeys, idx);
    }
  }

  // ---------------------------------------------------------------- counting

  ghost predicate Committed(c: Crypto, q: Query, txs: seq<seq<byte>>, idx: nat) {
    exists raw :: raw in txs && ValidCommit(c, q, raw, idx)
  }

  /** The list members with some valid commit among the transactions. */
  ghost function Signers(c: Crypto, q: Query, txs: seq<seq<byte>>): set<nat> {
    set i: nat | i < NUMBER_OF_COMPUTORS && Committed(c, q, txs, i)
  }

  ghost function Flagged(seen: seq<bool>): set<nat> {
    set i: nat | i < |seen| && seen[i]
  }

  lemma FlagOneMore(seen: seq<bool>, i: nat)
    requires i < |seen| && !seen[i]
    ensures Flagged(seen[i := true]) == Flagged(seen) + {i} && |Flagged(seen[i := true])| == |Flagged(seen)| + 1
  {
    assert Flagged(seen[i := true]) == Flagged(seen) + {i};
  }

  /** One transaction adds at most its own member. */
  lemma SignersStep(c: Crypto, q: Query, txs: seq<seq<byte>>, raw: seq<byte>, seen: seq<bool>, r: Option<nat>)
    requires Distinct(q.pubkeys) && |seen| == NUMBER_OF_COMPUTORS && Flagged(seen) == Signers(c, q, txs)
    requires r.Some? ==> ValidCommit(c, q, raw, r.value) && !seen[r.value]
    requires r.None? ==> forall i :: 0 <= i < NUMBER_OF_COMPUTORS && ValidCommit(c, q, raw, i) ==> seen[i]
    ensures Signers(c, q, txs + [raw]) == if r.Some? then Signers(c, q, txs) + {r.value} else Signers(c, q, txs)
  {
    var more := txs + [raw];
    forall i: nat | i < NUMBER_OF_COMPUTORS
      ensures Committed(c, q, more, i) <==> Committed(c, q, txs, i) || ValidCommit(c, q, raw, i)
    {
      CommittedStep(c, q, txs, raw, i);
    }
    forall i: nat | i < NUMBER_OF_COMPUTORS && ValidCommit(c, q, raw, i)
      ensures r.Some? ==> i == r.value
    {
      if r.Some? {
        OneMember(c, q, raw, i, r.value);
      }
    }
    assert forall i: nat :: i in Flagged(seen) <==> i in Signers(c, q, txs);
  }

  lemma CommittedStep(c: Crypto, q: Query, txs: seq<seq<byte>>, raw: seq<byte>, i: nat)
    ensures Committed(c, q, txs + [raw], i) <==> Committed(c, q, txs, i) || ValidCommit(c, q, raw, i)
  {
    if Committed(c, q, txs, i) {
      var x :| x in txs && ValidCommit(c, q, x, i);
      assert x in txs + [raw];
    }
    if ValidCommit(c, q, raw, i) {
      assert raw in txs + [raw];
    }
  }

  lemma SignersMonotone(c: Crypto, q: Query, a: seq<seq<byte>>, b: seq<seq<byte>>)
    requires forall raw :: raw in a ==> raw in b
    ensures Signers(c, q, a) <= Signers(c, q, b) && |Signers(c, q, a)| <= |Signers(c, q, b)|
  {
    forall i: nat | i < NUMBER_OF_COMPUTORS && Committed(c, q, a, i)
      ensures Committed(c, q, b, i)
    {
    }
    SubsetSize(Signers(c, q, a), Signers(c, q, b));
  }

  /** Neither the order of the commits nor repetitions change who signed. */
  lemma OrderAndDuplicatesDoNotMatter(c: Crypto, q: Query, a: seq<seq<byte>>, b: seq<seq<byte>>)
    requires forall raw :: raw in a <==> raw in b
    ensures Signers(c, q, a) == Signers(c, q, b)
  {
    SignersMonotone(c, q, a, b);
    SignersMonotone(c, q, b, a);
  }

  /** Reading n blobs is reading i of them and then the others. */
  lemma {:induction false} ReadBlobsSplit(s: seq<byte>, i: nat, n: nat)
    requires i <= n && ReadBlobs(s, i).Some?
    ensures ReadBlobs(s, n) == AfterReading(ReadBlobs(s, i).value.0, ReadBlobs(ReadBlobs(s, i).value.1, n - i))
    decreases i
  {
    if i == 0 {
      NothingRead(ReadBlobs(s, n));
    } else {
      var (b, s') := ReadBlob(s).value;
      ReadBlobsSplit(s', i - 1, n - 1);
      var (txs, rest) := ReadBlobs(s', i - 1).value;
      match ReadBlobs(rest, n - i)
      case None =>
      case Some((more, _)) => assert [b] + (txs + more) == [b] + txs + more;
    }
  }

  lemma ReadOneMore(s: seq<byte>, i: nat, txs: seq<seq<byte>>, rest: seq<byte>, raw: seq<byte>, rest': seq<byte>)
    requires ReadBlobs(s, i) == Some((txs, rest)) && ReadBlob(rest) == Some((raw, rest'))
    ensures ReadBlobs(s, i + 1) == Some((txs + [raw], rest'))
  {
    ReadBlobsSplit(s, i, i + 1);
    assert ReadBlobs(rest', 0) == Some(([], rest'));
    assert [raw] + [] == [raw];
  }

  /** After some readable frames of the commit list, a quorum of members has signed. */
  ghost predicate ReachedAt(c: Crypto, q: Query, s: seq<byte>, n: nat, k: nat) {
    k <= n && ReadBlobs(s, k).Some? && |Signers(c, q, ReadBlobs(s, k).value.0)| >= QUORUM
  }

  ghost predicate QuorumReached(c: Crypto, q: Query, commits: seq<byte>) {
    ReadU32(commits).Some? &&
    var (n, s) := ReadU32(commits).value;
    exists k :: ReachedAt(c, q, s, n, k)
  }

  lemma NotReached(c: Crypto, q: Query, s: seq<byte>, n: nat, i: nat, k: nat)
    requires i <= n && ReadBlobs(s, i).Some? && |Signers(c, q, ReadBlobs(s, i).value.0)| < QUORUM
    requires i == n || ReadBlob(ReadBlobs(s, i).value.1).None?
    ensures !ReachedAt(c, q, s, n, k)
  {
    if ReachedAt(c, q, s, n, k) {
      if k <= i {
        ReadBlobsSplit(s, k, i);
        SignersMonotone(c, q, ReadBlobs(s, k).value.0, ReadBlobs(s, i).value.0);
      } else {
        ReadBlobsSplit(s, i, k);
      }
    }
  }

  /** On a well-formed commit list the early stop is invisible: the quorum is over all of its transactions. */
  lemma WellFormedCommits(c: Crypto, q: Query, commits: seq<byte>)
    requires ReadU32(commits).Some? && ReadBlobs(ReadU32(commits).value.1, ReadU32(commits).value.0).Some?
    ensures (var (n, s) := ReadU32(commits).value;
             QuorumReached(c, q, commits) <==> |Signers(c, q, ReadBlobs(s, n).value.0)| >= QUORUM)
  {
    var (n, s) := ReadU32(commits).value;
    if |Signers(c, q, ReadBlobs(s, n).value.0)| >= QUORUM {
      assert ReachedAt(c, q, s, n, n);
    } else if QuorumReached(c, q, commits) {
      var k :| ReachedAt(c, q, s, n, k);
      NotReached(c, q, s, n, n, k);
    }
  }

  /** For the frame the host writes from a fixture, the verdict is over the fixture's own commits. */
  lemma FixtureQuorum(c: Crypto, q: Query, f: Fixture)
    requires Fits(f)
    ensures QuorumReached(c, q, CommitsFrame(f)) <==> |Signers(c, q, f.commitTxs)| >= QUORUM
  {
    CommitsFrameReadBack(f);
    WellFormedCommits(c, q, CommitsFrame(f));
  }

  /** Reordering or repeating commits in the fixture never changes the verdict. */
  lemma VerdictIgnoresOrder(c: Crypto, q: Query, f: Fixture, g: Fixture)
    requires Fits(f) && Fits(g) && forall raw :: raw in f.commitTxs <==> raw in g.commitTxs
    ensures QuorumReached(c, q, CommitsFrame(f)) <==> QuorumReached(c, q, CommitsFrame(g))
  {
    FixtureQuorum(c, q, f);
    FixtureQuorum(c, q, g);
    OrderAndDuplicatesDoNotMatter(c, q, f.commitTxs, g.commitTxs);
  }

  /** The state of the loop after i frames. */
  ghost predicate Counted(c: Crypto, q: Query, s: seq<byte>, i: nat, rest: seq<byte>, seen: seq<bool>, count: nat) {
    && ReadBlobs(s, i).Some? && rest == ReadBlobs(s, i).value.1 && |seen| == NUMBER_OF_COMPUTORS
    && Flagged(seen) == Signers(c, q, ReadBlobs(s, i).value.0) && count == |Flagged(seen)|
  }

  lemma CountedNext(c: Crypto, q: Query, s: seq<byte>, i: nat, rest: seq<byte>, seen: seq<bool>, count: nat,
                    raw: seq<byte>, rest': seq<byte>, r: Option<nat>)
    requires Distinct(q.pubkeys) && Counted(c, q, s, i, rest, seen, count) && ReadBlob(rest) == Some((raw, rest'))
    requires r.Some? ==> ValidCommit(c, q, raw, r.value) && !seen[r.value]
    requires r.None? ==> forall i :: 0 <= i < NUMBER_OF_COMPUTORS && ValidCommit(c, q, raw, i) ==> seen[i]
    ensures r.None? ==> Counted(c, q, s, i + 1, rest', seen, count)
    ensures r.Some? ==> Counted(c, q, s, i + 1, rest', seen[r.value := true], count + 1)
  {
    var txs := ReadBlobs(s, i).value.0;
    ReadOneMore(s, i, txs, rest, raw, rest');
    SignersStep(c, q, txs, raw, seen, r);
    if r.Some? {
      FlagOneMore(seen, r.value);
    }
  }

  lemma NeverReached(c: Crypto, q: Query, s: seq<byte>, n: nat, i: nat, rest: seq<byte>, seen: seq<bool>, count: nat)
    requires i <= n && Counted(c, q, s, i, rest, seen, count) && count < QUORUM
    requires i == n || ReadBlob(rest).None?
    ensures forall k :: !ReachedAt(c, q, s, n, k)
  {
    forall k
      ensures !ReachedAt(c, q, s, n, k)
    {
      NotReached(c, q, s, n, i, k);
    }
  }

  /** One frame of the loop. */
  method CountOne(c: Crypto, q: Query, sorted: seq<nat>, raw: seq<byte>, seen: array<bool>, count: nat,
                  ghost s: seq<byte>, ghost i: nat, ghost rest: seq<byte>, ghost rest': seq<byte>) returns (count': nat)
    requires StrictIndex(q.pubkeys, sorted) && Distinct(q.pubkeys) && |q.queryId| == 8
    requires seen.Length == NUMBER_OF_COMPUTORS
    requires Counted(c, q, s, i, rest, seen[..], count) && ReadBlob(rest) == Some((raw, rest'))
    modifies seen
    ensures Counted(c, q, s, i + 1, rest', seen[..], count')
  {
    count' := count;
    var r := CheckCommit(c, q, sorted, raw, seen);
    CountedNext(c, q, s, i, rest, seen[..], count, raw, rest', r);
    if r.Some? {
      seen[r.value] := true;
      count' := count + 1;
    }
  }

  /** The counting loop: whatever the commits frame holds, it succeeds exactly when a quorum is reached, and the count
      is always the number of flags. */
  method CountCommits(c: Crypto, q: Query, sorted: seq<nat>, commits: seq<byte>) returns (reached: bool)
    requires StrictIndex(q.pubkeys, sorted) && |q.queryId| == 8
    ensures reached <==> QuorumReached(c, q, commits)
  {
    if |commits| < 4 {
      return false;
    }
    DistinctFromStrict(q.pubkeys, sorted);
    var seen := new bool[NUMBER_OF_COMPUTORS](_ => false);
    reached := CountFrames(c, q, sorted, commits, Le(commits[..4]), seen);
  }

  method CountFrames(c: Crypto, q: Query, sorted: seq<nat>, commits: seq<byte>, n: nat, seen: array<bool>)
    returns (reached: bool)
    requires StrictIndex(q.pubkeys, sorted) && Distinct(q.pubkeys) && |q.queryId| == 8 && |commits| >= 4
    requires seen.Length == NUMBER_OF_COMPUTORS && forall i :: 0 <= i < seen.Length ==> !seen[i]
    modifies seen
    ensures reached <==> exists k :: ReachedAt(c, q, commits[4..], n, k)
  {
    ghost var s := commits[4..];
    var off: nat, count: nat := 4, 0;
    NobodyYet(c, q, seen[..]);
    for i := 0 to n
      invariant 4 <= off <= |commits| && Counted(c, q, s, i, commits[off..], seen[..], count) && count < QUORUM
    {
      ghost var rest := commits[off..];
      var raw;
      raw, off := ReadBlobAt(commits, off);
      if raw.None? {
        NeverReached(c, q, s, n, i, rest, seen[..], count);
        return false;
      }
      count := CountOne(c, q, sorted, raw.value, seen, count, s, i, rest, commits[off..]);
      if count >= QUORUM {
        assert ReachedAt(c, q, s, n, i + 1);
        return true;
      }
    }
    NeverReached(c, q, s, n, n, commits[off..], seen[..], count);
    reached := false;
  }

  lemma NobodyYet(c: Crypto, q: Query, seen: seq<bool>)
    requires forall i :: 0 <= i < |seen| ==> !seen[i]
    ensures Flagged(seen) == {} && Signers(c, q, []) == {}
  {
  }

  // ---------------------------------------------------------------- the guest

  datatype Frames = Frames(packet: seq<byte>, queryId: seq<byte>, queryTx: seq<byte>, reply: seq<byte>,
                           commits: seq<byte>, revealTx: seq<byte>)

  function Epoch(packet: seq<byte>): nat
    requires |packet| >= 2
  {
    Le(packet[..2])
  }

  function ComputorKeys(packet: seq<byte>): keys
    requires |packet| == PACKET_SIZE
  {
    packet[2..PACKET_SIGNED_SIZE]
  }

  /** The list is signed by the arbitrator, has an epoch, and names 676 different keys. */
  ghost predicate ListAttested(c: Crypto, arbitrator: seq<byte>, packet: seq<byte>) {
    && |packet| == PACKET_SIZE
    && c.verify(arbitrator, packet[PACKET_SIGNED_SIZE..], c.k12(packet[..PACKET_SIGNED_SIZE]))
    && Epoch(packet) != 0 && Distinct(ComputorKeys(packet))
  }

  /** A signed query transaction of the query id's tick. */
  ghost predicate QueryAttested(c: Crypto, queryId: seq<byte>, queryTx: seq<byte>) {
    ParseTx(queryTx).Some? &&
    var tx := ParseTx(queryTx).value;
    && tx.inputType == QUERY_INPUT_TYPE && tx.destIsZero && TxSignatureValid(c, queryTx, tx)
    && tx.tick == Le(queryId) / 0x8000_0000
  }

  /** A reveal of this reply to this query, signed by a list member. */
  ghost predicate RevealAttested(c: Crypto, pubkeys: keys, queryId: seq<byte>, reply: seq<byte>, revealTx: seq<byte>) {
    ParseTx(revealTx).Some? &&
    var tx := ParseTx(revealTx).value;
    && tx.inputType == REVEAL_INPUT_TYPE && tx.destIsZero && tx.amount == 0
    && (exists i :: 0 <= i < NUMBER_OF_COMPUTORS && PubkeyAt(pubkeys, i) == tx.source)
    && TxSignatureValid(c, revealTx, tx) && tx.input == queryId + reply
  }

  function QueryOf(c: Crypto, f: Frames): Query
    requires |f.packet| == PACKET_SIZE && ParseTx(f.queryTx).Some?
  {
    Query(ComputorKeys(f.packet), f.queryId, ParseTx(f.queryTx).value.tick, c.k12(f.reply), f.reply)
  }

  /** The statement the guest proves. */
  ghost predicate Attested(c: Crypto, arbitrator: seq<byte>, f: Frames) {
    && |f.queryId| == 8 && ListAttested(c, arbitrator, f.packet) && QueryAttested(c, f.queryId, f.queryTx)
    && RevealAttested(c, ComputorKeys(f.packet), f.queryId, f.reply, f.revealTx)
    && QuorumReached(c, QueryOf(c, f), f.commits)
  }

  function Journal(c: Crypto, f: Frames): seq<byte>
    requires |f.packet| >= 2
  {
    ToBytes(Epoch(f.packet), 4) + f.queryId + c.k12(f.reply)
  }

  method CheckReveal(c: Crypto, pubkeys: keys, sorted: seq<nat>, queryId: seq<byte>, reply: seq<byte>, revealTx: seq<byte>)
    returns (ok: bool)
    requires StrictIndex(pubkeys, sorted) && |queryId| == 8
    ensures ok <==> RevealAttested(c, pubkeys, queryId, reply, revealTx)
  {
    var parsed := ParseTx(revealTx);
    if parsed.None? {
      return false;
    }
    var r := parsed.value;
    if r.inputType != REVEAL_INPUT_TYPE || !r.destIsZero || r.amount != 0 {
      return false;
    }
    var found := FindComputor(pubkeys, sorted, r.source);
    if found.None? || !TxSignatureValid(c, revealTx, r) {
      return false;
    }
    InputParts(r.input, queryId, reply);
    ok := |r.input| == 8 + |reply| && r.input[..8] == queryId && r.input[8..] == reply;
  }

  lemma InputParts(input: seq<byte>, queryId: seq<byte>, reply: seq<byte>)
    requires |queryId| == 8
    ensures input == queryId + reply <==> |input| == 8 + |reply| && input[..8] == queryId && input[8..] == reply
  {
    if |input| >= 8 {
      assert input == input[..8] + input[8..];
    }
  }

  /** `main`: the journal is committed exactly for attested frames; order is the library sort of the list's keys. */
  method Guest(c: Crypto, arbitrator: seq<byte>, f: Frames, order: seq<nat>) returns (journal: Option<seq<byte>>)
    requires |f.packet| == PACKET_SIZE ==> SortedIndex(ComputorKeys(f.packet), order)
    ensures journal.Some? <==> Attested(c, arbitrator, f)
    ensures journal.Some? ==> journal.value == Journal(c, f)
    ensures journal.Some? ==>
              && |journal.value| == 44 && Le(journal.value[..4]) == Le(f.packet[..2])
              && journal.value[4..12] == f.queryId && journal.value[12..] == c.k12(f.reply)
  {
    journal := None;
    if |f.packet| != PACKET_SIZE || |f.queryId| != 8 {
      return;
    }
    if !c.verify(arbitrator, f.packet[PACKET_SIGNED_SIZE..], c.k12(f.packet[..PACKET_SIGNED_SIZE])) {
      return;
    }
    var epoch := Le(f.packet[..2]);
    if epoch == 0 {
      return;
    }
    var distinct := RejectDuplicatePubkeys(ComputorKeys(f.packet), order);
    if !distinct {
      return;
    }
    var q := ParseTx(f.queryTx);
    if q.None? || q.value.inputType != QUERY_INPUT_TYPE || !q.value.destIsZero {
      return;
    }
    if !TxSignatureValid(c, f.queryTx, q.value) || q.value.tick != Le(f.queryId) / 0x8000_0000 {
      return;
    }
    var revealed := CheckReveal(c, ComputorKeys(f.packet), order, f.queryId, f.reply, f.revealTx);
    if !revealed {
      return;
    }
    var reached := CountCommits(c, QueryOf(c, f), order, f.commits);
    if reached {
      journal := Some(ToBytes(epoch, 4) + f.queryId + c.k12(f.reply));
      JournalParts(c, f, journal.value);
    }
  }

  lemma JournalParts(c: Crypto, f: Frames, journal: seq<byte>)
    requires |f.packet| >= 2 && |f.queryId| == 8 && journal == Journal(c, f)
    ensures |journal| == 44 && Le(journal[..4]) == Le(f.packet[..2])
    ensures journal[4..12] == f.queryId && journal[12..] == c.k12(f.reply)
  {
    hide Le;
    hide ToBytes;
    NumberWasPrinted(f.packet[..2]);
    NumberReadBack(Le(f.packet[..2]), 4);
    assert journal[..4] == ToBytes(Le(f.packet[..2]), 4);
  }

  // ---------------------------------------------------------------- the statement in bytes

  /** What the guest reads from a transaction's bytes: a 16-bit input size at 78 that fits the length, the source, a zero
      destination, a zero amount, the tick, the type, and the signature over all but the last 64 bytes. */
  lemma TxInBytes(c: Crypto, raw: seq<byte>)
    ensures ParseTx(raw).Some? <==> |raw| >= 144 && |raw| == 144 + Le(raw[78..80])
    ensures ParseTx(raw).Some? ==>
              var tx := ParseTx(raw).value;
              && tx.source == raw[..32] && (tx.destIsZero <==> raw[32..64] == Zeros(32))
              && (tx.amount == 0 <==> Le(raw[64..72]) == 0) && tx.tick == Le(raw[72..76]) && tx.inputType == Le(raw[76..78])
              && tx.input == raw[80..|raw| - 64]
              && (TxSignatureValid(c, raw, tx) <==> c.verify(raw[..32], raw[|raw| - 64..], c.k12(raw[..|raw| - 64])))
  {
    hide Le;
    if ParseTx(raw).Some? {
      NumberWasPrinted(raw[64..72]);
      assert forall i :: 32 <= i < 64 ==> raw[i] == raw[32..64][i - 32];
    }
  }

  /** Key i of a computor list. */
  lemma KeyInBytes(packet: seq<byte>, i: nat)
    requires |packet| == 21698 && i < 676
    ensures PubkeyAt(ComputorKeys(packet), i) == packet[2 + 32 * i..34 + 32 * i]
  {
    var keys := packet[2..21634];
    assert keys[32 * i..32 * i + 32] == packet[2 + 32 * i..34 + 32 * i];
  }

  /** Item j of a commit's input starts at byte 80 + 72j of the transaction: the query id, the reply's digest, and the
      hash of the reply followed by the member's number in two bytes. */
  ghost predicate ItemInBytes(c: Crypto, q: Query, raw: seq<byte>, idx: nat, j: nat)
    requires |raw| >= 144 + 72 * (j + 1) && idx < 676
  {
    && raw[80 + 72 * j..88 + 72 * j] == q.queryId && raw[88 + 72 * j..120 + 72 * j] == q.replyDigest
    && raw[120 + 72 * j..152 + 72 * j] == c.k12(q.reply + [idx % 256, idx / 256])
  }

  /** What every valid commit of member idx has apart from its items: type 6, nothing sent, a tick after the query's, the
      member's key as its source, and that key's signature. */
  ghost predicate CommitInBytes(c: Crypto, q: Query, raw: seq<byte>, idx: nat) {
    && idx < 676 && |raw| >= 144 && |raw| == 144 + Le(raw[78..80])
    && Le(raw[76..78]) == 6 && raw[32..64] == Zeros(32) && Le(raw[64..72]) == 0 && Le(raw[72..76]) > q.queryTick
    && raw[..32] == q.pubkeys[32 * idx..32 * idx + 32]
    && c.verify(raw[..32], raw[|raw| - 64..], c.k12(raw[..|raw| - 64]))
  }

  lemma IndexBytes(idx: nat)
    requires idx < 0x1_0000
    ensures ToBytes(idx, 2) == [idx % 256, idx / 256]
  {
    assert ToBytes(idx, 2) == [idx % 256] + ToBytes(idx / 256, 1);
    assert ToBytes(idx / 256, 1) == [idx / 256 % 256] + ToBytes(idx / 256 / 256, 0);
  }

  lemma ItemPlaces(raw: seq<byte>, input: seq<byte>, j: nat)
    requires |raw| >= 144 && input == raw[80..|raw| - 64] && 72 * (j + 1) <= |input|
    ensures (var item := Item(input, j);
             && item[..8] == raw[80 + 72 * j..88 + 72 * j] && item[8..40] == raw[88 + 72 * j..120 + 72 * j]
             && item[40..72] == raw[120 + 72 * j..152 + 72 * j])
  {
    var s := 72 * j;
    SlicedTwice(raw, 80, |raw| - 64, s, s + 72);
    SlicedTwice(raw, 80 + s, 152 + s, 0, 8);
    SlicedTwice(raw, 80 + s, 152 + s, 8, 40);
    SlicedTwice(raw, 80 + s, 152 + s, 40, 72);
  }

  lemma SlicedTwice(b: seq<byte>, i: nat, k: nat, m: nat, n: nat)
    requires i <= k <= |b| && m <= n <= k - i
    ensures b[i..k][m..n] == b[i + m..i + n]
  {
    var x, y, z := b[i..k], b[i..k][m..n], b[i + m..i + n];
    forall t | 0 <= t < n - m
      ensures y[t] == z[t]
    {
      assert y[t] == x[m + t];
    }
  }

  lemma ItemIs(c: Crypto, q: Query, raw: seq<byte>, input: seq<byte>, idx: nat, j: nat)
    requires |q.queryId| == 8 && idx < 676
    requires |raw| >= 144 && input == raw[80..|raw| - 64] && 72 * (j + 1) <= |input|
    ensures Item(input, j) == CommitItem(c, q, idx) <==> ItemInBytes(c, q, raw, idx, j)
  {
    IndexBytes(idx);
    ItemPlaces(raw, input, j);
    ItemParts(Item(input, j), q.queryId, q.replyDigest, KnowledgeProof(c, q, idx));
  }

  /** Such a transaction counts as soon as one whole item of its input is the commit. */
  lemma CommitCounts(c: Crypto, q: Query, raw: seq<byte>, idx: nat, j: nat)
    requires |q.queryId| == 8 && CommitInBytes(c, q, raw, idx)
    requires 144 + 72 * (j + 1) <= |raw| && ItemInBytes(c, q, raw, idx, j)
    ensures ValidCommit(c, q, raw, idx)
  {
    hide Le;
    TxInBytes(c, raw);
    ItemIs(c, q, raw, raw[80..|raw| - 64], idx, j);
  }

  /** Every valid commit is such a transaction. */
  lemma CommitWasCounted(c: Crypto, q: Query, raw: seq<byte>, idx: nat) returns (j: nat)
    requires |q.queryId| == 8 && ValidCommit(c, q, raw, idx)
    ensures CommitInBytes(c, q, raw, idx) && 144 + 72 * (j + 1) <= |raw| && ItemInBytes(c, q, raw, idx, j)
  {
    hide Le;
    TxInBytes(c, raw);
    var input := raw[80..|raw| - 64];
    j :| COMMIT_ITEM_SIZE * (j + 1) <= |input| && Item(input, j) == CommitItem(c, q, idx);
    ItemIs(c, q, raw, input, idx, j);
  }

  /** The computor list: 21698 bytes, the last 64 the arbitrator's signature over the others, an epoch that is not 0 in
      bytes 0 and 1, and distinct keys. */
  lemma ListInBytes(c: Crypto, arbitrator: seq<byte>, packet: seq<byte>)
    ensures ListAttested(c, arbitrator, packet) <==>
              && |packet| == 21698 && c.verify(arbitrator, packet[21634..], c.k12(packet[..21634]))
              && (packet[0] != 0 || packet[1] != 0) && Distinct(packet[2..21634])
  {
    if |packet| == 21698 {
      LeIsPair(packet[..2]);
    }
  }

  /** The query transaction: type 10, zero destination, the query id's tick, signed by its source. */
  lemma QueryInBytes(c: Crypto, queryId: seq<byte>, queryTx: seq<byte>)
    ensures QueryAttested(c, queryId, queryTx) <==>
              && |queryTx| >= 144 && |queryTx| == 144 + Le(queryTx[78..80])
              && Le(queryTx[76..78]) == 10 && queryTx[32..64] == Zeros(32)
              && Le(queryTx[72..76]) == Le(queryId) / 0x8000_0000
              && c.verify(queryTx[..32], queryTx[|queryTx| - 64..], c.k12(queryTx[..|queryTx| - 64]))
  {
    hide Le;
    TxInBytes(c, queryTx);
  }

  /** The reveal transaction: type 7, nothing sent, from a list member, its input the query id and the reply. */
  lemma RevealInBytes(c: Crypto, pubkeys: keys, queryId: seq<byte>, reply: seq<byte>, revealTx: seq<byte>)
    ensures RevealAttested(c, pubkeys, queryId, reply, revealTx) <==>
              && |revealTx| >= 144 && |revealTx| == 144 + Le(revealTx[78..80])
              && Le(revealTx[76..78]) == 7 && revealTx[32..64] == Zeros(32) && Le(revealTx[64..72]) == 0
              && (exists i :: 0 <= i < 676 && PubkeyAt(pubkeys, i) == revealTx[..32])
              && revealTx[80..|revealTx| - 64] == queryId + reply
              && c.verify(revealTx[..32], revealTx[|revealTx| - 64..], c.k12(revealTx[..|revealTx| - 64]))
  {
    hide Le;
    TxInBytes(c, revealTx);
  }

  // ---------------------------------------------------------------- what the host sends

  /** `to_env`: the frames in the order in which the guest reads them. */
  function FramesOf(f: Fixture): Frames {
    Frames(f.computorsPacket, ToBytes(f.queryId, 8), f.queryTx, f.reply, CommitsFrame(f), f.revealTx)
  }

  /** For a fixture the guest's statement is: the three transactions' conditions, and at least 451 list members with a
      valid commit among the fixture's transactions. */
  lemma FixtureStatement(c: Crypto, arbitrator: seq<byte>, f: Fixture, q: Query, who: set<nat>)
    requires Fits(f) && q.pubkeys == f.computorsPacket[2..21634] && q.queryId == ToBytes(f.queryId, 8)
    requires q.reply == f.reply && q.replyDigest == c.k12(f.reply)
    requires |f.queryTx| >= 80 ==> q.queryTick == Le(f.queryTx[72..76])
    requires forall i :: i in who <==> i < 676 && Committed(c, q, f.commitTxs, i)
    ensures Attested(c, arbitrator, FramesOf(f)) <==>
              && ListAttested(c, arbitrator, f.computorsPacket) && QueryAttested(c, q.queryId, f.queryTx)
              && RevealAttested(c, q.pubkeys, q.queryId, f.reply, f.revealTx) && |who| >= 451
  {
    hide Le;
    hide ToBytes;
    if ParseTx(f.queryTx).Some? {
      assert q == QueryOf(c, FramesOf(f));
      FixtureQuorum(c, q, f);
      assert who == Signers(c, q, f.commitTxs);
    }
  }

  /** The journal decodes to the fixture's epoch and query id and the reply's digest. */
  lemma FixtureJournal(c: Crypto, f: Fixture, journal: seq<byte>)
    requires Fits(f) && journal == Journal(c, FramesOf(f))
    ensures |journal| == 44 && Le(journal[..4]) == f.computorsPacket[0] as int + 256 * f.computorsPacket[1] as int
    ensures Le(journal[4..12]) == f.queryId && journal[12..] == c.k12(f.reply)
  {
    JournalParts(c, FramesOf(f), journal);
    LeIsPair(f.computorsPacket[..2]);
    EightBytes(f.queryId, 8);
  }

  lemma LeIsPair(b: seq<byte>)
    requires |b| == 2
    ensures Le(b) == b[0] as int + 256 * b[1] as int
  {
    assert Le(b[1..]) == b[1];
  }
}
