/** The 60-letter identity of a 32-byte public key: four 14-letter words, least significant letter first, and four
    checksum letters. */
module Identity {
  import opened Words
  import opened ModArith
  import opened Bytes
  import opened Sponge
  import opened KangarooTwelve

  const A: byte := 65
  const WORD_LETTERS := 14
  const CHECK_LETTERS := 4

  // ---------------------------------------------------------------- base 26

  /** n letters of x, least significant first. */
  function Letters(x: nat, n: nat): (b: seq<byte>)
    ensures |b| == n && forall i :: 0 <= i < n ==> A <= b[i] < A + 26
    decreases n, x
  {
    if n == 0 then [] else [A + x % 26] + Letters(x / 26, n - 1)
  }

  /** The value of letters; the last one is the most significant. */
  function Value26(b: seq<byte>): int {
    if b == [] then 0 else b[0] as int - A + 26 * Value26(b[1..])
  }

  ghost predicate AllLetters(b: seq<byte>) {
    forall i :: 0 <= i < |b| ==> A <= b[i] < A + 26
  }

  ghost function Pow26(n: nat): nat {
    if n == 0 then 1 else 26 * Pow26(n - 1)
  }

  lemma {:induction false} LettersValue(b: seq<byte>)
    requires AllLetters(b)
    ensures Value26(b) >= 0 && Letters(Value26(b), |b|) == b
  {
    if b != [] {
      LettersValue(b[1..]);
      assert Value26(b) % 26 == b[0] - A && Value26(b) / 26 == Value26(b[1..]);
    }
  }

  lemma {:induction false} ValueLetters(x: nat, n: nat)
    requires x < Pow26(n)
    ensures Value26(Letters(x, n)) == x
    decreases n
  {
    if n > 0 {
      ValueLetters(x / 26, n - 1);
      assert Letters(x, n)[1..] == Letters(x / 26, n - 1);
    }
  }

  /** Fourteen letters hold a 64-bit word. */
  lemma WordFits()
    ensures W <= Pow26(WORD_LETTERS)
  {
    assert Pow26(2) == 676 && Pow26(4) == 456976;
    Pow26Adds(4, 4);
    Pow26Adds(8, 4);
    Pow26Adds(12, 2);
  }

  lemma {:induction false} Pow26Adds(m: nat, n: nat)
    ensures Pow26(m + n) == Pow26(m) * Pow26(n)
  {
    if m > 0 {
      Pow26Adds(m - 1, n);
      MulAssociates(26, Pow26(m - 1), Pow26(n));
    }
  }

  // ---------------------------------------------------------------- encoding

  type key = k: seq<byte> | |k| == 32 witness Zeros(32)

  function KeyWord(pk: key, i: nat): word
    requires i < 4
  {
    LeWord(pk[8 * i..8 * i + 8]);
    Le(pk[8 * i..8 * i + 8])
  }

  function Checksum(f: permutation, pk: key): nat {
    Le(Kt128(f, pk, 3)) % 0x4_0000
  }

  function WordLetters(pk: key, i: nat): (b: seq<byte>)
    requires i < 4
    ensures |b| == WORD_LETTERS
  {
    Letters(KeyWord(pk, i), WORD_LETTERS)
  }

  function KeyLetters(pk: key): (b: seq<byte>)
    ensures |b| == 56
  {
    WordLetters(pk, 0) + WordLetters(pk, 1) + WordLetters(pk, 2) + WordLetters(pk, 3)
  }

  function IdentityOf(f: permutation, pk: key): (id: seq<byte>)
    ensures |id| == 60
  {
    KeyLetters(pk) + Letters(Checksum(f, pk), CHECK_LETTERS)
  }

  /** The letter loop of both programs. */
  method PushLetters(s: seq<byte>, x: nat, n: nat) returns (s': seq<byte>)
    ensures s' == s + Letters(x, n)
  {
    s' := s;
    var frag := x;
    for j := 0 to n
      invariant s' + Letters(frag, n - j) == s + Letters(x, n)
    {
      ghost var before := s';
      s' := s' + [A + frag % 26];
      assert s' + Letters(frag / 26, n - j - 1) == before + ([A + frag % 26] + Letters(frag / 26, n - j - 1));
      frag := frag / 26;
    }
  }

  // ---------------------------------------------------------------- decoding

  /** The fourteen letters of word i. */
  function Fragment(b: seq<byte>, i: nat): seq<byte>
    requires |b| >= 56 && i < 4
  {
    b[14 * i..14 * i + 14]
  }

  lemma FragmentOfKey(pk: key, rest: seq<byte>, i: nat)
    requires i < 4
    ensures Fragment(KeyLetters(pk) + rest, i) == WordLetters(pk, i)
  {
    Cut(WordLetters(pk, 0), WordLetters(pk, 1), WordLetters(pk, 2), WordLetters(pk, 3), rest);
    if i == 0 {
    } else if i == 1 {
    } else if i == 2 {
    }
  }

  lemma Cut(a: seq<byte>, b: seq<byte>, c: seq<byte>, d: seq<byte>, e: seq<byte>)
    requires |a| == |b| == |c| == |d| == 14
    ensures (var s := a + b + c + d + e; s[0..14] == a && s[14..28] == b && s[28..42] == c && s[42..56] == d)
  {
  }

  /** Keys are determined by their four words. */
  lemma KeyByWords(pk: key, pk': key)
    requires forall i :: 0 <= i < 4 ==> KeyWord(pk, i) == KeyWord(pk', i)
    ensures pk == pk'
  {
    forall k | 0 <= k < 32
      ensures pk[k] == pk'[k]
    {
      var i := k / 8;
      ToBytesLe(pk[8 * i..8 * i + 8]);
      ToBytesLe(pk'[8 * i..8 * i + 8]);
      assert KeyWord(pk, i) == KeyWord(pk', i);
      assert pk[k] == pk[8 * i..8 * i + 8][k - 8 * i] && pk'[k] == pk'[8 * i..8 * i + 8][k - 8 * i];
    }
  }

  /** Different keys have different letters. */
  lemma KeyLettersInjective(pk: key, pk': key, rest: seq<byte>, rest': seq<byte>)
    requires KeyLetters(pk) + rest == KeyLetters(pk') + rest'
    ensures pk == pk'
  {
    forall i | 0 <= i < 4
      ensures KeyWord(pk, i) == KeyWord(pk', i)
    {
      FragmentOfKey(pk, rest, i);
      FragmentOfKey(pk', rest', i);
      WordFits();
      ValueLetters(KeyWord(pk, i), WORD_LETTERS);
      ValueLetters(KeyWord(pk', i), WORD_LETTERS);
    }
    KeyByWords(pk, pk');
  }

  lemma HornerStep(b: seq<byte>, j: nat, frag: nat)
    requires AllLetters(b) && j < |b| && frag == Value26(b[j + 1..]) % W
    ensures Value26(b[j..]) == Value26(b[j + 1..]) * 26 + (b[j] - A)
    ensures (frag * 26 + (b[j] - A)) % W == Value26(b[j..]) % W
  {
    assert b[j..][1..] == b[j + 1..];
    var v := Value26(b[j + 1..]);
    ModMul(v, 26, W);
    ModAdd(frag * 26, b[j] - A, W);
    ModAdd(v * 26, b[j] - A, W);
  }

  lemma {:induction false} ValueGrows(b: seq<byte>, j: nat)
    requires AllLetters(b) && j <= |b|
    ensures 0 <= Value26(b[j..]) <= Value26(b)
    decreases |b|
  {
    if j == 0 {
      assert b[0..] == b;
      LettersValue(b);
    } else {
      ValueGrows(b[1..], j - 1);
      assert b[1..][j - 1..] == b[j..];
    }
  }

  /** Horner's rule from the last letter, in 64-bit arithmetic: with overflow checks the program stops instead of
      wrapping. */
  method DecodeWord(b: seq<byte>, checked: bool) returns (ok: bool, frag: word)
    requires AllLetters(b)
    ensures ok <==> !(checked && Value26(b) >= W)
    ensures ok ==> frag == Value26(b) % W
  {
    ok, frag := true, 0;
    var j := |b|;
    ModSmall(0, W);
    while j > 0
      invariant 0 <= j <= |b| && frag == Value26(b[j..]) % W
      invariant checked ==> Value26(b[j..]) < W
    {
      j := j - 1;
      HornerStep(b, j, frag);
      ValueGrows(b, j);
      if checked {
        ModSmall(Value26(b[j + 1..]), W);
        if frag * 26 + (b[j] - A) >= W {
          return false, 0;
        }
      }
      frag := (frag * 26 + (b[j] - A)) % W;
    }
    assert b[0..] == b;
  }

  // ---------------------------------------------------------------- the single-chunk hash

  /** `|= 0x80`. */
  function SetTopBit(b: byte): byte {
    if b < 0x80 then b + 0x80 else b
  }

  lemma TopBitIsXor(b: byte)
    requires b == 0 || b == 7
    ensures SetTopBit(b) == Xor(b, 0x80)
  {
    if b == 0 {
      XorByteZero(0x80);
    } else {
      assert XorBits(0, 16, 5) == 16 by { assert Pow2(5) == 32; XorZero(16, 5); }
      assert XorBits(1, 32, 6) == 33 && XorBits(3, 64, 7) == 67 && XorBits(7, 128, 8) == 135;
    }
  }

  method PadSingle(data: seq<byte>) returns (padded: seq<byte>)
    ensures padded == Padded(data + [0], 0x07)
  {
    padded := data + [0] + [0x07];
    var n := |padded|;
    padded := padded + Zeros((n + RATE - 1) / RATE * RATE - n);
    FillIsResize(n);
    TopBitIsXor(padded[|padded| - 1]);
    padded := padded[|padded| - 1 := SetTopBit(padded[|padded| - 1])];
  }

  lemma FillIsResize(n: nat)
    ensures (n + RATE - 1) / RATE * RATE - n == Fill(n)
  {
  }

  lemma ZeroLanes()
    ensures Lanes(Zeros(200)) == seq(25, _ => 0)
  {
    forall k | 0 <= k < 25
      ensures Lane(Zeros(200), k) == 0
    {
      assert Zeros(200)[8 * k..8 * k + 8] == Zeros(8);
      LeZeros(8);
    }
  }

  method AbsorbNext(f: permutation, a: array<word>, padded: seq<byte>, k: nat, ghost s: state) returns (ghost s': state)
    requires a.Length == 25 && k + RATE <= |padded| && a[..] == Lanes(s)
    requires Sponge(s, 0) == Absorbed(f, Start(), padded[..k])
    modifies a
    ensures a[..] == Lanes(s') && Sponge(s', 0) == Absorbed(f, Start(), padded[..k + RATE])
  {
    s' := AbsorbBlock(f, a, padded[k..k + RATE], s);
    AbsorbedNext(f, Start(), padded, k, k + RATE);
  }

  method AbsorbPadded(f: permutation, a: array<word>, padded: seq<byte>) returns (ghost s: state)
    requires a.Length == 25 && |padded| % RATE == 0 && a[..] == Lanes(Zeros(200))
    modifies a
    ensures a[..] == Lanes(s) && s == AbsorbedBlocks(f, Zeros(200), padded)
  {
    s := Zeros(200);
    var n := |padded| / RATE;
    for k := 0 to n
      invariant a[..] == Lanes(s) && Sponge(s, 0) == Absorbed(f, Start(), padded[..RATE * k])
    {
      s := AbsorbNext(f, a, padded, RATE * k, s);
    }
    assert padded[..RATE * n] == padded;
    BlocksAreBytes(f, Zeros(200), padded);
  }

  /** `k12`: for inputs of less than one chunk the short hash is KangarooTwelve. */
  method K12(f: permutation, data: seq<byte>, len: nat) returns (out: seq<byte>)
    requires |data| < CHUNK && len <= RATE
    ensures out == Kt128(f, data, len)
  {
    var padded := PadSingle(data);
    var a := new word[25](_ => 0);
    ZeroLanes();
    assert a[..] == Lanes(Zeros(200));
    ghost var s := AbsorbPadded(f, a, padded);
    out := SqueezeLanes(a, len);
    StateOfLanes(s);
    ShortMessage(f, data, len);
  }

  /** The first 21 lanes as bytes, cut to the output length. */
  method SqueezeLanes(a: array<word>, len: nat) returns (out: seq<byte>)
    requires a.Length == 25 && len <= RATE
    ensures out == StateOf(a[..])[..len]
  {
    var squeezed: seq<byte> := [];
    for i := 0 to 21
      invariant |squeezed| == 8 * i && squeezed == StateOf(a[..])[..8 * i]
    {
      BytesOfLane(a[..], i);
      SliceJoins(StateOf(a[..]), 8 * i, 8 * i + 8);
      squeezed := squeezed + ToBytes(a[i], 8);
    }
    out := squeezed[..len];
  }

  // ---------------------------------------------------------------- the two conversions

  /** `u32::from_le_bytes([cs[0], cs[1], cs[2], 0]) & 0x3FFFF`. */
  method ChecksumWord(f: permutation, pk: key) returns (checksum: nat)
    ensures checksum == Checksum(f, pk)
  {
    var cs := K12(f, pk, 3);
    checksum := Le(cs + [0]) % 0x4_0000;
    assert Zeros(1) == [0];
    LeHighZeros(cs, 1);
  }

  method PubkeyToIdentity(f: permutation, pk: key) returns (s: seq<byte>)
    ensures s == IdentityOf(f, pk)
  {
    s := [];
    for i := 0 to 4
      invariant s == FirstWords(pk, i)
    {
      s := PushLetters(s, KeyWord(pk, i), WORD_LETTERS);
    }
    FirstWordsAreAll(pk);
    var checksum := ChecksumWord(f, pk);
    s := PushLetters(s, checksum, CHECK_LETTERS);
  }

  ghost function FirstWords(pk: key, n: nat): seq<byte>
    requires n <= 4
  {
    if n == 0 then [] else FirstWords(pk, n - 1) + WordLetters(pk, n - 1)
  }

  lemma FirstWordsAreAll(pk: key)
    ensures FirstWords(pk, 4) == KeyLetters(pk)
  {
    assert FirstWords(pk, 1) == WordLetters(pk, 0);
    assert FirstWords(pk, 2) == WordLetters(pk, 0) + WordLetters(pk, 1);
    assert FirstWords(pk, 3) == WordLetters(pk, 0) + WordLetters(pk, 1) + WordLetters(pk, 2);
  }

  datatype Decoded = Key(key: key) | Refused

  function WordAt(buffer: seq<byte>, k: nat): nat
    requires 8 * k + 8 <= |buffer|
  {
    Le(buffer[8 * k..8 * k + 8])
  }

  /** Some fragment is no 64-bit word, and the arithmetic is checked. */
  ghost predicate Overflows(id: seq<byte>, checked: bool)
    requires |id| >= 56
  {
    checked && exists i :: 0 <= i < 4 && Value26(Fragment(id, i)) >= W
  }

  method DecodeWords(id: seq<byte>, checked: bool) returns (ok: bool, pk: key)
    requires |id| >= 56 && AllLetters(id[..56])
    ensures ok <==> !Overflows(id, checked)
    ensures ok ==> forall i :: 0 <= i < 4 ==> WordAt(pk, i) == Value26(Fragment(id, i)) % W
  {
    var buffer: seq<byte> := [];
    ok, pk := true, Zeros(32);
    for i := 0 to 4
      invariant ok && |buffer| == 8 * i
      invariant forall k :: 0 <= k < i ==> WordAt(buffer, k) == Value26(Fragment(id, k)) % W
      invariant checked ==> forall k :: 0 <= k < i ==> Value26(Fragment(id, k)) < W
    {
      var frag;
      FragmentLetters(id, i);
      ok, frag := DecodeWord(Fragment(id, i), checked);
      if !ok {
        return;
      }
      buffer := AppendWord(buffer, i, frag);
    }
    pk := buffer;
  }

  lemma FragmentLetters(id: seq<byte>, i: nat)
    requires |id| >= 56 && AllLetters(id[..56]) && i < 4
    ensures AllLetters(Fragment(id, i))
  {
    forall k | 0 <= k < 14
      ensures A <= Fragment(id, i)[k] < A + 26
    {
      assert Fragment(id, i)[k] == id[..56][14 * i + k];
    }
  }

  method AppendWord(buffer: seq<byte>, n: nat, frag: word) returns (longer: seq<byte>)
    requires |buffer| == 8 * n
    ensures |longer| == 8 * n + 8 && WordAt(longer, n) == frag
    ensures forall k :: 0 <= k < n ==> WordAt(longer, k) == WordAt(buffer, k)
  {
    longer := buffer + ToBytes(frag, 8);
    Pow2Is64();
    LeToBytes(frag, 8);
    assert longer[8 * n..8 * n + 8] == ToBytes(frag, 8);
    forall k | 0 <= k < n
      ensures WordAt(longer, k) == WordAt(buffer, k)
    {
      assert longer[8 * k..8 * k + 8] == buffer[8 * k..8 * k + 8];
    }
  }

  /** An identity's fragments are the words of its key. */
  lemma IdentityFragments(f: permutation, pk: key, i: nat)
    requires i < 4
    ensures AllLetters(Fragment(IdentityOf(f, pk), i)) && Value26(Fragment(IdentityOf(f, pk), i)) == KeyWord(pk, i)
  {
    FragmentOfKey(pk, Letters(Checksum(f, pk), CHECK_LETTERS), i);
    WordFits();
    ValueLetters(KeyWord(pk, i), WORD_LETTERS);
  }

  lemma IdentityIsLetters(f: permutation, pk: key)
    ensures AllLetters(IdentityOf(f, pk))
  {
    KeyIsLetters(pk);
    LettersJoin(KeyLetters(pk), Letters(Checksum(f, pk), CHECK_LETTERS));
  }

  lemma LettersJoin(a: seq<byte>, b: seq<byte>)
    requires AllLetters(a) && AllLetters(b)
    ensures AllLetters(a + b)
  {
  }

  lemma KeyIsLetters(pk: key)
    ensures AllLetters(KeyLetters(pk))
  {
    var a, b := WordLetters(pk, 0), WordLetters(pk, 1);
    LettersJoin(a, b);
    LettersJoin(a + b, WordLetters(pk, 2));
    LettersJoin(a + b + WordLetters(pk, 2), WordLetters(pk, 3));
  }

  /** The words read from an identity are the words of its key. */
  lemma DecodedKey(f: permutation, id: seq<byte>, pk: key, pk': key)
    requires id == IdentityOf(f, pk')
    requires forall i :: 0 <= i < 4 ==> WordAt(pk, i) == Value26(Fragment(id, i)) % W
    ensures pk == pk'
  {
    forall i | 0 <= i < 4
      ensures KeyWord(pk, i) == KeyWord(pk', i)
    {
      IdentityFragments(f, pk', i);
      ModSmall(KeyWord(pk', i), W);
      assert WordAt(pk, i) == KeyWord(pk', i);
    }
    KeyByWords(pk, pk');
  }

  lemma NoOverflow(f: permutation, id: seq<byte>, pk: key, checked: bool)
    requires id == IdentityOf(f, pk)
    ensures !Overflows(id, checked)
  {
    forall i | 0 <= i < 4
      ensures Value26(Fragment(id, i)) < W
    {
      IdentityFragments(f, pk, i);
    }
  }

  ghost predicate IsIdentity(f: permutation, id: seq<byte>) {
    exists pk: key :: IdentityOf(f, pk) == id
  }

  /** `identity_to_pubkey` accepts exactly the identities of keys and returns that key, whether 64-bit overflow wraps
      or stops the program. */
  method IdentityToPubkey(f: permutation, id: seq<byte>, checked: bool) returns (r: Decoded)
    ensures r.Key? <==> IsIdentity(f, id)
    ensures r.Key? ==> IdentityOf(f, r.key) == id
  {
    if !(|id| == 60 && forall i :: 0 <= i < 60 ==> A <= id[i] <= 90) {
      NotLetters(f, id);
      return Refused;
    }
    var ok, pk := DecodeWords(id, checked);
    if !ok {
      Overflowed(f, id, checked);
      return Refused;
    }
    var expected := PubkeyToIdentity(f, pk);
    if expected != id {
      Mismatched(f, id, pk);
      return Refused;
    }
    r := Key(pk);
  }

  lemma NotLetters(f: permutation, id: seq<byte>)
    requires !(|id| == 60 && forall i :: 0 <= i < 60 ==> A <= id[i] <= 90)
    ensures !IsIdentity(f, id)
  {
    if IsIdentity(f, id) {
      var pk: key :| IdentityOf(f, pk) == id;
      IdentityIsLetters(f, pk);
    }
  }

  lemma Overflowed(f: permutation, id: seq<byte>, checked: bool)
    requires |id| == 60 && Overflows(id, checked)
    ensures !IsIdentity(f, id)
  {
    if IsIdentity(f, id) {
      var pk: key :| IdentityOf(f, pk) == id;
      NoOverflow(f, id, pk, checked);
    }
  }

  lemma Mismatched(f: permutation, id: seq<byte>, pk: key)
    requires |id| == 60 && IdentityOf(f, pk) != id
    requires forall i :: 0 <= i < 4 ==> WordAt(pk, i) == Value26(Fragment(id, i)) % W
    ensures !IsIdentity(f, id)
  {
    if IsIdentity(f, id) {
      var pk': key :| IdentityOf(f, pk') == id;
      DecodedKey(f, id, pk, pk');
    }
  }

  /** An identity belongs to one key. */
  lemma IdentityInjective(f: permutation, pk: key, pk': key)
    requires IdentityOf(f, pk) == IdentityOf(f, pk')
    ensures pk == pk'
  {
    KeyLettersInjective(pk, pk', Letters(Checksum(f, pk), CHECK_LETTERS), Letters(Checksum(f, pk'), CHECK_LETTERS));
  }

  // ---------------------------------------------------------------- the sixty letters in numbers

  lemma {:induction false} Pow26Positive(n: nat)
    ensures Pow26(n) > 0
  {
    if n > 0 {
      Pow26Positive(n - 1);
    }
  }

  lemma DivideBy26(v: nat, p: nat)
    requires p > 0
    ensures v / 26 / p == v / (26 * p)
  {
    var a, q := v / 26, v / 26 / p;
    DivModUnique(v, 26 * p, q, a % p * 26 + v % 26);
  }

  lemma {:induction false} LetterDigit(x: nat, n: nat, j: nat)
    requires j < n
    ensures Pow26(j) > 0 && Letters(x, n)[j] == 65 + x / Pow26(j) % 26
    decreases j
  {
    Pow26Positive(j);
    if j > 0 {
      LetterDigit(x / 26, n - 1, j - 1);
      DivideBy26(x, Pow26(j - 1));
    }
  }

  /** Three bytes masked to 18 bits. */
  lemma EighteenBits(h: seq<byte>)
    requires |h| == 3
    ensures Le(h) % 0x4_0000 == h[0] as int + 256 * h[1] as int + 65536 * (h[2] % 4) as int
  {
    assert Le(h) == h[0] as int + 256 * Le(h[1..]) && Le(h[1..]) == h[1] as int + 256 * Le(h[2..]) && Le(h[2..]) == h[2];
  }

  lemma ChecksumFits(x: nat)
    requires x < 0x4_0000
    ensures Value26(Letters(x, 4)) == x
  {
    assert Pow26(2) == 676;
    Pow26Adds(2, 2);
    ValueLetters(x, 4);
  }

  /** The last four letters hold the low 18 bits of the key's hash h. */
  lemma ChecksumValue(f: permutation, pk: key, id: seq<byte>, h: seq<byte>)
    requires id == IdentityOf(f, pk) && h == Kt128(f, pk, 3)
    ensures Value26(id[56..60]) == h[0] as int + 256 * h[1] as int + 65536 * (h[2] % 4) as int
  {
    hide Kt128;
    EighteenBits(h);
    ChecksumFits(Le(h) % 0x4_0000);
    assert id[56..60] == Letters(Checksum(f, pk), 4);
  }

  lemma ChecksumLetter(f: permutation, pk: key, h: seq<byte>, v: nat, j: nat)
    requires h == Kt128(f, pk, 3) && j < 4 && v == h[0] as int + 256 * h[1] as int + 65536 * (h[2] % 4) as int
    ensures Pow26(j) > 0 && IdentityOf(f, pk)[56 + j] == 65 + v / Pow26(j) % 26
  {
    hide Kt128;
    hide Le;
    EighteenBits(h);
    LetterDigit(v, 4, j);
    assert Checksum(f, pk) == v;
  }

  /** Word i of the key is the value of letters 14i to 14i + 13. */
  lemma WordValue(f: permutation, pk: key, id: seq<byte>, i: nat)
    requires id == IdentityOf(f, pk) && i < 4
    ensures Value26(id[14 * i..14 * i + 14]) == Le(pk[8 * i..8 * i + 8])
  {
    IdentityFragments(f, pk, i);
  }

  /** Letter j of word i is its digit of weight 26^j. */
  lemma WordLetter(f: permutation, pk: key, i: nat, j: nat)
    requires i < 4 && j < 14
    ensures Pow26(j) > 0 && IdentityOf(f, pk)[14 * i + j] == 65 + Le(pk[8 * i..8 * i + 8]) / Pow26(j) % 26
  {
    FragmentOfKey(pk, Letters(Checksum(f, pk), CHECK_LETTERS), i);
    LetterDigit(KeyWord(pk, i), 14, j);
    assert IdentityOf(f, pk)[14 * i + j] == Fragment(IdentityOf(f, pk), i)[j];
  }

  // ---------------------------------------------------------------- the reference decoder

  /** `getPublicKeyFromIdentity` looks at 56 letters only, wraps silently and knows no checksum. */
  method GetPublicKeyFromIdentity(identity: seq<byte>) returns (ok: bool, publicKey: key)
    requires |identity| >= 56
    ensures ok <==> AllLetters(identity[..56])
    ensures ok ==> forall i :: 0 <= i < 4 ==> KeyWord(publicKey, i) == Value26(Fragment(identity, i)) % W
  {
    publicKey := Zeros(32);
    var letters := identity[..56];
    if !forall i :: 0 <= i < 56 ==> A <= letters[i] <= 90 {
      return false, publicKey;
    }
    ok, publicKey := DecodeWords(identity, false);
    assert forall i :: 0 <= i < 4 ==> KeyWord(publicKey, i) == WordAt(publicKey, i);
  }

  /** Re-encoding what it returns gives the letters back exactly when every word was below 2^64. */
  lemma WrappedWords(b: seq<byte>)
    requires |b| == WORD_LETTERS && AllLetters(b)
    ensures Letters(Value26(b) % W, WORD_LETTERS) == b <==> Value26(b) < W
  {
    LettersValue(b);
    WordFits();
    var v := Value26(b);
    ValueLetters(v % W, WORD_LETTERS);
    if v < W {
      ModSmall(v, W);
    }
  }
}
