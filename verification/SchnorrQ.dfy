/** The signature scheme put together: what verify accepts, what sign writes, and that verify accepts it. Points are
    elements of a commutative group with the precomputed tables, the point encoding and the scalar decomposition as
    parameters; hashing is the verified KangarooTwelve. */
module SchnorrQ {
  import opened Words
  import opened Bytes
  import opened Limbs
  import opened Montgomery
  import opened CommutativeGroup
  import opened Comb
  import opened DoubleScalar
  import opened Schnorr
  import opened Sponge
  import K = KangarooTwelve
  import opened Wrappers

  // ---------------------------------------------------------------- words in byte buffers

  /** n little-endian words from the front of b. */
  function WordsOf(b: seq<byte>, n: nat): (s: seq<word>)
    requires |b| >= 8 * n
    ensures |s| == n
    decreases n
  {
    if n == 0 then [] else
      LeWord(b[..8]);
      [Le(b[..8])] + WordsOf(b[8..], n - 1)
  }

  function BytesOf(s: seq<word>): (b: seq<byte>)
    ensures |b| == 8 * |s|
  {
    if s == [] then [] else ToBytes(s[0], 8) + BytesOf(s[1..])
  }

  lemma {:induction false} WordsOfBytes(s: seq<word>, rest: seq<byte>)
    ensures WordsOf(BytesOf(s) + rest, |s|) == s
  {
    if s != [] {
      var b := BytesOf(s) + rest;
      assert b == ToBytes(s[0], 8) + (BytesOf(s[1..]) + rest);
      assert b[..8] == ToBytes(s[0], 8) && b[8..] == BytesOf(s[1..]) + rest;
      EightBytes(s[0], 8);
      WordsOfBytes(s[1..], rest);
    }
  }

  /** The number held by the first 32 bytes. */
  function Scalar(b: seq<byte>): nat
    requires |b| >= 32
  {
    Val(WordsOf(b, 4))
  }

  lemma {:induction false} WordsOfPrefix(b: seq<byte>, c: seq<byte>, n: nat)
    requires |b| >= 8 * n && |c| >= 8 * n && b[..8 * n] == c[..8 * n]
    ensures WordsOf(b, n) == WordsOf(c, n)
    decreases n
  {
    if n > 0 {
      assert b[..8] == b[..8 * n][..8] && c[..8] == c[..8 * n][..8];
      assert b[8..][..8 * (n - 1)] == b[..8 * n][8..] && c[8..][..8 * (n - 1)] == c[..8 * n][8..];
      WordsOfPrefix(b[8..], c[8..], n - 1);
    }
  }

  method LoadWords(b: seq<byte>) returns (a: array<word>)
    requires |b| >= 32
    ensures fresh(a) && a.Length == 4 && a[..] == WordsOf(b, 4) && Val(a[..4]) == Scalar(b)
  {
    var w := WordsOf(b, 4);
    a := new word[4](i requires 0 <= i < 4 => w[i]);
    assert a[..4] == w;
  }

  // ---------------------------------------------------------------- the scheme

  /** The group, the point encoding, the two tables and the scalar decomposition with its endomorphism images. */
  datatype Scheme<!T> = Scheme(g: Group<T>, base: T, encode: T -> seq<byte>, decode: seq<byte> -> Option<T>,
                               xIsZero: T -> bool, decompose: nat -> seq<word>, images: T -> seq<T>,
                               fixedTable: seq<T>, doubleTable: seq<T>)

  ghost predicate IsScheme<T(!new)>(c: Scheme<T>) {
    && IsGroup(c.g) && Mul(c.g, ORDER, c.base) == c.g.zero && CombTable(c.g, c.fixedTable, c.base)
    && (forall P :: |c.images(P)| == 4 && c.images(P)[0] == P)
    && (forall n :: |c.decompose(n)| == 4)
    && (forall P :: |c.encode(P)| == 32 && c.encode(P)[15] < 0x80)
    && (forall m :: 0 <= m < 4 ==> OddMultiples(c.g, c.doubleTable, 64 * m, 64, c.images(c.base)[m]))
  }

  /** The decomposition recombines on the subgroup whose order is ORDER. */
  ghost predicate Decomposes<T(!new)>(c: Scheme<T>)
    requires IsScheme(c)
  {
    forall n: nat, P :: Mul(c.g, ORDER, P) == c.g.zero ==> Recombines(c.g, c.decompose(n), n, c.images(P), P)
  }

  ghost function Challenge(f: permutation, R: seq<byte>, publicKey: seq<byte>, messageDigest: seq<byte>): nat
    requires |R| == |publicKey| == |messageDigest| == 32
  {
    Scalar(K.Kt128(f, R + publicKey + messageDigest, 64))
  }

  // ---------------------------------------------------------------- verifying

  /** The encodings of the neutral point, whatever byte 0 to 7 and the sign bit are. */
  predicate NeutralKey(publicKey: seq<byte>)
    requires |publicKey| == 32
  {
    var pk := WordsOf(publicKey, 4);
    pk[1] == 0 && pk[2] == 0 && pk[3] % 0x8000_0000_0000_0000 == 0
  }

  /** S * G + h * A, as the interleaved multiplication computes it for any point A. */
  ghost function Combined<T>(c: Scheme<T>, S: nat, h: nat, A: T): T
    requires |c.images(c.base)| == 4 && |c.images(A)| == 4 && |c.decompose(S)| == 4 && |c.decompose(h)| == 4
  {
    c.g.add(Combination(c.g, c.decompose(S), c.images(c.base)), Combination(c.g, c.decompose(h), c.images(A)))
  }

  ghost predicate KeyUsable<T(!new)>(c: Scheme<T>, publicKey: seq<byte>) {
    && |publicKey| == 32 && publicKey[15] < 0x80 && !NeutralKey(publicKey) && c.decode(publicKey).Some?
    && !c.xIsZero(Mul(c.g, 392, c.decode(publicKey).value))
  }

  ghost predicate Accepted<T(!new)>(c: Scheme<T>, f: permutation, publicKey: seq<byte>, messageDigest: seq<byte>,
                                    signature: seq<byte>)
    requires IsScheme(c) && |publicKey| == |messageDigest| == 32 && |signature| == 64
  {
    var R, S := signature[..32], Scalar(signature[32..]);
    && KeyUsable(c, publicKey) && signature[15] < 0x80 && S < ORDER
    && c.encode(Combined(c, S, Challenge(f, R, publicKey, messageDigest), c.decode(publicKey).value)) == R
  }

  /** `verify`, check by check. */
  method Verify<T(!new)>(c: Scheme<T>, f: permutation, publicKey: seq<byte>, messageDigest: seq<byte>,
                         signature: seq<byte>) returns (ok: bool)
    requires IsScheme(c) && |publicKey| == |messageDigest| == 32 && |signature| == 64
    ensures ok <==> Accepted(c, f, publicKey, messageDigest, signature)
  {
    hide Challenge;
    hide Combined;
    hide Mul;
    hide CombTable;
    hide OddMultiples;
    if publicKey[15] >= 0x80 || signature[15] >= 0x80 {
      return false;
    }
    var canonical := ScalarIsCanonical(WordsOf(signature[32..], 4));
    if !canonical || NeutralKey(publicKey) || c.decode(publicKey).None? {
      return false;
    }
    var A := c.decode(publicKey).value;
    var cofactorMultiple := CofactorClearing(c.g, A);
    if c.xIsZero(cofactorMultiple) {
      return false;
    }
    ok := SumEncodesTo(c, f, publicKey, messageDigest, signature[..32], Scalar(signature[32..]), A);
  }

  method SumEncodesTo<T(!new)>(c: Scheme<T>, f: permutation, publicKey: seq<byte>, messageDigest: seq<byte>,
                               R: seq<byte>, S: nat, A: T) returns (ok: bool)
    requires IsScheme(c) && |publicKey| == |messageDigest| == |R| == 32
    ensures ok <==> c.encode(Combined(c, S, Challenge(f, R, publicKey, messageDigest), A)) == R
  {
    var temp := R + publicKey + messageDigest;
    var hash := K.KangarooTwelve(f, temp, 64);
    var h := Scalar(hash);
    var T := EccMulDouble(c.g, c.decompose(S), c.decompose(h), c.images(A), c.doubleTable, c.images(c.base), S, h);
    ok := c.encode(T) == R;
  }

  // ---------------------------------------------------------------- signing

  ghost function SecretScalar(f: permutation, subseed: seq<byte>): nat
    requires |subseed| == 32
  {
    Scalar(K.Kt128(f, subseed, 64))
  }

  ghost function Nonce(f: permutation, subseed: seq<byte>, messageDigest: seq<byte>): nat
    requires |subseed| == |messageDigest| == 32
  {
    Scalar(K.Kt128(f, K.Kt128(f, subseed, 64)[32..] + messageDigest, 64))
  }

  ghost function Solved(r: nat, h: nat, k: nat): nat {
    (r - h * k) % ORDER
  }

  /** R = encode(r * G) and S = r - h * k modulo the order. */
  ghost predicate IsSignature<T(!new)>(c: Scheme<T>, f: permutation, subseed: seq<byte>, publicKey: seq<byte>,
                                       messageDigest: seq<byte>, signature: seq<byte>)
    requires IsScheme(c) && |subseed| == |publicKey| == |messageDigest| == 32 && |signature| == 64
  {
    var r, R := Nonce(f, subseed, messageDigest), signature[..32];
    && R == c.encode(Mul(c.g, r % ORDER, c.base))
    && Scalar(signature[32..]) == Solved(r, Challenge(f, R, publicKey, messageDigest), SecretScalar(f, subseed))
  }

  /** The scalar half: hash R, the key and the digest, and solve for S. */
  method SignHalf(f: permutation, k: seq<byte>, r: array<word>, R: seq<byte>, publicKey: seq<byte>,
                  messageDigest: seq<byte>) returns (half: seq<byte>)
    requires |k| >= 32 && r.Length == 4 && |R| == |publicKey| == |messageDigest| == 32
    modifies r
    ensures |half| == 32
    ensures Scalar(half) == Solved(old(Val(r[..4])), Challenge(f, R, publicKey, messageDigest), Scalar(k))
  {
    hide K.Kt128;
    hide Val;
    hide WordsOf;
    hide BytesOf;
    var hash := K.KangarooTwelve(f, R + publicKey + messageDigest, 64);
    var h := LoadWords(hash);
    var secret := LoadWords(k);
    var S := new word[4];
    SignScalar(secret, r, h, S);
    half := BytesOf(S[..4]);
    WordsOfBytes(S[..4], []);
    assert BytesOf(S[..4]) + [] == half;
  }

  /** The nonce, from the second half of k and the digest, and its encoded point. */
  method NoncePoint<T(!new)>(c: Scheme<T>, f: permutation, k: seq<byte>, messageDigest: seq<byte>)
    returns (r: array<word>, R: seq<byte>)
    requires IsScheme(c) && |k| == 64 && |messageDigest| == 32
    ensures fresh(r) && r.Length == 4 && Val(r[..4]) == Scalar(K.Kt128(f, k[32..] + messageDigest, 64))
    ensures R == c.encode(Mul(c.g, Val(r[..4]) % ORDER, c.base))
  {
    hide K.Kt128;
    hide CombTable;
    var nonce := K.KangarooTwelve(f, k[32..] + messageDigest, 64);
    r := LoadWords(nonce);
    var point := EccMulFixed(c.g, r, c.fixedTable, c.base);
    R := c.encode(point);
  }

  /** `sign`. */
  method Sign<T(!new)>(c: Scheme<T>, f: permutation, subseed: seq<byte>, publicKey: seq<byte>, messageDigest: seq<byte>)
    returns (signature: seq<byte>)
    requires IsScheme(c) && |subseed| == |publicKey| == |messageDigest| == 32
    ensures |signature| == 64 && IsSignature(c, f, subseed, publicKey, messageDigest, signature)
  {
    hide Scalar;
    hide Challenge;
    hide Solved;
    hide Val;
    hide K.Kt128;
    hide CombTable;
    hide OddMultiples;
    var k := K.KangarooTwelve(f, subseed, 64);
    var r, R := NoncePoint(c, f, k, messageDigest);
    var half := SignHalf(f, k, r, R, publicKey, messageDigest);
    signature := R + half;
    assert signature[..32] == R && signature[32..] == half;
  }

  /** `getPrivateKey` and `getPublicKey`. */
  method GetPublicKey<T(!new)>(c: Scheme<T>, f: permutation, subseed: seq<byte>) returns (publicKey: seq<byte>)
    requires IsScheme(c) && |subseed| == 32
    ensures publicKey == c.encode(Mul(c.g, SecretScalar(f, subseed) % ORDER, c.base))
  {
    var privateKey := K.KangarooTwelve(f, subseed, 32);
    var k := LoadWords(privateKey);
    ShorterOutput(f, subseed);
    WordsOfPrefix(privateKey, K.Kt128(f, subseed, 64), 4);
    var point := EccMulFixed(c.g, k, c.fixedTable, c.base);
    publicKey := c.encode(point);
  }

  /** The 32-byte private key is the first half of the 64 bytes the signer derives. */
  lemma ShorterOutput(f: permutation, m: seq<byte>)
    requires |m| == 32
    ensures K.Kt128(f, m, 64)[..32] == K.Kt128(f, m, 32)
  {
  }

  // ---------------------------------------------------------------- the scheme in bytes

  lemma {:induction false} LeConcat(a: seq<byte>, b: seq<byte>)
    ensures Le(a + b) == Le(a) + Pow2(8 * |a|) * Le(b)
  {
    if a == [] {
      assert a + b == b;
    } else {
      assert (a + b)[1..] == a[1..] + b;
      LeConcat(a[1..], b);
      ShiftOneMore(|a|, Le(b));
    }
  }

  lemma {:induction false} WordsAreLe(b: seq<byte>, n: nat)
    requires |b| >= 8 * n
    ensures Val(WordsOf(b, n)) == Le(b[..8 * n])
    decreases n
  {
    if n > 0 {
      WordsAreLe(b[8..], n - 1);
      assert b[..8 * n] == b[..8] + b[8..][..8 * (n - 1)];
      LeConcat(b[..8], b[8..][..8 * (n - 1)]);
      Pow2Is64();
      assert 8 * |b[..8]| == 64;
    }
  }

  /** A scalar is the number whose little-endian bytes are the first 32. */
  lemma ScalarIsLe(b: seq<byte>)
    requires |b| >= 32
    ensures Scalar(b) == Le(b[..32])
  {
    WordsAreLe(b, 4);
  }

  lemma {:induction false} LeIsZero(b: seq<byte>)
    ensures Le(b) == 0 <==> forall i :: 0 <= i < |b| ==> b[i] == 0
  {
    if b != [] {
      LeIsZero(b[1..]);
      if Le(b) == 0 {
        assert forall i :: 1 <= i < |b| ==> b[i] == b[1..][i - 1];
      }
    }
  }

  lemma {:induction false} WordIsLe(b: seq<byte>, n: nat, i: nat)
    requires |b| >= 8 * n && i < n
    ensures WordsOf(b, n)[i] == Le(b[8 * i..8 * i + 8])
    decreases n
  {
    if i > 0 {
      WordIsLe(b[8..], n - 1, i - 1);
      assert b[8..][8 * (i - 1)..8 * (i - 1) + 8] == b[8 * i..8 * i + 8];
    }
  }

  lemma TopWord(low: nat, top: byte)
    requires low < 0x100_0000_0000_0000
    ensures (low + 0x100_0000_0000_0000 * top) % 0x8000_0000_0000_0000 == 0 <==> low == 0 && (top == 0 || top == 0x80)
  {
  }

  lemma TopBytes(b: seq<byte>)
    requires |b| == 8
    ensures Le(b) % 0x8000_0000_0000_0000 == 0 <==> (forall i :: 0 <= i < 7 ==> b[i] == 0) && (b[7] == 0 || b[7] == 0x80)
  {
    assert b == b[..7] + [b[7]] && Le([b[7]]) == b[7];
    LeConcat(b[..7], [b[7]]);
    LeBound(b[..7]);
    LeIsZero(b[..7]);
    assert Pow2(56) == 0x100_0000_0000_0000 by {
      PowersOf256();
      Pow2Adds(8, 8);
      Pow2Adds(16, 8);
      Pow2Adds(24, 32);
      Pow2Adds(16, 16);
    }
    TopWord(Le(b[..7]), b[7]);
  }

  /** The refused keys have zero bytes 8 to 30, and 00 or 80 at the top. */
  lemma NeutralKeyBytes(publicKey: seq<byte>)
    requires |publicKey| == 32
    ensures NeutralKey(publicKey) <==>
              (forall i :: 8 <= i < 31 ==> publicKey[i] == 0) && (publicKey[31] == 0 || publicKey[31] == 0x80)
  {
    hide Le;
    var b1, b2, b3 := publicKey[8..16], publicKey[16..24], publicKey[24..32];
    WordIsLe(publicKey, 4, 1);
    WordIsLe(publicKey, 4, 2);
    WordIsLe(publicKey, 4, 3);
    LeIsZero(b1);
    LeIsZero(b2);
    TopBytes(b3);
    KeyParts(publicKey, b1, b2, b3);
  }

  lemma KeyParts(key: seq<byte>, b1: seq<byte>, b2: seq<byte>, b3: seq<byte>)
    requires |key| == 32 && b1 == key[8..16] && b2 == key[16..24] && b3 == key[24..32]
    ensures (forall i :: 8 <= i < 31 ==> key[i] == 0) <==>
              (forall i :: 0 <= i < 8 ==> b1[i] == 0) && (forall i :: 0 <= i < 8 ==> b2[i] == 0)
              && (forall i :: 0 <= i < 7 ==> b3[i] == 0)
  {
    assert forall i :: 8 <= i < 16 ==> key[i] == b1[i - 8];
    assert forall i :: 16 <= i < 24 ==> key[i] == b2[i - 16];
    assert forall i :: 24 <= i < 31 ==> key[i] == b3[i - 24];
  }

  lemma ThreeThirds(x: seq<byte>, R: seq<byte>, publicKey: seq<byte>, messageDigest: seq<byte>)
    requires |x| == 96 && x[..32] == R && x[32..64] == publicKey && x[64..] == messageDigest
    ensures x == R + publicKey + messageDigest
  {
  }

  /** Verify's answer, byte by byte: the hash h is over R, the key and the digest in this order. */
  lemma AcceptedInBytes<T(!new)>(c: Scheme<T>, f: permutation, publicKey: seq<byte>, messageDigest: seq<byte>,
                                 signature: seq<byte>, x: seq<byte>, S: nat, h: nat)
    requires IsScheme(c) && |publicKey| == |messageDigest| == 32 && |signature| == 64
    requires |x| == 96 && x[..32] == signature[..32] && x[32..64] == publicKey && x[64..] == messageDigest
    requires S == Le(signature[32..]) && h == Le(K.Kt128(f, x, 64)[..32])
    ensures Accepted(c, f, publicKey, messageDigest, signature) <==>
              && publicKey[15] < 0x80 && signature[15] < 0x80 && S < ORDER
              && !((forall i :: 8 <= i < 31 ==> publicKey[i] == 0) && (publicKey[31] == 0 || publicKey[31] == 0x80))
              && c.decode(publicKey).Some? && !c.xIsZero(Mul(c.g, 392, c.decode(publicKey).value))
              && c.encode(c.g.add(Combination(c.g, c.decompose(S), c.images(c.base)),
                                  Combination(c.g, c.decompose(h), c.images(c.decode(publicKey).value)))) == signature[..32]
  {
    hide K.Kt128;
    hide NeutralKey;
    hide Scalar;
    hide CombTable;
    hide OddMultiples;
    hide Combination;
    NeutralKeyBytes(publicKey);
    ScalarIsLe(signature[32..]);
    ScalarIsLe(K.Kt128(f, x, 64));
    ThreeThirds(x, signature[..32], publicKey, messageDigest);
    assert signature[32..][..32] == signature[32..];
  }

  /** For a key in the subgroup the point compared with R is S * G + h * A. */
  lemma CombinedIsSum<T(!new)>(c: Scheme<T>, S: nat, h: nat, A: T)
    requires IsScheme(c) && Decomposes(c) && Mul(c.g, ORDER, A) == c.g.zero
    ensures c.g.add(Combination(c.g, c.decompose(S), c.images(c.base)), Combination(c.g, c.decompose(h), c.images(A)))
         == c.g.add(Mul(c.g, S, c.base), Mul(c.g, h, A))
  {
    assert Recombines(c.g, c.decompose(S), S, c.images(c.base), c.base);
    assert Recombines(c.g, c.decompose(h), h, c.images(A), A);
  }

  /** Sign's answer, byte by byte: k and the nonce seed are the two halves of the hashed subseed, the nonce r is the hash
      of that seed and the digest, and h is over R, the key and the digest. */
  lemma SignatureInBytes<T(!new)>(c: Scheme<T>, f: permutation, subseed: seq<byte>, publicKey: seq<byte>,
                                  messageDigest: seq<byte>, signature: seq<byte>, x: seq<byte>, y: seq<byte>,
                                  k: nat, r: nat, h: nat)
    requires IsScheme(c) && |subseed| == |publicKey| == |messageDigest| == 32 && |signature| == 64
    requires |x| == 96 && x[..32] == signature[..32] && x[32..64] == publicKey && x[64..] == messageDigest
    requires |y| == 64 && y[..32] == K.Kt128(f, subseed, 64)[32..] && y[32..] == messageDigest
    requires k == Le(K.Kt128(f, subseed, 64)[..32]) && r == Le(K.Kt128(f, y, 64)[..32]) && h == Le(K.Kt128(f, x, 64)[..32])
    ensures IsSignature(c, f, subseed, publicKey, messageDigest, signature) <==>
              && signature[..32] == c.encode(Mul(c.g, r % ORDER, c.base))
              && Le(signature[32..]) == (r - h * k) % ORDER
  {
    hide K.Kt128;
    hide Scalar;
    hide CombTable;
    hide OddMultiples;
    hide Mul;
    ScalarIsLe(signature[32..]);
    ScalarIsLe(K.Kt128(f, subseed, 64));
    ScalarIsLe(K.Kt128(f, x, 64));
    ScalarIsLe(K.Kt128(f, y, 64));
    ThreeThirds(x, signature[..32], publicKey, messageDigest);
    assert y == K.Kt128(f, subseed, 64)[32..] + messageDigest;
    assert signature[32..][..32] == signature[32..];
  }

  /** The signer's scalar is the 32-byte hash of the subseed. */
  lemma SecretInBytes(f: permutation, subseed: seq<byte>)
    requires |subseed| == 32
    ensures SecretScalar(f, subseed) == Le(K.Kt128(f, subseed, 32))
  {
    ShorterOutput(f, subseed);
    ScalarIsLe(K.Kt128(f, subseed, 64));
  }

  // ---------------------------------------------------------------- every signature verifies

  lemma PublicKeyInSubgroup<T(!new)>(g: Group<T>, G: T, k: nat)
    requires IsGroup(g) && Mul(g, ORDER, G) == g.zero
    ensures Mul(g, ORDER, Mul(g, k, G)) == g.zero
  {
    MulMul(g, k, ORDER, G);
    MulMul(g, ORDER, k, G);
    MulZero(g, k);
    assert k * ORDER == ORDER * k;
  }

  /** The verifier's sum is the nonce point. */
  lemma CombinedIsNonce<T(!new)>(c: Scheme<T>, k: nat, r: nat, h: nat, S: nat, A: T)
    requires IsScheme(c) && Decomposes(c)
    requires A == Mul(c.g, k % ORDER, c.base) && S == Solved(r, h, k)
    ensures Combined(c, S, h, A) == Mul(c.g, r % ORDER, c.base)
  {
    hide CombTable;
    hide OddMultiples;
    PublicKeyInSubgroup(c.g, c.base, k % ORDER);
    assert Recombines(c.g, c.decompose(S), S, c.images(c.base), c.base);
    assert Recombines(c.g, c.decompose(h), h, c.images(A), A);
    SignatureVerifies(c.g, c.base, k, r, h);
  }

  /** Whatever the subseed and the message, verify accepts what sign writes, provided the signer's key is one that
      verify admits and that decodes to the signer's point. */
  lemma SignedIsAccepted<T(!new)>(c: Scheme<T>, f: permutation, subseed: seq<byte>, publicKey: seq<byte>,
                                  messageDigest: seq<byte>, signature: seq<byte>)
    requires IsScheme(c) && Decomposes(c)
    requires |subseed| == |publicKey| == |messageDigest| == 32 && |signature| == 64
    requires KeyUsable(c, publicKey)
    requires c.decode(publicKey).value == Mul(c.g, SecretScalar(f, subseed) % ORDER, c.base)
    requires IsSignature(c, f, subseed, publicKey, messageDigest, signature)
    ensures Accepted(c, f, publicKey, messageDigest, signature)
  {
    hide Scalar;
    hide SecretScalar;
    hide Nonce;
    hide Challenge;
    hide NeutralKey;
    hide Combined;
    hide Decomposes;
    var R := signature[..32];
    var k, r, h := SecretScalar(f, subseed), Nonce(f, subseed, messageDigest), Challenge(f, R, publicKey, messageDigest);
    CombinedIsNonce(c, k, r, h, Scalar(signature[32..]), c.decode(publicKey).value);
    assert signature[15] == R[15];
  }
}
