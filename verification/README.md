# Verified model of the quorum prover

The repository proves, inside a RISC Zero guest, that 451 of 676 listed computors committed to one oracle reply. This
project models the three parts that decide the outcome and proves that each does what it is for.

**The SchnorrQ / FourQ / KangarooTwelve engine** (`crypto/src/riscv_fourq_verify.c`, with the hand-unrolled reference
`crypto/src/stock_qubic.c`)

- `Words`, `Limbs`: 64-bit words as naturals below 2^64, carry and borrow primitives, multi-word products. The loops and
  the hand-unrolled carry chains give the same exact 512-bit product.
- `Montgomery`, `Schnorr`: multiplication modulo the 246-bit group order, the S half of a signature, the canonical-scalar
  test.
- `Field1271`, `FieldPower`, `Fermat`, `LucasLehmer`, `PrimeField`, `Fp2`, `Points`: arithmetic modulo p = 2^127 - 1 on
  the closed interval [0, p] (p and 0 both mean zero), the inversion chain, GF(p^2), the curve test and normalisation.
  That p is prime, Fermat's little theorem, and that -1 is not a square modulo p, are proved here.
- `Bigint2`: the alternative field backend whose results the host supplies.
- `CommutativeRing`, `Edwards`, `Coordinates`: the point formulas over any commutative ring, and the same formulas on
  coordinates in memory. The ring identities come from one transfer
  principle: two polynomial expressions that agree on all positive integers agree in every commutative ring. `Fp2` proves
  that GF(p^2) is such a ring.
- `CommutativeGroup`, `WNaf`, `DoubleScalar`, `Comb`: scalar recodings and the scalar multiplications built on them, in any
  commutative group, with the contents of the precomputed tables as hypotheses.
- `SchnorrQ`: signing, verifying and key generation put together; what `sign` writes, `verify` accepts.
- `Bytes`, `Sponge`, `KangarooTwelve`: the sponge with its three absorption paths and the tree-hash driver, against
  TurboSHAKE128 and KT128 of RFC 9861 (sections 2.2, 3.2 and 3.3). `Keccak`, `KeccakLoops`, `Permutation`: the unrolled
  rounds and the loop-and-table rounds, against the step mappings of FIPS 202 (section 3.2). `RoundConstants` derives the
  twelve constants from the shift register of its section 3.2.5.

**The quorum guest** (`methods/guest/src/main.rs`): `Quorum`. A panic is an absent result.

**The two codecs**: `Fixture` (`host/src/fixture.rs`) and `Identity` (`methods/guest/identity.rs`, with the C reference in
`crypto/src/stock_qubic.c`).

Conventions. Machine words are naturals with the wrap-around written out (`% W`, `/ W`); masks and shifts are written as
`%`, `/` and products with powers of two; exclusive or on bytes and lanes is defined bit by bit on naturals. Output arrays
may be input arrays wherever the C code passes them so. Methods named after a step of a loop hold that loop's body.
`RoundRow` is one of the five textually repeated planes of a round, with the lanes and rotations of each plane written out
at its call. The hash, the permutation and the signature check are function parameters where the code around them is
the subject.

A function that a program and its specification share is pinned by a lemma that states its result in positions and
numbers: `LongMessageLayout` and `PaddedLayout` for the hash input, `RoundFromLanes`, `PermutationRuns` and the lemmas on
single bits for the permutation, `AcceptedInBytes` and `SignatureInBytes` for the scheme, `ParseOfTx`, `CommitCounts` and
`FixtureStatement` for the guest, `FileLayout` and the letter lemmas for the codecs.

## Model

| member | source | states |
|---|---|---|
| Words.UMul128 | crypto/src/riscv_fourq_verify.c:31-44 | four 32-bit partial products give both halves of the exact 128-bit product |
| Words.AddCarry64 | crypto/src/riscv_fourq_verify.c:47-52 | out + 2^64 * carry is the exact sum, although the carry is found by comparing wrapped words |
| Words.SubBorrow64 | crypto/src/riscv_fourq_verify.c:55-60 | out - 2^64 * borrow is the exact difference |
| Words.ShiftRight128 | crypto/src/riscv_fourq_verify.c:63-66 | the low word of the two-word number divided by 2^n, for every n below 64 |
| Words.ShiftLeft128 | crypto/src/riscv_fourq_verify.c:69-72 | the high word of the two-word number times 2^n |
| Limbs.Multiply | crypto/src/riscv_fourq_verify.c:687-701 | the exact 512-bit product of any two 256-bit numbers, also into an operand |
| Limbs.MultiplyUnrolled | crypto/src/stock_qubic.c:3151-3193 | the unrolled rows give the exact product too: no carry is dropped |
| Limbs.BothProductsAgree | crypto/src/stock_qubic.c:3151-3193 | loop and unrolled code write the same eight words |
| Limbs.MulTruncate | crypto/src/riscv_fourq_verify.c:984-998 | floor(s * C / 2^256) mod 2^64 |
| Limbs.MulTruncateUnrolled | crypto/src/stock_qubic.c:3704-3728 | the column-wise chain gives the same word for every scalar and constant: the carry it leaves unchecked cannot occur |
| Limbs.TruncationsAgree | crypto/src/riscv_fourq_verify.c:1000-1004 | both versions give floor(s * C / 2^256) mod 2^64, for ell1 to ell4 and any other constant |
| Montgomery.MontgomeryMultiply | crypto/src/riscv_fourq_verify.c:703-755 | for any two 256-bit operands the result times 2^256 is congruent to ma * mb modulo the order; as soon as one operand is below the order it is the reduced ma * mb * 2^-256; also through the mb = 1 shortcut and into an operand |
| Montgomery.UnrolledLowProduct | crypto/src/stock_qubic.c:3211-3228 | the straight-line low product is P * r' modulo 2^256: every dropped carry and high half is a multiple of 2^256 |
| Montgomery.MontgomeryMultiplyUnrolled | crypto/src/stock_qubic.c:3195-3237 | the same for the reference core's unrolled version |
| Montgomery.ReducedExactly | crypto/src/riscv_fourq_verify.c:743-754 | for operands that may both be unreduced, the result is below the order exactly when the upper part of the sum is below twice the order |
| Montgomery.UnreducedResult | crypto/src/riscv_fourq_verify.c:743-754 | 2^256 - 1 times itself leaves an unreduced result |
| Montgomery.BothMontgomeryAgree | crypto/src/stock_qubic.c:3195-3237 | loop and unrolled versions write the same four words for any operands, reduced or not |
| Montgomery.MontgomeryProductUnique | crypto/src/riscv_fourq_verify.c:703-755 | a number below the order that times 2^256 is a * b plus a multiple of the order is that product |
| Montgomery.MontgomeryQuotient | crypto/src/riscv_fourq_verify.c:714-742 | adding Q times the order clears the low 256 bits, whatever the low product dropped; the upper part is below 2 * order for a product below 2^256 * order, and with a carry its words are below the order |
| Montgomery.ReductionByMontgomery | crypto/src/stock_qubic.c:4324-4327 | multiplying by the constant Rprime and then by 1 is reduction modulo the order, for every 256-bit number |
| Schnorr.SignProduct | crypto/src/stock_qubic.c:4328-4331 | four Montgomery products give h * k mod the order |
| Schnorr.SubtractModOrder | crypto/src/stock_qubic.c:4332-4335 | borrow and add-back give the difference modulo the order |
| Schnorr.SignScalar | crypto/src/stock_qubic.c:4324-4335 | S = (r - h * k) mod the order for all 256-bit r, h and k |
| Schnorr.SignedScalarUnique | crypto/src/stock_qubic.c:4299-4336 | S is the only scalar below the order with S + h * k congruent to r |
| Schnorr.SignatureVerifies | crypto/src/stock_qubic.c:4299-4336 | S * G + h * (k * G) = r * G in every group where the order annihilates G |
| Schnorr.ScalarIsCanonical | crypto/src/riscv_fourq_verify.c:1234-1245 | the top-limb-first comparison accepts exactly the numbers below the order |
| Field1271.Mod1271 | crypto/src/riscv_fourq_verify.c:515-522 | the representative below p |
| Field1271.FpAdd1271 | crypto/src/riscv_fourq_verify.c:524-530 | the sum modulo p, inside [0, p] and 0 only for 0 + 0, for any aliasing |
| Field1271.FpSub1271 | crypto/src/riscv_fourq_verify.c:532-538 | the difference modulo p, inside [0, p] and p only for p - 0 |
| Field1271.FpNeg1271 | crypto/src/riscv_fourq_verify.c:540-543 | p minus the element, inside [0, p] |
| Field1271.FpMul1271 | crypto/src/riscv_fourq_verify.c:545-565 | the product modulo p, inside [0, p] with no lost carry, and 0 only for a factor that is 0 |
| Field1271.FpSqr1271 | crypto/src/riscv_fourq_verify.c:567-586 | the square modulo p, inside [0, p] and 0 only for 0 |
| Field1271.FpDiv2 | crypto/src/riscv_fourq_verify.c:610-612 | one coordinate: twice the result is the element modulo p |
| Fp2.Fp2Div | crypto/src/riscv_fourq_verify.c:607-616 | the result added to itself is the element |
| FieldPower.FpExp1251 | crypto/src/riscv_fourq_verify.c:588-601 | the chain of squarings and products reaches a^(2^125 - 1) |
| FieldPower.OnesIsPow | crypto/src/riscv_fourq_verify.c:588-601 | the value the chain builds is the power with exponent 2^k - 1 |
| FieldPower.InverseExponent | crypto/src/riscv_fourq_verify.c:650-663 | two squarings and a product on top of that power give a^(p - 2) |
| Fermat.InverseModP | crypto/src/riscv_fourq_verify.c:649-663 | given that p is prime, which `LucasLehmer.PIsPrime` proves, a^(p - 2) inverts every nonzero residue and keeps zero |
| LucasLehmer.PIsPrime | crypto/src/riscv_fourq_verify.c:649-649 | p = 2^127 - 1, the modulus of the inversion by a^(p - 2), is prime |
| LucasLehmer.TestIsSufficient | crypto/src/riscv_fourq_verify.c:649-649 | a number 2^n - 1 that divides term n - 2 of the Lucas-Lehmer sequence is prime |
| PrimeField.FpInv1271 | crypto/src/riscv_fourq_verify.c:650-663 | the inverse of every nonzero residue, and zero for both representations of zero |
| PrimeField.MinusOneIsNoSquare | crypto/src/riscv_fourq_verify.c:633-647 | -1 is not a square modulo a prime of the form 4m + 3, so i is not in GF(p) |
| PrimeField.NormIsNonzero | crypto/src/riscv_fourq_verify.c:759-762 | the norm that is inverted vanishes only at zero |
| Fermat.FermatLittle | crypto/src/riscv_fourq_verify.c:649-663 | a^(p - 1) is 1 modulo a prime p for every a it does not divide |
| Fp2.Gf2IsRing | crypto/src/riscv_fourq_verify.c:633-647 | pairs modulo p with i^2 = -1 form a commutative ring |
| Fp2.Fp2Add | crypto/src/riscv_fourq_verify.c:665-665 | the GF(p^2) sum, also in place |
| Fp2.Fp2Sub | crypto/src/riscv_fourq_verify.c:666-666 | the GF(p^2) difference, also in place |
| Fp2.Fp2Neg | crypto/src/riscv_fourq_verify.c:618-618 | the GF(p^2) negation in place |
| Fp2.Fp2Mul | crypto/src/riscv_fourq_verify.c:633-647 | three base-field products give the GF(p^2) product, also in place |
| Fp2.Fp2Sqr | crypto/src/riscv_fourq_verify.c:620-631 | (a + b)(a - b) and 2ab give the GF(p^2) square, also in place |
| Points.EccPointValidate | crypto/src/riscv_fourq_verify.c:838-850 | TRUE only for points of the curve; every point of the curve is accepted but eight pairs of coordinates, all with the imaginary part of y written as p; so for imaginary part of y below p, TRUE exactly for points of the curve |
| Points.RejectedCurvePoints | crypto/src/riscv_fourq_verify.c:838-850 | the rejected curve points are exactly the eight, for every curve constant with a nonzero imaginary part |
| Points.NeutralIsRejected | crypto/src/riscv_fourq_verify.c:838-850 | x = (0, 0), y = (1, p) is on the curve and one of the eight |
| Points.EccNorm | crypto/src/riscv_fourq_verify.c:757-769 | for Z nonzero the affine coordinates times Z give X and Y, for Z = 0 they are 0; always fully reduced |
| Points.NormalFormIsUnique | crypto/src/riscv_fourq_verify.c:757-769 | two projective forms of one point normalise to the same coordinates |
| Bigint2.Take | methods/guest/src/bigint2.rs:29-39 | lets through exactly the results below p and then copies them |
| Bigint2.FpMulBigint2 | methods/guest/src/bigint2.rs:43-49 | whatever congruent representative the host supplies, what gets through is the reduced product |
| Bigint2.FpMulBothWays | methods/guest/src/bigint2.rs:43-49 | both backends agree after reduction |
| Bigint2.FpInvBigint2 | methods/guest/src/bigint2.rs:68-73 | zero is answered without the host; otherwise what gets through is the inverse the native chain computes |
| Bigint2.Fp2MulBigint2 | methods/guest/src/bigint2.rs:53-64 | passes exactly when both coefficients come back reduced, and then holds the GF(p^2) product |
| CommutativeRing.Transfer | crypto/src/riscv_fourq_verify.c:793-868 | polynomial expressions that agree on all positive integers agree in every commutative ring |
| Edwards.ExtPoint.EccDouble | crypto/src/riscv_fourq_verify.c:793-807 | the doubled point is on the curve with X * Y = Z * Ta * Tb and is the Edwards sum of the point with itself |
| Edwards.DoublingIsSum | crypto/src/riscv_fourq_verify.c:793-807 | the doubling formulas satisfy the addition law with denominators multiplied out |
| Edwards.DoublingOnCurve | crypto/src/riscv_fourq_verify.c:793-807 | doubling stays on the curve |
| Edwards.NeutralDoubledOnCurve | crypto/src/riscv_fourq_verify.c:1092-1097 | the loop's start (0 : 1 : 1), with ta and tb never assigned, is on the curve after the first doubling, whatever those hold |
| Edwards.ExtPoint.EccAddCore | crypto/src/riscv_fourq_verify.c:809-822 | from precomputed forms of two curve points, the Edwards sum on the curve |
| Edwards.AddedIsSum | crypto/src/riscv_fourq_verify.c:809-822 | the addition formulas satisfy the addition law with denominators multiplied out |
| Edwards.AddedOnCurve | crypto/src/riscv_fourq_verify.c:809-822 | addition stays on the curve |
| Edwards.ExtPoint.EccAdd | crypto/src/riscv_fourq_verify.c:824-828 | a precomputed point added in place |
| Edwards.ExtPoint.EccMadd | crypto/src/riscv_fourq_verify.c:852-868 | an affine precomputed point added in place, on the curve |
| Coordinates.EccDouble | crypto/src/riscv_fourq_verify.c:793-807 | in memory, through every aliasing call: the five coordinates end as the doubling formulas over GF(p^2), on the curve if they were |
| Coordinates.EccAddCore | crypto/src/riscv_fourq_verify.c:809-822 | in memory: from the two precomputed forms, the coordinates of the added point |
| Coordinates.EccAdd | crypto/src/riscv_fourq_verify.c:824-828 | in memory: the added point in place, on the curve if both were |
| Coordinates.EccMadd | crypto/src/riscv_fourq_verify.c:852-868 | in memory: an affine precomputed point added in place, on the curve if both were |
| Coordinates.R1ToR2 | crypto/src/riscv_fourq_verify.c:771-778 | in memory: (X + Y, Y - X, 2Z, 2dT) |
| Coordinates.R1ToR3 | crypto/src/riscv_fourq_verify.c:780-785 | in memory: (X + Y, Y - X, Z, T) |
| Edwards.NegatedPrecomp | crypto/src/riscv_fourq_verify.c:969-975 | swapping two entries and negating one gives the precomputed form of the negated point |
| Edwards.ProjectiveEquation | crypto/src/riscv_fourq_verify.c:793-868 | the invariant gives Z^2 (Y^2 - X^2) = Z^4 + d X^2 Y^2 |
| Edwards.NeutralIsSum | crypto/src/riscv_fourq_verify.c:793-868 | under the addition law a point plus the neutral point is the point |
| Edwards.NegatedIsSum | crypto/src/riscv_fourq_verify.c:969-975 | and a point of the curve plus its negation is the neutral point |
| Coordinates.ValidatedOnCurve | crypto/src/riscv_fourq_verify.c:838-850 | the affine equation that the membership test decides is the curve of the projective formulas at Z = 1 |
| Coordinates.Forms | crypto/src/riscv_fourq_verify.c:771-785 | the two precomputed forms in GF(p^2): (X + Y, Y - X, 2Z, 2dT) and (X + Y, Y - X, Z, T) |
| WNaf.WNafRecode | crypto/src/riscv_fourq_verify.c:1018-1041 | for every 64-bit scalar and window 2 to 8: the digits sum to the scalar, nonzero digits are odd, within the window and at least w apart, and only 65 places are written |
| DoubleScalar.EccPrecompDouble | crypto/src/riscv_fourq_verify.c:1043-1052 | the table holds P, 3P, 5P and 7P |
| DoubleScalar.AddDigit | crypto/src/riscv_fourq_verify.c:1099-1115 | digit / 2 selects the right odd multiple inside its table, negated for negative digits |
| DoubleScalar.Interleave | crypto/src/riscv_fourq_verify.c:1096-1116 | 65 doublings with eight digit columns give the combination of the eight sub-scalars and points |
| DoubleScalar.EccMulDouble | crypto/src/riscv_fourq_verify.c:1054-1120 | for any point and any sub-scalars, their combination with the images of G and Q, given the fixed table's contents; k * G + l * Q as soon as the sub-scalars recombine |
| DoubleScalar.CofactorClearing | crypto/src/riscv_fourq_verify.c:1123-1137 | eight doublings and two additions give 392 times the point |
| Comb.CombRecode | crypto/src/stock_qubic.c:3402-3432 | the sign rows and digit rows sum back to the odd scalar, the scalar ends at zero, every digit is a sign word or a bit |
| Comb.LookupValue | crypto/src/stock_qubic.c:3132-3149 | the entry a column selects lies in its block and is the signed multiple the column stands for |
| Comb.CombEvaluate | crypto/src/stock_qubic.c:3434-3561 | ten groups of five table additions with a doubling between give the multiple the digits stand for |
| Comb.ReduceModOrder | crypto/src/stock_qubic.c:3382-3383 | the scalar is reduced modulo the order |
| Comb.EccMulFixed | crypto/src/stock_qubic.c:3377-3564 | (k mod r) * G for every 256-bit k, given the table's contents and r * G = O |
| Comb.TableInNumbers | crypto/src/stock_qubic.c:3132-3149 | what the table hypothesis says of each entry: 2^(10v) * (1 + 2^50 d1 + 2^100 d2 + 2^150 d3 + 2^200 d4) * G at 16v + d1 + 2 d2 + 4 d3 + 8 d4 |
| SchnorrQ.Verify | crypto/src/riscv_fourq_verify.c:1228-1292 | accepts exactly when every check holds: bit checks, S below the order, key not neutral, decodable and of more than cofactor order, and S * G + h * A encodes to R |
| SchnorrQ.AcceptedInBytes | crypto/src/riscv_fourq_verify.c:1228-1292 | the same checks on the bytes, in both directions: h is the little-endian number in the first 32 bytes of the 64-byte hash of any 96 bytes that hold R, the key and the digest in this order; S is the number in bytes 32 to 63; bytes 15, zero bytes 8 to 30 with 00 or 80 on top, 392 * A, and the encoding of the two combinations against R |
| SchnorrQ.NeutralKeyBytes | crypto/src/riscv_fourq_verify.c:1247-1257 | exactly the keys with zero bytes 8 to 30 and 00 or 80 in byte 31 are refused as encodings of the neutral point |
| SchnorrQ.CombinedIsSum | crypto/src/riscv_fourq_verify.c:1278-1286 | for a key in the subgroup the point compared with R is S * G + h * A |
| SchnorrQ.Sign | crypto/src/stock_qubic.c:4299-4336 | R encodes r * G and S solves S + h * k = r, with nonce, challenge and secret scalar hashed as the scheme says |
| SchnorrQ.SignatureInBytes | crypto/src/stock_qubic.c:4299-4336 | in both directions, on the bytes: k and the nonce seed are the halves of the hashed subseed, r is hashed from that seed and the digest, h from 96 bytes with R, the key and the digest in this order; R encodes r * G and S is (r - h * k) mod the order |
| SchnorrQ.SecretInBytes | crypto/src/stock_qubic.c:4206-4221 | the signer's scalar is the little-endian number in the 32-byte hash of the subseed |
| SchnorrQ.GetPublicKey | crypto/src/stock_qubic.c:4206-4221 | the encoded multiple of G by the very scalar the signer derives, although key generation asks for half the hash output |
| SchnorrQ.SignedIsAccepted | crypto/src/riscv_fourq_verify.c:1228-1292 | verify accepts every signature that sign writes, for every subseed and digest, under an admissible key that decodes to the signer's point |
| Sponge.AbsorbedConcat | crypto/src/riscv_fourq_verify.c:255-324 | absorbing x and then y is absorbing x followed by y |
| Sponge.XorLane | crypto/src/riscv_fourq_verify.c:287-291 | exclusive or of a little-endian word into a lane is exclusive or of its bytes |
| Sponge.AbsorbAligned | crypto/src/riscv_fourq_verify.c:285-296 | the aligned partial path, with its short last lane, is byte-wise absorption |
| Sponge.AbsorbUnaligned | crypto/src/riscv_fourq_verify.c:297-315 | the shifted-lane path is byte-wise absorption from any byte index |
| Sponge.AbsorbBlocks | crypto/src/riscv_fourq_verify.c:258-276 | the whole-block path on loaded lanes is byte-wise absorption |
| Sponge.KangarooTwelveF.AbsorbPartial | crypto/src/riscv_fourq_verify.c:277-322 | one partial block, permuting exactly when it fills |
| Sponge.KangarooTwelveF.Absorb | crypto/src/riscv_fourq_verify.c:255-324 | from any byte index and for any data, state and index are those of absorbing byte by byte |
| Sponge.AbsorbedWithinBlock | crypto/src/riscv_fourq_verify.c:277-322 | data that fits the block is one exclusive or, and a permutation exactly when the block fills |
| KangarooTwelve.ClosedIsTurbo | crypto/src/riscv_fourq_verify.c:424-428 | suffix byte, 80 at the block end and the permutation are TurboSHAKE128 of the padded message |
| KangarooTwelve.PaddedLayout | crypto/src/riscv_fourq_verify.c:424-428 | whole blocks of 168 bytes, at most one more than the message: message, domain byte, zero bytes, 80 in the last byte, also when the last two meet |
| KangarooTwelve.LastBlock | crypto/src/riscv_fourq_verify.c:258-276 | the last block joins the state in bytes 0 to 167, the 32 capacity bytes stay, and the permutation follows |
| KangarooTwelve.OneBlock | crypto/src/riscv_fourq_verify.c:424-428 | a message that fits one block: one permutation of the padded block and 32 zero bytes |
| KangarooTwelve.EncodeLength | crypto/src/riscv_fourq_verify.c:415-422 | length_encode of the leaf count, then FF FF |
| KangarooTwelve.BigEndianDigit | crypto/src/riscv_fourq_verify.c:418-419 | the k-th digit of length_encode is the shifted and truncated number |
| KangarooTwelve.TrailerLayout | crypto/src/riscv_fourq_verify.c:415-422 | byte by byte what EncodeLength writes: the least n digits that hold the leaf count, most significant first, then n, FF, FF |
| KangarooTwelve.ChainingValueAt | crypto/src/riscv_fourq_verify.c:347-363 | 32 bytes for each leaf, in order, the hash of its chunk of 8192 bytes (the last one shorter) with domain byte 0B |
| KangarooTwelve.AppendZero | crypto/src/riscv_fourq_verify.c:365-368 | advancing the index absorbs a 00 byte, also across a block boundary |
| KangarooTwelve.MarkFirstChunk | crypto/src/riscv_fourq_verify.c:340-346 | 03 and zero bytes up to the lane boundary, by moving the index |
| KangarooTwelve.AbsorbLeaf | crypto/src/riscv_fourq_verify.c:355-359 | closing a leaf and absorbing its 32-byte chaining value |
| KangarooTwelve.AbsorbChunks | crypto/src/riscv_fourq_verify.c:347-363 | every complete chunk after the first becomes a leaf, a shorter last one waits |
| KangarooTwelve.GrowTree | crypto/src/riscv_fourq_verify.c:337-395 | after the chunk loop, the last leaf is accounted for in every case: partial, 8191 bytes, full, exactly one chunk |
| KangarooTwelve.FinishShort | crypto/src/riscv_fourq_verify.c:396-404 | the short-message ending, also when the 00 byte fills the block |
| KangarooTwelve.KangarooTwelve | crypto/src/riscv_fourq_verify.c:326-429 | KT128 with empty customization for every message below 2^32 bytes and outputs up to 168 bytes |
| KangarooTwelve.LongMessageLayout | crypto/src/riscv_fourq_verify.c:337-429 | for every message of 8192 bytes or more, byte by byte what is hashed last with domain byte 06: the first chunk, 03 and seven zero bytes, the chaining values at 8200 + 32i, the leaf count in its least number n of big-endian digits, n, FF, FF, and nothing else |
| Keccak.OffsetsAreTriangular | crypto/src/riscv_fourq_verify.c:107-160 | the 25 rotation offsets are those of the FIPS 202 walk |
| Keccak.PrepareThetaRound | crypto/src/riscv_fourq_verify.c:107-160 | one macro is one round, and leaves the next column parities |
| Keccak.Rounds12 | crypto/src/riscv_fourq_verify.c:178-232 | the unrolled, alternating, parity-carrying code is twelve rounds |
| Keccak.RoundAt | crypto/src/riscv_fourq_verify.c:107-160 | lane by lane, theta, rho, pi, chi and iota in one expression |
| Keccak.RoundFromLanes | crypto/src/riscv_fourq_verify.c:107-160 | a round written out from column parities, with every lane index and offset in numbers: lane (x, y) is rotated and goes to (y, 2x + 3y), and chi takes the complement of lane x + 1 with lane x + 2 |
| KeccakLoops.KeccakP160012 | methods/guest/identity.rs:12-24 | the loops over the 5 by 5 array are the same twelve rounds |
| KeccakLoops.OffsetsAgree | methods/guest/identity.rs:9-10 | both rotation tables agree |
| RoundConstants.ConstantsAreDerived | methods/guest/identity.rs:4-8 | the twelve numbers are the constants of rounds 12 to 23 as the shift register generates them |
| Permutation.UnrolledRounds | crypto/src/riscv_fourq_verify.c:247-253 | on 64-bit words with the twelve round constants, the sponge's permutation |
| Permutation.LoopRounds | methods/guest/identity.rs:4-24 | the loop version is the same permutation |
| Permutation.AndNotWordBit | crypto/src/riscv_fourq_verify.c:28-28 | bit i is (1 - bit i of a) * bit i of b |
| Permutation.XorWordBit | methods/guest/identity.rs:15-22 | bit i is the sum of the two bits modulo 2 |
| Permutation.RotatedLeft | crypto/src/riscv_fourq_verify.c:23-25 | for offsets 1 to 63: a * 2^n mod 2^64 plus the high n bits below it |
| Permutation.PermutationRuns | crypto/src/riscv_fourq_verify.c:178-253 | little-endian lanes of eight bytes, twelve rounds in the order of the constants, and the last state written back |
| Identity.K12 | methods/guest/identity.rs:27-45 | for inputs below one chunk the single-chunk hash is KT128, hence KangarooTwelve |
| Identity.PubkeyToIdentity | methods/guest/identity.rs:47-58 | four 14-letter words and four checksum letters |
| Identity.ChecksumValue | methods/guest/identity.rs:53-56 | the value of letters 56 to 59 is h0 + 256 h1 + 65536 (h2 mod 4) for the three hash bytes of the key |
| Identity.ChecksumLetter | methods/guest/identity.rs:55-56 | letter 56 + j is the digit of weight 26^j of that number |
| Identity.WordValue | methods/guest/identity.rs:49-52 | the value of letters 14i to 14i + 13 is the little-endian number in bytes 8i to 8i + 7 of the key |
| Identity.WordLetter | methods/guest/identity.rs:49-52 | letter 14i + j is the digit of weight 26^j of that number |
| Identity.IdentityToPubkey | methods/guest/identity.rs:61-75 | accepts exactly the identities of keys and returns the key, with wrapping or checked 64-bit arithmetic |
| Identity.IdentityInjective | methods/guest/identity.rs:47-75 | an identity belongs to one key |
| Identity.DecodeWord | methods/guest/identity.rs:68-70 | Horner's rule from the last letter: the value modulo 2^64, or a stop exactly when it is not a 64-bit word |
| Identity.LettersValue | methods/guest/identity.rs:49-52 | fourteen letters are the letters of their value |
| Identity.ValueLetters | methods/guest/identity.rs:49-52 | reading back the letters of a word gives the word, since 26^14 exceeds 2^64 |
| Identity.GetPublicKeyFromIdentity | crypto/src/stock_qubic.c:4223-4242 | the reference decoder accepts any 56 letters and wraps silently |
| Identity.WrappedWords | crypto/src/stock_qubic.c:4223-4242 | re-encoding gives the letters back exactly when the word was below 2^64 |
| Fixture.Parse | host/src/fixture.rs:36-72 | the cursor-driven parser computes the parse of the file |
| Fixture.Serialize | host/src/fixture.rs:74-92 | the printed form, field by field |
| Fixture.FileLayout | host/src/fixture.rs:74-92 | the bytes ZKQFIX02, then every field at its place, lengths and counts in four little-endian bytes |
| Fixture.BlobPlace | host/src/fixture.rs:87-89 | each transaction stands after its length, behind the earlier ones and their lengths |
| Fixture.ParseOfSerialized | host/src/fixture.rs:36-92 | parsing a printed fixture gives it back; the commit-count guard never rejects it |
| Fixture.SerializedOfParsed | host/src/fixture.rs:36-92 | an accepted file is the printed form of its parse |
| Fixture.RoundTripExactly | host/src/fixture.rs:74-92 | the round trip holds exactly for fixtures with a full-size packet and 32-bit lengths |
| Fixture.NoPrefixParses | host/src/fixture.rs:36-72 | no proper prefix of an accepted file is accepted |
| Fixture.WriteCommitsFrame | host/src/fixture.rs:108-115 | the fifth input frame |
| Fixture.CommitsFrameReadBack | host/src/fixture.rs:108-115 | the guest's frame loop recovers exactly the commit transactions |
| Quorum.RejectDuplicatePubkeys | methods/guest/src/main.rs:234-244 | passes exactly when all 676 keys differ, and then the index is strictly increasing |
| Quorum.ParseOfTx | methods/guest/src/main.rs:90-108 | source, destination, amount in two's complement, tick, type, input size, input and signature, in this order and these widths, parse to exactly these fields |
| Quorum.TxWasPrinted | methods/guest/src/main.rs:90-108 | every accepted byte string is such a concatenation |
| Quorum.TxInBytes | methods/guest/src/main.rs:90-113 | accepted exactly when the 16-bit size at 78 fits the length, and where each field and the signed part stand |
| Quorum.SortedIndexExists | methods/guest/src/main.rs:234-244 | every list of keys has a sorted index, so the sort's guarantee can always be met |
| Quorum.FindComputor | methods/guest/src/main.rs:120-125 | the binary search finds the member with the key, or shows there is none |
| Quorum.AnyItem | methods/guest/src/main.rs:150-152 | some whole 72-byte item holds the query id, the reply digest and the member's knowledge proof |
| Quorum.CheckCommit | methods/guest/src/main.rs:128-157 | the member a valid commit counts for unless already seen; none exactly when nothing new is committed |
| Quorum.CommitCounts | methods/guest/src/main.rs:128-157 | on the bytes: type 6, nothing sent, a tick after the query's, the member's key as source, its signature over all but the last 64 bytes, and one whole item at 80 + 72j with query id, reply digest and the hash of reply and two-byte index make a valid commit |
| Quorum.CommitWasCounted | methods/guest/src/main.rs:128-157 | and every valid commit has all of these |
| Quorum.OneMember | methods/guest/src/main.rs:128-157 | a transaction is a valid commit of at most one member |
| Quorum.CountCommits | methods/guest/src/main.rs:204-224 | for every commits frame, well-formed or not, success exactly when readable frames reach 451 distinct members |
| Quorum.CountedNext | methods/guest/src/main.rs:209-221 | every frame keeps: flags are the members with a valid commit so far, the count is the number of flags |
| Quorum.WellFormedCommits | methods/guest/src/main.rs:204-224 | on well-formed frames the early stop is invisible |
| Quorum.OrderAndDuplicatesDoNotMatter | methods/guest/src/main.rs:204-224 | the members counted depend only on which transactions occur |
| Quorum.FixtureQuorum | host/src/fixture.rs:108-115 | for the frame the host writes, the verdict is over the fixture's own commits |
| Quorum.VerdictIgnoresOrder | methods/guest/src/main.rs:204-224 | reordering or repeating commits in a fixture never changes the verdict |
| Quorum.CheckReveal | methods/guest/src/main.rs:192-201 | the reveal checks, as one condition |
| Quorum.RevealInBytes | methods/guest/src/main.rs:192-201 | the reveal condition on the bytes: type 7, nothing sent, a listed source, query id and reply as input, the signature |
| Quorum.QueryInBytes | methods/guest/src/main.rs:181-187 | the query condition on the bytes: type 10, zero destination, the tick in the query id above bit 31, the signature |
| Quorum.ListInBytes | methods/guest/src/main.rs:171-179 | the list condition on the bytes: 21698 of them, the last 64 signing the first 21634, bytes 0 and 1 not both zero, distinct keys |
| Quorum.Guest | methods/guest/src/main.rs:159-231 | a journal is committed exactly for attested frames, and holds epoch, query id and reply digest |
| Quorum.FixtureStatement | host/src/fixture.rs:117-128 | for the frames the host sends from a fixture the statement is: list, query and reveal conditions, and at least 451 members with a valid commit among the fixture's transactions |
| Quorum.FixtureJournal | host/src/fixture.rs:130-149 | the journal is 44 bytes and decodes to the fixture's epoch and query id and the reply's digest |

## Left out

- `decompose`, `ecc_phi`, `ecc_psi` and the tau maps: the lattice constants and eigenvalues behind them are not in the code; that the sub-scalars recombine is a hypothesis of `DoubleScalar.EccMulDouble`.
- The contents of FIXED_BASE_TABLE and DOUBLE_SCALAR_TABLE: hypotheses on the tables; no point is computed.
- SchnorrQ.Verify: the point encoding, its decoder and the test for a zero X coordinate are parameters, the encoder with a clear top bit in byte 15; the second validation of A inside the scalar multiplication is folded into the decoder.
- SchnorrQ.SignedIsAccepted: that decoding an encoded point gives the point back is a hypothesis on the signer's key.
- Comb.EccMulFixed: works on group elements; turning the first table entry into extended coordinates is not in it, and the final normalisation is `Points.EccNorm` on its own.
- DoubleScalar.EccMulDouble: works on group elements, so the rejection of an invalid Q, the coordinates of the points and the final normalisation are not in it; `Coordinates` treats the coordinates, `Points` the rejection and the normalisation, each on its own.
- Montgomery.MontgomeryMultiply: with both operands at or above the order the result need not be reduced (`Montgomery.ReducedExactly`, `Montgomery.UnreducedResult`); every call in the code passes a second operand below the order.
- Montgomery.MontgomeryMultiplyUnrolled: the additions are taken to happen before the subtractions of the same expression, an order the C standard leaves open.
- `encode`, `decode`: square roots and compression.
- Keccak.PrepareThetaRound: the twelfth round's text carries no parities; the model carries them there too and nobody reads them.
- Quorum.RejectDuplicatePubkeys: the library sort is a parameter with the guarantee it documents, a sorted permutation; the library binary search is written out as a loop.
- Quorum.Guest: reading frames from the host and committing the journal are parameters and results; panic messages are not modelled.
- Fixture.Parse: error texts are not modelled, and file lengths are unbounded, so the cursor's overflow check never fires.
- KangarooTwelve.KangarooTwelve: the branch-free selection of the chunk length is written as a conditional.
- The AVX-512 branches, `random`, `signWithRandomK`, `KangarooTwelve64To32`, the smart contract, receipts, command-line tools and scripts: other platforms or only easy properties.
