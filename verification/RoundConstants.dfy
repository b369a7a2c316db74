/** The twelve round constants, derived from the shift register of FIPS 202, section 3.2.5. */
module RoundConstants {
  import opened Words

  /** The bits R[0..7] of the register. */
  datatype Register = Register(r0: bool, r1: bool, r2: bool, r3: bool, r4: bool, r5: bool, r6: bool, r7: bool)

  /** One step: a zero enters in front, and the bit shifted out is added to positions 0, 4, 5 and 6. */
  function Step(r: Register): Register {
    Register(r.r7, r.r0, r.r1, r.r2, r.r3 != r.r7, r.r4 != r.r7, r.r5 != r.r7, r.r6)
  }

  /** The register after t steps from 10000000. */
  function After(t: nat): Register {
    if t == 0 then Register(true, false, false, false, false, false, false, false) else Step(After(t - 1))
  }

  /** rc(t). */
  function RcBit(t: nat): bool {
    After(t % 255).r0
  }

  /** The seven bits of round i. */
  function Flags(i: nat): seq<bool> {
    seq(7, j requires 0 <= j < 7 => RcBit(7 * i + j))
  }

  function Weight(flag: bool, weight: nat): nat {
    if flag then weight else 0
  }

  /** Flag j is bit 2^j - 1 of the lane. */
  function Lane(flags: seq<bool>): nat
    requires |flags| == 7
  {
    Weight(flags[0], 0x1) + Weight(flags[1], 0x2) + Weight(flags[2], 0x8) + Weight(flags[3], 0x80)
    + Weight(flags[4], 0x8000) + Weight(flags[5], 0x8000_0000) + Weight(flags[6], 0x8000_0000_0000_0000)
  }

  /** The constant of round i. */
  function RoundConstant(i: nat): nat {
    Lane(Flags(i))
  }

  /** Both programs list the constants of the last twelve of 24 rounds. */
  const ROUND_CONSTANTS: seq<word> := [0x0000_0000_8000_808B, 0x8000_0000_0000_008B, 0x8000_0000_0000_8089,
                                       0x8000_0000_0000_8003, 0x8000_0000_0000_8002, 0x8000_0000_0000_0080,
                                       0x0000_0000_0000_800A, 0x8000_0000_8000_000A, 0x8000_0000_8000_8081,
                                       0x8000_0000_0000_8080, 0x0000_0000_8000_0001, 0x8000_0000_8000_8008]

  function Steps(r: Register, n: nat): Register {
    if n == 0 then r else Step(Steps(r, n - 1))
  }

  function SevenSteps(r: Register): Register {
    Step(Step(Step(Step(Step(Step(Step(r)))))))
  }

  lemma OneMoreStep(r: Register, n: nat)
    ensures Steps(r, n + 1) == Step(Steps(r, n))
  {
  }

  lemma SevenStepsAre(r: Register)
    ensures SevenSteps(r) == Steps(r, 7)
  {
    hide Step;
    assert Steps(r, 0) == r;
    OneMoreStep(r, 0);
    OneMoreStep(r, 1);
    OneMoreStep(r, 2);
    OneMoreStep(r, 3);
    OneMoreStep(r, 4);
    OneMoreStep(r, 5);
    OneMoreStep(r, 6);
  }

  /** The bits of a round, read off the register before it. */
  function FlagsFrom(r: Register): seq<bool> {
    [Steps(r, 0).r0, Steps(r, 1).r0, Steps(r, 2).r0, Steps(r, 3).r0, Steps(r, 4).r0, Steps(r, 5).r0, Steps(r, 6).r0]
  }

  lemma {:induction false} AfterAdds(t: nat, n: nat)
    ensures After(t + n) == Steps(After(t), n)
  {
    if n > 0 {
      AfterAdds(t, n - 1);
    }
  }

  /** The register before each of the first 24 rounds. */
  const BEFORE_0 := Register(true, false, false, false, false, false, false, false)
  const BEFORE_1 := Register(false, false, false, false, false, false, false, true)
  const BEFORE_2 := Register(false, false, false, true, true, false, true, true)
  const BEFORE_3 := Register(false, true, false, true, true, false, false, false)
  const BEFORE_4 := Register(true, true, true, true, true, false, true, true)
  const BEFORE_5 := Register(true, false, false, true, false, false, false, false)
  const BEFORE_6 := Register(true, false, true, false, true, true, false, false)
  const BEFORE_7 := Register(true, true, true, true, false, false, true, false)
  const BEFORE_8 := Register(false, true, false, true, false, false, true, true)
  const BEFORE_9 := Register(false, false, false, false, true, true, true, false)
  const BEFORE_10 := Register(true, false, false, false, false, false, true, false)
  const BEFORE_11 := Register(false, false, true, true, false, true, true, true)
  const BEFORE_12 := Register(true, false, true, false, true, false, true, true)
  const BEFORE_13 := Register(true, false, true, true, false, false, true, true)
  const BEFORE_14 := Register(true, true, false, false, false, true, true, false)
  const BEFORE_15 := Register(true, true, false, true, false, true, false, true)
  const BEFORE_16 := Register(false, true, false, true, false, true, false, true)
  const BEFORE_17 := Register(false, true, false, true, false, true, false, false)
  const BEFORE_18 := Register(false, true, false, false, true, true, true, true)
  const BEFORE_19 := Register(false, false, false, true, false, true, true, true)
  const BEFORE_20 := Register(true, true, true, false, true, true, false, false)
  const BEFORE_21 := Register(false, true, true, true, true, true, false, false)
  const BEFORE_22 := Register(true, true, false, true, false, false, false, false)
  const BEFORE_23 := Register(false, false, true, false, false, false, true, false)

  lemma StatesFrom0()
    ensures SevenSteps(BEFORE_0) == BEFORE_1
    ensures SevenSteps(BEFORE_1) == BEFORE_2
    ensures SevenSteps(BEFORE_2) == BEFORE_3
    ensures SevenSteps(BEFORE_3) == BEFORE_4
    ensures SevenSteps(BEFORE_4) == BEFORE_5
    ensures SevenSteps(BEFORE_5) == BEFORE_6
  {
  }

  lemma StatesFrom6()
    ensures SevenSteps(BEFORE_6) == BEFORE_7
    ensures SevenSteps(BEFORE_7) == BEFORE_8
    ensures SevenSteps(BEFORE_8) == BEFORE_9
    ensures SevenSteps(BEFORE_9) == BEFORE_10
    ensures SevenSteps(BEFORE_10) == BEFORE_11
    ensures SevenSteps(BEFORE_11) == BEFORE_12
  {
  }

  lemma StatesFrom12()
    ensures SevenSteps(BEFORE_12) == BEFORE_13
    ensures SevenSteps(BEFORE_13) == BEFORE_14
    ensures SevenSteps(BEFORE_14) == BEFORE_15
    ensures SevenSteps(BEFORE_15) == BEFORE_16
    ensures SevenSteps(BEFORE_16) == BEFORE_17
    ensures SevenSteps(BEFORE_17) == BEFORE_18
  {
  }

  lemma StatesFrom18()
    ensures SevenSteps(BEFORE_18) == BEFORE_19
    ensures SevenSteps(BEFORE_19) == BEFORE_20
    ensures SevenSteps(BEFORE_20) == BEFORE_21
    ensures SevenSteps(BEFORE_21) == BEFORE_22
    ensures SevenSteps(BEFORE_22) == BEFORE_23
  {
  }

  /** A round uses up seven bits. */
  lemma RoundOf(i: nat, r: Register, r': Register)
    requires i < 36 && After(7 * i) == r && SevenSteps(r) == r'
    ensures After(7 * i + 7) == r' && Flags(i) == FlagsFrom(r)
  {
    hide *;
    FlagsOfRound(i, r);
    AfterAdds(7 * i, 7);
    SevenStepsAre(r);
  }

  lemma FlagsOfRound(i: nat, r: Register)
    requires i < 36 && After(7 * i) == r
    ensures Flags(i) == FlagsFrom(r)
  {
    hide After;
    hide Step;
    hide Steps;
    hide RcBit;
    var flags, from := Flags(i), FlagsFrom(r);
    BitOfRound(i, 0, r);
    BitOfRound(i, 1, r);
    BitOfRound(i, 2, r);
    BitOfRound(i, 3, r);
    BitOfRound(i, 4, r);
    BitOfRound(i, 5, r);
    BitOfRound(i, 6, r);
    assert |flags| == |from| == 7;
  }

  lemma BitOfRound(i: nat, j: nat, r: Register)
    requires i < 36 && j < 7 && After(7 * i) == r
    ensures RcBit(7 * i + j) == Steps(r, j).r0
  {
    hide Steps;
    hide After;
    AfterAdds(7 * i, j);
    SmallRemainder(7 * i + j);
  }

  lemma SmallRemainder(t: nat)
    requires t < 255
    ensures t % 255 == t
  {
  }

  lemma AfterNothing()
    ensures After(0) == BEFORE_0
  {
  }

  lemma RegisterBefore12()
    ensures After(84) == BEFORE_12
  {
    AfterNothing();
    StatesFrom0();
    StatesFrom6();
    hide *;
    RoundOf(0, BEFORE_0, BEFORE_1);
    RoundOf(1, BEFORE_1, BEFORE_2);
    RoundOf(2, BEFORE_2, BEFORE_3);
    RoundOf(3, BEFORE_3, BEFORE_4);
    RoundOf(4, BEFORE_4, BEFORE_5);
    RoundOf(5, BEFORE_5, BEFORE_6);
    RoundOf(6, BEFORE_6, BEFORE_7);
    RoundOf(7, BEFORE_7, BEFORE_8);
    RoundOf(8, BEFORE_8, BEFORE_9);
    RoundOf(9, BEFORE_9, BEFORE_10);
    RoundOf(10, BEFORE_10, BEFORE_11);
    RoundOf(11, BEFORE_11, BEFORE_12);
  }

  lemma ConstantsFrom12()
    ensures Lane(FlagsFrom(BEFORE_12)) == 0x0000_0000_8000_808B
    ensures Lane(FlagsFrom(BEFORE_13)) == 0x8000_0000_0000_008B
    ensures Lane(FlagsFrom(BEFORE_14)) == 0x8000_0000_0000_8089
    ensures Lane(FlagsFrom(BEFORE_15)) == 0x8000_0000_0000_8003
    ensures Lane(FlagsFrom(BEFORE_16)) == 0x8000_0000_0000_8002
    ensures Lane(FlagsFrom(BEFORE_17)) == 0x8000_0000_0000_0080
  {
  }

  lemma ConstantsFrom18()
    ensures Lane(FlagsFrom(BEFORE_18)) == 0x0000_0000_0000_800A
    ensures Lane(FlagsFrom(BEFORE_19)) == 0x8000_0000_8000_000A
    ensures Lane(FlagsFrom(BEFORE_20)) == 0x8000_0000_8000_8081
    ensures Lane(FlagsFrom(BEFORE_21)) == 0x8000_0000_0000_8080
    ensures Lane(FlagsFrom(BEFORE_22)) == 0x0000_0000_8000_0001
    ensures Lane(FlagsFrom(BEFORE_23)) == 0x8000_0000_8000_8008
  {
  }

  /** The numbers in the code are the standard's constants of rounds 12 to 23. */
  lemma ConstantsAreDerived()
    ensures forall k :: 0 <= k < 12 ==> ROUND_CONSTANTS[k] == RoundConstant(12 + k)
  {
    hide After;
    hide Step;
    hide Flags;
    hide Lane;
    hide FlagsFrom;
    hide SevenSteps;
    RegisterBefore12();
    StatesFrom12();
    StatesFrom18();
    ConstantsFrom12();
    ConstantsFrom18();
    RoundOf(12, BEFORE_12, BEFORE_13);
    RoundOf(13, BEFORE_13, BEFORE_14);
    RoundOf(14, BEFORE_14, BEFORE_15);
    RoundOf(15, BEFORE_15, BEFORE_16);
    RoundOf(16, BEFORE_16, BEFORE_17);
    RoundOf(17, BEFORE_17, BEFORE_18);
    RoundOf(18, BEFORE_18, BEFORE_19);
    RoundOf(19, BEFORE_19, BEFORE_20);
    RoundOf(20, BEFORE_20, BEFORE_21);
    RoundOf(21, BEFORE_21, BEFORE_22);
    RoundOf(22, BEFORE_22, BEFORE_23);
    RoundOf(23, BEFORE_23, SevenSteps(BEFORE_23));
  }
}
