/**
 The checksum in machine words, which is what tells one polynomial from another: a bit step is a shift and an
 exclusive or with 0x82f63b78, and the buffer that CanAccelerateCRC32C is checked with has the checksum given there.
 */
module CrcWords {
  import opened CrcDetection
  import opened Crc32c
  import opened Keys
  import opened Linear

  // ---------------------------------------------------------------- words as bits

  /** 1 << i */
  function Bit(i: nat): bv32 {
    if i == 0 then 1 else Bit(i - 1) << 1
  }

  predicate At(x: bv32, i: nat) {
    x & Bit(i) != 0
  }

  /** The register holds this machine word. */
  predicate Holds(w: Word, x: bv32) {
    forall i | 0 <= i < 32 :: w[i] == At(x, i)
  }

  lemma Bits()
    ensures Bit(0) == 0x1 && Bit(1) == 0x2 && Bit(2) == 0x4 && Bit(3) == 0x8
    ensures Bit(4) == 0x10 && Bit(5) == 0x20 && Bit(6) == 0x40 && Bit(7) == 0x80
    ensures Bit(8) == 0x100 && Bit(9) == 0x200 && Bit(10) == 0x400 && Bit(11) == 0x800
    ensures Bit(12) == 0x1000 && Bit(13) == 0x2000 && Bit(14) == 0x4000 && Bit(15) == 0x8000
    ensures Bit(16) == 0x1_0000 && Bit(17) == 0x2_0000 && Bit(18) == 0x4_0000 && Bit(19) == 0x8_0000
    ensures Bit(20) == 0x10_0000 && Bit(21) == 0x20_0000 && Bit(22) == 0x40_0000 && Bit(23) == 0x80_0000
    ensures Bit(24) == 0x100_0000 && Bit(25) == 0x200_0000 && Bit(26) == 0x400_0000 && Bit(27) == 0x800_0000
    ensures Bit(28) == 0x1000_0000 && Bit(29) == 0x2000_0000 && Bit(30) == 0x4000_0000 && Bit(31) == 0x8000_0000
  {
  }

  lemma {:induction false} BitIsSingle(i: nat)
    ensures Bit(i) & (Bit(i) - 1) == 0
  {
    if i > 0 {
      BitIsSingle(i - 1);
      Doubled(Bit(i - 1), Bit(i));
    }
  }

  lemma Doubled(m: bv32, n: bv32)
    requires n == m << 1 && m & (m - 1) == 0
    ensures n & (n - 1) == 0 && n & 1 == 0
    ensures n != 0 ==> m != 0 && m & 0x8000_0000 == 0
  {
  }

  lemma {:induction false} BitIsThere(i: nat)
    requires i < 32
    ensures Bit(i) != 0
    decreases 31 - i
  {
    if i < 31 {
      BitIsThere(i + 1);
      BitIsSingle(i);
      Doubled(Bit(i), Bit(i + 1));
    } else {
      Bits();
    }
  }

  // ---------------------------------------------------------------- exclusive or and shift

  lemma XorAtBit(x: bv32, y: bv32, m: bv32)
    requires m & (m - 1) == 0
    ensures (x ^ y) & m != 0 <==> ((x & m != 0) != (y & m != 0))
  {
  }

  lemma XorAt(x: bv32, y: bv32)
    ensures forall i: nat :: At(x ^ y, i) == (At(x, i) != At(y, i))
  {
    forall i: nat
      ensures At(x ^ y, i) == (At(x, i) != At(y, i))
    {
      BitIsSingle(i);
      XorAtBit(x, y, Bit(i));
    }
  }

  lemma XorHolds(a: Word, x: bv32, b: Word, y: bv32, z: bv32)
    requires Holds(a, x) && Holds(b, y)
    requires forall i: nat :: At(z, i) == (At(x, i) != At(y, i))
    ensures Holds(Xor(a, b), z)
  {
  }

  lemma ShiftAtBit(x: bv32, z: bv32, m: bv32, n: bv32)
    requires z == x >> 1 && n == m << 1 && m & 0x8000_0000 == 0
    ensures z & m != 0 <==> x & n != 0
  {
  }

  lemma NextBit(i: nat)
    requires i < 31
    ensures Bit(i + 1) == Bit(i) << 1 && Bit(i) & 0x8000_0000 == 0
  {
    BitIsSingle(i);
    BitIsThere(i + 1);
    Doubled(Bit(i), Bit(i + 1));
  }

  lemma TopIsGone(x: bv32)
    ensures !At(x >> 1, 31)
  {
    Bits();
  }

  lemma OneShifted(x: bv32, z: bv32, i: nat)
    requires i < 31 && z == x >> 1
    ensures At(z, i) == At(x, i + 1)
  {
    BitShifted(x, z, i, Bit(i), Bit(i + 1));
  }

  lemma BitShifted(x: bv32, z: bv32, i: nat, m: bv32, n: bv32)
    requires i < 31 && z == x >> 1 && m == Bit(i) && n == Bit(i + 1)
    ensures z & m != 0 <==> x & n != 0
  {
    NextBit(i);
    ShiftAtBit(x, z, m, n);
  }

  lemma ShiftAt(x: bv32, z: bv32)
    requires z == x >> 1
    ensures (forall i: nat | i < 31 :: At(z, i) == At(x, i + 1)) && !At(z, 31)
  {
    TopIsGone(x);
    forall i: nat | i < 31
      ensures At(z, i) == At(x, i + 1)
    {
      OneShifted(x, z, i);
    }
  }

  lemma ShiftHolds(w: Word, x: bv32, z: bv32)
    requires Holds(w, x)
    requires (forall i: nat | i < 31 :: At(z, i) == At(x, i + 1)) && !At(z, 31)
    ensures Holds(ShiftRight(w, 1), z)
  {
  }

  // ---------------------------------------------------------------- the definition in machine words

  const CASTAGNOLI: bv32 := 0x82f6_3b78

  function WordBitStep(x: bv32): bv32 {
    if x & 1 != 0 then (x >> 1) ^ CASTAGNOLI else x >> 1
  }

  function WordBitSteps(x: bv32, n: nat): bv32 {
    if n == 0 then x else WordBitStep(WordBitSteps(x, n - 1))
  }

  lemma PolynomialBits()
    ensures !At(CASTAGNOLI, 0) && !At(CASTAGNOLI, 1) && !At(CASTAGNOLI, 2) && At(CASTAGNOLI, 3)
    ensures At(CASTAGNOLI, 4) && At(CASTAGNOLI, 5) && At(CASTAGNOLI, 6) && !At(CASTAGNOLI, 7)
    ensures At(CASTAGNOLI, 8) && At(CASTAGNOLI, 9) && !At(CASTAGNOLI, 10) && At(CASTAGNOLI, 11)
    ensures At(CASTAGNOLI, 12) && At(CASTAGNOLI, 13) && !At(CASTAGNOLI, 14) && !At(CASTAGNOLI, 15)
    ensures !At(CASTAGNOLI, 16) && At(CASTAGNOLI, 17) && At(CASTAGNOLI, 18) && !At(CASTAGNOLI, 19)
    ensures At(CASTAGNOLI, 20) && At(CASTAGNOLI, 21) && At(CASTAGNOLI, 22) && At(CASTAGNOLI, 23)
    ensures !At(CASTAGNOLI, 24) && At(CASTAGNOLI, 25) && !At(CASTAGNOLI, 26) && !At(CASTAGNOLI, 27)
    ensures !At(CASTAGNOLI, 28) && !At(CASTAGNOLI, 29) && !At(CASTAGNOLI, 30) && At(CASTAGNOLI, 31)
  {
    Bits();
  }

  lemma PolynomialHolds()
    ensures Holds(POLYNOMIAL, CASTAGNOLI)
  {
    PolynomialBits();
  }

  lemma OddStepHolds(w: Word, x: bv32, z: bv32)
    requires Holds(w, x) && w[0] && z == (x >> 1) ^ CASTAGNOLI
    ensures Holds(BitStep(w), z)
  {
    var y := x >> 1;
    ShiftAt(x, y);
    ShiftHolds(w, x, y);
    PolynomialHolds();
    XorAt(y, CASTAGNOLI);
    XorHolds(ShiftRight(w, 1), y, POLYNOMIAL, CASTAGNOLI, z);
  }

  lemma EvenStepHolds(w: Word, x: bv32, z: bv32)
    requires Holds(w, x) && !w[0] && z == x >> 1
    ensures Holds(BitStep(w), z)
  {
    ShiftAt(x, z);
    ShiftHolds(w, x, z);
  }

  lemma LowestHolds(w: Word, x: bv32)
    requires Holds(w, x)
    ensures w[0] == (x & 1 != 0)
  {
  }

  lemma BitStepHolds(w: Word, x: bv32)
    requires Holds(w, x)
    ensures Holds(BitStep(w), WordBitStep(x))
  {
    LowestHolds(w, x);
    if w[0] {
      OddStepHolds(w, x, WordBitStep(x));
    } else {
      EvenStepHolds(w, x, WordBitStep(x));
    }
  }

  lemma ByteStepHolds(w: Word, x: bv32, b: Word, y: bv32)
    requires Holds(w, x) && Holds(b, y)
    ensures Holds(ZeroByte(Xor(w, b)), WordBitSteps(x ^ y, 8))
  {
    var l := Xor(w, b);
    XorAt(x, y);
    XorHolds(w, x, b, y, x ^ y);
    ZeroByteIsEightBits(l);
    BitStepsHold(l, x ^ y, 8);
  }

  lemma {:induction false} BitStepsHold(w: Word, x: bv32, n: nat)
    requires Holds(w, x)
    ensures Holds(Iterate<Word>(BitStep, w, n), WordBitSteps(x, n))
  {
    if n > 0 {
      BitStepsHold(w, x, n - 1);
      BitStepHolds(Iterate<Word>(BitStep, w, n - 1), WordBitSteps(x, n - 1));
    }
  }

  /** The bits of a byte, as a number and as a machine word. */
  predicate SameByte(b: Byte, x: bv32) {
    && x < 0x100 && (x & 0x1 != 0 <==> b % 2 == 1) && (x & 0x2 != 0 <==> b / 2 % 2 == 1)
    && (x & 0x4 != 0 <==> b / 4 % 2 == 1) && (x & 0x8 != 0 <==> b / 8 % 2 == 1)
    && (x & 0x10 != 0 <==> b / 16 % 2 == 1) && (x & 0x20 != 0 <==> b / 32 % 2 == 1)
    && (x & 0x40 != 0 <==> b / 64 % 2 == 1) && (x & 0x80 != 0 <==> b / 128 == 1)
  }

  lemma ByteHolds(b: Byte, x: bv32)
    requires SameByte(b, x)
    ensures Holds(FromByte(b), x)
  {
    Bits();
  }

  // ---------------------------------------------------------------- the test buffer

  /** "TestCRCBuffer" */
  const TEST: seq<Byte> := [0x54, 0x65, 0x73, 0x74, 0x43, 0x52, 0x43, 0x42, 0x75, 0x66, 0x66, 0x65, 0x72]

  const TEST_VALUE: bv32 := 0xdcbc_59fa

  lemma OneMoreByte(k: nat, x: bv32, y: bv32, z: bv32)
    requires k < |TEST| && Holds(Feed(ONES, TEST[..k]), x) && SameByte(TEST[k], y) && z == WordBitSteps(x ^ y, 8)
    ensures Holds(Feed(ONES, TEST[..k + 1]), z)
  {
    FeedOne<Word, Byte>(Xor, ZeroByte, FromByte, ONES, TEST, k);
    ByteHolds(TEST[k], y);
    ByteStepHolds(Feed(ONES, TEST[..k]), x, FromByte(TEST[k]), y);
  }

  lemma OnesHold()
    ensures Holds(ONES, 0xffff_ffff)
  {
    forall i | 0 <= i < 32
      ensures At(0xffff_ffff, i)
    {
      BitIsThere(i);
    }
  }

  lemma TestBytes()
    ensures SameByte(TEST[0], 0x54) && SameByte(TEST[1], 0x65) && SameByte(TEST[2], 0x73) && SameByte(TEST[3], 0x74)
    ensures SameByte(TEST[4], 0x43) && SameByte(TEST[5], 0x52) && SameByte(TEST[6], 0x43) && SameByte(TEST[7], 0x42)
    ensures SameByte(TEST[8], 0x75) && SameByte(TEST[9], 0x66) && SameByte(TEST[10], 0x66) && SameByte(TEST[11], 0x65)
    ensures SameByte(TEST[12], 0x72)
  {
  }

  lemma FirstSteps()
    ensures WordBitSteps(0xffff_ffab, 8) == 0x3b3d_e162
    ensures WordBitSteps(0x3b3d_e107, 8) == 0xd4f1_590a
    ensures WordBitSteps(0xd4f1_5979, 8) == 0x9fe_7e98
    ensures WordBitSteps(0x9fe_7eec, 8) == 0xae7a_99b4
    ensures WordBitSteps(0xae7a_99f7, 8) == 0x270a_7107
    ensures WordBitSteps(0x270a_7155, 8) == 0x64f3_c4be
    ensures WordBitSteps(0x64f3_c4fd, 8) == 0x4c22_d062
  {
  }

  lemma LastSteps()
    ensures WordBitSteps(0x4c22_d020, 8) == 0x20f1_ac0e
    ensures WordBitSteps(0x20f1_ac7b, 8) == 0xe831_0e9a
    ensures WordBitSteps(0xe831_0efc, 8) == 0xbec5_91ab
    ensures WordBitSteps(0xbec5_91cd, 8) == 0x7c1b_af86
    ensures WordBitSteps(0x7c1b_afe3, 8) == 0xf01c_4041
    ensures WordBitSteps(0xf01c_4033, 8) == 0x2343_a605
  {
  }

  lemma FirstBytes()
    ensures Holds(Feed(ONES, TEST[..4]), 0xae7a_99b4)
  {
    OnesHold();
    TestBytes();
    FirstSteps();
    assert TEST[..0] == [];
    OneMoreByte(0, 0xffff_ffff, 0x54, 0x3b3d_e162);
    OneMoreByte(1, 0x3b3d_e162, 0x65, 0xd4f1_590a);
    OneMoreByte(2, 0xd4f1_590a, 0x73, 0x9fe_7e98);
    OneMoreByte(3, 0x9fe_7e98, 0x74, 0xae7a_99b4);
  }

  lemma MoreBytes()
    ensures Holds(Feed(ONES, TEST[..7]), 0x4c22_d062)
  {
    FirstBytes();
    TestBytes();
    FirstSteps();
    OneMoreByte(4, 0xae7a_99b4, 0x43, 0x270a_7107);
    OneMoreByte(5, 0x270a_7107, 0x52, 0x64f3_c4be);
    OneMoreByte(6, 0x64f3_c4be, 0x43, 0x4c22_d062);
  }

  lemma StillMoreBytes()
    ensures Holds(Feed(ONES, TEST[..10]), 0xbec5_91ab)
  {
    MoreBytes();
    TestBytes();
    LastSteps();
    OneMoreByte(7, 0x4c22_d062, 0x42, 0x20f1_ac0e);
    OneMoreByte(8, 0x20f1_ac0e, 0x75, 0xe831_0e9a);
    OneMoreByte(9, 0xe831_0e9a, 0x66, 0xbec5_91ab);
  }

  lemma LastBytes()
    ensures Holds(Feed(ONES, TEST[..13]), 0x2343_a605)
  {
    StillMoreBytes();
    TestBytes();
    LastSteps();
    OneMoreByte(10, 0xbec5_91ab, 0x66, 0x7c1b_af86);
    OneMoreByte(11, 0x7c1b_af86, 0x65, 0xf01c_4041);
    OneMoreByte(12, 0xf01c_4041, 0x72, 0x2343_a605);
  }

  /** The register after the test buffer, with all bits flipped at both ends. */
  lemma TestBufferHolds()
    ensures Holds(ValueOf(TEST), TEST_VALUE)
  {
    XorLaws(ONES, ZERO);
    XorLaws(ZERO, ONES);
    LastBytes();
    assert TEST[..13] == TEST;
    OnesHold();
    XorAt(0x2343_a605, 0xffff_ffff);
    XorHolds(Feed(ONES, TEST), 0x2343_a605, ONES, 0xffff_ffff, TEST_VALUE);
  }

  predicate IsTestValue(w: seq<bool>) {
    && |w| == 32
    && !w[0] && w[1] && !w[2] && w[3]
    && w[4] && w[5] && w[6] && w[7]
    && w[8] && !w[9] && !w[10] && w[11]
    && w[12] && !w[13] && w[14] && !w[15]
    && !w[16] && !w[17] && w[18] && w[19]
    && w[20] && w[21] && !w[22] && w[23]
    && !w[24] && !w[25] && w[26] && w[27]
    && w[28] && !w[29] && w[30] && w[31]
  }

  lemma TestValueBits(w: Word)
    requires Holds(w, TEST_VALUE)
    ensures IsTestValue(w)
  {
    Bits();
  }

  lemma OneBit(w: seq<bool>, i: nat)
    requires i < |w|
    ensures BitsToNat(w[i..]) == (if w[i] then 1 else 0) + 2 * BitsToNat(w[i + 1..])
  {
    assert w[i..][1..] == w[i + 1..];
  }

  lemma FourBits(w: seq<bool>, i: nat)
    requires i + 4 <= |w|
    ensures BitsToNat(w[i..]) == (if w[i] then 1 else 0) + (if w[i + 1] then 2 else 0) + (if w[i + 2] then 4 else 0)
                                 + (if w[i + 3] then 8 else 0) + 16 * BitsToNat(w[i + 4..])
  {
    OneBit(w, i);
    OneBit(w, i + 1);
    OneBit(w, i + 2);
    OneBit(w, i + 3);
  }

  lemma NumberOfTestValue(w: seq<bool>)
    requires IsTestValue(w)
    ensures BitsToNat(w) == 0xdcbc_59fa
  {
    assert w[0..] == w && w[32..] == [];
    FourBits(w, 28);
    FourBits(w, 24);
    FourBits(w, 20);
    FourBits(w, 16);
    FourBits(w, 12);
    FourBits(w, 8);
    FourBits(w, 4);
    FourBits(w, 0);
  }

  /** The checksum that CanAccelerateCRC32C expects of its buffer. */
  lemma TestBufferValue()
    ensures Number(ValueOf(TEST)) == 0xdcbc_59fa
  {
    TestBufferHolds();
    TestValueBits(ValueOf(TEST));
    NumberOfTestValue(ValueOf(TEST));
  }
}
