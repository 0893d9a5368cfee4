/**
 CRC32C: the four-stride loop of Extend against the byte-at-a-time definition. A register is its 32 bits, least
 significant first. The lookup tables enter by their defining equations: the byte table advances a byte by eight
 bits, and the stride tables advance one byte of a word by sixteen zero bytes.
 */
module Crc32c {
  import opened Coding
  import opened Keys
  import opened Linear
  import opened PowersOfTwo

  type Word = w: seq<bool> | |w| == 32 witness seq(32, _ => false)

  /** A byte held in a word: only the low eight bits may be set. */
  predicate IsByte(w: Word) {
    forall i | 8 <= i < 32 :: !w[i]
  }

  function Repeated(b: bool): Word {
    seq(32, i => b)
  }

  const ZERO: Word := Repeated(false)

  const MASK_DELTA: nat := 0xa282_ead8

  /** 0xffffffff */
  const ONES: Word := Repeated(true)

  /** 0x82f63b78: the Castagnoli polynomial, reflected. */
  const POLYNOMIAL: Word :=
    [false, false, false, true, true, true, true, false, true, true, false, true, true, true, false, false,
     false, true, true, false, true, true, true, true, false, true, false, false, false, false, false, true]

  function Xor(a: Word, b: Word): Word {
    seq(32, i requires 0 <= i < 32 => a[i] != b[i])
  }

  /** w >> n */
  function ShiftRight(w: Word, n: nat): Word
    requires n <= 32
  {
    seq(32, i requires 0 <= i < 32 => i + n < 32 && w[i + n])
  }

  /** w << n */
  function ShiftLeft(w: Word, n: nat): Word
    requires n <= 32
  {
    seq(32, i requires 0 <= i < 32 => n <= i && w[i - n])
  }

  /** w & 0xff */
  function LowByte(w: Word): Word {
    seq(32, i requires 0 <= i < 32 => i < 8 && w[i])
  }

  function FromByte(b: Byte): Word {
    [b % 2 == 1, b / 2 % 2 == 1, b / 4 % 2 == 1, b / 8 % 2 == 1,
     b / 16 % 2 == 1, b / 32 % 2 == 1, b / 64 % 2 == 1, b / 128 == 1]
    + seq(24, _ => false)
  }

  // ---------------------------------------------------------------- the definition

  /** One bit of polynomial division. */
  function BitStep(w: Word): Word {
    if w[0] then Xor(ShiftRight(w, 1), POLYNOMIAL) else ShiftRight(w, 1)
  }

  /** kByteExtensionTable. */
  function ByteTable(c: Word): Word {
    Iterate<Word>(BitStep, c, 8)
  }

  /** Advances the register by one zero byte. */
  function ZeroByte(w: Word): Word {
    Xor(ShiftRight(w, 8), ByteTable(LowByte(w)))
  }

  function ZeroWord(w: Word): Word {
    Iterate<Word>(ZeroByte, w, 4)
  }

  /** Feeds bytes to the register, one at a time. */
  function Feed(l: Word, data: seq<Byte>): Word {
    Fed<Word, Byte>(Xor, ZeroByte, FromByte, l, data)
  }

  /** The CRC of A + data, where crc is the CRC of A. */
  function ExtendBytewise(crc: Word, data: seq<Byte>): Word {
    Xor(Feed(Xor(crc, ONES), data), ONES)
  }

  /** The CRC of data by itself. */
  function ValueOf(data: seq<Byte>): Word {
    ExtendBytewise(ZERO, data)
  }

  /** kStrideExtensionTable3 takes the lowest byte of a word, kStrideExtensionTable0 the highest. */
  function StrideTable(shift: nat, c: Word): Word
    requires shift <= 24
  {
    Iterate<Word>(ZeroByte, ShiftLeft(c, shift), 16)
  }

  function ReadUint32LE(data: seq<Byte>, p: nat): Word
    requires p + 4 <= |data|
  {
    Xor(Xor(Xor(FromByte(data[p]), ShiftLeft(FromByte(data[p + 1]), 8)), ShiftLeft(FromByte(data[p + 2]), 16)),
        ShiftLeft(FromByte(data[p + 3]), 24))
  }

  // ---------------------------------------------------------------- advancing is linear

  lemma XorAssociates(a: Word, b: Word, c: Word)
    ensures Xor(Xor(a, b), c) == Xor(a, Xor(b, c))
  {
  }

  lemma XorLaws(a: Word, b: Word)
    ensures Xor(a, b) == Xor(b, a)
    ensures Xor(a, ZERO) == a && Xor(a, a) == ZERO
  {
  }

  lemma XorIsXor()
    ensures IsXor<Word>(Xor, ZERO)
  {
    forall a: Word, b: Word, c: Word {:trigger Xor(Xor(a, b), c)}
      ensures Xor(Xor(a, b), c) == Xor(a, Xor(b, c))
    {
      XorAssociates(a, b, c);
    }
    forall a: Word, b: Word
      ensures Xor(a, b) == Xor(b, a)
      ensures Xor(a, ZERO) == a && Xor(a, a) == ZERO
    {
      XorLaws(a, b);
    }
  }

  lemma ShiftOfXor(a: Word, b: Word, n: nat)
    requires n <= 32
    ensures ShiftRight(Xor(a, b), n) == Xor(ShiftRight(a, n), ShiftRight(b, n))
    ensures LowByte(Xor(a, b)) == Xor(LowByte(a), LowByte(b))
  {
  }

  lemma BitStepOfXor(a: Word, b: Word)
    ensures BitStep(Xor(a, b)) == Xor(BitStep(a), BitStep(b))
  {
    ShiftOfXor(a, b, 1);
  }

  lemma BitStepIsLinear()
    ensures IsLinear<Word>(Xor, BitStep)
  {
    forall a: Word, b: Word
      ensures BitStep(Xor(a, b)) == Xor(BitStep(a), BitStep(b))
    {
      BitStepOfXor(a, b);
    }
  }

  lemma ByteTableOfXor(a: Word, b: Word)
    ensures ByteTable(Xor(a, b)) == Xor(ByteTable(a), ByteTable(b))
  {
    BitStepIsLinear();
    IterateIsLinear<Word>(Xor, BitStep, a, b, 8);
  }

  lemma ZeroByteOfXor(a: Word, b: Word)
    ensures ZeroByte(Xor(a, b)) == Xor(ZeroByte(a), ZeroByte(b))
  {
    ShiftOfXor(a, b, 8);
    ByteTableOfXor(LowByte(a), LowByte(b));
    XorIsXor();
    Swap<Word>(Xor, ZERO, ShiftRight(a, 8), ShiftRight(b, 8), ByteTable(LowByte(a)), ByteTable(LowByte(b)));
  }

  lemma ZeroByteIsLinear()
    ensures IsLinear<Word>(Xor, ZeroByte)
  {
    forall a: Word, b: Word
      ensures ZeroByte(Xor(a, b)) == Xor(ZeroByte(a), ZeroByte(b))
    {
      ZeroByteOfXor(a, b);
    }
  }

  lemma ZeroWordIsLinear()
    ensures IsLinear<Word>(Xor, ZeroWord)
  {
    forall a: Word, b: Word
      ensures ZeroWord(Xor(a, b)) == Xor(ZeroWord(a), ZeroWord(b))
    {
      ZeroByteIsLinear();
      IterateIsLinear<Word>(Xor, ZeroByte, a, b, 4);
    }
  }

  // ---------------------------------------------------------------- one byte, four bytes

  lemma ByteTableOfZero()
    ensures ByteTable(ZERO) == ZERO
  {
    ByteTableOfXor(ZERO, ZERO);
    XorLaws(ZERO, ZERO);
    XorLaws(ByteTable(ZERO), ZERO);
  }

  lemma ShiftedByteIsAbove(b: Word, n: nat)
    requires IsByte(b) && n <= 16
    ensures LowByte(ShiftLeft(b, n + 8)) == ZERO
  {
  }

  lemma ShiftsMeet(b: Word, n: nat)
    requires IsByte(b) && n <= 16
    ensures ShiftRight(ShiftLeft(b, n + 8), 8) == ShiftLeft(b, n)
  {
  }

  /** A byte moves down the register unchanged until it reaches the lowest place. */
  lemma ShiftedByteMovesDown(b: Word, n: nat)
    requires IsByte(b) && n <= 16
    ensures ZeroByte(ShiftLeft(b, n + 8)) == ShiftLeft(b, n)
  {
    ByteTableOfZero();
    ShiftedByteIsAbove(b, n);
    ShiftsMeet(b, n);
    XorLaws(ShiftLeft(b, n), ZERO);
  }

  lemma FromByteIsByte(b: Byte)
    ensures IsByte(FromByte(b))
    ensures ShiftLeft(FromByte(b), 0) == FromByte(b)
  {
  }

  /** The table-driven byte step feeds one byte. */
  lemma TableStepFeeds(l: Word, b: Word)
    requires IsByte(b)
    ensures Xor(ByteTable(Xor(LowByte(l), b)), ShiftRight(l, 8)) == ZeroByte(Xor(l, b))
  {
    assert LowByte(Xor(l, b)) == Xor(LowByte(l), b);
    assert ShiftRight(Xor(l, b), 8) == ShiftRight(l, 8);
    XorLaws(ByteTable(Xor(LowByte(l), b)), ShiftRight(l, 8));
  }

  lemma ByteOneDown(b: Word)
    requires IsByte(b)
    ensures ZeroByte(ShiftLeft(b, 8)) == b
  {
    ShiftedByteMovesDown(b, 0);
    assert ShiftLeft(b, 0) == b;
  }

  lemma ByteTwoDown(b: Word)
    requires IsByte(b)
    ensures ZeroByte(ZeroByte(ShiftLeft(b, 16))) == b
  {
    ShiftedByteMovesDown(b, 8);
    ByteOneDown(b);
  }

  lemma ByteThreeDown(b: Word)
    requires IsByte(b)
    ensures ZeroByte(ZeroByte(ZeroByte(ShiftLeft(b, 24)))) == b
  {
    ShiftedByteMovesDown(b, 16);
    ByteTwoDown(b);
  }

  /** Feeding a little-endian word is feeding its four bytes. */
  lemma WordFeedsFourBytes(l: Word, data: seq<Byte>, p: nat)
    requires p + 4 <= |data|
    ensures Feed(l, data[..p + 4]) == ZeroWord(Xor(ReadUint32LE(data, p), Feed(l, data[..p])))
  {
    var b1, b2, b3 := FromByte(data[p + 1]), FromByte(data[p + 2]), FromByte(data[p + 3]);
    XorIsXor();
    ZeroByteIsLinear();
    FromByteIsByte(data[p + 1]);
    FromByteIsByte(data[p + 2]);
    FromByteIsByte(data[p + 3]);
    ByteOneDown(b1);
    ByteTwoDown(b2);
    ByteThreeDown(b3);
    FeedFour<Word, Byte>(Xor, ZERO, ZeroByte, FromByte, l, data, p,
                         ShiftLeft(b1, 8), ShiftLeft(b2, 16), ShiftLeft(b3, 24));
  }

  // ---------------------------------------------------------------- strides

  lemma BytesOfWord(c: Word)
    ensures c == Xor(Xor(Xor(LowByte(c), ShiftLeft(LowByte(ShiftRight(c, 8)), 8)),
                         ShiftLeft(LowByte(ShiftRight(c, 16)), 16)), ShiftLeft(ShiftRight(c, 24), 24))
    ensures ShiftLeft(LowByte(c), 0) == LowByte(c)
  {
  }

  /** What STEP4 computes: the next word, and the partial result advanced past sixteen bytes. */
  function StrideStep(c: Word, w: Word): Word {
    Xor(Xor(Xor(Xor(w, StrideTable(0, LowByte(c))), StrideTable(8, LowByte(ShiftRight(c, 8)))),
            StrideTable(16, LowByte(ShiftRight(c, 16)))), StrideTable(24, ShiftRight(c, 24)))
  }

  lemma TablesAdvanceParts(c: Word, w: Word)
    ensures StrideStep(c, w) == Xor(w, Iterate<Word>(ZeroByte, c, 16))
  {
    assert IsXor<Word>(Xor, ZERO) by { XorIsXor(); }
    assert IsLinear<Word>(Xor, ZeroByte) by { ZeroByteIsLinear(); }
    BytesOfWord(c);
    PartsAdvance<Word>(Xor, ZERO, ZeroByte, 16, w, LowByte(c), ShiftLeft(LowByte(ShiftRight(c, 8)), 8),
                 ShiftLeft(LowByte(ShiftRight(c, 16)), 16), ShiftLeft(ShiftRight(c, 24), 24));
  }

  /** The four stride tables together advance a partial result by four words. */
  lemma StrideTablesAdvance(c: Word, w: Word)
    ensures StrideStep(c, w) == Xor(w, ZeroWord(ZeroWord(ZeroWord(ZeroWord(c)))))
  {
    TablesAdvanceParts(c, w);
    FourFours<Word>(ZeroByte, ZeroWord, c);
  }

  lemma StrideStepIsStride()
    ensures IsStride<Word>(Xor, ZeroWord, StrideStep)
  {
    forall c: Word, w: Word
      ensures StrideStep(c, w) == Xor(w, ZeroWord(ZeroWord(ZeroWord(ZeroWord(c)))))
    {
      StrideTablesAdvance(c, w);
    }
  }

  lemma WordsFeed(l: Word, data: seq<Byte>, read: nat -> Word, fed: nat -> Word, p: nat)
    requires forall p: nat | p + 4 <= |data| :: read(p) == ReadUint32LE(data, p)
    requires forall p: nat | p <= |data| :: fed(p) == Feed(l, data[..p])
    requires p + 16 <= |data|
    ensures StepsFeed<Word>(Xor, ZeroWord, read, StrideStep, fed, |data|)
    ensures Combined<Word>(Xor, ZeroWord, Xor(read(p), fed(p)), read(p + 4), read(p + 8), read(p + 12)) == fed(p + 16)
  {
    forall p: nat {:trigger read(p)} | p + 4 <= |data|
      ensures fed(p + 4) == ZeroWord(Xor(read(p), fed(p)))
    {
      WordFeedsFourBytes(l, data, p);
    }
    LoadFeeds<Word>(Xor, ZeroWord, read, fed, |data|, p);
    XorIsXor();
    ZeroWordIsLinear();
    StrideStepIsStride();
    StridesFeed<Word>(Xor, ZERO, ZeroWord, read, StrideStep, fed, |data|);
  }

  /** STEP4W: folds a word into the register. */
  method FoldWord(c: Word, l: Word) returns (r: Word)
    ensures r == ZeroWord(Xor(c, l))
  {
    r := Xor(c, l);
    for i := 0 to 4
      invariant r == Iterate<Word>(ZeroByte, Xor(c, l), i)
    {
      r := Xor(ShiftRight(r, 8), ByteTable(LowByte(r)));
    }
  }

  /** STEP1: one byte through the byte table. */
  method Step1(l: Word, data: seq<Byte>, p: nat, ghost l0: Word) returns (r: Word)
    requires p < |data|
    requires l == Feed(l0, data[..p])
    ensures r == Feed(l0, data[..p + 1])
  {
    var c := Xor(LowByte(l), FromByte(data[p]));
    r := Xor(ByteTable(c), ShiftRight(l, 8));
    FromByteIsByte(data[p]);
    TableStepFeeds(l, FromByte(data[p]));
    FeedOne<Word, Byte>(Xor, ZeroByte, FromByte, l0, data, p);
  }

  /** The combination of the four partial results, oldest first. */
  method Fold(c0: Word, c1: Word, c2: Word, c3: Word) returns (l: Word)
    ensures l == Combined<Word>(Xor, ZeroWord, c0, c1, c2, c3)
  {
    l := ZERO;
    XorLaws(c0, l);
    l := FoldWord(c0, l);
    l := FoldWord(c1, l);
    l := FoldWord(c2, l);
    l := FoldWord(c3, l);
  }

  /** STEP1 until q. */
  method Step1Until(data: seq<Byte>, p: nat, q: nat, l: Word, ghost l0: Word) returns (r: Word)
    requires p <= q <= |data|
    requires l == Feed(l0, data[..p])
    ensures r == Feed(l0, data[..q])
  {
    r := l;
    for i := p to q
      invariant r == Feed(l0, data[..i])
    {
      r := Step1(r, data, i, l0);
    }
  }

  /** The four interleaved strides: sixteen bytes at a time, then four, leaving at most three. */
  method StrideUntilShort(data: seq<Byte>, start: nat, l: Word, ghost l0: Word) returns (r: Word, p: nat)
    requires start + 16 <= |data|
    requires l == Feed(l0, data[..start])
    ensures p <= |data| < p + 4
    ensures r == Feed(l0, data[..p])
  {
    var read := (q: nat) => if q + 4 <= |data| then ReadUint32LE(data, q) else ZERO;
    ghost var fed := (q: nat) => if q <= |data| then Feed(l0, data[..q]) else ZERO;
    WordsFeed(l0, data, read, fed, start);
    var crc0 := Xor(read(start + 0 * 4), l);
    var crc1 := read(start + 1 * 4);
    var crc2 := read(start + 2 * 4);
    var crc3 := read(start + 3 * 4);
    crc0, crc1, crc2, crc3, p :=
      Stride<Word>(Xor, ZeroWord, read, StrideStep, fed, |data|, start + 16, crc0, crc1, crc2, crc3);
    r := Fold(crc0, crc1, crc2, crc3);
  }

  /** Extend, for a buffer that starts at any address: the same as feeding it byte by byte. */
  method Extend(crc: Word, data: seq<Byte>, address: nat) returns (r: Word)
    ensures r == ExtendBytewise(crc, data)
  {
    var p, e := 0, |data|;
    var l := Xor(crc, ONES);
    ghost var l0 := l;
    var x := (address + 3) / 4 * 4 - address;
    if x <= e {
      l := Step1Until(data, p, x, l, l0);
      p := x;
    }
    if e - p >= 16 {
      l, p := StrideUntilShort(data, p, l, l0);
    }
    l := Step1Until(data, p, e, l, l0);
    assert data[..e] == data;
    r := Xor(l, ONES);
  }

  /** The CRC of a concatenation is the CRC of the second part started from the CRC of the first. */
  lemma ExtendConcat(crc: Word, a: seq<Byte>, b: seq<Byte>)
    ensures ExtendBytewise(ExtendBytewise(crc, a), b) == ExtendBytewise(crc, a + b)
  {
    var l := Feed(Xor(crc, ONES), a);
    XorAssociates(l, ONES, ONES);
    XorLaws(ONES, ONES);
    XorLaws(l, ONES);
    FeedAppends<Word, Byte>(Xor, ZeroByte, FromByte, Xor(crc, ONES), a, b);
  }

  // ---------------------------------------------------------------- masked CRCs

  function BitsToNat(bits: seq<bool>): nat {
    if bits == [] then 0 else (if bits[0] then 1 else 0) + 2 * BitsToNat(bits[1..])
  }

  lemma {:induction false} BitsFit(bits: seq<bool>)
    ensures BitsToNat(bits) < Power2(|bits|)
  {
    if bits != [] {
      BitsFit(bits[1..]);
    }
  }

  lemma Power32()
    ensures Power2(32) == TWO_32
  {
    SmallPowers();
    PowersMultiply(8, 8);
    PowersMultiply(16, 16);
  }

  /** A register as the number it stands for. */
  function Number(w: Word): Uint32 {
    BitsFit(w);
    Power32();
    BitsToNat(w)
  }

  function RotateRight15(v: Uint32): Uint32 {
    v / 0x8000 + v % 0x8000 * 0x2_0000
  }

  function RotateLeft15(v: Uint32): Uint32 {
    v / 0x2_0000 + v % 0x2_0000 * 0x8000
  }

  lemma RotationsUndo(hi: nat, lo: nat)
    requires hi < 0x2_0000 && lo < 0x8000
    ensures RotateRight15(hi * 0x8000 + lo) == lo * 0x2_0000 + hi
    ensures RotateLeft15(lo * 0x2_0000 + hi) == hi * 0x8000 + lo
  {
  }

  /** Rotate right by fifteen bits and add a constant, modulo 2^32. */
  function Mask(crc: Uint32): Uint32 {
    PlusDelta(RotateRight15(crc))
  }

  function Unmask(masked: Uint32): Uint32 {
    RotateLeft15(MinusDelta(masked))
  }

  function PlusDelta(v: Uint32): Uint32 {
    (v + MASK_DELTA) % TWO_32
  }

  function MinusDelta(v: Uint32): Uint32 {
    (v + TWO_32 - MASK_DELTA) % TWO_32
  }

  lemma RotateRoundTrip(v: Uint32)
    ensures RotateLeft15(RotateRight15(v)) == v
    ensures RotateRight15(RotateLeft15(v)) == v
  {
    RotationsUndo(v / 0x8000, v % 0x8000);
    RotationsUndo(v % 0x2_0000, v / 0x2_0000);
  }

  lemma AddThenSubtract(a: nat, d: nat, m: nat)
    requires a < m && d < m
    ensures ((a + d) % m + m - d) % m == a
    ensures ((a + m - d) % m + d) % m == a
  {
    if a + d < m {
      Remainder(0, a + d, m);
      Remainder(1, a, m);
    } else {
      Remainder(1, a + d - m, m);
      Remainder(0, a, m);
    }
    if a < d {
      Remainder(0, a + m - d, m);
      Remainder(1, a, m);
    } else {
      Remainder(1, a - d, m);
      Remainder(0, a, m);
    }
  }

  lemma Remainder(q: nat, r: nat, m: nat)
    requires r < m && q <= 1
    ensures (q * m + r) % m == r
  {
    if q == 0 {
      assert r % m == r;
    }
  }

  lemma DeltaRoundTrip(v: Uint32)
    ensures MinusDelta(PlusDelta(v)) == v
    ensures PlusDelta(MinusDelta(v)) == v
  {
    AddThenSubtract(v, MASK_DELTA, TWO_32);
  }

  /** The low fifteen bits go to the top, and the constant is added. */
  lemma MaskIs(hi: nat, lo: nat)
    requires hi < 0x2_0000 && lo < 0x8000
    ensures Mask(hi * 0x8000 + lo) == (lo * 0x2_0000 + hi + 0xa282_ead8) % TWO_32
  {
    RotationsUndo(hi, lo);
  }

  lemma UnmaskUndoesMask(crc: Uint32)
    ensures Unmask(Mask(crc)) == crc
  {
    var v := RotateRight15(crc);
    assert MinusDelta(PlusDelta(v)) == v by { DeltaRoundTrip(v); }
    assert RotateLeft15(v) == crc by { RotateRoundTrip(crc); }
  }
}
