/**
 What the checksum sees: a byte is eight steps of polynomial division, no step loses anything, and so two buffers of
 one length that differ in one byte, or only within four bytes in a row, have different checksums.
 */
module CrcDetection {
  import opened Coding
  import opened Crc32c
  import opened Keys
  import opened Linear

  // ---------------------------------------------------------------- a byte is eight bits

  /** What is above the lowest n bits. */
  function Above(w: Word, n: nat): Word {
    seq(32, i requires 0 <= i < 32 => n <= i && w[i])
  }

  lemma {:induction false} HighBitsMoveDown(w: Word, n: nat)
    requires n <= 8
    ensures Iterate<Word>(BitStep, Above(w, 8), n) == ShiftRight(Above(w, 8), n)
  {
    if n > 0 {
      HighBitsMoveDown(w, n - 1);
      var r := ShiftRight(Above(w, 8), n - 1);
      assert !r[0];
      assert ShiftRight(r, 1) == ShiftRight(Above(w, 8), n);
    } else {
      assert ShiftRight(Above(w, 8), 0) == Above(w, 8);
    }
  }

  /** The table lookup of one byte does what eight single bits do. */
  lemma ZeroByteIsEightBits(w: Word)
    ensures ZeroByte(w) == Iterate<Word>(BitStep, w, 8)
  {
    var low, high := LowByte(w), Above(w, 8);
    SplitByte(w);
    assert Iterate<Word>(BitStep, Xor(low, high), 8)
        == Xor(Iterate<Word>(BitStep, low, 8), Iterate<Word>(BitStep, high, 8)) by {
      BitStepIsLinear();
      IterateIsLinear<Word>(Xor, BitStep, low, high, 8);
    }
    HighBitsMoveDown(w, 8);
    XorLaws(ShiftRight(w, 8), ByteTable(low));
  }

  lemma SplitByte(w: Word)
    ensures Xor(LowByte(w), Above(w, 8)) == w && ShiftRight(Above(w, 8), 8) == ShiftRight(w, 8)
  {
  }

  // ---------------------------------------------------------------- no step loses anything

  /** The bit shifted out comes back as the highest bit, because the polynomial has it set. */
  lemma BitStepIsInjective(a: Word, b: Word)
    requires BitStep(a) == BitStep(b)
    ensures a == b
  {
    assert BitStep(a)[31] == a[0] && BitStep(b)[31] == b[0];
    forall i | 0 < i < 32
      ensures a[i] == b[i]
    {
      assert BitStep(a)[i - 1] == (a[i] != (a[0] && POLYNOMIAL[i - 1]));
      assert BitStep(b)[i - 1] == (b[i] != (b[0] && POLYNOMIAL[i - 1]));
    }
  }

  lemma ZeroByteIsInjective(a: Word, b: Word)
    requires ZeroByte(a) == ZeroByte(b)
    ensures a == b
  {
    ZeroByteIsEightBits(a);
    ZeroByteIsEightBits(b);
    forall x: Word, y: Word | BitStep(x) == BitStep(y)
      ensures x == y
    {
      BitStepIsInjective(x, y);
    }
    IterateIsInjective<Word>(BitStep, a, b, 8);
  }

  lemma ZeroWordIsInjective(a: Word, b: Word)
    requires ZeroWord(a) == ZeroWord(b)
    ensures a == b
  {
    forall x: Word, y: Word | ZeroByte(x) == ZeroByte(y)
      ensures x == y
    {
      ZeroByteIsInjective(x, y);
    }
    IterateIsInjective<Word>(ZeroByte, a, b, 4);
  }

  lemma XorIsInjective(a: Word, b: Word, c: Word)
    requires Xor(a, c) == Xor(b, c)
    ensures a == b
  {
    forall i | 0 <= i < 32
      ensures a[i] == b[i]
    {
      assert Xor(a, c)[i] == Xor(b, c)[i];
    }
  }

  /** The same bytes keep different registers different. */
  lemma {:induction false} FeedIsInjective(a: Word, b: Word, data: seq<Byte>)
    requires Feed(a, data) == Feed(b, data)
    ensures a == b
  {
    if data != [] {
      var init, last := data[..|data| - 1], FromByte(data[|data| - 1]);
      ZeroByteIsInjective(Xor(Feed(a, init), last), Xor(Feed(b, init), last));
      XorIsInjective(Feed(a, init), Feed(b, init), last);
      FeedIsInjective(a, b, init);
    }
  }

  lemma Halves(b: Byte)
    ensures b / 128 == b / 64 / 2 && b / 64 == b / 32 / 2 && b / 32 == b / 16 / 2 && b / 16 == b / 8 / 2
    ensures b / 8 == b / 4 / 2 && b / 4 == b / 2 / 2 && b / 128 <= 1
  {
  }

  /** One bit more of what two bytes share from the top. */
  lemma OneBitMore(a: Byte, b: Byte)
    requires a / 2 == b / 2 && (a % 2 == 1 <==> b % 2 == 1)
    ensures a == b
  {
  }

  lemma FromByteIsInjective(a: Byte, b: Byte)
    requires FromByte(a) == FromByte(b)
    ensures a == b
  {
    var x, y := FromByte(a), FromByte(b);
    assert x[0] == y[0] && x[1] == y[1] && x[2] == y[2] && x[3] == y[3];
    assert x[4] == y[4] && x[5] == y[5] && x[6] == y[6] && x[7] == y[7];
    Halves(a);
    Halves(b);
    OneBitMore(a / 64, b / 64);
    OneBitMore(a / 32, b / 32);
    OneBitMore(a / 16, b / 16);
    OneBitMore(a / 8, b / 8);
    OneBitMore(a / 4, b / 4);
    OneBitMore(a / 2, b / 2);
    OneBitMore(a, b);
  }

  // ---------------------------------------------------------------- damage is seen

  lemma ExtendBytewiseAgrees(crc: Word, a: seq<Byte>, b: seq<Byte>)
    ensures ExtendBytewise(crc, a) == ExtendBytewise(crc, b) <==> Feed(Xor(crc, ONES), a) == Feed(Xor(crc, ONES), b)
  {
    if ExtendBytewise(crc, a) == ExtendBytewise(crc, b) {
      XorIsInjective(Feed(Xor(crc, ONES), a), Feed(Xor(crc, ONES), b), ONES);
    }
  }

  /** Two buffers that differ in exactly one byte have different checksums, from any checksum on. */
  lemma OneByteIsSeen(crc: Word, front: seq<Byte>, x: Byte, y: Byte, back: seq<Byte>)
    requires x != y
    ensures ExtendBytewise(crc, front + [x] + back) != ExtendBytewise(crc, front + [y] + back)
  {
    var l := Xor(crc, ONES);
    var r := Feed(l, front);
    ExtendBytewiseAgrees(crc, front + [x] + back, front + [y] + back);
    FeedAppends<Word, Byte>(Xor, ZeroByte, FromByte, l, front + [x], back);
    FeedAppends<Word, Byte>(Xor, ZeroByte, FromByte, l, front + [y], back);
    if Feed(l, front + [x] + back) == Feed(l, front + [y] + back) {
      FeedIsInjective(Feed(l, front + [x]), Feed(l, front + [y]), back);
      assert (front + [x])[..|front|] == front && (front + [y])[..|front|] == front;
      ZeroByteIsInjective(Xor(r, FromByte(x)), Xor(r, FromByte(y)));
      XorLaws(r, FromByte(x));
      XorLaws(r, FromByte(y));
      XorIsInjective(FromByte(x), FromByte(y), r);
      FromByteIsInjective(x, y);
    }
  }

  /** Four bytes put together into a word are its parts. */
  lemma PartsOfWord(b0: Word, b1: Word, b2: Word, b3: Word)
    requires IsByte(b0) && IsByte(b1) && IsByte(b2) && IsByte(b3)
    ensures var w := Xor(Xor(Xor(b0, ShiftLeft(b1, 8)), ShiftLeft(b2, 16)), ShiftLeft(b3, 24));
            && LowByte(w) == b0 && LowByte(ShiftRight(w, 8)) == b1
            && LowByte(ShiftRight(w, 16)) == b2 && LowByte(ShiftRight(w, 24)) == b3
  {
  }

  lemma PartsOfUint32(data: seq<Byte>, p: nat)
    requires p + 4 <= |data|
    ensures var w := ReadUint32LE(data, p);
            && LowByte(w) == FromByte(data[p]) && LowByte(ShiftRight(w, 8)) == FromByte(data[p + 1])
            && LowByte(ShiftRight(w, 16)) == FromByte(data[p + 2])
            && LowByte(ShiftRight(w, 24)) == FromByte(data[p + 3])
  {
    FromByteIsByte(data[p]);
    FromByteIsByte(data[p + 1]);
    FromByteIsByte(data[p + 2]);
    FromByteIsByte(data[p + 3]);
    PartsOfWord(FromByte(data[p]), FromByte(data[p + 1]), FromByte(data[p + 2]), FromByte(data[p + 3]));
  }

  lemma ReadUint32IsInjective(a: seq<Byte>, b: seq<Byte>, p: nat)
    requires p + 4 <= |a| && p + 4 <= |b| && ReadUint32LE(a, p) == ReadUint32LE(b, p)
    ensures a[p] == b[p] && a[p + 1] == b[p + 1] && a[p + 2] == b[p + 2] && a[p + 3] == b[p + 3]
  {
    PartsOfUint32(a, p);
    PartsOfUint32(b, p);
    FromByteIsInjective(a[p], b[p]);
    FromByteIsInjective(a[p + 1], b[p + 1]);
    FromByteIsInjective(a[p + 2], b[p + 2]);
    FromByteIsInjective(a[p + 3], b[p + 3]);
  }

  lemma ZeroWordsAgree(u: Word, v: Word, r: Word)
    requires ZeroWord(Xor(u, r)) == ZeroWord(Xor(v, r))
    ensures u == v
  {
    ZeroWordIsInjective(Xor(u, r), Xor(v, r));
    XorIsInjective(u, v, r);
  }

  /** Different words leave the register different. */
  lemma WordIsSeen(l: Word, a: seq<Byte>, b: seq<Byte>, p: nat)
    requires |a| == |b| == p + 4 && a[..p] == b[..p] && Feed(l, a[..p + 4]) == Feed(l, b[..p + 4])
    ensures a[p] == b[p] && a[p + 1] == b[p + 1] && a[p + 2] == b[p + 2] && a[p + 3] == b[p + 3]
  {
    WordFeedsFourBytes(l, a, p);
    WordFeedsFourBytes(l, b, p);
    ZeroWordsAgree(ReadUint32LE(a, p), ReadUint32LE(b, p), Feed(l, a[..p]));
    ReadUint32IsInjective(a, b, p);
  }

  lemma LastFour(front: seq<Byte>, x: seq<Byte>, p: nat)
    requires |x| == 4 && p == |front|
    ensures var a := front + x;
            && |a| == p + 4 && a[..p] == front && a[..p + 4] == a
            && x == [a[p], a[p + 1], a[p + 2], a[p + 3]]
  {
  }

  /** So do two buffers that differ only within four bytes in a row: a burst of up to thirty-two bits. */
  lemma BurstIsSeen(crc: Word, front: seq<Byte>, x: seq<Byte>, y: seq<Byte>, back: seq<Byte>)
    requires |x| == |y| == 4 && x != y
    ensures ExtendBytewise(crc, front + x + back) != ExtendBytewise(crc, front + y + back)
  {
    var l := Xor(crc, ONES);
    ExtendBytewiseAgrees(crc, front + x + back, front + y + back);
    FeedAppends<Word, Byte>(Xor, ZeroByte, FromByte, l, front + x, back);
    FeedAppends<Word, Byte>(Xor, ZeroByte, FromByte, l, front + y, back);
    if Feed(l, front + x + back) == Feed(l, front + y + back) {
      FeedIsInjective(Feed(l, front + x), Feed(l, front + y), back);
      LastFour(front, x, |front|);
      LastFour(front, y, |front|);
      WordIsSeen(l, front + x, front + y, |front|);
    }
  }
}
