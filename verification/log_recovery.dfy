/**
 What a reader finds in a log that a writer was killed on: every prefix of a log file gives back, in order and with
 nothing reported, exactly the records that lie wholly inside the prefix.
 */
module LogRecovery {
  import opened Coding
  import opened Crc32c
  import opened Keys
  import opened LogFormat
  import opened LogReader
  import opened LogWriter
  import opened Reads
  import Slices

  // ---------------------------------------------------------------- a file that is cut somewhere

  ghost predicate Agrees(file: seq<Byte>, p: nat, bytes: seq<Byte>, i: int) {
    0 <= i < |bytes| && p + i < |file| ==> file[p + i] == bytes[i]
  }

  /** From p on, the file goes on with these bytes, as far as it goes. */
  ghost predicate Continues(file: seq<Byte>, p: nat, bytes: seq<Byte>) {
    p <= |file| && forall i :: Agrees(file, p, bytes, i)
  }

  lemma ContinuesSplits(file: seq<Byte>, p: nat, a: seq<Byte>, b: seq<Byte>)
    requires Continues(file, p, a + b)
    ensures Continues(file, p, a)
    ensures p + |a| <= |file| ==> Continues(file, p + |a|, b)
  {
    forall i
      ensures Agrees(file, p, a, i)
    {
      assert Agrees(file, p, a + b, i);
    }
    forall i {:trigger Agrees(file, p + |a|, b, i)}
      ensures Agrees(file, p + |a|, b, i)
    {
      assert Agrees(file, p, a + b, |a| + i);
    }
  }

  /** What is left of the file is as much of these bytes as fits. */
  lemma ContinuesAsSlice(file: seq<Byte>, p: nat, bytes: seq<Byte>, e: nat)
    requires Continues(file, p, bytes)
    requires p <= e <= |file|
    ensures e <= p + |bytes| ==> file[p..e] == bytes[..e - p]
    ensures p + |bytes| <= e ==> bytes <= file[p..e]
  {
    forall i | 0 <= i < |bytes| && p + i < e
      ensures file[p..e][i] == bytes[i]
    {
      assert Agrees(file, p, bytes, i);
    }
  }

  // ---------------------------------------------------------------- physical records

  /** A record that lies wholly in the file, with its block's offset known, is read as it was written. */
  lemma WholeRecordIsRead(sum: Sum, c: Checking, file: seq<Byte>, p: nat, blocks: nat, kind: Byte, payload: seq<Byte>)
    requires Accepts(c.check, sum) && kind != ZERO_TYPE
    requires blocks * BLOCK_SIZE <= p && p + HEADER_SIZE + |payload| <= blocks * BLOCK_SIZE + BLOCK_SIZE
    requires Continues(file, p, PhysicalRecord(sum, kind, payload))
    requires p + HEADER_SIZE + |payload| <= |file|
    ensures ReadPhysicalAt(file, c, p) == Physical(kind as nat, payload, p + HEADER_SIZE + |payload|, [])
  {
    BlockEndIs(p, blocks);
    var e := if BlockEnd(p) <= |file| then BlockEnd(p) else |file|;
    ContinuesAsSlice(file, p, PhysicalRecord(sum, kind, payload), e);
    RecordParses(sum, c.check, kind, payload, file[p..e]);
  }

  /** A record that is cut off, in its header or in its payload, reads as the end of the file. */
  lemma CutRecordIsEnd(sum: Sum, c: Checking, file: seq<Byte>, p: nat, blocks: nat, kind: Byte, payload: seq<Byte>)
    requires blocks * BLOCK_SIZE <= p && p + HEADER_SIZE + |payload| <= blocks * BLOCK_SIZE + BLOCK_SIZE
    requires Continues(file, p, PhysicalRecord(sum, kind, payload))
    requires p + HEADER_SIZE + |payload| > |file|
    ensures ReadPhysicalAt(file, c, p) == Physical(EOF, [], |file|, [])
  {
    BlockEndIs(p, blocks);
    if |file| - p >= HEADER_SIZE {
      var buffer := file[p..];
      ContinuesAsSlice(file, p, PhysicalRecord(sum, kind, payload), |file|);
      HeaderParses(sum, kind, payload, buffer);
      assert file[p..|file|] == buffer;
    }
  }

  /** The end of a block where no header fits: skipped if the block is whole, the end of the file otherwise. */
  lemma TrailerIsSkipped(c: Checking, file: seq<Byte>, p: nat, blocks: nat)
    requires blocks * BLOCK_SIZE <= p < blocks * BLOCK_SIZE + BLOCK_SIZE < p + HEADER_SIZE
    requires p <= |file|
    ensures var e := blocks * BLOCK_SIZE + BLOCK_SIZE;
            ReadPhysicalAt(file, c, p)
            == if e <= |file| then ReadPhysicalAt(file, c, e) else Physical(EOF, [], |file|, [])
  {
    BlockEndIs(p, blocks);
  }

  // ---------------------------------------------------------------- logical records

  /** What reading must give for a record, or the rest of one, whose bytes go as far as end. */
  ghost predicate ReadAsWritten(file: seq<Byte>, end: nat, record: seq<Byte>, start: nat, r: Logical) {
    if end <= |file| then
      r == Logical(Some(record), start, end, [])
    else
      r == Logical(None, 0, |file|, [])
  }

  /** The last fragment. */
  lemma LastFragmentIsRead(sum: Sum, c: Checking, file: seq<Byte>, p: nat, blocks: nat, data: seq<Byte>, begin: bool,
                           partial: Partial)
    requires Accepts(c.check, sum)
    requires blocks * BLOCK_SIZE <= p && p + HEADER_SIZE + |data| <= blocks * BLOCK_SIZE + BLOCK_SIZE
    requires Continues(file, p, PhysicalRecord(sum, FragmentType(begin, true), data))
    requires partial.inside == !begin && (begin ==> partial.scratch == [])
    ensures ReadAsWritten(file, p + HEADER_SIZE + |data|, partial.scratch + data,
                          if begin then p else partial.start, ReadRecordAt(file, c, p, partial))
  {
    if p + HEADER_SIZE + |data| > |file| {
      CutRecordIsEnd(sum, c, file, p, blocks, FragmentType(begin, true), data);
    } else {
      WholeRecordIsRead(sum, c, file, p, blocks, FragmentType(begin, true), data);
      assert begin ==> partial.scratch + data == data;
    }
  }

  /** Reading from p; past the end of the file there is nothing. */
  ghost function ReadFrom(file: seq<Byte>, c: Checking, p: nat, partial: Partial): Logical {
    if p <= |file| then ReadRecordAt(file, c, p, partial) else Logical(None, 0, |file|, [])
  }

  function Gathered(partial: Partial, data: seq<Byte>, begin: bool, p: nat): Partial {
    Partial(true, partial.scratch + data, if begin then p else partial.start)
  }

  /** A fragment that is not the last: read into the scratch, and reading goes on behind it. */
  lemma FragmentIsGathered(sum: Sum, c: Checking, file: seq<Byte>, p: nat, blocks: nat, data: seq<Byte>, begin: bool,
                           partial: Partial)
    requires Accepts(c.check, sum)
    requires blocks * BLOCK_SIZE <= p && p + HEADER_SIZE + |data| <= blocks * BLOCK_SIZE + BLOCK_SIZE
    requires Continues(file, p, PhysicalRecord(sum, FragmentType(begin, false), data))
    requires partial.inside == !begin && (begin ==> partial.scratch == [])
    ensures ReadRecordAt(file, c, p, partial)
              == ReadFrom(file, c, p + HEADER_SIZE + |data|, Gathered(partial, data, begin, p))
  {
    if p + HEADER_SIZE + |data| > |file| {
      CutRecordIsEnd(sum, c, file, p, blocks, FragmentType(begin, false), data);
      EndEndsRecord(file, c, p, partial);
    } else {
      WholeRecordIsRead(sum, c, file, p, blocks, FragmentType(begin, false), data);
      GoesOn(file, c, p, data, begin, partial);
    }
  }

  /** The switch on a first or middle fragment. */
  lemma GoesOn(file: seq<Byte>, c: Checking, p: nat, data: seq<Byte>, begin: bool, partial: Partial)
    requires p + HEADER_SIZE + |data| <= |file|
    requires ReadPhysicalAt(file, c, p)
               == Physical(FragmentType(begin, false) as nat, data, p + HEADER_SIZE + |data|, [])
    requires partial.inside == !begin && (begin ==> partial.scratch == [])
    ensures ReadRecordAt(file, c, p, partial)
         == ReadRecordAt(file, c, p + HEADER_SIZE + |data|, Gathered(partial, data, begin, p))
  {
    assert begin ==> partial.scratch + data == data;
  }

  /** Everything after the trailer, if there is one. */
  function Body(sum: Sum, data: seq<Byte>, o: nat, begin: bool): seq<Byte>
    requires o + HEADER_SIZE <= BLOCK_SIZE
  {
    var n := FragmentLength(|data|, o);
    var rest := if n == |data| then [] else Fragments(sum, data[n..], o + HEADER_SIZE + n, false);
    PhysicalRecord(sum, FragmentType(begin, n == |data|), data[..n]) + rest
  }

  lemma {:induction false} BodyIsRead(sum: Sum, c: Checking, file: seq<Byte>, p: nat, blocks: nat, offset: nat,
                                      data: seq<Byte>, begin: bool, partial: Partial)
    requires Accepts(c.check, sum)
    requires p == blocks * BLOCK_SIZE + offset && offset + HEADER_SIZE <= BLOCK_SIZE
    requires Continues(file, p, Body(sum, data, offset, begin))
    requires partial.inside == !begin && (begin ==> partial.scratch == [])
    ensures ReadAsWritten(file, p + |Body(sum, data, offset, begin)|, partial.scratch + data,
                          if begin then p else partial.start, ReadRecordAt(file, c, p, partial))
    decreases |data|, if offset + HEADER_SIZE == BLOCK_SIZE then 1 else 0, 1
  {
    var n := FragmentLength(|data|, offset);
    BodyIs(sum, data, offset, begin);
    if n == |data| {
      LastFragmentIsRead(sum, c, file, p, blocks, data, begin, partial);
    } else {
      MoreIsRead(sum, c, file, p, blocks, offset, data, n, begin, partial,
                 Fragments(sum, data[n..], offset + HEADER_SIZE + n, false));
    }
  }

  /** A fragment that is not the last, and the rest of the record. */
  lemma {:induction false} MoreIsRead(sum: Sum, c: Checking, file: seq<Byte>, p: nat, blocks: nat, offset: nat,
                                      data: seq<Byte>, n: nat, begin: bool, partial: Partial, rest: seq<Byte>)
    requires Accepts(c.check, sum)
    requires p == blocks * BLOCK_SIZE + offset && offset + HEADER_SIZE <= BLOCK_SIZE
    requires n == FragmentLength(|data|, offset) < |data|
    requires rest == Fragments(sum, data[n..], offset + HEADER_SIZE + n, false)
    requires Continues(file, p, PhysicalRecord(sum, FragmentType(begin, false), data[..n]) + rest)
    requires partial.inside == !begin && (begin ==> partial.scratch == [])
    ensures ReadAsWritten(file, p + HEADER_SIZE + n + |rest|, partial.scratch + data,
                          if begin then p else partial.start, ReadRecordAt(file, c, p, partial))
    decreases |data|, if offset + HEADER_SIZE == BLOCK_SIZE then 1 else 0, 0
  {
    var next := Gathered(partial, data[..n], begin, p);
    ContinuesSplits(file, p, PhysicalRecord(sum, FragmentType(begin, false), data[..n]), rest);
    FragmentIsGathered(sum, c, file, p, blocks, data[..n], begin, partial);
    Regathered(partial, data, n, begin, p);
    RestIsRead(sum, c, file, p + HEADER_SIZE + n, blocks, offset + HEADER_SIZE + n, data[n..], next, rest,
               partial.scratch + data, ReadRecordAt(file, c, p, partial));
  }

  lemma Regathered(partial: Partial, data: seq<Byte>, n: nat, begin: bool, p: nat)
    requires n <= |data|
    ensures Gathered(partial, data[..n], begin, p).scratch + data[n..] == partial.scratch + data
  {
  }

  lemma {:induction false} RestIsRead(sum: Sum, c: Checking, file: seq<Byte>, p: nat, blocks: nat, offset: nat,
                                      data: seq<Byte>, partial: Partial, bytes: seq<Byte>, record: seq<Byte>,
                                      r: Logical)
    requires Accepts(c.check, sum)
    requires p == blocks * BLOCK_SIZE + offset && offset <= BLOCK_SIZE
    requires bytes == Fragments(sum, data, offset, false) && (p <= |file| ==> Continues(file, p, bytes))
    requires partial.inside && record == partial.scratch + data && r == ReadFrom(file, c, p, partial)
    ensures ReadAsWritten(file, p + |bytes|, record, partial.start, r)
    decreases |data|, if AfterTrailer(offset) + HEADER_SIZE == BLOCK_SIZE then 1 else 0, 3
  {
    if p <= |file| {
      FragmentsAreRead(sum, c, file, p, blocks, offset, data, false, partial, bytes);
    }
  }

  lemma BodyIs(sum: Sum, data: seq<Byte>, o: nat, begin: bool)
    requires o + HEADER_SIZE <= BLOCK_SIZE
    ensures var n := FragmentLength(|data|, o);
            Body(sum, data, o, begin)
            == if n == |data| then PhysicalRecord(sum, FragmentType(begin, true), data)
               else PhysicalRecord(sum, FragmentType(begin, false), data[..n])
                    + Fragments(sum, data[n..], o + HEADER_SIZE + n, false)
  {
    assert data[..|data|] == data;
    if FragmentLength(|data|, o) == |data| {
      var record := PhysicalRecord(sum, FragmentType(begin, true), data);
      assert record + [] == record;
    }
  }

  /** A record whose bytes start at p is read as it was written, or not at all if it is cut off. */
  lemma {:induction false} FragmentsAreRead(sum: Sum, c: Checking, file: seq<Byte>, p: nat, blocks: nat, offset: nat,
                                            data: seq<Byte>, begin: bool, partial: Partial, bytes: seq<Byte>)
    requires Accepts(c.check, sum)
    requires p == blocks * BLOCK_SIZE + offset && offset <= BLOCK_SIZE
    requires bytes == Fragments(sum, data, offset, begin) && Continues(file, p, bytes)
    requires partial.inside == !begin && (begin ==> partial.scratch == [])
    ensures ReadAsWritten(file, p + |bytes|, partial.scratch + data,
                          if begin then p + |Trailer(offset)| else partial.start, ReadRecordAt(file, c, p, partial))
    decreases |data|, if AfterTrailer(offset) + HEADER_SIZE == BLOCK_SIZE then 1 else 0, 2
  {
    var trailer, o := Trailer(offset), AfterTrailer(offset);
    var body := Body(sum, data, o, begin);
    FragmentsAre(sum, data, offset, begin);
    if offset + HEADER_SIZE <= BLOCK_SIZE {
      BodyIsRead(sum, c, file, p, blocks, o, data, begin, partial);
    } else {
      var q := p + |trailer|;
      ContinuesSplits(file, p, trailer, body);
      ReadAfterTrailer(c, file, p, blocks, offset, partial);
      if q <= |file| {
        BodyIsRead(sum, c, file, q, blocks + 1, o, data, begin, partial);
      }
    }
  }

  lemma FragmentsAre(sum: Sum, data: seq<Byte>, offset: nat, begin: bool)
    requires offset <= BLOCK_SIZE
    ensures Fragments(sum, data, offset, begin) == Trailer(offset) + Body(sum, data, AfterTrailer(offset), begin)
    ensures offset + HEADER_SIZE <= BLOCK_SIZE ==>
              AfterTrailer(offset) == offset && Trailer(offset) == []
              && Fragments(sum, data, offset, begin) == Body(sum, data, offset, begin)
  {
    assert [] + Body(sum, data, AfterTrailer(offset), begin) == Body(sum, data, AfterTrailer(offset), begin);
  }

  lemma ReadAfterTrailer(c: Checking, file: seq<Byte>, p: nat, blocks: nat, offset: nat, partial: Partial)
    requires p == blocks * BLOCK_SIZE + offset && offset <= BLOCK_SIZE < offset + HEADER_SIZE
    requires p <= |file|
    ensures var q := p + |Trailer(offset)|;
            && q == blocks * BLOCK_SIZE + BLOCK_SIZE
            && ReadRecordAt(file, c, p, partial)
               == if q <= |file| then ReadRecordAt(file, c, q, partial) else Logical(None, 0, |file|, [])
  {
    var q := p + |Trailer(offset)|;
    assert q == blocks * BLOCK_SIZE + BLOCK_SIZE;
    if offset < BLOCK_SIZE {
      TrailerIsSkipped(c, file, p, blocks);
      if q <= |file| {
        SamePhysicalSameRecord(file, c, p, q, partial);
      } else {
        EndEndsRecord(file, c, p, partial);
      }
    }
  }

  lemma EndEndsRecord(file: seq<Byte>, c: Checking, p: nat, partial: Partial)
    requires p <= |file| && ReadPhysicalAt(file, c, p) == Physical(EOF, [], |file|, [])
    ensures ReadRecordAt(file, c, p, partial) == Logical(None, 0, |file|, [])
  {
  }

  lemma SamePhysicalSameRecord(file: seq<Byte>, c: Checking, p: nat, q: nat, partial: Partial)
    requires p <= |file| && q <= |file|
    requires ReadPhysicalAt(file, c, p) == ReadPhysicalAt(file, c, q)
    ensures ReadRecordAt(file, c, p, partial) == ReadRecordAt(file, c, q, partial)
  {
  }

  // ---------------------------------------------------------------- whole logs

  lemma {:induction false} LogFileGrows(sum: Sum, records: seq<seq<Byte>>, i: nat)
    requires i <= |records|
    ensures LogFile(sum, records[..i]) <= LogFile(sum, records)
  {
    if i == |records| {
      assert records[..i] == records;
    } else {
      var init := records[..|records| - 1];
      assert init[..i] == records[..i];
      LogFileGrows(sum, init, i);
    }
  }

  /** The bytes of one record, at its place in the log. */
  lemma RecordInLog(sum: Sum, records: seq<seq<Byte>>, n: nat, i: nat)
    requires i < |records| && |LogFile(sum, records[..i])| <= n <= |LogFile(sum, records)|
    ensures var p := |LogFile(sum, records[..i])|;
            var bytes := Fragments(sum, records[i], OffsetInBlock(p), true);
            && Continues(LogFile(sum, records)[..n], p, bytes)
            && |LogFile(sum, records[..i + 1])| == p + |bytes|
  {
    var before := LogFile(sum, records[..i]);
    var bytes := Fragments(sum, records[i], OffsetInBlock(|before|), true);
    LogFileAppends(sum, records[..i], records[i]);
    assert records[..i + 1] == records[..i] + [records[i]];
    LogFileGrows(sum, records, i + 1);
    CutContinues(before, bytes, LogFile(sum, records), n);
  }

  lemma CutContinues(before: seq<Byte>, bytes: seq<Byte>, log: seq<Byte>, n: nat)
    requires before + bytes <= log && |before| <= n <= |log|
    ensures Continues(log[..n], |before|, bytes)
  {
    forall i
      ensures Agrees(log[..n], |before|, bytes, i)
    {
      assert 0 <= i < |bytes| ==> (before + bytes)[|before| + i] == bytes[i];
    }
  }

  /** Reading at the start of record i gives that record if the file holds all of it, and otherwise nothing. */
  lemma RecordIsRead(sum: Sum, c: Checking, records: seq<seq<Byte>>, n: nat, i: nat)
    requires Accepts(c.check, sum)
    requires i < |records| && |LogFile(sum, records[..i])| <= n <= |LogFile(sum, records)|
    ensures var p := |LogFile(sum, records[..i])|;
            var q := |LogFile(sum, records[..i + 1])|;
            var start := p + |Trailer(OffsetInBlock(p))|;
            ReadRecordAt(LogFile(sum, records)[..n], c, p, Partial(false, [], 0))
            == if q <= n then Logical(Some(records[i]), start, q, []) else Logical(None, 0, n, [])
  {
    var p := |LogFile(sum, records[..i])|;
    RecordInLog(sum, records, n, i);
    FragmentsAreRead(sum, c, LogFile(sum, records)[..n], p, p / BLOCK_SIZE, OffsetInBlock(p), records[i], true,
                     Partial(false, [], 0), Fragments(sum, records[i], OffsetInBlock(p), true));
    assert [] + records[i] == records[i];
  }

  lemma EndIsEnd(c: Checking, file: seq<Byte>)
    ensures ReadRecordAt(file, c, |file|, Partial(false, [], 0)) == Logical(None, 0, |file|, [])
  {
    BlockEndIs(|file|, |file| / BLOCK_SIZE);
  }

  /** Where the first k records end. */
  ghost function EndOf(sum: Sum, records: seq<seq<Byte>>, k: nat): nat
    requires k <= |records|
  {
    |LogFile(sum, records[..k])|
  }

  /** k is how many records lie wholly within the first n bytes of the log. */
  ghost predicate Survive(sum: Sum, records: seq<seq<Byte>>, n: nat, k: nat) {
    && k <= |records|
    && EndOf(sum, records, k) <= n
    && (k < |records| ==> n < EndOf(sum, records, k + 1))
  }

  /** After k records, the next read gives record k, or shows that k records are all that survive. */
  lemma NextRead(sum: Sum, c: Checking, records: seq<seq<Byte>>, file: seq<Byte>, k: nat, r: Logical)
    requires Accepts(c.check, sum)
    requires file <= LogFile(sum, records)
    requires k <= |records| && EndOf(sum, records, k) <= |file|
    requires r == ReadRecordAt(file, c, EndOf(sum, records, k), Partial(false, [], 0))
    ensures r.dropped == []
    ensures r.record.Some? ==>
              k < |records| && r.record.value == records[k] && r.next == EndOf(sum, records, k + 1) <= |file|
    ensures r.record.None? ==> Survive(sum, records, |file|, k)
  {
    assert file == LogFile(sum, records)[..|file|];
    if k < |records| {
      RecordIsRead(sum, c, records, |file|, k);
    } else {
      assert records[..k] == records;
      EndIsEnd(c, file);
    }
  }

  /** After k records: the reader is at the end of them and may find more, or these are all that survive. */
  ghost predicate HasRead(sum: Sum, records: seq<seq<Byte>>, n: nat, k: nat, at: nat, more: bool)
    requires k <= |records|
  {
    if more then at == EndOf(sum, records, k) <= n else Survive(sum, records, n, k)
  }

  /**
   Reads a log until ReadRecord returns false. If the file is any prefix of a log, what comes back is exactly the
   records that lie wholly inside it, in order, and nothing is reported as corrupt.
   */
  method RecoverLog(file: seq<Byte>, c: Checking, ghost sum: Sum, ghost records: seq<seq<Byte>>)
    returns (out: seq<seq<Byte>>, reports: seq<nat>)
    requires Accepts(c.check, sum)
    requires file <= LogFile(sum, records)
    ensures reports == []
    ensures Survive(sum, records, |file|, |out|) && out == records[..|out|]
  {
    var reader := new Reader(file, c);
    out := [];
    var more := true;
    while more
      invariant fresh(reader) && reader.Valid() && reader.file == file && reader.checking == c && reader.reports == []
      invariant |out| <= |records| && out == records[..|out|]
      invariant HasRead(sum, records, |file|, |out|, reader.At(), more)
      decreases |records| - |out|, more
    {
      var record := ReadNext(reader, sum, records, |out|);
      if record.Some? {
        Slices.OneMore(records, |out|);
        out := out + [record.value];
      } else {
        more := false;
      }
    }
    reports := reader.reports;
  }

  /** One more record, or the news that no more survive. */
  method ReadNext(reader: Reader, ghost sum: Sum, ghost records: seq<seq<Byte>>, ghost k: nat)
    returns (record: Option<seq<Byte>>)
    requires reader.Valid() && Accepts(reader.checking.check, sum) && reader.file <= LogFile(sum, records)
    requires k <= |records| && reader.At() == EndOf(sum, records, k) <= |reader.file|
    modifies reader
    ensures reader.Valid() && reader.reports == old(reader.reports)
    ensures record.Some? ==>
              k < |records| && record.value == records[k] && reader.At() == EndOf(sum, records, k + 1) <= |reader.file|
    ensures record.None? ==> Survive(sum, records, |reader.file|, k)
  {
    ghost var r;
    record, r := reader.ReadRecord();
    NextRead(sum, reader.checking, records, reader.file, k, r);
  }

  // ---------------------------------------------------------------- the checksum

  /** What the writer stores: the masked CRC of the type, extended by the payload. */
  function StoredChecksum(kind: Byte, payload: seq<Byte>): Fixed32 {
    EncodeFixed32(Mask(Number(ExtendBytewise(ValueOf([kind]), payload))))
  }

  /** What the reader checks: the stored number, unmasked, is the CRC of the type and payload taken together. */
  predicate ChecksumMatches(stored: seq<Byte>, covered: seq<Byte>) {
    |stored| >= 4 && Unmask(DecodeFixed32(stored)) == Number(ValueOf(covered))
  }

  /** The two ways of computing the checksum agree: a record that was written whole passes the check. */
  lemma StoredChecksumMatches(kind: Byte, payload: seq<Byte>)
    ensures ChecksumMatches(StoredChecksum(kind, payload), [kind] + payload)
  {
    var crc := Number(ExtendBytewise(ValueOf([kind]), payload));
    assert Number(ValueOf([kind] + payload)) == crc by { ExtendConcat(ZERO, [kind], payload); }
    assert DecodeFixed32(EncodeFixed32(Mask(crc))) == Mask(crc) by {
      Fixed32RoundTrip(Mask(crc), []);
      assert EncodeFixed32(Mask(crc)) + [] == EncodeFixed32(Mask(crc));
    }
    assert Unmask(Mask(crc)) == crc by { UnmaskUndoesMask(crc); }
  }

  lemma ChecksumIsAccepted()
    ensures Accepts(ChecksumMatches, StoredChecksum)
  {
    forall kind: Byte, payload: seq<Byte>
      ensures ChecksumMatches(StoredChecksum(kind, payload), [kind] + payload)
    {
      StoredChecksumMatches(kind, payload);
    }
  }
  /**
   The round trip with the checksums that the two sides really compute: records written in two runs, the file cut after
   any n bytes, and what is left read back with checking on.
   */
  method WriteCutAndRecover(first: seq<seq<Byte>>, more: seq<seq<Byte>>, n: nat)
    returns (out: seq<seq<Byte>>, reports: seq<nat>)
    requires n <= |LogFile(StoredChecksum, first + more)|
    ensures reports == []
    ensures Survive(StoredChecksum, first + more, n, |out|) && out == (first + more)[..|out|]
  {
    var file := WriteInTwoRuns(StoredChecksum, first, more);
    ChecksumIsAccepted();
    out, reports := RecoverLog(file[..n], Checking(ChecksumMatches, true), StoredChecksum, first + more);
  }

  /** All records survive in a file that was not cut. */
  lemma WholeLogSurvives(sum: Sum, records: seq<seq<Byte>>, k: nat)
    requires Survive(sum, records, |LogFile(sum, records)|, k)
    ensures k == |records|
  {
    if k < |records| {
      LogFileGrows(sum, records, k + 1);
    }
  }
}
