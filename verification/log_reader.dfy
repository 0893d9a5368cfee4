/**
 The log reader: ReadRecord and ReadPhysicalRecord over a file of any bytes, reading from its start (log_reader.cc).
 */
module LogReader {
  import opened Keys
  import opened LogFormat
  import opened Reads

  /** The extra record types that only the reader uses. */
  const EOF: nat := 5
  const BAD_RECORD: nat := 6

  // ---------------------------------------------------------------- what the methods compute

  datatype Physical = Physical(kind: nat, payload: seq<Byte>, next: nat, dropped: seq<nat>)

  /** How to check stored sums, and whether to. */
  datatype Checking = Checking(check: Check, enabled: bool)

  function BlockEnd(p: nat): (e: nat)
    ensures p < e
  {
    p - p % BLOCK_SIZE + BLOCK_SIZE
  }

  /** The physical record at p of a block of which file[p..e] is left; whole says that the block is a full one. */
  function ParseAt(file: seq<Byte>, c: Checking, p: nat, e: nat, whole: bool): (r: Physical)
    requires p + HEADER_SIZE <= e <= |file|
    ensures p + HEADER_SIZE + |r.payload| <= r.next <= e
  {
    var buffer := file[p..e];
    var length := HeaderLength(buffer);
    if HEADER_SIZE + length > |buffer| then
      Physical(if whole then BAD_RECORD else EOF, [], e, if whole then [|buffer|] else [])
    else if buffer[6] == ZERO_TYPE && length == 0 then
      Physical(BAD_RECORD, [], e, [])
    else if c.enabled && !c.check(buffer[..4], buffer[6..HEADER_SIZE + length]) then
      Physical(BAD_RECORD, [], e, [|buffer|])
    else
      Physical(buffer[6] as nat, buffer[HEADER_SIZE..HEADER_SIZE + length], p + HEADER_SIZE + length, [])
  }

  function ReadPhysicalAt(file: seq<Byte>, c: Checking, p: nat): (r: Physical)
    requires p <= |file|
    ensures r.next <= |file|
    ensures r.kind == EOF || p + HEADER_SIZE + |r.payload| <= r.next
    decreases |file| - p
  {
    var e := BlockEnd(p);
    if e <= |file| then
      if e - p < HEADER_SIZE then ReadPhysicalAt(file, c, e) else ParseAt(file, c, p, e, true)
    else if |file| - p < HEADER_SIZE then
      Physical(EOF, [], |file|, [])
    else
      ParseAt(file, c, p, |file|, false)
  }

  function HeaderOffset(r: Physical): nat
    requires HEADER_SIZE + |r.payload| <= r.next
  {
    r.next - HEADER_SIZE - |r.payload|
  }

  /** What has been gathered of a fragmented record, and where it started. */
  datatype Partial = Partial(inside: bool, scratch: seq<Byte>, start: nat)

  datatype Logical = Logical(record: Option<seq<Byte>>, offset: nat, next: nat, dropped: seq<nat>)

  /** A read that first drops what the reports say. */
  function Dropping(dropped: seq<nat>, r: Logical): Logical {
    r.(dropped := dropped + r.dropped)
  }

  function Abandoned(partial: Partial): seq<nat> {
    if partial.inside && partial.scratch != [] then [|partial.scratch|] else []
  }

  datatype Outcome =
    | Return(record: Option<seq<Byte>>, offset: nat, dropped: seq<nat>)
    | Continue(partial: Partial, dropped: seq<nat>)

  /** What ReadRecord does with one physical record. */
  function Take(partial: Partial, r: Physical): Outcome
    requires r.kind == EOF || HEADER_SIZE + |r.payload| <= r.next
  {
    var inside, scratch := partial.inside, partial.scratch;
    if r.kind == FULL_TYPE as nat then
      Return(Some(r.payload), HeaderOffset(r), Abandoned(partial))
    else if r.kind == FIRST_TYPE as nat then
      Continue(Partial(true, r.payload, HeaderOffset(r)), Abandoned(partial))
    else if r.kind == MIDDLE_TYPE as nat then
      if inside then Continue(partial.(scratch := scratch + r.payload), []) else Continue(partial, [|r.payload|])
    else if r.kind == LAST_TYPE as nat then
      if inside then Return(Some(scratch + r.payload), partial.start, []) else Continue(partial, [|r.payload|])
    else if r.kind == EOF then
      Return(None, 0, [])
    else if r.kind == BAD_RECORD then
      if inside then Continue(Partial(false, [], partial.start), [|scratch|]) else Continue(partial, [])
    else
      Continue(Partial(false, [], partial.start), [|r.payload| + if inside then |scratch| else 0])
  }

  function ReadRecordAt(file: seq<Byte>, c: Checking, p: nat, partial: Partial): (r: Logical)
    requires p <= |file|
    ensures r.next <= |file|
    ensures r.record.Some? ==> p < r.next
    decreases |file| - p
  {
    var r := ReadPhysicalAt(file, c, p);
    match Take(partial, r)
    case Return(record, offset, dropped) => Logical(record, offset, r.next, r.dropped + dropped)
    case Continue(q, dropped) => Dropping(r.dropped + dropped, ReadRecordAt(file, c, r.next, q))
  }

  // ---------------------------------------------------------------- the reader

  lemma BlockEndIs(p: nat, blocks: nat)
    requires blocks * BLOCK_SIZE <= p < blocks * BLOCK_SIZE + BLOCK_SIZE
    ensures BlockEnd(p) == blocks * BLOCK_SIZE + BLOCK_SIZE
  {
    assert p % BLOCK_SIZE == p - blocks * BLOCK_SIZE;
  }

  /** Reading at p, when the buffer ends where the block does or the file. */
  lemma BufferIsRead(file: seq<Byte>, c: Checking, p: nat, position: nat, eof: bool, blocks: nat)
    requires p <= position <= |file| && blocks > 0 && (blocks - 1) * BLOCK_SIZE <= p
    requires !eof ==> position == blocks * BLOCK_SIZE
    requires eof ==> position == |file| < blocks * BLOCK_SIZE
    requires position - p >= HEADER_SIZE || eof
    ensures position - p < HEADER_SIZE && eof ==> ReadPhysicalAt(file, c, p) == Physical(EOF, [], |file|, [])
    ensures position - p >= HEADER_SIZE ==> ReadPhysicalAt(file, c, p) == ParseAt(file, c, p, position, !eof)
  {
    BlockEndIs(p, blocks - 1);
  }

  /** What one physical record contributes to a record that has been reported so much of already. */
  lemma RecordStep(file: seq<Byte>, c: Checking, p: nat, physical: Physical, partial: Partial, outcome: Outcome,
                   dropped: seq<nat>, r: Logical)
    requires p <= |file| && physical == ReadPhysicalAt(file, c, p) && outcome == Take(partial, physical)
    requires r == Dropping(dropped, ReadRecordAt(file, c, p, partial))
    ensures outcome.Return? ==>
              r == Logical(outcome.record, outcome.offset, physical.next,
                           dropped + (physical.dropped + outcome.dropped))
    ensures outcome.Continue? ==>
              && p < physical.next <= |file|
              && r == Dropping(dropped + (physical.dropped + outcome.dropped),
                               ReadRecordAt(file, c, physical.next, outcome.partial))
  {
    if outcome.Continue? {
      DroppingTwice(dropped, physical.dropped + outcome.dropped, ReadRecordAt(file, c, physical.next, outcome.partial));
    }
  }

  /** Too little left of a block for a header is passed over. */
  lemma TrailerIsPassed(file: seq<Byte>, c: Checking, p: nat, position: nat, blocks: nat)
    requires p <= position <= |file| && position == blocks * BLOCK_SIZE && position - p < HEADER_SIZE
    ensures ReadPhysicalAt(file, c, p) == ReadPhysicalAt(file, c, position)
  {
    if p < position {
      BlockEndIs(p, blocks - 1);
    }
  }

  lemma BlocksGrow(size: nat, position: nat, blocks: nat)
    requires position <= size && position == blocks * BLOCK_SIZE
    ensures size - position >= BLOCK_SIZE ==> position + BLOCK_SIZE == (blocks + 1) * BLOCK_SIZE
    ensures size - position < BLOCK_SIZE ==> size < (blocks + 1) * BLOCK_SIZE
  {
  }

  class Reader {
    const file: seq<Byte>
    const checking: Checking
    /** How much of the file has been read into the buffer: end_of_buffer_offset_. */
    var position: nat
    var buffer: seq<Byte>
    var eof: bool
    var lastRecordOffset: nat
    /** What the reporter was told: the number of bytes dropped, each time. */
    var reports: seq<nat>
    ghost var blocks: nat

    /** The first byte of the file that has not been consumed. */
    ghost function At(): int
      reads this
    {
      position - |buffer|
    }

    ghost predicate Valid()
      reads this
    {
      && 0 <= At() <= position <= |file|
      && buffer == file[At()..position]
      && (!eof ==> position == blocks * BLOCK_SIZE && |buffer| <= BLOCK_SIZE)
      && (eof ==> blocks > 0 && position == |file| < blocks * BLOCK_SIZE && (blocks - 1) * BLOCK_SIZE <= At())
    }

    constructor (file: seq<Byte>, checking: Checking)
      ensures Valid() && At() == 0 && reports == []
      ensures this.file == file && this.checking == checking
    {
      this.file, this.checking := file, checking;
      position, buffer, eof, lastRecordOffset, reports, blocks := 0, [], false, 0, [], 0;
    }

    /** Reads the next block into the buffer, dropping what is left there. */
    method Fill()
      requires Valid() && |buffer| < HEADER_SIZE && !eof
      modifies this
      ensures Valid() && reports == old(reports) && lastRecordOffset == old(lastRecordOffset)
      ensures ReadPhysicalAt(file, checking, At()) == ReadPhysicalAt(file, checking, old(At()))
      ensures old(position) < position || eof
    {
      TrailerIsPassed(file, checking, At(), position, blocks);
      var n := if |file| - position < BLOCK_SIZE then |file| - position else BLOCK_SIZE;
      BlocksGrow(|file|, position, blocks);
      buffer := file[position..position + n];
      position := position + n;
      blocks := blocks + 1;
      if |buffer| < BLOCK_SIZE {
        eof := true;
      }
    }

    /** Reads blocks until a whole header is in the buffer or the file has ended. */
    method FillHeader()
      requires Valid()
      modifies this
      ensures Valid() && reports == old(reports) && lastRecordOffset == old(lastRecordOffset)
      ensures |buffer| >= HEADER_SIZE || eof
      ensures ReadPhysicalAt(file, checking, At()) == ReadPhysicalAt(file, checking, old(At()))
      ensures |buffer| < HEADER_SIZE ==> ReadPhysicalAt(file, checking, At()) == Physical(EOF, [], |file|, [])
      ensures |buffer| >= HEADER_SIZE ==>
                ReadPhysicalAt(file, checking, At()) == ParseAt(file, checking, At(), position, !eof)
    {
      while |buffer| < HEADER_SIZE && !eof
        invariant Valid() && reports == old(reports) && lastRecordOffset == old(lastRecordOffset)
        invariant ReadPhysicalAt(file, checking, At()) == ReadPhysicalAt(file, checking, old(At()))
        decreases if eof then 0 else 1, |file| - position
      {
        Fill();
      }
      BufferIsRead(file, checking, At(), position, eof, blocks);
    }

    method ReadPhysicalRecord() returns (kind: nat, payload: seq<Byte>, ghost r: Physical)
      requires Valid()
      modifies this
      ensures Valid() && lastRecordOffset == old(lastRecordOffset)
      ensures r == ReadPhysicalAt(file, checking, old(At()))
      ensures kind == r.kind && payload == r.payload && At() == r.next && reports == old(reports) + r.dropped
    {
      FillHeader();
      if |buffer| < HEADER_SIZE {
        buffer := [];
        return EOF, [], ReadPhysicalAt(file, checking, old(At()));
      }
      kind, payload, r := ParseHeader();
    }

    /** The rest of ReadPhysicalRecord, once a header is in the buffer. */
    method ParseHeader() returns (kind: nat, payload: seq<Byte>, ghost r: Physical)
      requires Valid() && |buffer| >= HEADER_SIZE
      modifies this
      ensures Valid() && lastRecordOffset == old(lastRecordOffset)
      ensures r == ParseAt(file, checking, old(At()), old(position), !old(eof))
      ensures kind == r.kind && payload == r.payload && At() == r.next && reports == old(reports) + r.dropped
    {
      r := ParseAt(file, checking, At(), position, !eof);
      var length := HeaderLength(buffer);
      if HEADER_SIZE + length > |buffer| {
        var dropSize := |buffer|;
        buffer := [];
        if !eof {
          reports := reports + [dropSize];
          return BAD_RECORD, [], r;
        }
        return EOF, [], r;
      }
      if buffer[6] == ZERO_TYPE && length == 0 {
        buffer := [];
        return BAD_RECORD, [], r;
      }
      if checking.enabled {
        if !checking.check(buffer[..4], buffer[6..HEADER_SIZE + length]) {
          var dropSize := |buffer|;
          buffer := [];
          reports := reports + [dropSize];
          return BAD_RECORD, [], r;
        }
      }
      kind, payload := buffer[6] as nat, buffer[HEADER_SIZE..HEADER_SIZE + length];
      buffer := buffer[HEADER_SIZE + length..];
    }

    /** The next record, if the file holds one that is whole. */
    method ReadRecord() returns (record: Option<seq<Byte>>, ghost r: Logical)
      requires Valid()
      modifies this
      ensures Valid()
      ensures r == ReadRecordAt(file, checking, old(At()), Partial(false, [], 0))
      ensures record == r.record && At() == r.next && reports == old(reports) + r.dropped
      ensures record.Some? ==> lastRecordOffset == r.offset
    {
      var partial := Partial(false, [], 0);
      r := ReadRecordAt(file, checking, At(), partial);
      ghost var dropped: seq<nat> := [];
      while true
        invariant Valid() && reports == old(reports) + dropped
        invariant r == Dropping(dropped, ReadRecordAt(file, checking, At(), partial))
        decreases |file| - At()
      {
        var outcome;
        outcome, dropped := ReadOn(partial, old(reports), dropped, r);
        if outcome.Return? {
          if outcome.record.Some? {
            lastRecordOffset := outcome.offset;
          }
          return outcome.record, r;
        }
        partial := outcome.partial;
      }
    }

    /** One turn of the loop of ReadRecord, dropped having been reported before it. */
    method ReadOn(partial: Partial, ghost before: seq<nat>, ghost dropped: seq<nat>, ghost r: Logical)
      returns (outcome: Outcome, ghost total: seq<nat>)
      requires Valid() && reports == before + dropped
      requires r == Dropping(dropped, ReadRecordAt(file, checking, At(), partial))
      modifies this
      ensures Valid() && reports == before + total
      ensures outcome.Return? ==> r == Logical(outcome.record, outcome.offset, At(), total)
      ensures outcome.Continue? ==>
                old(At()) < At() && r == Dropping(total, ReadRecordAt(file, checking, At(), outcome.partial))
    {
      ghost var physical, p := *, At();
      outcome, physical := ReadStep(partial);
      total := dropped + (physical.dropped + outcome.dropped);
      Regroup(before, dropped, physical.dropped, outcome.dropped);
      RecordStep(file, checking, p, physical, partial, outcome, dropped, r);
    }

    /** One physical record, and what it does to the logical record being put together. */
    method ReadStep(partial: Partial) returns (outcome: Outcome, ghost physical: Physical)
      requires Valid()
      modifies this
      ensures Valid() && lastRecordOffset == old(lastRecordOffset)
      ensures physical == ReadPhysicalAt(file, checking, old(At())) && At() == physical.next
      ensures outcome == Take(partial, physical)
      ensures reports == old(reports) + (physical.dropped + outcome.dropped)
    {
      var kind, fragment;
      kind, fragment, physical := ReadPhysicalRecord();
      outcome := Switch(kind, fragment, partial, physical);
      Regroup(old(reports), [], physical.dropped, outcome.dropped);
      reports := reports + outcome.dropped;
      assert reports == old(reports) + (physical.dropped + outcome.dropped);
    }

    /** The switch of ReadRecord; the bytes to report travel in the outcome. */
    method Switch(kind: nat, fragment: seq<Byte>, partial: Partial, ghost physical: Physical) returns (outcome: Outcome)
      requires Valid() && kind == physical.kind && fragment == physical.payload && At() == physical.next
      requires physical.kind == EOF || HEADER_SIZE + |physical.payload| <= physical.next
      ensures outcome == Take(partial, physical)
    {
      var inside, scratch := partial.inside, partial.scratch;
      if kind == FULL_TYPE as nat {
        var offset := position - |buffer| - HEADER_SIZE - |fragment|;
        return Return(Some(fragment), offset, if inside && |scratch| > 0 then [|scratch|] else []);
      } else if kind == FIRST_TYPE as nat {
        var offset := position - |buffer| - HEADER_SIZE - |fragment|;
        return Continue(Partial(true, fragment, offset), if inside && |scratch| > 0 then [|scratch|] else []);
      } else if kind == MIDDLE_TYPE as nat {
        if !inside {
          return Continue(partial, [|fragment|]);
        }
        return Continue(partial.(scratch := scratch + fragment), []);
      } else if kind == LAST_TYPE as nat {
        if !inside {
          return Continue(partial, [|fragment|]);
        }
        return Return(Some(scratch + fragment), partial.start, []);
      } else if kind == EOF {
        return Return(None, 0, []);
      } else if kind == BAD_RECORD {
        if inside {
          return Continue(Partial(false, [], partial.start), [|scratch|]);
        }
        return Continue(partial, []);
      }
      outcome := Continue(Partial(false, [], partial.start), [|fragment| + if inside then |scratch| else 0]);
    }
  }

  lemma Regroup(a: seq<nat>, b: seq<nat>, c: seq<nat>, d: seq<nat>)
    ensures ((a + b) + c) + d == a + (b + (c + d))
  {
  }

  lemma DroppingTwice(a: seq<nat>, b: seq<nat>, r: Logical)
    ensures Dropping(a, Dropping(b, r)) == Dropping(a + b, r)
  {
    assert a + (b + r.dropped) == (a + b) + r.dropped;
  }
}
