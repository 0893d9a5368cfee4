/**
 The log writer: AddRecord and EmitPhysicalRecord over a file that only grows, and the constructor that resumes an
 existing file (log_writer.cc).
 */
module LogWriter {
  import opened Keys
  import opened LogFormat

  /** A writer at the end of a block is as good as one at the start of the next. */
  lemma EndOfBlockIsStartOfBlock(sum: Sum, data: seq<Byte>, begin: bool)
    ensures Fragments(sum, data, BLOCK_SIZE, begin) == Fragments(sum, data, 0, begin)
  {
    assert Trailer(BLOCK_SIZE) == [] == Trailer(0);
    assert AfterTrailer(BLOCK_SIZE) == 0 == AfterTrailer(0);
  }

  lemma OffsetIs(length: nat, blocks: nat, offset: nat)
    requires length == blocks * BLOCK_SIZE + offset && offset <= BLOCK_SIZE
    ensures OffsetInBlock(length) == if offset == BLOCK_SIZE then 0 else offset
  {
  }

  lemma SameFragments(sum: Sum, data: seq<Byte>, length: nat, blocks: nat, offset: nat)
    requires length == blocks * BLOCK_SIZE + offset && offset <= BLOCK_SIZE
    ensures Fragments(sum, data, offset, true) == Fragments(sum, data, OffsetInBlock(length), true)
  {
    OffsetIs(length, blocks, offset);
    EndOfBlockIsStartOfBlock(sum, data, true);
  }

  lemma Regroup(a: seq<Byte>, b: seq<Byte>, c: seq<Byte>, d: seq<Byte>)
    ensures ((a + b) + c) + d == a + (b + (c + d))
  {
  }

  /** A fragment may be empty, when only a header fits; the next one then starts a block and is not. */
  function Stall(offset: nat): nat
    requires offset <= BLOCK_SIZE
  {
    if AfterTrailer(offset) + HEADER_SIZE == BLOCK_SIZE then 1 else 0
  }

  class Writer {
    const sum: Sum
    var dest: seq<Byte>
    var blockOffset: nat
    /** How many blocks lie in front of the one that blockOffset is an offset in. */
    ghost var blocks: nat

    ghost predicate Valid()
      reads this
    {
      blockOffset <= BLOCK_SIZE && |dest| == blocks * BLOCK_SIZE + blockOffset
    }

    constructor (sum: Sum)
      ensures Valid() && this.sum == sum && dest == []
    {
      this.sum := sum;
      dest, blockOffset, blocks := [], 0, 0;
    }

    /** Resumes a file that is already there. */
    constructor Resume(sum: Sum, existing: seq<Byte>)
      ensures Valid() && this.sum == sum && dest == existing
    {
      this.sum := sum;
      dest, blockOffset := existing, |existing| % BLOCK_SIZE;
      blocks := |existing| / BLOCK_SIZE;
    }

    /** Appends the record, in as many fragments as it takes. */
    method AddRecord(data: seq<Byte>)
      requires Valid()
      modifies this
      ensures Valid()
      ensures dest == old(dest) + Fragments(sum, data, OffsetInBlock(|old(dest)|), true)
    {
      SameFragments(sum, data, |dest|, blocks, blockOffset);
      var left := AddFragment(data, true);
      while |left| > 0
        invariant Valid()
        invariant dest + (if left == [] then [] else Fragments(sum, left, blockOffset, false))
               == old(dest) + Fragments(sum, data, old(blockOffset), true)
        decreases |left|, Stall(blockOffset)
      {
        left := AddFragment(left, false);
      }
    }

    /** One pass of AddRecord's loop: a trailer if no header fits any more, and one fragment. */
    method AddFragment(data: seq<Byte>, begin: bool) returns (left: seq<Byte>)
      requires Valid()
      modifies this
      ensures Valid()
      ensures dest + (if left == [] then [] else Fragments(sum, left, blockOffset, false))
           == old(dest) + Fragments(sum, data, old(blockOffset), begin)
      ensures |left| < |data| || (|left| == |data| && Stall(blockOffset) < Stall(old(blockOffset))) || left == []
    {
      var leftover := BLOCK_SIZE - blockOffset;
      if leftover < HEADER_SIZE {
        if leftover > 0 {
          dest := dest + seq(leftover, _ => 0);
        }
        blockOffset, blocks := 0, blocks + 1;
      }
      assert dest == old(dest) + Trailer(old(blockOffset)) && blockOffset == AfterTrailer(old(blockOffset));
      var avail := BLOCK_SIZE - blockOffset - HEADER_SIZE;
      var length := if |data| < avail then |data| else avail;
      var end := |data| == length;
      var kind := FragmentType(begin, end);
      EmitPhysicalRecord(kind, data[..length]);
      left := data[length..];
      ghost var rest := if left == [] then [] else Fragments(sum, left, blockOffset, false);
      Regroup(old(dest), Trailer(old(blockOffset)), PhysicalRecord(sum, kind, data[..length]), rest);
    }

    method EmitPhysicalRecord(kind: Byte, payload: seq<Byte>)
      requires Valid()
      requires blockOffset + HEADER_SIZE + |payload| <= BLOCK_SIZE
      modifies this
      ensures Valid()
      ensures dest == old(dest) + PhysicalRecord(sum, kind, payload)
      ensures blockOffset == old(blockOffset) + HEADER_SIZE + |payload|
    {
      var header := sum(kind, payload) + LengthBytes(|payload|) + [kind];
      dest := dest + header;
      dest := dest + payload;
      blockOffset := blockOffset + (HEADER_SIZE + |payload|);
    }
  }

  lemma {:induction false} LogFileAppends(sum: Sum, first: seq<seq<Byte>>, record: seq<Byte>)
    ensures LogFile(sum, first + [record])
              == LogFile(sum, first) + Fragments(sum, record, OffsetInBlock(|LogFile(sum, first)|), true)
  {
    assert (first + [record])[..|first + [record]| - 1] == first;
  }

  lemma OneMore<T>(first: seq<T>, more: seq<T>, i: nat)
    requires i < |more|
    ensures first + more[..i + 1] == first + more[..i] + [more[i]]
  {
  }

  /** Appends one record after another. */
  method AddRecords(w: Writer, ghost first: seq<seq<Byte>>, more: seq<seq<Byte>>)
    requires w.Valid() && w.dest == LogFile(w.sum, first)
    modifies w
    ensures w.Valid() && w.dest == LogFile(w.sum, first + more)
  {
    ghost var done := first;
    for i := 0 to |more|
      invariant w.Valid() && w.dest == LogFile(w.sum, done)
      invariant done == first + more[..i]
    {
      w.AddRecord(more[i]);
      LogFileAppends(w.sum, done, more[i]);
      OneMore(first, more, i);
      done := done + [more[i]];
    }
    assert done == first + more;
  }

  /** A writer resumed after some records produces the file that an uninterrupted writer produces. */
  method WriteInTwoRuns(sum: Sum, first: seq<seq<Byte>>, more: seq<seq<Byte>>) returns (file: seq<Byte>)
    ensures file == LogFile(sum, first + more)
  {
    var w := new Writer(sum);
    AddRecords(w, [], first);
    assert [] + first == first;
    w := new Writer.Resume(sum, w.dest);
    AddRecords(w, first, more);
    file := w.dest;
  }
}
