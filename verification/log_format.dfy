/**
 The log file format: 32 KB blocks of physical records, each with a seven-byte header of checksum, length and type
 (log_format.h, and what Writer::AddRecord puts in the file).
 */
module LogFormat {
  import opened Coding
  import opened Keys

  const BLOCK_SIZE: nat := 32768
  const HEADER_SIZE: nat := 7

  const ZERO_TYPE: Byte := 0
  const FULL_TYPE: Byte := 1
  const FIRST_TYPE: Byte := 2
  const MIDDLE_TYPE: Byte := 3
  const LAST_TYPE: Byte := 4

  // ---------------------------------------------------------------- one physical record

  /** What the writer stores in front of a record of this type and payload. */
  type Sum = (Byte, seq<Byte>) -> Fixed32

  /** What the reader checks: the stored bytes, against the type and payload as they lie in the buffer. */
  type Check = (seq<Byte>, seq<Byte>) -> bool

  /** The check accepts what was stored. */
  ghost predicate Accepts(check: Check, sum: Sum) {
    forall kind: Byte, payload: seq<Byte> :: check(sum(kind, payload), [kind] + payload)
  }

  function LengthBytes(length: nat): (bytes: seq<Byte>)
    requires length <= 0xffff
    ensures |bytes| == 2
  {
    [(length % 0x100) as Byte, (length / 0x100) as Byte]
  }

  function PhysicalRecord(sum: Sum, kind: Byte, payload: seq<Byte>): (bytes: seq<Byte>)
    requires |payload| <= 0xffff
    ensures |bytes| == HEADER_SIZE + |payload|
  {
    sum(kind, payload) + LengthBytes(|payload|) + [kind] + payload
  }

  function HeaderLength(buffer: seq<Byte>): nat
    requires |buffer| >= HEADER_SIZE
  {
    buffer[4] as nat + buffer[5] as nat * 0x100
  }

  lemma LengthBytesParse(length: nat)
    requires length <= 0xffff
    ensures LengthBytes(length)[0] as nat + LengthBytes(length)[1] as nat * 0x100 == length
  {
  }

  /** The header says what was written, and the two ways of computing the checksum agree. */
  lemma RecordParses(sum: Sum, check: Check, kind: Byte, payload: seq<Byte>, buffer: seq<Byte>)
    requires |payload| <= 0xffff
    requires Accepts(check, sum)
    requires PhysicalRecord(sum, kind, payload) <= buffer
    ensures HeaderLength(buffer) == |payload| && buffer[6] == kind
    ensures check(buffer[..4], buffer[6..HEADER_SIZE + |payload|])
    ensures buffer[HEADER_SIZE..HEADER_SIZE + |payload|] == payload
  {
    HeaderParses(sum, kind, payload, buffer);
    assert buffer[..HEADER_SIZE + |payload|] == PhysicalRecord(sum, kind, payload);
    assert buffer[..4] == sum(kind, payload);
    assert buffer[6..HEADER_SIZE + |payload|] == [kind] + payload;
  }

  lemma HeaderParses(sum: Sum, kind: Byte, payload: seq<Byte>, buffer: seq<Byte>)
    requires |payload| <= 0xffff
    requires |buffer| >= HEADER_SIZE
    requires PhysicalRecord(sum, kind, payload)[..HEADER_SIZE] == buffer[..HEADER_SIZE]
    ensures HeaderLength(buffer) == |payload| && buffer[6] == kind
  {
    var record := PhysicalRecord(sum, kind, payload);
    LengthBytesParse(|payload|);
    assert forall i | 0 <= i < HEADER_SIZE ::
           buffer[i] == buffer[..HEADER_SIZE][i] == record[..HEADER_SIZE][i] == record[i];
    assert record[4] == LengthBytes(|payload|)[0] && record[5] == LengthBytes(|payload|)[1] && record[6] == kind;
  }

  // ---------------------------------------------------------------- one logical record

  function FragmentType(begin: bool, end: bool): Byte {
    if begin && end then FULL_TYPE else if begin then FIRST_TYPE else if end then LAST_TYPE else MIDDLE_TYPE
  }

  /** Zeros up to the end of the block, where no header fits any more. */
  function Trailer(offset: nat): seq<Byte>
    requires offset <= BLOCK_SIZE
  {
    if BLOCK_SIZE - offset < HEADER_SIZE then seq(BLOCK_SIZE - offset, _ => 0) else []
  }

  function AfterTrailer(offset: nat): (o: nat)
    requires offset <= BLOCK_SIZE
    ensures o + HEADER_SIZE <= BLOCK_SIZE
  {
    if BLOCK_SIZE - offset < HEADER_SIZE then 0 else offset
  }

  function FragmentLength(left: nat, offset: nat): nat
    requires offset + HEADER_SIZE <= BLOCK_SIZE
  {
    if left < BLOCK_SIZE - offset - HEADER_SIZE then left else BLOCK_SIZE - offset - HEADER_SIZE
  }

  /** The bytes of a record, or of what is left of it, for a writer that stands at this offset of its block. */
  function Fragments(sum: Sum, data: seq<Byte>, offset: nat, begin: bool): (bytes: seq<Byte>)
    requires offset <= BLOCK_SIZE
    ensures |bytes| >= HEADER_SIZE + |data|
    decreases |data|, if AfterTrailer(offset) + HEADER_SIZE == BLOCK_SIZE then 1 else 0
  {
    var o := AfterTrailer(offset);
    var n := FragmentLength(|data|, o);
    var rest := if n == |data| then [] else Fragments(sum, data[n..], o + HEADER_SIZE + n, false);
    Trailer(offset) + (PhysicalRecord(sum, FragmentType(begin, n == |data|), data[..n]) + rest)
  }

  /** Where in its block a writer stands that has written this many bytes. */
  function OffsetInBlock(length: nat): (o: nat)
    ensures o < BLOCK_SIZE
  {
    length % BLOCK_SIZE
  }

  /** The log file that holds these records. */
  function LogFile(sum: Sum, records: seq<seq<Byte>>): seq<Byte> {
    if records == [] then []
    else
      var before := LogFile(sum, records[..|records| - 1]);
      before + Fragments(sum, records[|records| - 1], OffsetInBlock(|before|), true)
  }
}
