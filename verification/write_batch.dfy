/**
 WriteBatch: operations packed into one string behind a sequence number and a count, appended to each other, and
 replayed into a memtable (write_batch.cc).
 */
module WriteBatches {
  import opened Coding
  import opened Keys
  import opened Reads
  import Slices

  type Bytes = seq<Byte>

  datatype Op = Put(key: Bytes, value: Bytes) | Delete(key: Bytes)

  const HEADER: nat := 12

  // ---------------------------------------------------------------- operations

  ghost predicate OpFits(op: Op) {
    |op.key| < TWO_32 && (op.Put? ==> |op.value| < TWO_32)
  }

  function OpBytes(op: Op): Bytes {
    match op
    case Put(key, value) => [1] + (Prefixed(key) + Prefixed(value))
    case Delete(key) => [0] + Prefixed(key)
  }

  function OpsBytes(ops: seq<Op>): Bytes {
    if ops == [] then [] else OpBytes(ops[0]) + OpsBytes(ops[1..])
  }

  /** One operation in front of the input, and how much of the input it takes. */
  function ParseOp(input: Bytes): (r: Option<(Op, nat)>)
    requires input != []
    ensures r.Some? ==> 0 < r.value.1 <= |input|
  {
    match ParseSlice(input[1..])
    case None => None
    case Some((key, n)) =>
      if input[0] == 0 then Some((Delete(key), 1 + n))
      else if input[0] == 1 then
        match ParseSlice(input[1..][n..])
        case None => None
        case Some((value, m)) => Some((Put(key, value), 1 + n + m))
      else None
  }

  lemma OpParses(op: Op, rest: Bytes)
    requires OpFits(op)
    ensures OpBytes(op) + rest != []
    ensures ParseOp(OpBytes(op) + rest) == Some((op, |OpBytes(op)|))
    ensures (OpBytes(op) + rest)[|OpBytes(op)|..] == rest
  {
    Slices.DropFront(OpBytes(op), rest);
    match op
    case Delete(key) => DeleteParses(key, rest);
    case Put(key, value) => PutParses(key, value, rest);
  }

  lemma DeleteParses(key: Bytes, rest: Bytes)
    requires OpFits(Delete(key))
    ensures ParseOp(OpBytes(Delete(key)) + rest) == Some((Delete(key), |OpBytes(Delete(key))|))
  {
    assert (OpBytes(Delete(key)) + rest)[1..] == Prefixed(key) + rest;
    SliceParses(key, rest);
  }

  lemma PutParses(key: Bytes, value: Bytes, rest: Bytes)
    requires OpFits(Put(key, value))
    ensures ParseOp(OpBytes(Put(key, value)) + rest) == Some((Put(key, value), |OpBytes(Put(key, value))|))
  {
    Slices.Associates(Prefixed(key), Prefixed(value), rest);
    assert (OpBytes(Put(key, value)) + rest)[1..] == Prefixed(key) + (Prefixed(value) + rest);
    SliceParses(key, Prefixed(value) + rest);
    SliceParses(value, rest);
  }

  lemma {:induction false} OpsAppend(a: seq<Op>, b: seq<Op>)
    ensures OpsBytes(a + b) == OpsBytes(a) + OpsBytes(b)
  {
    if a == [] {
      assert a + b == b;
    } else {
      assert (a + b)[1..] == a[1..] + b;
      OpsAppend(a[1..], b);
      Slices.Associates(OpBytes(a[0]), OpsBytes(a[1..]), OpsBytes(b));
    }
  }

  // ---------------------------------------------------------------- the batch

  /** What the batch's string holds. */
  function BatchBytes(sequence: Uint64, ops: seq<Op>): Bytes
    requires |ops| < TWO_32
  {
    EncodeFixed64(sequence) + (EncodeFixed32(|ops|) + OpsBytes(ops))
  }

  /** What MemTable::Add is given for each operation: sequence numbers count up from the batch's. */
  function Numbered(sequence: nat, ops: seq<Op>): seq<(nat, Op)> {
    seq(|ops|, i requires 0 <= i < |ops| => (sequence + i, ops[i]))
  }

  class WriteBatch {
    var rep: Bytes
    ghost var sequence: Uint64
    ghost var ops: seq<Op>

    ghost predicate Valid()
      reads this
    {
      && |ops| < TWO_32
      && (forall op | op in ops :: OpFits(op))
      && rep == BatchBytes(sequence, ops)
    }

    constructor ()
      ensures Valid() && sequence == 0 && ops == []
    {
      rep := BatchBytes(0, []);
      sequence, ops := 0, [];
    }

    method Clear()
      modifies this
      ensures Valid() && sequence == 0 && ops == []
    {
      rep := BatchBytes(0, []);
      sequence, ops := 0, [];
    }

    lemma Parts()
      requires Valid()
      ensures rep[..8] == EncodeFixed64(sequence) && rep[8..12] == EncodeFixed32(|ops|) && rep[12..] == OpsBytes(ops)
      ensures |rep| >= 12
    {
    }

    method Count() returns (n: nat)
      requires Valid()
      ensures n == |ops|
    {
      Parts();
      n := DecodeFixed32(rep[8..12]);
      Fixed32RoundTrip(|ops|, []);
      assert EncodeFixed32(|ops|) + [] == EncodeFixed32(|ops|);
    }

    method Sequence() returns (n: nat)
      requires Valid()
      ensures n == sequence
    {
      Parts();
      n := DecodeFixed64(rep[..8]);
      Fixed64RoundTrip(sequence, []);
      assert EncodeFixed64(sequence) + [] == EncodeFixed64(sequence);
    }

    method SetSequence(n: Uint64)
      requires Valid()
      modifies this
      ensures Valid() && sequence == n && ops == old(ops)
    {
      Parts();
      rep := EncodeFixed64(n) + rep[8..];
      assert rep[8..] == old(rep)[8..] == EncodeFixed32(|ops|) + OpsBytes(ops);
      sequence := n;
    }

    /** Overwrites the count and appends encoded operations. */
    method Extend(n: nat, bytes: Bytes, ghost more: seq<Op>)
      requires Valid() && n == |ops| + |more| < TWO_32 && bytes == OpsBytes(more)
      requires forall op | op in more :: OpFits(op)
      modifies this
      ensures Valid() && ops == old(ops) + more && sequence == old(sequence)
    {
      Parts();
      OpsAppend(ops, more);
      rep := rep[..8] + (EncodeFixed32(n) + (rep[12..] + bytes));
      ops := ops + more;
    }

    method Put(key: Bytes, value: Bytes)
      requires Valid() && |ops| + 1 < TWO_32 && |key| < TWO_32 && |value| < TWO_32
      modifies this
      ensures Valid() && ops == old(ops) + [Op.Put(key, value)] && sequence == old(sequence)
    {
      var count := Count();
      var op := Op.Put(key, value);
      assert OpsBytes([op]) == OpBytes(op) + OpsBytes([]) == OpBytes(op);
      Extend(count + 1, OpBytes(op), [op]);
    }

    method Delete(key: Bytes)
      requires Valid() && |ops| + 1 < TWO_32 && |key| < TWO_32
      modifies this
      ensures Valid() && ops == old(ops) + [Op.Delete(key)] && sequence == old(sequence)
    {
      var count := Count();
      var op := Op.Delete(key);
      assert OpsBytes([op]) == OpBytes(op) + OpsBytes([]) == OpBytes(op);
      Extend(count + 1, OpBytes(op), [op]);
    }

    method Append(source: WriteBatch)
      requires Valid() && source.Valid() && |ops| + |source.ops| < TWO_32
      modifies this
      ensures Valid() && ops == old(ops) + old(source.ops) && sequence == old(sequence)
    {
      var count := Count();
      var more := source.Count();
      source.Parts();
      Extend(count + more, source.rep[HEADER..], source.ops);
    }
  }

  /** The operations that Iterate gives its handler, and whether it then finds the input used up. */
  function Replay(input: Bytes): (seq<Op>, bool)
    decreases |input|
  {
    if input == [] then ([], true)
    else
      match ParseOp(input)
      case None => ([], false)
      case Some((op, n)) =>
        var rest := Replay(input[n..]);
        ([op] + rest.0, rest.1)
  }

  lemma {:induction false} OpsReplay(ops: seq<Op>)
    requires forall op | op in ops :: OpFits(op)
    ensures Replay(OpsBytes(ops)) == (ops, true)
  {
    if ops != [] {
      OpParses(ops[0], OpsBytes(ops[1..]));
      OpsReplay(ops[1..]);
      assert ops == [ops[0]] + ops[1..];
    }
  }

  /** The switch on the tag. */
  method ReadOp(input: Bytes) returns (r: Option<(Op, nat)>)
    requires input != []
    ensures r == ParseOp(input)
  {
    var tag := input[0];
    var rest := input[1..];
    var key := GetLengthPrefixedSlice(rest);
    if key.None? {
      return None;
    }
    if tag == 1 {
      var value := GetLengthPrefixedSlice(rest[key.value.1..]);
      if value.None? {
        return None;
      }
      r := Some((Op.Put(key.value.0, value.value.0), 1 + key.value.1 + value.value.1));
    } else if tag == 0 {
      r := Some((Op.Delete(key.value.0), 1 + key.value.1));
    } else {
      r := None;
    }
  }

  function SequenceOf(rep: Bytes): Uint64
    requires |rep| >= HEADER
  {
    DecodeFixed64(rep[..8])
  }

  function CountOf(rep: Bytes): Uint32
    requires |rep| >= HEADER
  {
    DecodeFixed32(rep[8..12])
  }

  /** Iterate with the memtable inserter, over any string: what is inserted before the first error stays inserted. */
  method InsertInto(rep: Bytes, mem: seq<(nat, Op)>) returns (ok: bool, after: seq<(nat, Op)>)
    ensures |rep| < HEADER ==> !ok && after == mem
    ensures |rep| >= HEADER ==>
              var (ops, whole) := Replay(rep[HEADER..]);
              after == mem + Numbered(SequenceOf(rep), ops) && ok == (whole && |ops| == CountOf(rep))
  {
    after := mem;
    if |rep| < HEADER {
      return false, mem;
    }
    var sequence: nat := SequenceOf(rep);
    var input := rep[HEADER..];
    ghost var all := Replay(input);
    var found: nat := 0;
    while input != []
      invariant Inserting(sequence, all, mem, input, found, after)
      decreases |input|
    {
      var op := ReadOp(input);
      InsertStep(sequence, all, mem, input, found, after);
      if op.None? {
        return false, after;
      }
      after := after + [(sequence + found, op.value.0)];
      input := input[op.value.1..];
      found := found + 1;
    }
    assert all.0[..found] == all.0;
    ok := found == CountOf(rep);
  }

  /** found operations have been inserted; the rest of the input replays to the rest. */
  ghost predicate Inserting(sequence: nat, all: (seq<Op>, bool), mem: seq<(nat, Op)>, input: Bytes, found: nat,
                            after: seq<(nat, Op)>) {
    && found <= |all.0| && Replay(input) == (all.0[found..], all.1)
    && after == mem + Numbered(sequence, all.0[..found])
  }

  lemma InsertStep(sequence: nat, all: (seq<Op>, bool), mem: seq<(nat, Op)>, input: Bytes, found: nat,
                   after: seq<(nat, Op)>)
    requires input != [] && Inserting(sequence, all, mem, input, found, after)
    ensures ParseOp(input).None? ==> after == mem + Numbered(sequence, all.0) && !all.1
    ensures ParseOp(input).Some? ==>
              var (op, n) := ParseOp(input).value;
              Inserting(sequence, all, mem, input[n..], found + 1, after + [(sequence + found, op)])
  {
    ReplayStep(input, all, found);
    if ParseOp(input).Some? {
      NumberedGrows(sequence, all.0, found);
    }
  }

  lemma ReplayStep(input: Bytes, all: (seq<Op>, bool), found: nat)
    requires input != [] && found <= |all.0| && Replay(input) == (all.0[found..], all.1)
    ensures ParseOp(input).None? ==> all.0[..found] == all.0 && !all.1
    ensures ParseOp(input).Some? ==>
              && found < |all.0| && ParseOp(input).value.0 == all.0[found]
              && Replay(input[ParseOp(input).value.1..]) == (all.0[found + 1..], all.1)
  {
    var rest := all.0[found..];
    if ParseOp(input).Some? {
      var after := Replay(input[ParseOp(input).value.1..]);
      assert rest == [ParseOp(input).value.0] + after.0;
      assert rest[1..] == after.0 && rest[1..] == all.0[found + 1..];
    }
  }

  lemma NumberedGrows(sequence: nat, ops: seq<Op>, n: nat)
    requires n < |ops|
    ensures Numbered(sequence, ops[..n + 1]) == Numbered(sequence, ops[..n]) + [(sequence + n, ops[n])]
  {
  }

  /** Replaying a batch inserts its operations, each once and in order, numbered from the batch's sequence on. */
  lemma BatchInserts(sequence: Uint64, ops: seq<Op>)
    requires |ops| < TWO_32 && forall op | op in ops :: OpFits(op)
    ensures var rep := BatchBytes(sequence, ops);
            && |rep| >= HEADER && SequenceOf(rep) == sequence && CountOf(rep) == |ops|
            && Replay(rep[HEADER..]) == (ops, true)
  {
    HeaderReads(sequence, |ops|, OpsBytes(ops));
    OpsReplay(ops);
  }

  lemma HeaderReads(sequence: Uint64, count: Uint32, body: Bytes)
    ensures var rep := EncodeFixed64(sequence) + (EncodeFixed32(count) + body);
            && |rep| >= HEADER && SequenceOf(rep) == sequence && CountOf(rep) == count && rep[HEADER..] == body
  {
    var rep := EncodeFixed64(sequence) + (EncodeFixed32(count) + body);
    assert rep[..8] == EncodeFixed64(sequence) && rep[8..12] == EncodeFixed32(count) && rep[12..] == body;
    Fixed64RoundTrip(sequence, []);
    Fixed32RoundTrip(count, []);
    assert EncodeFixed64(sequence) + [] == EncodeFixed64(sequence) && EncodeFixed32(count) + [] == EncodeFixed32(count);
  }
}
