/**
 What the log reader makes of damage: a record in which a byte of the type or the payload has changed, or up to four in
 a row, is never returned; what is left of its block is dropped and reported, and reading goes on with the next block.
 */
module LogDamage {
  import opened Coding
  import opened Crc32c
  import opened Keys
  import opened LogFormat
  import opened LogReader
  import opened LogRecovery
  import opened Reads
  import CrcDetection

  lemma {:induction false} BitsToNatIsInjective(a: seq<bool>, b: seq<bool>)
    requires |a| == |b| && BitsToNat(a) == BitsToNat(b)
    ensures a == b
  {
    if a != [] {
      assert a[0] == b[0] && BitsToNat(a[1..]) == BitsToNat(b[1..]);
      BitsToNatIsInjective(a[1..], b[1..]);
      assert a == [a[0]] + a[1..] && b == [b[0]] + b[1..];
    }
  }

  lemma DifferentSums(a: Word, b: Word)
    requires a != b
    ensures Number(a) != Number(b)
  {
    if Number(a) == Number(b) {
      BitsToNatIsInjective(a, b);
    }
  }

  /** What was written and what is found instead: the same but for one byte, or but for four in a row. */
  ghost predicate Damaged(written: seq<Byte>, found: seq<Byte>) {
    exists front: seq<Byte>, x: seq<Byte>, y: seq<Byte>, back: seq<Byte> ::
      && written == front + x + back && found == front + y + back
      && x != y && |x| == |y| && (|x| == 1 || |x| == 4)
  }

  lemma DamagedHasOtherSum(written: seq<Byte>, found: seq<Byte>)
    requires Damaged(written, found)
    ensures ValueOf(written) != ValueOf(found) && |written| == |found|
  {
    var front: seq<Byte>, x: seq<Byte>, y: seq<Byte>, back: seq<Byte> :|
      && written == front + x + back && found == front + y + back
      && x != y && |x| == |y| && (|x| == 1 || |x| == 4);
    if |x| == 1 {
      assert x == [x[0]] && y == [y[0]];
      CrcDetection.OneByteIsSeen(ZERO, front, x[0], y[0], back);
    } else {
      CrcDetection.BurstIsSeen(ZERO, front, x, y, back);
    }
  }

  /** The stored checksum accepts no damaged record. */
  lemma DamageIsNotAccepted(kind: Byte, payload: seq<Byte>, found: seq<Byte>)
    requires Damaged([kind] + payload, found)
    ensures !ChecksumMatches(StoredChecksum(kind, payload), found)
  {
    var written := [kind] + payload;
    StoredChecksumMatches(kind, payload);
    DamagedHasOtherSum(written, found);
    DifferentSums(ValueOf(written), ValueOf(found));
  }

  const CHECKED: Checking := Checking(ChecksumMatches, true)

  /** A record at p of a file, inside its block, as it was written but for what its checksum covers. */
  ghost predicate DamagedRecordAt(file: seq<Byte>, p: nat, e: nat, kind: Byte, payload: seq<Byte>, found: seq<Byte>) {
    && |payload| <= 0xffff && Damaged([kind] + payload, found)
    && e == (if BlockEnd(p) <= |file| then BlockEnd(p) else |file|)
    && p + HEADER_SIZE + |payload| <= e
    && StoredChecksum(kind, payload) + LengthBytes(|payload|) + found <= file[p..e]
  }

  lemma HeaderOf(buffer: seq<Byte>, stored: Fixed32, length: nat, found: seq<Byte>)
    requires length <= 0xffff && |found| == length + 1 && |stored| == 4
    requires stored + LengthBytes(length) + found <= buffer
    ensures |buffer| >= HEADER_SIZE + length && HeaderLength(buffer) == length && buffer[6] == found[0]
    ensures buffer[..4] == stored && buffer[6..HEADER_SIZE + length] == found
  {
    var all := stored + LengthBytes(length) + found;
    LengthBytesParse(length);
    assert forall i | 0 <= i < |all| :: buffer[i] == all[i];
  }

  /** A record that the check does not accept, whatever the check. */
  lemma RefusedRecord(file: seq<Byte>, c: Checking, p: nat, e: nat, stored: Fixed32, length: nat, found: seq<Byte>)
    requires p <= |file| && e == (if BlockEnd(p) <= |file| then BlockEnd(p) else |file|)
    requires p + HEADER_SIZE + length <= e && length <= 0xffff && |found| == length + 1
    requires stored + LengthBytes(length) + found <= file[p..e]
    requires c.enabled && !c.check(stored, found)
    ensures ReadPhysicalAt(file, c, p) == Physical(BAD_RECORD, [], e, if found == [ZERO_TYPE] then [] else [e - p])
  {
    HeaderOf(file[p..e], stored, length, found);
  }

  /**
   The reader refuses it, and drops and reports the rest of the block. A type and a length that are both zero are what
   preallocated files hold: those are skipped without a report.
   */
  lemma DamagedRecordIsRefused(file: seq<Byte>, p: nat, e: nat, kind: Byte, payload: seq<Byte>, found: seq<Byte>)
    requires p <= |file| && DamagedRecordAt(file, p, e, kind, payload, found)
    ensures ReadPhysicalAt(file, CHECKED, p)
         == Physical(BAD_RECORD, [], e, if found == [ZERO_TYPE] then [] else [e - p])
  {
    DamagedHasOtherSum([kind] + payload, found);
    DamageIsNotAccepted(kind, payload, found);
    RefusedRecord(file, CHECKED, p, e, StoredChecksum(kind, payload), |payload|, found);
  }

  lemma AfterRefusal(file: seq<Byte>, c: Checking, p: nat, e: nat, dropped: seq<nat>, partial: Partial)
    requires p <= e <= |file| && dropped != [] && ReadPhysicalAt(file, c, p) == Physical(BAD_RECORD, [], e, dropped)
    requires !partial.inside ==> partial.scratch == []
    ensures var r := ReadRecordAt(file, c, p, partial);
            var s := ReadRecordAt(file, c, e, Partial(false, [], partial.start));
            p < e && r.dropped != [] && r.dropped[0] == dropped[0]
              && r.record == s.record && r.offset == s.offset && r.next == s.next
  {
    var physical := ReadPhysicalAt(file, c, p);
    var outcome := Take(partial, physical);
    var r := ReadRecordAt(file, c, p, partial);
    assert outcome.Continue? && outcome.partial == Partial(false, [], partial.start);
    assert [] + r.dropped == r.dropped;
    RecordStep(file, c, p, physical, partial, outcome, [], r);
  }

  /**
   Nothing of the damaged block comes back from there on: the damage is reported first, and what is read next is what a
   reader that starts at the next block reads.
   */
  lemma DamageIsReported(file: seq<Byte>, p: nat, e: nat, kind: Byte, payload: seq<Byte>, found: seq<Byte>,
                         partial: Partial)
    requires p <= |file| && DamagedRecordAt(file, p, e, kind, payload, found) && found != [ZERO_TYPE]
    requires !partial.inside ==> partial.scratch == []
    ensures var r := ReadRecordAt(file, CHECKED, p, partial);
            var s := ReadRecordAt(file, CHECKED, e, Partial(false, [], partial.start));
            p < e && r.dropped != [] && r.dropped[0] == e - p
              && r.record == s.record && r.offset == s.offset && r.next == s.next
  {
    DamagedRecordIsRefused(file, p, e, kind, payload, found);
    AfterRefusal(file, CHECKED, p, e, [e - p], partial);
  }

  // ---------------------------------------------------------------- nothing is dropped in silence

  function Sum(numbers: seq<nat>): nat {
    if numbers == [] then 0 else numbers[0] + Sum(numbers[1..])
  }

  lemma {:induction false} SumJoins(a: seq<nat>, b: seq<nat>)
    ensures Sum(a + b) == Sum(a) + Sum(b)
  {
    if a == [] {
      assert a + b == b;
    } else {
      assert (a + b)[1..] == a[1..] + b;
      SumJoins(a[1..], b);
    }
  }

  /** A header with neither type nor length, as preallocated files have it. */
  predicate IsZeroHeader(buffer: seq<Byte>) {
    |buffer| >= HEADER_SIZE && buffer[6] == ZERO_TYPE && HeaderLength(buffer) == 0
  }

  /** In a whole block: the header and its payload are passed over, or all that is left is reported. */
  lemma BlockIsAccountedFor(file: seq<Byte>, c: Checking, p: nat, e: nat)
    requires p + HEADER_SIZE <= e <= |file| && !IsZeroHeader(file[p..e])
    ensures var r := ParseAt(file, c, p, e, true);
            if r.dropped == [] then r.next == p + HEADER_SIZE + |r.payload|
            else Sum(r.dropped) == e - p && r.next == e && r.payload == []
  {
    assert Sum([e - p]) == e - p;
  }

  /** The payload of a record of one of the writer's types; the reader has two more for what it cannot read. */
  function Payload(r: Physical): nat {
    if r.kind == EOF || r.kind == BAD_RECORD then 0 else |r.payload|
  }

  /** All payloads, and all that is left of bad blocks, that reading a record at p goes over. */
  function Consumed(file: seq<Byte>, c: Checking, p: nat, partial: Partial): nat
    requires p <= |file|
    decreases |file| - p
  {
    var r := ReadPhysicalAt(file, c, p);
    Payload(r) + Sum(r.dropped) +
    match Take(partial, r)
    case Return(_, _, _) => 0
    case Continue(q, _) => Consumed(file, c, r.next, q)
  }

  /** One physical record: its payload is returned, gathered or reported, and so is what had been gathered before. */
  lemma TakeConserves(partial: Partial, r: Physical)
    requires r.kind == EOF || HEADER_SIZE + |r.payload| <= r.next
    requires !partial.inside ==> partial.scratch == []
    ensures var outcome := Take(partial, r);
            && (outcome.Return? && outcome.record.Some? ==>
                  |partial.scratch| + Payload(r) == |outcome.record.value| + Sum(outcome.dropped))
            && (outcome.Return? && outcome.record.None? ==> outcome.dropped == [] && Payload(r) == 0)
            && (outcome.Continue? ==>
                  && |partial.scratch| + Payload(r) == |outcome.partial.scratch| + Sum(outcome.dropped)
                  && (!outcome.partial.inside ==> outcome.partial.scratch == []))
  {
    var n := |r.payload| + if partial.inside then |partial.scratch| else 0;
    assert Sum([n]) == n && Sum([|r.payload|]) == |r.payload| && Sum([|partial.scratch|]) == |partial.scratch|;
  }

  /**
   Over any file: what was gathered before and all that is read on the way to a record is in the record, or is reported.
   Only the end of the file may leave a record unfinished without a report.
   */
  lemma {:induction false} NothingIsDroppedInSilence(file: seq<Byte>, c: Checking, p: nat, partial: Partial)
    requires p <= |file| && (!partial.inside ==> partial.scratch == [])
    ensures var r := ReadRecordAt(file, c, p, partial);
            var all := |partial.scratch| + Consumed(file, c, p, partial);
            if r.record.Some? then all == |r.record.value| + Sum(r.dropped) else all >= Sum(r.dropped)
    decreases |file| - p
  {
    var physical := ReadPhysicalAt(file, c, p);
    var outcome := Take(partial, physical);
    TakeConserves(partial, physical);
    SumJoins(physical.dropped, outcome.dropped);
    if outcome.Continue? {
      NothingIsDroppedInSilence(file, c, physical.next, outcome.partial);
      SumJoins(physical.dropped + outcome.dropped, ReadRecordAt(file, c, physical.next, outcome.partial).dropped);
    }
  }
}
