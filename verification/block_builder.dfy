/**
 BlockBuilder: Add and Finish, and Block's reading of the trailer. What Finish returns holds exactly the pairs that
 were added (block_builder.cc, block.cc).
 */
module BlockBuilding {
  import opened BlockIter
  import opened Blocks
  import opened Coding
  import opened Cursors
  import opened Keys
  import opened Reads
  import Slices

  /** The length of the longest prefix that two keys share. */
  function Common(a: Key, b: Key): (n: nat)
    ensures n <= |a| && n <= |b|
    ensures a[..n] == b[..n]
    ensures n < |a| && n < |b| ==> a[n] != b[n]
  {
    if a == [] || b == [] || a[0] != b[0] then 0
    else
      var n := Common(a[1..], b[1..]);
      assert a[..n + 1] == [a[0]] + a[1..][..n] && b[..n + 1] == [b[0]] + b[1..][..n];
      n + 1
  }

  lemma {:induction false} CommonIs(a: Key, b: Key, n: nat)
    requires n <= |a| && n <= |b| && a[..n] == b[..n]
    requires n < |a| && n < |b| ==> a[n] != b[n]
    ensures Common(a, b) == n
  {
    var m := Common(a, b);
    assert forall k | 0 <= k < n :: a[k] == a[..n][k] == b[..n][k] == b[k];
    assert forall k | 0 <= k < m :: a[k] == a[..m][k] == b[..m][k] == b[k];
  }

  // ---------------------------------------------------------------- a block under construction

  /** Entry i lies in the buffer, and takes as much of the key before it as it can unless it is a restart point. */
  ghost predicate Written(buffer: seq<Byte>, l: Layout, i: nat)
    requires Shaped(l) && i < |l.pairs|
  {
    && l.shared[i] <= |l.pairs[i].key| < TWO_32
    && l.offsets[i] <= l.offsets[i + 1] <= |buffer|
    && buffer[l.offsets[i]..l.offsets[i + 1]] == EntryBytes(l.shared[i], l.pairs[i])
    && l.shared[i] == if i in l.restarts then 0 else if i == 0 then 0 else Common(l.pairs[i - 1].key, l.pairs[i].key)
  }

  /** Restart points come every so many entries. */
  ghost predicate Spaced(l: Layout, interval: nat) {
    && Shaped(l) && l.restarts[0] == 0
    && (forall j | 0 <= j < |l.restarts| - 1 :: l.restarts[j + 1] == l.restarts[j] + interval)
    && l.restarts[|l.restarts| - 1] <= |l.pairs|
    && (|l.pairs| > 0 ==> l.restarts[|l.restarts| - 1] < |l.pairs|)
  }

  ghost predicate Building(buffer: seq<Byte>, l: Layout, interval: nat) {
    && Spaced(l, interval)
    && l.offsets[0] == 0 && l.offsets[|l.pairs|] == |buffer|
    && forall i {:trigger Written(buffer, l, i)} | 0 <= i < |l.pairs| :: Written(buffer, l, i)
  }

  /** The layout after one more pair. */
  ghost function Extended(l: Layout, p: Pair, shared: nat, restart: bool, end: nat): Layout {
    Layout(l.pairs + [p], l.offsets + [end], l.shared + [shared],
           if restart then l.restarts + [|l.pairs|] else l.restarts)
  }

  lemma BuildingGrows(buffer: seq<Byte>, l: Layout, interval: nat, p: Pair, shared: nat, restart: bool)
    requires Building(buffer, l, interval) && interval >= 1
    requires shared <= |p.key| < TWO_32
    requires restart ==> |l.pairs| == l.restarts[|l.restarts| - 1] + interval
    requires shared == if restart || l.pairs == [] then 0 else Common(l.pairs[|l.pairs| - 1].key, p.key)
    requires !restart && l.pairs != [] ==> |l.pairs| < l.restarts[|l.restarts| - 1] + interval
    ensures var b := buffer + EntryBytes(shared, p);
            Building(b, Extended(l, p, shared, restart, |b|), interval)
  {
    var b := buffer + EntryBytes(shared, p);
    var m := Extended(l, p, shared, restart, |b|);
    forall i | 0 <= i < |m.pairs|
      ensures Written(b, m, i)
    {
      if i < |l.pairs| {
        WrittenStays(buffer, b, l, m, i);
      } else {
        assert b[|buffer|..|b|] == EntryBytes(shared, p);
        RestartsBelow(l, interval);
      }
    }
  }

  /** What has been written stays as it is. */
  lemma WrittenStays(buffer: seq<Byte>, b: seq<Byte>, l: Layout, m: Layout, i: nat)
    requires Shaped(l) && Shaped(m) && i < |l.pairs| && Written(buffer, l, i) && buffer <= b
    requires l.pairs <= m.pairs && l.offsets <= m.offsets && l.shared <= m.shared
    requires m.restarts == l.restarts || m.restarts == l.restarts + [|l.pairs|]
    ensures Written(b, m, i)
  {
    assert m.pairs[i] == l.pairs[i] && m.offsets[i] == l.offsets[i] && m.offsets[i + 1] == l.offsets[i + 1];
    assert b[l.offsets[i]..l.offsets[i + 1]] == buffer[l.offsets[i]..l.offsets[i + 1]];
    assert i in m.restarts <==> i in l.restarts;
  }

  lemma RestartsBelow(l: Layout, interval: nat)
    requires Spaced(l, interval) && interval >= 1
    ensures Increasing(l.restarts)
    ensures |l.pairs| in l.restarts ==> l.pairs == []
  {
    forall i, j {:trigger Rises(l.restarts, i, j)}
      ensures Rises(l.restarts, i, j)
    {
      if 0 <= i < j < |l.restarts| {
        RestartsRise(l, interval, i, j);
      }
    }
    if |l.pairs| in l.restarts {
      var j :| 0 <= j < |l.restarts| && l.restarts[j] == |l.pairs|;
      assert Rises(l.restarts, j, |l.restarts| - 1);
    }
  }

  lemma {:induction false} RestartsRise(l: Layout, interval: nat, i: nat, j: nat)
    requires Spaced(l, interval) && interval >= 1 && i < j < |l.restarts|
    ensures l.restarts[i] < l.restarts[j]
  {
    assert l.restarts[(j - 1) + 1] == l.restarts[j - 1] + interval;
    if i < j - 1 {
      RestartsRise(l, interval, i, j - 1);
    }
  }

  function LastKey(pairs: seq<Pair>): Key {
    if pairs == [] then [] else pairs[|pairs| - 1].key
  }

  /** The restart array: the offsets of the restart points, truncated to 32 bits. */
  ghost predicate PointsAt(restarts: seq<Uint32>, l: Layout) {
    && |restarts| == |l.restarts|
    && forall j | 0 <= j < |restarts| :: l.restarts[j] < |l.offsets| && restarts[j] == l.offsets[l.restarts[j]] % TWO_32
  }

  lemma PointsAtGrows(restarts: seq<Uint32>, l: Layout, p: Pair, shared: nat, restart: bool, end: nat)
    requires Shaped(l) && PointsAt(restarts, l)
    ensures PointsAt(if restart then restarts + [l.offsets[|l.pairs|] % TWO_32] else restarts,
                     Extended(l, p, shared, restart, end))
  {
  }

  /** Offsets in a block are 32-bit numbers. */
  predicate Fits(entries: nat, restarts: nat) {
    entries + 4 * restarts + 4 < TWO_32
  }

  function Fixed32s(ns: seq<Uint32>): (bytes: seq<Byte>)
    ensures |bytes| == 4 * |ns|
  {
    if ns == [] then [] else Fixed32s(ns[..|ns| - 1]) + EncodeFixed32(ns[|ns| - 1])
  }

  function Trailer(restarts: seq<Uint32>): seq<Byte>
    requires |restarts| < TWO_32
  {
    Fixed32s(restarts) + EncodeFixed32(|restarts|)
  }

  lemma {:induction false} Fixed32sParse(ns: seq<Uint32>, j: nat)
    requires j < |ns|
    ensures Fixed32s(ns)[4 * j..4 * j + 4] == EncodeFixed32(ns[j])
  {
    var init := ns[..|ns| - 1];
    if j < |ns| - 1 {
      Fixed32sParse(init, j);
      assert Fixed32s(ns)[4 * j..4 * j + 4] == Fixed32s(init)[4 * j..4 * j + 4];
    }
  }

  lemma RestartParses(entries: seq<Byte>, ns: seq<Uint32>, j: nat)
    requires |ns| < TWO_32 && j < |ns|
    ensures RestartPoint(entries + Trailer(ns), |entries|, j) == ns[j]
  {
    var data := entries + Trailer(ns);
    Fixed32sParse(ns, j);
    Slices.Associates(entries, Fixed32s(ns), EncodeFixed32(|ns|));
    assert data[|entries| + 4 * j..|entries| + 4 * j + 4] == Fixed32s(ns)[4 * j..4 * j + 4];
    Fixed32RoundTrip(ns[j], []);
    assert EncodeFixed32(ns[j]) + [] == EncodeFixed32(ns[j]);
  }

  /** What was built is a block. */
  lemma BuiltIsBlock(entries: seq<Byte>, l: Layout, interval: nat, restarts: seq<Uint32>)
    requires Building(entries, l, interval) && interval >= 1 && PointsAt(restarts, l) && Fits(|entries|, |restarts|)
    ensures IsBlock(entries + Trailer(restarts), |entries|, l)
  {
    var data := entries + Trailer(restarts);
    OffsetsIncrease(entries, l, interval);
    RestartsBelow(l, interval);
    if l.pairs == [] {
      OneRestartIfEmpty(l, interval);
    }
    forall i | 0 <= i < |l.pairs|
      ensures Slot(data, |entries|, l, i)
    {
      WrittenIsSlot(entries, Trailer(restarts), l, interval, i);
    }
    forall j | 0 <= j < |l.restarts|
      ensures Restart(data, |entries|, l, j)
    {
      RestartParses(entries, restarts, j);
      RestartIs(entries, l, interval, j);
    }
  }

  lemma OneRestartIfEmpty(l: Layout, interval: nat)
    requires Spaced(l, interval) && interval >= 1 && l.pairs == []
    ensures |l.restarts| == 1
  {
    RestartsBelow(l, interval);
    assert Rises(l.restarts, 0, |l.restarts| - 1);
  }

  lemma RestartIs(entries: seq<Byte>, l: Layout, interval: nat, j: nat)
    requires Building(entries, l, interval) && interval >= 1 && j < |l.restarts|
    ensures l.restarts[j] <= |l.pairs|
    ensures l.restarts[j] < |l.pairs| ==> l.shared[l.restarts[j]] == 0
    ensures l.offsets[l.restarts[j]] <= |entries|
  {
    OffsetsIncrease(entries, l, interval);
    RestartsBelow(l, interval);
    assert Rises(l.offsets, l.restarts[j], |l.pairs|);
    assert Rises(l.restarts, j, |l.restarts| - 1);
    if l.restarts[j] < |l.pairs| {
      assert Written(entries, l, l.restarts[j]);
    }
  }

  lemma WrittenIsSlot(entries: seq<Byte>, rest: seq<Byte>, l: Layout, interval: nat, i: nat)
    requires Building(entries, l, interval) && i < |l.pairs| && |entries + rest| < TWO_32
    ensures Slot(entries + rest, |entries|, l, i)
  {
    var data := entries + rest;
    assert Written(entries, l, i);
    var bytes := EntryBytes(l.shared[i], l.pairs[i]);
    var p, q := l.offsets[i], l.offsets[i + 1];
    assert bytes <= data[p..|entries|] by {
      Slices.SplitSlice(data, p, q, |entries|);
      assert data[p..q] == entries[p..q];
    }
    EntryParses(data, l.offsets[i], |entries|, l.shared[i], l.pairs[i]);
  }

  lemma OffsetsIncrease(entries: seq<Byte>, l: Layout, interval: nat)
    requires Building(entries, l, interval)
    ensures Increasing(l.offsets)
  {
    forall i, j {:trigger Rises(l.offsets, i, j)}
      ensures Rises(l.offsets, i, j)
    {
      if 0 <= i < j < |l.offsets| {
        OffsetsRise(entries, l, interval, i, j);
      }
    }
  }

  lemma {:induction false} OffsetsRise(entries: seq<Byte>, l: Layout, interval: nat, i: nat, j: nat)
    requires Building(entries, l, interval) && i < j <= |l.pairs|
    ensures l.offsets[i] < l.offsets[j]
  {
    assert Written(entries, l, j - 1);
    EntryTakesRoom(l.shared[j - 1], l.pairs[j - 1]);
    if i < j - 1 {
      OffsetsRise(entries, l, interval, i, j - 1);
    }
  }

  lemma EntryTakesRoom(shared: nat, p: Pair)
    requires shared <= |p.key|
    ensures |EntryBytes(shared, p)| >= 3
  {
    SizesLength(shared, |p.key| - shared, |p.value|);
  }

  // ---------------------------------------------------------------- the builder

  class BlockBuilder {
    const interval: nat
    var buffer: seq<Byte>
    var restarts: seq<Uint32>
    var counter: nat
    var finished: bool
    var lastKey: Key
    ghost var l: Layout

    ghost predicate Valid()
      reads this
    {
      && interval >= 1 && !finished && Building(buffer, l, interval)
      && PointsAt(restarts, l)
      && counter == |l.pairs| - l.restarts[|l.restarts| - 1] <= interval
      && lastKey == LastKey(l.pairs)
    }

    constructor (interval: nat)
      requires interval >= 1
      ensures Valid() && l.pairs == [] && buffer == [] && |restarts| == 1
    {
      this.interval := interval;
      buffer, restarts, counter, finished, lastKey := [], [0], 0, false, [];
      l := Layout([], [0], [], [0]);
    }

    method SharedPrefix(key: Key) returns (shared: nat)
      ensures shared == Common(lastKey, key)
    {
      shared := 0;
      var minLength := if |lastKey| < |key| then |lastKey| else |key|;
      while shared < minLength && lastKey[shared] == key[shared]
        invariant shared <= minLength
        invariant lastKey[..shared] == key[..shared]
      {
        shared := shared + 1;
      }
      CommonIs(lastKey, key, shared);
    }

    method Add(key: Key, value: Value)
      requires Valid()
      requires |key| < TWO_32 && |value| < TWO_32
      modifies this
      ensures Valid() && l.pairs == old(l.pairs) + [Pair(key, value)]
      ensures |buffer| + 4 * |restarts| <= old(|buffer| + 4 * |restarts|) + |key| + |value| + 19
    {
      var shared := 0;
      var restart := counter >= interval;
      ghost var pair := Pair(key, value);
      if counter < interval {
        shared := SharedPrefix(key);
      } else {
        restarts := restarts + [|buffer| % TWO_32];
        counter := 0;
      }
      ghost var entry := EntryBytes(shared, pair);
      ghost var wider := Extended(l, pair, shared, restart, |buffer + entry|);
      assert Building(buffer + entry, wider, interval) by {
        BuildingGrows(buffer, l, interval, pair, shared, restart);
      }
      assert PointsAt(restarts, wider) by {
        PointsAtGrows(old(restarts), l, pair, shared, restart, |buffer + entry|);
      }
      AppendEntry(shared, key, value, wider);
    }

    /** The bytes of an entry, and what is remembered for the next one. */
    method AppendEntry(shared: nat, key: Key, value: Value, ghost wider: Layout)
      requires shared <= |lastKey| && shared <= |key| < TWO_32 && |value| < TWO_32
      requires lastKey[..shared] == key[..shared]
      modifies this`buffer, this`lastKey, this`counter, this`l
      ensures buffer == old(buffer) + EntryBytes(shared, Pair(key, value)) && l == wider
      ensures lastKey == key && counter == old(counter) + 1
      ensures |buffer| <= |old(buffer)| + |key| + |value| + 15
    {
      var bytes := EncodeEntry(shared, key, value);
      buffer := buffer + bytes;
      lastKey := lastKey[..shared] + key[shared..];
      counter := counter + 1;
      l := wider;
    }

    /** "<shared><non_shared><value_size>", then the key delta and the value. */
    method EncodeEntry(shared: nat, key: Key, value: Value) returns (bytes: seq<Byte>)
      requires shared <= |key| < TWO_32 && |value| < TWO_32
      ensures bytes == EntryBytes(shared, Pair(key, value)) && |bytes| <= |key| + |value| + 15
    {
      bytes := EncodeVarint32(shared);
      var size := EncodeVarint32(|key| - shared);
      bytes := bytes + size;
      size := EncodeVarint32(|value|);
      bytes := bytes + size;
      bytes := bytes + (key[shared..] + value);
    }

    /** The block's contents: the entries, the restart array, and its length. */
    method Finish() returns (contents: seq<Byte>)
      requires Valid()
      requires Fits(|buffer|, |restarts|)
      modifies this`buffer, this`finished
      ensures finished && buffer == contents == old(buffer) + Trailer(old(restarts))
      ensures IsBlock(contents, |old(buffer)|, l)
    {
      BuiltIsBlock(buffer, l, interval, restarts);
      AppendTrailer();
      finished := true;
      contents := buffer;
    }

    method AppendTrailer()
      requires |restarts| < TWO_32
      modifies this`buffer
      ensures buffer == old(buffer) + Trailer(restarts)
    {
      ghost var entries := buffer;
      for i := 0 to |restarts|
        invariant buffer == entries + Fixed32s(restarts[..i])
      {
        assert restarts[..i + 1][..i] == restarts[..i];
        Slices.Associates(entries, Fixed32s(restarts[..i]), EncodeFixed32(restarts[i]));
        buffer := buffer + EncodeFixed32(restarts[i]);
      }
      assert restarts[..|restarts|] == restarts;
      Slices.Associates(entries, Fixed32s(restarts), EncodeFixed32(|restarts|));
      buffer := buffer + EncodeFixed32(|restarts|);
    }
  }

  // ---------------------------------------------------------------- reading it back

  /**
   Block's constructor and NewIterator: where the restart array starts and how long it is, unless the size is wrong.
   */
  method OpenBlock(contents: seq<Byte>) returns (r: Option<(nat, nat)>)
    ensures r.Some? <==> |contents| >= 4 && DecodeFixed32(contents[|contents| - 4..]) <= (|contents| - 4) / 4
    ensures r.Some? ==> var (limit, n) := r.value;
              n == DecodeFixed32(contents[|contents| - 4..]) && limit + (1 + n) * 4 == |contents|
  {
    if |contents| < 4 {
      return None;
    }
    var numRestarts := DecodeFixed32(contents[|contents| - 4..]);
    var maxRestartsAllowed := (|contents| - 4) / 4;
    if numRestarts > maxRestartsAllowed {
      return None;
    }
    r := Some((|contents| - (1 + numRestarts) * 4, numRestarts));
  }

  lemma TrailerOpens(entries: seq<Byte>, ns: seq<Uint32>)
    requires |ns| < TWO_32
    ensures var data := entries + Trailer(ns);
            && |data| == |entries| + 4 * |ns| + 4
            && DecodeFixed32(data[|data| - 4..]) == |ns|
  {
    var data := entries + Trailer(ns);
    assert data[|data| - 4..] == EncodeFixed32(|ns|);
    Fixed32RoundTrip(|ns|, []);
    assert EncodeFixed32(|ns|) + [] == EncodeFixed32(|ns|);
  }

  /** A block is at most this long, however its keys compress: what Add can append at most. */
  function SizeBound(pairs: seq<Pair>): nat {
    if pairs == [] then 8
      else SizeBound(pairs[..|pairs| - 1]) + |pairs[|pairs| - 1].key| + |pairs[|pairs| - 1].value| + 19
  }

  /** A whole block, from its pairs. */
  method Build(interval: nat, pairs: seq<Pair>) returns (contents: seq<Byte>, ghost entries: seq<Byte>, ghost l: Layout)
    requires interval >= 1
    requires SizeBound(pairs) < TWO_32
    ensures l.pairs == pairs && IsBlock(contents, |entries|, l)
    ensures |contents| == |entries| + 4 * |l.restarts| + 4
    ensures DecodeFixed32(contents[|contents| - 4..]) == |l.restarts|
    ensures |contents| <= SizeBound(pairs)
  {
    var builder := new BlockBuilder(interval);
    for i := 0 to |pairs|
      invariant fresh(builder) && builder.Valid() && builder.l.pairs == pairs[..i]
      invariant |builder.buffer| + 4 * |builder.restarts| + 4 <= SizeBound(pairs[..i])
    {
      assert pairs[..i + 1][..i] == pairs[..i];
      BoundGrows(pairs, i + 1);
      builder.Add(pairs[i].key, pairs[i].value);
    }
    assert pairs[..|pairs|] == pairs;
    entries, l := builder.buffer, builder.l;
    TrailerOpens(entries, builder.restarts);
    contents := builder.Finish();
  }

  /**
   The round trip: for every strictly increasing list of pairs and every restart interval, the iterator over the block
   that was built from them is a cursor over exactly these pairs.
   */
  method BuildAndOpen(cmp: Order, ghost valid: Key -> bool, interval: nat, pairs: seq<Pair>) returns (iter: Iter)
    requires interval >= 1 && IsOrder(cmp, valid) && Ascending(cmp, valid, pairs)
    requires SizeBound(pairs) < TWO_32
    ensures fresh(iter) && iter.Block() && iter.Stands()
    ensures iter.cmp == cmp && iter.valid == valid && iter.l.pairs == pairs && iter.at == |pairs|
  {
    var contents;
    ghost var entries, l;
    contents, entries, l := Build(interval, pairs);
    var trailer := OpenBlock(contents);
    iter := new Iter(cmp, valid, contents, trailer.value.0, trailer.value.1, l);
  }

  lemma {:induction false} BoundGrows(pairs: seq<Pair>, i: nat)
    requires 0 < i <= |pairs|
    ensures SizeBound(pairs[..i]) <= SizeBound(pairs)
  {
    if i == |pairs| {
      assert pairs[..i] == pairs;
    } else {
      assert pairs[..|pairs| - 1][..i] == pairs[..i];
      BoundGrows(pairs[..|pairs| - 1], i);
    }
  }
}
