/**
 Block::Iter as a cursor: ParseNextKey, the restart-point searches of Seek and Prev, and SeekToLast (block.cc).
 */
module BlockIter {
  import opened Blocks
  import opened Coding
  import opened Cursors
  import opened Keys
  import opened Reads

  // ---------------------------------------------------------------- what a block holds

  /** The pairs of a block, where each starts (and the last ends), what each shares, and which are restart points. */
  datatype Layout = Layout(pairs: seq<Pair>, offsets: seq<nat>, shared: seq<nat>, restarts: seq<nat>)

  ghost predicate Shaped(l: Layout) {
    |l.offsets| == |l.pairs| + 1 && |l.shared| == |l.pairs| && |l.restarts| > 0
  }

  /** What entry i may take from the key before it. */
  ghost predicate Shares(l: Layout, i: nat)
    requires Shaped(l) && i < |l.pairs|
  {
    && l.shared[i] <= |l.pairs[i].key|
    && if i == 0 then l.shared[i] == 0
       else l.shared[i] <= |l.pairs[i - 1].key|
            && l.pairs[i].key[..l.shared[i]] == l.pairs[i - 1].key[..l.shared[i]]
  }

  ghost predicate Slot(data: seq<Byte>, limit: nat, l: Layout, i: nat)
    requires Shaped(l) && i < |l.pairs|
  {
    Shares(l, i) && HoldsEntry(data, l.offsets[i], limit, l.shared[i], l.pairs[i], l.offsets[i + 1])
  }

  /** GetRestartPoint. */
  function RestartPoint(data: seq<Byte>, limit: nat, j: nat): Uint32
    requires limit + 4 * j + 4 <= |data|
  {
    DecodeFixed32(data[limit + 4 * j..limit + 4 * j + 4])
  }

  ghost predicate Restart(data: seq<Byte>, limit: nat, l: Layout, j: nat)
    requires Shaped(l) && j < |l.restarts| && limit + 4 * |l.restarts| <= |data|
  {
    && l.restarts[j] <= |l.pairs|
    && (l.restarts[j] < |l.pairs| ==> l.shared[l.restarts[j]] == 0)
    && RestartPoint(data, limit, j) == l.offsets[l.restarts[j]]
  }

  ghost predicate Rises(s: seq<nat>, i: int, j: int) {
    0 <= i < j < |s| ==> s[i] < s[j]
  }

  ghost predicate Increasing(s: seq<nat>) {
    forall i, j {:trigger Rises(s, i, j)} :: Rises(s, i, j)
  }

  ghost predicate IsBlock(data: seq<Byte>, limit: nat, l: Layout) {
    && Shaped(l)
    && l.offsets[0] == 0 && l.offsets[|l.pairs|] == limit
    && limit + 4 * |l.restarts| <= |data|
    && Increasing(l.offsets)
    && (forall i {:trigger Slot(data, limit, l, i)} | 0 <= i < |l.pairs| :: Slot(data, limit, l, i))
    && l.restarts[0] == 0
    && Increasing(l.restarts)
    && (|l.pairs| == 0 ==> |l.restarts| == 1)
    && (|l.pairs| > 0 ==> l.restarts[|l.restarts| - 1] < |l.pairs|)
    && (forall j {:trigger Restart(data, limit, l, j)} | 0 <= j < |l.restarts| :: Restart(data, limit, l, j))
  }

  /** The sizes add up without wrapping, as they do in every block that was built. */
  ghost predicate InBounds(h: Option<Header>, limit: nat) {
    h.Some? ==> h.value.delta + h.value.nonShared + h.value.valueLength <= limit
  }

  /** Decoding entry k gives its own bytes, and the shared part of the key before makes its key. */
  lemma SlotDecodes(data: seq<Byte>, limit: nat, l: Layout, k: nat)
    requires Shaped(l) && k < |l.pairs| && Slot(data, limit, l, k)
    ensures var p := l.pairs[k];
            l.offsets[k] <= limit <= |data| && InBounds(EntryAt(data, l.offsets[k], limit), limit) &&
            match EntryAt(data, l.offsets[k], limit)
            case None => false
            case Some(h) =>
              && h.shared == l.shared[k] <= |p.key|
              && h.delta + h.nonShared + h.valueLength == l.offsets[k + 1] <= |data|
              && p.key == p.key[..h.shared] + data[h.delta..h.delta + h.nonShared]
              && data[h.delta + h.nonShared..l.offsets[k + 1]] == p.value
  {
    var key := l.pairs[k].key;
    assert key == key[..l.shared[k]] + key[l.shared[k]..];
  }

  // ---------------------------------------------------------------- the iterator

  class Iter {
    const cmp: Order
    ghost const valid: Key -> bool
    const data: seq<Byte>
    const limit: nat
    const numRestarts: nat
    var current: nat
    var restartIndex: nat
    var key: Key
    /** value_: where it starts and ends. */
    var valueStart: nat
    var valueEnd: nat
    var corrupt: bool
    ghost const l: Layout
    /** The entry the iterator stands on; the number of entries if it is not valid. */
    ghost var at: nat

    ghost predicate Block()
    {
      IsBlock(data, limit, l) && numRestarts == |l.restarts| && IsOrder(cmp, valid) && Ascending(cmp, valid, l.pairs)
    }

    /** The restart index is the last restart point before the entry, or the entry's own. */
    ghost predicate IndexFor(k: nat)
      requires Block()
      reads this`restartIndex
    {
      && restartIndex < numRestarts
      && l.restarts[restartIndex] <= k
      && (restartIndex + 1 < numRestarts ==> k <= l.restarts[restartIndex + 1])
    }

    ghost predicate Stands()
      requires Block()
      reads this
    {
      && at <= |l.pairs| && !corrupt
      && current == l.offsets[at]
      && (at < |l.pairs| ==>
            && IndexFor(at)
            && key == l.pairs[at].key
            && valueEnd == l.offsets[at + 1] && valueStart <= valueEnd <= |data|
            && data[valueStart..valueEnd] == l.pairs[at].value)
    }

    /** ParseNextKey would read entry k next. */
    ghost predicate Before(k: nat)
      requires Block()
      reads this
    {
      && k <= |l.pairs| && !corrupt
      && valueEnd == l.offsets[k]
      && restartIndex < numRestarts && l.restarts[restartIndex] <= k
      && (k < |l.pairs| ==> Shares(l, k) && l.shared[k] <= |key| && key[..l.shared[k]] == l.pairs[k].key[..l.shared[k]])
    }

    constructor (cmp: Order, ghost valid: Key -> bool, data: seq<Byte>, limit: nat, numRestarts: nat, ghost l: Layout)
      requires IsBlock(data, limit, l) && numRestarts == |l.restarts|
      requires IsOrder(cmp, valid) && Ascending(cmp, valid, l.pairs)
      ensures Block() && Stands() && at == |l.pairs|
      ensures this.cmp == cmp && this.valid == valid && this.data == data && this.l == l
    {
      this.valid := valid;
      this.cmp, this.data, this.limit, this.numRestarts, this.l := cmp, data, limit, numRestarts, l;
      current, restartIndex := limit, numRestarts;
      key, valueStart, valueEnd, corrupt, at := [], 0, 0, false, |l.pairs|;
    }

    function Valid(): bool
      reads this
    {
      current < limit
    }

    method SeekToRestartPoint(index: nat)
      requires Block() && index < numRestarts && !corrupt
      modifies this
      ensures Before(l.restarts[index]) && restartIndex == index && key == []
    {
      key := [];
      restartIndex := index;
      var offset := RestartPoint(data, limit, index);
      valueStart, valueEnd := offset, offset;
      assert Restart(data, limit, l, index);
    }

    method ParseNextKey(ghost k: nat) returns (more: bool)
      requires Block() && Before(k)
      modifies this
      ensures Stands() && at == k && more == (k < |l.pairs|)
    {
      at := k;
      current := valueEnd;
      OffsetsAscend(k);
      if current >= limit {
        current, restartIndex := limit, numRestarts;
        return false;
      }
      more := ParseEntryAt(k);
      if more {
        AdvanceRestartIndex(k);
      }
    }

    /** Entry k is decoded on top of what it shares with the key before. */
    method ParseEntryAt(ghost k: nat) returns (ok: bool)
      requires Block() && k < |l.pairs| && current == l.offsets[k]
      requires Slot(data, limit, l, k) && l.shared[k] <= |key| && |l.pairs[k].key| >= l.shared[k]
      requires key[..l.shared[k]] == l.pairs[k].key[..l.shared[k]]
      modifies this`key, this`valueStart, this`valueEnd, this`current, this`restartIndex, this`corrupt
      ensures ok && current == old(current) && restartIndex == old(restartIndex) && corrupt == old(corrupt)
      ensures key == l.pairs[k].key && valueEnd == l.offsets[k + 1] && valueStart <= valueEnd <= |data|
      ensures data[valueStart..valueEnd] == l.pairs[k].value
    {
      SlotDecodes(data, limit, l, k);
      ok := ParseEntry();
    }

    /** The decoding part of ParseNextKey. */
    method ParseEntry() returns (ok: bool)
      requires current <= limit <= |data|
      requires InBounds(EntryAt(data, current, limit), limit)
      modifies this`key, this`valueStart, this`valueEnd, this`current, this`restartIndex, this`corrupt
      ensures ok ==> current == old(current) && restartIndex == old(restartIndex) && corrupt == old(corrupt)
      ensures match EntryAt(data, old(current), limit)
              case None => !ok
              case Some(h) =>
                && ok == (h.shared <= |old(key)|)
                && (ok ==> key == old(key)[..h.shared] + data[h.delta..h.delta + h.nonShared]
                           && valueStart == h.delta + h.nonShared && valueEnd == valueStart + h.valueLength)
      ensures !ok ==> corrupt && current == limit
    {
      var h := DecodeEntry(data, current, limit);
      if h.None? || |key| < h.value.shared {
        CorruptionError();
        return false;
      }
      key := key[..h.value.shared] + data[h.value.delta..h.value.delta + h.value.nonShared];
      valueStart := h.value.delta + h.value.nonShared;
      valueEnd := valueStart + h.value.valueLength;
      ok := true;
    }

    method AdvanceRestartIndex(ghost k: nat)
      requires Block() && k < |l.pairs| && current == l.offsets[k]
      requires restartIndex < numRestarts && l.restarts[restartIndex] <= k
      modifies this`restartIndex
      ensures IndexFor(k)
    {
      while restartIndex + 1 < numRestarts && RestartPoint(data, limit, restartIndex + 1) < current
        invariant restartIndex < numRestarts && l.restarts[restartIndex] <= k
        decreases numRestarts - restartIndex
      {
        RestartCompares(restartIndex + 1, k);
        restartIndex := restartIndex + 1;
      }
      if restartIndex + 1 < numRestarts {
        RestartCompares(restartIndex + 1, k);
      }
    }

    lemma OffsetsAscend(k: nat)
      requires Block() && k <= |l.pairs|
      ensures l.offsets[k] <= limit && (l.offsets[k] == limit <==> k == |l.pairs|)
    {
      assert Rises(l.offsets, k, |l.pairs|);
    }

    method CorruptionError()
      modifies this`key, this`valueStart, this`valueEnd, this`current, this`restartIndex, this`corrupt
      ensures current == limit && corrupt && at == old(at)
    {
      current, restartIndex := limit, numRestarts;
      corrupt := true;
      key, valueStart, valueEnd := [], 0, 0;
    }

    /** The position, as a cursor has it. */
    ghost function At(): Position
      reads this
    {
      AtIndex(|l.pairs|, at)
    }

    /** Standing on entry k, ParseNextKey reads entry k + 1. */
    lemma NextIsBefore()
      requires Block() && Stands() && at < |l.pairs|
      ensures Before(at + 1)
    {
      if at + 1 < |l.pairs| {
        assert Slot(data, limit, l, at + 1);
        assert Shares(l, at + 1);
      }
    }

    /** ParseNextKey, from an entry. */
    method Advance() returns (more: bool)
      requires Block() && Stands() && at < |l.pairs|
      modifies this
      ensures Stands() && at == old(at) + 1 && more == (at < |l.pairs|)
    {
      NextIsBefore();
      more := ParseNextKey(at + 1);
    }

    method Next()
      requires Block() && Stands() && at < |l.pairs|
      modifies this
      ensures Stands() && At() == Following(|l.pairs|, old(at))
    {
      var more := Advance();
    }

    method SeekToFirst()
      requires Block() && Stands()
      modifies this
      ensures Stands() && At() == First(|l.pairs|)
    {
      SeekToRestartPoint(0);
      var more := ParseNextKey(0);
    }

    lemma RestartCompares(j: nat, k: nat)
      requires Block() && j < numRestarts && k <= |l.pairs|
      ensures RestartPoint(data, limit, j) >= l.offsets[k] <==> l.restarts[j] >= k
    {
      assert Restart(data, limit, l, j);
      OffsetCompares(l.restarts[j], k);
    }

    lemma OffsetCompares(i: nat, k: nat)
      requires Block() && i <= |l.pairs| && k <= |l.pairs|
      ensures l.offsets[i] < l.offsets[k] <==> i < k
    {
      assert Rises(l.offsets, i, k) && Rises(l.offsets, k, i);
    }

    /** Parses entries from the given one until one ends at the bound, where the goal starts. */
    method ParseUntil(bound: nat, ghost from: nat, ghost goal: nat)
      requires Block() && Before(from) && from <= goal <= |l.pairs| && bound == l.offsets[goal]
      requires from == goal ==> goal == |l.pairs|
      modifies this
      ensures Stands() && at == if from == goal then |l.pairs| else goal - 1
    {
      var more := ParseNextKey(from);
      if more {
        OffsetCompares(at + 1, goal);
      }
      while more && valueEnd < bound
        invariant Stands() && more == (from < |l.pairs|)
        invariant more ==> at < goal && (valueEnd < bound <==> at + 1 < goal)
        invariant !more ==> at == |l.pairs|
        decreases goal - at
      {
        more := Advance();
        OffsetCompares(at + 1, goal);
      }
    }

    method SeekToLast()
      requires Block() && Stands()
      modifies this
      ensures Stands() && At() == Last(|l.pairs|)
    {
      SeekToRestartPoint(numRestarts - 1);
      ParseUntil(limit, l.restarts[numRestarts - 1], |l.pairs|);
    }

    method Prev()
      requires Block() && Stands() && at < |l.pairs|
      modifies this
      ensures Stands() && At() == Preceding(old(at))
    {
      ghost var goal := at;
      var original := current;
      var found := BackToRestart(original, goal);
      if found {
        SeekToRestartPoint(restartIndex);
        ParseUntil(original, l.restarts[restartIndex], goal);
      }
    }

    /** Back to a restart point before the current entry; if there is none, the iterator is at the end. */
    method BackToRestart(original: nat, ghost goal: nat) returns (found: bool)
      requires Block() && Stands() && at == goal < |l.pairs| && original == current
      modifies this
      ensures !corrupt && (found <==> goal > 0)
      ensures found ==> restartIndex < numRestarts && l.restarts[restartIndex] < goal && current == original
      ensures !found ==> Stands() && at == |l.pairs|
    {
      RestartCompares(restartIndex, goal);
      while RestartPoint(data, limit, restartIndex) >= original
        invariant restartIndex < numRestarts && l.restarts[restartIndex] <= goal && !corrupt && current == original
        invariant RestartPoint(data, limit, restartIndex) >= original <==> l.restarts[restartIndex] >= goal
        decreases restartIndex
      {
        if restartIndex == 0 {
          current, restartIndex := limit, numRestarts;
          at := |l.pairs|;
          return false;
        }
        restartIndex := restartIndex - 1;
        assert Rises(l.restarts, restartIndex, restartIndex + 1);
        RestartCompares(restartIndex, goal);
      }
      found := true;
    }

    /** Every key before entry k is smaller than the target. */
    ghost predicate AllBefore(target: Key, k: nat)
      requires Block() && k <= |l.pairs|
    {
      forall i | 0 <= i < k :: cmp(l.pairs[i].key, target) < 0
    }

    lemma SmallerKeyHidesEarlierOnes(target: Key, k: nat)
      requires Block() && k < |l.pairs|
      requires valid(target) && cmp(l.pairs[k].key, target) < 0
      ensures AllBefore(target, k)
    {
      forall i | 0 <= i < k
        ensures cmp(l.pairs[i].key, target) < 0
      {
        assert cmp(l.pairs[i].key, l.pairs[k].key) < 0;
      }
    }

    lemma AllBeforeGrows(target: Key, k: nat)
      requires Block() && k < |l.pairs| && AllBefore(target, k) && cmp(l.pairs[k].key, target) < 0
      ensures AllBefore(target, k + 1)
    {
    }

    /** The key at a restart point lies in the data as it is. */
    method RestartKey(j: nat) returns (k: Key)
      requires Block() && j < numRestarts && |l.pairs| > 0
      ensures l.restarts[j] < |l.pairs| && k == l.pairs[l.restarts[j]].key
    {
      assert Rises(l.restarts, j, numRestarts - 1);
      assert Restart(data, limit, l, j);
      assert Slot(data, limit, l, l.restarts[j]);
      SlotDecodes(data, limit, l, l.restarts[j]);
      var h := DecodeEntry(data, RestartPoint(data, limit, j), limit);
      if h.None? || h.value.shared != 0 {
        // The corruption error of a block that no builder made.
        assert false;
      }
      k := data[h.value.delta..h.value.delta + h.value.nonShared];
    }

    /** Binary search in the restart array for the last restart point with a key smaller than the target. */
    method FindRestart(target: Key) returns (left: nat)
      requires Block() && valid(target)
      ensures left < numRestarts && l.restarts[left] <= |l.pairs| && AllBefore(target, l.restarts[left])
    {
      left := 0;
      var right := numRestarts - 1;
      while left < right
        invariant left <= right < numRestarts
        invariant l.restarts[left] <= |l.pairs| && AllBefore(target, l.restarts[left])
      {
        var mid := (left + right + 1) / 2;
        var midKey := RestartKey(mid);
        if cmp(midKey, target) < 0 {
          SmallerKeyHidesEarlierOnes(target, l.restarts[mid]);
          left := mid;
        } else {
          right := mid - 1;
        }
      }
    }

    /** Stops at the first entry whose key is not smaller than the target. */
    method Seek(target: Key)
      requires Block() && Stands() && valid(target)
      modifies this
      ensures Stands()
      ensures AllBefore(target, at)
      ensures at < |l.pairs| ==> cmp(l.pairs[at].key, target) >= 0
    {
      var left := FindRestart(target);
      SeekToRestartPoint(left);
      var more := ParseNextKey(l.restarts[left]);
      while more && cmp(key, target) < 0
        invariant Stands() && more == (at < |l.pairs|)
        invariant AllBefore(target, at)
        decreases |l.pairs| - at
      {
        AllBeforeGrows(target, at);
        more := Advance();
      }
    }
  }
}
