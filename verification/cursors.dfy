/**
 The iterator contract: what the five movements of a cursor do to a position in a list, and the simplest iterator
 that keeps it, one over a list held in memory.
 */
module Cursors {
  import opened Keys
  import opened Reads
  import opened Versions

  /** A position in a list of n elements; None is "not valid", from which only the three seeks lead back. */
  type Position = Option<nat>

  function First(n: nat): Position {
    if n == 0 then None else Some(0)
  }

  function Last(n: nat): Position {
    if n == 0 then None else Some(n - 1)
  }

  function Following(n: nat, i: nat): Position {
    if i + 1 < n then Some(i + 1) else None
  }

  function Preceding(i: nat): Position {
    if i == 0 then None else Some(i - 1)
  }

  function AtIndex(n: nat, i: nat): Position {
    if i < n then Some(i) else None
  }

  /** An iterator over a sorted list, as Version::LevelFileNumIterator is over a level's files. */
  class ListIterator {
    const entries: seq<Entry>
    var index: nat

    constructor (entries: seq<Entry>)
      ensures this.entries == entries && index == |entries|
    {
      this.entries := entries;
      index := |entries|;
    }

    predicate Valid()
      reads this
    {
      index < |entries|
    }

    function At(): Position
      reads this
    {
      AtIndex(|entries|, index)
    }

    /** One past the position; 0 when there is none: the place a backward scan has come down to. */
    function Looked(): nat
      reads this
    {
      if Valid() then index + 1 else 0
    }

    function Key(): InternalKey
      requires Valid()
      reads this
    {
      entries[index].key
    }

    function Value(): Value
      requires Valid()
      reads this
    {
      entries[index].value
    }

    method Seek(target: InternalKey)
      modifies this
      ensures At() == AtIndex(|entries|, SeekIndex(entries, target)) && index <= |entries|
    {
      index := SeekIndex(entries, target);
    }

    method SeekToFirst()
      modifies this
      ensures At() == First(|entries|) && index <= |entries|
    {
      index := 0;
    }

    method SeekToLast()
      modifies this
      ensures At() == Last(|entries|) && index <= |entries|
    {
      index := if |entries| == 0 then 0 else |entries| - 1;
    }

    method Next()
      requires Valid()
      modifies this
      ensures At() == Following(|entries|, old(index)) && index <= |entries|
    {
      index := index + 1;
    }

    method Prev()
      requires Valid()
      modifies this
      ensures At() == Preceding(old(index)) && index <= |entries|
    {
      index := if index == 0 then |entries| else index - 1;
    }
  }
}
