/**
 The bytewise comparator: its order, the separators it finds between keys, and its embedding in the reals, by which
 the byte strings of this module are the user keys of module Keys (comparator.cc).
 */
module Comparator {
  import opened Keys

  type Bytes = seq<Byte>

  /** Slice::compare. */
  function Compare(a: Bytes, b: Bytes): int {
    if a == [] && b == [] then 0
    else if a == [] then -1
    else if b == [] then 1
    else if a[0] < b[0] then -1
    else if a[0] > b[0] then 1
    else Compare(a[1..], b[1..])
  }

  lemma {:induction false} CompareIsOrder(a: Bytes, b: Bytes, c: Bytes)
    ensures Compare(a, b) == 0 <==> a == b
    ensures Compare(a, b) == -Compare(b, a)
    ensures Compare(a, b) < 0 && Compare(b, c) < 0 ==> Compare(a, c) < 0
    decreases |a| + |b| + |c|
  {
    if a != [] && b != [] && a[0] == b[0] {
      CompareIsOrder(a[1..], b[1..], if c == [] then [] else c[1..]);
      assert a == [a[0]] + a[1..] && b == [b[0]] + b[1..];
    }
  }

  lemma {:induction false} CompareIsSign(a: Bytes, b: Bytes)
    ensures -1 <= Compare(a, b) <= 1
  {
    if a != [] && b != [] {
      CompareIsSign(a[1..], b[1..]);
    }
  }

  /** Two strings are compared where they first differ. */
  lemma {:induction false} DifferAt(a: Bytes, b: Bytes, n: nat)
    requires n < |a| && n < |b| && a[..n] == b[..n] && a[n] < b[n]
    ensures Compare(a, b) < 0
  {
    if n > 0 {
      assert a[0] == a[..n][0] == b[..n][0] == b[0];
      assert a[1..][..n - 1] == a[..n][1..] == b[..n][1..] == b[1..][..n - 1];
      DifferAt(a[1..], b[1..], n - 1);
    }
  }

  // ---------------------------------------------------------------- separators

  /** The two differ first at n, and there is a byte between theirs. */
  predicate HasRoomAt(start: Bytes, limit: Bytes, n: nat) {
    && n < |start| && n < |limit| && start[..n] == limit[..n]
    && start[n] as int + 1 < limit[n] as int
  }

  /** The first byte that can be incremented is at n. */
  predicate CanGrowAt(key: Bytes, n: nat) {
    n < |key| && key[n] != 0xff && forall i | 0 <= i < n :: key[i] == 0xff
  }

  /**
   The start itself, or a string between start and limit that is no longer than start: it ends where the two differ, if
   there is a byte between theirs.
   */
  method FindShortestSeparator(start: Bytes, limit: Bytes) returns (r: Bytes)
    ensures |r| <= |start|
    ensures r == start || (Compare(start, r) < 0 && Compare(r, limit) < 0)
    ensures r != start ==> |r| > 0 && r[..|r| - 1] == start[..|r| - 1] && r[|r| - 1] as int == start[|r| - 1] as int + 1
    ensures r != start <==> exists n: nat :: HasRoomAt(start, limit, n)
    ensures forall n: nat | HasRoomAt(start, limit, n) :: |r| == n + 1
  {
    var minLength := if |start| < |limit| then |start| else |limit|;
    var diffIndex := 0;
    while diffIndex < minLength && start[diffIndex] == limit[diffIndex]
      invariant diffIndex <= minLength
      invariant start[..diffIndex] == limit[..diffIndex]
    {
      diffIndex := diffIndex + 1;
    }
    r := start;
    CompareIsOrder(start, start, start);
    assert forall n: nat | HasRoomAt(start, limit, n) :: n == diffIndex by { OnlyRoomAt(start, limit, diffIndex); }
    if diffIndex >= minLength {
      // Do not shorten if one string is a prefix of the other.
    } else {
      var diffByte := start[diffIndex];
      if diffByte < 0xff && diffByte + 1 < limit[diffIndex] {
        r := start[..diffIndex] + [diffByte + 1];
        assert r[..diffIndex] == start[..diffIndex] && r[diffIndex] != start[diffIndex];
        assert HasRoomAt(start, limit, diffIndex);
        DifferAt(start, r, diffIndex);
        DifferAt(r, limit, diffIndex);
      }
    }
  }

  lemma OnlyRoomAt(start: Bytes, limit: Bytes, d: nat)
    requires d <= |start| && d <= |limit| && start[..d] == limit[..d]
    requires d < |start| && d < |limit| ==> start[d] != limit[d]
    ensures forall n: nat | HasRoomAt(start, limit, n) :: n == d
  {
    forall n: nat | HasRoomAt(start, limit, n)
      ensures n == d
    {
      if n < d {
        SameAt(start, limit, d, n);
      } else if d < n {
        SameAt(start, limit, n, d);
      }
    }
  }

  lemma SameAt(a: Bytes, b: Bytes, n: nat, i: nat)
    requires i < n <= |a| && n <= |b| && a[..n] == b[..n]
    ensures a[i] == b[i]
  {
    assert a[i] == a[..n][i] == b[..n][i] == b[i];
  }

  /** A string at or after key that is no longer than it: it ends with the first byte that can be incremented. */
  method FindShortSuccessor(key: Bytes) returns (r: Bytes)
    ensures |r| <= |key|
    ensures r == key || Compare(key, r) < 0
    ensures r == key <==> forall i | 0 <= i < |key| :: key[i] == 0xff
    ensures forall n: nat | CanGrowAt(key, n) :: |r| == n + 1 && r[..n] == key[..n] && r[n] as int == key[n] as int + 1
  {
    for i := 0 to |key|
      invariant forall j | 0 <= j < i :: key[j] == 0xff
    {
      var byte := key[i];
      if byte != 0xff {
        r := key[..i] + [byte + 1];
        assert r[..i] == key[..i] && r[i] != key[i];
        DifferAt(key, r, i);
        return;
      }
    }
    r := key;
  }

  // ---------------------------------------------------------------- embedding in the reals

  /**
   A number in [0, 1) that orders byte strings as the comparator does: digits 1 to 256 in base 257, and 0 for the end.
   */
  function Rank(s: Bytes): (r: real)
    ensures 0.0 <= r < 1.0
  {
    if s == [] then 0.0 else (s[0] as int as real + 1.0 + Rank(s[1..])) / 257.0
  }

  lemma {:induction false} RankKeepsOrder(a: Bytes, b: Bytes)
    ensures Compare(a, b) < 0 <==> Rank(a) < Rank(b)
    ensures Compare(a, b) == 0 <==> Rank(a) == Rank(b)
  {
    if a != [] && b != [] {
      RankKeepsOrder(a[1..], b[1..]);
      var x, y := a[0] as int as real, b[0] as int as real;
      assert 257.0 * Rank(a) == x + 1.0 + Rank(a[1..]) && 257.0 * Rank(b) == y + 1.0 + Rank(b[1..]);
    }
  }
}
