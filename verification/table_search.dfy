/**
 Why searching a table through its index is complete, although the index keys are shortened separators that no block
 holds (table_builder.cc, table.cc).
 */
module TableSearch {
  import opened Blocks
  import opened InternalKeys
  import Comparator

  /** The keys of a table are encodings, increasing within each block and from block to block. */
  ghost predicate Increasing(blocks: seq<seq<Pair>>) {
    && (forall b, i | 0 <= b < |blocks| && 0 <= i < |blocks[b]| :: IsEncoded(blocks[b][i].key))
    && (forall b, i, j {:trigger Compare(blocks[b][i].key, blocks[b][j].key)} | 0 <= b < |blocks|
      && 0 <= i < j < |blocks[b]| ::
          Compare(blocks[b][i].key, blocks[b][j].key) < 0)
    && (forall b, c, i, j {:trigger Compare(blocks[b][i].key, blocks[c][j].key)} |
          0 <= b < c < |blocks| && 0 <= i < |blocks[b]| && 0 <= j < |blocks[c]| ::
          Compare(blocks[b][i].key, blocks[c][j].key) < 0)
  }

  /** The key itself, or a user key strictly between its own and the next. */
  ghost predicate IsSeparator(last: Key, separator: Key, blocks: seq<seq<Pair>>, b: nat)
    requires b < |blocks|
  {
    IsEncoded(last) && IsEncoded(separator) &&
    (separator == last
     || (Comparator.Compare(UserKeyOf(last), UserKeyOf(separator)) < 0
         && (b + 1 < |blocks| && |blocks[b + 1]| > 0 && IsEncoded(blocks[b + 1][0].key) ==>
               Comparator.Compare(UserKeyOf(separator), UserKeyOf(blocks[b + 1][0].key)) < 0)))
  }

  ghost predicate Indexed(blocks: seq<seq<Pair>>, separators: seq<Key>) {
    && |separators| == |blocks|
    && (forall b | 0 <= b < |blocks| :: |blocks[b]| > 0)
    && Increasing(blocks)
    && (forall b {:trigger separators[b]} | 0 <= b < |blocks| ::
      IsSeparator(blocks[b][|blocks[b]| - 1].key, separators[b], blocks, b))
  }

  /** A key between two keys of one user key is of that user key too. */
  lemma BetweenSameUser(a: Key, x: Key, b: Key)
    requires IsEncoded(a) && IsEncoded(x) && IsEncoded(b)
    requires UserKeyOf(a) == UserKeyOf(b) && Compare(a, x) <= 0 && Compare(x, b) <= 0
    ensures UserKeyOf(x) == UserKeyOf(a)
  {
    Comparator.CompareIsOrder(UserKeyOf(a), UserKeyOf(x), UserKeyOf(b));
    Comparator.CompareIsOrder(UserKeyOf(x), UserKeyOf(b), UserKeyOf(a));
  }

  lemma AtMost(a: Key, b: Key, c: Key)
    requires IsEncoded(a) && IsEncoded(b) && IsEncoded(c)
    requires Compare(a, b) <= 0 && Compare(b, c) <= 0
    ensures Compare(a, c) <= 0
  {
    CompareIsOrder(a, b, c);
    CompareIsOrder(b, c, a);
  }

  /** A separator is at or after every key of its block. */
  lemma SeparatorIsAfter(blocks: seq<seq<Pair>>, separators: seq<Key>, b: nat, i: nat)
    requires Indexed(blocks, separators) && b < |blocks| && i < |blocks[b]|
    ensures IsEncoded(separators[b]) && Compare(blocks[b][i].key, separators[b]) <= 0
  {
    var last := blocks[b][|blocks[b]| - 1].key;
    assert IsSeparator(last, separators[b], blocks, b);
    CompareIsOrder(last, last, last);
    AtMost(blocks[b][i].key, last, separators[b]);
  }

  /** And before every key of a later block. */
  lemma SeparatorIsBefore(blocks: seq<seq<Pair>>, separators: seq<Key>, b: nat, c: nat, i: nat)
    requires Indexed(blocks, separators) && b < c < |blocks| && i < |blocks[c]|
    ensures IsEncoded(separators[b]) && Compare(separators[b], blocks[c][i].key) < 0
  {
    var last, first := blocks[b][|blocks[b]| - 1].key, blocks[b + 1][0].key;
    assert IsSeparator(last, separators[b], blocks, b);
    assert Compare(separators[b], first) < 0;
    CompareIsOrder(separators[b], first, blocks[c][i].key);
    CompareIsOrder(first, blocks[c][i].key, first);
  }

  /** If a separator at or after k is not its block's last key, no later block holds the user key of k. */
  lemma ShortenedSkipsNothing(blocks: seq<seq<Pair>>, separators: seq<Key>, k: Key, b: nat, c: nat, i: nat)
    requires Indexed(blocks, separators) && b < c < |blocks| && i < |blocks[c]| && IsEncoded(k)
    requires UserKeyOf(blocks[c][i].key) == UserKeyOf(k)
    requires Compare(separators[b], k) >= 0
    ensures separators[b] == blocks[b][|blocks[b]| - 1].key
  {
    var last := blocks[b][|blocks[b]| - 1].key;
    var first := blocks[b + 1][0].key;
    var u, s, f := UserKeyOf(k), UserKeyOf(separators[b]), UserKeyOf(first);
    assert IsSeparator(last, separators[b], blocks, b);
    Comparator.CompareIsOrder(s, f, u);
    Comparator.CompareIsOrder(f, u, s);
    CompareIsOrder(first, first, first);
    assert Compare(first, blocks[c][i].key) <= 0;
  }

  /**
   The search: b is the first block whose separator is not before k, j the first place in it whose key is not. If any
   key of the table has the user key of k and is not before k, then the search lands on one, and on the first.
   */
  lemma SearchIsComplete(blocks: seq<seq<Pair>>, separators: seq<Key>, k: Key, b: nat, j: nat, c: nat, i: nat)
    requires Indexed(blocks, separators) && IsEncoded(k)
    requires forall n | 0 <= n < b && n < |blocks| :: Compare(separators[n], k) < 0
    requires b <= |blocks| && (b < |blocks| ==> Compare(separators[b], k) >= 0)
    requires b < |blocks| ==> j <= |blocks[b]| && forall n | 0 <= n < j :: Compare(blocks[b][n].key, k) < 0
    requires b < |blocks| && j < |blocks[b]| ==> Compare(blocks[b][j].key, k) >= 0
    requires c < |blocks| && i < |blocks[c]|
    requires UserKeyOf(blocks[c][i].key) == UserKeyOf(k) && Compare(blocks[c][i].key, k) >= 0
    ensures b < |blocks| && j < |blocks[b]|
    ensures UserKeyOf(blocks[b][j].key) == UserKeyOf(k) && Compare(blocks[b][j].key, blocks[c][i].key) <= 0
  {
    SearchReaches(blocks, separators, k, b, j, c, i);
    var p, x := blocks[c][i].key, blocks[b][j].key;
    CompareIsOrder(p, p, p);
    CompareIsOrder(k, x, p);
    assert Compare(x, p) <= 0;
    BetweenSameUser(k, x, p);
  }

  /** The search does not pass the block of an entry it should find, nor run off the end of one before. */
  lemma SearchReaches(blocks: seq<seq<Pair>>, separators: seq<Key>, k: Key, b: nat, j: nat, c: nat, i: nat)
    requires Indexed(blocks, separators) && IsEncoded(k)
    requires forall n | 0 <= n < b && n < |blocks| :: Compare(separators[n], k) < 0
    requires b <= |blocks| && (b < |blocks| ==> Compare(separators[b], k) >= 0)
    requires b < |blocks| ==> j <= |blocks[b]| && forall n | 0 <= n < j :: Compare(blocks[b][n].key, k) < 0
    requires c < |blocks| && i < |blocks[c]|
    requires UserKeyOf(blocks[c][i].key) == UserKeyOf(k) && Compare(blocks[c][i].key, k) >= 0
    ensures b <= c && j < |blocks[b]|
  {
    var p := blocks[c][i].key;
    SeparatorIsAfter(blocks, separators, c, i);
    CompareIsOrder(k, p, separators[c]);
    CompareIsOrder(p, k, separators[c]);
    AtMost(k, p, separators[c]);
    CompareIsOrder(k, separators[c], p);
    assert b <= c;
    if b < c {
      ShortenedSkipsNothing(blocks, separators, k, b, c, i);
    }
  }
}
