/**
 The cache's hash table: buckets of chained handles, doubled when they fill up, against a set of handles with unique
 keys (HandleTable in cache.cc).
 */
module HandleTables {
  import opened Keys
  import opened LinkedLists
  import opened PowersOfTwo
  import opened Reads

  type Key = seq<Byte>

  /** What the table needs of a handle: which one it is, its key and the key's hash. */
  datatype Node = Node(id: Id, key: Key, hash: nat)

  ghost predicate UniqueKeys(nodes: set<Node>) {
    forall m, n | m in nodes && n in nodes && m.key == n.key && m.hash == n.hash :: m == n
  }

  ghost predicate Chain(chain: seq<Node>, length: nat, b: nat, nodes: set<Node>)
    requires length > 0
  {
    && (forall i | 0 <= i < |chain| :: chain[i] in nodes && chain[i].hash % length == b)
    && (forall i, j | 0 <= i < j < |chain| :: chain[i] != chain[j])
  }

  /** The buckets hold exactly these nodes, each once and in the bucket of its hash. */
  ghost predicate Holds(list: seq<seq<Node>>, nodes: set<Node>) {
    && |list| > 0
    && (forall b {:trigger Chain(list[b], |list|, b, nodes)} | 0 <= b < |list| :: Chain(list[b], |list|, b, nodes))
    && (forall n | n in nodes :: n in list[n.hash % |list|])
  }

  /** The length is a power of two, so that masking a hash by length - 1 takes it modulo the length. */
  ghost predicate IsTableLength(length: nat) {
    exists k :: k >= 2 && length == Power2(k)
  }

  lemma AddToBucket(list: seq<seq<Node>>, nodes: set<Node>, n: Node, chain: seq<Node>)
    requires Holds(list, nodes) && n !in nodes
    requires chain == [n] + list[n.hash % |list|] || chain == list[n.hash % |list|] + [n]
    ensures Holds(list[n.hash % |list| := chain], nodes + {n})
  {
    var b := n.hash % |list|;
    var after := list[b := chain];
    assert Chain(list[b], |list|, b, nodes);
    forall c | 0 <= c < |after|
      ensures Chain(after[c], |after|, c, nodes + {n})
    {
      if c != b {
        assert Chain(list[c], |list|, c, nodes);
      }
    }
    forall m | m in nodes + {n}
      ensures m in after[m.hash % |after|]
    {
      if m != n {
        assert m in list[m.hash % |list|];
      }
    }
  }

  lemma ReplaceInBucket(list: seq<seq<Node>>, nodes: set<Node>, i: nat, b: nat, n: Node)
    requires Holds(list, nodes) && b < |list| && i < |list[b]| && n !in nodes && n.hash % |list| == b
    ensures Holds(list[b := list[b][i := n]], nodes - {list[b][i]} + {n})
  {
    var after := list[b := list[b][i := n]];
    var left := nodes - {list[b][i]} + {n};
    assert Chain(list[b], |list|, b, nodes);
    forall c | 0 <= c < |after|
      ensures Chain(after[c], |after|, c, left)
    {
      assert Chain(list[c], |list|, c, nodes);
    }
    forall m | m in left
      ensures m in after[m.hash % |after|]
    {
      if m == n {
        assert after[b][i] == n;
      } else {
        var j :| 0 <= j < |list[m.hash % |list|]| && list[m.hash % |list|][j] == m;
        assert after[m.hash % |list|][j] == m;
      }
    }
  }

  lemma RemoveFromBucket(list: seq<seq<Node>>, nodes: set<Node>, i: nat, b: nat)
    requires Holds(list, nodes) && b < |list| && i < |list[b]|
    ensures Holds(list[b := list[b][..i] + list[b][i + 1..]], nodes - {list[b][i]})
  {
    var chain := list[b][..i] + list[b][i + 1..];
    var after, left := list[b := chain], nodes - {list[b][i]};
    assert Chain(list[b], |list|, b, nodes);
    forall c | 0 <= c < |after|
      ensures Chain(after[c], |after|, c, left)
    {
      assert Chain(list[c], |list|, c, nodes);
    }
    forall m | m in left
      ensures m in after[m.hash % |after|]
    {
      var d := m.hash % |list|;
      var j :| 0 <= j < |list[d]| && list[d][j] == m;
      if d == b {
        assert chain[if j < i then j else j - 1] == m;
      }
    }
  }

  lemma UniqueGrows(nodes: set<Node>, h: Node)
    requires UniqueKeys(nodes) && h !in nodes && forall n | n in nodes :: n.key != h.key || n.hash != h.hash
    ensures UniqueKeys(nodes + {h}) && |nodes + {h}| == |nodes| + 1
  {
  }

  class HandleTable {
    var length: nat
    var elems: nat
    var list: seq<seq<Node>>
    ghost var nodes: set<Node>

    /** Well formed, and no fuller than one handle for each chain on average. */
    ghost predicate Valid()
      reads this
    {
      WellFormed() && elems <= length
    }

    ghost predicate WellFormed()
      reads this
    {
      && length == |list| && IsTableLength(length)
      && Holds(list, nodes) && UniqueKeys(nodes)
      && elems == |nodes|
    }

    constructor ()
      ensures Valid() && nodes == {}
    {
      length, elems, list, nodes := 4, 0, [[], [], [], []], {};
      new;
      SmallPowers();
    }

    /** The slot for a key: where it is in its chain, or the end of the chain. */
    method FindPointer(key: Key, hash: nat) returns (b: nat, i: nat)
      requires Valid()
      ensures b == hash % |list| && i <= |list[b]|
      ensures i < |list[b]| ==> list[b][i] in nodes && list[b][i].key == key && list[b][i].hash == hash
      ensures i == |list[b]| ==> forall n | n in nodes :: n.key != key || n.hash != hash
    {
      b, i := hash % length, 0;
      while i < |list[b]| && (list[b][i].hash != hash || key != list[b][i].key)
        invariant i <= |list[b]|
        invariant forall j | 0 <= j < i :: list[b][j].key != key || list[b][j].hash != hash
      {
        i := i + 1;
      }
      assert Chain(list[b], |list|, b, nodes);
      forall n | n in nodes && n.key == key && n.hash == hash
        ensures i < |list[b]|
      {
        assert n in list[n.hash % |list|];
      }
    }

    method Lookup(key: Key, hash: nat) returns (r: Option<Node>)
      requires Valid()
      ensures r.Some? ==> r.value in nodes && r.value.key == key && r.value.hash == hash
      ensures r.None? ==> forall n | n in nodes :: n.key != key || n.hash != hash
    {
      var b, i := FindPointer(key, hash);
      r := if i < |list[b]| then Some(list[b][i]) else None;
    }

    /** Puts a handle in, in place of the one with its key if there is one. */
    method Insert(h: Node) returns (replaced: Option<Node>)
      requires Valid() && h !in nodes
      modifies this
      ensures Valid()
      ensures replaced.Some? ==>
                replaced.value in old(nodes) && replaced.value.key == h.key && replaced.value.hash == h.hash
      ensures replaced.None? ==> forall n | n in old(nodes) :: n.key != h.key || n.hash != h.hash
      ensures nodes == (if replaced.Some? then old(nodes) - {replaced.value} else old(nodes)) + {h}
    {
      var b, i := FindPointer(h.key, h.hash);
      if i < |list[b]| {
        replaced := Some(list[b][i]);
        Replace(b, i, h);
      } else {
        replaced := None;
        Add(b, h);
      }
    }

    method Replace(b: nat, i: nat, h: Node)
      requires Valid() && b == h.hash % |list| && i < |list[b]| && h !in nodes
      requires list[b][i] in nodes && list[b][i].key == h.key && list[b][i].hash == h.hash
      modifies this`list, this`nodes
      ensures Valid() && nodes == old(nodes) - {old(list[b][i])} + {h}
    {
      ReplaceInBucket(list, nodes, i, b, h);
      nodes := nodes - {list[b][i]} + {h};
      list := list[b := list[b][i := h]];
    }

    method Add(b: nat, h: Node)
      requires Valid() && b == h.hash % |list| && h !in nodes
      requires forall n | n in nodes :: n.key != h.key || n.hash != h.hash
      modifies this
      ensures Valid() && nodes == old(nodes) + {h}
    {
      AddToBucket(list, nodes, h, list[b] + [h]);
      UniqueGrows(nodes, h);
      list := list[b := list[b] + [h]];
      nodes := nodes + {h};
      elems := elems + 1;
      if elems > length {
        Resize();
      }
    }

    method Remove(key: Key, hash: nat) returns (r: Option<Node>)
      requires Valid()
      modifies this
      ensures Valid()
      ensures r.Some? ==>
                && r.value in old(nodes) && r.value.key == key && r.value.hash == hash
                && nodes == old(nodes) - {r.value}
      ensures r.None? ==> nodes == old(nodes) && forall n | n in nodes :: n.key != key || n.hash != hash
    {
      var b, i := FindPointer(key, hash);
      if i < |list[b]| {
        r := Some(list[b][i]);
        RemoveFromBucket(list, nodes, i, b);
        nodes := nodes - {list[b][i]};
        list := list[b := list[b][..i] + list[b][i + 1..]];
        elems := elems - 1;
      } else {
        r := None;
      }
    }

    /** Moves every handle to the bucket of its hash in a table of twice the length, or more. */
    method Resize()
      requires WellFormed()
      modifies this`length, this`list
      ensures Valid() && (length == 4 || length < 2 * elems)
    {
      var newLength := NewLength(elems);
      var newList: seq<seq<Node>> := seq(newLength, i => []);
      ghost var moved: set<Node> := {};
      for i := 0 to length
        invariant WellFormed() && list == old(list) && length == old(length)
        invariant |newList| == newLength && Holds(newList, moved)
        invariant forall n :: n in moved <==> n in nodes && n.hash % |list| < i
      {
        newList, moved := MoveChain(list[i], newList, moved, i);
      }
      assert moved == nodes;
      list := newList;
      length := newLength;
    }

    /** One chain, front to back, each handle pushed in front of its new chain. */
    method MoveChain(chain: seq<Node>, newList: seq<seq<Node>>, ghost moved: set<Node>, ghost i: nat)
      returns (list': seq<seq<Node>>, ghost moved': set<Node>)
      requires WellFormed() && i < |list| && chain == list[i] && Holds(newList, moved)
      requires forall n :: n in moved <==> n in nodes && n.hash % |list| < i
      ensures |list'| == |newList| && Holds(list', moved')
      ensures forall n :: n in moved' <==> n in nodes && n.hash % |list| < i + 1
    {
      list', moved' := newList, moved;
      assert Chain(list[i], |list|, i, nodes);
      for j := 0 to |chain|
        invariant |list'| == |newList| && Holds(list', moved')
        invariant forall n :: n in moved' <==> n in moved || n in chain[..j]
      {
        var h := chain[j];
        var b := h.hash % |list'|;
        assert h !in chain[..j];
        AddToBucket(list', moved', h, [h] + list'[b]);
        list' := list'[b := [h] + list'[b]];
        moved' := moved' + {h};
        assert chain[..j + 1] == chain[..j] + [h];
      }
      assert chain[..|chain|] == chain;
      forall n
        ensures n in chain <==> n in nodes && n.hash % |list| == i
      {
      }
    }
  }

  /** Four, doubled until it is no less than the number of handles. */
  method NewLength(elems: nat) returns (length: nat)
    ensures IsTableLength(length) && length >= elems && length >= 4 && (length == 4 || length < 2 * elems)
  {
    length := 4;
    ghost var k := 2;
    SmallPowers();
    while length < elems
      invariant k >= 2 && length == Power2(k) && length >= 4 && (length == 4 || length < 2 * elems)
    {
      length := length * 2;
      k := k + 1;
    }
  }
}
