/**
 The skip list of the memtable: one writer, readers that take no lock. Every write to memory is a step of its own, and
 the list is well formed after each of them (skiplist.h).
 */
module SkipLists {
  import opened Cursors
  import opened Keys
  import opened Reads

  const MAX_HEIGHT := 12

  /** The address of a node; nodes are never freed. */
  type Id = nat

  const HEAD: Id := 0

  datatype Node = Node(key: InternalKey, next: seq<Option<Id>>)

  /** What readers see. */
  datatype Memory = Memory(nodes: map<Id, Node>, maxHeight: nat)

  /** The nodes on each level, in the order of the links. */
  type Chains = seq<seq<Id>>

  function Full(chain: seq<Id>): seq<Id> {
    [HEAD] + chain
  }

  ghost predicate LinkAt(nodes: map<Id, Node>, chain: seq<Id>, level: nat, i: nat)
    requires i <= |chain|
  {
    var x := Full(chain)[i];
    && x in nodes && level < |nodes[x].next|
    && nodes[x].next[level] == if i < |chain| then Some(chain[i]) else None
  }

  ghost predicate Linked(nodes: map<Id, Node>, chain: seq<Id>, level: nat) {
    forall i {:trigger LinkAt(nodes, chain, level, i)} | 0 <= i <= |chain| :: LinkAt(nodes, chain, level, i)
  }

  ghost predicate Sorted(nodes: map<Id, Node>, chain: seq<Id>) {
    && (forall i | 0 <= i < |chain| :: chain[i] in nodes && chain[i] != HEAD)
    && (forall i, j | 0 <= i < j < |chain| :: Less(nodes[chain[i]].key, nodes[chain[j]].key))
  }

  ghost predicate LevelFits(nodes: map<Id, Node>, chains: Chains, level: nat)
    requires level < |chains|
  {
    && Linked(nodes, chains[level], level)
    && Sorted(nodes, chains[level])
    && (level > 0 ==> forall id | id in chains[level] :: id in chains[level - 1])
  }

  /** Every level is a sorted chain from the head, its nodes among those of the level below. */
  ghost predicate WellFormed(m: Memory, chains: Chains) {
    && |chains| == MAX_HEIGHT && 1 <= m.maxHeight <= MAX_HEIGHT
    && (forall l {:trigger LevelFits(m.nodes, chains, l)} | 0 <= l < MAX_HEIGHT :: LevelFits(m.nodes, chains, l))
    && (forall l | m.maxHeight <= l < MAX_HEIGHT :: chains[l] == [])
  }

  // ---------------------------------------------------------------- the writer's steps

  lemma RaiseFits(m: Memory, chains: Chains, height: nat)
    requires WellFormed(m, chains) && m.maxHeight <= height <= MAX_HEIGHT
    ensures WellFormed(m.(maxHeight := height), chains)
  {
  }

  /** A node that no chain holds may be written to without a reader noticing. */
  lemma UnlinkedFits(m: Memory, chains: Chains, x: Id, node: Node)
    requires WellFormed(m, chains) && x !in m.nodes
    ensures WellFormed(m.(nodes := m.nodes[x := node]), chains)
  {
    var nodes := m.nodes[x := node];
    forall l | 0 <= l < MAX_HEIGHT
      ensures LevelFits(nodes, chains, l)
    {
      assert LevelFits(m.nodes, chains, l);
      forall i | 0 <= i <= |chains[l]|
        ensures LinkAt(nodes, chains[l], l, i)
      {
        assert LinkAt(m.nodes, chains[l], l, i);
      }
    }
  }

  function WithNext(nodes: map<Id, Node>, x: Id, level: nat, y: Option<Id>): map<Id, Node>
    requires x in nodes && level < |nodes[x].next|
  {
    nodes[x := nodes[x].(next := nodes[x].next[level := y])]
  }

  /** A link of another level changes nothing on this one. */
  lemma OtherLevelStays(nodes: map<Id, Node>, chains: Chains, x: Id, level: nat, y: Option<Id>, l: nat)
    requires l < |chains| && LevelFits(nodes, chains, l)
    requires x in nodes && level < |nodes[x].next|
    requires l == level ==> x !in Full(chains[l])
    ensures LevelFits(WithNext(nodes, x, level, y), chains, l)
  {
    var after := WithNext(nodes, x, level, y);
    forall i | 0 <= i <= |chains[l]|
      ensures LinkAt(after, chains[l], l, i)
    {
      assert LinkAt(nodes, chains[l], l, i);
      assert Full(chains[l])[i] in Full(chains[l]);
    }
  }

  lemma OwnLinkFits(m: Memory, chains: Chains, x: Id, level: nat, y: Option<Id>)
    requires WellFormed(m, chains) && level < MAX_HEIGHT
    requires x in m.nodes && level < |m.nodes[x].next| && x !in Full(chains[level])
    ensures WellFormed(m.(nodes := WithNext(m.nodes, x, level, y)), chains)
  {
    forall l | 0 <= l < MAX_HEIGHT
      ensures LevelFits(WithNext(m.nodes, x, level, y), chains, l)
    {
      OtherLevelStays(m.nodes, chains, x, level, y, l);
    }
  }

  /** The chain with x after its first p nodes. */
  function Spliced(chain: seq<Id>, p: nat, x: Id): seq<Id>
    requires p <= |chain|
  {
    chain[..p] + [x] + chain[p..]
  }

  /** The nodes before position p are before the key, and those from p on are at or after it. */
  ghost predicate SplitsAt(nodes: map<Id, Node>, chain: seq<Id>, p: nat, key: InternalKey) {
    && p <= |chain| && (forall i | 0 <= i < |chain| :: chain[i] in nodes)
    && (forall i | 0 <= i < p :: Less(nodes[chain[i]].key, key))
    && (forall i | p <= i < |chain| :: !Less(nodes[chain[i]].key, key))
  }

  lemma SplicedSorted(nodes: map<Id, Node>, chain: seq<Id>, p: nat, x: Id)
    requires Sorted(nodes, chain) && x in nodes && x != HEAD && SplitsAt(nodes, chain, p, nodes[x].key)
    requires forall i | 0 <= i < |chain| :: nodes[chain[i]].key != nodes[x].key
    ensures Sorted(nodes, Spliced(chain, p, x))
  {
    var s := Spliced(chain, p, x);
    forall i | 0 <= i < |s|
      ensures s[i] == if i < p then chain[i] else if i == p then x else chain[i - 1]
    {
    }
    forall i | p <= i < |chain|
      ensures Less(nodes[x].key, nodes[chain[i]].key)
    {
      CompareIsTotalOrder(nodes[x].key, nodes[chain[i]].key, nodes[x].key);
    }
  }

  lemma SplicedLinked(nodes: map<Id, Node>, chain: seq<Id>, level: nat, p: nat, x: Id)
    requires Linked(nodes, chain, level) && p <= |chain|
    requires forall i, j | 0 <= i < j <= |chain| :: Full(chain)[i] != Full(chain)[j]
    requires x !in Full(chain) && x in nodes && level < |nodes[x].next|
    requires nodes[x].next[level] == if p < |chain| then Some(chain[p]) else None
    ensures Full(chain)[p] in nodes && level < |nodes[Full(chain)[p]].next|
    ensures Linked(WithNext(nodes, Full(chain)[p], level, Some(x)), Spliced(chain, p, x), level)
  {
    var before := Full(chain)[p];
    assert LinkAt(nodes, chain, level, p);
    var after, s := WithNext(nodes, before, level, Some(x)), Spliced(chain, p, x);
    forall i | 0 <= i <= |s|
      ensures LinkAt(after, s, level, i)
    {
      assert Full(s)[i] == if i <= p then Full(chain)[i] else if i == p + 1 then x else Full(chain)[i - 1];
      if i <= p {
        assert LinkAt(nodes, chain, level, i);
      } else if i > p + 1 {
        assert LinkAt(nodes, chain, level, i - 1);
      }
    }
  }

  lemma FullDistinct(nodes: map<Id, Node>, chain: seq<Id>)
    requires Sorted(nodes, chain)
    ensures forall i, j | 0 <= i < j <= |chain| :: Full(chain)[i] != Full(chain)[j]
  {
    forall i, j | 0 <= i < j <= |chain|
      ensures Full(chain)[i] != Full(chain)[j]
    {
      if i > 0 {
        assert Less(nodes[chain[i - 1]].key, nodes[chain[j - 1]].key);
      }
    }
  }

  /** Storing the pointer to x in its predecessor publishes x on this level. */
  lemma PublishFits(m: Memory, chains: Chains, level: nat, p: nat, x: Id)
    requires WellFormed(m, chains) && level < m.maxHeight
    requires x in m.nodes && x != HEAD && level < |m.nodes[x].next| && x !in chains[level]
    requires level > 0 ==> x in chains[level - 1]
    requires SplitsAt(m.nodes, chains[level], p, m.nodes[x].key)
    requires forall i | 0 <= i < |chains[level]| :: m.nodes[chains[level][i]].key != m.nodes[x].key
    requires m.nodes[x].next[level] == if p < |chains[level]| then Some(chains[level][p]) else None
    ensures var before := Full(chains[level])[p];
            && before in m.nodes && level < |m.nodes[before].next|
            && WellFormed(m.(nodes := WithNext(m.nodes, before, level, Some(x))),
                          chains[level := Spliced(chains[level], p, x)])
  {
    var before, s := Full(chains[level])[p], Spliced(chains[level], p, x);
    assert LevelFits(m.nodes, chains, level);
    FullDistinct(m.nodes, chains[level]);
    SplicedLinked(m.nodes, chains[level], level, p, x);
    SplicedSorted(m.nodes, chains[level], p, x);
    var nodes, after := WithNext(m.nodes, before, level, Some(x)), chains[level := s];
    assert forall id :: id in s <==> id in chains[level] || id == x;
    forall l | 0 <= l < MAX_HEIGHT
      ensures LevelFits(nodes, after, l)
    {
      if l != level {
        OtherLevelStays(m.nodes, chains, before, level, Some(x), l);
      }
    }
  }

  // ---------------------------------------------------------------- what readers can count on

  /** Memory at one moment, and the chains it holds. */
  datatype Moment = Moment(memory: Memory, chains: Chains)

  /** From one moment to a later one nodes keep their keys, and no level loses a node. */
  ghost predicate Grows(a: Moment, b: Moment) {
    && (forall id | id in a.memory.nodes :: id in b.memory.nodes && b.memory.nodes[id].key == a.memory.nodes[id].key)
    && a.memory.maxHeight <= b.memory.maxHeight
    && |a.chains| == |b.chains| == MAX_HEIGHT
    && (forall l | 0 <= l < MAX_HEIGHT :: forall id | id in a.chains[l] :: id in b.chains[l])
  }

  ghost predicate MomentFits(a: Moment) {
    WellFormed(a.memory, a.chains)
  }

  /** The moments of memory, one after each write. */
  ghost predicate IsHistory(history: seq<Moment>) {
    && history != []
    && (forall t {:trigger MomentFits(history[t])} | 0 <= t < |history| :: MomentFits(history[t]))
    && (forall s, t {:trigger Grows(history[s], history[t])} | 0 <= s <= t < |history| :: Grows(history[s], history[t]))
  }

  lemma GrowsOn(a: Moment, b: Moment, c: Moment)
    requires Grows(a, b) && Grows(b, c)
    ensures Grows(a, c)
  {
  }

  lemma HistoryGoesOn(history: seq<Moment>, b: Moment)
    requires IsHistory(history) && MomentFits(b) && Grows(history[|history| - 1], b)
    ensures IsHistory(history + [b])
  {
    var after, n := history + [b], |history|;
    assert MomentFits(history[n - 1]);
    forall t | 0 <= t < |after|
      ensures MomentFits(after[t])
    {
      assert t < n ==> MomentFits(history[t]);
    }
    forall s, t | 0 <= s <= t < |after|
      ensures Grows(after[s], after[t])
    {
      if t < n {
        assert Grows(history[s], history[t]);
      } else if s < n {
        assert Grows(history[s], history[n - 1]);
        GrowsOn(history[s], history[n - 1], b);
      }
    }
  }

  // ---------------------------------------------------------------- the searches, a step at a time

  /** Where a search is: at a node on a level, or done. */
  datatype Search = At(x: Id, level: nat) | Done(r: Option<Id>)

  predicate Readable(m: Memory, x: Id, level: nat) {
    x in m.nodes && level < |m.nodes[x].next| && var n := m.nodes[x].next[level]; n.Some? ==> n.value in m.nodes
  }

  /** Null is after every key. */
  predicate KeyIsAfterNode(m: Memory, target: InternalKey, n: Option<Id>) {
    n.Some? && n.value in m.nodes && Less(m.nodes[n.value].key, target)
  }

  function StepGreaterOrEqual(m: Memory, target: InternalKey, x: Id, level: nat): Search
    requires Readable(m, x, level)
  {
    var next := m.nodes[x].next[level];
    if KeyIsAfterNode(m, target, next) then At(next.value, level)
    else if level == 0 then Done(next)
    else At(x, level - 1)
  }

  function StepLessThan(m: Memory, target: InternalKey, x: Id, level: nat): Search
    requires Readable(m, x, level)
  {
    var next := m.nodes[x].next[level];
    if next.None? || !Less(m.nodes[next.value].key, target) then
      if level == 0 then Done(Some(x)) else At(x, level - 1)
    else At(next.value, level)
  }

  function StepLast(m: Memory, x: Id, level: nat): Search
    requires Readable(m, x, level)
  {
    var next := m.nodes[x].next[level];
    if next.None? then
      if level == 0 then Done(Some(x)) else At(x, level - 1)
    else At(next.value, level)
  }

  /** The search has reached a node that is before the target on this level: the head, or one of the chain. */
  ghost predicate Reached(a: Moment, target: InternalKey, x: Id, level: nat) {
    && level < MAX_HEIGHT == |a.chains|
    && (x == HEAD || (x in a.chains[level] && x in a.memory.nodes && Less(a.memory.nodes[x].key, target)))
  }

  ghost predicate Listed(a: Moment, x: Id, level: nat) {
    level < MAX_HEIGHT == |a.chains| && (x == HEAD || x in a.chains[level])
  }

  /** Where a listed node is in its chain, counting the head as 0. */
  lemma ListedAt(a: Moment, x: Id, level: nat) returns (i: nat)
    requires MomentFits(a) && Listed(a, x, level)
    ensures i <= |a.chains[level]| && Full(a.chains[level])[i] == x && LinkAt(a.memory.nodes, a.chains[level], level, i)
    ensures Readable(a.memory, x, level)
    ensures i < |a.chains[level]| ==> a.chains[level][i] in a.memory.nodes && a.chains[level][i] in a.chains[level]
  {
    var chain := a.chains[level];
    assert LevelFits(a.memory.nodes, a.chains, level);
    if x == HEAD {
      i := 0;
    } else {
      var j :| 0 <= j < |chain| && chain[j] == x;
      i := j + 1;
    }
    assert LinkAt(a.memory.nodes, chain, level, i);
    if i < |chain| {
      assert LinkAt(a.memory.nodes, chain, level, i + 1);
    }
  }

  /** The node at position p of level 0 is where the target splits the chain; past the end there is none. */
  ghost predicate SplitsLevel0(a: Moment, target: InternalKey, p: nat)
    requires |a.chains| == MAX_HEIGHT
  {
    SplitsAt(a.memory.nodes, a.chains[0], p, target)
  }

  function NodeAt(chain: seq<Id>, p: nat): Option<Id> {
    if p < |chain| then Some(chain[p]) else None
  }

  /** The first node at or after the target. */
  ghost predicate FoundAtOrAfter(a: Moment, target: InternalKey, r: Option<Id>) {
    |a.chains| == MAX_HEIGHT && exists p: nat :: SplitsLevel0(a, target, p) && r == NodeAt(a.chains[0], p)
  }

  /** The last node before the target, or the head. */
  ghost predicate FoundBefore(a: Moment, target: InternalKey, r: Option<Id>) {
    |a.chains| == MAX_HEIGHT && exists p: nat :: SplitsLevel0(a, target, p) && r == Some(Full(a.chains[0])[p])
  }

  /** The last node, or the head. */
  ghost predicate FoundLast(a: Moment, r: Option<Id>) {
    |a.chains| == MAX_HEIGHT && r == Some(Full(a.chains[0])[|a.chains[0]|])
  }

  /** A sorted chain is split by a key right after a node before it whose successor is not. */
  lemma SplitIs(nodes: map<Id, Node>, chain: seq<Id>, p: nat, target: InternalKey)
    requires Sorted(nodes, chain) && p <= |chain|
    requires p > 0 ==> Less(nodes[chain[p - 1]].key, target)
    requires p < |chain| ==> !Less(nodes[chain[p]].key, target)
    ensures SplitsAt(nodes, chain, p, target)
  {
    forall i | 0 <= i < p
      ensures Less(nodes[chain[i]].key, target)
    {
      if i < p - 1 {
        CompareIsTotalOrder(nodes[chain[i]].key, nodes[chain[p - 1]].key, target);
      }
    }
    forall i | p <= i < |chain|
      ensures !Less(nodes[chain[i]].key, target)
    {
      if i > p {
        CompareIsTotalOrder(nodes[chain[p]].key, nodes[chain[i]].key, target);
      }
    }
  }

  /** One step of FindGreaterOrEqual, at any moment: it stays before the target, or is done with the right node. */
  lemma GreaterOrEqualStep(a: Moment, target: InternalKey, x: Id, level: nat)
    requires MomentFits(a) && Reached(a, target, x, level)
    ensures Readable(a.memory, x, level)
    ensures var s := StepGreaterOrEqual(a.memory, target, x, level);
            && (s.At? ==> Reached(a, target, s.x, s.level))
            && (s.Done? ==> FoundAtOrAfter(a, target, s.r))
  {
    var i := ListedAt(a, x, level);
    assert LevelFits(a.memory.nodes, a.chains, level);
    var s := StepGreaterOrEqual(a.memory, target, x, level);
    if s.Done? {
      SplitIs(a.memory.nodes, a.chains[0], i, target);
      assert SplitsLevel0(a, target, i);
    }
  }

  lemma LessThanStep(a: Moment, target: InternalKey, x: Id, level: nat)
    requires MomentFits(a) && Reached(a, target, x, level)
    ensures Readable(a.memory, x, level)
    ensures var s := StepLessThan(a.memory, target, x, level);
            && (s.At? ==> Reached(a, target, s.x, s.level))
            && (s.Done? ==> FoundBefore(a, target, s.r))
  {
    var i := ListedAt(a, x, level);
    assert LevelFits(a.memory.nodes, a.chains, level);
    var s := StepLessThan(a.memory, target, x, level);
    if s.Done? {
      SplitIs(a.memory.nodes, a.chains[0], i, target);
      assert SplitsLevel0(a, target, i);
    }
  }

  lemma LastStep(a: Moment, x: Id, level: nat)
    requires MomentFits(a) && Listed(a, x, level)
    ensures Readable(a.memory, x, level)
    ensures var s := StepLast(a.memory, x, level);
            && (s.At? ==> Listed(a, s.x, s.level))
            && (s.Done? ==> FoundLast(a, s.r))
  {
    var i := ListedAt(a, x, level);
    assert LevelFits(a.memory.nodes, a.chains, level);
  }

  // ---------------------------------------------------------------- readers that run while the writer does

  /** A reader takes its k-th step at the moment times[k]; it starts at the head, on the top level it then saw. */
  ghost predicate IsRun(history: seq<Moment>, times: seq<nat>, states: seq<Search>,
                        step: (Memory, Id, nat) --> Search) {
    && |states| == |times| > 0
    && (forall k | 0 <= k < |times| :: times[k] < |history|)
    && (forall j, k | 0 <= j <= k < |times| :: times[j] <= times[k])
    && states[0]
      == At(HEAD, if history[times[0]].memory.maxHeight > 0 then history[times[0]].memory.maxHeight - 1 else 0)
    && (forall k {:trigger StepsTo(history, times, states, step, k)} | 0 < k < |states| ::
          StepsTo(history, times, states, step, k))
  }

  ghost predicate StepsTo(history: seq<Moment>, times: seq<nat>, states: seq<Search>,
                          step: (Memory, Id, nat) --> Search, k: nat)
    requires 0 < k < |states| == |times| && times[k] < |history|
  {
    && states[k - 1].At?
    && (step.requires(history[times[k]].memory, states[k - 1].x, states[k - 1].level)
        ==> states[k] == step(history[times[k]].memory, states[k - 1].x, states[k - 1].level))
  }

  lemma Later(history: seq<Moment>, times: seq<nat>, states: seq<Search>, step: (Memory, Id, nat) --> Search, k: nat)
    requires IsHistory(history) && IsRun(history, times, states, step) && k < |times|
    ensures MomentFits(history[times[k]])
    ensures k > 0 ==> MomentFits(history[times[k - 1]]) && Grows(history[times[k - 1]], history[times[k]])
    ensures k > 0 ==> StepsTo(history, times, states, step, k)
  {
    assert MomentFits(history[times[k]]);
    if k > 0 {
      assert MomentFits(history[times[k - 1]]);
      assert Grows(history[times[k - 1]], history[times[k]]);
      assert StepsTo(history, times, states, step, k);
    }
  }

  function GreaterOrEqualOf(target: InternalKey): (Memory, Id, nat) --> Search {
    (m: Memory, x: Id, level: nat) requires Readable(m, x, level) => StepGreaterOrEqual(m, target, x, level)
  }

  function LessThanOf(target: InternalKey): (Memory, Id, nat) --> Search {
    (m: Memory, x: Id, level: nat) requires Readable(m, x, level) => StepLessThan(m, target, x, level)
  }

  function LastOf(): (Memory, Id, nat) --> Search {
    (m: Memory, x: Id, level: nat) requires Readable(m, x, level) => StepLast(m, x, level)
  }

  /**
   However the writer's steps fall among its own, FindGreaterOrEqual ends with the first node at or after the target
   of the list as it is when it ends.
   */
  lemma {:induction false} ReaderFindsGreaterOrEqual(history: seq<Moment>, times: seq<nat>, states: seq<Search>,
                                                     target: InternalKey, k: nat)
    requires IsHistory(history) && IsRun(history, times, states, GreaterOrEqualOf(target)) && k < |states|
    ensures states[k].At? ==> Reached(history[times[k]], target, states[k].x, states[k].level)
    ensures states[k].Done? ==> FoundAtOrAfter(history[times[k]], target, states[k].r)
  {
    Later(history, times, states, GreaterOrEqualOf(target), k);
    if k > 0 {
      ReaderFindsGreaterOrEqual(history, times, states, target, k - 1);
      GreaterOrEqualStep(history[times[k]], target, states[k - 1].x, states[k - 1].level);
    }
  }

  lemma {:induction false} ReaderFindsLessThan(history: seq<Moment>, times: seq<nat>, states: seq<Search>,
                                               target: InternalKey, k: nat)
    requires IsHistory(history) && IsRun(history, times, states, LessThanOf(target)) && k < |states|
    ensures states[k].At? ==> Reached(history[times[k]], target, states[k].x, states[k].level)
    ensures states[k].Done? ==> FoundBefore(history[times[k]], target, states[k].r)
  {
    Later(history, times, states, LessThanOf(target), k);
    if k > 0 {
      ReaderFindsLessThan(history, times, states, target, k - 1);
      LessThanStep(history[times[k]], target, states[k - 1].x, states[k - 1].level);
    }
  }

  lemma {:induction false} ReaderFindsLast(history: seq<Moment>, times: seq<nat>, states: seq<Search>, k: nat)
    requires IsHistory(history) && IsRun(history, times, states, LastOf()) && k < |states|
    ensures states[k].At? ==> Listed(history[times[k]], states[k].x, states[k].level)
    ensures states[k].Done? ==> FoundLast(history[times[k]], states[k].r)
  {
    Later(history, times, states, LastOf(), k);
    if k > 0 {
      ReaderFindsLast(history, times, states, k - 1);
      LastStep(history[times[k]], states[k - 1].x, states[k - 1].level);
    }
  }

  // ---------------------------------------------------------------- one search, with nothing going on beside it

  lemma EmptyFits(nodes: map<Id, Node>)
    requires HEAD in nodes && nodes[HEAD].next == seq(MAX_HEIGHT, i => None)
    ensures MomentFits(Moment(Memory(nodes, 1), seq(MAX_HEIGHT, i => [])))
    ensures IsHistory([Moment(Memory(nodes, 1), seq(MAX_HEIGHT, i => []))])
  {
    var a := Moment(Memory(nodes, 1), seq(MAX_HEIGHT, i => []));
    forall l | 0 <= l < MAX_HEIGHT
      ensures LevelFits(nodes, a.chains, l)
    {
      assert LinkAt(nodes, a.chains[l], l, 0);
    }
    assert MomentFits(a);
  }

  /** x is the last node before the key on this level. */
  ghost predicate IsPrev(a: Moment, key: InternalKey, x: Id, level: nat) {
    && level < MAX_HEIGHT == |a.chains|
    && exists p: nat :: SplitsAt(a.memory.nodes, a.chains[level], p, key) && Full(a.chains[level])[p] == x
  }

  lemma NextIs(a: Moment, x: Id, level: nat, i: nat)
    requires MomentFits(a) && level < MAX_HEIGHT && i <= |a.chains[level]| && Full(a.chains[level])[i] == x
    ensures Readable(a.memory, x, level) && a.memory.nodes[x].next[level] == NodeAt(a.chains[level], i)
    ensures i < |a.chains[level]| ==> Full(a.chains[level])[i + 1] == a.chains[level][i]
  {
    assert LevelFits(a.memory.nodes, a.chains, level);
    assert LinkAt(a.memory.nodes, a.chains[level], level, i);
  }

  lemma PrevIs(a: Moment, key: InternalKey, x: Id, level: nat, i: nat)
    requires MomentFits(a) && Reached(a, key, x, level) && i <= |a.chains[level]| && Full(a.chains[level])[i] == x
    requires i < |a.chains[level]| ==>
               var y := a.chains[level][i]; y in a.memory.nodes && !Less(a.memory.nodes[y].key, key)
    ensures IsPrev(a, key, x, level)
  {
    assert LevelFits(a.memory.nodes, a.chains, level);
    SplitIs(a.memory.nodes, a.chains[level], i, key);
  }

  ghost predicate HasKey(a: Moment, key: InternalKey) {
    |a.chains| == MAX_HEIGHT && exists id :: id in a.chains[0] && id in a.memory.nodes && a.memory.nodes[id].key == key
  }

  lemma FoundIsEqual(a: Moment, key: InternalKey, r: Option<Id>)
    requires MomentFits(a) && FoundAtOrAfter(a, key, r)
    ensures r.Some? ==> r.value in a.memory.nodes
    ensures HasKey(a, key) <==> r.Some? && a.memory.nodes[r.value].key == key
  {
    var p: nat :| SplitsLevel0(a, key, p) && r == NodeAt(a.chains[0], p);
    assert LevelFits(a.memory.nodes, a.chains, 0);
    if HasKey(a, key) {
      var id :| id in a.chains[0] && id in a.memory.nodes && a.memory.nodes[id].key == key;
      var i :| 0 <= i < |a.chains[0]| && a.chains[0][i] == id;
      CompareIsTotalOrder(key, key, key);
    }
  }

  /** The same nodes, up to where their links lead. */
  ghost predicate Same(a: map<Id, Node>, b: map<Id, Node>) {
    && a.Keys == b.Keys
    && forall id | id in a :: id in b && b[id].key == a[id].key && |b[id].next| == |a[id].next|
  }

  lemma SameSplits(a: map<Id, Node>, b: map<Id, Node>, chain: seq<Id>, p: nat, key: InternalKey)
    requires Same(a, b) && SplitsAt(a, chain, p, key)
    ensures SplitsAt(b, chain, p, key)
  {
  }

  /** x, with this key, is not on the level, nor is another node with the key. */
  ghost predicate NewOn(a: Moment, key: InternalKey, x: Id, level: nat) {
    && level < |a.chains| && x !in a.chains[level]
    && forall i | 0 <= i < |a.chains[level]| ::
         a.chains[level][i] in a.memory.nodes && a.memory.nodes[a.chains[level][i]].key != key
  }

  /** From before to after, x has come into the level where its key belongs. */
  ghost predicate Joined(nodes: map<Id, Node>, before: Chains, after: Chains, key: InternalKey, x: Id, level: nat) {
    && level < |before| == |after|
    && exists p: nat :: SplitsAt(nodes, before[level], p, key) && after[level] == Spliced(before[level], p, x)
  }

  lemma Place(a: Moment, b: Moment, key: InternalKey, x: Id, before: Id, level: nat) returns (p: nat)
    requires Same(a.memory.nodes, b.memory.nodes) && level < |a.chains| == |b.chains|
               && b.chains[level] == a.chains[level]
    requires NewOn(a, key, x, level) && IsPrev(a, key, before, level)
    ensures SplitsAt(a.memory.nodes, a.chains[level], p, key) && SplitsAt(b.memory.nodes, b.chains[level], p, key)
    ensures Full(b.chains[level])[p] == before && NewOn(b, key, x, level)
  {
    p :| SplitsAt(a.memory.nodes, a.chains[level], p, key) && Full(a.chains[level])[p] == before;
    SameSplits(a.memory.nodes, b.memory.nodes, a.chains[level], p, key);
  }

  lemma JoinedNow(nodes: map<Id, Node>, nodes0: map<Id, Node>, start: Chains, before: Chains, after: Chains,
                  key: InternalKey, x: Id, level: nat, p: nat)
    requires Same(nodes, nodes0) && level < |start| == |before| == |after| && before[level] == start[level]
    requires SplitsAt(nodes, before[level], p, key) && after == before[level := Spliced(before[level], p, x)]
    requires forall l | 0 <= l < level :: Joined(nodes, start, before, key, x, l)
    ensures forall l {:trigger Joined(nodes, start, after, key, x, l)} | 0 <= l <= level ::
              Joined(nodes, start, after, key, x, l)
  {
    forall l | 0 <= l <= level
      ensures Joined(nodes, start, after, key, x, l)
    {
      if l < level {
        assert Joined(nodes, start, before, key, x, l);
        assert after[l] == before[l];
      }
    }
  }

  lemma JoinedSame(nodes: map<Id, Node>, nodes': map<Id, Node>, before: Chains, after: Chains, key: InternalKey, x: Id,
                   height: nat)
    requires Same(nodes, nodes')
    requires forall l {:trigger Joined(nodes, before, after, key, x, l)} | 0 <= l < height ::
               Joined(nodes, before, after, key, x, l)
    ensures forall l {:trigger Joined(nodes', before, after, key, x, l)} | 0 <= l < height ::
              Joined(nodes', before, after, key, x, l)
  {
    forall l | 0 <= l < height
      ensures Joined(nodes', before, after, key, x, l)
    {
      assert Joined(nodes, before, after, key, x, l);
      var p: nat :| SplitsAt(nodes, before[l], p, key) && after[l] == Spliced(before[l], p, x);
      SameSplits(nodes, nodes', before[l], p, key);
    }
  }

  /** The new node is on no level yet, and its key is new on every one. */
  lemma NewEverywhere(a: Moment, b: Moment, key: InternalKey, x: Id, node: Node, prev: seq<Id>, height: nat)
    requires MomentFits(a) && MomentFits(b) && x !in a.memory.nodes && a.chains == b.chains
               && height <= MAX_HEIGHT == |prev|
    requires !HasKey(a, key)
    requires b.memory.nodes == a.memory.nodes[x := node]
    requires forall l | 0 <= l < height :: IsPrev(a, key, prev[l], l)
    ensures forall l {:trigger NewOn(b, key, x, l)} | 0 <= l < height :: NewOn(b, key, x, l)
    ensures forall l {:trigger IsPrev(b, key, prev[l], l)} | 0 <= l < height :: IsPrev(b, key, prev[l], l)
  {
    forall l | 0 <= l < height
      ensures NewOn(b, key, x, l) && IsPrev(b, key, prev[l], l)
    {
      assert LevelFits(a.memory.nodes, a.chains, l);
      forall i | 0 <= i < |a.chains[l]|
        ensures a.memory.nodes[a.chains[l][i]].key != key
      {
        OnLevel0(a, l, a.chains[l][i]);
      }
      assert IsPrev(a, key, prev[l], l);
      var p: nat :| SplitsAt(a.memory.nodes, a.chains[l], p, key) && Full(a.chains[l])[p] == prev[l];
      assert SplitsAt(b.memory.nodes, b.chains[l], p, key);
    }
  }

  lemma {:induction false} OnLevel0(a: Moment, level: nat, id: Id)
    requires MomentFits(a) && level < MAX_HEIGHT && id in a.chains[level]
    ensures id in a.chains[0]
  {
    if level > 0 {
      assert LevelFits(a.memory.nodes, a.chains, level);
      OnLevel0(a, level - 1, id);
    }
  }

  // ---------------------------------------------------------------- the list

  class SkipList {
    var nodes: map<Id, Node>
    var maxHeight: nat
    var nextId: Id
    ghost var chains: Chains
    ghost var history: seq<Moment>

    ghost function Now(): Moment
      reads this
    {
      Moment(Memory(nodes, maxHeight), chains)
    }

    ghost predicate Valid()
      reads this
    {
      && MomentFits(Now()) && IsHistory(history) && history[|history| - 1] == Now()
      && nextId > HEAD && forall id | id in nodes :: id < nextId
    }

    constructor ()
      ensures Valid() && chains[0] == []
    {
      nodes := map[HEAD := Node(InternalKey(0.0, 0, TypeDeletion), seq(MAX_HEIGHT, i => None))];
      maxHeight, nextId := 1, 1;
      chains := seq(MAX_HEIGHT, i => []);
      new;
      EmptyFits(nodes);
      history := [Now()];
    }

    /** The earliest node at or after the key; prev gets its predecessor on every level in use. */
    method FindGreaterOrEqual(key: InternalKey, prev: seq<Id>) returns (r: Option<Id>, prev': seq<Id>)
      requires Valid() && |prev| == MAX_HEIGHT
      ensures FoundAtOrAfter(Now(), key, r)
      ensures |prev'| == MAX_HEIGHT
      ensures forall l | 0 <= l < maxHeight :: IsPrev(Now(), key, prev'[l], l)
    {
      var x, level: nat := HEAD, maxHeight - 1;
      prev' := prev;
      ghost var i: nat := ListedAt(Now(), x, level);
      while true
        invariant Reached(Now(), key, x, level) && level < maxHeight && |prev'| == MAX_HEIGHT == |chains|
        invariant i <= |chains[level]| && Full(chains[level])[i] == x
        invariant forall l | level < l < maxHeight :: IsPrev(Now(), key, prev'[l], l)
        decreases level, |chains[level]| - i
      {
        GreaterOrEqualStep(Now(), key, x, level);
        NextIs(Now(), x, level, i);
        var next := nodes[x].next[level];
        if KeyIsAfterNode(Memory(nodes, maxHeight), key, next) {
          x := next.value;
          i := i + 1;
        } else {
          PrevIs(Now(), key, x, level, i);
          prev' := prev'[level := x];
          if level == 0 {
            return next, prev';
          }
          level := level - 1;
          i := ListedAt(Now(), x, level);
        }
      }
    }

    /** The latest node before the key, or the head. */
    method FindLessThan(key: InternalKey) returns (r: Id)
      requires Valid()
      ensures FoundBefore(Now(), key, Some(r))
    {
      var x, level: nat := HEAD, maxHeight - 1;
      ghost var i: nat := ListedAt(Now(), x, level);
      while true
        invariant Reached(Now(), key, x, level) && |chains| == MAX_HEIGHT
        invariant i <= |chains[level]| && Full(chains[level])[i] == x
        decreases level, |chains[level]| - i
      {
        LessThanStep(Now(), key, x, level);
        NextIs(Now(), x, level, i);
        var next := nodes[x].next[level];
        if next.None? || !Less(nodes[next.value].key, key) {
          if level == 0 {
            return x;
          }
          level := level - 1;
          i := ListedAt(Now(), x, level);
        } else {
          x := next.value;
          i := i + 1;
        }
      }
    }

    /** The last node, or the head. */
    method FindLast() returns (r: Id)
      requires Valid()
      ensures FoundLast(Now(), Some(r))
    {
      var x, level: nat := HEAD, maxHeight - 1;
      ghost var i: nat := ListedAt(Now(), x, level);
      while true
        invariant Listed(Now(), x, level) && |chains| == MAX_HEIGHT
        invariant i <= |chains[level]| && Full(chains[level])[i] == x
        decreases level, |chains[level]| - i
      {
        LastStep(Now(), x, level);
        NextIs(Now(), x, level, i);
        var next := nodes[x].next[level];
        if next.None? {
          if level == 0 {
            return x;
          }
          level := level - 1;
          i := ListedAt(Now(), x, level);
        } else {
          x := next.value;
          i := i + 1;
        }
      }
    }

    method Contains(key: InternalKey) returns (b: bool)
      requires Valid()
      ensures b <==> HasKey(Now(), key)
    {
      var x, _ := FindGreaterOrEqual(key, seq(MAX_HEIGHT, i => HEAD));
      FoundIsEqual(Now(), key, x);
      b := x.Some? && nodes[x.value].key == key;
    }

    /** One write to a link: the chains are what the links now make them, and the history goes on. */
    method SetNext(x: Id, level: nat, y: Option<Id>, ghost after: Chains)
      requires Valid() && x in nodes && level < |nodes[x].next|
      requires MomentFits(Moment(Memory(WithNext(nodes, x, level, y), maxHeight), after))
      requires forall l | 0 <= l < MAX_HEIGHT :: |chains| == |after| && forall id | id in chains[l] :: id in after[l]
      modifies this`nodes, this`chains, this`history
      ensures Valid() && nodes == WithNext(old(nodes), x, level, y) && chains == after
                && history == old(history) + [Now()]
      ensures Same(old(nodes), nodes)
    {
      ghost var before := Now();
      nodes := WithNext(nodes, x, level, y);
      chains := after;
      assert Grows(before, Now());
      HistoryGoesOn(history, Now());
      history := history + [Now()];
    }

    /** The node's own link, while no reader can see it on this level. */
    method SetOwnNext(x: Id, before: Id, level: nat, ghost p: nat)
      requires Valid() && level < maxHeight && x in nodes && x != HEAD && level < |nodes[x].next| && x !in chains[level]
      requires p <= |chains[level]| && Full(chains[level])[p] == before
      modifies this`nodes, this`chains, this`history
      ensures Valid() && Same(old(nodes), nodes) && chains == old(chains) && history == old(history) + [Now()]
      ensures nodes[x].next[level] == NodeAt(chains[level], p)
    {
      NextIs(Now(), before, level, p);
      OwnLinkFits(Now().memory, chains, x, level, nodes[before].next[level]);
      SetNext(x, level, nodes[before].next[level], chains);
    }

    /** Its predecessor's link: now readers can see it. */
    method Publish(x: Id, before: Id, level: nat, ghost p: nat)
      requires Valid() && level < maxHeight && x in nodes && x != HEAD && level < |nodes[x].next| && x !in chains[level]
      requires level > 0 ==> x in chains[level - 1]
      requires SplitsAt(nodes, chains[level], p, nodes[x].key) && Full(chains[level])[p] == before
      requires forall i | 0 <= i < |chains[level]| :: nodes[chains[level][i]].key != nodes[x].key
      requires nodes[x].next[level] == NodeAt(chains[level], p)
      modifies this`nodes, this`chains, this`history
      ensures Valid() && Same(old(nodes), nodes) && history == old(history) + [Now()]
      ensures chains == old(chains)[level := Spliced(old(chains)[level], p, x)]
    {
      PublishFits(Now().memory, chains, level, p, x);
      SetNext(before, level, Some(x), chains[level := Spliced(chains[level], p, x)]);
    }

    /** Each level that x reaches, from the bottom up: first its own link, then its predecessor's. */
    method LinkIn(x: Id, height: nat, prev: seq<Id>, key: InternalKey)
      requires Valid() && height <= maxHeight && |prev| == MAX_HEIGHT && x in nodes && x != HEAD
      requires |nodes[x].next| == height && nodes[x].key == key
      requires forall l {:trigger NewOn(Now(), key, x, l)} | 0 <= l < height :: NewOn(Now(), key, x, l)
      requires forall l {:trigger IsPrev(Now(), key, prev[l], l)} | 0 <= l < height :: IsPrev(Now(), key, prev[l], l)
      modifies this`nodes, this`chains, this`history
      ensures Valid() && Same(old(nodes), nodes) && |chains| == |old(chains)| == MAX_HEIGHT
      ensures forall l {:trigger Joined(old(nodes), old(chains), chains, key, x, l)} | 0 <= l < height ::
                Joined(old(nodes), old(chains), chains, key, x, l)
      ensures forall l | height <= l < MAX_HEIGHT :: chains[l] == old(chains)[l]
      ensures old(history) <= history && |history| == |old(history)| + 2 * height
    {
      for i := 0 to height
        invariant Valid() && Same(old(nodes), nodes) && |chains| == |old(chains)| == MAX_HEIGHT
        invariant forall l {:trigger Joined(old(nodes), old(chains), chains, key, x, l)} | 0 <= l < i ::
                    Joined(old(nodes), old(chains), chains, key, x, l)
        invariant forall l | i <= l < MAX_HEIGHT :: chains[l] == old(chains)[l]
        invariant old(history) <= history && |history| == |old(history)| + 2 * i
      {
        if i > 0 {
          assert Joined(old(nodes), old(chains), chains, key, x, i - 1);
        }
        assert NewOn(old(Now()), key, x, i) && IsPrev(old(Now()), key, prev[i], i);
        LinkLevel(old(Now()), x, prev[i], key, i);
      }
    }

    /** The two writes on one level. */
    method LinkLevel(ghost start: Moment, x: Id, before: Id, key: InternalKey, level: nat)
      requires Valid() && level < maxHeight && x in nodes && x != HEAD && level < |nodes[x].next| && nodes[x].key == key
      requires Same(start.memory.nodes, nodes) && |start.chains| == MAX_HEIGHT == |chains|
      requires forall l | level <= l < MAX_HEIGHT :: chains[l] == start.chains[l]
      requires NewOn(start, key, x, level) && IsPrev(start, key, before, level)
      requires level > 0 ==> x in chains[level - 1]
      requires forall l {:trigger Joined(start.memory.nodes, start.chains, chains, key, x, l)} | 0 <= l < level ::
                 Joined(start.memory.nodes, start.chains, chains, key, x, l)
      modifies this`nodes, this`chains, this`history
      ensures Valid() && Same(old(nodes), nodes) && Same(start.memory.nodes, nodes) && |chains| == MAX_HEIGHT
      ensures forall l {:trigger Joined(start.memory.nodes, start.chains, chains, key, x, l)} | 0 <= l <= level ::
                Joined(start.memory.nodes, start.chains, chains, key, x, l)
      ensures x in chains[level] && forall l | level < l < MAX_HEIGHT :: chains[l] == start.chains[l]
      ensures old(history) <= history && |history| == |old(history)| + 2
    {
      ghost var p := Place(start, Now(), key, x, before, level);
      ghost var nodes0, chains0 := nodes, chains;
      SetOwnNext(x, before, level, p);
      SameSplits(nodes0, nodes, chains[level], p, key);
      Publish(x, before, level, p);
      JoinedNow(start.memory.nodes, nodes0, start.chains, chains0, chains, key, x, level, p);
    }

    /** The height goes up before anything is linked there; until then the head's links on the new levels are null. */
    method RaiseHeight(height: nat)
      requires Valid() && maxHeight < height <= MAX_HEIGHT
      modifies this`maxHeight, this`history
      ensures Valid() && maxHeight == height && history == old(history) + [Now()]
    {
      RaiseFits(Now().memory, chains, height);
      ghost var before := Now();
      maxHeight := height;
      assert Grows(before, Now());
      HistoryGoesOn(history, Now());
      history := history + [Now()];
    }

    /** A new node; what its links hold to begin with is nobody's business. */
    method NewNode(key: InternalKey, links: seq<Option<Id>>) returns (x: Id)
      requires Valid()
      modifies this`nodes, this`nextId, this`history
      ensures Valid() && x == old(nextId) && x !in old(nodes) && nodes == old(nodes)[x := Node(key, links)]
      ensures history == old(history) + [Now()]
    {
      ghost var before := Now();
      x := nextId;
      UnlinkedFits(Now().memory, chains, x, Node(key, links));
      nodes, nextId := nodes[x := Node(key, links)], x + 1;
      assert Grows(before, Now());
      HistoryGoesOn(history, Now());
      history := history + [Now()];
    }

    /**
     A key that is not in the list yet, in a node of the height that was drawn for it. Every write is one moment of the
     history, and every moment fits.
     */
    method Insert(key: InternalKey, height: nat, links: seq<Option<Id>>) returns (x: Id)
      requires Valid() && 1 <= height == |links| <= MAX_HEIGHT && !HasKey(Now(), key)
      modifies this
      ensures Valid() && x == old(nextId) && |chains| == |old(chains)| == MAX_HEIGHT
      ensures x in nodes && nodes[x].key == key && forall id | id in old(nodes) ::
                id in nodes && nodes[id].key == old(nodes)[id].key
      ensures forall l {:trigger Joined(nodes, old(chains), chains, key, x, l)} | 0 <= l < height ::
                Joined(nodes, old(chains), chains, key, x, l)
      ensures forall l | height <= l < MAX_HEIGHT :: chains[l] == old(chains)[l]
      ensures old(history) <= history
      ensures |history| == |old(history)| + (if height > old(maxHeight) then 1 else 0) + 1 + 2 * height
    {
      var prev := seq(MAX_HEIGHT, i => HEAD);
      var _, prev' := FindGreaterOrEqual(key, prev);
      prev := prev';
      if height > maxHeight {
        prev := HeadAbove(height, key, prev);
        RaiseHeight(height);
      }
      ghost var before := Now();
      x := NewNode(key, links);
      NewEverywhere(before, Now(), key, x, Node(key, links), prev, height);
      ghost var nodes0 := nodes;
      LinkIn(x, height, prev, key);
      JoinedSame(nodes0, nodes, before.chains, chains, key, x, height);
    }

    /** On the levels not used so far the predecessor is the head. */
    method HeadAbove(height: nat, key: InternalKey, prev: seq<Id>) returns (prev': seq<Id>)
      requires Valid() && maxHeight < height <= MAX_HEIGHT == |prev|
      requires forall l | 0 <= l < maxHeight :: IsPrev(Now(), key, prev[l], l)
      ensures |prev'| == MAX_HEIGHT
      ensures forall l | 0 <= l < height :: IsPrev(Now(), key, prev'[l], l)
    {
      prev' := prev;
      for i := maxHeight to height
        invariant |prev'| == MAX_HEIGHT
        invariant forall l | 0 <= l < i :: IsPrev(Now(), key, prev'[l], l)
      {
        prev' := prev'[i := HEAD];
        assert SplitsAt(nodes, chains[i], 0, key);
      }
    }
  }

  lemma PositionIsFound(a: Moment, i: nat, p: nat)
    requires MomentFits(a) && i < |a.chains[0]|
    requires a.chains[0][i] in a.memory.nodes
               && SplitsAt(a.memory.nodes, a.chains[0], p, a.memory.nodes[a.chains[0][i]].key)
    ensures p == i
  {
    assert LevelFits(a.memory.nodes, a.chains, 0);
    var chain, key := a.chains[0], a.memory.nodes[a.chains[0][i]].key;
    CompareIsTotalOrder(key, key, key);
    assert forall j | 0 <= j < i :: Less(a.memory.nodes[chain[j]].key, key);
    var split := NodeAt(chain, p);
  }

  /** A cursor over the list; its position is an index of the bottom chain. */
  class Iterator {
    const list: SkipList
    var node: Option<Id>

    constructor (list: SkipList)
      ensures this.list == list && node == None
    {
      this.list := list;
      node := None;
    }

    ghost predicate IsAt(position: Position)
      reads this, list
    {
      |list.chains| == MAX_HEIGHT && node == match position case None => None case Some(i) => NodeAt(list.chains[0], i)
    }

    method Next(ghost i: nat)
      requires list.Valid() && i < |list.chains[0]| && IsAt(Some(i))
      modifies this
      ensures IsAt(Following(|list.chains[0]|, i))
    {
      FullAt(list.chains[0], i);
      NextIs(list.Now(), node.value, 0, i + 1);
      node := list.nodes[node.value].next[0];
    }

    /** There are no backward links: the list is searched for the last node before this one. */
    method Prev(ghost i: nat)
      requires list.Valid() && i < |list.chains[0]| && IsAt(Some(i))
      modifies this
      ensures IsAt(Preceding(i))
    {
      FullAt(list.chains[0], i);
      NextIs(list.Now(), node.value, 0, i + 1);
      ghost var key := list.nodes[node.value].key;
      var r := list.FindLessThan(list.nodes[node.value].key);
      ghost var p: nat :| SplitsLevel0(list.Now(), key, p) && Some(r) == Some(Full(list.chains[0])[p]);
      PositionIsFound(list.Now(), i, p);
      HeadIsApart(list.Now());
      node := if r == HEAD then None else Some(r);
    }

    /** At the first node at or after the target: everything before it is before the target, and nothing from it on. */
    method Seek(target: InternalKey) returns (ghost i: nat)
      requires list.Valid()
      modifies this
      ensures SplitsLevel0(list.Now(), target, i) && IsAt(AtIndex(|list.chains[0]|, i))
    {
      var r, _ := list.FindGreaterOrEqual(target, seq(MAX_HEIGHT, i => HEAD));
      node := r;
      i :| SplitsLevel0(list.Now(), target, i) && r == NodeAt(list.chains[0], i);
    }

    method SeekToFirst()
      requires list.Valid()
      modifies this
      ensures IsAt(First(|list.chains[0]|))
    {
      NextIs(list.Now(), HEAD, 0, 0);
      node := list.nodes[HEAD].next[0];
    }

    method SeekToLast()
      requires list.Valid()
      modifies this
      ensures IsAt(Last(|list.chains[0]|))
    {
      var r := list.FindLast();
      HeadIsApart(list.Now());
      node := if r == HEAD then None else Some(r);
    }
  }

  lemma FullAt(chain: seq<Id>, i: nat)
    requires i < |chain|
    ensures Full(chain)[i + 1] == chain[i]
  {
  }

  lemma HeadIsApart(a: Moment)
    requires MomentFits(a)
    ensures HEAD !in a.chains[0]
  {
    assert LevelFits(a.memory.nodes, a.chains, 0);
  }
}
