/**
 Fields in any order. The encoder writes them in the order of the descriptor, but a decoder has to take them as they
 come, and some may be missing: what comes back is the same, unless a required field is among the missing.
 */
module NanopbOrders {
  import opened Coding
  import opened NanopbIterator
  import opened NanopbMessages
  import opened NanopbParsing
  import opened NanopbRoundTrip
  import opened NanopbWire
  import opened Reads
  import Slices

  /** Some of the fields, each at most once. */
  predicate IsOrder(fields: seq<Field>, order: seq<nat>) {
    && (forall k | 0 <= k < |order| :: order[k] < |fields|)
    && forall j, k | 0 <= j < k < |order| :: order[j] != order[k]
  }

  /** The encodings of these fields, one after the other. */
  function OrderedBytes(fields: seq<Field>, m: Message, order: seq<nat>): Bytes
    requires |fields| == |m.slots| && forall k | 0 <= k < |order| :: order[k] < |fields|
  {
    if order == [] then []
    else
      var i := order[|order| - 1];
      OrderedBytes(fields, m, order[..|order| - 1]) + FieldBytes(fields[i], m, i)
  }

  predicate OrderTerminates(fields: seq<Field>, m: Message, order: seq<nat>)
    requires |fields| == |m.slots| && forall k | 0 <= k < |order| :: order[k] < |fields|
  {
    forall k {:trigger order[k]} | 0 <= k < |order| :: FieldTerminates(fields[order[k]], m, order[k])
  }

  /** What has been read after these fields. */
  function After(fields: seq<Field>, m: Message, order: seq<nat>): (s: State)
    requires |fields| == |m.slots| && forall k | 0 <= k < |order| :: order[k] < |fields|
    ensures |s.m.slots| == |fields|
  {
    if order == [] then State(DefaultMessage(fields), {})
    else WithField(fields, m, order[|order| - 1], After(fields, m, order[..|order| - 1]))
  }

  // ---------------------------------------------------------------- what that is

  ghost predicate SetsUnion(fields: seq<Field>, m: Message, i: nat, u: nat)
    requires i < |fields| <= |m.slots|
  {
    fields[i].htype == OneOf(u) && Present(fields[i], m, i) != []
  }

  /** At most one member of a union is present. */
  lemma OneSetsUnion(fields: seq<Field>, m: Message, i: nat, j: nat, u: nat)
    requires IsDescriptor(fields) && IsMessage(fields, m) && i < |fields| && j < |fields|
    requires SetsUnion(fields, m, i, u) && SetsUnion(fields, m, j, u)
    ensures i == j
  {
    FieldsStep(fields, m, i);
    FieldsStep(fields, m, j);
  }

  lemma {:induction false} AfterSlots(fields: seq<Field>, m: Message, order: seq<nat>, i: nat)
    requires IsOrder(fields, order) && |fields| == |m.slots| && i < |fields|
    ensures After(fields, m, order).m.slots[i]
         == if i in order then CanonicalSlot(fields[i], m, i) else DefaultSlot(fields[i])
    decreases |order|
  {
    if order == [] {
      DefaultSlotAt(fields, i);
    } else {
      var init := order[..|order| - 1];
      assert order == init + [order[|order| - 1]];
      AfterSlots(fields, m, init, i);
    }
  }

  ghost predicate SetAmong(fields: seq<Field>, m: Message, order: seq<nat>, u: nat)
    requires IsOrder(fields, order) && |fields| == |m.slots|
  {
    exists i :: i in order && SetsUnion(fields, m, i, u)
  }

  lemma OneMoreField(order: seq<nat>)
    requires order != []
    ensures forall i :: i in order <==> i in order[..|order| - 1] || i == order[|order| - 1]
  {
    assert order == order[..|order| - 1] + [order[|order| - 1]];
  }

  lemma {:induction false} AfterUnions(fields: seq<Field>, m: Message, order: seq<nat>, u: nat)
    requires IsOrder(fields, order) && |fields| == |m.slots|
    ensures u in After(fields, m, order).m.unions <==> SetAmong(fields, m, order, u)
    decreases |order|
  {
    if order != [] {
      OneMoreField(order);
      AfterUnions(fields, m, order[..|order| - 1], u);
      assert SetAmong(fields, m, order, u)
        <==> SetAmong(fields, m, order[..|order| - 1], u) || SetsUnion(fields, m, order[|order| - 1], u);
    } else {
      assert After(fields, m, order).m.unions == map[];
    }
  }

  lemma {:induction false} UnionAfter(fields: seq<Field>, m: Message, order: seq<nat>, u: nat, i: nat)
    requires IsOrder(fields, order) && |fields| == |m.slots| && IsDescriptor(fields) && IsMessage(fields, m)
    requires i in order && SetsUnion(fields, m, i, u)
    ensures u in After(fields, m, order).m.unions
    ensures After(fields, m, order).m.unions[u] == Choice(fields[i].tag, CanonicalPresent(fields[i], m, i)[0])
    decreases |order|
  {
    var init, last := order[..|order| - 1], order[|order| - 1];
    assert order == init + [last];
    if i != last {
      UnionAfter(fields, m, init, u, i);
      if SetsUnion(fields, m, last, u) {
        OneSetsUnion(fields, m, i, last, u);
      }
    }
  }

  ghost predicate CountsAs(fields: seq<Field>, i: nat, n: nat)
    requires i < |fields|
  {
    fields[i].htype.Required? && RequiredBefore(fields, i) == n < MAX_REQUIRED_FIELDS
  }

  ghost predicate CountedAmong(fields: seq<Field>, order: seq<nat>, n: nat)
    requires IsOrder(fields, order)
  {
    exists i :: i in order && CountsAs(fields, i, n)
  }

  lemma {:induction false} AfterSeen(fields: seq<Field>, m: Message, order: seq<nat>, n: nat)
    requires IsOrder(fields, order) && |fields| == |m.slots|
    ensures n in After(fields, m, order).seen <==> CountedAmong(fields, order, n)
    decreases |order|
  {
    if order != [] {
      OneMoreField(order);
      AfterSeen(fields, m, order[..|order| - 1], n);
      assert CountedAmong(fields, order, n)
        <==> CountedAmong(fields, order[..|order| - 1], n) || CountsAs(fields, order[|order| - 1], n);
    } else {
      assert After(fields, m, order).seen == {};
    }
  }

  // ---------------------------------------------------------------- reading them

  /** What comes next in an order has not been read. */
  lemma NextIsBlankInOrder(fields: seq<Field>, m: Message, order: seq<nat>)
    requires IsDescriptor(fields) && IsMessage(fields, m) && IsOrder(fields, order) && order != []
    ensures Blank(fields, m, order[|order| - 1], After(fields, m, order[..|order| - 1]))
  {
    var init, i := order[..|order| - 1], order[|order| - 1];
    AfterSlots(fields, m, init, i);
    if fields[i].htype.OneOf? && Present(fields[i], m, i) != [] {
      var u := fields[i].htype.union;
      AfterUnions(fields, m, init, u);
      if j :| j in init && SetsUnion(fields, m, j, u) {
        OneSetsUnion(fields, m, j, i, u);
      }
    }
  }

  lemma {:induction false} OrderIsRead(fields: seq<Field>, m: Message, order: seq<nat>, rest: Bytes)
    requires IsDescriptor(fields) && IsMessage(fields, m) && AllFit(fields, m) && |FieldsBytes(fields, m)| < TWO_32
    requires IsOrder(fields, order)
    ensures ReadFields(fields, OrderedBytes(fields, m, order) + rest, State(DefaultMessage(fields), {}))
         == if OrderTerminates(fields, m, order) then ReadFields(fields, rest, After(fields, m, order)) else None
    decreases |order|
  {
    if order == [] {
      assert OrderedBytes(fields, m, order) + rest == rest;
    } else {
      var init, i := order[..|order| - 1], order[|order| - 1];
      FieldsStep(fields, m, i);
      var bytes := FieldBytes(fields[i], m, i);
      Slices.Associates(OrderedBytes(fields, m, init), bytes, rest);
      OrderIsRead(fields, m, init, bytes + rest);
      NextIsBlankInOrder(fields, m, order);
      FieldIsRead(fields, m, i, rest, After(fields, m, init));
      LastTerminates(fields, m, order);
    }
  }

  lemma LastTerminates(fields: seq<Field>, m: Message, order: seq<nat>)
    requires |fields| == |m.slots| && IsOrder(fields, order) && order != []
    ensures var i := order[|order| - 1];
            OrderTerminates(fields, m, order)
            <==> OrderTerminates(fields, m, order[..|order| - 1]) && FieldTerminates(fields[i], m, i)
  {
    var init := order[..|order| - 1];
    assert forall k | 0 <= k < |init| :: init[k] == order[k];
  }

  // ---------------------------------------------------------------- required fields

  /** Every required field is among these, of those that the decoder keeps track of. */
  predicate HasRequired(fields: seq<Field>, order: seq<nat>) {
    forall i | 0 <= i < |fields| && fields[i].htype.Required? && RequiredBefore(fields, i) < MAX_REQUIRED_FIELDS ::
      i in order
  }

  lemma {:induction false} NthRequired(fields: seq<Field>, k: nat, n: nat) returns (i: nat)
    requires n <= |fields| && k < RequiredBefore(fields, n)
    ensures i < n && fields[i].htype.Required? && RequiredBefore(fields, i) == k
  {
    if k < RequiredBefore(fields, n - 1) {
      i := NthRequired(fields, k, n - 1);
    } else {
      i := n - 1;
    }
  }

  lemma {:induction false} RequiredGoesOn(fields: seq<Field>, i: nat, n: nat)
    requires i < n <= |fields| && fields[i].htype.Required?
    ensures RequiredBefore(fields, i) < RequiredBefore(fields, n)
  {
    if i < n - 1 {
      RequiredGoesOn(fields, i, n - 1);
    }
  }

  lemma RequiredDiffer(fields: seq<Field>, i: nat, j: nat)
    requires i < |fields| && j < |fields| && fields[i].htype.Required? && fields[j].htype.Required?
    requires RequiredBefore(fields, i) == RequiredBefore(fields, j)
    ensures i == j
  {
    if i < j {
      RequiredGoesOn(fields, i, j);
    } else if j < i {
      RequiredGoesOn(fields, j, i);
    }
  }

  /** The decoder's bookkeeping says exactly that. */
  lemma AllSeenAfter(fields: seq<Field>, m: Message, order: seq<nat>)
    requires IsOrder(fields, order) && |fields| == |m.slots|
    ensures AllSeen(fields, After(fields, m, order).seen) <==> HasRequired(fields, order)
  {
    var seen := After(fields, m, order).seen;
    if AllSeen(fields, seen) {
      forall i | 0 <= i < |fields| && fields[i].htype.Required? && RequiredBefore(fields, i) < MAX_REQUIRED_FIELDS
        ensures i in order
      {
        RequiredGoesOn(fields, i, |fields|);
        AfterSeen(fields, m, order, RequiredBefore(fields, i));
        assert CountedAmong(fields, order, RequiredBefore(fields, i));
        var j :| j in order && CountsAs(fields, j, RequiredBefore(fields, i));
        RequiredDiffer(fields, i, j);
      }
    }
    if HasRequired(fields, order) {
      forall k | 0 <= k < Smaller(RequiredBefore(fields, |fields|), MAX_REQUIRED_FIELDS)
        ensures k in seen
      {
        var i := NthRequired(fields, k, |fields|);
        AfterSeen(fields, m, order, k);
        assert CountsAs(fields, i, k);
      }
    }
  }

  // ---------------------------------------------------------------- decoding

  /**
   Any of the fields in any order: decoding fails exactly if a required field is missing or a string has no room for its
   terminator, and otherwise gives the fields that are there, and defaults for the others.
   */
  lemma AnyOrderIsDecoded(fields: seq<Field>, m: Message, order: seq<nat>)
    requires IsDescriptor(fields) && IsMessage(fields, m) && AllFit(fields, m) && |FieldsBytes(fields, m)| < TWO_32
    requires IsOrder(fields, order)
    ensures var r := Decode(fields, OrderedBytes(fields, m, order));
            && (r.Some? <==> HasRequired(fields, order) && OrderTerminates(fields, m, order))
            && (r.Some? ==> forall i | 0 <= i < |fields| ::
                  r.value.slots[i] == if i in order then CanonicalSlot(fields[i], m, i) else DefaultSlot(fields[i]))
            && (r.Some? ==> r.value == After(fields, m, order).m)
  {
    var bytes := OrderedBytes(fields, m, order);
    OrderIsRead(fields, m, order, []);
    assert bytes + [] == bytes;
    AllSeenAfter(fields, m, order);
    forall i | 0 <= i < |fields|
      ensures After(fields, m, order).m.slots[i]
           == if i in order then CanonicalSlot(fields[i], m, i) else DefaultSlot(fields[i])
    {
      AfterSlots(fields, m, order, i);
    }
  }

  lemma SameFieldsSameMessage(fields: seq<Field>, m: Message, a: seq<nat>, b: seq<nat>)
    requires IsDescriptor(fields) && IsMessage(fields, m) && IsOrder(fields, a) && IsOrder(fields, b)
    requires forall i :: i in a <==> i in b
    ensures After(fields, m, a).m == After(fields, m, b).m
    ensures HasRequired(fields, a) <==> HasRequired(fields, b)
    ensures OrderTerminates(fields, m, a) ==> OrderTerminates(fields, m, b)
  {
    var x, y := After(fields, m, a).m, After(fields, m, b).m;
    forall i | 0 <= i < |fields|
      ensures x.slots[i] == y.slots[i]
    {
      AfterSlots(fields, m, a, i);
      AfterSlots(fields, m, b, i);
    }
    forall u
      ensures u in x.unions <==> u in y.unions
      ensures u in x.unions ==> x.unions[u] == y.unions[u]
    {
      AfterUnions(fields, m, a, u);
      AfterUnions(fields, m, b, u);
      if i :| i in a && SetsUnion(fields, m, i, u) {
        UnionAfter(fields, m, a, u, i);
        UnionAfter(fields, m, b, u, i);
      }
    }
    assert x.slots == y.slots && x.unions == y.unions;
    forall k | 0 <= k < |b| && OrderTerminates(fields, m, a)
      ensures FieldTerminates(fields[b[k]], m, b[k])
    {
      assert b[k] in a;
    }
  }

  /** The order of the fields makes no difference. */
  lemma OrderDoesNotMatter(fields: seq<Field>, m: Message, a: seq<nat>, b: seq<nat>)
    requires IsDescriptor(fields) && IsMessage(fields, m) && AllFit(fields, m) && |FieldsBytes(fields, m)| < TWO_32
    requires IsOrder(fields, a) && IsOrder(fields, b) && forall i :: i in a <==> i in b
    ensures Decode(fields, OrderedBytes(fields, m, a)) == Decode(fields, OrderedBytes(fields, m, b))
  {
    AnyOrderIsDecoded(fields, m, a);
    AnyOrderIsDecoded(fields, m, b);
    SameFieldsSameMessage(fields, m, a, b);
    SameFieldsSameMessage(fields, m, b, a);
  }

  // ---------------------------------------------------------------- the encoder's order, whole and with a hole

  /** The fields up to n, except field i. */
  function AllBut(i: nat, n: nat): (order: seq<nat>)
    ensures forall k | 0 <= k < |order| :: order[k] < n
  {
    if n == 0 then []
    else if n - 1 == i then AllBut(i, n - 1)
    else AllBut(i, n - 1) + [n - 1]
  }

  lemma {:induction false} AllButIs(i: nat, n: nat)
    ensures forall k :: k in AllBut(i, n) <==> 0 <= k < n && k != i
    ensures forall j, k | 0 <= j < k < |AllBut(i, n)| :: AllBut(i, n)[j] != AllBut(i, n)[k]
  {
    if n > 0 {
      AllButIs(i, n - 1);
    }
  }

  /** All of them is what the encoder writes. */
  lemma {:induction false} InOrder(fields: seq<Field>, m: Message, i: nat, n: nat)
    requires |fields| == |m.slots| && n <= |fields| && n <= i
    ensures OrderedBytes(fields, m, AllBut(i, n)) == FieldsBytes(fields[..n], m)
  {
    if n > 0 {
      var bytes := FieldBytes(fields[n - 1], m, n - 1);
      assert FieldsBytes(fields[..n], m) == FieldsBytes(fields[..n - 1], m) + bytes by { FieldsStep(fields, m, n - 1); }
      InOrder(fields, m, i, n - 1);
      OneMoreInOrder(fields, m, i, n);
    }
  }

  function CutOut(bytes: Bytes, a: nat, b: nat): Bytes
    requires a <= b <= |bytes|
  {
    bytes[..a] + bytes[b..]
  }

  lemma HoleStays(whole: Bytes, more: Bytes, holed: Bytes, moreHoled: Bytes, piece: Bytes, a: nat, b: nat)
    requires more == whole + piece && moreHoled == holed + piece
    requires a <= b <= |whole| && holed == CutOut(whole, a, b)
    ensures b <= |more| && moreHoled == CutOut(more, a, b)
  {
  }

  lemma HoleStarts(whole: Bytes, more: Bytes, piece: Bytes)
    requires more == whole + piece
    ensures |whole| <= |more| && whole == CutOut(more, |whole|, |more|)
  {
  }

  lemma {:induction false} InOrderWithHole(fields: seq<Field>, m: Message, i: nat, n: nat)
    requires i < n <= |fields| == |m.slots|
    ensures var a, b := |FieldsBytes(fields[..i], m)|, |FieldsBytes(fields[..i + 1], m)|;
            && a <= b <= |FieldsBytes(fields[..n], m)|
            && OrderedBytes(fields, m, AllBut(i, n)) == CutOut(FieldsBytes(fields[..n], m), a, b)
  {
    var before, bytes := FieldsBytes(fields[..n - 1], m), FieldBytes(fields[n - 1], m, n - 1);
    var all := FieldsBytes(fields[..n], m);
    assert all == before + bytes by { FieldsStep(fields, m, n - 1); }
    if n == i + 1 {
      assert OrderedBytes(fields, m, AllBut(i, n)) == before by {
        assert AllBut(i, n) == AllBut(i, i);
        InOrder(fields, m, i, i);
      }
      HoleStarts(before, all, bytes);
    } else {
      InOrderWithHole(fields, m, i, n - 1);
      var holed, more := OrderedBytes(fields, m, AllBut(i, n - 1)), OrderedBytes(fields, m, AllBut(i, n));
      assert more == holed + bytes by { OneMoreInOrder(fields, m, i, n); }
      HoleStays(before, all, holed, more, bytes, |FieldsBytes(fields[..i], m)|, |FieldsBytes(fields[..i + 1], m)|);
    }
  }

  lemma OneMoreInOrder(fields: seq<Field>, m: Message, i: nat, n: nat)
    requires |fields| == |m.slots| && 0 < n <= |fields| && n - 1 != i
    ensures OrderedBytes(fields, m, AllBut(i, n))
         == OrderedBytes(fields, m, AllBut(i, n - 1)) + FieldBytes(fields[n - 1], m, n - 1)
  {
    OrderedStep(fields, m, AllBut(i, n - 1), AllBut(i, n), n - 1);
  }

  lemma OrderedStep(fields: seq<Field>, m: Message, order: seq<nat>, more: seq<nat>, i: nat)
    requires |fields| == |m.slots| && (forall k | 0 <= k < |more| :: more[k] < |fields|) && i < |fields|
    requires more == order + [i] && forall k | 0 <= k < |order| :: order[k] < |fields|
    ensures OrderedBytes(fields, m, more) == OrderedBytes(fields, m, order) + FieldBytes(fields[i], m, i)
  {
    assert more[..|more| - 1] == order && more[|more| - 1] == i;
  }

  /** The encoding of a message with the bytes of one of the first 64 required fields cut out is refused. */
  lemma MissingRequiredIsRefused(fields: seq<Field>, m: Message, i: nat)
    requires IsDescriptor(fields) && IsMessage(fields, m) && AllFit(fields, m) && |FieldsBytes(fields, m)| < TWO_32
    requires i < |fields| && fields[i].htype.Required? && RequiredBefore(fields, i) < MAX_REQUIRED_FIELDS
    ensures var a, b := |FieldsBytes(fields[..i], m)|, |FieldsBytes(fields[..i + 1], m)|;
            a <= b <= |FieldsBytes(fields, m)| && Decode(fields, CutOut(FieldsBytes(fields, m), a, b)) == None
  {
    InOrderWithHole(fields, m, i, |fields|);
    assert fields[..|fields|] == fields;
    AllButIs(i, |fields|);
    AnyOrderIsDecoded(fields, m, AllBut(i, |fields|));
  }

  /** In whatever order the fields come, what is decoded is what the encoder's own order gives. */
  lemma EveryOrderRoundTrips(fields: seq<Field>, m: Message, order: seq<nat>)
    requires IsDescriptor(fields) && IsMessage(fields, m) && AllFit(fields, m) && |FieldsBytes(fields, m)| < TWO_32
    requires IsOrder(fields, order) && forall i: nat | i < |fields| :: i in order
    ensures Decode(fields, OrderedBytes(fields, m, order))
         == if AllTerminate(fields, m) then Some(Canonical(fields, m)) else None
  {
    var n := |fields|;
    AllButIs(n, n);
    InOrder(fields, m, n, n);
    assert fields[..n] == fields;
    forall i: nat
      ensures i in order <==> i in AllBut(n, n)
    {
      assert i in order ==> i < n by { if i in order { var k :| 0 <= k < |order| && order[k] == i; } }
    }
    OrderDoesNotMatter(fields, m, order, AllBut(n, n));
    RoundTrip(fields, m);
  }

  /** A member as it is before anything is read: its default, or zero, not present, or empty. */
  predicate IsInitial(f: Field, s: Slot) {
    match f.htype
    case Optional(true) => s.WithHas? && !s.has
    case Optional(false) =>
      f.ltype.LSubmessage? || s == Single(if f.default.Some? then f.default.value else ZeroOf(f.ltype))
    case Repeated(_) => s == Items([])
    case _ => true
  }

  lemma DefaultIsInitial(f: Field)
    ensures IsInitial(f, DefaultSlot(f))
  {
  }

  /** Fields that are not there read as what their members are initially. */
  lemma MissingFieldsAreInitial(fields: seq<Field>, m: Message, order: seq<nat>, i: nat)
    requires IsDescriptor(fields) && IsMessage(fields, m) && AllFit(fields, m) && |FieldsBytes(fields, m)| < TWO_32
    requires IsOrder(fields, order) && i < |fields| && i !in order
    requires Decode(fields, OrderedBytes(fields, m, order)).Some?
    ensures IsInitial(fields[i], Decode(fields, OrderedBytes(fields, m, order)).value.slots[i])
  {
    AnyOrderIsDecoded(fields, m, order);
    DefaultIsInitial(fields[i]);
  }
}
