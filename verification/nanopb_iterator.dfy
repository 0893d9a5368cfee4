/**
 The field iterator: around the descriptor and back to its beginning, counting required fields on the way (pb_common.c).
 */
module NanopbIterator {
  import opened NanopbMessages

  function RequiredBefore(fields: seq<Field>, i: nat): (n: nat)
    requires i <= |fields|
    ensures n <= i
  {
    if i == 0 then 0 else RequiredBefore(fields, i - 1) + if fields[i - 1].htype.Required? then 1 else 0
  }

  predicate HasTag(fields: seq<Field>, tag: nat) {
    exists i :: 0 <= i < |fields| && fields[i].tag == tag
  }

  class FieldIterator {
    const fields: seq<Field>
    var pos: nat
    var requiredFieldIndex: nat

    /** Only an empty descriptor has the iterator at its terminator. */
    ghost predicate Valid()
      reads this
    {
      && (if fields == [] then pos == 0 else pos < |fields|)
      && requiredFieldIndex == RequiredBefore(fields, pos)
    }

    constructor Begin(fields: seq<Field>)
      ensures Valid() && this.fields == fields && pos == 0
    {
      this.fields := fields;
      pos, requiredFieldIndex := 0, 0;
    }

    /** The terminator's tag is 0. */
    function Tag(): nat
      reads this
    {
      if pos < |fields| then fields[pos].tag else 0
    }

    /** After the last field comes the first again. */
    method Next() returns (more: bool)
      requires Valid() && forall i | 0 <= i < |fields| :: fields[i].tag != 0
      modifies this
      ensures Valid() && (more <==> old(pos) + 1 < |fields|) && pos == if more then old(pos) + 1 else 0
    {
      if Tag() == 0 {
        return false;
      }
      pos := pos + 1;
      if Tag() == 0 {
        pos, requiredFieldIndex := 0, 0;
        return false;
      }
      if fields[pos - 1].htype.Required? {
        requiredFieldIndex := requiredFieldIndex + 1;
      }
      more := true;
    }

    /** Around the whole descriptor, from wherever the iterator is. */
    method Find(tag: nat) returns (found: bool)
      requires Valid() && forall i | 0 <= i < |fields| :: fields[i].tag != 0
      modifies this
      ensures Valid()
      ensures fields != [] ==> (found <==> HasTag(fields, tag))
      ensures fields == [] ==> (found <==> tag == 0)
      ensures found ==> Tag() == tag
      ensures !found ==> pos == old(pos)
    {
      var start := pos;
      ghost var wrapped := false;
      if Tag() == tag {
        return true;
      }
      var _ := Next();
      wrapped := pos <= start;
      while pos != start
        invariant Valid() && (wrapped ==> pos <= start) && (!wrapped ==> pos > start)
        invariant fields != [] ==>
                    forall i | 0 <= i < |fields| && Passed(start, pos, wrapped, i) :: fields[i].tag != tag
        invariant fields == [] ==> pos == start
        decreases !wrapped, if wrapped then start - pos else |fields| - pos
      {
        if Tag() == tag {
          return true;
        }
        var more := Next();
        wrapped := wrapped || !more;
      }
      found := false;
    }
  }

  /** From start on, or around the end and from the beginning. */
  predicate Passed(start: nat, pos: nat, wrapped: bool, i: nat) {
    if wrapped then i < pos || start <= i else start <= i < pos
  }
}
