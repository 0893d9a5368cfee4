/**
 Version edits as records: EncodeTo and DecodeFrom, which undo each other (version_edit.cc).
 */
module EditRecords {
  import opened Coding
  import opened Keys
  import opened Reads
  import opened Versions
  import Slices

  type Bytes = seq<Byte>

  datatype Meta = Meta(number: Uint64, size: Uint64, smallest: Bytes, largest: Bytes)

  /** What a record holds; deletions are a set, the other lists keep their order. */
  datatype Edit = Edit(comparator: Option<Bytes>, logNumber: Option<Uint64>, prevLogNumber: Option<Uint64>,
                       nextFile: Option<Uint64>, lastSequence: Option<Uint64>,
                       compactPointers: seq<(nat, Bytes)>, deleted: set<(nat, Uint64)>, added: seq<(nat, Meta)>)

  /**
   A fresh edit. VersionEdit::Clear leaves the compaction pointers of a used edit in place, so that decoding into one
   would add to them; every caller decodes into an edit of its own.
   */
  const CLEAR: Edit := Edit(None, None, None, None, None, [], {}, [])

  // ---------------------------------------------------------------- fields

  datatype Field =
    | Comparator(name: Bytes)
    | LogNumber(number: Uint64)
    | NextFileNumber(number: Uint64)
    | LastSequence(number: Uint64)
    | CompactPointer(level: nat, key: Bytes)
    | DeletedFile(level: nat, number: Uint64)
    | NewFile(level: nat, meta: Meta)
    | PrevLogNumber(number: Uint64)

  ghost predicate FieldFits(f: Field) {
    match f
    case Comparator(name) => |name| < TWO_32
    case CompactPointer(level, key) => level < NUM_LEVELS && |key| < TWO_32
    case DeletedFile(level, number) => level < NUM_LEVELS
    case NewFile(level, meta) => level < NUM_LEVELS && |meta.smallest| < TWO_32 && |meta.largest| < TWO_32
    case _ => true
  }

  /** The tag in front of each field. */
  function TagOf(f: Field): nat {
    match f
    case Comparator(_) => 1
    case LogNumber(_) => 2
    case NextFileNumber(_) => 3
    case LastSequence(_) => 4
    case CompactPointer(_, _) => 5
    case DeletedFile(_, _) => 6
    case NewFile(_, _) => 7
    case PrevLogNumber(_) => 9
  }

  function MetaBytes(m: Meta): Bytes {
    Varint(m.number) + (Varint(m.size) + (Prefixed(m.smallest) + Prefixed(m.largest)))
  }

  function BodyBytes(f: Field): Bytes {
    match f
    case Comparator(name) => Prefixed(name)
    case LogNumber(n) => Varint(n)
    case NextFileNumber(n) => Varint(n)
    case LastSequence(n) => Varint(n)
    case CompactPointer(level, key) => Varint(level) + Prefixed(key)
    case DeletedFile(level, n) => Varint(level) + Varint(n)
    case NewFile(level, meta) => Varint(level) + MetaBytes(meta)
    case PrevLogNumber(n) => Varint(n)
  }

  function FieldBytes(f: Field): Bytes {
    Varint(TagOf(f)) + BodyBytes(f)
  }

  function FieldsBytes(fields: seq<Field>): Bytes {
    if fields == [] then [] else FieldBytes(fields[0]) + FieldsBytes(fields[1..])
  }

  // ---------------------------------------------------------------- parsing

  /** GetVarint64. */
  function ParseNumber(input: Bytes): (r: Option<(Uint64, nat)>)
    ensures r.Some? ==> 0 < r.value.1 <= |input|
  {
    match ParseVarint(input, 10)
    case None => None
    case Some((v, n)) => Some((v % TWO_64, n))
  }

  /** GetLevel: a 32-bit number below the number of levels. */
  function ParseLevel(input: Bytes): (r: Option<(nat, nat)>)
    ensures r.Some? ==> 0 < r.value.1 <= |input| && r.value.0 < NUM_LEVELS
  {
    match ParseVarint(input, 5)
    case None => None
    case Some((v, n)) => if v % TWO_32 < NUM_LEVELS then Some((v % TWO_32, n)) else None
  }

  lemma NumberParses(n: Uint64, rest: Bytes)
    ensures ParseNumber(Varint(n) + rest) == Some((n, |Varint(n)|))
    ensures (Varint(n) + rest)[|Varint(n)|..] == rest
  {
    Powers();
    VarintLength(n, 10);
    VarintRoundTrip(n, rest, 10);
    Modulo64(n);
    Slices.DropFront(Varint(n), rest);
  }

  lemma LevelParses(level: nat, rest: Bytes)
    requires level < NUM_LEVELS
    ensures ParseLevel(Varint(level) + rest) == Some((level, |Varint(level)|))
    ensures (Varint(level) + rest)[|Varint(level)|..] == rest
  {
    VarintRoundTrip(level, rest, 5);
    Slices.DropFront(Varint(level), rest);
  }

  function ParseMeta(input: Bytes): (r: Option<(Meta, nat)>)
    ensures r.Some? ==> 0 < r.value.1 <= |input|
  {
    match ParseNumber(input)
    case None => None
    case Some((number, i)) =>
      match ParseNumber(input[i..])
      case None => None
      case Some((size, j)) =>
        match ParseSlice(input[i..][j..])
        case None => None
        case Some((smallest, k)) =>
          match ParseSlice(input[i..][j..][k..])
          case None => None
          case Some((largest, m)) => Some((Meta(number, size, smallest, largest), i + j + k + m))
  }

  /** The body of a field, once its tag is known. */
  function ParseBody(tag: nat, input: Bytes): (r: Option<(Field, nat)>)
    ensures r.Some? ==> r.value.1 <= |input|
  {
    if tag == 1 then
      match ParseSlice(input)
      case None => None
      case Some((name, n)) => Some((Comparator(name), n))
    else if tag == 2 || tag == 3 || tag == 4 || tag == 9 then
      match ParseNumber(input)
      case None => None
      case Some((number, n)) =>
        Some((if tag == 2 then LogNumber(number) else if tag == 3 then NextFileNumber(number)
              else if tag == 4 then LastSequence(number) else PrevLogNumber(number), n))
    else if tag == 5 || tag == 6 || tag == 7 then
      match ParseLevel(input)
      case None => None
      case Some((level, i)) => ParseAtLevel(tag, level, i, input)
    else None
  }

  /** The rest of a field that names a level. */
  function ParseAtLevel(tag: nat, level: nat, i: nat, input: Bytes): (r: Option<(Field, nat)>)
    requires i <= |input|
    ensures r.Some? ==> r.value.1 <= |input|
  {
    if tag == 5 then
      match ParseSlice(input[i..])
      case None => None
      case Some((key, n)) => Some((CompactPointer(level, key), i + n))
    else if tag == 6 then
      match ParseNumber(input[i..])
      case None => None
      case Some((number, n)) => Some((DeletedFile(level, number), i + n))
    else NewFileAt(level, i, ParseMeta(input[i..]))
  }

  function NewFileAt(level: nat, i: nat, r: Option<(Meta, nat)>): Option<(Field, nat)> {
    if r.Some? then Some((NewFile(level, r.value.0), i + r.value.1)) else None
  }

  /** Every field in front of the input, and whether the input then ends where a field does. */
  function ParseFields(input: Bytes): (seq<Field>, bool)
    decreases |input|
  {
    match ParseVarint(input, 5)
    case None => ([], input == [])
    case Some((tag, i)) =>
      match ParseBody(tag % TWO_32, input[i..])
      case None => ([], false)
      case Some((f, n)) =>
        var rest := ParseFields(input[i..][n..]);
        ([f] + rest.0, rest.1)
  }

  // ---------------------------------------------------------------- what was encoded is parsed

  /** Four encodings in a row parse one after the other. */
  lemma ParseFour(a: Bytes, b: Bytes, c: Bytes, d: Bytes, rest: Bytes, m: Meta)
    requires ParseNumber(a + (b + (c + (d + rest)))) == Some((m.number, |a|))
    requires ParseNumber(b + (c + (d + rest))) == Some((m.size, |b|))
    requires ParseSlice(c + (d + rest)) == Some((m.smallest, |c|))
    requires ParseSlice(d + rest) == Some((m.largest, |d|))
    ensures ParseMeta((a + (b + (c + d))) + rest) == Some((m, |a + (b + (c + d))|))
  {
    Slices.Associates(a, b + (c + d), rest);
    Slices.Associates(b, c + d, rest);
    Slices.Associates(c, d, rest);
    Slices.DropFront(a, b + (c + (d + rest)));
    Slices.DropFront(b, c + (d + rest));
    Slices.DropFront(c, d + rest);
  }

  lemma MetaParses(m: Meta, rest: Bytes)
    requires |m.smallest| < TWO_32 && |m.largest| < TWO_32
    ensures ParseMeta(MetaBytes(m) + rest) == Some((m, |MetaBytes(m)|))
  {
    var c, d := Prefixed(m.smallest), Prefixed(m.largest);
    NumberParses(m.number, Varint(m.size) + (c + (d + rest)));
    NumberParses(m.size, c + (d + rest));
    SliceParses(m.smallest, d + rest);
    SliceParses(m.largest, rest);
    ParseFour(Varint(m.number), Varint(m.size), c, d, rest, m);
  }

  lemma LeveledParses(level: nat, body: Bytes, rest: Bytes)
    requires level < NUM_LEVELS
    ensures ParseLevel((Varint(level) + body) + rest) == Some((level, |Varint(level)|))
    ensures ((Varint(level) + body) + rest)[|Varint(level)|..] == body + rest
  {
    Slices.Associates(Varint(level), body, rest);
    LevelParses(level, body + rest);
  }

  lemma PointerParses(level: nat, key: Bytes, rest: Bytes)
    requires level < NUM_LEVELS && |key| < TWO_32
    ensures var f := CompactPointer(level, key); ParseBody(5, BodyBytes(f) + rest) == Some((f, |BodyBytes(f)|))
  {
    LeveledParses(level, Prefixed(key), rest);
    SliceParses(key, rest);
  }

  lemma DeletionParses(level: nat, number: Uint64, rest: Bytes)
    requires level < NUM_LEVELS
    ensures var f := DeletedFile(level, number); ParseBody(6, BodyBytes(f) + rest) == Some((f, |BodyBytes(f)|))
  {
    LeveledParses(level, Varint(number), rest);
    NumberParses(number, rest);
  }

  lemma LevelComesFirst(tag: nat, input: Bytes, level: nat, i: nat)
    requires 5 <= tag <= 7 && ParseLevel(input) == Some((level, i))
    ensures ParseBody(tag, input) == ParseAtLevel(tag, level, i, input)
  {
  }

  lemma NewFileParses(level: nat, meta: Meta, body: Bytes, rest: Bytes)
    requires level < NUM_LEVELS && ParseMeta(body + rest) == Some((meta, |body|))
    ensures ParseBody(7, (Varint(level) + body) + rest) == Some((NewFile(level, meta), |Varint(level) + body|))
  {
    LeveledParses(level, body, rest);
    LevelComesFirst(7, (Varint(level) + body) + rest, level, |Varint(level)|);
  }

  lemma AdditionParses(level: nat, meta: Meta, rest: Bytes)
    requires level < NUM_LEVELS && |meta.smallest| < TWO_32 && |meta.largest| < TWO_32
    ensures var f := NewFile(level, meta); ParseBody(7, BodyBytes(f) + rest) == Some((f, |BodyBytes(f)|))
  {
    MetaParses(meta, rest);
    NewFileParses(level, meta, MetaBytes(meta), rest);
  }

  lemma BodyParses(f: Field, rest: Bytes)
    requires FieldFits(f)
    ensures ParseBody(TagOf(f), BodyBytes(f) + rest) == Some((f, |BodyBytes(f)|))
  {
    match f
    case Comparator(name) => SliceParses(name, rest);
    case CompactPointer(level, key) => PointerParses(level, key, rest);
    case DeletedFile(level, n) => DeletionParses(level, n, rest);
    case NewFile(level, meta) => AdditionParses(level, meta, rest);
    case _ => NumberParses(f.number, rest);
  }

  lemma TagParses(f: Field, rest: Bytes)
    ensures ParseVarint(FieldBytes(f) + rest, 5) == Some((TagOf(f), |Varint(TagOf(f))|))
    ensures (FieldBytes(f) + rest)[|Varint(TagOf(f))|..] == BodyBytes(f) + rest
    ensures TagOf(f) % TWO_32 == TagOf(f)
  {
    Slices.Associates(Varint(TagOf(f)), BodyBytes(f), rest);
    VarintRoundTrip(TagOf(f), BodyBytes(f) + rest, 5);
    Slices.DropFront(Varint(TagOf(f)), BodyBytes(f) + rest);
  }

  lemma {:induction false} FieldsParse(fields: seq<Field>)
    requires forall f | f in fields :: FieldFits(f)
    ensures ParseFields(FieldsBytes(fields)) == (fields, true)
  {
    if fields != [] {
      var f, rest := fields[0], FieldsBytes(fields[1..]);
      TagParses(f, rest);
      BodyParses(f, rest);
      Slices.DropFront(BodyBytes(f), rest);
      FieldsParse(fields[1..]);
      assert fields == [f] + fields[1..];
    }
  }

  lemma {:induction false} FieldsAppend(a: seq<Field>, b: seq<Field>)
    ensures FieldsBytes(a + b) == FieldsBytes(a) + FieldsBytes(b)
  {
    if a == [] {
      assert a + b == b;
    } else {
      assert (a + b)[1..] == a[1..] + b;
      FieldsAppend(a[1..], b);
      Slices.Associates(FieldBytes(a[0]), FieldsBytes(a[1..]), FieldsBytes(b));
    }
  }

  // ---------------------------------------------------------------- edits and their fields

  /** What reading one more field does to an edit. */
  function WithField(e: Edit, f: Field): Edit {
    match f
    case Comparator(name) => e.(comparator := Some(name))
    case LogNumber(n) => e.(logNumber := Some(n))
    case NextFileNumber(n) => e.(nextFile := Some(n))
    case LastSequence(n) => e.(lastSequence := Some(n))
    case PrevLogNumber(n) => e.(prevLogNumber := Some(n))
    case CompactPointer(level, key) => e.(compactPointers := e.compactPointers + [(level, key)])
    case DeletedFile(level, n) => e.(deleted := e.deleted + {(level, n)})
    case NewFile(level, meta) => e.(added := e.added + [(level, meta)])
  }

  function WithFields(e: Edit, fields: seq<Field>): Edit {
    if fields == [] then e else WithField(WithFields(e, fields[..|fields| - 1]), fields[|fields| - 1])
  }

  ghost predicate EditFits(e: Edit) {
    && (e.comparator.Some? ==> |e.comparator.value| < TWO_32)
    && (forall p | p in e.compactPointers :: p.0 < NUM_LEVELS && |p.1| < TWO_32)
    && (forall d | d in e.deleted :: d.0 < NUM_LEVELS)
    && (forall a | a in e.added :: a.0 < NUM_LEVELS && |a.1.smallest| < TWO_32 && |a.1.largest| < TWO_32)
  }

  /** EncodeTo: the fields that are set, then the lists. Deletions may come in any order. */
  class Encoder {
    var dst: Bytes
    ghost var fields: seq<Field>
    ghost var soFar: Edit

    ghost predicate Valid()
      reads this
    {
      dst == FieldsBytes(fields) && soFar == WithFields(CLEAR, fields) && forall f | f in fields :: FieldFits(f)
    }

    constructor ()
      ensures Valid() && soFar == CLEAR
    {
      dst, fields, soFar := [], [], CLEAR;
    }

    method Put(f: Field)
      requires Valid() && FieldFits(f)
      modifies this
      ensures Valid() && soFar == WithField(old(soFar), f)
    {
      FieldsAppend(fields, [f]);
      assert FieldsBytes([f]) == FieldBytes(f) + FieldsBytes([]) == FieldBytes(f);
      dst := dst + FieldBytes(f);
      assert (fields + [f])[..|fields|] == fields;
      fields := fields + [f];
      soFar := WithField(soFar, f);
    }

    method PutNumbers(e: Edit)
      requires Valid() && soFar == CLEAR && EditFits(e)
      modifies this
      ensures Valid() && soFar == e.(compactPointers := [], deleted := {}, added := [])
    {
      if e.comparator.Some? {
        Put(Comparator(e.comparator.value));
      }
      if e.logNumber.Some? {
        Put(LogNumber(e.logNumber.value));
      }
      if e.prevLogNumber.Some? {
        Put(PrevLogNumber(e.prevLogNumber.value));
      }
      if e.nextFile.Some? {
        Put(NextFileNumber(e.nextFile.value));
      }
      if e.lastSequence.Some? {
        Put(LastSequence(e.lastSequence.value));
      }
    }

    method PutPointers(e: Edit)
      requires Valid() && soFar == e.(compactPointers := [], deleted := {}, added := []) && EditFits(e)
      modifies this
      ensures Valid() && soFar == e.(deleted := {}, added := [])
    {
      for i := 0 to |e.compactPointers|
        invariant Valid() && soFar == e.(compactPointers := e.compactPointers[..i], deleted := {}, added := [])
      {
        Slices.OneMore(e.compactPointers, i);
        Put(CompactPointer(e.compactPointers[i].0, e.compactPointers[i].1));
      }
      assert e.compactPointers[..|e.compactPointers|] == e.compactPointers;
    }

    method PutDeletions(e: Edit)
      requires Valid() && soFar == e.(deleted := {}, added := []) && EditFits(e)
      modifies this
      ensures Valid() && soFar == e.(added := [])
    {
      var rest := e.deleted;
      assert soFar.deleted == e.deleted - rest;
      while rest != {}
        invariant rest <= e.deleted && Valid() && soFar == e.(deleted := e.deleted - rest, added := [])
        decreases |rest|
      {
        var d :| d in rest;
        Put(DeletedFile(d.0, d.1));
        rest := rest - {d};
        assert soFar.deleted == e.deleted - rest;
      }
      assert e.deleted - rest == e.deleted;
    }

    method PutAdditions(e: Edit)
      requires Valid() && soFar == e.(added := []) && EditFits(e)
      modifies this
      ensures Valid() && soFar == e
    {
      for i := 0 to |e.added|
        invariant Valid() && soFar == e.(added := e.added[..i])
      {
        Slices.OneMore(e.added, i);
        Put(NewFile(e.added[i].0, e.added[i].1));
      }
      assert e.added[..|e.added|] == e.added;
    }
  }

  /** The bytes of an edit, and the fields they encode, which add up to the edit again. */
  method EncodeTo(e: Edit) returns (dst: Bytes, ghost fields: seq<Field>)
    requires EditFits(e)
    ensures dst == FieldsBytes(fields) && WithFields(CLEAR, fields) == e && forall f | f in fields :: FieldFits(f)
  {
    var encoder := new Encoder();
    encoder.PutNumbers(e);
    encoder.PutPointers(e);
    encoder.PutDeletions(e);
    encoder.PutAdditions(e);
    dst, fields := encoder.dst, encoder.fields;
  }

  /** DecodeFrom, over any bytes. */
  method DecodeFrom(src: Bytes) returns (ok: bool, e: Edit)
    ensures var (fields, whole) := ParseFields(src); ok == whole && e == WithFields(CLEAR, fields)
  {
    e := CLEAR;
    var input := src;
    ghost var all := ParseFields(src);
    ghost var read := 0;
    while true
      invariant read <= |all.0| && ParseFields(input) == (all.0[read..], all.1)
      invariant e == WithFields(CLEAR, all.0[..read])
      decreases |input|
    {
      ParseStep(input, all, read);
      var tag := GetVarint32(input);
      if tag.None? {
        return input == [], e;
      }
      var field := ParseBody(tag.value.0, input[tag.value.1..]);
      if field.None? {
        return false, e;
      }
      assert all.0[..read + 1][..read] == all.0[..read];
      e := WithField(e, field.value.0);
      input := input[tag.value.1..][field.value.1..];
      read := read + 1;
    }
  }

  /** One turn of the parser. */
  lemma ParseStep(input: Bytes, all: (seq<Field>, bool), read: nat)
    requires read <= |all.0| && ParseFields(input) == (all.0[read..], all.1)
    ensures var tag := ParseVarint(input, 5);
            if tag.None? then all.0[..read] == all.0 && all.1 == (input == [])
            else
              var rest := input[tag.value.1..];
              var field := ParseBody(tag.value.0 % TWO_32, rest);
              if field.None? then all.0[..read] == all.0 && !all.1
              else read < |all.0| && all.0[read] == field.value.0
                   && ParseFields(rest[field.value.1..]) == (all.0[read + 1..], all.1)
  {
    var tag := ParseVarint(input, 5);
    var left := all.0[read..];
    if tag.Some? {
      var rest := input[tag.value.1..];
      var field := ParseBody(tag.value.0 % TWO_32, rest);
      if field.Some? {
        var after := ParseFields(rest[field.value.1..]);
        assert left == [field.value.0] + after.0;
        assert left[1..] == after.0 && left[1..] == all.0[read + 1..];
      }
    }
  }

  /** Decoding an encoded edit gives the edit back. */
  method RoundTrip(e: Edit) returns (back: Edit)
    requires EditFits(e)
    ensures back == e
  {
    var bytes;
    ghost var fields;
    bytes, fields := EncodeTo(e);
    FieldsParse(fields);
    var ok;
    ok, back := DecodeFrom(bytes);
  }
}
