/**
 The MANIFEST as bytes: version edits encoded, framed by the log writer, and read back by VersionSet::Recover, up to the
 version they add up to (version_set.cc, version_edit.cc).
 */
module ManifestLog {
  import opened Coding
  import opened Keys
  import opened LogFormat
  import opened LogReader
  import opened LogRecovery
  import opened Manifest
  import opened Reads
  import opened VersionBuilder
  import opened Versions
  import EditRecords
  import InternalKeys
  import LogWriter

  type Bytes = seq<Byte>

  // ---------------------------------------------------------------- what an encoded edit says

  /** InternalKey::DecodeFrom: the key of module Keys that the bytes stand for. */
  function KeyOf(k: Bytes): InternalKey
    requires InternalKeys.IsEncoded(k)
  {
    var tag := InternalKeys.TagOf(k);
    InternalKeys.Meaning(InternalKeys.UserKeyOf(k), tag / 256, if tag % 256 == 1 then TypeValue else TypeDeletion)
  }

  lemma KeyOfEncoded(user: Bytes, sequence: SequenceNumber, kind: ValueType)
    ensures KeyOf(InternalKeys.Encode(user, sequence, kind)) == InternalKeys.Meaning(user, sequence, kind)
  {
    InternalKeys.EncodedParts(user, sequence, kind);
  }

  predicate KeysEncoded(e: EditRecords.Edit) {
    forall a | a in e.added :: InternalKeys.IsEncoded(a.1.smallest) && InternalKeys.IsEncoded(a.1.largest)
  }

  predicate AllKeysEncoded(edits: seq<EditRecords.Edit>) {
    forall i | 0 <= i < |edits| :: KeysEncoded(edits[i])
  }

  function AsNat(n: Option<Uint64>): Option<nat> {
    if n.Some? then Some(n.value) else None
  }

  /** The file that the metadata is about, with its entries from the table file of that number. */
  function FileOf(m: EditRecords.Meta, tables: nat -> seq<Entry>): File
    requires InternalKeys.IsEncoded(m.smallest) && InternalKeys.IsEncoded(m.largest)
  {
    File(m.number, m.size, KeyOf(m.smallest), KeyOf(m.largest), tables(m.number))
  }

  /** The version edit that an encoded edit stands for. Compaction pointers only steer later choices. */
  function EditOf(e: EditRecords.Edit, tables: nat -> seq<Entry>): VersionEdit
    requires KeysEncoded(e)
  {
    VersionEdit(e.deleted,
                seq(|e.added|, i requires 0 <= i < |e.added| => (e.added[i].0, FileOf(e.added[i].1, tables))))
  }

  function RecordOf(e: EditRecords.Edit, tables: nat -> seq<Entry>): Record
    requires KeysEncoded(e)
  {
    Record(EditOf(e, tables), AsNat(e.logNumber), AsNat(e.prevLogNumber), AsNat(e.nextFile), AsNat(e.lastSequence))
  }

  function RecordsOf(edits: seq<EditRecords.Edit>, tables: nat -> seq<Entry>): seq<Record>
    requires AllKeysEncoded(edits)
  {
    seq(|edits|, i requires 0 <= i < |edits| => RecordOf(edits[i], tables))
  }

  // ---------------------------------------------------------------- encoded edits

  ghost predicate Encodes(bytes: Bytes, e: EditRecords.Edit) {
    exists fields: seq<EditRecords.Field> :: FieldsEncode(fields, bytes, e)
  }

  ghost predicate FieldsEncode(fields: seq<EditRecords.Field>, bytes: Bytes, e: EditRecords.Edit) {
    && bytes == EditRecords.FieldsBytes(fields) && EditRecords.WithFields(EditRecords.CLEAR, fields) == e
    && forall f | f in fields :: EditRecords.FieldFits(f)
  }

  /** The payloads of a MANIFEST that holds these edits, which can all be told apart and read. */
  ghost predicate AllEncode(payloads: seq<Bytes>, edits: seq<EditRecords.Edit>) {
    |payloads| == |edits| && forall i | 0 <= i < |edits| :: Encodes(payloads[i], edits[i])
  }

  method EncodeEdit(e: EditRecords.Edit) returns (bytes: Bytes)
    requires EditRecords.EditFits(e)
    ensures Encodes(bytes, e)
  {
    ghost var fields;
    bytes, fields := EditRecords.EncodeTo(e);
    assert FieldsEncode(fields, bytes, e);
  }

  method DecodeEdit(bytes: Bytes, ghost e: EditRecords.Edit) returns (back: EditRecords.Edit)
    requires Encodes(bytes, e)
    ensures back == e
  {
    ghost var fields :| FieldsEncode(fields, bytes, e);
    EditRecords.FieldsParse(fields);
    var ok;
    ok, back := EditRecords.DecodeFrom(bytes);
  }

  /** The MANIFEST file that these edits make. */
  method WriteManifest(edits: seq<EditRecords.Edit>) returns (file: Bytes, ghost payloads: seq<Bytes>)
    requires forall i | 0 <= i < |edits| :: EditRecords.EditFits(edits[i])
    ensures AllEncode(payloads, edits) && file == LogFile(StoredChecksum, payloads)
  {
    var encoded: seq<Bytes> := [];
    for i := 0 to |edits|
      invariant AllEncode(encoded, edits[..i])
    {
      var bytes := EncodeEdit(edits[i]);
      encoded := encoded + [bytes];
    }
    assert edits[..|edits|] == edits;
    file := LogWriter.WriteInTwoRuns(StoredChecksum, [], encoded);
    payloads := encoded;
    assert [] + encoded == encoded;
  }

  // ---------------------------------------------------------------- reading it back

  predicate NameMatches(e: EditRecords.Edit, name: Bytes) {
    e.comparator.None? || e.comparator.value == name
  }

  ghost predicate AllNamesMatch(edits: seq<EditRecords.Edit>, name: Bytes) {
    forall i | 0 <= i < |edits| :: NameMatches(edits[i], name)
  }

  method DecodeRecord(payload: Bytes, name: Bytes, tables: nat -> seq<Entry>, ghost edit: EditRecords.Edit)
    returns (r: Option<Record>)
    requires Encodes(payload, edit) && KeysEncoded(edit)
    ensures r.Some? <==> NameMatches(edit, name)
    ensures r.Some? ==> r.value == RecordOf(edit, tables)
  {
    var e := DecodeEdit(payload, edit);
    r := if e.comparator.Some? && e.comparator.value != name then None else Some(RecordOf(e, tables));
  }

  ghost predicate RecordIs(records: seq<Record>, edits: seq<EditRecords.Edit>, tables: nat -> seq<Entry>, j: nat) {
    j < |records| && j < |edits| && KeysEncoded(edits[j]) && records[j] == RecordOf(edits[j], tables)
  }

  ghost predicate AllRead(records: seq<Record>, edits: seq<EditRecords.Edit>, tables: nat -> seq<Entry>) {
    |records| <= |edits| && forall j | 0 <= j < |records| :: RecordIs(records, edits, tables, j)
  }

  lemma OneMoreRead(records: seq<Record>, record: Record, edits: seq<EditRecords.Edit>, tables: nat -> seq<Entry>)
    requires AllRead(records, edits, tables) && |records| < |edits| && KeysEncoded(edits[|records|])
    requires record == RecordOf(edits[|records|], tables)
    ensures AllRead(records + [record], edits, tables)
  {
    var all := records + [record];
    forall j | 0 <= j < |all|
      ensures RecordIs(all, edits, tables, j)
    {
      if j < |records| {
        assert RecordIs(records, edits, tables, j) && all[j] == records[j];
      } else {
        assert all[j] == record;
      }
    }
  }

  lemma AllAreRead(records: seq<Record>, edits: seq<EditRecords.Edit>, tables: nat -> seq<Entry>)
    requires AllRead(records, edits, tables) && |records| == |edits| && AllKeysEncoded(edits)
    ensures records == RecordsOf(edits, tables)
  {
    forall j | 0 <= j < |edits|
      ensures records[j] == RecordsOf(edits, tables)[j]
    {
      assert RecordIs(records, edits, tables, j);
    }
  }

  /** Every payload is decoded to the edit that was written; one for another comparator is an error. */
  method DecodeRecords(payloads: seq<Bytes>, name: Bytes, tables: nat -> seq<Entry>, ghost edits: seq<EditRecords.Edit>)
    returns (r: Option<seq<Record>>)
    requires AllEncode(payloads, edits) && AllKeysEncoded(edits)
    ensures r.Some? <==> AllNamesMatch(edits, name)
    ensures r.Some? ==> r.value == RecordsOf(edits, tables)
  {
    var records: seq<Record> := [];
    for i := 0 to |payloads|
      invariant |records| == i && AllRead(records, edits, tables)
      invariant forall j | 0 <= j < i :: NameMatches(edits[j], name)
    {
      var record := DecodeRecord(payloads[i], name, tables, edits[i]);
      if record.None? {
        return None;
      }
      OneMoreRead(records, record.value, edits, tables);
      records := records + [record.value];
    }
    AllAreRead(records, edits, tables);
    r := Some(records);
  }

  /** The first k edits as records, or an error exactly if one of them names another comparator. */
  ghost predicate HoldsFirst(r: Option<seq<Record>>, name: Bytes, tables: nat -> seq<Entry>,
                             edits: seq<EditRecords.Edit>, k: nat)
    requires AllKeysEncoded(edits)
  {
    && k <= |edits| && (r.Some? <==> AllNamesMatch(edits[..k], name))
    && (r.Some? ==> r.value == RecordsOf(edits[..k], tables))
  }

  /** Recover's reading loop, over as much of the MANIFEST as there is: k records survive, and those are read. */
  method ReadManifest(file: Bytes, name: Bytes, tables: nat -> seq<Entry>, ghost edits: seq<EditRecords.Edit>,
                      ghost payloads: seq<Bytes>)
    returns (r: Option<seq<Record>>)
    requires AllEncode(payloads, edits) && AllKeysEncoded(edits) && file <= LogFile(StoredChecksum, payloads)
    ensures exists k :: Survive(StoredChecksum, payloads, |file|, k) && HoldsFirst(r, name, tables, edits, k)
  {
    var out, reports;
    ChecksumIsAccepted();
    out, reports := RecoverLog(file, Checking(ChecksumMatches, true), StoredChecksum, payloads);
    r := DecodeRecords(out, name, tables, edits[..|out|]);
    assert HoldsFirst(r, name, tables, edits, |out|);
  }

  /**
   From bytes to version: a MANIFEST file that holds what a run of LogAndApply recorded gives back, after closing and
   reopening, exactly the version and the numbers that the run ended with.
   */
  method Reopen(file: Bytes, name: Bytes, tables: nat -> seq<Entry>, ghost vs: VersionLog,
                ghost edits: seq<EditRecords.Edit>, ghost payloads: seq<Bytes>)
    returns (r: Option<Recovered>)
    requires vs.Valid() && vs.begun && |vs.manifest| > 1
    requires AllKeysEncoded(edits) && AllNamesMatch(edits, name)
    requires RecordsOf(edits, tables) == vs.manifest
    requires AllEncode(payloads, edits) && file == LogFile(StoredChecksum, payloads)
    ensures r.Some? && r.value.version == vs.current
    ensures r.value.logNumber == vs.logNumber && r.value.prevLogNumber == vs.prevLogNumber
    ensures Some(r.value.lastSequence) == Latest(LastSequences(vs.manifest))
    ensures r.value.logNumber < r.value.nextFile && AllBelow(EditsOf(vs.manifest), r.value.nextFile)
  {
    var records := ReadManifest(file, name, tables, edits, payloads);
    ghost var k :| Survive(StoredChecksum, payloads, |file|, k) && HoldsFirst(records, name, tables, edits, k);
    WholeLogSurvives(StoredChecksum, payloads, k);
    assert edits[..|edits|] == edits;
    r := ReplayManifest(records.value, vs);
  }
}
