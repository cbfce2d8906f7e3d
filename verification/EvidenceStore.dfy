/** The query-evidence file as a bounded map from (request, roots) to the record of that query. */
module EvidenceStore {
  import opened Common
  import opened EvidenceCodec
  import G = EvidenceGrammar
  import opened EvidenceRoundTrip
  import opened Faults
  import opened Ordering
  import opened Text

  datatype Failure = Format(error: EvidenceError) | Unavailable | WriteFailed

  type Key = (string, seq<string>)

  function KeyOf(r: Record): Key { (r.request, r.roots) }

  predicate RecordLeq(a: Record, b: Record) {
    if a.request == b.request then StringsLeq(a.roots, b.roots) else StringLeq(a.request, b.request)
  }

  lemma RecordOrder()
    ensures TotalPreorder(RecordLeq)
  {
    StringOrder();
    StringsOrder();
  }

  /** What a reader of the file finds. */
  function Contents(file: Option<string>): Result<seq<Record>, EvidenceError> {
    match file
    case None => Ok([])
    case Some(text) => if ByteLen(text) > MAX_FILE_BYTES then Err(StoreOversized) else Parse(text)
  }

  /** The records of a file: none when there is no file, else those its text holds, of at most 64 KiB. */
  lemma ContentsExactly(file: Option<string>, records: seq<Record>)
    ensures Contents(file) == Ok(records) <==>
              match file
              case None => records == []
              case Some(text) => ByteLen(text) <= 65536 && G.Holds(text, records)
  {
    hide ByteLen, Parse, G.Holds;
    if file.Some? {
      G.ParseExactly(file.value, records);
    }
  }

  /** The order of the records: the lesser request first, and of equal requests the lesser list of roots. */
  lemma WrittenInOrder(records: seq<Record>, record: Record, i: nat, j: nat)
    requires i < j < |Updated(records, record)|
    ensures var a, b := Updated(records, record)[i], Updated(records, record)[j];
            if a.request != b.request then StringLeq(a.request, b.request) else StringsLeq(a.roots, b.roots)
  {
    UpdatedMembers(records, record);
  }

  /** Strictly sorted by key, within the bounds, and readable. */
  ghost predicate Canonical(records: seq<Record>) {
    && |records| <= MAX_RECORDS && Sorted(RecordLeq, records) && DistinctBy(KeyOf, records)
    && forall r :: r in records ==> Bounded(r) && Storable(r)
  }

  lemma KeysIdentify(records: seq<Record>, a: Record, b: Record)
    requires DistinctBy(KeyOf, records) && a in records && b in records && KeyOf(a) == KeyOf(b)
    ensures a == b
  {
    var i :| 0 <= i < |records| && records[i] == a;
    var j :| 0 <= j < |records| && records[j] == b;
  }

  /** The map a list of records with distinct keys stands for. */
  ghost function AsMap(records: seq<Record>): map<Key, Record>
    requires DistinctBy(KeyOf, records)
  {
    forall a, b | a in records && b in records && KeyOf(a) == KeyOf(b) ensures a == b {
      KeysIdentify(records, a, b);
    }
    map r | r in records :: KeyOf(r) := r
  }

  function Others(records: seq<Record>, record: Record): seq<Record> {
    if records == [] then []
    else if KeyOf(records[0]) == KeyOf(record) then Others(records[1..], record)
    else [records[0]] + Others(records[1..], record)
  }

  lemma {:induction false} OthersMembers(records: seq<Record>, record: Record)
    ensures forall r :: r in Others(records, record) <==> r in records && KeyOf(r) != KeyOf(record)
  {
    if records != [] {
      OthersMembers(records[1..], record);
      assert records == [records[0]] + records[1..];
    }
  }

  lemma {:induction false} OthersSize(records: seq<Record>, record: Record)
    ensures |Others(records, record)| <= |records|
    ensures |Others(records, record)| == |records| <==> forall r :: r in records ==> KeyOf(r) != KeyOf(record)
  {
    if records != [] {
      OthersSize(records[1..], record);
      assert records == [records[0]] + records[1..];
    }
  }

  lemma DistinctTail(records: seq<Record>)
    requires DistinctBy(KeyOf, records) && records != []
    ensures DistinctBy(KeyOf, records[1..])
    ensures forall r :: r in records[1..] ==> KeyOf(r) != KeyOf(records[0])
  {
    var rest := records[1..];
    forall i, j | 0 <= i < j < |rest| ensures KeyOf(rest[i]) != KeyOf(rest[j]) {
      assert KeyOf(records[i + 1]) != KeyOf(records[j + 1]);
    }
    forall r | r in rest ensures KeyOf(r) != KeyOf(records[0]) {
      var j :| 0 <= j < |rest| && rest[j] == r;
      assert KeyOf(records[0]) != KeyOf(records[j + 1]);
    }
  }

  lemma DistinctCons(first: Record, rest: seq<Record>)
    requires DistinctBy(KeyOf, rest) && forall r :: r in rest ==> KeyOf(r) != KeyOf(first)
    ensures DistinctBy(KeyOf, [first] + rest)
  {
    var all := [first] + rest;
    forall i, j | 0 <= i < j < |all| ensures KeyOf(all[i]) != KeyOf(all[j]) {
      if i > 0 {
        assert KeyOf(rest[i - 1]) != KeyOf(rest[j - 1]);
      }
    }
  }

  lemma {:induction false} OthersDistinct(records: seq<Record>, record: Record)
    requires DistinctBy(KeyOf, records)
    ensures DistinctBy(KeyOf, Others(records, record))
  {
    if records != [] {
      DistinctTail(records);
      OthersDistinct(records[1..], record);
      if KeyOf(records[0]) != KeyOf(record) {
        OthersMembers(records[1..], record);
        DistinctCons(records[0], Others(records[1..], record));
      }
    }
  }

  /** The list that is written: the others and the new record, in order. */
  function Updated(records: seq<Record>, record: Record): seq<Record> {
    Sort(RecordLeq, Others(records, record) + [record])
  }

  lemma UpdatedMembers(records: seq<Record>, record: Record)
    ensures Sorted(RecordLeq, Updated(records, record))
    ensures |Updated(records, record)| == |Others(records, record)| + 1
    ensures forall r :: r in Updated(records, record) <==> r == record || (r in records && KeyOf(r) != KeyOf(record))
  {
    var added := Others(records, record) + [record];
    RecordOrder();
    SortSorts(RecordLeq, added);
    OthersMembers(records, record);
    forall r ensures r in Updated(records, record) <==> r in added {
      assert r in multiset(Updated(records, record)) <==> r in multiset(added);
    }
  }

  lemma UpdatedDistinct(records: seq<Record>, record: Record)
    requires DistinctBy(KeyOf, records)
    ensures DistinctBy(KeyOf, Updated(records, record))
  {
    var others := Others(records, record);
    RecordOrder();
    OthersDistinct(records, record);
    OthersMembers(records, record);
    DistinctCons(record, others);
    assert multiset([record] + others) == multiset(others + [record]);
    SortSorts(RecordLeq, others + [record]);
    DistinctPermutation(KeyOf, [record] + others, Updated(records, record));
  }

  /** Writing a record is a map update. */
  lemma UpdatedIsUpdate(records: seq<Record>, record: Record)
    requires DistinctBy(KeyOf, records)
    ensures DistinctBy(KeyOf, Updated(records, record))
    ensures AsMap(Updated(records, record)) == AsMap(records)[KeyOf(record) := record]
  {
    UpdatedDistinct(records, record);
    UpdatedMembers(records, record);
    MapOfMembers(records, record, Updated(records, record));
  }

  lemma MapOfMembers(records: seq<Record>, record: Record, updated: seq<Record>)
    requires DistinctBy(KeyOf, records) && DistinctBy(KeyOf, updated)
    requires forall r :: r in updated <==> r == record || (r in records && KeyOf(r) != KeyOf(record))
    ensures AsMap(updated) == AsMap(records)[KeyOf(record) := record]
  {
    hide DistinctBy;
    var before, after := AsMap(records), AsMap(updated);
    forall k ensures k in after <==> k in before || k == KeyOf(record) {
      if k in before && k != KeyOf(record) {
        assert before[k] in updated;
      }
      if k == KeyOf(record) {
        assert record in updated;
      }
    }
    forall k | k in after ensures after[k] == before[KeyOf(record) := record][k] {
      if k == KeyOf(record) {
        KeysIdentify(updated, after[k], record);
      } else {
        KeysIdentify(records, after[k], before[k]);
      }
    }
  }

  ghost function Keys(records: seq<Record>): set<Key> { set r | r in records :: KeyOf(r) }

  lemma {:induction false} KeyCount(records: seq<Record>)
    requires DistinctBy(KeyOf, records)
    ensures |Keys(records)| == |records|
  {
    if records != [] {
      DistinctTail(records);
      KeyCount(records[1..]);
      assert records == [records[0]] + records[1..];
      assert Keys(records) == {KeyOf(records[0])} + Keys(records[1..]);
    }
  }

  /** With distinct keys, the list is full for a new key exactly when the map has 32 entries. */
  lemma MapSize(records: seq<Record>)
    requires DistinctBy(KeyOf, records)
    ensures |AsMap(records)| == |records|
  {
    KeyCount(records);
    assert AsMap(records).Keys == Keys(records);
  }

  /** What recording a query over a file comes to when no call fails: the text that is written, or why none is. */
  function Verdict(file: Option<string>, record: Record): Result<string, Failure> {
    if record.roots == [] then Err(Unavailable)
    else if !Bounded(record) then Err(Format(StoreOversized))
    else
      match Contents(file)
      case Err(error) => Err(Format(error))
      case Ok(records) =>
        if |Others(records, record)| >= MAX_RECORDS then Err(Format(StoreFull)) else Written(records, record)
  }

  function Written(records: seq<Record>, record: Record): Result<string, Failure> {
    match Encode(Updated(records, record))
    case Err(error) => Err(Format(error))
    case Ok(text) => Ok(text)
  }

  /** What clearing a file comes to when no call fails; it does not read the file. */
  function Cleared(file: Option<string>): Result<bool, Failure> {
    match file
    case None => Ok(false)
    case Some(text) => if ByteLen(text) > MAX_FILE_BYTES then Err(Format(StoreOversized)) else Ok(true)
  }

  /** A reader of the file finds a canonical list. */
  ghost predicate Readable(file: Option<string>) {
    Contents(file).Ok? && Canonical(Contents(file).value)
  }

  /** What an operation did to the file: it recorded a query, removed the file, or left it alone. */
  datatype Change = Recorded(record: Record) | Removed | Unchanged

  ghost predicate Becomes(before: Option<string>, change: Change, after: Option<string>) {
    match change
    case Recorded(record) => Verdict(before, record).Ok? && after == Some(Verdict(before, record).value)
    case Removed => Cleared(before).Ok? && after == None
    case Unchanged => after == before
  }

  /** The store file and the temporary file that replaces it. */
  class EvidenceFile {
    const faults: Schedule
    var calls: nat  // made so far
    var file: Option<string>
    var tmp: Option<string>

    constructor (faults: Schedule)
      ensures this.faults == faults && calls == 0 && file.None? && tmp.None? && Valid()
    {
      this.faults, calls, file, tmp := faults, 0, None, None;
    }

    ghost predicate Valid()
      reads this
    {
      Readable(file)
    }

    /** The abstract value of the store. */
    ghost function Stored(): map<Key, Record>
      reads this
      requires Valid()
    {
      AsMap(Contents(file).value)
    }

    /** One call into the operating system: the schedule says whether it fails. */
    method Fault() returns (failed: bool)
      modifies this`calls
      ensures failed == faults(old(calls)) && calls == old(calls) + 1
    {
      failed := faults(calls);
      calls := calls + 1;
    }

    /** Inspecting the file, then reading it. */
    method Load() returns (r: Result<seq<Record>, Failure>)
      modifies this`calls
      ensures old(calls) <= calls
      ensures r == Err(Unavailable) <==> !NoFault(faults, old(calls), calls)
      ensures r != Err(Unavailable) ==> r == match Contents(file) case Ok(records) => Ok(records) case Err(error) => Err(Format(error))
    {
      hide Parse, ByteLen;
      var failed := Fault();
      if failed {
        return Err(Unavailable);
      }
      if file.None? {
        return Ok([]);
      }
      if ByteLen(file.value) > MAX_FILE_BYTES {
        return Err(Format(StoreOversized));
      }
      failed := Fault();
      if failed {
        return Err(Unavailable);
      }
      var parsed := ParseEvidenceStore(file.value);
      return if parsed.Ok? then Ok(parsed.value) else Err(Format(parsed.error));
    }

    /** Writing to the temporary file, then renaming it over the store file. */
    method Write(records: seq<Record>) returns (r: Result<(), Failure>)
      modifies this
      ensures old(calls) <= calls
      ensures r == Err(WriteFailed) <==> !NoFault(faults, old(calls), calls)
      ensures r != Err(WriteFailed) ==> r == match Encode(records) case Ok(_) => Ok(()) case Err(error) => Err(Format(error))
      ensures if r.Ok? then file == Some(Encode(records).value) && tmp == None else file == old(file)
    {
      var failed := Fault();
      if failed {
        return Err(WriteFailed);
      }
      var encoded := EncodeEvidenceStore(records);
      if encoded.Err? {
        return Err(Format(encoded.error));
      }
      if tmp.Some? {
        failed := Fault();
        if failed {
          return Err(WriteFailed);
        }
        tmp := None;
      }
      r := Replace(encoded.value);
    }

    /** The temporary file is new; if it cannot be filled or renamed, it is deleted, if that succeeds. */
    method Replace(text: string) returns (r: Result<(), Failure>)
      requires tmp == None
      modifies this
      ensures old(calls) <= calls
      ensures r == if NoFault(faults, old(calls), calls) then Ok(()) else Err(WriteFailed)
      ensures if r.Ok? then file == Some(text) && tmp == None else file == old(file)
    {
      var failed := Fault();
      if failed {
        var k :| 0 <= k <= |text|;
        tmp := Some(text[..k]);
      } else {
        tmp := Some(text);
        failed := Fault();
        if !failed {
          file, tmp := tmp, None;
          return Ok(());
        }
      }
      failed := Fault();
      if !failed {
        tmp := None;
      }
      return Err(WriteFailed);
    }

    /**
     Recording a query. Unless a call fails, it ends as `Verdict` says. Over a store that can
     be read, a success is a map update and a rejection leaves the file as it is. A record
     whose fields the parser would refuse is written all the same, and the file is then
     unreadable: it stays readable exactly when the record is storable.
     */
    method Persist(record: Record) returns (r: Result<(), Failure>)
      modifies this
      ensures old(calls) <= calls
      ensures NoFault(faults, old(calls), calls) ==>
                match Verdict(old(file), record) case Ok(text) => r.Ok? && file == Some(text) case Err(error) => r == Err(error)
      ensures !NoFault(faults, old(calls), calls) ==> r == Err(Unavailable) || r == Err(WriteFailed)
      ensures Becomes(old(file), if r.Ok? then Recorded(record) else Unchanged, file)
      ensures old(Valid()) && r.Ok? ==> (Contents(file).Ok? <==> Storable(record))
      ensures old(Valid()) && r.Ok? && Storable(record) ==> Valid() && Stored() == old(Stored())[(record.request, record.roots) := record]
    {
      if record.roots == [] {
        return Err(Unavailable);
      }
      if !Bounded(record) {
        return Err(Format(StoreOversized));
      }
      var loaded := Load();
      if loaded.Err? {
        return Err(loaded.error);
      }
      var records := loaded.value;
      var others := Others(records, record);
      if |others| >= MAX_RECORDS {
        return Err(Format(StoreFull));
      }
      ghost var began := calls;
      r := Write(Sort(RecordLeq, others + [record]));
      NoFaultSplit(faults, old(calls), began, calls);
      if old(Valid()) && r.Ok? {
        UpdatedIsCanonical(records, record);
      }
    }

    /** Removing the file, whether or not it can be read: what cannot be is a file over the size limit. */
    method Clear() returns (r: Result<bool, Failure>)
      modifies this
      ensures old(calls) <= calls
      ensures NoFault(faults, old(calls), calls) ==>
                match old(file)
                case None => r == Ok(false)
                case Some(text) => r == if ByteLen(text) > 65536 then Err(Format(StoreOversized)) else Ok(true)
      ensures !NoFault(faults, old(calls), calls) ==> r == Err(Unavailable) || r == Err(WriteFailed)
      ensures Becomes(old(file), if r.Ok? then Removed else Unchanged, file)
      ensures r.Ok? ==> file == None && Valid() && Stored() == map[] && r.value == old(file).Some?
    {
      var failed := Fault();
      if failed {
        return Err(Unavailable);
      }
      if file.None? {
        return Ok(false);
      }
      if ByteLen(file.value) > MAX_FILE_BYTES {
        return Err(Format(StoreOversized));
      }
      failed := Fault();
      if failed {
        return Err(WriteFailed);
      }
      file := None;
      return Ok(true);
    }
  }

  /**
   When no call fails, a readable store refuses a record exactly when the record names no
   roots, exceeds the writer's bounds, brings a new key to a full map, or makes the text too
   large: replacing a key succeeds in a full store too.
   */
  lemma VerdictExactly(file: Option<string>, record: Record)
    requires Contents(file).Ok? && Canonical(Contents(file).value)
    ensures var records := Contents(file).value;
            var bounded := ByteLen(record.request) <= 4096 && 1 <= |record.roots| <= 8 && |record.rankings| <= 32;
            var full := |AsMap(records)| == 32 && (record.request, record.roots) !in AsMap(records);
            && (Verdict(file, record).Ok? <==> bounded && !full && ByteLen(StoreText(Updated(records, record))) <= 65536)
            && (Verdict(file, record) == Err(Unavailable) <==> record.roots == [])
            && (Verdict(file, record) == Err(Format(StoreFull)) <==> bounded && full)
            && Verdict(file, record) != Err(Format(StoreCorrupt))
            && (Verdict(file, record).Ok? ==> Verdict(file, record).value == StoreText(Updated(records, record)))
  {
    hide Contents, Canonical, Others, Updated, StoreText, Sorted, AsMap, ByteLen;
    var records := Contents(file).value;
    FullExactly(records, record);
    if |Others(records, record)| < MAX_RECORDS {
      BoundedUpdate(records, record);
    }
  }

  lemma BoundedUpdate(records: seq<Record>, record: Record)
    requires Canonical(records) && |Others(records, record)| < MAX_RECORDS
    ensures |Updated(records, record)| <= MAX_RECORDS
    ensures Bounded(record) ==> forall i :: 0 <= i < |Updated(records, record)| ==> Bounded(Updated(records, record)[i])
  {
    UpdatedMembers(records, record);
    forall i | 0 <= i < |Updated(records, record)| && Bounded(record) ensures Bounded(Updated(records, record)[i]) {
      assert Updated(records, record)[i] in Updated(records, record);
    }
  }

  /** Clearing recovers from any record that was written, also when the file cannot be read any more. */
  method ClearAfterPersist(store: EvidenceFile, record: Record) returns (persisted: Result<(), Failure>, cleared: Result<bool, Failure>)
    modifies store
    ensures persisted.Ok? && (forall k :: !store.faults(k)) ==> cleared == Ok(true) && store.Valid() && store.Stored() == map[]
  {
    persisted := store.Persist(record);
    cleared := store.Clear();
  }

  lemma FullExactly(records: seq<Record>, record: Record)
    requires Canonical(records)
    ensures |Others(records, record)| >= MAX_RECORDS <==> |AsMap(records)| == MAX_RECORDS && KeyOf(record) !in AsMap(records)
  {
    MapSize(records);
    OthersSize(records, record);
    assert KeyOf(record) in AsMap(records) <==> exists r :: r in records && KeyOf(r) == KeyOf(record);
  }

  /** The updated list, once written, is read back canonically if and only if the new record is storable. */
  lemma UpdatedIsCanonical(records: seq<Record>, record: Record)
    requires Canonical(records) && Bounded(record) && |Others(records, record)| < MAX_RECORDS
    requires Encode(Updated(records, record)).Ok?
    ensures var text := Encode(Updated(records, record)).value;
            && (Contents(Some(text)).Ok? <==> Storable(record))
            && (Storable(record) ==> Contents(Some(text)) == Ok(Updated(records, record)) && Canonical(Updated(records, record))
                                     && AsMap(Updated(records, record)) == AsMap(records)[KeyOf(record) := record])
  {
    hide AsMap, DistinctBy, Storable, Parse, StoreText, Updated, Sorted;
    var updated := Updated(records, record);
    UpdatedMembers(records, record);
    UpdatedIsUpdate(records, record);
    StoreRoundTrip(updated);
    StorableMembers(updated, record);
  }

  lemma StorableMembers(updated: seq<Record>, record: Record)
    requires record in updated && forall r :: r in updated && r != record ==> Storable(r)
    ensures AllStorable(updated) <==> Storable(record)
  {
    var i :| 0 <= i < |updated| && updated[i] == record;
    assert AllStorable(updated) ==> Storable(updated[i]);
  }

  // ---------- runs of persists and clears

  /** The record that was last written since the file was last removed. */
  function LastRecorded(changes: seq<Change>): Option<Record> {
    if changes == [] then None
    else
      match changes[|changes| - 1]
      case Recorded(record) => Some(record)
      case Removed => None
      case Unchanged => LastRecorded(changes[..|changes| - 1])
  }

  /** What the changes make of a map. */
  function Replay(stored: map<Key, Record>, changes: seq<Change>): map<Key, Record> {
    if changes == [] then stored
    else
      var before := Replay(stored, changes[..|changes| - 1]);
      match changes[|changes| - 1]
      case Recorded(record) => before[KeyOf(record) := record]
      case Removed => map[]
      case Unchanged => before
  }

  ghost predicate Run(files: seq<Option<string>>, changes: seq<Change>) {
    && |files| == |changes| + 1 && Readable(files[0])
    && forall i :: 0 <= i < |changes| ==> Becomes(files[i], changes[i], files[i + 1])
  }

  lemma ReadableAfter(before: Option<string>, record: Record, after: Option<string>)
    requires Readable(before) && Becomes(before, Recorded(record), after)
    ensures Readable(after) <==> Storable(record)
    ensures Contents(after).Ok? <==> Storable(record)
    ensures Storable(record) ==> AsMap(Contents(after).value) == AsMap(Contents(before).value)[KeyOf(record) := record]
  {
    UpdatedIsCanonical(Contents(before).value, record);
  }

  /**
   Over every run of persists and clears from a readable file, whatever fails: the file can be
   read if and only if the record last written since it was last removed, if there is one, is
   storable; and what it then holds are the recorded updates since that removal.
   */
  lemma {:induction false} RunExactly(files: seq<Option<string>>, changes: seq<Change>, n: nat)
    requires Run(files, changes) && n <= |changes|
    ensures var last := LastRecorded(changes[..n]);
            && (Contents(files[n]).Ok? <==> last.None? || Storable(last.value))
            && (Readable(files[n]) <==> Contents(files[n]).Ok?)
    ensures Readable(files[n]) ==> AsMap(Contents(files[n]).value) == Replay(AsMap(Contents(files[0]).value), changes[..n])
  {
    hide Contents, Canonical, AsMap, Verdict, Cleared, Storable;
    if n > 0 {
      RunExactly(files, changes, n - 1);
      assert changes[..n][..n - 1] == changes[..n - 1];
      assert Becomes(files[n - 1], changes[n - 1], files[n]);
      match changes[n - 1] {
        case Recorded(record) =>
          WrittenOverReadable(files[n - 1], record);
          ReadableAfter(files[n - 1], record, files[n]);
        case Removed => EmptyIsReadable();
        case Unchanged =>
      }
    }
  }

  lemma WrittenOverReadable(before: Option<string>, record: Record)
    ensures Verdict(before, record).Ok? ==> Contents(before).Ok?
  {
  }

  lemma EmptyIsReadable()
    ensures Readable(None) && AsMap(Contents(None).value) == map[]
  {
  }
}
