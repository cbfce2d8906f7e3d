/** What the parser of the evidence file makes of the encoder's output. */
module EvidenceRoundTrip {
  import opened Common
  import opened Decimal
  import opened EvidenceCodec
  import opened Text

  predicate Fits(field: string) { ByteLen(field) <= MAX_FIELD_BYTES }

  predicate AllFit(fields: seq<string>) { forall i :: 0 <= i < |fields| ==> Fits(fields[i]) }

  predicate RankingFits(r: Ranking) { Fits(r.bundle) && Fits(r.locator) && Fits(r.reason) && Fits(r.freshness) }

  predicate RankingsFit(rankings: seq<Ranking>) { forall i :: 0 <= i < |rankings| ==> RankingFits(rankings[i]) }

  /** Every field of the record is short enough for the parser. */
  predicate FieldsFit(r: Record) {
    AllFit(r.roots) && Fits(r.outcome) && AllFit(r.matched) && AllFit(r.unmatched) && RankingsFit(r.rankings)
  }

  /** What the parser demands of a record and the encoder does not check. */
  predicate Storable(r: Record) { FieldsFit(r) && r.roots != [] && ValidOutcome(r.outcome) }

  predicate AllStorable(records: seq<Record>) { forall i :: 0 <= i < |records| ==> Storable(records[i]) }

  lemma {:induction false} ReadAppend(st: Reading, a: seq<string>, b: seq<string>)
    ensures ReadLines(st, a + b) == match ReadLines(st, a) case Err(e) => Err(e) case Ok(mid) => ReadLines(mid, b)
    decreases a
  {
    if a == [] {
      assert a + b == b;
    } else {
      assert (a + b)[1..] == a[1..] + b;
      if ReadLine(st, a[0]).Ok? {
        ReadAppend(ReadLine(st, a[0]).value, a[1..], b);
      }
    }
  }

  /** The keys that may occur any number of times. */
  datatype ListKey = Root | Matched | Unmatched

  function KeyName(key: ListKey): string {
    match key case Root => "root" case Matched => "matched" case Unmatched => "unmatched"
  }

  /** A draft with more values under such a key. */
  function Extend(d: Draft, key: ListKey, values: seq<string>): Draft {
    var r := d.record;
    match key
    case Root => d.(record := r.(roots := r.roots + values))
    case Matched => d.(record := r.(matched := r.matched + values))
    case Unmatched => d.(record := r.(unmatched := r.unmatched + values))
  }

  lemma ReadTaggedLine(done: seq<Record>, d: Draft, key: string, value: string)
    requires '\t' !in key && key != ""
    ensures ReadLine(Reading(done, Some(d)), key + ['\t'] + Escape(value)) ==
            match ReadField(d, key, Escape(value)) case Err(e) => Err(e) case Ok(draft) => Ok(Reading(done, Some(draft)))
  {
    var line := key + ['\t'] + Escape(value);
    assert '\t' in line;
    SplitOnceAt(key, '\t', Escape(value));
  }

  lemma ReadRepeatable(d: Draft, key: ListKey, value: string)
    ensures ReadField(d, KeyName(key), Escape(value)) == if Fits(value) then Ok(Extend(d, key, [value])) else Err(StoreOversized)
  {
    UnescapeEscape(value);
    match key
    case Root =>
    case Matched => assert "matched"[0] == 'm';
    case Unmatched => assert "unmatched"[0] == 'u';
  }

  lemma {:induction false} ReadTagged(done: seq<Record>, d: Draft, key: ListKey, values: seq<string>)
    ensures ReadLines(Reading(done, Some(d)), Tagged(KeyName(key), values)) ==
            if AllFit(values) then Ok(Reading(done, Some(Extend(d, key, values)))) else Err(StoreOversized)
    decreases values
  {
    var lines := Tagged(KeyName(key), values);
    if values == [] {
      assert forall v: seq<string> :: v + [] == v;
    } else {
      var first, others := values[0], values[1..];
      ReadTaggedLine(done, d, KeyName(key), first);
      ReadRepeatable(d, key, first);
      ReadFirst(Reading(done, Some(d)), lines);
      assert lines[1..] == Tagged(KeyName(key), others);
      ReadTagged(done, Extend(d, key, [first]), key, others);
      ExtendTwice(d, key, values);
      assert AllFit(values) <==> Fits(first) && AllFit(others) by {
        assert values == [first] + others;
      }
    }
  }

  lemma ReadFirst(st: Reading, lines: seq<string>)
    requires lines != []
    ensures ReadLines(st, lines) == match ReadLine(st, lines[0]) case Err(e) => Err(e) case Ok(next) => ReadLines(next, lines[1..])
  {
  }

  lemma ExtendTwice(d: Draft, key: ListKey, values: seq<string>)
    requires values != []
    ensures Extend(Extend(d, key, [values[0]]), key, values[1..]) == Extend(d, key, values)
  {
    assert forall v: seq<string> :: v + [values[0]] + values[1..] == v + values;
  }

  // ---------- rank lines

  lemma NumberPrinted(n: nat, max: nat)
    requires n <= max
    ensures Number(ToString(n), max) == Ok(n)
  {
    ParsePrinted(n, max, 0);
  }

  lemma DigitsAreFlat(n: nat)
    ensures '\t' !in ToString(n) && '\n' !in ToString(n) && '\r' !in ToString(n)
  {
  }

  lemma ColumnsAreFlat(r: Ranking)
    ensures forall p :: p in Columns(r) ==> '\t' !in p && '\n' !in p && '\r' !in p
  {
    DigitsAreFlat(r.rank); DigitsAreFlat(r.exact); DigitsAreFlat(r.partial); DigitsAreFlat(r.active);
    DigitsAreFlat(r.canonical); DigitsAreFlat(r.publicSafe); DigitsAreFlat(r.confidence);
    EscapeIsFlat(r.bundle); EscapeIsFlat(r.locator); EscapeIsFlat(r.reason); EscapeIsFlat(r.freshness);
  }

  function ReadBack(field: string): Result<string, EvidenceError> {
    if Fits(field) then Ok(field) else Err(StoreOversized)
  }

  lemma ColumnsReadBack(parts: seq<string>, r: Ranking)
    requires |parts| == 11
    requires Number(parts[0], U64_MAX) == Ok(r.rank) && Number(parts[4], U64_MAX) == Ok(r.exact) && Number(parts[5], U64_MAX) == Ok(r.partial)
    requires Number(parts[6], U8_MAX) == Ok(r.active) && Number(parts[7], U8_MAX) == Ok(r.canonical)
    requires Number(parts[8], U8_MAX) == Ok(r.publicSafe) && Number(parts[9], U8_MAX) == Ok(r.confidence)
    requires Unescape(parts[1]) == ReadBack(r.bundle) && Unescape(parts[2]) == ReadBack(r.locator)
    requires Unescape(parts[3]) == ReadBack(r.reason) && Unescape(parts[10]) == ReadBack(r.freshness)
    ensures ParseColumns(parts) == if RankingFits(r) then Ok(r) else Err(StoreOversized)
  {
  }

  lemma FieldReadBack(field: string)
    ensures Unescape(Escape(field)) == ReadBack(field)
  {
    UnescapeEscape(field);
  }

  /** Every printed ranking has eleven columns and is read back as it was. */
  lemma RankRoundTrip(r: Ranking)
    ensures Split(Join(Columns(r), '\t'), '\t') == Columns(r)
    ensures ParseRank(Join(Columns(r), '\t')) == if RankingFits(r) then Ok(r) else Err(StoreOversized)
  {
    ColumnsAreFlat(r);
    SplitJoin(Columns(r), '\t');
    NumbersReadBack(Columns(r), r);
    FieldReadBack(r.bundle);
    FieldReadBack(r.locator);
    FieldReadBack(r.reason);
    FieldReadBack(r.freshness);
    ColumnsReadBack(Columns(r), r);
  }

  lemma NumbersReadBack(parts: seq<string>, r: Ranking)
    requires parts == Columns(r)
    ensures Number(parts[0], U64_MAX) == Ok(r.rank) && Number(parts[4], U64_MAX) == Ok(r.exact) && Number(parts[5], U64_MAX) == Ok(r.partial)
    ensures Number(parts[6], U8_MAX) == Ok(r.active) && Number(parts[7], U8_MAX) == Ok(r.canonical)
    ensures Number(parts[8], U8_MAX) == Ok(r.publicSafe) && Number(parts[9], U8_MAX) == Ok(r.confidence)
  {
    assert Number(parts[0], U64_MAX) == Ok(r.rank) by { NumberPrinted(r.rank, U64_MAX); }
    assert Number(parts[4], U64_MAX) == Ok(r.exact) by { NumberPrinted(r.exact, U64_MAX); }
    assert Number(parts[5], U64_MAX) == Ok(r.partial) by { NumberPrinted(r.partial, U64_MAX); }
    assert Number(parts[6], U8_MAX) == Ok(r.active) by { NumberPrinted(r.active, U8_MAX); }
    assert Number(parts[7], U8_MAX) == Ok(r.canonical) by { NumberPrinted(r.canonical, U8_MAX); }
    assert Number(parts[8], U8_MAX) == Ok(r.publicSafe) by { NumberPrinted(r.publicSafe, U8_MAX); }
    assert Number(parts[9], U8_MAX) == Ok(r.confidence) by { NumberPrinted(r.confidence, U8_MAX); }
  }

  function ExtendRanks(d: Draft, rankings: seq<Ranking>): Draft {
    d.(record := d.record.(rankings := d.record.rankings + rankings))
  }

  lemma ReadRankText(done: seq<Record>, d: Draft, value: string)
    ensures ReadLine(Reading(done, Some(d)), "rank" + ['\t'] + value) ==
            match ParseRank(value) case Err(e) => Err(e) case Ok(r) => Ok(Reading(done, Some(ExtendRanks(d, [r]))))
  {
    var line := "rank" + ['\t'] + value;
    assert line[0] == 'r';
    SplitOnceAt("rank", '\t', value);
  }

  lemma ReadRankLine(done: seq<Record>, d: Draft, r: Ranking)
    ensures ReadLine(Reading(done, Some(d)), RankLine(r)) ==
            if RankingFits(r) then Ok(Reading(done, Some(ExtendRanks(d, [r])))) else Err(StoreOversized)
  {
    RankRoundTrip(r);
    ReadRankText(done, d, Join(Columns(r), '\t'));
  }

  lemma RankLinesTail(rankings: seq<Ranking>)
    requires rankings != []
    ensures RankLines(rankings)[0] == RankLine(rankings[0]) && RankLines(rankings)[1..] == RankLines(rankings[1..])
  {
  }

  lemma ExtendRanksTwice(d: Draft, rankings: seq<Ranking>)
    requires rankings != []
    ensures ExtendRanks(ExtendRanks(d, [rankings[0]]), rankings[1..]) == ExtendRanks(d, rankings)
  {
    assert d.record.rankings + [rankings[0]] + rankings[1..] == d.record.rankings + rankings;
  }

  lemma {:induction false} ReadRanks(done: seq<Record>, d: Draft, rankings: seq<Ranking>)
    ensures ReadLines(Reading(done, Some(d)), RankLines(rankings)) ==
            if RankingsFit(rankings) then Ok(Reading(done, Some(ExtendRanks(d, rankings)))) else Err(StoreOversized)
    decreases rankings
  {
    hide RankingFits, RankLine, Fits;
    if rankings == [] {
      assert d.record.rankings + [] == d.record.rankings;
    } else {
      var first, others := rankings[0], rankings[1..];
      var next := ExtendRanks(d, [first]);
      ReadRankLine(done, d, first);
      RankLinesTail(rankings);
      ReadFirst(Reading(done, Some(d)), RankLines(rankings));
      ReadRanks(done, next, others);
      ExtendRanksTwice(d, rankings);
      assert RankingsFit(rankings) <==> RankingFits(first) && RankingsFit(others) by {
        assert rankings == [first] + others;
      }
    }
  }

  // ---------- records

  lemma ReadSingle(done: seq<Record>, d: Draft, key: string, value: string)
    requires (key == "request" && !d.seenRequest && ByteLen(value) <= MAX_REQUEST_BYTES) || (key == "outcome" && !d.seenOutcome)
    ensures ReadLines(Reading(done, Some(d)), Tagged(key, [value])) ==
            if !Fits(value) then Err(StoreOversized)
            else if key == "request" then Ok(Reading(done, Some(d.(record := d.record.(request := value), seenRequest := true))))
            else Ok(Reading(done, Some(d.(record := d.record.(outcome := value), seenOutcome := true))))
  {
    var lines := Tagged(key, [value]);
    ReadTaggedLine(done, d, key, value);
    FieldReadBack(value);
    ReadFirst(Reading(done, Some(d)), lines);
    assert lines[1..] == [];
  }

  /** One part of a record after another: if each part can be read, so can the whole. */
  lemma ReadTwo(st: Reading, a: seq<string>, b: seq<string>, mid: Reading, last: Result<Reading, EvidenceError>)
    requires ReadLines(st, a) == Ok(mid) && ReadLines(mid, b) == last
    ensures ReadLines(st, a + b) == last
  {
    ReadAppend(st, a, b);
  }

  function HeadLines(r: Record): seq<string> { Tagged("request", [r.request]) + Tagged("root", r.roots) }

  /** The record as far as its request and roots have been read. */
  function HeadDraft(r: Record): Draft { Draft(Record(r.request, r.roots, "", [], [], []), true, false) }

  lemma ReadHead(done: seq<Record>, r: Record)
    requires Bounded(r)
    ensures ReadLines(Reading(done, Some(EMPTY)), HeadLines(r)) ==
            if AllFit(r.roots) then Ok(Reading(done, Some(HeadDraft(r)))) else Err(StoreOversized)
  {
    var d1 := EMPTY.(record := EMPTY.record.(request := r.request), seenRequest := true);
    ReadSingle(done, EMPTY, "request", r.request);
    ReadTagged(done, d1, Root, r.roots);
    assert [] + r.roots == r.roots;
    ReadTwo(Reading(done, Some(EMPTY)), Tagged("request", [r.request]), Tagged("root", r.roots), Reading(done, Some(d1)),
            ReadLines(Reading(done, Some(d1)), Tagged("root", r.roots)));
  }

  function BodyLines(r: Record): seq<string> {
    Tagged("outcome", [r.outcome]) + (Tagged("matched", r.matched) + Tagged("unmatched", r.unmatched))
  }

  function OutcomeDraft(r: Record): Draft { Draft(Record(r.request, r.roots, r.outcome, [], [], []), true, true) }

  function BodyDraft(r: Record): Draft { Draft(r.(rankings := []), true, true) }

  lemma ReadTerms(done: seq<Record>, r: Record)
    ensures ReadLines(Reading(done, Some(OutcomeDraft(r))), Tagged("matched", r.matched) + Tagged("unmatched", r.unmatched)) ==
            if AllFit(r.matched) && AllFit(r.unmatched) then Ok(Reading(done, Some(BodyDraft(r)))) else Err(StoreOversized)
  {
    var d := OutcomeDraft(r);
    var mid := Extend(d, Matched, r.matched);
    assert mid == Draft(Record(r.request, r.roots, r.outcome, r.matched, [], []), true, true) by {
      assert [] + r.matched == r.matched;
    }
    assert Extend(mid, Unmatched, r.unmatched) == BodyDraft(r) by {
      assert [] + r.unmatched == r.unmatched;
    }
    ReadTagged(done, d, Matched, r.matched);
    ReadTagged(done, mid, Unmatched, r.unmatched);
    ReadAppend(Reading(done, Some(d)), Tagged("matched", r.matched), Tagged("unmatched", r.unmatched));
  }

  lemma ReadBody(done: seq<Record>, r: Record)
    ensures ReadLines(Reading(done, Some(HeadDraft(r))), BodyLines(r)) ==
            if Fits(r.outcome) && AllFit(r.matched) && AllFit(r.unmatched) then Ok(Reading(done, Some(BodyDraft(r)))) else Err(StoreOversized)
  {
    var terms := Tagged("matched", r.matched) + Tagged("unmatched", r.unmatched);
    ReadAppend(Reading(done, Some(HeadDraft(r))), Tagged("outcome", [r.outcome]), terms);
    ReadSingle(done, HeadDraft(r), "outcome", r.outcome);
    ReadTerms(done, r);
  }

  lemma RecordLinesParts(r: Record)
    ensures RecordLines(r) == ["---"] + (HeadLines(r) + (BodyLines(r) + RankLines(r.rankings)))
  {
  }

  lemma ReadParts(done: seq<Record>, r: Record)
    requires Bounded(r)
    ensures ReadLines(Reading(done, Some(EMPTY)), HeadLines(r) + (BodyLines(r) + RankLines(r.rankings))) ==
            if FieldsFit(r) then Ok(Reading(done, Some(Draft(r, true, true)))) else Err(StoreOversized)
  {
    ReadHead(done, r);
    ReadAppend(Reading(done, Some(EMPTY)), HeadLines(r), BodyLines(r) + RankLines(r.rankings));
    if AllFit(r.roots) {
      ReadBody(done, r);
      ReadAppend(Reading(done, Some(HeadDraft(r))), BodyLines(r), RankLines(r.rankings));
      if Fits(r.outcome) && AllFit(r.matched) && AllFit(r.unmatched) {
        ReadRanks(done, BodyDraft(r), r.rankings);
        assert [] + r.rankings == r.rankings;
      }
    }
  }

  /** The lines of one record close the record before and leave this one open. */
  lemma ReadRecord(st: Reading, r: Record)
    requires Bounded(r)
    ensures ReadLines(st, RecordLines(r)) ==
            match Close(st)
            case Err(e) => Err(e)
            case Ok(done) => if FieldsFit(r) then Ok(Reading(done, Some(Draft(r, true, true)))) else Err(StoreOversized)
  {
    RecordLinesParts(r);
    var parts := HeadLines(r) + (BodyLines(r) + RankLines(r.rankings));
    var lines := ["---"] + parts;
    assert lines[1..] == parts && lines[0] == "---";
    ReadFirst(st, lines);
    if Close(st).Ok? {
      ReadParts(Close(st).value, r);
    }
  }

  lemma ReadRecordThen(st: Reading, r: Record, rest: seq<string>)
    requires Bounded(r)
    ensures ReadAll(st, RecordLines(r) + rest) ==
            match Close(st)
            case Err(e) => Err(e)
            case Ok(done) => if FieldsFit(r) then ReadAll(Reading(done, Some(Draft(r, true, true))), rest) else Err(StoreOversized)
  {
    ReadRecord(st, r);
    ReadAppend(st, RecordLines(r), rest);
  }

  lemma CloseRecord(done: seq<Record>, r: Record)
    requires Bounded(r) && FieldsFit(r) && |done| < MAX_RECORDS
    ensures Close(Reading(done, Some(Draft(r, true, true)))) == if Storable(r) then Ok(done + [r]) else Err(StoreCorrupt)
  {
  }

  lemma {:induction false} ReadStore(st: Reading, records: seq<Record>)
    requires forall i :: 0 <= i < |records| ==> Bounded(records[i])
    requires Close(st).Ok? ==> |Close(st).value| + |records| <= MAX_RECORDS
    ensures ReadAll(st, StoreLines(records)).Ok? <==> Close(st).Ok? && AllStorable(records)
    ensures Close(st).Ok? && AllStorable(records) ==> ReadAll(st, StoreLines(records)) == Ok(Close(st).value + records)
    decreases records
  {
    if records == [] {
      assert Close(st).Ok? ==> Close(st).value + [] == Close(st).value;
    } else {
      var r, others := records[0], records[1..];
      assert StoreLines(records) == RecordLines(r) + StoreLines(others);
      ReadRecordThen(st, r, StoreLines(others));
      assert AllStorable(records) <==> Storable(r) && AllStorable(others) by {
        assert records == [r] + others;
      }
      if Close(st).Ok? && FieldsFit(r) {
        var done := Close(st).value;
        CloseRecord(done, r);
        assert done + [r] + others == done + records;
        ReadStore(Reading(done, Some(Draft(r, true, true))), others);
      }
    }
  }

  // ---------- whole files

  lemma TaggedPlain(key: string, values: seq<string>)
    requires PlainLine(key)
    ensures forall l :: l in Tagged(key, values) ==> PlainLine(l)
  {
    forall i | 0 <= i < |values| ensures PlainLine(Tagged(key, values)[i]) {
      EscapeIsFlat(values[i]);
    }
  }

  lemma {:induction false} JoinPlain(parts: seq<string>)
    requires parts != [] && forall p :: p in parts ==> '\n' !in p && '\r' !in p
    ensures '\n' !in Join(parts, '\t') && '\r' !in Join(parts, '\t')
  {
    assert parts[0] in parts;
    if |parts| > 1 {
      JoinPlain(parts[1..]);
    }
  }

  lemma RankPlain(r: Ranking)
    ensures PlainLine(RankLine(r))
  {
    ColumnsAreFlat(r);
    JoinPlain(Columns(r));
  }

  lemma RecordPlain(r: Record)
    ensures forall l :: l in RecordLines(r) ==> PlainLine(l)
  {
    TaggedPlain("request", [r.request]);
    TaggedPlain("root", r.roots);
    TaggedPlain("outcome", [r.outcome]);
    TaggedPlain("matched", r.matched);
    TaggedPlain("unmatched", r.unmatched);
    forall i | 0 <= i < |r.rankings| ensures PlainLine(RankLines(r.rankings)[i]) {
      RankPlain(r.rankings[i]);
    }
  }

  lemma {:induction false} StorePlain(records: seq<Record>)
    ensures forall l :: l in StoreLines(records) ==> PlainLine(l)
  {
    if records != [] {
      RecordPlain(records[0]);
      StorePlain(records[1..]);
    }
  }

  lemma ParseOfLines(text: string, lines: seq<string>)
    requires Lines(text) == lines && lines != [] && lines[0] == VERSION
    ensures Parse(text) == ReadAll(Reading([], None), lines[1..])
  {
  }

  lemma EncodeAccepts(records: seq<Record>)
    requires Encode(records).Ok?
    ensures Encode(records) == Ok(StoreText(records)) && |records| <= MAX_RECORDS
    ensures forall i :: 0 <= i < |records| ==> Bounded(records[i])
  {
  }

  lemma HeadedPlain(head: string, body: seq<string>)
    requires PlainLine(head) && forall l :: l in body ==> PlainLine(l)
    ensures forall l :: l in [head] + body ==> PlainLine(l)
    ensures Lines(Unlines([head] + body)) == [head] + body
  {
    LinesUnlines([head] + body);
  }

  lemma VersionPlain()
    ensures PlainLine(VERSION)
  {
  }

  lemma StoreTextReads(records: seq<Record>)
    ensures Parse(StoreText(records)) == ReadAll(Reading([], None), StoreLines(records))
  {
    var lines := [VERSION] + StoreLines(records);
    StorePlain(records);
    VersionPlain();
    HeadedPlain(VERSION, StoreLines(records));
    assert lines[1..] == StoreLines(records) && lines[0] == VERSION;
    ParseOfLines(StoreText(records), lines);
  }

  /**
   Round trip. Whatever the encoder writes is read back exactly when every record is
   storable, and then as it was; otherwise the file can no longer be read at all.
   */
  lemma StoreRoundTrip(records: seq<Record>)
    requires Encode(records).Ok?
    ensures Parse(Encode(records).value).Ok? <==> AllStorable(records)
    ensures AllStorable(records) ==> Parse(Encode(records).value) == Ok(records)
  {
    EncodeAccepts(records);
    StoreTextReads(records);
    ReadStore(Reading([], None), records);
    assert [] + records == records;
  }

  /** A path of one-character components that takes 4097 bytes. */
  function LongPath(): (path: string)
    ensures |path| == 4097 && forall i :: 0 <= i < 4097 ==> path[i] == if i % 2 == 0 then 'x' else '/'
  {
    seq(4097, i => if i % 2 == 0 then 'x' else '/')
  }

  /** The encoder does accept a record that cannot be read back: that path as its root. */
  lemma OverlongRootIsWritten(record: Record)
    requires record == Record("q", [LongPath()], "miss", [], [], [])
    ensures Encode([record]).Ok? && Parse(Encode([record]).value).Err?
  {
    hide Unlines, RecordLines, Parse, Lines, StoreText, Escape, LongPath, Fits, ByteLen;
    PathTooLong();
    PlainRun(LongPath());
    OneRecordText(record);
    ShortRecord(record);
    assert Encode([record]).Ok?;
    StoreRoundTrip([record]);
    assert !Fits(record.roots[0]) && !Storable([record][0]);
  }

  lemma PathTooLong()
    ensures !Fits(LongPath())
  {
  }

  lemma OneRecordText(record: Record)
    ensures StoreText([record]) == Unlines([VERSION] + RecordLines(record))
  {
    assert StoreLines([record]) == RecordLines(record) + StoreLines([record][1..]);
    assert RecordLines(record) + [] == RecordLines(record);
  }

  lemma {:induction false} PlainRun(s: string)
    requires forall i :: 0 <= i < |s| ==> s[i] == 'x' || s[i] == '/'
    ensures Escape(s) == s && ByteLen(s) == |s|
  {
    if s != "" {
      PlainRun(s[1..]);
    }
  }

  lemma ShortRecord(record: Record)
    requires record.request == "q" && |record.roots| == 1 && record.outcome == "miss"
    requires record.matched == [] && record.unmatched == [] && record.rankings == []
    requires Escape(record.roots[0]) == record.roots[0] && |record.roots[0]| == 4097
    ensures ByteLen(Unlines([VERSION] + RecordLines(record))) <= MAX_FILE_BYTES
  {
    hide Unlines, Escape;
    var root := record.roots[0];
    var lines := [VERSION, "---", "request" + ['\t'] + Escape("q"), "root" + ['\t'] + root, "outcome" + ['\t'] + Escape("miss")];
    assert Tagged("request", ["q"]) == ["request" + ['\t'] + Escape("q")];
    assert Tagged("root", record.roots) == ["root" + ['\t'] + root];
    assert Tagged("outcome", ["miss"]) == ["outcome" + ['\t'] + Escape("miss")];
    assert [VERSION] + RecordLines(record) == lines;
    EscapeLength("q");
    EscapeLength("miss");
    FiveLines(lines[0], lines[1], lines[2], lines[3], lines[4]);
  }

  lemma FiveLines(a: string, b: string, c: string, d: string, e: string)
    ensures |Unlines([a, b, c, d, e])| == |a| + |b| + |c| + |d| + |e| + 5
  {
    hide Unlines;
    NoLines();
    UnlinesLength(e, []);
    UnlinesLength(d, [e]);
    UnlinesLength(c, [d, e]);
    UnlinesLength(b, [c, d, e]);
    UnlinesLength(a, [b, c, d, e]);
    assert [a, b, c, d, e] == [a] + [b, c, d, e] && [b, c, d, e] == [b] + [c, d, e] && [c, d, e] == [c] + [d, e];
    assert [d, e] == [d] + [e] && [e] == [e] + [];
  }

  lemma NoLines()
    ensures Unlines([]) == ""
  {
  }

  lemma {:induction false} EscapeLength(s: string)
    ensures |Escape(s)| <= 2 * |s|
  {
    if s != "" {
      EscapeLength(s[1..]);
    }
  }

  lemma UnlinesLength(first: string, rest: seq<string>)
    ensures |Unlines([first] + rest)| == |first| + 1 + |Unlines(rest)|
  {
    assert ([first] + rest)[1..] == rest;
  }
}
