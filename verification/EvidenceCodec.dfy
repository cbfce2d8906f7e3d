/** The query-evidence file: an escaped, tab-separated line format, its encoder and its strict parser. */
module EvidenceCodec {
  // Both run loops over text; each is proved against a function, and the functions against each other.

  import opened Common
  import opened Decimal
  import opened Ordering
  import opened Text

  const VERSION := "BRAN-QUERY-EVIDENCE/1"
  const MAX_RECORDS := 32
  const MAX_FILE_BYTES := 64 * 1024
  const MAX_REQUEST_BYTES := 4096
  const MAX_ROOTS := 8
  const MAX_FIELD_BYTES := 4096
  const MAX_RANKINGS := 32

  datatype EvidenceError = StoreCorrupt | StoreOversized | StoreFull

  type U64 = n: nat | n <= U64_MAX
  type U8 = n: nat | n <= U8_MAX

  datatype Ranking = Ranking(
    rank: U64, bundle: string, locator: string, reason: string, exact: U64, partial: U64,
    active: U8, canonical: U8, publicSafe: U8, confidence: U8, freshness: string)

  datatype Record = Record(
    request: string, roots: seq<string>, outcome: string, matched: seq<string>, unmatched: seq<string>, rankings: seq<Ranking>)

  // ---------- escaping

  function EscapeChar(c: char): string {
    match c
    case '\\' => "\\\\"
    case '\n' => "\\n"
    case '\r' => "\\r"
    case '\t' => "\\t"
    case _ => [c]
  }

  function Escape(s: string): string {
    if s == "" then "" else EscapeChar(s[0]) + Escape(s[1..])
  }

  method EvidenceEscape(value: string) returns (out: string)
    ensures out == Escape(value)
  {
    out := "";
    assert value[0..] == value;
    for i := 0 to |value|
      invariant out + Escape(value[i..]) == Escape(value)
    {
      assert value[i..][1..] == value[i + 1..];
      assert (out + EscapeChar(value[i])) + Escape(value[i + 1..]) == out + (EscapeChar(value[i]) + Escape(value[i + 1..]));
      out := out + EscapeChar(value[i]);
    }
  }

  function UnescapePair(c: char): Option<char> {
    match c
    case '\\' => Some('\\')
    case 'n' => Some('\n')
    case 'r' => Some('\r')
    case 't' => Some('\t')
    case _ => None
  }

  function Prepend(out: string, rest: Option<string>): Option<string> {
    match rest case None => None case Some(r) => Some(out + r)
  }

  /** The characters a field stands for, when its escapes are well formed. */
  function Decode(s: string): Option<string>
    decreases |s|
  {
    if s == "" then Some("")
    else if s[0] != '\\' then Prepend([s[0]], Decode(s[1..]))
    else if |s| == 1 || UnescapePair(s[1]).None? then None
    else Prepend([UnescapePair(s[1]).value], Decode(s[2..]))
  }

  function Unescape(s: string): Result<string, EvidenceError> {
    match Decode(s)
    case None => Err(StoreCorrupt)
    case Some(field) => if ByteLen(field) > MAX_FIELD_BYTES then Err(StoreOversized) else Ok(field)
  }

  lemma PrependTwice(out: string, more: string, rest: Option<string>)
    ensures Prepend(out, Prepend(more, rest)) == Prepend(out + more, rest)
  {
    if rest.Some? {
      assert out + (more + rest.value) == out + more + rest.value;
    }
  }

  method EvidenceUnescape(value: string) returns (r: Result<string, EvidenceError>)
    ensures r == Unescape(value)
  {
    var out := "";
    var i := 0;
    assert value[0..] == value;
    PrependTwice("", "", Decode(value));
    assert forall r: string :: "" + r == r;
    while i < |value|
      invariant 0 <= i <= |value|
      invariant Prepend(out, Decode(value[i..])) == Decode(value)
    {
      assert value[i..][1..] == value[i + 1..];
      if value[i] != '\\' {
        PrependTwice(out, [value[i]], Decode(value[i + 1..]));
        out := out + [value[i]];
        i := i + 1;
        continue;
      }
      if i + 1 == |value| || UnescapePair(value[i + 1]).None? {
        return Err(StoreCorrupt);
      }
      assert value[i..][2..] == value[i + 2..];
      PrependTwice(out, [UnescapePair(value[i + 1]).value], Decode(value[i + 2..]));
      out := out + [UnescapePair(value[i + 1]).value];
      i := i + 2;
    }
    assert out + "" == out;
    if ByteLen(out) > MAX_FIELD_BYTES {
      return Err(StoreOversized);
    }
    return Ok(out);
  }

  lemma {:induction false} DecodeEscape(s: string)
    ensures Decode(Escape(s)) == Some(s)
  {
    if s != "" {
      DecodeEscape(s[1..]);
      var e := EscapeChar(s[0]) + Escape(s[1..]);
      assert s == [s[0]] + s[1..];
      if |EscapeChar(s[0])| == 1 {
        assert e[1..] == Escape(s[1..]);
      } else {
        assert e[2..] == Escape(s[1..]);
      }
    }
  }

  /** An escaped field never breaks out of its line or column. */
  lemma {:induction false} EscapeIsFlat(s: string)
    ensures '\t' !in Escape(s) && '\n' !in Escape(s) && '\r' !in Escape(s)
  {
    if s != "" {
      EscapeIsFlat(s[1..]);
    }
  }

  lemma UnescapeEscape(s: string)
    ensures Unescape(Escape(s)) == if ByteLen(s) > MAX_FIELD_BYTES then Err(StoreOversized) else Ok(s)
  {
    DecodeEscape(s);
  }

  // ---------- lines

  function Unlines(lines: seq<string>): string {
    if lines == [] then "" else lines[0] + ['\n'] + Unlines(lines[1..])
  }

  function StripCr(line: string): string {
    if line != "" && line[|line| - 1] == '\r' then line[..|line| - 1] else line
  }

  /** `lines()`: a carriage return before a line feed goes too; no empty line after the last line feed. */
  function Lines(text: string): seq<string>
    decreases |text|
  {
    if text == "" then []
    else
      var i := Find(text, '\n');
      if i < |text| then [StripCr(text[..i])] + Lines(text[i + 1..]) else [text]
  }

  ghost predicate PlainLine(line: string) { '\n' !in line && '\r' !in line }

  lemma {:induction false} LinesUnlines(lines: seq<string>)
    requires forall l :: l in lines ==> PlainLine(l)
    ensures Lines(Unlines(lines)) == lines
  {
    if lines != [] {
      assert PlainLine(lines[0]) by {
        assert lines[0] in lines;
      }
      var rest := Unlines(lines[1..]);
      var text := lines[0] + ['\n'] + rest;
      FindAfter(lines[0], '\n', rest);
      assert text[..|lines[0]|] == lines[0] && text[|lines[0]| + 1..] == rest;
      assert StripCr(lines[0]) == lines[0];
      LinesUnlines(lines[1..]);
    }
  }

  lemma {:induction false} UnlinesAppend(a: seq<string>, b: seq<string>)
    ensures Unlines(a + b) == Unlines(a) + Unlines(b)
  {
    if a == [] {
      assert a + b == b;
    } else {
      assert (a + b)[1..] == a[1..] + b;
      UnlinesAppend(a[1..], b);
    }
  }

  // ---------- encoding

  function Tagged(key: string, values: seq<string>): (lines: seq<string>)
    ensures |lines| == |values| && forall i :: 0 <= i < |values| ==> lines[i] == key + ['\t'] + Escape(values[i])
  {
    seq(|values|, i requires 0 <= i < |values| => key + ['\t'] + Escape(values[i]))
  }

  function Columns(r: Ranking): (parts: seq<string>)
    ensures |parts| == 11
  {
    [ToString(r.rank), Escape(r.bundle), Escape(r.locator), Escape(r.reason), ToString(r.exact), ToString(r.partial),
     ToString(r.active), ToString(r.canonical), ToString(r.publicSafe), ToString(r.confidence), Escape(r.freshness)]
  }

  function RankLine(r: Ranking): string { "rank" + ['\t'] + Join(Columns(r), '\t') }

  function RankLines(rankings: seq<Ranking>): (lines: seq<string>)
    ensures |lines| == |rankings| && forall i :: 0 <= i < |rankings| ==> lines[i] == RankLine(rankings[i])
  {
    seq(|rankings|, i requires 0 <= i < |rankings| => RankLine(rankings[i]))
  }

  function RecordLines(r: Record): seq<string> {
    ["---"] + Tagged("request", [r.request]) + Tagged("root", r.roots) + Tagged("outcome", [r.outcome])
    + Tagged("matched", r.matched) + Tagged("unmatched", r.unmatched) + RankLines(r.rankings)
  }

  function StoreLines(records: seq<Record>): seq<string> { Concat(RecordLines, records) }

  function StoreText(records: seq<Record>): string { Unlines([VERSION] + StoreLines(records)) }

  /** The bounds the encoder and the writer check of a record. */
  predicate Bounded(r: Record) {
    ByteLen(r.request) <= MAX_REQUEST_BYTES && |r.roots| <= MAX_ROOTS && |r.rankings| <= MAX_RANKINGS
  }

  function Encode(records: seq<Record>): Result<string, EvidenceError> {
    if |records| > MAX_RECORDS then Err(StoreFull)
    else if (exists i :: 0 <= i < |records| && !Bounded(records[i])) || ByteLen(StoreText(records)) > MAX_FILE_BYTES then Err(StoreOversized)
    else Ok(StoreText(records))
  }

  lemma HeadedLines(a: seq<string>, b: seq<string>)
    ensures Unlines([VERSION] + (a + b)) == Unlines([VERSION] + a) + Unlines(b)
  {
    UnlinesAppend([VERSION] + a, b);
    assert [VERSION] + (a + b) == ([VERSION] + a) + b;
  }

  lemma StoreTextSnoc(records: seq<Record>, i: nat)
    requires i < |records|
    ensures StoreText(records[..i + 1]) == StoreText(records[..i]) + Unlines(RecordLines(records[i]))
  {
    ConcatAppend(RecordLines, records[..i], [records[i]]);
    ConcatOne(RecordLines, records[i]);
    assert records[..i + 1] == records[..i] + [records[i]];
    HeadedLines(StoreLines(records[..i]), RecordLines(records[i]));
  }

  lemma {:induction false} StoreTextGrows(records: seq<Record>, i: nat)
    requires i <= |records|
    ensures ByteLen(StoreText(records[..i])) <= ByteLen(StoreText(records))
    decreases |records| - i
  {
    if i < |records| {
      StoreTextGrows(records, i + 1);
      StoreTextSnoc(records, i);
      ByteLenAppend(StoreText(records[..i]), Unlines(RecordLines(records[i])));
    } else {
      assert records[..i] == records;
    }
  }

  lemma UnlinesSnoc(before: string, lines: seq<string>, i: nat)
    requires i < |lines|
    ensures before + Unlines(lines[..i]) + (lines[i] + ['\n']) == before + Unlines(lines[..i + 1])
  {
    UnlinesAppend(lines[..i], [lines[i]]);
    assert lines[..i + 1] == lines[..i] + [lines[i]];
    assert Unlines([lines[i]]) == lines[i] + ['\n'] + Unlines([]);
    assert Unlines([lines[i]]) == lines[i] + ['\n'];
  }

  lemma UnlinesMore(before: string, done: seq<string>, more: seq<string>)
    ensures before + Unlines(done) + Unlines(more) == before + Unlines(done + more)
  {
    UnlinesAppend(done, more);
  }

  /** Appends one line for each value; `done` are the lines that `before` ends with. */
  method AppendTagged(before: string, key: string, values: seq<string>, ghost start: string, ghost done: seq<string>) returns (out: string)
    requires before == start + Unlines(done)
    ensures out == start + Unlines(done + Tagged(key, values))
  {
    out := before;
    ghost var lines := Tagged(key, values);
    for i := 0 to |values|
      invariant out == before + Unlines(lines[..i])
    {
      UnlinesSnoc(before, lines, i);
      var field := EvidenceEscape(values[i]);
      var line := key + ['\t'] + field;
      assert line == lines[i];
      out := out + (line + ['\n']);
    }
    assert lines[..|values|] == lines;
    UnlinesMore(start, done, lines);
  }

  method EncodeRecord(record: Record, before: string) returns (out: string)
    ensures out == before + Unlines(RecordLines(record))
  {
    out := before + ("---" + ['\n']);
    ghost var done := ["---"];
    assert Unlines(done) == "---" + ['\n'] + Unlines([]);
    out := AppendTagged(out, "request", [record.request], before, done);
    done := done + Tagged("request", [record.request]);
    out := AppendTagged(out, "root", record.roots, before, done);
    done := done + Tagged("root", record.roots);
    out := AppendTagged(out, "outcome", [record.outcome], before, done);
    done := done + Tagged("outcome", [record.outcome]);
    out := AppendTagged(out, "matched", record.matched, before, done);
    done := done + Tagged("matched", record.matched);
    out := AppendTagged(out, "unmatched", record.unmatched, before, done);
    done := done + Tagged("unmatched", record.unmatched);
    out := AppendLines(out, RankLines(record.rankings), before, done);
  }

  method AppendLines(before: string, lines: seq<string>, ghost start: string, ghost done: seq<string>) returns (out: string)
    requires before == start + Unlines(done)
    ensures out == start + Unlines(done + lines)
  {
    out := before;
    for i := 0 to |lines|
      invariant out == before + Unlines(lines[..i])
    {
      UnlinesSnoc(before, lines, i);
      out := out + (lines[i] + ['\n']);
    }
    assert lines[..|lines|] == lines;
    UnlinesMore(start, done, lines);
  }

  method EncodeEvidenceStore(records: seq<Record>) returns (r: Result<string, EvidenceError>)
    ensures r == Encode(records)
  {
    if |records| > MAX_RECORDS {
      return Err(StoreFull);
    }
    var out := VERSION + ['\n'];
    assert out == StoreText(records[..0]) by {
      assert [VERSION] + StoreLines([]) == [VERSION];
      assert Unlines([VERSION]) == VERSION + ['\n'] + Unlines([]);
    }
    for i := 0 to |records|
      invariant out == StoreText(records[..i]) && (i > 0 ==> ByteLen(out) <= MAX_FILE_BYTES)
      invariant forall j :: 0 <= j < i ==> Bounded(records[j])
    {
      var record := records[i];
      if ByteLen(record.request) > MAX_REQUEST_BYTES || |record.roots| > MAX_ROOTS || |record.rankings| > MAX_RANKINGS {
        return Err(StoreOversized);
      }
      StoreTextSnoc(records, i);
      out := EncodeRecord(record, out);
      if ByteLen(out) > MAX_FILE_BYTES {
        StoreTextGrows(records, i + 1);
        return Err(StoreOversized);
      }
    }
    assert records[..|records|] == records;
    if ByteLen(out) > MAX_FILE_BYTES {
      return Err(StoreOversized);
    }
    return Ok(out);
  }

  // ---------- parsing

  predicate ValidOutcome(outcome: string) {
    outcome == "grounded" || outcome == "miss" || outcome == "partial_unanchored" || outcome == "unavailable"
  }

  /** A record that is being read. */
  datatype Draft = Draft(record: Record, seenRequest: bool, seenOutcome: bool)

  const EMPTY := Draft(Record("", [], "", [], [], []), false, false)

  /** The records read so far and the one being read. */
  datatype Reading = Reading(done: seq<Record>, current: Option<Draft>)

  function Finish(d: Draft): Result<Record, EvidenceError> {
    if !d.seenRequest || !d.seenOutcome || d.record.roots == [] || |d.record.roots| > MAX_ROOTS
       || |d.record.rankings| > MAX_RANKINGS || !ValidOutcome(d.record.outcome)
    then Err(StoreCorrupt) else Ok(d.record)
  }

  /** The records once the one being read is closed. */
  function Close(st: Reading): Result<seq<Record>, EvidenceError> {
    match st.current
    case None => if |st.done| > MAX_RECORDS then Err(StoreFull) else Ok(st.done)
    case Some(draft) =>
      var record :- Finish(draft);
      if |st.done| + 1 > MAX_RECORDS then Err(StoreFull) else Ok(st.done + [record])
  }

  function Number(s: string, max: nat): Result<nat, EvidenceError> {
    match ParseUnsigned(s, max) case None => Err(StoreCorrupt) case Some(n) => Ok(n)
  }

  function ParseRank(value: string): Result<Ranking, EvidenceError> {
    var parts := Split(value, '\t');
    if |parts| != 11 then Err(StoreCorrupt) else ParseColumns(parts)
  }

  function ParseColumns(parts: seq<string>): Result<Ranking, EvidenceError>
    requires |parts| == 11
  {
    var rank :- Number(parts[0], U64_MAX);
    var bundle :- Unescape(parts[1]);
    var locator :- Unescape(parts[2]);
    var reason :- Unescape(parts[3]);
    var exact :- Number(parts[4], U64_MAX);
    var partial :- Number(parts[5], U64_MAX);
    var active :- Number(parts[6], U8_MAX);
    var canonical :- Number(parts[7], U8_MAX);
    var publicSafe :- Number(parts[8], U8_MAX);
    var confidence :- Number(parts[9], U8_MAX);
    var freshness :- Unescape(parts[10]);
    NumberBound(parts[0], U64_MAX); NumberBound(parts[4], U64_MAX); NumberBound(parts[5], U64_MAX);
    NumberBound(parts[6], U8_MAX); NumberBound(parts[7], U8_MAX); NumberBound(parts[8], U8_MAX); NumberBound(parts[9], U8_MAX);
    Ok(Ranking(rank, bundle, locator, reason, exact, partial, active, canonical, publicSafe, confidence, freshness))
  }

  lemma NumberBound(s: string, max: nat)
    ensures Number(s, max).Ok? ==> Number(s, max).value <= max
  {
  }

  function ReadField(d: Draft, key: string, value: string): Result<Draft, EvidenceError> {
    var r := d.record;
    if key == "request" && !d.seenRequest then
      var request :- Unescape(value);
      if ByteLen(request) > MAX_REQUEST_BYTES then Err(StoreOversized)
      else Ok(d.(record := r.(request := request), seenRequest := true))
    else if key == "root" then
      var root :- Unescape(value);
      Ok(d.(record := r.(roots := r.roots + [root])))
    else if key == "outcome" && !d.seenOutcome then
      var outcome :- Unescape(value);
      Ok(d.(record := r.(outcome := outcome), seenOutcome := true))
    else if key == "matched" then
      var term :- Unescape(value);
      Ok(d.(record := r.(matched := r.matched + [term])))
    else if key == "unmatched" then
      var term :- Unescape(value);
      Ok(d.(record := r.(unmatched := r.unmatched + [term])))
    else if key == "rank" then
      var ranking :- ParseRank(value);
      Ok(d.(record := r.(rankings := r.rankings + [ranking])))
    else Err(StoreCorrupt)
  }

  function ReadLine(st: Reading, line: string): Result<Reading, EvidenceError> {
    if line == "---" then
      var done :- Close(st);
      Ok(Reading(done, Some(EMPTY)))
    else if st.current.None? then Err(StoreCorrupt)
    else
      match SplitOnce(line, '\t')
      case None => Err(StoreCorrupt)
      case Some((key, value)) =>
        var draft :- ReadField(st.current.value, key, value);
        Ok(st.(current := Some(draft)))
  }

  function ReadLines(st: Reading, lines: seq<string>): Result<Reading, EvidenceError>
    decreases lines
  {
    if lines == [] then Ok(st)
    else
      var next :- ReadLine(st, lines[0]);
      ReadLines(next, lines[1..])
  }

  /** Reading all lines and closing the last record. */
  function ReadAll(st: Reading, lines: seq<string>): Result<seq<Record>, EvidenceError> {
    var last :- ReadLines(st, lines);
    Close(last)
  }

  function Parse(text: string): Result<seq<Record>, EvidenceError> {
    var lines := Lines(text);
    if lines == [] || lines[0] != VERSION then Err(StoreCorrupt) else ReadAll(Reading([], None), lines[1..])
  }

  method ParseEvidenceStore(text: string) returns (r: Result<seq<Record>, EvidenceError>)
    ensures r == Parse(text)
  {
    var lines := Lines(text);
    if lines == [] || lines[0] != VERSION {
      return Err(StoreCorrupt);
    }
    var records: seq<Record> := [];
    var current: Option<Draft> := None;
    var i := 1;
    while i < |lines|
      invariant 1 <= i <= |lines|
      invariant ReadAll(Reading(records, current), lines[i..]) == Parse(text)
    {
      var line := lines[i];
      assert lines[i..][0] == line && lines[i..][1..] == lines[i + 1..];
      i := i + 1;
      if line == "---" {
        if current.Some? {
          var record := Finish(current.value);
          if record.Err? {
            return Err(record.error);
          }
          records := records + [record.value];
        }
        if |records| > MAX_RECORDS {
          return Err(StoreFull);
        }
        current := Some(EMPTY);
        continue;
      }
      if current.None? {
        return Err(StoreCorrupt);
      }
      var field := SplitOnce(line, '\t');
      if field.None? {
        return Err(StoreCorrupt);
      }
      var draft := ReadField(current.value, field.value.0, field.value.1);
      if draft.Err? {
        return Err(draft.error);
      }
      current := Some(draft.value);
    }
    if current.Some? {
      var record := Finish(current.value);
      if record.Err? {
        return Err(record.error);
      }
      records := records + [record.value];
    }
    if |records| > MAX_RECORDS {
      return Err(StoreFull);
    }
    return Ok(records);
  }
}
