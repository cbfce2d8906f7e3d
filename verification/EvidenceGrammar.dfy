/** Which texts the parser of the evidence file accepts, and as what, told by the characters of the text. */
module EvidenceGrammar {
  // A text is a version line, and for every record a line of three dashes and then lines that
  // each hold a key, a tab and a value, in any order.

  import opened Common
  import opened Decimal
  import opened EvidenceCodec
  import opened Ordering
  import opened Text
  import R = EvidenceRoundTrip

  // ---------- characters

  /** The escapes, one by one; every other character stands for itself. */
  lemma EscapesExactly(c: char)
    ensures Escape("\\") == "\\\\" && Escape("\n") == "\\n" && Escape("\r") == "\\r" && Escape("\t") == "\\t"
    ensures c != '\\' && c != '\n' && c != '\r' && c != '\t' ==> Escape([c]) == [c]
  {
    forall x: char ensures Escape([x]) == EscapeChar(x) {
      assert [x][1..] == "";
    }
    assert ['\\'] == "\\" && ['\n'] == "\n" && ['\r'] == "\r" && ['\t'] == "\t";
  }

  /** Escaping goes character by character. */
  lemma {:induction false} EscapeAppend(a: string, b: string)
    ensures Escape(a + b) == Escape(a) + Escape(b)
  {
    if a == "" {
      assert a + b == b;
    } else {
      EscapeAppend(a[1..], b);
      assert (a + b)[1..] == a[1..] + b;
      assert EscapeChar(a[0]) + (Escape(a[1..]) + Escape(b)) == Escape(a) + Escape(b);
    }
  }

  /** The text stands for the field: character by character, a backslash with the character after it. */
  ghost predicate Denotes(text: string, field: string) {
    if text == "" then field == ""
    else if text[0] != '\\' then field != "" && field[0] == text[0] && Denotes(text[1..], field[1..])
    else
      && |text| > 1 && field != "" && Denotes(text[2..], field[1..])
      && ((text[1] == '\\' && field[0] == '\\') || (text[1] == 'n' && field[0] == '\n')
          || (text[1] == 'r' && field[0] == '\r') || (text[1] == 't' && field[0] == '\t'))
  }

  lemma {:induction false} DecodeExactly(text: string, field: string)
    ensures Decode(text) == Some(field) <==> Denotes(text, field)
    decreases |text|
  {
    if text != "" && (text[0] != '\\' || |text| > 1) {
      var rest := if text[0] != '\\' then text[1..] else text[2..];
      if field != "" {
        DecodeExactly(rest, field[1..]);
        assert field == [field[0]] + field[1..];
      }
      forall c: char, r: string | field == [c] + r ensures field != "" && field[0] == c && field[1..] == r {
      }
    }
  }

  /** The text of a field, which takes at most 4096 bytes. */
  ghost predicate IsField(text: string, field: string) { Denotes(text, field) && ByteLen(field) <= 4096 }

  lemma UnescapeExactly(text: string, field: string)
    ensures Unescape(text) == Ok(field) <==> IsField(text, field)
  {
    DecodeExactly(text, field);
  }

  /** The text of a number: digits, perhaps after a plus sign. */
  ghost predicate IsNumber(text: string, n: nat, max: nat) {
    n <= max && exists digits :: (text == digits || text == "+" + digits) && digits != "" && AllDigits(digits) && Value(digits) == n
  }

  lemma NumberExactly(text: string, n: nat, max: nat)
    ensures Number(text, max) == Ok(n) <==> IsNumber(text, n, max)
  {
    if Number(text, max) == Ok(n) {
      var digits := if text != "" && text[0] == '+' then text[1..] else text;
      assert text == digits || text == "+" + digits;
    }
    if IsNumber(text, n, max) {
      var digits :| (text == digits || text == "+" + digits) && digits != "" && AllDigits(digits) && Value(digits) == n;
      assert IsDigit(digits[0]);
      if text == "+" + digits {
        assert text[1..] == digits;
      }
    }
  }

  /** Eleven columns between tabs. */
  ghost predicate IsRanking(text: string, r: Ranking) {
    exists p: seq<string> :: |p| == 11 && (forall c :: c in p ==> '\t' !in c) && text == Join(p, '\t') && AreColumns(p, r)
  }

  ghost predicate AreColumns(p: seq<string>, r: Ranking)
    requires |p| == 11
  {
    && IsNumber(p[0], r.rank, 0xFFFF_FFFF_FFFF_FFFF) && IsField(p[1], r.bundle) && IsField(p[2], r.locator) && IsField(p[3], r.reason)
    && IsNumber(p[4], r.exact, 0xFFFF_FFFF_FFFF_FFFF) && IsNumber(p[5], r.partial, 0xFFFF_FFFF_FFFF_FFFF)
    && IsNumber(p[6], r.active, 255) && IsNumber(p[7], r.canonical, 255) && IsNumber(p[8], r.publicSafe, 255)
    && IsNumber(p[9], r.confidence, 255) && IsField(p[10], r.freshness)
  }

  lemma ColumnsExactly(p: seq<string>, r: Ranking)
    requires |p| == 11
    ensures ParseColumns(p) == Ok(r) <==> AreColumns(p, r)
  {
    hide IsNumber, IsField, Number, Unescape;
    NumberExactly(p[0], r.rank, U64_MAX);
    NumberExactly(p[4], r.exact, U64_MAX);
    NumberExactly(p[5], r.partial, U64_MAX);
    NumberExactly(p[6], r.active, U8_MAX);
    NumberExactly(p[7], r.canonical, U8_MAX);
    NumberExactly(p[8], r.publicSafe, U8_MAX);
    NumberExactly(p[9], r.confidence, U8_MAX);
    UnescapeExactly(p[1], r.bundle);
    UnescapeExactly(p[2], r.locator);
    UnescapeExactly(p[3], r.reason);
    UnescapeExactly(p[10], r.freshness);
    ColumnsAreRead(p, r);
  }

  lemma ColumnsAreRead(p: seq<string>, r: Ranking)
    requires |p| == 11
    ensures ParseColumns(p) == Ok(r) <==>
              && Number(p[0], U64_MAX) == Ok(r.rank) && Unescape(p[1]) == Ok(r.bundle) && Unescape(p[2]) == Ok(r.locator)
              && Unescape(p[3]) == Ok(r.reason) && Number(p[4], U64_MAX) == Ok(r.exact) && Number(p[5], U64_MAX) == Ok(r.partial)
              && Number(p[6], U8_MAX) == Ok(r.active) && Number(p[7], U8_MAX) == Ok(r.canonical)
              && Number(p[8], U8_MAX) == Ok(r.publicSafe) && Number(p[9], U8_MAX) == Ok(r.confidence)
              && Unescape(p[10]) == Ok(r.freshness)
  {
    hide Number, Unescape;
  }

  lemma RankExactly(text: string, r: Ranking)
    ensures ParseRank(text) == Ok(r) <==> IsRanking(text, r)
  {
    hide AreColumns, ParseColumns, Split, Join;
    var parts := Split(text, '\t');
    JoinSplit(text, '\t');
    if |parts| == 11 {
      ColumnsExactly(parts, r);
    }
    if p: seq<string> :| |p| == 11 && (forall c :: c in p ==> '\t' !in c) && text == Join(p, '\t') && AreColumns(p, r) {
      SplitJoin(p, '\t');
      ColumnsExactly(p, r);
    }
  }

  // ---------- lines

  /** The text is made up of the lines: a line feed ends a line, or a carriage return and a line feed; the last line may lack it. */
  ghost predicate MadeOf(text: string, lines: seq<string>)
    decreases |lines|
  {
    if lines == [] then text == ""
    else
      var first, rest := lines[0], lines[1..];
      && '\n' !in first
      && ((first != "" && rest == [] && text == first)
          || (exists more :: text == first + "\n" + more && (first == "" || first[|first| - 1] != '\r') && MadeOf(more, rest))
          || (exists more :: text == first + "\r\n" + more && MadeOf(more, rest)))
  }

  lemma {:induction false} LinesExactly(text: string, lines: seq<string>)
    ensures Lines(text) == lines <==> MadeOf(text, lines)
    decreases |text|
  {
    var i := Find(text, '\n');
    if i < |text| {
      var raw, after := text[..i], text[i + 1..];
      var first := StripCr(raw);
      assert text == raw + "\n" + after;
      assert raw == first || raw == first + "\r";
      if lines != [] {
        LinesExactly(after, lines[1..]);
        OneLine(text, lines, raw, after);
        assert lines == [lines[0]] + lines[1..];
      }
    } else {
      NoFeed(text, lines);
    }
  }

  lemma OneLine(text: string, lines: seq<string>, raw: string, after: string)
    requires lines != [] && text == raw + "\n" + after && '\n' !in raw
    ensures MadeOf(text, lines) <==> lines[0] == StripCr(raw) && MadeOf(after, lines[1..])
  {
    if MadeOf(text, lines) {
      FirstLineIs(text, lines, raw, after);
    }
    if lines[0] == StripCr(raw) && MadeOf(after, lines[1..]) {
      if raw == lines[0] {
        assert text == lines[0] + "\n" + after;
      } else {
        assert raw == lines[0] + "\r";
        assert text == lines[0] + "\r\n" + after;
      }
    }
  }

  lemma FirstLineIs(text: string, lines: seq<string>, raw: string, after: string)
    requires lines != [] && text == raw + "\n" + after && '\n' !in raw && MadeOf(text, lines)
    ensures lines[0] == StripCr(raw) && MadeOf(after, lines[1..])
  {
    hide StripCr;
    var first, rest := lines[0], lines[1..];
    assert text[|raw|] == '\n';
    assert !(rest == [] && text == first);
    if more :| text == first + "\n" + more && (first == "" || first[|first| - 1] != '\r') && MadeOf(more, rest) {
      PlainEnd(first, more, raw, after);
    } else {
      var more :| text == first + "\r\n" + more && MadeOf(more, rest);
      ReturnEnd(first, more, raw, after);
    }
  }

  lemma PlainEnd(first: string, more: string, raw: string, after: string)
    requires first + "\n" + more == raw + "\n" + after && '\n' !in first && '\n' !in raw
    requires first == "" || first[|first| - 1] != '\r'
    ensures StripCr(raw) == first && more == after
  {
    SameFeed(first, more, raw, after);
  }

  lemma ReturnEnd(first: string, more: string, raw: string, after: string)
    requires first + "\r\n" + more == raw + "\n" + after && '\n' !in first && '\n' !in raw
    ensures StripCr(raw) == first && more == after
  {
    assert first + "\r\n" + more == (first + "\r") + "\n" + more;
    SameFeed(first + "\r", more, raw, after);
  }

  lemma SameFeed(a: string, x: string, b: string, y: string)
    requires a + "\n" + x == b + "\n" + y && '\n' !in a && '\n' !in b
    ensures a == b && x == y
  {
    FindAfter(a, '\n', x);
    FindAfter(b, '\n', y);
    var s, t := a + "\n" + x, b + "\n" + y;
    assert a == s[..|a|] && b == t[..|b|];
    assert x == s[|a| + 1..] && y == t[|b| + 1..];
  }

  lemma NoFeed(text: string, lines: seq<string>)
    requires Find(text, '\n') == |text|
    ensures Lines(text) == lines <==> MadeOf(text, lines)
  {
    assert text[..|text|] == text;
    if lines != [] {
      forall more ensures text != lines[0] + "\n" + more {
        assert (lines[0] + "\n" + more)[|lines[0]|] == '\n';
      }
      forall more ensures text != lines[0] + "\r\n" + more {
        assert (lines[0] + "\r\n" + more)[|lines[0]| + 1] == '\n';
      }
    }
  }

  // ---------- records

  /** What one line says. */
  datatype Item = Request(field: string) | Root(field: string) | Outcome(field: string)
                | MatchedUnit(field: string) | UnmatchedUnit(field: string) | Ranked(ranking: Ranking)

  ghost predicate Says(line: string, item: Item) {
    match item
    case Request(f) => exists v :: line == "request\t" + v && IsField(v, f) && ByteLen(f) <= 4096
    case Root(f) => exists v :: line == "root\t" + v && IsField(v, f)
    case Outcome(f) => exists v :: line == "outcome\t" + v && IsField(v, f)
    case MatchedUnit(f) => exists v :: line == "matched\t" + v && IsField(v, f)
    case UnmatchedUnit(f) => exists v :: line == "unmatched\t" + v && IsField(v, f)
    case Ranked(r) => exists v :: line == "rank\t" + v && IsRanking(v, r)
  }

  /** The ways to pick the items of one kind; `Concat` of one is what it picks, in order. */
  function AsRequest(x: Item): seq<string> { if x.Request? then [x.field] else [] }
  function AsRoot(x: Item): seq<string> { if x.Root? then [x.field] else [] }
  function AsOutcome(x: Item): seq<string> { if x.Outcome? then [x.field] else [] }
  function AsMatched(x: Item): seq<string> { if x.MatchedUnit? then [x.field] else [] }
  function AsUnmatched(x: Item): seq<string> { if x.UnmatchedUnit? then [x.field] else [] }
  function AsRanking(x: Item): seq<Ranking> { if x.Ranked? then [x.ranking] else [] }

  ghost predicate SayTogether(lines: seq<string>, items: seq<Item>) {
    |lines| == |items| && forall i :: 0 <= i < |lines| ==> Says(lines[i], items[i])
  }

  /**
   The lines describe the record: every line says something of it, one gives the request and
   one the outcome, which is a known word; the roots, the units and the rankings come in the
   order of their lines, and the roots are one to eight and the rankings at most 32.
   */
  ghost predicate Describe(lines: seq<string>, r: Record) {
    && (exists items :: SayTogether(lines, items)
          && Concat(AsRequest, items) == [r.request] && Concat(AsRoot, items) == r.roots && Concat(AsOutcome, items) == [r.outcome]
          && Concat(AsMatched, items) == r.matched && Concat(AsUnmatched, items) == r.unmatched
          && Concat(AsRanking, items) == r.rankings)
    && 1 <= |r.roots| <= 8 && |r.rankings| <= 32
    && (r.outcome == "grounded" || r.outcome == "miss" || r.outcome == "partial_unanchored" || r.outcome == "unavailable")
  }

  // ---------- reading one line

  /** The draft does not have yet what may be given only once. */
  ghost predicate Takes(d: Draft, item: Item) { (item.Request? ==> !d.seenRequest) && (item.Outcome? ==> !d.seenOutcome) }

  ghost function Taken(d: Draft, item: Item): Draft {
    var r := d.record;
    match item
    case Request(f) => d.(record := r.(request := f), seenRequest := true)
    case Root(f) => d.(record := r.(roots := r.roots + [f]))
    case Outcome(f) => d.(record := r.(outcome := f), seenOutcome := true)
    case MatchedUnit(f) => d.(record := r.(matched := r.matched + [f]))
    case UnmatchedUnit(f) => d.(record := r.(unmatched := r.unmatched + [f]))
    case Ranked(x) => d.(record := r.(rankings := r.rankings + [x]))
  }

  lemma KeyedLine(done: seq<Record>, d: Draft, key: string, value: string)
    requires '\t' !in key && key + "\t" + value != "---"
    ensures ReadLine(Reading(done, Some(d)), key + "\t" + value) ==
            match ReadField(d, key, value) case Err(e) => Err(e) case Ok(draft) => Ok(Reading(done, Some(draft)))
  {
    SplitOnceAt(key, '\t', value);
  }

  lemma LineReads(done: seq<Record>, d: Draft, line: string, item: Item)
    requires Says(line, item) && Takes(d, item)
    ensures ReadLine(Reading(done, Some(d)), line) == Ok(Reading(done, Some(Taken(d, item))))
  {
    hide IsField, IsRanking, ParseRank, Unescape;
    match item {
      case Request(f) =>
        var v :| line == "request\t" + v && IsField(v, f);
        UnescapeExactly(v, f);
        assert line[0] == 'r' && line == "request" + "\t" + v;
        KeyedLine(done, d, "request", v);
      case Root(f) =>
        var v :| line == "root\t" + v && IsField(v, f);
        UnescapeExactly(v, f);
        assert line[0] == 'r' && line == "root" + "\t" + v;
        KeyedLine(done, d, "root", v);
      case Outcome(f) =>
        var v :| line == "outcome\t" + v && IsField(v, f);
        UnescapeExactly(v, f);
        assert line[0] == 'o' && line == "outcome" + "\t" + v;
        KeyedLine(done, d, "outcome", v);
      case MatchedUnit(f) =>
        var v :| line == "matched\t" + v && IsField(v, f);
        UnescapeExactly(v, f);
        assert line[0] == 'm' && line == "matched" + "\t" + v;
        KeyedLine(done, d, "matched", v);
      case UnmatchedUnit(f) =>
        var v :| line == "unmatched\t" + v && IsField(v, f);
        UnescapeExactly(v, f);
        assert line[0] == 'u' && line == "unmatched" + "\t" + v;
        KeyedLine(done, d, "unmatched", v);
      case Ranked(r) =>
        var v :| line == "rank\t" + v && IsRanking(v, r);
        RankExactly(v, r);
        assert line[0] == 'r' && line == "rank" + "\t" + v;
        KeyedLine(done, d, "rank", v);
    }
  }

  /** The item a line with this key and this value is read as. */
  ghost function ItemOf(key: string, value: string): Item {
    if key == "rank" && ParseRank(value).Ok? then Ranked(ParseRank(value).value)
    else
      var f := match Unescape(value) case Ok(field) => field case Err(_) => "";
      if key == "request" then Request(f) else if key == "root" then Root(f) else if key == "outcome" then Outcome(f)
      else if key == "matched" then MatchedUnit(f) else UnmatchedUnit(f)
  }

  lemma FieldTakes(d: Draft, key: string, value: string)
    requires ReadField(d, key, value).Ok?
    ensures ReadField(d, key, value) == Ok(Taken(d, ItemOf(key, value))) && Takes(d, ItemOf(key, value))
  {
    hide ParseRank, Unescape;
  }

  lemma FieldSays(d: Draft, key: string, value: string)
    requires ReadField(d, key, value).Ok?
    ensures Says(key + "\t" + value, ItemOf(key, value))
  {
    hide IsField, IsRanking, ParseRank, Unescape;
    var line := key + "\t" + value;
    if key == "rank" {
      RankExactly(value, ParseRank(value).value);
      assert line == "rank\t" + value;
    } else {
      UnescapeExactly(value, Unescape(value).value);
      assert key == "request" ==> line == "request\t" + value;
      assert key == "root" ==> line == "root\t" + value;
      assert key == "outcome" ==> line == "outcome\t" + value;
      assert key == "matched" ==> line == "matched\t" + value;
      assert key == "unmatched" ==> line == "unmatched\t" + value;
    }
  }

  lemma LineSays(st: Reading, line: string) returns (item: Item)
    requires st.current.Some? && line != "---" && ReadLine(st, line).Ok?
    ensures Says(line, item) && Takes(st.current.value, item)
    ensures ReadLine(st, line) == Ok(Reading(st.done, Some(Taken(st.current.value, item))))
  {
    hide Says, ReadField, SplitOnce, Takes, Taken, ItemOf;
    SplitOnceExactly(line, '\t');
    var (key, value) := SplitOnce(line, '\t').value;
    item := ItemOf(key, value);
    FieldTakes(st.current.value, key, value);
    FieldSays(st.current.value, key, value);
    assert line == key + "\t" + value;
  }

  // ---------- reading the lines of one record

  ghost function Once(seen: bool, field: string): seq<string> { if seen then [field] else [] }

  /** The draft `e` is `d` with what the items say. */
  ghost predicate Adds(d: Draft, items: seq<Item>, e: Draft) {
    && Once(d.seenRequest, d.record.request) + Concat(AsRequest, items) == Once(e.seenRequest, e.record.request)
    && Once(d.seenOutcome, d.record.outcome) + Concat(AsOutcome, items) == Once(e.seenOutcome, e.record.outcome)
    && (!e.seenRequest ==> e.record.request == d.record.request) && (!e.seenOutcome ==> e.record.outcome == d.record.outcome)
    && e.record.roots == d.record.roots + Concat(AsRoot, items) && e.record.matched == d.record.matched + Concat(AsMatched, items)
    && e.record.unmatched == d.record.unmatched + Concat(AsUnmatched, items)
    && e.record.rankings == d.record.rankings + Concat(AsRanking, items)
  }

  lemma Once3(seen: bool, f: string, more: seq<string>, x: string, after: bool, g: string)
    ensures Once(seen, f) + ([x] + more) == Once(after, g) <==> !seen && after && Once(true, x) + more == Once(after, g)
  {
    assert seen ==> |Once(seen, f) + ([x] + more)| >= 2;
    assert [] + ([x] + more) == [x] + more;
  }

  lemma FirstOf<T>(before: seq<T>, pick: Item -> seq<T>, items: seq<Item>)
    requires items != []
    ensures before + Concat(pick, items) == before + pick(items[0]) + Concat(pick, items[1..])
  {
  }

  lemma NoneOf<T>(before: seq<T>, pick: Item -> seq<T>, items: seq<Item>)
    requires items != [] && pick(items[0]) == []
    ensures before + Concat(pick, items) == before + Concat(pick, items[1..])
  {
  }

  lemma AddsFirst(d: Draft, items: seq<Item>, e: Draft)
    requires items != []
    ensures Adds(d, items, e) <==> Takes(d, items[0]) && Adds(Taken(d, items[0]), items[1..], e)
  {
    hide Concat;
    var x, rest := items[0], items[1..];
    FirstOf(d.record.roots, AsRoot, items);
    FirstOf(d.record.matched, AsMatched, items);
    FirstOf(d.record.unmatched, AsUnmatched, items);
    FirstOf(d.record.rankings, AsRanking, items);
    assert forall s: seq<string> :: s + [] == s;
    assert forall s: seq<Ranking> :: s + [] == s;
    RequestFirst(d, items, e);
    OutcomeFirst(d, items, e);
  }

  lemma RequestFirst(d: Draft, items: seq<Item>, e: Draft)
    requires items != []
    ensures var (x, rest) := (items[0], items[1..]);
            if x.Request? then
              Once(d.seenRequest, d.record.request) + Concat(AsRequest, items) == Once(e.seenRequest, e.record.request) <==>
              !d.seenRequest && e.seenRequest && Once(true, x.field) + Concat(AsRequest, rest) == Once(e.seenRequest, e.record.request)
            else
              Once(d.seenRequest, d.record.request) + Concat(AsRequest, items) == Once(d.seenRequest, d.record.request) + Concat(AsRequest, rest)
  {
    if items[0].Request? {
      Once3(d.seenRequest, d.record.request, Concat(AsRequest, items[1..]), items[0].field, e.seenRequest, e.record.request);
    } else {
      NoneOf(Once(d.seenRequest, d.record.request), AsRequest, items);
    }
  }

  lemma OutcomeFirst(d: Draft, items: seq<Item>, e: Draft)
    requires items != []
    ensures var (x, rest) := (items[0], items[1..]);
            if x.Outcome? then
              Once(d.seenOutcome, d.record.outcome) + Concat(AsOutcome, items) == Once(e.seenOutcome, e.record.outcome) <==>
              !d.seenOutcome && e.seenOutcome && Once(true, x.field) + Concat(AsOutcome, rest) == Once(e.seenOutcome, e.record.outcome)
            else
              Once(d.seenOutcome, d.record.outcome) + Concat(AsOutcome, items) == Once(d.seenOutcome, d.record.outcome) + Concat(AsOutcome, rest)
  {
    if items[0].Outcome? {
      Once3(d.seenOutcome, d.record.outcome, Concat(AsOutcome, items[1..]), items[0].field, e.seenOutcome, e.record.outcome);
    } else {
      NoneOf(Once(d.seenOutcome, d.record.outcome), AsOutcome, items);
    }
  }

  lemma {:induction false} LinesRead(done: seq<Record>, d: Draft, lines: seq<string>, items: seq<Item>, e: Draft)
    requires SayTogether(lines, items) && Adds(d, items, e)
    ensures ReadLines(Reading(done, Some(d)), lines) == Ok(Reading(done, Some(e)))
    decreases lines
  {
    hide Says, ReadLine, Adds, Takes;
    if lines == [] {
      NothingAdded(d, e);
    } else {
      AddsFirst(d, items, e);
      LineReads(done, d, lines[0], items[0]);
      LinesRead(done, Taken(d, items[0]), lines[1..], items[1..], e);
    }
  }

  lemma NothingAdded(d: Draft, e: Draft)
    ensures Adds(d, [], e) <==> d == e
  {
    assert forall s: seq<string> :: s + [] == s;
    assert forall s: seq<Ranking> :: s + [] == s;
  }

  lemma {:induction false} LinesSay(done: seq<Record>, d: Draft, lines: seq<string>) returns (items: seq<Item>)
    requires "---" !in lines && ReadLines(Reading(done, Some(d)), lines).Ok?
    ensures SayTogether(lines, items)
    ensures var last := ReadLines(Reading(done, Some(d)), lines).value;
            last.done == done && last.current.Some? && Adds(d, items, last.current.value)
    decreases lines
  {
    hide Says, ReadLine, Adds, Takes;
    items := [];
    if lines == [] {
      NothingAdded(d, d);
    } else {
      assert lines == [lines[0]] + lines[1..];
      var item := LineSays(Reading(done, Some(d)), lines[0]);
      var more := LinesSay(done, Taken(d, item), lines[1..]);
      items := [item] + more;
      AddsFirst(d, items, ReadLines(Reading(done, Some(d)), lines).value.current.value);
    }
  }

  lemma SaysIsNoRule(lines: seq<string>, items: seq<Item>)
    requires SayTogether(lines, items)
    ensures "---" !in lines
  {
    forall i | 0 <= i < |lines| ensures lines[i] != "---" {
      assert Says(lines[i], items[i]);
    }
  }

  lemma BlockReads(done: seq<Record>, lines: seq<string>, r: Record)
    requires Describe(lines, r)
    ensures "---" !in lines
    ensures ReadLines(Reading(done, Some(EMPTY)), lines) == Ok(Reading(done, Some(Draft(r, true, true))))
    ensures Finish(Draft(r, true, true)) == Ok(r)
  {
    hide Says, ReadLines;
    var items :| SayTogether(lines, items)
      && Concat(AsRequest, items) == [r.request] && Concat(AsRoot, items) == r.roots && Concat(AsOutcome, items) == [r.outcome]
      && Concat(AsMatched, items) == r.matched && Concat(AsUnmatched, items) == r.unmatched
      && Concat(AsRanking, items) == r.rankings;
    SaysIsNoRule(lines, items);
    FromNothing(items, Draft(r, true, true));
    LinesRead(done, EMPTY, lines, items, Draft(r, true, true));
  }

  lemma FromNothing(items: seq<Item>, e: Draft)
    requires e.seenRequest && e.seenOutcome
    ensures Adds(EMPTY, items, e) <==>
              && Concat(AsRequest, items) == [e.record.request] && Concat(AsRoot, items) == e.record.roots
              && Concat(AsOutcome, items) == [e.record.outcome] && Concat(AsMatched, items) == e.record.matched
              && Concat(AsUnmatched, items) == e.record.unmatched && Concat(AsRanking, items) == e.record.rankings
  {
    hide Concat;
    assert forall s: seq<string> :: [] + s == s;
    assert forall s: seq<Ranking> :: [] + s == s;
  }

  lemma BlockSays(done: seq<Record>, lines: seq<string>) returns (r: Record)
    requires "---" !in lines && ReadLines(Reading(done, Some(EMPTY)), lines).Ok?
    requires Close(ReadLines(Reading(done, Some(EMPTY)), lines).value).Ok?
    ensures Close(ReadLines(Reading(done, Some(EMPTY)), lines).value) == Ok(done + [r]) && Describe(lines, r)
  {
    hide Says, ReadLines;
    var items := LinesSay(done, EMPTY, lines);
    var e := ReadLines(Reading(done, Some(EMPTY)), lines).value.current.value;
    r := e.record;
    FromNothing(items, e);
  }

  // ---------- reading a whole text

  function Ruled(block: seq<string>): seq<string> { ["---"] + block }

  ghost predicate DescribeAll(blocks: seq<seq<string>>, records: seq<Record>) {
    |blocks| == |records| && forall i :: 0 <= i < |blocks| ==> Describe(blocks[i], records[i])
  }

  lemma {:induction false} RuleReads(st: Reading, rest: seq<string>)
    ensures ReadAll(st, ["---"] + rest) ==
            match Close(st) case Err(e) => Err(e) case Ok(done) => ReadAll(Reading(done, Some(EMPTY)), rest)
  {
    hide Close;
    assert (["---"] + rest)[1..] == rest;
  }

  lemma {:induction false} LineFirst(st: Reading, line: string, rest: seq<string>)
    ensures ReadAll(st, [line] + rest) == match ReadLine(st, line) case Err(e) => Err(e) case Ok(next) => ReadAll(next, rest)
    ensures ReadLines(st, [line] + rest) == match ReadLine(st, line) case Err(e) => Err(e) case Ok(next) => ReadLines(next, rest)
  {
    hide Close, ReadLine;
    assert ([line] + rest)[1..] == rest;
  }

  lemma NoLinesLeft(st: Reading)
    ensures ReadAll(st, []) == Close(st) && ReadLines(st, []) == Ok(st)
  {
  }

  lemma BlockThen(st: Reading, block: seq<string>, rest: seq<string>)
    requires ReadLines(st, block).Ok?
    ensures ReadAll(st, block + rest) == ReadAll(ReadLines(st, block).value, rest)
  {
    hide Close, ReadLine, ReadLines;
    R.ReadAppend(st, block, rest);
  }

  lemma CloseOne(done: seq<Record>, r: Record)
    requires Finish(Draft(r, true, true)) == Ok(r) && |done| < 32
    ensures Close(Reading(done, Some(Draft(r, true, true)))) == Ok(done + [r])
  {
  }

  lemma {:induction false} BlocksRead(st: Reading, blocks: seq<seq<string>>, records: seq<Record>)
    requires Close(st).Ok? && DescribeAll(blocks, records) && |Close(st).value| + |records| <= 32
    ensures ReadAll(st, Concat(Ruled, blocks)) == Ok(Close(st).value + records)
    decreases blocks
  {
    hide Describe, Finish, Close, ReadAll, ReadLines, ReadLine;
    var done := Close(st).value;
    if blocks == [] {
      NoLinesLeft(st);
      assert done + records == done;
    } else {
      var rest := Concat(Ruled, blocks[1..]);
      var next := Reading(done, Some(Draft(records[0], true, true)));
      BlockReads(done, blocks[0], records[0]);
      assert Concat(Ruled, blocks) == ["---"] + (blocks[0] + rest);
      RuleReads(st, blocks[0] + rest);
      BlockThen(Reading(done, Some(EMPTY)), blocks[0], rest);
      CloseOne(done, records[0]);
      BlocksRead(next, blocks[1..], records[1..]);
      assert done + [records[0]] + records[1..] == done + records;
    }
  }

  /** How lines that could be read break into the rest of one block and whole blocks. */
  lemma {:induction false} BlocksSay(st: Reading, lines: seq<string>)
    returns (body: seq<string>, blocks: seq<seq<string>>, records: seq<Record>)
    requires ReadAll(st, lines).Ok?
    ensures lines == body + Concat(Ruled, blocks) && "---" !in body && DescribeAll(blocks, records)
    ensures ReadLines(st, body).Ok? && Close(ReadLines(st, body).value).Ok?
    ensures ReadAll(st, lines).value == Close(ReadLines(st, body).value).value + records
    decreases lines, 0
  {
    hide Describe, Finish, Close, ReadAll, ReadLines, ReadLine;
    body, blocks, records := [], [], [];
    NoLinesLeft(st);
    if lines == [] {
      assert Close(st).value + [] == Close(st).value;
    } else if lines[0] == "---" {
      assert lines == ["---"] + lines[1..];
      RuleReads(st, lines[1..]);
      blocks, records := BlockFirst(Close(st).value, lines[1..]);
    } else {
      assert lines == [lines[0]] + lines[1..];
      LineFirst(st, lines[0], lines[1..]);
      var inner, more, others := BlocksSay(ReadLine(st, lines[0]).value, lines[1..]);
      body, blocks, records := [lines[0]] + inner, more, others;
      LineFirst(st, lines[0], inner);
      assert lines == [lines[0]] + (inner + Concat(Ruled, more));
    }
  }

  lemma {:induction false} BlockFirst(done: seq<Record>, lines: seq<string>) returns (blocks: seq<seq<string>>, records: seq<Record>)
    requires ReadAll(Reading(done, Some(EMPTY)), lines).Ok?
    ensures ["---"] + lines == Concat(Ruled, blocks) && DescribeAll(blocks, records)
    ensures ReadAll(Reading(done, Some(EMPTY)), lines).value == done + records
    decreases lines, 1
  {
    hide Describe, Finish, Close, ReadAll, ReadLines, ReadLine;
    var inner, more, others := BlocksSay(Reading(done, Some(EMPTY)), lines);
    var r := BlockSays(done, inner);
    blocks, records := [inner] + more, [r] + others;
    assert ["---"] + (inner + Concat(Ruled, more)) == Ruled(inner) + Concat(Ruled, more);
    assert Concat(Ruled, blocks) == Ruled(inner) + Concat(Ruled, blocks[1..]) && blocks[1..] == more;
    assert done + [r] + others == done + records;
  }

  lemma ReadIsShort(st: Reading, lines: seq<string>)
    requires ReadAll(st, lines).Ok?
    ensures |ReadAll(st, lines).value| <= 32
  {
  }

  /** The text is a version line and then the records, each after a line of three dashes. */
  ghost predicate Holds(text: string, records: seq<Record>) {
    |records| <= 32 && exists blocks :: DescribeAll(blocks, records) && MadeOf(text, ["BRAN-QUERY-EVIDENCE/1"] + Concat(Ruled, blocks))
  }

  /** The parser accepts exactly such texts, as the records they hold. */
  lemma ParseExactly(text: string, records: seq<Record>)
    ensures Parse(text) == Ok(records) <==> Holds(text, records)
  {
    hide Describe, MadeOf, Finish, ReadLines;
    LinesExactly(text, Lines(text));
    if Parse(text) == Ok(records) {
      var lines := Lines(text);
      var body, blocks, found := BlocksSay(Reading([], None), lines[1..]);
      ReadIsShort(Reading([], None), lines[1..]);
      NothingBefore(body);
      assert lines == ["BRAN-QUERY-EVIDENCE/1"] + Concat(Ruled, blocks);
      assert [] + found == found;
    }
    if Holds(text, records) {
      var blocks :| DescribeAll(blocks, records) && MadeOf(text, ["BRAN-QUERY-EVIDENCE/1"] + Concat(Ruled, blocks));
      LinesExactly(text, ["BRAN-QUERY-EVIDENCE/1"] + Concat(Ruled, blocks));
      BlocksRead(Reading([], None), blocks, records);
      assert (["BRAN-QUERY-EVIDENCE/1"] + Concat(Ruled, blocks))[1..] == Concat(Ruled, blocks);
      assert [] + records == records;
    }
  }

  lemma NothingBefore(body: seq<string>)
    requires "---" !in body && ReadLines(Reading([], None), body).Ok?
    ensures body == [] && ReadLines(Reading([], None), body) == Ok(Reading([], None))
  {
  }

  // ---------- what was read can be written

  lemma FieldsOf(lines: seq<string>, items: seq<Item>, pick: Item -> seq<string>, fields: seq<string>)
    requires SayTogether(lines, items) && Concat(pick, items) == fields
    requires forall x: Item, f: string :: f in pick(x) ==> !x.Ranked? && x.field == f
    ensures R.AllFit(fields)
  {
    ConcatMembers(pick, items);
    forall k | 0 <= k < |fields| ensures R.Fits(fields[k]) {
      assert fields[k] in fields;
      var x :| x in items && fields[k] in pick(x);
      var i :| 0 <= i < |items| && items[i] == x;
      assert Says(lines[i], x);
    }
  }

  lemma RankingsOf(lines: seq<string>, items: seq<Item>)
    requires SayTogether(lines, items)
    ensures R.RankingsFit(Concat(AsRanking, items))
  {
    var rankings := Concat(AsRanking, items);
    ConcatMembers(AsRanking, items);
    forall k | 0 <= k < |rankings| ensures R.RankingFits(rankings[k]) {
      assert rankings[k] in rankings;
      var x :| x in items && rankings[k] in AsRanking(x);
      var i :| 0 <= i < |items| && items[i] == x;
      assert Says(lines[i], x);
      RankingIsShort(lines[i], x.ranking);
    }
  }

  lemma RankingIsShort(line: string, r: Ranking)
    requires Says(line, Ranked(r))
    ensures R.RankingFits(r)
  {
    hide Denotes, IsNumber;
    var v :| line == "rank\t" + v && IsRanking(v, r);
    var p: seq<string> :| |p| == 11 && (forall c :: c in p ==> '\t' !in c) && v == Join(p, '\t') && AreColumns(p, r);
  }

  lemma DescribedIsStorable(lines: seq<string>, r: Record)
    requires Describe(lines, r)
    ensures Bounded(r) && R.Storable(r)
  {
    hide Says, Concat, R.RankingFits, ByteLen;
    var items :| SayTogether(lines, items)
      && Concat(AsRequest, items) == [r.request] && Concat(AsRoot, items) == r.roots && Concat(AsOutcome, items) == [r.outcome]
      && Concat(AsMatched, items) == r.matched && Concat(AsUnmatched, items) == r.unmatched
      && Concat(AsRanking, items) == r.rankings;
    FieldsOf(lines, items, AsRequest, [r.request]);
    FieldsOf(lines, items, AsRoot, r.roots);
    FieldsOf(lines, items, AsOutcome, [r.outcome]);
    FieldsOf(lines, items, AsMatched, r.matched);
    FieldsOf(lines, items, AsUnmatched, r.unmatched);
    RankingsOf(lines, items);
    assert R.Fits([r.request][0]) && R.Fits([r.outcome][0]);
  }

  /** Whatever text was read, its records can be written again, if they are not too large, and are then read as they were. */
  lemma ParsedIsStorable(text: string, records: seq<Record>)
    requires Parse(text) == Ok(records)
    ensures |records| <= 32 && R.AllStorable(records) && forall i :: 0 <= i < |records| ==> Bounded(records[i])
    ensures Encode(records).Ok? <==> ByteLen(StoreText(records)) <= 65536
    ensures Encode(records).Ok? ==> Parse(Encode(records).value) == Ok(records)
  {
    hide Describe, Bounded, R.Storable, StoreText, ByteLen, Parse;
    ParseExactly(text, records);
    var blocks :| DescribeAll(blocks, records) && MadeOf(text, ["BRAN-QUERY-EVIDENCE/1"] + Concat(Ruled, blocks));
    forall i | 0 <= i < |records| ensures Bounded(records[i]) && R.Storable(records[i]) {
      DescribedIsStorable(blocks[i], records[i]);
    }
    if Encode(records).Ok? {
      R.StoreRoundTrip(records);
    }
  }

  /** The encoder's limits: 32 records, requests of 4096 bytes, 8 roots and 32 rankings each, and 64 KiB of text. */
  lemma EncodeExactly(records: seq<Record>)
    ensures Encode(records).Ok? <==>
              && |records| <= 32 && ByteLen(StoreText(records)) <= 65536
              && forall i :: 0 <= i < |records| ==>
                   ByteLen(records[i].request) <= 4096 && |records[i].roots| <= 8 && |records[i].rankings| <= 32
    ensures Encode(records) == Err(StoreFull) <==> |records| > 32
    ensures Encode(records) != Err(StoreCorrupt)
    ensures Encode(records).Ok? ==> Encode(records).value == StoreText(records)
  {
    hide StoreText, ByteLen;
  }
}
