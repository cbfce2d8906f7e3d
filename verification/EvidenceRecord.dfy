/** The records that queries put into the evidence file, and which of them the file can hold. */
module EvidenceRecord {
  import opened Common
  import opened Decimal
  import opened EvidenceCodec
  import opened EvidenceRoundTrip
  import opened Ordering
  import opened Text
  import R = Ranking
  import S = Scoring
  import T = Tokenizer

  const MAX_LOCATOR_BYTES := 1024
  const MAX_VALUE_BYTES := 256

  /** The fields of a document that a unit of a query can match. */
  const FIELD_NAMES := [
    "path", "body", "title", "tags", "tag", "alias", "aliases", "purpose", "responsibility", "symbol", "implements",
    "validates", "test", "tests", "keyword", "keywords", "okf_status", "status", "public_boundary"]

  function Listed(fields: seq<string>): string { if fields == [] then "" else Join(fields, '+') }

  /** Which fields matched: those with an exact match, or else those with a partial one. */
  function MatchReason(exactFields: seq<string>, partialFields: seq<string>): string {
    if exactFields == [] then "partial:" + Listed(partialFields) else "exact:" + Listed(exactFields)
  }

  /** A ranked document, with the fields that matched. */
  datatype Found = Found(ranking: S.SourceRanking, exactFields: seq<string>, partialFields: seq<string>)

  ghost predicate FieldSet(fields: seq<string>) { Distinct(fields) && forall f :: f in fields ==> f in FIELD_NAMES }

  /**
   What holds of every ranking of a query over `roots`: the graph bounds locators and values,
   and the merged query labels a ranking with its root.
   */
  ghost predicate Ranked(f: Found, roots: seq<string>) {
    && (f.ranking.bundle == "" || f.ranking.bundle in roots)
    && ByteLen(f.ranking.locator) <= MAX_LOCATOR_BYTES && ByteLen(f.ranking.freshness) <= MAX_VALUE_BYTES
    && FieldSet(f.exactFields) && FieldSet(f.partialFields)
  }

  /** Numbers fit their machine types. */
  predicate InRange(s: S.SourceRanking) {
    && s.rank <= U64_MAX && s.exact <= U64_MAX && s.partial <= U64_MAX
    && s.active <= U8_MAX && s.canonical <= U8_MAX && s.publicSafe <= U8_MAX && s.confidence <= U8_MAX
  }

  predicate AllInRange(found: seq<Found>) { forall i :: 0 <= i < |found| ==> InRange(found[i].ranking) }

  ghost predicate AllRanked(found: seq<Found>, roots: seq<string>) {
    AllInRange(found) && forall i :: 0 <= i < |found| ==> Ranked(found[i], roots)
  }

  /** `evidence_ranking_from_source`. */
  function EvidenceRanking(f: Found): Ranking
    requires InRange(f.ranking)
  {
    var s := f.ranking;
    Ranking(s.rank, s.bundle, s.locator, MatchReason(f.exactFields, f.partialFields), s.exact, s.partial,
            s.active, s.canonical, s.publicSafe, s.confidence, s.freshness)
  }

  function OutcomeWord(outcome: R.QueryOutcome): string {
    match outcome
    case Grounded => "grounded"
    case Miss => "miss"
    case PartialUnanchored => "partial_unanchored"
  }

  /** The units, in order, that were matched, or that were not. */
  function Covered(units: seq<string>, matched: set<string>, wanted: bool): seq<string> {
    if units == [] then []
    else (if (units[0] in matched) == wanted then [units[0]] else []) + Covered(units[1..], matched, wanted)
  }

  /** `entities` and `terms` are what the request tokenizes to. */
  ghost predicate Tokenized(alnum: T.CharClass, request: string, entities: seq<string>, terms: seq<string>) {
    && (forall e :: e in entities <==> T.IsUnit(alnum, request, T.Entity(e)))
    && (forall t :: t in terms <==> T.IsUnit(alnum, request, T.Term(t)))
  }

  /** `query_evidence_record`, of a query whose outcome has been decided. */
  function QueryRecord(request: string, roots: seq<string>, entities: seq<string>, terms: seq<string>,
                       matched: set<string>, hasEvidence: bool, found: seq<Found>): Record
    requires AllInRange(found)
  {
    var outcome := R.OutcomeOf((set t | t in terms), (set e | e in entities), matched, hasEvidence);
    Record(request, roots, OutcomeWord(outcome), Covered(entities + terms, matched, true), Covered(entities + terms, matched, false),
           seq(|found|, i requires 0 <= i < |found| => EvidenceRanking(found[i])))
  }

  lemma {:induction false} CoveredExactly(units: seq<string>, matched: set<string>, wanted: bool)
    ensures forall u :: u in Covered(units, matched, wanted) <==> u in units && (u in matched) == wanted
  {
    if units != [] {
      CoveredExactly(units[1..], matched, wanted);
      assert units == [units[0]] + units[1..];
    }
  }

  /** Between them, the two lists hold every unit as often as it is listed. */
  lemma {:induction false} CoveredPartition(units: seq<string>, matched: set<string>)
    ensures multiset(Covered(units, matched, true)) + multiset(Covered(units, matched, false)) == multiset(units)
  {
    if units != [] {
      CoveredPartition(units[1..], matched);
      assert units == [units[0]] + units[1..];
    }
  }

  /** Taking the units of a list takes those of its parts, in order. */
  lemma {:induction false} CoveredAppend(a: seq<string>, b: seq<string>, matched: set<string>, wanted: bool)
    ensures Covered(a + b, matched, wanted) == Covered(a, matched, wanted) + Covered(b, matched, wanted)
  {
    if a == [] {
      assert a + b == b;
    } else {
      var first := if (a[0] in matched) == wanted then [a[0]] else [];
      var rest, more := Covered(a[1..], matched, wanted), Covered(b, matched, wanted);
      CoveredAppend(a[1..], b, matched, wanted);
      assert (a + b)[1..] == a[1..] + b && (a + b)[0] == a[0];
      assert first + (rest + more) == first + rest + more;
    }
  }

  lemma CoveredOne(u: string, matched: set<string>, wanted: bool)
    ensures Covered([u], matched, wanted) == if u in matched <==> wanted then [u] else []
  {
    assert [u][1..] == [];
  }

  /** The record field by field, with the words it says the outcome in. */
  lemma QueryRecordExactly(request: string, roots: seq<string>, entities: seq<string>, terms: seq<string>,
                           matched: set<string>, hasEvidence: bool, found: seq<Found>)
    requires AllInRange(found)
    ensures var r := QueryRecord(request, roots, entities, terms, matched, hasEvidence, found);
            && r.request == request && r.roots == roots && |r.rankings| == |found|
            && (r.outcome == "miss" <==> !hasEvidence)
            && (r.outcome == "grounded" <==> hasEvidence && forall u :: u in entities + terms ==> u in matched)
            && (r.outcome == "partial_unanchored" <==> hasEvidence && exists u :: u in entities + terms && u !in matched)
  {
    assert "miss"[0] == 'm' && "grounded"[0] == 'g' && "partial_unanchored"[0] == 'p';
  }

  /** A recorded ranking has what the document was ranked by, each under its own name, and the fields that matched. */
  lemma RankingExactly(f: Found)
    requires InRange(f.ranking)
    ensures var r, s := EvidenceRanking(f), f.ranking;
            && r.rank == s.rank && r.bundle == s.bundle && r.locator == s.locator && r.exact == s.exact && r.partial == s.partial
            && r.active == s.active && r.canonical == s.canonical && r.publicSafe == s.publicSafe
            && r.confidence == s.confidence && r.freshness == s.freshness
    ensures var reason := EvidenceRanking(f).reason;
            && (f.exactFields != [] ==> reason == "exact:" + Join(f.exactFields, '+'))
            && (f.exactFields == [] && f.partialFields != [] ==> reason == "partial:" + Join(f.partialFields, '+'))
            && (f.exactFields == [] && f.partialFields == [] ==> reason == "partial:")
  {
  }

  lemma UnitsFit(alnum: T.CharClass, request: string, entities: seq<string>, terms: seq<string>)
    requires T.AgreesWithAscii(alnum) && Tokenized(alnum, request, entities, terms) && ByteLen(request) <= MAX_REQUEST_BYTES
    ensures forall u :: u in entities + terms ==> Fits(u)
  {
    forall u | u in entities + terms ensures Fits(u) {
      T.TokenizeFixpoint(alnum, request, if u in entities then T.Entity(u) else T.Term(u));
    }
  }

  lemma FewFields(fields: seq<string>)
    requires FieldSet(fields)
    ensures |fields| <= 19 && forall f :: f in fields ==> |f| <= 15
  {
    DistinctSize(fields, FIELD_NAMES);
  }

  lemma {:induction false} JoinLength(fields: seq<string>)
    requires fields != [] && forall f :: f in fields ==> |f| <= 15
    ensures |Join(fields, '+')| <= 16 * |fields|
  {
    assert fields[0] in fields;
    if |fields| > 1 {
      JoinLength(fields[1..]);
    }
  }

  lemma ReasonFits(exactFields: seq<string>, partialFields: seq<string>)
    requires FieldSet(exactFields) && FieldSet(partialFields)
    ensures Fits(MatchReason(exactFields, partialFields))
  {
    var fields := if exactFields == [] then partialFields else exactFields;
    FewFields(fields);
    if fields != [] {
      JoinLength(fields);
    }
    assert |MatchReason(exactFields, partialFields)| <= 8 + 16 * 19;
  }

  lemma RankingsOfQueryFit(found: seq<Found>, roots: seq<string>, rankings: seq<Ranking>)
    requires AllRanked(found, roots)
    requires |rankings| == |found| && forall i :: 0 <= i < |found| ==> rankings[i] == EvidenceRanking(found[i])
    ensures AllFit(roots) ==> RankingsFit(rankings)
  {
    if AllFit(roots) {
      forall i | 0 <= i < |rankings| ensures RankingFits(rankings[i]) {
        var f := found[i];
        ReasonFits(f.exactFields, f.partialFields);
        if f.ranking.bundle != "" {
          var k :| 0 <= k < |roots| && roots[k] == f.ranking.bundle;
          assert Fits(roots[k]);
        }
      }
    }
  }

  /**
   Of everything a query records, only a root path can be too long for the parser: a record
   that the writer's bounds admit is read back if and only if it names roots and each of them
   takes at most 4096 bytes.
   */
  lemma RecordIsStorable(alnum: T.CharClass, request: string, roots: seq<string>, entities: seq<string>, terms: seq<string>,
                         matched: set<string>, hasEvidence: bool, found: seq<Found>)
    requires T.AgreesWithAscii(alnum) && Tokenized(alnum, request, entities, terms)
    requires AllRanked(found, roots)
    requires Bounded(QueryRecord(request, roots, entities, terms, matched, hasEvidence, found))
    ensures Storable(QueryRecord(request, roots, entities, terms, matched, hasEvidence, found)) <==> roots != [] && AllFit(roots)
  {
    var record := QueryRecord(request, roots, entities, terms, matched, hasEvidence, found);
    UnitsFit(alnum, request, entities, terms);
    CoveredExactly(entities + terms, matched, true);
    CoveredExactly(entities + terms, matched, false);
    forall i | 0 <= i < |record.matched| ensures Fits(record.matched[i]) {
      assert record.matched[i] in record.matched;
    }
    forall i | 0 <= i < |record.unmatched| ensures Fits(record.unmatched[i]) {
      assert record.unmatched[i] in record.unmatched;
    }
    RankingsOfQueryFit(found, roots, record.rankings);
  }

  /** Such a path exists where the platform opens it: a query over it writes a file that cannot be read back. */
  lemma LongRootBreaksFile(alnum: T.CharClass) returns (record: Record)
    ensures Tokenized(alnum, "q", [], []) && record == QueryRecord("q", [LongPath()], [], [], {}, false, []) && Bounded(record)
    ensures Encode([record]).Ok? && Parse(Encode([record]).value).Err?
  {
    record := QueryRecord("q", [LongPath()], [], [], {}, false, []);
    forall i, j | T.MaximalRun(alnum, "q", i, j) ensures T.UnitAt("q", i, j) == T.Dropped {
      assert i == 0 && j == 1 && "q"[0..1] == "q";
      T.TrimFixed("q");
    }
    OverlongRootIsWritten(record);
  }
}
