/** Ordering, suppressing and merging the candidates of one or several roots, and the outcome a caller is given. */
module Ranking {
  import opened Common
  import opened Ordering
  import opened Scoring
  import opened Tokenizer

  const QUERY_RESULT_LIMIT := 32

  type Order = (SourceRanking, SourceRanking) -> bool

  predicate Descending(x: nat, y: nat) { x >= y }

  predicate StringGeq(a: string, b: string) { StringLeq(b, a) }

  function ExactOf(r: SourceRanking): nat { r.exact }
  function PartialOf(r: SourceRanking): nat { r.partial }
  function ActiveOf(r: SourceRanking): nat { r.active }
  function CanonicalOf(r: SourceRanking): nat { r.canonical }
  function PublicSafeOf(r: SourceRanking): nat { r.publicSafe }
  function ConfidenceOf(r: SourceRanking): nat { r.confidence }
  function FreshnessOf(r: SourceRanking): string { r.freshness }
  function BundleOf(r: SourceRanking): string { r.bundle }

  predicate ById(a: SourceRanking, b: SourceRanking) { StringLeq(a.id, b.id) }

  /** Better scores first; what is decided last is given. */
  function ScoreOrder(last: Order): Order {
    ThenBy(ExactOf, Descending, ThenBy(PartialOf, Descending, ThenBy(ActiveOf, Descending, ThenBy(CanonicalOf, Descending,
      ThenBy(PublicSafeOf, Descending, ThenBy(ConfidenceOf, Descending, ThenBy(FreshnessOf, StringGeq, last)))))))
  }

  const SINGLE: Order := ScoreOrder(ById)
  const CROSS: Order := ScoreOrder(ThenBy(BundleOf, StringLeq, ById))

  /**
   `a` comes no later than `b`, said of the fields: more exact matches first, then more partial
   ones, and so on down to the fresher label; then, in a merged ranking, the lesser bundle; and
   the lesser id last.
   */
  predicate NoLater(a: SourceRanking, b: SourceRanking, merged: bool) {
    if a.exact != b.exact then a.exact > b.exact
    else if a.partial != b.partial then a.partial > b.partial
    else if a.active != b.active then a.active > b.active
    else if a.canonical != b.canonical then a.canonical > b.canonical
    else if a.publicSafe != b.publicSafe then a.publicSafe > b.publicSafe
    else if a.confidence != b.confidence then a.confidence > b.confidence
    else if a.freshness != b.freshness then StringLeq(b.freshness, a.freshness)
    else if merged && a.bundle != b.bundle then StringLeq(a.bundle, b.bundle)
    else StringLeq(a.id, b.id)
  }

  lemma OrderExactly(a: SourceRanking, b: SourceRanking)
    ensures SINGLE(a, b) <==> NoLater(a, b, false)
    ensures CROSS(a, b) <==> NoLater(a, b, true)
  {
    StringOrder();
    ScoreOrderExactly(ById, a, b);
    ScoreOrderExactly(ThenBy(BundleOf, StringLeq, ById), a, b);
  }

  lemma ScoreOrderExactly(last: Order, a: SourceRanking, b: SourceRanking)
    ensures ScoreOrder(last)(a, b) <==>
              if a.exact != b.exact then a.exact > b.exact
              else if a.partial != b.partial then a.partial > b.partial
              else if a.active != b.active then a.active > b.active
              else if a.canonical != b.canonical then a.canonical > b.canonical
              else if a.publicSafe != b.publicSafe then a.publicSafe > b.publicSafe
              else if a.confidence != b.confidence then a.confidence > b.confidence
              else if a.freshness != b.freshness then StringLeq(b.freshness, a.freshness)
              else last(a, b)
  {
    var f := ThenBy(FreshnessOf, StringGeq, last);
    ThenByExactly(FreshnessOf, StringGeq, last, a, b);
    var e := ThenBy(ConfidenceOf, Descending, f);
    ThenByExactly(ConfidenceOf, Descending, f, a, b);
    var d := ThenBy(PublicSafeOf, Descending, e);
    ThenByExactly(PublicSafeOf, Descending, e, a, b);
    var c := ThenBy(CanonicalOf, Descending, d);
    ThenByExactly(CanonicalOf, Descending, d, a, b);
    var g := ThenBy(ActiveOf, Descending, c);
    ThenByExactly(ActiveOf, Descending, c, a, b);
    var h := ThenBy(PartialOf, Descending, g);
    ThenByExactly(PartialOf, Descending, g, a, b);
    ThenByExactly(ExactOf, Descending, h, a, b);
  }

  lemma ByIdOrder()
    ensures TotalPreorder(ById)
  {
    StringOrder();
  }

  /** A score order only ties what its last order ties, and what has equal scores. */
  lemma ScoreOrderPreorder(last: Order)
    requires TotalPreorder(last)
    ensures TotalPreorder(ScoreOrder(last))
    ensures forall a, b :: ScoreOrder(last)(a, b) && ScoreOrder(last)(b, a) ==> last(a, b) && last(b, a)
  {
    StringOrder();
    var f := ThenBy(FreshnessOf, StringGeq, last);
    ThenByPreorder(FreshnessOf, StringGeq, last);
    var e := ThenBy(ConfidenceOf, Descending, f);
    ThenByPreorder(ConfidenceOf, Descending, f);
    var d := ThenBy(PublicSafeOf, Descending, e);
    ThenByPreorder(PublicSafeOf, Descending, e);
    var c := ThenBy(CanonicalOf, Descending, d);
    ThenByPreorder(CanonicalOf, Descending, d);
    var b := ThenBy(ActiveOf, Descending, c);
    ThenByPreorder(ActiveOf, Descending, c);
    var a := ThenBy(PartialOf, Descending, b);
    ThenByPreorder(PartialOf, Descending, b);
    ThenByPreorder(ExactOf, Descending, a);
  }

  lemma SingleOrder()
    ensures TotalPreorder(SINGLE)
    ensures forall a, b :: SINGLE(a, b) && SINGLE(b, a) ==> a.id == b.id
  {
    ByIdOrder();
    StringOrder();
    ScoreOrderPreorder(ById);
  }

  lemma CrossOrder()
    ensures TotalPreorder(CROSS)
    ensures forall a, b :: CROSS(a, b) && CROSS(b, a) ==> a.id == b.id && a.bundle == b.bundle
  {
    ByIdOrder();
    StringOrder();
    ThenByPreorder(BundleOf, StringLeq, ById);
    ScoreOrderPreorder(ThenBy(BundleOf, StringLeq, ById));
  }

  lemma LevelAgrees<K>(key: SourceRanking -> K, leq: (K, K) -> bool, next: Order, next': Order,
                       a: SourceRanking, b: SourceRanking, a': SourceRanking, b': SourceRanking)
    requires key(a) == key(a') && key(b) == key(b') && next(a, b) == next'(a', b')
    ensures ThenBy(key, leq, next)(a, b) == ThenBy(key, leq, next')(a', b')
  {
  }

  lemma ScoreOrderAgrees(last: Order, last': Order, a: SourceRanking, b: SourceRanking, a': SourceRanking, b': SourceRanking)
    requires last(a, b) == last'(a', b') && a' == a.(bundle := "", rank := 0) && b' == b.(bundle := "", rank := 0)
    ensures ScoreOrder(last)(a, b) == ScoreOrder(last')(a', b')
  {
    var f, f' := ThenBy(FreshnessOf, StringGeq, last), ThenBy(FreshnessOf, StringGeq, last');
    LevelAgrees(FreshnessOf, StringGeq, last, last', a, b, a', b');
    var e, e' := ThenBy(ConfidenceOf, Descending, f), ThenBy(ConfidenceOf, Descending, f');
    LevelAgrees(ConfidenceOf, Descending, f, f', a, b, a', b');
    var d, d' := ThenBy(PublicSafeOf, Descending, e), ThenBy(PublicSafeOf, Descending, e');
    LevelAgrees(PublicSafeOf, Descending, e, e', a, b, a', b');
    var c, c' := ThenBy(CanonicalOf, Descending, d), ThenBy(CanonicalOf, Descending, d');
    LevelAgrees(CanonicalOf, Descending, d, d', a, b, a', b');
    var g, g' := ThenBy(ActiveOf, Descending, c), ThenBy(ActiveOf, Descending, c');
    LevelAgrees(ActiveOf, Descending, c, c', a, b, a', b');
    var h, h' := ThenBy(PartialOf, Descending, g), ThenBy(PartialOf, Descending, g');
    LevelAgrees(PartialOf, Descending, g, g', a, b, a', b');
    LevelAgrees(ExactOf, Descending, h, h', a, b, a', b');
  }

  /** Within one bundle the two orders agree, whatever the bundle is called. */
  lemma OrdersAgree(a: SourceRanking, b: SourceRanking, a': SourceRanking, b': SourceRanking)
    requires a.bundle == b.bundle && a' == a.(bundle := "", rank := 0) && b' == b.(bundle := "", rank := 0)
    ensures CROSS(a, b) == SINGLE(a', b')
  {
    var byBundle := ThenBy(BundleOf, StringLeq, ById);
    assert BundleOf(a) == BundleOf(b) && ById(a, b) == ById(a', b');
    assert byBundle(a, b) == ById(a, b);
    ScoreOrderAgrees(byBundle, ById, a, b, a', b');
  }

  // ---------- suppression

  /** A query that names an entity nothing contains, with nothing else matched at identity level. */
  ghost predicate Suppressed(matches: seq<SourceRanking>, matched: set<string>, entities: set<string>) {
    (exists e :: e in entities && e !in matched) && !(exists m :: m in matches && m.exact > 0)
  }

  method SuppressUnanchored(matches: seq<SourceRanking>, matched: set<string>, entities: set<string>) returns (kept: seq<SourceRanking>)
    ensures kept == if Suppressed(matches, matched, entities) then [] else matches
  {
    if (exists e :: e in entities && e !in matched) && !(exists m :: m in matches && m.exact > 0) {
      return [];
    }
    return matches;
  }

  // ---------- the merged candidates of several roots

  datatype Root = Root(requested: string, docs: seq<Document>)

  ghost function CandidatesOf(terms: set<string>, entities: set<string>): Root -> seq<SourceRanking> {
    (root: Root) => Candidates(root.docs, terms, entities, root.requested)
  }

  ghost function AllCandidates(roots: seq<Root>, terms: set<string>, entities: set<string>): seq<SourceRanking> {
    Concat(CandidatesOf(terms, entities), roots)
  }

  ghost function AllMatched(roots: seq<Root>, terms: set<string>, entities: set<string>): set<string> {
    set u | u in terms + entities && exists root, doc :: root in roots && doc in root.docs && Occurs(doc, u)
  }

  lemma {:induction false} CandidateMembers(docs: seq<Document>, terms: set<string>, entities: set<string>, bundle: string)
    ensures forall m :: m in Candidates(docs, terms, entities, bundle) <==>
              exists doc :: doc in docs && MatchedUnits(doc, terms, entities) != {} && m == RankingOf(doc, terms, entities, bundle)
  {
    if docs != [] {
      var n := |docs| - 1;
      CandidateMembers(docs[..n], terms, entities, bundle);
      assert docs == docs[..n] + [docs[n]];
    }
  }

  lemma EntityIsExact(docs: seq<Document>, terms: set<string>, entities: set<string>, bundle: string, doc: Document, e: string)
    requires e in entities && doc in docs && Occurs(doc, e)
    ensures exists m :: m in Candidates(docs, terms, entities, bundle) && m.exact > 0
  {
    CandidateMembers(docs, terms, entities, bundle);
    ScorePositive(doc, terms, entities);
    assert e in MatchedUnits(doc, terms, entities);
    var m := RankingOf(doc, terms, entities, bundle);
    assert m in Candidates(docs, terms, entities, bundle) && m.exact > 0;
  }

  /** Matching nothing at identity level means matching no entity at all. */
  lemma NoExactNoEntity(docs: seq<Document>, terms: set<string>, entities: set<string>, bundle: string)
    requires !(exists m :: m in Candidates(docs, terms, entities, bundle) && m.exact > 0)
    ensures forall e, doc :: e in entities && doc in docs ==> !Occurs(doc, e)
  {
    forall e, doc | e in entities && doc in docs ensures !Occurs(doc, e) {
      if Occurs(doc, e) {
        EntityIsExact(docs, terms, entities, bundle, doc, e);
      }
    }
  }

  /** Hence a root is suppressed exactly when the query names entities and nothing matches exactly. */
  lemma SuppressedExactly(docs: seq<Document>, terms: set<string>, entities: set<string>, bundle: string)
    ensures Suppressed(Candidates(docs, terms, entities, bundle), Matched(docs, terms, entities), entities) <==>
            entities != {} && !(exists m :: m in Candidates(docs, terms, entities, bundle) && m.exact > 0)
  {
    if entities != {} && !(exists m :: m in Candidates(docs, terms, entities, bundle) && m.exact > 0) {
      NoExactNoEntity(docs, terms, entities, bundle);
      var e :| e in entities;
      assert e !in Matched(docs, terms, entities);
    }
  }

  lemma ExactSomewhere(roots: seq<Root>, terms: set<string>, entities: set<string>)
    ensures (exists m :: m in AllCandidates(roots, terms, entities) && m.exact > 0) <==>
            exists root, m :: root in roots && m in Candidates(root.docs, terms, entities, root.requested) && m.exact > 0
  {
    ConcatMembers(CandidatesOf(terms, entities), roots);
  }

  /** A merged query is suppressed exactly when each of its roots alone is. */
  lemma SuppressionAgrees(roots: seq<Root>, terms: set<string>, entities: set<string>)
    requires roots != []
    ensures Suppressed(AllCandidates(roots, terms, entities), AllMatched(roots, terms, entities), entities) <==>
            forall root :: root in roots ==>
              Suppressed(Candidates(root.docs, terms, entities, root.requested), Matched(root.docs, terms, entities), entities)
  {
    ExactSomewhere(roots, terms, entities);
    forall root | root in roots
      ensures Suppressed(Candidates(root.docs, terms, entities, root.requested), Matched(root.docs, terms, entities), entities) <==>
              entities != {} && !(exists m :: m in Candidates(root.docs, terms, entities, root.requested) && m.exact > 0)
    {
      SuppressedExactly(root.docs, terms, entities, root.requested);
    }
    var first := roots[0];
    assert first in roots;
    if entities != {} && !(exists m :: m in AllCandidates(roots, terms, entities) && m.exact > 0) {
      var e :| e in entities;
      forall root, doc | root in roots && doc in root.docs ensures !Occurs(doc, e) {
        NoExactNoEntity(root.docs, terms, entities, root.requested);
      }
      assert e !in AllMatched(roots, terms, entities);
    }
  }

  // ---------- final rankings

  function Numbered(s: seq<SourceRanking>): (t: seq<SourceRanking>)
    ensures |t| == |s| && forall i :: 0 <= i < |s| ==> t[i] == s[i].(rank := i + 1)
  {
    seq(|s|, i requires 0 <= i < |s| => s[i].(rank := i + 1))
  }

  function Take(s: seq<SourceRanking>, max: nat): seq<SourceRanking> { if |s| <= max then s else s[..max] }

  function Finalized(order: Order, matches: seq<SourceRanking>, max: nat): seq<SourceRanking> {
    Numbered(Take(Sort(order, matches), max))
  }

  /** Sorting, truncating, and numbering in place. */
  method FinalizeSourceRankings(matches: seq<SourceRanking>, max: nat, crossBundle: bool) returns (r: seq<SourceRanking>)
    ensures r == Finalized(if crossBundle then CROSS else SINGLE, matches, max)
    ensures |r| == if |matches| <= max then |matches| else max
    ensures forall i :: 0 <= i < |r| ==> r[i].rank == i + 1
    ensures forall i, j :: 0 <= i < j < |r| ==> NoLater(r[i], r[j], crossBundle)
  {
    var _, _ := FinalizedExactly(matches, max, crossBundle);
    var order := if crossBundle then CROSS else SINGLE;
    SingleOrder();
    CrossOrder();
    SortSorts(order, matches);
    r := Take(Sort(order, matches), max);
    ghost var unnumbered := r;
    for i := 0 to |r|
      invariant |r| == |unnumbered|
      invariant forall j :: 0 <= j < i ==> r[j] == unnumbered[j].(rank := j + 1)
      invariant forall j :: i <= j < |r| ==> r[j] == unnumbered[j]
    {
      r := r[i := r[i].(rank := i + 1)];
    }
    assert r == Numbered(unnumbered);
  }

  /**
   What finalizing does, said of the fields: the candidates in the result are in order and
   numbered from one, and whoever is left out comes no earlier than any of them.
   */
  lemma FinalizedExactly(matches: seq<SourceRanking>, max: nat, merged: bool) returns (kept: seq<SourceRanking>, dropped: seq<SourceRanking>)
    ensures var r := Finalized(if merged then CROSS else SINGLE, matches, max);
            && |r| == |kept| <= max && (dropped != [] ==> |kept| == max)
            && (forall i :: 0 <= i < |r| ==> r[i] == kept[i].(rank := i + 1))
            && (forall i, j :: 0 <= i < j < |r| ==> NoLater(r[i], r[j], merged))
    ensures multiset(kept) + multiset(dropped) == multiset(matches)
    ensures forall x, y :: x in kept && y in dropped ==> NoLater(x, y, merged)
  {
    hide Sort, Sorted, NoLater;
    var order := if merged then CROSS else SINGLE;
    SingleOrder();
    CrossOrder();
    SortSorts(order, matches);
    var all := Sort(order, matches);
    kept := Take(all, max);
    dropped := all[|kept|..];
    assert all == kept + dropped;
    SortedFields(all, merged);
    forall x, y | x in kept && y in dropped ensures NoLater(x, y, merged) {
      var i :| 0 <= i < |kept| && kept[i] == x;
      var j :| 0 <= j < |dropped| && dropped[j] == y;
      assert all[i] == x && all[|kept| + j] == y;
    }
    forall i, j, m, n | 0 <= i < j < |kept| ensures NoLater(kept[i].(rank := m), kept[j].(rank := n), merged) {
      assert kept[i] == all[i] && kept[j] == all[j];
      RankIsNoField(kept[i], kept[j], m, n, merged);
    }
  }

  lemma SortedFields(all: seq<SourceRanking>, merged: bool)
    requires Sorted(if merged then CROSS else SINGLE, all)
    ensures forall i, j :: 0 <= i < j < |all| ==> NoLater(all[i], all[j], merged)
  {
    hide NoLater;
    forall i, j | 0 <= i < j < |all| ensures NoLater(all[i], all[j], merged) {
      OrderExactly(all[i], all[j]);
    }
  }

  lemma RankIsNoField(a: SourceRanking, b: SourceRanking, m: nat, n: nat, merged: bool)
    ensures NoLater(a.(rank := m), b.(rank := n), merged) == NoLater(a, b, merged)
  {
  }

  ghost function Kept(matches: seq<SourceRanking>, matched: set<string>, entities: set<string>): seq<SourceRanking> {
    if Suppressed(matches, matched, entities) then [] else matches
  }

  ghost function SingleRankings(docs: seq<Document>, terms: set<string>, entities: set<string>, max: nat): seq<SourceRanking> {
    Finalized(SINGLE, Kept(Candidates(docs, terms, entities, ""), Matched(docs, terms, entities), entities), max)
  }

  ghost function MultiRankings(roots: seq<Root>, terms: set<string>, entities: set<string>, max: nat): seq<SourceRanking> {
    Finalized(CROSS, Kept(AllCandidates(roots, terms, entities), AllMatched(roots, terms, entities), entities), max)
  }

  /** `source_rankings`: one root. */
  method SourceRankings(alnum: CharClass, docs: seq<Document>, terms: set<string>, entities: set<string>, max: nat)
    returns (rankings: seq<SourceRanking>, matched: set<string>)
    ensures rankings == SingleRankings(docs, terms, entities, max) && matched == Matched(docs, terms, entities)
    ensures |rankings| <= max && forall i, j :: 0 <= i < j < |rankings| ==> NoLater(rankings[i], rankings[j], false)
  {
    var matches;
    matches, matched := ScoreSourceCandidates(alnum, docs, terms, entities);
    matches := SuppressUnanchored(matches, matched, entities);
    rankings := FinalizeSourceRankings(matches, max, false);
  }

  function Requested(root: Root): string { root.requested }

  /** `do_query_multi`: several roots, each only once. */
  method QueryMulti(alnum: CharClass, roots: seq<Root>, terms: set<string>, entities: set<string>)
    returns (r: Result<(seq<SourceRanking>, set<string>), string>)
    ensures r.Ok? <==> DistinctBy(Requested, roots)
    ensures r.Ok? ==> r.value == (MultiRankings(roots, terms, entities, 32), AllMatched(roots, terms, entities))
    ensures r.Ok? ==> |r.value.0| <= 32 && forall i, j :: 0 <= i < j < |r.value.0| ==> NoLater(r.value.0[i], r.value.0[j], true)
  {
    var seen: set<string> := {};
    for i := 0 to |roots|
      invariant seen == set j | 0 <= j < i :: roots[j].requested
      invariant forall j, k :: 0 <= j < k < i ==> Requested(roots[j]) != Requested(roots[k])
    {
      if roots[i].requested in seen {
        return Err(roots[i].requested);
      }
      seen := seen + {roots[i].requested};
    }
    var matches, matched := [], {};
    for i := 0 to |roots|
      invariant matches == AllCandidates(roots[..i], terms, entities)
      invariant matched == AllMatched(roots[..i], terms, entities)
    {
      var rootMatches, rootMatched := ScoreSourceCandidates(alnum, roots[i].docs, terms, entities);
      var tagged := Tag(rootMatches, roots[i].requested);
      RootsNext(roots, i, terms, entities);
      matches, matched := matches + tagged, matched + rootMatched;
    }
    assert roots[..|roots|] == roots;
    matches := SuppressUnanchored(matches, matched, entities);
    var rankings := FinalizeSourceRankings(matches, QUERY_RESULT_LIMIT, true);
    return Ok((rankings, matched));
  }

  function Tag(matches: seq<SourceRanking>, bundle: string): (tagged: seq<SourceRanking>)
    ensures |tagged| == |matches| && forall i :: 0 <= i < |matches| ==> tagged[i] == matches[i].(bundle := bundle)
  {
    seq(|matches|, i requires 0 <= i < |matches| => matches[i].(bundle := bundle))
  }

  lemma {:induction false} TagCandidates(docs: seq<Document>, terms: set<string>, entities: set<string>, bundle: string)
    ensures Tag(Candidates(docs, terms, entities, ""), bundle) == Candidates(docs, terms, entities, bundle)
  {
    if docs != [] {
      TagCandidates(docs[..|docs| - 1], terms, entities, bundle);
    }
  }

  lemma RootsNext(roots: seq<Root>, i: nat, terms: set<string>, entities: set<string>)
    requires i < |roots|
    ensures AllCandidates(roots[..i + 1], terms, entities) ==
            AllCandidates(roots[..i], terms, entities) + Tag(Candidates(roots[i].docs, terms, entities, ""), roots[i].requested)
    ensures AllMatched(roots[..i + 1], terms, entities) == AllMatched(roots[..i], terms, entities) + Matched(roots[i].docs, terms, entities)
  {
    var f := CandidatesOf(terms, entities);
    assert roots[..i + 1] == roots[..i] + [roots[i]];
    ConcatAppend(f, roots[..i], [roots[i]]);
    ConcatOne(f, roots[i]);
    TagCandidates(roots[i].docs, terms, entities, roots[i].requested);
  }

  // ---------- independence of the order of the roots

  ghost predicate UniqueIds(root: Root) {
    forall a, b :: a in root.docs && b in root.docs && a.id == b.id ==> a == b
  }

  lemma CandidatesHaveNoTies(roots: seq<Root>, terms: set<string>, entities: set<string>)
    requires DistinctBy(Requested, roots) && forall root :: root in roots ==> UniqueIds(root)
    ensures NoTies(CROSS, AllCandidates(roots, terms, entities))
  {
    CrossOrder();
    var all := AllCandidates(roots, terms, entities);
    ConcatMembers(CandidatesOf(terms, entities), roots);
    forall x, y | x in all && y in all && x.id == y.id && x.bundle == y.bundle ensures x == y {
      var rx :| rx in roots && x in CandidatesOf(terms, entities)(rx);
      var ry :| ry in roots && y in CandidatesOf(terms, entities)(ry);
      CandidateMembers(rx.docs, terms, entities, rx.requested);
      CandidateMembers(ry.docs, terms, entities, ry.requested);
      SameRoot(roots, rx, ry);
    }
  }

  lemma SameRoot(roots: seq<Root>, a: Root, b: Root)
    requires DistinctBy(Requested, roots) && a in roots && b in roots && a.requested == b.requested
    ensures a == b
  {
    var i :| 0 <= i < |roots| && roots[i] == a;
    var j :| 0 <= j < |roots| && roots[j] == b;
    assert i != j ==> Requested(roots[i]) != Requested(roots[j]);
  }

  /** A merged query depends on the set of its roots, not on their order. */
  lemma MultiOrderIndependent(roots: seq<Root>, others: seq<Root>, terms: set<string>, entities: set<string>, max: nat)
    requires multiset(roots) == multiset(others)
    requires DistinctBy(Requested, roots) && forall root :: root in roots ==> UniqueIds(root)
    ensures MultiRankings(roots, terms, entities, max) == MultiRankings(others, terms, entities, max)
    ensures AllMatched(roots, terms, entities) == AllMatched(others, terms, entities)
  {
    hide Candidates, Sort, Occurs, UniqueIds, DistinctBy;
    var a, b := AllCandidates(roots, terms, entities), AllCandidates(others, terms, entities);
    forall root ensures root in roots <==> root in others {
      assert root in multiset(roots) <==> root in multiset(others);
    }
    ConcatPermutation(CandidatesOf(terms, entities), roots, others);
    forall m ensures m in a <==> m in b {
      assert m in multiset(a) <==> m in multiset(b);
    }
    CandidatesHaveNoTies(roots, terms, entities);
    CrossOrder();
    SortPermutation(CROSS, a, b);
  }

  // ---------- a merged query restricted to one root

  /** The ranking of a given bundle, without the bundle's name and without its rank. */
  function Restrict(bundle: string): SourceRanking -> seq<SourceRanking> {
    (m: SourceRanking) => if m.bundle == bundle then [m.(bundle := "", rank := 0)] else []
  }

  function Restriction(rankings: seq<SourceRanking>, bundle: string): seq<SourceRanking> { Concat(Restrict(bundle), rankings) }

  lemma HeadLeads(bundle: string, s: seq<SourceRanking>)
    requires s != [] && Sorted(CROSS, s) && s[0].bundle == bundle
    ensures forall m :: m in Restriction(s[1..], bundle) ==> SINGLE(s[0].(bundle := "", rank := 0), m)
  {
    var head, others := s[0].(bundle := "", rank := 0), s[1..];
    ConcatMembers(Restrict(bundle), others);
    forall m | m in Restriction(others, bundle) ensures SINGLE(head, m) {
      var y :| y in others && m in Restrict(bundle)(y);
      var k :| 0 <= k < |others| && others[k] == y;
      assert CROSS(s[0], s[k + 1]);
      OrdersAgree(s[0], y, head, m);
    }
  }

  lemma {:induction false} RestrictedSorted(bundle: string, s: seq<SourceRanking>)
    requires Sorted(CROSS, s)
    ensures Sorted(SINGLE, Restriction(s, bundle)) && |Restriction(s, bundle)| <= |s|
  {
    if s != [] {
      var rest := Restriction(s[1..], bundle);
      RestrictedSorted(bundle, s[1..]);
      if s[0].bundle == bundle {
        HeadLeads(bundle, s);
        assert Restriction(s, bundle) == [s[0].(bundle := "", rank := 0)] + rest;
      } else {
        assert Restriction(s, bundle) == rest;
      }
    }
  }

  lemma {:induction false} RestrictSame(docs: seq<Document>, terms: set<string>, entities: set<string>, bundle: string)
    ensures Restriction(Candidates(docs, terms, entities, bundle), bundle) == Candidates(docs, terms, entities, "")
  {
    if docs != [] {
      var n := |docs| - 1;
      RestrictSame(docs[..n], terms, entities, bundle);
      var last := if MatchedUnits(docs[n], terms, entities) != {} then [RankingOf(docs[n], terms, entities, bundle)] else [];
      ConcatAppend(Restrict(bundle), Candidates(docs[..n], terms, entities, bundle), last);
      if last != [] {
        ConcatOne(Restrict(bundle), last[0]);
      }
    }
  }

  lemma {:induction false} RestrictOther(docs: seq<Document>, terms: set<string>, entities: set<string>, bundle: string, other: string)
    requires bundle != other
    ensures Restriction(Candidates(docs, terms, entities, other), bundle) == []
  {
    if docs != [] {
      var n := |docs| - 1;
      RestrictOther(docs[..n], terms, entities, bundle, other);
      var last := if MatchedUnits(docs[n], terms, entities) != {} then [RankingOf(docs[n], terms, entities, other)] else [];
      ConcatAppend(Restrict(bundle), Candidates(docs[..n], terms, entities, other), last);
      if last != [] {
        ConcatOne(Restrict(bundle), last[0]);
      }
    }
  }

  lemma {:induction false} RestrictAll(roots: seq<Root>, root: Root, terms: set<string>, entities: set<string>)
    requires DistinctBy(Requested, roots)
    ensures root in roots ==>
              Restriction(AllCandidates(roots, terms, entities), root.requested) == Candidates(root.docs, terms, entities, "")
    ensures (forall r :: r in roots ==> r.requested != root.requested) ==>
              Restriction(AllCandidates(roots, terms, entities), root.requested) == []
  {
    if roots != [] {
      var first, rest := roots[0], roots[1..];
      var f := CandidatesOf(terms, entities);
      assert roots == [first] + rest;
      forall i, j | 0 <= i < j < |rest| ensures Requested(rest[i]) != Requested(rest[j]) {
        assert Requested(roots[i + 1]) != Requested(roots[j + 1]);
      }
      forall r | r in rest ensures r.requested != first.requested {
        var j :| 0 <= j < |rest| && rest[j] == r;
        assert Requested(roots[0]) != Requested(roots[j + 1]);
      }
      RestrictAll(rest, root, terms, entities);
      ConcatAppend(Restrict(root.requested), f(first), Concat(f, rest));
      if first.requested == root.requested {
        RestrictSame(first.docs, terms, entities, first.requested);
      } else {
        RestrictOther(first.docs, terms, entities, root.requested, first.requested);
      }
    }
  }

  lemma RestrictNumbered(s: seq<SourceRanking>, bundle: string)
    ensures Restriction(Numbered(s), bundle) == Restriction(s, bundle)
  {
    ConcatPointwise(Restrict(bundle), Numbered(s), s);
  }

  lemma {:induction false} RestrictPlain(s: seq<SourceRanking>)
    requires forall m :: m in s ==> m.bundle == "" && m.rank == 0
    ensures Restriction(s, "") == s
  {
    if s != [] {
      RestrictPlain(s[1..]);
      assert s[0] in s;
      assert s == [s[0]] + s[1..];
    }
  }

  lemma OwnHasNoTies(root: Root, terms: set<string>, entities: set<string>)
    requires UniqueIds(root)
    ensures NoTies(SINGLE, Candidates(root.docs, terms, entities, ""))
  {
    SingleOrder();
    CandidateMembers(root.docs, terms, entities, "");
  }

  lemma RestrictedMultiset(roots: seq<Root>, root: Root, terms: set<string>, entities: set<string>)
    requires DistinctBy(Requested, roots) && root in roots
    ensures Sorted(SINGLE, Restriction(Sort(CROSS, AllCandidates(roots, terms, entities)), root.requested))
    ensures multiset(Restriction(Sort(CROSS, AllCandidates(roots, terms, entities)), root.requested)) ==
            multiset(Candidates(root.docs, terms, entities, ""))
  {
    var all := AllCandidates(roots, terms, entities);
    CrossOrder();
    SortSorts(CROSS, all);
    RestrictedSorted(root.requested, Sort(CROSS, all));
    ConcatPermutation(Restrict(root.requested), Sort(CROSS, all), all);
    RestrictAll(roots, root, terms, entities);
  }

  /** The merged order, restricted to one root, is that root's own order. */
  lemma RestrictedOrder(roots: seq<Root>, root: Root, terms: set<string>, entities: set<string>)
    requires DistinctBy(Requested, roots) && root in roots && UniqueIds(root)
    ensures Restriction(Sort(CROSS, AllCandidates(roots, terms, entities)), root.requested) ==
            Sort(SINGLE, Candidates(root.docs, terms, entities, ""))
  {
    var own := Candidates(root.docs, terms, entities, "");
    var restricted := Restriction(Sort(CROSS, AllCandidates(roots, terms, entities)), root.requested);
    RestrictedMultiset(roots, root, terms, entities);
    OwnHasNoTies(root, terms, entities);
    NoTiesMoves(SINGLE, own, restricted);
    SingleOrder();
    SortSorts(SINGLE, own);
    SortedUnique(SINGLE, restricted, Sort(SINGLE, own));
  }

  lemma ShortPrefix(a: seq<SourceRanking>, b: seq<SourceRanking>, max: nat)
    requires a <= b && |a| <= max
    ensures a <= Take(b, max)
  {
  }

  lemma OwnRestriction(docs: seq<Document>, terms: set<string>, entities: set<string>, max: nat)
    requires !Suppressed(Candidates(docs, terms, entities, ""), Matched(docs, terms, entities), entities)
    ensures Restriction(SingleRankings(docs, terms, entities, max), "") == Take(Sort(SINGLE, Candidates(docs, terms, entities, "")), max)
  {
    var own := Candidates(docs, terms, entities, "");
    var taken := Take(Sort(SINGLE, own), max);
    RestrictNumbered(taken, "");
    SingleOrder();
    SortSorts(SINGLE, own);
    CandidateMembers(docs, terms, entities, "");
    forall m | m in taken ensures m.bundle == "" && m.rank == 0 {
      assert m in Sort(SINGLE, own);
      assert m in multiset(Sort(SINGLE, own));
      assert m in own;
    }
    RestrictPlain(taken);
  }

  lemma MergedRestriction(roots: seq<Root>, bundle: string, terms: set<string>, entities: set<string>, max: nat)
    requires !Suppressed(AllCandidates(roots, terms, entities), AllMatched(roots, terms, entities), entities)
    ensures var merged := Sort(CROSS, AllCandidates(roots, terms, entities));
            && Restriction(MultiRankings(roots, terms, entities, max), bundle) == Restriction(Take(merged, max), bundle)
            && Restriction(Take(merged, max), bundle) <= Restriction(merged, bundle)
            && |Restriction(Take(merged, max), bundle)| <= max
  {
    var merged := Sort(CROSS, AllCandidates(roots, terms, entities));
    var taken := Take(merged, max);
    RestrictNumbered(taken, bundle);
    assert taken == merged[..|taken|];
    ConcatPrefix(Restrict(bundle), merged, |taken|);
    CrossOrder();
    SortSorts(CROSS, AllCandidates(roots, terms, entities));
    RestrictedSorted(bundle, taken);
  }

  /** Restricted to one root, a merged query returns a prefix of what that root alone returns. */
  lemma RestrictedIsPrefix(roots: seq<Root>, root: Root, terms: set<string>, entities: set<string>, max: nat)
    requires DistinctBy(Requested, roots) && root in roots && UniqueIds(root)
    requires !Suppressed(AllCandidates(roots, terms, entities), AllMatched(roots, terms, entities), entities)
    requires !Suppressed(Candidates(root.docs, terms, entities, ""), Matched(root.docs, terms, entities), entities)
    ensures Restriction(MultiRankings(roots, terms, entities, max), root.requested) <= Restriction(SingleRankings(root.docs, terms, entities, max), "")
  {
    var merged := Sort(CROSS, AllCandidates(roots, terms, entities));
    var taken := Take(merged, max);
    MergedRestriction(roots, root.requested, terms, entities, max);
    RestrictedOrder(roots, root, terms, entities);
    OwnRestriction(root.docs, terms, entities, max);
    ShortPrefix(Restriction(taken, root.requested), Restriction(merged, root.requested), max);
  }

  // ---------- the semantic outcome

  datatype QueryOutcome = Grounded | Miss | PartialUnanchored

  /** `query_semantic_outcome`, and the matched and unmatched units it reports. */
  method QuerySemanticOutcome(terms: set<string>, entities: set<string>, matched: set<string>, hasEvidence: bool)
    returns (outcome: QueryOutcome, covered: set<string>, unmatched: set<string>)
    ensures covered == (terms + entities) * matched && unmatched == (terms + entities) - matched
    ensures outcome == OutcomeOf(terms, entities, matched, hasEvidence)
  {
    covered := set u | u in terms + entities && u in matched;
    unmatched := set u | u in terms + entities && u !in matched;
    if unmatched == {} {
      forall u | u in terms + entities ensures u in matched {
        assert u !in unmatched;
      }
    }
    outcome := if !hasEvidence then Miss else if unmatched == {} then Grounded else PartialUnanchored;
  }

  function OutcomeOf(terms: set<string>, entities: set<string>, matched: set<string>, hasEvidence: bool): QueryOutcome {
    if !hasEvidence then Miss else if terms + entities <= matched then Grounded else PartialUnanchored
  }

  lemma SomeCandidate(docs: seq<Document>, terms: set<string>, entities: set<string>)
    ensures Candidates(docs, terms, entities, "") != [] <==> Matched(docs, terms, entities) != {}
  {
    var all := Candidates(docs, terms, entities, "");
    CandidateMembers(docs, terms, entities, "");
    if all != [] {
      assert all[0] in all;
      var doc :| doc in docs && MatchedUnits(doc, terms, entities) != {};
      var u :| u in MatchedUnits(doc, terms, entities);
      assert u in Matched(docs, terms, entities);
    }
    if u :| u in Matched(docs, terms, entities) {
      var doc :| doc in docs && Occurs(doc, u);
      assert u in MatchedUnits(doc, terms, entities);
      assert RankingOf(doc, terms, entities, "") in all;
    }
  }

  /**
   What the outcome of a query means, without document evidence. It is grounded exactly when
   the query has units and each of them occurs in some document; it is a miss exactly when
   no unit occurs anywhere, or the query names entities and nothing matches exactly.
   */
  lemma OutcomeMeaning(docs: seq<Document>, terms: set<string>, entities: set<string>)
    ensures var all, matched := Candidates(docs, terms, entities, ""), Matched(docs, terms, entities);
            var outcome := OutcomeOf(terms, entities, matched, SingleRankings(docs, terms, entities, QUERY_RESULT_LIMIT) != []);
            && (outcome == Grounded <==>
                  terms + entities != {} && forall u :: u in terms + entities ==> exists doc :: doc in docs && Occurs(doc, u))
            && (outcome == Miss <==>
                  || (forall u, doc :: u in terms + entities && doc in docs ==> !Occurs(doc, u))
                  || ((exists e :: e in entities && e !in matched) && !(exists m :: m in all && m.exact > 0)))
  {
    var matched := Matched(docs, terms, entities);
    EvidenceExactly(docs, terms, entities);
    MatchedMeaning(docs, terms, entities);
    if matched == {} && terms + entities <= matched {
      assert terms + entities == {};
    }
  }

  /** A root returns rankings exactly when some unit is matched and the query is not suppressed. */
  lemma EvidenceExactly(docs: seq<Document>, terms: set<string>, entities: set<string>)
    ensures SingleRankings(docs, terms, entities, QUERY_RESULT_LIMIT) != [] <==>
            Matched(docs, terms, entities) != {} && !Suppressed(Candidates(docs, terms, entities, ""), Matched(docs, terms, entities), entities)
  {
    var kept := Kept(Candidates(docs, terms, entities, ""), Matched(docs, terms, entities), entities);
    SomeCandidate(docs, terms, entities);
    SingleOrder();
    SortSorts(SINGLE, kept);
  }

  lemma MatchedMeaning(docs: seq<Document>, terms: set<string>, entities: set<string>)
    ensures terms + entities <= Matched(docs, terms, entities) <==>
            forall u :: u in terms + entities ==> exists doc :: doc in docs && Occurs(doc, u)
    ensures Matched(docs, terms, entities) == {} <==> forall u, doc :: u in terms + entities && doc in docs ==> !Occurs(doc, u)
  {
    var matched := Matched(docs, terms, entities);
    if u, doc :| u in terms + entities && doc in docs && Occurs(doc, u) {
      assert u in matched;
    }
    if u :| u in matched {
      assert exists doc :: doc in docs && Occurs(doc, u);
    }
  }

  /** `u` is a term or an entity of the query. */
  ghost predicate UnitOf(alnum: CharClass, text: string, u: string) {
    IsUnit(alnum, text, Term(u)) || IsUnit(alnum, text, Entity(u))
  }

  /** `u` occurs in a document of the root, or the document evidence matched it. */
  ghost predicate Evidenced(docs: seq<Document>, documented: set<string>, u: string) {
    u in documented || exists doc :: doc in docs && Occurs(doc, u)
  }

  /**
   A query of one root, from its text to its outcome; `documented` are the units that the
   document evidence matched. What is reported is said of the text and the documents.
   */
  method Query(alnum: CharClass, text: string, docs: seq<Document>, documented: set<string>)
    returns (rankings: seq<SourceRanking>, outcome: QueryOutcome, covered: set<string>, unmatched: set<string>,
             ghost terms: set<string>, ghost entities: set<string>)
    ensures forall t :: t in terms <==> IsUnit(alnum, text, Term(t))
    ensures forall e :: e in entities <==> IsUnit(alnum, text, Entity(e))
    ensures rankings == SingleRankings(docs, terms, entities, 32)
    ensures forall u :: u in covered <==> UnitOf(alnum, text, u) && Evidenced(docs, documented, u)
    ensures forall u :: u in unmatched <==> UnitOf(alnum, text, u) && !Evidenced(docs, documented, u)
    ensures |rankings| <= 32 && forall i, j :: 0 <= i < j < |rankings| ==> NoLater(rankings[i], rankings[j], false)
    ensures outcome == Miss <==> rankings == [] && documented == {}
    ensures outcome == Grounded <==> unmatched == {} && (covered != {} || documented != {})
  {
    hide Suppressed, Candidates, SingleRankings, IsUnit, Occurs;
    var words, names := QueryTermsAndEntities(alnum, text);
    terms, entities := words, names;
    var matched;
    rankings, matched := SourceRankings(alnum, docs, words, names, QUERY_RESULT_LIMIT);
    matched := matched + documented;
    outcome, covered, unmatched := QuerySemanticOutcome(words, names, matched, rankings != [] || documented != {});
    GroundedExactly(docs, terms, entities, documented, covered, unmatched);
  }

  lemma GroundedExactly(docs: seq<Document>, terms: set<string>, entities: set<string>, documented: set<string>,
                        covered: set<string>, unmatched: set<string>)
    requires var matched := Matched(docs, terms, entities) + documented;
             covered == (terms + entities) * matched && unmatched == (terms + entities) - matched
    ensures var ranked := SingleRankings(docs, terms, entities, QUERY_RESULT_LIMIT) != [];
            OutcomeOf(terms, entities, Matched(docs, terms, entities) + documented, ranked || documented != {}) == Grounded
            <==> unmatched == {} && (covered != {} || documented != {})
  {
    hide SingleRankings;
    AllMatchedRanked(docs, terms, entities);
    if unmatched == {} {
      forall u | u in terms + entities ensures u in covered {
        assert u !in unmatched;
      }
    }
    if documented == {} {
      assert Matched(docs, terms, entities) + documented == Matched(docs, terms, entities);
    }
  }

  /** When units occur and none is missing, nothing is suppressed. */
  lemma AllMatchedRanked(docs: seq<Document>, terms: set<string>, entities: set<string>)
    ensures terms + entities <= Matched(docs, terms, entities) && terms + entities != {} ==>
              SingleRankings(docs, terms, entities, QUERY_RESULT_LIMIT) != []
    ensures Matched(docs, terms, entities) == {} ==> SingleRankings(docs, terms, entities, QUERY_RESULT_LIMIT) == []
  {
    EvidenceExactly(docs, terms, entities);
  }
}
