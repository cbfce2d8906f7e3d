/** The order in which matching anchors of documents are reported. */
module Matches {
  import opened Common
  import opened Ordering

  const MAX_MATCHES := 32

  /** An anchor of a document with its score; `ocr` says its text was recognised from an image. */
  datatype Candidate = Candidate(bundle: string, path: string, id: string, score: nat, ocr: bool)

  /** What identifies a candidate. */
  function KeyOf(c: Candidate): seq<string> { [c.bundle, c.path, c.id] }

  function BundleOf(c: Candidate): string { c.bundle }

  function PathOf(c: Candidate): string { c.path }

  function ScoreOf(c: Candidate): int { c.score }

  predicate IdLeq(a: Candidate, b: Candidate) { StringLeq(a.id, b.id) }

  predicate AtLeast(m: int, n: int) { m >= n }

  /** Bundle, then path, then anchor identifier. */
  function DerivedLeq(): (Candidate, Candidate) -> bool {
    ThenBy(BundleOf, StringLeq, ThenBy(PathOf, StringLeq, IdLeq))
  }

  /** The highest score first. */
  function EmbeddedLeq(): (Candidate, Candidate) -> bool { ThenBy(ScoreOf, AtLeast, DerivedLeq()) }

  lemma Orders()
    ensures TotalPreorder(DerivedLeq()) && TotalPreorder(EmbeddedLeq())
    ensures forall a, b :: DerivedLeq()(a, b) && DerivedLeq()(b, a) ==> KeyOf(a) == KeyOf(b)
    ensures forall a, b :: EmbeddedLeq()(a, b) && EmbeddedLeq()(b, a) ==> KeyOf(a) == KeyOf(b)
  {
    StringOrder();
    assert TotalPreorder(IdLeq) by {
      assert forall a, b :: IdLeq(a, b) == StringLeq(a.id, b.id);
    }
    ThenByPreorder(PathOf, StringLeq, IdLeq);
    ThenByPreorder(BundleOf, StringLeq, ThenBy(PathOf, StringLeq, IdLeq));
    assert TotalOrder(AtLeast);
    ThenByPreorder(ScoreOf, AtLeast, DerivedLeq());
  }

  /**
   The order over the fields: among scored candidates the greater score first, and then the
   lesser bundle, the lesser path and the lesser identifier.
   */
  ghost predicate NoLater(a: Candidate, b: Candidate, scored: bool) {
    if scored && a.score != b.score then a.score > b.score
    else if a.bundle != b.bundle then StringLeq(a.bundle, b.bundle)
    else if a.path != b.path then StringLeq(a.path, b.path)
    else StringLeq(a.id, b.id)
  }

  lemma OrderExactly(a: Candidate, b: Candidate)
    ensures EmbeddedLeq()(a, b) <==> NoLater(a, b, true)
    ensures DerivedLeq()(a, b) <==> NoLater(a, b, false)
  {
    var byPath := ThenBy(PathOf, StringLeq, IdLeq);
    ThenByExactly(PathOf, StringLeq, IdLeq, a, b);
    ThenByExactly(BundleOf, StringLeq, byPath, a, b);
    ThenByExactly(ScoreOf, AtLeast, DerivedLeq(), a, b);
  }

  predicate Embedded(c: Candidate) { c.score > 0 && !c.ocr }

  predicate Derived(c: Candidate) { c.score > 0 && c.ocr }

  function Only(p: Candidate -> bool, candidates: seq<Candidate>): seq<Candidate> {
    Concat((c: Candidate) => if p(c) then [c] else [], candidates)
  }

  type Match = (Candidate, Option<nat>)

  /** Embedded anchors, best first and numbered from one; then the others, without a rank. */
  function AllMatches(candidates: seq<Candidate>): (all: seq<Match>) {
    Numbered(Sort(EmbeddedLeq(), Only(Embedded, candidates))) + Unnumbered(Sort(DerivedLeq(), Only(Derived, candidates)))
  }

  function Numbered(s: seq<Candidate>): (matches: seq<Match>)
    ensures |matches| == |s| && forall i :: 0 <= i < |s| ==> matches[i] == (s[i], Some(i + 1))
  {
    seq(|s|, i requires 0 <= i < |s| => (s[i], Some(i + 1)))
  }

  function Unnumbered(s: seq<Candidate>): (matches: seq<Match>)
    ensures |matches| == |s| && forall i :: 0 <= i < |s| ==> matches[i] == (s[i], None)
  {
    seq(|s|, i requires 0 <= i < |s| => (s[i], None))
  }

  /** Sorts the candidates into two vectors, orders both, and keeps the first 32 matches. */
  method RankMatches(candidates: seq<Candidate>) returns (ordered: seq<Match>, omitted: nat)
    ensures ordered <= AllMatches(candidates) && |ordered| + omitted == |AllMatches(candidates)|
    ensures |ordered| <= 32 && (omitted > 0 ==> |ordered| == 32)
    ensures InOrder(ordered)
  {
    var embedded, derived := [], [];
    for i := 0 to |candidates|
      invariant embedded == Only(Embedded, candidates[..i]) && derived == Only(Derived, candidates[..i])
    {
      var candidate := candidates[i];
      OnlyNext(Embedded, candidates, i);
      OnlyNext(Derived, candidates, i);
      if candidate.score == 0 {
        continue;
      }
      if candidate.ocr {
        derived := derived + [candidate];
      } else {
        embedded := embedded + [candidate];
      }
    }
    assert candidates[..|candidates|] == candidates;
    ordered := Numbered(Sort(EmbeddedLeq(), embedded));
    ordered := ordered + Unnumbered(Sort(DerivedLeq(), derived));
    omitted := if |ordered| > MAX_MATCHES then |ordered| - MAX_MATCHES else 0;
    if |ordered| > MAX_MATCHES {
      ordered := ordered[..MAX_MATCHES];
    }
    MatchesInOrder(candidates);
  }

  lemma OnlyNext(p: Candidate -> bool, candidates: seq<Candidate>, i: nat)
    requires i < |candidates|
    ensures Only(p, candidates[..i + 1]) == Only(p, candidates[..i]) + if p(candidates[i]) then [candidates[i]] else []
  {
    var f := (c: Candidate) => if p(c) then [c] else [];
    assert candidates[..i + 1] == candidates[..i] + [candidates[i]];
    ConcatAppend(f, candidates[..i], [candidates[i]]);
    ConcatOne(f, candidates[i]);
  }

  lemma OnlyExactly(p: Candidate -> bool, candidates: seq<Candidate>)
    ensures forall c :: c in Only(p, candidates) <==> c in candidates && p(c)
  {
    ConcatMembers((c: Candidate) => if p(c) then [c] else [], candidates);
  }

  lemma SortedMembers(p: Candidate -> bool, leq: (Candidate, Candidate) -> bool, candidates: seq<Candidate>, c: Candidate)
    requires TotalPreorder(leq)
    ensures c in Sort(leq, Only(p, candidates)) <==> c in candidates && p(c)
  {
    SortSorts(leq, Only(p, candidates));
    OnlyExactly(p, candidates);
    assert c in Sort(leq, Only(p, candidates)) <==> c in multiset(Only(p, candidates));
  }

  lemma MatchOf(e: seq<Candidate>, d: seq<Candidate>, c: Candidate)
    ensures HasMatch(Numbered(e) + Unnumbered(d), c) <==> c in e || c in d
    ensures HasRank(Numbered(e) + Unnumbered(d), c) <==> c in e
  {
    var all := Numbered(e) + Unnumbered(d);
    if c in e {
      var i :| 0 <= i < |e| && e[i] == c;
      assert all[i] == (c, Some(i + 1));
    }
    if c in d {
      var i :| 0 <= i < |d| && d[i] == c;
      assert all[|e| + i] == (c, None);
    }
  }

  ghost predicate HasMatch(all: seq<Match>, c: Candidate) { exists rank :: (c, rank) in all }

  ghost predicate HasRank(all: seq<Match>, c: Candidate) { exists k :: (c, Some(k)) in all }

  /** Exactly the candidates with a score are matches, and exactly the embedded ones among them have a rank. */
  lemma MatchesExactly(candidates: seq<Candidate>, c: Candidate)
    ensures HasMatch(AllMatches(candidates), c) <==> c in candidates && c.score > 0
    ensures HasRank(AllMatches(candidates), c) <==> c in candidates && c.score > 0 && !c.ocr
  {
    Orders();
    SortedMembers(Embedded, EmbeddedLeq(), candidates, c);
    SortedMembers(Derived, DerivedLeq(), candidates, c);
    MatchOf(Sort(EmbeddedLeq(), Only(Embedded, candidates)), Sort(DerivedLeq(), Only(Derived, candidates)), c);
  }

  /** What was embedded comes before what was recognised; each has its rank from its place, or none. */
  ghost predicate InOrder(all: seq<Match>) {
    && (forall i :: 0 <= i < |all| ==> all[i].1 == if all[i].0.ocr then None else Some(i + 1))
    && (forall i, j :: 0 <= i < j < |all| && all[i].0.ocr ==> all[j].0.ocr)
    && (forall i, j :: 0 <= i < j < |all| && all[i].0.ocr == all[j].0.ocr ==> NoLater(all[i].0, all[j].0, !all[i].0.ocr))
  }

  function CandidateOf(m: Match): seq<Candidate> { [m.0] }

  /** All matches are in order, and so what a limit cuts off comes later; each candidate with a score is there as often as it was. */
  lemma MatchesInOrder(candidates: seq<Candidate>)
    ensures InOrder(AllMatches(candidates))
    ensures forall c: Candidate :: multiset(Concat(CandidateOf, AllMatches(candidates)))[c]
                                   == if c.score > 0 then multiset(candidates)[c] else 0
  {
    hide Sort, Sorted, NoLater, TotalPreorder;
    Orders();
    SortSorts(EmbeddedLeq(), Only(Embedded, candidates));
    SortSorts(DerivedLeq(), Only(Derived, candidates));
    var e, d := Sort(EmbeddedLeq(), Only(Embedded, candidates)), Sort(DerivedLeq(), Only(Derived, candidates));
    forall c: Candidate ensures c in e ==> !c.ocr {
      SortedMembers(Embedded, EmbeddedLeq(), candidates, c);
    }
    forall c: Candidate ensures c in d ==> c.ocr {
      SortedMembers(Derived, DerivedLeq(), candidates, c);
    }
    JoinedInOrder(e, d);
    forall c: Candidate ensures multiset(e + d)[c] == if c.score > 0 then multiset(candidates)[c] else 0 {
      OnlyCounts(Embedded, candidates, c);
      OnlyCounts(Derived, candidates, c);
    }
    FirstsOf(AllMatches(candidates), e + d);
  }

  lemma JoinedInOrder(e: seq<Candidate>, d: seq<Candidate>)
    requires Sorted(EmbeddedLeq(), e) && Sorted(DerivedLeq(), d)
    requires (forall c :: c in e ==> !c.ocr) && (forall c :: c in d ==> c.ocr)
    ensures InOrder(Numbered(e) + Unnumbered(d))
  {
    hide NoLater;
    var all := Numbered(e) + Unnumbered(d);
    assert forall i :: 0 <= i < |all| ==> all[i].0 == if i < |e| then e[i] else d[i - |e|];
    forall i, j | 0 <= i < j < |all| && all[i].0.ocr == all[j].0.ocr ensures NoLater(all[i].0, all[j].0, !all[i].0.ocr) {
      OrderExactly(all[i].0, all[j].0);
    }
  }

  lemma {:induction false} OnlyCounts(p: Candidate -> bool, s: seq<Candidate>, c: Candidate)
    ensures multiset(Only(p, s))[c] == if p(c) then multiset(s)[c] else 0
  {
    if s != [] {
      OnlyCounts(p, s[1..], c);
      assert s == [s[0]] + s[1..];
    }
  }

  lemma {:induction false} FirstsOf(all: seq<Match>, s: seq<Candidate>)
    requires |all| == |s| && forall i :: 0 <= i < |all| ==> all[i].0 == s[i]
    ensures Concat(CandidateOf, all) == s
  {
    if s != [] {
      FirstsOf(all[1..], s[1..]);
    }
  }

  lemma SortedOnly(p: Candidate -> bool, leq: (Candidate, Candidate) -> bool, s: seq<Candidate>, t: seq<Candidate>)
    requires TotalPreorder(leq) && multiset(s) == multiset(t) && DistinctBy(KeyOf, s)
    requires forall a, b :: leq(a, b) && leq(b, a) ==> KeyOf(a) == KeyOf(b)
    ensures Sort(leq, Only(p, s)) == Sort(leq, Only(p, t))
  {
    OnlyExactly(p, s);
    SameKey(s);
    ConcatPermutation((c: Candidate) => if p(c) then [c] else [], s, t);
    SortPermutation(leq, Only(p, s), Only(p, t));
  }

  lemma SameKey(s: seq<Candidate>)
    requires DistinctBy(KeyOf, s)
    ensures forall a, b :: a in s && b in s && KeyOf(a) == KeyOf(b) ==> a == b
  {
  }

  /** The matches do not depend on the order the candidates come in, as long as no two have the same key. */
  lemma MatchesOrderIndependent(s: seq<Candidate>, t: seq<Candidate>)
    requires multiset(s) == multiset(t) && DistinctBy(KeyOf, s)
    ensures AllMatches(s) == AllMatches(t)
  {
    Orders();
    SortedOnly(Embedded, EmbeddedLeq(), s, t);
    SortedOnly(Derived, DerivedLeq(), s, t);
  }
}
