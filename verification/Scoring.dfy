/** Scoring the documents of one root against the units of a query. */
module Scoring {
  // The nested counting loops are proved against counts of sets, and those against the plain
  // question whether a unit occurs anywhere in a document.

  import opened Common
  import opened Text
  import opened Tokenizer

  /** A Markdown document of the graph, with the facts and the body the scan found. */
  datatype Document = Document(
    id: string, locator: string, ranked: seq<string>, parent: seq<string>, body: Option<string>,
    active: nat, canonical: nat, publicSafe: nat, confidence: nat, freshness: string)

  datatype SourceRanking = SourceRanking(
    bundle: string, id: string, locator: string, rank: nat, exact: nat, partial: nat,
    active: nat, canonical: nat, publicSafe: nat, confidence: nat, freshness: string)

  /** A document has the text `u` in its path, in a queried fact, or in its body. */
  predicate Occurs(doc: Document, u: string) {
    || Contains(Lower(doc.locator), u)
    || (exists v :: v in doc.ranked + doc.parent && Contains(Lower(v), u))
    || (doc.body.Some? && Contains(Lower(doc.body.value), u))
  }

  function LowerAll(values: seq<string>): (lowered: seq<string>)
    ensures |lowered| == |values| && forall i :: 0 <= i < |values| ==> lowered[i] == Lower(values[i])
  {
    seq(|values|, i requires 0 <= i < |values| => Lower(values[i]))
  }

  /** The path and the ranked facts: the fields that can match a term exactly. */
  function Fields(doc: Document): seq<string> { [Lower(doc.locator)] + LowerAll(doc.ranked) }

  function Parents(doc: Document): seq<string> { LowerAll(doc.parent) }

  function Bodies(doc: Document): seq<string> {
    match doc.body case None => [] case Some(body) => [Lower(body)]
  }

  /** The terms that a field contains. */
  ghost function Mentioned(value: string, terms: set<string>): set<string> {
    set t | t in terms && Contains(value, t)
  }

  ghost function MentionedIn(values: seq<string>, terms: set<string>): set<string> {
    set t, v | v in values && t in terms && Contains(v, t) :: t
  }

  /** How many fields are equal to a term. */
  ghost function EqualFields(values: seq<string>, terms: set<string>): nat {
    if values == [] then 0
    else EqualFields(values[..|values| - 1], terms) + if values[|values| - 1] in terms then 1 else 0
  }

  /** How many pairs of a field and a term contained in it, the field not being the term. */
  ghost function ProperMentions(values: seq<string>, terms: set<string>): nat {
    if values == [] then 0
    else ProperMentions(values[..|values| - 1], terms) + |Mentioned(values[|values| - 1], terms) - {values[|values| - 1]}|
  }

  /** How many pairs of a field and a term contained in it. */
  ghost function Mentions(values: seq<string>, terms: set<string>): nat {
    if values == [] then 0
    else Mentions(values[..|values| - 1], terms) + |Mentioned(values[|values| - 1], terms)|
  }

  ghost function MatchedEntities(doc: Document, entities: set<string>): set<string> {
    set e | e in entities && Occurs(doc, e)
  }

  ghost function ExactMatches(doc: Document, terms: set<string>, entities: set<string>): nat {
    |MatchedEntities(doc, entities)| + EqualFields(Fields(doc), terms)
  }

  ghost function PartialMatches(doc: Document, terms: set<string>): nat {
    ProperMentions(Fields(doc), terms) + Mentions(Parents(doc), terms) + Mentions(Bodies(doc), terms)
  }

  /** The units of the query that a document matches. */
  ghost function MatchedUnits(doc: Document, terms: set<string>, entities: set<string>): set<string> {
    set u | u in terms + entities && Occurs(doc, u)
  }

  function Segments(alnum: CharClass, value: string): (parts: seq<string>)
    ensures parts != [] && forall p :: p in parts ==> Contains(value, p)
    decreases |value|
  {
    var i := SegmentEnd(alnum, value);
    assert OccursAt(value, value[..i], 0);
    if i == |value| then
      assert value[..i] == value;
      [value]
    else
      var rest := Segments(alnum, value[i + 1..]);
      assert forall p :: p in rest ==> Contains(value, p) by {
        forall p | p in rest ensures Contains(value, p) {
          ContainsDrop(value, i + 1, p);
        }
      }
      [value[..i]] + rest
  }

  function SegmentEnd(alnum: CharClass, value: string): (i: nat)
    ensures i <= |value|
  {
    if value == "" || !alnum(value[0]) then 0 else 1 + SegmentEnd(alnum, value[1..])
  }

  lemma ContainsDrop(value: string, k: nat, part: string)
    requires k <= |value| && Contains(value[k..], part)
    ensures Contains(value, part)
  {
    var i :| 0 <= i <= |value[k..]| - |part| && OccursAt(value[k..], part, i);
    assert value[k..][i..i + |part|] == value[k + i..k + i + |part|];
    assert OccursAt(value, part, k + i);
  }

  lemma ContainsItself(value: string)
    ensures Contains(value, value)
  {
    assert OccursAt(value, value, 0);
  }

  /** A path segment that is a term is a containment, not an equality. */
  method MatchTerm(alnum: CharClass, isPath: bool, value: string, term: string) returns (equal: bool, contained: bool)
    ensures equal <==> value == term
    ensures contained <==> Contains(value, term)
  {
    if value == term {
      ContainsItself(value);
      return true, true;
    }
    if isPath && term in Segments(alnum, value) {
      return false, true;
    }
    return false, Contains(value, term);
  }

  /** One field against every term. */
  method MatchField(alnum: CharClass, isPath: bool, value: string, terms: set<string>)
    returns (exact: nat, partial: nat, matched: set<string>)
    ensures exact == if value in terms then 1 else 0
    ensures partial == |Mentioned(value, terms) - {value}|
    ensures matched == Mentioned(value, terms)
  {
    exact, partial, matched := 0, 0, {};
    var rest := terms;
    assert terms - rest == {};
    while rest != {}
      invariant rest <= terms && FieldCounted(value, terms - rest, exact, partial, matched)
      decreases rest
    {
      var term :| term in rest;
      FieldNext(value, terms - rest, term, exact, partial, matched);
      assert terms - (rest - {term}) == (terms - rest) + {term};
      var equal, contained := MatchTerm(alnum, isPath, value, term);
      if equal {
        exact, matched := exact + 1, matched + {term};
      } else if contained {
        partial, matched := partial + 1, matched + {term};
      }
      rest := rest - {term};
    }
    assert terms - {} == terms;
  }

  /** The counters once the terms `done` have been looked at. */
  ghost predicate FieldCounted(value: string, done: set<string>, exact: nat, partial: nat, matched: set<string>) {
    && exact == (if value in done then 1 else 0)
    && matched == Mentioned(value, done)
    && partial == |Mentioned(value, done) - {value}|
  }

  lemma FieldNext(value: string, done: set<string>, term: string, exact: nat, partial: nat, matched: set<string>)
    requires FieldCounted(value, done, exact, partial, matched) && term !in done
    ensures value == term ==> FieldCounted(value, done + {term}, exact + 1, partial, matched + {term})
    ensures value != term && Contains(value, term) ==> FieldCounted(value, done + {term}, exact, partial + 1, matched + {term})
    ensures value != term && !Contains(value, term) ==> FieldCounted(value, done + {term}, exact, partial, matched)
  {
    FieldStep(value, done, term);
    ContainsItself(value);
    assert Mentioned(value, done) + {} == Mentioned(value, done);
  }

  lemma FieldStep(value: string, done: set<string>, term: string)
    requires term !in done
    ensures Mentioned(value, done + {term}) == Mentioned(value, done) + if Contains(value, term) then {term} else {}
    ensures term !in Mentioned(value, done)
    ensures |Mentioned(value, done + {term}) - {value}| ==
            |Mentioned(value, done) - {value}| + if Contains(value, term) && term != value then 1 else 0
  {
    var before, after := Mentioned(value, done), Mentioned(value, done + {term});
    assert after == before + if Contains(value, term) then {term} else {};
    if Contains(value, term) && term != value {
      assert after - {value} == (before - {value}) + {term};
    } else {
      assert after - {value} == before - {value};
    }
  }

  method CountIn(value: string, terms: set<string>) returns (count: nat, matched: set<string>)
    ensures matched == Mentioned(value, terms) && count == |matched|
  {
    count, matched := 0, {};
    var rest := terms;
    while rest != {}
      invariant rest <= terms && count == |matched|
      invariant matched == Mentioned(value, terms - rest)
      decreases rest
    {
      var term :| term in rest;
      assert terms - (rest - {term}) == (terms - rest) + {term};
      FieldStep(value, terms - rest, term);
      if Contains(value, term) {
        count, matched := count + 1, matched + {term};
      }
      rest := rest - {term};
    }
    assert terms - {} == terms;
  }

  lemma MentionedNext(values: seq<string>, i: nat, terms: set<string>)
    requires i < |values|
    ensures MentionedIn(values[..i + 1], terms) == MentionedIn(values[..i], terms) + Mentioned(values[i], terms)
    ensures values[..i + 1][..i] == values[..i]
  {
    assert values[..i + 1] == values[..i] + [values[i]];
  }

  /** The path, which comes first, and the ranked facts against the terms. */
  method ScoreFields(alnum: CharClass, values: seq<string>, terms: set<string>)
    returns (exact: nat, partial: nat, matched: set<string>)
    ensures exact == EqualFields(values, terms) && partial == ProperMentions(values, terms)
    ensures matched == MentionedIn(values, terms)
  {
    exact, partial, matched := 0, 0, {};
    for i := 0 to |values|
      invariant exact == EqualFields(values[..i], terms) && partial == ProperMentions(values[..i], terms)
      invariant matched == MentionedIn(values[..i], terms)
    {
      MentionedNext(values, i, terms);
      var e, p, m := MatchField(alnum, i == 0, values[i], terms);
      exact, partial, matched := exact + e, partial + p, matched + m;
    }
    assert values[..|values|] == values;
  }

  method CountMentions(values: seq<string>, terms: set<string>) returns (count: nat, matched: set<string>)
    ensures count == Mentions(values, terms) && matched == MentionedIn(values, terms)
  {
    count, matched := 0, {};
    for i := 0 to |values|
      invariant count == Mentions(values[..i], terms) && matched == MentionedIn(values[..i], terms)
    {
      MentionedNext(values, i, terms);
      var c, m := CountIn(values[i], terms);
      count, matched := count + c, matched + m;
    }
    assert values[..|values|] == values;
  }

  method MatchEntities(doc: Document, entities: set<string>) returns (count: nat, matched: set<string>)
    ensures matched == MatchedEntities(doc, entities) && count == |matched|
  {
    count, matched := 0, {};
    var rest := entities;
    while rest != {}
      invariant rest <= entities && count == |matched| && matched == MatchedEntities(doc, entities - rest)
      decreases rest
    {
      var entity :| entity in rest;
      assert entities - (rest - {entity}) == (entities - rest) + {entity};
      if Occurs(doc, entity) {
        count, matched := count + 1, matched + {entity};
      }
      rest := rest - {entity};
    }
    assert entities - {} == entities;
  }

  /** The score of one document, and the units it matches. */
  method ScoreDocument(alnum: CharClass, doc: Document, terms: set<string>, entities: set<string>)
    returns (exact: nat, partial: nat, matched: set<string>)
    ensures exact == ExactMatches(doc, terms, entities) && partial == PartialMatches(doc, terms)
    ensures matched == MatchedUnits(doc, terms, entities)
    ensures exact + partial > 0 <==> matched != {}
    ensures exact > 0 <==> (exists e :: e in entities && Occurs(doc, e)) || (exists v :: v in Fields(doc) && v in terms)
  {
    var e, em := MatchEntities(doc, entities);
    var fe, fp, fm := ScoreFields(alnum, Fields(doc), terms);
    var pc, pm := CountMentions(Parents(doc), terms);
    var bc, bm := CountMentions(Bodies(doc), terms);
    exact, partial, matched := e + fe, fp + pc + bc, em + fm + pm + bm;
    UnitsMatched(doc, terms, entities);
    ScorePositive(doc, terms, entities);
  }

  lemma UnitsMatched(doc: Document, terms: set<string>, entities: set<string>)
    ensures MatchedUnits(doc, terms, entities) ==
            MatchedEntities(doc, entities) + MentionedIn(Fields(doc), terms) + MentionedIn(Parents(doc), terms) + MentionedIn(Bodies(doc), terms)
  {
    forall u | u in terms
      ensures Occurs(doc, u) <==>
              u in MentionedIn(Fields(doc), terms) || u in MentionedIn(Parents(doc), terms) || u in MentionedIn(Bodies(doc), terms)
    {
      OccursInFields(doc, u);
    }
  }

  lemma OccursInFields(doc: Document, u: string)
    ensures Occurs(doc, u) <==>
            || (exists v :: v in Fields(doc) && Contains(v, u))
            || (exists v :: v in Parents(doc) && Contains(v, u))
            || (exists v :: v in Bodies(doc) && Contains(v, u))
  {
    forall v | v in doc.ranked ensures Lower(v) in Fields(doc) {
      var i :| 0 <= i < |doc.ranked| && doc.ranked[i] == v;
      assert Fields(doc)[i + 1] == Lower(v);
    }
    forall v | v in doc.parent ensures Lower(v) in Parents(doc) {
      var i :| 0 <= i < |doc.parent| && doc.parent[i] == v;
      assert Parents(doc)[i] == Lower(v);
    }
    assert Fields(doc)[0] == Lower(doc.locator);
    if doc.body.Some? {
      assert Lower(doc.body.value) in Bodies(doc);
    }
  }

  lemma FieldPositive(value: string, terms: set<string>)
    ensures value in terms || |Mentioned(value, terms) - {value}| > 0 <==> Mentioned(value, terms) != {}
  {
    ContainsItself(value);
    var here := Mentioned(value, terms);
    if value !in terms {
      assert here - {value} == here;
    } else {
      assert value in here;
    }
  }

  lemma {:induction false} FieldsPositive(values: seq<string>, terms: set<string>)
    ensures EqualFields(values, terms) + ProperMentions(values, terms) > 0 <==> MentionedIn(values, terms) != {}
  {
    if values != [] {
      var n := |values| - 1;
      FieldsPositive(values[..n], terms);
      MentionedNext(values, n, terms);
      FieldPositive(values[n], terms);
      assert values[..n + 1] == values;
    }
  }

  lemma {:induction false} EqualFieldsPositive(values: seq<string>, terms: set<string>)
    ensures EqualFields(values, terms) > 0 <==> exists v :: v in values && v in terms
  {
    if values != [] {
      var n := |values| - 1;
      EqualFieldsPositive(values[..n], terms);
      assert values == values[..n] + [values[n]];
    }
  }

  lemma {:induction false} MentionsPositive(values: seq<string>, terms: set<string>)
    ensures Mentions(values, terms) > 0 <==> MentionedIn(values, terms) != {}
  {
    if values != [] {
      var n := |values| - 1;
      MentionsPositive(values[..n], terms);
      MentionedNext(values, n, terms);
      assert values[..n + 1] == values;
    }
  }

  /** A document is a candidate exactly when it matches some unit of the query. */
  lemma ScorePositive(doc: Document, terms: set<string>, entities: set<string>)
    ensures ExactMatches(doc, terms, entities) + PartialMatches(doc, terms) > 0 <==> MatchedUnits(doc, terms, entities) != {}
    ensures ExactMatches(doc, terms, entities) > 0 <==>
            (exists e :: e in entities && Occurs(doc, e)) || (exists v :: v in Fields(doc) && v in terms)
  {
    UnitsMatched(doc, terms, entities);
    FieldsPositive(Fields(doc), terms);
    EqualFieldsPositive(Fields(doc), terms);
    MentionsPositive(Parents(doc), terms);
    MentionsPositive(Bodies(doc), terms);
    assert |MatchedEntities(doc, entities)| > 0 <==> exists e :: e in entities && Occurs(doc, e) by {
      if e :| e in entities && Occurs(doc, e) {
        assert e in MatchedEntities(doc, entities);
      }
    }
  }

  // ---------- the counts, said of the document

  /** The texts that can match: path and ranked facts first, then the parent facts and the body. */
  function Texts(doc: Document): (texts: seq<string>)
    ensures |texts| == 1 + |doc.ranked| + |doc.parent| + (if doc.body.Some? then 1 else 0)
    ensures texts[0] == doc.locator
    ensures forall k :: 0 <= k < |doc.ranked| ==> texts[1 + k] == doc.ranked[k]
    ensures forall k :: 0 <= k < |doc.parent| ==> texts[1 + |doc.ranked| + k] == doc.parent[k]
    ensures doc.body.Some? ==> texts[|texts| - 1] == doc.body.value
  {
    [doc.locator] + doc.ranked + doc.parent + match doc.body case None => [] case Some(body) => [body]
  }

  /** The places at which a term is the whole of a path or ranked fact, in any case. */
  ghost function Equalities(doc: Document, terms: set<string>): set<nat> {
    set k: nat | 0 <= k <= |doc.ranked| && Lower(Texts(doc)[k]) in terms
  }

  /** The places at which a term is contained otherwise. */
  ghost function Containments(doc: Document, terms: set<string>): set<(nat, string)> {
    set k: nat, t | 0 <= k < |Texts(doc)| && t in terms && Contains(Lower(Texts(doc)[k]), t)
                    && (k > |doc.ranked| || Lower(Texts(doc)[k]) != t) :: (k, t)
  }

  /** Exact matches are the entities that occur and the equalities; partial matches are the containments. */
  lemma CountsExactly(doc: Document, terms: set<string>, entities: set<string>)
    ensures ExactMatches(doc, terms, entities) == |set e | e in entities && Occurs(doc, e)| + |Equalities(doc, terms)|
    ensures PartialMatches(doc, terms) == |Containments(doc, terms)|
  {
    hide Equalities, Containments, MentionPlaces, EqualFields, Mentions, ProperMentions, Fields, Parents, Bodies;
    var fields, parents, bodies := Fields(doc), Parents(doc), Bodies(doc);
    EqualitiesOfFields(doc, terms);
    EqualFieldsExactly(fields, terms);
    var n, m := |fields|, |fields| + |parents|;
    MentionsExactly(fields, terms, 0, true);
    MentionsExactly(parents, terms, n, false);
    MentionsExactly(bodies, terms, m, false);
    PlacesApart(fields, parents, bodies, terms);
    ContainmentsParts(doc, terms);
  }

  lemma EqualitiesOfFields(doc: Document, terms: set<string>)
    ensures Equalities(doc, terms) == set k: nat | 0 <= k < |Fields(doc)| && Fields(doc)[k] in terms
  {
    hide Texts, Lower;
    forall k | 0 <= k <= |doc.ranked| ensures Fields(doc)[k] == Lower(Texts(doc)[k]) {
      if k > 0 {
        assert Texts(doc)[1 + (k - 1)] == doc.ranked[k - 1];
      }
    }
  }

  lemma PlacesApart(fields: seq<string>, parents: seq<string>, bodies: seq<string>, terms: set<string>)
    ensures var n, m := |fields|, |fields| + |parents|;
            var a, b, c := MentionPlaces(fields, terms, 0, true), MentionPlaces(parents, terms, n, false), MentionPlaces(bodies, terms, m, false);
            |a + b + c| == |a| + |b| + |c|
  {
    var n, m := |fields|, |fields| + |parents|;
    var a, b, c := MentionPlaces(fields, terms, 0, true), MentionPlaces(parents, terms, n, false), MentionPlaces(bodies, terms, m, false);
    assert a !! b && (a + b) !! c;
  }

  /** The pairs of a place, counted from `from`, and a term contained there; `proper` ones are not the whole text. */
  ghost function MentionPlaces(values: seq<string>, terms: set<string>, from: nat, proper: bool): set<(nat, string)> {
    set k: nat, t | from <= k < from + |values| && t in terms && Contains(values[k - from], t) && (proper ==> values[k - from] != t) :: (k, t)
  }

  lemma FieldText(doc: Document, k: nat)
    ensures |Fields(doc)| == 1 + |doc.ranked| && |Fields(doc)| <= |Texts(doc)|
    ensures k < |Fields(doc)| ==> Lower(Texts(doc)[k]) == Fields(doc)[k]
  {
    hide Lower, Texts;
    if 0 < k < |Fields(doc)| {
      assert Texts(doc)[1 + (k - 1)] == doc.ranked[k - 1];
    }
  }

  lemma ParentText(doc: Document, k: nat)
    ensures |Parents(doc)| == |doc.parent|
    ensures k < |doc.parent| ==> Lower(Texts(doc)[1 + |doc.ranked| + k]) == Parents(doc)[k]
  {
    hide Lower, Texts;
  }

  lemma BodyText(doc: Document)
    ensures |Bodies(doc)| == (if doc.body.Some? then 1 else 0)
    ensures |Bodies(doc)| == 1 ==> Lower(Texts(doc)[1 + |doc.ranked| + |doc.parent|]) == Bodies(doc)[0]
  {
    hide Lower, Texts;
  }

  lemma TextAt(doc: Document, k: nat)
    requires k < |Texts(doc)|
    ensures var n, m := |Fields(doc)|, |Fields(doc)| + |Parents(doc)|;
            && |Texts(doc)| == m + |Bodies(doc)| && n == 1 + |doc.ranked|
            && Lower(Texts(doc)[k]) == if k < n then Fields(doc)[k] else if k < m then Parents(doc)[k - n] else Bodies(doc)[k - m]
  {
    hide Lower, Texts, Fields, Parents, Bodies;
    var n := 1 + |doc.ranked|;
    FieldText(doc, k);
    ParentText(doc, if k < n then 0 else k - n);
    BodyText(doc);
  }

  lemma ContainmentAt(doc: Document, terms: set<string>, k: nat, t: string)
    ensures var n, m := |Fields(doc)|, |Fields(doc)| + |Parents(doc)|;
            (k, t) in Containments(doc, terms) <==>
              || (k, t) in MentionPlaces(Fields(doc), terms, 0, true) || (k, t) in MentionPlaces(Parents(doc), terms, n, false)
              || (k, t) in MentionPlaces(Bodies(doc), terms, m, false)
  {
    hide Lower, Contains, Texts, Fields, Parents, Bodies;
    if |Texts(doc)| > 0 {
      TextAt(doc, if k < |Texts(doc)| then k else 0);
    }
  }

  lemma ContainmentsParts(doc: Document, terms: set<string>)
    ensures var fields, parents := Fields(doc), Parents(doc);
            Containments(doc, terms) ==
              MentionPlaces(fields, terms, 0, true) + MentionPlaces(parents, terms, |fields|, false)
              + MentionPlaces(Bodies(doc), terms, |fields| + |parents|, false)
  {
    hide Containments, MentionPlaces, Fields, Parents, Bodies;
    forall p: (nat, string) ensures
      p in Containments(doc, terms) <==>
      p in MentionPlaces(Fields(doc), terms, 0, true) + MentionPlaces(Parents(doc), terms, |Fields(doc)|, false)
           + MentionPlaces(Bodies(doc), terms, |Fields(doc)| + |Parents(doc)|, false)
    {
      ContainmentAt(doc, terms, p.0, p.1);
    }
  }

  lemma {:induction false} EqualFieldsExactly(values: seq<string>, terms: set<string>)
    ensures EqualFields(values, terms) == |set k: nat | 0 <= k < |values| && values[k] in terms|
  {
    if values != [] {
      var n := |values| - 1;
      EqualFieldsExactly(values[..n], terms);
      var before := set k: nat | 0 <= k < n && values[..n][k] in terms;
      assert (set k: nat | 0 <= k < |values| && values[k] in terms) == before + (if values[n] in terms then {n} else {});
    }
  }

  ghost function MentionCount(values: seq<string>, terms: set<string>, proper: bool): nat {
    if proper then ProperMentions(values, terms) else Mentions(values, terms)
  }

  lemma MentionCountNext(values: seq<string>, terms: set<string>, proper: bool)
    requires values != []
    ensures MentionCount(values, terms, proper) ==
            MentionCount(values[..|values| - 1], terms, proper) + |LastMentioned(values, terms, proper)|
  {
    hide Mentioned;
    var last := values[|values| - 1];
    assert Mentioned(last, terms) - {} == Mentioned(last, terms);
  }

  ghost function LastMentioned(values: seq<string>, terms: set<string>, proper: bool): set<string>
    requires values != []
  {
    Mentioned(values[|values| - 1], terms) - if proper then {values[|values| - 1]} else {}
  }

  lemma {:induction false} MentionsExactly(values: seq<string>, terms: set<string>, from: nat, proper: bool)
    ensures |MentionPlaces(values, terms, from, proper)| == MentionCount(values, terms, proper)
  {
    if values == [] {
      assert MentionPlaces(values, terms, from, proper) == {};
    } else {
      MentionsExactly(values[..|values| - 1], terms, from, proper);
      MentionsStep(values, terms, from, proper);
    }
  }

  lemma MentionsStep(values: seq<string>, terms: set<string>, from: nat, proper: bool)
    requires values != []
    requires var front := values[..|values| - 1]; |MentionPlaces(front, terms, from, proper)| == MentionCount(front, terms, proper)
    ensures |MentionPlaces(values, terms, from, proper)| == MentionCount(values, terms, proper)
  {
    hide MentionPlaces, MentionCount, LastMentioned, PairedWith;
    var front, at, last := values[..|values| - 1], from + (|values| - 1), LastMentioned(values, terms, proper);
    MentionCountNext(values, terms, proper);
    PairsSize(at, last);
    MentionPlacesNext(values, terms, from, proper, last);
    DisjointSize(MentionPlaces(values, terms, from, proper), MentionPlaces(front, terms, from, proper), PairedWith(at, last));
  }

  lemma DisjointSize<T>(all: set<T>, a: set<T>, b: set<T>)
    requires all == a + b && a !! b
    ensures |all| == |a| + |b|
  {
  }

  lemma MentionPlacesNext(values: seq<string>, terms: set<string>, from: nat, proper: bool, last: set<string>)
    requires values != []
    requires last == LastMentioned(values, terms, proper)
    ensures var n := |values| - 1;
            var before, more := MentionPlaces(values[..n], terms, from, proper), PairedWith(from + n, last);
            MentionPlaces(values, terms, from, proper) == before + more && before !! more
  {
    hide Contains;
    var n := |values| - 1;
    var all, before, more := MentionPlaces(values, terms, from, proper), MentionPlaces(values[..n], terms, from, proper),
        PairedWith(from + n, last);
    forall p | p in all ensures p in before + more {
      if p.0 == from + n {
        assert p.1 in last;
      } else {
        assert values[..n][p.0 - from] == values[p.0 - from];
      }
    }
    forall p | p in before ensures p in all {
      assert values[..n][p.0 - from] == values[p.0 - from];
    }
  }

  ghost function PairedWith(k: nat, terms: set<string>): set<(nat, string)> { set t | t in terms :: (k, t) }

  lemma {:induction false} PairsSize(k: nat, terms: set<string>)
    ensures |PairedWith(k, terms)| == |terms|
  {
    if terms != {} {
      var t :| t in terms;
      PairsSize(k, terms - {t});
      assert PairedWith(k, terms) == PairedWith(k, terms - {t}) + {(k, t)};
    }
  }

  // ---------- all documents of a root

  ghost function RankingOf(doc: Document, terms: set<string>, entities: set<string>, bundle: string): SourceRanking {
    SourceRanking(bundle, doc.id, doc.locator, 0, ExactMatches(doc, terms, entities), PartialMatches(doc, terms),
                  doc.active, doc.canonical, doc.publicSafe, doc.confidence, doc.freshness)
  }

  /** The candidates of a root, in the order of its documents. */
  ghost function Candidates(docs: seq<Document>, terms: set<string>, entities: set<string>, bundle: string): seq<SourceRanking> {
    if docs == [] then []
    else
      var n := |docs| - 1;
      Candidates(docs[..n], terms, entities, bundle)
      + if MatchedUnits(docs[n], terms, entities) != {} then [RankingOf(docs[n], terms, entities, bundle)] else []
  }

  /** The units that some document matches. */
  ghost function Matched(docs: seq<Document>, terms: set<string>, entities: set<string>): set<string> {
    set u | u in terms + entities && exists doc :: doc in docs && Occurs(doc, u)
  }

  lemma MatchedNext(docs: seq<Document>, i: nat, terms: set<string>, entities: set<string>)
    requires i < |docs|
    ensures Matched(docs[..i + 1], terms, entities) == Matched(docs[..i], terms, entities) + MatchedUnits(docs[i], terms, entities)
  {
    assert docs[..i + 1] == docs[..i] + [docs[i]];
  }

  lemma CandidatesNext(docs: seq<Document>, i: nat, terms: set<string>, entities: set<string>, bundle: string)
    requires i < |docs|
    ensures Candidates(docs[..i + 1], terms, entities, bundle) ==
            Candidates(docs[..i], terms, entities, bundle)
            + if MatchedUnits(docs[i], terms, entities) != {} then [RankingOf(docs[i], terms, entities, bundle)] else []
  {
    assert docs[..i + 1][..i] == docs[..i];
  }

  method ScoreSourceCandidates(alnum: CharClass, docs: seq<Document>, terms: set<string>, entities: set<string>)
    returns (matches: seq<SourceRanking>, matched: set<string>)
    ensures matches == Candidates(docs, terms, entities, "")
    ensures matched == Matched(docs, terms, entities)
  {
    matches, matched := [], {};
    for i := 0 to |docs|
      invariant matches == Candidates(docs[..i], terms, entities, "")
      invariant matched == Matched(docs[..i], terms, entities)
    {
      var doc := docs[i];
      MatchedNext(docs, i, terms, entities);
      CandidatesNext(docs, i, terms, entities, "");
      var exact, partial, units := ScoreDocument(alnum, doc, terms, entities);
      var ranking := SourceRanking("", doc.id, doc.locator, 0, exact, partial,
                                   doc.active, doc.canonical, doc.publicSafe, doc.confidence, doc.freshness);
      assert ranking == RankingOf(doc, terms, entities, "");
      if exact + partial > 0 {
        matches := matches + [ranking];
      }
      matched := matched + units;
    }
    assert docs[..|docs|] == docs;
  }
}
