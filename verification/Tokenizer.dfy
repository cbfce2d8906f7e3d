/** Splitting a query into plain terms and high-specificity entities. */
module Tokenizer {
  // Which characters are alphanumeric is left to a parameter that agrees with ASCII on ASCII.

  import opened Text

  type CharClass = char -> bool

  predicate AsciiAlnum(c: char) { '0' <= c <= '9' || 'a' <= c <= 'z' || 'A' <= c <= 'Z' }

  ghost predicate AgreesWithAscii(alnum: CharClass) {
    forall c: char :: c < 128 as char ==> (alnum(c) <==> AsciiAlnum(c))
  }

  predicate IsSeparator(c: char) { c == '-' || c == '_' || c == '.' }

  predicate IsIdentifier(alnum: CharClass, c: char) { alnum(c) || IsSeparator(c) }

  const STOP_WORDS := ["about", "and", "for", "from", "not", "the", "this", "with"]

  function TrimStart(s: string): string {
    if s != "" && IsSeparator(s[0]) then TrimStart(s[1..]) else s
  }

  function TrimEnd(s: string): string {
    if s != "" && IsSeparator(s[|s| - 1]) then TrimEnd(s[..|s| - 1]) else s
  }

  function Trim(s: string): string { TrimEnd(TrimStart(s)) }

  datatype Unit = Dropped | Term(word: string) | Entity(name: string)

  predicate HasSeparator(s: string) { exists i :: 0 <= i < |s| && IsSeparator(s[i]) }

  /** What one run of identifier characters stands for. */
  function Classify(run: string): Unit {
    var trimmed := Trim(run);
    if HasSeparator(trimmed) then (if ByteLen(trimmed) >= 6 then Entity(trimmed) else Dropped)
    else if ByteLen(trimmed) >= 3 && trimmed !in STOP_WORDS then Term(trimmed)
    else Dropped
  }

  /** A run of identifier characters that cannot be extended on either side. */
  ghost predicate MaximalRun(alnum: CharClass, text: string, i: int, j: int) {
    && 0 <= i < j <= |text|
    && (forall k :: i <= k < j ==> IsIdentifier(alnum, text[k]))
    && (i == 0 || !IsIdentifier(alnum, text[i - 1]))
    && (j == |text| || !IsIdentifier(alnum, text[j]))
  }

  function UnitAt(text: string, i: int, j: int): Unit
    requires 0 <= i <= j <= |text|
  {
    Classify(Lower(text[i..j]))
  }

  /** The units of a text are those of its maximal runs. */
  ghost predicate IsUnit(alnum: CharClass, text: string, unit: Unit) {
    exists i, j :: MaximalRun(alnum, text, i, j) && UnitAt(text, i, j) == unit
  }

  ghost predicate IsUnitBefore(alnum: CharClass, text: string, unit: Unit, end: int) {
    exists i, j :: MaximalRun(alnum, text, i, j) && j <= end && UnitAt(text, i, j) == unit
  }

  /** The units of the runs that end no later than `end`. */
  ghost predicate Collected(alnum: CharClass, text: string, terms: set<string>, entities: set<string>, end: int) {
    && (forall t :: t in terms <==> IsUnitBefore(alnum, text, Term(t), end))
    && (forall e :: e in entities <==> IsUnitBefore(alnum, text, Entity(e), end))
  }

  /** Where the runs before the current one end. */
  function RunsBefore(start: nat): int { if start == 0 then 0 else start - 1 }

  /** `run` is what has been read of the run that begins at `start`. */
  ghost predicate InRun(alnum: CharClass, text: string, start: nat, i: nat, run: string) {
    && start <= i <= |text| && run == Lower(text[start..i])
    && (forall k :: start <= k < i ==> IsIdentifier(alnum, text[k]))
    && (start == 0 || !IsIdentifier(alnum, text[start - 1]))
  }

  lemma RunGoesOn(alnum: CharClass, text: string, start: nat, i: nat, run: string)
    requires i < |text| && InRun(alnum, text, start, i, run) && IsIdentifier(alnum, text[i])
    ensures InRun(alnum, text, start, i + 1, run + [LowerChar(text[i])])
  {
    LowerSnoc(text, start, i);
  }

  lemma AllRuns(alnum: CharClass, text: string)
    ensures forall unit :: IsUnitBefore(alnum, text, unit, |text|) <==> IsUnit(alnum, text, unit)
  {
  }

  /** The loop over the characters, with the run read so far. */
  method QueryTermsAndEntities(alnum: CharClass, text: string) returns (terms: set<string>, entities: set<string>)
    ensures forall t :: t in terms <==> IsUnit(alnum, text, Term(t))
    ensures forall e :: e in entities <==> IsUnit(alnum, text, Entity(e))
    ensures forall t :: t in terms <==> IsTerm(alnum, text, t)
    ensures forall e :: e in entities <==> IsEntity(alnum, text, e)
  {
    forall u ensures IsUnit(alnum, text, Entity(u)) <==> IsEntity(alnum, text, u)
      ensures IsUnit(alnum, text, Term(u)) <==> IsTerm(alnum, text, u)
    {
      UnitsExactly(alnum, text, u);
    }
    hide IsEntity, IsTerm;
    terms, entities := {}, {};
    var run := "";
    ghost var start := 0;
    for i := 0 to |text|
      invariant InRun(alnum, text, start, i, run)
      invariant Collected(alnum, text, terms, entities, RunsBefore(start))
    {
      var c := text[i];
      if IsIdentifier(alnum, c) {
        RunGoesOn(alnum, text, start, i, run);
        run := run + [LowerChar(c)];
      } else {
        terms, entities := ClassifyRun(alnum, text, start, i, run, terms, entities);
        run := "";
        start := i + 1;
        assert InRun(alnum, text, start, i + 1, run);
      }
    }
    terms, entities := ClassifyRun(alnum, text, start, |text|, run, terms, entities);
    AllRuns(alnum, text);
  }

  /** One run, read from `start` to `end`, adds its unit. */
  method ClassifyRun(alnum: CharClass, ghost text: string, ghost start: nat, ghost end: nat, run: string, terms: set<string>, entities: set<string>)
    returns (terms': set<string>, entities': set<string>)
    requires InRun(alnum, text, start, end, run)
    requires end == |text| || !IsIdentifier(alnum, text[end])
    requires Collected(alnum, text, terms, entities, RunsBefore(start))
    ensures Collected(alnum, text, terms', entities', end)
  {
    RunsUpTo(alnum, text, start, end);
    terms', entities' := terms, entities;
    if run == "" {
      return;
    }
    match Classify(run)
    case Dropped =>
    case Term(t) => terms' := terms + {t};
    case Entity(e) => entities' := entities + {e};
  }

  lemma LowerSnoc(text: string, start: nat, i: nat)
    requires start <= i < |text|
    ensures Lower(text[start..i + 1]) == Lower(text[start..i]) + [LowerChar(text[i])]
  {
    var a, b := Lower(text[start..i + 1]), Lower(text[start..i]) + [LowerChar(text[i])];
    assert forall k :: 0 <= k < |a| ==> a[k] == b[k];
  }

  lemma OnlyRun(alnum: CharClass, text: string, start: nat, end: nat, i: int, j: int)
    requires start <= end <= |text|
    requires forall k :: start <= k < end ==> IsIdentifier(alnum, text[k])
    requires start == 0 || !IsIdentifier(alnum, text[start - 1])
    requires MaximalRun(alnum, text, i, j) && RunsBefore(start) < j <= end
    ensures i == start && j == end
  {
  }

  /** At the end of a run, the units so far are those before the run and the run's own. */
  lemma RunsUpTo(alnum: CharClass, text: string, start: nat, end: nat)
    requires start <= end <= |text|
    requires forall k :: start <= k < end ==> IsIdentifier(alnum, text[k])
    requires start == 0 || !IsIdentifier(alnum, text[start - 1])
    requires end == |text| || !IsIdentifier(alnum, text[end])
    ensures forall unit :: IsUnitBefore(alnum, text, unit, end) <==>
              IsUnitBefore(alnum, text, unit, RunsBefore(start)) || (start < end && UnitAt(text, start, end) == unit)
  {
    forall i, j | MaximalRun(alnum, text, i, j) && RunsBefore(start) < j <= end ensures i == start && j == end {
      OnlyRun(alnum, text, start, end, i, j);
    }
    if start < end {
      assert MaximalRun(alnum, text, start, end);
    }
  }

  // ---------- what the units are

  lemma {:induction false} TrimStartShape(s: string)
    ensures TrimStart(s) == "" || !IsSeparator(TrimStart(s)[0])
    ensures forall c :: c in TrimStart(s) ==> c in s
    ensures ByteLen(TrimStart(s)) <= ByteLen(s)
  {
    if s != "" && IsSeparator(s[0]) {
      TrimStartShape(s[1..]);
    }
  }

  lemma {:induction false} TrimEndShape(s: string)
    ensures TrimEnd(s) == "" || !IsSeparator(TrimEnd(s)[|TrimEnd(s)| - 1])
    ensures TrimEnd(s) <= s && forall c :: c in TrimEnd(s) ==> c in s
    ensures ByteLen(TrimEnd(s)) <= ByteLen(s)
  {
    if s != "" && IsSeparator(s[|s| - 1]) {
      TrimEndShape(s[..|s| - 1]);
      assert s == s[..|s| - 1] + [s[|s| - 1]];
      ByteLenAppend(s[..|s| - 1], [s[|s| - 1]]);
    }
  }

  /** Trimming leaves no separator at either end, and only what was there. */
  lemma TrimShape(s: string)
    ensures Trim(s) == "" || (!IsSeparator(Trim(s)[0]) && !IsSeparator(Trim(s)[|Trim(s)| - 1]))
    ensures forall c :: c in Trim(s) ==> c in s
    ensures ByteLen(Trim(s)) <= ByteLen(s)
  {
    TrimStartShape(s);
    TrimEndShape(TrimStart(s));
  }

  lemma TrimFixed(s: string)
    requires s == "" || (!IsSeparator(s[0]) && !IsSeparator(s[|s| - 1]))
    ensures Trim(s) == s
  {
  }

  lemma ClassifyFixed(run: string)
    ensures Classify(run).Term? ==> Classify(Classify(run).word) == Classify(run) && !HasSeparator(Classify(run).word)
    ensures Classify(run).Entity? ==> Classify(Classify(run).name) == Classify(run) && HasSeparator(Classify(run).name)
  {
    TrimShape(run);
    TrimFixed(Trim(run));
  }

  /** Terms and entities never overlap: an entity holds a separator, a term does not. */
  lemma TermsAreNotEntities(alnum: CharClass, text: string, u: string)
    ensures !(IsUnit(alnum, text, Term(u)) && IsUnit(alnum, text, Entity(u)))
  {
    forall i, j | MaximalRun(alnum, text, i, j) {
      ClassifyFixed(Lower(text[i..j]));
    }
  }

  // ---------- the units spelled out

  predicate Joins(c: char) { c == '-' || c == '_' || c == '.' }

  /** A stretch of alphanumeric characters and joins that cannot be extended. */
  ghost predicate RunAt(alnum: CharClass, text: string, i: int, j: int) {
    && 0 <= i < j <= |text|
    && (forall k :: i <= k < j ==> alnum(text[k]) || Joins(text[k]))
    && (i > 0 ==> !alnum(text[i - 1]) && !Joins(text[i - 1]))
    && (j < |text| ==> !alnum(text[j]) && !Joins(text[j]))
  }

  /** `u` is what is left of `run` without the joins at both ends. */
  ghost predicate Stripped(run: string, u: string) {
    exists a, b :: Around(run, a, u, b)
  }

  ghost predicate Around(run: string, a: string, u: string, b: string) {
    && run == a + u + b && (forall c :: c in a || c in b ==> Joins(c))
    && u != "" && !Joins(u[0]) && !Joins(u[|u| - 1])
  }

  /** An entity of a query: a stripped run with a join inside, of at least six bytes. */
  ghost predicate IsEntity(alnum: CharClass, text: string, e: string) {
    && (exists i, j :: RunAt(alnum, text, i, j) && Stripped(Lower(text[i..j]), e))
    && (exists c :: c in e && Joins(c)) && ByteLen(e) >= 6
  }

  /** A term: one without a join, of at least three bytes, that is not a stop word. */
  ghost predicate IsTerm(alnum: CharClass, text: string, t: string) {
    && (exists i, j :: RunAt(alnum, text, i, j) && Stripped(Lower(text[i..j]), t))
    && (forall c :: c in t ==> !Joins(c)) && ByteLen(t) >= 3
    && t != "about" && t != "and" && t != "for" && t != "from" && t != "not" && t != "the" && t != "this" && t != "with"
  }

  lemma {:induction false} TrimStartParts(s: string) returns (a: string)
    ensures s == a + TrimStart(s) && forall c :: c in a ==> Joins(c)
  {
    if s != "" && IsSeparator(s[0]) {
      a := TrimStartParts(s[1..]);
      assert s == [s[0]] + s[1..];
      a := [s[0]] + a;
    } else {
      a := "";
    }
  }

  lemma {:induction false} TrimEndParts(s: string) returns (b: string)
    ensures s == TrimEnd(s) + b && forall c :: c in b ==> Joins(c)
  {
    if s != "" && IsSeparator(s[|s| - 1]) {
      var n := |s| - 1;
      b := TrimEndParts(s[..n]);
      assert s == s[..n] + [s[n]];
      b := b + [s[n]];
    } else {
      b := "";
    }
  }

  lemma {:induction false} TrimStartOf(a: string, u: string)
    requires (forall c :: c in a ==> Joins(c)) && u != "" && !Joins(u[0])
    ensures TrimStart(a + u) == u
  {
    if a == "" {
      assert a + u == u;
    } else {
      assert (a + u)[0] == a[0] && a[0] in a && (a + u)[1..] == a[1..] + u;
      TrimStartOf(a[1..], u);
    }
  }

  lemma {:induction false} TrimEndOf(u: string, b: string)
    requires (forall c :: c in b ==> Joins(c)) && u != "" && !Joins(u[|u| - 1])
    ensures TrimEnd(u + b) == u
  {
    if b == "" {
      assert u + b == u;
    } else {
      var n := |b| - 1;
      assert (u + b)[|u + b| - 1] == b[n] && b[n] in b && (u + b)[..|u + b| - 1] == u + b[..n];
      TrimEndOf(u, b[..n]);
    }
  }

  /** Stripping has one result, which trimming finds. */
  lemma StrippedExactly(run: string, u: string)
    ensures Stripped(run, u) <==> u == Trim(run) != ""
  {
    hide TrimStart, TrimEnd, ByteLen;
    if a, b :| Around(run, a, u, b) {
      assert run == a + (u + b) && (u + b)[0] == u[0];
      TrimStartOf(a, u + b);
      TrimEndOf(u, b);
    }
    if u == Trim(run) != "" {
      var a := TrimStartParts(run);
      var b := TrimEndParts(TrimStart(run));
      TrimShape(run);
      assert Around(run, a, u, b);
    }
  }

  lemma RunsAreMaximal(alnum: CharClass, text: string, i: int, j: int)
    ensures RunAt(alnum, text, i, j) <==> MaximalRun(alnum, text, i, j)
  {
  }

  /** The units of the model are those entities and terms. */
  lemma UnitsExactly(alnum: CharClass, text: string, u: string)
    ensures IsUnit(alnum, text, Entity(u)) <==> IsEntity(alnum, text, u)
    ensures IsUnit(alnum, text, Term(u)) <==> IsTerm(alnum, text, u)
  {
    hide RunAt, MaximalRun, Stripped, Trim;
    forall i, j ensures RunAt(alnum, text, i, j) <==> MaximalRun(alnum, text, i, j) {
      RunsAreMaximal(alnum, text, i, j);
    }
    forall run ensures Stripped(run, u) <==> u == Trim(run) != "" {
      StrippedExactly(run, u);
    }
    SeparatorsIn(u);
    RunWithin(alnum, text);
  }

  lemma RunWithin(alnum: CharClass, text: string)
    ensures forall i, j :: RunAt(alnum, text, i, j) ==> 0 <= i <= j <= |text|
  {
  }

  lemma SeparatorsIn(u: string)
    ensures HasSeparator(u) <==> exists c :: c in u && Joins(c)
  {
    if i :| 0 <= i < |u| && IsSeparator(u[i]) {
      assert u[i] in u;
    }
  }

  lemma LoweredIdentifier(alnum: CharClass, c: char)
    requires AgreesWithAscii(alnum) && IsIdentifier(alnum, c)
    ensures IsIdentifier(alnum, LowerChar(c)) && LowerChar(LowerChar(c)) == LowerChar(c)
  {
  }

  ghost predicate LoweredRun(alnum: CharClass, s: string) {
    forall k :: 0 <= k < |s| ==> IsIdentifier(alnum, s[k]) && LowerChar(s[k]) == s[k]
  }

  /** Every unit is itself a lower-case run. */
  lemma UnitIsRun(alnum: CharClass, text: string, i: int, j: int)
    requires AgreesWithAscii(alnum) && MaximalRun(alnum, text, i, j)
    ensures LoweredRun(alnum, Trim(Lower(text[i..j])))
    ensures ByteLen(Trim(Lower(text[i..j]))) <= ByteLen(text)
  {
    var run := Lower(text[i..j]);
    TrimShape(run);
    forall c | c in run ensures IsIdentifier(alnum, c) && LowerChar(c) == c {
      var k :| 0 <= k < |run| && run[k] == c;
      assert text[i..j][k] == text[i + k];
      LoweredIdentifier(alnum, text[i + k]);
    }
    LowerLength(text[i..j]);
    ByteLenPart(text, i, j);
  }

  lemma {:induction false} LowerLength(s: string)
    ensures ByteLen(Lower(s)) == ByteLen(s)
  {
    if s != "" {
      LowerLength(s[1..]);
      assert Lower(s)[1..] == Lower(s[1..]);
    }
  }

  lemma ByteLenPart(s: string, i: int, j: int)
    requires 0 <= i <= j <= |s|
    ensures ByteLen(s[i..j]) <= ByteLen(s)
  {
    hide ByteLen;
    ByteLenSplit(s, i);
    ByteLenSplit(s[i..], j - i);
    assert s[i..][..j - i] == s[i..j];
  }

  lemma WholeRun(alnum: CharClass, u: string)
    requires LoweredRun(alnum, u) && u != ""
    ensures forall unit :: IsUnit(alnum, u, unit) <==> Classify(u) == unit
  {
    assert Lower(u) == u && u[0..|u|] == u;
    assert MaximalRun(alnum, u, 0, |u|);
    forall i, j | MaximalRun(alnum, u, i, j) ensures i == 0 && j == |u| {
    }
  }

  /**
   Tokenizing a unit again gives that unit and nothing else; and no unit is longer than
   the query it comes from.
   */
  lemma TokenizeFixpoint(alnum: CharClass, text: string, unit: Unit)
    requires AgreesWithAscii(alnum) && IsUnit(alnum, text, unit) && !unit.Dropped?
    ensures var u := if unit.Term? then unit.word else unit.name;
            (forall again :: IsUnit(alnum, u, again) <==> again == unit) && ByteLen(u) <= ByteLen(text)
  {
    var i, j :| MaximalRun(alnum, text, i, j) && UnitAt(text, i, j) == unit;
    var run := Lower(text[i..j]);
    UnitIsRun(alnum, text, i, j);
    ClassifyFixed(run);
    WholeRun(alnum, Trim(run));
  }
}
