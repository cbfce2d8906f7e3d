/**
 Column names and the locators a reader cites, for every document family.

 A column name is a numeral in bijective base 26. A locator is rendered as text; what is
 proved is that the text tells the place, although a sheet or a section may be named with
 any characters.
 */
module Locators {
  import opened Decimal

  predicate IsLetter(c: char) { 'A' <= c <= 'Z' }

  predicate AllLetters(s: string) { forall i :: 0 <= i < |s| ==> IsLetter(s[i]) }

  function Letter(d: nat): char
    requires d < 26
  {
    'A' + d as char
  }

  /** Bijective base 26: A is 1, Z is 26, AA is 27. */
  function Letters(column: nat): (s: string)
    ensures AllLetters(s) && (s == "" <==> column == 0)
  {
    if column == 0 then "" else Letters((column - 1) / 26) + [Letter((column - 1) % 26)]
  }

  function ColumnOf(s: string): nat
    requires AllLetters(s)
  {
    if s == "" then 0 else 26 * ColumnOf(s[..|s| - 1]) + (s[|s| - 1] - 'A') as nat + 1
  }

  /** The name of any 64-bit column: none below 1. */
  function LettersFrom(column: int): string { if column <= 0 then "" else Letters(column) }

  lemma OneLetterMore(rest: int, after: string)
    requires rest > 0
    ensures LettersFrom(rest) + after == LettersFrom((rest - 1) / 26) + ([Letter((rest - 1) % 26)] + after)
  {
  }

  /** The loop of `column_letters`: letters are pushed from the right and then reversed. */
  method ColumnLetters(column: int) returns (letters: string)
    ensures letters == LettersFrom(column)
  {
    var pushed: string := "";
    var rest := column;
    assert LettersFrom(column) + "" == LettersFrom(column);
    while rest > 0
      invariant LettersFrom(rest) + Reverse(pushed) == LettersFrom(column)
      decreases rest
    {
      OneLetterMore(rest, Reverse(pushed));
      rest := rest - 1;
      ReversePush(pushed, Letter(rest % 26));
      pushed := pushed + [Letter(rest % 26)];
      rest := rest / 26;
    }
    assert "" + Reverse(pushed) == Reverse(pushed);
    return Reverse(pushed);
  }

  function Reverse(s: string): string {
    if s == "" then "" else [s[|s| - 1]] + Reverse(s[..|s| - 1])
  }

  lemma ReversePush(s: string, c: char)
    ensures Reverse(s + [c]) == [c] + Reverse(s)
  {
    assert (s + [c])[..|s|] == s;
  }

  /** Decoding undoes encoding, and encoding undoes decoding: column names are a bijection. */
  lemma {:induction false} ColumnRoundTrip(column: nat)
    ensures ColumnOf(Letters(column)) == column
  {
    if column > 0 {
      ColumnRoundTrip((column - 1) / 26);
      var s := Letters(column);
      assert s[..|s| - 1] == Letters((column - 1) / 26);
    }
  }

  lemma {:induction false} LettersRoundTrip(s: string)
    requires AllLetters(s)
    ensures Letters(ColumnOf(s)) == s
  {
    if s != "" {
      var front, last := s[..|s| - 1], s[|s| - 1];
      LettersRoundTrip(front);
      var d := (last - 'A') as nat;
      assert (ColumnOf(s) - 1) / 26 == ColumnOf(front) && (ColumnOf(s) - 1) % 26 == d;
      assert s == front + [last];
    }
  }

  // ---------- locators

  /** What an anchor's locator says, as far as the rendering looks at it. */
  datatype Locator =
    | Grid(sheet: string, row: int, column: int)
    | FixedLayout(page: int, block: int)
    | Flow(section: string, ordinal: int)
    | Presentation(slide: int, shape: int)

  /** The locators that are rendered; any other is cited by its anchor id. */
  predicate Rendered(l: Locator) {
    match l
    case Grid(sheet, row, column) => row >= 1 && column >= 1 && sheet != ""
    case FixedLayout(page, block) => page >= 1 && block >= 1
    case Flow(section, ordinal) => ordinal >= 1 && section != ""
    case Presentation(slide, shape) => slide >= 1 && shape >= 1
  }

  function NativeLocator(l: Locator, id: string): string {
    if !Rendered(l) then id
    else
      match l
      case Grid(sheet, row, column) => sheet + "!" + Letters(column) + ToString(row)
      case FixedLayout(page, block) => "page " + ToString(page) + " block " + ToString(block)
      case Flow(section, ordinal) => section + "#" + ToString(ordinal)
      case Presentation(slide, shape) => "slide " + ToString(slide) + " shape " + ToString(shape)
  }

  /** Digits for a number, without a zero in front. */
  ghost predicate IsNumeral(s: string, n: nat) { AllDigits(s) && s != "" && Value(s) == n && (|s| > 1 ==> s[0] != '0') }

  /** The name of a column. */
  ghost predicate IsColumn(s: string, column: nat) { AllLetters(s) && ColumnOf(s) == column }

  /** What a locator is rendered as, in letters and digits: any place below one, and an empty name, falls back to the id. */
  ghost predicate Cites(text: string, l: Locator, id: string) {
    match l
    case Grid(sheet, row, column) =>
      if row <= 0 || column <= 0 || sheet == "" then text == id
      else exists name, m :: text == sheet + "!" + name + m && IsColumn(name, column) && IsNumeral(m, row)
    case FixedLayout(page, block) =>
      if page <= 0 || block <= 0 then text == id
      else exists m, n :: text == "page " + m + " block " + n && IsNumeral(m, page) && IsNumeral(n, block)
    case Flow(section, ordinal) =>
      if ordinal <= 0 || section == "" then text == id
      else exists m :: text == section + "#" + m && IsNumeral(m, ordinal)
    case Presentation(slide, shape) =>
      if slide <= 0 || shape <= 0 then text == id
      else exists m, n :: text == "slide " + m + " shape " + n && IsNumeral(m, slide) && IsNumeral(n, shape)
  }

  lemma NumeralPrinted(n: nat)
    ensures IsNumeral(ToString(n), n)
  {
    ValueOfToString(n);
    FirstDigit(n);
  }

  lemma CitesExactly(l: Locator, id: string)
    ensures Cites(NativeLocator(l, id), l, id)
  {
    hide IsNumeral;
    match l
    case Grid(sheet, row, column) =>
      if row > 0 && column > 0 {
        NumeralPrinted(row);
        ColumnRoundTrip(column);
        assert IsColumn(Letters(column), column);
      }
    case FixedLayout(page, block) =>
      if page > 0 && block > 0 {
        NumeralPrinted(page);
        NumeralPrinted(block);
      }
    case Flow(section, ordinal) =>
      if ordinal > 0 {
        NumeralPrinted(ordinal);
      }
    case Presentation(slide, shape) =>
      if slide > 0 && shape > 0 {
        NumeralPrinted(slide);
        NumeralPrinted(shape);
      }
  }

  /** Where the numeral at the end of a text begins. */
  function NumeralStart(s: string): (k: nat)
    ensures k <= |s|
  {
    if s == "" || !IsDigit(s[|s| - 1]) then |s| else NumeralStart(s[..|s| - 1])
  }

  lemma {:induction false} NumeralStartAt(a: string, m: string)
    requires AllDigits(m) && (a == "" || !IsDigit(a[|a| - 1]))
    ensures NumeralStart(a + m) == |a|
  {
    if m == "" {
      assert a + m == a;
    } else {
      NumeralStartAt(a, m[..|m| - 1]);
      assert (a + m)[..|a + m| - 1] == a + m[..|m| - 1];
    }
  }

  /** A text that ends in a numeral determines the number and what comes before it. */
  lemma NumeralSuffix(a: string, m: nat, b: string, n: nat)
    requires (a == "" || !IsDigit(a[|a| - 1])) && (b == "" || !IsDigit(b[|b| - 1]))
    requires a + ToString(m) == b + ToString(n)
    ensures a == b && m == n
  {
    var s := a + ToString(m);
    NumeralStartAt(a, ToString(m));
    NumeralStartAt(b, ToString(n));
    assert a == s[..|a|] == b && ToString(m) == s[|a|..] == ToString(n);
    ValueOfToString(m);
    ValueOfToString(n);
  }

  /** What is rendered before the last number, and that number. */
  function Stem(l: Locator): string
    requires Rendered(l)
  {
    match l
    case Grid(sheet, row, column) => sheet + "!" + Letters(column)
    case FixedLayout(page, block) => "page " + ToString(page) + " block "
    case Flow(section, ordinal) => section + "#"
    case Presentation(slide, shape) => "slide " + ToString(slide) + " shape "
  }

  function LastNumber(l: Locator): nat
    requires Rendered(l)
  {
    match l
    case Grid(sheet, row, column) => row
    case FixedLayout(page, block) => block
    case Flow(section, ordinal) => ordinal
    case Presentation(slide, shape) => shape
  }

  lemma StemAndNumber(l: Locator, id: string)
    requires Rendered(l)
    ensures NativeLocator(l, id) == Stem(l) + ToString(LastNumber(l))
    ensures Stem(l) != "" && !IsDigit(Stem(l)[|Stem(l)| - 1])
  {
    match l
    case Grid(sheet, row, column) =>
      assert Stem(l)[|Stem(l)| - 1] == Letters(column)[|Letters(column)| - 1];
    case _ =>
  }

  lemma LetterSuffix(a: string, m: string, b: string, n: string)
    requires AllLetters(m) && AllLetters(n) && a + "!" + m == b + "!" + n
    ensures a == b && m == n
  {
    var s := a + "!" + m;
    assert s[|a|] == '!' && s[|b|] == '!';
    assert forall k :: |a| < k < |s| ==> IsLetter(s[k]);
    assert forall k :: |b| < k < |s| ==> s[k] == n[k - |b| - 1];
    assert |a| == |b|;
    assert s[..|a|] == a && s[..|b|] == b && s[|a| + 1..] == m && s[|b| + 1..] == n;
  }

  /** The last character of the stem tells the family, up to the two that end in a space. */
  lemma StemsDiffer(k: Locator, l: Locator)
    requires Rendered(k) && Rendered(l) && Stem(k) == Stem(l)
    ensures k.Grid? == l.Grid? && k.Flow? == l.Flow? && k.FixedLayout? == l.FixedLayout?
  {
    LastOfStem(k);
    LastOfStem(l);
    FirstOfStem(k);
    FirstOfStem(l);
  }

  lemma LastOfStem(l: Locator)
    requires Rendered(l)
    ensures Stem(l) != ""
    ensures var last := Stem(l)[|Stem(l)| - 1];
            && (l.Grid? <==> IsLetter(last)) && (l.Flow? <==> last == '#') && (l.FixedLayout? || l.Presentation? <==> last == ' ')
  {
    match l
    case Grid(sheet, row, column) =>
      assert Stem(l)[|Stem(l)| - 1] == Letters(column)[|Letters(column)| - 1];
    case _ =>
  }

  lemma FirstOfStem(l: Locator)
    requires Rendered(l)
    ensures l.FixedLayout? ==> Stem(l)[0] == 'p'
    ensures l.Presentation? ==> Stem(l)[0] == 's'
  {
  }

  lemma TwoNumbers(head: string, middle: string, m: nat, n: nat)
    requires middle != "" && !IsDigit(middle[0]) && head + ToString(m) + middle == head + ToString(n) + middle
    ensures m == n
  {
    var a, b := head + ToString(m), head + ToString(n);
    assert a == (a + middle)[..|a|] && b == (b + middle)[..|b|];
    assert |a| == |b|;
    assert ToString(m) == a[|head|..] && ToString(n) == b[|head|..];
    ValueOfToString(m);
    ValueOfToString(n);
  }

  /**
   A rendered locator determines the place it names: across all four families, and even
   when a sheet or a section is named with the separators themselves.
   */
  lemma LocatorInjective(k: Locator, l: Locator, idK: string, idL: string)
    requires Rendered(k) && Rendered(l) && NativeLocator(k, idK) == NativeLocator(l, idL)
    ensures k == l
  {
    StemAndNumber(k, idK);
    StemAndNumber(l, idL);
    NumeralSuffix(Stem(k), LastNumber(k), Stem(l), LastNumber(l));
    StemsDiffer(k, l);
    match k
    case Grid(sheet, row, column) =>
      LetterSuffix(sheet, Letters(column), l.sheet, Letters(l.column));
      ColumnRoundTrip(column);
      ColumnRoundTrip(l.column);
    case FixedLayout(page, block) => TwoNumbers("page ", " block ", page, l.page);
    case Flow(section, ordinal) => assert section == Stem(k)[..|section|] == Stem(l)[..|l.section|] == l.section;
    case Presentation(slide, shape) => TwoNumbers("slide ", " shape ", slide, l.slide);
  }
}
