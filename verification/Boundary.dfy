/**
 Two of the scans that keep private text out of a public tree. One looks for the home
 directory of a user, the other for an address in a private network.

 Both go over a line once and skip what they have looked at; that nothing is missed by
 that is proved against what the line contains, occurrences that overlap included.
 */
module Boundary {
  import opened Common
  import opened Text
  import Decimal

  // ----- home directories -----

  datatype Root = Root(prefix: string, separator: char)

  const ROOTS := [Root("/home/", '/'), Root("/Users/", '/'), Root("C:\\Users\\", '\\')]

  /** The text starts with a non-empty user segment of `n` characters, a separator, and at least one more character. */
  predicate UserName(after: string, separator: char, n: nat) {
    0 < n && n + 1 < |after| && after[n] == separator && separator !in after[..n]
  }

  ghost predicate HasUser(after: string, separator: char) {
    exists n: nat :: UserName(after, separator, n)
  }

  /** The root occurs at `i`, and what follows is a user name, the separator, and more text. */
  ghost predicate HomeAt(line: string, root: Root, i: int) {
    OccursAt(line, root.prefix, i) && HasUser(line[i + |root.prefix|..], root.separator)
  }

  /**
   Two occurrences of the root can overlap only in its last character, which then is the
   separator and ends the user segment that the first occurrence sees.
   */
  predicate Skippable(root: Root) {
    var last := |root.prefix| - 1;
    && last >= 2
    && (forall k :: 0 < k < last ==> root.prefix[k] != root.prefix[0])
    && (root.prefix[last] == root.prefix[0] ==> root.separator == root.prefix[last] && root.separator !in root.prefix[1..last])
  }

  lemma RootsSkippable()
    ensures forall root :: root in ROOTS ==> Skippable(root)
  {
    assert "/home/"[1..5] == "home" && "/Users/"[1..6] == "Users";
    assert |"/home/"| == 6 && |"/Users/"| == 7 && |"C:\\Users\\"| == 9;
  }

  /** `find`: the first occurrence of a pattern at or after `from`. */
  method FindFrom(s: string, pattern: string, from: nat) returns (r: Option<nat>)
    requires from <= |s|
    ensures r.None? ==> forall i :: from <= i ==> !OccursAt(s, pattern, i)
    ensures r.Some? ==> from <= r.value && OccursAt(s, pattern, r.value) && forall i :: from <= i < r.value ==> !OccursAt(s, pattern, i)
  {
    var i := from;
    while i + |pattern| <= |s|
      invariant from <= i && forall k :: from <= k < i ==> !OccursAt(s, pattern, k)
    {
      if s[i..i + |pattern|] == pattern {
        return Some(i);
      }
      i := i + 1;
    }
    return None;
  }

  /** What the user segment test computes. */
  lemma UserFound(after: string, separator: char)
    ensures HasUser(after, separator) <==> 0 < Find(after, separator) && Find(after, separator) + 1 < |after|
  {
    var n := Find(after, separator);
    if 0 < n && n + 1 < |after| {
      assert UserName(after, separator, n);
    }
    if m: nat :| UserName(after, separator, m) {
      assert forall k :: 0 <= k < n ==> after[k] in after[..n];
      assert forall k :: 0 <= k < m ==> after[k] in after[..m];
    }
  }

  /** When an occurrence that overlaps an earlier one counts, the earlier one counts too. */
  lemma OverlapCounts(line: string, root: Root, q: nat, i: nat)
    requires Skippable(root) && OccursAt(line, root.prefix, q) && q < i < q + |root.prefix| && HomeAt(line, root, i)
    ensures HomeAt(line, root, q)
  {
    var p, last := root.prefix, |root.prefix| - 1;
    assert line[i] == line[i..i + |p|][0] == p[0];
    assert line[i] == line[q..q + |p|][i - q] == p[i - q];
    assert i - q == last;
    var after := line[q + |p|..];
    forall k | 0 <= k < last ensures after[k] == p[k + 1] {
      assert line[i..i + |p|][k + 1] == line[q + |p| + k];
    }
    assert after[last - 1] == root.separator;
    assert after[..last - 1] == p[1..last];
    assert UserName(after, root.separator, last - 1);
  }

  /** The scan for one root, which goes on behind every occurrence it has looked at. */
  method ScanRoot(line: string, root: Root) returns (found: bool)
    requires Skippable(root)
    ensures found <==> exists i :: HomeAt(line, root, i)
  {
    var rest := 0;
    while true
      invariant rest <= |line| && forall i :: 0 <= i < rest ==> !HomeAt(line, root, i)
      decreases |line| - rest
    {
      var start := FindFrom(line, root.prefix, rest);
      if start.None? {
        return false;
      }
      var next := start.value + |root.prefix|;
      var after := line[next..];
      var user := Find(after, root.separator);
      UserFound(after, root.separator);
      if 0 < user && user + 1 < |after| {
        assert HomeAt(line, root, start.value);
        return true;
      }
      forall i | rest <= i < next ensures !HomeAt(line, root, i) {
        if start.value < i && HomeAt(line, root, i) {
          OverlapCounts(line, root, start.value, i);
        }
      }
      rest := next;
    }
  }

  /** A home directory, a user's name, the separator and something more. */
  ghost predicate HomePath(line: string, before: string, user: string, more: string) {
    && user != "" && more != ""
    && ((line == before + "/home/" + user + "/" + more && '/' !in user)
        || (line == before + "/Users/" + user + "/" + more && '/' !in user)
        || (line == before + "C:\\Users\\" + user + "\\" + more && '\\' !in user))
  }

  lemma HomeParts(line: string, root: Root, i: int) returns (before: string, user: string, more: string)
    requires HomeAt(line, root, i)
    ensures line == before + root.prefix + user + [root.separator] + more && user != "" && more != "" && root.separator !in user
  {
    var after := line[i + |root.prefix|..];
    var n: nat :| UserName(after, root.separator, n);
    before, user, more := line[..i], after[..n], after[n + 1..];
    assert line == before + root.prefix + after && after == user + [root.separator] + more;
    assert before + root.prefix + (user + [root.separator] + more) == before + root.prefix + user + [root.separator] + more;
  }

  lemma HomeFromParts(line: string, root: Root, before: string, user: string, more: string)
    requires line == before + root.prefix + user + [root.separator] + more && user != "" && more != "" && root.separator !in user
    ensures HomeAt(line, root, |before|)
  {
    var after := line[|before| + |root.prefix|..];
    assert after == user + [root.separator] + more;
    assert after[..|user|] == user;
    assert UserName(after, root.separator, |user|);
  }

  lemma HomeExactly(line: string)
    ensures (exists root, i :: root in ROOTS && HomeAt(line, root, i)) <==> exists before, user, more :: HomePath(line, before, user, more)
  {
    hide HomeAt;
    if root, i :| root in ROOTS && HomeAt(line, root, i) {
      var before, user, more := HomeParts(line, root, i);
      assert HomePath(line, before, user, more);
    }
    if before, user, more :| HomePath(line, before, user, more) {
      var root := if line == before + "/home/" + user + "/" + more && '/' !in user then ROOTS[0]
                  else if line == before + "/Users/" + user + "/" + more && '/' !in user then ROOTS[1] else ROOTS[2];
      HomeFromParts(line, root, before, user, more);
    }
  }

  /** A line holds a home path exactly when some occurrence of some root, overlapping ones included, counts. */
  method ContainsHomePath(line: string) returns (found: bool)
    ensures found <==> exists before, user, more :: HomePath(line, before, user, more)
  {
    RootsSkippable();
    HomeExactly(line);
    for k := 0 to |ROOTS|
      invariant forall j, i :: 0 <= j < k ==> !HomeAt(line, ROOTS[j], i)
    {
      var here := ScanRoot(line, ROOTS[k]);
      if here {
        return true;
      }
    }
    return false;
  }

  // ----- private networks -----

  predicate Numeric(c: char) { '0' <= c <= '9' || c == '.' }

  lemma NumericExactly(c: char)
    ensures Numeric(c) <==> c in "0123456789."
  {
  }

  function FindOther(s: string): (k: nat)
    ensures k <= |s| && (forall i :: 0 <= i < k ==> Numeric(s[i])) && (k < |s| ==> !Numeric(s[k]))
  {
    if s == "" || !Numeric(s[0]) then 0 else 1 + FindOther(s[1..])
  }

  /** The parts between the characters that are neither digits nor dots. */
  function Runs(line: string): seq<string>
    decreases |line|
  {
    var k := FindOther(line);
    if k < |line| then [line[..k]] + Runs(line[k + 1..]) else [line]
  }

  /** The part stands at `i`, holds digits and dots only, and cannot be extended. */
  ghost predicate RunAt(line: string, part: string, i: int) {
    && 0 <= i <= |line| - |part|
    && (forall k :: i <= k < i + |part| ==> line[k] == part[k - i] && Numeric(line[k]))
    && (i == 0 || !Numeric(line[i - 1])) && (i + |part| == |line| || !Numeric(line[i + |part|]))
  }

  /** The part is a maximal stretch of digits and dots; it may be empty. */
  ghost predicate IsRun(line: string, part: string) { exists i :: RunAt(line, part, i) }

  /** Behind a separator, the runs are those of the rest of the line. */
  lemma RunFromRest(line: string, rest: string, part: string, k: nat, i: int)
    requires k < |line| && !Numeric(line[k]) && rest == line[k + 1..] && RunAt(rest, part, i)
    ensures IsRun(line, part)
  {
    assert forall m :: 0 <= m < |rest| ==> line[m + k + 1] == rest[m];
    forall m | i + k + 1 <= m < i + k + 1 + |part| ensures line[m] == part[m - i - k - 1] && Numeric(line[m]) {
      assert rest[m - k - 1] == part[m - k - 1 - i];
    }
    assert RunAt(line, part, i + k + 1);
  }

  lemma RunToRest(line: string, rest: string, part: string, k: nat, i: int)
    requires k < |line| && !Numeric(line[k]) && rest == line[k + 1..] && i > k && RunAt(line, part, i)
    ensures IsRun(rest, part)
  {
    assert forall m :: 0 <= m < |rest| ==> line[m + k + 1] == rest[m];
    forall m | i - k - 1 <= m < i - k - 1 + |part| ensures rest[m] == part[m - (i - k - 1)] && Numeric(rest[m]) {
      assert line[m + k + 1] == part[m + k + 1 - i];
    }
    assert RunAt(rest, part, i - k - 1);
  }

  lemma FirstRun(line: string, part: string, i: int)
    requires i <= FindOther(line)
    ensures RunAt(line, part, i) <==> i == 0 && part == line[..FindOther(line)]
  {
    var k := FindOther(line);
    if RunAt(line, part, i) {
      assert forall m :: 0 <= m < k ==> Numeric(line[m]);
      assert i == 0 && |part| == k;
    }
  }

  lemma LaterRuns(line: string, rest: string, part: string)
    requires FindOther(line) < |line| && rest == line[FindOther(line) + 1..]
    ensures IsRun(line, part) <==> part == line[..FindOther(line)] || IsRun(rest, part)
  {
    var k := FindOther(line);
    FirstRun(line, part, 0);
    if IsRun(rest, part) {
      var i :| RunAt(rest, part, i);
      RunFromRest(line, rest, part, k, i);
    }
    if IsRun(line, part) {
      var i :| RunAt(line, part, i);
      if i <= k {
        FirstRun(line, part, i);
      } else {
        RunToRest(line, rest, part, k, i);
      }
    }
  }

  lemma OnlyRun(line: string, part: string)
    requires FindOther(line) == |line|
    ensures IsRun(line, part) <==> part == line
  {
    assert line[..|line|] == line;
    FirstRun(line, part, 0);
    if IsRun(line, part) {
      var i :| RunAt(line, part, i);
      FirstRun(line, part, i);
    }
  }

  /** The runs are exactly the maximal stretches of digits and dots. */
  lemma {:induction false} RunsExactly(line: string, part: string)
    ensures part in Runs(line) <==> IsRun(line, part)
    decreases |line|
  {
    if FindOther(line) < |line| {
      RunsExactly(line[FindOther(line) + 1..], part);
      LaterRuns(line, line[FindOther(line) + 1..], part);
    } else {
      OnlyRun(line, part);
    }
  }

  lemma RunIsNumeric(line: string, part: string)
    requires IsRun(line, part)
    ensures forall x :: x in part ==> Numeric(x)
  {
    var i :| RunAt(line, part, i);
    assert forall k :: 0 <= k < |part| ==> line[i + k] == part[k];
  }

  // ----- dotted quads -----

  function Count(s: string, c: char): nat {
    if s == "" then 0 else (if s[0] == c then 1 else 0) + Count(s[1..], c)
  }

  /** A string splits into one more part than it has separators, none of which is in a part. */
  lemma {:induction false} SplitCount(s: string, c: char)
    ensures |Split(s, c)| == Count(s, c) + 1 && Join(Split(s, c), c) == s
    ensures forall part :: part in Split(s, c) ==> c !in part
    decreases |s|
  {
    var i := Find(s, c);
    CountUpTo(s, c, i);
    if i < |s| {
      SplitCount(s[i + 1..], c);
      assert Split(s, c)[1..] == Split(s[i + 1..], c);
      assert s == s[..i] + [c] + s[i + 1..];
    } else {
      assert s[..i] == s;
    }
  }

  lemma {:induction false} CountUpTo(s: string, c: char, i: nat)
    requires i <= |s| && c !in s[..i] && (i < |s| ==> s[i] == c)
    ensures Count(s, c) == if i < |s| then 1 + Count(s[i + 1..], c) else 0
  {
    if i > 0 {
      assert s[0] == s[..i][0] && s[1..][..i - 1] == s[..i][1..];
      CountUpTo(s[1..], c, i - 1);
      assert i < |s| ==> s[1..][i..] == s[i + 1..];
    }
  }

  /** The octets of a dotted quad: the empty list when a part is no number up to 255. */
  function Octets(parts: seq<string>): Option<seq<nat>> {
    if parts == [] then Some([])
    else
      match (Decimal.ParseUnsigned(parts[0], Decimal.U8_MAX), Octets(parts[1..]))
      case (Some(octet), Some(rest)) => Some([octet] + rest)
      case _ => None
  }

  predicate IsPrivate(part: string) {
    && Count(part, '.') == 3
    && var octets := match Octets(Split(part, '.')) { case Some(values) => values case None => [] };
       && |octets| == 4
       && (octets[0] == 10 || (octets[0] == 192 && octets[1] == 168) || (octets[0] == 172 && 16 <= octets[1] <= 31))
  }

  predicate AnyPrivate(parts: seq<string>) {
    parts != [] && (IsPrivate(parts[0]) || AnyPrivate(parts[1..]))
  }

  predicate ContainsPrivateNetworkLiteral(line: string) { AnyPrivate(Runs(line)) }

  predicate OctetText(s: string) { s != "" && Decimal.AllDigits(s) && Decimal.Value(s) <= 255 }

  predicate Quad(q: seq<string>) {
    |q| == 4 && OctetText(q[0]) && OctetText(q[1]) && OctetText(q[2]) && OctetText(q[3])
  }

  /** The part is four numbers up to 255 with dots between them. */
  predicate DottedQuad(part: string, q: seq<string>) { Quad(q) && part == Join(q, '.') }

  /** The 32-bit address a dotted quad denotes. */
  function Address(q: seq<string>): nat
    requires Quad(q)
  {
    Decimal.Value(q[0]) * 0x100_0000 + Decimal.Value(q[1]) * 0x1_0000 + Decimal.Value(q[2]) * 0x100 + Decimal.Value(q[3])
  }

  /** The private blocks of section 3 of RFC 1918, as address ranges. */
  predicate InPrivateBlock(address: nat) {
    || 0x0A00_0000 <= address <= 0x0AFF_FFFF
    || 0xAC10_0000 <= address <= 0xAC1F_FFFF
    || 0xC0A8_0000 <= address <= 0xC0A8_FFFF
  }

  lemma BlockOf(a: nat, b: nat, low: nat)
    requires a <= 255 && b <= 255 && low <= 0xFFFF
    ensures InPrivateBlock(a * 0x100_0000 + b * 0x1_0000 + low) <==> a == 10 || (a == 192 && b == 168) || (a == 172 && 16 <= b <= 31)
  {
  }

  lemma PrivateOctets(q: seq<string>)
    requires Quad(q)
    ensures var a, b := Decimal.Value(q[0]), Decimal.Value(q[1]);
            InPrivateBlock(Address(q)) <==> a == 10 || (a == 192 && b == 168) || (a == 172 && 16 <= b <= 31)
  {
    BlockOf(Decimal.Value(q[0]), Decimal.Value(q[1]), Decimal.Value(q[2]) * 0x100 + Decimal.Value(q[3]));
  }

  lemma {:induction false} JoinedChars(parts: seq<string>, c: char, part: string)
    requires parts != [] && part in parts
    ensures forall x :: x in part ==> x in Join(parts, c)
  {
    if |parts| > 1 && part != parts[0] {
      JoinedChars(parts[1..], c, part);
    }
  }

  predicate DigitsOnly(s: string) { forall x :: x in s ==> Decimal.IsDigit(x) }

  lemma ParsedOctet(s: string)
    requires DigitsOnly(s)
    ensures Decimal.ParseUnsigned(s, Decimal.U8_MAX) == if OctetText(s) then Some(Decimal.Value(s)) else None
  {
    assert forall i :: 0 <= i < |s| ==> s[i] in s;
    assert s != "" ==> Decimal.IsDigit(s[0]);
  }

  lemma {:induction false} OctetsExactly(parts: seq<string>)
    requires forall i :: 0 <= i < |parts| ==> DigitsOnly(parts[i])
    ensures Octets(parts).Some? <==> forall i :: 0 <= i < |parts| ==> OctetText(parts[i])
    ensures Octets(parts).Some? ==>
              && |Octets(parts).value| == |parts|
              && forall i :: 0 <= i < |parts| ==> OctetText(parts[i]) && Octets(parts).value[i] == Decimal.Value(parts[i])
  {
    if parts != [] {
      var rest := parts[1..];
      OctetsExactly(rest);
      ParsedOctet(parts[0]);
      assert forall i :: 0 < i < |parts| ==> parts[i] == rest[i - 1];
      assert forall i :: 0 <= i < |rest| ==> rest[i] == parts[i + 1];
    }
  }

  ghost predicate IsPrivateQuad(part: string) {
    exists q :: DottedQuad(part, q) && InPrivateBlock(Address(q))
  }

  lemma QuadParts(part: string, q: seq<string>)
    requires DottedQuad(part, q)
    ensures Split(part, '.') == q && Count(part, '.') == 3
  {
    SplitJoin(q, '.');
    SplitCount(part, '.');
  }

  lemma NumericParts(part: string)
    requires forall x :: x in part ==> Numeric(x)
    ensures forall i :: 0 <= i < |Split(part, '.')| ==> DigitsOnly(Split(part, '.')[i])
  {
    SplitCount(part, '.');
    var parts := Split(part, '.');
    forall i, x | 0 <= i < |parts| && x in parts[i] ensures Decimal.IsDigit(x) {
      JoinedChars(parts, '.', parts[i]);
    }
  }

  /** A run counts exactly when it is the dotted quad of an address in a private block. */
  lemma PrivateExactly(part: string)
    requires forall x :: x in part ==> Numeric(x)
    ensures IsPrivate(part) <==> IsPrivateQuad(part)
  {
    if IsPrivate(part) {
      PrivateIsQuad(part);
    }
    if IsPrivateQuad(part) {
      QuadIsPrivate(part);
    }
  }

  lemma QuadIsPrivate(part: string)
    requires (forall x :: x in part ==> Numeric(x)) && IsPrivateQuad(part)
    ensures IsPrivate(part)
  {
    hide Join, Split, Count, Octets, InPrivateBlock, Address;
    var q :| DottedQuad(part, q) && InPrivateBlock(Address(q));
    QuadParts(part, q);
    NumericParts(part);
    OctetsExactly(q);
    PrivateOctets(q);
  }

  lemma PrivateIsQuad(part: string)
    requires (forall x :: x in part ==> Numeric(x)) && IsPrivate(part)
    ensures IsPrivateQuad(part)
  {
    var q := Split(part, '.');
    SplitCount(part, '.');
    NumericParts(part);
    OctetsExactly(q);
    PrivateOctets(q);
    assert DottedQuad(part, q);
  }

  lemma {:induction false} AnyPrivateExactly(parts: seq<string>)
    ensures AnyPrivate(parts) <==> exists part :: part in parts && IsPrivate(part)
  {
    if parts != [] {
      AnyPrivateExactly(parts[1..]);
      assert parts == [parts[0]] + parts[1..];
    }
  }

  /** A line is flagged exactly when some maximal stretch of digits and dots is a private address. */
  lemma PrivateNetworkExactly(line: string)
    ensures ContainsPrivateNetworkLiteral(line) <==> exists part :: IsRun(line, part) && IsPrivateQuad(part)
  {
    AnyPrivateExactly(Runs(line));
    forall part | IsRun(line, part) ensures part in Runs(line) && (IsPrivate(part) <==> IsPrivateQuad(part)) {
      RunsExactly(line, part);
      RunIsNumeric(line, part);
      PrivateExactly(part);
    }
    forall part | part in Runs(line) ensures IsRun(line, part) {
      RunsExactly(line, part);
    }
  }
}
