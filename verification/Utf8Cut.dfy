/** Cutting text at byte limits without splitting a character of UTF-8 (section 3 of RFC 3629): the chunks a prompt is preserved in. */
module Utf8Cut {
  import opened Common
  import opened Ordering
  import opened Text
  import Decimal

  predicate Continuation(b: byte) { 0x80 <= b < 0xC0 }

  function Lead(mark: byte, bits: nat): byte
    requires mark as int + bits < 256
  {
    mark + bits as byte
  }

  /** A continuation byte with the last six bits of a number. */
  function Follow(n: nat): (b: byte)
    ensures Continuation(b)
  {
    0x80 + (n % 64) as byte
  }

  function EncodeChar(c: char): (bytes: seq<byte>)
    ensures |bytes| == Utf8Width(c) && !Continuation(bytes[0])
    ensures forall i :: 1 <= i < |bytes| ==> Continuation(bytes[i])
  {
    var n := c as int;
    if n < 0x80 then [n as byte]
    else if n < 0x800 then [Lead(0xC0, n / 64), Follow(n)]
    else if n < 0x1_0000 then [Lead(0xE0, n / 4096), Follow(n / 64), Follow(n)]
    else [Lead(0xF0, n / 262144), Follow(n / 4096), Follow(n / 64), Follow(n)]
  }

  /** The number a sequence of bytes stands for: the bits after the marks of section 3 of RFC 3629, highest first. */
  ghost function CodePoint(bytes: seq<byte>): int
    requires 1 <= |bytes| <= 4
  {
    match |bytes|
    case 1 => bytes[0] as int
    case 2 => (bytes[0] as int - 0xC0) * 64 + (bytes[1] as int - 0x80)
    case 3 => (bytes[0] as int - 0xE0) * 4096 + (bytes[1] as int - 0x80) * 64 + (bytes[2] as int - 0x80)
    case _ =>
      (bytes[0] as int - 0xF0) * 262144 + (bytes[1] as int - 0x80) * 4096 + (bytes[2] as int - 0x80) * 64 + (bytes[3] as int - 0x80)
  }

  /** The encoding of a character stands for its code point, and the first byte tells how many follow. */
  lemma EncodeCharExactly(c: char)
    ensures var bytes := EncodeChar(c);
            && CodePoint(bytes) == c as int
            && |bytes| == LeadWidth(bytes[0])
            && |bytes| == (if c as int <= 0x7F then 1 else if c as int <= 0x7FF then 2 else if c as int <= 0xFFFF then 3 else 4)
            && forall i :: 1 <= i < |bytes| ==> 0x80 <= bytes[i] <= 0xBF
  {
    var n := c as int;
    assert n == n / 64 * 64 + n % 64;
    assert n / 64 == n / 4096 * 64 + n / 64 % 64;
    assert n / 4096 == n / 262144 * 64 + n / 4096 % 64;
  }

  ghost function LeadWidth(b: byte): nat {
    if b <= 0x7F then 1 else if b <= 0xDF then 2 else if b <= 0xEF then 3 else 4
  }

  /** Reads code points, as many bytes at a time as the first byte tells. */
  ghost function Decode(bytes: seq<byte>): seq<int> {
    if bytes == [] then []
    else
      var width := if LeadWidth(bytes[0]) <= |bytes| then LeadWidth(bytes[0]) else |bytes|;
      [CodePoint(bytes[..width])] + Decode(bytes[width..])
  }

  /** Decoding undoes encoding. */
  lemma {:induction false} DecodeEncode(s: string)
    ensures |Decode(Encode(s))| == |s| && forall i :: 0 <= i < |s| ==> Decode(Encode(s))[i] == s[i] as int
  {
    if s != "" {
      var head, rest := EncodeChar(s[0]), Encode(s[1..]);
      assert Encode(s) == head + rest;
      EncodeCharExactly(s[0]);
      assert (head + rest)[0] == head[0] && (head + rest)[..|head|] == head && (head + rest)[|head|..] == rest;
      DecodeEncode(s[1..]);
      assert Decode(Encode(s)) == [s[0] as int] + Decode(rest);
    }
  }

  function Encode(s: string): seq<byte> { Concat(EncodeChar, s) }

  lemma {:induction false} EncodeLength(s: string)
    ensures |Encode(s)| == ByteLen(s)
  {
    if s != "" {
      EncodeLength(s[1..]);
    }
  }

  /** `is_char_boundary`. */
  predicate IsBoundary(bytes: seq<byte>, i: nat)
    requires i <= |bytes|
  {
    i == 0 || i == |bytes| || !Continuation(bytes[i])
  }

  /** The longest prefix of `s` that takes at most `max` bytes. */
  function Cut(s: string, max: nat): (prefix: string)
    ensures |prefix| <= |s| && ByteLen(prefix) <= max
  {
    if s == "" || Utf8Width(s[0]) > max then ""
    else
      var rest := Cut(s[1..], max - Utf8Width(s[0]));
      assert ([s[0]] + rest)[1..] == rest;
      [s[0]] + rest
  }

  lemma {:induction false} CutIsLongest(s: string, max: nat)
    ensures var prefix := Cut(s, max);
            && s == prefix + s[|prefix|..] && ByteLen(prefix) <= max
            && (prefix != s ==> ByteLen(prefix) + Utf8Width(s[|prefix|]) > max)
  {
    if s != "" && Utf8Width(s[0]) <= max {
      CutIsLongest(s[1..], max - Utf8Width(s[0]));
      assert Cut(s, max)[1..] == Cut(s[1..], max - Utf8Width(s[0]));
    }
  }

  /** The same in bytes of the encoding. */
  lemma CutExactly(s: string, max: nat)
    ensures var prefix := Cut(s, max);
            && prefix <= s && |Encode(prefix)| <= max
            && (prefix != s ==> |Encode(prefix)| + |EncodeChar(s[|prefix|])| > max)
  {
    CutIsLongest(s, max);
    EncodeLength(Cut(s, max));
  }

  lemma CutStep(s: string, max: nat)
    requires s != "" && Utf8Width(s[0]) <= max
    ensures var rest := Cut(s[1..], max - Utf8Width(s[0]));
            Cut(s, max) == [s[0]] + rest && ByteLen(Cut(s, max)) == Utf8Width(s[0]) + ByteLen(rest)
  {
    assert Cut(s, max)[1..] == Cut(s[1..], max - Utf8Width(s[0]));
  }

  /** The boundaries of an encoding are the places where a character ends. */
  lemma {:induction false} BoundaryStep(s: string, i: nat)
    requires s != "" && 0 < i <= |Encode(s)|
    ensures var w := Utf8Width(s[0]);
            && |Encode(s)| == w + |Encode(s[1..])|
            && IsBoundary(Encode(s), i) == (i >= w && IsBoundary(Encode(s[1..]), i - w))
  {
    var head, rest := EncodeChar(s[0]), Encode(s[1..]);
    assert Encode(s) == head + rest;
    if i < |head| {
      assert Continuation(head[i]);
    } else if i == |head| < |Encode(s)| {
      assert Encode(s)[i] == rest[0];
      assert rest[0] == EncodeChar(s[1])[0];
    } else if i < |Encode(s)| {
      assert Encode(s)[i] == rest[i - |head|];
    }
  }

  /** A boundary of an encoding is where the encoding of a prefix ends. */
  lemma {:induction false} BoundaryExactly(s: string, i: nat)
    requires i <= |Encode(s)|
    ensures IsBoundary(Encode(s), i) <==> exists k :: 0 <= k <= |s| && i == |Encode(s[..k])|
    decreases |s|
  {
    assert Encode(s[..0]) == [];
    if i == 0 {
      assert i == |Encode(s[..0])|;
    } else {
      var w := Utf8Width(s[0]);
      BoundaryStep(s, i);
      forall k | 1 <= k <= |s| ensures |Encode(s[..k])| == w + |Encode(s[1..][..k - 1])| {
        assert s[..k][0] == s[0] && s[..k][1..] == s[1..][..k - 1];
      }
      if i >= w {
        BoundaryExactly(s[1..], i - w);
        if j :| 0 <= j <= |s[1..]| && i - w == |Encode(s[1..][..j])| {
          assert i == |Encode(s[..j + 1])|;
        }
      }
      if k :| 0 <= k <= |s| && i == |Encode(s[..k])| {
        assert i - w == |Encode(s[1..][..k - 1])|;
      }
    }
  }

  /** `end` is the last boundary at or before `max` bytes. */
  ghost predicate LastBoundary(bytes: seq<byte>, max: nat, end: nat) {
    && end <= |bytes| && end <= max && IsBoundary(bytes, end)
    && forall j :: end < j <= max && j <= |bytes| ==> !IsBoundary(bytes, j)
  }

  lemma LastBoundaryStep(s: string, max: nat, end: nat)
    requires s != "" && Utf8Width(s[0]) <= max && LastBoundary(Encode(s[1..]), max - Utf8Width(s[0]), end)
    ensures LastBoundary(Encode(s), max, Utf8Width(s[0]) + end)
  {
    var w := Utf8Width(s[0]);
    assert |Encode(s)| == w + |Encode(s[1..])|;
    BoundaryStep(s, w + end);
    forall j | w + end < j <= max && j <= |Encode(s)| ensures !IsBoundary(Encode(s), j) {
      BoundaryStep(s, j);
    }
  }

  lemma NoBoundaryInside(s: string, max: nat)
    requires s != "" && Utf8Width(s[0]) > max
    ensures LastBoundary(Encode(s), max, 0)
  {
    forall j | 0 < j <= max && j <= |Encode(s)| ensures !IsBoundary(Encode(s), j) {
      BoundaryStep(s, j);
    }
  }

  /** Cutting at a byte limit: the last boundary within it is where the longest prefix that fits ends. */
  lemma {:induction false} CutIsLastBoundary(s: string, max: nat)
    ensures LastBoundary(Encode(s), max, ByteLen(Cut(s, max)))
    decreases |s|
  {
    if s == "" {
    } else if Utf8Width(s[0]) > max {
      NoBoundaryInside(s, max);
    } else {
      CutStep(s, max);
      var end := ByteLen(Cut(s[1..], max - Utf8Width(s[0])));
      CutIsLastBoundary(s[1..], max - Utf8Width(s[0]));
      LastBoundaryStep(s, max, end);
    }
  }

  /** The loop that backs off from a byte limit to a character boundary. */
  method FloorBoundary(ghost s: string, bytes: seq<byte>, limit: nat) returns (end: nat)
    requires bytes == Encode(s)
    ensures end == ByteLen(Cut(s, limit)) && end <= |bytes| && bytes[..end] == Encode(Cut(s, limit))
  {
    CutIsLastBoundary(s, limit);
    EncodeLength(s);
    end := if limit < |bytes| then limit else |bytes|;
    while !IsBoundary(bytes, end)
      invariant ByteLen(Cut(s, limit)) <= end <= |bytes| && end <= limit
      decreases end
    {
      end := end - 1;
    }
    CutIsLongest(s, limit);
    PrefixBytes(s, Cut(s, limit));
  }

  lemma PrefixBytes(s: string, prefix: string)
    requires |prefix| <= |s| && s == prefix + s[|prefix|..]
    ensures ByteLen(prefix) <= |Encode(s)| && Encode(s)[..ByteLen(prefix)] == Encode(prefix)
    ensures Encode(s)[ByteLen(prefix)..] == Encode(s[|prefix|..])
  {
    ConcatAppend(EncodeChar, prefix, s[|prefix|..]);
    EncodeLength(prefix);
  }

  // ----- the chunks of a prompt -----

  const CHUNK := 512

  /** Cutting off the longest prefix of at most 512 bytes, again and again. */
  function Chunks(s: string): seq<string>
    decreases |s|
  {
    if s == "" then [] else [Cut(s, CHUNK)] + Chunks(s[|Cut(s, CHUNK)|..])
  }

  function Flatten(chunks: seq<string>): string {
    if chunks == [] then "" else chunks[0] + Flatten(chunks[1..])
  }

  lemma {:induction false} ChunksFlatten(s: string)
    ensures Flatten(Chunks(s)) == s
    decreases |s|
  {
    if s != "" {
      var left := s[|Cut(s, CHUNK)|..];
      ChunksFlatten(left);
      CutIsLongest(s, CHUNK);
      assert Chunks(s)[1..] == Chunks(left);
    }
  }

  /**
   The chunks make up the prompt, none is empty or longer than 512 bytes, and none could
   have taken in the next character.
   */
  lemma {:induction false} ChunksFit(s: string)
    ensures var chunks := Chunks(s);
            && Flatten(chunks) == s
            && (forall i :: 0 <= i < |chunks| ==> chunks[i] != "" && |Encode(chunks[i])| <= 512)
            && (forall i :: 0 <= i < |chunks| - 1 ==> |Encode(chunks[i])| + |EncodeChar(chunks[i + 1][0])| > 512)
    decreases |s|
  {
    ChunksFlatten(s);
    if s != "" {
      var first := Cut(s, CHUNK);
      var left := s[|first|..];
      ChunksFit(left);
      CutIsLongest(s, CHUNK);
      EncodeLength(first);
      assert Chunks(s) == [first] + Chunks(left);
      if left != "" {
        assert Chunks(left)[0] == Cut(left, CHUNK) && Cut(left, CHUNK)[0] == left[0] == s[|first|];
      }
    }
  }

  function ChunkId(k: nat, whole: bool): string {
    if whole then "task" else "task-" + Decimal.Padded(k, 3)
  }

  /** The name of a chunk: "task" for a prompt that is one chunk, else with at least three digits that denote the number. */
  lemma ChunkIdExactly(k: nat)
    ensures ChunkId(k, true) == "task"
    ensures var id := ChunkId(k, false);
            && |id| >= 8 && id[..5] == "task-" && Decimal.AllDigits(id[5..]) && Decimal.Value(id[5..]) == k
            && (|id| > 8 ==> id[5] != '0')
  {
    Decimal.ValueOfPadded(k, 3);
    Decimal.PaddedFirst(k, 3);
    assert ChunkId(k, false)[5..] == Decimal.Padded(k, 3);
  }

  lemma ChunkIdsDiffer(i: nat, j: nat)
    ensures ChunkId(i, false) == ChunkId(j, false) <==> i == j
    ensures ChunkId(i, false) != "task"
  {
    Decimal.ParsePrinted(i, i + j, 3);
    Decimal.ParsePrinted(j, i + j, 3);
    assert ChunkId(i, false)[5..] == Decimal.Padded(i, 3);
    assert ChunkId(j, false)[5..] == Decimal.Padded(j, 3);
  }

  ghost predicate Reading(bytes: seq<byte>, start: nat, rest: string) {
    start <= |bytes| && bytes[start..] == Encode(rest) && (rest == "" <==> start == |bytes|)
  }

  lemma ChunkStep(bytes: seq<byte>, start: nat, rest: string)
    requires Reading(bytes, start, rest) && rest != ""
    ensures var first := Cut(rest, CHUNK); var end := start + ByteLen(first);
            start < end <= |bytes| && bytes[start..end] == Encode(first) && Reading(bytes, end, rest[|first|..])
  {
    var first := Cut(rest, CHUNK);
    CutIsLongest(rest, CHUNK);
    PrefixBytes(rest, first);
    SliceTwice(bytes, start, ByteLen(first));
    EncodeLength(rest[|first|..]);
  }

  lemma SliceTwice(bytes: seq<byte>, start: nat, n: nat)
    requires start + n <= |bytes|
    ensures bytes[start..][..n] == bytes[start..start + n] && bytes[start..][n..] == bytes[start + n..]
  {
  }

  type Anchor = (string, seq<byte>)

  /** `anchors` are the first of all the chunks, and `rest` is what has not been cut yet. */
  ghost predicate Cutting(all: seq<string>, start: nat, rest: string, anchors: seq<Anchor>) {
    && Named(all, anchors) && all[|anchors|..] == Chunks(rest)
    && (start == 0 <==> anchors == [])
  }

  ghost predicate Named(all: seq<string>, anchors: seq<Anchor>) {
    && |anchors| <= |all|
    && forall i :: 0 <= i < |anchors| ==> anchors[i] == (ChunkId(i, |all| == 1), Encode(all[i]))
  }

  lemma CuttingStep(all: seq<string>, start: nat, rest: string, anchors: seq<Anchor>, end: nat, id: string, bytes: seq<byte>)
    requires Cutting(all, start, rest, anchors) && rest != "" && end > start
    requires var left := rest[|Cut(rest, CHUNK)|..];
             id == ChunkId(|anchors|, start == 0 && left == "") && bytes == Encode(Cut(rest, CHUNK))
    ensures Cutting(all, end, rest[|Cut(rest, CHUNK)|..], anchors + [(id, bytes)])
  {
    var first, k := Cut(rest, CHUNK), |anchors|;
    var left := rest[|first|..];
    assert Chunks(rest) == [first] + Chunks(left);
    DropOne(all, k, first, Chunks(left));
    assert |Chunks(left)| == 0 <==> left == "";
    NamedMore(all, anchors, first);
  }

  lemma NamedMore(all: seq<string>, anchors: seq<Anchor>, first: string)
    requires Named(all, anchors) && |anchors| < |all| && all[|anchors|] == first
    ensures Named(all, anchors + [(ChunkId(|anchors|, |all| == 1), Encode(first))])
  {
  }

  lemma DropOne(all: seq<string>, k: nat, first: string, others: seq<string>)
    requires k <= |all| && all[k..] == [first] + others
    ensures k < |all| && all[k] == first && all[k + 1..] == others
  {
    assert all[k..][0] == first;
    assert all[k..][1..] == others;
  }

  ghost predicate Preserving(all: seq<string>, bytes: seq<byte>, start: nat, rest: string, anchors: seq<Anchor>) {
    Reading(bytes, start, rest) && Cutting(all, start, rest, anchors)
  }

  lemma PreservingStep(all: seq<string>, bytes: seq<byte>, start: nat, rest: string, anchors: seq<Anchor>, end: nat)
    requires Preserving(all, bytes, start, rest, anchors) && rest != "" && end == start + ByteLen(Cut(rest, CHUNK))
    ensures start < end <= |bytes|
    ensures var id := ChunkId(|anchors|, start == 0 && end == |bytes|);
            Preserving(all, bytes, end, rest[|Cut(rest, CHUNK)|..], anchors + [(id, bytes[start..end])])
  {
    ChunkStep(bytes, start, rest);
    CuttingStep(all, start, rest, anchors, end, ChunkId(|anchors|, start == 0 && end == |bytes|), bytes[start..end]);
  }

  lemma PreservingEnds(all: seq<string>, bytes: seq<byte>, start: nat, rest: string, anchors: seq<Anchor>)
    requires Preserving(all, bytes, start, rest, anchors) && start == |bytes|
    ensures |anchors| == |all| && Named(all, anchors)
  {
    assert |all[|anchors|..]| == 0;
  }

  lemma PreservingStarts(prompt: string)
    ensures Preserving(Chunks(prompt), Encode(prompt), 0, prompt, [])
  {
    EncodeLength(prompt);
  }

  /** The preservation anchors of a prompt: its chunks in order, under distinct names. */
  method PreservePrompt(prompt: string) returns (anchors: seq<Anchor>)
    ensures |anchors| == |Chunks(prompt)| && Named(Chunks(prompt), anchors)
  {
    var bytes := Encode(prompt);
    anchors := [];
    var start: nat := 0;
    ghost var all, rest := Chunks(prompt), prompt;
    PreservingStarts(prompt);
    while start < |bytes|
      invariant Preserving(all, bytes, start, rest, anchors)
    {
      ghost var first := Cut(rest, CHUNK);
      var length := FloorBoundary(rest, bytes[start..], CHUNK);
      var end := start + length;
      PreservingStep(all, bytes, start, rest, anchors, end);
      anchors := anchors + [(ChunkId(|anchors|, start == 0 && end == |bytes|), bytes[start..end])];
      start, rest := end, rest[|first|..];
    }
    PreservingEnds(all, bytes, start, rest, anchors);
  }
}
