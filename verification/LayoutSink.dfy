/**
 The adapter that turns the layout blocks of a saved parser response into evidence anchors:
 a walk over a tree of blocks that adds anchors to a bounded sink. Its output has to pass
 the validator of the evidence envelope.
 */
module LayoutSink {
  import opened Common
  import opened Ordering
  import opened Text
  import opened Utf8Cut
  import Decimal

  const MAX_ANCHORS := 4096
  const MAX_TEXT_BYTES := 8192
  const MAX_ID_BYTES := 256
  const MAX_COORDINATE := 1_000_000

  // ----- the blocks of a response -----

  /** The roles the validator accepts for a fixed layout. */
  datatype Role = Heading | Paragraph | Table | Figure | Header | Footer | Title | List

  /**
   A block, as far as the walk looks at it. `pageStart` is present when the block has an
   integer page start; `vertices` are the numeric corners, scaled and rounded. A table
   carries the text its caption and cells join to.
   */
  datatype Block =
    | NotAnObject
    | Block(pageStart: Option<int>, vertices: seq<(int, int)>, content: Content)

  datatype Content =
    | NoContent
    | TableBlock(joined: string)
    | TextBlock(kind: Option<string>, text: Option<string>, nested: seq<Block>)

  datatype BBox = BBox(x0: int, y0: int, x1: int, y1: int)

  // ----- pure helpers -----

  /** White space, as `str.strip` sees it. */
  predicate IsSpace(c: char) {
    var n := c as int;
    || 9 <= n <= 13 || 28 <= n <= 32 || n == 0x85 || n == 0xA0 || n == 0x1680 || 0x2000 <= n <= 0x200A
    || n == 0x2028 || n == 0x2029 || n == 0x202F || n == 0x205F || n == 0x3000
  }

  function StripLeft(s: string): (t: string)
    ensures t != "" ==> !IsSpace(t[0])
  {
    if s != "" && IsSpace(s[0]) then StripLeft(s[1..]) else s
  }

  function StripRight(s: string): (t: string)
    ensures |t| <= |s| && t == s[..|t|]
    ensures t != "" ==> !IsSpace(t[|t| - 1])
  {
    if s != "" && IsSpace(s[|s| - 1]) then StripRight(s[..|s| - 1]) else s
  }

  function Strip(s: string): (t: string)
    ensures t != "" ==> !IsSpace(t[0]) && !IsSpace(t[|t| - 1])
  {
    StripRight(StripLeft(s))
  }

  predicate Blank(s: string) { forall i :: 0 <= i < |s| ==> IsSpace(s[i]) }

  lemma {:induction false} StripLeftBlank(s: string)
    ensures StripLeft(s) == "" <==> Blank(s)
  {
    if s != "" && IsSpace(s[0]) {
      StripLeftBlank(s[1..]);
      assert Blank(s[1..]) ==> Blank(s) by {
        assert s == [s[0]] + s[1..];
      }
      assert Blank(s) ==> Blank(s[1..]);
    }
  }

  /** A text is blank exactly when stripping leaves nothing. */
  lemma StripBlank(s: string)
    ensures Strip(s) == "" <==> Blank(s)
  {
    StripLeftBlank(s);
    var left := StripLeft(s);
    if left != "" {
      StripRightKeeps(left);
    }
  }

  lemma {:induction false} StripRightKeeps(s: string)
    requires s != "" && !IsSpace(s[0])
    ensures StripRight(s) != ""
  {
    if |s| > 1 && IsSpace(s[|s| - 1]) {
      StripRightKeeps(s[..|s| - 1]);
    }
  }

  /** The characters `str.strip` takes off, by number. */
  lemma SpacesExactly(c: char)
    ensures IsSpace(c) <==>
              c as int in [9, 10, 11, 12, 13, 28, 29, 30, 31, 32, 133, 160, 5760, 8192, 8193, 8194, 8195, 8196, 8197, 8198,
                           8199, 8200, 8201, 8202, 8232, 8233, 8239, 8287, 12288]
  {
  }

  lemma {:induction false} StripLeftParts(s: string) returns (a: string)
    ensures s == a + StripLeft(s) && Blank(a)
  {
    a := "";
    if s != "" && IsSpace(s[0]) {
      a := StripLeftParts(s[1..]);
      a := [s[0]] + a;
    }
  }

  lemma {:induction false} StripRightParts(s: string) returns (b: string)
    ensures s == StripRight(s) + b && Blank(b)
  {
    b := "";
    if s != "" && IsSpace(s[|s| - 1]) {
      b := StripRightParts(s[..|s| - 1]);
      b := b + [s[|s| - 1]];
    }
  }

  /** Stripping takes blank text off both ends, and what it leaves does not begin or end with a space. */
  lemma StripExactly(s: string) returns (a: string, b: string)
    ensures s == a + Strip(s) + b && Blank(a) && Blank(b)
    ensures Strip(s) != "" ==> !IsSpace(Strip(s)[0]) && !IsSpace(Strip(s)[|Strip(s)| - 1])
  {
    a := StripLeftParts(s);
    b := StripRightParts(StripLeft(s));
    assert a + (Strip(s) + b) == a + Strip(s) + b;
  }

  function PageOf(pageStart: Option<int>, inherited: int): int {
    if pageStart.Some? && pageStart.value >= 1 then pageStart.value else inherited
  }

  predicate StartsWith(s: string, prefix: string) { prefix <= s }

  /** Lower-casing matters for ASCII letters only: no other letter turns into one of these words. */
  function RoleOf(kind: Option<string>): Role {
    if kind.None? then Paragraph
    else
      var lowered := Lower(Strip(kind.value));
      if StartsWith(lowered, "heading") then Heading
      else if lowered == "footer" then Footer
      else if lowered == "header" then Header
      else if lowered == "list" then List
      else if lowered == "title" then Title
      else Paragraph
  }

  // ----- bounding boxes -----

  function Clamp(n: int): (c: int)
    ensures 0 <= c <= MAX_COORDINATE
  {
    if n < 0 then 0 else if n > MAX_COORDINATE then MAX_COORDINATE else n
  }

  function Least(s: seq<int>): (m: int)
    requires s != []
    ensures m in s && forall n :: n in s ==> m <= n
  {
    if |s| == 1 then s[0]
    else
      var m := Least(s[1..]);
      assert s == [s[0]] + s[1..];
      if s[0] < m then s[0] else m
  }

  function Most(s: seq<int>): (m: int)
    requires s != []
    ensures m in s && forall n :: n in s ==> n <= m
  {
    if |s| == 1 then s[0]
    else
      var m := Most(s[1..]);
      assert s == [s[0]] + s[1..];
      if s[0] > m then s[0] else m
  }

  function Xs(vertices: seq<(int, int)>): (xs: seq<int>)
    ensures |xs| == |vertices| && forall i :: 0 <= i < |xs| ==> xs[i] == Clamp(vertices[i].0)
  {
    seq(|vertices|, i requires 0 <= i < |vertices| => Clamp(vertices[i].0))
  }

  function Ys(vertices: seq<(int, int)>): (ys: seq<int>)
    ensures |ys| == |vertices| && forall i :: 0 <= i < |ys| ==> ys[i] == Clamp(vertices[i].1)
  {
    seq(|vertices|, i requires 0 <= i < |vertices| => Clamp(vertices[i].1))
  }

  const EMPTY_BOX := BBox(0, 0, 0, 0)

  /** The smallest box that holds the clamped vertices. */
  function BoxOf(vertices: seq<(int, int)>): (box: BBox)
    ensures 0 <= box.x0 <= box.x1 <= MAX_COORDINATE && 0 <= box.y0 <= box.y1 <= MAX_COORDINATE
  {
    if vertices == [] then EMPTY_BOX
    else BBox(Least(Xs(vertices)), Least(Ys(vertices)), Most(Xs(vertices)), Most(Ys(vertices)))
  }

  /** Collects the coordinates one vertex after the other. */
  method ReadBox(vertices: seq<(int, int)>) returns (box: BBox, saw: bool)
    ensures box == BoxOf(vertices) && saw == (vertices != [])
  {
    var xs, ys := [], [];
    for i := 0 to |vertices|
      invariant |xs| == |ys| == i
      invariant forall k :: 0 <= k < i ==> xs[k] == Clamp(vertices[k].0) && ys[k] == Clamp(vertices[k].1)
    {
      xs := xs + [Clamp(vertices[i].0)];
      ys := ys + [Clamp(vertices[i].1)];
    }
    if xs == [] {
      return EMPTY_BOX, false;
    }
    assert xs == Xs(vertices) && ys == Ys(vertices);
    return BBox(Least(xs), Least(ys), Most(xs), Most(ys)), true;
  }

  // ----- what a walk adds -----

  /** A call of `add` whose text is not blank. */
  datatype Call = Call(role: Role, text: string, page: int, box: BBox, sawBox: bool)

  function Adds(call: Call): (calls: seq<Call>) {
    if Strip(call.text) == "" then [] else [call]
  }

  /**
   The calls that walking the blocks makes, when `n` have been made before. The text of a
   block goes in when its nested blocks left the number of anchors unchanged: because they
   added nothing, or because the sink was already full.
   */
  function Calls(blocks: seq<Block>, page: int, n: nat): seq<Call>
    decreases blocks, 0
  {
    if blocks == [] then []
    else
      var first := OfBlock(blocks[0], page, n);
      first + Calls(blocks[1..], page, n + |first|)
  }

  function OfBlock(block: Block, inherited: int, n: nat): seq<Call>
    decreases block, 1
  {
    if block.NotAnObject? then []
    else
      var page := PageOf(block.pageStart, inherited);
      match block.content
      case NoContent => []
      case TableBlock(joined) => Adds(OwnCall(block, Table, joined, page))
      case TextBlock(kind, text, nested) => OfText(block, kind, text, nested, page, n)
  }

  function OfText(block: Block, kind: Option<string>, text: Option<string>, nested: seq<Block>, page: int, n: nat): seq<Call>
    requires block.Block? && block.content == TextBlock(kind, text, nested)
    decreases block.content, 0
  {
    var inner := Calls(nested, page, n);
    if inner != [] && n < MAX_ANCHORS then inner else inner + OwnText(block, kind, text, page)
  }

  function OwnCall(block: Block, role: Role, text: string, page: int): Call
    requires block.Block?
  {
    Call(role, text, page, BoxOf(block.vertices), block.vertices != [])
  }

  function OwnText(block: Block, kind: Option<string>, text: Option<string>, page: int): seq<Call>
    requires block.Block?
  {
    if text.None? then [] else Adds(OwnCall(block, RoleOf(kind), text.value, page))
  }

  // ----- the sink -----

  datatype Anchor = Anchor(id: string, role: Role, text: string, page: int, block: nat, box: BBox)

  function Clip(text: string): string { Cut(text, MAX_TEXT_BYTES) }

  function AnchorId(page: int, index: nat): string {
    "anc:pdf:" + Decimal.Padded(if page < 0 then 0 else page, 4) + ":" + Decimal.Padded(index, 4)
  }

  function AnchorOf(call: Call, index: nat): Anchor {
    Anchor(AnchorId(call.page, index), call.role, Clip(Strip(call.text)), call.page, index, call.box)
  }

  function Kept(calls: seq<Call>): (kept: seq<Call>)
    ensures |kept| <= MAX_ANCHORS && |kept| <= |calls| && kept == calls[..|kept|]
  {
    if |calls| <= MAX_ANCHORS then calls else calls[..MAX_ANCHORS]
  }

  function Over(bytes: nat): nat { if bytes > MAX_TEXT_BYTES then bytes - MAX_TEXT_BYTES else 0 }

  /** The bytes a call leaves out: nothing unless its stripped text was cut. */
  function LeftOut(call: Call): nat {
    if Clip(Strip(call.text)) != Strip(call.text) then Over(ByteLen(call.text)) else 0
  }

  /** The fields of a sink. */
  datatype Contents = Contents(anchors: seq<Anchor>, texts: seq<string>, omittedAnchors: nat, omittedBytes: nat,
                               sawTable: bool, sawBox: bool)
  {
    /** Adds one prepared text that left `bytes` bytes out. */
    function Put(role: Role, clipped: string, page: int, box: BBox, saw: bool, bytes: nat): Contents {
      if |anchors| >= MAX_ANCHORS then this.(omittedBytes := omittedBytes + bytes, omittedAnchors := omittedAnchors + 1)
      else
        var index := |anchors| + 1;
        Contents(anchors + [Anchor(AnchorId(page, index), role, clipped, page, index, box)], texts + [clipped], omittedAnchors,
                 omittedBytes + bytes, sawTable || role == Table, sawBox || saw)
    }

    function Add(call: Call): Contents {
      Put(call.role, Clip(Strip(call.text)), call.page, call.box, call.sawBox, LeftOut(call))
    }
  }

  const NOTHING := Contents([], [], 0, 0, false, false)

  /** What a sink holds after the given calls. */
  function After(calls: seq<Call>): Contents {
    if calls == [] then NOTHING else After(calls[..|calls| - 1]).Add(calls[|calls| - 1])
  }

  lemma AfterPut(calls: seq<Call>, call: Call, clipped: string, bytes: nat)
    requires clipped == Clip(Strip(call.text)) && bytes == LeftOut(call)
    ensures After(calls + [call]) == After(calls).Put(call.role, clipped, call.page, call.box, call.sawBox, bytes)
  {
    assert (calls + [call])[..|calls|] == calls;
  }

  lemma KeptMore(calls: seq<Call>)
    requires calls != []
    ensures var before := calls[..|calls| - 1];
            Kept(calls) == if |before| >= MAX_ANCHORS then Kept(before) else Kept(before) + [calls[|calls| - 1]]
  {
  }

  /** What one more call makes of the fields. */
  ghost predicate Stepped(before: Contents, now: Contents, call: Call) {
    if |before.anchors| >= MAX_ANCHORS then
      && now.anchors == before.anchors && now.texts == before.texts && now.omittedAnchors == before.omittedAnchors + 1
      && now.sawTable == before.sawTable && now.sawBox == before.sawBox
    else
      var anchor := AnchorOf(call, |before.anchors| + 1);
      && now.anchors == before.anchors + [anchor] && now.texts == before.texts + [anchor.text]
      && now.omittedAnchors == before.omittedAnchors
      && now.sawTable == (before.sawTable || call.role == Table) && now.sawBox == (before.sawBox || call.sawBox)
  }

  lemma AfterStep(calls: seq<Call>)
    requires calls != []
    ensures Stepped(After(calls[..|calls| - 1]), After(calls), calls[|calls| - 1])
  {
  }

  lemma {:induction false} AfterSizes(calls: seq<Call>)
    ensures var c := After(calls);
            && |c.anchors| == |c.texts| == |Kept(calls)| && |c.anchors| + c.omittedAnchors == |calls|
            && |c.anchors| == if |calls| <= 4096 then |calls| else 4096
  {
    if calls != [] {
      AfterSizes(calls[..|calls| - 1]);
      AfterStep(calls);
    }
  }

  ghost predicate AnchorAt(c: Contents, calls: seq<Call>, i: nat) {
    && i < |c.anchors| == |c.texts| && i < |calls|
    && c.anchors[i] == AnchorOf(calls[i], i + 1) && c.texts[i] == c.anchors[i].text
  }

  lemma AnchorAtStep(before: Contents, now: Contents, calls: seq<Call>, i: nat)
    requires calls != [] && Stepped(before, now, calls[|calls| - 1]) && |before.anchors| == |before.texts| <= |calls| - 1
    requires i < |now.anchors| && |before.anchors| == |Kept(calls[..|calls| - 1])|
    requires i < |before.anchors| ==> AnchorAt(before, calls[..|calls| - 1], i)
    ensures AnchorAt(now, calls, i)
  {
  }

  /** The anchors and texts are those of the first 4096 calls, numbered from one. */
  lemma {:induction false} AfterAnchors(calls: seq<Call>, i: nat)
    requires i < |Kept(calls)|
    ensures AnchorAt(After(calls), calls, i)
  {
    var n := |calls| - 1;
    AfterSizes(calls);
    AfterSizes(calls[..n]);
    AfterStep(calls);
    if i < |After(calls[..n]).anchors| {
      AfterAnchors(calls[..n], i);
    }
    AnchorAtStep(After(calls[..n]), After(calls), calls, i);
  }

  /** The identifier: a tag, at least four digits for the page and at least four for the number, and no zero more than that takes. */
  ghost predicate HasId(id: string, page: nat, number: nat) {
    exists p, n :: id == "anc:pdf:" + p + ":" + n && IsPadded(p, page) && IsPadded(n, number)
  }

  ghost predicate IsPadded(s: string, n: nat) {
    Decimal.AllDigits(s) && Decimal.Value(s) == n && |s| >= 4 && (|s| > 4 ==> s[0] != '0')
  }

  lemma AnchorIdExactly(page: nat, number: nat)
    ensures HasId(AnchorId(page, number), page, number)
  {
    Decimal.ValueOfPadded(page, 4);
    Decimal.ValueOfPadded(number, 4);
    Decimal.PaddedFirst(page, 4);
    Decimal.PaddedFirst(number, 4);
    assert IsPadded(Decimal.Padded(page, 4), page) && IsPadded(Decimal.Padded(number, 4), number);
  }

  /** The longest beginning of a text that takes at most 8192 bytes. */
  ghost predicate Clipped(clipped: string, text: string) {
    && clipped <= text && |Encode(clipped)| <= 8192
    && (clipped != text ==> |Encode(clipped)| + |EncodeChar(text[|clipped|])| > 8192)
  }

  /** An anchor field by field: where and what its call says, and the text without the space around it, clipped. */
  lemma AnchorExactly(call: Call, number: nat)
    requires call.page >= 0
    ensures var a := AnchorOf(call, number);
            && a.role == call.role && a.page == call.page && a.block == number && a.box == call.box
            && HasId(a.id, call.page, number) && Clipped(a.text, Strip(call.text))
  {
    AnchorIdExactly(call.page, number);
    CutExactly(Strip(call.text), 8192);
  }

  /** Each call whose text had to be clipped adds the bytes of the text, with the space around it, beyond 8192. */
  lemma BytesExactly(calls: seq<Call>, call: Call)
    ensures var bytes := |Encode(call.text)|;
            After(calls + [call]).omittedBytes ==
            After(calls).omittedBytes + if |Encode(Strip(call.text))| > 8192 && bytes > 8192 then bytes - 8192 else 0
  {
    hide Strip, Encode, Cut, ByteLen;
    AfterPut(calls, call, Clip(Strip(call.text)), LeftOut(call));
    EncodeLength(call.text);
    ClippedExactly(Strip(call.text));
  }

  lemma ClippedExactly(text: string)
    ensures Clip(text) != text <==> |Encode(text)| > 8192
  {
    CutIsLongest(text, 8192);
    EncodeLength(text);
    if Clip(text) != text {
      ByteLenSplit(text, |Clip(text)|);
      assert text[..|Clip(text)|] == Clip(text);
    }
  }

  /** The flags say whether a table, or a bounding box, was among the calls that were kept. */
  lemma {:induction false} AfterFlags(calls: seq<Call>)
    ensures After(calls).sawTable <==> exists call :: call in Kept(calls) && call.role == Table
    ensures After(calls).sawBox <==> exists call :: call in Kept(calls) && call.sawBox
  {
    if calls != [] {
      AfterFlags(calls[..|calls| - 1]);
      AfterSizes(calls[..|calls| - 1]);
      AfterStep(calls);
      KeptMore(calls);
    }
  }

  /** The calls made so far and those the blocks from `i` on will make are all the calls of a walk. */
  ghost predicate Walked(blocks: seq<Block>, page: int, start: seq<Call>, i: nat, now: seq<Call>) {
    i <= |blocks| && now + Calls(blocks[i..], page, |now|) == start + Calls(blocks, page, |start|)
  }

  lemma WalkedStep(blocks: seq<Block>, page: int, start: seq<Call>, i: nat, now: seq<Call>)
    requires i < |blocks| && Walked(blocks, page, start, i, now)
    ensures Walked(blocks, page, start, i + 1, now + OfBlock(blocks[i], page, |now|))
  {
    var first := OfBlock(blocks[i], page, |now|);
    var rest := Calls(blocks[i + 1..], page, |now + first|);
    assert blocks[i..][0] == blocks[i] && blocks[i..][1..] == blocks[i + 1..];
    assert now + (first + rest) == now + first + rest;
  }

  lemma WalkedEnds(blocks: seq<Block>, page: int, start: seq<Call>, now: seq<Call>)
    requires Walked(blocks, page, start, |blocks|, now)
    ensures now == start + Calls(blocks, page, |start|)
  {
    assert blocks[|blocks|..] == [] && now + [] == now;
  }

  // ----- the sink itself -----

  class LayoutSink {
    var anchors: seq<Anchor>
    var texts: seq<string>
    var omittedAnchors: nat
    var omittedBytes: nat
    var sawTable: bool
    var sawBox: bool
    ghost var calls: seq<Call>

    ghost function Fields(): Contents
      reads this
    {
      Contents(anchors, texts, omittedAnchors, omittedBytes, sawTable, sawBox)
    }

    ghost predicate Valid()
      reads this
    {
      Fields() == After(calls)
    }

    constructor ()
      ensures Valid() && calls == []
    {
      anchors, texts, omittedAnchors, omittedBytes, sawTable, sawBox := [], [], 0, 0, false, false;
      calls := [];
    }

    method Add(role: Role, text: string, page: int, box: BBox, saw: bool)
      requires Valid()
      modifies this
      ensures Valid() && calls == old(calls) + Adds(Call(role, text, page, box, saw))
    {
      ghost var call := Call(role, text, page, box, saw);
      var clipped, bytes := Prepare(text);
      if Strip(clipped) == "" {
        return;
      }
      AfterPut(calls, call, clipped, bytes);
      Store(role, clipped, page, box, saw, bytes);
      calls := calls + [call];
    }

    /** The part of `Add` that strips and clips a text, and counts what is left out. */
    static method Prepare(text: string) returns (clipped: string, bytes: nat)
      ensures clipped == Clip(Strip(text)) && (Strip(clipped) == "" <==> Strip(text) == "")
      ensures bytes == if clipped != Strip(text) then Over(ByteLen(text)) else 0
    {
      var stripped := Strip(text);
      clipped := Clip(stripped);
      ClipBlank(stripped);
      bytes := 0;
      if clipped != stripped {
        bytes := Over(ByteLen(text));
      }
    }

    /** The part of `Add` that changes the fields. */
    method Store(role: Role, clipped: string, page: int, box: BBox, saw: bool, bytes: nat)
      modifies this`anchors, this`texts, this`omittedAnchors, this`omittedBytes, this`sawTable, this`sawBox
      ensures Fields() == old(Fields()).Put(role, clipped, page, box, saw, bytes)
    {
      omittedBytes := omittedBytes + bytes;
      if |anchors| >= MAX_ANCHORS {
        omittedAnchors := omittedAnchors + 1;
        return;
      }
      var index := |anchors| + 1;
      anchors := anchors + [Anchor(AnchorId(page, index), role, clipped, page, index, box)];
      texts := texts + [clipped];
      if saw {
        sawBox := true;
      }
      if role == Table {
        sawTable := true;
      }
    }

    method Walk(blocks: seq<Block>, inheritedPage: int)
      requires Valid()
      modifies this
      ensures Valid() && calls == old(calls) + Calls(blocks, inheritedPage, |old(calls)|)
      decreases blocks, 0
    {
      assert blocks[0..] == blocks;
      for i := 0 to |blocks|
        invariant Valid() && Walked(blocks, inheritedPage, old(calls), i, calls)
      {
        WalkedStep(blocks, inheritedPage, old(calls), i, calls);
        WalkOne(blocks[i], inheritedPage);
      }
      WalkedEnds(blocks, inheritedPage, old(calls), calls);
    }

    method WalkOne(block: Block, inheritedPage: int)
      requires Valid()
      modifies this
      ensures Valid() && calls == old(calls) + OfBlock(block, inheritedPage, |old(calls)|)
      decreases block, 1
    {
      if block.NotAnObject? {
        return;
      }
      var page := PageOf(block.pageStart, inheritedPage);
      var box, saw := ReadBox(block.vertices);
      match block.content {
        case NoContent =>
        case TableBlock(joined) =>
          if joined != "" {
            Add(Table, joined, page, box, saw);
          }
        case TextBlock(kind, text, nested) =>
          WalkText(block, kind, text, nested, page, box, saw);
      }
    }

    method WalkText(ghost block: Block, kind: Option<string>, text: Option<string>, nested: seq<Block>, page: int, box: BBox, saw: bool)
      requires Valid() && block.Block? && block.content == TextBlock(kind, text, nested)
      requires box == BoxOf(block.vertices) && saw == (block.vertices != [])
      modifies this
      ensures Valid()
      ensures calls == old(calls) + OfText(block, kind, text, nested, page, |old(calls)|)
      decreases block.content, 0
    {
      var before := |anchors|;
      ghost var start := calls;
      WalkNested(nested, page);
      ghost var inner := Calls(nested, page, |start|);
      Grown(start, inner);
      TextCalls(start, inner, OwnText(block, kind, text, page));
      if |anchors| == before {
        AddOwnText(block, kind, text, page, box, saw);
      }
    }

    method WalkNested(nested: seq<Block>, page: int)
      requires Valid()
      modifies this
      ensures Valid() && calls == old(calls) + Calls(nested, page, |old(calls)|)
      decreases nested, 1
    {
      if nested != [] {
        Walk(nested, page);
      }
    }

    method AddOwnText(ghost block: Block, kind: Option<string>, text: Option<string>, page: int, box: BBox, saw: bool)
      requires Valid() && block.Block? && box == BoxOf(block.vertices) && saw == (block.vertices != [])
      modifies this
      ensures Valid() && calls == old(calls) + OwnText(block, kind, text, page)
    {
      if text.Some? && Strip(text.value) != "" {
        Add(RoleOf(kind), text.value, page, box, saw);
      }
    }
  }

  lemma TextCalls(start: seq<Call>, inner: seq<Call>, own: seq<Call>)
    ensures start + inner + own == start + (inner + own)
  {
  }

  /** Further calls leave the number of anchors unchanged when there are none, or the sink is full. */
  lemma Grown(calls: seq<Call>, more: seq<Call>)
    ensures |After(calls + more).anchors| == |After(calls).anchors| <==> more == [] || |calls| >= MAX_ANCHORS
  {
    AfterSizes(calls);
    AfterSizes(calls + more);
  }

  /** Clipping never makes a text blank. */
  lemma ClipBlank(stripped: string)
    requires stripped != "" ==> !IsSpace(stripped[0])
    ensures Strip(Clip(stripped)) == "" <==> stripped == ""
  {
    var clipped := Clip(stripped);
    if stripped != "" {
      assert clipped != "" && clipped[0] == stripped[0];
      StripRightKeeps(clipped);
    }
  }

  // ----- where the calls come from -----

  /** A trail of blocks, each nested in the one before, that leads from `blocks` to its last block. */
  ghost predicate TrailTo(blocks: seq<Block>, trail: seq<Block>)
    decreases |trail|
  {
    && trail != [] && trail[0] in blocks && trail[0].Block?
    && (|trail| == 1 || (trail[0].content.TextBlock? && TrailTo(trail[0].content.nested, trail[1..])))
  }

  predicate StartsPage(block: Block) { block.Block? && block.pageStart.Some? && block.pageStart.value >= 1 }

  /** The page of the last block of the trail that starts one, or else the page the walk was given. */
  ghost predicate OnPage(trail: seq<Block>, given: int, page: int) {
    || (exists k :: LastStart(trail, k, page))
    || (page == given && forall m :: 0 <= m < |trail| ==> !StartsPage(trail[m]))
  }

  ghost predicate LastStart(trail: seq<Block>, k: nat, page: int) {
    && k < |trail| && StartsPage(trail[k]) && trail[k].pageStart.value == page
    && forall m :: k < m < |trail| ==> !StartsPage(trail[m])
  }

  /** The roles by the kind of a text block, whose name is compared without case and surrounding space. */
  ghost predicate HasRole(kind: Option<string>, role: Role) {
    if kind.None? then role == Paragraph
    else
      var name := Lower(Strip(kind.value));
      match role
      case Heading => "heading" <= name
      case Footer => name == "footer"
      case Header => name == "header"
      case List => name == "list"
      case Title => name == "title"
      case Paragraph => !("heading" <= name) && name != "footer" && name != "header" && name != "list" && name != "title"
      case _ => false
  }

  /** `m` is the coordinate nearest to `n` that a box can have. */
  predicate Nearest(n: int, m: int) {
    0 <= m <= 1_000_000 && (n < 0 ==> m == 0) && (n > 1_000_000 ==> m == 1_000_000) && (0 <= n <= 1_000_000 ==> m == n)
  }

  /** Every vertex lies in the box once it is moved into range, and some vertex lies on each of its sides. */
  ghost predicate Encloses(box: BBox, vertices: seq<(int, int)>) {
    if vertices == [] then box == BBox(0, 0, 0, 0)
    else
      && (forall v, m :: v in vertices && Nearest(v.0, m) ==> box.x0 <= m <= box.x1)
      && (forall v, m :: v in vertices && Nearest(v.1, m) ==> box.y0 <= m <= box.y1)
      && (exists v :: v in vertices && Nearest(v.0, box.x0)) && (exists v :: v in vertices && Nearest(v.0, box.x1))
      && (exists v :: v in vertices && Nearest(v.1, box.y0)) && (exists v :: v in vertices && Nearest(v.1, box.y1))
  }

  lemma BoxEncloses(vertices: seq<(int, int)>)
    ensures Encloses(BoxOf(vertices), vertices)
  {
    if vertices != [] {
      var xs, ys, box := Xs(vertices), Ys(vertices), BoxOf(vertices);
      forall n ensures Nearest(n, Clamp(n)) {
      }
      forall v, m | v in vertices && Nearest(v.0, m) ensures box.x0 <= m <= box.x1 {
        var i :| 0 <= i < |vertices| && vertices[i] == v;
        assert xs[i] in xs && m == xs[i];
      }
      forall v, m | v in vertices && Nearest(v.1, m) ensures box.y0 <= m <= box.y1 {
        var i :| 0 <= i < |vertices| && vertices[i] == v;
        assert ys[i] in ys && m == ys[i];
      }
      SideIsVertex(xs, box.x0);
      SideIsVertex(xs, box.x1);
      SideIsVertex(ys, box.y0);
      SideIsVertex(ys, box.y1);
    }
  }

  lemma SideIsVertex(cs: seq<int>, c: int)
    requires c in cs
    ensures exists i :: 0 <= i < |cs| && cs[i] == c
  {
  }

  lemma RoleExactly(kind: Option<string>, role: Role)
    ensures HasRole(kind, role) <==> RoleOf(kind) == role
  {
    hide Lower, Strip;
    if kind.Some? {
      var name := Lower(Strip(kind.value));
      assert "footer"[0] == 'f' && "header"[3] == 'd' && "list"[0] == 'l' && "title"[0] == 't';
      assert "heading" <= name ==> name[0] == 'h' && name[3] == 'd' && name[4] == 'i';
      assert "header"[4] == 'e';
    }
  }

  /** The text of the block itself: of a table what it joins to, of a text block its text. */
  function OwnWords(block: Block): Option<string> {
    if block.NotAnObject? then None
    else match block.content case NoContent => None case TableBlock(joined) => Some(joined) case TextBlock(_, text, _) => text
  }

  predicate HasWords(block: Block) { OwnWords(block).Some? && !Blank(OwnWords(block).value) }

  /** The call is made for this block: its text, its role and its box. */
  ghost predicate MadeFor(call: Call, block: Block) {
    && HasWords(block) && OwnWords(block) == Some(call.text)
    && (if block.content.TableBlock? then call.role == Table else HasRole(block.content.kind, call.role))
    && Encloses(call.box, block.vertices) && call.sawBox == (block.vertices != [])
  }

  lemma OwnIsMadeFor(block: Block, page: int)
    requires block.Block? && HasWords(block)
    ensures block.content.TableBlock? ==>
              Adds(OwnCall(block, Table, block.content.joined, page)) == [OwnCall(block, Table, block.content.joined, page)]
              && MadeFor(OwnCall(block, Table, block.content.joined, page), block)
    ensures block.content.TextBlock? ==>
              var kind := block.content.kind;
              var call := OwnCall(block, RoleOf(kind), OwnWords(block).value, page);
              OwnText(block, kind, block.content.text, page) == [call] && MadeFor(call, block)
  {
    BoxEncloses(block.vertices);
    StripBlank(OwnWords(block).value);
    if block.content.TextBlock? {
      RoleExactly(block.content.kind, RoleOf(block.content.kind));
    }
  }

  lemma NoWordsNoCall(block: Block, page: int)
    requires block.Block? && !HasWords(block)
    ensures block.content.TableBlock? ==> Adds(OwnCall(block, Table, block.content.joined, page)) == []
    ensures block.content.TextBlock? ==> OwnText(block, block.content.kind, block.content.text, page) == []
  {
    if OwnWords(block).Some? {
      StripBlank(OwnWords(block).value);
    }
  }

  lemma PageAlong(block: Block, rest: seq<Block>, given: int, page: int)
    requires block.Block? && OnPage(rest, PageOf(block.pageStart, given), page)
    ensures OnPage([block] + rest, given, page)
  {
    var trail := [block] + rest;
    if k: nat :| LastStart(rest, k, page) {
      assert LastStart(trail, k + 1, page);
    } else {
      assert forall m :: 0 < m < |trail| ==> trail[m] == rest[m - 1];
      if StartsPage(block) {
        assert LastStart(trail, 0, page);
      }
    }
  }

  /** Every call is made for the last block of some trail, on the page of that trail. */
  lemma {:induction false} CallsFollowTrails(blocks: seq<Block>, page: int, n: nat, call: Call) returns (trail: seq<Block>)
    requires call in Calls(blocks, page, n)
    ensures TrailTo(blocks, trail) && MadeFor(call, trail[|trail| - 1]) && OnPage(trail, page, call.page)
    decreases blocks, 0
  {
    var first := OfBlock(blocks[0], page, n);
    if call in first {
      trail := BlockFollowsTrails(blocks[0], page, n, call);
    } else {
      trail := CallsFollowTrails(blocks[1..], page, n + |first|, call);
    }
  }

  lemma {:induction false} BlockFollowsTrails(block: Block, given: int, n: nat, call: Call) returns (trail: seq<Block>)
    requires call in OfBlock(block, given, n)
    ensures TrailTo([block], trail) && trail[0] == block && MadeFor(call, trail[|trail| - 1]) && OnPage(trail, given, call.page)
    decreases block, 1
  {
    var page := PageOf(block.pageStart, given);
    assert OnPage([], page, page);
    PageAlong(block, [], given, page);
    if !HasWords(block) {
      NoWordsNoCall(block, page);
    } else {
      OwnIsMadeFor(block, page);
    }
    trail := [block];
    if block.content.TextBlock? && call in Calls(block.content.nested, page, n) {
      var rest := CallsFollowTrails(block.content.nested, page, n, call);
      PageAlong(block, rest, given, call.page);
      trail := [block] + rest;
      assert trail[1..] == rest;
    } else {
      assert [block] + [] == [block];
    }
  }

  /** Whatever the trails lead to from here has no text of its own. */
  ghost predicate Silent(blocks: seq<Block>) {
    forall trail :: TrailTo(blocks, trail) ==> !HasWords(trail[|trail| - 1])
  }

  /** Conversely, a block with text at the end of a trail has a call made for it when it is a table or nothing nested in it has text. */
  lemma {:induction false} TrailsAreFollowed(blocks: seq<Block>, page: int, n: nat, trail: seq<Block>) returns (call: Call)
    requires TrailTo(blocks, trail) && HasWords(trail[|trail| - 1])
    requires trail[|trail| - 1].content.TextBlock? ==> Silent(trail[|trail| - 1].content.nested)
    ensures call in Calls(blocks, page, n) && MadeFor(call, trail[|trail| - 1]) && OnPage(trail, page, call.page)
    decreases blocks, 0
  {
    var first := OfBlock(blocks[0], page, n);
    if trail[0] == blocks[0] {
      call := TrailInBlock(blocks[0], page, n, trail);
    } else {
      call := TrailsAreFollowed(blocks[1..], page, n + |first|, trail);
    }
  }

  lemma {:induction false} TrailInBlock(block: Block, given: int, n: nat, trail: seq<Block>) returns (call: Call)
    requires TrailTo([block], trail) && HasWords(trail[|trail| - 1])
    requires trail[|trail| - 1].content.TextBlock? ==> Silent(trail[|trail| - 1].content.nested)
    ensures call in OfBlock(block, given, n) && MadeFor(call, trail[|trail| - 1]) && OnPage(trail, given, call.page)
    decreases block, 1
  {
    var page := PageOf(block.pageStart, given);
    assert trail == [block] + trail[1..];
    if |trail| == 1 {
      assert OnPage([], page, page) && trail[1..] == [];
      PageAlong(block, [], given, page);
      OwnIsMadeFor(block, page);
      if block.content.TableBlock? {
        call := OwnCall(block, Table, block.content.joined, page);
      } else {
        call := OwnCall(block, RoleOf(block.content.kind), OwnWords(block).value, page);
        if Calls(block.content.nested, page, n) != [] {
          var inner := CallsFollowTrails(block.content.nested, page, n, Calls(block.content.nested, page, n)[0]);
        }
      }
    } else {
      call := TrailsAreFollowed(block.content.nested, page, n, trail[1..]);
      PageAlong(block, trail[1..], given, call.page);
    }
  }

  // ----- what the cap changes -----

  /** The calls of a walk without a cap: a block's own text goes in only when its nested blocks add nothing. */
  function Uncapped(blocks: seq<Block>, page: int): seq<Call>
    decreases blocks, 0
  {
    if blocks == [] then [] else UncappedBlock(blocks[0], page) + Uncapped(blocks[1..], page)
  }

  function UncappedBlock(block: Block, inherited: int): seq<Call>
    decreases block, 1
  {
    if block.NotAnObject? then []
    else
      var page := PageOf(block.pageStart, inherited);
      match block.content
      case NoContent => []
      case TableBlock(joined) => Adds(OwnCall(block, Table, joined, page))
      case TextBlock(kind, text, nested) =>
        var inner := Uncapped(nested, page);
        if inner != [] then inner else OwnText(block, kind, text, page)
  }

  /** Two lists agree in their first `k` items, and are equal if shorter. */
  ghost predicate Agree<T>(a: seq<T>, b: seq<T>, k: int) {
    k <= 0 || a == b || (|a| >= k && |b| >= k && a[..k] == b[..k])
  }

  lemma AgreeAppend<T>(a: seq<T>, b: seq<T>, c: seq<T>, d: seq<T>, k: int)
    requires Agree(a, c, k) && Agree(b, d, k - |a|)
    ensures Agree(a + b, c + d, k)
  {
    if k > 0 {
      if a == c && |a| < k {
        if b != d {
          assert (a + b)[..k] == a + b[..k - |a|] && (c + d)[..k] == c + d[..k - |a|];
        }
      } else {
        assert (a + b)[..k] == a[..k] && (c + d)[..k] == c[..k];
      }
    }
  }

  /**
   The cap does not change which anchors are kept: the calls of the capped walk agree with
   those of the uncapped walk until the sink is full.
   */
  lemma {:induction false} CapKeepsPrefix(blocks: seq<Block>, page: int, n: nat)
    ensures Agree(Calls(blocks, page, n), Uncapped(blocks, page), MAX_ANCHORS - n)
    decreases blocks, 0
  {
    if blocks != [] {
      CapKeepsBlock(blocks[0], page, n);
      var first := OfBlock(blocks[0], page, n);
      CapKeepsPrefix(blocks[1..], page, n + |first|);
      AgreeAppend(first, Calls(blocks[1..], page, n + |first|), UncappedBlock(blocks[0], page), Uncapped(blocks[1..], page), MAX_ANCHORS - n);
    }
  }

  lemma {:induction false} CapKeepsBlock(block: Block, page: int, n: nat)
    ensures Agree(OfBlock(block, page, n), UncappedBlock(block, page), MAX_ANCHORS - n)
    decreases block, 1
  {
    if block.Block? && block.content.TextBlock? {
      CapKeepsPrefix(block.content.nested, PageOf(block.pageStart, page), n);
    }
  }

  /** The anchors of a fresh sink are those of the first 4096 calls of the uncapped walk. */
  lemma AnchorsAreUncapped(blocks: seq<Block>, page: int)
    ensures Kept(Calls(blocks, page, 0)) == Kept(Uncapped(blocks, page))
  {
    CapKeepsPrefix(blocks, page, 0);
    AgreeKept(Calls(blocks, page, 0), Uncapped(blocks, page));
  }

  lemma AgreeKept(a: seq<Call>, b: seq<Call>)
    requires Agree(a, b, MAX_ANCHORS)
    ensures Kept(a) == Kept(b)
  {
  }

  // ----- what the validator accepts -----

  predicate IsIdChar(c: char) {
    'A' <= c <= 'Z' || 'a' <= c <= 'z' || '0' <= c <= '9' || c == '.' || c == '/' || c == ':' || c == '_' || c == '-'
  }

  predicate IsId(id: string) {
    1 <= |id| <= MAX_ID_BYTES && forall i :: 0 <= i < |id| ==> IsIdChar(id[i])
  }

  predicate LocatorAccepted(page: int, block: int, box: BBox) {
    && 1 <= page <= 1_000_000 && 1 <= block <= 1_000_000
    && 0 <= box.x0 <= box.x1 <= 1_000_000 && 0 <= box.y0 <= box.y1 <= 1_000_000
  }

  predicate AnchorAccepted(a: Anchor) {
    IsId(a.id) && !Blank(a.text) && ByteLen(a.text) <= MAX_TEXT_BYTES && LocatorAccepted(a.page, a.block, a.box)
  }

  /** A letter, a digit, or one of `-`, `.`, `/`, `:` and `_`, by their numbers in ASCII. */
  predicate InIdAlphabet(n: int) { 65 <= n <= 90 || 97 <= n <= 122 || 48 <= n <= 57 || n in [45, 46, 47, 58, 95] }

  /** What is demanded of one anchor, in characters and numbers. */
  lemma AnchorAcceptedExactly(a: Anchor)
    ensures AnchorAccepted(a) <==>
              && 1 <= |a.id| <= 256 && (forall i :: 0 <= i < |a.id| ==> InIdAlphabet(a.id[i] as int))
              && (exists i :: 0 <= i < |a.text| && !IsSpace(a.text[i])) && |Encode(a.text)| <= 8192
              && 1 <= a.page <= 1_000_000 && 1 <= a.block <= 1_000_000
              && 0 <= a.box.x0 <= a.box.x1 <= 1_000_000 && 0 <= a.box.y0 <= a.box.y1 <= 1_000_000
  {
    hide IsSpace, Encode, ByteLen;
    EncodeLength(a.text);
    forall c: char ensures IsIdChar(c) <==> InIdAlphabet(c as int) {
    }
  }

  predicate IdLeq(a: Anchor, b: Anchor) { StringLeq(a.id, b.id) }

  function IdOf(a: Anchor): string { a.id }

  /** The anchor clauses of the validator, and that the identifiers are unique and in order. */
  ghost predicate Accepted(anchors: seq<Anchor>) {
    && 1 <= |anchors| <= MAX_ANCHORS
    && All(AnchorAccepted, anchors)
    && DistinctBy(IdOf, anchors) && Sorted(IdLeq, anchors)
  }

  ghost predicate WellFormed(call: Call) {
    && call.page >= 1 && !Blank(call.text)
    && 0 <= call.box.x0 <= call.box.x1 <= MAX_COORDINATE && 0 <= call.box.y0 <= call.box.y1 <= MAX_COORDINATE
  }

  lemma {:induction false} CallsWellFormed(blocks: seq<Block>, page: int, n: nat)
    requires page >= 1
    ensures forall call :: call in Calls(blocks, page, n) ==> WellFormed(call)
    decreases blocks, 0
  {
    if blocks != [] {
      BlockWellFormed(blocks[0], page, n);
      CallsWellFormed(blocks[1..], page, n + |OfBlock(blocks[0], page, n)|);
    }
  }

  lemma {:induction false} BlockWellFormed(block: Block, page: int, n: nat)
    requires page >= 1
    ensures forall call :: call in OfBlock(block, page, n) ==> WellFormed(call)
    decreases block, 1
  {
    if block.Block? {
      match block.content {
        case NoContent =>
        case TableBlock(joined) =>
          StripBlank(joined);
        case TextBlock(kind, text, nested) =>
          CallsWellFormed(nested, PageOf(block.pageStart, page), n);
          if text.Some? { StripBlank(text.value); }
      }
    }
  }

  lemma IdAccepted(page: int, index: nat)
    requires 1 <= page <= 1_000_000 && index <= MAX_ANCHORS
    ensures IsId(AnchorId(page, index))
  {
    assert Decimal.Pow10(7) == 10_000_000 && Decimal.Pow10(4) == 10_000;
    Decimal.ToStringLength(page, 7);
    Decimal.ToStringLength(index, 4);
  }

  lemma IdsDiffer(page: int, i: nat, other: int, j: nat)
    requires i <= MAX_ANCHORS && j <= MAX_ANCHORS && AnchorId(page, i) == AnchorId(other, j)
    ensures i == j
  {
    assert Decimal.Pow10(4) == 10_000;
    Decimal.PaddedLength(i, 4);
    Decimal.PaddedLength(j, 4);
    var a, b := AnchorId(page, i), AnchorId(other, j);
    assert a[|a| - 4..] == Decimal.Padded(i, 4) && b[|b| - 4..] == Decimal.Padded(j, 4);
    Decimal.ParsePrinted(i, MAX_ANCHORS, 4);
    Decimal.ParsePrinted(j, MAX_ANCHORS, 4);
  }

  lemma KeptAnchor(calls: seq<Call>, i: nat)
    requires i < |Kept(calls)| && WellFormed(calls[i])
    ensures |After(calls).anchors| == |Kept(calls)|
    ensures var a := After(calls).anchors[i];
            a == AnchorOf(calls[i], i + 1) && (AnchorAccepted(a) <==> calls[i].page <= 1_000_000)
  {
    AfterSizes(calls);
    AfterAnchors(calls, i);
    var stripped := Strip(calls[i].text);
    StripBlank(calls[i].text);
    ClipBlank(stripped);
    StripBlank(Clip(stripped));
    if calls[i].page <= 1_000_000 {
      IdAccepted(calls[i].page, i + 1);
    }
  }

  lemma TwoIds(calls: seq<Call>, i: nat, j: nat)
    requires i < j < |Kept(calls)| == |After(calls).anchors|
    ensures After(calls).anchors[i].id != After(calls).anchors[j].id
  {
    hide AnchorId, After;
    IdAt(calls, i);
    IdAt(calls, j);
    if AnchorId(calls[i].page, i + 1) == AnchorId(calls[j].page, j + 1) {
      IdsDiffer(calls[i].page, i + 1, calls[j].page, j + 1);
    }
  }

  lemma AnchorIdsDiffer(calls: seq<Call>)
    ensures |After(calls).anchors| == |Kept(calls)| && DistinctBy(IdOf, After(calls).anchors)
  {
    hide After, Kept;
    var anchors := After(calls).anchors;
    AfterSizes(calls);
    forall i, j | 0 <= i < j < |anchors| ensures IdOf(anchors[i]) != IdOf(anchors[j]) {
      TwoIds(calls, i, j);
    }
  }

  lemma IdAt(calls: seq<Call>, i: nat)
    requires i < |Kept(calls)|
    ensures i < |After(calls).anchors| && After(calls).anchors[i].id == AnchorId(calls[i].page, i + 1)
  {
    AfterAnchors(calls, i);
  }

  lemma IdOrder()
    ensures TotalPreorder(IdLeq)
  {
    StringOrder();
    assert forall a, b :: IdLeq(a, b) == StringLeq(a.id, b.id);
  }

  ghost predicate All<T>(p: T -> bool, s: seq<T>) { forall i :: 0 <= i < |s| ==> p(s[i]) }

  lemma AllMoves<T>(p: T -> bool, s: seq<T>, t: seq<T>)
    requires multiset(s) == multiset(t) && All(p, s)
    ensures All(p, t)
  {
    forall i | 0 <= i < |t| ensures p(t[i]) {
      assert t[i] in multiset(s);
      assert t[i] in s;
    }
  }

  /** Sorting keeps what is said of every anchor. */
  lemma SortedAccepted(anchors: seq<Anchor>)
    requires DistinctBy(IdOf, anchors) && |anchors| <= MAX_ANCHORS
    ensures Accepted(Sort(IdLeq, anchors)) <==> anchors != [] && All(AnchorAccepted, anchors)
  {
    var sorted := Sort(IdLeq, anchors);
    IdOrder();
    SortSorts(IdLeq, anchors);
    DistinctPermutation(IdOf, anchors, sorted);
    if All(AnchorAccepted, anchors) {
      AllMoves(AnchorAccepted, anchors, sorted);
    }
    if All(AnchorAccepted, sorted) {
      AllMoves(AnchorAccepted, sorted, anchors);
    }
  }

  /**
   The generator meets the validator: for every tree of blocks, the sorted anchors of a
   fresh sink pass if and only if there are any and no kept one is on a page beyond a
   million. Nothing else can go wrong: identifiers, texts and locators are always in order.
   */
  lemma EnvelopeAccepted(blocks: seq<Block>)
    ensures var calls := Calls(blocks, 1, 0);
            Accepted(Sort(IdLeq, After(calls).anchors))
            <==> calls != [] && forall i :: 0 <= i < |Kept(calls)| ==> calls[i].page <= 1_000_000
  {
    var calls := Calls(blocks, 1, 0);
    CallsWellFormed(blocks, 1, 0);
    AnchorIdsDiffer(calls);
    SortedAccepted(After(calls).anchors);
    forall i | 0 <= i < |Kept(calls)| ensures AnchorAccepted(After(calls).anchors[i]) <==> calls[i].page <= 1_000_000 {
      assert calls[i] in calls;
      KeptAnchor(calls, i);
    }
  }

  /** No block of the tree starts on a page beyond a million. */
  predicate PagesBounded(blocks: seq<Block>)
    decreases blocks
  {
    forall i :: 0 <= i < |blocks| && blocks[i].Block? ==>
      && (blocks[i].pageStart.Some? ==> blocks[i].pageStart.value <= 1_000_000)
      && (blocks[i].content.TextBlock? ==> PagesBounded(blocks[i].content.nested))
  }

  ghost predicate PageBounded(call: Call) { call.page <= 1_000_000 }

  lemma {:induction false} BoundedPages(blocks: seq<Block>, page: int, n: nat)
    requires PagesBounded(blocks) && page <= 1_000_000
    ensures forall call :: call in Calls(blocks, page, n) ==> PageBounded(call)
    decreases blocks, 0
  {
    if blocks != [] {
      BoundedBlock(blocks[0], page, n);
      BoundedPages(blocks[1..], page, n + |OfBlock(blocks[0], page, n)|);
    }
  }

  lemma {:induction false} BoundedBlock(block: Block, page: int, n: nat)
    requires PagesBounded([block]) && page <= 1_000_000
    ensures forall call :: call in OfBlock(block, page, n) ==> PageBounded(call)
    decreases block, 1
  {
    assert [block][0] == block;
    if block.Block? && block.content.TextBlock? {
      BoundedPages(block.content.nested, PageOf(block.pageStart, page), n);
    }
  }

  /** Hence every tree with pages up to a million and some text yields an accepted list of anchors. */
  lemma BoundedTreeAccepted(blocks: seq<Block>)
    requires PagesBounded(blocks) && Calls(blocks, 1, 0) != []
    ensures Accepted(Sort(IdLeq, After(Calls(blocks, 1, 0)).anchors))
  {
    BoundedPages(blocks, 1, 0);
    EnvelopeAccepted(blocks);
    var calls := Calls(blocks, 1, 0);
    forall i | 0 <= i < |Kept(calls)| ensures calls[i].page <= 1_000_000 {
      assert calls[i] in calls && PageBounded(calls[i]);
    }
  }

  lemma OneBlockCalls(block: Block, text: string)
    requires block.Block? && block.content == TextBlock(None, Some(text), []) && Strip(text) != ""
    ensures Calls([block], 1, 0) == [OwnCall(block, Paragraph, text, PageOf(block.pageStart, 1))]
  {
    hide Strip, BoxOf;
    var at := PageOf(block.pageStart, 1);
    assert OfText(block, None, Some(text), [], at, 0) == OwnText(block, None, Some(text), at);
    assert Calls([block], 1, 0) == OfBlock(block, 1, 0) + Calls([block][1..], 1, 1);
  }

  /** A tree of one block with text is accepted exactly up to page 1,000,000: page 1,000,001 is refused. */
  lemma OneBlockAccepted(page: int, text: string)
    requires Strip(text) != ""
    ensures var blocks := [Block(Some(page), [], TextBlock(None, Some(text), []))];
            Accepted(Sort(IdLeq, After(Calls(blocks, 1, 0)).anchors)) <==> page <= 1_000_000
  {
    hide Accepted, After, Sort, Calls, Strip, BoxOf;
    var block := Block(Some(page), [], TextBlock(None, Some(text), []));
    var calls := Calls([block], 1, 0);
    OneBlockCalls(block, text);
    EnvelopeAccepted([block]);
    assert |Kept(calls)| == 1 && calls[0].page == PageOf(Some(page), 1);
  }

  // ----- the validator's loop -----

  datatype ContractError = MalformedStructure | Oversized

  /** A list equals its sorted form exactly when it is in order. */
  lemma InOrder(anchors: seq<Anchor>, ids: seq<string>)
    requires |ids| == |anchors| && forall i :: 0 <= i < |ids| ==> ids[i] == anchors[i].id
    ensures ids == Sort(StringLeq, ids) <==> Sorted(IdLeq, anchors)
  {
    StringOrder();
    SortSorts(StringLeq, ids);
    if Sorted(IdLeq, anchors) {
      forall i, j | 0 <= i < j < |ids| ensures StringLeq(ids[i], ids[j]) {
        assert IdLeq(anchors[i], anchors[j]);
      }
      SortedUnique(StringLeq, ids, Sort(StringLeq, ids));
    }
  }

  /** Goes over the anchors of an envelope as the validator does, collecting the identifiers seen. */
  method ClassifyAnchors(anchors: seq<Anchor>) returns (error: Option<ContractError>)
    ensures error == None <==> Accepted(anchors)
    ensures |anchors| > MAX_ANCHORS ==> error == Some(Oversized)
  {
    hide IsSpace, IsIdChar, LocatorAccepted, ByteLen, Sort;
    if !(1 <= |anchors| <= MAX_ANCHORS) {
      return Some(if |anchors| > MAX_ANCHORS then Oversized else MalformedStructure);
    }
    var seen: set<string> := {};
    for i := 0 to |anchors|
      invariant forall k :: 0 <= k < i ==> AnchorAccepted(anchors[k])
      invariant seen == set k | 0 <= k < i :: anchors[k].id
      invariant DistinctBy(IdOf, anchors[..i])
    {
      var anchor := anchors[i];
      if !IsId(anchor.id) || anchor.id in seen {
        if anchor.id in seen {
          var k :| 0 <= k < i && anchors[k].id == anchor.id;
          assert IdOf(anchors[k]) == IdOf(anchors[i]);
        }
        return Some(MalformedStructure);
      }
      seen := seen + {anchor.id};
      if Strip(anchor.text) == "" {
        StripBlank(anchor.text);
        return Some(MalformedStructure);
      }
      StripBlank(anchor.text);
      if ByteLen(anchor.text) > MAX_TEXT_BYTES {
        return Some(Oversized);
      }
      if !LocatorAccepted(anchor.page, anchor.block, anchor.box) {
        return Some(MalformedStructure);
      }
    }
    assert anchors[..|anchors|] == anchors;
    var ids := seq(|anchors|, i requires 0 <= i < |anchors| => anchors[i].id);
    InOrder(anchors, ids);
    if ids != Sort(StringLeq, ids) {
      return Some(MalformedStructure);
    }
    return None;
  }
}
