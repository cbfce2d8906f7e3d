/**
 Excerpts of documents, cut on character boundaries, that share a byte budget.

 How one text is cut is a parameter; what is said of all the cuts together is proved for
 every way of cutting, and then for text.
 */
module Excerpting {
  import opened Common
  import opened Text
  import opened Utf8Cut

  function Min(a: nat, b: nat): nat { if a <= b then a else b }

  function SaturatingSub(a: nat, b: nat): nat { if a < b then 0 else a - b }

  // ----- cutting items one after the other -----

  /** A way of cutting an item down to a size. */
  datatype Knife<!T> = Knife(cut: (T, nat) -> T, size: T -> nat)

  ghost predicate Fits<T(!new)>(knife: Knife<T>) {
    forall item, max :: knife.size(knife.cut(item, max)) <= max
  }

  function Cuts<T>(knife: Knife<T>, items: seq<T>, remaining: nat, each: nat): (cuts: seq<T>)
    ensures |cuts| == |items|
  {
    if items == [] then []
    else
      var first := knife.cut(items[0], Min(remaining, each));
      [first] + Cuts(knife, items[1..], SaturatingSub(remaining, knife.size(first)), each)
  }

  function Total<T>(size: T -> nat, items: seq<T>): nat {
    if items == [] then 0 else size(items[0]) + Total(size, items[1..])
  }

  lemma TotalStep<T>(size: T -> nat, first: T, rest: seq<T>)
    ensures Total(size, [first] + rest) == size(first) + Total(size, rest)
  {
    assert ([first] + rest)[1..] == rest;
  }

  lemma {:induction false} CutsFit<T(!new)>(knife: Knife<T>, items: seq<T>, remaining: nat, each: nat)
    requires Fits(knife)
    ensures Total(knife.size, Cuts(knife, items, remaining, each)) <= remaining
  {
    if items != [] {
      var first := knife.cut(items[0], Min(remaining, each));
      var left := SaturatingSub(remaining, knife.size(first));
      CutsFit(knife, items[1..], left, each);
      TotalStep(knife.size, first, Cuts(knife, items[1..], left, each));
    }
  }

  /** Every cut is made at the item's own limit or at what the earlier ones left, whichever is less. */
  lemma {:induction false} CutsShare<T(!new)>(knife: Knife<T>, items: seq<T>, remaining: nat, each: nat, i: nat)
    requires i < |items| && Fits(knife)
    ensures var all := Cuts(knife, items, remaining, each); var before := Total(knife.size, all[..i]);
            before <= remaining
            && all[i] == knife.cut(items[i], if remaining - before < each then remaining - before else each)
  {
    if i > 0 {
      var first := knife.cut(items[0], Min(remaining, each));
      var left := SaturatingSub(remaining, knife.size(first));
      var rest := Cuts(knife, items[1..], left, each);
      CutsShare(knife, items[1..], left, each, i - 1);
      TotalStep(knife.size, first, rest[..i - 1]);
      assert ([first] + rest)[..i] == [first] + rest[..i - 1];
    }
  }

  /** What has been produced so far, put before what the rest will produce, is the whole. */
  ghost predicate Produced<T>(size: T -> nat, items: seq<T>, all: seq<T>, done: seq<T>, used: nat, short: bool,
                              rest: seq<T>, cuts: seq<T>) {
    && all == done + cuts
    && Total(size, all) == used + Total(size, cuts)
    && (all != items <==> short || cuts != rest)
  }

  lemma ProducedStep<T>(size: T -> nat, items: seq<T>, all: seq<T>, done: seq<T>, used: nat, short: bool,
                        rest: seq<T>, cut: T, cuts: seq<T>)
    requires rest != [] && Produced(size, items, all, done, used, short, rest, [cut] + cuts)
    ensures Produced(size, items, all, done + [cut], used + size(cut), short || cut != rest[0], rest[1..], cuts)
  {
    TotalStep(size, cut, cuts);
    assert ([cut] + cuts)[1..] == cuts && rest == [rest[0]] + rest[1..];
    assert done + [cut] + cuts == done + ([cut] + cuts);
  }

  ghost predicate Taking<T>(knife: Knife<T>, texts: seq<T>, all: seq<T>, done: seq<T>, used: nat, short: bool, i: nat, remaining: nat, each: nat) {
    i <= |texts| && Produced(knife.size, texts, all, done, used, short, texts[i..], Cuts(knife, texts[i..], remaining, each))
  }

  lemma TakeStep<T>(knife: Knife<T>, texts: seq<T>, all: seq<T>, done: seq<T>, used: nat, short: bool, i: nat, remaining: nat, each: nat)
    requires i < |texts| && Taking(knife, texts, all, done, used, short, i, remaining, each)
    ensures var cut := knife.cut(texts[i], Min(remaining, each)); var left := SaturatingSub(remaining, knife.size(cut));
            Taking(knife, texts, all, done + [cut], used + knife.size(cut), short || cut != texts[i], i + 1, left, each)
  {
    var cut := knife.cut(texts[i], Min(remaining, each));
    var left := SaturatingSub(remaining, knife.size(cut));
    assert texts[i..][0] == texts[i] && texts[i..][1..] == texts[i + 1..];
    ProducedStep(knife.size, texts, all, done, used, short, texts[i..], cut, Cuts(knife, texts[i + 1..], left, each));
  }

  lemma TakingEnds<T>(knife: Knife<T>, texts: seq<T>, all: seq<T>, done: seq<T>, used: nat, short: bool, remaining: nat, each: nat)
    requires Taking(knife, texts, all, done, used, short, |texts|, remaining, each)
    ensures all == done && used == Total(knife.size, done) && (short <==> done != texts)
  {
    assert texts[|texts|..] == [] && done + [] == done;
  }

  /** The budget the excerpts of one answer share; `knife` is how one text is cut. */
  class ExcerptBudget<T(==, !new)> {
    const knife: Knife<T>
    var remainingBytes: nat
    const perExcerptBytes: nat

    constructor (knife: Knife<T>, remainingBytes: nat, perExcerptBytes: nat)
      ensures this.knife == knife && this.remainingBytes == remainingBytes && this.perExcerptBytes == perExcerptBytes
    {
      this.knife := knife;
      this.remainingBytes := remainingBytes;
      this.perExcerptBytes := perExcerptBytes;
    }

    /** Cuts one text after the other, each at what is left of the budget. */
    method Take(texts: seq<T>) returns (excerpts: seq<T>, excerptBytes: nat, truncated: bool)
      requires Fits(knife)
      modifies this`remainingBytes
      ensures excerpts == Cuts(knife, texts, old(remainingBytes), perExcerptBytes)
      ensures excerptBytes == Total(knife.size, excerpts) && (truncated <==> excerpts != texts)
      ensures remainingBytes + excerptBytes == old(remainingBytes)
    {
      excerpts, excerptBytes, truncated := [], 0, false;
      ghost var all := Cuts(knife, texts, remainingBytes, perExcerptBytes);
      ghost var left: nat := remainingBytes;
      assert texts[0..] == texts;
      for i := 0 to |texts|
        invariant Taking(knife, texts, all, excerpts, excerptBytes, truncated, i, left, perExcerptBytes)
        invariant remainingBytes == left && left + excerptBytes == old(remainingBytes)
      {
        TakeStep(knife, texts, all, excerpts, excerptBytes, truncated, i, left, perExcerptBytes);
        var cut := knife.cut(texts[i], Min(remainingBytes, perExcerptBytes));
        excerpts := excerpts + [cut];
        remainingBytes := remainingBytes - knife.size(cut);
        excerptBytes := excerptBytes + knife.size(cut);
        truncated := truncated || cut != texts[i];
        left := SaturatingSub(left, knife.size(cut));
      }
      TakingEnds(knife, texts, all, excerpts, excerptBytes, truncated, left, perExcerptBytes);
    }
  }

  // ----- text -----

  /** Text is cut at the last character boundary, which `FloorBoundary` finds. */
  const TEXT_KNIFE: Knife<string> := Knife(Cut, ByteLen)

  lemma TextKnifeFits()
    ensures Fits(TEXT_KNIFE)
  {
  }

  /** An excerpt counts as truncated when it has fewer bytes than its text, which is when it differs from it. */
  lemma CutShort(s: string, limit: nat)
    ensures ByteLen(Cut(s, limit)) < |Encode(s)| <==> Cut(s, limit) != s
  {
    var prefix := Cut(s, limit);
    EncodeLength(s);
    CutIsLongest(s, limit);
    ByteLenSplit(s, |prefix|);
    assert s[..|prefix|] == prefix;
  }

  /** The excerpts of the texts, and the bytes they take. */
  function Excerpts(texts: seq<string>, remaining: nat, each: nat): seq<string> {
    Cuts(TEXT_KNIFE, texts, remaining, each)
  }

  function TotalBytes(texts: seq<string>): nat { Total(TEXT_KNIFE.size, texts) }

  /**
   An excerpt that comes after `before` bytes of others: a prefix of its text that fits the
   limit and the budget; and where text was cut off, the next character fitted one of them no more.
   */
  ghost predicate Fitted(text: string, excerpt: string, before: nat, remaining: nat, each: nat) {
    && excerpt <= text && |Encode(excerpt)| <= each && before + |Encode(excerpt)| <= remaining
    && (excerpt != text ==>
          var more := |Encode(excerpt)| + |EncodeChar(text[|excerpt|])|;
          more > each || before + more > remaining)
  }

  lemma FittedCut(text: string, before: nat, remaining: nat, each: nat)
    requires before <= remaining
    ensures Fitted(text, Cut(text, if remaining - before < each then remaining - before else each), before, remaining, each)
  {
    CutExactly(text, if remaining - before < each then remaining - before else each);
  }

  /** So is every excerpt of the texts. */
  lemma ExcerptsExactly(texts: seq<string>, remaining: nat, each: nat, i: nat)
    requires i < |texts|
    ensures var all := Excerpts(texts, remaining, each);
            Fitted(texts[i], all[i], TotalBytes(all[..i]), remaining, each)
  {
    hide Cuts, Cut, Total, Fitted;
    TextKnifeFits();
    var all := Excerpts(texts, remaining, each);
    CutsShare(TEXT_KNIFE, texts, remaining, each, i);
    FittedCut(texts[i], TotalBytes(all[..i]), remaining, each);
  }

  /** The bytes the excerpts take are those of their encodings. */
  lemma TotalExactly(texts: seq<string>)
    ensures texts == [] ==> TotalBytes(texts) == 0
    ensures texts != [] ==> TotalBytes(texts) == |Encode(texts[0])| + TotalBytes(texts[1..])
  {
    if texts != [] {
      EncodeLength(texts[0]);
    }
  }

  // ----- the budget a packet leaves for excerpts -----

  const USIZE_MAX: nat := 0xFFFF_FFFF_FFFF_FFFF

  function RemainingBytes(maxBytes: nat, encoded: nat, raw: nat, ceiling: Option<nat>): nat {
    Min(SaturatingSub(maxBytes, if encoded < raw then raw else encoded),
        match ceiling
        case None => USIZE_MAX
        case Some(tokens) => SaturatingSub(Min(tokens * 4, USIZE_MAX), encoded))
  }

  /** The token estimate. */
  function Tokens(bytes: nat): nat { (bytes + 3) / 4 }

  /** Four bytes a token, rounded up. */
  lemma TokensExactly(bytes: nat)
    ensures 4 * Tokens(bytes) - 4 < bytes <= 4 * Tokens(bytes)
  {
  }

  /**
   The budget is the greatest that keeps the limits: `n` more bytes are within it exactly when
   the packet and they fit the byte limit, in its encoded and in its raw form, and when they
   fit the token ceiling, if there is one.
   */
  lemma RemainingExactly(maxBytes: nat, encoded: nat, raw: nat, ceiling: Option<nat>, n: nat)
    requires maxBytes <= USIZE_MAX && n > 0
    ensures n <= RemainingBytes(maxBytes, encoded, raw, ceiling)
            <==> && encoded + n <= maxBytes && raw + n <= maxBytes
                 && (ceiling.Some? ==> Tokens(encoded + n) <= ceiling.value)
  {
    TokensExactly(encoded + n);
  }

  /**
   Adding excerpts never breaks a limit the packet itself meets: the final estimate is
   within the ceiling if and only if the packet alone fits four bytes a token, and the
   final sizes are within the byte limit if and only if the packet's are.
   */
  lemma LimitsKept(texts: seq<string>, each: nat, maxBytes: nat, encoded: nat, raw: nat, ceiling: Option<nat>)
    requires encoded <= USIZE_MAX
    ensures var excerpts := TotalBytes(Excerpts(texts, RemainingBytes(maxBytes, encoded, raw, ceiling), each));
            && (ceiling.Some? ==> (Tokens(encoded + excerpts) <= ceiling.value <==> encoded <= 4 * ceiling.value))
            && (encoded + excerpts <= maxBytes && raw + excerpts <= maxBytes <==> encoded <= maxBytes && raw <= maxBytes)
  {
    TextKnifeFits();
    CutsFit(TEXT_KNIFE, texts, RemainingBytes(maxBytes, encoded, raw, ceiling), each);
  }
}
