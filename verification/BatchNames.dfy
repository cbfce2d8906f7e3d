/** How the result store names its batch directories, and what those names order by. */
module BatchNames {
  import opened Common
  import opened Decimal
  import opened Ordering
  import opened Text

  predicate IsHex(c: char) { '0' <= c <= '9' || 'a' <= c <= 'f' }

  predicate IsDigest(s: string) { |s| == 64 && forall i :: 0 <= i < |s| ==> IsHex(s[i]) }

  /** 64 digits in lower-case hexadecimal. */
  lemma DigestExactly(s: string)
    ensures IsDigest(s) <==> |s| == 64 && forall i :: 0 <= i < 64 ==> s[i] in "0123456789abcdef"
  {
    forall c: char ensures IsHex(c) <==> c in "0123456789abcdef" {
    }
  }

  ghost const ZeroDigest := seq(64, i => '0')

  /** A SHA-256 value in lower-case hexadecimal. */
  type Digest = s: string | IsDigest(s) ghost witness ZeroDigest

  const BATCH := "batch-"

  function BatchName(tick: nat, digest: Digest): string {
    BATCH + Padded(tick, 20) + "-" + digest
  }

  /** `batch_tick`: the tick a directory name carries, when it is a batch name. */
  function BatchTick(name: string): Option<nat> {
    if !(BATCH <= name) then None
    else
      match SplitOnce(name[|BATCH|..], '-')
      case None => None
      case Some((tick, digest)) =>
        if |tick| == 20 && IsDigest(digest) then ParseUnsigned(tick, U64_MAX) else None
  }

  /** A name spelled out: a tag, twenty digits that denote the tick, a dash and the digest. */
  lemma NameParts(tick: nat, digest: Digest)
    requires tick <= U64_MAX
    ensures var name := BatchName(tick, digest);
            && |name| == 91 && name[..6] == "batch-" && name[26] == '-' && name[27..] == digest
            && AllDigits(name[6..26]) && Value(name[6..26]) == tick
  {
    var name, text := BatchName(tick, digest), Padded(tick, 20);
    PaddedTick(tick);
    ValueOfPadded(tick, 20);
    assert name == "batch-" + text + "-" + digest;
    assert name[6..26] == text;
  }

  lemma DigitsHaveNoDash(s: string)
    requires AllDigits(s)
    ensures '-' !in s
  {
  }

  lemma NameShape(tick: string, digest: Digest)
    requires '-' !in tick && |tick| == 20
    ensures BatchTick(BATCH + tick + "-" + digest) == ParseUnsigned(tick, U64_MAX)
  {
    var name := BATCH + tick + "-" + digest;
    assert name[|BATCH|..] == tick + ['-'] + digest;
    assert BATCH <= name;
    SplitOnceAt(tick, '-', digest);
  }

  lemma PaddedTick(tick: nat)
    requires tick <= U64_MAX
    ensures |Padded(tick, 20)| == 20 && '-' !in Padded(tick, 20)
  {
    assert Pow10(20) == 1_00000_00000_00000_00000 by {
      assert Pow10(5) == 100000;
      assert Pow10(10) == 1_00000_00000;
      assert Pow10(15) == 1_00000_00000_00000;
    }
    PaddedLength(tick, 20);
    DigitsHaveNoDash(Padded(tick, 20));
  }

  /** The name the store writes is read back as the tick it was written with. */
  lemma TickRoundTrip(tick: nat, digest: Digest)
    requires tick <= U64_MAX
    ensures BatchTick(BatchName(tick, digest)) == Some(tick)
  {
    PaddedTick(tick);
    NameShape(Padded(tick, 20), digest);
    ParsePrinted(tick, U64_MAX, 20);
  }

  /** Thanks to the padding, name order is (tick, digest) order for every 64-bit tick. */
  lemma NameOrder(t1: nat, d1: Digest, t2: nat, d2: Digest)
    requires t1 <= U64_MAX && t2 <= U64_MAX
    ensures StringLeq(BatchName(t1, d1), BatchName(t2, d2)) <==> t1 < t2 || (t1 == t2 && StringLeq(d1, d2))
  {
    var p1, p2 := Padded(t1, 20), Padded(t2, 20);
    PaddedTick(t1);
    PaddedTick(t2);
    ValueOfPadded(t1, 20);
    ValueOfPadded(t2, 20);
    NumeralOrder(p1, p2);
    assert BatchName(t1, d1) == BATCH + (p1 + ("-" + d1)) && BatchName(t2, d2) == BATCH + (p2 + ("-" + d2));
    LexAppend(BATCH, BATCH, p1 + ("-" + d1), p2 + ("-" + d2));
    LexAppend(p1, p2, "-" + d1, "-" + d2);
    LexAppend("-", "-", d1, d2);
  }

  /**
   Exactly which names are batches of a tick: the one the store writes, and, because
   integer parsing accepts a sign, the one with a plus sign and 19 digits.
   */
  lemma BatchTickExact(name: string, tick: nat)
    ensures BatchTick(name) == Some(tick) <==>
            tick <= U64_MAX && exists d: Digest ::
              || name == BatchName(tick, d)
              || (|Padded(tick, 19)| == 19 && name == BATCH + ("+" + Padded(tick, 19)) + "-" + d)
  {
    if BatchTick(name) == Some(tick) {
      var (text, digest) := SplitOnce(name[|BATCH|..], '-').value;
      assert name == BATCH + name[|BATCH|..];
      assert name[|BATCH|..] == text + ['-'] + digest;
      assert name == BATCH + text + "-" + digest;
      var d: Digest := digest;
      if text[0] == '+' {
        assert text == "+" + text[1..];
        PaddedIsUnique(text[1..], 19);
        assert name == BATCH + ("+" + Padded(tick, 19)) + "-" + d;
      } else {
        PaddedIsUnique(text, 20);
        assert name == BatchName(tick, d);
      }
    }
    if tick <= U64_MAX {
      forall d: Digest | name == BatchName(tick, d) ensures BatchTick(name) == Some(tick) {
        TickRoundTrip(tick, d);
      }
      forall d: Digest | |Padded(tick, 19)| == 19 && name == BATCH + ("+" + Padded(tick, 19)) + "-" + d
        ensures BatchTick(name) == Some(tick)
      {
        DigitsHaveNoDash(Padded(tick, 19));
        NameShape("+" + Padded(tick, 19), d);
        assert ("+" + Padded(tick, 19))[1..] == Padded(tick, 19);
        ValueOfPadded(tick, 19);
      }
    }
  }

  /** A numeral of the given width is the padded form of its value. */
  lemma PaddedIsUnique(s: string, width: nat)
    requires AllDigits(s) && |s| == width >= 1
    ensures s == Padded(Value(s), width)
  {
    ValueBound(s);
    PaddedLength(Value(s), width);
    ValueOfPadded(Value(s), width);
    ValueInjective(s, Padded(Value(s), width));
  }

  lemma {:induction false} ValueBound(s: string)
    requires AllDigits(s)
    ensures Value(s) < Pow10(|s|)
  {
    if s != "" {
      ValueBound(s[..|s| - 1]);
    }
  }
}
