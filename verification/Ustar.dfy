/**
 The single-member archive writer. The header is filled in place; a reader that knows only
 the "ustar Interchange Format" under `pax` in IEEE Std 1003.1-2017 gets back the name and
 the data, and finds the checksum right.
 */
module Ustar {
  import opened Common

  const BLOCK := 512
  const ZERO: byte := 48   // '0'
  const SPACE: byte := 32

  datatype ArchiveError = NameTooLong | ValueTooLarge

  function Pow8(k: nat): nat { if k == 0 then 1 else 8 * Pow8(k - 1) }

  /** `width` octal digits, most significant first. */
  function Octal(value: nat, width: nat): (s: seq<byte>)
    ensures |s| == width
  {
    if width == 0 then [] else Octal(value / 8, width - 1) + [ZERO + (value % 8) as byte]
  }

  predicate IsOctal(s: seq<byte>) { forall i :: 0 <= i < |s| ==> ZERO <= s[i] < ZERO + 8 }

  function OctalValue(s: seq<byte>): nat
    requires IsOctal(s)
  {
    if s == [] then 0 else 8 * OctalValue(s[..|s| - 1]) + (s[|s| - 1] - ZERO) as nat
  }

  lemma {:induction false} OctalRoundTrip(value: nat, width: nat)
    requires value < Pow8(width)
    ensures IsOctal(Octal(value, width)) && OctalValue(Octal(value, width)) == value
  {
    if width > 0 {
      OctalRoundTrip(value / 8, width - 1);
      var s := Octal(value, width);
      assert s[..width - 1] == Octal(value / 8, width - 1);
    }
  }

  function Div8(value: nat, k: nat): nat { if k == 0 then value else Div8(value, k - 1) / 8 }

  lemma {:induction false} Div8First(value: nat, k: nat)
    ensures Div8(value, k + 1) == Div8(value / 8, k)
  {
    if k > 0 {
      Div8First(value, k - 1);
    }
  }

  lemma {:induction false} Div8Zero(value: nat, k: nat)
    ensures Div8(value, k) == 0 <==> value < Pow8(k)
  {
    if k > 0 {
      Div8First(value, k - 1);
      Div8Zero(value / 8, k - 1);
    }
  }

  /** One digit more on the left. */
  lemma {:induction false} OctalNext(value: nat, k: nat)
    ensures Octal(value, k + 1) == [ZERO + (Div8(value, k) % 8) as byte] + Octal(value, k)
  {
    if k == 0 {
      assert Octal(value, 1) == Octal(value / 8, 0) + [ZERO + (value % 8) as byte];
    } else {
      OctalNext(value / 8, k - 1);
      Div8First(value, k - 1);
    }
  }

  /** A sequence with some of its elements replaced. */
  function Splice(s: seq<byte>, lo: nat, bytes: seq<byte>): (t: seq<byte>)
    requires lo + |bytes| <= |s|
    ensures |t| == |s|
  {
    s[..lo] + bytes + s[lo + |bytes|..]
  }

  /** A numeric field: octal digits and a NUL. */
  function Field(value: nat, width: nat): (s: seq<byte>)
    ensures |s| == width + 1
  {
    Octal(value, width) + [0]
  }

  /**
   The loop that writes digits from the right, over the field `lo..hi` of a buffer: leading
   zeros, a NUL at the end, and an error exactly when the value needs more digits.
   */
  method WriteOctal(buffer: array<byte>, lo: nat, hi: nat, value: nat) returns (ok: bool)
    requires lo < hi <= buffer.Length
    modifies buffer
    ensures ok <==> value < Pow8(hi - lo - 1)
    ensures ok ==> buffer[..] == Splice(old(buffer[..]), lo, Field(value, hi - lo - 1))
    ensures forall i :: 0 <= i < buffer.Length && !(lo <= i < hi) ==> buffer[i] == old(buffer[i])
  {
    var width := hi - lo - 1;
    var remaining := value;
    var k := 0;
    while k < width
      invariant 0 <= k <= width && remaining == Div8(value, k)
      invariant buffer[lo + width - k..lo + width] == Octal(value, k)
      invariant forall i :: 0 <= i < buffer.Length && !(lo + width - k <= i < lo + width) ==> buffer[i] == old(buffer[i])
    {
      OctalNext(value, k);
      ghost var done := buffer[lo + width - k..lo + width];
      buffer[lo + width - k - 1] := ZERO + (remaining % 8) as byte;
      remaining := remaining / 8;
      assert buffer[lo + width - k..lo + width] == done;
      k := k + 1;
      assert buffer[lo + width - k..lo + width] == [buffer[lo + width - k]] + done;
    }
    Div8Zero(value, width);
    if remaining != 0 {
      return false;
    }
    buffer[lo + width] := 0;
    FieldWritten(old(buffer[..]), buffer[..], lo, Octal(value, width));
    return true;
  }

  lemma FieldWritten(s: seq<byte>, t: seq<byte>, lo: nat, digits: seq<byte>)
    requires lo + |digits| < |s| == |t| && t[lo..lo + |digits|] == digits && t[lo + |digits|] == 0
    requires forall k :: 0 <= k < |s| && !(lo <= k <= lo + |digits|) ==> t[k] == s[k]
    ensures t == Splice(s, lo, digits + [0])
  {
    assert forall k :: lo <= k < lo + |digits| ==> t[k] == t[lo..lo + |digits|][k - lo];
  }

  /** `copy_from_slice` into a part of the buffer. */
  method CopyInto(buffer: array<byte>, lo: nat, bytes: seq<byte>)
    requires lo + |bytes| <= buffer.Length
    modifies buffer
    ensures buffer[..] == Splice(old(buffer[..]), lo, bytes)
  {
    for i := 0 to |bytes|
      invariant forall k :: 0 <= k < buffer.Length ==> buffer[k] == if lo <= k < lo + i then bytes[k - lo] else old(buffer[k])
    {
      buffer[lo + i] := bytes[i];
    }
    IsSplice(old(buffer[..]), buffer[..], lo, bytes);
  }

  lemma IsSplice(s: seq<byte>, t: seq<byte>, lo: nat, bytes: seq<byte>)
    requires lo + |bytes| <= |s| == |t|
    requires forall k :: 0 <= k < |s| ==> t[k] == if lo <= k < lo + |bytes| then bytes[k - lo] else s[k]
    ensures t == Splice(s, lo, bytes)
  {
  }

  function Zeros(n: nat): (s: seq<byte>)
    ensures |s| == n && forall i :: 0 <= i < n ==> s[i] == 0
  {
    seq(n, i => 0 as byte)
  }

  function Sum(s: seq<byte>): nat {
    if s == [] then 0 else Sum(s[..|s| - 1]) + s[|s| - 1] as nat
  }

  lemma {:induction false} SumBound(s: seq<byte>)
    ensures Sum(s) <= 255 * |s|
  {
    if s != [] {
      SumBound(s[..|s| - 1]);
    }
  }

  const USTAR: seq<byte> := [117, 115, 116, 97, 114, 0]  // "ustar" and a NUL
  const VERSION: seq<byte> := [48, 48]
  const SPACES: seq<byte> := [32, 32, 32, 32, 32, 32, 32, 32]

  /** The fields before the checksum: name, mode, uid, gid, size and mtime. */
  function Front(member: seq<byte>, size: nat): (s: seq<byte>)
    requires |member| <= 100
    ensures |s| == 148
  {
    member + Zeros(100 - |member|) + Field(0x1ED, 7) + Field(0, 7) + Field(0, 7) + Field(size, 11) + Field(0, 11)
  }

  /** The fields after it: type flag, link name, magic, version and the rest. */
  function Back(): (s: seq<byte>)
    ensures |s| == 356
  {
    [ZERO] + Zeros(100) + USTAR + VERSION + Zeros(247)
  }

  function Checksum(member: seq<byte>, size: nat): nat
    requires |member| <= 100
  {
    Sum(Front(member, size) + SPACES + Back())
  }

  function Header(member: seq<byte>, size: nat): (s: seq<byte>)
    requires |member| <= 100
    ensures |s| == BLOCK
  {
    Front(member, size) + ([SPACE] + Field(Checksum(member, size), 6)) + Back()
  }

  function Padding(size: nat): nat { (BLOCK - size % BLOCK) % BLOCK }

  function Archive(member: seq<byte>, data: seq<byte>): seq<byte>
    requires |member| <= 100
  {
    Header(member, |data|) + data + Zeros(Padding(|data|)) + Zeros(2 * BLOCK)
  }

  lemma SpliceZeros(front: seq<byte>, n: nat, bytes: seq<byte>)
    requires |bytes| <= n
    ensures Splice(front + Zeros(n), |front|, bytes) == front + bytes + Zeros(n - |bytes|)
  {
    assert (front + Zeros(n))[..|front|] == front;
    assert (front + Zeros(n))[|front| + |bytes|..] == Zeros(n - |bytes|);
  }

  lemma SpliceMiddle(front: seq<byte>, middle: seq<byte>, back: seq<byte>, bytes: seq<byte>)
    requires |bytes| == |middle|
    ensures Splice(front + middle + back, |front|, bytes) == front + bytes + back
  {
    var s := front + middle + back;
    assert s[..|front|] == front && s[|front| + |bytes|..] == back;
  }

  /** Writes a numeric field behind what has been written, where the header is still zero. */
  method AppendField(header: array<byte>, ghost front: seq<byte>, lo: nat, hi: nat, value: nat) returns (ok: bool)
    requires |front| == lo < hi <= header.Length == BLOCK && header[..] == front + Zeros(BLOCK - lo)
    modifies header
    ensures ok <==> value < Pow8(hi - lo - 1)
    ensures ok ==> header[..] == front + Field(value, hi - lo - 1) + Zeros(BLOCK - hi)
  {
    ok := WriteOctal(header, lo, hi, value);
    SpliceZeros(front, BLOCK - lo, Field(value, hi - lo - 1));
  }

  /** The numeric fields, written one after another behind the name. */
  method WriteFront(header: array<byte>, member: seq<byte>, size: nat) returns (ok: bool)
    requires header.Length == BLOCK && header[..] == Zeros(BLOCK) && |member| <= 100
    modifies header
    ensures ok <==> size < Pow8(11)
    ensures ok ==> header[..] == Front(member, size) + Zeros(364)
  {
    assert Pow8(7) == 2097152 && Pow8(11) > 0;
    CopyInto(header, 0, member);
    ghost var front := member + Zeros(100 - |member|);
    assert header[..] == front + Zeros(412);
    ok := AppendField(header, front, 100, 108, 0x1ED);
    front := front + Field(0x1ED, 7);
    ok := AppendField(header, front, 108, 116, 0);
    front := front + Field(0, 7);
    ok := AppendField(header, front, 116, 124, 0);
    front := front + Field(0, 7);
    ok := AppendField(header, front, 124, 136, size);
    if !ok {
      return false;
    }
    front := front + Field(size, 11);
    ok := AppendField(header, front, 136, 148, 0);
  }

  method WriteBack(header: array<byte>, ghost front: seq<byte>)
    requires header.Length == BLOCK && |front| == 148 && header[..] == front + Zeros(364)
    modifies header
    ensures header[..] == front + SPACES + Back()
  {
    assert header[..] == front + Zeros(8) + Zeros(356);
    WriteTail(header, front + Zeros(8));
    CopyInto(header, 148, SPACES);
    SpliceMiddle(front, Zeros(8), Back(), SPACES);
  }

  /** Type flag, magic and version. */
  method WriteTail(header: array<byte>, ghost before: seq<byte>)
    requires header.Length == BLOCK && |before| == 156 && header[..] == before + Zeros(356)
    modifies header
    ensures header[..] == before + Back()
  {
    ghost var sofar := before;
    CopyInto(header, 156, [ZERO]);
    SpliceZeros(sofar, 356, [ZERO]);
    sofar := sofar + [ZERO] + Zeros(100);
    assert header[..] == sofar + Zeros(255);
    CopyInto(header, 257, USTAR);
    SpliceZeros(sofar, 255, USTAR);
    sofar := sofar + USTAR;
    CopyInto(header, 263, VERSION);
    SpliceZeros(sofar, 249, VERSION);
    assert header[..] == before + Back();
  }

  method SumHeader(header: array<byte>) returns (sum: nat)
    ensures sum == Sum(header[..])
  {
    sum := 0;
    for i := 0 to header.Length
      invariant sum == Sum(header[..i])
    {
      assert header[..i + 1][..i] == header[..i];
      sum := sum + header[i] as nat;
    }
    assert header[..header.Length] == header[..];
  }

  /** The checksum always fits its six digits, so this write cannot fail. */
  method WriteChecksum(header: array<byte>, ghost member: seq<byte>, ghost size: nat)
    requires |member| <= 100 && header.Length == BLOCK && header[..] == Front(member, size) + SPACES + Back()
    modifies header
    ensures header[..] == Header(member, size)
  {
    var sum := SumHeader(header);
    SumBound(header[..]);
    assert Pow8(6) == 262144;
    ghost var front := Front(member, size) + [SPACE];
    assert header[..] == front + SPACES[1..] + Back();
    var ok := WriteOctal(header, 149, 156, sum);
    assert ok;
    SpliceMiddle(front, SPACES[1..], Back(), Field(sum, 6));
    assert header[..] == front + Field(sum, 6) + Back();
  }

  lemma EightToTheEleven()
    ensures Pow8(11) == 0x2_0000_0000
  {
    assert Pow8(5) == 32768;
    assert Pow8(8) == 512 * Pow8(5);
  }

  /** The writer fails exactly on a name over 100 bytes or data of 8^11 bytes or more. */
  method WriteUstar(member: seq<byte>, data: seq<byte>) returns (r: Result<seq<byte>, ArchiveError>)
    ensures r.Ok? <==> |member| <= 100 && |data| < 0x2_0000_0000
    ensures r.Ok? ==> r.value == Archive(member, data)
    ensures r.Err? ==> r.error == if |member| > 100 then NameTooLong else ValueTooLarge
  {
    if |member| > 100 {
      return Err(NameTooLong);
    }
    EightToTheEleven();
    var header := new byte[BLOCK](i => 0);
    assert header[..] == Zeros(BLOCK);
    var ok := WriteFront(header, member, |data|);
    if !ok {
      return Err(ValueTooLarge);
    }
    WriteBack(header, Front(member, |data|));
    WriteChecksum(header, member, |data|);
    var padding := (BLOCK - |data| % BLOCK) % BLOCK;
    return Ok(header[..] + data + Zeros(padding) + Zeros(2 * BLOCK));
  }

  // ---------- reading an archive

  function UntilNul(s: seq<byte>): (t: seq<byte>)
    ensures t <= s && 0 !in t
  {
    if s == [] || s[0] == 0 then [] else [s[0]] + UntilNul(s[1..])
  }

  function SkipSpaces(s: seq<byte>): seq<byte> {
    if s != [] && s[0] == SPACE then SkipSpaces(s[1..]) else s
  }

  /** A numeric field: spaces, then octal digits up to a NUL. */
  function ReadNumber(field: seq<byte>): Option<nat> {
    var digits := UntilNul(SkipSpaces(field));
    if digits != [] && IsOctal(digits) then Some(OctalValue(digits)) else None
  }

  function HeaderSum(header: seq<byte>): nat
    requires |header| == BLOCK
  {
    Sum(header[..148] + SPACES + header[156..])
  }

  /** What an archive says of its one member; a regular file is of kind 48. */
  datatype Member = Member(name: seq<byte>, kind: byte, mode: nat, uid: nat, gid: nat, mtime: nat, data: seq<byte>)

  /** A reader of single-member archives that checks the magic, the checksum and the sizes. */
  function Read(archive: seq<byte>): Option<Member> {
    if |archive| < BLOCK || |archive| % BLOCK != 0 then None
    else
      var header := archive[..BLOCK];
      if header[257..263] != [117, 115, 116, 97, 114, 0] || header[263..265] != [48, 48]
         || ReadNumber(header[148..156]) != Some(HeaderSum(header)) then None
      else
        match (ReadNumber(header[100..108]), ReadNumber(header[108..116]), ReadNumber(header[116..124]),
               ReadNumber(header[124..136]), ReadNumber(header[136..148]))
        case (Some(mode), Some(uid), Some(gid), Some(size), Some(mtime)) =>
          if BLOCK + size + Padding(size) + 2 * BLOCK != |archive| then None
          else Some(Member(UntilNul(header[..100]), header[156], mode, uid, gid, mtime, archive[BLOCK..BLOCK + size]))
        case _ => None
  }

  lemma {:induction false} UntilNulOf(a: seq<byte>, rest: seq<byte>)
    requires rest == [] || rest[0] == 0
    ensures 0 !in a ==> UntilNul(a + rest) == a
    ensures 0 in a ==> UntilNul(a + rest) != a
  {
    if a != [] {
      UntilNulOf(a[1..], rest);
      assert (a + rest)[1..] == a[1..] + rest;
      assert a == [a[0]] + a[1..];
    } else {
      assert a + rest == rest;
    }
  }

  lemma OctalHasNoNul(s: seq<byte>)
    requires IsOctal(s)
    ensures 0 !in s && SPACE !in s
  {
  }

  lemma FieldReadsBack(value: nat, width: nat)
    requires width > 0 && value < Pow8(width)
    ensures ReadNumber(Field(value, width)) == Some(value)
    ensures ReadNumber([SPACE] + Field(value, width)) == Some(value)
  {
    var digits := Octal(value, width);
    OctalRoundTrip(value, width);
    OctalHasNoNul(digits);
    assert digits[0] in digits;
    UntilNulOf(digits, [0]);
    assert ([SPACE] + Field(value, width))[1..] == Field(value, width);
    assert SkipSpaces(Field(value, width)) == Field(value, width);
  }

  lemma ChecksumFits(member: seq<byte>, size: nat)
    requires |member| <= 100
    ensures Checksum(member, size) < Pow8(6)
  {
    SumBound(Front(member, size) + SPACES + Back());
    assert Pow8(6) == 262144;
  }

  lemma HeaderParts(member: seq<byte>, size: nat)
    requires |member| <= 100
    ensures var h := Header(member, size);
            && h[..148] == Front(member, size) && h[156..] == Back()
            && h[148..156] == [SPACE] + Field(Checksum(member, size), 6)
            && h[..100] == member + Zeros(100 - |member|)
  {
  }

  lemma FrontParts(member: seq<byte>, size: nat)
    requires |member| <= 100
    ensures var h := Header(member, size);
            && h[100..108] == Field(0x1ED, 7) && h[108..116] == Field(0, 7) && h[116..124] == Field(0, 7)
            && h[124..136] == Field(size, 11) && h[136..148] == Field(0, 11)
  {
    var h, f := Header(member, size), Front(member, size);
    HeaderParts(member, size);
    assert f[100..108] == Field(0x1ED, 7);
    assert f[108..116] == Field(0, 7);
    assert f[116..124] == Field(0, 7);
    assert f[124..136] == Field(size, 11);
    assert f[136..148] == Field(0, 11);
    SlicesOf(h, f);
  }

  lemma SlicesOf(h: seq<byte>, f: seq<byte>)
    requires 148 == |f| <= |h| && h[..148] == f
    ensures h[100..108] == f[100..108] && h[108..116] == f[108..116] && h[116..124] == f[116..124]
    ensures h[124..136] == f[124..136] && h[136..148] == f[136..148]
  {
    assert forall i :: 0 <= i < 148 ==> h[i] == h[..148][i];
  }

  lemma BackParts(member: seq<byte>, size: nat)
    requires |member| <= 100
    ensures var h := Header(member, size);
            && h[156] == 48 && h[257..263] == [117, 115, 116, 97, 114, 0] && h[263..265] == [48, 48]
            && forall i :: 157 <= i < 257 || 265 <= i < 512 ==> h[i] == 0
  {
    var h, b := Header(member, size), Back();
    HeaderParts(member, size);
    assert forall i :: 156 <= i < 512 ==> h[i] == h[156..][i - 156] == b[i - 156];
    assert h[257..263] == b[101..107];
    assert h[263..265] == b[107..109];
  }

  /**
   The header byte for byte: the name, filled with zeros; the mode "0000755", and "0000000"
   for the owner and the group; the kind of a regular file, "ustar" and the version "00"; and
   zeros everywhere else but in the size, the time and the checksum.
   */
  lemma HeaderExactly(member: seq<byte>, size: nat)
    requires |member| <= 100
    ensures var h := Header(member, size);
            && |h| == 512 && h[..|member|] == member && (forall i :: |member| <= i < 100 ==> h[i] == 0)
            && h[100..108] == [48, 48, 48, 48, 55, 53, 53, 0]
            && h[108..116] == [48, 48, 48, 48, 48, 48, 48, 0] == h[116..124]
            && h[136..148] == [48, 48, 48, 48, 48, 48, 48, 48, 48, 48, 48, 0]
            && h[156] == 48 && h[257..263] == [117, 115, 116, 97, 114, 0] && h[263..265] == [48, 48]
            && forall i :: 157 <= i < 257 || 265 <= i < 512 ==> h[i] == 0
  {
    hide Front, Back, Checksum;
    var h := Header(member, size);
    HeaderParts(member, size);
    assert forall i :: 0 <= i < 100 ==> h[i] == h[..100][i];
    FrontParts(member, size);
    BackParts(member, size);
    ModeDigits();
    ZeroDigits(7);
    ZeroDigits(11);
  }

  lemma ModeDigits()
    ensures Field(0x1ED, 7) == [48, 48, 48, 48, 55, 53, 53, 0]
  {
    ZeroDigits(4);
    assert Octal(7, 5) == Octal(0, 4) + [55];
    assert Octal(61, 6) == Octal(7, 5) + [53];
    assert Octal(0x1ED, 7) == Octal(61, 6) + [53];
  }

  lemma {:induction false} ZeroDigits(width: nat)
    ensures forall i :: 0 <= i < width ==> Octal(0, width)[i] == 48
  {
    if width > 0 {
      ZeroDigits(width - 1);
    }
  }

  /** The checksum is the sum over all the bytes. */
  lemma {:induction false} SumExactly(s: seq<byte>, t: seq<byte>)
    ensures Sum(s + t) == Sum(s) + Sum(t) && Sum([]) == 0
    ensures forall b: byte :: Sum([b]) == b as nat
  {
    forall b: byte ensures Sum([b]) == b as nat {
      assert [b][..0] == [];
    }
    if t == [] {
      assert s + t == s;
    } else {
      var n := |t| - 1;
      SumExactly(s, t[..n]);
      assert (s + t)[..|s| + n] == s + t[..n];
    }
  }

  /**
   Round trip, for every name of at most 100 bytes and data the writer accepts: the
   checksum is right, the length is a whole number of blocks, the member is a regular file
   of mode 0755 without owner and time, the data comes back exactly, and the name does if
   and only if it holds no NUL.
   */
  lemma ArchiveRoundTrip(member: seq<byte>, data: seq<byte>)
    requires |member| <= 100 && |data| < Pow8(11)
    ensures |Archive(member, data)| % BLOCK == 0
    ensures Read(Archive(member, data)).Some?
    ensures var read := Read(Archive(member, data)).value;
            read == Member(read.name, 48, 0x1ED, 0, 0, 0, data) && (read.name == member <==> 0 !in member)
  {
    hide Header, Checksum, Front, Back, ReadNumber, HeaderSum, UntilNul, Zeros;
    ArchiveParts(member, data);
    HeaderReads(member, |data|);
    UntilNulOf(member, Zeros(100 - |member|));
  }

  /** What follows the data is all zero: less than a block to fill the last one, and two blocks. */
  lemma ArchiveEnds(member: seq<byte>, data: seq<byte>)
    requires |member| <= 100
    ensures var archive := Archive(member, data);
            && 512 + |data| + 1024 <= |archive| < 512 + |data| + 1536 && |archive| % 512 == 0
            && forall i :: 512 + |data| <= i < |archive| ==> archive[i] == 0
  {
    ArchiveParts(member, data);
  }

  lemma ArchiveParts(member: seq<byte>, data: seq<byte>)
    requires |member| <= 100
    ensures var archive := Archive(member, data);
            && |archive| == BLOCK + |data| + Padding(|data|) + 2 * BLOCK && |archive| % BLOCK == 0
            && archive[..BLOCK] == Header(member, |data|) && archive[BLOCK..BLOCK + |data|] == data
  {
    PaddingAligns(|data|);
    FourParts(Header(member, |data|), data, Zeros(Padding(|data|)), Zeros(2 * BLOCK));
  }

  lemma FourParts(a: seq<byte>, b: seq<byte>, c: seq<byte>, d: seq<byte>)
    ensures var all := a + b + c + d;
            |all| == |a| + |b| + |c| + |d| && all[..|a|] == a && all[|a|..|a| + |b|] == b
  {
  }

  lemma PaddingAligns(n: nat)
    ensures (BLOCK + (n + Padding(n)) + 2 * BLOCK) % BLOCK == 0
  {
    var q, r := n / BLOCK, n % BLOCK;
    assert n == BLOCK * q + r;
    if r == 0 {
      assert Padding(n) == 0 && BLOCK + n + 2 * BLOCK == BLOCK * (q + 3);
    } else {
      assert Padding(n) == BLOCK - r && BLOCK + (n + Padding(n)) + 2 * BLOCK == BLOCK * (q + 4);
    }
  }

  lemma HeaderReads(member: seq<byte>, size: nat)
    requires |member| <= 100 && size < Pow8(11)
    ensures var h := Header(member, size);
            && ReadNumber(h[148..156]) == Some(HeaderSum(h)) && ReadNumber(h[124..136]) == Some(size)
            && ReadNumber(h[100..108]) == Some(0x1ED) && ReadNumber(h[108..116]) == Some(0)
            && ReadNumber(h[116..124]) == Some(0) && ReadNumber(h[136..148]) == Some(0)
            && h[156] == 48 && h[257..263] == [117, 115, 116, 97, 114, 0] && h[263..265] == [48, 48]
            && h[..100] == member + Zeros(100 - |member|)
  {
    hide ReadNumber, Octal;
    HeaderParts(member, size);
    FrontParts(member, size);
    BackParts(member, size);
    ChecksumFits(member, size);
    FieldReadsBack(Checksum(member, size), 6);
    FieldReadsBack(size, 11);
    assert Pow8(7) == 2097152;
    FieldReadsBack(0x1ED, 7);
    FieldReadsBack(0, 7);
    EightToTheEleven();
    FieldReadsBack(0, 11);
  }
}
