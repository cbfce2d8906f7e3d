/** The walk that finds the document files under a root. */
module Discovery {
  // It keeps an explicit stack of directories; its result is the capped, sorted form of a
  // recursive listing, in whatever order the entries of a directory come.

  import opened Common
  import opened Ordering
  import opened Text

  const MAX_DOCUMENT_FILES := 64
  const MAX_DEPTH := 64

  datatype Format = Docx | Xlsx | Pptx | Pdf {
    function Extension(): (e: string)
      ensures '.' !in e && '/' !in e && e != ""
    {
      match this
      case Docx => "docx"
      case Xlsx => "xlsx"
      case Pptx => "pptx"
      case Pdf => "pdf"
    }

    function Rank(): int {
      match this
      case Docx => 0
      case Xlsx => 1
      case Pptx => 2
      case Pdf => 3
    }
  }

  /** What a path names. `Other` is a symbolic link, a special file, or a path that cannot be examined. */
  datatype Node =
    | File
    | Directory(readable: bool, entries: seq<Entry>)
    | Other

  /** What a file system allows as a name in a directory. */
  type FileName = name: string | name != "" && '/' !in name witness "a"

  /** A directory entry; its name is absent when it is not UTF-8. */
  datatype Entry = Entry(name: Option<FileName>, node: Node)

  type Document = (string, Format)

  type Ignores = string -> bool

  // ----- file name extensions -----

  function FormatForPath(path: string): Option<Format> {
    var parts := Split(path, '.');
    var extension := parts[|parts| - 1];
    if |parts| == 1 || extension == "" || '/' in extension then None
    else if Lower(extension) == Docx.Extension() then Some(Docx)
    else if Lower(extension) == Xlsx.Extension() then Some(Xlsx)
    else if Lower(extension) == Pptx.Extension() then Some(Pptx)
    else if Lower(extension) == Pdf.Extension() then Some(Pdf)
    else None
  }

  /** What the last part of a split is: the text after the last dot. */
  lemma {:induction false} LastPart(path: string) returns (stem: string)
    ensures var parts := Split(path, '.'); var last := parts[|parts| - 1];
            '.' !in last && if |parts| > 1 then path == stem + "." + last else path == last
    decreases |path|
  {
    var i := Find(path, '.');
    stem := "";
    if i < |path| {
      var inner := LastPart(path[i + 1..]);
      stem := LastPartStep(path, i, inner);
    } else {
      assert path[..i] == path;
    }
  }

  lemma LastPartStep(path: string, i: nat, inner: string) returns (stem: string)
    requires i == Find(path, '.') < |path|
    requires var parts := Split(path[i + 1..], '.'); var last := parts[|parts| - 1];
             if |parts| > 1 then path[i + 1..] == inner + "." + last else path[i + 1..] == last
    ensures var parts := Split(path, '.'); var last := parts[|parts| - 1];
            |parts| > 1 && last == Split(path[i + 1..], '.')[|parts| - 2] && path == stem + "." + last
  {
    var rest := path[i + 1..];
    var parts := Split(rest, '.');
    var last := parts[|parts| - 1];
    assert Split(path, '.') == [path[..i]] + parts;
    CutAt(path, i, inner, last);
    stem := if |parts| > 1 then path[..i] + "." + inner else path[..i];
  }

  lemma CutAt(path: string, i: nat, inner: string, last: string)
    requires i < |path| && path[i] == '.'
    ensures path == path[..i] + "." + path[i + 1..]
    ensures path[i + 1..] == inner + "." + last ==> path == path[..i] + "." + inner + "." + last
  {
    assert path == path[..i] + "." + path[i + 1..];
    assert path[..i] + "." + (inner + "." + last) == path[..i] + "." + inner + "." + last;
  }

  lemma LastDotUnique(path: string, a: string, x: string, b: string, y: string)
    requires path == a + "." + x && path == b + "." + y && '.' !in x && '.' !in y
    ensures x == y
  {
    assert path[|a|] == '.' && path[|b|] == '.';
    assert forall k :: |a| < k < |path| ==> path[k] == x[k - |a| - 1] && path[k] in x;
    assert forall k :: |b| < k < |path| ==> path[k] == y[k - |b| - 1] && path[k] in y;
    assert |a| == |b|;
    assert path[|a| + 1..] == x && path[|b| + 1..] == y;
  }

  /** The path ends in a dot and `extension`, in any case. */
  ghost predicate EndsIn(path: string, extension: string) {
    exists stem, end :: path == stem + "." + end && Lower(end) == extension
  }

  ghost predicate HasFormat(path: string, format: Format) {
    match format
    case Docx => EndsIn(path, "docx")
    case Xlsx => EndsIn(path, "xlsx")
    case Pptx => EndsIn(path, "pptx")
    case Pdf => EndsIn(path, "pdf")
  }

  /** A path has a document format exactly when it ends in a dot and that format's extension, in any case. */
  lemma FormatExactly(path: string, format: Format)
    ensures FormatForPath(path) == Some(format) <==> HasFormat(path, format)
  {
    var stem := LastPart(path);
    var parts := Split(path, '.');
    var last := parts[|parts| - 1];
    if FormatForPath(path) == Some(format) {
      assert path == stem + "." + last && Lower(last) == format.Extension();
    }
    if other, end :| path == other + "." + end && Lower(end) == format.Extension() {
      DotFree(end, format);
      assert path[|other|] == '.';
      LastDotUnique(path, stem, last, other, end);
      ExtensionsDiffer(format);
    }
    assert HasFormat(path, format) == EndsIn(path, format.Extension());
  }

  lemma DotFree(extension: string, format: Format)
    requires Lower(extension) == format.Extension()
    ensures '.' !in extension && '/' !in extension && extension != ""
  {
    forall i | 0 <= i < |extension| ensures extension[i] != '.' && extension[i] != '/' {
      assert Lower(extension)[i] == LowerChar(extension[i]);
      assert Lower(extension)[i] in format.Extension();
    }
  }

  lemma ExtensionsDiffer(format: Format)
    ensures forall other: Format :: other.Extension() == format.Extension() ==> other == format
  {
    assert "docx"[0] == 'd' && "xlsx"[0] == 'x' && "pptx"[0] == 'p' && "pdf"[0] == 'p';
    assert |"pptx"| == 4 && |"pdf"| == 3;
  }

  // ----- the recursive listing -----

  function JoinRelative(prefix: string, name: string): string {
    if prefix == "" then name else prefix + "/" + name
  }

  /** The documents below a directory that has been reached as `prefix` after `depth` steps. */
  function Documents(ignored: Ignores, dir: Node, prefix: string, depth: nat): seq<Document>
    decreases dir, 0
  {
    if dir.Directory? && dir.readable && depth <= MAX_DEPTH then Listing(ignored, dir.entries, prefix, depth)
    else []
  }

  function Listing(ignored: Ignores, entries: seq<Entry>, prefix: string, depth: nat): seq<Document>
    decreases entries, 0
  {
    if entries == [] then []
    else OfEntry(ignored, entries[0], prefix, depth) + Listing(ignored, entries[1..], prefix, depth)
  }

  function OfEntry(ignored: Ignores, entry: Entry, prefix: string, depth: nat): seq<Document>
    decreases entry, 1
  {
    if entry.name.None? || ignored(JoinRelative(prefix, entry.name.value)) then []
    else
      var relative := JoinRelative(prefix, entry.name.value);
      match entry.node
      case Other => []
      case Directory(_, _) => Documents(ignored, entry.node, relative, depth + 1)
      case File =>
        match FormatForPath(relative)
        case None => []
        case Some(format) => [(relative, format)]
  }

  // ----- what the listing contains -----

  predicate Steps(dir: Node, entry: Entry) {
    dir.Directory? && dir.readable && entry in dir.entries && entry.name.Some?
  }

  /**
   A trail of entries leads from `dir` to a document: every step enters a readable directory
   at most MAX_DEPTH deep and takes a named entry of it, no path on the way is ignored, and
   it ends in a document file.
   */
  ghost predicate Leads(ignored: Ignores, dir: Node, prefix: string, depth: nat, trail: seq<Entry>, found: Document)
    decreases |trail|
  {
    && trail != [] && Steps(dir, trail[0]) && depth <= MAX_DEPTH
    && var relative := JoinRelative(prefix, trail[0].name.value);
       && !ignored(relative)
       && if |trail| == 1 then trail[0].node.File? && relative == found.0 && FormatForPath(relative) == Some(found.1)
          else Leads(ignored, trail[0].node, relative, depth + 1, trail[1..], found)
  }

  lemma {:induction false} ListedOnlyIfLed(ignored: Ignores, dir: Node, prefix: string, depth: nat, found: Document)
    returns (trail: seq<Entry>)
    requires found in Documents(ignored, dir, prefix, depth)
    ensures Leads(ignored, dir, prefix, depth, trail, found)
    decreases dir
  {
    var entry := ListedByEntry(ignored, dir.entries, prefix, depth, found);
    var relative := JoinRelative(prefix, entry.name.value);
    if entry.node.Directory? {
      var rest := ListedOnlyIfLed(ignored, entry.node, relative, depth + 1, found);
      trail := [entry] + rest;
      assert trail[1..] == rest;
    } else {
      trail := [entry];
    }
  }

  lemma {:induction false} ListedByEntry(ignored: Ignores, entries: seq<Entry>, prefix: string, depth: nat, found: Document)
    returns (entry: Entry)
    requires found in Listing(ignored, entries, prefix, depth)
    ensures entry in entries && found in OfEntry(ignored, entry, prefix, depth)
  {
    if found in OfEntry(ignored, entries[0], prefix, depth) {
      entry := entries[0];
    } else {
      entry := ListedByEntry(ignored, entries[1..], prefix, depth, found);
    }
  }

  lemma {:induction false} EntryListed(ignored: Ignores, entries: seq<Entry>, prefix: string, depth: nat, entry: Entry, found: Document)
    requires entry in entries && found in OfEntry(ignored, entry, prefix, depth)
    ensures found in Listing(ignored, entries, prefix, depth)
  {
    if entry != entries[0] {
      EntryListed(ignored, entries[1..], prefix, depth, entry, found);
    }
  }

  lemma {:induction false} ListedIfLed(ignored: Ignores, dir: Node, prefix: string, depth: nat, trail: seq<Entry>, found: Document)
    requires Leads(ignored, dir, prefix, depth, trail, found)
    ensures found in Documents(ignored, dir, prefix, depth)
    decreases |trail|
  {
    var relative := JoinRelative(prefix, trail[0].name.value);
    if |trail| > 1 {
      ListedIfLed(ignored, trail[0].node, relative, depth + 1, trail[1..], found);
    }
    EntryListed(ignored, dir.entries, prefix, depth, trail[0], found);
  }

  ghost function NamesOf(trail: seq<Entry>): (names: seq<FileName>)
    requires forall i :: 0 <= i < |trail| ==> trail[i].name.Some?
    ensures |names| == |trail| && forall i :: 0 <= i < |trail| ==> names[i] == trail[i].name.value
  {
    seq(|trail|, i requires 0 <= i < |trail| => trail[i].name.value)
  }

  predicate IsEntryOf(entry: Entry, dir: Node) { dir.Directory? && dir.readable && entry in dir.entries }

  /**
   A trail of named entries from the root down to a file, through readable directories at
   most 64 deep. The path of the document is the names on the trail joined with slashes;
   neither it nor the path of a directory on the way is ignored; and its ending gives the format.
   */
  ghost predicate TrailTo(ignored: Ignores, root: Node, trail: seq<Entry>, found: Document) {
    && 0 < |trail| <= 65 && (forall i :: 0 <= i < |trail| ==> trail[i].name.Some?)
    && IsEntryOf(trail[0], root) && (forall i :: 0 <= i < |trail| - 1 ==> IsEntryOf(trail[i + 1], trail[i].node))
    && (forall i :: 0 < i <= |trail| ==> !ignored(Join(NamesOf(trail)[..i], '/')))
    && trail[|trail| - 1].node.File?
    && found.0 == Join(NamesOf(trail), '/') && HasFormat(found.0, found.1)
  }

  /** Some trail of entries leads from the root to the document. */
  ghost predicate Reachable(ignored: Ignores, root: Node, found: Document) {
    exists trail :: TrailTo(ignored, root, trail, found)
  }

  ghost function PrefixOf(names: seq<FileName>): string { if names == [] then "" else Join(names, '/') }

  lemma {:induction false} JoinMore(names: seq<string>, name: string, c: char)
    requires names != []
    ensures Join(names + [name], c) == Join(names, c) + [c] + name
  {
    if |names| == 1 {
      assert (names + [name])[1..] == [name];
    } else {
      JoinMore(names[1..], name, c);
      assert (names + [name])[1..] == names[1..] + [name];
      assert Join(names, c) + [c] + name == names[0] + [c] + (Join(names[1..], c) + [c] + name);
    }
  }

  /** Joining a name to the path of a directory joins all the names. */
  lemma JoinRelativeExactly(names: seq<FileName>, name: FileName)
    ensures JoinRelative(PrefixOf(names), name) == PrefixOf(names + [name]) == Join(names + [name], '/') != ""
  {
    if names != [] {
      JoinMore(names, name, '/');
    }
  }

  /** The rest of a trail, below the directory that `before` names. */
  ghost predicate RestOfTrail(ignored: Ignores, dir: Node, before: seq<FileName>, trail: seq<Entry>, found: Document) {
    && 0 < |trail| && |before| + |trail| <= 65 && (forall i :: 0 <= i < |trail| ==> trail[i].name.Some?)
    && IsEntryOf(trail[0], dir) && (forall i :: 0 <= i < |trail| - 1 ==> IsEntryOf(trail[i + 1], trail[i].node))
    && (forall i :: 0 < i <= |trail| ==> !ignored(PrefixOf(before + NamesOf(trail)[..i])))
    && trail[|trail| - 1].node.File?
    && found.0 == PrefixOf(before + NamesOf(trail)) && HasFormat(found.0, found.1)
  }

  lemma RestLater(ignored: Ignores, dir: Node, before: seq<FileName>, trail: seq<Entry>, found: Document)
    requires |trail| > 1 && trail[0].name.Some?
    ensures RestOfTrail(ignored, dir, before, trail, found)
            <==> && IsEntryOf(trail[0], dir) && !ignored(PrefixOf(before + [trail[0].name.value]))
                 && RestOfTrail(ignored, trail[0].node, before + [trail[0].name.value], trail[1..], found)
  {
    hide PrefixOf, HasFormat, IsEntryOf;
    if forall i :: 0 <= i < |trail| ==> trail[i].name.Some? {
      RestPaths(ignored, before, trail);
      RestEntries(trail);
    }
  }

  lemma RestEntries(trail: seq<Entry>)
    requires |trail| > 1
    ensures (forall i :: 0 <= i < |trail| - 1 ==> IsEntryOf(trail[i + 1], trail[i].node))
            <==> IsEntryOf(trail[1], trail[0].node)
                 && forall i :: 0 <= i < |trail[1..]| - 1 ==> IsEntryOf(trail[1..][i + 1], trail[1..][i].node)
  {
    hide IsEntryOf;
    if forall i :: 0 <= i < |trail[1..]| - 1 ==> IsEntryOf(trail[1..][i + 1], trail[1..][i].node) {
      forall i | 1 <= i < |trail| - 1 ensures IsEntryOf(trail[i + 1], trail[i].node) {
        assert IsEntryOf(trail[1..][i - 1 + 1], trail[1..][i - 1].node);
      }
    }
  }

  lemma RestPaths(ignored: Ignores, before: seq<FileName>, trail: seq<Entry>)
    requires |trail| > 1 && forall i :: 0 <= i < |trail| ==> trail[i].name.Some?
    ensures before + NamesOf(trail) == before + [trail[0].name.value] + NamesOf(trail[1..])
    ensures (forall i :: 0 < i <= |trail| ==> !ignored(PrefixOf(before + NamesOf(trail)[..i])))
            <==> && !ignored(PrefixOf(before + [trail[0].name.value]))
                 && forall i :: 0 < i <= |trail[1..]| ==>
                      !ignored(PrefixOf(before + [trail[0].name.value] + NamesOf(trail[1..])[..i]))
  {
    hide PrefixOf;
    var more := before + [trail[0].name.value];
    var names, rest := NamesOf(trail), NamesOf(trail[1..]);
    assert before + names[..1] == more;
    assert forall i :: 1 < i <= |trail| ==> before + names[..i] == more + rest[..i - 1];
    assert forall i :: 0 < i <= |rest| ==> more + rest[..i] == before + names[..i + 1];
    if forall i :: 0 < i <= |trail| ==> !ignored(PrefixOf(before + names[..i])) {
      assert !ignored(PrefixOf(before + names[..1]));
      assert forall i :: 0 < i <= |rest| ==> !ignored(PrefixOf(more + rest[..i]));
    }
    if !ignored(PrefixOf(more)) && forall i :: 0 < i <= |rest| ==> !ignored(PrefixOf(more + rest[..i])) {
      forall i | 0 < i <= |trail| ensures !ignored(PrefixOf(before + names[..i])) {
        if i > 1 {
          assert !ignored(PrefixOf(more + rest[..i - 1]));
        }
      }
    }
  }

  lemma OneIsRest(ignored: Ignores, dir: Node, before: seq<FileName>, entry: Entry, found: Document)
    ensures Leads(ignored, dir, PrefixOf(before), |before|, [entry], found)
            <==> RestOfTrail(ignored, dir, before, [entry], found)
  {
    hide PrefixOf, HasFormat;
    if entry.name.Some? {
      var name := entry.name.value;
      JoinRelativeExactly(before, name);
      assert NamesOf([entry])[..1] == NamesOf([entry]) == [name];
      FormatExactly(PrefixOf(before + [name]), found.1);
    }
  }

  lemma NoneIsRest(ignored: Ignores, dir: Node, before: seq<FileName>, trail: seq<Entry>, found: Document)
    requires trail == [] || trail[0].name.None?
    ensures !Leads(ignored, dir, PrefixOf(before), |before|, trail, found)
    ensures !RestOfTrail(ignored, dir, before, trail, found)
  {
  }

  lemma MoreLead(ignored: Ignores, dir: Node, before: seq<FileName>, trail: seq<Entry>, found: Document)
    requires |trail| > 1 && trail[0].name.Some?
    ensures Leads(ignored, dir, PrefixOf(before), |before|, trail, found)
            <==> && IsEntryOf(trail[0], dir) && |before| <= MAX_DEPTH
                 && !ignored(PrefixOf(before + [trail[0].name.value]))
                 && Leads(ignored, trail[0].node, PrefixOf(before + [trail[0].name.value]), |before| + 1, trail[1..], found)
  {
    hide PrefixOf;
    JoinRelativeExactly(before, trail[0].name.value);
  }

  lemma TooDeep(ignored: Ignores, dir: Node, before: seq<FileName>, trail: seq<Entry>, found: Document)
    requires |before| > MAX_DEPTH
    ensures !RestOfTrail(ignored, dir, before, trail, found)
  {
  }

  lemma {:induction false} LeadsExactly(ignored: Ignores, dir: Node, before: seq<FileName>, trail: seq<Entry>, found: Document)
    ensures Leads(ignored, dir, PrefixOf(before), |before|, trail, found)
            <==> RestOfTrail(ignored, dir, before, trail, found)
    decreases |trail|
  {
    hide PrefixOf, HasFormat, Leads, RestOfTrail;
    if trail == [] || trail[0].name.None? {
      NoneIsRest(ignored, dir, before, trail, found);
    } else if |trail| == 1 {
      assert trail == [trail[0]];
      OneIsRest(ignored, dir, before, trail[0], found);
    } else {
      LeadsExactly(ignored, trail[0].node, before + [trail[0].name.value], trail[1..], found);
      RestLater(ignored, dir, before, trail, found);
      MoreLead(ignored, dir, before, trail, found);
      if |before| > MAX_DEPTH {
        TooDeep(ignored, dir, before, trail, found);
      }
    }
  }

  lemma NoneBefore(trail: seq<Entry>)
    requires trail != [] && forall i :: 0 <= i < |trail| ==> trail[i].name.Some?
    ensures PrefixOf([] + NamesOf(trail)) == Join(NamesOf(trail), '/')
    ensures forall i :: 0 < i <= |trail| ==> PrefixOf([] + NamesOf(trail)[..i]) == Join(NamesOf(trail)[..i], '/')
  {
    var none: seq<FileName> := [];
    assert forall i :: 0 < i <= |trail| ==> none + NamesOf(trail)[..i] == NamesOf(trail)[..i];
    assert none + NamesOf(trail) == NamesOf(trail);
  }

  lemma TrailIsRest(ignored: Ignores, root: Node, trail: seq<Entry>, found: Document)
    ensures TrailTo(ignored, root, trail, found) <==> Leads(ignored, root, "", 0, trail, found)
  {
    hide Leads, Join, HasFormat, IsEntryOf;
    LeadsExactly(ignored, root, [], trail, found);
    assert PrefixOf([]) == "";
    if trail != [] && forall i :: 0 <= i < |trail| ==> trail[i].name.Some? {
      NoneBefore(trail);
      hide PrefixOf;
      assert TrailTo(ignored, root, trail, found) <==> RestOfTrail(ignored, root, [], trail, found);
    }
  }

  /** The listing holds exactly the documents some trail leads to. */
  lemma DocumentsExactly(ignored: Ignores, root: Node, found: Document)
    ensures found in Documents(ignored, root, "", 0) <==> Reachable(ignored, root, found)
  {
    if found in Documents(ignored, root, "", 0) {
      var trail := ListedOnlyIfLed(ignored, root, "", 0, found);
      TrailIsRest(ignored, root, trail, found);
    }
    if trail :| TrailTo(ignored, root, trail, found) {
      TrailIsRest(ignored, root, trail, found);
      ListedIfLed(ignored, root, "", 0, trail, found);
    }
  }

  // ----- the order of entries does not matter -----

  lemma {:induction false} ListingInsert(ignored: Ignores, leq: (Entry, Entry) -> bool, entry: Entry, rest: seq<Entry>, prefix: string, depth: nat)
    ensures multiset(Listing(ignored, Insert(leq, entry, rest), prefix, depth))
            == multiset(OfEntry(ignored, entry, prefix, depth)) + multiset(Listing(ignored, rest, prefix, depth))
  {
    if rest == [] || leq(entry, rest[0]) {
      assert ([entry] + rest)[1..] == rest;
    } else {
      var inserted := Insert(leq, entry, rest[1..]);
      ListingInsert(ignored, leq, entry, rest[1..], prefix, depth);
      assert ([rest[0]] + inserted)[1..] == inserted;
    }
  }

  lemma {:induction false} ListingSorted(ignored: Ignores, leq: (Entry, Entry) -> bool, entries: seq<Entry>, prefix: string, depth: nat)
    ensures multiset(Listing(ignored, Sort(leq, entries), prefix, depth)) == multiset(Listing(ignored, entries, prefix, depth))
  {
    if entries != [] {
      ListingSorted(ignored, leq, entries[1..], prefix, depth);
      ListingInsert(ignored, leq, entries[0], Sort(leq, entries[1..]), prefix, depth);
    }
  }

  // ----- the stack -----

  datatype Task = Task(dir: Node, prefix: string, depth: nat)

  ghost function Pending(ignored: Ignores, stack: seq<Task>): multiset<Document> {
    if stack == [] then multiset{}
    else
      var top := stack[|stack| - 1];
      Pending(ignored, stack[..|stack| - 1]) + multiset(Documents(ignored, top.dir, top.prefix, top.depth))
  }

  lemma PendingPush(ignored: Ignores, stack: seq<Task>, task: Task)
    ensures Pending(ignored, stack + [task])
            == Pending(ignored, stack) + multiset(Documents(ignored, task.dir, task.prefix, task.depth))
  {
    assert (stack + [task])[..|stack|] == stack;
  }

  ghost function NodeSize(node: Node): nat
    decreases node, 0
  {
    if node.Directory? then 1 + EntriesSize(node.entries) else 1
  }

  ghost function EntriesSize(entries: seq<Entry>): nat
    decreases entries, 0
  {
    if entries == [] then 0 else EntrySize(entries[0]) + EntriesSize(entries[1..])
  }

  ghost function EntrySize(entry: Entry): nat
    decreases entry, 1
  {
    NodeSize(entry.node)
  }

  lemma {:induction false} SizeInsert(leq: (Entry, Entry) -> bool, entry: Entry, rest: seq<Entry>)
    ensures EntriesSize(Insert(leq, entry, rest)) == NodeSize(entry.node) + EntriesSize(rest)
  {
    if rest == [] || leq(entry, rest[0]) {
      assert ([entry] + rest)[1..] == rest;
    } else {
      SizeInsert(leq, entry, rest[1..]);
      assert ([rest[0]] + Insert(leq, entry, rest[1..]))[1..] == Insert(leq, entry, rest[1..]);
    }
  }

  lemma {:induction false} SizeSorted(leq: (Entry, Entry) -> bool, entries: seq<Entry>)
    ensures EntriesSize(Sort(leq, entries)) == EntriesSize(entries)
  {
    if entries != [] {
      SizeSorted(leq, entries[1..]);
      SizeInsert(leq, entries[0], Sort(leq, entries[1..]));
    }
  }

  ghost function StackSize(stack: seq<Task>): nat {
    if stack == [] then 0 else StackSize(stack[..|stack| - 1]) + NodeSize(stack[|stack| - 1].dir)
  }

  lemma SizePush(stack: seq<Task>, task: Task)
    ensures StackSize(stack + [task]) == StackSize(stack) + NodeSize(task.dir)
  {
    assert (stack + [task])[..|stack|] == stack;
  }

  /** The order of (path, format) pairs. */
  function DocumentLeq(): (Document, Document) -> bool {
    ThenBy((d: Document) => d.0, StringLeq, (a: Document, b: Document) => a.1.Rank() <= b.1.Rank())
  }

  lemma DocumentOrder(documents: seq<Document>)
    ensures TotalPreorder(DocumentLeq()) && NoTies(DocumentLeq(), documents)
  {
    StringOrder();
    ThenByPreorder((d: Document) => d.0, StringLeq, (a: Document, b: Document) => a.1.Rank() <= b.1.Rank());
  }

  /**
   The loop over the entries of one directory: it pushes the subdirectories and records the
   document files, and what is still to be found plus what has been found stays the same.
   */
  method Visit(ignored: Ignores, leq: (Entry, Entry) -> bool, entries: seq<Entry>, prefix: string, depth: nat,
               stack0: seq<Task>, found0: seq<Document>)
    returns (stack: seq<Task>, found: seq<Document>)
    ensures multiset(found) + Pending(ignored, stack)
            == multiset(found0) + Pending(ignored, stack0) + multiset(Listing(ignored, entries, prefix, depth))
    ensures StackSize(stack) <= StackSize(stack0) + EntriesSize(entries)
  {
    var listed := Sort(leq, entries);
    ListingSorted(ignored, leq, entries, prefix, depth);
    SizeSorted(leq, entries);
    stack, found := stack0, found0;
    for i := 0 to |listed|
      invariant multiset(found) + Pending(ignored, stack) + multiset(Listing(ignored, listed[i..], prefix, depth))
                == multiset(found0) + Pending(ignored, stack0) + multiset(Listing(ignored, listed, prefix, depth))
      invariant StackSize(stack) + EntriesSize(listed[i..]) <= StackSize(stack0) + EntriesSize(listed)
    {
      var entry := listed[i];
      assert listed[i..][1..] == listed[i + 1..];
      assert multiset(Listing(ignored, listed[i..], prefix, depth))
          == multiset(OfEntry(ignored, entry, prefix, depth)) + multiset(Listing(ignored, listed[i + 1..], prefix, depth));
      if entry.name.None? {
        continue;
      }
      var relative := JoinRelative(prefix, entry.name.value);
      if ignored(relative) {
        continue;
      }
      match entry.node {
        case Other =>
        case Directory(_, _) =>
          PendingPush(ignored, stack, Task(entry.node, relative, depth + 1));
          SizePush(stack, Task(entry.node, relative, depth + 1));
          stack := stack + [Task(entry.node, relative, depth + 1)];
        case File =>
          var format := FormatForPath(relative);
          if format.Some? {
            found := found + [(relative, format.value)];
          }
      }
    }
    assert listed[|listed|..] == [];
  }

  function Least(documents: seq<Document>): seq<Document> {
    if |documents| <= MAX_DOCUMENT_FILES then documents else documents[..MAX_DOCUMENT_FILES]
  }

  /** The files a root is to yield: the least MAX_DOCUMENT_FILES documents, in order. */
  ghost function Wanted(ignored: Ignores, root: Node): seq<Document> {
    Least(Sort(DocumentLeq(), Documents(ignored, root, "", 0)))
  }

  lemma SortedFound(found: seq<Document>, all: seq<Document>)
    requires multiset(found) == multiset(all)
    ensures Sort(DocumentLeq(), found) == Sort(DocumentLeq(), all)
    ensures |Sort(DocumentLeq(), found)| == |found| == |all|
  {
    assert |found| == |multiset(found)| == |all|;
    DocumentOrder(found);
    SortPermutation(DocumentLeq(), found, all);
    SortSorts(DocumentLeq(), found);
  }

  lemma PendingPop(ignored: Ignores, stack: seq<Task>)
    requires stack != []
    ensures var top, rest := stack[|stack| - 1], stack[..|stack| - 1];
            && Pending(ignored, stack) == Pending(ignored, rest) + multiset(Documents(ignored, top.dir, top.prefix, top.depth))
            && StackSize(stack) == StackSize(rest) + NodeSize(top.dir) && NodeSize(top.dir) >= 1
  {
  }

  /** Empties the stack from the root on. */
  method Walk(ignored: Ignores, leq: (Entry, Entry) -> bool, root: Node) returns (found: seq<Document>)
    ensures multiset(found) == multiset(Documents(ignored, root, "", 0))
  {
    found := [];
    var stack := [Task(root, "", 0)];
    PendingPush(ignored, [], stack[0]);
    assert [] + stack == stack;
    while stack != []
      invariant multiset(found) + Pending(ignored, stack) == multiset(Documents(ignored, root, "", 0))
      decreases StackSize(stack)
    {
      PendingPop(ignored, stack);
      var task := stack[|stack| - 1];
      stack := stack[..|stack| - 1];
      if task.dir.Directory? && task.dir.readable && task.depth <= MAX_DEPTH {
        stack, found := Visit(ignored, leq, task.dir.entries, task.prefix, task.depth, stack, found);
      }
    }
  }

  /** The whole search; `leq` is the order it visits the entries of a directory in. */
  method Discover(ignored: Ignores, leq: (Entry, Entry) -> bool, root: Node) returns (found: seq<Document>, omitted: nat)
    ensures found == Wanted(ignored, root)
    ensures |found| + omitted == |Documents(ignored, root, "", 0)|
  {
    found := Walk(ignored, leq, root);
    SortedFound(found, Documents(ignored, root, "", 0));
    found := Sort(DocumentLeq(), found);
    omitted := if |found| > MAX_DOCUMENT_FILES then |found| - MAX_DOCUMENT_FILES else 0;
    found := Least(found);
  }

  /** The order over the fields: the lesser path first, and the formats in the order they are declared in. */
  ghost predicate NoLater(a: Document, b: Document) {
    if a.0 != b.0 then StringLeq(a.0, b.0) else a.1 == b.1 || a.1 == Docx || b.1 == Pdf || (a.1 == Xlsx && b.1 == Pptx)
  }

  lemma DocumentOrderExactly(a: Document, b: Document)
    ensures DocumentLeq()(a, b) <==> NoLater(a, b)
  {
    hide StringLeq;
    var rankLeq := (x: Document, y: Document) => x.1.Rank() <= y.1.Rank();
    assert a.0 == b.0 ==> (rankLeq(a, b) <==> NoLater(a, b));
  }

  /** What was kept is in order, is in the tree, and precedes every document that was left out; at most 64 are kept. */
  lemma WantedAreLeast(ignored: Ignores, root: Node)
    ensures var wanted, all := Wanted(ignored, root), Documents(ignored, root, "", 0);
            && |wanted| == (if |all| <= 64 then |all| else 64) && multiset(wanted) <= multiset(all)
            && (forall i, j :: 0 <= i < j < |wanted| ==> NoLater(wanted[i], wanted[j]))
            && forall kept, left :: kept in wanted && left in multiset(all) - multiset(wanted) ==> NoLater(kept, left)
  {
    hide Documents, DocumentLeq, Sort, NoLater;
    var all := Sort(DocumentLeq(), Documents(ignored, root, "", 0));
    DocumentOrder(all);
    SortSorts(DocumentLeq(), Documents(ignored, root, "", 0));
    PrefixIsLeast(DocumentLeq(), all, |Least(all)|);
    forall a, b ensures DocumentLeq()(a, b) <==> NoLater(a, b) {
      DocumentOrderExactly(a, b);
    }
  }

  lemma PrefixIsLeast<T>(leq: (T, T) -> bool, all: seq<T>, k: nat)
    requires Sorted(leq, all) && k <= |all|
    ensures Sorted(leq, all[..k]) && multiset(all[..k]) <= multiset(all)
    ensures forall x, y :: x in all[..k] && y in multiset(all) - multiset(all[..k]) ==> leq(x, y)
  {
    assert all == all[..k] + all[k..];
    assert multiset(all) - multiset(all[..k]) == multiset(all[k..]);
    forall x, y | x in all[..k] && y in multiset(all[k..]) ensures leq(x, y) {
      assert y in all[k..];
    }
  }
}
