/**
 What the result store keeps below `.bran/results`: directories of content-addressed
 files, and how the store reads, bounds and orders them.

 A directory of the store is a map from names to folders. Batches carry a tick in their
 name, by which they expire and are ordered; transaction directories are what an operation
 works in until it is done, and are never served. The limits are those of the store.
 */
module ResultFiles {
  import opened BatchNames
  import opened Common
  import opened Ordering

  const MAX_ENTRIES := 16
  const MAX_TOTAL_BYTES := 4 * 1024 * 1024
  const MAX_ITEM_BYTES := 1024 * 1024
  const MAX_AGE_TICKS := 86_400
  const SCAN_LIMIT := 4 * MAX_ENTRIES + 64

  datatype StoreError = EmptyInput | ItemTooLarge | BatchCapacityExceeded | Unavailable | Corrupt | NotFound

  type Bytes = seq<byte>

  type Files = map<string, Bytes>

  /** A directory; only a quarantine directory holds further directories. */
  datatype Folder = Folder(files: Files, held: map<string, Folder>)

  /** The store's directory, without its lock file. */
  type Disk = map<string, Folder>

  const TXN := ".txn-"

  predicate IsTxn(name: string) { TXN <= name }

  predicate IsBatch(name: string) { BatchTick(name).Some? }

  lemma TxnExactly(name: string)
    ensures IsTxn(name) <==> exists rest :: name == ".txn-" + rest
  {
    if IsTxn(name) {
      assert name == ".txn-" + name[5..];
    }
  }

  lemma BatchIsNotTxn(name: string)
    ensures !(IsTxn(name) && IsBatch(name))
  {
    assert TXN[0] != BATCH[0];
  }

  /** A batch the store still serves at a given time: ages saturate at zero. */
  predicate LiveAt(name: string, now: nat) {
    IsBatch(name) && now - BatchTick(name).value < MAX_AGE_TICKS
  }

  /** A batch is served for 86,400 ticks from its own on, and no longer. */
  lemma LiveExactly(tick: nat, digest: Digest, now: nat)
    requires tick <= 0xFFFF_FFFF_FFFF_FFFF
    ensures LiveAt(BatchName(tick, digest), now) <==> now < tick + 86_400
  {
    TickRoundTrip(tick, digest);
  }

  /** No batch of the directory is of an age of 86,400 ticks or more, and there is nothing but batches. */
  ghost predicate OnlyCurrent(disk: Disk, now: nat) {
    forall n :: n in disk ==> BatchTick(n).Some? && now < BatchTick(n).value + 86_400
  }

  /** Recovery removes what is not a batch or has expired, and nothing else. */
  lemma LiveIsCurrent(disk: Disk, now: nat)
    ensures OnlyCurrent(Live(disk, now), now)
    ensures forall n :: n in Live(disk, now) <==> n in disk && BatchTick(n).Some? && now < BatchTick(n).value + 86_400
    ensures forall n :: n in Live(disk, now) ==> Live(disk, now)[n] == disk[n]
  {
  }

  /** What recovery leaves: no transaction directories and no expired batches. */
  function Live(disk: Disk, now: nat): Disk {
    map name | name in disk && LiveAt(name, now) :: disk[name]
  }

  /** The batches of a directory, expired or not. */
  function Batches(disk: Disk): Disk {
    map name | name in disk && IsBatch(name) :: disk[name]
  }

  /** Recovering later only expires more. */
  lemma LiveLater(disk: Disk, now: nat, later: nat)
    requires now <= later
    ensures Live(disk, later) == Live(Live(disk, now), later)
  {
  }

  /** Sum of a weight over the entries of a map. */
  ghost function Sum<V>(m: map<string, V>, weight: V -> nat): nat
    decreases |m|
  {
    if m == map[] then 0
    else
      var k :| k in m;
      weight(m[k]) + Sum(m - {k}, weight)
  }

  lemma {:induction false} SumRemove<V>(m: map<string, V>, weight: V -> nat, k: string)
    requires k in m
    ensures Sum(m, weight) == weight(m[k]) + Sum(m - {k}, weight)
    decreases |m|
  {
    var pick :| pick in m && Sum(m, weight) == weight(m[pick]) + Sum(m - {pick}, weight);
    if pick != k {
      SumRemove(m - {pick}, weight, k);
      SumRemove(m - {k}, weight, pick);
      assert m - {pick} - {k} == m - {k} - {pick};
    }
  }

  lemma {:induction false} SumPointwise<V>(m: map<string, V>, weight: V -> nat, other: V -> nat)
    requires forall k :: k in m ==> weight(m[k]) == other(m[k])
    ensures Sum(m, weight) == Sum(m, other)
    decreases |m|
  {
    if m != map[] {
      var k :| k in m;
      SumRemove(m, weight, k);
      SumRemove(m, other, k);
      SumPointwise(m - {k}, weight, other);
    }
  }

  lemma SumAdd<V>(m: map<string, V>, weight: V -> nat, k: string, v: V)
    requires k !in m
    ensures Sum(m[k := v], weight) == weight(v) + Sum(m, weight)
  {
    SumRemove(m[k := v], weight, k);
    assert m[k := v] - {k} == m;
  }

  lemma {:induction false} SumMonotone<V>(small: map<string, V>, large: map<string, V>, weight: V -> nat)
    requires forall k :: k in small ==> k in large && weight(small[k]) <= weight(large[k])
    ensures Sum(small, weight) <= Sum(large, weight)
    decreases |small|
  {
    if small != map[] {
      var k :| k in small;
      SumRemove(small, weight, k);
      SumRemove(large, weight, k);
      SumMonotone(small - {k}, large - {k}, weight);
    }
  }

  const Length: Bytes -> nat := (b: Bytes) => |b|

  ghost function FileBytes(files: Files): nat { Sum(files, Length) }

  const FolderItems: Folder -> nat := (f: Folder) => |f.files|

  ghost const FolderBytes: Folder -> nat := (f: Folder) => FileBytes(f.files)

  /** How many results a directory holds, and how many bytes they take. */
  ghost function TotalItems(disk: Disk): nat { Sum(disk, FolderItems) }

  ghost function TotalBytes(disk: Disk): nat { Sum(disk, FolderBytes) }

  /** One batch as the scan reports it. */
  datatype Batch = Batch(tick: nat, name: string, count: nat, bytes: nat)

  predicate BatchLeq(a: Batch, b: Batch) {
    a.tick < b.tick || (a.tick == b.tick && StringLeq(a.name, b.name))
  }

  lemma BatchOrder()
    ensures TotalPreorder(BatchLeq)
  {
    StringOrder();
  }

  ghost predicate Describes(b: Batch, name: string, f: Folder) {
    && BatchTick(name) == Some(b.tick) && b.name == name
    && b.count == |f.files| && b.bytes == FileBytes(f.files)
  }

  /** `batches` reports every directory of `disk`, each once. */
  ghost predicate Lists(batches: seq<Batch>, disk: Disk) {
    && |batches| == |disk|
    && (forall b :: b in batches ==> b.name in disk && Describes(b, b.name, disk[b.name]))
    && (forall i, j :: 0 <= i < j < |batches| ==> batches[i].name != batches[j].name)
  }

  function Names(batches: seq<Batch>): (names: seq<string>)
    ensures |names| == |batches|
    ensures forall i :: 0 <= i < |batches| ==> names[i] == batches[i].name
  {
    seq(|batches|, i requires 0 <= i < |batches| => batches[i].name)
  }

  function CountOf(batches: seq<Batch>): nat {
    if batches == [] then 0 else batches[0].count + CountOf(batches[1..])
  }

  function BytesOf(batches: seq<Batch>): nat {
    if batches == [] then 0 else batches[0].bytes + BytesOf(batches[1..])
  }

  lemma ListsTail(batches: seq<Batch>, disk: Disk)
    requires Lists(batches, disk) && batches != []
    ensures Lists(batches[1..], disk - {batches[0].name})
  {
    var rest := disk - {batches[0].name};
    assert rest.Keys == disk.Keys - {batches[0].name};
    forall b | b in batches[1..] ensures b.name in rest {
      var i :| 0 <= i < |batches[1..]| && batches[1..][i] == b;
      assert batches[i + 1] == b && batches[0].name != b.name;
    }
  }

  lemma ListsAdd(batches: seq<Batch>, b: Batch, disk: Disk, name: string, f: Folder)
    requires Lists(batches, disk) && name !in disk && Describes(b, name, f)
    ensures Lists(batches + [b], disk[name := f])
  {
    var e := disk[name := f];
    forall c | c in batches + [b] ensures c.name in e && Describes(c, c.name, e[c.name]) {
      assert c in batches || c == b;
    }
    forall i | 0 <= i < |batches| ensures batches[i].name != name {
      assert batches[i] in batches;
    }
  }

  /** The sums over a listing are the totals of the directory. */
  lemma {:induction false} ListedTotals(batches: seq<Batch>, disk: Disk)
    requires Lists(batches, disk)
    ensures CountOf(batches) == TotalItems(disk) && BytesOf(batches) == TotalBytes(disk)
  {
    if batches == [] {
      assert disk == map[];
    } else {
      var name := batches[0].name;
      assert batches[0] in batches;
      ListsTail(batches, disk);
      ListedTotals(batches[1..], disk - {name});
      SumRemove(disk, FolderItems, name);
      SumRemove(disk, FolderBytes, name);
    }
  }

  function NameSet(batches: seq<Batch>): set<string> { set b | b in batches :: b.name }

  function Without(disk: Disk, names: set<string>): Disk { disk - names }

  lemma {:induction false} NamesCount(batches: seq<Batch>)
    requires forall i, j :: 0 <= i < j < |batches| ==> batches[i].name != batches[j].name
    ensures |NameSet(batches)| == |batches|
  {
    if batches != [] {
      NamesCount(batches[1..]);
      assert batches == [batches[0]] + batches[1..];
      assert NameSet(batches) == {batches[0].name} + NameSet(batches[1..]);
    }
  }

  lemma PrefixNames(batches: seq<Batch>, disk: Disk, k: nat)
    requires Lists(batches, disk) && k <= |batches|
    ensures NameSet(batches[..k]) <= disk.Keys && |NameSet(batches[..k])| == k
    ensures forall b :: b in batches[k..] ==> b.name !in NameSet(batches[..k])
  {
    NamesCount(batches[..k]);
    forall b | b in batches[..k] ensures b.name in disk {
      assert b in batches;
    }
    forall b | b in batches[k..] ensures b.name !in NameSet(batches[..k]) {
      var j :| k <= j < |batches| && batches[j] == b;
      forall c | c in batches[..k] ensures c.name != b.name {
        var i :| 0 <= i < k && batches[i] == c;
      }
    }
  }

  lemma WithoutSize(disk: Disk, names: set<string>)
    requires names <= disk.Keys
    ensures |Without(disk, names)| == |disk| - |names|
  {
    assert Without(disk, names).Keys == disk.Keys - names;
  }

  /** Dropping a prefix of a listing leaves a listing of the other directories. */
  lemma ListsDrop(batches: seq<Batch>, disk: Disk, k: nat)
    requires Lists(batches, disk) && k <= |batches|
    ensures Lists(batches[k..], Without(disk, NameSet(batches[..k])))
  {
    var rest := Without(disk, NameSet(batches[..k]));
    PrefixNames(batches, disk, k);
    WithoutSize(disk, NameSet(batches[..k]));
    forall b | b in batches[k..] ensures b.name in rest && Describes(b, b.name, rest[b.name]) {
      assert b in batches;
    }
  }

  lemma SortedListing(batches: seq<Batch>, disk: Disk)
    requires Lists(batches, disk)
    ensures Lists(Sort(BatchLeq, batches), disk)
    ensures Sorted(BatchLeq, Sort(BatchLeq, batches))
  {
    var sorted := Sort(BatchLeq, batches);
    BatchOrder();
    SortSorts(BatchLeq, batches);
    forall b | b in sorted ensures b in batches {
      assert b in multiset(sorted);
    }
    var key := (b: Batch) => b.name;
    assert DistinctBy(key, batches);
    DistinctPermutation(key, batches, sorted);
    forall i, j | 0 <= i < j < |sorted| ensures sorted[i].name != sorted[j].name {
      assert key(sorted[i]) != key(sorted[j]);
    }
  }

  /** A batch whose files are what their names say, within the limits of one batch. */
  ghost predicate GoodFolder(sha: Bytes -> Digest, f: Folder) {
    && f.held == map[]
    && (forall n :: n in f.files ==> IsDigest(n) && sha(f.files[n]) == n && 1 <= |f.files[n]| <= MAX_ITEM_BYTES)
    && |f.files| <= MAX_ENTRIES
    && FileBytes(f.files) <= MAX_TOTAL_BYTES
  }

  /** Every name is a transaction or a good batch. */
  ghost predicate WellFormed(sha: Bytes -> Digest, disk: Disk) {
    forall n :: n in disk ==> IsTxn(n) || (IsBatch(n) && GoodFolder(sha, disk[n]))
  }

  /** What is left of a directory while it is being deleted. */
  ghost predicate Remnant(part: Folder, whole: Folder) {
    && (forall n :: n in part.files ==> n in whole.files && part.files[n] == whole.files[n])
    && part.held.Keys <= whole.held.Keys
  }

  lemma RemnantIsSmaller(part: Folder, whole: Folder)
    requires Remnant(part, whole)
    ensures FileBytes(part.files) <= FileBytes(whole.files) && |part.files| <= |whole.files|
  {
    forall k | k in part.files ensures k in whole.files && Length(part.files[k]) <= Length(whole.files[k]) {
    }
    SumMonotone(part.files, whole.files, Length);
    assert part.files.Keys <= whole.files.Keys;
    SubsetSize(part.files.Keys, whole.files.Keys);
  }

  lemma RemnantIsGood(sha: Bytes -> Digest, part: Folder, whole: Folder)
    requires Remnant(part, whole) && GoodFolder(sha, whole)
    ensures GoodFolder(sha, part)
  {
    RemnantIsSmaller(part, whole);
    assert part.held.Keys == {};
    assert part.held == map[];
  }

  /** The files a batch of results is stored as. */
  function FilesOf(ids: seq<Digest>, payloads: seq<Bytes>): Files
    requires |ids| == |payloads|
  {
    if ids == [] then map[]
    else
      var n := |ids| - 1;
      FilesOf(ids[..n], payloads[..n])[ids[n] := payloads[n]]
  }

  function SumLengths(payloads: seq<Bytes>): nat {
    if payloads == [] then 0 else SumLengths(payloads[..|payloads| - 1]) + |payloads[|payloads| - 1]|
  }

  lemma {:induction false} FilesOfEntries(ids: seq<Digest>, payloads: seq<Bytes>)
    requires |ids| == |payloads| && Distinct(ids)
    ensures FilesOf(ids, payloads).Keys == set id | id in ids
    ensures forall i :: 0 <= i < |ids| ==> FilesOf(ids, payloads)[ids[i]] == payloads[i]
  {
    if ids != [] {
      var n := |ids| - 1;
      FilesOfEntries(ids[..n], payloads[..n]);
      assert ids == ids[..n] + [ids[n]];
      assert forall i :: 0 <= i < n ==> ids[i] == ids[..n][i] && payloads[i] == payloads[..n][i] && ids[i] != ids[n];
    }
  }

  lemma FilesOfNext(ids: seq<Digest>, payloads: seq<Bytes>, i: nat)
    requires |ids| == |payloads| && i < |ids| && Distinct(ids[..i])
    ensures FilesOf(ids[..i + 1], payloads[..i + 1]) == FilesOf(ids[..i], payloads[..i])[ids[i] := payloads[i]]
    ensures ids[i] !in FilesOf(ids[..i], payloads[..i]) ==> Distinct(ids[..i + 1])
  {
    assert ids[..i + 1][..i] == ids[..i] && payloads[..i + 1][..i] == payloads[..i];
    FilesOfEntries(ids[..i], payloads[..i]);
    if ids[i] !in FilesOf(ids[..i], payloads[..i]) {
      assert ids[i] !in ids[..i];
      assert ids[..i + 1] == ids[..i] + [ids[i]];
    }
  }

  lemma {:induction false} FilesOfSize(ids: seq<Digest>, payloads: seq<Bytes>)
    requires |ids| == |payloads| && Distinct(ids)
    ensures |FilesOf(ids, payloads)| == |ids|
    ensures FileBytes(FilesOf(ids, payloads)) == SumLengths(payloads)
  {
    if ids != [] {
      var n := |ids| - 1;
      var before := FilesOf(ids[..n], payloads[..n]);
      FilesOfSize(ids[..n], payloads[..n]);
      FilesOfEntries(ids[..n], payloads[..n]);
      assert ids[n] !in ids[..n];
      SumAdd(before, Length, ids[n], payloads[n]);
    }
  }

  lemma SumUpdate(files: Files, name: string, bytes: Bytes)
    ensures FileBytes(files[name := bytes]) <= FileBytes(files) + |bytes|
    ensures |files[name := bytes]| <= |files| + 1
  {
    if name in files {
      SumRemove(files, Length, name);
      SumAdd(files - {name}, Length, name, bytes);
      assert (files - {name})[name := bytes] == files[name := bytes];
      assert files[name := bytes].Keys == files.Keys;
    } else {
      SumAdd(files, Length, name, bytes);
    }
  }

  /** Even with repetitions, the files are no larger than the payloads. */
  lemma {:induction false} FilesOfBound(ids: seq<Digest>, payloads: seq<Bytes>)
    requires |ids| == |payloads|
    ensures |FilesOf(ids, payloads)| <= |ids|
    ensures FileBytes(FilesOf(ids, payloads)) <= SumLengths(payloads)
  {
    if ids != [] {
      var n := |ids| - 1;
      FilesOfBound(ids[..n], payloads[..n]);
      SumUpdate(FilesOf(ids[..n], payloads[..n]), ids[n], payloads[n]);
    }
  }

  lemma {:induction false} FilesOfAddressed(sha: Bytes -> Digest, ids: seq<Digest>, payloads: seq<Bytes>)
    requires |ids| == |payloads| && forall i :: 0 <= i < |ids| ==> ids[i] == sha(payloads[i])
    ensures forall n :: n in FilesOf(ids, payloads) ==>
              IsDigest(n) && sha(FilesOf(ids, payloads)[n]) == n && FilesOf(ids, payloads)[n] in payloads
  {
    if ids != [] {
      FilesOfAddressed(sha, ids[..|ids| - 1], payloads[..|ids| - 1]);
    }
  }
}
