/** The states a put, a get or a crash may leave the result store's directory in, and what they mean for the results it serves. */
module ResultStates {
  import opened BatchNames
  import opened Common
  import opened Decimal
  import opened Faults
  import opened Ordering
  import opened ResultFiles

  ghost predicate AgreeOff(d: Disk, e: Disk, name: string) { d - {name} == e - {name} }

  /** A state in which deleting `name` from `e` has come some way. */
  ghost predicate Deleting(d: Disk, e: Disk, name: string) {
    AgreeOff(d, e, name) && (name in d ==> name in e && Remnant(d[name], e[name]))
  }

  /** Apart from transaction directories, `d` holds only what is left of `e`. */
  ghost predicate Shrunk(d: Disk, e: Disk) {
    forall n :: n in d && !IsTxn(n) ==> n in e && Remnant(d[n], e[n])
  }

  lemma ShrunkIsWellFormed(sha: Bytes -> Digest, d: Disk, e: Disk)
    requires Shrunk(d, e) && WellFormed(sha, e)
    ensures WellFormed(sha, d)
  {
    forall n | n in d && !IsTxn(n) ensures IsBatch(n) && GoodFolder(sha, d[n]) {
      RemnantIsGood(sha, d[n], e[n]);
    }
  }

  lemma AgreeElsewhere(d: Disk, e: Disk, name: string)
    requires AgreeOff(d, e, name)
    ensures forall n :: n != name ==> (n in d <==> n in e)
    ensures forall n :: n != name && n in d ==> d[n] == e[n]
    ensures IsTxn(name) ==> Batches(d) == Batches(e) && Shrunk(d, e)
  {
    forall n | n != name ensures n in d <==> n in e {
      assert n in d - {name} <==> n in e - {name};
    }
    forall n | n != name && n in d ensures d[n] == e[n] {
      assert (d - {name})[n] == (e - {name})[n];
    }
    if IsTxn(name) {
      SameBatches(d, e, name);
    }
  }

  lemma SameBatches(d: Disk, e: Disk, name: string)
    requires IsTxn(name)
    requires forall n :: n != name ==> (n in d <==> n in e)
    requires forall n :: n != name && n in d ==> d[n] == e[n]
    ensures Batches(d) == Batches(e) && Shrunk(d, e)
  {
    BatchIsNotTxn(name);
  }

  lemma Created(e: Disk, name: string, folder: Folder)
    requires name !in e
    ensures AgreeOff(e[name := folder], e, name) && AgreeOff(e, e, name)
  {
    assert e[name := folder] - {name} == e - {name};
  }

  /** Renaming the staging directory leaves what was there and the new name. */
  lemma StagedRenamed(d: Disk, start: Disk, staging: string, target: string)
    requires AgreeOff(d, start, staging) && staging in d && staging !in start && target !in start && target != staging
    ensures target !in d && (d - {staging})[target := d[staging]] == start[target := d[staging]]
  {
    AgreeElsewhere(d, start, staging);
    assert d - {staging} == start;
  }

  lemma DeletingStep(d: Disk, e: Disk, name: string, part: Folder)
    requires Deleting(d, e, name) && name in d && Remnant(part, d[name])
    ensures Deleting(d[name := part], e, name)
  {
    assert d[name := part] - {name} == d - {name};
  }

  lemma DeletingDone(d: Disk, e: Disk, name: string)
    requires Deleting(d, e, name)
    ensures Deleting(d - {name}, e, name) && d - {name} == e - {name}
  {
    assert d - {name} - {name} == d - {name};
  }

  lemma DeletingWhole(e: Disk, name: string)
    requires name in e
    ensures Deleting(e, e, name) && Deleting(e - {name}, e, name)
  {
    DeletingDone(e, e, name);
  }

  const EMPTY := Folder(map[], map[])

  function WithFile(disk: Disk, dir: string, name: string, bytes: Bytes): Disk
    requires dir in disk
  {
    disk[dir := disk[dir].(files := disk[dir].files[name := bytes])]
  }

  /** The directory once the batches `gone` have been moved into a quarantine. */
  ghost function Quarantined(disk: Disk, quarantine: string, gone: set<string>): Disk {
    (disk - gone)[quarantine := Folder(map[], map n | n in gone && n in disk :: disk[n])]
  }

  ghost function SetOf(names: seq<string>): set<string> { set n | n in names }

  /** The outcome of publishing `folder` as `target` and evicting `gone`. */
  function Published(live: Disk, gone: set<string>, target: string, folder: Folder): Disk {
    Without(live, gone)[target := folder]
  }

  /** `d` differs from `e` by what a scan at `now` may discard. */
  ghost predicate Discarding(d: Disk, e: Disk, now: nat) {
    Live(d, now) == Live(e, now) && Shrunk(d, e)
  }

  lemma DiscardingIsWellFormed(sha: Bytes -> Digest, d: Disk, e: Disk, now: nat)
    requires Discarding(d, e, now) && WellFormed(sha, e)
    ensures WellFormed(sha, d)
  {
    ShrunkIsWellFormed(sha, d, e);
  }

  lemma DiscardOne(d: Disk, mid: Disk, e: Disk, name: string, now: nat)
    requires Discarding(mid, e, now) && Deleting(d, mid, name) && !LiveAt(name, now)
    ensures Discarding(d, e, now)
  {
    hide Remnant, AgreeOff, LiveAt, IsTxn;
    AgreeElsewhere(d, mid, name);
    assert Live(d, now) == Live(mid, now);
    forall n | n in d && !IsTxn(n) ensures n in e && Remnant(d[n], e[n]) {
      if n == name {
        RemnantOfRemnant(d[n], mid[n], e[n]);
      }
    }
  }

  lemma RemnantOfRemnant(part: Folder, mid: Folder, whole: Folder)
    requires Remnant(part, mid) && Remnant(mid, whole)
    ensures Remnant(part, whole)
  {
  }

  lemma AllLive(disk: Disk, now: nat)
    requires forall n :: n in disk ==> LiveAt(n, now)
    ensures Live(disk, now) == disk
  {
  }

  /** What the size check of a batch directory accepts. */
  ghost predicate Sized(f: Folder) {
    && f.held == map[]
    && (forall n :: n in f.files ==> IsDigest(n))
    && |f.files| <= MAX_ENTRIES && FileBytes(f.files) <= MAX_TOTAL_BYTES
  }

  lemma SizedExactly(f: Folder)
    ensures Sized(f) <==>
              && |f.held| == 0 && (forall n :: n in f.files ==> IsDigest(n))
              && |f.files| <= 16 && Sum(f.files, (b: Bytes) => |b|) <= 4_194_304
  {
    if |f.held| == 0 {
      assert f.held == map[];
    }
    SumPointwise(f.files, Length, (b: Bytes) => |b|);
  }

  /** What a scan lists: a live batch of acceptable size. */
  ghost function Listable(now: nat): (string, Folder) -> bool {
    (name, f) => LiveAt(name, now) && Sized(f)
  }

  /** Midway through a scan of `start`: `rest` is still to come, `kept` are the batches found. */
  ghost predicate Scanned(disk: Disk, start: Disk, rest: set<string>, kept: Disk, listable: (string, Folder) -> bool) {
    && (forall n :: n in rest ==> n in disk && n in start && disk[n] == start[n])
    && (forall n :: n in kept ==> n in disk && n !in rest && disk[n] == kept[n] && listable(n, kept[n]))
    && (forall n :: n in disk ==> n in rest || n in kept)
  }

  lemma ScannedNothing(start: Disk, now: nat)
    ensures Scanned(start, start, start.Keys, map[], Listable(now)) && Discarding(start, start, now) && Lists([], map[])
  {
  }

  lemma ScannedAll(disk: Disk, start: Disk, rest: set<string>, kept: Disk, listable: (string, Folder) -> bool)
    requires Scanned(disk, start, rest, kept, listable) && rest == {}
    ensures disk == kept && forall n :: n in disk ==> listable(n, disk[n])
  {
    assert forall n :: n in disk ==> n in kept;
  }

  lemma ScannedNext(disk: Disk, mid: Disk, start: Disk, rest: set<string>, kept: Disk, listable: (string, Folder) -> bool, name: string)
    requires Scanned(mid, start, rest, kept, listable) && name in rest
    requires if name in disk then disk == mid && listable(name, mid[name]) else disk == mid - {name}
    ensures name in disk ==> Scanned(disk, start, rest - {name}, kept[name := disk[name]], listable)
    ensures name !in disk ==> Scanned(disk, start, rest - {name}, kept, listable)
  {
  }

  /** What stops a scan: neither a transaction nor a batch, or a live batch that is too large. */
  ghost predicate Stops(name: string, f: Folder, now: nat) {
    !IsTxn(name) && (!IsBatch(name) || (LiveAt(name, now) && !Sized(f)))
  }

  ghost predicate Unlistable(disk: Disk, now: nat) {
    exists n :: n in disk && Stops(n, disk[n], now)
  }

  /** A directory, or a name that is no digest, where only results belong. */
  ghost predicate Misshapen(f: Folder) { f.held != map[] || exists n :: n in f.files && !IsDigest(n) }

  ghost predicate Overfull(f: Folder) { |f.files| > 16 || FileBytes(f.files) > 4_194_304 }

  /** What stops a scan with which error. */
  ghost predicate StopsWith(name: string, f: Folder, now: nat, error: StoreError) {
    && !IsTxn(name)
    && ((error == Corrupt && (!IsBatch(name) || (LiveAt(name, now) && Misshapen(f))))
        || (error == BatchCapacityExceeded && LiveAt(name, now) && Overfull(f)))
  }

  /** The scan of `disk` can end in the error: some entry stops it so, or there are too many. */
  ghost predicate EndsScan(disk: Disk, now: nat, error: StoreError) {
    || (error == BatchCapacityExceeded && |disk| >= 128)
    || exists n :: n in disk && StopsWith(n, disk[n], now, error)
  }

  lemma EndedIsUnlistable(disk: Disk, now: nat, error: StoreError)
    requires EndsScan(disk, now, error)
    ensures (|disk| >= 128 || Unlistable(disk, now)) && (error == Corrupt || error == BatchCapacityExceeded)
  {
    hide Misshapen, Overfull, Sized, IsBatch, IsTxn;
    if n :| n in disk && StopsWith(n, disk[n], now, error) {
      SizedIsWhole(disk[n]);
      assert Stops(n, disk[n], now);
    }
  }

  lemma SizedIsWhole(f: Folder)
    ensures Sized(f) <==> !Misshapen(f) && !Overfull(f)
  {
  }

  /** No entry but those of `rest` stops the scan of `start`. */
  ghost predicate Passable(start: Disk, rest: set<string>, now: nat) {
    forall n :: n in start && n !in rest ==> !Stops(n, start[n], now)
  }

  lemma PassableNext(start: Disk, rest: set<string>, now: nat, name: string)
    requires Passable(start, rest, now) && name in rest && name in start && !Stops(name, start[name], now)
    ensures Passable(start, rest - {name}, now)
  {
  }

  lemma PassableAll(start: Disk, now: nat)
    ensures Passable(start, start.Keys, now)
    ensures Passable(start, {}, now) ==> !Unlistable(start, now)
  {
  }

  /** The errors a scan can end in. */
  predicate ScanError(error: StoreError) {
    error == Unavailable || error == Corrupt || error == BatchCapacityExceeded
  }

  /** With the files `rest` still to come, `count` and `bytes` measure the others. */
  ghost predicate Measured(f: Folder, rest: Files, count: nat, bytes: nat) {
    && rest.Keys <= f.files.Keys
    && (forall n :: n in f.files && n !in rest ==> IsDigest(n))
    && count + |rest| == |f.files|
    && bytes + FileBytes(rest) == FileBytes(f.files)
  }

  lemma MeasuredNext(f: Folder, rest: Files, count: nat, bytes: nat, name: string)
    requires Measured(f, rest, count, bytes) && name in rest && IsDigest(name)
    ensures Measured(f, rest - {name}, count + 1, bytes + |rest[name]|)
  {
    SumRemove(rest, Length, name);
    assert rest.Keys == (rest - {name}).Keys + {name};
  }

  lemma MeasuredSoFar(f: Folder, rest: Files, count: nat, bytes: nat)
    requires Measured(f, rest, count, bytes) && rest.Keys != {}
    ensures count < |f.files.Keys|
  {
    assert |rest.Keys| > 0;
  }

  lemma MeasuredAll(f: Folder, rest: Files, count: nat, bytes: nat)
    requires Measured(f, rest, count, bytes) && f.held.Keys == {}
    ensures count > MAX_ENTRIES || bytes > MAX_TOTAL_BYTES ==> !Sized(f)
    ensures rest.Keys == {} && count <= MAX_ENTRIES && bytes <= MAX_TOTAL_BYTES ==>
              Sized(f) && count == |f.files| && bytes == FileBytes(f.files)
  {
    if rest.Keys == {} {
      assert rest == map[] && f.held == map[];
    }
  }

  // ----- how many calls an operation makes -----

  /** What is in a directory: each is removed by one call. */
  function Entries(f: Folder): nat { |f.files.Keys| + |f.held.Keys| }

  lemma EntriesLess(f: Folder, name: string)
    ensures name in f.files ==> Entries(Folder(f.files - {name}, f.held)) == Entries(f) - 1
    ensures name in f.held ==> Entries(Folder(f.files, f.held - {name})) == Entries(f) - 1
  {
    assert (f.files - {name}).Keys == f.files.Keys - {name};
    assert (f.held - {name}).Keys == f.held.Keys - {name};
  }

  /** The calls a scan makes for one entry: a batch is measured, anything else is removed. */
  function EntryCalls(name: string, f: Folder, now: nat): nat {
    1 + if LiveAt(name, now) then 1 + |f.files.Keys| else Entries(f) + 1
  }

  function ScanCosts(disk: Disk, now: nat): map<string, nat> {
    map name | name in disk :: EntryCalls(name, disk[name], now)
  }

  const Itself: nat -> nat := n => n

  /** The calls of a scan that nothing stops. */
  ghost function ScanCalls(disk: Disk, now: nat): nat { Sum(ScanCosts(disk, now), Itself) }

  lemma ScanCallsNext(rest: Disk, now: nat, name: string)
    requires name in rest
    ensures ScanCalls(rest, now) == EntryCalls(name, rest[name], now) + ScanCalls(rest - {name}, now)
  {
    hide EntryCalls, LiveAt;
    SumRemove(ScanCosts(rest, now), Itself, name);
    assert ScanCosts(rest, now) - {name} == ScanCosts(rest - {name}, now);
  }

  lemma ScanCallsNone(rest: Disk, now: nat)
    requires rest.Keys == {}
    ensures ScanCalls(rest, now) == 0
  {
    assert ScanCosts(rest, now) == map[];
  }

  /** Staging and renaming `n` payloads: two calls for each file, one for the directory, one to rename it. */
  function PublishCalls(n: nat): nat { 2 + 2 * n }

  lemma PublishFaults(faults: Schedule, began: nat, created: nat, written: nat, renamed: nat)
    requires created == began + 1 && created <= written && renamed == written + 1
    ensures NoFault(faults, began, renamed) <==> !faults(began) && NoFault(faults, created, written) && !faults(written)
  {
  }

  /** Moving `n` evictions away: one call for each, and one for the quarantine, if there are any. */
  function EvictCalls(n: nat): nat { if n == 0 then 0 else 1 + n }

  // ----- undoing a failed eviction -----

  /**
   How the put undoes a publication whose evictions fail: it begins with call `first`, when
   the batches `moved` are in quarantine. It is not needed when nothing was published.
   */
  datatype Undo = Unneeded | Undo(first: nat, moved: seq<string>, quarantined: bool)

  /** Where undoing begins: right behind the first failed call of an eviction that began with call `began`. */
  ghost predicate Undoes(faults: Schedule, began: nat, evictions: seq<string>, undo: Undo) {
    && undo.Undo? && began < undo.first <= began + EvictCalls(|evictions|)
    && NoFault(faults, began, undo.first - 1) && faults(undo.first - 1)
    && undo.quarantined == (undo.first > began + 1)
    && undo.moved == if undo.quarantined then evictions[..undo.first - 2 - began] else []
  }

  /** The same for a publication that began with call `began`: nothing failed before the eviction. */
  ghost predicate UndoesFrom(faults: Schedule, began: nat, published: nat, evictions: seq<string>, undo: Undo) {
    Undoes(faults, published, evictions, undo) && NoFault(faults, began, undo.first - 1)
  }

  lemma UndoesFromStart(faults: Schedule, began: nat, published: nat, evictions: seq<string>, undo: Undo)
    requires began <= published && NoFault(faults, began, published) && Undoes(faults, published, evictions, undo)
    ensures UndoesFrom(faults, began, published, evictions, undo)
  {
  }

  /** The moves of an eviction, from call `began` on: either all succeed, or undoing begins behind the first that fails. */
  ghost predicate Moves(faults: Schedule, began: nat, evictions: seq<string>, undo: Undo, ok: bool) {
    if ok then undo == Unneeded && NoFault(faults, began, began + |evictions|)
    else
      && undo.Undo? && undo.quarantined && began < undo.first <= began + |evictions|
      && NoFault(faults, began, undo.first - 1) && faults(undo.first - 1)
      && undo.moved == evictions[..undo.first - 1 - began]
  }

  lemma MovesUpTo(faults: Schedule, began: nat, next: nat, evictions: seq<string>, moved: nat, undo: Undo)
    requires moved <= |evictions| && next == began + moved && NoFault(faults, began, next) && (moved < |evictions| ==> faults(next))
    requires undo == if moved == |evictions| then Unneeded else Undo(next + 1, evictions[..moved], true)
    ensures Moves(faults, began, evictions, undo, moved == |evictions|)
  {
  }

  lemma UndoesLater(faults: Schedule, began: nat, next: nat, evictions: seq<string>, undo: Undo, ok: bool, last: nat)
    requires evictions != [] && next == began + 1 && last == began + EvictCalls(|evictions|)
    requires !faults(began) && Moves(faults, next, evictions, undo, ok)
    ensures ok <==> NoFault(faults, began, last)
    ensures if ok then undo == Unneeded else Undoes(faults, began, evictions, undo)
  {
  }

  lemma UndoesAtOnce(faults: Schedule, began: nat, next: nat, evictions: seq<string>, undo: Undo, last: nat)
    requires evictions != [] && next == began + 1 && last == began + EvictCalls(|evictions|)
    requires faults(began) && undo == Undo(next, [], false)
    ensures Undoes(faults, began, evictions, undo) && Lost(faults, undo) == {} && !NoFault(faults, began, last)
  {
  }

  /** The batches whose restoring rename fails; they are renamed last first, from call `first` on. */
  ghost function Unreturned(faults: Schedule, first: nat, moved: seq<string>): set<string> {
    set k | 0 <= k < |moved| && faults(first + |moved| - 1 - k) :: moved[k]
  }

  /** Those among the moves of `moved[i..]`, which come first. */
  ghost function UnreturnedFrom(faults: Schedule, first: nat, moved: seq<string>, i: nat): set<string> {
    set k | i <= k < |moved| && faults(first + |moved| - 1 - k) :: moved[k]
  }

  lemma UnreturnedNext(faults: Schedule, first: nat, moved: seq<string>, i: nat, c: nat)
    requires i < |moved| && c == first + |moved| - 1 - i
    ensures faults(c) ==> UnreturnedFrom(faults, first, moved, i) == UnreturnedFrom(faults, first, moved, i + 1) + {moved[i]}
    ensures !faults(c) ==> UnreturnedFrom(faults, first, moved, i) == UnreturnedFrom(faults, first, moved, i + 1)
  {
  }

  lemma UnreturnedAll(faults: Schedule, first: nat, moved: seq<string>)
    ensures UnreturnedFrom(faults, first, moved, 0) == Unreturned(faults, first, moved)
    ensures UnreturnedFrom(faults, first, moved, |moved|) == {}
  {
  }

  ghost function Lost(faults: Schedule, undo: Undo): set<string> {
    match undo
    case Unneeded => {}
    case Undo(first, moved, _) => Unreturned(faults, first, moved)
  }

  /** The call with which the removal of the new batch begins, after that of the quarantine, if there is one. */
  ghost function WithdrawalStart(faults: Schedule, undo: Undo): nat
    requires undo.Undo?
  {
    if undo.quarantined then RemovalEnd(faults, undo.first + |undo.moved|, |Lost(faults, undo)|) else undo.first
  }

  /** No call of the removal of the new batch fails; `entries` is what the batch holds. */
  ghost predicate Withdraws(faults: Schedule, undo: Undo, entries: nat) {
    undo.Undo? ==>
      var start := WithdrawalStart(faults, undo);
      NoFault(faults, start, start + entries + 1)
  }

  lemma WithdrawsQuarantined(faults: Schedule, first: nat, moved: seq<string>, entries: nat, lost: set<string>, c: nat, n: nat, next: nat)
    requires lost == Unreturned(faults, first, moved) && c == first + |moved| && n == |lost| && next == RemovalEnd(faults, c, n)
    ensures WithdrawalStart(faults, Undo(first, moved, true)) == next
    ensures Withdraws(faults, Undo(first, moved, true), entries) <==> NoFault(faults, next, next + entries + 1)
  {
  }

  /** Every restoring rename and the removal of the new batch succeed. */
  ghost predicate Restores(faults: Schedule, undo: Undo, entries: nat) {
    Lost(faults, undo) == {} && Withdraws(faults, undo, entries)
  }

  /** The batches of `d` are `others` and, unless it is gone, what is left of the published one: `left` entries of it. */
  ghost predicate Leaves(d: Disk, others: Disk, published: string, folder: Folder, gone: bool, left: nat) {
    && Batches(d) - {published} == others
    && (published in d <==> !gone)
    && (published in d ==> Remnant(d[published], folder) && Entries(d[published]) == left)
  }

  /** What undoing makes of the batches of `start`, to which `published` had been added. */
  ghost predicate UndoneTo(d: Disk, start: Disk, published: string, faults: Schedule, undo: Undo)
    requires published in start && undo.Undo?
  {
    var entries := Entries(start[published]);
    Leaves(d, Batches(start) - Lost(faults, undo) - {published}, published, start[published], Withdraws(faults, undo, entries),
           Remaining(faults, WithdrawalStart(faults, undo), entries))
  }

  /**
   Which calls that takes: those of the renames, and those of the removal of the new batch.
   Whether the quarantine, then empty, can be removed in between does not matter.
   */
  lemma RestoresExactly(faults: Schedule, undo: Undo, entries: nat)
    requires undo.Undo? && (!undo.quarantined ==> undo.moved == [])
    ensures var renamed := undo.first + |undo.moved|; var start := if undo.quarantined then renamed + 1 else renamed;
            Restores(faults, undo, entries) <==>
            NoFault(faults, undo.first, renamed) && NoFault(faults, start, start + entries + 1)
  {
    var moved := undo.moved;
    if Lost(faults, undo) == {} {
      forall c | undo.first <= c < undo.first + |moved| ensures !faults(c) {
        var k := undo.first + |moved| - 1 - c;
        assert moved[k] !in Lost(faults, undo);
      }
    }
    if Lost(faults, undo) != {} {
      var n :| n in Lost(faults, undo);
      var k :| 0 <= k < |moved| && faults(undo.first + |moved| - 1 - k) && moved[k] == n;
      assert !NoFault(faults, undo.first, undo.first + |moved|);
    }
  }

  /**
   How a put of the new batch `folder` that failed leaves the batches that are served: those
   that could not be moved back are missing, and if its removal fails, the new batch is there
   with the entries that were still to be removed.
   */
  ghost predicate FailedEnd(live: Disk, served: Disk, target: string, faults: Schedule, undo: Undo, folder: Folder) {
    && served - {target} == live - Lost(faults, undo)
    && (target in served <==> undo.Undo? && !Withdraws(faults, undo, Entries(folder)))
    && (target in served ==>
          && Remnant(served[target], folder)
          && Entries(served[target]) == Remaining(faults, WithdrawalStart(faults, undo), Entries(folder)))
    && (served == live <==> Restores(faults, undo, Entries(folder)))
  }

  /** Either nothing has happened, or the new batch is complete and a prefix of the evictions is gone. */
  ghost predicate AllOrNothing(before: Disk, after: Disk, evictions: seq<string>, target: string, folder: Folder) {
    || after == before
    || exists j :: 0 <= j <= |evictions| && after == Published(before, SetOf(evictions[..j]), target, folder)
  }

  /** A state in which a failed eviction is being undone; `lost` could not be moved back. */
  ghost predicate Undoing(d: Disk, start: Disk, published: string, evictions: set<string>, lost: set<string>) {
    && Shrunk(d, start)
    && (forall n :: n in start && IsBatch(n) && n != published && n !in evictions ==> n in d)
    && (forall n :: n in d && IsBatch(n) && n != published ==> n in start && d[n] == start[n])
    && (|| (published in d && published in start && d[published] == start[published])
        || forall n :: n in evictions && n !in lost ==> n in d)
  }

  lemma QuarantineMove(start: Disk, quarantine: string, gone: set<string>, name: string)
    requires quarantine !in start && name in start && name !in gone
    ensures var q := Quarantined(start, quarantine, gone);
            && name in q && name != quarantine
            && Quarantined(start, quarantine, gone + {name})
               == (q - {name})[quarantine := Folder(q[quarantine].files, q[quarantine].held[name := q[name]])]
  {
    var q := Quarantined(start, quarantine, gone);
    assert q[quarantine].held[name := q[name]] == map n | n in gone + {name} && n in start :: start[n];
  }

  lemma QuarantineReturn(start: Disk, quarantine: string, gone: set<string>, name: string)
    requires quarantine !in start && name in start && name in gone
    ensures var q := Quarantined(start, quarantine, gone);
            && name in q[quarantine].held && name !in q
            && Quarantined(start, quarantine, gone - {name})
               == q[quarantine := Folder(q[quarantine].files, q[quarantine].held - {name})][name := q[quarantine].held[name]]
  {
    var q := Quarantined(start, quarantine, gone);
    assert q[quarantine].held - {name} == map n | n in gone - {name} && n in start :: start[n];
  }

  lemma QuarantineEntries(start: Disk, quarantine: string, gone: set<string>, other: string)
    requires quarantine !in start && (forall n :: n in gone ==> n in start) && other in start && other !in gone
    ensures Entries(Quarantined(start, quarantine, gone)[quarantine]) == |gone|
    ensures other in Quarantined(start, quarantine, gone) && Quarantined(start, quarantine, gone)[other] == start[other]
  {
    assert Quarantined(start, quarantine, gone)[quarantine].held.Keys == gone;
  }

  lemma BatchesWithout(disk: Disk, names: set<string>)
    ensures Batches(disk - names) == Batches(disk) - names
  {
  }

  lemma QuarantinedBatches(start: Disk, quarantine: string, gone: set<string>)
    requires IsTxn(quarantine) && quarantine !in start
    ensures Batches(Quarantined(start, quarantine, gone)) == Batches(start) - gone
    ensures Shrunk(Quarantined(start, quarantine, gone), start)
  {
    BatchIsNotTxn(quarantine);
  }

  lemma QuarantinedIsUndoing(start: Disk, quarantine: string, gone: set<string>, published: string, evictions: set<string>, lost: set<string>)
    requires IsTxn(quarantine) && quarantine !in start && gone <= evictions
    requires published in start && published !in evictions
    ensures Undoing(Quarantined(start, quarantine, gone), start, published, evictions, lost)
  {
    QuarantinedBatches(start, quarantine, gone);
    BatchIsNotTxn(quarantine);
  }

  /** With `i` names still to move back: `gone` are those in quarantine, `lost` those that failed. */
  ghost predicate Returning(moved: seq<string>, i: nat, gone: set<string>, lost: set<string>)
    requires i <= |moved|
  {
    && gone <= SetOf(moved)
    && (forall n :: n in gone <==> n in lost || n in moved[..i])
    && (forall n :: n in lost ==> n in moved[i..])
  }

  lemma ReturnOne(moved: seq<string>, i: nat, gone: set<string>, lost: set<string>)
    requires Distinct(moved) && i < |moved| && Returning(moved, i + 1, gone, lost)
    ensures moved[i] in gone
    ensures Returning(moved, i, gone - {moved[i]}, lost)
    ensures Returning(moved, i, gone, lost + {moved[i]})
  {
    var n := moved[i];
    assert moved[..i + 1] == moved[..i] + [n];
    assert moved[i..] == [n] + moved[i + 1..];
    assert n !in moved[..i] && n !in moved[i + 1..];
  }

  lemma UnaffectedUndoing(d: Disk, e: Disk, name: string, start: Disk, published: string, evictions: set<string>, lost: set<string>)
    requires Undoing(e, start, published, evictions, lost) && IsTxn(name) && AgreeOff(d, e, name)
    requires IsBatch(published) && forall n :: n in evictions ==> IsBatch(n)
    ensures Undoing(d, start, published, evictions, lost)
  {
    AgreeElsewhere(d, e, name);
    BatchIsNotTxn(name);
  }

  lemma WithdrawingIsUndoing(d: Disk, e: Disk, start: Disk, published: string, evictions: set<string>, lost: set<string>)
    requires Undoing(e, start, published, evictions, lost) && Deleting(d, e, published) && published !in evictions
    requires forall n :: n in evictions && n !in lost ==> n in e
    ensures Undoing(d, start, published, evictions, lost)
  {
    AgreeElsewhere(d, e, published);
  }

  lemma DeletedLeaves(d: Disk, e: Disk, published: string, left: nat)
    requires Deleting(d, e, published) && IsBatch(published) && published in e && (published in d ==> Entries(d[published]) == left)
    ensures Leaves(d, Batches(e) - {published}, published, e[published], published !in d, left)
  {
    hide Remnant;
    BatchesWithout(d, {published});
    BatchesWithout(e, {published});
  }

  lemma UndoingMore(d: Disk, start: Disk, published: string, moved: set<string>, evictions: set<string>, lost: set<string>)
    requires Undoing(d, start, published, moved, lost) && moved <= evictions && published !in evictions
    requires forall n :: n in evictions ==> n in start && IsBatch(n)
    ensures Undoing(d, start, published, evictions, lost)
  {
  }

  /** A state in which a prefix of the evictions has left `start`. */
  ghost predicate Evicting(d: Disk, start: Disk, evictions: seq<string>) {
    && Shrunk(d, start)
    && exists j :: 0 <= j <= |evictions| && Batches(d) == Batches(start) - SetOf(evictions[..j])
  }

  lemma QuarantinedIsEvicting(start: Disk, quarantine: string, evictions: seq<string>, j: nat)
    requires IsTxn(quarantine) && quarantine !in start && j <= |evictions|
    ensures Evicting(Quarantined(start, quarantine, SetOf(evictions[..j])), start, evictions)
  {
    QuarantinedBatches(start, quarantine, SetOf(evictions[..j]));
  }

  /** Moving the next eviction into the quarantine. */
  lemma MoveNext(start: Disk, quarantine: string, evictions: seq<string>, moved: nat)
    requires IsTxn(quarantine) && quarantine !in start && moved < |evictions| && evictions[moved] in start
    requires Distinct(evictions)
    ensures var q, name := Quarantined(start, quarantine, SetOf(evictions[..moved])), evictions[moved];
            var next := Quarantined(start, quarantine, SetOf(evictions[..moved + 1]));
            && quarantine in q && name in q && name != quarantine
            && next == (q - {name})[quarantine := Folder(q[quarantine].files, q[quarantine].held[name := q[name]])]
            && Evicting(q, start, evictions) && Evicting(next, start, evictions)
  {
    assert evictions[..moved + 1] == evictions[..moved] + [evictions[moved]];
    assert SetOf(evictions[..moved + 1]) == SetOf(evictions[..moved]) + {evictions[moved]};
    QuarantineMove(start, quarantine, SetOf(evictions[..moved]), evictions[moved]);
    QuarantinedIsEvicting(start, quarantine, evictions, moved);
    QuarantinedIsEvicting(start, quarantine, evictions, moved + 1);
  }

  lemma NotYetEvicting(start: Disk, evictions: seq<string>)
    ensures Evicting(start, start, evictions)
  {
    assert Batches(start) - SetOf(evictions[..0]) == Batches(start);
  }

  lemma EvictingStarts(start: Disk, quarantine: string, evictions: seq<string>)
    requires IsTxn(quarantine) && quarantine !in start
    ensures start[quarantine := EMPTY] == Quarantined(start, quarantine, {})
    ensures Evicting(start, start, evictions) && Evicting(start[quarantine := EMPTY], start, evictions)
  {
    assert start[quarantine := EMPTY] == Quarantined(start, quarantine, {});
    QuarantinedIsEvicting(start, quarantine, evictions, 0);
    assert SetOf(evictions[..0]) == {};
    NotYetEvicting(start, evictions);
  }

  lemma UnaffectedEvicting(d: Disk, e: Disk, quarantine: string, start: Disk, evictions: seq<string>)
    requires Evicting(e, start, evictions) && IsTxn(quarantine) && AgreeOff(d, e, quarantine)
    ensures Evicting(d, start, evictions) && Batches(d) == Batches(e)
  {
    AgreeElsewhere(d, e, quarantine);
  }

  /** Where a put that started from `start` may be before anything has failed. */
  ghost predicate PutState(d: Disk, start: Disk, now: nat, evictions: seq<string>, target: string, folder: Folder) {
    && AllOrNothing(Live(start, now), Live(d, now), evictions, target, folder)
    && Shrunk(d, start[target := folder])
  }

  lemma LiveIsBatches(d: Disk, batches: Disk, now: nat)
    requires Batches(d) == batches && forall n :: n in batches ==> LiveAt(n, now)
    ensures Live(d, now) == batches
  {
    forall n | n in d && IsBatch(n) ensures n in batches && batches[n] == d[n] {
      assert n in Batches(d);
    }
    forall n | n in batches ensures n in d && d[n] == batches[n] {
      assert n in Batches(d);
    }
  }

  lemma BatchesOfLive(live: Disk, now: nat)
    requires forall n :: n in live ==> LiveAt(n, now)
    ensures Batches(live) == live && Live(live, now) == live
  {
  }

  lemma StagingIsPutState(d: Disk, live: Disk, staging: string, now: nat, evictions: seq<string>, target: string, folder: Folder)
    requires forall n :: n in live ==> LiveAt(n, now)
    requires IsTxn(staging) && AgreeOff(d, live, staging) && target !in live
    ensures Live(d, now) == live && PutState(d, live, now, evictions, target, folder)
  {
    AgreeElsewhere(d, live, staging);
    BatchesOfLive(live, now);
    LiveIsBatches(d, live, now);
  }

  /** What a publication means for a put: the states before the new batch is there, and those while batches are evicted. */
  lemma PublishStates(live: Disk, staging: string, now: nat, evictions: seq<string>, target: string, folder: Folder, faults: Schedule)
    requires (forall n :: n in live ==> LiveAt(n, now)) && IsTxn(staging)
    requires LiveAt(target, now) && target !in live && target !in evictions
    ensures forall d :: AgreeOff(d, live, staging) ==>
              && PutState(d, live, now, evictions, target, folder) && Shrunk(d, live[target := folder])
              && FailedEnd(live, Live(d, now), target, faults, Unneeded, folder)
    ensures forall d :: Evicting(d, live[target := folder], evictions) ==> PutState(d, live, now, evictions, target, folder)
    ensures PutState(live[target := folder], live, now, evictions, target, folder)
  {
    forall d | AgreeOff(d, live, staging) ensures Live(d, now) == live && PutState(d, live, now, evictions, target, folder) {
      StagingIsPutState(d, live, staging, now, evictions, target, folder);
    }
    NothingUndone(live, target, faults, folder);
    forall d | Evicting(d, live[target := folder], evictions) ensures PutState(d, live, now, evictions, target, folder) {
      EvictingIsPutState(d, live, now, evictions, target, folder);
    }
    NotYetEvicting(live[target := folder], evictions);
  }

  lemma PublishedMinus(live: Disk, gone: set<string>, target: string, folder: Folder)
    requires target !in gone
    ensures live[target := folder] - gone == Published(live, gone, target, folder)
  {
  }

  lemma WithdrawnMinus(live: Disk, lost: set<string>, target: string, folder: Folder)
    requires target !in live
    ensures live[target := folder] - lost - {target} == live - lost
    ensures live - lost == live <==> lost !! live.Keys
  {
    if live - lost == live {
      assert forall n :: n in live ==> n in live - lost;
    }
  }

  lemma EvictingIsPutState(d: Disk, live: Disk, now: nat, evictions: seq<string>, target: string, folder: Folder)
    requires forall n :: n in live ==> LiveAt(n, now)
    requires LiveAt(target, now) && target !in evictions
    requires Evicting(d, live[target := folder], evictions)
    ensures PutState(d, live, now, evictions, target, folder)
  {
    BatchesOfLive(live, now);
    BatchesOfLive(live[target := folder], now);
    var j :| 0 <= j <= |evictions| && Batches(d) == Batches(live[target := folder]) - SetOf(evictions[..j]);
    PublishedMinus(live, SetOf(evictions[..j]), target, folder);
    LiveIsBatches(d, Published(live, SetOf(evictions[..j]), target, folder), now);
  }

  /** What the end of an eviction means for the batches that are served. */
  lemma EvictedEnd(d: Disk, live: Disk, now: nat, evictions: seq<string>, target: string, folder: Folder)
    requires forall n :: n in live ==> LiveAt(n, now)
    requires LiveAt(target, now) && target !in live && target !in evictions
    requires Batches(d) == live[target := folder] - SetOf(evictions)
    ensures Live(d, now) == Published(live, SetOf(evictions), target, folder)
  {
    PublishedMinus(live, SetOf(evictions), target, folder);
    LiveIsBatches(d, Published(live, SetOf(evictions), target, folder), now);
  }

  lemma BatchesServed(d: Disk, others: Disk, target: string, now: nat)
    requires Batches(d) - {target} == others && LiveAt(target, now) && forall n :: n in others ==> LiveAt(n, now)
    ensures Live(d, now) == Batches(d) && (target in Live(d, now) <==> target in d)
  {
    forall n | n in Batches(d) ensures LiveAt(n, now) {
      assert n == target || n in others;
    }
    LiveIsBatches(d, Batches(d), now);
  }

  lemma ServedAsBefore(served: Disk, live: Disk, lost: set<string>, target: string)
    requires served - {target} == live - lost && target !in live && lost <= live.Keys
    ensures served == live <==> lost == {} && target !in served
  {
    if target !in served {
      assert served - {target} == served;
      WithdrawnMinus(live, lost, target, EMPTY);
    }
  }

  lemma UndoneEnd(d: Disk, live: Disk, now: nat, target: string, folder: Folder, faults: Schedule, undo: Undo)
    requires (forall n :: n in live ==> LiveAt(n, now)) && LiveAt(target, now) && target !in live
    requires undo.Undo? && Lost(faults, undo) <= live.Keys && UndoneTo(d, live[target := folder], target, faults, undo)
    ensures FailedEnd(live, Live(d, now), target, faults, undo, folder)
  {
    hide Remnant, Withdraws, WithdrawalStart, LiveAt, Lost, Batches, Live;
    BatchesOfLive(live[target := folder], now);
    WithdrawnMinus(live, Lost(faults, undo), target, folder);
    BatchesServed(d, live - Lost(faults, undo), target, now);
    ServedAsBefore(Live(d, now), live, Lost(faults, undo), target);
    BatchesHold(d, target);
  }

  lemma BatchesHold(d: Disk, name: string)
    ensures name in Batches(d) ==> Batches(d)[name] == d[name]
  {
  }

  lemma ListedNames(batches: seq<Batch>, live: Disk, k: nat)
    requires Lists(batches, live) && k <= |batches|
    ensures Distinct(Names(batches[..k])) && forall n :: n in Names(batches[..k]) ==> n in live
  {
    var names := Names(batches[..k]);
    forall n | n in names ensures n in live {
      var i :| 0 <= i < |names| && names[i] == n;
      assert batches[i] in batches;
    }
  }

  lemma ShrunkAfterScan(d: Disk, start: Disk, now: nat, target: string, folder: Folder)
    requires Shrunk(d, Live(start, now)[target := folder])
    ensures Shrunk(d, start[target := folder])
  {
  }

  lemma AfterScan(d: Disk, start: Disk, live: Disk, now: nat, evictions: seq<string>, target: string, folder: Folder)
    requires live == Live(start, now) && PutState(d, live, now, evictions, target, folder)
    ensures PutState(d, start, now, evictions, target, folder)
  {
    LiveLater(start, now, now);
    ShrunkAfterScan(d, start, now, target, folder);
  }

  /** The listed batches and the new one together keep to the store's limits. */
  predicate Fits(batches: seq<Batch>, count: nat, bytes: nat) {
    CountOf(batches) + count <= MAX_ENTRIES && BytesOf(batches) + bytes <= MAX_TOTAL_BYTES
  }

  /** The least number of oldest batches whose removal makes room. */
  ghost predicate LeastPrefix(batches: seq<Batch>, k: nat, count: nat, bytes: nat) {
    && k <= |batches| && Fits(batches[k..], count, bytes)
    && forall j :: 0 <= j < k ==> !Fits(batches[j..], count, bytes)
  }

  /**
   The eviction loop. That `first` finds a batch and that neither subtraction
   underflows is part of what is proved: the error branches cannot be reached.
   */
  method PlanEvictions(batches: seq<Batch>, newCount: nat, newBytes: nat) returns (evictions: seq<string>)
    requires newCount <= MAX_ENTRIES && newBytes <= MAX_TOTAL_BYTES
    ensures |evictions| <= |batches| && evictions == Names(batches[..|evictions|])
    ensures LeastPrefix(batches, |evictions|, newCount, newBytes)
  {
    evictions := [];
    var rest := batches;
    var count: nat, total: nat := CountOf(rest), BytesOf(rest);
    while count + newCount > MAX_ENTRIES || total + newBytes > MAX_TOTAL_BYTES
      invariant |evictions| <= |batches| && rest == batches[|evictions|..]
      invariant evictions == Names(batches[..|evictions|])
      invariant count == CountOf(rest) && total == BytesOf(rest)
      invariant forall j :: 0 <= j < |evictions| ==> !Fits(batches[j..], newCount, newBytes)
      decreases rest
    {
      evictions := evictions + [rest[0].name];
      count, total := count - rest[0].count, total - rest[0].bytes;
      rest := rest[1..];
    }
  }

  /** What `put_batch` demands of its payloads. */
  predicate Admissible(payloads: seq<Bytes>) {
    && 0 < |payloads| <= MAX_ENTRIES && SumLengths(payloads) <= MAX_TOTAL_BYTES
    && forall i :: 0 <= i < |payloads| ==> 1 <= |payloads[i]| <= MAX_ITEM_BYTES
  }

  ghost function Refusal(payloads: seq<Bytes>): StoreError {
    if payloads == [] then EmptyInput
    else if exists i :: 0 <= i < |payloads| && !(1 <= |payloads[i]| <= MAX_ITEM_BYTES) then ItemTooLarge
    else BatchCapacityExceeded
  }

  function Whole(payload: Bytes): Bytes { payload }

  lemma {:induction false} SumIsLength(payloads: seq<Bytes>)
    ensures SumLengths(payloads) == |Concat(Whole, payloads)|
  {
    if payloads != [] {
      var n := |payloads| - 1;
      SumIsLength(payloads[..n]);
      ConcatAppend(Whole, payloads[..n], [payloads[n]]);
      ConcatOne(Whole, payloads[n]);
      assert payloads == payloads[..n] + [payloads[n]];
    }
  }

  /** One to 16 results of one byte to 1 MiB each, and 4 MiB together; and which error each other request gets. */
  lemma AdmissibleExactly(payloads: seq<Bytes>)
    ensures var sized := forall p :: p in payloads ==> 1 <= |p| <= 1_048_576;
            && (Admissible(payloads) <==> 1 <= |payloads| <= 16 && sized && |Concat(Whole, payloads)| <= 4_194_304)
            && (Refusal(payloads) == EmptyInput <==> payloads == [])
            && (Refusal(payloads) == ItemTooLarge <==> payloads != [] && !sized)
            && (Refusal(payloads) == BatchCapacityExceeded <==> payloads != [] && sized)
  {
    SumIsLength(payloads);
    if forall i :: 0 <= i < |payloads| ==> 1 <= |payloads[i]| <= MAX_ITEM_BYTES {
      assert forall p :: p in payloads ==> 1 <= |p| <= 1_048_576;
    }
  }

  /** Only a repeated payload finds its file in the staging directory. */
  lemma StagedRepeats(ids: seq<Digest>, payloads: seq<Bytes>, i: nat)
    requires |ids| == |payloads| && i < |ids| && Distinct(ids[..i])
    ensures ids[i] in FilesOf(ids[..i], payloads[..i]) ==> !Distinct(ids)
  {
    FilesOfEntries(ids[..i], payloads[..i]);
    if ids[i] in FilesOf(ids[..i], payloads[..i]) {
      var j :| 0 <= j < i && ids[..i][j] == ids[i];
      assert ids[j] == ids[i];
    }
  }

  /** `target`'s digest is taken over the digests of the payloads, written one after the other. */
  function Joined(ids: seq<Digest>): Bytes {
    if ids == [] then [] else Joined(ids[..|ids| - 1]) + seq(64, i requires 0 <= i < 64 => HexByte(ids[|ids| - 1][i]))
  }

  function HexByte(c: char): byte
    requires IsHex(c)
  {
    c as int as byte
  }

  function IdsOf(sha: Bytes -> Digest, payloads: seq<Bytes>): (ids: seq<Digest>)
    ensures |ids| == |payloads| && forall i :: 0 <= i < |payloads| ==> ids[i] == sha(payloads[i])
  {
    seq(|payloads|, i requires 0 <= i < |payloads| => sha(payloads[i]))
  }

  function TargetOf(sha: Bytes -> Digest, payloads: seq<Bytes>, now: nat): string {
    BatchName(now, sha(Joined(IdsOf(sha, payloads))))
  }

  /** `x` is the digests of the payloads as text, one after the other, in bytes. */
  ghost predicate Spells(x: Bytes, sha: Bytes -> Digest, payloads: seq<Bytes>) {
    && |x| == 64 * |payloads|
    && forall i, j :: 0 <= i < |payloads| && 0 <= j < 64 ==> x[64 * i + j] as int == sha(payloads[i])[j] as int
  }

  /** The name of a batch is made of the tick and the digest of all its digests. */
  lemma TargetExactly(sha: Bytes -> Digest, payloads: seq<Bytes>, now: nat, x: Bytes)
    requires Spells(x, sha, payloads)
    ensures TargetOf(sha, payloads, now) == BatchName(now, sha(x))
  {
    var ids := IdsOf(sha, payloads);
    JoinedDigits(ids);
    forall k | 0 <= k < |x| ensures x[k] == Joined(ids)[k] {
      var i, j := k / 64, k % 64;
      assert x[64 * i + j] as int == ids[i][j] as int;
    }
    assert x == Joined(ids);
  }

  lemma {:induction false} JoinedDigits(ids: seq<Digest>)
    ensures |Joined(ids)| == 64 * |ids|
    ensures forall i, j :: 0 <= i < |ids| && 0 <= j < 64 ==> Joined(ids)[64 * i + j] as int == ids[i][j] as int
  {
    if ids != [] {
      var n := |ids| - 1;
      JoinedDigits(ids[..n]);
      forall i, j | 0 <= i < |ids| && 0 <= j < 64 ensures Joined(ids)[64 * i + j] as int == ids[i][j] as int {
        if i < n {
          assert Joined(ids)[64 * i + j] == Joined(ids[..n])[64 * i + j] && ids[..n][i] == ids[i];
        }
      }
    }
  }

  /** At one tick, different digests of the digests make different names. */
  lemma TargetsDiffer(sha: Bytes -> Digest, a: seq<Bytes>, b: seq<Bytes>, now: nat, x: Bytes, y: Bytes)
    requires now <= U64_MAX && Spells(x, sha, a) && Spells(y, sha, b) && sha(x) != sha(y)
    ensures TargetOf(sha, a, now) != TargetOf(sha, b, now)
  {
    TargetExactly(sha, a, now, x);
    TargetExactly(sha, b, now, y);
    NameParts(now, sha(x));
    NameParts(now, sha(y));
  }

  function FolderOf(sha: Bytes -> Digest, payloads: seq<Bytes>): Folder {
    Folder(FilesOf(IdsOf(sha, payloads), payloads), map[])
  }

  lemma FolderIsGood(sha: Bytes -> Digest, payloads: seq<Bytes>)
    requires Admissible(payloads)
    ensures GoodFolder(sha, FolderOf(sha, payloads))
  {
    FilesOfBound(IdsOf(sha, payloads), payloads);
    FilesOfAddressed(sha, IdsOf(sha, payloads), payloads);
  }

  lemma TargetIsLive(sha: Bytes -> Digest, payloads: seq<Bytes>, now: nat)
    requires now <= U64_MAX
    ensures LiveAt(TargetOf(sha, payloads, now), now)
    ensures BatchTick(TargetOf(sha, payloads, now)) == Some(now)
  {
    TickRoundTrip(now, sha(Joined(IdsOf(sha, payloads))));
  }

  /**
   What happened in a put: the payloads were refused, the batch was there already, or a
   publication was attempted. In the last case `evictions` were planned from `batches`,
   `forward` are the crash states up to the first failed call, and `undo` tells how the
   publication was undone.
   */
  datatype PutRun = Refused | Present | Attempted(batches: seq<Batch>, evictions: seq<string>, forward: iset<Disk>, undo: Undo)

  /** The evictions are the least sufficient prefix of the live batches, oldest first. */
  ghost predicate PlannedFrom(run: PutRun, live: Disk, payloads: seq<Bytes>)
    requires run.Attempted?
  {
    && Lists(run.batches, live) && Sorted(BatchLeq, run.batches)
    && LeastPrefix(run.batches, |run.evictions|, |payloads|, SumLengths(payloads))
    && run.evictions == Names(run.batches[..|run.evictions|])
  }

  /** A put of a new batch: what it stores and under which name, when it began, and what it reported. */
  datatype PutCall = PutCall(payloads: seq<Bytes>, ids: seq<Digest>, target: string, folder: Folder, now: nat,
                             faults: Schedule, began: nat, result: Result<seq<Digest>, StoreError>)

  function PutOf(sha: Bytes -> Digest, payloads: seq<Bytes>, now: nat, faults: Schedule, began: nat,
                 result: Result<seq<Digest>, StoreError>): PutCall
  {
    PutCall(payloads, IdsOf(sha, payloads), TargetOf(sha, payloads, now), FolderOf(sha, payloads), now, faults, began, result)
  }

  /**
   How a put ends that finds the batches `live` and leaves the batches `served`; `scanned` is
   the call with which staging begins when nothing stops the scan. A success serves the new
   batch in place of the evictions, and the store keeps to its limits. After a failure the
   earlier batches are served as before if and only if every call that undoes the publication
   succeeds. If there was anything to undo, that began right behind the first call of the put
   that failed, which was one of its evictions.
   */
  ghost predicate Ends(put: PutCall, live: Disk, served: Disk, run: PutRun, scanned: nat)
    requires run.Attempted?
  {
    if put.result.Ok? then
      && Distinct(put.ids) && PlannedFrom(run, live, put.payloads)
      && served == Published(live, SetOf(run.evictions), put.target, put.folder)
      && WithinLimits(served)
    else
      && FailedEnd(live, served, put.target, put.faults, run.undo, put.folder)
      && (run.undo.Undo? ==>
            && PlannedFrom(run, live, put.payloads)
            && UndoesFrom(put.faults, put.began, scanned + PublishCalls(|put.payloads|), run.evictions, run.undo))
  }

  /**
   When a put of a new batch has to succeed: exactly when its payloads have different
   digests and none of the calls up to its last eviction fails. If it fails only once the new
   batch is published, it undoes that. A scan that fails, which may end in other errors too,
   leaves nothing to evict or to undo.
   */
  ghost predicate Obliged(put: PutCall, start: Disk, run: PutRun)
    requires run.Attempted?
  {
    ObligedAfter(put, Live(start, put.now), run, put.began + ScanCalls(start, put.now))
  }

  ghost predicate ObligedAfter(put: PutCall, live: Disk, run: PutRun, scanned: nat)
    requires run.Attempted?
  {
    if NoFault(put.faults, put.began, scanned) && (put.result.Err? ==> put.result.error == Unavailable) then
      && PlannedFrom(run, live, put.payloads)
      && (put.result.Ok? <==>
            && Distinct(put.ids)
            && NoFault(put.faults, scanned, scanned + PublishCalls(|put.payloads|) + EvictCalls(|run.evictions|)))
      && (run.undo.Undo? <==>
            put.result.Err? && Distinct(put.ids) && NoFault(put.faults, scanned, scanned + PublishCalls(|put.payloads|)))
    else put.result.Err? && run.evictions == [] && run.undo == Unneeded
  }

  /**
   The states a put of a new batch passes through from `start` to `end`: `crashed` are those a
   crash could have left behind, before the first failed call (`run.forward`) or after it.
   */
  ghost predicate Passes(put: PutCall, start: Disk, end: Disk, crashed: iset<Disk>, run: PutRun)
    requires run.Attempted?
  {
    && (put.result.Ok? ==> crashed <= run.forward)
    && Shrunk(end, start[put.target := put.folder])
    && (forall d :: d in crashed && d in run.forward ==> PutState(d, start, put.now, run.evictions, put.target, put.folder))
    && (forall d :: d in crashed && d !in run.forward ==>
          Undoing(d, Live(start, put.now)[put.target := put.folder], put.target, SetOf(run.evictions), Lost(put.faults, run.undo)))
  }

  /** How a put of a new batch ends, and the states it passes through. */
  ghost predicate Attempt(put: PutCall, start: Disk, end: Disk, crashed: iset<Disk>, run: PutRun)
    requires run.Attempted?
  {
    && Ends(put, Live(start, put.now), Live(end, put.now), run, put.began + ScanCalls(start, put.now))
    && Passes(put, start, end, crashed, run)
  }

  /** A put over the live batches `live`, from call `scanned` on: its crash states are those in `after` but not in `before`. */
  lemma AttemptOf(put: PutCall, live: Disk, end: Disk, served: Disk, before: iset<Disk>, after: iset<Disk>, run: PutRun,
                  now: nat, scanned: nat, published: nat, last: nat, folder: Folder)
    requires run.Attempted? && PlannedFrom(run, live, put.payloads)
    requires |put.ids| == |put.payloads| && put.folder == folder == Folder(FilesOf(put.ids, put.payloads), map[])
    requires put.now == now && put.target !in live && forall n :: n in live ==> LiveAt(n, now)
    requires put.began <= scanned && NoFault(put.faults, put.began, scanned) && (put.result.Err? ==> put.result.error == Unavailable)
    requires published == scanned + PublishCalls(|put.payloads|) && last == published + EvictCalls(|run.evictions|)
    requires put.result.Ok? <==> Distinct(put.ids) && NoFault(put.faults, scanned, last)
    requires put.result.Ok? ==> run.forward == after && served == Published(live, SetOf(run.evictions), put.target, folder)
    requires put.result.Err? ==> FailedEnd(live, served, put.target, put.faults, run.undo, folder)
    requires run.undo.Undo? <==> put.result.Err? && Distinct(put.ids) && NoFault(put.faults, scanned, published)
    requires run.undo.Undo? ==> UndoesFrom(put.faults, scanned, published, run.evictions, run.undo)
    requires Shrunk(end, live[put.target := folder]) && before <= run.forward <= after
    requires forall d :: d in run.forward - before ==> PutState(d, live, now, run.evictions, put.target, folder)
    requires forall d :: d in after - run.forward ==>
               Undoing(d, live[put.target := folder], put.target, SetOf(run.evictions), Lost(put.faults, run.undo))
    ensures Ends(put, live, served, run, scanned) && Passes(put, live, end, after - before, run) && ObligedAfter(put, live, run, scanned)
  {
    hide Undoing, PutState, FailedEnd, Shrunk, WithinLimits, Published, PlannedFrom, Lost, Undoes, Distinct, Entries;
    BatchesOfLive(live, now);
    assert forall d :: d in after - before && d in run.forward ==> d in run.forward - before;
    assert forall d :: d in after - before && d !in run.forward ==> d in after - run.forward;
    if put.result.Ok? {
      CompletedTotals(run, live, put.payloads, put.ids, put.target);
    }
  }

  /** A put once its scan has left `live`, with call `scanned` to come. */
  lemma AttemptAfterScan(put: PutCall, start: Disk, live: Disk, end: Disk, served: Disk, seen: iset<Disk>, crashed: iset<Disk>,
                         all: iset<Disk>, run: PutRun, now: nat, began: nat, scanned: nat)
    requires run.Attempted? && live == Live(start, now) && served == Live(end, now) && scanned == began + ScanCalls(start, now)
    requires put.now == now && put.began == began && put.target !in start
    requires Ends(put, live, served, run, scanned) && Passes(put, live, end, crashed, run) && ObligedAfter(put, live, run, scanned)
    requires (forall d :: d in seen ==> Discarding(d, start, now)) && seen <= run.forward && all == seen + crashed
    ensures Attempt(put, start, end, all, run)
    ensures Obliged(put, start, run)
  {
    hide Ends, ObligedAfter, Passes, Discarding, Live;
    PassesAfterScan(put, start, end, seen, crashed, run);
  }

  lemma PassesAfterScan(put: PutCall, start: Disk, end: Disk, seen: iset<Disk>, crashed: iset<Disk>, run: PutRun)
    requires run.Attempted? && Passes(put, Live(start, put.now), end, crashed, run)
    requires (forall d :: d in seen ==> Discarding(d, start, put.now)) && seen <= run.forward && put.target !in start
    ensures Passes(put, start, end, seen + crashed, run)
  {
    var live := Live(start, put.now);
    LiveLater(start, put.now, put.now);
    ShrunkAfterScan(end, start, put.now, put.target, put.folder);
    forall d | d in seen + crashed && d in run.forward ensures PutState(d, start, put.now, run.evictions, put.target, put.folder) {
      if d in seen {
        assert Shrunk(d, start[put.target := put.folder]);
      } else {
        AfterScan(d, start, live, put.now, run.evictions, put.target, put.folder);
      }
    }
  }

  /** A put whose scan failed has undone nothing, as there was nothing to undo. */
  lemma ScanFailed(put: PutCall, start: Disk, end: Disk, crashed: iset<Disk>, run: PutRun, now: nat, began: nat, scanned: nat)
    requires put.result == Err(Unavailable) ==> !NoFault(put.faults, began, scanned)
    requires put.result.Err? && put.now == now && put.began == began && put.target !in start && Discarding(end, start, now)
    requires forall d :: d in crashed ==> Discarding(d, start, now)
    requires run.Attempted? && crashed <= run.forward && run.evictions == [] && run.undo == Unneeded && scanned <= began + ScanCalls(start, now)
    ensures Attempt(put, start, end, crashed, run)
    ensures Obliged(put, start, run)
  {
    hide FailedEnd, PlannedFrom, ScanCalls, Shrunk, Undoing, Published, UndoesFrom, WithinLimits, Distinct, LiveAt;
    assert put.target !in Live(start, now);
    NothingUndone(Live(start, now), put.target, put.faults, put.folder);
    DiscardingIsPutState(end, start, now, run.evictions, put.target, put.folder);
    forall d | d in crashed ensures PutState(d, start, now, run.evictions, put.target, put.folder) {
      DiscardingIsPutState(d, start, now, run.evictions, put.target, put.folder);
    }
  }

  lemma DiscardingIsPutState(d: Disk, start: Disk, now: nat, evictions: seq<string>, target: string, folder: Folder)
    requires Discarding(d, start, now) && target !in start
    ensures PutState(d, start, now, evictions, target, folder) && Shrunk(d, start[target := folder])
  {
  }

  predicate WithinItems(items: nat, bytes: nat) { items <= MAX_ENTRIES && bytes <= MAX_TOTAL_BYTES }

  /** At most 16 results and 4 MiB. */
  ghost predicate WithinLimits(disk: Disk) { WithinItems(TotalItems(disk), TotalBytes(disk)) }

  lemma PublishedTotals(run: PutRun, live: Disk, payloads: seq<Bytes>, ids: seq<Digest>, target: string, j: nat)
    requires run.Attempted? && PlannedFrom(run, live, payloads) && j <= |run.evictions|
    requires |ids| == |payloads| && Distinct(ids) && target !in live
    ensures var after := Published(live, SetOf(run.evictions[..j]), target, Folder(FilesOf(ids, payloads), map[]));
            && TotalItems(after) == CountOf(run.batches[j..]) + |payloads|
            && TotalBytes(after) == BytesOf(run.batches[j..]) + SumLengths(payloads)
  {
    var rest := Without(live, SetOf(run.evictions[..j]));
    assert run.evictions[..j] == Names(run.batches[..j]);
    assert SetOf(run.evictions[..j]) == NameSet(run.batches[..j]);
    RemainingTotals(run.batches, j, live);
    FilesOfSize(ids, payloads);
    AddedTotals(rest, target, Folder(FilesOf(ids, payloads), map[]));
  }

  /** What is evicted is older than what stays: of a lesser tick, or of the same tick and a lesser name. */
  lemma EvictionsAreOldest(run: PutRun, live: Disk, payloads: seq<Bytes>, gone: string, stays: string)
    requires run.Attempted? && PlannedFrom(run, live, payloads)
    requires gone in run.evictions && stays in live && stays !in run.evictions
    ensures gone in live && BatchTick(gone).Some? && BatchTick(stays).Some?
    ensures || BatchTick(gone).value < BatchTick(stays).value
            || (BatchTick(gone) == BatchTick(stays) && StringLeq(gone, stays))
  {
    hide Lists, Sorted, LeastPrefix, StringLeq, BatchTick;
    var batches, k := run.batches, |run.evictions|;
    EveryBatchListed(batches, live);
    var b :| b in batches && b.name == stays;
    var j :| 0 <= j < |batches| && batches[j] == b;
    var i :| 0 <= i < k && run.evictions[i] == gone;
    NamesBefore(batches, k, j);
    ListedTick(batches, live, i);
    ListedTick(batches, live, j);
    OrderedNames(batches, i, j);
  }

  lemma NamesBefore(batches: seq<Batch>, k: nat, j: nat)
    requires k <= |batches| && j < |batches|
    ensures j < k ==> batches[j].name in Names(batches[..k])
  {
    if j < k {
      assert Names(batches[..k])[j] == batches[j].name;
    }
  }

  lemma ListedTick(batches: seq<Batch>, live: Disk, i: nat)
    requires Lists(batches, live) && i < |batches|
    ensures batches[i].name in live && BatchTick(batches[i].name) == Some(batches[i].tick)
  {
    assert batches[i] in batches;
  }

  /** A completed publication leaves the store within its limits. */
  lemma CompletedTotals(run: PutRun, live: Disk, payloads: seq<Bytes>, ids: seq<Digest>, target: string)
    requires run.Attempted? && PlannedFrom(run, live, payloads)
    requires |ids| == |payloads| && Distinct(ids) && target !in live
    ensures var after := Published(live, SetOf(run.evictions), target, Folder(FilesOf(ids, payloads), map[]));
            WithinLimits(after) && TotalItems(after) <= 16 && TotalBytes(after) <= 4_194_304
  {
    PublishedTotals(run, live, payloads, ids, target, |run.evictions|);
    assert run.evictions[..|run.evictions|] == run.evictions;
  }

  /**
   While the evictions are under way, the limits hold exactly when all of them have left: a
   crash in between leaves a store that is over a limit until the next completed publication.
   */
  lemma LimitsWhileEvicting(run: PutRun, live: Disk, payloads: seq<Bytes>, ids: seq<Digest>, target: string, j: nat)
    requires run.Attempted? && PlannedFrom(run, live, payloads) && j <= |run.evictions|
    requires |ids| == |payloads| && Distinct(ids) && target !in live
    ensures WithinLimits(Published(live, SetOf(run.evictions[..j]), target, Folder(FilesOf(ids, payloads), map[])))
            <==> j == |run.evictions|
  {
    PublishedTotals(run, live, payloads, ids, target, j);
    assert j < |run.evictions| ==> !Fits(run.batches[j..], |payloads|, SumLengths(payloads));
  }

  lemma RemainingTotals(batches: seq<Batch>, k: nat, live: Disk)
    requires Lists(batches, live) && k <= |batches|
    ensures CountOf(batches[k..]) == TotalItems(Without(live, NameSet(batches[..k])))
    ensures BytesOf(batches[k..]) == TotalBytes(Without(live, NameSet(batches[..k])))
  {
    ListsDrop(batches, live, k);
    ListedTotals(batches[k..], Without(live, NameSet(batches[..k])));
  }

  lemma AddedTotals(rest: Disk, target: string, folder: Folder)
    requires target !in rest
    ensures TotalItems(rest[target := folder]) == |folder.files| + TotalItems(rest)
    ensures TotalBytes(rest[target := folder]) == FileBytes(folder.files) + TotalBytes(rest)
  {
    SumAdd(rest, FolderItems, target, folder);
    SumAdd(rest, FolderBytes, target, folder);
  }

  /** What reading a result file finds when no call fails. */
  function Reads(f: Folder, name: string): Result<Bytes, StoreError> {
    if name in f.held then Err(Corrupt)
    else if name !in f.files then Err(NotFound)
    else if f.files[name] == [] || |f.files[name]| > MAX_ITEM_BYTES then Err(Corrupt)
    else Ok(f.files[name])
  }

  /** A result is read from a file of one byte to 1 MiB; a directory in its place, or any other size, is corruption. */
  lemma ReadsExactly(f: Folder, name: string, bytes: Bytes)
    ensures Reads(f, name) == Ok(bytes) <==>
              name !in f.held && name in f.files && f.files[name] == bytes && 1 <= |bytes| <= 1_048_576
    ensures Reads(f, name) == Err(NotFound) <==> name !in f.held && name !in f.files
    ensures Reads(f, name).Err? ==> Reads(f, name).error == NotFound || Reads(f, name).error == Corrupt
  {
  }

  /** The folder of a batch holds the payloads under their digests. */
  ghost predicate HoldsAll(f: Folder, ids: seq<Digest>, payloads: seq<Bytes>)
    requires |ids| == |payloads|
  {
    forall i :: 0 <= i < |ids| ==> Reads(f, ids[i]) == Ok(payloads[i])
  }

  /** Batch `m` comes no later than batch `n` in the order of the listing. */
  predicate NoNewer(m: string, n: string) {
    && BatchTick(m).Some? && BatchTick(n).Some?
    && (BatchTick(m).value < BatchTick(n).value || (BatchTick(m) == BatchTick(n) && StringLeq(m, n)))
  }

  /** `bytes` is what the newest of the batches holding `id` stores under it. */
  ghost predicate Newest(live: Disk, id: string, bytes: Bytes) {
    exists n :: n in live && id in live[n].files && live[n].files[id] == bytes
                && forall m :: m in live && id in live[m].files ==> NoNewer(m, n)
  }

  /** Whatever holds the id is no batch or has reached the age of 86,400 ticks. */
  ghost predicate OnlyExpired(disk: Disk, id: string, now: nat) {
    forall n :: n in disk && id in disk[n].files ==> BatchTick(n).None? || BatchTick(n).value + 86_400 <= now
  }

  lemma ExpiredIsNotServed(disk: Disk, id: string, now: nat)
    ensures OnlyExpired(disk, id, now) ==> forall bytes :: !Newest(Live(disk, now), id, bytes)
  {
    LiveIsCurrent(disk, now);
  }

  lemma EveryBatchListed(batches: seq<Batch>, live: Disk)
    requires Lists(batches, live)
    ensures forall n :: n in live ==> exists b :: b in batches && b.name == n
  {
    assert NameSet(batches) <= live.Keys;
    NamesCount(batches);
    SameSize(NameSet(batches), live.Keys);
  }

  lemma SameSize<T>(a: set<T>, b: set<T>)
    requires a <= b && |a| == |b|
    ensures a == b
  {
    if a != b {
      var x :| x in b && x !in a;
      SubsetSize(a, b - {x});
    }
  }

  /** None of the batches from number `i` on holds the id. */
  ghost predicate NoneFrom(batches: seq<Batch>, live: Disk, i: nat, id: string) {
    forall j :: i <= j < |batches| && batches[j].name in live ==> id !in live[batches[j].name].files
  }

  lemma NoneLeft(batches: seq<Batch>, live: Disk, id: string)
    ensures NoneFrom(batches, live, |batches|, id)
  {
  }

  lemma NoneFromNext(batches: seq<Batch>, live: Disk, i: nat, id: string)
    requires i < |batches| && NoneFrom(batches, live, i + 1, id)
    ensures batches[i].name in live && id !in live[batches[i].name].files ==> NoneFrom(batches, live, i, id)
  {
  }

  lemma ListedReads(sha: Bytes -> Digest, batches: seq<Batch>, live: Disk, i: nat, id: Digest)
    requires Lists(batches, live) && i < |batches|
    ensures batches[i].name in live
    ensures WellFormed(sha, live) ==>
              Reads(live[batches[i].name], id) == Err(NotFound)
              || (Reads(live[batches[i].name], id).Ok? && sha(Reads(live[batches[i].name], id).value) == id)
  {
    assert batches[i] in batches;
    BatchIsNotTxn(batches[i].name);
  }

  lemma NoneAtAll(batches: seq<Batch>, live: Disk, id: string)
    requires Lists(batches, live) && NoneFrom(batches, live, 0, id)
    ensures forall n :: n in live ==> id !in live[n].files
  {
    EveryBatchListed(batches, live);
    forall n | n in live ensures id !in live[n].files {
      var b :| b in batches && b.name == n;
      var j :| 0 <= j < |batches| && batches[j] == b;
    }
  }

  lemma NewestAt(batches: seq<Batch>, live: Disk, i: nat, id: string)
    requires Lists(batches, live) && Sorted(BatchLeq, batches) && i < |batches| && NoneFrom(batches, live, i + 1, id)
    requires batches[i].name in live && id in live[batches[i].name].files
    ensures Newest(live, id, live[batches[i].name].files[id])
  {
    var n := batches[i].name;
    EveryBatchListed(batches, live);
    forall m | m in live && id in live[m].files ensures NoNewer(m, n) {
      var b :| b in batches && b.name == m;
      var j :| 0 <= j < |batches| && batches[j] == b;
      assert batches[i] in batches && batches[j] in batches;
      assert j <= i;
      OrderedNames(batches, j, i);
    }
  }

  lemma OrderedNames(batches: seq<Batch>, j: nat, i: nat)
    requires Sorted(BatchLeq, batches) && j <= i < |batches|
    requires BatchTick(batches[i].name) == Some(batches[i].tick) && BatchTick(batches[j].name) == Some(batches[j].tick)
    ensures NoNewer(batches[j].name, batches[i].name)
  {
    if j < i {
      assert BatchLeq(batches[j], batches[i]);
    } else {
      StringOrder();
    }
  }

  lemma ValidIsListable(sha: Bytes -> Digest, disk: Disk, now: nat)
    ensures WellFormed(sha, disk) ==> !Unlistable(disk, now)
  {
  }

  lemma NoTransactions(live: Disk, now: nat, txn: string)
    requires (forall n :: n in live ==> LiveAt(n, now)) && IsTxn(txn)
    ensures txn !in live
  {
    BatchIsNotTxn(txn);
  }

  lemma NothingUndone(live: Disk, target: string, faults: Schedule, folder: Folder)
    requires target !in live
    ensures FailedEnd(live, live, target, faults, Unneeded, folder)
  {
    assert live - {target} == live && live - {} == live;
  }

  /** Every state of a put over a well-formed store is well-formed. */
  lemma PutKeepsWellFormed(sha: Bytes -> Digest, put: PutCall, start: Disk, end: Disk, crashed: iset<Disk>, run: PutRun)
    requires put == PutOf(sha, put.payloads, put.now, put.faults, put.began, put.result)
    requires put.now <= U64_MAX && Admissible(put.payloads) && run.Attempted? && Attempt(put, start, end, crashed, run)
    ensures WellFormed(sha, start) ==> WellFormed(sha, end) && forall d :: d in crashed ==> WellFormed(sha, d)
  {
    if WellFormed(sha, start) {
      FolderIsGood(sha, put.payloads);
      TargetIsLive(sha, put.payloads, put.now);
      ShrunkIsWellFormed(sha, end, start[put.target := put.folder]);
      forall d | d in crashed ensures WellFormed(sha, d) {
        if d !in run.forward {
          ShrunkAfterScan(d, start, put.now, put.target, put.folder);
        }
        ShrunkIsWellFormed(sha, d, start[put.target := put.folder]);
      }
    }
  }

  /** A put that succeeded stored every payload under its digest. */
  lemma StoredByPut(sha: Bytes -> Digest, put: PutCall, start: Disk, end: Disk, crashed: iset<Disk>, run: PutRun, i: nat)
    requires put == PutOf(sha, put.payloads, put.now, put.faults, put.began, put.result) && put.result.Ok? && i < |put.payloads|
    requires run.Attempted? && Attempt(put, start, end, crashed, run)
    ensures put.target in end && sha(put.payloads[i]) in end[put.target].files
    ensures end[put.target].files[sha(put.payloads[i])] == put.payloads[i]
  {
    FilesOfEntries(put.ids, put.payloads);
    assert put.ids[i] == sha(put.payloads[i]);
    assert put.target in Live(end, put.now) && Live(end, put.now)[put.target] == put.folder;
  }

  /**
   Whether a put leaves its batch among those that are served: a success does, and a failure
   does if and only if it had published the batch and a call of its removal failed. What is
   left then are the entries that were still to be removed.
   */
  lemma LeavesBatchExactly(put: PutCall, start: Disk, end: Disk, crashed: iset<Disk>, run: PutRun)
    requires run.Attempted? && Attempt(put, start, end, crashed, run) && put.target !in start
    ensures put.target in Live(end, put.now) <==>
              put.result.Ok? || (run.undo.Undo? && !Withdraws(put.faults, run.undo, Entries(put.folder)))
    ensures put.result.Err? && put.target in Live(end, put.now) ==>
              && Remnant(Live(end, put.now)[put.target], put.folder)
              && Entries(Live(end, put.now)[put.target]) == Remaining(put.faults, WithdrawalStart(put.faults, run.undo), Entries(put.folder))
  {
    hide Passes, Withdraws, WithdrawalStart, Remnant, Lost, PlannedFrom, Undoes, WithinLimits, Distinct, Live;
  }

  lemma RemnantWhole(part: Folder, whole: Folder)
    requires Remnant(part, whole) && Entries(part) == Entries(whole) && whole.held == map[]
    ensures part == whole
  {
    assert part.held.Keys == {} && part.held == map[];
    assert part.files.Keys <= whole.files.Keys;
    SameSize(part.files.Keys, whole.files.Keys);
  }

  /** When no call fails, a put of a new batch succeeds if its payloads have different digests. */
  lemma NothingFails(put: PutCall, start: Disk, run: PutRun)
    requires run.Attempted? ==> Obliged(put, start, run)
    ensures run.Attempted? && (forall k :: !put.faults(k)) && Distinct(put.ids) && (put.result.Err? ==> put.result.error == Unavailable) ==>
              put.result.Ok?
  {
  }

  lemma FewNames(d: Disk, e: Disk, a: string, b: string, c: string)
    requires d.Keys <= e.Keys + {a, b, c}
    ensures |d| <= |e| + 3
  {
    SubsetSize(d.Keys, e.Keys + {a, b, c});
    assert |d.Keys| == |d| && |e.Keys| == |e| && |{a, b, c}| <= 3;
    assert |e.Keys + {a, b, c}| <= |e.Keys| + |{a, b, c}|;
  }

  /** A batch is still there and unexpired, or it was evicted and the complete new batch is there. */
  ghost predicate KeptOrReplaced(name: string, folder: Folder, d: Disk, later: nat, evictions: seq<string>, target: string, replacing: Folder) {
    || (name in Live(d, later) && d[name] == folder)
    || (name in evictions && target in d && d[target] == replacing)
  }

  /**
   No crash loses a batch for nothing: from any point of a put up to its first failed call,
   recovery at any later time finds every old batch that has not expired, or else the batch
   was one of the evictions and the complete new batch is there.
   */
  lemma NothingLostByCrash(start: Disk, d: Disk, now: nat, later: nat, evictions: seq<string>, target: string, folder: Folder, name: string)
    requires PutState(d, start, now, evictions, target, folder) && target !in start && now <= later
    requires name in Live(start, later)
    ensures KeptOrReplaced(name, start[name], d, later, evictions, target, folder)
  {
    var live, after := Live(start, now), Live(d, now);
    LiveLater(start, now, later);
    LiveLater(d, now, later);
    assert name in live;
    if after != live {
      var j :| 0 <= j <= |evictions| && after == Published(live, SetOf(evictions[..j]), target, folder);
      assert target in after && after[target] == folder;
      if name in SetOf(evictions[..j]) {
        assert name in evictions;
      } else {
        assert name in after && after[name] == live[name];
      }
    } else {
      assert name in after;
    }
  }

  // ----- whole runs -----

  /**
   One step in the life of the store: a scan, as part of a get or of its own, or a put of a new
   batch that would end in `end`. A crash may cut either short. Other puts change nothing.
   */
  datatype Step = Scan(now: nat) | Put(put: PutCall, run: PutRun, end: Disk, crashed: iset<Disk>)

  ghost predicate Leads(d: Disk, e: Disk, step: Step) {
    match step
    case Scan(now) => Discarding(e, d, now)
    case Put(put, run, end, crashed) =>
      && run.Attempted? && put.target !in d && Attempt(put, d, end, crashed, run) && Obliged(put, d, run)
      && (e == end || e in crashed)
  }

  function TimeOf(step: Step): nat {
    match step
    case Scan(now) => now
    case Put(put, _, _, _) => put.now
  }

  /** The step was cut short before anything failed, or nothing failed, or all that failed was undone. */
  ghost predicate Restored(e: Disk, step: Step) {
    step.Put? && step.run.Attempted? ==>
      || (e in step.crashed && e in step.run.forward)
      || step.put.result.Ok? || Restores(step.put.faults, step.run.undo, Entries(step.put.folder))
  }

  /** Step `step`, which led from `d` to `e`, evicted `name` to make room for a batch that it left complete. */
  ghost predicate Evicts(d: Disk, e: Disk, step: Step, name: string) {
    && step.Put? && step.run.Attempted? && PlannedFrom(step.run, Live(d, step.put.now), step.put.payloads)
    && name in step.run.evictions && step.put.target in e && e[step.put.target] == step.put.folder
  }

  lemma KeptByUndoing(d: Disk, start: Disk, now: nat, later: nat, evictions: seq<string>, target: string, folder: Folder, name: string)
    requires Undoing(d, Live(start, now)[target := folder], target, SetOf(evictions), {}) && target !in start && now <= later
    requires name in Live(start, later)
    ensures KeptOrReplaced(name, start[name], d, later, evictions, target, folder)
  {
    LiveLater(start, now, later);
    assert name in Live(start, now) && name != target;
  }

  lemma KeptByStep(d: Disk, e: Disk, step: Step, later: nat, name: string)
    requires Leads(d, e, step) && Restored(e, step) && TimeOf(step) <= later && name in Live(d, later)
    ensures (name in Live(e, later) && e[name] == d[name]) || Evicts(d, e, step, name)
  {
    match step {
      case Scan(now) =>
        LiveLater(d, now, later);
        LiveLater(e, now, later);
        assert name in Live(d, now);
      case Put(put, run, end, crashed) =>
        if e in crashed && e !in run.forward {
          assert Lost(put.faults, run.undo) == {};
          KeptByUndoing(e, d, put.now, later, run.evictions, put.target, put.folder, name);
        } else {
          assert run.evictions[..|run.evictions|] == run.evictions;
          NothingLostByCrash(d, e, put.now, later, run.evictions, put.target, put.folder, name);
        }
    }
  }

  /**
   Over any sequence of gets, puts, crashes and recoveries in which every failed put is undone,
   a batch that has not expired is there with its contents, or a put evicted it, as one of the
   least sufficient oldest batches, for a batch that was then complete.
   */
  lemma {:induction false} Durable(states: seq<Disk>, steps: seq<Step>, later: nat, name: string)
    requires |states| == |steps| + 1 && name in Live(states[0], later)
    requires forall i :: 0 <= i < |steps| ==>
               Leads(states[i], states[i + 1], steps[i]) && Restored(states[i + 1], steps[i]) && TimeOf(steps[i]) <= later
    ensures || (name in Live(states[|steps|], later) && states[|steps|][name] == states[0][name])
            || exists i :: 0 <= i < |steps| && Evicts(states[i], states[i + 1], steps[i], name)
    decreases |steps|
  {
    hide Leads, Restored, Evicts, Live;
    if steps != [] {
      KeptByStep(states[0], states[1], steps[0], later, name);
      if !Evicts(states[0], states[1], steps[0], name) {
        Durable(states[1..], steps[1..], later, name);
        if i :| 0 <= i < |steps[1..]| && Evicts(states[1..][i], states[1..][i + 1], steps[1..][i], name) {
          assert Evicts(states[i + 1], states[i + 2], steps[i + 1], name);
        }
      }
    }
  }
}
