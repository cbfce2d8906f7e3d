/**
 Two runs of the store in which a put reports failure, each with a concrete directory and a
 concrete schedule of failing calls.

 In the first, an eviction fails half-way and an evicted batch cannot be moved back: a result
 that was found before is not found any more. In the second, the new batch cannot be removed
 again: its results are served although the put reported an error, and the task that made the
 put may still be cancelled.
 */
module ResultLoss {
  import opened BatchNames
  import opened Common
  import opened Faults
  import opened Ordering
  import opened ResultFiles
  import opened ResultStates
  import opened ResultStore
  import C = Cancellation

  function HexDigit(k: nat): (c: char)
    requires k < 16
    ensures IsHex(c)
  {
    if k < 10 then ('0' as int + k) as char else ('a' as int + k - 10) as char
  }

  /** A digest that tells results by their first byte, which is all this run needs. */
  function Mark(bytes: Bytes): Digest {
    var first := if bytes == [] then 0 else bytes[0] as nat;
    [HexDigit(first / 16), HexDigit(first % 16)] + seq(62, i => '0')
  }

  lemma MarksDiffer(a: Bytes, b: Bytes)
    requires a != [] && b != [] && a[0] != b[0]
    ensures Mark(a) != Mark(b)
  {
    assert Mark(a)[0] != Mark(b)[0] || Mark(a)[1] != Mark(b)[1];
  }

  const OLDER: Bytes := [16]
  const NEWER: Bytes := [17]

  /** The store's directory at the start: two batches of one result each. */
  function TwoBatches(a: string, x: Digest, b: string, y: Digest): Disk {
    map[a := Folder(map[x := OLDER], map[]), b := Folder(map[y := NEWER], map[])]
  }

  /** Sixteen results fill the store, so that both batches have to go. */
  function Payloads(): (payloads: seq<Bytes>)
    ensures |payloads| == 16 && forall i :: 0 <= i < 16 ==> payloads[i] == [i as byte]
  {
    seq(16, i requires 0 <= i < 16 => [i as byte])
  }

  /** Moving the second batch into the quarantine fails, and so does moving the first one back. */
  const FAULTS: Schedule := k => k == 42 || k == 43

  const NEVER: Schedule := k => false

  lemma NeverFails(a: nat, b: nat)
    ensures NoFault(NEVER, a, b)
  {
  }

  lemma OneFile(id: Digest, bytes: Bytes)
    ensures FileBytes(map[id := bytes]) == |bytes| && |map[id := bytes]| == 1
  {
    assert map[id := bytes] == map[][id := bytes];
    SumAdd(map[], Length, id, bytes);
  }

  /** Batches `a` and `b` of ticks 1 and 2 are there, with a result each. */
  ghost predicate Starts(disk: Disk, a: string, x: Digest, b: string, y: Digest) {
    && disk == TwoBatches(a, x, b, y) && BatchTick(a) == Some(1) && BatchTick(b) == Some(2)
    && x == Mark(OLDER) && y == Mark(NEWER) && x != y
  }

  lemma StartIsGood(disk: Disk, a: string, x: Digest, b: string, y: Digest)
    requires Starts(disk, a, x, b, y)
    ensures WellFormed(Mark, disk) && Live(disk, 3) == disk && |disk| == 2
  {
    hide Mark, BatchTick;
    OneFile(x, OLDER);
    OneFile(y, NEWER);
    assert disk.Keys == {a, b};
  }

  /** At the start the older result is served; without batch `a` it is not. */
  lemma OlderServed(disk: Disk, a: string, x: Digest, b: string, y: Digest)
    requires Starts(disk, a, x, b, y)
    ensures a in disk && x in disk[a].files && forall bytes :: Newest(disk, x, bytes) ==> bytes == OLDER
    ensures forall bytes :: !Newest(disk - {a}, x, bytes)
  {
    hide Mark, BatchTick;
  }

  lemma OtherTimesAreNew(disk: Disk, a: string, x: Digest, b: string, y: Digest, name: string)
    requires Starts(disk, a, x, b, y) && BatchTick(name) == Some(3)
    ensures name !in disk
  {
    hide Mark, BatchTick;
  }

  lemma NamesStart(disk: Disk, a: string, x: Digest, b: string, y: Digest)
    requires x == Mark(OLDER) && y == Mark(NEWER) && a == BatchName(1, x) && b == BatchName(2, y) && disk == TwoBatches(a, x, b, y)
    ensures Starts(disk, a, x, b, y) && BatchTick(a) == Some(1) && BatchTick(b) == Some(2) && x != y
  {
    hide BatchTick, BatchName, TwoBatches, Mark;
    TickRoundTrip(1, x);
    TickRoundTrip(2, y);
    MarksDiffer(OLDER, NEWER);
  }

  lemma {:induction false} SumOfSingles(s: seq<Bytes>)
    requires forall b :: b in s ==> |b| == 1
    ensures SumLengths(s) == |s|
  {
    if s != [] {
      SumOfSingles(s[..|s| - 1]);
    }
  }

  lemma PayloadsAreGood()
    ensures Admissible(Payloads()) && SumLengths(Payloads()) == 16 && Distinct(IdsOf(Mark, Payloads()))
  {
    hide Mark;
    SumOfSingles(Payloads());
    forall i, j | 0 <= i < j < 16 ensures Mark(Payloads()[i]) != Mark(Payloads()[j]) {
      MarksDiffer(Payloads()[i], Payloads()[j]);
    }
  }

  lemma ScanTakesSix(disk: Disk, a: string, x: Digest, b: string, y: Digest)
    requires Starts(disk, a, x, b, y)
    ensures ScanCalls(disk, 3) == 6
  {
    hide Mark, BatchTick, ScanCalls;
    ScanCallsNext(disk, 3, a);
    assert disk - {a} == map[b := disk[b]];
    ScanCallsNext(disk - {a}, 3, b);
    ScanCallsNone(disk - {a} - {b}, 3);
    assert disk[a].files.Keys == {x} && disk[b].files.Keys == {y};
  }

  /** Both batches are to be evicted, the older one first. */
  lemma BothPlanned(run: PutRun, disk: Disk, a: string, x: Digest, b: string, y: Digest, payloads: seq<Bytes>)
    requires Starts(disk, a, x, b, y) && |payloads| == 16
    requires run.Attempted? && PlannedFrom(run, disk, payloads)
    ensures |run.evictions| == 2 && run.evictions[..1] == [a]
  {
    hide Mark, BatchTick, SumLengths, StringLeq;
    OneFile(x, OLDER);
    OneFile(y, NEWER);
    var batches, k := run.batches, |run.evictions|;
    assert disk.Keys == {a, b} && |disk| == 2;
    assert batches[0] in batches && batches[1] in batches;
    assert batches[0].count == 1 && batches[1].count == 1;
    assert BatchLeq(batches[0], batches[1]);
  }

  /** What the schedule makes of it: the first batch is lost, and the new one withdrawn. */
  lemma FirstIsLost(evictions: seq<string>, a: string, undo: Undo, entries: nat)
    requires |evictions| == 2 && evictions[..1] == [a] && Undoes(FAULTS, 40, evictions, undo)
    ensures Lost(FAULTS, undo) == {a} && Withdraws(FAULTS, undo, entries)
  {
    assert undo == Undo(43, [a], true);
    assert undo.moved[0] == a && FAULTS(43 + 1 - 1 - 0);
    assert a in Unreturned(FAULTS, 43, [a]);
  }

  /** Once it has scanned, the put publishes and fails at the second move. */
  lemma MustUndo(put: PutCall, start: Disk, run: PutRun, a: string, x: Digest, b: string, y: Digest)
    requires Starts(start, a, x, b, y) && put.payloads == Payloads() && put.faults == FAULTS && put.began == 0 && Distinct(put.ids)
    requires run.Attempted? && ObligedAfter(put, start, run, 6) && (put.result.Err? ==> put.result.error == Unavailable)
    ensures put.result == Err(Unavailable) && run.undo.Undo? && |run.evictions| == 2 && run.evictions[..1] == [a]
  {
    hide Starts, PlannedFrom, Distinct;
    assert NoFault(FAULTS, 0, 6) && NoFault(FAULTS, 6, 40) && FAULTS(42);
    BothPlanned(run, start, a, x, b, y, Payloads());
  }

  lemma UndoLoses(put: PutCall, start: Disk, served: Disk, run: PutRun, a: string)
    requires put.payloads == Payloads() && put.faults == FAULTS && put.result.Err? && run.Attempted? && run.undo.Undo?
    requires Ends(put, start, served, run, 6) && |run.evictions| == 2 && run.evictions[..1] == [a]
    ensures served == start - {a}
  {
    hide PlannedFrom, Undoes, Lost, Withdraws, NoFault, Published, WithinLimits, Restores;
    FirstIsLost(run.evictions, a, run.undo, Entries(put.folder));
  }

  lemma PutFails(put: PutCall, start: Disk, end: Disk, crashed: iset<Disk>, run: PutRun, a: string, x: Digest, b: string, y: Digest)
    requires Starts(start, a, x, b, y) && put == PutOf(Mark, Payloads(), 3, FAULTS, 0, put.result) && run.Attempted?
    requires Obliged(put, start, run) && Attempt(put, start, end, crashed, run)
    requires put.result.Err? ==> put.result.error == Unavailable
    ensures put.result == Err(Unavailable) && Live(end, 3) == start - {a}
  {
    hide Starts, Ends, ObligedAfter, Passes, Live, ScanCalls, Distinct, Mark, IdsOf, TargetOf, FolderOf;
    StartIsGood(start, a, x, b, y);
    PayloadsAreGood();
    ScanTakesSix(start, a, x, b, y);
    MustUndo(put, start, run, a, x, b, y);
    UndoLoses(put, start, Live(end, 3), run, a);
  }

  /**
   Documentation has it that a failed publication keeps the earlier results. Here the older
   result is found, a put reports failure, and the result is not found any more.
   */
  method FailedPutLosesResult(staging: string, quarantine: string)
    returns (before: Result<Bytes, StoreError>, put: Result<seq<Digest>, StoreError>, after: Result<Bytes, StoreError>)
    requires IsTxn(staging) && IsTxn(quarantine)
    ensures before == Ok(OLDER) && put == Err(Unavailable) && after == Err(NotFound)
  {
    hide Starts, WellFormed, Obliged, Attempt, Mark, Distinct, BatchName, BatchTick, SumLengths, Admissible, TargetOf, IdsOf, Unlistable,
      Newest, Live, NoFault, TwoBatches, Discarding;
    var x, y := Mark(OLDER), Mark(NEWER);
    var a, b := BatchName(1, x), BatchName(2, y);
    var disk := TwoBatches(a, x, b, y);
    NamesStart(disk, a, x, b, y);
    StartIsGood(disk, a, x, b, y);
    var earlier := new FilesystemResultStore(Mark, disk, NEVER);
    before := earlier.Get(x, 3);
    NeverFails(0, earlier.calls);
    OlderServed(disk, a, x, b, y);

    PayloadsAreGood();
    TargetIsLive(Mark, Payloads(), 3);
    OtherTimesAreNew(disk, a, x, b, y, TargetOf(Mark, Payloads(), 3));
    ghost var run;
    var store := new FilesystemResultStore(Mark, disk, FAULTS);
    put, run := store.PutBatch(Payloads(), 3, staging, quarantine);
    PutFails(PutOf(Mark, Payloads(), 3, FAULTS, 0, put), disk, store.disk, store.crashes - iset{}, run, a, x, b, y);
    FewNames(store.disk, disk, TargetOf(Mark, Payloads(), 3), staging, quarantine);

    var later := new FilesystemResultStore(Mark, store.disk, NEVER);
    after := later.Get(x, 3);
    NeverFails(0, later.calls);
  }

  // ----- a put that leaves its batch -----

  /** The quarantine cannot be created, and removing the new batch fails at its first entry. */
  const STUCK: Schedule := k => k == 40 || k == 41

  lemma NothingIsRemoved(evictions: seq<string>, undo: Undo, entries: nat)
    requires |evictions| == 2 && Undoes(STUCK, 40, evictions, undo)
    ensures Lost(STUCK, undo) == {} && !Withdraws(STUCK, undo, entries)
    ensures Remaining(STUCK, WithdrawalStart(STUCK, undo), entries) == entries
  {
    assert STUCK(40) && STUCK(41);
    assert undo == Undo(41, [], false);
  }

  lemma MustStick(put: PutCall, start: Disk, run: PutRun, a: string, x: Digest, b: string, y: Digest)
    requires Starts(start, a, x, b, y) && put.payloads == Payloads() && put.faults == STUCK && put.began == 0 && Distinct(put.ids)
    requires run.Attempted? && ObligedAfter(put, start, run, 6) && (put.result.Err? ==> put.result.error == Unavailable)
    ensures put.result == Err(Unavailable) && run.undo.Undo? && |run.evictions| == 2
  {
    hide Starts, PlannedFrom, Distinct;
    assert NoFault(STUCK, 0, 6) && NoFault(STUCK, 6, 40) && STUCK(40);
    BothPlanned(run, start, a, x, b, y, Payloads());
  }

  lemma UndoSticks(put: PutCall, start: Disk, served: Disk, run: PutRun)
    requires put.payloads == Payloads() && put.faults == STUCK && put.result.Err? && run.Attempted? && run.undo.Undo?
    requires Ends(put, start, served, run, 6) && |run.evictions| == 2 && put.target !in start && put.folder.held == map[]
    ensures served == start[put.target := put.folder]
  {
    hide PlannedFrom, Undoes, Lost, Withdraws, NoFault, Published, WithinLimits, Restores, Remnant, Entries, WithdrawalStart;
    NothingIsRemoved(run.evictions, run.undo, Entries(put.folder));
    RemnantWhole(served[put.target], put.folder);
    assert served - {put.target} == start - {} == start;
    assert served == (served - {put.target})[put.target := put.folder];
  }

  lemma PutSticks(put: PutCall, start: Disk, end: Disk, crashed: iset<Disk>, run: PutRun, a: string, x: Digest, b: string, y: Digest)
    requires Starts(start, a, x, b, y) && put == PutOf(Mark, Payloads(), 3, STUCK, 0, put.result) && run.Attempted?
    requires Obliged(put, start, run) && Attempt(put, start, end, crashed, run) && put.target !in start
    requires put.result.Err? ==> put.result.error == Unavailable
    ensures put.result == Err(Unavailable) && Live(end, 3) == start[put.target := put.folder]
  {
    hide Starts, Ends, ObligedAfter, Passes, Live, ScanCalls, Distinct, Mark, IdsOf, TargetOf;
    StartIsGood(start, a, x, b, y);
    PayloadsAreGood();
    ScanTakesSix(start, a, x, b, y);
    MustStick(put, start, run, a, x, b, y);
    UndoSticks(put, start, Live(end, 3), run);
  }

  /** The first payload is served from the new batch alone. */
  lemma NewServed(start: Disk, a: string, x: Digest, b: string, y: Digest, target: string)
    requires Starts(start, a, x, b, y) && target !in start
    ensures var served := start[target := FolderOf(Mark, Payloads())];
            && Mark([0]) in served[target].files
            && forall bytes :: Newest(served, Mark([0]), bytes) ==> bytes == [0]
  {
    hide Mark, BatchTick;
    PayloadsAreGood();
    FilesOfEntries(IdsOf(Mark, Payloads()), Payloads());
    assert Payloads()[0] == [0] && IdsOf(Mark, Payloads())[0] == Mark([0]);
    MarksDiffer([0], OLDER);
    MarksDiffer([0], NEWER);
  }

  /**
   A cancelled task may have left a result that is served: the put publishes its batch, fails
   to evict others, fails to remove it again and reports an error; nothing counts as published,
   so that a later cancel sets the flag and the receipt says `Cancelled`.
   */
  method CancelledTaskIsServed(staging: string, quarantine: string)
    returns (put: Result<seq<Digest>, StoreError>, after: Result<Bytes, StoreError>, ghost states: seq<C.State>, ghost steps: seq<C.Step>)
    requires IsTxn(staging) && IsTxn(quarantine)
    ensures put == Err(Unavailable) && after == Ok([0])
    ensures C.Run(states, steps) && steps == [C.PutLock, C.PutCheck, C.PutInner(put.Ok?, after.Ok?), C.PutMark, C.PutUnlock] + C.CANCEL + C.RETURN
    ensures states[|steps|].worker.Final? && states[|steps|].worker.receipt == C.Cancelled && states[|steps|].left == 1
  {
    hide Starts, WellFormed, Obliged, Attempt, Mark, Distinct, BatchName, BatchTick, SumLengths, Admissible, TargetOf, IdsOf, Unlistable,
      Newest, Live, NoFault, TwoBatches, Discarding, FolderOf, C.Run;
    var x, y := Mark(OLDER), Mark(NEWER);
    var a, b := BatchName(1, x), BatchName(2, y);
    var disk := TwoBatches(a, x, b, y);
    NamesStart(disk, a, x, b, y);
    StartIsGood(disk, a, x, b, y);
    PayloadsAreGood();
    ghost var target := TargetOf(Mark, Payloads(), 3);
    TargetIsLive(Mark, Payloads(), 3);
    OtherTimesAreNew(disk, a, x, b, y, target);
    ghost var run;
    var store := new FilesystemResultStore(Mark, disk, STUCK);
    put, run := store.PutBatch(Payloads(), 3, staging, quarantine);
    PutSticks(PutOf(Mark, Payloads(), 3, STUCK, 0, put), disk, store.disk, store.crashes - iset{}, run, a, x, b, y);
    FewNames(store.disk, disk, target, staging, quarantine);
    NewServed(disk, a, x, b, y, target);

    var later := new FilesystemResultStore(Mark, store.disk, NEVER);
    after := later.Get(Mark([0]), 3);
    NeverFails(0, later.calls);
    states, steps := C.CancelledTaskLeavesBatch();
  }
}
