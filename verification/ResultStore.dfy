/** The filesystem result store: its operations over single filesystem calls, and what a crash at any of them leaves. */
module ResultStore {
  // Every filesystem call is one method below. Whether it fails is up to a schedule of faults;
  // it records in `crashes` each state of the directory that a crash during the call could
  // leave behind. What recovery makes of those states is then a matter of `Live`. Ghost
  // parameters such as `next` and `last` number the call that follows when none fails.

  import opened BatchNames
  import opened Common
  import opened Decimal
  import opened Faults
  import opened Ordering
  import opened ResultFiles
  import opened ResultStates

  class FilesystemResultStore {
    const sha: Bytes -> Digest
    const faults: Schedule
    var disk: Disk
    var calls: nat  // made so far
    ghost var crashes: iset<Disk>

    constructor (sha: Bytes -> Digest, disk: Disk, faults: Schedule)
      ensures this.sha == sha && this.disk == disk && this.faults == faults && calls == 0 && crashes == iset{}
    {
      this.sha, this.disk, this.faults, calls, crashes := sha, disk, faults, 0, iset{};
    }

    /** One call into the operating system: the schedule says whether it fails. */
    method Fault() returns (failed: bool)
      modifies this`calls
      ensures failed == faults(old(calls)) && calls == old(calls) + 1
    {
      failed := faults(calls);
      calls := calls + 1;
    }

    ghost predicate Valid()
      reads this
    {
      WellFormed(sha, disk)
    }

    method CreateDir(name: string) returns (ok: bool)
      modifies this`disk, this`crashes, this`calls
      ensures ok <==> !faults(old(calls)) && name !in old(disk)
      ensures disk == if ok then old(disk)[name := EMPTY] else old(disk)
      ensures crashes == old(crashes) + iset{disk} && calls == old(calls) + 1
    {
      var failed := Fault();
      ok := !failed && name !in disk;
      if ok {
        disk := disk[name := EMPTY];
      }
      crashes := crashes + iset{disk};
    }

    /** The file is created, then filled: a crash leaves any prefix of it. */
    method WritePrivateFile(dir: string, name: string, bytes: Bytes) returns (ok: bool)
      requires dir in disk
      modifies this`disk, this`crashes, this`calls
      ensures ok <==> name !in old(disk)[dir].files && NoFault(faults, old(calls), old(calls) + 2)
      ensures ok ==> disk == WithFile(old(disk), dir, name, bytes) && calls == old(calls) + 2
      ensures dir in disk && AgreeOff(disk, old(disk), dir)
      ensures old(crashes) <= crashes && old(calls) < calls
      ensures forall d :: d in crashes - old(crashes) ==> AgreeOff(d, old(disk), dir)
    {
      var failed := Fault();
      if failed || name in disk[dir].files {
        return false;
      }
      ghost var before := disk;
      crashes := crashes + iset k | 0 <= k <= |bytes| :: WithFile(before, dir, name, bytes[..k]);
      failed := Fault();
      if failed {
        var k :| 0 <= k <= |bytes|;
        disk := WithFile(disk, dir, name, bytes[..k]);
        return false;
      }
      disk := WithFile(disk, dir, name, bytes);
      assert bytes[..|bytes|] == bytes;
      return true;
    }

    method Rename(source: string, target: string) returns (ok: bool)
      requires source in disk && target !in disk
      modifies this`disk, this`crashes, this`calls
      ensures ok <==> !faults(old(calls))
      ensures disk == if ok then (old(disk) - {source})[target := old(disk)[source]] else old(disk)
      ensures crashes == old(crashes) + iset{disk} && calls == old(calls) + 1
    {
      var failed := Fault();
      ok := !failed;
      if ok {
        disk := (disk - {source})[target := disk[source]];
      }
      crashes := crashes + iset{disk};
    }

    /** Renaming a batch directory into the quarantine directory. */
    method MoveInto(quarantine: string, name: string) returns (ok: bool)
      requires quarantine in disk && name in disk && name != quarantine
      modifies this`disk, this`crashes, this`calls
      ensures ok <==> !faults(old(calls))
      ensures disk == if ok
                      then (old(disk) - {name})
                           [quarantine := Folder(old(disk)[quarantine].files, old(disk)[quarantine].held[name := old(disk)[name]])]
                      else old(disk)
      ensures crashes == old(crashes) + iset{disk} && calls == old(calls) + 1
    {
      var failed := Fault();
      ok := !failed;
      if ok {
        var folder := disk[quarantine];
        disk := (disk - {name})[quarantine := Folder(folder.files, folder.held[name := disk[name]])];
      }
      crashes := crashes + iset{disk};
    }

    method MoveBack(quarantine: string, name: string) returns (ok: bool)
      requires quarantine in disk && name in disk[quarantine].held && name !in disk
      modifies this`disk, this`crashes, this`calls
      ensures ok <==> !faults(old(calls))
      ensures disk == if ok
                      then old(disk)[quarantine := Folder(old(disk)[quarantine].files, old(disk)[quarantine].held - {name})]
                                    [name := old(disk)[quarantine].held[name]]
                      else old(disk)
      ensures crashes == old(crashes) + iset{disk} && calls == old(calls) + 1
    {
      var failed := Fault();
      ok := !failed;
      if ok {
        var folder := disk[quarantine];
        disk := disk[quarantine := Folder(folder.files, folder.held - {name})][name := folder.held[name]];
      }
      crashes := crashes + iset{disk};
    }

    /** Deleting one entry of a directory that is being removed; `start` is when that began. */
    method RemoveEntry(name: string, ghost start: Disk) returns (ok: bool)
      requires name in disk && Entries(disk[name]) > 0 && Deleting(disk, start, name)
      modifies this`disk, this`crashes, this`calls
      ensures ok <==> !faults(old(calls))
      ensures name in disk && Deleting(disk, start, name)
      ensures if ok then Entries(disk[name]) == Entries(old(disk)[name]) - 1 else disk == old(disk)
      ensures crashes == old(crashes) + iset{disk} && calls == old(calls) + 1
      ensures disk.Keys <= old(disk).Keys
    {
      var part := disk[name];
      if part.files.Keys != {} {
        var file :| file in part.files.Keys;
        EntriesLess(part, file);
        part := part.(files := part.files - {file});
      } else {
        assert part.held.Keys != {};
        var child :| child in part.held.Keys;
        EntriesLess(part, child);
        part := part.(held := part.held - {child});
      }
      DeletingStep(disk, start, name, part);
      var failed := Fault();
      ok := !failed;
      if ok {
        disk := disk[name := part];
      }
      crashes := crashes + iset{disk};
    }

    /** `remove_dir_all`: entries go one by one, in any order, then the directory itself. */
    method RemoveDirAll(name: string) returns (ok: bool)
      requires name in disk
      modifies this`disk, this`crashes, this`calls
      ensures ok <==> NoFault(faults, old(calls), old(calls) + Entries(old(disk)[name]) + 1)
      ensures ok <==> NoFault(faults, old(calls), calls)
      ensures calls == RemovalEnd(faults, old(calls), Entries(old(disk)[name]))
      ensures ok ==> calls == old(calls) + Entries(old(disk)[name]) + 1
      ensures ok ==> disk == old(disk) - {name}
      ensures !ok ==> name in disk && Deleting(disk, old(disk), name)
      ensures !ok ==> Entries(disk[name]) == Remaining(faults, old(calls), Entries(old(disk)[name]))
      ensures old(crashes) <= crashes
      ensures forall d :: d in crashes - old(crashes) ==> Deleting(d, old(disk), name)
      ensures disk.Keys <= old(disk).Keys
    {
      RemovalExactly(faults, calls, Entries(disk[name]));
      ok := Remove(name);
    }

    method Remove(name: string) returns (ok: bool)
      requires name in disk
      modifies this`disk, this`crashes, this`calls
      ensures calls == RemovalEnd(faults, old(calls), Entries(old(disk)[name])) && (ok <==> !faults(calls - 1))
      ensures ok ==> disk == old(disk) - {name}
      ensures !ok ==> name in disk && Deleting(disk, old(disk), name)
      ensures !ok ==> Entries(disk[name]) == Remaining(faults, old(calls), Entries(old(disk)[name]))
      ensures old(crashes) <= crashes
      ensures forall d :: d in crashes - old(crashes) ==> Deleting(d, old(disk), name)
      ensures disk.Keys <= old(disk).Keys
    {
      ghost var end, left := RemovalEnd(faults, calls, Entries(disk[name])), Remaining(faults, calls, Entries(disk[name]));
      while Entries(disk[name]) > 0
        invariant name in disk && Deleting(disk, old(disk), name) && disk.Keys <= old(disk).Keys
        invariant RemovalEnd(faults, calls, Entries(disk[name])) == end && Remaining(faults, calls, Entries(disk[name])) == left
        invariant old(crashes) <= crashes
        invariant forall d :: d in crashes - old(crashes) ==> Deleting(d, old(disk), name)
        decreases Entries(disk[name])
      {
        RemovalNext(faults, calls, Entries(disk[name]));
        ok := RemoveEntry(name, old(disk));
        if !ok {
          return;
        }
      }
      RemovalLast(faults, calls);
      ok := RemoveDir(name, old(disk));
    }

    method RemoveDir(name: string, ghost start: Disk) returns (ok: bool)
      requires name in disk && Deleting(disk, start, name)
      modifies this`disk, this`crashes, this`calls
      ensures ok <==> !faults(old(calls))
      ensures disk == if ok then start - {name} else old(disk)
      ensures calls == old(calls) + 1 && old(crashes) <= crashes
      ensures forall d :: d in crashes - old(crashes) ==> Deleting(d, start, name)
      ensures disk.Keys <= old(disk).Keys
    {
      DeletingDone(disk, start, name);
      var failed := Fault();
      ok := !failed;
      if ok {
        disk := disk - {name};
      }
      crashes := crashes + iset{disk};
    }

    /** The size check of a batch directory. */
    method BatchSize(f: Folder) returns (r: Result<(nat, nat), StoreError>)
      modifies this`calls
      ensures r == Err(Unavailable) <==> !NoFault(faults, old(calls), calls)
      ensures r.Ok? ==> Sized(f) && r.value == (|f.files|, FileBytes(f.files)) && calls == old(calls) + 1 + |f.files.Keys|
      ensures r.Err? ==> ScanError(r.error) && (r.error != Unavailable ==> !Sized(f))
      ensures r == Err(Corrupt) ==> Misshapen(f)
      ensures r == Err(BatchCapacityExceeded) ==> Overfull(f)
      ensures old(calls) <= calls <= old(calls) + 1 + |f.files.Keys|
    {
      if f.held.Keys != {} {
        return Err(Corrupt);
      }
      OneMore(faults, calls, calls, calls + 1);
      var failed := Fault();
      if failed {
        return Err(Unavailable);
      }
      var count: nat, bytes: nat := 0, 0;
      var rest := f.files;
      while rest.Keys != {} && count <= MAX_ENTRIES
        invariant Measured(f, rest, count, bytes) && calls == old(calls) + 1 + count && NoFault(faults, old(calls), calls)
        decreases rest.Keys
      {
        MeasuredSoFar(f, rest, count, bytes);
        OneMore(faults, old(calls), calls, calls + 1);
        failed := Fault();
        if failed {
          return Err(Unavailable);
        }
        var name :| name in rest.Keys;
        if !IsDigest(name) {
          return Err(Corrupt);
        }
        MeasuredNext(f, rest, count, bytes, name);
        count, bytes := count + 1, bytes + |rest[name]|;
        rest := rest - {name};
      }
      MeasuredAll(f, rest, count, bytes);
      if count > MAX_ENTRIES || bytes > MAX_TOTAL_BYTES {
        return Err(BatchCapacityExceeded);
      }
      return Ok((count, bytes));
    }

    /** One directory entry: transactions and expired batches go, batches are measured. */
    method ScanEntry(name: string, now: nat) returns (r: Result<Option<Batch>, StoreError>)
      requires name in disk
      modifies this`disk, this`crashes, this`calls
      ensures r == Err(Unavailable) <==> !NoFault(faults, old(calls), calls)
      ensures old(calls) <= calls && calls + 1 <= old(calls) + EntryCalls(name, old(disk)[name], now)
      ensures r.Ok? ==> calls + 1 == old(calls) + EntryCalls(name, old(disk)[name], now)
      ensures r.Ok? && r.value.Some? ==>
                LiveAt(name, now) && name in disk && Sized(disk[name]) && Describes(r.value.value, name, disk[name])
      ensures r.Ok? && r.value.None? ==> !LiveAt(name, now) && disk == old(disk) - {name}
      ensures r.Ok? ==> !Stops(name, old(disk)[name], now)
      ensures r.Err? ==> ScanError(r.error) && (r.error != Unavailable ==> StopsWith(name, old(disk)[name], now, r.error))
      ensures Deleting(disk, old(disk), name) && (LiveAt(name, now) ==> disk == old(disk) && crashes == old(crashes))
      ensures old(crashes) <= crashes
      ensures forall d :: d in crashes - old(crashes) ==> Deleting(d, old(disk), name)
      ensures disk.Keys <= old(disk).Keys
    {
      BatchIsNotTxn(name);
      if !IsTxn(name) && !IsBatch(name) {
        return Err(Corrupt);
      }
      if IsTxn(name) || !LiveAt(name, now) {
        var removed := RemoveDirAll(name);
        return if removed then Ok(None) else Err(Unavailable);
      }
      var size := BatchSize(disk[name]);
      match size
      case Err(error) => return Err(error);
      case Ok((count, bytes)) => return Ok(Some(Batch(BatchTick(name).value, name, count, bytes)));
    }

    /** One entry of a scan that started from `start`. */
    method ScanNext(name: string, scanned: nat, now: nat, ghost start: Disk) returns (r: Result<Option<Batch>, StoreError>)
      requires name in disk && Discarding(disk, start, now) && name in start && disk[name] == start[name]
      modifies this`disk, this`crashes, this`calls
      ensures r == Err(Unavailable) <==> !NoFault(faults, old(calls), calls)
      ensures old(calls) <= calls <= old(calls) + EntryCalls(name, start[name], now)
      ensures r.Ok? ==> calls == old(calls) + EntryCalls(name, start[name], now)
      ensures r.Ok? && r.value.Some? ==>
                disk == old(disk) && LiveAt(name, now) && Sized(disk[name]) && Describes(r.value.value, name, disk[name])
      ensures r.Ok? && r.value.None? ==> disk == old(disk) - {name}
      ensures r.Ok? ==> scanned <= SCAN_LIMIT && !Stops(name, start[name], now)
      ensures r.Err? && r.error != Unavailable ==> (r.error == BatchCapacityExceeded && scanned > SCAN_LIMIT) || EndsScan(start, now, r.error)
      ensures Discarding(disk, start, now) && old(crashes) <= crashes
      ensures forall d :: d in crashes - old(crashes) ==> Discarding(d, start, now)
      ensures disk.Keys <= old(disk).Keys
    {
      hide Discarding, Deleting, NoFault, LiveAt, Describes;
      NoneYet(faults, calls);
      OneMore(faults, calls, calls, calls + 1);
      if scanned > SCAN_LIMIT {
        return Err(BatchCapacityExceeded);
      }
      var failed := Fault();
      if failed {
        return Err(Unavailable);
      }
      ghost var entered := calls;
      r := ScanEntry(name, now);
      NoFaultSplit(faults, old(calls), entered, calls);
      if !LiveAt(name, now) {
        DiscardOne(disk, old(disk), start, name, now);
        forall d | d in crashes - old(crashes) ensures Discarding(d, start, now) {
          DiscardOne(d, old(disk), start, name, now);
        }
      }
    }

    /** The directory walk of a scan, in no particular order. */
    method ListBatches(now: nat) returns (r: Result<seq<Batch>, StoreError>)
      modifies this`disk, this`crashes, this`calls
      ensures r == Err(Unavailable) <==> !NoFault(faults, old(calls), calls)
      ensures old(calls) <= calls <= old(calls) + ScanCalls(old(disk), now)
      ensures r.Ok? ==> calls == old(calls) + ScanCalls(old(disk), now)
      ensures r.Ok? ==> Lists(r.value, disk) && forall n :: n in disk ==> Listable(now)(n, disk[n])
      ensures r.Ok? ==> |old(disk)| < 128 && !Unlistable(old(disk), now)
      ensures r.Err? && r.error != Unavailable ==> EndsScan(old(disk), now, r.error)
      ensures Discarding(disk, old(disk), now) && old(crashes) <= crashes
      ensures forall d :: d in crashes - old(crashes) ==> Discarding(d, old(disk), now)
      ensures disk.Keys <= old(disk).Keys
    {
      hide Discarding, Lists, NoFault, Stops, StopsWith, Passable, Unlistable;
      ScannedNothing(disk, now);
      PassableAll(disk, now);
      NoneYet(faults, calls);
      var batches: seq<Batch> := [];
      var scanned := 1;  // the lock file
      var rest := disk.Keys;
      ghost var kept: Disk, todo: Disk := map[], disk;
      while rest != {}
        invariant Scanned(disk, old(disk), rest, kept, Listable(now))
        invariant Lists(batches, kept)
        invariant scanned == 1 + |old(disk).Keys| - |rest| && scanned <= SCAN_LIMIT && Passable(old(disk), rest, now)
        invariant todo.Keys == rest && forall n :: n in rest ==> todo[n] == old(disk)[n]
        invariant calls + ScanCalls(todo, now) == old(calls) + ScanCalls(old(disk), now)
        invariant old(calls) <= calls && NoFault(faults, old(calls), calls)
        invariant Discarding(disk, old(disk), now) && disk.Keys <= old(disk).Keys && old(crashes) <= crashes
        invariant forall d :: d in crashes - old(crashes) ==> Discarding(d, old(disk), now)
        decreases rest
      {
        var name :| name in rest;
        scanned := scanned + 1;
        ghost var mid, began := disk, calls;
        ScanCallsNext(todo, now, name);
        var entry := ScanNext(name, scanned, now, old(disk));
        NoFaultSplit(faults, old(calls), began, calls);
        if entry.Err? {
          return Err(entry.error);
        }
        ScannedNext(disk, mid, old(disk), rest, kept, Listable(now), name);
        PassableNext(old(disk), rest, now, name);
        rest, todo := rest - {name}, todo - {name};
        if entry.value.Some? {
          ListsAdd(batches, entry.value.value, kept, name, disk[name]);
          batches := batches + [entry.value.value];
          kept := kept[name := disk[name]];
        }
      }
      ScanCallsNone(todo, now);
      ScannedAll(disk, old(disk), rest, kept, Listable(now));
      return Ok(batches);
    }

    /** The scan that every operation starts with; it is also the recovery from a crash. */
    method BatchesUnlocked(now: nat) returns (r: Result<seq<Batch>, StoreError>)
      modifies this`disk, this`crashes, this`calls
      ensures r == Err(Unavailable) <==> !NoFault(faults, old(calls), calls)
      ensures old(calls) <= calls <= old(calls) + ScanCalls(old(disk), now)
      ensures r.Ok? ==> calls == old(calls) + ScanCalls(old(disk), now)
      ensures r.Ok? ==> disk == Live(old(disk), now) && Lists(r.value, disk) && Sorted(BatchLeq, r.value)
      ensures r.Ok? ==> OnlyCurrent(disk, now) && forall n :: n in disk ==> Sized(disk[n])
      ensures r.Ok? ==> |old(disk)| < 128 && !Unlistable(old(disk), now)
      ensures r.Err? && r.error != Unavailable ==> EndsScan(old(disk), now, r.error)
      ensures Discarding(disk, old(disk), now) && old(crashes) <= crashes
      ensures forall d :: d in crashes - old(crashes) ==> Discarding(d, old(disk), now)
      ensures disk.Keys <= old(disk).Keys
    {
      r := ListBatches(now);
      if r.Ok? {
        AllLive(disk, now);
        LiveIsCurrent(disk, now);
        SortedListing(r.value, disk);
        r := Ok(Sort(BatchLeq, r.value));
      }
    }

    /** Checking the payloads and naming each by its digest. */
    method Admit(payloads: seq<Bytes>) returns (r: Result<(seq<Digest>, nat), StoreError>)
      ensures r.Ok? <==> Admissible(payloads)
      ensures r.Ok? ==> |r.value.0| == |payloads| && r.value.1 == SumLengths(payloads)
      ensures r.Ok? ==> forall i :: 0 <= i < |payloads| ==> r.value.0[i] == sha(payloads[i])
      ensures r.Err? ==> r.error == Refusal(payloads)
    {
      if payloads == [] {
        return Err(EmptyInput);
      }
      var bytes := 0;
      var ids: seq<Digest> := [];
      for i := 0 to |payloads|
        invariant |ids| == i && forall j :: 0 <= j < i ==> ids[j] == sha(payloads[j])
        invariant forall j :: 0 <= j < i ==> 1 <= |payloads[j]| <= MAX_ITEM_BYTES
        invariant bytes == SumLengths(payloads[..i])
      {
        if payloads[i] == [] || |payloads[i]| > MAX_ITEM_BYTES {
          return Err(ItemTooLarge);
        }
        assert payloads[..i + 1][..i] == payloads[..i];
        bytes := bytes + |payloads[i]|;
        ids := ids + [sha(payloads[i])];
      }
      assert payloads[..|payloads|] == payloads;
      if |ids| > MAX_ENTRIES || bytes > MAX_TOTAL_BYTES {
        return Err(BatchCapacityExceeded);
      }
      return Ok((ids, bytes));
    }

    /** Staging every payload in a transaction directory, then renaming it to its final name. */
    method Publish(staging: string, target: string, ids: seq<Digest>, payloads: seq<Bytes>, ghost next: nat) returns (ok: bool)
      requires IsTxn(staging) && IsBatch(target) && staging !in disk && target !in disk
      requires |ids| == |payloads| && next == calls + PublishCalls(|ids|)
      modifies this`disk, this`crashes, this`calls
      ensures ok <==> Distinct(ids) && NoFault(faults, old(calls), next)
      ensures ok ==> disk == old(disk)[target := Folder(FilesOf(ids, payloads), map[])] && calls == next
      ensures !ok ==> AgreeOff(disk, old(disk), staging) && disk.Keys <= old(disk).Keys + {staging}
      ensures old(crashes) <= crashes
      ensures forall d :: d in crashes - old(crashes) ==> AgreeOff(d, old(disk), staging) || (ok && d == disk)
    {
      hide AgreeOff, Distinct, NoFault, FilesOf;
      ghost var start, began, written := disk, calls, calls + 1 + 2 * |ids|;
      BatchIsNotTxn(target);
      Created(start, staging, EMPTY);
      PublishFaults(faults, began, began + 1, written, next);
      var created := CreateDir(staging);
      if !created {
        return false;
      }
      ghost var seen := crashes;
      var staged := StageAll(staging, ids, payloads, start, written);
      if !staged {
        CleanUp(staging, start);
        return false;
      }
      StagedRenamed(disk, start, staging, target);
      var renamed := Rename(staging, target);
      if !renamed {
        CleanUp(staging, start);
        return false;
      }
      return true;
    }

    /** Writing the payloads into the staging directory, up to the first failure. */
    method StageAll(staging: string, ids: seq<Digest>, payloads: seq<Bytes>, ghost start: Disk, ghost next: nat) returns (ok: bool)
      requires staging in disk && disk[staging] == EMPTY && AgreeOff(disk, start, staging)
      requires |ids| == |payloads| && next == calls + 2 * |ids|
      modifies this`disk, this`crashes, this`calls
      ensures ok <==> Distinct(ids) && NoFault(faults, old(calls), next)
      ensures staging in disk && AgreeOff(disk, start, staging) && old(crashes) <= crashes
      ensures ok ==> disk[staging] == Folder(FilesOf(ids, payloads), map[]) && calls == next
      ensures forall d :: d in crashes - old(crashes) ==> AgreeOff(d, start, staging)
    {
      var i := 0;
      while i < |ids|
        invariant 0 <= i <= |ids| && Distinct(ids[..i])
        invariant staging in disk && disk[staging] == Folder(FilesOf(ids[..i], payloads[..i]), map[])
        invariant AgreeOff(disk, start, staging) && old(crashes) <= crashes
        invariant calls == old(calls) + 2 * i && NoFault(faults, old(calls), calls)
        invariant forall d :: d in crashes - old(crashes) ==> AgreeOff(d, start, staging)
      {
        ghost var mid, seen := disk, crashes;
        StagedRepeats(ids, payloads, i);
        var written := WritePrivateFile(staging, ids[i], payloads[i]);
        assert forall d :: d in crashes - old(crashes) ==> d in seen - old(crashes) || d in crashes - seen;
        assert forall d :: AgreeOff(d, mid, staging) ==> AgreeOff(d, start, staging);
        if !written {
          return false;
        }
        FilesOfNext(ids, payloads, i);
        i := i + 1;
      }
      assert ids[..i] == ids && payloads[..i] == payloads;
      return true;
    }

    /** Deleting the staging directory of a failed publication; failures are ignored. */
    method CleanUp(staging: string, ghost start: Disk)
      requires staging in disk && AgreeOff(disk, start, staging)
      modifies this`disk, this`crashes, this`calls
      ensures AgreeOff(disk, start, staging) && old(crashes) <= crashes
      ensures forall d :: d in crashes - old(crashes) ==> AgreeOff(d, start, staging)
      ensures disk.Keys <= start.Keys + {staging}
    {
      var _ := RemoveDirAll(staging);
      assert disk - {staging} == old(disk) - {staging};
      AgreeElsewhere(disk, start, staging);
    }

    /**
     Undoing an eviction that failed half-way: the batches in quarantine are moved back, last
     first, then the quarantine and the new batch are deleted. Failures are ignored: `lost`
     are the batches whose move failed, and the new batch is gone exactly when no call of its
     removal failed.
     */
    method RollbackEviction(published: string, quarantine: string, moved: seq<string>, ghost start: Disk)
      returns (ghost lost: set<string>, ghost withdrawn: bool)
      requires IsTxn(quarantine) && quarantine !in start && disk == Quarantined(start, quarantine, SetOf(moved))
      requires published in start && IsBatch(published) && published !in moved
      requires Distinct(moved) && forall n :: n in moved ==> n in start && IsBatch(n)
      modifies this`disk, this`crashes, this`calls
      ensures lost == Unreturned(faults, old(calls), moved)
      ensures withdrawn == Withdraws(faults, Undo(old(calls), moved, true), Entries(start[published]))
      ensures lost <= SetOf(moved)
      ensures UndoneTo(disk, start, published, faults, Undo(old(calls), moved, true))
      ensures Undoing(disk, start, published, SetOf(moved), lost) && old(crashes) <= crashes
      ensures forall d :: d in crashes - old(crashes) ==> Undoing(d, start, published, SetOf(moved), lost)
      ensures disk.Keys <= start.Keys + {quarantine}
    {
      lost := MoveAllBack(published, quarantine, moved, start);
      QuarantinedIsUndoing(start, quarantine, lost, published, SetOf(moved), lost);
      QuarantinedBatches(start, quarantine, lost);
      QuarantineEntries(start, quarantine, lost, published);
      ghost var seen, c, n := crashes, calls, Entries(disk[quarantine]);
      ghost var next := RemovalEnd(faults, c, n);
      withdrawn := Withdraw(published, quarantine, SetOf(moved), lost, start, next, Entries(start[published]));
      WithdrawsQuarantined(faults, old(calls), moved, Entries(start[published]), lost, c, n, next);
      forall d | d in crashes - old(crashes) ensures Undoing(d, start, published, SetOf(moved), lost) {
        assert d in seen - old(crashes) || d in crashes - seen;
      }
    }

    /** Deleting the quarantine and the new batch once everything that can be moved back is back. */
    method Withdraw(published: string, quarantine: string, ghost moved: set<string>, ghost lost: set<string>, ghost start: Disk,
                    ghost next: nat, ghost entries: nat)
      returns (ghost withdrawn: bool)
      requires IsTxn(quarantine) && quarantine in disk && Undoing(disk, start, published, moved, lost)
      requires published in disk && IsBatch(published) && published !in moved
      requires forall n :: n in moved ==> IsBatch(n) && (n in lost || n in disk)
      requires next == RemovalEnd(faults, calls, Entries(disk[quarantine])) && entries == Entries(disk[published])
      modifies this`disk, this`crashes, this`calls
      ensures withdrawn <==> NoFault(faults, next, next + entries + 1)
      ensures Leaves(disk, Batches(old(disk)) - {published}, published, old(disk)[published], withdrawn, Remaining(faults, next, entries))
      ensures Undoing(disk, start, published, moved, lost) && old(crashes) <= crashes
      ensures forall d :: d in crashes - old(crashes) ==> Undoing(d, start, published, moved, lost)
      ensures disk.Keys <= old(disk).Keys
    {
      var _ := RemoveDirAll(quarantine);
      forall d | AgreeOff(d, old(disk), quarantine) ensures Undoing(d, start, published, moved, lost) {
        UnaffectedUndoing(d, old(disk), quarantine, start, published, moved, lost);
      }
      AgreeElsewhere(disk, old(disk), quarantine);
      assert disk - {quarantine} == old(disk) - {quarantine};
      BatchIsNotTxn(published);
      ghost var seen := crashes;
      withdrawn := WithdrawLast(published, moved, lost, start, entries);
      forall d | d in crashes - old(crashes) ensures Undoing(d, start, published, moved, lost) {
        assert d in seen - old(crashes) || d in crashes - seen;
      }
    }

    /** Deleting the new batch. */
    method WithdrawLast(published: string, ghost moved: set<string>, ghost lost: set<string>, ghost start: Disk, ghost entries: nat)
      returns (ghost withdrawn: bool)
      requires Undoing(disk, start, published, moved, lost) && published in disk && IsBatch(published) && published !in moved
      requires (forall n :: n in moved ==> n in lost || n in disk) && entries == Entries(disk[published])
      modifies this`disk, this`crashes, this`calls
      ensures withdrawn <==> NoFault(faults, old(calls), old(calls) + entries + 1)
      ensures Leaves(disk, Batches(old(disk)) - {published}, published, old(disk)[published], withdrawn,
                     Remaining(faults, old(calls), entries))
      ensures Undoing(disk, start, published, moved, lost) && old(crashes) <= crashes
      ensures forall d :: d in crashes - old(crashes) ==> Undoing(d, start, published, moved, lost)
      ensures disk.Keys <= old(disk).Keys
    {
      hide Undoing, Deleting, Leaves, NoFault, Remaining, Entries;
      var removed := RemoveDirAll(published);
      DeletingWhole(old(disk), published);
      forall d | Deleting(d, old(disk), published) ensures Undoing(d, start, published, moved, lost) {
        WithdrawingIsUndoing(d, old(disk), start, published, moved, lost);
      }
      DeletedLeaves(disk, old(disk), published, Remaining(faults, old(calls), entries));
      withdrawn := removed;
    }

    method MoveAllBack(published: string, quarantine: string, moved: seq<string>, ghost start: Disk) returns (ghost lost: set<string>)
      requires IsTxn(quarantine) && quarantine !in start && disk == Quarantined(start, quarantine, SetOf(moved))
      requires published in start && published !in moved
      requires Distinct(moved) && forall n :: n in moved ==> n in start
      modifies this`disk, this`crashes, this`calls
      ensures lost == Unreturned(faults, old(calls), moved) && calls == old(calls) + |moved|
      ensures lost <= SetOf(moved) && disk == Quarantined(start, quarantine, lost) && old(crashes) <= crashes
      ensures forall d :: d in crashes - old(crashes) ==> Undoing(d, start, published, SetOf(moved), {})
    {
      hide Undoing, UnreturnedFrom, Unreturned, Distinct;
      lost := {};
      var i := |moved|;
      ghost var gone := SetOf(moved);
      assert moved[..i] == moved;
      UnreturnedAll(faults, calls, moved);
      while i > 0
        invariant 0 <= i <= |moved| && Returning(moved, i, gone, lost)
        invariant calls == old(calls) + |moved| - i && lost == UnreturnedFrom(faults, old(calls), moved, i)
        invariant disk == Quarantined(start, quarantine, gone) && old(crashes) <= crashes
        invariant forall d :: d in crashes - old(crashes) ==> Undoing(d, start, published, SetOf(moved), {})
      {
        i := i - 1;
        ReturnOne(moved, i, gone, lost);
        UnreturnedNext(faults, old(calls), moved, i, calls);
        QuarantineReturn(start, quarantine, gone, moved[i]);
        var returned := MoveBack(quarantine, moved[i]);
        if returned {
          gone := gone - {moved[i]};
        } else {
          lost := lost + {moved[i]};
        }
        QuarantinedIsUndoing(start, quarantine, gone, published, SetOf(moved), {});
      }
      assert gone == lost;
    }

    method MoveOne(quarantine: string, evictions: seq<string>, moved: nat, ghost start: Disk) returns (ok: bool)
      requires IsTxn(quarantine) && quarantine !in start && moved < |evictions| && evictions[moved] in start
      requires Distinct(evictions) && disk == Quarantined(start, quarantine, SetOf(evictions[..moved]))
      modifies this`disk, this`crashes, this`calls
      ensures ok <==> !faults(old(calls))
      ensures disk == if ok then Quarantined(start, quarantine, SetOf(evictions[..moved + 1])) else old(disk)
      ensures Evicting(disk, start, evictions) && crashes == old(crashes) + iset{disk} && calls == old(calls) + 1
    {
      hide Evicting, Quarantined, SetOf, Distinct;
      MoveNext(start, quarantine, evictions, moved);
      ok := MoveInto(quarantine, evictions[moved]);
    }

    /** Moving the evicted batches into the quarantine, up to the first failure. */
    method MoveAll(quarantine: string, evictions: seq<string>, ghost start: Disk) returns (moved: nat, ghost next: nat)
      requires IsTxn(quarantine) && quarantine !in start && disk == Quarantined(start, quarantine, {})
      requires Distinct(evictions) && forall n :: n in evictions ==> n in start
      modifies this`disk, this`crashes, this`calls
      ensures moved <= |evictions| && disk == Quarantined(start, quarantine, SetOf(evictions[..moved]))
      ensures next == old(calls) + moved && NoFault(faults, old(calls), next)
      ensures moved < |evictions| ==> faults(next)
      ensures calls == if moved < |evictions| then next + 1 else next
      ensures old(crashes) <= crashes
      ensures forall d :: d in crashes - old(crashes) ==> Evicting(d, start, evictions)
    {
      moved, next := 0, calls;
      assert SetOf(evictions[..0]) == {};
      hide Evicting, NoFault, Quarantined, SetOf, Distinct;
      NoneYet(faults, calls);
      while moved < |evictions|
        invariant moved <= |evictions| && disk == Quarantined(start, quarantine, SetOf(evictions[..moved]))
        invariant calls == next == old(calls) + moved && NoFault(faults, old(calls), next)
        invariant old(crashes) <= crashes
        invariant forall d :: d in crashes - old(crashes) ==> Evicting(d, start, evictions)
      {
        var ok := MoveOne(quarantine, evictions, moved, start);
        if !ok {
          return;
        }
        OneMore(faults, old(calls), next, calls);
        moved, next := moved + 1, calls;
      }
    }

    /**
     Evicting after publication. It succeeds exactly when the quarantine can be created and
     every batch moved into it. Until the first failed call the directory passes only through
     `Evicting` states (`forward`); after it, through `Undoing` ones.
     */
    method EvictAfterPublish(published: string, quarantine: string, evictions: seq<string>, ghost last: nat)
      returns (ok: bool, ghost forward: iset<Disk>, ghost undo: Undo)
      requires IsTxn(quarantine) && quarantine !in disk && published in disk && IsBatch(published) && published !in evictions
      requires last == calls + EvictCalls(|evictions|)
      requires Distinct(evictions) && forall n :: n in evictions ==> n in disk && IsBatch(n)
      modifies this`disk, this`crashes, this`calls
      ensures ok <==> NoFault(faults, old(calls), last)
      ensures ok ==> undo == Unneeded && Batches(disk) == Batches(old(disk)) - SetOf(evictions) && forward == crashes
      ensures disk.Keys <= old(disk).Keys + {quarantine}
      ensures !ok ==> Undoes(faults, old(calls), evictions, undo)
      ensures !ok ==> UndoneTo(disk, old(disk), published, faults, undo)
      ensures Lost(faults, undo) <= SetOf(evictions)
      ensures Shrunk(disk, old(disk)) && old(crashes) <= forward <= crashes
      ensures forall d :: d in forward - old(crashes) ==> Evicting(d, old(disk), evictions)
      ensures forall d :: d in crashes - forward ==> Undoing(d, old(disk), published, SetOf(evictions), Lost(faults, undo))
    {
      forward, undo := crashes, Unneeded;
      if evictions == [] {
        return true, forward, undo;
      }
      ok, forward, undo := EvictSome(published, quarantine, evictions, last);
    }

    method EvictSome(published: string, quarantine: string, evictions: seq<string>, ghost last: nat)
      returns (ok: bool, ghost forward: iset<Disk>, ghost undo: Undo)
      requires IsTxn(quarantine) && quarantine !in disk && published in disk && IsBatch(published) && published !in evictions
      requires last == calls + EvictCalls(|evictions|)
      requires Distinct(evictions) && evictions != [] && forall n :: n in evictions ==> n in disk && IsBatch(n)
      modifies this`disk, this`crashes, this`calls
      ensures ok <==> NoFault(faults, old(calls), last)
      ensures ok ==> undo == Unneeded && Batches(disk) == Batches(old(disk)) - SetOf(evictions) && forward == crashes
      ensures disk.Keys <= old(disk).Keys + {quarantine}
      ensures !ok ==> Undoes(faults, old(calls), evictions, undo)
      ensures !ok ==> UndoneTo(disk, old(disk), published, faults, undo)
      ensures Lost(faults, undo) <= SetOf(evictions)
      ensures Shrunk(disk, old(disk)) && old(crashes) <= forward <= crashes
      ensures forall d :: d in forward - old(crashes) ==> Evicting(d, old(disk), evictions)
      ensures forall d :: d in crashes - forward ==> Undoing(d, old(disk), published, SetOf(evictions), Lost(faults, undo))
    {
      hide Evicting, Undoing, Moves, Undoes, UndoneTo, Shrunk, Lost, NoFault, EvictCalls, Distinct, IsBatch;
      ghost var start := disk;
      EvictingStarts(start, quarantine, evictions);
      var created := CreateDir(quarantine);
      ghost var first, next := crashes, calls;
      if created {
        ok, forward, undo := EvictInto(published, quarantine, evictions, start);
        UndoesLater(faults, old(calls), next, evictions, undo, ok, last);
        assert forall d :: d in forward - old(crashes) ==> d in forward - first || d in first - old(crashes);
      } else {
        ok, forward, undo := false, crashes, Undo(calls, [], false);
        WithdrawAtOnce(published, SetOf(evictions), undo);
        UndoesAtOnce(faults, old(calls), next, evictions, undo, last);
      }
    }

    /** The evictions, once the quarantine directory exists. */
    method EvictInto(published: string, quarantine: string, evictions: seq<string>, ghost start: Disk)
      returns (ok: bool, ghost forward: iset<Disk>, ghost undo: Undo)
      requires IsTxn(quarantine) && quarantine !in start && disk == Quarantined(start, quarantine, {})
      requires published in start && IsBatch(published) && published !in evictions
      requires Distinct(evictions) && forall n :: n in evictions ==> n in start && IsBatch(n)
      modifies this`disk, this`crashes, this`calls
      ensures Moves(faults, old(calls), evictions, undo, ok)
      ensures ok ==> Batches(disk) == Batches(start) - SetOf(evictions) && forward == crashes
      ensures disk.Keys <= start.Keys + {quarantine}
      ensures !ok ==> UndoneTo(disk, start, published, faults, undo)
      ensures Lost(faults, undo) <= SetOf(evictions)
      ensures Shrunk(disk, start) && old(crashes) <= forward <= crashes
      ensures forall d :: d in forward - old(crashes) ==> Evicting(d, start, evictions)
      ensures forall d :: d in crashes - forward ==> Undoing(d, start, published, SetOf(evictions), Lost(faults, undo))
    {
      hide Evicting, Undoing, UndoneTo, Shrunk, Moves, NoFault, Distinct;
      var moved;
      ghost var next;
      moved, next := MoveAll(quarantine, evictions, start);
      forward, undo, ok := crashes, Unneeded, moved == |evictions|;
      if ok {
        assert evictions[..moved] == evictions;
        QuarantinedBatches(start, quarantine, SetOf(evictions));
        QuarantinedIsEvicting(start, quarantine, evictions, moved);
        DiscardQuarantine(quarantine, evictions, start);
        forward := crashes;
      } else {
        undo := GiveUp(published, quarantine, evictions, moved, start);
      }
      MovesUpTo(faults, old(calls), next, evictions, moved, undo);
    }

    /** Undoing an eviction of which only the first `moved` moves succeeded. */
    method GiveUp(published: string, quarantine: string, evictions: seq<string>, moved: nat, ghost start: Disk) returns (ghost undo: Undo)
      requires moved < |evictions|
      requires IsTxn(quarantine) && quarantine !in start && disk == Quarantined(start, quarantine, SetOf(evictions[..moved]))
      requires published in start && IsBatch(published) && published !in evictions
      requires Distinct(evictions) && forall n :: n in evictions ==> n in start && IsBatch(n)
      modifies this`disk, this`crashes, this`calls
      ensures undo == Undo(old(calls), evictions[..moved], true)
      ensures UndoneTo(disk, start, published, faults, undo)
      ensures Lost(faults, undo) <= SetOf(evictions)
      ensures Shrunk(disk, start) && old(crashes) <= crashes
      ensures forall d :: d in crashes - old(crashes) ==> Undoing(d, start, published, SetOf(evictions), Lost(faults, undo))
      ensures disk.Keys <= start.Keys + {quarantine}
    {
      undo := Undo(calls, evictions[..moved], true);
      var lost, withdrawn := RollbackEviction(published, quarantine, evictions[..moved], start);
      forall d | Undoing(d, start, published, SetOf(evictions[..moved]), lost)
        ensures Undoing(d, start, published, SetOf(evictions), lost)
      {
        UndoingMore(d, start, published, SetOf(evictions[..moved]), SetOf(evictions), lost);
      }
    }

    /** Deleting the quarantine of a complete eviction; a failure is ignored. */
    method DiscardQuarantine(quarantine: string, ghost evictions: seq<string>, ghost start: Disk)
      requires IsTxn(quarantine) && quarantine in disk && Evicting(disk, start, evictions)
      modifies this`disk, this`crashes, this`calls
      ensures Batches(disk) == Batches(old(disk)) && Shrunk(disk, start) && old(crashes) <= crashes
      ensures disk.Keys <= old(disk).Keys
      ensures forall d :: d in crashes - old(crashes) ==> Evicting(d, start, evictions)
    {
      var _ := RemoveDirAll(quarantine);
      forall d | AgreeOff(d, old(disk), quarantine) ensures Evicting(d, start, evictions) && Batches(d) == Batches(old(disk)) {
        UnaffectedEvicting(d, old(disk), quarantine, start, evictions);
      }
      assert AgreeOff(disk, old(disk), quarantine) by {
        assert disk - {quarantine} == old(disk) - {quarantine};
      }
      AgreeElsewhere(disk, old(disk), quarantine);
    }

    /** Deleting the new batch when the quarantine could not even be created. */
    method WithdrawAtOnce(published: string, ghost evictions: set<string>, ghost undo: Undo)
      requires published in disk && IsBatch(published) && published !in evictions
      requires (forall n :: n in evictions ==> n in disk) && undo == Undo(calls, [], false)
      modifies this`disk, this`crashes, this`calls
      ensures UndoneTo(disk, old(disk), published, faults, undo)
      ensures Shrunk(disk, old(disk)) && old(crashes) <= crashes
      ensures forall d :: d in crashes - old(crashes) ==> Undoing(d, old(disk), published, evictions, Lost(faults, undo))
      ensures disk.Keys <= old(disk).Keys
    {
      ghost var start := disk;
      assert Undoing(start, start, published, evictions, {}) && Lost(faults, undo) == {};
      var withdrawn := WithdrawLast(published, evictions, {}, start, Entries(start[published]));
      assert Batches(start) - {} == Batches(start);
    }

    /** Publishing a batch and evicting others, from a directory that a scan has just cleaned. */
    method Replace(target: string, ids: seq<Digest>, payloads: seq<Bytes>, evictions: seq<string>, staging: string, quarantine: string,
                   ghost now: nat, ghost folder: Folder, ghost published: nat, ghost last: nat)
      returns (ok: bool, ghost forward: iset<Disk>, ghost undo: Undo)
      requires IsTxn(staging) && IsTxn(quarantine) && |ids| == |payloads| && folder == Folder(FilesOf(ids, payloads), map[])
      requires forall n :: n in disk ==> LiveAt(n, now)
      requires LiveAt(target, now) && target !in disk
      requires Distinct(evictions) && forall n :: n in evictions ==> n in disk
      requires published == calls + PublishCalls(|ids|) && last == published + EvictCalls(|evictions|)
      modifies this`disk, this`crashes, this`calls
      ensures ok <==> Distinct(ids) && NoFault(faults, old(calls), last)
      ensures ok ==> forward == crashes && Live(disk, now) == Published(old(disk), SetOf(evictions), target, folder)
      ensures disk.Keys <= old(disk).Keys + {target, staging, quarantine}
      ensures !ok ==> FailedEnd(old(disk), Live(disk, now), target, faults, undo, folder)
      ensures undo.Undo? <==> !ok && Distinct(ids) && NoFault(faults, old(calls), published)
      ensures undo.Undo? ==> UndoesFrom(faults, old(calls), published, evictions, undo)
      ensures Shrunk(disk, old(disk)[target := folder]) && old(crashes) <= forward <= crashes
      ensures forall d :: d in forward - old(crashes) ==> PutState(d, old(disk), now, evictions, target, folder)
      ensures forall d :: d in crashes - forward ==>
                Undoing(d, old(disk)[target := folder], target, SetOf(evictions), Lost(faults, undo))
    {
      hide AgreeOff, Evicting, PutState, Undoing, FailedEnd, Shrunk, Undoes, UndoesFrom, NoFault, Distinct, PublishCalls, EvictCalls;
      ghost var live, began := disk, calls;
      NoTransactions(live, now, staging);
      NoTransactions(live, now, quarantine);
      BatchIsNotTxn(target);
      NoFaultSplit(faults, began, published, last);
      ok := Publish(staging, target, ids, payloads, published);
      forward, undo := crashes, Unneeded;
      PublishStates(live, staging, now, evictions, target, folder, faults);
      if ok {
        ghost var seen := crashes;
        ok, forward, undo := EvictReplaced(target, evictions, quarantine, now, live, folder, last);
        assert forall d :: d in forward - old(crashes) ==> d in seen - old(crashes) || d in forward - seen;
        if undo.Undo? {
          UndoesFromStart(faults, began, published, evictions, undo);
        }
      }
    }

    /** The evictions of a published batch, and what is served afterwards. */
    method EvictReplaced(target: string, evictions: seq<string>, quarantine: string, ghost now: nat, ghost live: Disk, ghost folder: Folder,
                         ghost last: nat)
      returns (ok: bool, ghost forward: iset<Disk>, ghost undo: Undo)
      requires IsTxn(quarantine) && quarantine !in live && disk == live[target := folder]
      requires forall n :: n in live ==> LiveAt(n, now)
      requires LiveAt(target, now) && target !in live
      requires Distinct(evictions) && (forall n :: n in evictions ==> n in live) && last == calls + EvictCalls(|evictions|)
      modifies this`disk, this`crashes, this`calls
      ensures ok <==> NoFault(faults, old(calls), last)
      ensures ok <==> undo == Unneeded
      ensures ok ==> forward == crashes && Live(disk, now) == Published(live, SetOf(evictions), target, folder)
      ensures disk.Keys <= live.Keys + {target, quarantine}
      ensures !ok ==> FailedEnd(live, Live(disk, now), target, faults, undo, folder)
      ensures !ok ==> Undoes(faults, old(calls), evictions, undo)
      ensures Shrunk(disk, live[target := folder]) && old(crashes) <= forward <= crashes
      ensures forall d :: d in forward - old(crashes) ==> Evicting(d, live[target := folder], evictions)
      ensures forall d :: d in crashes - forward ==>
                Undoing(d, live[target := folder], target, SetOf(evictions), Lost(faults, undo))
    {
      BatchIsNotTxn(target);
      ok, forward, undo := EvictAfterPublish(target, quarantine, evictions, last);
      BatchesOfLive(live[target := folder], now);
      if ok {
        EvictedEnd(disk, live, now, evictions, target, folder);
      } else {
        UndoneEnd(disk, live, now, target, folder, faults, undo);
      }
    }

    method ReadRegularBounded(dir: string, name: string) returns (r: Result<Bytes, StoreError>)
      requires dir in disk
      modifies this`calls
      ensures r == if faults(old(calls)) then Err(Unavailable) else Reads(disk[dir], name)
      ensures calls == old(calls) + 1
    {
      var failed := Fault();
      if failed {
        return Err(Unavailable);
      }
      if name in disk[dir].held {
        return Err(Corrupt);
      }
      if name !in disk[dir].files {
        return Err(NotFound);
      }
      var bytes := disk[dir].files[name];
      if bytes == [] || |bytes| > MAX_ITEM_BYTES {
        return Err(Corrupt);
      }
      return Ok(bytes);
    }

    /** A batch that exists already must hold exactly the payloads. */
    method CheckPresent(target: string, ids: seq<Digest>, payloads: seq<Bytes>) returns (r: Result<seq<Digest>, StoreError>)
      requires target in disk && |ids| == |payloads|
      modifies this`calls
      ensures r.Ok? <==> HoldsAll(disk[target], ids, payloads) && NoFault(faults, old(calls), old(calls) + |payloads|)
      ensures r.Ok? ==> r.value == ids
    {
      for i := 0 to |ids|
        invariant calls == old(calls) + i && NoFault(faults, old(calls), calls)
        invariant forall j :: 0 <= j < i ==> Reads(disk[target], ids[j]) == Ok(payloads[j])
      {
        OneMore(faults, old(calls), calls, calls + 1);
        var stored := ReadRegularBounded(target, ids[i]);
        if stored.Err? {
          return Err(stored.error);
        }
        if stored.value != payloads[i] {
          return Err(Corrupt);
        }
      }
      return Ok(ids);
    }

    /** Scanning, planning the evictions and replacing, for a batch that does not exist yet. */
    method PutNew(payloads: seq<Bytes>, ids: seq<Digest>, bytes: nat, target: string, now: nat, staging: string, quarantine: string)
      returns (r: Result<seq<Digest>, StoreError>, ghost run: PutRun)
      requires Admissible(payloads) && ids == IdsOf(sha, payloads) && bytes == SumLengths(payloads)
      requires IsTxn(staging) && IsTxn(quarantine) && LiveAt(target, now) && target !in disk
      requires target == TargetOf(sha, payloads, now)
      modifies this`disk, this`crashes, this`calls
      ensures r.Ok? ==> r.value == ids
      ensures disk.Keys <= old(disk).Keys + {target, staging, quarantine}
      ensures run.Attempted?
      ensures Attempt(PutOf(sha, payloads, now, faults, old(calls), r), old(disk), disk, crashes - old(crashes), run)
      ensures r.Err? && r.error != Unavailable ==> |old(disk)| >= 128 || Unlistable(old(disk), now)
      ensures Obliged(PutOf(sha, payloads, now, faults, old(calls), r), old(disk), run)
    {
      hide Attempt, Obliged, ObligedAfter, Ends, Passes, NoFault, Unlistable, EndsScan, Lists, Admissible, IdsOf, TargetOf;
      ghost var start, began := disk, calls;
      var scan := BatchesUnlocked(now);
      ghost var live, scanned, seen := disk, calls, crashes;
      if scan.Err? {
        if scan.error != Unavailable {
          EndedIsUnlistable(start, now, scan.error);
        }
        r, run := Err(scan.error), Attempted([], [], crashes, Unneeded);
        ScanFailed(PutOf(sha, payloads, now, faults, began, r), start, disk, crashes - old(crashes), run, now, began, calls);
      } else {
        r, run := PutScanned(payloads, ids, bytes, target, now, scan.value, staging, quarantine, began);
        AttemptAfterScan(PutOf(sha, payloads, now, faults, began, r), start, live, disk, Live(disk, now), seen - old(crashes),
                         crashes - seen, crashes - old(crashes), run, now, began, scanned);
      }
    }

    /** Planning the evictions and replacing, once a scan has left only live batches. */
    method PutScanned(payloads: seq<Bytes>, ids: seq<Digest>, bytes: nat, target: string, now: nat, batches: seq<Batch>,
                      staging: string, quarantine: string, ghost began: nat)
      returns (r: Result<seq<Digest>, StoreError>, ghost run: PutRun)
      requires Admissible(payloads) && ids == IdsOf(sha, payloads) && bytes == SumLengths(payloads)
      requires IsTxn(staging) && IsTxn(quarantine) && LiveAt(target, now) && target !in disk
      requires target == TargetOf(sha, payloads, now)
      requires (forall n :: n in disk ==> LiveAt(n, now)) && Lists(batches, disk) && Sorted(BatchLeq, batches)
      requires began <= calls && NoFault(faults, began, calls)
      modifies this`disk, this`crashes, this`calls
      ensures r.Ok? ==> r.value == ids
      ensures disk.Keys <= old(disk).Keys + {target, staging, quarantine}
      ensures r.Err? ==> r.error == Unavailable
      ensures run.Attempted? && old(crashes) <= run.forward && old(crashes) <= crashes
      ensures var put := PutOf(sha, payloads, now, faults, began, r);
              && Ends(put, old(disk), Live(disk, now), run, old(calls))
              && Passes(put, old(disk), disk, crashes - old(crashes), run)
              && ObligedAfter(put, old(disk), run, old(calls))
    {
      hide Ends, Passes, ObligedAfter, Undoing, PutState, UndoesFrom, FailedEnd, Shrunk, NoFault, IdsOf, TargetOf, PublishCalls, EvictCalls;
      var evictions := PlanEvictions(batches, |ids|, bytes);
      ghost var live, folder, scanned, published := disk, FolderOf(sha, payloads), calls, calls + PublishCalls(|ids|);
      ghost var last := published + EvictCalls(|evictions|);
      ListedNames(batches, live, |evictions|);
      var ok;
      ghost var forward, undo;
      ok, forward, undo := Replace(target, ids, payloads, evictions, staging, quarantine, now, folder, published, last);
      r := if ok then Ok(ids) else Err(Unavailable);
      run := Attempted(batches, evictions, forward, undo);
      AttemptOf(PutOf(sha, payloads, now, faults, began, r), live, disk, Live(disk, now), old(crashes), crashes, run, now, scanned,
                published, last, folder);
    }

    /**
     `put_batch`, with the names its process and clock give to its transaction directories.
     A put is refused, finds its batch present, or attempts a publication. An attempt ends as
     `Attempt` says, whatever fails, and has to succeed when `Obliged` says so.
     */
    method PutBatch(payloads: seq<Bytes>, now: nat, staging: string, quarantine: string)
      returns (r: Result<seq<Digest>, StoreError>, ghost run: PutRun)
      requires now <= U64_MAX && IsTxn(staging) && IsTxn(quarantine)
      modifies this`disk, this`crashes, this`calls
      ensures r.Ok? ==> r.value == IdsOf(sha, payloads)
      ensures disk.Keys <= old(disk).Keys + {TargetOf(sha, payloads, now), staging, quarantine}
      ensures run.Refused? <==> !Admissible(payloads)
      ensures run.Present? <==> Admissible(payloads) && TargetOf(sha, payloads, now) in old(disk)
      ensures !run.Attempted? ==> disk == old(disk) && crashes == old(crashes)
      ensures run.Refused? ==> r == Err(Refusal(payloads))
      ensures run.Present? ==>
                (r.Ok? <==> && HoldsAll(disk[TargetOf(sha, payloads, now)], IdsOf(sha, payloads), payloads)
                            && NoFault(faults, old(calls), old(calls) + |payloads|))
      ensures run.Attempted? ==> Attempt(PutOf(sha, payloads, now, faults, old(calls), r), old(disk), disk, crashes - old(crashes), run)
      ensures run.Attempted? ==> Obliged(PutOf(sha, payloads, now, faults, old(calls), r), old(disk), run)
      ensures run.Attempted? && old(Valid()) && |old(disk)| < 128 && r.Err? ==> r.error == Unavailable
      ensures old(Valid()) ==> Valid() && forall d :: d in crashes - old(crashes) ==> WellFormed(sha, d)
    {
      hide Attempt, Obliged, WellFormed, HoldsAll, NoFault, Admissible, Refusal;
      var admitted := Admit(payloads);
      if admitted.Err? {
        return Err(admitted.error), Refused;
      }
      var ids, bytes := admitted.value.0, admitted.value.1;
      assert ids == IdsOf(sha, payloads);
      var target := TargetOf(sha, payloads, now);
      if target in disk {
        r := CheckPresent(target, ids, payloads);
        run := Present;
        return;
      }
      TargetIsLive(sha, payloads, now);
      ValidIsListable(sha, disk, now);
      r, run := PutNew(payloads, ids, bytes, target, now, staging, quarantine);
      PutKeepsWellFormed(sha, PutOf(sha, payloads, now, faults, old(calls), r), old(disk), disk, crashes - old(crashes), run);
    }

    /**
     `get`: the newest live batch that holds the id answers. Over a valid store it answers
     exactly when some live batch holds the id, unless one of its calls fails.
     */
    method Get(id: Digest, now: nat) returns (r: Result<Bytes, StoreError>)
      modifies this`disk, this`crashes, this`calls
      ensures r.Ok? ==> sha(r.value) == id && Newest(Live(old(disk), now), id, r.value)
      ensures r == Err(NotFound) ==> forall n :: n in Live(old(disk), now) ==> id !in Live(old(disk), now)[n].files
      ensures Discarding(disk, old(disk), now)
      ensures forall d :: d in crashes - old(crashes) ==> Discarding(d, old(disk), now)
      ensures old(Valid()) ==> Valid()
      ensures r == Err(Unavailable) <==> !NoFault(faults, old(calls), calls)
      ensures old(Valid()) && |old(disk)| < 128 && r.Err? ==> r.error == Unavailable || r.error == NotFound
      ensures r.Ok? || r == Err(NotFound) ==> OnlyCurrent(disk, now)
      ensures OnlyExpired(old(disk), id, now) ==>
                r.Err? && (old(Valid()) && |old(disk)| < 128 && NoFault(faults, old(calls), calls) ==> r == Err(NotFound))
    {
      hide Discarding, Lists, Sorted, Newest, Shrunk, NoFault, ScanCalls, WellFormed, Unlistable, EndsScan, OnlyCurrent, OnlyExpired;
      ValidIsListable(sha, disk, now);
      ExpiredIsNotServed(disk, id, now);
      ghost var start := disk;
      var scan := BatchesUnlocked(now);
      forall d | Discarding(d, start, now) && WellFormed(sha, start) ensures WellFormed(sha, d) {
        DiscardingIsWellFormed(sha, d, start, now);
      }
      if scan.Err? {
        if scan.error != Unavailable {
          EndedIsUnlistable(start, now, scan.error);
        }
        return Err(scan.error);
      }
      ghost var scanned := calls;
      r := Search(scan.value, id);
      NoFaultSplit(faults, old(calls), scanned, calls);
    }

    method Search(batches: seq<Batch>, id: Digest) returns (r: Result<Bytes, StoreError>)
      requires Lists(batches, disk) && Sorted(BatchLeq, batches)
      modifies this`calls
      ensures r.Ok? ==> sha(r.value) == id && Newest(disk, id, r.value)
      ensures r == Err(NotFound) ==> forall n :: n in disk ==> id !in disk[n].files
      ensures r == Err(Unavailable) <==> !NoFault(faults, old(calls), calls)
      ensures old(calls) <= calls && (WellFormed(sha, disk) && r.Err? ==> r.error == NotFound || r.error == Unavailable)
    {
      hide Newest, Sorted, Lists, NoFault, NoneFrom, WellFormed;
      NoneYet(faults, calls);
      var i := |batches|;
      NoneLeft(batches, disk, id);
      while i > 0
        invariant 0 <= i <= |batches|
        invariant old(calls) <= calls && NoFault(faults, old(calls), calls)
        invariant NoneFrom(batches, disk, i, id)
      {
        i := i - 1;
        ListedReads(sha, batches, disk, i, id);
        OneMore(faults, old(calls), calls, calls + 1);
        var bytes := ReadRegularBounded(batches[i].name, id);
        if bytes.Ok? {
          if sha(bytes.value) != id {
            return Err(Corrupt);
          }
          NewestAt(batches, disk, i, id);
          return Ok(bytes.value);
        }
        if bytes.error != NotFound {
          return Err(bytes.error);
        }
        NoneFromNext(batches, disk, i, id);
      }
      NoneAtAll(batches, disk, id);
      return Err(NotFound);
    }
  }

  /**
   What a caller of the store relies on: a result that was put is found, byte for byte, until
   it expires. Over a store that is neither broken nor crowded, a put of different results
   that are not there yet succeeds, and so does the get, unless the system fails a call.
   */
  method PutThenGet(store: FilesystemResultStore, payloads: seq<Bytes>, i: nat, now: nat, later: nat, staging: string, quarantine: string)
    returns (put: Result<seq<Digest>, StoreError>, got: Result<Bytes, StoreError>)
    requires store.Valid() && now <= later < now + 86_400 && later <= U64_MAX && i < |payloads|
    requires IsTxn(staging) && IsTxn(quarantine)
    requires forall b :: store.sha(b) == store.sha(payloads[i]) ==> b == payloads[i]
    modifies store`disk, store`crashes, store`calls
    ensures store.Valid()
    ensures put.Ok? && got.Ok? ==> got.value == payloads[i]
    ensures put.Ok? ==> got != Err(NotFound)
    ensures && (forall k :: !store.faults(k)) && |old(store.disk)| + 3 < 128
            && Admissible(payloads) && Distinct(IdsOf(store.sha, payloads)) && TargetOf(store.sha, payloads, now) !in old(store.disk)
            ==> put.Ok? && got == Ok(payloads[i])
  {
    hide WellFormed, Obliged, Attempt, Distinct, IdsOf, TargetOf;
    ghost var run;
    ghost var target := TargetOf(store.sha, payloads, now);
    put, run := store.PutBatch(payloads, now, staging, quarantine);
    NothingFails(PutOf(store.sha, payloads, now, store.faults, old(store.calls), put), old(store.disk), run);
    FewNames(store.disk, old(store.disk), target, staging, quarantine);
    if put.Err? {
      return put, Err(put.error);
    }
    TargetIsLive(store.sha, payloads, now);
    if run.Attempted? {
      StoredByPut(store.sha, PutOf(store.sha, payloads, now, store.faults, old(store.calls), put), old(store.disk), store.disk,
                  store.crashes - old(store.crashes), run, i);
    }
    assert put.value[i] == store.sha(payloads[i]);
    assert target in Live(store.disk, later) && put.value[i] in Live(store.disk, later)[target].files;
    got := store.Get(put.value[i], later);
  }

  /**
   Different results that are put at one tick do not stand in each other's way: as long as the
   digests of their digests differ, both puts are published when no call fails.
   */
  method PutTwice(store: FilesystemResultStore, first: seq<Bytes>, second: seq<Bytes>, ghost x: Bytes, ghost y: Bytes, now: nat,
                  staging: string, quarantine: string, staging': string, quarantine': string)
    returns (put: Result<seq<Digest>, StoreError>, put': Result<seq<Digest>, StoreError>)
    requires store.Valid() && now <= U64_MAX && |store.disk| + 6 < 128
    requires IsTxn(staging) && IsTxn(quarantine) && IsTxn(staging') && IsTxn(quarantine')
    requires Admissible(first) && Admissible(second) && Distinct(IdsOf(store.sha, first)) && Distinct(IdsOf(store.sha, second))
    requires Spells(x, store.sha, first) && Spells(y, store.sha, second) && store.sha(x) != store.sha(y)
    requires BatchName(now, store.sha(x)) !in store.disk && BatchName(now, store.sha(y)) !in store.disk
    requires forall k :: !store.faults(k)
    modifies store`disk, store`crashes, store`calls
    ensures put.Ok? && put'.Ok? && store.Valid()
    ensures var target := BatchName(now, store.sha(y));
            forall i :: 0 <= i < |second| ==>
              && target in store.disk && store.sha(second[i]) in store.disk[target].files
              && store.disk[target].files[store.sha(second[i])] == second[i]
  {
    hide WellFormed, Obliged, Attempt, Distinct, IdsOf, Spells, Admissible;
    TargetExactly(store.sha, first, now, x);
    TargetExactly(store.sha, second, now, y);
    TargetsDiffer(store.sha, first, second, now, x, y);
    ghost var target, target' := TargetOf(store.sha, first, now), TargetOf(store.sha, second, now);
    TargetIsLive(store.sha, second, now);
    BatchIsNotTxn(target');
    ghost var run, run';
    put, run := store.PutBatch(first, now, staging, quarantine);
    NothingFails(PutOf(store.sha, first, now, store.faults, old(store.calls), put), old(store.disk), run);
    FewNames(store.disk, old(store.disk), target, staging, quarantine);
    ghost var mid, began, seen := store.disk, store.calls, store.crashes;
    assert target' !in mid;
    put', run' := store.PutBatch(second, now, staging', quarantine');
    NothingFails(PutOf(store.sha, second, now, store.faults, began, put'), mid, run');
    forall i | 0 <= i < |second|
      ensures target' in store.disk && store.sha(second[i]) in store.disk[target'].files
      ensures store.disk[target'].files[store.sha(second[i])] == second[i]
    {
      StoredByPut(store.sha, PutOf(store.sha, second, now, store.faults, began, put'), mid, store.disk, store.crashes - seen, run', i);
    }
  }
}
