/** The result store's directory shared by several processes, each of which may crash between any two calls. */
module SharedStore {
  // An operation is one `Step` of the store: the states of the directory that its calls lead
  // through, from the state in which it takes the lock to its end. A crash releases the lock
  // and leaves the directory as it is; the next operation finds it like that.

  import opened Common
  import opened ResultFiles
  import opened ResultStates

  datatype Process = Idle | Working(start: Disk, op: Step) | Dead

  datatype State = State(holder: Option<nat>, processes: seq<Process>, disk: Disk)

  datatype Action = Acquire(p: nat, op: Step) | Call(p: nat, disk: Disk) | Finish(p: nat) | Crash(p: nat)

  ghost predicate Init(s: State) {
    s.holder.None? && forall p :: 0 <= p < |s.processes| ==> s.processes[p] == Idle
  }

  /** The operation can begin in `start`. */
  ghost predicate Begins(start: Disk, op: Step) {
    op.Put? ==>
      && op.run.Attempted? && op.put.target !in start
      && Attempt(op.put, start, op.end, op.crashed, op.run) && Obliged(op.put, start, op.run)
  }

  /** The operation's calls lead through `d`. */
  ghost predicate Reaches(start: Disk, d: Disk, op: Step) {
    match op
    case Scan(now) => Discarding(d, start, now)
    case Put(_, _, _, crashed) => d in crashed
  }

  function Set(s: State, p: nat, process: Process): State
    requires p < |s.processes|
  {
    s.(processes := s.processes[p := process])
  }

  function EndOf(op: Step, disk: Disk): Disk { if op.Put? then op.end else disk }

  /** The state after an action, when it can be taken. */
  ghost function Next(s: State, action: Action): Option<State> {
    if action.p >= |s.processes| then None
    else
      var p, now := action.p, s.processes[action.p];
      match action
      case Acquire(_, op) =>
        if now == Idle && s.holder.None? && Begins(s.disk, op) then Some(Set(s, p, Working(s.disk, op)).(holder := Some(p))) else None
      case Call(_, disk) =>
        if now.Working? && Reaches(now.start, disk, now.op) then Some(s.(disk := disk)) else None
      case Finish(_) =>
        if now.Working? then Some(Set(s, p, Idle).(holder := None, disk := EndOf(now.op, s.disk))) else None
      case Crash(_) =>
        if now != Dead then Some(Set(s, p, Dead).(holder := if now.Working? then None else s.holder)) else None
  }

  ghost predicate Run(states: seq<State>, actions: seq<Action>) {
    && |states| == |actions| + 1 && Init(states[0])
    && forall i :: 0 <= i < |actions| ==> Next(states[i], actions[i]) == Some(states[i + 1])
  }

  /** Only the process that holds the lock works, on an operation that could begin when it took it. */
  ghost predicate Invariant(s: State) {
    forall p :: 0 <= p < |s.processes| ==>
      && (s.processes[p].Working? <==> s.holder == Some(p))
      && (s.processes[p].Working? ==> Begins(s.processes[p].start, s.processes[p].op))
  }

  lemma StepInvariant(s: State, action: Action, t: State)
    requires Invariant(s) && Next(s, action) == Some(t)
    ensures Invariant(t)
    ensures s.holder.Some? && s.holder != Some(action.p) ==> t.disk == s.disk
  {
    hide Begins, Reaches;
  }

  /** The batch `name` is there with its contents, now and where the working operation began. */
  ghost predicate Kept(s: State, later: nat, name: string, folder: Folder) {
    && Served(s.disk, later, name, folder)
    && forall p :: 0 <= p < |s.processes| && s.processes[p].Working? ==> Served(s.processes[p].start, later, name, folder)
  }

  ghost predicate Served(d: Disk, later: nat, name: string, folder: Folder) {
    name in Live(d, later) && d[name] == folder
  }

  /** With this action, a put has evicted `name` for a batch that is now complete. */
  ghost predicate EvictsBy(s: State, t: State, name: string) {
    exists p :: 0 <= p < |s.processes| && s.processes[p].Working? && Evicts(s.processes[p].start, t.disk, s.processes[p].op, name)
  }

  /**
   The acting process works on an operation no later than `later`, and what its call leaves is
   not the doing of a put that fails without being undone.
   */
  ghost predicate Harmless(s: State, action: Action, t: State, later: nat) {
    action.p < |s.processes| && s.processes[action.p].Working? ==>
      && TimeOf(s.processes[action.p].op) <= later
      && (action.Call? || action.Finish? ==> Restored(t.disk, s.processes[action.p].op))
  }

  lemma StepKeeps(s: State, action: Action, t: State, later: nat, name: string, folder: Folder)
    requires Invariant(s) && Next(s, action) == Some(t) && Harmless(s, action, t, later) && Kept(s, later, name, folder)
    ensures Kept(t, later, name, folder) || EvictsBy(s, t, name)
  {
    hide Begins, Reaches, Served, Restored, Evicts;
    var p, now := action.p, s.processes[action.p];
    if now.Working? && (action.Call? || (action.Finish? && now.op.Put?)) {
      OperationKeeps(now.start, t.disk, now.op, later, name, folder);
    }
  }

  lemma OperationKeeps(start: Disk, d: Disk, op: Step, later: nat, name: string, folder: Folder)
    requires Begins(start, op) && TimeOf(op) <= later && Restored(d, op) && Served(start, later, name, folder)
    requires Reaches(start, d, op) || (op.Put? && d == op.end)
    ensures Served(d, later, name, folder) || Evicts(start, d, op, name)
  {
    hide Attempt, Obliged, Discarding, Restored, Live;
    KeptByStep(start, d, op, later, name);
  }

  lemma {:induction false} RunInvariant(states: seq<State>, actions: seq<Action>, i: nat)
    requires Run(states, actions) && i < |states|
    ensures Invariant(states[i])
  {
    hide Next, Begins;
    if i > 0 {
      RunInvariant(states, actions, i - 1);
      assert Next(states[i - 1], actions[i - 1]) == Some(states[i]);
      StepInvariant(states[i - 1], actions[i - 1], states[i]);
    }
  }

  /** While one process works, no action of another changes the directory. */
  lemma OnlyHolderChanges(states: seq<State>, actions: seq<Action>, i: nat)
    requires Run(states, actions) && i < |actions| && states[i].holder.Some? && states[i].holder != Some(actions[i].p)
    ensures states[i + 1].disk == states[i].disk
  {
    RunInvariant(states, actions, i);
    assert Next(states[i], actions[i]) == Some(states[i + 1]);
    StepInvariant(states[i], actions[i], states[i + 1]);
  }

  /**
   Over every interleaving of any number of processes, whatever crashes between which calls: if
   every put that fails undoes its publication, a batch that has not expired is in the directory with its
   contents at every moment, or a put has evicted it, as one of the least sufficient oldest
   batches, for a batch that was then complete.
   */
  lemma {:induction false} SharedDurable(states: seq<State>, actions: seq<Action>, later: nat, name: string, folder: Folder, i: nat)
    requires Run(states, actions) && i < |states| && Served(states[0].disk, later, name, folder)
    requires forall k :: 0 <= k < i ==> Harmless(states[k], actions[k], states[k + 1], later)
    ensures Kept(states[i], later, name, folder) || exists k :: 0 <= k < i && EvictsBy(states[k], states[k + 1], name)
  {
    hide Next, Harmless, EvictsBy, Kept, Served, Invariant;
    if i == 0 {
      KeptAtFirst(states[0], later, name, folder);
    } else {
      SharedDurable(states, actions, later, name, folder, i - 1);
      if !(exists k :: 0 <= k < i - 1 && EvictsBy(states[k], states[k + 1], name)) {
        RunInvariant(states, actions, i - 1);
        assert Next(states[i - 1], actions[i - 1]) == Some(states[i]);
        assert Harmless(states[i - 1], actions[i - 1], states[i], later);
        StepKeeps(states[i - 1], actions[i - 1], states[i], later, name, folder);
      }
    }
  }

  lemma KeptAtFirst(s: State, later: nat, name: string, folder: Folder)
    requires Init(s) && Served(s.disk, later, name, folder)
    ensures Kept(s, later, name, folder)
  {
  }
}
