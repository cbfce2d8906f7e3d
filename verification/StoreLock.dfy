/** Several processes over one store directory. */
module StoreLock {
  // The file lock, the sweep of left-over transaction directories that every operation starts
  // with, and crashes, which release the lock and leave the transaction directory behind.

  import opened Common

  datatype Process = Idle | Sweeping | Ready | Owning(txn: string) | Dead

  /** `txns` are the transaction directories that exist. */
  datatype State = State(holder: Option<nat>, processes: seq<Process>, txns: set<string>)

  ghost predicate Init(s: State) {
    s.holder.None? && forall p :: 0 <= p < |s.processes| ==> s.processes[p] == Idle
  }

  datatype Step =
    | Acquire(p: nat) | Sweep(p: nat, txn: string) | SweepDone(p: nat)
    | Begin(p: nat, txn: string) | End(p: nat) | Release(p: nat) | Crash(p: nat)

  function Set(s: State, p: nat, process: Process): State
    requires p < |s.processes|
  {
    s.(processes := s.processes[p := process])
  }

  function Next(s: State, step: Step): Option<State> {
    if step.p >= |s.processes| then None
    else
      var p, now := step.p, s.processes[step.p];
      match step
      case Acquire(_) =>
        if now == Idle && s.holder.None? then Some(Set(s, p, Sweeping).(holder := Some(p))) else None
      case Sweep(_, txn) =>
        if now == Sweeping && txn in s.txns then Some(s.(txns := s.txns - {txn})) else None
      case SweepDone(_) =>
        if now == Sweeping && s.txns == {} then Some(Set(s, p, Ready)) else None
      case Begin(_, txn) =>
        if now == Ready && txn !in s.txns then Some(Set(s, p, Owning(txn)).(txns := s.txns + {txn})) else None
      case End(_) =>
        if now.Owning? then Some(Set(s, p, Ready).(txns := s.txns - {now.txn})) else None
      case Release(_) =>
        if Holds(now) then Some(Set(s, p, Idle).(holder := None)) else None
      case Crash(_) =>
        if now != Dead then Some(Set(s, p, Dead).(holder := if Holds(now) then None else s.holder)) else None
  }

  predicate Holds(process: Process) { process.Sweeping? || process.Ready? || process.Owning? }

  ghost predicate Invariant(s: State) {
    && (s.holder.Some? ==> s.holder.value < |s.processes|)
    && (forall p :: 0 <= p < |s.processes| ==> (Holds(s.processes[p]) <==> s.holder == Some(p)))
    && (forall p :: 0 <= p < |s.processes| ==>
          match s.processes[p] { case Ready => s.txns == {} case Owning(txn) => s.txns == {txn} case _ => true })
  }

  lemma StepInvariant(s: State, step: Step)
    requires Invariant(s) && Next(s, step).Some?
    ensures Invariant(Next(s, step).value)
  {
    assert s.processes[step.p].Owning? ==> s.txns == {s.processes[step.p].txn};
  }

  ghost predicate Run(states: seq<State>, steps: seq<Step>) {
    && |states| == |steps| + 1 && Init(states[0])
    && forall i :: 0 <= i < |steps| ==> Next(states[i], steps[i]) == Some(states[i + 1])
  }

  lemma {:induction false} RunInvariant(states: seq<State>, steps: seq<Step>, i: nat)
    requires Run(states, steps) && i < |states|
    ensures Invariant(states[i])
  {
    if i > 0 {
      RunInvariant(states, steps, i - 1);
      assert Next(states[i - 1], steps[i - 1]) == Some(states[i]);
      StepInvariant(states[i - 1], steps[i - 1]);
    }
  }

  /**
   In every run, with any number of processes and crashes: no sweep ever removes the
   transaction directory of a process that is still working on it, and only one works at a time.
   */
  lemma LiveTransactionSurvives(states: seq<State>, steps: seq<Step>, i: nat, p: nat)
    requires Run(states, steps) && i < |states| && p < |states[i].processes| && states[i].processes[p].Owning?
    ensures states[i].txns == {states[i].processes[p].txn}
    ensures forall q :: 0 <= q < |states[i].processes| && q != p ==> !Holds(states[i].processes[q])
    ensures i < |steps| && steps[i].p != p ==> states[i + 1].processes[p] == states[i].processes[p] && states[i + 1].txns == states[i].txns
  {
    RunInvariant(states, steps, i);
  }

  /** The steps lead from one state to another, and none of them is a crash. */
  ghost predicate Leads(s: State, steps: seq<Step>, t: State)
    decreases |steps|
  {
    if steps == [] then s == t
    else !steps[0].Crash? && Next(s, steps[0]).Some? && Leads(Next(s, steps[0]).value, steps[1..], t)
  }

  lemma LeadsOn(s: State, step: Step, rest: seq<Step>, t: State)
    requires !step.Crash? && Next(s, step).Some? && Leads(Next(s, step).value, rest, t)
    ensures Leads(s, [step] + rest, t)
  {
    assert ([step] + rest)[1..] == rest;
  }

  lemma {:induction false} SweepsAll(s: State, p: nat) returns (steps: seq<Step>)
    requires p < |s.processes| && s.processes[p] == Sweeping
    ensures Leads(s, steps, Set(s, p, Ready).(txns := {}))
    decreases s.txns
  {
    if txn :| txn in s.txns {
      var rest := SweepsAll(s.(txns := s.txns - {txn}), p);
      steps := [Sweep(p, txn)] + rest;
      LeadsOn(s, Sweep(p, txn), rest, Set(s, p, Ready).(txns := {}));
    } else {
      steps := [SweepDone(p)];
      LeadsOn(s, SweepDone(p), [], Set(s, p, Ready).(txns := {}));
    }
  }

  lemma AcquiresThenSweeps(s: State, p: nat) returns (steps: seq<Step>, t: State)
    requires p < |s.processes| && s.processes[p] == Idle && s.holder.None?
    ensures Leads(s, steps, t) && p < |t.processes| && t.processes[p] == Ready && t.txns == {}
  {
    var acquired := Set(s, p, Sweeping).(holder := Some(p));
    var rest := SweepsAll(acquired, p);
    t := Set(acquired, p, Ready).(txns := {});
    steps := [Acquire(p)] + rest;
    LeadsOn(s, Acquire(p), rest, t);
  }

  /** No process waits for ever: in every run, an idle one can still get the lock and a directory without transactions. */
  lemma CanBecomeReady(states: seq<State>, steps: seq<Step>, p: nat) returns (more: seq<Step>, t: State)
    requires Run(states, steps) && p < |states[|steps|].processes| && states[|steps|].processes[p] == Idle
    ensures Leads(states[|steps|], more, t) && p < |t.processes| && t.processes[p] == Ready && t.txns == {}
  {
    var s := states[|steps|];
    RunInvariant(states, steps, |steps|);
    if s.holder.Some? {
      var q := s.holder.value;
      var released := Set(s, q, Idle).(holder := None);
      var rest;
      rest, t := AcquiresThenSweeps(released, p);
      more := [Release(q)] + rest;
      LeadsOn(s, Release(q), rest, t);
    } else {
      more, t := AcquiresThenSweeps(s, p);
    }
  }
}
