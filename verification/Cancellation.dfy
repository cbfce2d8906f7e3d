/** The protocol by which a cancel and a publication exclude each other. */
module Cancellation {
  // A state machine whose steps are the single accesses to the two flags and the mutex. Any
  // number of threads call `cancel`, each any number of times; one worker calls `put_batch`
  // any number of times, in any number of invocations of the agent runtime.

  import opened Common

  /** What a receipt reports. */
  datatype Outcome = Completed | Cancelled | OtherFailure

  /** A thread inside `cancel`. */
  datatype CancelPc = Outside | Locked | Read(published: bool) | Stored | Returned

  /** The worker inside its invoke loop and inside the guarded `put_batch`. */
  datatype WorkerPc =
    | Invoking
    | PutLocked
    | PutAllowed
    | PutStored(ok: bool)
    | PutLeaving
    | Invoked(outcome: Outcome)
    | Checked(outcome: Outcome, cancelled: bool)
    | Final(receipt: Outcome, outcome: Outcome, cancelled: bool)

  datatype Owner = Nobody | Canceller(index: nat) | Worker

  /**
   `accepted` counts the puts of the task that the inner store has accepted, `left` those that
   have left their batch in it: a put may publish its batch, report an error because evicting
   others fails, and fail to remove the batch again.
   */
  datatype State = State(flag: bool, published: bool, owner: Owner, cancellers: seq<CancelPc>, worker: WorkerPc, accepted: nat, left: nat)

  ghost predicate Init(s: State) {
    && !s.flag && !s.published && s.owner == Nobody && s.worker == Invoking && s.accepted == 0 && s.left == 0
    && forall i :: 0 <= i < |s.cancellers| ==> s.cancellers[i] == Outside
  }

  datatype Step =
    | CancelLock(i: nat) | CancelRead(i: nat) | CancelStore(i: nat) | CancelUnlock(i: nat)
    | PutLock | PutCheck | PutInner(ok: bool, left: bool) | PutMark | PutUnlock
    | InvokeReturns(outcome: Outcome) | CheckFlag | Retry | Finish

  function SetCanceller(s: State, i: nat, pc: CancelPc): State
    requires i < |s.cancellers|
  {
    s.(cancellers := s.cancellers[i := pc])
  }

  function Count(b: bool): nat { if b then 1 else 0 }

  /** The state after a step, when the step can be taken. */
  function Next(s: State, step: Step): Option<State> {
    match step
    case CancelLock(i) =>
      if i < |s.cancellers| && (s.cancellers[i] == Outside || s.cancellers[i] == Returned) && s.owner == Nobody
      then Some(SetCanceller(s, i, Locked).(owner := Canceller(i))) else None
    case CancelRead(i) =>
      if i < |s.cancellers| && s.cancellers[i] == Locked then Some(SetCanceller(s, i, Read(s.published))) else None
    case CancelStore(i) =>
      if i < |s.cancellers| && s.cancellers[i].Read?
      then Some(SetCanceller(s, i, Stored).(flag := s.flag || !s.cancellers[i].published)) else None
    case CancelUnlock(i) =>
      if i < |s.cancellers| && s.cancellers[i] == Stored
      then Some(SetCanceller(s, i, Returned).(owner := Nobody)) else None
    case PutLock =>
      if s.worker == Invoking && s.owner == Nobody then Some(s.(worker := PutLocked, owner := Worker)) else None
    case PutCheck =>
      if s.worker == PutLocked then Some(s.(worker := if s.flag then PutLeaving else PutAllowed)) else None
    case PutInner(ok, left) =>
      if s.worker == PutAllowed && (ok ==> left)
      then Some(s.(worker := PutStored(ok), accepted := s.accepted + Count(ok), left := s.left + Count(left))) else None
    case PutMark =>
      if s.worker.PutStored? then Some(s.(worker := PutLeaving, published := s.published || s.worker.ok)) else None
    case PutUnlock =>
      if s.worker == PutLeaving then Some(s.(worker := Invoking, owner := Nobody)) else None
    case InvokeReturns(outcome) =>
      if s.worker == Invoking then Some(s.(worker := Invoked(outcome))) else None
    case CheckFlag =>
      if s.worker.Invoked? then Some(s.(worker := Checked(s.worker.outcome, s.flag))) else None
    case Retry =>
      if s.worker.Checked? && !s.worker.cancelled && s.worker.outcome == OtherFailure
      then Some(s.(worker := Invoking)) else None
    case Finish =>
      if s.worker.Checked?
      then Some(s.(worker := Final(if s.worker.cancelled then Cancelled else s.worker.outcome, s.worker.outcome, s.worker.cancelled)))
      else None
  }

  predicate InCancel(pc: CancelPc) { pc.Locked? || pc.Read? || pc.Stored? }

  predicate InPut(pc: WorkerPc) { pc.PutLocked? || pc.PutAllowed? || pc.PutStored? || pc.PutLeaving? }

  ghost predicate Invariant(s: State) {
    // the mutex is held by exactly the thread inside a critical section
    && (forall i :: 0 <= i < |s.cancellers| ==> (InCancel(s.cancellers[i]) <==> s.owner == Canceller(i)))
    && (InPut(s.worker) <==> s.owner == Worker)
    // what the threads inside have read is still so
    && (forall i :: 0 <= i < |s.cancellers| ==>
          match s.cancellers[i] {
            case Read(p) => p == s.published
            case Stored => s.flag || s.published
            case Returned => s.flag || s.published
            case _ => true
          })
    && (s.worker.PutAllowed? || (s.worker.PutStored?) ==> !s.flag)
    // exclusion
    && !(s.flag && s.published)
    && (s.accepted > 0 ==> s.published || s.worker == PutStored(true))
    && (s.worker == PutStored(true) ==> s.accepted > 0)
    && (s.published ==> s.accepted > 0)
    // what the final check saw
    && (s.worker.Checked? || s.worker.Final? ==> (s.worker.cancelled ==> s.flag))
    && (s.worker.Final? ==> s.worker.receipt == if s.worker.cancelled then Cancelled else s.worker.outcome)
  }

  lemma InitInvariant(s: State)
    requires Init(s)
    ensures Invariant(s)
  {
  }

  lemma StepInvariant(s: State, step: Step)
    requires Invariant(s) && Next(s, step).Some?
    ensures Invariant(Next(s, step).value)
  {
    if IsCancelStep(step) {
      CancelStepInvariant(s, step);
    } else {
      WorkerStepInvariant(s, step);
    }
  }

  predicate IsCancelStep(step: Step) {
    step.CancelLock? || step.CancelRead? || step.CancelStore? || step.CancelUnlock?
  }

  lemma CancelStepInvariant(s: State, step: Step)
    requires Invariant(s) && Next(s, step).Some? && IsCancelStep(step)
    ensures Invariant(Next(s, step).value)
  {
    match step
    case CancelLock(i) =>
    case CancelRead(i) =>
    case CancelStore(i) =>
    case CancelUnlock(i) =>
  }

  lemma WorkerStepInvariant(s: State, step: Step)
    requires Invariant(s) && Next(s, step).Some? && !IsCancelStep(step)
    ensures Invariant(Next(s, step).value)
  {
  }

  /** A run: the states before, between and after a sequence of steps. */
  ghost predicate Run(states: seq<State>, steps: seq<Step>) {
    && |states| == |steps| + 1 && Init(states[0])
    && forall i :: 0 <= i < |steps| ==> Next(states[i], steps[i]) == Some(states[i + 1])
  }

  lemma {:induction false} RunInvariant(states: seq<State>, steps: seq<Step>, i: nat)
    requires Run(states, steps) && i < |states|
    ensures Invariant(states[i])
  {
    if i == 0 {
      InitInvariant(states[0]);
    } else {
      RunInvariant(states, steps, i - 1);
      assert Next(states[i - 1], steps[i - 1]) == Some(states[i]);
      StepInvariant(states[i - 1], steps[i - 1]);
    }
  }

  lemma StepMonotone(s: State, step: Step, t: State)
    requires Invariant(s) && Next(s, step) == Some(t)
    ensures (s.flag ==> t.flag && t.left == s.left) && (s.published ==> t.published)
    ensures s.accepted <= t.accepted && s.left <= t.left && (s.worker.Final? ==> t.worker == s.worker)
    ensures t.left - t.accepted == s.left - s.accepted + Count(step == PutInner(false, true))
  {
    hide Invariant;
    PutIsAllowed(s);
  }

  lemma PutIsAllowed(s: State)
    requires Invariant(s)
    ensures s.worker.PutAllowed? ==> !s.flag
  {
  }

  /** Neither flag is ever taken back, no put is ever forgotten, and a set flag lets no further put leave anything. */
  lemma {:induction false} RunMonotone(states: seq<State>, steps: seq<Step>, i: nat, j: nat)
    requires Run(states, steps) && i <= j < |states|
    ensures states[i].flag ==> states[j].flag
    ensures states[i].published ==> states[j].published
    ensures states[i].accepted <= states[j].accepted && states[i].left <= states[j].left
    ensures states[i].flag ==> states[j].left == states[i].left
    ensures states[i].worker.Final? ==> states[j].worker == states[i].worker
  {
    hide Next, Invariant, Init;
    if i < j {
      RunMonotone(states, steps, i, j - 1);
      RunInvariant(states, steps, j - 1);
      assert Next(states[j - 1], steps[j - 1]) == Some(states[j]);
      StepMonotone(states[j - 1], steps[j - 1], states[j]);
    }
  }

  /**
   Exclusion, over every run: the two flags are never both set; a task whose flag is ever
   set has no put accepted at any time; a task with an accepted put is never cancelled; and a
   `cancel` that has returned has either taken effect or come after an accepted put.
   */
  lemma CancelPublishExclusion(states: seq<State>, steps: seq<Step>, i: nat, j: nat)
    requires Run(states, steps) && i < |states| && j < |states|
    ensures !(states[i].flag && states[j].published)
    ensures states[i].flag ==> states[j].accepted == 0
    ensures states[i].accepted > 0 ==> !states[j].flag
    ensures forall c :: 0 <= c < |states[i].cancellers| && states[i].cancellers[c] == Returned ==>
              states[i].flag || states[i].accepted > 0
  {
    var last := if i < j then j else i;
    RunMonotone(states, steps, i, last);
    RunMonotone(states, steps, j, last);
    RunInvariant(states, steps, last);
    RunInvariant(states, steps, i);
  }

  /** How many puts report an error and leave their batch all the same. */
  function Strays(steps: seq<Step>): nat {
    if steps == [] then 0 else Strays(steps[..|steps| - 1]) + Count(steps[|steps| - 1] == PutInner(false, true))
  }

  lemma {:induction false} StraysExactly(steps: seq<Step>)
    ensures Strays(steps) == 0 <==> forall k :: 0 <= k < |steps| ==> steps[k] != PutInner(false, true)
  {
    if steps != [] {
      StraysExactly(steps[..|steps| - 1]);
    }
  }

  /** Every batch that is left comes from an accepted put or from a stray. */
  lemma {:induction false} LeftCount(states: seq<State>, steps: seq<Step>, i: nat)
    requires Run(states, steps) && i < |states|
    ensures states[i].left == states[i].accepted + Strays(steps[..i])
  {
    hide Next, Invariant;
    if i > 0 {
      LeftCount(states, steps, i - 1);
      RunInvariant(states, steps, i - 1);
      assert Next(states[i - 1], steps[i - 1]) == Some(states[i]);
      StepMonotone(states[i - 1], steps[i - 1], states[i]);
      assert steps[..i][..i - 1] == steps[..i - 1];
    }
  }

  /**
   That a task whose flag is set has left nothing in the store does not follow from the
   exclusion. It holds if and only if none of its puts so far has reported an error and left
   its batch.
   */
  lemma CancelledLeavesNothing(states: seq<State>, steps: seq<Step>, i: nat)
    requires Run(states, steps) && i < |states| && states[i].flag
    ensures states[i].left == 0 <==> forall k :: 0 <= k < i ==> steps[k] != PutInner(false, true)
  {
    CancelPublishExclusion(states, steps, i, i);
    LeftCount(states, steps, i);
    StraysExactly(steps[..i]);
  }

  /**
   A receipt is `Cancelled` exactly when the flag was set at the check that follows the last
   invocation, or the runtime itself reported a cancellation. A flag set at that check means
   that no put has been accepted; a receipt that does not report a cancellation although the
   flag is set comes from a `cancel` after the check.
   */
  lemma ReceiptOutcome(states: seq<State>, steps: seq<Step>, i: nat)
    requires Run(states, steps) && i < |states| && states[i].worker.Final?
    ensures states[i].worker.receipt == Cancelled <==> states[i].worker.cancelled || states[i].worker.outcome == Cancelled
    ensures states[i].worker.cancelled ==> states[i].flag && states[i].accepted == 0
    ensures states[i].accepted > 0 ==> states[i].worker.receipt == states[i].worker.outcome
  {
    RunInvariant(states, steps, i);
  }

  /** What the worker carries with it is the flag at its last check. */
  lemma {:induction false} FinalSawFlag(states: seq<State>, steps: seq<Step>, i: nat) returns (check: nat)
    requires Run(states, steps) && i < |states| && (states[i].worker.Checked? || states[i].worker.Final?)
    ensures check < i && steps[check] == CheckFlag && forall j :: check < j < i ==> steps[j] != CheckFlag
    ensures states[i].worker.cancelled == states[check].flag
  {
    assert i > 0;
    assert Next(states[i - 1], steps[i - 1]) == Some(states[i]);
    if steps[i - 1] == CheckFlag {
      check := i - 1;
    } else {
      check := FinalSawFlag(states, steps, i - 1);
    }
  }

  /**
   Exactly when a receipt reports a cancellation: the flag was set at the last check of the
   run, or the runtime itself reported one.
   */
  lemma ReceiptExactly(states: seq<State>, steps: seq<Step>, i: nat) returns (check: nat)
    requires Run(states, steps) && i < |states| && states[i].worker.Final?
    ensures check < i && steps[check] == CheckFlag && forall j :: check < j < i ==> steps[j] != CheckFlag
    ensures states[i].worker.receipt == Cancelled <==> states[check].flag || states[i].worker.outcome == Cancelled
  {
    check := FinalSawFlag(states, steps, i);
    ReceiptOutcome(states, steps, i);
  }

  /**
   The stronger reading, that a set flag always ends in a `Cancelled` receipt, is false: a
   cancel may come between the check and the return.
   */
  lemma LateCancelIsNotReported() returns (states: seq<State>, steps: seq<Step>)
    ensures Run(states, steps)
    ensures var last := states[|states| - 1];
            last.worker.Final? && last.flag && last.worker.receipt == OtherFailure
  {
    var s0 := State(false, false, Nobody, [Outside], Invoking, 0, 0);
    var s1 := s0.(worker := Invoked(OtherFailure));
    var s2 := s1.(worker := Checked(OtherFailure, false));
    var s3 := s2.(owner := Canceller(0), cancellers := [Locked]);
    var s4 := s3.(cancellers := [Read(false)]);
    var s5 := s4.(cancellers := [Stored], flag := true);
    var s6 := s5.(worker := Final(OtherFailure, OtherFailure, false));
    states := [s0, s1, s2, s3, s4, s5, s6];
    steps := [InvokeReturns(OtherFailure), CheckFlag, CancelLock(0), CancelRead(0), CancelStore(0), Finish];
    assert [Outside][0 := Locked] == [Locked] && [Locked][0 := Read(false)] == [Read(false)] && [Read(false)][0 := Stored] == [Stored];
  }

  /** A run grows by a step that can be taken. */
  lemma RunGrows(states: seq<State>, steps: seq<Step>, step: Step, next: State)
    requires Run(states, steps) && Next(states[|steps|], step) == Some(next)
    ensures Run(states + [next], steps + [step])
  {
    hide Next, Init;
    var longer, taken := states + [next], steps + [step];
    forall i | 0 <= i < |taken| ensures Next(longer[i], taken[i]) == Some(longer[i + 1]) {
      if i < |steps| {
        assert Next(states[i], steps[i]) == Some(states[i + 1]);
      }
    }
  }

  /** Taking steps one after the other. */
  ghost predicate CanTake(s: State, steps: seq<Step>)
    decreases |steps|
  {
    steps == [] || (Next(s, steps[0]).Some? && CanTake(Next(s, steps[0]).value, steps[1..]))
  }

  ghost function Take(s: State, steps: seq<Step>): State
    requires CanTake(s, steps)
    decreases |steps|
  {
    if steps == [] then s else Take(Next(s, steps[0]).value, steps[1..])
  }

  lemma {:induction false} RunTakes(states: seq<State>, steps: seq<Step>, more: seq<Step>) returns (longer: seq<State>)
    requires Run(states, steps) && CanTake(states[|steps|], more)
    ensures Run(longer, steps + more) && longer[|steps + more|] == Take(states[|steps|], more)
    decreases |more|
  {
    hide Next, Init;
    if more == [] {
      longer := states;
      assert steps + more == steps;
    } else {
      var next := Next(states[|steps|], more[0]).value;
      RunGrows(states, steps, more[0], next);
      longer := RunTakes(states + [next], steps + [more[0]], more[1..]);
      assert steps + [more[0]] + more[1..] == steps + more;
    }
  }

  /** The step that brings the thread inside the mutex on, or else the worker. */
  ghost function Onward(s: State): Step {
    match s.owner
    case Canceller(i) =>
      if i < |s.cancellers| && s.cancellers[i] == Locked then CancelRead(i)
      else if i < |s.cancellers| && s.cancellers[i] == Stored then CancelUnlock(i) else CancelStore(i)
    case Worker =>
      if s.worker == PutLocked then PutCheck else if s.worker == PutAllowed then PutInner(true, true)
      else if s.worker == PutLeaving then PutUnlock else PutMark
    case Nobody =>
      if s.worker == Invoking then InvokeReturns(Completed) else if s.worker.Invoked? then CheckFlag else Finish
  }

  /** How many steps the thread inside the mutex and the worker still have to take. */
  ghost function Ahead(s: State): nat {
    var worker := match s.worker
      case Final(_, _, _) => 0
      case Checked(_, _) => 1
      case Invoked(_) => 2
      case Invoking => 3
      case PutLeaving => 4
      case PutStored(_) => 5
      case PutAllowed => 6
      case PutLocked => 7;
    match s.owner
    case Canceller(i) =>
      worker + (if i >= |s.cancellers| || s.cancellers[i] == Stored then 1 else if s.cancellers[i].Read? then 2 else 3)
    case _ => worker
  }

  lemma OnwardAdvances(s: State)
    requires Invariant(s) && !(s.worker.Final? && s.owner == Nobody) && (s.owner.Canceller? ==> s.owner.index < |s.cancellers|)
    ensures Next(s, Onward(s)).Some?
    ensures var next := Next(s, Onward(s)).value;
            Ahead(next) < Ahead(s) && |next.cancellers| == |s.cancellers| && (next.owner == s.owner || next.owner == Nobody)
  {
  }

  /** No thread waits for ever: from every state of a run the mutex can become free and the task come to its receipt. */
  lemma {:induction false} EveryTaskEnds(s: State) returns (steps: seq<Step>)
    requires Invariant(s) && (s.owner.Canceller? ==> s.owner.index < |s.cancellers|)
    ensures CanTake(s, steps) && Take(s, steps).worker.Final? && Take(s, steps).owner == Nobody
    decreases Ahead(s)
  {
    hide Next, Invariant, Onward, Ahead;
    if s.worker.Final? && s.owner == Nobody {
      steps := [];
    } else {
      OnwardAdvances(s);
      StepInvariant(s, Onward(s));
      var rest := EveryTaskEnds(Next(s, Onward(s)).value);
      steps := [Onward(s)] + rest;
      assert steps[1..] == rest;
    }
  }

  lemma {:induction false} OwnerExists(states: seq<State>, steps: seq<Step>, i: nat)
    requires Run(states, steps) && i < |states|
    ensures states[i].owner.Canceller? ==> states[i].owner.index < |states[i].cancellers|
  {
    if i > 0 {
      OwnerExists(states, steps, i - 1);
      assert Next(states[i - 1], steps[i - 1]) == Some(states[i]);
    }
  }

  lemma TaskCanEnd(states: seq<State>, steps: seq<Step>) returns (more: seq<Step>, longer: seq<State>)
    requires Run(states, steps)
    ensures Run(longer, steps + more) && longer[|steps + more|].worker.Final? && longer[|steps + more|].owner == Nobody
  {
    hide Next, Invariant;
    RunInvariant(states, steps, |steps|);
    OwnerExists(states, steps, |steps|);
    more := EveryTaskEnds(states[|steps|]);
    longer := RunTakes(states, steps, more);
  }

  /** The runtime is invoked again after a check exactly when the check saw no flag and the runtime failed otherwise. */
  lemma RetriesExactly(s: State)
    requires s.worker.Checked?
    ensures (exists step, next :: Next(s, step) == Some(next) && next.worker == Invoking)
            <==> !s.worker.cancelled && s.worker.outcome == OtherFailure
  {
    if !s.worker.cancelled && s.worker.outcome == OtherFailure {
      assert Next(s, Retry) == Some(s.(worker := Invoking));
    }
  }

  const STRAY_PUT := [PutLock, PutCheck, PutInner(false, true), PutMark, PutUnlock]
  const CANCEL := [CancelLock(0), CancelRead(0), CancelStore(0), CancelUnlock(0)]
  const RETURN := [InvokeReturns(OtherFailure), CheckFlag, Finish]

  lemma StrayPut(s: State)
    requires s.worker == Invoking && s.owner == Nobody && !s.flag && !s.published
    ensures CanTake(s, STRAY_PUT) && Take(s, STRAY_PUT) == s.(left := s.left + 1)
  {
    assert STRAY_PUT[1..][1..] == [PutInner(false, true), PutMark, PutUnlock];
    var held := s.(owner := Worker, worker := PutAllowed);
    assert Next(held, PutInner(false, true)) == Some(held.(worker := PutStored(false), left := s.left + 1));
  }

  lemma CancelTakes(s: State)
    requires s.cancellers == [Outside] && s.owner == Nobody && !s.published
    ensures CanTake(s, CANCEL) && Take(s, CANCEL) == s.(cancellers := [Returned], flag := true)
  {
    assert CANCEL[1..][1..] == [CancelStore(0), CancelUnlock(0)];
    assert [Outside][0 := Locked] == [Locked] && [Locked][0 := Read(false)] == [Read(false)];
    assert [Read(false)][0 := Stored] == [Stored] && [Stored][0 := Returned] == [Returned];
    var inside := s.(owner := Canceller(0), cancellers := [Read(false)]);
    assert Next(inside, CancelStore(0)) == Some(inside.(cancellers := [Stored], flag := true));
  }

  lemma ReturnTakes(s: State)
    requires s.worker == Invoking && s.flag
    ensures CanTake(s, RETURN) && Take(s, RETURN) == s.(worker := Final(Cancelled, OtherFailure, true))
  {
    assert RETURN[1..][1..] == [Finish];
  }

  /** A run in which a put leaves its batch and the receipt then says `Cancelled`. */
  lemma CancelledTaskLeavesBatch() returns (states: seq<State>, steps: seq<Step>)
    ensures Run(states, steps) && steps == STRAY_PUT + CANCEL + RETURN
    ensures var last := states[|steps|];
            last.flag && last.worker == Final(Cancelled, OtherFailure, true) && last.accepted == 0 && last.left == 1
  {
    hide Next, CanTake, Take;
    var start := State(false, false, Nobody, [Outside], Invoking, 0, 0);
    states, steps := [start], [];
    StrayPut(states[|steps|]);
    states := RunTakes(states, steps, STRAY_PUT);
    steps := steps + STRAY_PUT;
    CancelTakes(states[|steps|]);
    states := RunTakes(states, steps, CANCEL);
    steps := steps + CANCEL;
    ReturnTakes(states[|steps|]);
    states := RunTakes(states, steps, RETURN);
    steps := steps + RETURN;
  }
}
