/** The retry loop of a delegated task. */
module Backoff {
  // When compression drops source anchors, the task is grounded again on fewer sources; the
  // source limit is halved until the prompt changes.

  import opened Common

  datatype Failure = Cancelled | GroundingFailed | OtherFailure

  /** The compression stage of a receipt's input, when there was one. */
  datatype Stage = Stage(missingFidelityAnchors: bool, missingIds: seq<string>)

  /** A receipt, as far as the loop looks at it; no failure means the task completed. */
  datatype Receipt = Receipt(failure: Option<Failure>, input: Option<Stage>)

  /** The prompt a task gets when grounded on at most so many sources, or that grounding fails. */
  type Grounding = nat -> Result<string, SetupFailure>

  datatype SetupFailure = GroundingSetupFailed

  predicate IsSourceAnchor(id: string) { "source-" <= id }

  /** The receipt asks for another try: compression lost anchors, all of them anchors of sources. */
  predicate AsksForFewer(receipt: Receipt) {
    && receipt.failure == Some(GroundingFailed)
    && receipt.input.Some? && receipt.input.value.missingFidelityAnchors
    && receipt.input.value.missingIds != []
    && forall id :: id in receipt.input.value.missingIds ==> IsSourceAnchor(id)
  }

  /** Who asks: a receipt of a failed grounding that lists lost anchors whose names all begin with "source-". */
  lemma AsksForFewerExactly(receipt: Receipt)
    ensures AsksForFewer(receipt) <==>
              match receipt
              case Receipt(Some(GroundingFailed), Some(Stage(true, ids))) =>
                ids != [] && forall id :: id in ids ==> exists rest :: id == "source-" + rest
              case _ => false
  {
    if receipt.input.Some? {
      forall id | id in receipt.input.value.missingIds ensures IsSourceAnchor(id) <==> exists rest :: id == "source-" + rest {
        if IsSourceAnchor(id) {
          assert id == "source-" + id[7..];
        }
      }
    }
  }

  function NextLimit(receipt: Receipt, limit: nat): Option<nat> {
    if limit <= 1 || !AsksForFewer(receipt) then None
    else Some(if limit / 2 < 1 then 1 else limit / 2)
  }

  // ----- which limit is tried next -----

  /** The limits below `limit`, in the order they are tried. */
  function Halvings(limit: nat): seq<nat> {
    if limit <= 1 then [] else [limit / 2] + Halvings(limit / 2)
  }

  /** The first of the limits that grounds the task on another prompt, unless grounding fails before. */
  function FirstChange(grounding: Grounding, limits: seq<nat>, prompt: string): Result<Option<nat>, SetupFailure> {
    if limits == [] then Ok(None)
    else
      match grounding(limits[0])
      case Err(e) => Err(e)
      case Ok(next) => if next != prompt then Ok(Some(limits[0])) else FirstChange(grounding, limits[1..], prompt)
  }

  /** What `FirstChange` finds: everything before place `k` leaves the prompt as it is, and place `k` does not. */
  lemma {:induction false} FirstChangeExactly(grounding: Grounding, limits: seq<nat>, prompt: string) returns (k: nat)
    ensures k <= |limits| && forall j :: 0 <= j < k ==> grounding(limits[j]) == Ok(prompt)
    ensures k == |limits| ==> FirstChange(grounding, limits, prompt) == Ok(None)
    ensures k < |limits| ==>
              && grounding(limits[k]) != Ok(prompt)
              && FirstChange(grounding, limits, prompt)
                 == match grounding(limits[k]) { case Err(e) => Err(e) case Ok(_) => Ok(Some(limits[k])) }
  {
    k := 0;
    if limits != [] && grounding(limits[0]) == Ok(prompt) {
      var inner := FirstChangeExactly(grounding, limits[1..], prompt);
      k := inner + 1;
      assert forall j :: 0 < j < k ==> limits[j] == limits[1..][j - 1];
    }
  }

  /** The limits tried are halves of one another: half of the limit first, and the last is one. */
  lemma {:induction false} HalvingsExactly(limit: nat)
    ensures var tried := Halvings(limit);
            && (tried == [] <==> limit <= 1)
            && (tried != [] ==> tried[0] == limit / 2 && tried[|tried| - 1] == 1)
            && forall k :: 0 < k < |tried| ==> tried[k] == tried[k - 1] / 2
  {
    if limit > 1 {
      var rest := Halvings(limit / 2);
      HalvingsExactly(limit / 2);
      var tried := [limit / 2] + rest;
      forall k | 0 < k < |tried| ensures tried[k] == tried[k - 1] / 2 {
        assert tried[k] == rest[k - 1];
      }
    }
  }

  method NextChanged(grounding: Grounding, receipt: Receipt, limit: nat, prompt: string) returns (r: Result<Option<(nat, string)>, SetupFailure>)
    ensures var found := if AsksForFewer(receipt) then FirstChange(grounding, Halvings(limit), prompt) else Ok(None);
            match found
            case Err(e) => r == Err(e)
            case Ok(None) => r == Ok(None)
            case Ok(Some(next)) => grounding(next).Ok? && r == Ok(Some((next, grounding(next).value)))
    ensures r.Ok? && r.value.Some? ==> 1 <= r.value.value.0 <= limit / 2
  {
    var current: nat := limit;
    while true
      invariant current <= limit
      invariant AsksForFewer(receipt) ==>
          FirstChange(grounding, Halvings(current), prompt) == FirstChange(grounding, Halvings(limit), prompt)
      decreases current
    {
      var next := NextLimit(receipt, current);
      if next.None? {
        return Ok(None);
      }
      assert Halvings(current)[0] == next.value && Halvings(current)[1..] == Halvings(next.value);
      current := next.value;
      var grounded := grounding(current);
      if grounded.Err? {
        return Err(grounded.error);
      }
      if grounded.value != prompt {
        return Ok(Some((current, grounded.value)));
      }
    }
  }

  // ----- the whole loop -----

  /** The floor of the binary logarithm. */
  function Log2(n: nat): nat { if n <= 1 then 0 else 1 + Log2(n / 2) }

  function Pow2(n: nat): nat { if n == 0 then 1 else 2 * Pow2(n - 1) }

  lemma {:induction false} Log2Exactly(n: nat)
    requires n >= 1
    ensures Pow2(Log2(n)) <= n < Pow2(Log2(n) + 1)
  {
    if n > 1 {
      Log2Exactly(n / 2);
    }
  }

  lemma {:induction false} Log2Monotone(a: nat, b: nat)
    requires a <= b
    ensures Log2(a) <= Log2(b)
  {
    if a > 1 {
      Log2Monotone(a / 2, b / 2);
    }
  }

  datatype Outcome = Finished(receipt: Receipt) | WasCancelled | SetupFailed(failure: SetupFailure)

  /** The limit to go on with after a try on `limit` sources: the first smaller one with another prompt. */
  function Changed(grounding: Grounding, limit: nat): Result<Option<nat>, SetupFailure> {
    match grounding(limit)
    case Err(e) => Err(e)
    case Ok(prompt) => FirstChange(grounding, Halvings(limit), prompt)
  }

  /** Each try follows from the one before: it asked for fewer sources, and there was a limit to go on with. */
  ghost predicate Follows(grounding: Grounding, receipts: nat -> Receipt, limits: seq<nat>, k: nat)
    requires k + 1 < |limits|
  {
    AsksForFewer(receipts(k)) && Changed(grounding, limits[k]) == Ok(Some(limits[k + 1])) && 2 <= 2 * limits[k + 1] <= limits[k]
  }

  ghost predicate Chain(grounding: Grounding, receipts: nat -> Receipt, limits: seq<nat>, maxSources: nat) {
    limits != [] && limits[0] == maxSources && forall k :: 0 <= k < |limits| - 1 ==> Follows(grounding, receipts, limits, k)
  }

  lemma ChainMore(grounding: Grounding, receipts: nat -> Receipt, limits: seq<nat>, maxSources: nat, next: nat)
    requires Chain(grounding, receipts, limits, maxSources) && AsksForFewer(receipts(|limits| - 1))
    requires Changed(grounding, limits[|limits| - 1]) == Ok(Some(next)) && 2 <= 2 * next <= limits[|limits| - 1]
    ensures Chain(grounding, receipts, limits + [next], maxSources)
  {
    var more := limits + [next];
    forall k | 0 <= k < |more| - 1 ensures Follows(grounding, receipts, more, k) {
      assert k < |limits| - 1 ==> Follows(grounding, receipts, limits, k);
    }
  }

  /**
   Runs the task. `receipts(k)` is the receipt of the k-th invocation and `cancelled(k)`
   whether the task had been cancelled by then; both are arbitrary. The number of
   invocations is at most one more than the logarithm of the limit.
   */
  method Run(grounding: Grounding, receipts: nat -> Receipt, cancelled: nat -> bool, maxSources: nat)
    returns (outcome: Outcome, invocations: nat, effective: nat, ghost limits: seq<nat>)
    ensures invocations <= 1 + Log2(maxSources)
    ensures grounding(maxSources).Err? <==> invocations == 0
    ensures |limits| == invocations
    ensures invocations > 0 ==> Chain(grounding, receipts, limits, maxSources) && effective == limits[invocations - 1]
    ensures forall k :: 0 <= k < invocations - 1 ==> !cancelled(k) || receipts(k).failure == Some(Cancelled)
    ensures invocations > 0 ==>
              var last := receipts(invocations - 1);
              outcome == if cancelled(invocations - 1) && last.failure != Some(Cancelled) then WasCancelled
                         else if !AsksForFewer(last) then Finished(last)
                         else
                           match Changed(grounding, effective)
                           case Err(e) => SetupFailed(e)
                           case Ok(_) => Finished(last)
    ensures invocations > 0 && outcome.Finished? && AsksForFewer(receipts(invocations - 1)) ==> Changed(grounding, effective) == Ok(None)
  {
    invocations, effective, limits := 0, maxSources, [];
    var first := grounding(maxSources);
    if first.Err? {
      return SetupFailed(first.error), 0, maxSources, [];
    }
    var prompt := first.value;
    while true
      invariant grounding(effective) == Ok(prompt)
      invariant |limits| == invocations && (invocations == 0 ==> effective == maxSources)
      invariant invocations + Log2(effective) <= Log2(maxSources)
      invariant Chain(grounding, receipts, limits + [effective], maxSources)
      invariant forall k :: 0 <= k < invocations ==> !cancelled(k) || receipts(k).failure == Some(Cancelled)
      decreases effective
    {
      var receipt := receipts(invocations);
      invocations := invocations + 1;
      limits := limits + [effective];
      if cancelled(invocations - 1) && receipt.failure != Some(Cancelled) {
        return WasCancelled, invocations, effective, limits;
      }
      var next := NextChanged(grounding, receipt, effective, prompt);
      if next.Err? {
        return SetupFailed(next.error), invocations, effective, limits;
      }
      if next.value.None? {
        return Finished(receipt), invocations, effective, limits;
      }
      ChainMore(grounding, receipts, limits, maxSources, next.value.value.0);
      Log2Monotone(next.value.value.0, effective / 2);
      effective, prompt := next.value.value.0, next.value.value.1;
    }
  }
}
