/**
 Calls into the operating system. A schedule says of every call, by its number, whether it
 fails; the objects that make calls count them. So an operation that reports an error has to
 point to the call that failed, and one of whose calls none fails has to do its work.

 Removing a directory takes as many calls as the directory has entries, and one more. The
 lemmas below say which of them are made, and that the removal succeeds when all of them do.
 */
module Faults {

  /** Whether the call with a given number fails. */
  type Schedule = nat -> bool

  /** None of the calls from `a` on and before `b` fails. */
  ghost predicate NoFault(faults: Schedule, a: nat, b: nat) {
    forall k :: a <= k < b ==> !faults(k)
  }

  lemma OneMore(faults: Schedule, a: nat, b: nat, c: nat)
    requires a <= b && c == b + 1 && NoFault(faults, a, b)
    ensures NoFault(faults, a, c) <==> !faults(b)
  {
  }

  lemma NoneYet(faults: Schedule, a: nat)
    ensures NoFault(faults, a, a)
  {
  }

  lemma NoFaultSplit(faults: Schedule, a: nat, b: nat, c: nat)
    requires a <= b <= c
    ensures NoFault(faults, a, c) <==> NoFault(faults, a, b) && NoFault(faults, b, c)
  {
  }

  /**
   `remove_dir_all` of a directory with `n` entries takes one call for every entry and one
   for the directory itself, and stops at the first that fails. If it begins with call `c`,
   this is the number of the call that follows it.
   */
  function RemovalEnd(faults: Schedule, c: nat, n: nat): (end: nat)
    ensures c < end <= c + n + 1
    decreases n
  {
    if n == 0 || faults(c) then c + 1 else RemovalEnd(faults, c + 1, n - 1)
  }

  /** The removal succeeds exactly when none of its calls fails; otherwise its last call is the one that failed. */
  lemma {:induction false} RemovalExactly(faults: Schedule, c: nat, n: nat)
    ensures var end := RemovalEnd(faults, c, n);
            && NoFault(faults, c, end - 1) && (NoFault(faults, c, end) <==> !faults(end - 1))
            && (NoFault(faults, c, c + n + 1) <==> !faults(end - 1))
            && (NoFault(faults, c, c + n + 1) ==> end == c + n + 1)
    decreases n
  {
    if n != 0 && !faults(c) {
      RemovalExactly(faults, c + 1, n - 1);
    }
  }

  /** How many entries are left when such a removal fails. */
  function Remaining(faults: Schedule, c: nat, n: nat): (left: nat)
    ensures left <= n
    decreases n
  {
    if n == 0 || faults(c) then n else Remaining(faults, c + 1, n - 1)
  }

  lemma RemovalNext(faults: Schedule, c: nat, n: nat)
    requires n > 0
    ensures RemovalEnd(faults, c, n) == if faults(c) then c + 1 else RemovalEnd(faults, c + 1, n - 1)
    ensures Remaining(faults, c, n) == if faults(c) then n else Remaining(faults, c + 1, n - 1)
  {
  }

  lemma RemovalLast(faults: Schedule, c: nat)
    ensures RemovalEnd(faults, c, 0) == c + 1 && Remaining(faults, c, 0) == 0
  {
  }
}
