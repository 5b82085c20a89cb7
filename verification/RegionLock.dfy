/** The recursive lock of the memory-region map: a main lock, a small lock around
    the owner's identity, a recursion count and an owner id that is left stale when
    the lock is released.  One action is one stretch between lock operations. */
module RegionLock {
  import opened Common

  const MAX_NESTING: int := 5

  /** Where a thread is in Lock() or Unlock(); `Out` is outside both. */
  datatype Pc =
    | Out
    | LockStart
    | LockTest
    | LockWait
    | LockOwner
    | LockSet
    | UnlockStart
    | UnlockTest

  /** `depth` is how often the client has entered and not yet left. */
  datatype Thread = Thread(pc: Pc, depth: nat)

  /** Why a RAW_CHECK stopped the process. */
  datatype Fault = InvariantsViolated | NotReset | NestedTooDeep | NotTheHolder

  datatype State = State(
    lock: Option<nat>, ownerLock: Option<nat>, count: int, owner: nat, threads: seq<Thread>, fault: Option<Fault>)

  datatype Action = CallLock | CallUnlock | Go

  function With(s: State, i: nat, t: Thread): State
    requires i < |s.threads|
  {
    s.(threads := s.threads[i := t])
  }

  function Fail(s: State, f: Fault): State { s.(fault := Some(f)) }

  /** A step of thread `i`; None when it is blocked or has nothing to do. */
  function Act(s: State, i: nat, a: Action): Option<State>
    requires i < |s.threads|
  {
    var t := s.threads[i];
    if s.fault.Some? then None else
    match (a, t.pc)
    case (CallLock, Out) => Some(With(s, i, t.(pc := LockStart)))
    case (CallUnlock, Out) => Some(With(s, i, t.(pc := UnlockStart)))
    case (Go, LockStart) =>
      if s.ownerLock.Some? then None else Some(With(s, i, t.(pc := LockTest)).(ownerLock := Some(i)))
    case (Go, LockTest) =>
      if s.count > 0 && s.owner == i then
        if s.lock.None? then Some(Fail(s, InvariantsViolated))
        else if s.count + 1 > MAX_NESTING then Some(Fail(s, NestedTooDeep))
        else Some(With(s, i, Thread(Out, t.depth + 1)).(count := s.count + 1, ownerLock := None))
      else Some(With(s, i, t.(pc := LockWait)).(ownerLock := None))
    case (Go, LockWait) =>
      if s.lock.Some? then None else Some(With(s, i, t.(pc := LockOwner)).(lock := Some(i)))
    case (Go, LockOwner) =>
      if s.ownerLock.Some? then None else Some(With(s, i, t.(pc := LockSet)).(ownerLock := Some(i)))
    case (Go, LockSet) =>
      if s.count != 0 then Some(Fail(s, NotReset))
      else Some(With(s, i, Thread(Out, t.depth + 1)).(count := 1, owner := i, ownerLock := None))
    case (Go, UnlockStart) =>
      if s.ownerLock.Some? then None else Some(With(s, i, t.(pc := UnlockTest)).(ownerLock := Some(i)))
    case (Go, UnlockTest) =>
      if s.count <= 0 || s.lock.None? || s.owner != i then Some(Fail(s, NotTheHolder))
      else
        Some(With(s, i, Thread(Out, if t.depth > 0 then t.depth - 1 else 0)).(
          count := s.count - 1, lock := if s.count == 1 then None else s.lock, ownerLock := None))
    case _ => None
  }

  // --------------------------------------------------------------- invariant

  predicate Entering(t: Thread) { t.pc.LockOwner? || t.pc.LockSet? }

  predicate Has(t: Thread) { Entering(t) || t.depth > 0 }

  predicate InOwnerLock(t: Thread) { t.pc.LockTest? || t.pc.LockSet? || t.pc.UnlockTest? }

  ghost predicate ThreadOk(s: State, i: nat)
    requires i < |s.threads|
  {
    var t := s.threads[i];
    && (Has(t) <==> s.lock == Some(i))
    && (InOwnerLock(t) <==> s.ownerLock == Some(i))
    && (Entering(t) || t.pc.LockWait? ==> t.depth == 0)
    && (t.depth > 0 ==> s.owner == i && s.count == t.depth)
    && (Entering(t) ==> s.count == 0)
  }

  ghost predicate Inv(s: State) {
    && (forall i :: 0 <= i < |s.threads| ==> ThreadOk(s, i))
    && (s.lock.Some? ==> s.lock.value < |s.threads|)
    && (s.ownerLock.Some? ==> s.ownerLock.value < |s.threads|)
    && (s.lock.None? ==> s.count == 0) && s.count <= MAX_NESTING
  }

  lemma StepOk(s: State, i: nat, a: Action, s': State, j: nat)
    requires Inv(s) && i < |s.threads| && Act(s, i, a) == Some(s') && j < |s.threads|
    ensures j < |s'.threads| && ThreadOk(s', j)
  {
    assert ThreadOk(s, i) && ThreadOk(s, j);
    if s.lock.Some? { assert ThreadOk(s, s.lock.value); }
  }

  /** Every step keeps the invariant, and the only checks that can fail are the ones
      on the client, exactly when it nests deeper than five or unlocks without holding. */
  lemma InvStep(s: State, i: nat, a: Action, s': State)
    requires Inv(s) && i < |s.threads| && Act(s, i, a) == Some(s')
    ensures Inv(s') && |s'.threads| == |s.threads|
    ensures s'.fault == Some(NestedTooDeep) <==> s.threads[i] == Thread(LockTest, MAX_NESTING)
    ensures s'.fault == Some(NotTheHolder) <==> s.threads[i] == Thread(UnlockTest, 0)
    ensures s'.fault != Some(InvariantsViolated) && s'.fault != Some(NotReset)
  {
    assert ThreadOk(s, i);
    forall j | 0 <= j < |s'.threads| ensures ThreadOk(s', j) { StepOk(s, i, a, s', j); }
    if s.lock.Some? { assert ThreadOk(s, s.lock.value); }
  }

  function After(s: State, schedule: seq<(nat, Action)>): State
    decreases |schedule|
  {
    if schedule == [] then s else
      var (i, a) := schedule[0];
      var next := if i < |s.threads| then Act(s, i, a) else None;
      After(if next.Some? then next.value else s, schedule[1..])
  }

  ghost predicate Initial(s: State) {
    && s.lock.None? && s.ownerLock.None? && s.count == 0 && s.fault.None?
    && forall i :: 0 <= i < |s.threads| ==> s.threads[i] == Thread(Out, 0)
  }

  lemma {:induction false} InvRun(s: State, schedule: seq<(nat, Action)>)
    requires Inv(s) && s.fault !in {Some(InvariantsViolated), Some(NotReset)}
    ensures Inv(After(s, schedule)) && After(s, schedule).fault !in {Some(InvariantsViolated), Some(NotReset)}
    decreases |schedule|
  {
    hide Act, Inv;
    if schedule != [] {
      var (i, a) := schedule[0];
      if i < |s.threads| && Act(s, i, a).Some? {
        InvStep(s, i, a, Act(s, i, a).value);
        InvRun(Act(s, i, a).value, schedule[1..]);
      } else {
        InvRun(s, schedule[1..]);
      }
    }
  }

  predicate IsInside(s: State, i: int) { 0 <= i < |s.threads| && s.threads[i].depth > 0 }

  /** In every reachable state, for any number of threads: at most one is inside, the
      count is its nesting depth and zero while the lock is free, and a thread whose
      id is merely left over in `owner` is not inside. */
  lemma MutualExclusion(s: State, schedule: seq<(nat, Action)>)
    requires Initial(s)
    ensures var s' := After(s, schedule);
      && (forall i, j :: IsInside(s', i) && IsInside(s', j) ==> i == j)
      && (s'.lock.None? ==> s'.count == 0)
      && (forall i :: IsInside(s', i) ==> s'.lock == Some(i) && s'.owner == i && s'.count == s'.threads[i].depth)
      && s'.fault !in {Some(InvariantsViolated), Some(NotReset)}
  {
    InvRun(s, schedule);
    var s' := After(s, schedule);
    forall i | IsInside(s', i)
      ensures s'.lock == Some(i) && s'.owner == i && s'.count == s'.threads[i].depth
    {
      assert ThreadOk(s', i);
    }
  }

  /** The test at the head of Lock() lets exactly the holder in at once, whatever the
      stale owner id says. */
  lemma FastPathIsHolder(s: State, i: nat)
    requires Inv(s) && i < |s.threads| && s.threads[i].pc == LockTest
    ensures s.count > 0 && s.owner == i <==> s.threads[i].depth > 0
  {
    assert ThreadOk(s, i);
    if s.lock.Some? { assert ThreadOk(s, s.lock.value); }
  }
}
