/** The transfer caches of all size classes under any interleaving of threads.

    A thread runs InsertRange or RemoveRange.  One action is one stretch of work
    between lock operations.  Racy reads made without a lock may go either way. */
module TransferCache {
  import opened Common

  datatype Lock = ClassLock(cls: nat) | HeapLock

  datatype Cache = Cache(used: int, size: int, max: int)

  /** Where a thread is.  `c` is the class it works for, `t` the class it tries to
      take a slot from. */
  datatype Pc =
    | Idle
    | InsertWait(c: nat, full: bool)
    | Inserting(c: nat, full: bool)
    | Evict(c: nat, force: bool)
    | ShrinkCheck(c: nat, t: nat, force: bool)
    | ShrinkWait(c: nat, t: nat, force: bool)
    | Shrinking(c: nat, t: nat, force: bool)
    | ShrinkReleasing(c: nat, t: nat, force: bool)
    | RestoreWait(c: nat, force: bool, got: bool)
    | Restored(c: nat, force: bool, got: bool)
    | Releasing(c: nat)
    | RemoveWait(c: nat, full: bool)
    | Removing(c: nat, full: bool)
    | Fetching(c: nat)
    | HeapWait(back: Pc)
    | InHeap(back: Pc)
    | Relock(back: Pc)

  /** The lock a thread holds. */
  function Holds(pc: Pc): Option<Lock> {
    match pc
    case Inserting(c, _) => Some(ClassLock(c))
    case Evict(c, _) => Some(ClassLock(c))
    case ShrinkCheck(c, _, _) => Some(ClassLock(c))
    case Shrinking(_, t, _) => Some(ClassLock(t))
    case ShrinkReleasing(_, t, _) => Some(ClassLock(t))
    case Restored(c, _, _) => Some(ClassLock(c))
    case Releasing(c) => Some(ClassLock(c))
    case Removing(c, _) => Some(ClassLock(c))
    case Fetching(c) => Some(ClassLock(c))
    case InHeap(_) => Some(HeapLock)
    case _ => None
  }

  /** The lock a thread is about to take. */
  function Wants(pc: Pc): Option<Lock> {
    match pc
    case InsertWait(c, _) => Some(ClassLock(c))
    case ShrinkWait(_, t, _) => Some(ClassLock(t))
    case RestoreWait(c, _, _) => Some(ClassLock(c))
    case RemoveWait(c, _) => Some(ClassLock(c))
    case HeapWait(_) => Some(HeapLock)
    case Relock(back) => Holds(back)
    case _ => None
  }

  /** A slot taken from one class and not yet claimed by another. */
  predicate SlotInHand(pc: Pc) {
    match pc
    case ShrinkReleasing(_, _, _) => true
    case RestoreWait(_, _, got) => got
    case Restored(_, _, got) => got
    case HeapWait(back) => SlotInHand(back)
    case InHeap(back) => SlotInHand(back)
    case Relock(back) => SlotInHand(back)
    case _ => false
  }

  /** The stretches of code that may drop their class lock to use the page heap. */
  predicate MayVisitHeap(pc: Pc) { pc.ShrinkReleasing? || pc.Releasing? || pc.Fetching? }

  predicate PcOk(pc: Pc, n: nat) {
    match pc
    case Idle => true
    case ShrinkCheck(c, t, _) => c < n && t < n && c != t
    case ShrinkWait(c, t, _) => c < n && t < n && c != t
    case Shrinking(c, t, _) => c < n && t < n && c != t
    case ShrinkReleasing(c, t, _) => c < n && t < n && c != t
    case HeapWait(back) => MayVisitHeap(back) && PcOk(back, n)
    case InHeap(back) => MayVisitHeap(back) && PcOk(back, n)
    case Relock(back) => MayVisitHeap(back) && PcOk(back, n)
    case _ => pc.c < n
  }

  /** `lost` counts slots given up because the class that wanted them had meanwhile
      reached its maximum. */
  datatype State = State(caches: seq<Cache>, owner: map<Lock, nat>, pcs: seq<Pc>, lost: nat)

  datatype Action =
    | StartInsert(cls: nat, full: bool)
    | StartRemove(cls: nat, full: bool)
    | Go(pick: nat, choice: bool)

  // ------------------------------------------------------------- transitions

  function At(s: State, i: nat, pc: Pc): State
    requires i < |s.pcs|
  {
    s.(pcs := s.pcs[i := pc])
  }

  /** Take the wanted lock if it is free. */
  function TakeLock(s: State, i: nat, l: Lock, pc: Pc): Option<State>
    requires i < |s.pcs|
  {
    if l in s.owner then None else Some(At(s, i, pc).(owner := s.owner[l := i]))
  }

  function DropLock(s: State, i: nat, l: Lock, pc: Pc): State
    requires i < |s.pcs|
  {
    At(s, i, pc).(owner := s.owner - {l})
  }

  function WithCache(s: State, c: nat, cache: Cache): State
    requires c < |s.caches|
  {
    s.(caches := s.caches[c := cache])
  }

  /** EvictRandomSizeClass failed: try again by force, else give up. */
  function NoSlot(c: nat, force: bool): Pc { if force then Releasing(c) else Evict(c, true) }

  /** InsertRange with a free slot at hand: store the chain and leave. */
  function StoreChain(s: State, i: nat, c: nat): State
    requires i < |s.pcs| && c < |s.caches|
  {
    var k := s.caches[c];
    DropLock(WithCache(s, c, k.(used := k.used + 1)), i, ClassLock(c), Idle)
  }

  /** EvictRandomSizeClass and ShrinkCache: from the choice of a victim until the thread is
      back with its own lock. */
  predicate InShrink(pc: Pc) {
    || pc.Evict? || pc.ShrinkCheck? || pc.ShrinkWait? || pc.Shrinking? || pc.ShrinkReleasing? || pc.RestoreWait?
    || pc.Restored?
  }

  function ShrinkStep(s: State, i: nat, pick: nat, choice: bool): Option<State>
    requires i < |s.pcs| && PcOk(s.pcs[i], |s.caches|) && InShrink(s.pcs[i])
  {
    var pc := s.pcs[i];
    match pc
    case Evict(c, force) =>
      if pick >= |s.caches| then None
      else if pick == c then Some(At(s, i, NoSlot(c, force)))
      else Some(At(s, i, ShrinkCheck(c, pick, force)))
    case ShrinkCheck(c, t, force) =>
      if choice then Some(DropLock(s, i, ClassLock(c), ShrinkWait(c, t, force)))
      else Some(At(s, i, NoSlot(c, force)))
    case ShrinkWait(c, t, force) => TakeLock(s, i, ClassLock(t), Shrinking(c, t, force))
    case Shrinking(c, t, force) =>
      var k := s.caches[t];
      if k.size == 0 || (k.used == k.size && !force) then
        Some(DropLock(s, i, ClassLock(t), RestoreWait(c, force, false)))
      else if k.used == k.size then
        Some(At(WithCache(s, t, Cache(k.used - 1, k.size - 1, k.max)), i, ShrinkReleasing(c, t, force)))
      else
        Some(DropLock(WithCache(s, t, k.(size := k.size - 1)), i, ClassLock(t), RestoreWait(c, force, true)))
    case ShrinkReleasing(c, t, force) =>
      Some(DropLock(s, i, ClassLock(t), if choice then HeapWait(pc) else RestoreWait(c, force, true)))
    case RestoreWait(c, force, got) => TakeLock(s, i, ClassLock(c), Restored(c, force, got))
    case Restored(c, force, got) =>
      var k := s.caches[c];
      if !got then Some(At(s, i, NoSlot(c, force)))
      else if k.size < k.max then Some(StoreChain(WithCache(s, c, k.(size := k.size + 1)), i, c))
      else Some(At(s, i, Releasing(c)).(lost := s.lost + 1))
  }

  /** InsertRange, RemoveRange and their visits to the page heap. */
  function MainStep(s: State, i: nat, choice: bool): Option<State>
    requires i < |s.pcs| && PcOk(s.pcs[i], |s.caches|) && !InShrink(s.pcs[i])
  {
    var pc := s.pcs[i];
    match pc
    case Idle => None
    case InsertWait(c, full) => TakeLock(s, i, ClassLock(c), Inserting(c, full))
    case Inserting(c, full) =>
      var k := s.caches[c];
      if !full then Some(At(s, i, Releasing(c)))
      else if k.used < k.size then Some(StoreChain(s, i, c))
      else if k.size == k.max then Some(At(s, i, Releasing(c)))
      else Some(At(s, i, Evict(c, false)))
    case Releasing(c) => Some(DropLock(s, i, ClassLock(c), if choice then HeapWait(pc) else Idle))
    case RemoveWait(c, full) => TakeLock(s, i, ClassLock(c), Removing(c, full))
    case Removing(c, full) =>
      var k := s.caches[c];
      if full && k.used > 0 then Some(DropLock(WithCache(s, c, k.(used := k.used - 1)), i, ClassLock(c), Idle))
      else Some(At(s, i, Fetching(c)))
    case Fetching(c) => Some(DropLock(s, i, ClassLock(c), if choice then HeapWait(pc) else Idle))
    case HeapWait(back) => TakeLock(s, i, HeapLock, InHeap(back))
    case InHeap(back) => Some(DropLock(s, i, HeapLock, Relock(back)))
    case Relock(back) =>
      var l := Holds(back);
      if l.None? then None else TakeLock(s, i, l.value, back)
  }

  function Act(s: State, i: nat, a: Action): Option<State>
    requires i < |s.pcs| && PcOk(s.pcs[i], |s.caches|)
  {
    var pc := s.pcs[i];
    match a
    case StartInsert(c, full) =>
      if pc.Idle? && c < |s.caches| then Some(At(s, i, InsertWait(c, full))) else None
    case StartRemove(c, full) =>
      if pc.Idle? && c < |s.caches| then Some(At(s, i, RemoveWait(c, full))) else None
    case Go(pick, choice) => if InShrink(pc) then ShrinkStep(s, i, pick, choice) else MainStep(s, i, choice)
  }

  // --------------------------------------------------------------- invariant

  predicate CacheOk(k: Cache) { 0 <= k.used <= k.size <= k.max }

  ghost predicate CachesOk(s: State) { forall c :: 0 <= c < |s.caches| ==> CacheOk(s.caches[c]) }

  ghost predicate PcsOk(s: State) { forall i :: 0 <= i < |s.pcs| ==> PcOk(s.pcs[i], |s.caches|) }

  /** The owner of a lock is the one thread whose code position holds it. */
  ghost predicate OwnersOk(s: State) {
    && (forall l :: l in s.owner ==> s.owner[l] < |s.pcs| && Holds(s.pcs[s.owner[l]]) == Some(l))
    && (forall i :: 0 <= i < |s.pcs| && Holds(s.pcs[i]).Some? ==> OwnedBy(s, Holds(s.pcs[i]).value, i))
  }

  predicate OwnedBy(s: State, l: Lock, i: nat) { l in s.owner && s.owner[l] == i }

  function TotalSize(caches: seq<Cache>): int {
    if caches == [] then 0 else caches[0].size + TotalSize(caches[1..])
  }

  function InHand(pcs: seq<Pc>): nat {
    if pcs == [] then 0 else (if SlotInHand(pcs[0]) then 1 else 0) + InHand(pcs[1..])
  }

  /** Slots are conserved: in some cache, in a thread's hand, or given up. */
  ghost predicate Conserved(s: State, total: int) {
    TotalSize(s.caches) + InHand(s.pcs) + s.lost == total
  }

  ghost predicate Inv(s: State, total: int) {
    CachesOk(s) && PcsOk(s) && OwnersOk(s) && Conserved(s, total)
  }

  lemma {:induction false} TotalUpdate(caches: seq<Cache>, c: nat, k: Cache)
    requires c < |caches|
    ensures TotalSize(caches[c := k]) == TotalSize(caches) - caches[c].size + k.size
  {
    if c == 0 {
      assert caches[c := k][1..] == caches[1..];
    } else {
      assert caches[c := k][1..] == caches[1..][c - 1 := k];
      TotalUpdate(caches[1..], c - 1, k);
    }
  }

  lemma {:induction false} InHandUpdate(pcs: seq<Pc>, i: nat, pc: Pc)
    requires i < |pcs|
    ensures InHand(pcs[i := pc])
         == InHand(pcs) - (if SlotInHand(pcs[i]) then 1 else 0) + (if SlotInHand(pc) then 1 else 0)
  {
    if i == 0 {
      assert pcs[i := pc][1..] == pcs[1..];
    } else {
      assert pcs[i := pc][1..] == pcs[1..][i - 1 := pc];
      InHandUpdate(pcs[1..], i - 1, pc);
    }
  }

  lemma OwnersMoved(s: State, i: nat, pc: Pc)
    requires OwnersOk(s) && i < |s.pcs| && Holds(pc) == Holds(s.pcs[i])
    ensures OwnersOk(At(s, i, pc))
  {
    var s' := At(s, i, pc);
    forall j | 0 <= j < |s'.pcs| && Holds(s'.pcs[j]).Some? ensures OwnedBy(s', Holds(s'.pcs[j]).value, j) {
      assert OwnedBy(s, Holds(s.pcs[j]).value, j);
    }
  }

  lemma OwnersLocked(s: State, i: nat, l: Lock, pc: Pc)
    requires OwnersOk(s) && i < |s.pcs| && Holds(s.pcs[i]) == None && Holds(pc) == Some(l) && l !in s.owner
    ensures OwnersOk(TakeLock(s, i, l, pc).value)
  {
    var s' := TakeLock(s, i, l, pc).value;
    forall j | 0 <= j < |s'.pcs| && Holds(s'.pcs[j]).Some? ensures OwnedBy(s', Holds(s'.pcs[j]).value, j) {
      if j != i { assert OwnedBy(s, Holds(s.pcs[j]).value, j); }
    }
  }

  lemma OwnersUnlocked(s: State, i: nat, l: Lock, pc: Pc)
    requires OwnersOk(s) && i < |s.pcs| && Holds(s.pcs[i]) == Some(l) && Holds(pc) == None
    ensures OwnersOk(DropLock(s, i, l, pc))
  {
    var s' := DropLock(s, i, l, pc);
    assert OwnedBy(s, l, i);
    forall j | 0 <= j < |s'.pcs| && Holds(s'.pcs[j]).Some? ensures OwnedBy(s', Holds(s'.pcs[j]).value, j) {
      assert OwnedBy(s, Holds(s.pcs[j]).value, j);
    }
  }

  /** Thread `i` moves to `pc`, taking, dropping or keeping a lock as `pc` says. */
  ghost predicate Becomes(s: State, i: nat, pc: Pc, s': State)
    requires i < |s.pcs|
  {
    && s'.pcs == s.pcs[i := pc]
    && match (Holds(s.pcs[i]), Holds(pc))
       case (None, Some(l)) => l !in s.owner && s'.owner == s.owner[l := i]
       case (Some(l), None) => s'.owner == s.owner - {l}
       case (h, h') => h == h' && s'.owner == s.owner
  }

  lemma OwnersKept(s: State, i: nat, pc: Pc, s': State)
    requires OwnersOk(s) && i < |s.pcs| && Becomes(s, i, pc, s')
    ensures OwnersOk(s')
  {
    match (Holds(s.pcs[i]), Holds(pc)) {
      case (None, Some(l)) => OwnersLocked(s, i, l, pc);
      case (Some(l), None) => OwnersUnlocked(s, i, l, pc);
      case (h, h') => OwnersMoved(s, i, pc);
    }
  }

  /** Every action moves one thread, to a sound position, with the lock that calls for. */
  lemma ActMoves(s: State, i: nat, a: Action, s': State)
    requires PcsOk(s) && i < |s.pcs| && Act(s, i, a) == Some(s')
    ensures i < |s'.pcs| && Becomes(s, i, s'.pcs[i], s') && PcOk(s'.pcs[i], |s.caches|)
  {
    assert PcOk(s.pcs[i], |s.caches|);
    if a.Go? {
      hide ShrinkStep, MainStep, Becomes;
      if InShrink(s.pcs[i]) {
        ShrinkMoves(s, i, a.pick, a.choice, s');
        ShrinkPcOk(s, i, a.pick, a.choice, s');
      } else {
        MainMoves(s, i, a.choice, s');
        MainPcOk(s, i, a.choice, s');
      }
    }
  }

  lemma ShrinkMoves(s: State, i: nat, pick: nat, choice: bool, s': State)
    requires i < |s.pcs| && PcOk(s.pcs[i], |s.caches|) && InShrink(s.pcs[i])
    requires ShrinkStep(s, i, pick, choice) == Some(s')
    ensures i < |s'.pcs| && Becomes(s, i, s'.pcs[i], s')
  {
  }

  lemma ShrinkPcOk(s: State, i: nat, pick: nat, choice: bool, s': State)
    requires i < |s.pcs| && PcOk(s.pcs[i], |s.caches|) && InShrink(s.pcs[i])
    requires ShrinkStep(s, i, pick, choice) == Some(s')
    ensures i < |s'.pcs| && PcOk(s'.pcs[i], |s.caches|)
  {
  }

  lemma MainMoves(s: State, i: nat, choice: bool, s': State)
    requires i < |s.pcs| && PcOk(s.pcs[i], |s.caches|) && !InShrink(s.pcs[i]) && MainStep(s, i, choice) == Some(s')
    ensures i < |s'.pcs| && Becomes(s, i, s'.pcs[i], s')
  {
  }

  lemma MainPcOk(s: State, i: nat, choice: bool, s': State)
    requires i < |s.pcs| && PcOk(s.pcs[i], |s.caches|) && !InShrink(s.pcs[i]) && MainStep(s, i, choice) == Some(s')
    ensures i < |s'.pcs| && PcOk(s'.pcs[i], |s.caches|)
  {
  }

  /** The class whose cache an action may change. */
  function Touched(pc: Pc): nat {
    match pc
    case Inserting(c, _) => c
    case Shrinking(_, t, _) => t
    case Restored(c, _, _) => c
    case Removing(c, _) => c
    case _ => 0
  }

  function One(b: bool): nat { if b then 1 else 0 }

  /** At most one cache changes, and the slot count is kept: what the cache loses the
      thread's hand gains, and back. */
  ghost predicate KeepsSlots(s: State, i: nat, s': State) {
    && i < |s.pcs| && i < |s'.pcs| && |s'.caches| == |s.caches|
    && if s'.caches == s.caches then
         One(SlotInHand(s'.pcs[i])) + s'.lost == One(SlotInHand(s.pcs[i])) + s.lost
       else
         var c := Touched(s.pcs[i]);
         && c < |s.caches| && CacheOk(s'.caches[c]) && s'.caches == s.caches[c := s'.caches[c]]
         && s'.caches[c].size + One(SlotInHand(s'.pcs[i])) + s'.lost
         == s.caches[c].size + One(SlotInHand(s.pcs[i])) + s.lost
  }

  lemma ActEffect(s: State, i: nat, a: Action, s': State)
    requires CachesOk(s) && PcsOk(s) && i < |s.pcs| && Act(s, i, a) == Some(s')
    ensures KeepsSlots(s, i, s')
  {
    assert PcOk(s.pcs[i], |s.caches|);
    if a.Go? {
      hide ShrinkStep, MainStep, KeepsSlots;
      if InShrink(s.pcs[i]) { ShrinkEffect(s, i, a.pick, a.choice, s'); } else { MainEffect(s, i, a.choice, s'); }
    }
  }

  lemma ShrinkEffect(s: State, i: nat, pick: nat, choice: bool, s': State)
    requires CachesOk(s) && i < |s.pcs| && PcOk(s.pcs[i], |s.caches|)
    requires InShrink(s.pcs[i]) && ShrinkStep(s, i, pick, choice) == Some(s')
    ensures KeepsSlots(s, i, s')
  {
    if Touched(s.pcs[i]) < |s.caches| { assert CacheOk(s.caches[Touched(s.pcs[i])]); }
  }

  lemma MainEffect(s: State, i: nat, choice: bool, s': State)
    requires CachesOk(s) && i < |s.pcs| && PcOk(s.pcs[i], |s.caches|)
    requires !InShrink(s.pcs[i]) && MainStep(s, i, choice) == Some(s')
    ensures KeepsSlots(s, i, s')
  {
    if Touched(s.pcs[i]) < |s.caches| { assert CacheOk(s.caches[Touched(s.pcs[i])]); }
  }

  /** Every action of every thread keeps the invariant. */
  lemma InvStep(s: State, i: nat, a: Action, s': State, total: int)
    requires Inv(s, total) && i < |s.pcs| && Act(s, i, a) == Some(s')
    ensures Inv(s', total) && |s'.pcs| == |s.pcs| && |s'.caches| == |s.caches|
  {
    hide Act, OwnersOk, Becomes;
    ActMoves(s, i, a, s');
    ActEffect(s, i, a, s');
    OwnersKept(s, i, s'.pcs[i], s');
    MovedPcs(s, i, s'.pcs[i], s');
    InHandUpdate(s.pcs, i, s'.pcs[i]);
    var c := Touched(s.pcs[i]);
    if c < |s.caches| { TotalUpdate(s.caches, c, s'.caches[c]); }
  }

  lemma MovedPcs(s: State, i: nat, pc: Pc, s': State)
    requires i < |s.pcs| && Becomes(s, i, pc, s')
    ensures s'.pcs == s.pcs[i := pc]
  {
  }

  // --------------------------------------------------------------- whole runs

  function Min(a: int, b: int): int { if a < b then a else b }

  function Max(a: int, b: int): int { if a > b then a else b }

  /** CentralFreeList::Init: at most 64 entries, and at most 1 MB of objects or one
      entry; 16 entries to start with. */
  function InitialCache(cls: nat, bytes: int, objectsToMove: int): (k: Cache)
    requires cls > 0 ==> bytes > 0 && objectsToMove > 0
    ensures CacheOk(k) && k.size <= 16 && k.max <= 64 && k.max >= 1
  {
    var max := if cls == 0 then 64 else
      assert bytes * objectsToMove > 0;
      Min(64, Max(1, 1024 * 1024 / (bytes * objectsToMove)));
    Cache(0, Min(16, max), max)
  }

  ghost predicate Initial(s: State) {
    CachesOk(s) && s.owner == map[] && s.lost == 0 && forall i :: 0 <= i < |s.pcs| ==> s.pcs[i] == Idle
  }

  lemma {:induction false} AllIdle(pcs: seq<Pc>)
    requires forall i :: 0 <= i < |pcs| ==> pcs[i] == Idle
    ensures InHand(pcs) == 0
  {
    if pcs != [] { AllIdle(pcs[1..]); }
  }

  /** Let a scheduler pick threads and actions; actions that are not enabled, such
      as taking a lock someone holds, have no effect. */
  function After(s: State, schedule: seq<(nat, Action)>): State
    decreases |schedule|
  {
    if schedule == [] then s else
      var (i, a) := schedule[0];
      var next := if i < |s.pcs| && PcOk(s.pcs[i], |s.caches|) then Act(s, i, a) else None;
      After(if next.Some? then next.value else s, schedule[1..])
  }

  lemma {:induction false} InvRun(s: State, schedule: seq<(nat, Action)>, total: int)
    requires Inv(s, total)
    ensures Inv(After(s, schedule), total)
    decreases |schedule|
  {
    hide Act, Inv;
    if schedule != [] {
      var (i, a) := schedule[0];
      if i < |s.pcs| && PcOk(s.pcs[i], |s.caches|) && Act(s, i, a).Some? {
        InvStep(s, i, a, Act(s, i, a).value, total);
        InvRun(Act(s, i, a).value, schedule[1..], total);
      } else {
        InvRun(s, schedule[1..], total);
      }
    }
  }

  /** The transfer-cache protocol is safe in every reachable state: caches stay
      within bounds, slots are never created, and no thread holds two locks. */
  lemma ProtocolSafe(s: State, schedule: seq<(nat, Action)>)
    requires Initial(s)
    ensures var s' := After(s, schedule);
      && CachesOk(s')
      && TotalSize(s'.caches) + InHand(s'.pcs) + s'.lost == TotalSize(s.caches)
      && TotalSize(s'.caches) + InHand(s'.pcs) <= TotalSize(s.caches)
      && forall l, k :: l in s'.owner && k in s'.owner && s'.owner[l] == s'.owner[k] ==> l == k
  {
    AllIdle(s.pcs);
    InvRun(s, schedule, TotalSize(s.caches));
  }

  ghost predicate CanAct(s: State, i: nat) {
    i < |s.pcs| && PcOk(s.pcs[i], |s.caches|) && exists a :: Act(s, i, a).Some?
  }

  /** A thread that holds a lock never waits for another. */
  lemma HolderCanAct(s: State, i: nat)
    requires PcsOk(s) && i < |s.pcs| && Holds(s.pcs[i]).Some?
    ensures CanAct(s, i)
  {
    assert PcOk(s.pcs[i], |s.caches|);
    assert Act(s, i, Go(0, true)).Some?;
  }

  lemma FreeToGo(s: State, i: nat)
    requires PcsOk(s) && i < |s.pcs| && s.pcs[i] != Idle && Holds(s.pcs[i]).None?
    requires Wants(s.pcs[i]).Some? && Wants(s.pcs[i]).value !in s.owner
    ensures CanAct(s, i)
  {
    assert PcOk(s.pcs[i], |s.caches|);
    assert Act(s, i, Go(0, true)).Some?;
  }

  /** No deadlock: while some thread has work to do, that thread can act or the one
      whose lock it waits for can. */
  lemma NoDeadlock(s: State, total: int, i: nat)
    requires Inv(s, total) && i < |s.pcs| && s.pcs[i] != Idle
    ensures CanAct(s, i)
      || exists j :: j != i && Wants(s.pcs[i]).Some? && OwnedBy(s, Wants(s.pcs[i]).value, j) && CanAct(s, j)
  {
    hide Act;
    assert PcOk(s.pcs[i], |s.caches|);
    if Holds(s.pcs[i]).Some? {
      HolderCanAct(s, i);
    } else if Wants(s.pcs[i]).value !in s.owner {
      FreeToGo(s, i);
    } else {
      var j := s.owner[Wants(s.pcs[i]).value];
      HolderCanAct(s, j);
      assert OwnedBy(s, Wants(s.pcs[i]).value, j) && CanAct(s, j);
    }
  }

  // ------------------------------------------------------------- when slots are kept

  /** A thread comes back with a slot and finds its class at the maximum. */
  predicate GivesUp(s: State, i: nat, a: Action) {
    && i < |s.pcs| && a.Go? && s.pcs[i].Restored? && s.pcs[i].got
    && s.pcs[i].c < |s.caches| && s.caches[s.pcs[i].c].size >= s.caches[s.pcs[i].c].max
  }

  lemma LostExact(s: State, i: nat, a: Action, s': State)
    requires i < |s.pcs| && PcOk(s.pcs[i], |s.caches|) && Act(s, i, a) == Some(s')
    ensures s'.lost == s.lost + One(GivesUp(s, i, a))
  {
  }

  ghost predicate NeverGivesUp(s: State, schedule: seq<(nat, Action)>)
    decreases |schedule|
  {
    schedule != [] ==>
      var (i, a) := schedule[0];
      var next := if i < |s.pcs| && PcOk(s.pcs[i], |s.caches|) then Act(s, i, a) else None;
      && !GivesUp(s, i, a) && NeverGivesUp(if next.Some? then next.value else s, schedule[1..])
  }

  lemma {:induction false} RunLostExact(s: State, schedule: seq<(nat, Action)>)
    requires PcsOk(s)
    ensures After(s, schedule).lost >= s.lost
    ensures After(s, schedule).lost == s.lost <==> NeverGivesUp(s, schedule)
    decreases |schedule|
  {
    hide Act, GivesUp, PcOk;
    if schedule != [] {
      var (i, a) := schedule[0];
      if i < |s.pcs| && Act(s, i, a).Some? {
        var s' := Act(s, i, a).value;
        LostExact(s, i, a, s');
        PcsKept(s, i, a, s');
        RunLostExact(s', schedule[1..]);
      } else {
        if i < |s.pcs| { GivingUpActs(s, i, a); }
        NotAThread(s, i, a);
        RunLostExact(s, schedule[1..]);
      }
    }
  }

  lemma NotAThread(s: State, i: nat, a: Action)
    ensures GivesUp(s, i, a) ==> i < |s.pcs|
  {
  }

  lemma GivingUpActs(s: State, i: nat, a: Action)
    requires i < |s.pcs| && PcOk(s.pcs[i], |s.caches|)
    ensures GivesUp(s, i, a) ==> Act(s, i, a).Some?
  {
  }

  lemma PcsKept(s: State, i: nat, a: Action, s': State)
    requires PcsOk(s) && i < |s.pcs| && Act(s, i, a) == Some(s')
    ensures PcsOk(s') && |s'.caches| == |s.caches|
  {
    hide Act, PcOk;
    ActMoves(s, i, a, s');
    MovedPcs(s, i, s'.pcs[i], s');
    SameCaches(s, i, a, s');
  }

  lemma SameCaches(s: State, i: nat, a: Action, s': State)
    requires i < |s.pcs| && PcOk(s.pcs[i], |s.caches|) && Act(s, i, a) == Some(s')
    ensures |s'.caches| == |s.caches|
  {
  }

  /** Slots are conserved over a run exactly when no thread ever gives one up. */
  lemma SlotsKeptExact(s: State, schedule: seq<(nat, Action)>)
    requires Initial(s)
    ensures var s' := After(s, schedule);
      TotalSize(s'.caches) + InHand(s'.pcs) == TotalSize(s.caches) <==> NeverGivesUp(s, schedule)
  {
    ProtocolSafe(s, schedule);
    RunLostExact(s, schedule);
  }

  /** The class a thread inserts into. */
  function InsertsInto(pc: Pc): Option<nat> {
    match pc
    case InsertWait(c, _) => Some(c)
    case Inserting(c, _) => Some(c)
    case _ => SlotFor(pc)
  }

  /** The class a thread seeks a slot for. */
  function SlotFor(pc: Pc): Option<nat> {
    match pc
    case HeapWait(back) => SlotFor(back)
    case InHeap(back) => SlotFor(back)
    case Relock(back) => SlotFor(back)
    case _ => if InShrink(pc) then Some(pc.c) else None
  }

  /** A class that a thread seeks a slot for has room, and each class is inserted into by
      its one thread. */
  ghost predicate Roomy(s: State, inserter: nat -> nat) {
    && (forall i :: 0 <= i < |s.pcs| ==> HasRoom(s.caches, s.pcs[i]))
    && (forall i :: 0 <= i < |s.pcs| && InsertsInto(s.pcs[i]).Some? ==> inserter(InsertsInto(s.pcs[i]).value) == i)
  }

  ghost predicate HasRoom(caches: seq<Cache>, pc: Pc) {
    SlotFor(pc).Some? ==> SlotFor(pc).value < |caches| && caches[SlotFor(pc).value].size < caches[SlotFor(pc).value].max
  }

  /** Only the class that thread `i` seeks a slot for may have grown. */
  ghost predicate NoneGrew(s: State, pc: Pc, s': State) {
    && |s'.caches| == |s.caches|
    && forall c :: 0 <= c < |s.caches| && SlotFor(pc) != Some(c) ==>
         s'.caches[c].max == s.caches[c].max && s'.caches[c].size <= s.caches[c].size
  }

  lemma StepRoom(s: State, i: nat, a: Action, s': State)
    requires CachesOk(s) && PcsOk(s) && i < |s.pcs| && Act(s, i, a) == Some(s') && HasRoom(s.caches, s.pcs[i])
    ensures |s'.pcs| == |s.pcs| && HasRoom(s'.caches, s'.pcs[i]) && NoneGrew(s, s.pcs[i], s') && s'.lost == s.lost
    ensures InsertsInto(s'.pcs[i]).Some? ==>
      InsertsInto(s'.pcs[i]) == InsertsInto(s.pcs[i]) || (a.StartInsert? && InsertsInto(s'.pcs[i]) == Some(a.cls))
  {
    assert PcOk(s.pcs[i], |s.caches|);
    if a.Go? {
      hide ShrinkStep, MainStep, NoneGrew, HasRoom, InsertsInto;
      if InShrink(s.pcs[i]) {
        ShrinkRoom(s, i, a.pick, a.choice, s');
      } else {
        MainRoom(s, i, a.choice, s');
      }
    }
  }

  lemma ShrinkRoom(s: State, i: nat, pick: nat, choice: bool, s': State)
    requires CachesOk(s) && i < |s.pcs| && PcOk(s.pcs[i], |s.caches|) && InShrink(s.pcs[i])
    requires ShrinkStep(s, i, pick, choice) == Some(s') && HasRoom(s.caches, s.pcs[i])
    ensures |s'.pcs| == |s.pcs| && HasRoom(s'.caches, s'.pcs[i]) && NoneGrew(s, s.pcs[i], s') && s'.lost == s.lost
    ensures InsertsInto(s'.pcs[i]).Some? ==> InsertsInto(s'.pcs[i]) == InsertsInto(s.pcs[i])
  {
  }

  lemma MainRoom(s: State, i: nat, choice: bool, s': State)
    requires CachesOk(s) && i < |s.pcs| && PcOk(s.pcs[i], |s.caches|) && !InShrink(s.pcs[i])
    requires MainStep(s, i, choice) == Some(s') && HasRoom(s.caches, s.pcs[i])
    ensures |s'.pcs| == |s.pcs| && HasRoom(s'.caches, s'.pcs[i]) && NoneGrew(s, s.pcs[i], s') && s'.lost == s.lost
    ensures InsertsInto(s'.pcs[i]).Some? ==> InsertsInto(s'.pcs[i]) == InsertsInto(s.pcs[i])
  {
    if s.pcs[i].Inserting? { assert CacheOk(s.caches[s.pcs[i].c]); }
  }

  lemma RoomyStep(s: State, i: nat, a: Action, s': State, inserter: nat -> nat)
    requires CachesOk(s) && PcsOk(s) && i < |s.pcs| && Act(s, i, a) == Some(s') && Roomy(s, inserter)
    requires a.StartInsert? ==> inserter(a.cls) == i
    ensures Roomy(s', inserter) && s'.lost == s.lost
  {
    hide Act, PcOk;
    StepRoom(s, i, a, s');
    ActMoves(s, i, a, s');
    MovedPcs(s, i, s'.pcs[i], s');
    hide InsertsInto, SlotFor;
    forall j | 0 <= j < |s'.pcs| && j != i ensures HasRoom(s'.caches, s'.pcs[j]) {
      SeekersInsert(s.pcs[i]);
      SeekersInsert(s.pcs[j]);
    }
  }

  lemma SeekersInsert(pc: Pc)
    ensures SlotFor(pc).Some? ==> InsertsInto(pc) == SlotFor(pc)
  {
  }

  /** Every class is inserted into by one thread only. */
  ghost predicate OneInserter(schedule: seq<(nat, Action)>, inserter: nat -> nat) {
    forall k :: 0 <= k < |schedule| && schedule[k].1.StartInsert? ==> inserter(schedule[k].1.cls) == schedule[k].0
  }

  lemma {:induction false} RoomyRun(s: State, schedule: seq<(nat, Action)>, inserter: nat -> nat, total: int)
    requires Inv(s, total) && Roomy(s, inserter) && OneInserter(schedule, inserter)
    ensures After(s, schedule).lost == s.lost
    decreases |schedule|
  {
    hide Act, Inv, Roomy;
    if schedule != [] {
      var (i, a) := schedule[0];
      assert OneInserter(schedule[1..], inserter);
      if i < |s.pcs| && PcOk(s.pcs[i], |s.caches|) && Act(s, i, a).Some? {
        var s' := Act(s, i, a).value;
        InvStep(s, i, a, s', total);
        InvParts(s, total);
        RoomyStep(s, i, a, s', inserter);
        RoomyRun(s', schedule[1..], inserter, total);
      } else {
        RoomyRun(s, schedule[1..], inserter, total);
      }
    }
  }

  lemma InvParts(s: State, total: int)
    requires Inv(s, total)
    ensures CachesOk(s) && PcsOk(s)
  {
  }

  /** Slots are conserved whenever no two threads insert into one class, in particular by a
      single thread. */
  lemma SlotsKept(s: State, schedule: seq<(nat, Action)>, inserter: nat -> nat)
    requires Initial(s) && OneInserter(schedule, inserter)
    ensures var s' := After(s, schedule);
      TotalSize(s'.caches) + InHand(s'.pcs) == TotalSize(s.caches) && s'.lost == 0
  {
    AllIdle(s.pcs);
    ProtocolSafe(s, schedule);
    RoomyRun(s, schedule, inserter, TotalSize(s.caches));
  }

  /** A single thread loses nothing, whatever it does. */
  lemma {:induction false} AloneKeepsSlots(s: State, schedule: seq<(nat, Action)>)
    requires Initial(s) && |s.pcs| == 1
    ensures var s' := After(s, schedule); TotalSize(s'.caches) + InHand(s'.pcs) == TotalSize(s.caches)
  {
    OnlyThreadZero(s, schedule);
    SlotsKept(s, Mine(schedule), _ => 0);
  }

  /** The actions of thread 0; the others find no thread. */
  ghost function Mine(schedule: seq<(nat, Action)>): seq<(nat, Action)> {
    if schedule == [] then [] else (if schedule[0].0 == 0 then [schedule[0]] else []) + Mine(schedule[1..])
  }

  lemma {:induction false} OnlyThreadZero(s: State, schedule: seq<(nat, Action)>)
    requires |s.pcs| == 1 && PcsOk(s)
    ensures After(s, Mine(schedule)) == After(s, schedule) && OneInserter(Mine(schedule), _ => 0)
    decreases |schedule|
  {
    hide Act, PcOk;
    if schedule != [] {
      var (i, a) := schedule[0];
      var rest := Mine(schedule[1..]);
      if i == 0 {
        assert Mine(schedule) == [(i, a)] + rest && Mine(schedule)[1..] == rest;
        if Act(s, i, a).Some? {
          var s' := Act(s, i, a).value;
          PcsKept(s, i, a, s');
          ActMoves(s, i, a, s');
          MovedPcs(s, i, s'.pcs[i], s');
          OnlyThreadZero(s', schedule[1..]);
        } else {
          OnlyThreadZero(s, schedule[1..]);
        }
      } else {
        assert Mine(schedule) == rest;
        OnlyThreadZero(s, schedule[1..]);
      }
    }
  }

  // ------------------------------------------------------------- a slot is lost

  lemma {:induction false} AfterAppend(s: State, x: seq<(nat, Action)>, y: seq<(nat, Action)>)
    ensures After(s, x + y) == After(After(s, x), y)
    decreases |x|
  {
    hide Act;
    if x == [] {
      assert x + y == y;
    } else {
      var (i, a) := x[0];
      var next := if i < |s.pcs| && PcOk(s.pcs[i], |s.caches|) then Act(s, i, a) else None;
      AfterAppend(if next.Some? then next.value else s, x[1..], y);
      assert (x + y)[1..] == x[1..] + y;
    }
  }

  lemma AfterOne(s: State, i: nat, a: Action, s': State, rest: seq<(nat, Action)>)
    requires i < |s.pcs| && PcOk(s.pcs[i], |s.caches|) && Act(s, i, a) == Some(s')
    ensures After(s, [(i, a)] + rest) == After(s', rest)
  {
    hide Act;
    assert ([(i, a)] + rest)[1..] == rest;
  }

  const GO: Action := Go(1, true)

  /** Thread `i` finds class 0 full and lets go of it to try class 1. */
  function LeaveClass(i: nat): seq<(nat, Action)> {
    [(i, StartInsert(0, true))] + ([(i, GO)] + ([(i, GO)] + ([(i, GO)] + ([(i, GO)] + []))))
  }

  /** It takes the next lock and does its work under it. */
  function NextSection(i: nat): seq<(nat, Action)> { [(i, GO)] + ([(i, GO)] + []) }

  ghost predicate Ready(s: State, i: nat) { |s.caches| == 2 && s.owner == map[] && i < |s.pcs| }

  lemma FindsFull(s: State, i: nat)
    requires Ready(s, i) && s.pcs[i] == InsertWait(0, true)
    ensures PcOk(s.pcs[i], 2) && Act(s, i, GO) == Some(Entered(s, i, ClassLock(0), Inserting(0, true)))
  {
  }

  lemma SeeksSlot(s: State, i: nat)
    requires |s.caches| == 2 && i < |s.pcs| && s.pcs[i] == Inserting(0, true)
    requires s.caches[0].used == s.caches[0].size < s.caches[0].max
    ensures PcOk(s.pcs[i], 2) && Act(s, i, GO) == Some(At(s, i, Evict(0, false)))
  {
  }

  lemma PicksOther(s: State, i: nat)
    requires |s.caches| == 2 && i < |s.pcs| && s.pcs[i] == Evict(0, false)
    ensures PcOk(s.pcs[i], 2) && Act(s, i, GO) == Some(At(s, i, ShrinkCheck(0, 1, false)))
  {
  }

  lemma LetsGo(s: State, i: nat)
    requires |s.caches| == 2 && i < |s.pcs| && s.pcs[i] == ShrinkCheck(0, 1, false)
    ensures PcOk(s.pcs[i], 2) && Act(s, i, GO) == Some(DropLock(s, i, ClassLock(0), ShrinkWait(0, 1, false)))
  {
  }

  lemma Starts(s: State, i: nat)
    requires |s.caches| == 2 && i < |s.pcs| && s.pcs[i] == Idle
    ensures PcOk(s.pcs[i], 2) && Act(s, i, StartInsert(0, true)) == Some(At(s, i, InsertWait(0, true)))
  {
  }

  lemma LeavesClass(s: State, i: nat)
    requires Ready(s, i) && s.pcs[i] == Idle && s.caches[0].used == s.caches[0].size < s.caches[0].max
    ensures After(s, LeaveClass(i)) == At(s, i, ShrinkWait(0, 1, false))
  {
    hide After, Act, PcOk;
    var s1 := At(s, i, InsertWait(0, true));
    var s2 := Entered(s1, i, ClassLock(0), Inserting(0, true));
    var s3 := At(s2, i, Evict(0, false));
    var s4 := At(s3, i, ShrinkCheck(0, 1, false));
    var s5 := DropLock(s4, i, ClassLock(0), ShrinkWait(0, 1, false));
    Starts(s, i);
    FindsFull(s1, i);
    SeeksSlot(s2, i);
    PicksOther(s3, i);
    LetsGo(s4, i);
    AfterNone(s5);
    AfterOne(s4, i, GO, s5, []);
    AfterOne(s3, i, GO, s4, [(i, GO)] + []);
    AfterOne(s2, i, GO, s3, [(i, GO)] + ([(i, GO)] + []));
    AfterOne(s1, i, GO, s2, [(i, GO)] + ([(i, GO)] + ([(i, GO)] + [])));
    AfterOne(s, i, StartInsert(0, true), s1, [(i, GO)] + ([(i, GO)] + ([(i, GO)] + ([(i, GO)] + []))));
    assert s5.owner == s.owner && s5.pcs == s.pcs[i := ShrinkWait(0, 1, false)];
  }

  lemma TwoSteps(s: State, i: nat, s1: State, s2: State)
    requires i < |s.pcs| && PcOk(s.pcs[i], |s.caches|) && Act(s, i, GO) == Some(s1)
    requires i < |s1.pcs| && PcOk(s1.pcs[i], |s1.caches|) && Act(s1, i, GO) == Some(s2)
    ensures After(s, NextSection(i)) == s2
  {
    hide After, Act;
    AfterNone(s2);
    AfterOne(s1, i, GO, s2, []);
    AfterOne(s, i, GO, s1, [(i, GO)] + []);
  }

  /** The thread takes the lock it waits for. */
  function Entered(s: State, i: nat, l: Lock, pc: Pc): State
    requires i < |s.pcs|
  {
    At(s, i, pc).(owner := s.owner[l := i])
  }

  lemma EntersOther(s: State, i: nat)
    requires Ready(s, i) && s.pcs[i] == ShrinkWait(0, 1, false)
    ensures PcOk(s.pcs[i], 2) && Act(s, i, GO) == Some(Entered(s, i, ClassLock(1), Shrinking(0, 1, false)))
  {
  }

  lemma EntersOwn(s: State, i: nat)
    requires Ready(s, i) && s.pcs[i] == RestoreWait(0, false, true)
    ensures PcOk(s.pcs[i], 2) && Act(s, i, GO) == Some(Entered(s, i, ClassLock(0), Restored(0, false, true)))
  {
  }

  lemma TakesUnused(s: State, i: nat)
    requires |s.caches| == 2 && i < |s.pcs| && s.pcs[i] == Shrinking(0, 1, false)
    requires 0 <= s.caches[1].used < s.caches[1].size
    ensures PcOk(s.pcs[i], 2)
    ensures var k := s.caches[1];
      Act(s, i, GO) ==
        Some(DropLock(WithCache(s, 1, k.(size := k.size - 1)), i, ClassLock(1), RestoreWait(0, false, true)))
  {
  }

  lemma Claims(s: State, i: nat)
    requires |s.caches| == 2 && i < |s.pcs| && s.pcs[i] == Restored(0, false, true)
    ensures PcOk(s.pcs[i], 2)
    ensures var k := s.caches[0];
      Act(s, i, GO) == Some(if k.size < k.max then StoreChain(WithCache(s, 0, k.(size := k.size + 1)), i, 0)
                            else At(s, i, Releasing(0)).(lost := s.lost + 1))
  {
  }

  lemma TakesSlot(s: State, i: nat)
    requires Ready(s, i) && s.pcs[i] == ShrinkWait(0, 1, false) && 0 <= s.caches[1].used < s.caches[1].size
    ensures var k := s.caches[1];
      After(s, NextSection(i)) == At(WithCache(s, 1, k.(size := k.size - 1)), i, RestoreWait(0, false, true))
  {
    hide After, Act, PcOk, NextSection;
    var k := s.caches[1];
    var s1 := Entered(s, i, ClassLock(1), Shrinking(0, 1, false));
    var s2 := DropLock(WithCache(s1, 1, k.(size := k.size - 1)), i, ClassLock(1), RestoreWait(0, false, true));
    EntersOther(s, i);
    TakesUnused(s1, i);
    TwoSteps(s, i, s1, s2);
    assert s2.owner == s.owner && s2.pcs == s.pcs[i := RestoreWait(0, false, true)];
  }

  lemma AfterNone(s: State)
    ensures After(s, []) == s
  {
  }

  lemma ClaimsSlot(s: State, i: nat)
    requires Ready(s, i) && s.pcs[i] == RestoreWait(0, false, true)
    ensures var k, s' := s.caches[0], After(s, NextSection(i));
      if k.size < k.max then s' == At(WithCache(s, 0, Cache(k.used + 1, k.size + 1, k.max)), i, Idle)
      else s'.lost == s.lost + 1
  {
    hide After, Act, PcOk, NextSection;
    var k := s.caches[0];
    var s1 := Entered(s, i, ClassLock(0), Restored(0, false, true));
    EntersOwn(s, i);
    Claims(s1, i);
    var s2 := Act(s1, i, GO).value;
    TwoSteps(s, i, s1, s2);
    assert k.size < k.max ==> s2.owner == s.owner && s2.pcs == s.pcs[i := Idle];
    assert k.size < k.max ==> s2.caches == s.caches[0 := Cache(k.used + 1, k.size + 1, k.max)];
  }

  /** Class 0 has one slot of at most two, in use; class 1 has two unused ones.  Two threads
      park a batch in class 0.  Each takes a slot from class 1; the second claims its slot
      first, which brings class 0 to its maximum; the slot in the first one's hand is given
      up, and from then on there is one less. */
  lemma SlotLost()
    ensures
      var s := State([Cache(1, 1, 2), Cache(0, 2, 2)], map[], [Idle, Idle], 0);
      var second := LeaveClass(1) + (NextSection(1) + (NextSection(1) + NextSection(0)));
      && Initial(s) && After(s, LeaveClass(0) + (NextSection(0) + second)).lost == 1
  {
    hide After, LeaveClass, NextSection, Act;
    var wait, back := ShrinkWait(0, 1, false), RestoreWait(0, false, true);
    var s := State([Cache(1, 1, 2), Cache(0, 2, 2)], map[], [Idle, Idle], 0);
    var s1 := State([Cache(1, 1, 2), Cache(0, 2, 2)], map[], [wait, Idle], 0);
    var s2 := State([Cache(1, 1, 2), Cache(0, 1, 2)], map[], [back, Idle], 0);
    var s3 := State([Cache(1, 1, 2), Cache(0, 1, 2)], map[], [back, wait], 0);
    var s4 := State([Cache(1, 1, 2), Cache(0, 0, 2)], map[], [back, back], 0);
    var s5 := State([Cache(2, 2, 2), Cache(0, 0, 2)], map[], [back, Idle], 0);
    var claims := NextSection(1) + NextSection(0);
    LeavesClass(s, 0);
    AfterAppend(s, LeaveClass(0), NextSection(0) + (LeaveClass(1) + (NextSection(1) + claims)));
    assert After(s, LeaveClass(0)) == s1;
    TakesSlot(s1, 0);
    AfterAppend(s1, NextSection(0), LeaveClass(1) + (NextSection(1) + claims));
    assert After(s1, NextSection(0)) == s2;
    LeavesClass(s2, 1);
    AfterAppend(s2, LeaveClass(1), NextSection(1) + claims);
    assert After(s2, LeaveClass(1)) == s3;
    TakesSlot(s3, 1);
    AfterAppend(s3, NextSection(1), claims);
    assert After(s3, NextSection(1)) == s4;
    ClaimsSlot(s4, 1);
    AfterAppend(s4, NextSection(1), NextSection(0));
    assert After(s4, NextSection(1)) == s5;
    ClaimsSlot(s5, 0);
  }
}
