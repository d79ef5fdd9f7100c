/**
  * CLockingRefCountLite (critsect.h:636-802): a count that can be locked against increments and
  * then drained. Every operation runs under the inner spin lock m_syncLock; its loads and its store
  * are separate steps here, and so are the compare-and-swap and the store that take and give back
  * the spin lock.
  */
module LockingRefCount {
  import Runs
  import Sums

  const USHORT_SPAN := 0x10000
  type UShort = x: int | 0 <= x < USHORT_SPAN

  const LOCKED: UShort := 0
  const UNLOCKED: UShort := 1

  datatype Op = TryIncrement | Increment | Decrement | Lock | Unlock | GetCount | WaitZeroRef

  datatype Pc =
    | Idle
    | Sync         // about to InterlockedCompareExchange(&m_syncLock, LOCK_FLAG, 0)
    | LoadLock     // about to load m_lock
    | LoadCount    // about to load m_refCount
    | StoreCount   // about to store m_refCount
    | StoreLock    // about to store m_lock
    | Release      // about to store m_syncLock = 0, then return or try again

  /** A thread: its operation, the values it loaded, what it will return, and how many references it holds. */
  datatype Thread = Thread(pc: Pc, op: Op, locked: UShort, count: UShort, result: int, holds: nat) {
    predicate InSync() {
      !pc.Idle? && !pc.Sync?
    }
  }

  datatype State = State(lock: UShort, refCount: UShort, syncLock: int, threads: seq<Thread>)

  ghost predicate Init(s: State) {
    && s.lock == UNLOCKED && s.refCount == 0 && s.syncLock == 0
    && forall t :: 0 <= t < |s.threads| ==> s.threads[t].pc.Idle? && s.threads[t].holds == 0
  }

  function FirstLoad(op: Op): Pc {
    if op.Decrement? || op.GetCount? || op.WaitZeroRef? then LoadCount else LoadLock
  }

  function Moved(s: State, t: nat, th: Thread): State
    requires t < |s.threads|
  {
    s.(threads := s.threads[t := th])
  }

  /** Only holders decrement. */
  predicate Enabled(s: State, t: nat, call: Op) {
    t < |s.threads| && (s.threads[t].pc.Idle? && call.Decrement? ==> s.threads[t].holds > 0)
  }

  function Step(s: State, t: nat, call: Op): State
    requires t < |s.threads|
  {
    var th := s.threads[t];
    match th.pc
    case Idle => Moved(s, t, th.(pc := Sync, op := call))
    case Sync => if s.syncLock != 0 then s else Moved(s, t, th.(pc := FirstLoad(th.op))).(syncLock := 1)
    case LoadLock =>
      Moved(s, t, th.(pc := if th.op.Lock? || th.op.Unlock? then StoreLock else LoadCount, locked := s.lock))
    case LoadCount =>
      if th.op.GetCount? || th.op.WaitZeroRef?
      then Moved(s, t, th.(pc := Release, count := s.refCount, result := s.refCount))
      else Moved(s, t, th.(pc := StoreCount, count := s.refCount))
    case StoreCount =>
      if th.op.Decrement?
      then Moved(s, t, th.(pc := Release, result := 0, holds := if th.holds > 0 then th.holds - 1 else 0)).(
             refCount := (th.count - 1) % USHORT_SPAN)
      else Moved(s, t, th.(pc := Release, result := th.locked, holds := th.holds + th.locked)).(
             refCount := (th.count + th.locked) % USHORT_SPAN)
    case StoreLock =>
      Moved(s, t, th.(pc := Release, result := if th.locked == LOCKED then 1 else 0)).(
        lock := if th.op.Lock? then LOCKED else UNLOCKED)
    case Release => Moved(s, t, th.(pc := if TriesAgain(th) then Sync else Idle)).(syncLock := 0)
  }

  /** Increment spins while the count is locked, WaitZeroRef while it is not zero. */
  predicate TriesAgain(th: Thread) {
    (th.op.Increment? && th.result == 0) || (th.op.WaitZeroRef? && th.result != 0)
  }

  // ------ the atomic object -------------------------------------------------------------------

  /** One operation in one step: the new lock and count, and what the operation returns. */
  datatype Atomic = Atomic(lock: UShort, refCount: UShort, result: int)

  function Apply(lock: UShort, refCount: UShort, op: Op): Atomic {
    match op
    case TryIncrement => Atomic(lock, (refCount + lock) % USHORT_SPAN, lock)
    case Increment => Atomic(lock, (refCount + lock) % USHORT_SPAN, lock)
    case Decrement => Atomic(lock, (refCount - 1) % USHORT_SPAN, 0)
    case Lock => Atomic(LOCKED, refCount, if lock == LOCKED then 1 else 0)
    case Unlock => Atomic(UNLOCKED, refCount, if lock == LOCKED then 1 else 0)
    case _ => Atomic(lock, refCount, refCount)
  }

  /** Thread t is about to execute the step at which its operation takes effect. */
  predicate TakesEffect(s: State, t: nat) {
    && t < |s.threads|
    && (s.threads[t].pc.StoreCount? || s.threads[t].pc.StoreLock?
        || (s.threads[t].pc.LoadCount? && (s.threads[t].op.GetCount? || s.threads[t].op.WaitZeroRef?)))
  }

  // ------ the invariant -----------------------------------------------------------------------

  function Holds(th: Thread): nat {
    th.holds
  }

  function Held(s: State): nat {
    Sums.Sum(Holds, s.threads)
  }

  /** Fewer than 2^16 references are held. */
  ghost predicate Bounded(s: State) {
    Held(s) < USHORT_SPAN
  }

  predicate PcFits(th: Thread) {
    && (th.pc.LoadLock? ==> FirstLoad(th.op).LoadLock?)
    && (th.pc.LoadCount? ==> !th.op.Lock? && !th.op.Unlock?)
    && (th.pc.StoreCount? ==> th.op.TryIncrement? || th.op.Increment? || th.op.Decrement?)
    && (th.pc.StoreLock? ==> th.op.Lock? || th.op.Unlock?)
  }

  ghost predicate ThreadOk(s: State, t: nat)
    requires t < |s.threads|
  {
    var th := s.threads[t];
    && PcFits(th)
    && (th.InSync() ==> s.syncLock == 1 && forall u :: 0 <= u < |s.threads| && s.threads[u].InSync() ==> u == t)
    && (th.pc.StoreLock? || ((th.pc.LoadCount? || th.pc.StoreCount?) && FirstLoad(th.op).LoadLock?) ==>
      th.locked == s.lock)
    && (th.pc.StoreCount? ==> th.count == s.refCount)
    && (th.op.Decrement? && !th.pc.Idle? && !th.pc.Release? ==> th.holds > 0)
  }

  ghost predicate Inv(s: State) {
    && s.lock <= 1 && (s.syncLock == 0 || s.syncLock == 1)
    && s.refCount == Held(s) % USHORT_SPAN
    && (s.syncLock == 0 <==> forall t :: 0 <= t < |s.threads| ==> !s.threads[t].InSync())
    && forall t :: 0 <= t < |s.threads| ==> ThreadOk(s, t)
  }

  /** The inner spin lock makes every operation one atomic step, taken at its store or at the count's load. */
  lemma EffectIsAtomic(s: State, t: nat, call: Op)
    requires Inv(s) && t < |s.threads|
    ensures var s' := Step(s, t, call);
      if TakesEffect(s, t)
      then Atomic(s'.lock, s'.refCount, s'.threads[t].result) == Apply(s.lock, s.refCount, s.threads[t].op)
      else s'.lock == s.lock && s'.refCount == s.refCount
  {
    assert ThreadOk(s, t);
  }

  lemma HeldMoves(s: State, t: nat, call: Op)
    requires t < |s.threads|
    ensures Held(Step(s, t, call)) == Held(s) - s.threads[t].holds + Step(s, t, call).threads[t].holds
  {
    var s' := Step(s, t, call);
    assert s'.threads == s.threads[t := s'.threads[t]];
    Sums.SumUpdate(Holds, s.threads, t, s'.threads[t]);
  }

  lemma StepKeepsCount(s: State, t: nat, call: Op)
    requires Inv(s) && t < |s.threads|
    ensures var s' := Step(s, t, call); s'.refCount == Held(s') % USHORT_SPAN && s'.lock <= 1
  {
    HeldMoves(s, t, call);
    assert ThreadOk(s, t);
  }

  lemma StepKeepsSync(s: State, t: nat, call: Op)
    requires Inv(s) && t < |s.threads|
    ensures var s' := Step(s, t, call);
      && (s'.syncLock == 0 || s'.syncLock == 1)
      && (s'.syncLock == 0 <==> forall u :: 0 <= u < |s'.threads| ==> !s'.threads[u].InSync())
  {
    var s' := Step(s, t, call);
    assert ThreadOk(s, t);
    if !s.threads[t].InSync() && s.syncLock == 1 {
      var u :| 0 <= u < |s.threads| && s.threads[u].InSync();
      assert s'.threads[u].InSync();
    } else {
      assert s'.syncLock == 1 ==> s'.threads[t].InSync();
    }
  }

  lemma StepKeepsInv(s: State, t: nat, call: Op)
    requires Inv(s) && Enabled(s, t, call)
    ensures Inv(Step(s, t, call))
  {
    var s' := Step(s, t, call);
    StepKeepsCount(s, t, call);
    assert ThreadOk(s, t);
    StepKeepsSync(s, t, call);
    forall u | 0 <= u < |s'.threads| ensures ThreadOk(s', u) {
      assert ThreadOk(s, u);
    }
  }

  lemma InitInv(s: State)
    requires Init(s)
    ensures Inv(s)
  {
    Sums.SumZero(Holds, s.threads);
  }

  // ------ theorems ----------------------------------------------------------------------------

  ghost predicate Next(s: State, s': State) {
    exists t: nat, call: Op :: Enabled(s, t, call) && s' == Step(s, t, call)
  }

  ghost predicate Run(run: seq<State>) {
    Runs.IsRun(Init, Next, run)
  }

  lemma InvAlongRun(run: seq<State>, i: nat)
    requires Run(run) && i < |run|
    ensures Inv(run[i])
  {
    forall s | Init(s) ensures Inv(s) {
      InitInv(s);
    }
    forall s, s' | Inv(s) && Next(s, s') ensures Inv(s') {
      var t: nat, call: Op :| Enabled(s, t, call) && s' == Step(s, t, call);
      StepKeepsInv(s, t, call);
    }
    Runs.Invariance(Init, Next, Inv, run, i);
  }

  /** The store of an Unlock happens between s and s'. */
  ghost predicate Unlocks(s: State, s': State) {
    exists t: nat :: UnlocksBy(s, s', t)
  }

  predicate UnlocksBy(s: State, s': State, t: nat) {
    t < |s.threads| && s.threads[t].pc.StoreLock? && s.threads[t].op.Unlock? && s' == Step(s, t, Unlock)
  }

  predicate Drained(s: State) {
    s.lock == LOCKED && Held(s) == 0
  }

  lemma StaysLockedOnce(s: State, s': State)
    requires Inv(s) && Next(s, s') && !Unlocks(s, s') && s.lock == LOCKED
    ensures s'.lock == LOCKED
    ensures Held(s') <= Held(s)
  {
    var t: nat, call: Op :| Enabled(s, t, call) && s' == Step(s, t, call);
    EffectIsAtomic(s, t, call);
    HeldMoves(s, t, call);
    assert ThreadOk(s, t);
    assert !UnlocksBy(s, s', t);
  }

  lemma StaysLocked(run: seq<State>, i: nat, j: nat)
    requires Run(run) && i <= j < |run| && run[i].lock == LOCKED
    requires forall k :: i <= k < j ==> !Unlocks(run[k], run[k + 1])
    ensures run[j].lock == LOCKED && Held(run[j]) <= Held(run[i])
  {
    var p := (s: State) => s.lock == LOCKED && Held(s) <= Held(run[i]);
    forall k | i <= k < j && p(run[k]) ensures p(run[k + 1]) {
      InvAlongRun(run, k);
      Runs.StepOf(Init, Next, run, k);
      StaysLockedOnce(run[k], run[k + 1]);
    }
    Runs.Persistence(run, p, i, j);
  }

  /**
    * The drain protocol: Lock takes effect in step h, WaitZeroRef loads 0 in the later step i, and no
    * Unlock takes effect up to j. Then at j nobody holds a reference, and the count is still locked.
    */
  lemma DrainedUntilUnlock(run: seq<State>, h: nat, locker: nat, i: nat, waiter: nat, j: nat)
    requires Run(run) && h < i <= j < |run| && Bounded(run[i])
    requires locker < |run[h].threads| && run[h].threads[locker].pc.StoreLock? && run[h].threads[locker].op.Lock?
    requires run[h + 1] == Step(run[h], locker, Lock)
    requires waiter < |run[i].threads| && run[i].threads[waiter].pc.LoadCount? && run[i].threads[waiter].op.WaitZeroRef?
    requires run[i].refCount == 0
    requires forall k :: h < k < j ==> !Unlocks(run[k], run[k + 1])
    ensures Drained(run[j])
    ensures forall t :: 0 <= t < |run[j].threads| ==> run[j].threads[t].holds == 0
  {
    StaysLocked(run, h + 1, i);
    InvAlongRun(run, i);
    StaysLocked(run, i, j);
    Sums.SumZero(Holds, run[j].threads);
    forall t | 0 <= t < |run[j].threads| ensures run[j].threads[t].holds == 0 {
      assert Holds(run[j].threads[t]) == 0;
    }
  }

  /** While it is locked no attempt to increment succeeds: none returns TRUE. */
  lemma LockedRefusesIncrements(s: State, t: nat, call: Op)
    requires Inv(s) && t < |s.threads| && s.lock == LOCKED
    requires s.threads[t].pc.StoreCount? && !s.threads[t].op.Decrement?
    ensures Step(s, t, call).threads[t].result == 0 && Step(s, t, call).threads[t].holds == s.threads[t].holds
    ensures Step(s, t, call).refCount == s.refCount
  {
    assert ThreadOk(s, t);
  }

  // ------ the object --------------------------------------------------------------------------

  class LockingRefCounter {
    var lock: UShort                // m_lock
    var refCount: UShort            // m_refCount
    var syncLock: int               // m_syncLock
    ghost var threads: seq<Thread>

    ghost function Snapshot(): State
      reads this
    {
      State(lock, refCount, syncLock, threads)
    }

    ghost predicate At(t: nat, pc: Pc)
      reads this
    {
      Inv(Snapshot()) && t < |threads| && threads[t].pc == pc
    }

    constructor (n: nat)
      ensures Inv(Snapshot()) && Init(Snapshot()) && |threads| == n
    {
      lock, refCount, syncLock := UNLOCKED, 0, 0;
      threads := seq(n, _ => Thread(Idle, GetCount, 0, 0, 0, 0));
      new;
      InitInv(Snapshot());
    }

    /** A call: nothing shared is touched. */
    ghost method Proceed(t: nat, call: Op)
      requires At(t, Idle) && Enabled(Snapshot(), t, call)
      modifies this`threads
      ensures Snapshot() == old(Step(Snapshot(), t, call)) && Inv(Snapshot())
    {
      StepKeepsInv(Snapshot(), t, call);
      threads := Step(Snapshot(), t, call).threads;
    }

    /** Under the spin lock, the load of the lock word, or else of the count. */
    method Load(t: nat, ghost op: Op, first: bool) returns (loaded: UShort)
      requires At(t, if first then LoadLock else LoadCount)
      requires threads[t].op == op && !op.GetCount? && !op.WaitZeroRef?
      modifies this`threads
      ensures Snapshot() == old(Step(Snapshot(), t, op)) && Inv(Snapshot())
      ensures loaded == if first then threads[t].locked else threads[t].count
    {
      StepKeepsInv(Snapshot(), t, op);
      threads := Step(Snapshot(), t, op).threads;
      loaded := if first then lock else refCount;
    }

    /** One compare-and-swap of LOCKSYNC. */
    method TrySync(t: nat, ghost op: Op) returns (entered: bool)
      requires At(t, Sync) && threads[t].op == op
      modifies this`syncLock, this`threads
      ensures Snapshot() == old(Step(Snapshot(), t, op)) && Inv(Snapshot())
      ensures entered <==> forall u :: 0 <= u < |threads| && u != t ==> !old(threads)[u].InSync()
      ensures entered <==> threads[t].InSync()
    {
      assert ThreadOk(Snapshot(), t);
      StepKeepsInv(Snapshot(), t, op);
      entered := syncLock == 0;
      threads := Step(Snapshot(), t, op).threads;
      syncLock := if entered then 1 else syncLock;
      assert ThreadOk(Snapshot(), t);
    }

    /** The store of the new count, made of the values loaded before it. */
    method WriteCount(t: nat, op: Op, locked: UShort, count: UShort)
      requires At(t, StoreCount) && threads[t].op == op && threads[t].locked == locked && threads[t].count == count
      modifies this`refCount, this`threads
      ensures Snapshot() == old(Step(Snapshot(), t, op)) && Inv(Snapshot())
      ensures refCount == old(Apply(lock, refCount, op)).refCount
      ensures threads[t].result == old(Apply(lock, refCount, op)).result
    {
      EffectIsAtomic(Snapshot(), t, op);
      StepKeepsInv(Snapshot(), t, op);
      threads := Step(Snapshot(), t, op).threads;
      refCount := if op.Decrement? then (count - 1) % USHORT_SPAN else (count + locked) % USHORT_SPAN;
    }

    /** The store of the lock word; the result tells whether the count was locked before. */
    method WriteLock(t: nat, op: Op, locked: UShort) returns (wasLocked: bool)
      requires At(t, StoreLock) && threads[t].op == op && threads[t].locked == locked
      modifies this`lock, this`threads
      ensures Snapshot() == old(Step(Snapshot(), t, op)) && Inv(Snapshot())
      ensures wasLocked <==> old(lock) == LOCKED
      ensures threads[t].result == if wasLocked then 1 else 0
      ensures lock == if op.Lock? then LOCKED else UNLOCKED
    {
      assert ThreadOk(Snapshot(), t);
      StepKeepsInv(Snapshot(), t, op);
      threads := Step(Snapshot(), t, op).threads;
      lock := if op.Lock? then LOCKED else UNLOCKED;
      wasLocked := locked == LOCKED;
    }

    /** The load of RefCount: exact while fewer than 2^16 references are held. */
    method ReadCount(t: nat, ghost op: Op) returns (count: UShort)
      requires At(t, LoadCount) && threads[t].op == op && (op.GetCount? || op.WaitZeroRef?)
      requires Bounded(Snapshot())
      modifies this`threads
      ensures Snapshot() == old(Step(Snapshot(), t, op)) && Inv(Snapshot())
      ensures count == old(Held(Snapshot())) == threads[t].result
    {
      StepKeepsInv(Snapshot(), t, op);
      threads := Step(Snapshot(), t, op).threads;
      count := refCount;
    }

    /** The spin lock is given back. */
    method ReleaseSync(t: nat, ghost op: Op)
      requires At(t, Release)
      modifies this`syncLock, this`threads
      ensures Snapshot() == old(Step(Snapshot(), t, op)) && Inv(Snapshot())
    {
      StepKeepsInv(Snapshot(), t, op);
      threads := Step(Snapshot(), t, op).threads;
      syncLock := 0;
    }
  }
}
