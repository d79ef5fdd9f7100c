/**
  * What a caller of CLockingRefCountLite gets (critsect.h:703-801): one free turn of an operation, whole
  * calls over runs with their failed turns, and the drain by Lock and WaitZeroRef.
  */
module LockingRefCountCalls {
  import opened L = LockingRefCount
  import Runs

  // ------ one turn ----------------------------------------------------------------------------

  /** n statements of thread t, with nobody else in between. */
  function Steps(s: State, t: nat, n: nat): (s': State)
    requires t < |s.threads|
    ensures |s'.threads| == |s.threads|
  {
    if n == 0 then s else Step(Steps(s, t, n - 1), t, GetCount)
  }

  /** The number of statements from LOCKSYNC to UNLOCKSYNC. */
  function TurnLength(op: Op): nat {
    match op
    case TryIncrement => 5
    case Increment => 5
    case Decrement => 4
    case Lock => 4
    case Unlock => 4
    case GetCount => 3
    case WaitZeroRef => 3
  }

  /** The words, the references of the thread and its result after a turn that nobody disturbs. */
  predicate TurnOf(op: Op, s: State, t: nat, s': State)
    requires t < |s.threads| && t < |s'.threads|
  {
    var th, th' := s.threads[t], s'.threads[t];
    match op
    case TryIncrement => Incremented(s, th, s', th')
    case Increment => Incremented(s, th, s', th')
    case Decrement =>
      && s'.lock == s.lock && s'.refCount == (if s.refCount == 0 then 0xffff else s.refCount - 1)
      && th'.holds == th.holds - 1
    case Lock => s'.lock == 0 && Relocked(s, th, s', th')
    case Unlock => s'.lock == 1 && Relocked(s, th, s', th')
    case _ => s'.lock == s.lock && s'.refCount == s.refCount == th'.result && th'.holds == th.holds
  }

  /** With the count unlocked one reference more and TRUE, and otherwise nothing and FALSE. */
  predicate Incremented(s: State, th: Thread, s': State, th': Thread) {
    && s'.lock == s.lock
    && if s.lock == 1
       then && s'.refCount == (if s.refCount == 0xffff then 0 else s.refCount + 1)
            && th'.holds == th.holds + 1 && th'.result == 1
       else s'.refCount == s.refCount && th'.holds == th.holds && th'.result == 0
  }

  /** The count is not touched, and the result is TRUE exactly if it was locked. */
  predicate Relocked(s: State, th: Thread, s': State, th': Thread) {
    s'.refCount == s.refCount && th'.holds == th.holds && th'.result == (if s.lock == 0 then 1 else 0)
  }

  /** A turn failed: Increment found the count locked, or WaitZeroRef saw a reference. */
  predicate Failed(op: Op, result: int) {
    match op
    case Increment => result == 0
    case WaitZeroRef => result != 0
    case _ => false
  }

  /** The statements of a turn one by one, from LOCKSYNC on. */
  lemma Unfold(s: State, t: nat)
    requires t < |s.threads|
    ensures var s1 := Step(s, t, GetCount); var s2 := Step(s1, t, GetCount); var s3 := Step(s2, t, GetCount);
      Steps(s, t, 3) == s3 && Steps(s, t, 4) == Step(s3, t, GetCount)
  {
    assert Steps(s, t, 1) == Step(Steps(s, t, 0), t, GetCount);
    assert Steps(s, t, 2) == Step(Steps(s, t, 1), t, GetCount);
    assert Steps(s, t, 3) == Step(Steps(s, t, 2), t, GetCount);
    assert Steps(s, t, 4) == Step(Steps(s, t, 3), t, GetCount);
  }

  ghost predicate TurnDone(s: State, t: nat, op: Op, s': State)
    requires t < |s.threads|
  {
    && |s'.threads| == |s.threads|
    && TurnOf(op, s, t, s') && s'.syncLock == 0 && s'.threads[t].op == op
    && s'.threads[t].pc == (if Failed(op, s'.threads[t].result) then Sync else Idle)
    && forall u :: 0 <= u < |s.threads| && u != t ==> s'.threads[u] == s.threads[u]
  }

  ghost predicate Free(s: State, t: nat) {
    Inv(s) && t < |s.threads| && s.threads[t].pc.Sync? && s.syncLock == 0
  }

  lemma FreeLoads(s: State, t: nat)
    requires Free(s, t)
    ensures var op, th := s.threads[t].op, s.threads[t];
      && (op.TryIncrement? || op.Increment? ==>
            Steps(s, t, 3) == Moved(s, t, th.(pc := StoreCount, locked := s.lock, count := s.refCount)).(syncLock := 1))
      && (op.Decrement? ==>
            Steps(s, t, 2) == Moved(s, t, th.(pc := StoreCount, count := s.refCount)).(syncLock := 1))
  {
    assert Steps(s, t, 1) == Step(Steps(s, t, 0), t, GetCount);
    assert Steps(s, t, 2) == Step(Steps(s, t, 1), t, GetCount);
    assert Steps(s, t, 3) == Step(Steps(s, t, 2), t, GetCount);
  }

  lemma FreeStore(s: State, t: nat, th: Thread, a: State)
    requires Inv(s) && t < |s.threads| && th.pc.StoreCount? && (th.op.Decrement? ==> th.holds > 0)
    requires th == s.threads[t].(pc := StoreCount, locked := th.locked, count := s.refCount)
    requires th.op.TryIncrement? || th.op.Increment? || th.op.Decrement?
    requires !th.op.Decrement? ==> th.locked == s.lock
    requires a == Moved(s, t, th).(syncLock := 1)
    ensures TurnDone(s, t, th.op, Step(Step(a, t, GetCount), t, GetCount))
  {
    var b := Step(a, t, GetCount);
    var th' := b.threads[t];
    assert b == Moved(s, t, th').(syncLock := 1, refCount := b.refCount);
  }

  lemma FreeCount(s: State, t: nat)
    requires Free(s, t)
    ensures var op := s.threads[t].op;
      && (op.TryIncrement? || op.Increment? ==> TurnDone(s, t, op, Steps(s, t, 5)))
      && (op.Decrement? ==> TurnDone(s, t, op, Steps(s, t, 4)))
  {
    FreeLoads(s, t);
    assert ThreadOk(s, t);
    var op, th := s.threads[t].op, s.threads[t];
    if op.Decrement? {
      FreeStore(s, t, th.(pc := StoreCount, count := s.refCount), Steps(s, t, 2));
      assert Steps(s, t, 4) == Step(Steps(s, t, 3), t, GetCount);
    } else if op.TryIncrement? || op.Increment? {
      FreeStore(s, t, th.(pc := StoreCount, locked := s.lock, count := s.refCount), Steps(s, t, 3));
      assert Steps(s, t, 5) == Step(Steps(s, t, 4), t, GetCount);
    }
  }

  lemma FreeRelock(s: State, t: nat)
    requires Free(s, t) && (s.threads[t].op.Lock? || s.threads[t].op.Unlock?)
    ensures TurnDone(s, t, s.threads[t].op, Steps(s, t, 4))
  {
    Unfold(s, t);
    var th := s.threads[t];
    var s2 := Step(Step(s, t, GetCount), t, GetCount);
    assert s2 == Moved(s, t, th.(pc := StoreLock, locked := s.lock)).(syncLock := 1);
  }

  lemma FreeLoad(s: State, t: nat)
    requires Free(s, t) && (s.threads[t].op.GetCount? || s.threads[t].op.WaitZeroRef?)
    ensures TurnDone(s, t, s.threads[t].op, Steps(s, t, 3))
  {
    Unfold(s, t);
  }

  /** A free turn does its operation, gives the spin lock back, and returns or, after a failure, goes round. */
  lemma FreeTurn(s: State, t: nat)
    requires Free(s, t)
    ensures var op := s.threads[t].op; var s' := Steps(s, t, TurnLength(op));
      && TurnOf(op, s, t, s') && s'.syncLock == 0 && s'.threads[t].op == op
      && s'.threads[t].pc == (if Failed(op, s'.threads[t].result) then Sync else Idle)
      && forall u :: 0 <= u < |s.threads| && u != t ==> s'.threads[u] == s.threads[u]
  {
    match s.threads[t].op
    case TryIncrement => FreeCount(s, t);
    case Increment => FreeCount(s, t);
    case Decrement => FreeCount(s, t);
    case Lock => FreeRelock(s, t);
    case Unlock => FreeRelock(s, t);
    case _ => FreeLoad(s, t);
  }

  /** A call on a free spin lock, from the caller's side: the whole of it, unless its first turn fails. */
  lemma FreeCall(s: State, t: nat, call: Op)
    requires Inv(s) && Enabled(s, t, call) && s.threads[t].pc.Idle? && s.syncLock == 0
    ensures var s' := Steps(Step(s, t, call), t, TurnLength(call));
      && TurnOf(call, s, t, s') && s'.syncLock == 0
      && s'.threads[t].pc == (if Failed(call, s'.threads[t].result) then Sync else Idle)
      && forall u :: 0 <= u < |s.threads| && u != t ==> s'.threads[u] == s.threads[u]
  {
    StepKeepsInv(s, t, call);
    FreeTurn(Step(s, t, call), t);
  }

  /** As long as somebody is in a call, somebody can execute a statement that is not a failed LOCKSYNC. */
  lemma SomeThreadAdvances(s: State, t: nat) returns (u: nat)
    requires Inv(s) && t < |s.threads| && !s.threads[t].pc.Idle?
    ensures u < |s.threads| && !s.threads[u].pc.Idle?
    ensures forall call :: Step(s, u, call).threads[u].pc != s.threads[u].pc
  {
    u := t;
    if s.syncLock != 0 {
      u :| 0 <= u < |s.threads| && s.threads[u].InSync();
    }
    assert ThreadOk(s, u);
  }

  // ------ whole calls -------------------------------------------------------------------------

  predicate Resting(run: seq<State>, t: nat, k: nat) {
    k < |run| && t < |run[k].threads| && run[k].threads[t].pc.Idle?
  }

  predicate Busy(run: seq<State>, t: nat, k: nat) {
    k < |run| && t < |run[k].threads| && !run[k].threads[t].pc.Idle?
  }

  /** Thread t calls an operation after position b and has returned from it at position e. */
  ghost predicate Call(run: seq<State>, t: nat, b: nat, e: nat) {
    && Run(run) && b + 1 < e
    && Resting(run, t, b) && Resting(run, t, e)
    && forall k: nat :: b < k < e ==> Busy(run, t, k)
  }

  /** What an operation that returns this adds to the references of its thread. */
  function Gain(op: Op, result: int): int {
    match op
    case TryIncrement => result
    case Increment => result
    case Decrement => -1
    case _ => 0
  }

  /** In the step from s thread t makes the operation take effect on the words, with this result. */
  ghost predicate Effect(s: State, s': State, t: nat, op: Op, result: int) {
    && TakesEffect(s, t) && s.threads[t].op == op
    && Atomic(s'.lock, s'.refCount, result) == Apply(s.lock, s.refCount, op)
  }

  /** Where the call that began after b stands at position k, with its effect, once it had one, in step i. */
  ghost predicate SoFar(run: seq<State>, t: nat, b: nat, k: nat, op: Op, holds: nat, i: nat) {
    && Busy(run, t, k)
    && var th := run[k].threads[t];
       && th.op == op
       && if th.pc.Release?
          then && b < i < k && Effect(run[i], run[i + 1], t, op, th.result)
               && th.holds == holds + Gain(op, th.result)
          else th.holds == holds
  }

  /** In a call the references of a thread change with its effect only, after which it is about to release. */
  ghost predicate Turned(s: State, s': State, t: nat)
    requires t < |s.threads| && t < |s'.threads|
  {
    var th, th' := s.threads[t], s'.threads[t];
    && th'.op == th.op
    && if th'.pc.Release?
       then Effect(s, s', t, th.op, th'.result) && th'.holds == th.holds + Gain(th.op, th'.result)
       else th'.holds == th.holds
  }

  lemma OwnTurn(s: State, t: nat, call: Op)
    requires Inv(s) && t < |s.threads| && !s.threads[t].pc.Idle? && !s.threads[t].pc.Release?
    ensures Turned(s, Step(s, t, call), t)
  {
    assert ThreadOk(s, t);
    EffectIsAtomic(s, t, call);
  }

  lemma Turns(s: State, s': State, t: nat)
    requires Inv(s) && Next(s, s') && t < |s.threads| && !s.threads[t].pc.Idle? && !s.threads[t].pc.Release?
    requires t < |s'.threads|
    ensures Turned(s, s', t)
  {
    var u: nat, call: Op :| Enabled(s, u, call) && s' == Step(s, u, call);
    if u == t {
      OwnTurn(s, t, call);
    } else {
      assert s'.threads[t] == s.threads[t];
    }
  }

  /** A failed turn has gained nothing when it goes round again. */
  lemma GoesRound(s: State, s': State, t: nat)
    requires Next(s, s') && t < |s.threads| && s.threads[t].pc.Release?
    requires t < |s'.threads| && !s'.threads[t].pc.Idle?
    ensures var th, th' := s.threads[t], s'.threads[t];
      th' == th || (th' == th.(pc := Sync) && Failed(th.op, th.result) && Gain(th.op, th.result) == 0)
  {
  }

  lemma GoesOn(run: seq<State>, t: nat, b: nat, k: nat, op: Op, holds: nat, i: nat) returns (i': nat)
    requires Run(run) && b < k && SoFar(run, t, b, k, op, holds, i) && Busy(run, t, k + 1)
    ensures SoFar(run, t, b, k + 1, op, holds, i')
  {
    InvAlongRun(run, k);
    Runs.StepOf(Init, Next, run, k);
    if run[k].threads[t].pc.Release? {
      i' := i;
      GoesRound(run[k], run[k + 1], t);
    } else {
      i' := k;
      Turns(run[k], run[k + 1], t);
    }
  }

  lemma Begins(run: seq<State>, t: nat, b: nat)
    requires Run(run) && Resting(run, t, b) && Busy(run, t, b + 1)
    ensures SoFar(run, t, b, b + 1, run[b + 1].threads[t].op, run[b].threads[t].holds, b)
  {
    Runs.StepOf(Init, Next, run, b);
  }

  lemma UpTo(run: seq<State>, t: nat, b: nat, e: nat, op: Op, holds: nat) returns (i: nat)
    requires Run(run) && b < e && SoFar(run, t, b, b + 1, op, holds, b)
    requires forall k: nat :: b < k <= e ==> Busy(run, t, k)
    ensures SoFar(run, t, b, e, op, holds, i)
  {
    i := b;
    var k := b + 1;
    while k < e
      invariant b < k <= e && SoFar(run, t, b, k, op, holds, i)
    {
      assert Busy(run, t, k + 1);
      i := GoesOn(run, t, b, k, op, holds, i);
      k := k + 1;
    }
  }

  lemma Returns(s: State, s': State, t: nat)
    requires Next(s, s') && t < |s.threads| && t < |s'.threads| && !s.threads[t].pc.Idle? && s'.threads[t].pc.Idle?
    ensures s.threads[t].pc.Release? && s'.threads[t] == s.threads[t].(pc := Idle)
    ensures !Failed(s'.threads[t].op, s'.threads[t].result)
  {
  }

  /** Every call returns what its operation gave in one step of the call, and gains references accordingly. */
  lemma CallReturns(run: seq<State>, t: nat, b: nat, e: nat) returns (i: nat)
    requires Call(run, t, b, e)
    ensures b < i < e
    ensures var th, th' := run[b].threads[t], run[e].threads[t];
      && Effect(run[i], run[i + 1], t, th'.op, th'.result)
      && th'.holds == th.holds + Gain(th'.op, th'.result)
      && !Failed(th'.op, th'.result)
  {
    var k: nat := e - 1;
    assert Busy(run, t, b + 1) && Busy(run, t, k);
    Begins(run, t, b);
    i := UpTo(run, t, b, k, run[b + 1].threads[t].op, run[b].threads[t].holds);
    Runs.StepOf(Init, Next, run, k);
    Returns(run[k], run[e], t);
  }

  /** Increment returns with exactly one reference more, given while the count was unlocked. */
  lemma IncrementReturns(run: seq<State>, t: nat, b: nat, e: nat) returns (i: nat)
    requires Call(run, t, b, e) && run[e].threads[t].op.Increment?
    ensures b < i < e && run[i].lock == UNLOCKED
    ensures run[e].threads[t].holds == run[b].threads[t].holds + 1
  {
    i := CallReturns(run, t, b, e);
    InvAlongRun(run, i);
  }

  /** TryIncrement returns TRUE with one reference more, or FALSE with none more if the count was locked. */
  lemma TryIncrementReturns(run: seq<State>, t: nat, b: nat, e: nat) returns (i: nat)
    requires Call(run, t, b, e) && run[e].threads[t].op.TryIncrement?
    ensures b < i < e
    ensures var th, th' := run[b].threads[t], run[e].threads[t];
      if run[i].lock == UNLOCKED then th'.result == 1 && th'.holds == th.holds + 1
      else run[i].lock == LOCKED && th'.result == 0 && th'.holds == th.holds
  {
    i := CallReturns(run, t, b, e);
    InvAlongRun(run, i);
  }

  /** WaitZeroRef returns only after its load of a count of 0. */
  lemma WaitReturns(run: seq<State>, t: nat, b: nat, e: nat) returns (i: nat)
    requires Call(run, t, b, e) && run[e].threads[t].op.WaitZeroRef?
    ensures b < i < e && t < |run[i].threads|
    ensures run[i].threads[t].pc.LoadCount? && run[i].threads[t].op.WaitZeroRef? && run[i].refCount == 0
  {
    i := CallReturns(run, t, b, e);
    InvAlongRun(run, i);
    assert ThreadOk(run[i], t);
  }

  /**
    * Lock takes effect in step h, and a WaitZeroRef called after it has returned at e. If no Unlock took
    * effect in between, nobody holds a reference at the return.
    */
  lemma WaitReturnsDrained(run: seq<State>, h: nat, locker: nat, t: nat, b: nat, e: nat)
    requires Call(run, t, b, e) && run[e].threads[t].op.WaitZeroRef? && h <= b
    requires locker < |run[h].threads| && run[h].threads[locker].pc.StoreLock? && run[h].threads[locker].op.Lock?
    requires run[h + 1] == Step(run[h], locker, Lock)
    requires forall k :: h < k < e ==> !Unlocks(run[k], run[k + 1]) && Bounded(run[k])
    ensures run[e].lock == LOCKED
    ensures forall u :: 0 <= u < |run[e].threads| ==> run[e].threads[u].holds == 0
  {
    var i := WaitReturns(run, t, b, e);
    DrainedUntilUnlock(run, h, locker, i, t, e);
  }
}
