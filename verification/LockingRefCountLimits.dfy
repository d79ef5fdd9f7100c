/**
  * How many references CLockingRefCountLite can count: with a limit on the references held, a count that
  * shows 0 means that none is held if and only if the limit is below 2^16.
  */
module LockingRefCountLimits {
  import opened L = LockingRefCount
  import Runs
  import Sums

  ghost predicate RunWithin(run: seq<State>, limit: nat) {
    && Run(run)
    && forall i: nat :: i < |run| ==> Held(run[i]) <= limit
  }

  ghost predicate Reached(s: State, limit: nat) {
    exists run :: RunWithin(run, limit) && run[|run| - 1] == s
  }

  /** A count of 0 means that nobody holds a reference. */
  predicate ZeroIsDrained(s: State) {
    s.refCount == 0 ==> Held(s) == 0
  }

  lemma SafeLimitDrains(s: State, limit: nat)
    requires Reached(s, limit) && limit < USHORT_SPAN
    ensures ZeroIsDrained(s)
  {
    var run :| RunWithin(run, limit) && run[|run| - 1] == s;
    InvAlongRun(run, |run| - 1);
  }

  // ------ unsafe limits fail ------------------------------------------------------------------

  lemma ReachedStep(s: State, limit: nat, call: Op)
    requires Reached(s, limit) && Enabled(s, 0, call) && Held(Step(s, 0, call)) <= limit
    ensures Reached(Step(s, 0, call), limit)
  {
    var run :| RunWithin(run, limit) && run[|run| - 1] == s;
    Runs.RunExtends(Init, Next, run, Step(s, 0, call));
    assert RunWithin(run + [Step(s, 0, call)], limit);
  }

  /** A single thread, its count and lock words. */
  ghost predicate Alone(s: State, limit: nat, pc: Pc, op: Op, holds: nat) {
    && Reached(s, limit) && |s.threads| == 1
    && s.threads[0].pc == pc && s.threads[0].op == op && s.threads[0].holds == holds
  }

  lemma HeldByOne(s: State)
    requires |s.threads| == 1
    ensures Held(s) == s.threads[0].holds
  {
    assert Sums.Sum(Holds, s.threads) == Holds(s.threads[0]) + Sums.Sum(Holds, s.threads[1..]);
    assert Sums.Sum(Holds, s.threads[1..]) == 0;
  }

  /** One step that leaves the references held as they are. */
  lemma Go(s: State, limit: nat, call: Op) returns (s': State)
    requires Reached(s, limit) && |s.threads| == 1 && Enabled(s, 0, call)
    requires Step(s, 0, call).threads[0].holds <= limit
    ensures s' == Step(s, 0, call) && Reached(s', limit) && |s'.threads| == 1
  {
    s' := Step(s, 0, call);
    HeldByOne(s');
    ReachedStep(s, limit, call);
  }

  /** At rest, unlocked, with k references held. */
  ghost predicate Counted(s: State, limit: nat, op: Op, k: nat) {
    && Alone(s, limit, Idle, op, k)
    && s.lock == UNLOCKED && s.syncLock == 0 && s.refCount == k % USHORT_SPAN
  }

  lemma Start(limit: nat) returns (s: State)
    ensures Counted(s, limit, TryIncrement, 0)
  {
    s := State(UNLOCKED, 0, 0, [Thread(Idle, TryIncrement, 0, 0, 0, 0)]);
    HeldByOne(s);
    assert RunWithin([s], limit);
  }

  /** TryIncrement up to its store. */
  lemma BeginIncrement(s: State, limit: nat, k: nat) returns (s': State)
    requires Counted(s, limit, TryIncrement, k) && k < limit
    ensures Alone(s', limit, StoreCount, TryIncrement, k)
    ensures s'.threads[0].locked == UNLOCKED && s'.threads[0].count == s.refCount
    ensures s'.lock == UNLOCKED && s'.syncLock == 1
  {
    var a := Go(s, limit, TryIncrement);
    var b := Go(a, limit, TryIncrement);
    var c := Go(b, limit, TryIncrement);
    s' := Go(c, limit, TryIncrement);
  }

  lemma OneMore(s: State, limit: nat, k: nat) returns (s': State)
    requires Counted(s, limit, TryIncrement, k) && k < limit
    ensures Counted(s', limit, TryIncrement, k + 1)
  {
    var a := BeginIncrement(s, limit, k);
    var b := Go(a, limit, TryIncrement);
    s' := Go(b, limit, TryIncrement);
    NextResidue(k);
  }

  lemma NextResidue(k: nat)
    ensures (k % USHORT_SPAN + 1) % USHORT_SPAN == (k + 1) % USHORT_SPAN
  {
  }

  lemma {:induction false} Climb(limit: nat, k: nat) returns (s: State)
    requires k <= limit
    ensures Counted(s, limit, TryIncrement, k)
  {
    if k == 0 {
      s := Start(limit);
    } else {
      var a := Climb(limit, k - 1);
      s := OneMore(a, limit, k - 1);
    }
  }

  /** Lock up to its store. */
  lemma BeginLock(s: State, limit: nat, k: nat) returns (s': State)
    requires Counted(s, limit, TryIncrement, k) && k <= limit
    ensures Alone(s', limit, StoreLock, Lock, k)
    ensures s'.syncLock == 1 && s'.refCount == s.refCount
  {
    var a := Go(s, limit, Lock);
    var b := Go(a, limit, Lock);
    s' := Go(b, limit, Lock);
  }

  lemma EndLock(s: State, limit: nat, k: nat) returns (s': State)
    requires Alone(s, limit, StoreLock, Lock, k) && k <= limit
    ensures Alone(s', limit, Idle, Lock, k)
    ensures s'.lock == LOCKED && s'.syncLock == 0 && s'.refCount == s.refCount
  {
    var a := Go(s, limit, Lock);
    s' := Go(a, limit, Lock);
  }

  /** With 2^16 references held, a drain after Lock is about to load 0. */
  lemma FalseDrain(limit: nat) returns (s: State)
    requires limit >= USHORT_SPAN
    ensures Reached(s, limit) && s.lock == LOCKED && s.refCount == 0 && Held(s) == USHORT_SPAN
    ensures s.threads[0].pc.LoadCount? && s.threads[0].op.WaitZeroRef?
  {
    var a := Climb(limit, USHORT_SPAN);
    var locking := BeginLock(a, limit, USHORT_SPAN);
    var b := EndLock(locking, limit, USHORT_SPAN);
    var c := Go(b, limit, WaitZeroRef);
    s := Go(c, limit, WaitZeroRef);
    HeldByOne(s);
  }

  /** The limit on references held under which a count of 0 can be trusted, exactly. */
  lemma DrainLimit(limit: nat)
    ensures (forall s :: Reached(s, limit) ==> ZeroIsDrained(s)) <==> limit < USHORT_SPAN
  {
    if limit < USHORT_SPAN {
      forall s | Reached(s, limit) ensures ZeroIsDrained(s) {
        SafeLimitDrains(s, limit);
      }
    } else {
      var s := FalseDrain(limit);
    }
  }
}
