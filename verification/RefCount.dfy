/**
  * CRefCount (critsect.h:495-630): a reference count updated by compare-and-swap loops, and its
  * debug build, which updates it under a CCritSectLite (critsect.h:284-367).
  * Both are shown to be the atomic counter below, at every point of every run.
  */
module RefCountSpec {

  const LONG_MAX := 0x7fff_ffff
  const LONG_MIN := -0x8000_0000

  /** A signed 32-bit value, and its arithmetic. */
  type Long = x: int | LONG_MIN <= x <= LONG_MAX

  function Wrap(x: int): Long {
    (x - LONG_MIN) % 0x1_0000_0000 + LONG_MIN
  }

  datatype Op = RefAdd | RefDec

  /** The atomic counter: what an operation returns and leaves. A dead counter stays dead. */
  function Result(count: nat, op: Op): nat {
    if count == 0 then 0 else if op.RefAdd? then count + 1 else count - 1
  }

  /** An operation that took effect: who ran it, which one, and what it returned. */
  datatype Event = Event(thread: nat, op: Op, returned: Long)

  /** A history is legal from a count if every return value is the one the atomic counter gives at that point. */
  predicate Legal(count: nat, history: seq<Event>)
    decreases |history|
  {
    || history == []
    || (history[0].returned == Result(count, history[0].op) && Legal(Result(count, history[0].op), history[1..]))
  }

  function CountAfter(count: nat, history: seq<Event>): nat
    decreases |history|
  {
    if history == [] then count else CountAfter(Result(count, history[0].op), history[1..])
  }

  /** What the release loop leaves and returns when nobody interferes, on any count. */
  function ReleaseStores(op: Op, count: Long): Long {
    if count <= 0 then count
    else if op.RefDec? then count - 1
    else if count < LONG_MAX then count + 1
    else LONG_MIN
  }

  function ReleaseReturns(op: Op, count: Long): Long {
    if count <= 0 then 0 else ReleaseStores(op, count)
  }

  /** The events of a thread from a point of the history on: none, or the one at a place. */
  predicate NoEvent(history: seq<Event>, thread: nat, from: nat) {
    from <= |history| && forall k :: from <= k < |history| ==> history[k].thread != thread
  }

  predicate OnlyEvent(history: seq<Event>, thread: nat, from: nat, place: nat) {
    && from <= place < |history| && history[place].thread == thread
    && forall k :: from <= k < |history| && history[k].thread == thread ==> k == place
  }

  lemma {:induction false} Extends(count: nat, history: seq<Event>, e: Event)
    ensures CountAfter(count, history + [e]) == Result(CountAfter(count, history), e.op)
    ensures Legal(count, history + [e]) <==>
      Legal(count, history) && e.returned == Result(CountAfter(count, history), e.op)
    decreases |history|
  {
    if history == [] {
      assert history + [e] == [e];
      assert [e][1..] == [];
    } else {
      assert (history + [e])[1..] == history[1..] + [e];
      Extends(Result(count, history[0].op), history[1..], e);
    }
  }

  /** How often an operation occurs in a history. */
  function Times(history: seq<Event>, op: Op): nat {
    if history == [] then 0 else Times(history[1..], op) + if history[0].op == op then 1 else 0
  }

  /** As long as the count does not reach 0, it is what it was, plus the RefAdds, minus the RefDecs. */
  lemma {:induction false} CountsWhileAlive(count: nat, history: seq<Event>)
    requires forall i :: 0 <= i < |history| ==> CountAfter(count, history[..i]) > 0
    ensures CountAfter(count, history) == count + Times(history, RefAdd) - Times(history, RefDec)
    decreases |history|
  {
    if history != [] {
      assert history[..0] == [] && CountAfter(count, history[..0]) > 0;
      forall i | 0 <= i < |history[1..]|
        ensures CountAfter(Result(count, history[0].op), history[1..][..i]) > 0
      {
        assert history[..i + 1][1..] == history[1..][..i];
        assert CountAfter(count, history[..i + 1]) > 0;
      }
      CountsWhileAlive(Result(count, history[0].op), history[1..]);
    }
  }

  /** Once the count is 0 every later operation returns 0 and leaves 0: nothing is resurrected. */
  lemma {:induction false} NeverResurrected(count: nat, history: seq<Event>, i: nat, j: nat)
    requires Legal(count, history) && i <= j < |history|
    requires CountAfter(count, history[..i]) == 0
    ensures history[j].returned == 0 && CountAfter(count, history[..j + 1]) == 0
    decreases |history|
  {
    if i > 0 {
      assert history[..i][1..] == history[1..][..i - 1];
      NeverResurrected(Result(count, history[0].op), history[1..], i - 1, j - 1);
      assert history[..j + 1][1..] == history[1..][..j];
    } else {
      assert history[..0] == [];
      assert history[..j + 1][1..] == history[1..][..j];
      if j > 0 {
        assert history[1..][..0] == [];
        NeverResurrected(0, history[1..], 0, j - 1);
      } else {
        assert history[1..][..0] == [];
      }
    }
  }
}

module RefCount {
  import opened RefCountSpec
  import Runs

  /** A thread in the compare-and-swap loop. */
  datatype Thread =
    | Idle
    | Load(op: Op)                       // about to load refcount into prevCopy
    | Cas(op: Op, prevCopy: Long)        // prevCopy > 0; about to InterlockedCompareExchange
    | Returning(op: Op, result: Long, entry: nat)  // about to return; its place in the history

  datatype State = State(refcount: Long, threads: seq<Thread>, history: seq<Event>)

  ghost predicate Init(s: State) {
    s.refcount == 1 && s.history == [] && forall t :: 0 <= t < |s.threads| ==> s.threads[t].Idle?
  }

  /** The new value that the loop tries to store. */
  function Wanted(op: Op, prevCopy: Long): Long {
    Wrap(if op.RefAdd? then prevCopy + 1 else prevCopy - 1)
  }

  function Finished(s: State, t: nat, op: Op, stored: Long, result: Long): State
    requires t < |s.threads|
  {
    State(stored, s.threads[t := Returning(op, result, |s.history|)], s.history + [Event(t, op, result)])
  }

  function Step(s: State, t: nat, call: Op): State
    requires t < |s.threads|
  {
    match s.threads[t]
    case Idle => s.(threads := s.threads[t := Load(call)])
    case Load(op) =>
      if s.refcount <= 0 then Finished(s, t, op, s.refcount, 0)
      else s.(threads := s.threads[t := Cas(op, s.refcount)])
    case Cas(op, prevCopy) =>
      if s.refcount == prevCopy then Finished(s, t, op, Wanted(op, prevCopy), Wanted(op, prevCopy))
      else s.(threads := s.threads[t := Load(op)])
    case Returning(op, result, entry) => s.(threads := s.threads[t := Idle])
  }

  ghost predicate ThreadOk(s: State, t: nat)
    requires t < |s.threads|
  {
    match s.threads[t]
    case Cas(op, prevCopy) => prevCopy > 0
    case Returning(op, result, entry) => entry < |s.history| && s.history[entry] == Event(t, op, result)
    case _ => true
  }

  /** The word is the atomic counter after the history, and what a thread returns is its entry there. */
  ghost predicate Inv(s: State) {
    && Legal(1, s.history)
    && s.refcount == CountAfter(1, s.history)
    && forall t :: 0 <= t < |s.threads| ==> ThreadOk(s, t)
  }

  /** The one way out: a RefAdd that succeeds at LONG_MAX stores LONG_MIN. */
  predicate Overflows(s: State, t: nat) {
    && t < |s.threads| && s.threads[t].Cas? && s.threads[t].op.RefAdd?
    && s.refcount == s.threads[t].prevCopy == LONG_MAX
  }

  /** A step keeps the word equal to the atomic counter if and only if it does not overflow. */
  lemma StepRefines(s: State, t: nat, call: Op)
    requires Inv(s) && t < |s.threads|
    ensures Inv(Step(s, t, call)) <==> !Overflows(s, t)
    ensures Overflows(s, t) ==> Step(s, t, call).refcount == LONG_MIN
  {
    var s' := Step(s, t, call);
    assert ThreadOk(s, t);
    if |s'.history| > |s.history| {
      Extends(1, s.history, s'.history[|s.history|]);
    }
    forall u | 0 <= u < |s'.threads| && u != t ensures ThreadOk(s', u) {
      assert ThreadOk(s, u);
    }
  }

  ghost predicate Next(s: State, s': State) {
    exists t: nat, call: Op :: t < |s.threads| && !Overflows(s, t) && s' == Step(s, t, call)
  }

  ghost predicate Run(run: seq<State>) {
    Runs.IsRun(Init, Next, run)
  }

  /**
    * Over every run without overflow the history of results is a legal history of the atomic
    * counter, in the order in which the operations took effect, and the word is its value.
    */
  lemma Linearizes(run: seq<State>, i: nat)
    requires Run(run) && i < |run|
    ensures Legal(1, run[i].history) && run[i].refcount == CountAfter(1, run[i].history)
    ensures forall t :: 0 <= t < |run[i].threads| && run[i].threads[t].Returning? ==>
      var th := run[i].threads[t];
      th.entry < |run[i].history| && run[i].history[th.entry] == Event(t, th.op, th.result)
  {
    InvAlongRun(run, i);
    forall t | 0 <= t < |run[i].threads| && run[i].threads[t].Returning?
      ensures var th := run[i].threads[t];
        th.entry < |run[i].history| && run[i].history[th.entry] == Event(t, th.op, th.result)
    {
      assert ThreadOk(run[i], t);
    }
  }

  lemma InvAlongRun(run: seq<State>, i: nat)
    requires Run(run) && i < |run|
    ensures Inv(run[i])
  {
    forall s, s' | Inv(s) && Next(s, s') ensures Inv(s') {
      var t: nat, call: Op :| t < |s.threads| && !Overflows(s, t) && s' == Step(s, t, call);
      StepRefines(s, t, call);
    }
    Runs.Invariance(Init, Next, Inv, run, i);
  }

  // ------ each call takes effect once, while it runs -------------------------------------------

  /** Thread t is in the call that began when the history had the length began: no event yet, or exactly one. */
  ghost predicate InCall(s: State, t: nat, began: nat) {
    && t < |s.threads| && !s.threads[t].Idle?
    && if s.threads[t].Returning? then OnlyEvent(s.history, t, began, s.threads[t].entry)
       else NoEvent(s.history, t, began)
  }

  lemma CallBegins(s: State, s': State, t: nat)
    requires Next(s, s') && t < |s.threads| && s.threads[t].Idle? && t < |s'.threads| && !s'.threads[t].Idle?
    ensures InCall(s', t, |s.history|)
  {
  }

  lemma CallGoesOn(s: State, s': State, t: nat, began: nat)
    requires Next(s, s') && InCall(s, t, began) && t < |s'.threads| && !s'.threads[t].Idle?
    ensures InCall(s', t, began)
  {
  }

  /**
    * From the last position b at which thread t was idle, its operation has at most one event, and exactly
    * one when it is about to return: the event that holds what it returns, entered after the call began.
    */
  lemma EffectDuringCall(run: seq<State>, b: nat, i: nat, t: nat)
    requires Runs.IsRun(Init, Next, run) && b < i < |run| && t < |run[b].threads| && run[b].threads[t].Idle?
    requires forall k :: b < k <= i ==> t < |run[k].threads| && !run[k].threads[t].Idle?
    ensures InCall(run[i], t, |run[b].history|)
    ensures run[i].threads[t].Returning? ==>
      run[i].history[run[i].threads[t].entry] == Event(t, run[i].threads[t].op, run[i].threads[t].result)
  {
    var began := |run[b].history|;
    Runs.StepOf(Init, Next, run, b);
    CallBegins(run[b], run[b + 1], t);
    forall k | b + 1 <= k < i && InCall(run[k], t, began) ensures InCall(run[k + 1], t, began) {
      Runs.StepOf(Init, Next, run, k);
      CallGoesOn(run[k], run[k + 1], t, began);
    }
    Runs.Persistence(run, s => InCall(s, t, began), b + 1, i);
    InvAlongRun(run, i);
    assert ThreadOk(run[i], t);
  }

  /** A call with nobody else in between: what the count becomes, and what the thread is about to return. */
  lemma FreeCall(s: State, t: nat, call: Op)
    requires t < |s.threads| && s.threads[t].Idle?
    ensures var s2 := Step(Step(s, t, call), t, call); var s3 := Step(s2, t, call);
      && (s.refcount <= 0 ==>
            s2.refcount == s.refcount && s2.threads[t] == Returning(call, 0, |s.history|) && s3.threads == s.threads)
      && (s.refcount > 0 ==>
            && s3.refcount == ReleaseStores(call, s.refcount)
            && s3.threads[t] == Returning(call, s3.refcount, |s.history|) && Step(s3, t, call).threads == s.threads)
  {
    var th := s.threads[t];
    assert Step(s, t, call).threads == s.threads[t := Load(call)];
    assert s.threads[t := th] == s.threads;
  }

  /** Without a new event the count does not change. */
  lemma NoEventNoChange(s: State, s': State)
    requires Inv(s) && Next(s, s')
    ensures |s'.history| >= |s.history|
    ensures |s'.history| == |s.history| ==> s'.refcount == s.refcount
  {
  }

  /**
    * The loop is lock-free: a thread whose compare-and-swap is about to fail at j, on a count it loaded
    * in step i, has been overtaken by an operation that took effect in between.
    */
  lemma FailsOnlyIfOvertaken(run: seq<State>, i: nat, j: nat, t: nat)
    requires Run(run) && i < j < |run| && t < |run[i].threads| && run[i].threads[t].Load?
    requires forall k :: i < k <= j ==> t < |run[k].threads|
    requires run[i + 1].threads[t].Cas? && forall k :: i < k <= j ==> run[k].threads[t] == run[i + 1].threads[t]
    ensures run[j].refcount != run[j].threads[t].prevCopy ==> |run[j].history| > |run[i].history|
  {
    var p := (s: State) =>
      |s.history| >= |run[i].history| && (|s.history| == |run[i].history| ==> s.refcount == run[i].refcount);
    forall k | i <= k < j && p(run[k]) ensures p(run[k + 1]) {
      InvAlongRun(run, k);
      Runs.StepOf(Init, Next, run, k);
      NoEventNoChange(run[k], run[k + 1]);
    }
    Runs.Persistence(run, p, i, j);
    Runs.StepOf(Init, Next, run, i);
    assert run[i + 1].threads[t].prevCopy == run[i].refcount;
  }

  lemma ZeroStaysZeroOnce(s: State, s': State)
    requires Next(s, s') && s.refcount == 0 && (forall t :: 0 <= t < |s.threads| ==> ThreadOk(s, t))
    ensures s'.refcount == 0
  {
    var t: nat, call: Op :| t < |s.threads| && !Overflows(s, t) && s' == Step(s, t, call);
    assert ThreadOk(s, t);
  }

  /** A count that has reached 0 is 0 for the rest of the run, whatever threads were in the middle of. */
  lemma ZeroStaysZero(run: seq<State>, i: nat, j: nat)
    requires Run(run) && i <= j < |run| && run[i].refcount == 0
    ensures run[j].refcount == 0
  {
    forall k | i <= k < j && run[k].refcount == 0 ensures run[k + 1].refcount == 0 {
      InvAlongRun(run, k);
      Runs.StepOf(Init, Next, run, k);
      ZeroStaysZeroOnce(run[k], run[k + 1]);
    }
    Runs.Persistence(run, (s: State) => s.refcount == 0, i, j);
  }

  /** The loops: one load and one compare-and-swap of the object. */
  class RefCounter {
    var refcount: Long              // volatile LONG
    ghost var threads: seq<Thread>
    ghost var history: seq<Event>

    ghost function Snapshot(): State
      reads this
    {
      State(refcount, threads, history)
    }

    constructor (n: nat)
      ensures Inv(Snapshot()) && Init(Snapshot()) && |threads| == n
    {
      refcount, history, threads := 1, [], seq(n, _ => Idle);
    }

    /** A call or a return: the count is not touched. */
    ghost method Proceed(t: nat, call: Op)
      requires Inv(Snapshot()) && t < |threads| && (threads[t].Idle? || threads[t].Returning?)
      modifies this`threads
      ensures Snapshot() == old(Step(Snapshot(), t, call)) && Inv(Snapshot())
    {
      StepRefines(Snapshot(), t, call);
      threads := Step(Snapshot(), t, call).threads;
    }

    /** The load of the count; a dead count ends the operation with 0. */
    method LoadCount(t: nat, ghost op: Op) returns (prevCopy: Long)
      requires Inv(Snapshot()) && t < |threads| && threads[t] == Load(op)
      modifies this`threads, this`history
      ensures Snapshot() == old(Step(Snapshot(), t, op)) && Inv(Snapshot())
      ensures prevCopy == refcount == CountAfter(1, old(history))
      ensures if prevCopy > 0 then threads[t] == Cas(op, prevCopy) else threads[t].Returning? && threads[t].result == 0
    {
      StepRefines(Snapshot(), t, op);
      prevCopy := refcount;
      ghost var next := Step(Snapshot(), t, op);
      threads, history := next.threads, next.history;
    }

    /** One compare-and-swap: it is the operation on the counter, unless a RefAdd succeeds at LONG_MAX. */
    method TrySwap(t: nat, op: Op, prevCopy: Long) returns (swapped: bool)
      requires Inv(Snapshot()) && t < |threads| && threads[t] == Cas(op, prevCopy)
      modifies this
      ensures Snapshot() == old(Step(Snapshot(), t, op))
      ensures Inv(Snapshot()) <==> !old(Overflows(Snapshot(), t))
      ensures swapped <==> old(refcount) == prevCopy
      ensures if swapped then threads[t].Returning? && threads[t].result == refcount else threads[t] == Load(op)
      ensures swapped ==>
        refcount == if old(Overflows(Snapshot(), t)) then LONG_MIN else Result(CountAfter(1, old(history)), op)
      ensures !swapped ==> history == old(history) && refcount == old(refcount)
    {
      StepRefines(Snapshot(), t, op);
      ghost var next := Step(Snapshot(), t, op);
      swapped := refcount == prevCopy;
      assert ThreadOk(Snapshot(), t);
      if swapped {
        refcount := Wanted(op, prevCopy);
      }
      threads, history := next.threads, next.history;
    }
  }

  // ------ a run that overflows ----------------------------------------------------------------

  ghost predicate Reached(s: State) {
    exists run :: Run(run) && run[|run| - 1] == s
  }

  lemma ReachedStep(s: State, t: nat, call: Op)
    requires Reached(s) && t < |s.threads| && !Overflows(s, t)
    ensures Reached(Step(s, t, call))
  {
    var run :| Run(run) && run[|run| - 1] == s;
    Runs.RunExtends(Init, Next, run, Step(s, t, call));
    assert Run(run + [Step(s, t, call)]);
  }

  /** One thread, at rest, in a reached state with the given count. */
  ghost predicate AtRest(s: State, count: Long) {
    Reached(s) && s.refcount == count && s.threads == [Idle]
  }

  /** The thread has called RefAdd and is about to swap. */
  lemma BeginAdd(s: State, count: Long) returns (s': State)
    requires AtRest(s, count) && count > 0
    ensures Reached(s') && s'.refcount == count && s'.threads == [Cas(RefAdd, count)]
  {
    ReachedStep(s, 0, RefAdd);
    var a := Step(s, 0, RefAdd);
    ReachedStep(a, 0, RefAdd);
    s' := Step(a, 0, RefAdd);
  }

  lemma AddOnce(s: State, count: Long) returns (s': State)
    requires AtRest(s, count) && 0 < count < LONG_MAX
    ensures AtRest(s', count + 1)
  {
    var a := BeginAdd(s, count);
    ReachedStep(a, 0, RefAdd);
    var b := Step(a, 0, RefAdd);
    ReachedStep(b, 0, RefAdd);
    s' := Step(b, 0, RefAdd);
  }

  /** Every positive count is reached by RefAdds of one thread. */
  lemma {:induction false} Climb(count: Long) returns (s: State)
    requires count > 0
    ensures AtRest(s, count)
    decreases count
  {
    if count == 1 {
      s := State(1, [Idle], []);
      assert Run([s]);
    } else {
      var a := Climb(count - 1);
      s := AddOnce(a, count - 1);
    }
  }

  /** The overflow happens: some run ends in a state whose next step stores LONG_MIN. */
  lemma OverflowIsReached() returns (s: State)
    ensures Reached(s) && Inv(s) && Overflows(s, 0)
    ensures Step(s, 0, RefAdd).refcount == LONG_MIN && !Inv(Step(s, 0, RefAdd))
  {
    var a := Climb(LONG_MAX);
    s := BeginAdd(a, LONG_MAX);
    var run :| Run(run) && run[|run| - 1] == s;
    InvAlongRun(run, |run| - 1);
    StepRefines(s, 0, RefAdd);
  }
}

module RefCountDebug {
  import opened RefCountSpec
  import Runs

  /** A thread in the debug build; `lock` is the word of the CCritSectLite. */
  datatype Thread =
    | Idle
    | Enter(op: Op)                      // about to InterlockedCompareExchange(&lock, 1, 0)
    | Load(op: Op)                       // inside; about to load refcount
    | Store(op: Op, loaded: Long)        // about to store the new refcount
    | Leave(op: Op, result: Long, entry: nat)  // about to store lock = 0 and return

  predicate Inside(th: Thread) {
    th.Load? || th.Store? || th.Leave?
  }

  datatype State = State(lock: int, refcount: Long, threads: seq<Thread>, history: seq<Event>)

  ghost predicate Init(s: State) {
    s.lock == 0 && s.refcount == 1 && s.history == [] && forall t :: 0 <= t < |s.threads| ==> s.threads[t].Idle?
  }

  /** refcount += (refcount != 0) and refcount -= (refcount > 0) */
  function Wanted(op: Op, loaded: Long): Long {
    if op.RefAdd? then Wrap(loaded + (if loaded != 0 then 1 else 0))
    else Wrap(loaded - (if loaded > 0 then 1 else 0))
  }

  function Step(s: State, t: nat, call: Op): State
    requires t < |s.threads|
  {
    match s.threads[t]
    case Idle => s.(threads := s.threads[t := Enter(call)])
    case Enter(op) => if s.lock != 0 then s else s.(lock := 1, threads := s.threads[t := Load(op)])
    case Load(op) => s.(threads := s.threads[t := Store(op, s.refcount)])
    case Store(op, loaded) =>
      var v := Wanted(op, loaded);
      State(s.lock, v, s.threads[t := Leave(op, v, |s.history|)], s.history + [Event(t, op, v)])
    case Leave(op, result, entry) => s.(lock := 0, threads := s.threads[t := Idle])
  }

  ghost predicate ThreadOk(s: State, t: nat)
    requires t < |s.threads|
  {
    && (Inside(s.threads[t]) ==> s.lock == 1 && forall u :: 0 <= u < |s.threads| && Inside(s.threads[u]) ==> u == t)
    && match s.threads[t]
       case Store(op, loaded) => loaded == s.refcount
       case Leave(op, result, entry) => entry < |s.history| && s.history[entry] == Event(t, op, result)
       case _ => true
  }

  /** The same refinement as in the release build, carried by the spin lock. */
  ghost predicate Inv(s: State) {
    && Legal(1, s.history)
    && s.refcount == CountAfter(1, s.history)
    && (s.lock == 0 || s.lock == 1)
    && (s.lock == 0 <==> forall t :: 0 <= t < |s.threads| ==> !Inside(s.threads[t]))
    && forall t :: 0 <= t < |s.threads| ==> ThreadOk(s, t)
  }

  predicate Overflows(s: State, t: nat) {
    t < |s.threads| && s.threads[t].Store? && s.threads[t].op.RefAdd? && s.refcount == LONG_MAX
  }

  /** The lock word is 0 exactly if nobody is inside. */
  lemma WordTells(s: State, t: nat, call: Op)
    requires Inv(s) && t < |s.threads|
    ensures var s' := Step(s, t, call);
      s'.lock == 0 <==> forall u :: 0 <= u < |s'.threads| ==> !Inside(s'.threads[u])
  {
    var s' := Step(s, t, call);
    assert ThreadOk(s, t);
    if !Inside(s.threads[t]) && s.lock == 1 {
      var u :| 0 <= u < |s.threads| && Inside(s.threads[u]);
      assert Inside(s'.threads[u]);
    } else {
      assert s'.lock == 1 ==> Inside(s'.threads[t]);
    }
  }

  /** The steps that take effect nowhere. */
  lemma QuietStepKeeps(s: State, t: nat, call: Op)
    requires Inv(s) && t < |s.threads| && !s.threads[t].Store?
    ensures Inv(Step(s, t, call))
  {
    var s' := Step(s, t, call);
    assert ThreadOk(s, t);
    WordTells(s, t, call);
    forall u | 0 <= u < |s'.threads| ensures ThreadOk(s', u) {
      assert ThreadOk(s, u);
    }
  }

  /** The store is the operation on the atomic counter, unless it overflows. */
  lemma StoreIsOperation(s: State, t: nat, op: Op, stored: Long)
    requires Inv(s) && t < |s.threads| && s.threads[t].Store? && op == s.threads[t].op
    requires stored == Wanted(op, s.threads[t].loaded)
    ensures stored == Result(CountAfter(1, s.history), op) <==> !Overflows(s, t)
  {
    assert ThreadOk(s, t);
  }

  lemma StoreKeeps(s: State, t: nat, call: Op)
    requires Inv(s) && t < |s.threads| && s.threads[t].Store? && !Overflows(s, t)
    ensures Inv(Step(s, t, call))
  {
    var s' := Step(s, t, call);
    assert ThreadOk(s, t);
    StoreIsOperation(s, t, s.threads[t].op, s'.refcount);
    Extends(1, s.history, s'.history[|s.history|]);
    WordTells(s, t, call);
    forall u | 0 <= u < |s'.threads| ensures ThreadOk(s', u) {
      assert ThreadOk(s, u);
    }
  }

  lemma StepRefines(s: State, t: nat, call: Op)
    requires Inv(s) && t < |s.threads|
    ensures Inv(Step(s, t, call)) <==> !Overflows(s, t)
  {
    if s.threads[t].Store? {
      var s' := Step(s, t, call);
      StoreIsOperation(s, t, s.threads[t].op, s'.refcount);
      Extends(1, s.history, s'.history[|s.history|]);
      if !Overflows(s, t) {
        StoreKeeps(s, t, call);
      }
    } else {
      QuietStepKeeps(s, t, call);
    }
  }

  /** A call on a free lock: five statements, after which the thread has returned and the lock is free again. */
  lemma FreeCall(s: State, t: nat, call: Op)
    requires t < |s.threads| && s.threads[t].Idle? && s.lock == 0 && s.refcount >= 0
    ensures var s2 := Step(Step(s, t, call), t, call); var s4 := Step(Step(s2, t, call), t, call);
      && s2.lock == 1 && s4.refcount == ReleaseStores(call, s.refcount)
      && s4.threads[t] == Leave(call, s4.refcount, |s.history|)
      && Step(s4, t, call).threads == s.threads && Step(s4, t, call).lock == 0
  {
    var s2 := Step(Step(s, t, call), t, call);
    assert s2.threads == s.threads[t := Load(call)];
    BuildsAgree(call, s.refcount);
    assert s.threads[t := s.threads[t]] == s.threads;
  }

  /** As long as somebody is in a call, somebody has a statement that is not a failed Enter. */
  lemma SomeThreadAdvances(s: State, t: nat) returns (u: nat)
    requires Inv(s) && t < |s.threads| && !s.threads[t].Idle?
    ensures u < |s.threads| && !s.threads[u].Idle?
    ensures forall call :: Step(s, u, call).threads[u] != s.threads[u]
  {
    u := t;
    if s.lock != 0 {
      u :| 0 <= u < |s.threads| && Inside(s.threads[u]);
    }
  }

  ghost predicate Next(s: State, s': State) {
    exists t: nat, call: Op :: t < |s.threads| && !Overflows(s, t) && s' == Step(s, t, call)
  }

  lemma InvAlongRun(run: seq<State>, i: nat)
    requires Runs.IsRun(Init, Next, run) && i < |run|
    ensures Inv(run[i])
  {
    forall s, s' | Inv(s) && Next(s, s') ensures Inv(s') {
      var t: nat, call: Op :| t < |s.threads| && !Overflows(s, t) && s' == Step(s, t, call);
      StepRefines(s, t, call);
    }
    Runs.Invariance(Init, Next, Inv, run, i);
  }

  /** The debug build linearizes to the same atomic counter. */
  lemma Linearizes(run: seq<State>, i: nat)
    requires Runs.IsRun(Init, Next, run) && i < |run|
    ensures Legal(1, run[i].history) && run[i].refcount == CountAfter(1, run[i].history)
    ensures forall t :: 0 <= t < |run[i].threads| && run[i].threads[t].Leave? ==>
      var th := run[i].threads[t];
      th.entry < |run[i].history| && run[i].history[th.entry] == Event(t, th.op, th.result)
  {
    InvAlongRun(run, i);
    forall t | 0 <= t < |run[i].threads| && run[i].threads[t].Leave?
      ensures var th := run[i].threads[t];
        th.entry < |run[i].history| && run[i].history[th.entry] == Event(t, th.op, th.result)
    {
      assert ThreadOk(run[i], t);
    }
  }

  // ------ each call takes effect once, while it runs -------------------------------------------

  /** Thread t is in the call that began when the history had the length began: no event yet, or exactly one. */
  ghost predicate InCall(s: State, t: nat, began: nat) {
    && t < |s.threads| && !s.threads[t].Idle?
    && if s.threads[t].Leave? then OnlyEvent(s.history, t, began, s.threads[t].entry)
       else NoEvent(s.history, t, began)
  }

  lemma CallBegins(s: State, s': State, t: nat)
    requires Next(s, s') && t < |s.threads| && s.threads[t].Idle? && t < |s'.threads| && !s'.threads[t].Idle?
    ensures InCall(s', t, |s.history|)
  {
  }

  lemma CallGoesOn(s: State, s': State, t: nat, began: nat)
    requires Next(s, s') && InCall(s, t, began) && t < |s'.threads| && !s'.threads[t].Idle?
    ensures InCall(s', t, began)
  {
  }

  /**
    * From the last position b at which thread t was idle, its operation has at most one event, and exactly
    * one when it is about to return: the event that holds what it returns, entered after the call began.
    */
  lemma EffectDuringCall(run: seq<State>, b: nat, i: nat, t: nat)
    requires Runs.IsRun(Init, Next, run) && b < i < |run| && t < |run[b].threads| && run[b].threads[t].Idle?
    requires forall k :: b < k <= i ==> t < |run[k].threads| && !run[k].threads[t].Idle?
    ensures InCall(run[i], t, |run[b].history|)
    ensures run[i].threads[t].Leave? ==>
      run[i].history[run[i].threads[t].entry] == Event(t, run[i].threads[t].op, run[i].threads[t].result)
  {
    var began := |run[b].history|;
    Runs.StepOf(Init, Next, run, b);
    CallBegins(run[b], run[b + 1], t);
    forall k | b + 1 <= k < i && InCall(run[k], t, began) ensures InCall(run[k + 1], t, began) {
      Runs.StepOf(Init, Next, run, k);
      CallGoesOn(run[k], run[k + 1], t, began);
    }
    Runs.Persistence(run, s => InCall(s, t, began), b + 1, i);
    InvAlongRun(run, i);
    assert ThreadOk(run[i], t);
  }

  /** CCritSectLite: at most one thread is between its successful compare-and-swap and its store of 0. */
  lemma OneInside(run: seq<State>, i: nat, t: nat, u: nat)
    requires Runs.IsRun(Init, Next, run) && i < |run|
    requires t < |run[i].threads| && u < |run[i].threads| && Inside(run[i].threads[t]) && Inside(run[i].threads[u])
    ensures t == u && run[i].lock == 1
  {
    InvAlongRun(run, i);
    assert ThreadOk(run[i], t);
  }

  /** The operations of the debug build, one statement per call. */
  class DebugRefCounter {
    var lock: int                   // the word of cs
    var refcount: Long
    ghost var threads: seq<Thread>
    ghost var history: seq<Event>

    ghost function Snapshot(): State
      reads this
    {
      State(lock, refcount, threads, history)
    }

    ghost predicate Valid(t: nat)
      reads this
    {
      Inv(Snapshot()) && t < |threads|
    }

    constructor (n: nat)
      ensures Inv(Snapshot()) && Init(Snapshot()) && |threads| == n
    {
      lock, refcount, history, threads := 0, 1, [], seq(n, _ => Idle);
    }

    ghost method Proceed(t: nat, call: Op)
      requires Valid(t) && threads[t].Idle?
      modifies this`threads
      ensures Snapshot() == old(Step(Snapshot(), t, call)) && Inv(Snapshot())
    {
      StepRefines(Snapshot(), t, call);
      threads := Step(Snapshot(), t, call).threads;
    }

    /** One turn of Enter: a compare-and-swap of the lock word. */
    method TryEnter(t: nat, ghost op: Op) returns (entered: bool)
      requires Valid(t) && threads[t] == Enter(op)
      modifies this`lock, this`threads
      ensures Snapshot() == old(Step(Snapshot(), t, op)) && Inv(Snapshot())
      ensures entered <==> forall u :: 0 <= u < |threads| ==> !Inside(old(threads)[u])
      ensures threads[t] == if entered then Load(op) else Enter(op)
    {
      StepRefines(Snapshot(), t, op);
      entered := lock == 0;
      threads := Step(Snapshot(), t, op).threads;
      lock := if entered then 1 else lock;
      assert ThreadOk(Snapshot(), t);
    }

    method LoadCount(t: nat, ghost op: Op) returns (loaded: Long)
      requires Valid(t) && threads[t] == Load(op)
      modifies this`threads
      ensures Snapshot() == old(Step(Snapshot(), t, op)) && Inv(Snapshot())
      ensures loaded == refcount && threads[t] == Store(op, loaded)
    {
      StepRefines(Snapshot(), t, op);
      threads := Step(Snapshot(), t, op).threads;
      loaded := refcount;
    }

    /** The store of the new count, which is also the result. */
    method StoreCount(t: nat, op: Op, loaded: Long) returns (result: Long)
      requires Valid(t) && threads[t] == Store(op, loaded)
      modifies this`refcount, this`threads, this`history
      ensures Snapshot() == old(Step(Snapshot(), t, op))
      ensures Inv(Snapshot()) <==> !old(Overflows(Snapshot(), t))
      ensures result == refcount && threads[t].Leave? && threads[t].result == result
      ensures refcount == if old(Overflows(Snapshot(), t)) then LONG_MIN else Result(CountAfter(1, old(history)), op)
    {
      assert ThreadOk(Snapshot(), t);
      StepRefines(Snapshot(), t, op);
      Extends(1, history, Event(t, op, Wanted(op, loaded)));
      ghost var next := Step(Snapshot(), t, op);
      refcount := Wanted(op, loaded);
      result := refcount;
      threads, history := next.threads, next.history;
    }

    /** The lock word is set back to 0. */
    method Exit(t: nat, ghost op: Op)
      requires Valid(t) && threads[t].Leave?
      modifies this`lock, this`threads
      ensures Snapshot() == old(Step(Snapshot(), t, op)) && Inv(Snapshot())
    {
      StepRefines(Snapshot(), t, op);
      threads := Step(Snapshot(), t, op).threads;
      lock := 0;
    }
  }

  /** The two builds agree on what they store and return exactly on counts that are not negative. */
  lemma BuildsAgree(op: Op, count: Long)
    ensures Wanted(op, count) == ReleaseStores(op, count) == ReleaseReturns(op, count) <==> count >= 0
  {
  }
}
