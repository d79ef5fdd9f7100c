/**
  * How many requests the fair lock can have outstanding: every run within a limit on readers and a
  * limit on writers keeps writers alone if and only if the two limits are Safe. The runs here are not
  * otherwise bounded.
  */
module FairLockLimits {
  import opened PackedCounter
  import opened Words
  import opened C = FairLockControl
  import opened L = FairLock
  import T = FairLockTheorems
  import Runs
  import Sets

  /** At most so many requests of each kind outstanding. */
  datatype Limits = Limits(readers: nat, writers: nat) {
    function Of(k: Kind): nat {
      if k.Reader? then readers else writers
    }
  }

  ghost function Count(s: State, k: Kind): nat {
    |Outstanding(s.control.threads, k)|
  }

  ghost predicate Within(s: State, m: Limits) {
    Count(s, Reader) <= m.readers && Count(s, Writer) <= m.writers
  }

  ghost predicate AnyNext(s: State, s': State) {
    exists t: nat, call: Kind :: L.Enabled(s, t) && s' == L.Step(s, t, call)
  }

  ghost predicate RunWithin(run: seq<State>, m: Limits) {
    && Runs.IsRun(L.Init, AnyNext, run)
    && forall i: nat :: i < |run| ==> Within(run[i], m)
  }

  ghost predicate Reached(s: State, m: Limits) {
    exists run :: RunWithin(run, m) && run[|run| - 1] == s
  }

  /** No admitted writer beside another admitted thread. */
  ghost predicate Exclusive(s: State) {
    forall u: nat, t: nat :: T.Threads(s, t, u) && T.ThreadOf(s, u).Admitted() && T.ThreadOf(s, u).kind.Writer? ==>
      !T.ThreadOf(s, t).Admitted()
  }

  // ------ safe limits suffice -----------------------------------------------------------------

  lemma WithinSafeIsBounded(s: State, m: Limits)
    requires Within(s, m) && Safe(m.readers, m.writers)
    ensures Bounded(s)
  {
  }

  lemma SafeRun(run: seq<State>, m: Limits)
    requires RunWithin(run, m) && Safe(m.readers, m.writers)
    ensures T.Run(run)
  {
    forall i | 0 <= i < |run| - 1 ensures Next(run[i], run[i + 1]) {
      Runs.StepOf(L.Init, AnyNext, run, i);
      WithinSafeIsBounded(run[i], m);
    }
  }

  lemma SafeLimitsExclude(s: State, m: Limits)
    requires Reached(s, m) && Safe(m.readers, m.writers)
    ensures Exclusive(s)
  {
    var run :| RunWithin(run, m) && run[|run| - 1] == s;
    SafeRun(run, m);
    T.InvAlongRun(run, |run| - 1);
    forall u: nat, t: nat | T.Threads(s, t, u) && T.ThreadOf(s, u).Admitted() && T.ThreadOf(s, u).kind.Writer?
      ensures !T.ThreadOf(s, t).Admitted()
    {
      T.NothingPassesAWriter(s, u, t);
    }
  }

  // ------ building a run ----------------------------------------------------------------------

  /** A statement changes its own thread, and only the add to `requests` makes a request outstanding. */
  lemma OwnThread(c: Control, t: nat, call: Kind, admitted: bool)
    requires C.Enabled(c, t)
    ensures var c' := C.Step(c, t, call, admitted);
      && c'.threads == c.threads[t := c'.threads[t]]
      && (c'.threads[t].Outstanding() ==>
        c'.threads[t].kind == c.threads[t].kind && (c.threads[t].Outstanding() || c.threads[t].pc.ReqAdd?))
  {
  }

  lemma NoMoreOutstanding(before: seq<Thread>, t: nat, th: Thread, k: Kind)
    requires t < |before|
    requires th.Outstanding() && th.kind == k ==> before[t].Outstanding() && before[t].kind == k
    ensures |Outstanding(before[t := th], k)| <= |Outstanding(before, k)|
  {
    assert Outstanding(before[t := th], k) <= Outstanding(before, k);
    Sets.SubsetIsSmaller(Outstanding(before[t := th], k), Outstanding(before, k));
  }

  lemma OneMoreOutstanding(before: seq<Thread>, t: nat, th: Thread, k: Kind)
    requires t < |before|
    ensures |Outstanding(before[t := th], k)| <= |Outstanding(before, k)| + 1
  {
    assert Outstanding(before[t := th], k) <= Outstanding(before, k) + {t};
    Sets.SubsetIsSmaller(Outstanding(before[t := th], k), Outstanding(before, k) + {t});
  }

  function Grows(th: Thread, k: Kind): nat {
    if th.pc.ReqAdd? && th.kind == k then 1 else 0
  }

  lemma CountMoves(s: State, t: nat, call: Kind, k: Kind)
    requires L.Enabled(s, t)
    ensures Count(L.Step(s, t, call), k) <= Count(s, k) + Grows(s.control.threads[t], k)
  {
    var th := s.control.threads[t];
    var th' := L.Step(s, t, call).control.threads[t];
    OwnThread(s.control, t, call, Admits(s.completions, s.fetched[t], th.kind));
    if th.pc.ReqAdd? && th.kind == k {
      OneMoreOutstanding(s.control.threads, t, th', k);
    } else {
      NoMoreOutstanding(s.control.threads, t, th', k);
    }
  }

  lemma Append(run: seq<State>, m: Limits, s: State)
    requires RunWithin(run, m) && AnyNext(run[|run| - 1], s) && Within(s, m)
    ensures Reached(s, m)
  {
    Runs.RunExtends(L.Init, AnyNext, run, s);
    var run' := run + [s];
    forall i: nat | i < |run'| ensures Within(run'[i], m) {
      assert run'[i] == if i < |run| then run[i] else s;
    }
    assert RunWithin(run', m);
  }

  lemma ReachedStep(s: State, m: Limits, t: nat, call: Kind)
    requires Reached(s, m) && L.Enabled(s, t) && Within(L.Step(s, t, call), m)
    ensures Reached(L.Step(s, t, call), m)
  {
    var run :| RunWithin(run, m) && run[|run| - 1] == s;
    Append(run, m, L.Step(s, t, call));
  }

  /** The predicate holds at the start, and of every state within the limits that follows one of its own. */
  ghost predicate Closed(holds: State -> bool, m: Limits) {
    && (forall s: State :: Unused(s) ==> holds(s))
    && forall s: State, t: nat, call: Kind ::
        holds(s) && L.Enabled(s, t) && Within(L.Step(s, t, call), m) ==> holds(L.Step(s, t, call))
  }

  /** One statement; an add to `requests` needs room within the limit. */
  lemma Go(s: State, m: Limits, holds: State -> bool, t: nat, call: Kind) returns (s': State)
    requires Closed(holds, m) && holds(s) && Within(s, m) && L.Enabled(s, t)
    requires var th := s.control.threads[t]; th.pc.ReqAdd? ==> Count(s, th.kind) < m.Of(th.kind)
    ensures s' == L.Step(s, t, call) && holds(s') && Within(s', m)
    ensures forall k :: Count(s', k) <= Count(s, k) + Grows(s.control.threads[t], k)
  {
    s' := L.Step(s, t, call);
    CountMoves(s, t, call, Reader);
    CountMoves(s, t, call, Writer);
  }

  /** The statement after one that writes no word, apart from the loop test. */
  function NextPc(pc: Pc): Pc {
    match pc
    case Idle => ReqEnter
    case ReqEnter => ReqFetch
    case ReqFetch => ReqClear
    case ReqLeave => Spin
    case Spin => Inside
    case Inside => EndEnter
    case EndEnter => EndClear
    case EndLeave => Idle
    case _ => pc
  }

  function NextSection(pc: Pc, cs: Section, t: nat): Section {
    match pc
    case ReqEnter => Held(t)
    case EndEnter => Held(t)
    case ReqLeave => Free
    case EndLeave => Free
    case _ => cs
  }

  /** A statement that writes no word, with a loop test that passes. */
  lemma Quiet(s: State, m: Limits, holds: State -> bool, t: nat, call: Kind) returns (s': State)
    requires Closed(holds, m)
    requires holds(s) && Within(s, m) && L.Enabled(s, t)
    requires var pc := s.control.threads[t].pc; !pc.ReqClear? && !pc.ReqAdd? && !pc.EndClear? && !pc.EndAdd?
    requires s.control.threads[t].pc.Spin? ==> Admits(s.completions, s.fetched[t], s.control.threads[t].kind)
    ensures holds(s') && Within(s', m) && forall k :: Count(s', k) <= Count(s, k)
    ensures s'.requests == s.requests && s'.completions == s.completions
    ensures s'.fetched == if s.control.threads[t].pc.ReqFetch? then s.fetched[t := s.requests] else s.fetched
    ensures var th := s.control.threads[t];
      s'.control == s.control.(cs := NextSection(th.pc, s.control.cs, t),
        threads := Replaced(s, t, th.(pc := NextPc(th.pc), kind := if th.pc.Idle? then call else th.kind)))
  {
    s' := Go(s, m, holds, t, call);
  }

  /** The first write of an update. */
  lemma Clear(s: State, m: Limits, holds: State -> bool, t: nat) returns (s': State)
    requires Closed(holds, m)
    requires holds(s) && Within(s, m) && L.Enabled(s, t)
    requires s.control.threads[t].pc.ReqClear? || s.control.threads[t].pc.EndClear?
    ensures holds(s') && Within(s', m) && forall k :: Count(s', k) <= Count(s, k)
    ensures s'.fetched == s.fetched
    ensures var th := s.control.threads[t];
      if th.pc.ReqClear? then
        && s'.requests == ClearTop(s.requests, th.kind) && s'.completions == s.completions
        && s'.control == s.control.(threads := Replaced(s, t, th.(pc := ReqAdd)))
      else
        && s'.requests == s.requests && s'.completions == ClearTop(s.completions, th.kind)
        && s'.control == s.control.(threads := Replaced(s, t, th.(pc := EndAdd)))
  {
    s' := Go(s, m, holds, t, Reader);
  }

  /** The second write of an update. */
  lemma Advance(s: State, m: Limits, holds: State -> bool, t: nat) returns (s': State)
    requires Closed(holds, m)
    requires holds(s) && Within(s, m) && L.Enabled(s, t)
    requires s.control.threads[t].pc.ReqAdd? || s.control.threads[t].pc.EndAdd?
    requires s.control.threads[t].pc.ReqAdd? ==> Count(s, s.control.threads[t].kind) < m.Of(s.control.threads[t].kind)
    ensures holds(s') && Within(s', m)
    ensures forall k :: Count(s', k) <= Count(s, k) + Grows(s.control.threads[t], k)
    ensures s'.fetched == s.fetched
    ensures s.control.threads[t].pc.ReqAdd? ==>
      && s'.control == C.Requested(s.control, t) && s'.completions == s.completions
      && s'.requests == AddOne(s.requests, s.control.threads[t].kind)
    ensures s.control.threads[t].pc.EndAdd? ==>
      && s'.control == C.Completed(s.control, t) && s'.requests == s.requests
      && s'.completions == AddOne(s.completions, s.control.threads[t].kind)
  {
    s' := Go(s, m, holds, t, Reader);
  }

  /** A reached state with the section free and both words settled. */
  ghost predicate Settled(s: State, m: Limits, holds: State -> bool) {
    && holds(s) && Within(s, m)
    && |s.fetched| == |s.control.threads| && s.control.cs == Free
    && s.requests == Pack(s.control.readReqs, |s.control.writers|)
    && s.completions == Pack(s.control.readsDone, s.control.writesDone)
  }

  function Plus(n: nat, k: Kind, of: Kind): nat {
    if k == of then n + 1 else n
  }

  /** The requests of each kind so far, and the completions. */
  function Asked(s: State, k: Kind): nat {
    if k.Reader? then s.control.readReqs else |s.control.writers|
  }

  function Done(s: State, k: Kind): nat {
    if k.Reader? then s.control.readsDone else s.control.writesDone
  }

  function Replaced(s: State, t: nat, th: Thread): seq<Thread>
    requires t < |s.control.threads|
  {
    s.control.threads[t := th]
  }

  /** The statements of a request before its add. */
  lemma Ask(s: State, m: Limits, holds: State -> bool, t: nat, k: Kind) returns (s': State)
    requires Closed(holds, m)
    requires Settled(s, m, holds) && t < |s.control.threads| && s.control.threads[t].pc.Idle?
    ensures holds(s') && Within(s', m) && forall j :: Count(s', j) <= Count(s, j)
    ensures s'.control == s.control.(
      cs := Held(t), threads := Replaced(s, t, s.control.threads[t].(pc := ReqAdd, kind := k)))
    ensures s'.requests == ClearTop(s.requests, k) && s'.completions == s.completions
    ensures s'.fetched == s.fetched[t := s.requests]
  {
    var a := Quiet(s, m, holds, t, k);
    var b := Quiet(a, m, holds, t, k);
    var c := Quiet(b, m, holds, t, k);
    s' := Clear(c, m, holds, t);
  }

  /** The add to `requests`. */
  lemma CountRequest(s: State, m: Limits, holds: State -> bool, t: nat, word: Word) returns (s': State)
    requires Closed(holds, m)
    requires holds(s) && Within(s, m) && L.Enabled(s, t) && s.control.threads[t].pc.ReqAdd?
    requires Count(s, s.control.threads[t].kind) < m.Of(s.control.threads[t].kind)
    requires word == Pack(s.control.readReqs, |s.control.writers|)
    requires s.requests == ClearTop(word, s.control.threads[t].kind)
    ensures holds(s') && Within(s', m) && forall j :: Count(s', j) <= Count(s, j) + Grows(s.control.threads[t], j)
    ensures s'.control == C.Requested(s.control, t)
    ensures s'.requests == Pack(s'.control.readReqs, |s'.control.writers|)
    ensures s'.completions == s.completions && s'.fetched == s.fetched
  {
    s' := Advance(s, m, holds, t);
    UpdateAdvancesOneCount(word, s.control.readReqs, |s.control.writers|, s.control.threads[t].kind);
  }

  /** The exit from the section. */
  lemma LeaveSection(s: State, m: Limits, holds: State -> bool, t: nat) returns (s': State)
    requires Closed(holds, m)
    requires holds(s) && Within(s, m) && L.Enabled(s, t)
    requires s.control.threads[t].pc.ReqLeave? || s.control.threads[t].pc.EndLeave?
    ensures holds(s') && Within(s', m) && forall k :: Count(s', k) <= Count(s, k)
    ensures s'.requests == s.requests && s'.completions == s.completions && s'.fetched == s.fetched
    ensures var th := s.control.threads[t];
      s'.control == s.control.(cs := Free, threads := Replaced(s, t, th.(pc := NextPc(th.pc))))
  {
    s' := Quiet(s, m, holds, t, Reader);
  }

  /** The add to `requests` and the exit from the section. */
  lemma AddRequest(s: State, m: Limits, holds: State -> bool, t: nat, word: Word) returns (s': State)
    requires Closed(holds, m)
    requires holds(s) && Within(s, m) && L.Enabled(s, t) && s.control.threads[t].pc.ReqAdd?
    requires Count(s, s.control.threads[t].kind) < m.Of(s.control.threads[t].kind)
    requires word == Pack(s.control.readReqs, |s.control.writers|)
    requires s.requests == ClearTop(word, s.control.threads[t].kind)
    ensures holds(s') && Within(s', m) && forall j :: Count(s', j) <= Plus(Count(s, j), j, s.control.threads[t].kind)
    ensures s'.control.threads ==
      Replaced(s, t, Thread(Spin, s.control.threads[t].kind, s.control.readReqs, |s.control.writers|))
    ensures forall j :: Asked(s', j) == Plus(Asked(s, j), j, s.control.threads[t].kind) && Done(s', j) == Done(s, j)
    ensures s'.requests == Pack(s'.control.readReqs, |s'.control.writers|)
    ensures s'.control.cs == Free && s'.completions == s.completions && s'.fetched == s.fetched
  {
    var a := CountRequest(s, m, holds, t, word);
    s' := LeaveSection(a, m, holds, t);
  }

  /** A whole request of kind k, up to the spin loop. */
  lemma Request(s: State, m: Limits, holds: State -> bool, t: nat, k: Kind) returns (s': State)
    requires Closed(holds, m)
    requires Settled(s, m, holds) && t < |s.control.threads| && s.control.threads[t].pc.Idle?
    requires Count(s, k) < m.Of(k)
    ensures Settled(s', m, holds)
    ensures s'.control.threads == Replaced(s, t, Thread(Spin, k, s.control.readReqs, |s.control.writers|))
    ensures forall j :: Asked(s', j) == Plus(Asked(s, j), j, k) && Done(s', j) == Done(s, j)
    ensures forall j :: Count(s', j) <= Plus(Count(s, j), j, k)
    ensures s'.fetched == s.fetched[t := s.requests] && s'.completions == s.completions
  {
    var a := Ask(s, m, holds, t, k);
    s' := AddRequest(a, m, holds, t, s.requests);
    assert Done(s', Reader) == Done(s, Reader) && Done(s', Writer) == Done(s, Writer);
  }

  /** A passed test of the spin loop. */
  lemma Enter(s: State, m: Limits, holds: State -> bool, t: nat) returns (s': State)
    requires Closed(holds, m)
    requires Settled(s, m, holds) && t < |s.control.threads| && s.control.threads[t].pc.Spin?
    requires Admits(s.completions, s.fetched[t], s.control.threads[t].kind)
    ensures Settled(s', m, holds) && s'.control.threads == Replaced(s, t, s.control.threads[t].(pc := Inside))
    ensures forall j :: Asked(s', j) == Asked(s, j) && Done(s', j) == Done(s, j) && Count(s', j) <= Count(s, j)
    ensures s'.fetched == s.fetched && s'.requests == s.requests && s'.completions == s.completions
  {
    s' := Quiet(s, m, holds, t, Reader);
  }

  /** The statements of EndRead or EndWrite before its add. */
  lemma BeginExit(s: State, m: Limits, holds: State -> bool, t: nat) returns (s': State)
    requires Closed(holds, m)
    requires Settled(s, m, holds) && t < |s.control.threads| && s.control.threads[t].pc.Inside?
    ensures holds(s') && Within(s', m) && forall j :: Count(s', j) <= Count(s, j)
    ensures s'.control == s.control.(cs := Held(t), threads := Replaced(s, t, s.control.threads[t].(pc := EndAdd)))
    ensures s'.completions == ClearTop(s.completions, s.control.threads[t].kind) && s'.requests == s.requests
    ensures s'.fetched == s.fetched
  {
    var a := Quiet(s, m, holds, t, Reader);
    var b := Quiet(a, m, holds, t, Reader);
    s' := Clear(b, m, holds, t);
  }

  /** The add to `completions`. */
  lemma CountCompletion(s: State, m: Limits, holds: State -> bool, t: nat, word: Word) returns (s': State)
    requires Closed(holds, m)
    requires holds(s) && Within(s, m) && L.Enabled(s, t) && s.control.threads[t].pc.EndAdd?
    requires word == Pack(s.control.readsDone, s.control.writesDone)
    requires s.completions == ClearTop(word, s.control.threads[t].kind)
    ensures holds(s') && Within(s', m) && forall j :: Count(s', j) <= Count(s, j)
    ensures s'.control == C.Completed(s.control, t)
    ensures s'.completions == Pack(s'.control.readsDone, s'.control.writesDone)
    ensures s'.requests == s.requests && s'.fetched == s.fetched
  {
    s' := Advance(s, m, holds, t);
    UpdateAdvancesOneCount(word, s.control.readsDone, s.control.writesDone, s.control.threads[t].kind);
  }

  /** The add to `completions` and the exit from the section. */
  lemma AddCompletion(s: State, m: Limits, holds: State -> bool, t: nat, word: Word) returns (s': State)
    requires Closed(holds, m)
    requires holds(s) && Within(s, m) && L.Enabled(s, t) && s.control.threads[t].pc.EndAdd?
    requires word == Pack(s.control.readsDone, s.control.writesDone)
    requires s.completions == ClearTop(word, s.control.threads[t].kind)
    ensures holds(s') && Within(s', m) && forall j :: Count(s', j) <= Count(s, j)
    ensures s'.control.threads == Replaced(s, t, s.control.threads[t].(pc := Idle))
    ensures forall j :: Asked(s', j) == Asked(s, j) && Done(s', j) == Plus(Done(s, j), j, s.control.threads[t].kind)
    ensures s'.completions == Pack(s'.control.readsDone, s'.control.writesDone)
    ensures s'.control.cs == Free && s'.requests == s.requests && s'.fetched == s.fetched
  {
    var a := CountCompletion(s, m, holds, t, word);
    s' := LeaveSection(a, m, holds, t);
  }

  /** A whole EndRead or EndWrite. */
  lemma Exit(s: State, m: Limits, holds: State -> bool, t: nat) returns (s': State)
    requires Closed(holds, m)
    requires Settled(s, m, holds) && t < |s.control.threads| && s.control.threads[t].pc.Inside?
    ensures Settled(s', m, holds) && s'.control.threads == Replaced(s, t, s.control.threads[t].(pc := Idle))
    ensures forall j :: Asked(s', j) == Asked(s, j) && Done(s', j) == Plus(Done(s, j), j, s.control.threads[t].kind)
    ensures forall j :: Count(s', j) <= Count(s, j)
  {
    var a := BeginExit(s, m, holds, t);
    s' := AddCompletion(a, m, holds, t, s.completions);
    assert Asked(s', Reader) == Asked(s, Reader) && Asked(s', Writer) == Asked(s, Writer);
  }

  // ------ unsafe limits fail ------------------------------------------------------------------

  /** After one use of the lock by a thread of kind k, x threads have asked for it and the first of them is inside. */
  ghost predicate Crowded(s: State, m: Limits, holds: State -> bool, n: nat, k: Kind, x: nat) {
    && Settled(s, m, holds) && |s.control.threads| == n && x <= n
    && (forall t: nat :: x <= t < n ==> s.control.threads[t].pc.Idle?)
    && (x > 0 ==> s.control.threads[0].pc.Inside? && s.control.threads[0].kind == k)
    && (forall j :: Asked(s, j) == (if j == k then x + 1 else 0) && Done(s, j) == (if j == k then 1 else 0))
    && (forall j :: Count(s, j) <= if j == k then x else 0)
  }

  lemma NobodyOutstanding(s: State)
    requires forall t: nat :: t < |s.control.threads| ==> s.control.threads[t].pc.Idle?
    ensures forall k :: Count(s, k) == 0
  {
    forall k ensures Outstanding(s.control.threads, k) == {} {
    }
  }

  /** With nothing outstanding, a load of `requests` passes the loop test. */
  lemma NothingToWaitFor(s: State, m: Limits, holds: State -> bool)
    requires Closed(holds, m)
    requires Settled(s, m, holds) && forall j :: Asked(s, j) == Done(s, j)
    ensures forall k :: Admits(s.completions, s.requests, k)
  {
    assert Asked(s, Reader) == Done(s, Reader) && Asked(s, Writer) == Done(s, Writer);
  }

  /** Nothing has been asked and nothing is outstanding. */
  ghost predicate Fresh(s: State, m: Limits, holds: State -> bool) {
    && Settled(s, m, holds)
    && (forall t: nat :: t < |s.control.threads| ==> s.control.threads[t].pc.Idle?)
    && (forall j :: Asked(s, j) == 0 && Done(s, j) == 0)
    && forall j :: Count(s, j) == 0
  }

  /** Nobody has called yet. */
  ghost predicate Unused(s: State) {
    && |s.fetched| == |s.control.threads| && s.requests == Pack(0, 0) && s.completions == Pack(0, 0)
    && s.control == Control(Free, s.control.threads, 0, [], 0, 0)
    && forall t: nat :: t < |s.control.threads| ==> s.control.threads[t].pc.Idle?
  }

  lemma UnusedIsReached(s: State, m: Limits)
    requires Unused(s)
    ensures Reached(s, m) && forall j :: Count(s, j) == 0
  {
    NobodyOutstanding(s);
    assert L.Init(s) by {
      assert Pack(0, 0) == 0;
    }
    assert RunWithin([s], m);
  }

  lemma Start(m: Limits, holds: State -> bool, n: nat) returns (s: State)
    requires Closed(holds, m)
    ensures Fresh(s, m, holds) && |s.control.threads| == n
  {
    var idle := seq(n, _ => Thread(Idle, Reader, 0, 0));
    s := State(Pack(0, 0), Pack(0, 0), seq(n, _ => 0), Control(Free, idle, 0, [], 0, 0));
    NobodyOutstanding(s);
  }

  /** With nothing outstanding, a request is admitted at once. */
  lemma Take(s: State, m: Limits, holds: State -> bool, t: nat, k: Kind) returns (s': State)
    requires Closed(holds, m)
    requires Settled(s, m, holds) && t < |s.control.threads| && s.control.threads[t].pc.Idle?
    requires Count(s, k) < m.Of(k) && forall j :: Asked(s, j) == Done(s, j)
    ensures Settled(s', m, holds)
    ensures s'.control.threads == Replaced(s, t, Thread(Inside, k, s.control.readReqs, |s.control.writers|))
    ensures forall j :: Asked(s', j) == Plus(Asked(s, j), j, k) && Done(s', j) == Done(s, j)
    ensures forall j :: Count(s', j) <= Plus(Count(s, j), j, k)
  {
    NothingToWaitFor(s, m, holds);
    var a := Request(s, m, holds, t, k);
    s' := Enter(a, m, holds, t);
  }

  lemma FirstUse(m: Limits, holds: State -> bool, n: nat, k: Kind) returns (s: State)
    requires Closed(holds, m)
    requires n > 0 && m.Of(k) > 0
    ensures Crowded(s, m, holds, n, k, 0)
  {
    var a := Start(m, holds, n);
    var b := Take(a, m, holds, 0, k);
    s := Exit(b, m, holds, 0);
    NobodyOutstanding(s);
  }

  lemma FirstAgain(m: Limits, holds: State -> bool, n: nat, k: Kind) returns (s: State)
    requires Closed(holds, m)
    requires n > 0 && m.Of(k) > 0
    ensures Crowded(s, m, holds, n, k, 1)
  {
    var a := FirstUse(m, holds, n, k);
    s := Take(a, m, holds, 0, k);
  }

  lemma {:induction false} Crowd(m: Limits, holds: State -> bool, n: nat, k: Kind, x: nat) returns (s: State)
    requires Closed(holds, m)
    requires 0 < x <= n && x <= m.Of(k)
    ensures Crowded(s, m, holds, n, k, x)
  {
    if x == 1 {
      s := FirstAgain(m, holds, n, k);
    } else {
      var a := Crowd(m, holds, n, k, x - 1);
      s := Request(a, m, holds, x - 1, k);
    }
  }

  /** With 0x8000 requests of kind k between its own and the completions, the test of one more request is true. */
  lemma WrapsAround(r: nat, w: nat, k: Kind, last: Kind)
    requires if k.Reader? then r == 0x8001 && w == 0 else r == 0 && w == 0x8001
    ensures Admits(if k.Reader? then Pack(1, 0) else Pack(0, 1), Pack(r, w), last)
  {
    if k.Reader? {
      T.WordsWrap(1, 0);
    } else {
      T.WordsWrap(0, 1);
    }
  }

  lemma TwoInside(s: State, u: nat, t: nat)
    requires T.Threads(s, t, u) && T.ThreadOf(s, u).Admitted() && T.ThreadOf(s, t).Admitted()
    requires T.ThreadOf(s, u).kind.Writer? || T.ThreadOf(s, t).kind.Writer?
    ensures !Exclusive(s)
  {
    assert T.Threads(s, u, t);
  }

  /** After the crowd, one more request whose test is true. */
  lemma Newcomer(m: Limits, holds: State -> bool, k: Kind, last: Kind, x: nat) returns (s: State)
    requires Closed(holds, m) && x == 0x8000
    requires if k == last then m.Of(k) > x else m.Of(k) >= x && m.Of(last) >= 1
    ensures holds(s) && |s.control.threads| == x + 1
    ensures s.control.threads[0].pc.Inside? && s.control.threads[0].kind == k
    ensures s.control.threads[x].pc.Inside? && s.control.threads[x].kind == last
  {
    var a := Crowd(m, holds, x + 1, k, x);
    WrapsAround(Asked(a, Reader), Asked(a, Writer), k, last);
    assert Done(a, Reader) == (if k.Reader? then 1 else 0) && Done(a, Writer) == (if k.Writer? then 1 else 0);
    var b := Request(a, m, holds, x, last);
    s := Enter(b, m, holds, x);
  }

  /** Two threads are inside, and one of them is a writer. */
  lemma Intrusion(m: Limits, holds: State -> bool, k: Kind, last: Kind) returns (s: State)
    requires Closed(holds, m) && (k.Writer? || last.Writer?)
    requires if k == last then m.Of(k) >= 0x8001 else m.Of(k) >= 0x8000 && m.Of(last) >= 1
    ensures holds(s) && !Exclusive(s)
  {
    s := Newcomer(m, holds, k, last, 0x8000);
    TwoInside(s, 0, 0x8000);
  }

  lemma ReachedIsClosed(m: Limits)
    ensures Closed((s: State) => Reached(s, m), m)
  {
    forall s: State | Unused(s) ensures Reached(s, m) {
      UnusedIsReached(s, m);
    }
    forall s: State, t: nat, call: Kind | Reached(s, m) && L.Enabled(s, t) && Within(L.Step(s, t, call), m)
      ensures Reached(L.Step(s, t, call), m)
    {
      ReachedStep(s, m, t, call);
    }
  }

  lemma UnsafeLimitsFail(m: Limits) returns (s: State)
    requires !Safe(m.readers, m.writers)
    ensures Reached(s, m) && !Exclusive(s)
  {
    var holds := (s: State) => Reached(s, m);
    ReachedIsClosed(m);
    if m.readers >= 0x8000 {
      s := Intrusion(m, holds, Reader, Writer);
    } else if m.readers >= 1 {
      s := Intrusion(m, holds, Writer, Reader);
    } else {
      s := Intrusion(m, holds, Writer, Writer);
    }
  }

  /** The limits under which the fair lock excludes, exactly. */
  lemma ExclusionLimits(m: Limits)
    ensures (forall s :: Reached(s, m) ==> Exclusive(s)) <==> Safe(m.readers, m.writers)
  {
    if Safe(m.readers, m.writers) {
      forall s | Reached(s, m) ensures Exclusive(s) {
        SafeLimitsExclude(s, m);
      }
    } else {
      var s := UnsafeLimitsFail(m);
    }
  }
}
