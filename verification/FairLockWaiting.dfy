/**
  * Bounded waiting in the fair lock: the work in front of an outstanding request never grows, whoever
  * calls, and while it waits somebody in front of it, or in the critical section, can go on.
  */
module FairLockWaiting {
  import opened PackedCounter
  import opened C = FairLockControl
  import opened L = FairLock
  import T = FairLockTheorems
  import Runs
  import Sums

  /** An outstanding request that did not come after that of tt; it may be its own. */
  predicate InFront(th: Thread, tt: Thread) {
    th.Outstanding() && !Before(tt, th)
  }

  function RemainingInFront(tt: Thread): Thread -> nat {
    (th: Thread) => if InFront(th, tt) then T.Remaining(th) else 0
  }

  /** The statements that the requests in front of tt, and its own, still have to execute. */
  function Ahead(s: State, tt: Thread): nat {
    Sums.Sum(RemainingInFront(tt), s.control.threads)
  }

  /** th has the request of tt outstanding. */
  predicate SameTicket(th: Thread, tt: Thread) {
    th.Outstanding() && th.kind == tt.kind && th.readsBefore == tt.readsBefore && th.writesBefore == tt.writesBefore
  }

  /** tt is the request that thread t has outstanding. */
  predicate Waits(s: State, t: nat, tt: Thread) {
    t < |s.control.threads| && SameTicket(s.control.threads[t], tt)
  }

  /** What the statement of thread u makes of its share: a request in front. */
  lemma ShareShrinks(c: Control, u: nat, call: Kind, admitted: bool, tt: Thread)
    requires C.Enabled(c, u) && InFront(c.threads[u], tt)
    ensures var th, th' := c.threads[u], C.Step(c, u, call, admitted).threads[u];
      RemainingInFront(tt)(th') + (if th.pc.Spin? && !admitted then 0 else 1) <= RemainingInFront(tt)(th)
  {
  }

  /** Any other thread: it has no share, and a new request comes after tt. */
  lemma NoShare(c: Control, u: nat, call: Kind, admitted: bool, t: nat, tt: Thread)
    requires TicketsOk(c) && C.Enabled(c, u) && !InFront(c.threads[u], tt)
    requires t < |c.threads| && SameTicket(c.threads[t], tt)
    ensures RemainingInFront(tt)(C.Step(c, u, call, admitted).threads[u]) == 0
  {
    assert TicketOk(c, t) && TicketOk(c, u);
  }

  lemma OwnThread(c: Control, u: nat, call: Kind, admitted: bool)
    requires C.Enabled(c, u)
    ensures var c' := C.Step(c, u, call, admitted); c'.threads == c.threads[u := c'.threads[u]]
  {
  }

  /** No statement, and no call, adds to the work in front of a request; an advance in front of it takes one away. */
  lemma WaitNeverGrows(s: State, u: nat, call: Kind, t: nat, tt: Thread)
    requires L.Inv(s) && L.Enabled(s, u) && Waits(s, t, tt)
    ensures Ahead(L.Step(s, u, call), tt) +
      (if T.Advances(s, u) && InFront(T.ThreadOf(s, u), tt) then 1 else 0) <= Ahead(s, tt)
  {
    var c := s.control;
    var admitted := Admits(s.completions, s.fetched[u], c.threads[u].kind);
    if InFront(c.threads[u], tt) {
      ShareShrinks(c, u, call, admitted, tt);
    } else {
      NoShare(c, u, call, admitted, t, tt);
    }
    OwnThread(c, u, call, admitted);
    Sums.SumUpdate(RemainingInFront(tt), c.threads, u, L.Step(s, u, call).control.threads[u]);
  }

  lemma NextKeepsAhead(s: State, s': State, t: nat, tt: Thread)
    requires L.Inv(s) && Next(s, s') && Waits(s, t, tt)
    ensures Ahead(s', tt) <= Ahead(s, tt)
  {
    var u: nat, call: Kind :| L.Enabled(s, u) && s' == L.Step(s, u, call);
    WaitNeverGrows(s, u, call, t, tt);
  }

  /** The step from s to s' is an advance of a request in front of tt. */
  ghost predicate AdvanceInFront(s: State, s': State, tt: Thread) {
    exists u: nat, call: Kind ::
      L.Enabled(s, u) && s' == L.Step(s, u, call) && T.Advances(s, u) && InFront(T.ThreadOf(s, u), tt)
  }

  lemma AdvanceInFrontCounts(s: State, s': State, t: nat, tt: Thread)
    requires L.Inv(s) && AdvanceInFront(s, s', tt) && Waits(s, t, tt)
    ensures Ahead(s', tt) + 1 <= Ahead(s, tt)
  {
    var u: nat, call: Kind :|
      L.Enabled(s, u) && s' == L.Step(s, u, call) && T.Advances(s, u) && InFront(T.ThreadOf(s, u), tt);
    WaitNeverGrows(s, u, call, t, tt);
  }

  lemma NextCounts(s: State, s': State, t: nat, tt: Thread)
    requires L.Inv(s) && Next(s, s') && Waits(s, t, tt)
    ensures Runs.One(AdvanceInFront(s, s', tt)) + Ahead(s', tt) <= Ahead(s, tt)
  {
    if AdvanceInFront(s, s', tt) {
      AdvanceInFrontCounts(s, s', t, tt);
    } else {
      NextKeepsAhead(s, s', t, tt);
    }
  }

  lemma StepCounts(run: seq<State>, k: nat, t: nat, tt: Thread)
    requires T.Run(run) && k + 1 < |run| && Waits(run[k], t, tt)
    ensures Runs.One(AdvanceInFront(run[k], run[k + 1], tt)) + Ahead(run[k + 1], tt) <= Ahead(run[k], tt)
  {
    T.InvAlongRun(run, k);
    Runs.StepOf(L.Init, Next, run, k);
    NextCounts(run[k], run[k + 1], t, tt);
  }

  /** How many steps from position i to position j are advances in front of tt. */
  ghost function FrontAdvances(run: seq<State>, i: nat, j: nat, tt: Thread): nat
    requires i <= j < |run|
  {
    Runs.Occurrences(run, (s: State, s': State) => AdvanceInFront(s, s', tt), i, j)
  }

  /**
    * Bounded waiting: over any stretch of a run in which a request is outstanding, with any calls, the
    * advances in front of it and the work in front of it at the end are no more than that work at the start.
    */
  lemma WaitingIsBounded(run: seq<State>, i: nat, j: nat, t: nat, tt: Thread)
    requires T.Run(run) && i <= j < |run|
    requires forall k: nat :: i <= k <= j ==> Waits(run[k], t, tt)
    ensures FrontAdvances(run, i, j, tt) + Ahead(run[j], tt) <= Ahead(run[i], tt)
  {
    var kind := (s: State, s': State) => AdvanceInFront(s, s', tt);
    var measure := (s: State) => Ahead(s, tt);
    forall k: nat | i <= k < j
      ensures Runs.One(kind(run[k], run[k + 1])) + measure(run[k + 1]) <= measure(run[k])
    {
      StepCounts(run, k, t, tt);
    }
    Runs.MeasureBounds(run, kind, measure, i, j);
  }

  /** A ready request that came after a waiting one shows that the waiting one is ready too. */
  lemma ReadyInFront(c: Control, t: nat, r: nat)
    requires C.Inv(c) && t < |c.threads| && r < |c.threads| && c.threads[t].Outstanding() && c.threads[r].Outstanding()
    requires Ready(c, c.threads[r]) && Before(c.threads[t], c.threads[r])
    ensures Ready(c, c.threads[t])
  {
    assert TicketOk(c, t) && TicketOk(c, r);
  }

  /** While a request waits, some thread in front of it, or in the critical section, advances. */
  lemma SomeoneInFrontAdvances(s: State, t: nat) returns (r: nat)
    requires L.Inv(s) && Bounded(s) && t < |s.control.threads| && T.ThreadOf(s, t).Outstanding()
    ensures T.Advances(s, r) && (InFront(T.ThreadOf(s, r), T.ThreadOf(s, t)) || T.ThreadOf(s, r).InSection())
  {
    var c := s.control;
    if c.cs.Held? {
      r := c.cs.owner;
      assert c.threads[r].InSection();
    } else {
      r := ReadyOne(c, t);
      assert !c.threads[r].InSection();
      if c.threads[r].pc.Spin? {
        AdmissionExact(s, r);
      }
    }
  }

  lemma ReadyOne(c: Control, t: nat) returns (r: nat)
    requires C.Inv(c) && t < |c.threads| && c.threads[t].Outstanding()
    ensures r < |c.threads| && Ready(c, c.threads[r]) && InFront(c.threads[r], c.threads[t])
  {
    r := T.SomeRequestIsReady(c, t);
    if Before(c.threads[t], c.threads[r]) {
      ReadyInFront(c, t, r);
      r := t;
    }
  }
}
