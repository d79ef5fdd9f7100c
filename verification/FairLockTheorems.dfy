/** What the fair reader-writer lock promises (critsect.h:1082-1086), over every run of any number of threads. */
module FairLockTheorems {
  import opened PackedCounter
  import opened C = FairLockControl
  import opened L = FairLock
  import Runs
  import Sums
  import Sets

  ghost predicate Run(run: seq<State>) {
    Runs.IsRun(L.Init, Next, run)
  }

  lemma NextKeepsInv(s: State, s': State)
    requires L.Inv(s) && Next(s, s')
    ensures L.Inv(s')
  {
    var t: nat, call: Kind :| L.Enabled(s, t) && s' == L.Step(s, t, call);
    L.StepKeepsInv(s, t, call);
  }

  lemma InvAlongRun(run: seq<State>, i: nat)
    requires Run(run) && i < |run|
    ensures L.Inv(run[i])
  {
    forall s | L.Init(s) ensures L.Inv(s) {
      L.InitInv(s);
    }
    forall s, s' | L.Inv(s) && Next(s, s') ensures L.Inv(s') {
      NextKeepsInv(s, s');
    }
    Runs.Invariance(L.Init, Next, L.Inv, run, i);
  }

  function ThreadOf(s: State, t: nat): Thread
    requires t < |s.control.threads|
  {
    s.control.threads[t]
  }

  predicate Threads(s: State, t: nat, u: nat) {
    t != u && t < |s.control.threads| && u < |s.control.threads|
  }

  /** An admitted writer excludes every other admitted thread, although both counters wrap. */
  lemma MutualExclusion(run: seq<State>, i: nat, u: nat, t: nat)
    requires Run(run) && i < |run| && Threads(run[i], t, u)
    requires ThreadOf(run[i], u).Admitted() && ThreadOf(run[i], u).kind.Writer?
    ensures !ThreadOf(run[i], t).Admitted()
  {
    InvAlongRun(run, i);
    NothingPassesAWriter(run[i], u, t);
  }

  lemma NothingPassesAWriter(s: State, u: nat, t: nat)
    requires L.Inv(s) && Threads(s, t, u)
    requires ThreadOf(s, u).Admitted() && ThreadOf(s, u).kind.Writer?
    ensures !ThreadOf(s, t).Admitted()
  {
    assert TicketOk(s.control, u) && TicketOk(s.control, t);
    if ThreadOf(s, t).Admitted() && ThreadOf(s, t).kind.Reader? {
      ReaderHoldsWritersBack(s.control, t, u);
    }
  }

  /** Torn updates are harmless: every load, between any two writes, admits exactly when the history says so. */
  lemma TornUpdatesInvisible(run: seq<State>, i: nat, t: nat)
    requires Run(run) && i < |run| && t < |run[i].fetched| && Bounded(run[i])
    requires t < |run[i].control.threads| && ThreadOf(run[i], t).pc.Spin?
    ensures Admits(run[i].completions, run[i].fetched[t], ThreadOf(run[i], t).kind)
       <==> Ready(run[i].control, ThreadOf(run[i], t))
  {
    InvAlongRun(run, i);
    AdmissionExact(run[i], t);
  }

  /** After 0x8000 further requests of a kind the words are the same again, once that half has left 0. */
  lemma WordsWrap(r: nat, w: nat)
    ensures Admits(Pack(r, w), Pack(r, w + 0x8000), Reader) <==> w > 0
    ensures Admits(Pack(r, w), Pack(r, w + 0x8000), Writer) <==> w > 0
    ensures Admits(Pack(r, w), Pack(r + 0x8000, w), Writer) <==> r > 0
  {
    WriterPartIsLowHalf(Pack(r, w), Half(r), Half(w));
    WriterPartIsLowHalf(Pack(r, w + 0x8000), Half(r), Half(w + 0x8000));
    HalfAliases(w + 0x8000, w);
    HalfAliases(r + 0x8000, r);
  }

  // ------ order -------------------------------------------------------------------------------

  /** A request comes after every outstanding one. */
  lemma RequestComesAfterOutstanding(run: seq<State>, i: nat, t: nat, u: nat, call: Kind)
    requires Run(run) && i < |run| && Threads(run[i], t, u)
    requires ThreadOf(run[i], t).pc.ReqAdd? && L.Enabled(run[i], t) && ThreadOf(run[i], u).Outstanding()
    ensures var s' := L.Step(run[i], t, call); Before(ThreadOf(s', u), ThreadOf(s', t))
  {
    InvAlongRun(run, i);
    assert TicketOk(run[i].control, u);
  }

  ghost predicate PairOutstanding(s: State, u: nat, t: nat) {
    Threads(s, t, u) && ThreadOf(s, u).Outstanding() && ThreadOf(s, t).Outstanding()
  }

  /** Both threads keep their requests outstanding from position i to position j. */
  ghost predicate BothOutstanding(run: seq<State>, i: nat, j: nat, u: nat, t: nat) {
    && i <= j < |run|
    && forall k :: i <= k <= j ==> PairOutstanding(run[k], u, t)
  }

  lemma TicketIsStable(s: State, s': State, u: nat)
    requires Next(s, s')
    requires u < |s.control.threads| && ThreadOf(s, u).Outstanding()
    requires u < |s'.control.threads| && ThreadOf(s', u).Outstanding()
    ensures ThreadOf(s', u).kind == ThreadOf(s, u).kind
    ensures ThreadOf(s', u).readsBefore == ThreadOf(s, u).readsBefore
    ensures ThreadOf(s', u).writesBefore == ThreadOf(s, u).writesBefore
  {
    var t: nat, call: Kind :| L.Enabled(s, t) && s' == L.Step(s, t, call);
    TicketKept(s.control, t, call, Admits(s.completions, s.fetched[t], ThreadOf(s, t).kind), u);
  }

  lemma TicketKept(c: Control, t: nat, call: Kind, admitted: bool, u: nat)
    requires C.Enabled(c, t) && u < |c.threads| && c.threads[u].Outstanding()
    ensures var th' := C.Step(c, t, call, admitted).threads[u];
      th'.Outstanding() ==> (th'.kind == c.threads[u].kind
        && th'.readsBefore == c.threads[u].readsBefore && th'.writesBefore == c.threads[u].writesBefore)
  {
  }

  /** t asked after u, and one of the two is a writer. */
  predicate MustWait(s: State, u: nat, t: nat) {
    && Threads(s, t, u) && Before(ThreadOf(s, u), ThreadOf(s, t))
    && (ThreadOf(s, u).kind.Writer? || ThreadOf(s, t).kind.Writer?)
  }

  lemma OrderIsStableOnce(s: State, s': State, u: nat, t: nat)
    requires Next(s, s') && PairOutstanding(s, u, t) && PairOutstanding(s', u, t) && MustWait(s, u, t)
    ensures MustWait(s', u, t)
  {
    TicketIsStable(s, s', u);
    TicketIsStable(s, s', t);
  }

  /** Only a reader overtakes, and only another reader; so writers are served in request order. */
  lemma OnlyReadersOvertakeReaders(run: seq<State>, i: nat, j: nat, u: nat, t: nat)
    requires Run(run) && BothOutstanding(run, i, j, u, t) && MustWait(run[i], u, t)
    ensures !ThreadOf(run[j], t).Admitted()
  {
    forall k | i <= k < j && MustWait(run[k], u, t) ensures MustWait(run[k + 1], u, t) {
      Runs.StepOf(L.Init, Next, run, k);
      OrderIsStableOnce(run[k], run[k + 1], u, t);
    }
    Runs.Persistence(run, s => MustWait(s, u, t), i, j);
    InvAlongRun(run, j);
    var c := run[j].control;
    assert TicketOk(c, u) && TicketOk(c, t);
    if c.threads[u].kind.Reader? {
      ReaderHoldsWritersBack(c, u, t);
    }
  }

  // ------ progress ----------------------------------------------------------------------------

  ghost predicate Oldest(c: Control, t: nat) {
    && t < |c.threads| && c.threads[t].Outstanding()
    && forall u :: 0 <= u < |c.threads| && u != t && c.threads[u].Outstanding() ==> Before(c.threads[t], c.threads[u])
  }

  /** The oldest unfinished request has a true admission test. */
  lemma OldestIsAdmitted(run: seq<State>, i: nat, t: nat)
    requires Run(run) && i < |run| && t < |run[i].fetched| && Bounded(run[i])
    requires Oldest(run[i].control, t) && ThreadOf(run[i], t).pc.Spin?
    ensures Admits(run[i].completions, run[i].fetched[t], ThreadOf(run[i], t).kind)
  {
    InvAlongRun(run, i);
    AdmissionExact(run[i], t);
    OldestIsReady(run[i].control, t);
  }

  lemma OldestIsReady(c: Control, t: nat)
    requires C.Inv(c) && Oldest(c, t)
    ensures Ready(c, c.threads[t])
  {
    assert TicketOk(c, t);
    if c.writesDone < c.threads[t].writesBefore {
      HeadOfQueue(c);
    }
    if c.threads[t].kind.Writer? {
      assert ReadersUpTo(c.threads, c.threads[t].writesBefore) == {};
    }
  }

  predicate ReadyReader(c: Control, th: Thread) {
    th.Outstanding() && th.kind.Reader? && th.writesBefore == c.writesDone
  }

  lemma HeadOfQueue(c: Control)
    requires QueueOk(c) && c.writesDone < |c.writers|
    ensures QueuedAt(c, c.writers[c.writesDone], c.writesDone)
  {
  }

  /** An outstanding request that nothing holds back. */
  lemma SomeRequestIsReady(c: Control, t: nat) returns (r: nat)
    requires C.Inv(c) && t < |c.threads| && c.threads[t].Outstanding()
    ensures r < |c.threads| && c.threads[r].Outstanding() && Ready(c, c.threads[r])
  {
    if u: nat :| u < |c.threads| && ReadyReader(c, c.threads[u]) {
      r := u;
    } else {
      assert TicketOk(c, t);
      if c.writesDone < |c.writers| {
        r := c.writers[c.writesDone];
        HeadOfQueue(c);
        assert TicketOk(c, r);
        forall v: nat | v < |c.threads| && c.threads[v].Outstanding()
          ensures v !in ReadersUpTo(c.threads, c.writesDone)
        {
          assert TicketOk(c, v);
          assert !ReadyReader(c, c.threads[v]);
        }
        assert ReadersUpTo(c.threads, c.writesDone) == {};
      } else {
        r := t;
      }
    }
  }

  /** Thread t can run, and running it is more than a failed test of the spin loop. */
  predicate Advances(s: State, t: nat) {
    && L.Enabled(s, t)
    && !ThreadOf(s, t).pc.Idle?
    && (ThreadOf(s, t).pc.Spin? ==> Admits(s.completions, s.fetched[t], ThreadOf(s, t).kind))
  }

  /** No deadlock: while any thread is inside an operation or the lock, some thread advances. */
  lemma NoDeadlock(s: State, t: nat) returns (r: nat)
    requires L.Inv(s) && Bounded(s)
    requires t < |s.control.threads| && !ThreadOf(s, t).pc.Idle?
    ensures Advances(s, r)
    ensures ThreadOf(s, t).Outstanding() ==> !ThreadOf(s, r).pc.ReqEnter?
  {
    var c := s.control;
    if c.cs.Held? {
      r := c.cs.owner;
      assert c.threads[r].InSection();
    } else {
      assert !c.threads[t].InSection();
      if c.threads[t].Outstanding() {
        r := SomeRequestIsReady(c, t);
        assert !c.threads[r].InSection();
        if c.threads[r].pc.Spin? {
          AdmissionExact(s, r);
        }
      } else {
        r := t;
      }
    }
  }

  /** Statements a thread still has to execute before it is idle again. */
  function Remaining(th: Thread): nat {
    match th.pc
    case Idle => 0
    case ReqEnter => 11
    case ReqFetch => 10
    case ReqClear => 9
    case ReqAdd => 8
    case ReqLeave => 7
    case Spin => 6
    case Inside => 5
    case EndEnter => 4
    case EndClear => 3
    case EndAdd => 2
    case EndLeave => 1
  }

  function Work(s: State): nat {
    Sums.Sum(Remaining, s.control.threads)
  }

  /** Every advance uses up exactly one unit of work, and a failed test changes nothing at all. */
  lemma AdvanceUsesWork(s: State, t: nat, call: Kind)
    requires L.Enabled(s, t) && !ThreadOf(s, t).pc.Idle?
    ensures Advances(s, t) ==> Work(L.Step(s, t, call)) == Work(s) - 1
    ensures !Advances(s, t) ==> L.Step(s, t, call) == s
  {
    if Advances(s, t) {
      var c' := L.Step(s, t, call).control;
      assert c'.threads == s.control.threads[t := c'.threads[t]];
      Sums.SumUpdate(Remaining, s.control.threads, t, c'.threads[t]);
    }
  }

  /** The threads of a kind whose request is outstanding, or about to be: they are in the section of their request. */
  ghost function Requesters(s: State, k: Kind): set<nat> {
    set t | 0 <= t < |s.control.threads| && Requests(s.control.threads[t]) && s.control.threads[t].kind == k
  }

  predicate Requests(th: Thread) {
    th.Outstanding() || th.pc.ReqFetch? || th.pc.ReqClear? || th.pc.ReqAdd?
  }

  /** Safe numbers of requests, with the one being made counted. How many threads wait to make one does not matter. */
  ghost predicate Room(s: State) {
    Safe(|Requesters(s, Reader)|, |Requesters(s, Writer)|)
  }

  lemma RoomMeansBounded(s: State)
    requires Room(s)
    ensures Bounded(s)
  {
    Sets.SubsetIsSmaller(Outstanding(s.control.threads, Reader), Requesters(s, Reader));
    Sets.SubsetIsSmaller(Outstanding(s.control.threads, Writer), Requesters(s, Writer));
  }

  lemma AdvanceKeepsRequesters(s: State, t: nat, call: Kind, k: Kind)
    requires L.Enabled(s, t) && !ThreadOf(s, t).pc.Idle? && !ThreadOf(s, t).pc.ReqEnter?
    ensures |Requesters(L.Step(s, t, call), k)| <= |Requesters(s, k)|
  {
    OwnStep(s.control, t, call, Admits(s.completions, s.fetched[t], ThreadOf(s, t).kind));
    Sets.SubsetIsSmaller(Requesters(L.Step(s, t, call), k), Requesters(s, k));
  }

  /** Past the call and the entry to the section, a thread makes no new request. */
  lemma OwnStep(c: Control, t: nat, call: Kind, admitted: bool)
    requires C.Enabled(c, t) && !c.threads[t].pc.Idle? && !c.threads[t].pc.ReqEnter?
    ensures var c' := C.Step(c, t, call, admitted);
      && c'.threads == c.threads[t := c'.threads[t]]
      && (Requests(c'.threads[t]) ==> Requests(c.threads[t]) && c'.threads[t].kind == c.threads[t].kind)
  {
  }

  /** Where nothing is outstanding and the section is free, one request more is safe. */
  lemma FirstRequester(s: State, t: nat, call: Kind)
    requires L.Enabled(s, t) && ThreadOf(s, t).pc.ReqEnter?
    requires Requesters(s, Reader) == {} && Requesters(s, Writer) == {}
    ensures Room(L.Step(s, t, call))
  {
    var s' := L.Step(s, t, call);
    assert s'.control.threads == s.control.threads[t := s'.control.threads[t]];
    var k := ThreadOf(s, t).kind;
    assert Requesters(s', k) <= {t} by {
      assert Requesters(s, k) == {};
    }
    Sets.SubsetIsSmaller(Requesters(s', k), {t});
    var other := if k.Reader? then Writer else Reader;
    assert Requesters(s', other) == {} by {
      assert Requesters(s, other) == {};
    }
  }

  ghost predicate AllIdle(s: State) {
    forall t: nat :: t < |s.control.threads| ==> ThreadOf(s, t).pc.Idle?
  }

  /** The state after the threads of a schedule have each executed one statement, none of them calling anew. */
  ghost predicate Leads(s: State, schedule: seq<nat>, s': State)
    decreases |schedule|
  {
    if schedule == [] then s == s'
    else Advances(s, schedule[0]) && Leads(L.Step(s, schedule[0], Reader), schedule[1..], s')
  }

  lemma LeadsFirst(s: State, r: nat, next: State, rest: seq<nat>, s': State)
    requires Advances(s, r) && next == L.Step(s, r, Reader) && Leads(next, rest, s')
    ensures Leads(s, [r] + rest, s')
  {
    assert ([r] + rest)[1..] == rest;
  }

  /** The thread that goes next: while a request is outstanding no new one is made. */
  lemma NextToGo(s: State, t: nat) returns (r: nat)
    requires L.Inv(s) && Bounded(s) && t < |s.control.threads| && !ThreadOf(s, t).pc.Idle?
    ensures Advances(s, r)
    ensures ThreadOf(s, r).pc.ReqEnter? ==> Requesters(s, Reader) == {} && Requesters(s, Writer) == {}
  {
    if u: nat :| u < |s.control.threads| && ThreadOf(s, u).Outstanding() {
      r := NoDeadlock(s, u);
    } else {
      r := NoDeadlock(s, t);
      if ThreadOf(s, r).pc.ReqEnter? {
        NobodyRequests(s);
      }
    }
  }

  lemma NobodyRequests(s: State)
    requires SectionOk(s.control) && s.control.cs.Free?
    requires forall u: nat :: u < |s.control.threads| ==> !ThreadOf(s, u).Outstanding()
    ensures Requesters(s, Reader) == {} && Requesters(s, Writer) == {}
  {
    forall u: nat | u < |s.control.threads| ensures !Requests(s.control.threads[u]) {
      assert !s.control.threads[u].InSection() && !ThreadOf(s, u).Outstanding();
    }
    forall k ensures Requesters(s, k) == {} {
    }
  }

  lemma SomeAdvance(s: State, t: nat) returns (r: nat, s': State)
    requires L.Inv(s) && Room(s)
    requires t < |s.control.threads| && !ThreadOf(s, t).pc.Idle?
    ensures Advances(s, r) && s' == L.Step(s, r, Reader)
    ensures L.Inv(s') && Room(s') && Work(s') == Work(s) - 1
  {
    RoomMeansBounded(s);
    r := NextToGo(s, t);
    s' := L.Step(s, r, Reader);
    AdvanceUsesWork(s, r, Reader);
    L.StepKeepsInv(s, r, Reader);
    if ThreadOf(s, r).pc.ReqEnter? {
      FirstRequester(s, r, Reader);
    } else {
      AdvanceKeepsRequesters(s, r, Reader, Reader);
      AdvanceKeepsRequesters(s, r, Reader, Writer);
    }
  }

  lemma NoWorkMeansIdle(s: State)
    ensures Work(s) == 0 <==> AllIdle(s)
  {
    Sums.SumZero(Remaining, s.control.threads);
    forall t: nat | t < |s.control.threads|
      ensures Remaining(s.control.threads[t]) == 0 <==> ThreadOf(s, t).pc.Idle?
    {
    }
  }

  /** With no new calls, Work(s) advances serve everyone, and they always exist. */
  lemma {:induction false} EveryoneIsServed(s: State) returns (schedule: seq<nat>, s': State)
    requires L.Inv(s) && Room(s)
    ensures Leads(s, schedule, s') && |schedule| == Work(s) && AllIdle(s')
    decreases Work(s)
  {
    if t: nat :| t < |s.control.threads| && !ThreadOf(s, t).pc.Idle? {
      var r, next := SomeAdvance(s, t);
      var rest: seq<nat>;
      rest, s' := EveryoneIsServed(next);
      schedule := [r] + rest;
      LeadsFirst(s, r, next, rest, s');
    } else {
      schedule, s' := [], s;
      NoWorkMeansIdle(s);
    }
  }

  /** With no new calls, no schedule whatever has more than Work(s) advances. */
  lemma {:induction false} AdmissionsAreBounded(s: State, schedule: seq<nat>, s': State)
    requires Leads(s, schedule, s')
    ensures |schedule| + Work(s') == Work(s)
    decreases |schedule|
  {
    if schedule != [] {
      AdvanceUsesWork(s, schedule[0], Reader);
      AdmissionsAreBounded(L.Step(s, schedule[0], Reader), schedule[1..], s');
    }
  }
}
