/**
  * CReaderWriterLock_NS_FAIR (critsect.h:1082-1207): a first-come-first-served reader-writer lock.
  *
  * Any number of threads run ReadLock/EndRead and WriteLock/EndWrite under sequentially consistent
  * memory. Every load of a volatile word, each of the two writes of InterlockedClearAdd and
  * InterlockedFetchClearAdd, and every entry to or exit from the critical section is one step.
  * The critical section is an abstract mutex.
  *
  * This module is the control part: positions in the code, the mutex, and the history of requests.
  * FairLock adds the two packed words and proves that they steer it correctly.
  */
module FairLockControl {
  import opened PackedCounter

  /** Where a thread stands in the code. */
  datatype Pc =
    | Idle
    | ReqEnter     // ReadLock or WriteLock called; about to cs.Enter
    | ReqFetch     // in the section; about to load retval from requests
    | ReqClear     // about to clear the top bit in requests
    | ReqAdd       // about to add to requests
    | ReqLeave     // about to cs.Leave
    | Spin         // about to load completions and compare
    | Inside       // the lock is held
    | EndEnter     // EndRead or EndWrite called; about to cs.Enter
    | EndClear     // in the section; about to clear the top bit in completions
    | EndAdd       // about to add to completions
    | EndLeave     // about to cs.Leave

  /** A thread's position, and how many requests of each kind came before its own. */
  datatype Thread = Thread(pc: Pc, kind: Kind, readsBefore: nat, writesBefore: nat) {
    predicate InSection() {
      pc.ReqFetch? || pc.ReqClear? || pc.ReqAdd? || pc.ReqLeave? || pc.EndClear? || pc.EndAdd? || pc.EndLeave?
    }

    /** The request is counted in `requests` and not yet in `completions`. */
    predicate Outstanding() {
      pc.ReqLeave? || pc.Spin? || Admitted()
    }

    /** Past the spin loop, completion not yet counted. */
    predicate Admitted() {
      pc.Inside? || pc.EndEnter? || pc.EndClear? || pc.EndAdd?
    }
  }

  datatype Section = Free | Held(owner: nat)

  /** The mutex, the threads, and the history: unbounded counts and the log of writers. */
  datatype Control = Control(
    cs: Section, threads: seq<Thread>, readReqs: nat, writers: seq<nat>, readsDone: nat, writesDone: nat)

  ghost predicate Init(c: Control) {
    && c.cs == Free && c.readReqs == 0 && c.writers == [] && c.readsDone == 0 && c.writesDone == 0
    && forall t :: 0 <= t < |c.threads| ==> c.threads[t].pc.Idle?
  }

  predicate Enabled(c: Control, t: nat) {
    t < |c.threads| && ((c.threads[t].pc.ReqEnter? || c.threads[t].pc.EndEnter?) ==> c.cs == Free)
  }

  /** The next statement of thread t: an idle thread calls an operation, a spinning one leaves if admitted. */
  function Step(c: Control, t: nat, call: Kind, admitted: bool): (c': Control)
    requires Enabled(c, t)
    ensures |c'.threads| == |c.threads|
  {
    var th := c.threads[t];
    match th.pc
    case Idle => Moved(c, t, th.(pc := ReqEnter, kind := call))
    case ReqEnter => Moved(c, t, th.(pc := ReqFetch)).(cs := Held(t))
    case ReqFetch => Moved(c, t, th.(pc := ReqClear))
    case ReqClear => Moved(c, t, th.(pc := ReqAdd))
    case ReqAdd => Requested(c, t)
    case ReqLeave => Moved(c, t, th.(pc := Spin)).(cs := Free)
    case Spin => if admitted then Moved(c, t, th.(pc := Inside)) else c
    case Inside => Moved(c, t, th.(pc := EndEnter))
    case EndEnter => Moved(c, t, th.(pc := EndClear)).(cs := Held(t))
    case EndClear => Moved(c, t, th.(pc := EndAdd))
    case EndAdd => Completed(c, t)
    case EndLeave => Moved(c, t, th.(pc := Idle)).(cs := Free)
  }

  /** The add to `requests` makes the request count. */
  function Requested(c: Control, t: nat): Control
    requires t < |c.threads|
  {
    var th := c.threads[t].(pc := ReqLeave, readsBefore := c.readReqs, writesBefore := |c.writers|);
    if th.kind.Reader? then Moved(c, t, th).(readReqs := c.readReqs + 1)
    else Moved(c, t, th).(writers := c.writers + [t])
  }

  /** The add to `completions` makes the completion count. */
  function Completed(c: Control, t: nat): Control
    requires t < |c.threads|
  {
    var th := c.threads[t].(pc := EndLeave);
    if th.kind.Reader? then Moved(c, t, th).(readsDone := c.readsDone + 1)
    else Moved(c, t, th).(writesDone := c.writesDone + 1)
  }

  function Moved(c: Control, t: nat, th: Thread): Control
    requires t < |c.threads|
  {
    c.(threads := c.threads[t := th])
  }

  ghost function Outstanding(threads: seq<Thread>, k: Kind): set<nat> {
    set t | 0 <= t < |threads| && threads[t].Outstanding() && threads[t].kind == k
  }

  /** The outstanding readers that asked after at most w writers. */
  ghost function ReadersUpTo(threads: seq<Thread>, w: nat): set<nat> {
    set t | 0 <= t < |threads| && threads[t].Outstanding() && threads[t].kind.Reader? && threads[t].writesBefore <= w
  }

  /** All that asked before and must finish first has finished. */
  predicate Ready(c: Control, th: Thread) {
    th.writesBefore == c.writesDone && (th.kind.Writer? ==> th.readsBefore == c.readsDone)
  }

  /** a asked before b. */
  predicate Before(a: Thread, b: Thread) {
    && a.readsBefore <= b.readsBefore && a.writesBefore <= b.writesBefore
    && (a.kind.Reader? ==> a.readsBefore < b.readsBefore)
    && (a.kind.Writer? ==> a.writesBefore < b.writesBefore)
  }

  // ------ the invariant -----------------------------------------------------------------------

  /** The section is held by exactly the thread whose code is in it. */
  ghost predicate SectionOk(c: Control) {
    && (c.cs.Held? ==> c.cs.owner < |c.threads|)
    && forall t :: 0 <= t < |c.threads| ==> (c.threads[t].InSection() <==> c.cs == Held(t))
  }

  ghost predicate TicketOk(c: Control, t: nat)
    requires t < |c.threads|
  {
    var th := c.threads[t];
    th.Outstanding() ==>
      && c.writesDone <= th.writesBefore <= |c.writers|
      && th.readsBefore <= c.readReqs
      && (th.kind.Reader? ==> th.readsBefore < c.readReqs)
      && (th.kind.Writer? ==>
        && th.writesBefore < |c.writers|
        && c.writers[th.writesBefore] == t
        && |ReadersUpTo(c.threads, th.writesBefore)| == th.readsBefore - c.readsDone)
      && (th.Admitted() ==> Ready(c, th))
  }

  /** The writers not yet done are the rest of the log, in order. */
  ghost predicate QueueOk(c: Control) {
    && c.writesDone <= |c.writers|
    && forall i :: c.writesDone <= i < |c.writers| ==> QueuedAt(c, c.writers[i], i)
  }

  predicate QueuedAt(c: Control, t: nat, i: nat) {
    && t < |c.threads|
    && c.threads[t].Outstanding()
    && c.threads[t].kind.Writer?
    && c.threads[t].writesBefore == i
  }

  ghost predicate CountsOk(c: Control) {
    && |ReadersUpTo(c.threads, |c.writers|)| == c.readReqs - c.readsDone
    && |Outstanding(c.threads, Writer)| == |c.writers| - c.writesDone
  }

  ghost predicate OrderOk(c: Control) {
    forall t, u ::
      (0 <= t < |c.threads| && 0 <= u < |c.threads| && t != u
       && c.threads[t].Outstanding() && c.threads[u].Outstanding()) ==>
        Before(c.threads[t], c.threads[u]) || Before(c.threads[u], c.threads[t])
  }

  ghost predicate TicketsOk(c: Control) {
    forall t :: 0 <= t < |c.threads| ==> TicketOk(c, t)
  }

  ghost predicate Inv(c: Control) {
    SectionOk(c) && TicketsOk(c) && QueueOk(c) && CountsOk(c) && OrderOk(c)
  }

  lemma InitInv(c: Control)
    requires Init(c)
    ensures Inv(c)
  {
    assert ReadersUpTo(c.threads, 0) == {};
    assert Outstanding(c.threads, Writer) == {};
  }

  lemma StepKeepsSection(c: Control, t: nat, call: Kind, admitted: bool)
    requires SectionOk(c) && Enabled(c, t)
    ensures SectionOk(Step(c, t, call, admitted))
  {
  }

  /** b stands for the same request as a, or neither is a request; b is past the loop only if it was, or may be. */
  predicate SameRequest(c: Control, a: Thread, b: Thread) {
    && a.Outstanding() == b.Outstanding()
    && (a.Outstanding() ==>
      && a.kind == b.kind && a.readsBefore == b.readsBefore && a.writesBefore == b.writesBefore
      && (b.Admitted() ==> a.Admitted() || Ready(c, a)))
  }

  /** Moves that leave the requests and the counts alone. */
  lemma SameRequestsKeepInv(c: Control, c': Control)
    requires Inv(c) && SectionOk(c') && |c'.threads| == |c.threads|
    requires c' == c.(cs := c'.cs, threads := c'.threads)
    requires forall u :: 0 <= u < |c.threads| ==> SameRequest(c, c.threads[u], c'.threads[u])
    ensures Inv(c')
  {
    forall w: nat ensures ReadersUpTo(c'.threads, w) == ReadersUpTo(c.threads, w) {
    }
    assert Outstanding(c'.threads, Writer) == Outstanding(c.threads, Writer);
    forall u | 0 <= u < |c'.threads| ensures TicketOk(c', u) {
      assert TicketOk(c, u) && SameRequest(c, c.threads[u], c'.threads[u]);
    }
    forall i | c.writesDone <= i < |c.writers| ensures QueuedAt(c', c.writers[i], i) {
      assert QueuedAt(c, c.writers[i], i);
    }
  }

  /** A statement that counts nothing keeps every request as it is. */
  lemma QuietStepKeepsRequests(c: Control, t: nat, call: Kind, admitted: bool)
    requires Enabled(c, t) && !c.threads[t].pc.ReqAdd? && !c.threads[t].pc.EndAdd?
    requires c.threads[t].pc.Spin? && admitted ==> Ready(c, c.threads[t])
    ensures var c' := Step(c, t, call, admitted);
      && c' == c.(cs := c'.cs, threads := c'.threads)
      && forall u :: 0 <= u < |c.threads| ==> SameRequest(c, c.threads[u], c'.threads[u])
  {
  }

  lemma QuietStepKeepsInv(c: Control, t: nat, call: Kind, admitted: bool)
    requires Inv(c) && Enabled(c, t)
    requires !c.threads[t].pc.ReqAdd? && !c.threads[t].pc.EndAdd?
    requires c.threads[t].pc.Spin? && admitted ==> Ready(c, c.threads[t])
    ensures Inv(Step(c, t, call, admitted))
  {
    StepKeepsSection(c, t, call, admitted);
    QuietStepKeepsRequests(c, t, call, admitted);
    SameRequestsKeepInv(c, Step(c, t, call, admitted));
  }

  predicate Requesting(c: Control, t: nat) {
    t < |c.threads| && c.threads[t].pc.ReqAdd?
  }

  lemma RequestKeepsOrder(c: Control, t: nat)
    requires TicketsOk(c) && OrderOk(c) && Requesting(c, t)
    ensures OrderOk(Requested(c, t))
  {
    var c' := Requested(c, t);
    forall u | 0 <= u < |c'.threads| && u != t && c'.threads[u].Outstanding()
      ensures Before(c'.threads[u], c'.threads[t])
    {
      assert TicketOk(c, u);
    }
  }

  lemma RequestKeepsQueue(c: Control, t: nat)
    requires QueueOk(c) && Requesting(c, t)
    ensures QueueOk(Requested(c, t))
  {
    var c' := Requested(c, t);
    forall i | c'.writesDone <= i < |c'.writers| ensures QueuedAt(c', c'.writers[i], i) {
      if i < |c.writers| {
        assert QueuedAt(c, c.writers[i], i);
      }
    }
  }

  /** A request joins its own kind and no writer waits for it. */
  lemma RequestCounted(c: Control, t: nat)
    requires TicketsOk(c) && Requesting(c, t)
    ensures var threads' := Requested(c, t).threads; var n := |c.writers|;
      if c.threads[t].kind.Reader? then
        && Outstanding(threads', Writer) == Outstanding(c.threads, Writer)
        && ReadersUpTo(threads', n) == ReadersUpTo(c.threads, n) + {t}
        && forall w: nat :: w < n ==> ReadersUpTo(threads', w) == ReadersUpTo(c.threads, w)
      else
        && Outstanding(threads', Writer) == Outstanding(c.threads, Writer) + {t}
        && ReadersUpTo(threads', n + 1) == ReadersUpTo(c.threads, n)
        && forall w: nat :: ReadersUpTo(threads', w) == ReadersUpTo(c.threads, w)
  {
    var threads' := Requested(c, t).threads;
    var n := |c.writers|;
    forall u | 0 <= u < |c.threads| && c.threads[u].Outstanding() ensures c.threads[u].writesBefore <= n {
      assert TicketOk(c, u);
    }
    if c.threads[t].kind.Writer? {
      forall w: nat ensures ReadersUpTo(threads', w) == ReadersUpTo(c.threads, w) {
      }
      assert ReadersUpTo(threads', n + 1) == ReadersUpTo(c.threads, n);
    } else {
      forall w: nat | w < n ensures ReadersUpTo(threads', w) == ReadersUpTo(c.threads, w) {
      }
    }
  }

  lemma RequestKeepsTickets(c: Control, t: nat)
    requires TicketsOk(c) && CountsOk(c) && QueueOk(c) && Requesting(c, t)
    ensures TicketsOk(Requested(c, t)) && CountsOk(Requested(c, t))
  {
    var c' := Requested(c, t);
    RequestCounted(c, t);
    forall u | 0 <= u < |c'.threads| ensures TicketOk(c', u) {
      assert TicketOk(c, u);
    }
  }

  /** While a reader that is not behind writer u is outstanding, u cannot have been admitted. */
  lemma ReaderHoldsWritersBack(c: Control, t: nat, u: nat)
    requires Inv(c) && t < |c.threads| && u < |c.threads|
    requires c.threads[t].Outstanding() && c.threads[t].kind.Reader?
    requires c.threads[u].Outstanding() && c.threads[u].kind.Writer?
    requires c.threads[t].writesBefore <= c.threads[u].writesBefore
    ensures c.threads[u].readsBefore > c.readsDone
    ensures !c.threads[u].Admitted()
  {
    assert TicketOk(c, u);
    assert t in ReadersUpTo(c.threads, c.threads[u].writesBefore);
  }

  predicate Completing(c: Control, t: nat) {
    t < |c.threads| && c.threads[t].pc.EndAdd?
  }

  lemma ReadDoneKeepsInv(c: Control, t: nat)
    requires Inv(c) && Completing(c, t) && c.threads[t].kind.Reader?
    requires SectionOk(Completed(c, t))
    ensures Inv(Completed(c, t))
  {
    var c' := Completed(c, t);
    assert TicketOk(c, t);
    forall w: nat | w >= c.writesDone ensures ReadersUpTo(c'.threads, w) == ReadersUpTo(c.threads, w) - {t} {
    }
    assert t in ReadersUpTo(c.threads, |c.writers|);
    assert Outstanding(c'.threads, Writer) == Outstanding(c.threads, Writer);
    forall u | 0 <= u < |c'.threads| ensures TicketOk(c', u) {
      assert TicketOk(c, u);
      if c'.threads[u].Outstanding() && c'.threads[u].kind.Writer? {
        assert t in ReadersUpTo(c.threads, c.threads[u].writesBefore);
        ReaderHoldsWritersBack(c, t, u);
      }
    }
    forall i | c'.writesDone <= i < |c'.writers| ensures QueuedAt(c', c'.writers[i], i) {
      assert QueuedAt(c, c.writers[i], i);
    }
  }

  lemma WriteDoneKeepsInv(c: Control, t: nat)
    requires Inv(c) && Completing(c, t) && c.threads[t].kind.Writer?
    requires SectionOk(Completed(c, t))
    ensures Inv(Completed(c, t))
  {
    var c' := Completed(c, t);
    assert TicketOk(c, t);
    forall w: nat ensures ReadersUpTo(c'.threads, w) == ReadersUpTo(c.threads, w) {
    }
    assert Outstanding(c'.threads, Writer) == Outstanding(c.threads, Writer) - {t};
    assert t in Outstanding(c.threads, Writer);
    forall u | 0 <= u < |c'.threads| ensures TicketOk(c', u) {
      assert TicketOk(c, u);
      if c'.threads[u].Outstanding() && c.threads[u].kind.Reader? && c.threads[u].writesBefore == c.writesDone {
        ReaderHoldsWritersBack(c, u, t);
        assert false;
      }
    }
    forall i | c'.writesDone <= i < |c'.writers| ensures QueuedAt(c', c'.writers[i], i) {
      assert QueuedAt(c, c.writers[i], i);
    }
  }

  lemma StepKeepsInv(c: Control, t: nat, call: Kind, admitted: bool)
    requires Inv(c) && Enabled(c, t)
    requires c.threads[t].pc.Spin? && admitted ==> Ready(c, c.threads[t])
    ensures Inv(Step(c, t, call, admitted))
  {
    if c.threads[t].pc.ReqAdd? {
      StepKeepsSection(c, t, call, admitted);
      RequestKeepsOrder(c, t);
      RequestKeepsQueue(c, t);
      RequestKeepsTickets(c, t);
    } else if c.threads[t].pc.EndAdd? {
      StepKeepsSection(c, t, call, admitted);
      if c.threads[t].kind.Reader? {
        ReadDoneKeepsInv(c, t);
      } else {
        WriteDoneKeepsInv(c, t);
      }
    } else {
      QuietStepKeepsInv(c, t, call, admitted);
    }
  }
}
