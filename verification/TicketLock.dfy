/**
  * CCritSectLiteFair (critsect.h:388-456): a spin lock that hands out tickets.
  * The increment of `ticket`, each load of `lock` and the increment of `lock` are one step each;
  * both counters wrap modulo 2^32.
  */
module TicketLock {
  import opened Words
  import Runs

  datatype Pc =
    | Idle
    | Take     // Enter called; about to InterlockedIncrement(&ticket)
    | Spin     // about to load lock and compare it with me
    | Inside   // about to return to the caller, then InterlockedIncrement(&lock) in Leave

  /** A thread: its position, its ticket word, and the place of that ticket in the log of all tickets. */
  datatype Thread = Thread(pc: Pc, me: Word, turn: nat) {
    predicate Holds() {
      pc.Spin? || pc.Inside?
    }
  }

  /** The two words, the threads, and the history: who took each ticket and how many were served. */
  datatype State = State(ticket: Word, lock: Word, threads: seq<Thread>, log: seq<nat>, served: nat)

  ghost predicate Init(s: State) {
    s.ticket == 0 && s.lock == 0 && s.log == [] && s.served == 0
    && forall t :: 0 <= t < |s.threads| ==> s.threads[t].pc.Idle?
  }

  function Moved(s: State, t: nat, th: Thread): State
    requires t < |s.threads|
  {
    s.(threads := s.threads[t := th])
  }

  function Step(s: State, t: nat): State
    requires t < |s.threads|
  {
    var th := s.threads[t];
    match th.pc
    case Idle => Moved(s, t, th.(pc := Take))
    case Take =>
      Moved(s, t, Thread(Spin, Add(Add(s.ticket, 1), WORD_SPAN - 1), |s.log|)).(
        ticket := Add(s.ticket, 1), log := s.log + [t])
    case Spin => if s.lock == th.me then Moved(s, t, th.(pc := Inside)) else s
    case Inside => Moved(s, t, th.(pc := Idle)).(lock := Add(s.lock, 1), served := s.served + 1)
  }

  ghost function Holders(s: State): set<nat> {
    set t | 0 <= t < |s.threads| && s.threads[t].Holds()
  }

  /** At most 2^32 tickets are out at once. */
  ghost predicate Bounded(s: State) {
    |Holders(s)| <= WORD_SPAN
  }

  ghost predicate Next(s: State, s': State) {
    Bounded(s) && exists t: nat :: t < |s.threads| && s' == Step(s, t)
  }

  ghost predicate TicketOk(s: State, t: nat)
    requires t < |s.threads|
  {
    var th := s.threads[t];
    th.Holds() ==>
      && s.served <= th.turn < |s.log| && s.log[th.turn] == t
      && th.me == th.turn % WORD_SPAN
      && (th.pc.Inside? ==> th.turn == s.served)
  }

  predicate HeldAt(s: State, t: nat, i: nat) {
    t < |s.threads| && s.threads[t].Holds() && s.threads[t].turn == i
  }

  ghost predicate Inv(s: State) {
    && s.served <= |s.log|
    && s.ticket == |s.log| % WORD_SPAN && s.lock == s.served % WORD_SPAN
    && (forall t :: 0 <= t < |s.threads| ==> TicketOk(s, t))
    && (forall i :: s.served <= i < |s.log| ==> HeldAt(s, s.log[i], i))
    && |Holders(s)| == |s.log| - s.served
  }

  /** The loop test is exact although the counters wrap. */
  lemma TestIsExact(s: State, t: nat)
    requires Inv(s) && Bounded(s) && t < |s.threads| && s.threads[t].pc.Spin?
    ensures s.lock == s.threads[t].me <==> s.threads[t].turn == s.served
  {
    assert TicketOk(s, t);
    SameResidue(s.threads[t].turn, s.served);
  }

  lemma TicketIsOldValue(x: Word)
    ensures Add(Add(x, 1), WORD_SPAN - 1) == x
  {
  }

  lemma Increments(n: nat)
    ensures Add(n % WORD_SPAN, 1) == (n + 1) % WORD_SPAN
  {
  }

  lemma TakeKeepsInv(s: State, t: nat)
    requires Inv(s) && t < |s.threads| && s.threads[t].pc.Take?
    ensures Inv(Step(s, t))
  {
    var s' := Step(s, t);
    TicketIsOldValue(s.ticket);
    assert s'.threads[t] == Thread(Spin, s.ticket, |s.log|);
    Increments(|s.log|);
    assert Holders(s') == Holders(s) + {t};
    forall u | 0 <= u < |s'.threads| ensures TicketOk(s', u) {
      assert TicketOk(s, u);
    }
    forall i | s'.served <= i < |s'.log| ensures HeldAt(s', s'.log[i], i) {
      if i < |s.log| {
        assert HeldAt(s, s.log[i], i);
      }
    }
  }

  lemma LeaveKeepsInv(s: State, t: nat)
    requires Inv(s) && t < |s.threads| && s.threads[t].pc.Inside?
    ensures Inv(Step(s, t))
  {
    var s' := Step(s, t);
    assert TicketOk(s, t);
    assert Holders(s') == Holders(s) - {t};
    assert t in Holders(s);
    Increments(s.served);
    forall u | 0 <= u < |s'.threads| ensures TicketOk(s', u) {
      assert TicketOk(s, u);
    }
    forall i | s'.served <= i < |s'.log| ensures HeldAt(s', s'.log[i], i) {
      assert HeldAt(s, s.log[i], i);
    }
  }

  lemma StepKeepsInv(s: State, t: nat)
    requires Inv(s) && Bounded(s) && t < |s.threads|
    ensures Inv(Step(s, t))
  {
    if s.threads[t].pc.Take? {
      TakeKeepsInv(s, t);
    } else if s.threads[t].pc.Inside? {
      LeaveKeepsInv(s, t);
    } else {
      var s' := Step(s, t);
      assert Holders(s') == Holders(s);
      if s.threads[t].pc.Spin? {
        TestIsExact(s, t);
      }
      forall u | 0 <= u < |s'.threads| ensures TicketOk(s', u) {
        assert TicketOk(s, u);
      }
      forall i | s'.served <= i < |s'.log| ensures HeldAt(s', s'.log[i], i) {
        assert HeldAt(s, s.log[i], i);
      }
    }
  }

  lemma InitInv(s: State)
    requires Init(s)
    ensures Inv(s)
  {
    assert Holders(s) == {};
  }

  // ------ theorems ----------------------------------------------------------------------------

  ghost predicate Run(run: seq<State>) {
    Runs.IsRun(Init, Next, run)
  }

  lemma InvAlongRun(run: seq<State>, i: nat)
    requires Run(run) && i < |run|
    ensures Inv(run[i])
  {
    forall s | Init(s) ensures Inv(s) {
      InitInv(s);
    }
    forall s, s' | Inv(s) && Next(s, s') ensures Inv(s') {
      var t: nat :| t < |s.threads| && s' == Step(s, t);
      StepKeepsInv(s, t);
    }
    Runs.Invariance(Init, Next, Inv, run, i);
  }

  /** One thread at a time is inside, and it holds the oldest ticket. */
  lemma OneInsideInTicketOrder(run: seq<State>, i: nat, t: nat, u: nat)
    requires Run(run) && i < |run| && t < |run[i].threads| && u < |run[i].threads| && t != u
    requires run[i].threads[t].pc.Inside? && run[i].threads[u].Holds()
    ensures !run[i].threads[u].pc.Inside?
    ensures run[i].threads[t].turn < run[i].threads[u].turn
  {
    InvAlongRun(run, i);
    assert TicketOk(run[i], t) && TicketOk(run[i], u);
  }

  /** While tickets are out, the thread with the oldest one is inside or its test succeeds. */
  lemma OldestTicketEnters(run: seq<State>, i: nat) returns (t: nat)
    requires Run(run) && i < |run| && Bounded(run[i])
    requires run[i].served < |run[i].log|
    ensures t < |run[i].threads| && run[i].threads[t].turn == run[i].served
    ensures run[i].threads[t].pc.Inside? || (run[i].threads[t].pc.Spin? && run[i].lock == run[i].threads[t].me)
  {
    InvAlongRun(run, i);
    t := OldestEnters(run[i]);
  }

  lemma OldestEnters(s: State) returns (t: nat)
    requires Inv(s) && Bounded(s) && s.served < |s.log|
    ensures t < |s.threads| && s.threads[t].turn == s.served
    ensures s.threads[t].pc.Inside? || (s.threads[t].pc.Spin? && s.lock == s.threads[t].me)
  {
    t := s.log[s.served];
    assert HeldAt(s, t, s.served);
    if s.threads[t].pc.Spin? {
      TestIsExact(s, t);
    }
  }

  /** The statements that a thread still has to execute before it is idle again. */
  function Remaining(pc: Pc): nat {
    match pc
    case Idle => 0
    case Take => 3
    case Spin => 2
    case Inside => 1
  }

  /** A thread past a call moves on with every statement, but for a test before its turn, which changes nothing. */
  lemma AdvanceMoves(s: State, t: nat)
    requires Inv(s) && Bounded(s) && t < |s.threads| && !s.threads[t].pc.Idle?
    ensures var s' := Step(s, t);
      if s.threads[t].pc.Spin? && s.threads[t].turn != s.served then s' == s
      else
        && |s'.threads| == |s.threads| && Remaining(s'.threads[t].pc) == Remaining(s.threads[t].pc) - 1
        && forall u :: 0 <= u < |s.threads| && u != t ==> s'.threads[u] == s.threads[u]
  {
    if s.threads[t].pc.Spin? {
      TestIsExact(s, t);
    }
  }

  /** What the loop test means with any number of tickets out: the turns are equal modulo 2^32. */
  lemma TestModulo(s: State, t: nat)
    requires Inv(s) && t < |s.threads| && s.threads[t].pc.Spin?
    ensures s.lock == s.threads[t].me <==> (s.threads[t].turn - s.served) % WORD_SPAN == 0
  {
    assert TicketOk(s, t);
    SameResidues(s.threads[t].turn, s.served);
  }

  // ------ the object --------------------------------------------------------------------------

  class CritSectLiteFair {
    var ticket: Word                // volatile LONG
    var lock: Word                  // volatile LONG
    ghost var threads: seq<Thread>
    ghost var log: seq<nat>
    ghost var served: nat

    ghost function Snapshot(): State
      reads this
    {
      State(ticket, lock, threads, log, served)
    }

    ghost predicate Valid()
      reads this
    {
      Inv(Snapshot())
    }

    constructor (n: nat)
      ensures Valid() && Init(Snapshot()) && |threads| == n
    {
      ticket, lock, log, served := 0, 0, [], 0;
      threads := seq(n, _ => Thread(Idle, 0, 0));
      new;
      InitInv(Snapshot());
    }

    /** A call: no word is touched. */
    ghost method Proceed(t: nat)
      requires Valid() && Bounded(Snapshot()) && t < |threads| && threads[t].pc.Idle?
      modifies this`threads
      ensures Snapshot() == old(Step(Snapshot(), t)) && Valid()
    {
      StepKeepsInv(Snapshot(), t);
      threads := Step(Snapshot(), t).threads;
    }

    /** A ticket is taken: the counter grows and the number before it is the thread's. */
    method TakeTicket(t: nat) returns (me: Word)
      requires Valid() && Bounded(Snapshot()) && t < |threads| && threads[t].pc.Take?
      modifies this
      ensures Snapshot() == old(Step(Snapshot(), t)) && Valid()
      ensures me == threads[t].me == |old(log)| % WORD_SPAN
    {
      StepKeepsInv(Snapshot(), t);
      ghost var next := Step(Snapshot(), t);
      ticket := Add(ticket, 1);
      me := Add(ticket, WORD_SPAN - 1);
      threads, log := next.threads, next.log;
      assert TicketOk(Snapshot(), t);
    }

    /** One evaluation of lock != me. It lets the thread in exactly when every earlier ticket is done. */
    method Poll(t: nat, me: Word) returns (entered: bool)
      requires Valid() && Bounded(Snapshot()) && t < |threads| && threads[t].pc.Spin? && threads[t].me == me
      modifies this`threads
      ensures Snapshot() == old(Step(Snapshot(), t)) && Valid()
      ensures entered <==> old(threads[t].turn) == served
      ensures entered <==> threads[t].pc.Inside?
    {
      TestIsExact(Snapshot(), t);
      StepKeepsInv(Snapshot(), t);
      entered := lock == me;
      threads := Step(Snapshot(), t).threads;
    }

    /** The section is left: the next ticket is served. */
    method Leave(t: nat)
      requires Valid() && Bounded(Snapshot()) && t < |threads| && threads[t].pc.Inside?
      modifies this
      ensures Snapshot() == old(Step(Snapshot(), t)) && Valid()
    {
      StepKeepsInv(Snapshot(), t);
      ghost var next := Step(Snapshot(), t);
      lock := Add(lock, 1);
      threads, served := next.threads, next.served;
    }
  }
}
