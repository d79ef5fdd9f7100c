/**
  * The exact limits of CReaderWriterLock_NS_WP, on readers registered and on writers asking at once:
  * mutual exclusion needs fewer than 2^31 readers and nothing of the writers, the ticket order at most
  * 2^32 writers, and the gate of readers at most 2^31 writers.
  */
module WriterPreferenceLimits {
  import opened Words
  import opened L = WriterPreferenceLock
  import RP = ReaderPreferenceLock
  import TL = TicketLock
  import Runs
  import Sets

  datatype Limits = Limits(readers: nat, writers: nat)

  ghost function Readers(s: State): nat {
    |RP.Registered(WordView(s))|
  }

  ghost function Writers(s: State): nat {
    |TL.Holders(TicketView(s))|
  }

  ghost predicate Within(s: State, m: Limits) {
    Readers(s) <= m.readers && Writers(s) <= m.writers
  }

  ghost predicate RunWithin(run: seq<State>, m: Limits) {
    && Runs.IsRun(Init, AnyNext, run)
    && forall i: nat :: i < |run| ==> Within(run[i], m)
  }

  ghost predicate Reached(s: State, m: Limits) {
    exists run :: RunWithin(run, m) && run[|run| - 1] == s
  }

  /** No thread inside beside a writer. */
  predicate Exclusive(s: State) {
    forall u: nat, t: nat :: u < |s.threads| && t < |s.threads| && t != u && s.threads[u].pc.Writing? ==>
      !s.threads[t].pc.Reading? && !s.threads[t].pc.Writing?
  }

  predicate BeyondTicketGate(th: Thread) {
    Asking(th) && !th.pc.WriteGate?
  }

  /** One writer at a time is past the ticket gate. */
  predicate OneBeyondTicketGate(s: State) {
    forall u: nat, t: nat :: u < |s.threads| && t < |s.threads| && t != u && BeyondTicketGate(s.threads[u]) ==>
      !BeyondTicketGate(s.threads[t])
  }

  // ------ safe limits suffice -----------------------------------------------------------------

  lemma FewReadersExclude(s: State, m: Limits)
    requires Reached(s, m) && m.readers < 0x8000_0000
    ensures Exclusive(s)
  {
    var run :| RunWithin(run, m) && run[|run| - 1] == s;
    forall i | 0 <= i < |run| - 1 ensures NextFewReaders(run[i], run[i + 1]) {
      Runs.StepOf(Init, AnyNext, run, i);
    }
    assert WordRun(run);
    forall u: nat, t: nat | u < |s.threads| && t < |s.threads| && t != u && s.threads[u].pc.Writing?
      ensures !s.threads[t].pc.Reading? && !s.threads[t].pc.Writing?
    {
      MutualExclusion(run, |run| - 1, u, t);
    }
  }

  lemma NoWritersExclude(s: State, m: Limits)
    requires Reached(s, m) && m.writers == 0
    ensures Exclusive(s)
  {
    assert TL.Holders(TicketView(s)) == {};
    forall u: nat | u < |s.threads| ensures !s.threads[u].pc.Writing? {
      assert u !in TL.Holders(TicketView(s));
    }
  }

  lemma TicketsInOrder(s: State, m: Limits)
    requires Reached(s, m) && m.writers <= WORD_SPAN
    ensures OneBeyondTicketGate(s)
  {
    var run :| RunWithin(run, m) && run[|run| - 1] == s;
    forall i | 0 <= i < |run| - 1 ensures NextTickets(run[i], run[i + 1]) {
      Runs.StepOf(Init, AnyNext, run, i);
    }
    assert TicketRun(run);
    forall u: nat, t: nat | u < |s.threads| && t < |s.threads| && t != u && BeyondTicketGate(s.threads[u])
      ensures !BeyondTicketGate(s.threads[t])
    {
      if Asking(s.threads[t]) {
        WritersInTicketOrder(run, |run| - 1, u, t);
      }
    }
  }

  lemma GateHoldsWithin(s: State, m: Limits)
    requires Reached(s, m) && m.writers <= MAX_WRITERS
    ensures GateHolds(s)
  {
    var run :| RunWithin(run, m) && run[|run| - 1] == s;
    forall i | 0 <= i < |run| - 1 ensures NextGate(run[i], run[i + 1]) {
      Runs.StepOf(Init, AnyNext, run, i);
    }
    assert GateRun(run);
    GateAlongRun(run, |run| - 1);
    forall t | 0 <= t < |s.threads| && PastGate(s.threads[t].pc) ensures s.threads[t].asked <= s.done {
      assert GateOk(s, s.threads[t]);
    }
  }

  // ------ building a run ----------------------------------------------------------------------

  lemma ReachedStep(s: State, m: Limits, t: nat, c: Choice)
    requires Reached(s, m) && t < |s.threads| && Within(Step(s, t, c), m)
    ensures Reached(Step(s, t, c), m)
  {
    var run :| RunWithin(run, m) && run[|run| - 1] == s;
    var s' := Step(s, t, c);
    Runs.RunExtends(Init, AnyNext, run, s');
    var run' := run + [s'];
    forall i: nat | i < |run'| ensures Within(run'[i], m) {
      assert run'[i] == if i < |run| then run[i] else s';
    }
    assert RunWithin(run', m);
  }

  /** Nobody has called yet. */
  predicate Unused(s: State) {
    && s == State(0, 0, 0, s.threads, [], 0)
    && forall t :: 0 <= t < |s.threads| ==> s.threads[t].pc.Idle?
  }

  lemma UnusedIsReached(s: State, m: Limits)
    requires Unused(s)
    ensures Reached(s, m) && Readers(s) == 0 && Writers(s) == 0
  {
    assert RP.Registered(WordView(s)) == {} && TL.Holders(TicketView(s)) == {};
    assert RunWithin([s], m);
  }

  /** The predicate holds at the start, and of every state within the limits that follows one of its own. */
  ghost predicate Closed(holds: State -> bool, m: Limits) {
    && (forall s: State :: Unused(s) ==> holds(s))
    && forall s: State, t: nat, c: Choice ::
        holds(s) && t < |s.threads| && Within(Step(s, t, c), m) ==> holds(Step(s, t, c))
  }

  lemma ReachedIsClosed(m: Limits)
    ensures Closed((s: State) => Reached(s, m), m)
  {
    forall s: State | Unused(s) ensures Reached(s, m) {
      UnusedIsReached(s, m);
    }
    forall s: State, t: nat, c: Choice | Reached(s, m) && t < |s.threads| && Within(Step(s, t, c), m)
      ensures Reached(Step(s, t, c), m)
    {
      ReachedStep(s, m, t, c);
    }
  }

  /** A statement changes its own thread. */
  lemma OwnThread(s: State, t: nat, c: Choice)
    requires t < |s.threads|
    ensures Step(s, t, c).threads == s.threads[t := Step(s, t, c).threads[t]]
  {
  }

  predicate InWord(pc: Pc) {
    pc.ReadSpin? || pc.Reading?
  }

  ghost function ReadersOf(threads: seq<Thread>): set<nat> {
    set t | 0 <= t < |threads| && InWord(threads[t].pc)
  }

  ghost function WritersOf(threads: seq<Thread>): set<nat> {
    set t | 0 <= t < |threads| && Asking(threads[t])
  }

  lemma RegisteredAre(s: State)
    ensures RP.Registered(WordView(s)) == ReadersOf(s.threads)
  {
  }

  lemma HoldersAre(s: State)
    ensures TL.Holders(TicketView(s)) == WritersOf(s.threads)
  {
  }

  /** Only a registration adds to the registered readers, and only a request to the writers asking. */
  lemma OwnPc(s: State, t: nat, c: Choice)
    requires t < |s.threads|
    ensures var th, th' := s.threads[t], Step(s, t, c).threads[t];
      && (InWord(th'.pc) ==> InWord(th.pc) || th.pc.ReadAdd?)
      && (Asking(th') ==> (Asking(th) && !th.pc.EndWriteSecond?) || th.pc.WriteTake?)
  {
  }

  lemma ReadersMove(s: State, t: nat, c: Choice)
    requires t < |s.threads|
    ensures Readers(Step(s, t, c)) <= Readers(s) + Runs.One(s.threads[t].pc.ReadAdd?)
  {
    var s' := Step(s, t, c);
    OwnThread(s, t, c);
    OwnPc(s, t, c);
    RegisteredAre(s);
    RegisteredAre(s');
    ReaderSetMoves(s.threads, t, s'.threads[t]);
  }

  lemma ReaderSetMoves(threads: seq<Thread>, t: nat, th: Thread)
    requires t < |threads| && (InWord(th.pc) ==> InWord(threads[t].pc) || threads[t].pc.ReadAdd?)
    ensures |ReadersOf(threads[t := th])| <= |ReadersOf(threads)| + Runs.One(threads[t].pc.ReadAdd?)
  {
    var before := ReadersOf(threads);
    Sets.SubsetIsSmaller(ReadersOf(threads[t := th]), if threads[t].pc.ReadAdd? then before + {t} else before);
  }

  lemma WritersMove(s: State, t: nat, c: Choice)
    requires t < |s.threads|
    ensures Writers(Step(s, t, c)) <= Writers(s) + Runs.One(s.threads[t].pc.WriteTake?)
    ensures s.threads[t].pc.EndWriteSecond? ==> Writers(Step(s, t, c)) <= Writers(s) - 1
  {
    var s' := Step(s, t, c);
    OwnThread(s, t, c);
    OwnPc(s, t, c);
    HoldersAre(s);
    HoldersAre(s');
    WriterSetMoves(s.threads, t, s'.threads[t]);
  }

  lemma WriterSetMoves(threads: seq<Thread>, t: nat, th: Thread)
    requires t < |threads|
    requires Asking(th) ==> (Asking(threads[t]) && !threads[t].pc.EndWriteSecond?) || threads[t].pc.WriteTake?
    ensures |WritersOf(threads[t := th])| <= |WritersOf(threads)| + Runs.One(threads[t].pc.WriteTake?)
    ensures threads[t].pc.EndWriteSecond? ==> |WritersOf(threads[t := th])| <= |WritersOf(threads)| - 1
  {
    var before, after := WritersOf(threads), WritersOf(threads[t := th]);
    if threads[t].pc.EndWriteSecond? {
      assert t in before;
      Sets.SubsetIsSmaller(after, before - {t});
    } else {
      Sets.SubsetIsSmaller(after, if threads[t].pc.WriteTake? then before + {t} else before);
    }
  }

  /** One statement; a registration and a request need room within the limits. */
  lemma Go(s: State, m: Limits, holds: State -> bool, t: nat, c: Choice) returns (s': State)
    requires Closed(holds, m) && holds(s) && Within(s, m) && t < |s.threads|
    requires s.threads[t].pc.ReadAdd? ==> Readers(s) < m.readers
    requires s.threads[t].pc.WriteTake? ==> Writers(s) < m.writers
    ensures s' == Step(s, t, c) && holds(s') && Within(s', m)
    ensures Readers(s') <= Readers(s) + Runs.One(s.threads[t].pc.ReadAdd?)
    ensures Writers(s') <= Writers(s) + Runs.One(s.threads[t].pc.WriteTake?)
    ensures s.threads[t].pc.EndWriteSecond? ==> Writers(s') <= Writers(s) - 1
  {
    s' := Step(s, t, c);
    ReadersMove(s, t, c);
    WritersMove(s, t, c);
  }

  const READ := Choice(RP.Read, false)
  const WRITE := Choice(RP.Write, false)

  function Put(s: State, t: nat, th: Thread): seq<Thread>
    requires t < |s.threads|
  {
    s.threads[t := th]
  }

  /** A writer asks. */
  lemma Ask(s: State, m: Limits, holds: State -> bool, t: nat) returns (s': State)
    requires Closed(holds, m) && holds(s) && Within(s, m) && t < |s.threads| && s.threads[t].pc.Idle?
    requires Writers(s) < m.writers
    ensures holds(s') && Within(s', m) && Readers(s') <= Readers(s) && Writers(s') <= Writers(s) + 1
    ensures s' == s.(writeRequests := Add(s.writeRequests, 1), log := s.log + [t],
      threads := Put(s, t, s.threads[t].(pc := WriteGate, ticket := s.writeRequests, turn := |s.log|)))
  {
    var a := Go(s, m, holds, t, WRITE);
    TL.TicketIsOldValue(s.writeRequests);
    s' := Go(a, m, holds, t, WRITE);
  }

  /** A writer's ticket test passes. */
  lemma PassTicketGate(s: State, m: Limits, holds: State -> bool, t: nat) returns (s': State)
    requires Closed(holds, m) && holds(s) && Within(s, m) && t < |s.threads| && s.threads[t].pc.WriteGate?
    requires s.writeCompletions == s.threads[t].ticket
    ensures holds(s') && Within(s', m) && Readers(s') <= Readers(s) && Writers(s') <= Writers(s)
    ensures s' == s.(threads := Put(s, t, s.threads[t].(pc := WriteCas)))
  {
    s' := Go(s, m, holds, t, WRITE);
  }

  /** A writer's compare-and-swap succeeds. */
  lemma Acquire(s: State, m: Limits, holds: State -> bool, t: nat) returns (s': State)
    requires Closed(holds, m) && holds(s) && Within(s, m) && t < |s.threads| && s.threads[t].pc.WriteCas?
    requires s.lock == 0
    ensures holds(s') && Within(s', m) && Readers(s') <= Readers(s) && Writers(s') <= Writers(s)
    ensures s' == s.(lock := RP.WRITER_ACTIVE_FLAG, threads := Put(s, t, s.threads[t].(pc := Writing)))
  {
    s' := Go(s, m, holds, t, WRITE);
  }

  /** The whole of EndWrite. */
  lemma Finish(s: State, m: Limits, holds: State -> bool, t: nat) returns (s': State)
    requires Closed(holds, m) && holds(s) && Within(s, m) && t < |s.threads| && s.threads[t].pc.Writing?
    requires s.lock == RP.WRITER_ACTIVE_FLAG
    ensures holds(s') && Within(s', m) && Readers(s') <= Readers(s) && Writers(s') <= Writers(s) - 1
    ensures s' == s.(lock := 0, writeCompletions := Add(s.writeCompletions, 1), done := s.done + 1,
      threads := Put(s, t, s.threads[t].(pc := Idle)))
  {
    var a := Go(s, m, holds, t, WRITE);
    s' := Go(a, m, holds, t, WRITE);
  }

  /** A writer whose turn it is goes through, and asks again. */
  lemma ServeAndAsk(s: State, m: Limits, holds: State -> bool, t: nat) returns (s': State)
    requires Closed(holds, m) && holds(s) && Within(s, m) && t < |s.threads| && s.threads[t].pc.WriteGate?
    requires s.writeCompletions == s.threads[t].ticket && s.lock == 0
    ensures holds(s') && Within(s', m)
    ensures s'.lock == 0 && s'.done == s.done + 1 && |s'.log| == |s.log| + 1
    ensures s'.writeCompletions == Add(s.writeCompletions, 1) && s'.writeRequests == Add(s.writeRequests, 1)
    ensures s'.threads == Put(s, t, s.threads[t].(ticket := s.writeRequests, turn := |s.log|))
  {
    var a := PassTicketGate(s, m, holds, t);
    var b := Acquire(a, m, holds, t);
    var c := Finish(b, m, holds, t);
    s' := Ask(c, m, holds, t);
  }

  lemma Start(m: Limits, holds: State -> bool, n: nat) returns (s: State)
    requires Closed(holds, m)
    ensures holds(s) && Unused(s) && |s.threads| == n && Readers(s) == 0 && Writers(s) == 0
  {
    s := State(0, 0, 0, seq(n, _ => Thread(Idle, 0, 0, 0, false, 0, 0)), [], 0);
    UnusedIsReached(s, m);
  }

  // ------ too many readers --------------------------------------------------------------------

  /** x readers are inside and nobody has asked to write. */
  ghost predicate ReadersInside(s: State, m: Limits, holds: State -> bool, n: nat, x: nat) {
    && holds(s) && Within(s, m) && |s.threads| == n && x <= n && Readers(s) <= x && Writers(s) == 0
    && (forall t: nat :: t < n ==> s.threads[t].pc == if t < x then Reading else Idle)
    && s.lock == 2 * x % WORD_SPAN && s.writeRequests == s.writeCompletions == 0
  }

  /** A reader passes the open gate. */
  lemma PassGate(s: State, m: Limits, holds: State -> bool, t: nat) returns (s': State)
    requires Closed(holds, m) && holds(s) && Within(s, m) && t < |s.threads| && s.threads[t].pc.Idle?
    requires s.writeRequests == s.writeCompletions
    ensures holds(s') && Within(s', m) && Readers(s') <= Readers(s) && Writers(s') <= Writers(s)
    ensures t < |s'.threads| && s'.threads[t].pc.ReadAdd?
    ensures s' == s.(threads := Put(s, t, s'.threads[t]))
  {
    var a := Go(s, m, holds, t, READ);
    var b := Go(a, m, holds, t, READ);
    s' := Go(b, m, holds, t, READ);
  }

  lemma OneMoreReader(s: State, m: Limits, holds: State -> bool, n: nat, x: nat) returns (s': State)
    requires Closed(holds, m) && ReadersInside(s, m, holds, n, x) && x < n && x < m.readers
    ensures ReadersInside(s', m, holds, n, x + 1)
  {
    var a := PassGate(s, m, holds, x);
    var b := Go(a, m, holds, x, READ);
    AddResidues(2 * x, RP.READER_COUNT_INC);
    AndOne(b.lock, RP.WRITER_ACTIVE_FLAG);
    s' := Go(b, m, holds, x, READ);
  }

  lemma {:induction false} CrowdOfReaders(m: Limits, holds: State -> bool, n: nat, x: nat) returns (s: State)
    requires Closed(holds, m) && x <= n && x <= m.readers
    ensures ReadersInside(s, m, holds, n, x)
  {
    if x == 0 {
      s := Start(m, holds, n);
    } else {
      var a := CrowdOfReaders(m, holds, n, x - 1);
      s := OneMoreReader(a, m, holds, n, x - 1);
    }
  }

  /** With 2^31 readers inside the word is 0, and a writer gets in beside them. */
  lemma Intrusion(m: Limits, holds: State -> bool) returns (s: State)
    requires Closed(holds, m) && m.readers >= 0x8000_0000 && m.writers > 0
    ensures holds(s) && !Exclusive(s)
  {
    var n, writer: nat := 0x8000_0001, 0x8000_0000;
    var a := CrowdOfReaders(m, holds, n, writer);
    var b := Ask(a, m, holds, writer);
    var c := PassTicketGate(b, m, holds, writer);
    s := Acquire(c, m, holds, writer);
    assert s.threads[writer].pc.Writing? && s.threads[0].pc.Reading?;
  }

  // ------ too many writers --------------------------------------------------------------------

  /** x writers have asked and none has been served. */
  ghost predicate WritersWaiting(s: State, m: Limits, holds: State -> bool, n: nat, x: nat) {
    && holds(s) && Within(s, m) && |s.threads| == n && x <= n && Writers(s) <= x
    && (forall t: nat :: t < x ==> s.threads[t].pc.WriteGate? && s.threads[t].ticket == t % WORD_SPAN)
    && (forall t: nat :: x <= t < n ==> s.threads[t].pc.Idle?)
    && s.lock == 0 && s.done == 0 && |s.log| == x
    && s.writeRequests == x % WORD_SPAN && s.writeCompletions == 0
  }

  lemma {:induction false} CrowdOfWriters(m: Limits, holds: State -> bool, n: nat, x: nat) returns (s: State)
    requires Closed(holds, m) && x <= n && x <= m.writers
    ensures WritersWaiting(s, m, holds, n, x)
  {
    if x == 0 {
      s := Start(m, holds, n);
    } else {
      var a := CrowdOfWriters(m, holds, n, x - 1);
      s := Ask(a, m, holds, x - 1);
      AddResidues(x - 1, 1);
    }
  }

  /** With 2^32 + 1 writers asking, the first and the last have the same ticket. */
  lemma SameTicket(m: Limits, holds: State -> bool) returns (s: State)
    requires Closed(holds, m) && m.writers > WORD_SPAN
    ensures holds(s) && !OneBeyondTicketGate(s)
  {
    var n, last: nat := WORD_SPAN + 1, WORD_SPAN;
    var a := CrowdOfWriters(m, holds, n, n);
    var b := PassTicketGate(a, m, holds, 0);
    s := PassTicketGate(b, m, holds, last);
    assert BeyondTicketGate(s.threads[0]) && BeyondTicketGate(s.threads[last]);
  }

  /** A reader has made its first load while w writers waited; then k of them were served and asked again. */
  ghost predicate StaleReader(s: State, m: Limits, holds: State -> bool, w: nat, k: nat) {
    && holds(s) && Within(s, m) && |s.threads| == w + 1 && k <= w < WORD_SPAN
    && (forall t: nat :: k <= t < w ==> s.threads[t].pc.WriteGate? && s.threads[t].ticket == t)
    && s.threads[w].pc.GateSecond? && !s.threads[w].requestsFirst
    && s.threads[w].loaded == 0 && s.threads[w].asked == w
    && s.lock == 0 && s.done == k && |s.log| == w + k
    && s.writeRequests == (w + k) % WORD_SPAN && s.writeCompletions == k % WORD_SPAN
  }

  lemma FirstLoad(m: Limits, holds: State -> bool, w: nat) returns (s: State)
    requires Closed(holds, m) && w <= m.writers && w < WORD_SPAN
    ensures StaleReader(s, m, holds, w, 0)
  {
    var a := CrowdOfWriters(m, holds, w + 1, w);
    var b := Go(a, m, holds, w, READ);
    s := Go(b, m, holds, w, READ);
  }

  lemma ServeOne(s: State, m: Limits, holds: State -> bool, w: nat, k: nat) returns (s': State)
    requires Closed(holds, m) && StaleReader(s, m, holds, w, k) && k < w
    ensures StaleReader(s', m, holds, w, k + 1)
  {
    s' := ServeAndAsk(s, m, holds, k);
    AddResidues(w + k, 1);
    AddResidues(k, 1);
  }

  lemma {:induction false} ServeMany(m: Limits, holds: State -> bool, w: nat, k: nat) returns (s: State)
    requires Closed(holds, m) && w <= m.writers && k <= w < WORD_SPAN
    ensures StaleReader(s, m, holds, w, k)
  {
    if k == 0 {
      s := FirstLoad(m, holds, w);
    } else {
      var a := ServeMany(m, holds, w, k - 1);
      s := ServeOne(a, m, holds, w, k - 1);
    }
  }

  /** With 2^31 + 1 writers asking, the requests can come round to the word loaded first before all of them are done. */
  lemma GateFails(m: Limits, holds: State -> bool) returns (s: State)
    requires Closed(holds, m) && m.writers > MAX_WRITERS
    ensures holds(s) && !GateHolds(s)
  {
    var w, k: nat := MAX_WRITERS + 1, MAX_WRITERS - 1;
    var a := ServeMany(m, holds, w, k);
    s := Go(a, m, holds, w, READ);
    assert s.threads[w].pc.ReadAdd? && s.threads[w].asked > s.done;
  }

  // ------ the limits --------------------------------------------------------------------------

  /** Mutual exclusion, exactly. */
  lemma ExclusionLimits(m: Limits)
    ensures (forall s :: Reached(s, m) ==> Exclusive(s)) <==> m.readers < 0x8000_0000 || m.writers == 0
  {
    if m.readers < 0x8000_0000 || m.writers == 0 {
      forall s | Reached(s, m) ensures Exclusive(s) {
        if m.writers == 0 {
          NoWritersExclude(s, m);
        } else {
          FewReadersExclude(s, m);
        }
      }
    } else {
      ReachedIsClosed(m);
      var s := Intrusion(m, (s: State) => Reached(s, m));
    }
  }

  /** One writer at a time past the ticket gate, exactly. */
  lemma TicketLimits(m: Limits)
    ensures (forall s :: Reached(s, m) ==> OneBeyondTicketGate(s)) <==> m.writers <= WORD_SPAN
  {
    if m.writers <= WORD_SPAN {
      forall s | Reached(s, m) ensures OneBeyondTicketGate(s) {
        TicketsInOrder(s, m);
      }
    } else {
      ReachedIsClosed(m);
      var s := SameTicket(m, (s: State) => Reached(s, m));
    }
  }

  /** Writer preference, exactly. */
  lemma GateLimits(m: Limits)
    ensures (forall s :: Reached(s, m) ==> GateHolds(s)) <==> m.writers <= MAX_WRITERS
  {
    if m.writers <= MAX_WRITERS {
      forall s | Reached(s, m) ensures GateHolds(s) {
        GateHoldsWithin(s, m);
      }
    } else {
      ReachedIsClosed(m);
      var s := GateFails(m, (s: State) => Reached(s, m));
    }
  }
}
