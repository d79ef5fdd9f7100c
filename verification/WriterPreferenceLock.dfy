/**
  * CReaderWriterLock_NS_WP (critsect.h:913-993): a reader-writer lock in which writers go first.
  * Seen through its word `lock` alone it is the reader-preference lock; seen through
  * `write_requests` and `write_completions` alone it is the ticket lock, with a writer inside from
  * its gate to the end of EndWrite. Both views are refinements, proved step by step below.
  */
module WriterPreferenceLock {
  import opened Words
  import RP = ReaderPreferenceLock
  import TL = TicketLock
  import Runs

  datatype Pc =
    | Idle
    | Gate                // ReadLock called; about to load the first of the two gate variables
    | GateSecond          // about to load the other one and compare
    | ReadAdd | ReadSpin | Reading
    | WriteTake           // WriteLock called; about to InterlockedIncrement(&write_requests)
    | WriteGate           // about to load write_completions and compare it with the ticket
    | WriteCas | Writing
    | EndWriteSecond      // the flag is released; about to InterlockedIncrement(&write_completions)

  /**
    * A thread. A writer carries its ticket and its turn in the log of write requests; a reader in
    * its gate carries the word it loaded, which variable that was, the unbounded count behind it,
    * and how many writers had asked when the current iteration of the gate started.
    */
  datatype Thread = Thread(pc: Pc, ticket: Word, turn: nat, loaded: Word, requestsFirst: bool, count: nat, asked: nat)

  datatype State = State(
    lock: Word, writeRequests: Word, writeCompletions: Word, threads: seq<Thread>, log: seq<nat>, done: nat)

  /** What the environment decides: which operation an idle thread calls, and which gate variable is loaded first. */
  datatype Choice = Choice(call: RP.Call, requestsFirst: bool)

  ghost predicate Init(s: State) {
    && s.lock == 0 && s.writeRequests == 0 && s.writeCompletions == 0 && s.log == [] && s.done == 0
    && forall t :: 0 <= t < |s.threads| ==> s.threads[t].pc.Idle?
  }

  function Moved(s: State, t: nat, th: Thread): State
    requires t < |s.threads|
  {
    s.(threads := s.threads[t := th])
  }

  function Step(s: State, t: nat, c: Choice): State
    requires t < |s.threads|
  {
    var th := s.threads[t];
    match th.pc
    case Idle => Moved(s, t, th.(pc := if c.call.Read? then Gate else WriteTake))
    case Gate => Moved(s, t, th.(
      pc := GateSecond, asked := |s.log|, requestsFirst := c.requestsFirst,
      loaded := if c.requestsFirst then s.writeRequests else s.writeCompletions,
      count := if c.requestsFirst then |s.log| else s.done))
    case GateSecond =>
      Moved(s, t, th.(pc :=
        if th.loaded != (if th.requestsFirst then s.writeCompletions else s.writeRequests) then Gate else ReadAdd))
    case ReadAdd => Moved(s, t, th.(pc := ReadSpin)).(lock := Add(s.lock, RP.READER_COUNT_INC))
    case ReadSpin => if And(s.lock, RP.WRITER_ACTIVE_FLAG) != 0 then s else Moved(s, t, th.(pc := Reading))
    case Reading => Moved(s, t, th.(pc := Idle)).(lock := Add(s.lock, WORD_SPAN - RP.READER_COUNT_INC))
    case WriteTake =>
      Moved(s, t, th.(pc := WriteGate, ticket := Add(Add(s.writeRequests, 1), WORD_SPAN - 1), turn := |s.log|)).(
        writeRequests := Add(s.writeRequests, 1), log := s.log + [t])
    case WriteGate => if s.writeCompletions != th.ticket then s else Moved(s, t, th.(pc := WriteCas))
    case WriteCas =>
      if s.lock != 0 then s else Moved(s, t, th.(pc := Writing)).(lock := RP.WRITER_ACTIVE_FLAG)
    case Writing => Moved(s, t, th.(pc := EndWriteSecond)).(lock := Add(s.lock, WORD_SPAN - RP.WRITER_ACTIVE_FLAG))
    case EndWriteSecond =>
      Moved(s, t, th.(pc := Idle)).(writeCompletions := Add(s.writeCompletions, 1), done := s.done + 1)
  }

  // ------ the two views -----------------------------------------------------------------------

  function WordPc(pc: Pc): RP.Pc {
    match pc
    case ReadAdd => RP.ReadAdd
    case ReadSpin => RP.ReadSpin
    case Reading => RP.Reading
    case WriteCas => RP.WriteCas
    case Writing => RP.Writing
    case _ => RP.Idle
  }

  function TicketThread(th: Thread): TL.Thread {
    TL.Thread(
      match th.pc
      case WriteTake => TL.Take
      case WriteGate => TL.Spin
      case WriteCas => TL.Inside
      case Writing => TL.Inside
      case EndWriteSecond => TL.Inside
      case _ => TL.Idle,
      th.ticket, th.turn)
  }

  function WordView(s: State): RP.State {
    RP.State(s.lock, seq(|s.threads|, t requires 0 <= t < |s.threads| => WordPc(s.threads[t].pc)))
  }

  function TicketView(s: State): TL.State {
    TL.State(s.writeRequests, s.writeCompletions,
      seq(|s.threads|, t requires 0 <= t < |s.threads| => TicketThread(s.threads[t])), s.log, s.done)
  }

  /** Every step is a step of the reader-preference lock, or leaves that view alone. */
  lemma StepInWordView(s: State, t: nat, c: Choice)
    requires t < |s.threads|
    ensures var v, v' := WordView(s), WordView(Step(s, t, c));
      v' == v || v' == RP.Step(v, t, RP.Read) || v' == RP.Step(v, t, RP.Write)
  {
    var v, v' := WordView(s), WordView(Step(s, t, c));
    assert v'.threads == v.threads[t := v'.threads[t]];
    if v'.threads[t] == v.threads[t] {
      assert v'.threads == v.threads;
    }
  }

  /** Every step is a step of the ticket lock, or leaves that view alone. */
  lemma StepInTicketView(s: State, t: nat, c: Choice)
    requires t < |s.threads|
    ensures var v, v' := TicketView(s), TicketView(Step(s, t, c)); v' == v || v' == TL.Step(v, t)
  {
    var v, v' := TicketView(s), TicketView(Step(s, t, c));
    assert v'.threads == v.threads[t := v'.threads[t]];
    if v'.threads[t] == v.threads[t] {
      assert v'.threads == v.threads;
    }
  }

  // ------ the invariants ----------------------------------------------------------------------
  // The word, the tickets and the gate of readers each have an invariant and a bound of their own.

  const MAX_WRITERS := 0x8000_0000

  /** Fewer than 2^31 readers are registered. */
  ghost predicate FewReaders(s: State) {
    RP.Bounded(WordView(s))
  }

  /** At most so many writers have asked and not completed. */
  ghost predicate WritersWithin(s: State, n: nat) {
    |TL.Holders(TicketView(s))| <= n
  }

  /** The bounds of all three. */
  ghost predicate Bounded(s: State) {
    FewReaders(s) && WritersWithin(s, MAX_WRITERS)
  }

  predicate PastGate(pc: Pc) {
    pc.ReadAdd? || pc.ReadSpin? || pc.Reading?
  }

  /** A reader in its second load remembers enough; past the gate all writers it saw asking are done. */
  predicate GateOk(s: State, th: Thread) {
    && (th.pc.GateSecond? ==>
      && th.loaded == th.count % WORD_SPAN
      && th.asked <= |s.log|
      && (if th.requestsFirst then th.count == th.asked else th.count <= s.done && th.asked <= th.count + MAX_WRITERS))
    && (PastGate(th.pc) ==> th.asked <= s.done)
  }

  ghost predicate GateInv(s: State) {
    TL.Inv(TicketView(s)) && forall t :: 0 <= t < |s.threads| ==> GateOk(s, s.threads[t])
  }

  ghost predicate Inv(s: State) {
    RP.Inv(WordView(s)) && GateInv(s)
  }

  predicate CountersOk(s: State) {
    && s.done <= |s.log| <= s.done + MAX_WRITERS
    && s.writeRequests == |s.log| % WORD_SPAN && s.writeCompletions == s.done % WORD_SPAN
  }

  /** The two loads of the gate, taken at different times and in either order. */
  lemma GateIsSafe(s: State, th: Thread)
    requires CountersOk(s) && th.pc.GateSecond? && GateOk(s, th)
    requires th.loaded == if th.requestsFirst then s.writeCompletions else s.writeRequests
    ensures th.asked <= s.done
  {
    if th.requestsFirst {
      if s.done < th.count {
        SameResidue(th.count, s.done);
      }
    } else if |s.log| < th.count + WORD_SPAN {
      SameResidue(|s.log|, th.count);
    }
  }

  lemma OwnStepKeepsGate(s: State, t: nat, c: Choice)
    requires CountersOk(s) && t < |s.threads| && GateOk(s, s.threads[t])
    ensures GateOk(Step(s, t, c), Step(s, t, c).threads[t])
  {
    var th := s.threads[t];
    if th.pc.GateSecond? && th.loaded == (if th.requestsFirst then s.writeCompletions else s.writeRequests) {
      GateIsSafe(s, th);
    }
  }

  lemma OtherStepKeepsGate(s: State, t: nat, c: Choice, u: nat)
    requires t < |s.threads| && u < |s.threads| && u != t && GateOk(s, s.threads[u])
    ensures GateOk(Step(s, t, c), Step(s, t, c).threads[u])
  {
    var s' := Step(s, t, c);
    assert s'.threads[u] == s.threads[u];
    assert |s.log| <= |s'.log| && s.done <= s'.done;
  }

  /** The word needs a bound on readers only. */
  lemma StepKeepsWord(s: State, t: nat, c: Choice)
    requires RP.Inv(WordView(s)) && FewReaders(s) && t < |s.threads|
    ensures RP.Inv(WordView(Step(s, t, c)))
  {
    StepInWordView(s, t, c);
    RP.StepKeepsInv(WordView(s), t, RP.Read);
    RP.StepKeepsInv(WordView(s), t, RP.Write);
  }

  /** The tickets need at most 2^32 writers asking. */
  lemma StepKeepsTickets(s: State, t: nat, c: Choice)
    requires TL.Inv(TicketView(s)) && WritersWithin(s, WORD_SPAN) && t < |s.threads|
    ensures TL.Inv(TicketView(Step(s, t, c)))
  {
    StepInTicketView(s, t, c);
    TL.StepKeepsInv(TicketView(s), t);
  }

  /** The gate needs at most 2^31 writers asking. */
  lemma StepKeepsGate(s: State, t: nat, c: Choice)
    requires GateInv(s) && WritersWithin(s, MAX_WRITERS) && t < |s.threads|
    ensures GateInv(Step(s, t, c))
  {
    StepKeepsTickets(s, t, c);
    forall u | 0 <= u < |s.threads| ensures GateOk(Step(s, t, c), Step(s, t, c).threads[u]) {
      assert GateOk(s, s.threads[u]);
      if u == t {
        OwnStepKeepsGate(s, t, c);
      } else {
        OtherStepKeepsGate(s, t, c, u);
      }
    }
  }

  lemma StepKeepsInv(s: State, t: nat, c: Choice)
    requires Inv(s) && Bounded(s) && t < |s.threads|
    ensures Inv(Step(s, t, c))
  {
    StepKeepsWord(s, t, c);
    StepKeepsGate(s, t, c);
  }

  lemma InitInv(s: State)
    requires Init(s)
    ensures Inv(s)
  {
    RP.InitInv(WordView(s));
    TL.InitInv(TicketView(s));
  }

  // ------ runs --------------------------------------------------------------------------------

  ghost predicate AnyNext(s: State, s': State) {
    exists t: nat, c: Choice :: t < |s.threads| && s' == Step(s, t, c)
  }

  ghost predicate NextFewReaders(s: State, s': State) {
    FewReaders(s) && AnyNext(s, s')
  }

  ghost predicate NextTickets(s: State, s': State) {
    WritersWithin(s, WORD_SPAN) && AnyNext(s, s')
  }

  ghost predicate NextGate(s: State, s': State) {
    WritersWithin(s, MAX_WRITERS) && AnyNext(s, s')
  }

  ghost predicate Next(s: State, s': State) {
    Bounded(s) && AnyNext(s, s')
  }

  /** A run in which fewer than 2^31 readers are registered at any time, and any number of writers ask. */
  ghost predicate WordRun(run: seq<State>) {
    Runs.IsRun(Init, NextFewReaders, run)
  }

  /** A run in which at most 2^32 writers ask at any time, and any number of readers are registered. */
  ghost predicate TicketRun(run: seq<State>) {
    Runs.IsRun(Init, NextTickets, run)
  }

  /** The same with at most 2^31 writers. */
  ghost predicate GateRun(run: seq<State>) {
    Runs.IsRun(Init, NextGate, run)
  }

  ghost predicate Run(run: seq<State>) {
    Runs.IsRun(Init, Next, run)
  }

  lemma WordAlongRun(run: seq<State>, i: nat)
    requires WordRun(run) && i < |run|
    ensures RP.Inv(WordView(run[i]))
  {
    var inv := (s: State) => RP.Inv(WordView(s));
    forall s | Init(s) ensures inv(s) {
      InitInv(s);
    }
    forall s, s' | inv(s) && NextFewReaders(s, s') ensures inv(s') {
      var t: nat, c: Choice :| t < |s.threads| && s' == Step(s, t, c);
      StepKeepsWord(s, t, c);
    }
    Runs.Invariance(Init, NextFewReaders, inv, run, i);
  }

  lemma TicketsAlongRun(run: seq<State>, i: nat)
    requires TicketRun(run) && i < |run|
    ensures TL.Inv(TicketView(run[i]))
  {
    var inv := (s: State) => TL.Inv(TicketView(s));
    forall s | Init(s) ensures inv(s) {
      InitInv(s);
    }
    forall s, s' | inv(s) && NextTickets(s, s') ensures inv(s') {
      var t: nat, c: Choice :| t < |s.threads| && s' == Step(s, t, c);
      StepKeepsTickets(s, t, c);
    }
    Runs.Invariance(Init, NextTickets, inv, run, i);
  }

  lemma GateAlongRun(run: seq<State>, i: nat)
    requires GateRun(run) && i < |run|
    ensures GateInv(run[i])
  {
    forall s | Init(s) ensures GateInv(s) {
      InitInv(s);
    }
    forall s, s' | GateInv(s) && NextGate(s, s') ensures GateInv(s') {
      var t: nat, c: Choice :| t < |s.threads| && s' == Step(s, t, c);
      StepKeepsGate(s, t, c);
    }
    Runs.Invariance(Init, NextGate, GateInv, run, i);
  }

  lemma InvAlongRun(run: seq<State>, i: nat)
    requires Run(run) && i < |run|
    ensures Inv(run[i])
  {
    forall s | Init(s) ensures Inv(s) {
      InitInv(s);
    }
    forall s, s' | Inv(s) && Next(s, s') ensures Inv(s') {
      var t: nat, c: Choice :| t < |s.threads| && s' == Step(s, t, c);
      StepKeepsInv(s, t, c);
    }
    Runs.Invariance(Init, Next, Inv, run, i);
  }

  // ------ theorems ----------------------------------------------------------------------------

  /** The word counts the registered readers twice and the writer once, however many writers ask. */
  lemma LockWordCounts(run: seq<State>, i: nat)
    requires WordRun(run) && i < |run| && FewReaders(run[i])
    ensures run[i].lock == 2 * |RP.Registered(WordView(run[i]))| + |RP.Writers(WordView(run[i]))|
  {
    WordAlongRun(run, i);
  }

  /** A writer inside excludes everybody else inside, also between the two steps of EndWrite. */
  lemma MutualExclusion(run: seq<State>, i: nat, u: nat, t: nat)
    requires WordRun(run) && i < |run| && u < |run[i].threads| && t < |run[i].threads| && t != u
    requires run[i].threads[u].pc.Writing?
    ensures !run[i].threads[t].pc.Reading? && !run[i].threads[t].pc.Writing?
  {
    WordAlongRun(run, i);
    RP.WriterIsAlone(WordView(run[i]), u, t);
  }

  /** The writer has asked and its EndWrite has not finished. */
  predicate Asking(th: Thread) {
    th.pc.WriteGate? || th.pc.WriteCas? || th.pc.Writing? || th.pc.EndWriteSecond?
  }

  /** One writer at a time is past the ticket gate, and every other writer that has asked holds a later ticket. */
  lemma WritersInTicketOrder(run: seq<State>, i: nat, u: nat, v: nat)
    requires TicketRun(run) && i < |run| && u < |run[i].threads| && v < |run[i].threads| && u != v
    requires Asking(run[i].threads[u]) && !run[i].threads[u].pc.WriteGate? && Asking(run[i].threads[v])
    ensures run[i].threads[v].pc.WriteGate?
    ensures run[i].threads[u].turn < run[i].threads[v].turn
  {
    TicketsAlongRun(run, i);
    assert TL.TicketOk(TicketView(run[i]), u) && TL.TicketOk(TicketView(run[i]), v);
  }

  /** Every writer that had asked when a reader past the gate began its last gate iteration is done. */
  predicate GateHolds(s: State) {
    forall t :: 0 <= t < |s.threads| && PastGate(s.threads[t].pc) ==> s.threads[t].asked <= s.done
  }

  /**
    * Writer preference: a reader past the gate began its last gate iteration before any writer still
    * asking had asked, whichever of the two variables it loaded first.
    */
  lemma WritersGoFirst(run: seq<State>, i: nat, t: nat, u: nat)
    requires GateRun(run) && i < |run| && t < |run[i].threads| && u < |run[i].threads|
    requires PastGate(run[i].threads[t].pc) && Asking(run[i].threads[u])
    ensures GateHolds(run[i]) && run[i].threads[t].asked <= run[i].threads[u].turn
  {
    GateAlongRun(run, i);
    assert TL.TicketOk(TicketView(run[i]), u);
    assert GateOk(run[i], run[i].threads[t]);
  }

  /** Thread t is in an iteration of its gate, after the first load, or past it. */
  predicate InIteration(s: State, t: nat) {
    t < |s.threads| && (s.threads[t].pc.GateSecond? || PastGate(s.threads[t].pc))
  }

  /** It is one and the same iteration. */
  predicate SameIteration(s: State, t: nat, asked: nat) {
    InIteration(s, t) && s.threads[t].asked == asked
  }

  lemma IterationStarts(s: State, s': State, t: nat)
    requires AnyNext(s, s') && t < |s.threads| && s.threads[t].pc.Gate? && InIteration(s', t)
    ensures SameIteration(s', t, |s.log|)
  {
  }

  lemma IterationGoesOn(s: State, s': State, t: nat, asked: nat)
    requires AnyNext(s, s') && SameIteration(s, t, asked) && InIteration(s', t)
    ensures SameIteration(s', t, asked)
  {
  }

  /** A reader whose gate iteration starts after a writer asked passes the gate only after that writer's EndWrite. */
  lemma GateWaitsForEarlierWriters(run: seq<State>, i: nat, j: nat, t: nat, u: nat)
    requires GateRun(run) && i < j < |run| && t < |run[i].threads| && u < |run[i].threads|
    requires run[i].threads[t].pc.Gate? && Asking(run[i].threads[u])
    requires forall k :: i < k <= j ==> InIteration(run[k], t)
    requires InIteration(run[j], t) && PastGate(run[j].threads[t].pc)
    ensures run[i].threads[u].turn < run[j].done
    ensures forall v :: 0 <= v < |run[j].threads| && Asking(run[j].threads[v]) ==>
      run[j].threads[v].turn > run[i].threads[u].turn
  {
    var asked := |run[i].log|;
    GateAlongRun(run, i);
    assert TL.TicketOk(TicketView(run[i]), u);
    Runs.StepOf(Init, NextGate, run, i);
    assert InIteration(run[i + 1], t);
    IterationStarts(run[i], run[i + 1], t);
    forall k | i + 1 <= k < j && SameIteration(run[k], t, asked) ensures SameIteration(run[k + 1], t, asked) {
      Runs.StepOf(Init, NextGate, run, k);
      assert InIteration(run[k + 1], t);
      IterationGoesOn(run[k], run[k + 1], t, asked);
    }
    Runs.Persistence(run, s => SameIteration(s, t, asked), i + 1, j);
    GateAlongRun(run, j);
    assert GateOk(run[j], run[j].threads[t]);
    forall v | 0 <= v < |run[j].threads| && Asking(run[j].threads[v])
      ensures run[j].threads[v].turn > run[i].threads[u].turn
    {
      assert TL.TicketOk(TicketView(run[j]), v);
    }
  }

  /** With fewer than 2^32 writers asking, the two words compared by the gate are equal exactly if none asks. */
  lemma GateTest(run: seq<State>, i: nat)
    requires TicketRun(run) && i < |run| && WritersWithin(run[i], WORD_SPAN - 1)
    ensures run[i].writeRequests == run[i].writeCompletions
       <==> forall u :: 0 <= u < |run[i].threads| ==> !Asking(run[i].threads[u])
  {
    TicketsAlongRun(run, i);
    var s := run[i];
    SameResidue(|s.log|, s.done);
    if s.done < |s.log| {
      assert TL.HeldAt(TicketView(s), s.log[s.done], s.done);
      assert Asking(s.threads[s.log[s.done]]);
    } else {
      NobodyAsks(s);
    }
  }

  lemma NobodyAsks(s: State)
    requires TL.Inv(TicketView(s)) && s.done == |s.log|
    ensures s.writeRequests == s.writeCompletions
    ensures forall u :: 0 <= u < |s.threads| ==> !Asking(s.threads[u])
  {
    forall u | 0 <= u < |s.threads| ensures !Asking(s.threads[u]) {
      assert TL.TicketOk(TicketView(s), u);
    }
  }

  // ------ progress ----------------------------------------------------------------------------

  /** The comparison that a reader makes with its second load. */
  predicate SecondLoadPasses(s: State, th: Thread) {
    th.loaded == if th.requestsFirst then s.writeCompletions else s.writeRequests
  }

  /**
    * Thread t is in an operation or inside, and is not held up: if it is at a test, the test passes. A
    * reader about to make the first load of its gate is not held up if the two words are equal now.
    */
  predicate Advances(s: State, t: nat) {
    && t < |s.threads| && !s.threads[t].pc.Idle?
    && (s.threads[t].pc.Gate? ==> s.writeRequests == s.writeCompletions)
    && (s.threads[t].pc.GateSecond? ==> SecondLoadPasses(s, s.threads[t]))
    && (s.threads[t].pc.ReadSpin? ==> And(s.lock, RP.WRITER_ACTIVE_FLAG) == 0)
    && (s.threads[t].pc.WriteGate? ==> s.writeCompletions == s.threads[t].ticket)
    && (s.threads[t].pc.WriteCas? ==> s.lock == 0)
  }

  /** The statements that a thread still has to execute before it is idle again, with every test passed at once. */
  function Remaining(pc: Pc): nat {
    match pc
    case Idle => 0
    case Gate => 5
    case GateSecond => 4
    case ReadAdd => 3
    case ReadSpin => 2
    case Reading => 1
    case WriteTake => 5
    case WriteGate => 4
    case WriteCas => 3
    case Writing => 2
    case EndWriteSecond => 1
  }

  /** A thread that is not held up executes one of its remaining statements, and no other thread moves. */
  lemma AdvanceMoves(s: State, t: nat, c: Choice)
    requires Advances(s, t)
    ensures var s' := Step(s, t, c);
      && |s'.threads| == |s.threads| && Remaining(s'.threads[t].pc) == Remaining(s.threads[t].pc) - 1
      && forall u :: 0 <= u < |s.threads| && u != t ==> s'.threads[u] == s.threads[u]
  {
  }

  /** A failed test changes nothing, but for the gate of a reader, which goes back to its first load. */
  lemma FailedTest(s: State, t: nat, c: Choice)
    requires t < |s.threads| && !s.threads[t].pc.Idle? && !Advances(s, t)
    ensures s.threads[t].pc.GateSecond? ==> Step(s, t, c) == Moved(s, t, s.threads[t].(pc := Gate))
    ensures !s.threads[t].pc.GateSecond? && !s.threads[t].pc.Gate? ==> Step(s, t, c) == s
  {
  }

  /**
    * With no writer asking, the two loads of the gate lead past it, whichever variable is loaded first in
    * either of them.
    */
  lemma OpenGatePasses(run: seq<State>, i: nat, t: nat, first: Choice, second: Choice)
    requires TicketRun(run) && i < |run| && t < |run[i].threads| && run[i].threads[t].pc.Gate?
    requires forall u :: 0 <= u < |run[i].threads| ==> !Asking(run[i].threads[u])
    ensures var s := run[i];
      && Step(s, t, first).threads[t].pc.GateSecond?
      && Step(Step(s, t, first), t, second).threads[t].pc.ReadAdd?
  {
    TicketsAlongRun(run, i);
    if run[i].done < |run[i].log| {
      SomeoneAsks(run[i]);
    }
  }

  lemma SomeoneAsks(s: State)
    requires TL.Inv(TicketView(s)) && s.done < |s.log|
    ensures exists u :: 0 <= u < |s.threads| && Asking(s.threads[u])
  {
    assert TL.HeldAt(TicketView(s), s.log[s.done], s.done);
    assert Asking(s.threads[s.log[s.done]]);
  }

  /**
    * The second load passes exactly if the count of writers behind the word loaded first and the one behind
    * the word loaded now agree modulo 2^32.
    */
  lemma SecondLoadExact(s: State, t: nat, c: Choice)
    requires GateInv(s) && t < |s.threads| && s.threads[t].pc.GateSecond?
    ensures var th := s.threads[t]; var now := if th.requestsFirst then s.done else |s.log|;
      && Step(s, t, c).threads[t].pc == (if (th.count - now) % WORD_SPAN == 0 then ReadAdd else Gate)
      && Step(s, t, c) == Moved(s, t, Step(s, t, c).threads[t])
  {
    var th := s.threads[t];
    assert GateOk(s, th);
    SameResidues(th.count, if th.requestsFirst then s.done else |s.log|);
  }

  /** A passing word test lets some thread at the lock word go on. */
  lemma SomeoneAtTheWord(s: State, t: nat) returns (r: nat)
    requires RP.Inv(WordView(s)) && RP.Bounded(WordView(s)) && t < |s.threads| && !WordPc(s.threads[t].pc).Idle?
    ensures Advances(s, r)
  {
    r := RP.NoDeadlock(WordView(s), t);
  }

  /**
    * While any thread is in an operation or inside, some thread is not held up; or it is a reader whose
    * first load has gone stale, and then its failing comparison takes it to where it is not held up.
    */
  lemma SomeThreadAdvances(run: seq<State>, i: nat, t: nat, c: Choice) returns (r: nat)
    requires Run(run) && i < |run| && Bounded(run[i]) && t < |run[i].threads| && !run[i].threads[t].pc.Idle?
    ensures r < |run[i].threads|
    ensures Advances(run[i], r) || (run[i].threads[r].pc.GateSecond? && Advances(Step(run[i], r, c), r))
  {
    InvAlongRun(run, i);
    var s := run[i];
    if s.done < |s.log| {
      r := TL.OldestEnters(TicketView(s));
      if !WordPc(s.threads[r].pc).Idle? {
        r := SomeoneAtTheWord(s, r);
      }
    } else if !WordPc(s.threads[t].pc).Idle? {
      r := SomeoneAtTheWord(s, t);
    } else {
      NobodyAsks(s);
      r := t;
    }
  }

  // ------ the object --------------------------------------------------------------------------

  class ReaderWriterLockWP {
    var lock: Word                  // volatile LONG
    var writeRequests: Word         // volatile LONG
    var writeCompletions: Word      // volatile LONG
    ghost var threads: seq<Thread>
    ghost var log: seq<nat>
    ghost var done: nat

    ghost function Snapshot(): State
      reads this
    {
      State(lock, writeRequests, writeCompletions, threads, log, done)
    }

    ghost predicate At(t: nat, pc: Pc)
      reads this
    {
      Inv(Snapshot()) && Bounded(Snapshot()) && t < |threads| && threads[t].pc == pc
    }

    constructor (n: nat)
      ensures Inv(Snapshot()) && Init(Snapshot()) && |threads| == n
    {
      lock, writeRequests, writeCompletions, log, done := 0, 0, 0, [], 0;
      threads := seq(n, _ => Thread(Idle, 0, 0, 0, true, 0, 0));
      new;
      InitInv(Snapshot());
    }

    /** The ghost part of a statement: positions and history. */
    ghost method Record(next: State)
      modifies this`threads, this`log, this`done
      ensures threads == next.threads && log == next.log && done == next.done
    {
      threads, log, done := next.threads, next.log, next.done;
    }

    /** A call: no word is touched. */
    ghost method Proceed(t: nat, call: RP.Call)
      requires At(t, Idle)
      modifies this`threads, this`log, this`done
      ensures Snapshot() == old(Step(Snapshot(), t, Choice(call, true))) && Inv(Snapshot())
    {
      StepKeepsInv(Snapshot(), t, Choice(call, true));
      Record(Step(Snapshot(), t, Choice(call, true)));
    }

    /** One test of the flag by a registered reader. */
    method PollFlag(t: nat) returns (entered: bool)
      requires At(t, ReadSpin)
      modifies this`threads, this`log, this`done
      ensures Snapshot() == old(Step(Snapshot(), t, Choice(RP.Read, true))) && Inv(Snapshot())
      ensures entered <==> old(RP.Writers(WordView(Snapshot()))) == {}
      ensures entered <==> threads[t].pc.Reading?
    {
      RP.TestsAreExact(WordView(Snapshot()));
      StepKeepsInv(Snapshot(), t, Choice(RP.Read, true));
      entered := And(lock, RP.WRITER_ACTIVE_FLAG) == 0;
      Record(Step(Snapshot(), t, Choice(RP.Read, true)));
    }

    /** One test of write_completions != previous_writers: it passes exactly when all earlier tickets are done. */
    method PollGate(t: nat, previous: Word) returns (passed: bool)
      requires At(t, WriteGate) && threads[t].ticket == previous
      modifies this`threads, this`log, this`done
      ensures Snapshot() == old(Step(Snapshot(), t, Choice(RP.Write, true))) && Inv(Snapshot())
      ensures passed <==> old(threads[t].turn) == done
      ensures passed <==> threads[t].pc.WriteCas?
    {
      TL.TestIsExact(TicketView(Snapshot()), t);
      StepKeepsInv(Snapshot(), t, Choice(RP.Write, true));
      passed := writeCompletions == previous;
      Record(Step(Snapshot(), t, Choice(RP.Write, true)));
    }

    /** The first of the two loads in write_requests != write_completions. */
    method LoadFirst(t: nat, requestsFirst: bool) returns (loaded: Word)
      requires At(t, Gate)
      modifies this`threads, this`log, this`done
      ensures Snapshot() == old(Step(Snapshot(), t, Choice(RP.Read, requestsFirst))) && Inv(Snapshot())
      ensures loaded == threads[t].loaded == if requestsFirst then writeRequests else writeCompletions
      ensures threads[t].pc.GateSecond? && threads[t].requestsFirst == requestsFirst
    {
      StepKeepsInv(Snapshot(), t, Choice(RP.Read, requestsFirst));
      loaded := if requestsFirst then writeRequests else writeCompletions;
      Record(Step(Snapshot(), t, Choice(RP.Read, requestsFirst)));
    }

    /**
      * The second load and the comparison. It passes exactly if the counts of writers behind the two loads
      * agree modulo 2^32, so it does if they are the same; and then every writer that had asked at the first
      * load is done.
      */
    method LoadSecond(t: nat, requestsFirst: bool, loaded: Word) returns (passed: bool)
      requires At(t, GateSecond) && threads[t].loaded == loaded && threads[t].requestsFirst == requestsFirst
      modifies this`threads, this`log, this`done
      ensures Snapshot() == old(Step(Snapshot(), t, Choice(RP.Read, requestsFirst))) && Inv(Snapshot())
      ensures passed <==> (old(threads[t].count) - (if requestsFirst then done else |log|)) % WORD_SPAN == 0
      ensures passed <==> threads[t].pc.ReadAdd?
      ensures !passed <==> threads[t].pc.Gate?
      ensures passed ==> threads[t].asked <= done
    {
      StepKeepsInv(Snapshot(), t, Choice(RP.Read, requestsFirst));
      SecondLoadExact(Snapshot(), t, Choice(RP.Read, requestsFirst));
      passed := loaded == if requestsFirst then writeCompletions else writeRequests;
      Record(Step(Snapshot(), t, Choice(RP.Read, requestsFirst)));
      assert GateOk(Snapshot(), threads[t]);
    }

    /** A reader past its gate registers; a reader that is done takes its registration back. */
    method AddReader(t: nat, enter: bool)
      requires At(t, if enter then ReadAdd else Reading)
      modifies this`lock, this`threads, this`log, this`done
      ensures Snapshot() == old(Step(Snapshot(), t, Choice(RP.Read, true))) && Inv(Snapshot())
    {
      StepKeepsInv(Snapshot(), t, Choice(RP.Read, true));
      ghost var next := Step(Snapshot(), t, Choice(RP.Read, true));
      lock := Add(lock, if enter then RP.READER_COUNT_INC else WORD_SPAN - RP.READER_COUNT_INC);
      Record(next);
    }

    /** A writer asks: its ticket is the number of requests before it. */
    method TakeTicket(t: nat) returns (previous: Word)
      requires At(t, WriteTake)
      modifies this`writeRequests, this`threads, this`log, this`done
      ensures Snapshot() == old(Step(Snapshot(), t, Choice(RP.Write, true))) && Inv(Snapshot())
      ensures previous == threads[t].ticket && threads[t].turn == |old(log)|
    {
      StepKeepsInv(Snapshot(), t, Choice(RP.Write, true));
      ghost var next := Step(Snapshot(), t, Choice(RP.Write, true));
      writeRequests := Add(writeRequests, 1);
      previous := Add(writeRequests, WORD_SPAN - 1);
      Record(next);
    }

    /** One compare-and-swap on lock by the writer past its gate. */
    method TryWrite(t: nat) returns (entered: bool)
      requires At(t, WriteCas)
      modifies this`lock, this`threads, this`log, this`done
      ensures Snapshot() == old(Step(Snapshot(), t, Choice(RP.Write, true))) && Inv(Snapshot())
      ensures entered <==> threads[t].pc.Writing?
      ensures entered <==> old(RP.Registered(WordView(Snapshot())) == {} && RP.Writers(WordView(Snapshot())) == {})
    {
      RP.TestsAreExact(WordView(Snapshot()));
      StepKeepsInv(Snapshot(), t, Choice(RP.Write, true));
      ghost var next := Step(Snapshot(), t, Choice(RP.Write, true));
      entered := lock == 0;
      lock := if entered then RP.WRITER_ACTIVE_FLAG else lock;
      Record(next);
    }

    /** The two interlocked operations of EndWrite, one per call. */
    method EndWrite(t: nat, first: bool)
      requires At(t, if first then Writing else EndWriteSecond)
      modifies this
      ensures Snapshot() == old(Step(Snapshot(), t, Choice(RP.Write, true))) && Inv(Snapshot())
    {
      StepKeepsInv(Snapshot(), t, Choice(RP.Write, true));
      ghost var next := Step(Snapshot(), t, Choice(RP.Write, true));
      if first {
        lock := Add(lock, WORD_SPAN - RP.WRITER_ACTIVE_FLAG);
      } else {
        writeCompletions := Add(writeCompletions, 1);
      }
      Record(next);
    }
  }
}
