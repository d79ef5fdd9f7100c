/**
  * CReaderWriterLock_NS_RP (critsect.h:809-874): a reader-writer lock in which readers go first.
  * One word holds twice the number of registered readers plus the writer flag; every interlocked
  * operation and every load of the word is one step.
  */
module ReaderPreferenceLock {
  import opened Words
  import Runs

  const WRITER_ACTIVE_FLAG: Word := 0x1
  const READER_COUNT_INC: Word := 0x2

  datatype Pc =
    | Idle
    | ReadAdd     // ReadLock called; about to InterlockedExchangeAdd(&lock, READER_COUNT_INC)
    | ReadSpin    // registered; about to load lock and test the flag
    | Reading     // holds the read lock; EndRead subtracts READER_COUNT_INC
    | WriteCas    // WriteLock called; about to InterlockedCompareExchange(&lock, WRITER_ACTIVE_FLAG, 0)
    | Writing     // holds the write lock; EndWrite subtracts WRITER_ACTIVE_FLAG

  datatype Call = Read | Write

  datatype State = State(lock: Word, threads: seq<Pc>)

  ghost predicate Init(s: State) {
    s.lock == 0 && forall t :: 0 <= t < |s.threads| ==> s.threads[t].Idle?
  }

  function Moved(s: State, t: nat, lock: Word, pc: Pc): State
    requires t < |s.threads|
  {
    State(lock, s.threads[t := pc])
  }

  function Step(s: State, t: nat, call: Call): State
    requires t < |s.threads|
  {
    match s.threads[t]
    case Idle => Moved(s, t, s.lock, if call.Read? then ReadAdd else WriteCas)
    case ReadAdd => Moved(s, t, Add(s.lock, READER_COUNT_INC), ReadSpin)
    case ReadSpin => if And(s.lock, WRITER_ACTIVE_FLAG) != 0 then s else Moved(s, t, s.lock, Reading)
    case Reading => Moved(s, t, Add(s.lock, WORD_SPAN - READER_COUNT_INC), Idle)
    case WriteCas => if s.lock != 0 then s else Moved(s, t, WRITER_ACTIVE_FLAG, Writing)
    case Writing => Moved(s, t, Add(s.lock, WORD_SPAN - WRITER_ACTIVE_FLAG), Idle)
  }

  ghost function Registered(s: State): set<nat> {
    set t | 0 <= t < |s.threads| && (s.threads[t].ReadSpin? || s.threads[t].Reading?)
  }

  ghost function Writers(s: State): set<nat> {
    set t | 0 <= t < |s.threads| && s.threads[t].Writing?
  }

  /** Fewer than 2^31 readers are registered, so the word does not wrap. */
  ghost predicate Bounded(s: State) {
    |Registered(s)| < 0x8000_0000
  }

  ghost predicate Next(s: State, s': State) {
    Bounded(s) && exists t: nat, call: Call :: t < |s.threads| && s' == Step(s, t, call)
  }

  function Encoded(readers: nat, writers: nat): Word {
    (2 * readers + writers) % WORD_SPAN
  }

  lemma ReaderAdded(readers: nat, writers: nat)
    ensures Add(Encoded(readers, writers), READER_COUNT_INC) == Encoded(readers + 1, writers)
  {
    AddResidues(2 * readers + writers, READER_COUNT_INC);
  }

  lemma ReaderRemoved(readers: nat, writers: nat)
    ensures Add(Encoded(readers + 1, writers), WORD_SPAN - READER_COUNT_INC) == Encoded(readers, writers)
  {
    AddResidues(2 * readers + 2 + writers, WORD_SPAN - READER_COUNT_INC);
    WholeTurn(2 * readers + writers);
  }

  lemma WriterRemoved(readers: nat, writers: nat)
    ensures Add(Encoded(readers, writers + 1), WORD_SPAN - WRITER_ACTIVE_FLAG) == Encoded(readers, writers)
  {
    AddResidues(2 * readers + writers + 1, WORD_SPAN - WRITER_ACTIVE_FLAG);
    WholeTurn(2 * readers + writers);
  }

  ghost predicate Inv(s: State) {
    && s.lock == Encoded(|Registered(s)|, |Writers(s)|)
    && |Writers(s)| <= 1
    && (forall t :: 0 <= t < |s.threads| && s.threads[t].Reading? ==> Writers(s) == {})
  }

  /** What the two tests of the word mean. */
  lemma TestsAreExact(s: State)
    requires Inv(s) && Bounded(s)
    ensures And(s.lock, WRITER_ACTIVE_FLAG) != 0 <==> Writers(s) != {}
    ensures s.lock == 0 <==> Registered(s) == {} && Writers(s) == {}
  {
    AndOne(s.lock, WRITER_ACTIVE_FLAG);
  }

  lemma RegisterKeepsInv(s: State, t: nat, call: Call)
    requires Inv(s) && t < |s.threads| && s.threads[t].ReadAdd?
    ensures Inv(Step(s, t, call))
  {
    var s' := Step(s, t, call);
    assert Writers(s') == Writers(s);
    assert Registered(s') == Registered(s) + {t};
    ReaderAdded(|Registered(s)|, |Writers(s)|);
  }

  lemma EndReadKeepsInv(s: State, t: nat, call: Call)
    requires Inv(s) && t < |s.threads| && s.threads[t].Reading?
    ensures Inv(Step(s, t, call))
  {
    var s' := Step(s, t, call);
    assert Writers(s') == Writers(s);
    assert t in Registered(s) && Registered(s') == Registered(s) - {t};
    ReaderRemoved(|Registered(s)| - 1, |Writers(s)|);
  }

  lemma AcquireKeepsInv(s: State, t: nat, call: Call)
    requires Inv(s) && Bounded(s) && t < |s.threads| && s.threads[t].WriteCas? && s.lock == 0
    ensures Inv(Step(s, t, call))
  {
    var s' := Step(s, t, call);
    TestsAreExact(s);
    assert Registered(s') == Registered(s) && Writers(s') == Writers(s) + {t};
    forall u | 0 <= u < |s.threads| ensures !s.threads[u].Reading? {
      assert u !in Registered(s);
    }
  }

  lemma EndWriteKeepsInv(s: State, t: nat, call: Call)
    requires Inv(s) && t < |s.threads| && s.threads[t].Writing?
    ensures Inv(Step(s, t, call))
  {
    var s' := Step(s, t, call);
    assert Registered(s') == Registered(s);
    assert t in Writers(s) && Writers(s') == Writers(s) - {t};
    WriterRemoved(|Registered(s)|, |Writers(s)| - 1);
  }

  lemma StepKeepsInv(s: State, t: nat, call: Call)
    requires Inv(s) && Bounded(s) && t < |s.threads|
    ensures Inv(Step(s, t, call))
  {
    match s.threads[t]
    case ReadAdd => RegisterKeepsInv(s, t, call);
    case Reading => EndReadKeepsInv(s, t, call);
    case Writing => EndWriteKeepsInv(s, t, call);
    case WriteCas =>
      if s.lock == 0 {
        AcquireKeepsInv(s, t, call);
      }
    case _ =>
      TestsAreExact(s);
      var s' := Step(s, t, call);
      assert Registered(s') == Registered(s) && Writers(s') == Writers(s);
  }

  lemma InitInv(s: State)
    requires Init(s)
    ensures Inv(s)
  {
    assert Registered(s) == {} && Writers(s) == {};
  }

  // ------ theorems ----------------------------------------------------------------------------

  ghost predicate Run(run: seq<State>) {
    Runs.IsRun(Init, Next, run)
  }

  lemma InvAlongRun(run: seq<State>, i: nat)
    requires Run(run) && i < |run|
    ensures Inv(run[i])
  {
    forall s | Init(s) ensures Inv(s) {
      InitInv(s);
    }
    forall s, s' | Inv(s) && Next(s, s') ensures Inv(s') {
      var t: nat, call: Call :| t < |s.threads| && s' == Step(s, t, call);
      StepKeepsInv(s, t, call);
    }
    Runs.Invariance(Init, Next, Inv, run, i);
  }

  /** A thread inside as writer excludes every other thread inside. */
  lemma MutualExclusion(run: seq<State>, i: nat, u: nat, t: nat)
    requires Run(run) && i < |run| && u < |run[i].threads| && t < |run[i].threads| && t != u
    requires run[i].threads[u].Writing?
    ensures !run[i].threads[t].Reading? && !run[i].threads[t].Writing?
  {
    InvAlongRun(run, i);
    WriterIsAlone(run[i], u, t);
  }

  lemma SoleWriter(s: State, w: nat)
    requires Inv(s) && w in Writers(s)
    ensures Writers(s) == {w}
  {
    assert |Writers(s) - {w}| == |Writers(s)| - 1;
  }

  lemma WriterIsAlone(s: State, u: nat, t: nat)
    requires Inv(s) && u < |s.threads| && t < |s.threads| && t != u && s.threads[u].Writing?
    ensures !s.threads[t].Reading? && !s.threads[t].Writing?
  {
    assert u in Writers(s);
    SoleWriter(s, u);
    assert t !in Writers(s);
  }

  lemma NoNewWriterOnce(s: State, s': State, t: nat)
    requires Inv(s) && Next(s, s') && t in Registered(s)
    ensures Writers(s') <= Writers(s)
  {
    TestsAreExact(s);
  }

  /** From a reader's registration to its EndRead no writer acquires the lock. */
  lemma NoNewWriterWhileRegistered(run: seq<State>, i: nat, j: nat, t: nat)
    requires Run(run) && i <= j < |run|
    requires forall k :: i <= k <= j ==> t in Registered(run[k])
    ensures Writers(run[j]) <= Writers(run[i])
  {
    forall k | i <= k < j && Writers(run[k]) <= Writers(run[i]) ensures Writers(run[k + 1]) <= Writers(run[i]) {
      InvAlongRun(run, k);
      Runs.StepOf(Init, Next, run, k);
      NoNewWriterOnce(run[k], run[k + 1], t);
    }
    Runs.Persistence(run, s => Writers(s) <= Writers(run[i]), i, j);
  }

  /** So a registered reader waits for the one writer already active, and for nobody else. */
  lemma ReaderWaitsForOneWriter(run: seq<State>, i: nat, j: nat, t: nat, w: nat)
    requires Run(run) && i <= j < |run| && Bounded(run[j])
    requires forall k :: i <= k <= j ==> t in Registered(run[k])
    requires w in Writers(run[i]) && w !in Writers(run[j])
    ensures And(run[j].lock, WRITER_ACTIVE_FLAG) == 0
  {
    NoNewWriterWhileRegistered(run, i, j, t);
    InvAlongRun(run, i);
    InvAlongRun(run, j);
    SoleWriter(run[i], w);
    TestsAreExact(run[j]);
  }

  // ------ progress ----------------------------------------------------------------------------

  /** Thread t is in an operation or inside, and its next statement is more than a failed test. */
  predicate Advances(s: State, t: nat) {
    && t < |s.threads| && !s.threads[t].Idle?
    && (s.threads[t].ReadSpin? ==> And(s.lock, WRITER_ACTIVE_FLAG) == 0)
    && (s.threads[t].WriteCas? ==> s.lock == 0)
  }

  /** The statements that a thread still has to execute before it is idle again. */
  function Remaining(pc: Pc): nat {
    match pc
    case Idle => 0
    case ReadAdd => 3
    case ReadSpin => 2
    case Reading => 1
    case WriteCas => 2
    case Writing => 1
  }

  /** A thread that advances executes one of its remaining statements, and no other thread moves. */
  lemma AdvanceMoves(s: State, t: nat, call: Call)
    requires Advances(s, t)
    ensures var s' := Step(s, t, call);
      && |s'.threads| == |s.threads| && Remaining(s'.threads[t]) == Remaining(s.threads[t]) - 1
      && forall u :: 0 <= u < |s.threads| && u != t ==> s'.threads[u] == s.threads[u]
  {
  }

  /** A failed test changes nothing. */
  lemma FailedTestStutters(s: State, t: nat, call: Call)
    requires t < |s.threads| && !s.threads[t].Idle? && !Advances(s, t)
    ensures Step(s, t, call) == s
  {
  }

  /** While any thread is in an operation or inside, some thread advances. */
  lemma NoDeadlock(s: State, t: nat) returns (r: nat)
    requires Inv(s) && Bounded(s) && t < |s.threads| && !s.threads[t].Idle?
    ensures Advances(s, r)
  {
    TestsAreExact(s);
    if w :| w in Writers(s) {
      r := w;
    } else if u :| u in Registered(s) {
      r := u;
    } else {
      r := t;
    }
  }

  /** The same along every run. */
  lemma SomeThreadAdvances(run: seq<State>, i: nat, t: nat) returns (r: nat)
    requires Run(run) && i < |run| && Bounded(run[i]) && t < |run[i].threads| && !run[i].threads[t].Idle?
    ensures Advances(run[i], r)
  {
    InvAlongRun(run, i);
    r := NoDeadlock(run[i], t);
  }

  // ------ the object --------------------------------------------------------------------------

  class ReaderWriterLockRP {
    var lock: Word                  // volatile LONG
    ghost var threads: seq<Pc>

    ghost function Snapshot(): State
      reads this
    {
      State(lock, threads)
    }

    ghost predicate Ready(t: nat)
      reads this
    {
      Inv(Snapshot()) && Bounded(Snapshot()) && t < |threads|
    }

    constructor (n: nat)
      ensures Inv(Snapshot()) && Init(Snapshot()) && |threads| == n
    {
      lock, threads := 0, seq(n, _ => Idle);
      new;
      InitInv(Snapshot());
    }

    /** A call: the word is not touched. */
    ghost method Proceed(t: nat, call: Call)
      requires Ready(t) && threads[t].Idle?
      modifies this`threads
      ensures Snapshot() == old(Step(Snapshot(), t, call)) && Inv(Snapshot())
    {
      StepKeepsInv(Snapshot(), t, call);
      threads := Step(Snapshot(), t, call).threads;
    }

    /** A reader registers: the word grows by one reader in one step. */
    method Register(t: nat)
      requires Ready(t) && threads[t].ReadAdd?
      modifies this
      ensures Snapshot() == old(Step(Snapshot(), t, Read)) && Inv(Snapshot())
    {
      StepKeepsInv(Snapshot(), t, Read);
      lock := Add(lock, READER_COUNT_INC);
      threads := threads[t := ReadSpin];
    }

    /** One test of the flag: it lets the reader in exactly when no writer is inside. */
    method PollRead(t: nat) returns (entered: bool)
      requires Ready(t) && threads[t].ReadSpin?
      modifies this`threads
      ensures Snapshot() == old(Step(Snapshot(), t, Read)) && Inv(Snapshot())
      ensures entered <==> old(Writers(Snapshot())) == {}
      ensures entered <==> threads[t].Reading?
    {
      TestsAreExact(Snapshot());
      StepKeepsInv(Snapshot(), t, Read);
      entered := And(lock, WRITER_ACTIVE_FLAG) == 0;
      threads := if entered then threads[t := Reading] else threads;
    }

    /** One compare-and-swap: it lets the writer in exactly when nobody is registered or inside. */
    method TryWrite(t: nat) returns (entered: bool)
      requires Ready(t) && threads[t].WriteCas?
      modifies this
      ensures Snapshot() == old(Step(Snapshot(), t, Write)) && Inv(Snapshot())
      ensures entered <==> old(Registered(Snapshot())) == {} && old(Writers(Snapshot())) == {}
      ensures entered <==> threads[t].Writing?
    {
      TestsAreExact(Snapshot());
      StepKeepsInv(Snapshot(), t, Write);
      entered := lock == 0;
      if entered {
        lock := WRITER_ACTIVE_FLAG;
        threads := threads[t := Writing];
      }
    }

    /** EndRead and EndWrite: one interlocked subtraction. */
    method End(t: nat, reader: bool)
      requires Ready(t) && (if reader then threads[t].Reading? else threads[t].Writing?)
      modifies this
      ensures Snapshot() == old(Step(Snapshot(), t, Read)) && Inv(Snapshot())
    {
      StepKeepsInv(Snapshot(), t, Read);
      lock := Add(lock, WORD_SPAN - (if reader then READER_COUNT_INC else WRITER_ACTIVE_FLAG));
      threads := threads[t := Idle];
    }
  }
}
