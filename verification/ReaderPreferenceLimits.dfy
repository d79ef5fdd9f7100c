/**
  * How many readers CReaderWriterLock_NS_RP can have registered: with a limit on them, every run keeps
  * a writer inside alone if and only if the limit is below 2^31. With 2^31 readers the word is 0 again.
  */
module ReaderPreferenceLimits {
  import opened Words
  import opened L = ReaderPreferenceLock
  import Runs
  import Sets

  ghost predicate AnyNext(s: State, s': State) {
    exists t: nat, call: Call :: t < |s.threads| && s' == Step(s, t, call)
  }

  ghost predicate RunWithin(run: seq<State>, limit: nat) {
    && Runs.IsRun(Init, AnyNext, run)
    && forall i: nat :: i < |run| ==> |Registered(run[i])| <= limit
  }

  ghost predicate Reached(s: State, limit: nat) {
    exists run :: RunWithin(run, limit) && run[|run| - 1] == s
  }

  /** No thread inside beside a writer. */
  predicate Exclusive(s: State) {
    forall u: nat, t: nat :: u < |s.threads| && t < |s.threads| && t != u && s.threads[u].Writing? ==>
      !s.threads[t].Reading? && !s.threads[t].Writing?
  }

  lemma SafeLimitExcludes(s: State, limit: nat)
    requires Reached(s, limit) && limit < 0x8000_0000
    ensures Exclusive(s)
  {
    var run :| RunWithin(run, limit) && run[|run| - 1] == s;
    forall i | 0 <= i < |run| - 1 ensures Next(run[i], run[i + 1]) {
      Runs.StepOf(Init, AnyNext, run, i);
    }
    assert Run(run);
    InvAlongRun(run, |run| - 1);
    forall u: nat, t: nat | u < |s.threads| && t < |s.threads| && t != u && s.threads[u].Writing?
      ensures !s.threads[t].Reading? && !s.threads[t].Writing?
    {
      WriterIsAlone(s, u, t);
    }
  }

  // ------ unsafe limits fail ------------------------------------------------------------------

  lemma ReachedStep(s: State, limit: nat, t: nat, call: Call)
    requires Reached(s, limit) && t < |s.threads| && |Registered(Step(s, t, call))| <= limit
    ensures Reached(Step(s, t, call), limit)
  {
    var run :| RunWithin(run, limit) && run[|run| - 1] == s;
    Runs.RunExtends(Init, AnyNext, run, Step(s, t, call));
    assert RunWithin(run + [Step(s, t, call)], limit);
  }

  lemma RegisteredMoves(s: State, t: nat, call: Call)
    requires t < |s.threads|
    ensures |Registered(Step(s, t, call))| <= |Registered(s)| + if s.threads[t].ReadAdd? then 1 else 0
  {
    var s' := Step(s, t, call);
    if s.threads[t].ReadAdd? {
      Sets.SubsetIsSmaller(Registered(s'), Registered(s) + {t});
    } else {
      Sets.SubsetIsSmaller(Registered(s'), Registered(s));
    }
  }

  lemma Go(s: State, limit: nat, t: nat, call: Call) returns (s': State)
    requires Reached(s, limit) && |Registered(s)| <= limit && t < |s.threads|
    requires s.threads[t].ReadAdd? ==> |Registered(s)| < limit
    ensures s' == Step(s, t, call) && Reached(s', limit)
    ensures |Registered(s')| <= |Registered(s)| + if s.threads[t].ReadAdd? then 1 else 0
  {
    s' := Step(s, t, call);
    RegisteredMoves(s, t, call);
    ReachedStep(s, limit, t, call);
  }

  /** x readers are inside. */
  ghost predicate Crowded(s: State, limit: nat, n: nat, x: nat) {
    && Reached(s, limit) && |s.threads| == n && x <= n && |Registered(s)| <= x
    && (forall t: nat :: t < n ==> s.threads[t] == if t < x then Reading else Idle)
    && s.lock == 2 * x % WORD_SPAN
  }

  lemma Start(limit: nat, n: nat) returns (s: State)
    ensures Crowded(s, limit, n, 0)
  {
    s := State(0, seq(n, _ => Idle));
    assert Registered(s) == {};
    assert RunWithin([s], limit);
  }

  /** A reader registers and finds no writer. */
  lemma OneMore(s: State, limit: nat, n: nat, x: nat) returns (s': State)
    requires Crowded(s, limit, n, x) && x < n && x < limit
    ensures Crowded(s', limit, n, x + 1)
  {
    var a := Go(s, limit, x, Read);
    var b := Go(a, limit, x, Read);
    AddResidues(2 * x, READER_COUNT_INC);
    AndOne(b.lock, WRITER_ACTIVE_FLAG);
    s' := Go(b, limit, x, Read);
  }

  lemma {:induction false} Crowd(limit: nat, n: nat, x: nat) returns (s: State)
    requires x <= n && x <= limit
    ensures Crowded(s, limit, n, x)
  {
    if x == 0 {
      s := Start(limit, n);
    } else {
      var a := Crowd(limit, n, x - 1);
      s := OneMore(a, limit, n, x - 1);
    }
  }

  /** With 2^31 readers inside, a writer's compare-and-swap succeeds. */
  lemma Intrusion(limit: nat) returns (s: State)
    requires limit >= 0x8000_0000
    ensures Reached(s, limit) && !Exclusive(s)
  {
    var n, writer: nat := 0x8000_0001, 0x8000_0000;
    var a := Crowd(limit, n, writer);
    var b := Go(a, limit, writer, Write);
    s := Go(b, limit, writer, Write);
    assert s.threads[writer].Writing? && s.threads[0].Reading?;
  }

  /** The limit on registered readers under which the lock excludes, exactly. */
  lemma ExclusionLimit(limit: nat)
    ensures (forall s :: Reached(s, limit) ==> Exclusive(s)) <==> limit < 0x8000_0000
  {
    if limit < 0x8000_0000 {
      forall s | Reached(s, limit) ensures Exclusive(s) {
        SafeLimitExcludes(s, limit);
      }
    } else {
      var s := Intrusion(limit);
    }
  }
}
