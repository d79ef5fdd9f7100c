/**
  * How many tickets CCritSectLiteFair can have out: with a limit on the tickets that are out at once,
  * every run keeps all but one thread outside if and only if the limit is at most 2^32.
  */
module TicketLockLimits {
  import opened Words
  import opened L = TicketLock
  import Runs
  import Sets

  ghost predicate AnyNext(s: State, s': State) {
    exists t: nat :: t < |s.threads| && s' == Step(s, t)
  }

  ghost predicate RunWithin(run: seq<State>, limit: nat) {
    && Runs.IsRun(Init, AnyNext, run)
    && forall i: nat :: i < |run| ==> |Holders(run[i])| <= limit
  }

  ghost predicate Reached(s: State, limit: nat) {
    exists run :: RunWithin(run, limit) && run[|run| - 1] == s
  }

  predicate Exclusive(s: State) {
    forall t: nat, u: nat :: t < |s.threads| && u < |s.threads| && t != u && s.threads[t].pc.Inside? ==>
      !s.threads[u].pc.Inside?
  }

  lemma SafeLimitExcludes(s: State, limit: nat)
    requires Reached(s, limit) && limit <= WORD_SPAN
    ensures Exclusive(s)
  {
    var run :| RunWithin(run, limit) && run[|run| - 1] == s;
    forall i | 0 <= i < |run| - 1 ensures Next(run[i], run[i + 1]) {
      Runs.StepOf(Init, AnyNext, run, i);
    }
    assert Run(run);
    forall t: nat, u: nat | t < |s.threads| && u < |s.threads| && t != u && s.threads[t].pc.Inside?
      ensures !s.threads[u].pc.Inside?
    {
      InvAlongRun(run, |run| - 1);
      assert TicketOk(s, t) && TicketOk(s, u);
    }
  }

  lemma ReachedStep(s: State, limit: nat, t: nat)
    requires Reached(s, limit) && t < |s.threads| && |Holders(Step(s, t))| <= limit
    ensures Reached(Step(s, t), limit)
  {
    var run :| RunWithin(run, limit) && run[|run| - 1] == s;
    Runs.RunExtends(Init, AnyNext, run, Step(s, t));
    assert RunWithin(run + [Step(s, t)], limit);
  }

  /** x threads have taken tickets, and the first of them is inside. */
  ghost predicate Crowded(s: State, limit: nat, n: nat, x: nat) {
    && Reached(s, limit) && |s.threads| == n && x <= n && |Holders(s)| <= x
    && (forall t: nat :: x <= t < n ==> s.threads[t].pc.Idle?)
    && (x > 0 ==> s.threads[0].pc.Inside?)
    && s.lock == 0 && s.ticket == x % WORD_SPAN
  }

  lemma OneMoreHolder(s: State, s': State, t: nat)
    requires t < |s.threads| == |s'.threads| && s'.threads == s.threads[t := s'.threads[t]]
    ensures |Holders(s')| <= |Holders(s)| + 1
    ensures (s'.threads[t].Holds() ==> s.threads[t].Holds()) ==> |Holders(s')| <= |Holders(s)|
  {
    Sets.SubsetIsSmaller(Holders(s'), Holders(s) + {t});
    if s'.threads[t].Holds() ==> s.threads[t].Holds() {
      assert Holders(s') <= Holders(s);
      Sets.SubsetIsSmaller(Holders(s'), Holders(s));
    }
  }

  /** A thread calls Enter and takes its ticket. */
  lemma Take(s: State, limit: nat, t: nat) returns (s': State)
    requires Reached(s, limit) && t < |s.threads| && s.threads[t].pc.Idle? && |Holders(s)| < limit
    ensures Reached(s', limit) && |Holders(s')| <= |Holders(s)| + 1
    ensures s'.threads == s.threads[t := Thread(Spin, s.ticket, |s.log|)]
    ensures s'.lock == s.lock && s'.ticket == Add(s.ticket, 1)
  {
    var a := Step(s, t);
    OneMoreHolder(s, a, t);
    ReachedStep(s, limit, t);
    s' := Step(a, t);
    TicketIsOldValue(s.ticket);
    assert s'.threads == s.threads[t := Thread(Spin, s.ticket, |s.log|)];
    OneMoreHolder(a, s', t);
    ReachedStep(a, limit, t);
  }

  /** A thread whose test passes goes inside. */
  lemma Pass(s: State, limit: nat, t: nat) returns (s': State)
    requires Reached(s, limit) && |Holders(s)| <= limit
    requires t < |s.threads| && s.threads[t].pc.Spin? && s.threads[t].me == s.lock
    ensures Reached(s', limit) && |Holders(s')| <= |Holders(s)|
    ensures s' == s.(threads := s.threads[t := s.threads[t].(pc := Inside)])
  {
    s' := Step(s, t);
    OneMoreHolder(s, s', t);
    ReachedStep(s, limit, t);
  }

  lemma Start(limit: nat, n: nat) returns (s: State)
    ensures Crowded(s, limit, n, 0)
  {
    s := State(0, 0, seq(n, _ => Thread(Idle, 0, 0)), [], 0);
    assert Holders(s) == {};
    assert RunWithin([s], limit);
  }

  lemma {:induction false} Crowd(limit: nat, n: nat, x: nat) returns (s: State)
    requires 0 < x <= n && x <= limit
    ensures Crowded(s, limit, n, x)
  {
    if x == 1 {
      var a := Start(limit, n);
      var b := Take(a, limit, 0);
      s := Pass(b, limit, 0);
    } else {
      var a := Crowd(limit, n, x - 1);
      s := Take(a, limit, x - 1);
      AddResidues(x - 1, 1);
    }
  }

  /** With one ticket more, the newcomer's word is that of the thread inside. */
  lemma Intrusion(limit: nat) returns (s: State)
    requires limit > WORD_SPAN
    ensures Reached(s, limit) && !Exclusive(s)
  {
    var n, newcomer: nat := WORD_SPAN + 1, WORD_SPAN;
    var a := Crowd(limit, n, WORD_SPAN);
    var b := Take(a, limit, newcomer);
    s := Pass(b, limit, newcomer);
    assert s.threads[0].pc.Inside? && s.threads[newcomer].pc.Inside?;
  }

  /** The limit on tickets under which the lock excludes, exactly. */
  lemma ExclusionLimit(limit: nat)
    ensures (forall s :: Reached(s, limit) ==> Exclusive(s)) <==> limit <= WORD_SPAN
  {
    if limit <= WORD_SPAN {
      forall s | Reached(s, limit) ensures Exclusive(s) {
        SafeLimitExcludes(s, limit);
      }
    } else {
      var s := Intrusion(limit);
    }
  }
}
