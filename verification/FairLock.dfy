/** The packed words of CReaderWriterLock_NS_FAIR, and what the whole lock guarantees over every run. */
module FairLock {
  import opened PackedCounter
  import opened Words
  import opened C = FairLockControl

  /** The two volatile words, the local copy each thread fetched, and the control state. */
  datatype State = State(requests: Word, completions: Word, fetched: seq<Word>, control: Control)

  ghost predicate Init(s: State) {
    s.requests == 0 && s.completions == 0 && |s.fetched| == |s.control.threads| && C.Init(s.control)
  }

  /** The loop tests: a reader compares the writer halves, a writer the whole words. */
  predicate Admits(completions: Word, fetched: Word, k: Kind) {
    if k.Reader? then WriterPart(completions) == WriterPart(fetched) else completions == fetched
  }

  predicate Enabled(s: State, t: nat) {
    C.Enabled(s.control, t) && |s.fetched| == |s.control.threads|
  }

  /** One statement of thread t. */
  function Step(s: State, t: nat, call: Kind): State
    requires Enabled(s, t)
  {
    var th := s.control.threads[t];
    State(
      Written(s.requests, th, ReqClear, ReqAdd),
      Written(s.completions, th, EndClear, EndAdd),
      if th.pc.ReqFetch? then s.fetched[t := s.requests] else s.fetched,
      C.Step(s.control, t, call, Admits(s.completions, s.fetched[t], th.kind)))
  }

  /** A word after the thread's statement: cleared, advanced, or not written. */
  function Written(word: Word, th: Thread, clearing: Pc, adding: Pc): Word {
    if th.pc == clearing then ClearTop(word, th.kind)
    else if th.pc == adding then AddOne(word, th.kind)
    else word
  }

  /**
    * How many readers and writers may be outstanding at once: fewer than 0x8000 of each, or no writer,
    * or no reader and up to 0x8000 writers. FairLockLimits shows that no other numbers are safe.
    */
  predicate Safe(readers: nat, writers: nat) {
    || writers == 0
    || (readers == 0 && writers <= 0x8000)
    || (readers < 0x8000 && writers < 0x8000)
  }

  ghost predicate Bounded(s: State) {
    Safe(|Outstanding(s.control.threads, Reader)|, |Outstanding(s.control.threads, Writer)|)
  }

  ghost predicate Next(s: State, s': State) {
    Bounded(s) && exists t: nat, call: Kind :: Enabled(s, t) && s' == Step(s, t, call)
  }

  // ------ the words follow the history --------------------------------------------------------

  /** A word is settled, or some thread stands between the two writes of an update to it. */
  datatype Phase = Settled | Midway(kind: Kind)

  function PhaseOf(c: Control, adding: Pc): Phase {
    if c.cs.Held? && c.cs.owner < |c.threads| && c.threads[c.cs.owner].pc == adding
    then Midway(c.threads[c.cs.owner].kind)
    else Settled
  }

  predicate WordOk(word: Word, phase: Phase, r: nat, w: nat) {
    word == if phase.Settled? then Pack(r, w) else ClearTop(Pack(r, w), phase.kind)
  }

  /** The counts that the word fetched by a thread stands for, while the thread still needs it. */
  datatype Copy = Unused | Of(r: nat, w: nat)

  function CopyOf(c: Control, th: Thread): Copy {
    if th.pc.ReqClear? || th.pc.ReqAdd? then Of(c.readReqs, |c.writers|)
    else if th.Outstanding() then Of(th.readsBefore, th.writesBefore)
    else Unused
  }

  predicate FetchedOk(fetched: Word, copy: Copy) {
    copy.Of? ==> fetched == Pack(copy.r, copy.w)
  }

  ghost predicate CopiesOk(fetched: seq<Word>, c: Control)
    requires |fetched| == |c.threads|
  {
    forall t :: 0 <= t < |fetched| ==> FetchedOk(fetched[t], CopyOf(c, c.threads[t]))
  }

  ghost predicate WordsOk(s: State) {
    && |s.fetched| == |s.control.threads|
    && WordOk(s.requests, PhaseOf(s.control, ReqAdd), s.control.readReqs, |s.control.writers|)
    && WordOk(s.completions, PhaseOf(s.control, EndAdd), s.control.readsDone, s.control.writesDone)
    && CopiesOk(s.fetched, s.control)
  }

  ghost predicate Inv(s: State) {
    C.Inv(s.control) && WordsOk(s)
  }

  lemma InitInv(s: State)
    requires Init(s)
    ensures Inv(s)
  {
    C.InitInv(s.control);
    InitWordsOk(s);
  }

  lemma InitWordsOk(s: State)
    requires Init(s)
    ensures WordsOk(s)
  {
    assert CopiesOk(s.fetched, s.control);
    assert PhaseOf(s.control, ReqAdd).Settled? && PhaseOf(s.control, EndAdd).Settled?;
  }

  lemma OutstandingWindows(s: State, t: nat)
    requires Inv(s) && Bounded(s) && t < |s.control.threads| && s.control.threads[t].Outstanding()
    ensures var c := s.control; var th := c.threads[t];
      && c.writesDone <= th.writesBefore < c.writesDone + 0x8000
      && (th.kind.Writer? ==> c.readsDone <= th.readsBefore < c.readsDone + 0x8000)
  {
    var c := s.control;
    assert TicketOk(c, t);
    assert t in Outstanding(c.threads, c.threads[t].kind);
    OutstandingReaders(c);
  }

  lemma OutstandingReaders(c: Control)
    requires TicketsOk(c) && CountsOk(c)
    ensures Outstanding(c.threads, Reader) == ReadersUpTo(c.threads, |c.writers|)
  {
    forall u | u in Outstanding(c.threads, Reader) ensures u in ReadersUpTo(c.threads, |c.writers|) {
      assert TicketOk(c, u);
    }
  }

  /** The writer midway through EndWrite, or the reader midway through EndRead, blocks t if its clear could show. */
  lemma MidwayBlocks(c: Control, t: nat, u: nat)
    requires C.Inv(c) && t < |c.threads| && c.threads[t].pc.Spin?
    requires c.cs == Held(u) && u < |c.threads| && c.threads[u].pc.EndAdd?
    requires c.threads[u].kind.Writer? || c.threads[t].kind.Writer?
    ensures !Ready(c, c.threads[t])
  {
    assert TicketOk(c, t) && TicketOk(c, u);
    if c.threads[t].kind.Reader? && c.threads[t].writesBefore == c.writesDone {
      ReaderHoldsWritersBack(c, t, u);
    } else if c.threads[u].kind.Reader? && c.threads[t].writesBefore == c.writesDone {
      ReaderHoldsWritersBack(c, u, t);
    }
  }

  /** What a load of `completions` can show. */
  lemma CompletionsHalves(s: State) returns (high: nat, low: nat)
    requires Inv(s)
    ensures high <= 0x8000 && low <= 0x8000 && s.completions == high * 0x10000 + low
    ensures high == Half(s.control.readsDone) || high == Cleared(Half(s.control.readsDone))
    ensures low == Half(s.control.writesDone) || low == Cleared(Half(s.control.writesDone))
    ensures high != Half(s.control.readsDone) <==> Hides(s.control, Reader)
    ensures low != Half(s.control.writesDone) <==> Hides(s.control, Writer)
  {
    var c := s.control;
    high, low := Half(c.readsDone), Half(c.writesDone);
    var phase := PhaseOf(c, EndAdd);
    if phase.Midway? {
      var k := phase.kind;
      ClearTouchesOneHalf(Pack(c.readsDone, c.writesDone), c.readsDone, c.writesDone, k);
      high := if k.Reader? then Cleared(high) else high;
      low := if k.Writer? then Cleared(low) else low;
    }
  }

  /** A count of requests and a count of completions leave the same half behind. */
  predicate SameHalf(asked: nat, done: nat) {
    asked == done || (done > 0 && (asked - done) % 0x8000 == 0)
  }

  /** The half of kind k in `completions` shows 0 because an update has cleared its top bit and not yet added. */
  predicate Hides(c: Control, k: Kind) {
    PhaseOf(c, EndAdd) == Midway(k) && Half(if k.Reader? then c.readsDone else c.writesDone) == 0x8000
  }

  /**
    * What the loop test means, with any number of requests outstanding and on any load: the counts
    * that it compares are equal modulo the wrap, and none of them is hidden by an update.
    */
  lemma TestExact(s: State, t: nat)
    requires Inv(s) && t < |s.control.threads| && s.control.threads[t].pc.Spin?
    ensures var c := s.control; var th := c.threads[t];
      Admits(s.completions, s.fetched[t], th.kind) <==>
        && SameHalf(th.writesBefore, c.writesDone) && !Hides(c, Writer)
        && (th.kind.Writer? ==> SameHalf(th.readsBefore, c.readsDone) && !Hides(c, Reader))
  {
    var c := s.control;
    var th := c.threads[t];
    assert TicketOk(c, t) && FetchedOk(s.fetched[t], CopyOf(c, th));
    var high, low := CompletionsHalves(s);
    WriterPartIsLowHalf(s.completions, high, low);
    WriterPartIsLowHalf(s.fetched[t], Half(th.readsBefore), Half(th.writesBefore));
    HalfShown(th.writesBefore, c.writesDone, low);
    if th.kind.Writer? {
      HalfShown(th.readsBefore, c.readsDone, high);
    }
  }

  lemma HalfShown(asked: nat, done: nat, shown: nat)
    requires asked >= done && (shown == Half(done) || shown == Cleared(Half(done)))
    ensures shown == Half(asked) <==> SameHalf(asked, done) && shown == Half(done)
  {
    HalfAliases(asked, done);
  }

  lemma SameInWindow(asked: nat, done: nat)
    requires done <= asked < done + 0x8000
    ensures SameHalf(asked, done) <==> asked == done
  {
  }

  /**
    * Within the bound the loop test is exact on every load, torn or not: a spinning thread passes it
    * if and only if everything it must wait for has finished.
    */
  lemma AdmissionExact(s: State, t: nat)
    requires Inv(s) && Bounded(s)
    requires t < |s.control.threads| && s.control.threads[t].pc.Spin?
    ensures Admits(s.completions, s.fetched[t], s.control.threads[t].kind) <==> Ready(s.control, s.control.threads[t])
  {
    var c := s.control;
    TestExact(s, t);
    OutstandingWindows(s, t);
    SameInWindow(c.threads[t].writesBefore, c.writesDone);
    if c.threads[t].kind.Writer? {
      SameInWindow(c.threads[t].readsBefore, c.readsDone);
    }
    if PhaseOf(c, EndAdd).Midway? && (PhaseOf(c, EndAdd).kind.Writer? || c.threads[t].kind.Writer?) {
      MidwayBlocks(c, t, c.cs.owner);
    }
  }

  // ------ every step keeps the invariant ------------------------------------------------------

  /** How a statement moves the phase of the word whose update uses these two positions. */
  lemma PhaseMoves(c: Control, t: nat, call: Kind, admitted: bool)
    requires SectionOk(c) && C.Enabled(c, t)
    ensures var c' := C.Step(c, t, call, admitted); var th := c.threads[t];
      && (th.pc.ReqClear? ==> PhaseOf(c, ReqAdd).Settled? && PhaseOf(c', ReqAdd) == Midway(th.kind))
      && (th.pc.ReqAdd? ==> PhaseOf(c, ReqAdd) == Midway(th.kind) && PhaseOf(c', ReqAdd).Settled?)
      && (!th.pc.ReqClear? && !th.pc.ReqAdd? ==> PhaseOf(c', ReqAdd) == PhaseOf(c, ReqAdd))
      && (th.pc.EndClear? ==> PhaseOf(c, EndAdd).Settled? && PhaseOf(c', EndAdd) == Midway(th.kind))
      && (th.pc.EndAdd? ==> PhaseOf(c, EndAdd) == Midway(th.kind) && PhaseOf(c', EndAdd).Settled?)
      && (!th.pc.EndClear? && !th.pc.EndAdd? ==> PhaseOf(c', EndAdd) == PhaseOf(c, EndAdd))
  {
    assert c.threads[t].InSection() <==> c.cs == Held(t);
  }

  lemma WriteKeepsWord(word: Word, phase: Phase, phase': Phase, r: nat, w: nat, th: Thread, clearing: Pc, adding: Pc)
    requires WordOk(word, phase, r, w) && clearing != adding
    requires th.pc == clearing ==> phase.Settled? && phase' == Midway(th.kind)
    requires th.pc == adding ==> phase == Midway(th.kind) && phase'.Settled?
    requires th.pc != clearing && th.pc != adding ==> phase' == phase
    ensures WordOk(Written(word, th, clearing, adding), phase',
      if th.pc == adding && th.kind.Reader? then r + 1 else r,
      if th.pc == adding && th.kind.Writer? then w + 1 else w)
  {
    if th.pc == adding {
      UpdateAdvancesOneCount(Pack(r, w), r, w, th.kind);
    }
  }

  lemma CountsMove(c: Control, t: nat, call: Kind, admitted: bool)
    requires C.Enabled(c, t)
    ensures var c' := C.Step(c, t, call, admitted); var th := c.threads[t];
      && c'.readReqs == (if th.pc.ReqAdd? && th.kind.Reader? then c.readReqs + 1 else c.readReqs)
      && |c'.writers| == (if th.pc.ReqAdd? && th.kind.Writer? then |c.writers| + 1 else |c.writers|)
      && c'.readsDone == (if th.pc.EndAdd? && th.kind.Reader? then c.readsDone + 1 else c.readsDone)
      && c'.writesDone == (if th.pc.EndAdd? && th.kind.Writer? then c.writesDone + 1 else c.writesDone)
  {
  }

  /** A thread's copy stands for what it stood for before, unless the thread has just fetched it. */
  lemma CopyMoves(c: Control, t: nat, call: Kind, admitted: bool, u: nat)
    requires SectionOk(c) && C.Enabled(c, t) && u < |c.threads|
    ensures var c' := C.Step(c, t, call, admitted);
      if u == t && c.threads[t].pc.ReqFetch?
      then PhaseOf(c, ReqAdd).Settled? && CopyOf(c', c'.threads[u]) == Of(c.readReqs, |c.writers|)
      else CopyOf(c', c'.threads[u]).Unused? || CopyOf(c', c'.threads[u]) == CopyOf(c, c.threads[u])
  {
    assert c.threads[t].InSection() <==> c.cs == Held(t);
    assert c.threads[u].InSection() <==> c.cs == Held(u);
  }

  lemma FetchKeepsCopies(fetched: seq<Word>, requests: Word, c: Control, t: nat, call: Kind, admitted: bool)
    requires SectionOk(c) && C.Enabled(c, t) && |fetched| == |c.threads| && CopiesOk(fetched, c)
    requires WordOk(requests, PhaseOf(c, ReqAdd), c.readReqs, |c.writers|)
    ensures CopiesOk(
      if c.threads[t].pc.ReqFetch? then fetched[t := requests] else fetched, C.Step(c, t, call, admitted))
  {
    var c' := C.Step(c, t, call, admitted);
    forall u | 0 <= u < |fetched|
      ensures FetchedOk(if u == t && c.threads[t].pc.ReqFetch? then requests else fetched[u], CopyOf(c', c'.threads[u]))
    {
      CopyMoves(c, t, call, admitted, u);
      assert FetchedOk(fetched[u], CopyOf(c, c.threads[u]));
    }
  }

  lemma StepKeepsRequests(word: Word, c: Control, t: nat, call: Kind, admitted: bool)
    requires SectionOk(c) && C.Enabled(c, t) && WordOk(word, PhaseOf(c, ReqAdd), c.readReqs, |c.writers|)
    ensures var c' := C.Step(c, t, call, admitted);
      WordOk(Written(word, c.threads[t], ReqClear, ReqAdd), PhaseOf(c', ReqAdd), c'.readReqs, |c'.writers|)
  {
    PhaseMoves(c, t, call, admitted);
    CountsMove(c, t, call, admitted);
    WriteKeepsWord(word, PhaseOf(c, ReqAdd), PhaseOf(C.Step(c, t, call, admitted), ReqAdd),
      c.readReqs, |c.writers|, c.threads[t], ReqClear, ReqAdd);
  }

  lemma StepKeepsCompletions(word: Word, c: Control, t: nat, call: Kind, admitted: bool)
    requires SectionOk(c) && C.Enabled(c, t) && WordOk(word, PhaseOf(c, EndAdd), c.readsDone, c.writesDone)
    ensures var c' := C.Step(c, t, call, admitted);
      WordOk(Written(word, c.threads[t], EndClear, EndAdd), PhaseOf(c', EndAdd), c'.readsDone, c'.writesDone)
  {
    PhaseMoves(c, t, call, admitted);
    CountsMove(c, t, call, admitted);
    WriteKeepsWord(word, PhaseOf(c, EndAdd), PhaseOf(C.Step(c, t, call, admitted), EndAdd),
      c.readsDone, c.writesDone, c.threads[t], EndClear, EndAdd);
  }

  lemma StepKeepsWords(s: State, t: nat, call: Kind)
    requires SectionOk(s.control) && WordsOk(s) && Enabled(s, t)
    ensures WordsOk(Step(s, t, call))
  {
    var c := s.control;
    var th := c.threads[t];
    var admitted := Admits(s.completions, s.fetched[t], th.kind);
    StepKeepsRequests(s.requests, c, t, call, admitted);
    StepKeepsCompletions(s.completions, c, t, call, admitted);
    FetchKeepsCopies(s.fetched, s.requests, c, t, call, admitted);
  }

  lemma StepKeepsInv(s: State, t: nat, call: Kind)
    requires Inv(s) && Bounded(s) && Enabled(s, t)
    ensures Inv(Step(s, t, call))
  {
    if s.control.threads[t].pc.Spin? {
      AdmissionExact(s, t);
    }
    C.StepKeepsInv(s.control, t, call, Admits(s.completions, s.fetched[t], s.control.threads[t].kind));
    StepKeepsWords(s, t, call);
  }
}
