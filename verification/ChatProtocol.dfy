/**
  * AsioChatServer.cpp as a state machine: one room, its sessions, and one step for each handler that
  * runs. All handlers run on one thread. The environment chooses which outstanding operation completes
  * next, the octets a read brings, and whether it fails. Fields named as histories are not in the source.
  */
module ChatProtocol {
  import opened ChatMessage

  type Text = seq<Byte>

  const MAX_RECENT := 100

  /** The read that a session has outstanding; AwaitBody keeps the header read before it. */
  datatype Reading = AwaitHeader | AwaitBody(header: Text) | Stopped

  /** A session; writes counts the writes in flight. */
  datatype Session = Session(
    joined: bool, writeMsgs: seq<Text>, writes: nat, reading: Reading,
    // histories: a write failed; how many messages had been sent when it joined and left; messages
    // handed to deliver and messages written; octets received, and frames made of them
    failed: bool, joinedAt: nat, leftAt: nat,
    handed: seq<Text>, completed: seq<Text>, received: Text, forwarded: seq<Text>)

  /** The room; histories: every message sent to it, and the session that sent it. */
  datatype State = State(recent: seq<Text>, sessions: seq<Session>, sent: seq<Text>, senders: seq<nat>)

  function Newcomer(now: nat): Session {
    Session(true, [], 0, AwaitHeader, false, now, 0, [], [], [], [])
  }

  /** The writes that a handler starts: one or none. */
  function Started(start: bool): nat {
    if start then 1 else 0
  }

  /** chat_session::deliver: queues a message, and starts a write if the queue was empty. */
  function Push(s: Session, msg: Text): Session {
    s.(writeMsgs := s.writeMsgs + [msg], writes := s.writes + Started(s.writeMsgs == []), handed := s.handed + [msg])
  }

  function PushAll(s: Session, msgs: seq<Text>): Session
    decreases |msgs|
  {
    if msgs == [] then s else Push(PushAll(s, msgs[..|msgs| - 1]), msgs[|msgs| - 1])
  }

  /** The last messages, as many as the room remembers. */
  function Trim(msgs: seq<Text>): seq<Text> {
    msgs[Oldest(|msgs|)..]
  }

  function Oldest(n: nat): (k: nat)
    ensures k <= n
  {
    if n > MAX_RECENT then n - MAX_RECENT else 0
  }

  function Left(s: Session, now: nat): Session {
    if s.joined then s.(joined := false, leftAt := now) else s
  }

  function PushIfJoined(s: Session, msg: Text): Session {
    if s.joined then Push(s, msg) else s
  }

  function PushToAll(sessions: seq<Session>, msg: Text): (r: seq<Session>)
    ensures |r| == |sessions| && forall i :: 0 <= i < |r| ==> r[i] == PushIfJoined(sessions[i], msg)
  {
    if sessions == [] then [] else [PushIfJoined(sessions[0], msg)] + PushToAll(sessions[1..], msg)
  }

  /** chat_room::deliver. */
  function Deliver(st: State, from: nat, msg: Text): State {
    State(Trim(st.recent + [msg]), PushToAll(st.sessions, msg), st.sent + [msg], st.senders + [from])
  }

  datatype Action =
    | Start
    | ReadHeader(i: nat, ok: bool, octets: Text)
    | ReadBody(i: nat, ok: bool, octets: Text)
    | Write(i: nat, ok: bool)

  /**
    * An operation completes only if it is outstanding; without an error it completes in full. That a
    * header awaited with its body was accepted, and a message being written is queued, are part of Inv.
    */
  predicate Enabled(st: State, a: Action) {
    match a
    case Start => true
    case ReadHeader(i, ok, octets) =>
      && i < |st.sessions| && st.sessions[i].reading.AwaitHeader?
      && |octets| <= HEADER_LENGTH && (ok ==> |octets| == HEADER_LENGTH)
    case ReadBody(i, ok, octets) =>
      && i < |st.sessions| && st.sessions[i].reading.AwaitBody?
      && Announced(st.sessions[i].reading.header).Some?
      && |octets| <= Announced(st.sessions[i].reading.header).value
      && (ok ==> |octets| == Announced(st.sessions[i].reading.header).value)
    case Write(i, ok) => i < |st.sessions| && st.sessions[i].writes > 0 && st.sessions[i].writeMsgs != []
  }

  function AfterHeader(s: Session, ok: bool, octets: Text, now: nat): Session {
    var r := s.(received := s.received + octets);
    if ok && Announced(octets).Some? then r.(reading := AwaitBody(octets))
    else Left(r.(reading := Stopped), now)
  }

  function AfterBody(s: Session, ok: bool, octets: Text, now: nat): Session
    requires s.reading.AwaitBody?
  {
    var r := s.(received := s.received + octets);
    if ok then r.(reading := AwaitHeader, forwarded := s.forwarded + [s.reading.header + octets])
    else Left(r.(reading := Stopped), now)
  }

  function AfterWrite(s: Session, ok: bool, now: nat): Session
    requires s.writeMsgs != [] && s.writes > 0
  {
    if ok then
      s.(writeMsgs := s.writeMsgs[1..], writes := s.writes - 1 + Started(|s.writeMsgs| > 1),
         completed := s.completed + [s.writeMsgs[0]])
    else Left(s.(writes := s.writes - 1, failed := true), now)
  }

  function BodyRead(st: State, i: nat, ok: bool, octets: Text): State
    requires i < |st.sessions| && st.sessions[i].reading.AwaitBody?
  {
    st.(sessions := st.sessions[i := AfterBody(st.sessions[i], ok, octets, |st.sent|)])
  }

  function Step(st: State, a: Action): State
    requires Enabled(st, a)
  {
    match a
    case Start => st.(sessions := st.sessions + [PushAll(Newcomer(|st.sent|), st.recent)])
    case ReadHeader(i, ok, octets) =>
      st.(sessions := st.sessions[i := AfterHeader(st.sessions[i], ok, octets, |st.sent|)])
    case ReadBody(i, ok, octets) =>
      if ok then Deliver(BodyRead(st, i, ok, octets), i, st.sessions[i].reading.header + octets)
      else BodyRead(st, i, ok, octets)
    case Write(i, ok) => st.(sessions := st.sessions[i := AfterWrite(st.sessions[i], ok, |st.sent|)])
  }

  ghost predicate Init(st: State) {
    st == State([], [], [], [])
  }

  ghost predicate Next(st: State, st': State) {
    exists a :: Enabled(st, a) && st' == Step(st, a)
  }

  // ------ what every handler keeps -------------------------------------------------------------

  /** The messages that one session sent, in order. */
  function By(sent: seq<Text>, senders: seq<nat>, i: nat): seq<Text>
    requires |sent| == |senders|
    decreases |sent|
  {
    if sent == [] then []
    else
      var k := |sent| - 1;
      By(sent[..k], senders[..k], i) + if senders[k] == i then [sent[k]] else []
  }

  /** Where the window of messages that a session is handed ends. */
  function Until(s: Session, now: nat): nat {
    if s.joined then now else s.leftAt
  }

  /** The window itself: the last 100 messages before it joined, and all until it left. */
  ghost predicate HandedIsWindow(s: Session, sent: seq<Text>) {
    && s.joinedAt <= Until(s, |sent|) <= |sent|
    && s.handed == sent[Oldest(s.joinedAt)..Until(s, |sent|)]
  }

  ghost predicate QueueOk(s: Session) {
    && s.completed + s.writeMsgs == s.handed
    && s.writes == Started(s.writeMsgs != [] && !s.failed)
    && (s.failed ==> s.writeMsgs != [])
    && (s.joined <==> !s.failed && !s.reading.Stopped?)
  }

  /** What has been received is the forwarded frames and the part of a frame that follows. */
  ghost predicate StreamOk(s: Session) {
    && Concat(s.forwarded) <= s.received
    && (forall k :: 0 <= k < |s.forwarded| ==> IsFrame(s.forwarded[k]))
    && PartOfFrame(s.reading, s.received[|Concat(s.forwarded)|..])
  }

  /** What can have been received since the last frame. */
  ghost predicate PartOfFrame(reading: Reading, rest: Text) {
    match reading
    case AwaitHeader => rest == []
    case AwaitBody(h) => rest == h && |h| == HEADER_LENGTH && Announced(h).Some?
    case Stopped => Frames(rest) == [] || Frames(rest) == [rest]
  }

  lemma StreamIs(s: Session, rest: Text)
    requires s.received == Concat(s.forwarded) + rest && PartOfFrame(s.reading, rest)
    requires forall k :: 0 <= k < |s.forwarded| ==> IsFrame(s.forwarded[k])
    ensures StreamOk(s)
  {
    assert s.received[|Concat(s.forwarded)|..] == rest;
  }

  lemma StreamSplit(s: Session) returns (rest: Text)
    requires StreamOk(s)
    ensures s.received == Concat(s.forwarded) + rest && PartOfFrame(s.reading, rest)
    ensures forall k :: 0 <= k < |s.forwarded| ==> IsFrame(s.forwarded[k])
  {
    rest := s.received[|Concat(s.forwarded)|..];
  }

  ghost predicate SessionOk(s: Session, sent: seq<Text>) {
    HandedIsWindow(s, sent) && QueueOk(s) && StreamOk(s)
  }

  ghost predicate Inv(st: State) {
    && st.recent == Trim(st.sent)
    && |st.senders| == |st.sent|
    && (forall k :: 0 <= k < |st.senders| ==> st.senders[k] < |st.sessions|)
    && (forall i: nat :: i < |st.sessions| ==> SessionOk(st.sessions[i], st.sent))
    && (forall i: nat :: i < |st.sessions| ==> st.sessions[i].forwarded == By(st.sent, st.senders, i))
  }

  // ------ steps of one session ----------------------------------------------------------------

  lemma PushKeeps(s: Session, sent: seq<Text>, msg: Text)
    requires SessionOk(s, sent)
    ensures SessionOk(PushIfJoined(s, msg), sent + [msg])
  {
    var sent' := sent + [msg];
    var from := Oldest(s.joinedAt);
    if s.joined {
      assert sent'[from..|sent'|] == sent[from..|sent|] + [msg];
      assert s.completed + (s.writeMsgs + [msg]) == (s.completed + s.writeMsgs) + [msg];
    } else {
      assert sent'[from..s.leftAt] == sent[from..s.leftAt];
    }
  }

  lemma {:induction false} PushAllQueues(s: Session, msgs: seq<Text>)
    ensures var r := PushAll(s, msgs);
      r == s.(writeMsgs := s.writeMsgs + msgs, handed := s.handed + msgs, writes := r.writes)
    decreases |msgs|
  {
    if msgs == [] {
      assert s.writeMsgs + msgs == s.writeMsgs && s.handed + msgs == s.handed;
    } else {
      var k := |msgs| - 1;
      PushAllQueues(s, msgs[..k]);
      assert msgs == msgs[..k] + [msgs[k]];
      Regroup(s.writeMsgs, msgs[..k], [msgs[k]]);
      Regroup(s.handed, msgs[..k], [msgs[k]]);
    }
  }

  lemma {:induction false} PushAllKeepsQueue(s: Session, msgs: seq<Text>)
    requires s.joined && QueueOk(s)
    ensures QueueOk(PushAll(s, msgs)) && PushAll(s, msgs).joined
    decreases |msgs|
  {
    if msgs != [] {
      PushAllKeepsQueue(s, msgs[..|msgs| - 1]);
      PushKeepsQueue(PushAll(s, msgs[..|msgs| - 1]), msgs[|msgs| - 1]);
    }
  }

  lemma PushKeepsQueue(s: Session, msg: Text)
    requires QueueOk(s) && s.joined
    ensures QueueOk(Push(s, msg)) && Push(s, msg).joined
  {
    Regroup(s.completed, s.writeMsgs, [msg]);
  }

  /** The recent messages, handed to a session that has just joined. */
  lemma PushAllIs(now: nat, msgs: seq<Text>)
    ensures var s, r := Newcomer(now), PushAll(Newcomer(now), msgs);
      r == s.(writeMsgs := msgs, handed := msgs, writes := Started(msgs != [])) && QueueOk(r)
  {
    PushAllQueues(Newcomer(now), msgs);
    PushAllKeepsQueue(Newcomer(now), msgs);
    assert [] + msgs == msgs;
  }

  lemma NewcomerOk(sent: seq<Text>)
    ensures var r := PushAll(Newcomer(|sent|), Trim(sent)); SessionOk(r, sent) && r.forwarded == []
  {
    PushAllIs(|sent|, Trim(sent));
  }

  lemma HeaderKeepsStream(s: Session, ok: bool, octets: Text, now: nat)
    requires StreamOk(s) && s.reading.AwaitHeader?
    requires |octets| <= HEADER_LENGTH && (ok ==> |octets| == HEADER_LENGTH)
    ensures StreamOk(AfterHeader(s, ok, octets, now))
  {
    var rest := StreamSplit(s);
    assert s.received + octets == Concat(s.forwarded) + octets;
    if |octets| == HEADER_LENGTH {
      assert octets[..HEADER_LENGTH] == octets;
      if Announced(octets).Some? {
        OneFrameAtMost(octets, octets, Announced(octets).value);
      }
    }
    StreamIs(AfterHeader(s, ok, octets, now), octets);
  }

  lemma HeaderKeeps(s: Session, sent: seq<Text>, ok: bool, octets: Text)
    requires SessionOk(s, sent) && s.reading.AwaitHeader?
    requires |octets| <= HEADER_LENGTH && (ok ==> |octets| == HEADER_LENGTH)
    ensures SessionOk(AfterHeader(s, ok, octets, |sent|), sent)
  {
    HeaderKeepsStream(s, ok, octets, |sent|);
  }

  lemma BodyKeepsStream(s: Session, ok: bool, octets: Text, now: nat)
    requires StreamOk(s) && s.reading.AwaitBody?
    requires var n := Announced(s.reading.header).value; |octets| <= n && (ok ==> |octets| == n)
    ensures StreamOk(AfterBody(s, ok, octets, now))
  {
    var h := StreamSplit(s);
    var f := h + octets;
    Regroup(Concat(s.forwarded), h, octets);
    assert f[..HEADER_LENGTH] == h;
    if ok {
      ConcatAppends(s.forwarded, f);
      assert Concat(s.forwarded) + f == Concat(s.forwarded + [f]) + [];
      StreamIs(AfterBody(s, ok, octets, now), []);
    } else {
      OneFrameAtMost(f, h, Announced(h).value);
      StreamIs(AfterBody(s, ok, octets, now), f);
    }
  }

  lemma BodyKeeps(s: Session, sent: seq<Text>, ok: bool, octets: Text)
    requires SessionOk(s, sent) && s.reading.AwaitBody?
    requires var n := Announced(s.reading.header).value; |octets| <= n && (ok ==> |octets| == n)
    ensures SessionOk(AfterBody(s, ok, octets, |sent|), sent)
  {
    BodyKeepsStream(s, ok, octets, |sent|);
  }

  lemma WriteKeeps(s: Session, sent: seq<Text>, ok: bool)
    requires SessionOk(s, sent) && s.writes > 0
    ensures SessionOk(AfterWrite(s, ok, |sent|), sent)
  {
    if ok {
      assert s.writeMsgs == [s.writeMsgs[0]] + s.writeMsgs[1..];
      assert (s.completed + [s.writeMsgs[0]]) + s.writeMsgs[1..] == s.completed + s.writeMsgs;
    }
  }

  // ------ steps of the whole ------------------------------------------------------------------

  lemma TrimAfterTrim(sent: seq<Text>, msg: Text)
    ensures Trim(Trim(sent) + [msg]) == Trim(sent + [msg])
  {
  }

  lemma ByAppends(sent: seq<Text>, senders: seq<nat>, msg: Text, from: nat, i: nat)
    requires |sent| == |senders|
    ensures By(sent + [msg], senders + [from], i) == By(sent, senders, i) + if from == i then [msg] else []
  {
    assert (sent + [msg])[..|sent|] == sent && (senders + [from])[..|sent|] == senders;
  }

  lemma {:induction false} ByNobody(sent: seq<Text>, senders: seq<nat>, i: nat)
    requires |sent| == |senders| && forall k :: 0 <= k < |senders| ==> senders[k] < i
    ensures By(sent, senders, i) == []
    decreases |sent|
  {
    if sent != [] {
      ByNobody(sent[..|sent| - 1], senders[..|sent| - 1], i);
    }
  }

  lemma ReplaceKeeps(st: State, i: nat, s: Session)
    requires Inv(st) && i < |st.sessions| && SessionOk(s, st.sent) && s.forwarded == st.sessions[i].forwarded
    ensures Inv(st.(sessions := st.sessions[i := s]))
  {
  }

  lemma AppendKeeps(st: State, s: Session)
    requires Inv(st) && SessionOk(s, st.sent) && s.forwarded == []
    ensures Inv(st.(sessions := st.sessions + [s]))
  {
    var st' := st.(sessions := st.sessions + [s]);
    ByNobody(st.sent, st.senders, |st.sessions|);
    forall i: nat | i < |st'.sessions|
      ensures SessionOk(st'.sessions[i], st.sent) && st'.sessions[i].forwarded == By(st.sent, st.senders, i)
    {
      assert st'.sessions[i] == if i < |st.sessions| then st.sessions[i] else s;
    }
  }

  lemma StartKeeps(st: State)
    requires Inv(st)
    ensures Inv(Step(st, Start))
  {
    NewcomerOk(st.sent);
    AppendKeeps(st, PushAll(Newcomer(|st.sent|), st.recent));
  }

  lemma ReadBodyKeeps(st: State, a: Action)
    requires Inv(st) && a.ReadBody? && Enabled(st, a)
    ensures Inv(Step(st, a))
  {
    var s := st.sessions[a.i];
    var s' := AfterBody(s, a.ok, a.octets, |st.sent|);
    BodyKeeps(s, st.sent, a.ok, a.octets);
    if a.ok {
      DeliverOneKeeps(st, a.i, s', s.reading.header + a.octets);
    } else {
      ReplaceKeeps(st, a.i, s');
    }
  }

  lemma DeliverOneKeeps(st: State, from: nat, s: Session, msg: Text)
    requires Inv(st) && from < |st.sessions| && SessionOk(s, st.sent)
    requires s.forwarded == st.sessions[from].forwarded + [msg]
    ensures Inv(Deliver(st.(sessions := st.sessions[from := s]), from, msg))
  {
    var st1 := st.(sessions := st.sessions[from := s]);
    var st' := Deliver(st1, from, msg);
    TrimAfterTrim(st.sent, msg);
    forall i: nat | i < |st.sessions|
      ensures SessionOk(st'.sessions[i], st'.sent) && st'.sessions[i].forwarded == By(st'.sent, st'.senders, i)
    {
      PushKeeps(st1.sessions[i], st.sent, msg);
      ByAppends(st.sent, st.senders, msg, from, i);
    }
  }

  lemma StepKeepsInv(st: State, a: Action)
    requires Inv(st) && Enabled(st, a)
    ensures Inv(Step(st, a))
  {
    match a
    case Start => StartKeeps(st);
    case ReadHeader(i, ok, octets) =>
      HeaderKeeps(st.sessions[i], st.sent, ok, octets);
      ReplaceKeeps(st, i, AfterHeader(st.sessions[i], ok, octets, |st.sent|));
    case ReadBody(i, ok, octets) => ReadBodyKeeps(st, a);
    case Write(i, ok) =>
      WriteKeeps(st.sessions[i], st.sent, ok);
      ReplaceKeeps(st, i, AfterWrite(st.sessions[i], ok, |st.sent|));
  }
}

module ChatTheorems {
  import opened ChatMessage
  import opened ChatProtocol
  import opened Runs

  ghost predicate Run(run: seq<State>) {
    IsRun(Init, Next, run)
  }

  lemma InvAlongRun(run: seq<State>, i: nat)
    requires Run(run) && i < |run|
    ensures Inv(run[i])
  {
    forall s: State, t: State | Inv(s) && Next(s, t) ensures Inv(t) {
      var a :| Enabled(s, a) && t == Step(s, a);
      StepKeepsInv(s, a);
    }
    Invariance(Init, Next, Inv, run, i);
  }

  /** A state that some run ends in. */
  ghost predicate Reachable(st: State) {
    exists run :: Run(run) && run[|run| - 1] == st
  }

  lemma ReachableInit()
    ensures Reachable(State([], [], [], []))
  {
    assert Run([State([], [], [], [])]);
  }

  lemma ReachableStep(st: State, a: Action)
    requires Reachable(st) && Enabled(st, a)
    ensures Reachable(Step(st, a))
  {
    var run :| Run(run) && run[|run| - 1] == st;
    RunExtends(Init, Next, run, Step(st, a));
    assert Run(run + [Step(st, a)]);
  }

  lemma ReachingRun(st: State) returns (run: seq<State>)
    requires Reachable(st)
    ensures Run(run) && run[|run| - 1] == st
  {
    run :| Run(run) && run[|run| - 1] == st;
  }

  lemma ReachableInv(st: State)
    requires Reachable(st)
    ensures Inv(st)
  {
    var run :| Run(run) && run[|run| - 1] == st;
    InvAlongRun(run, |run| - 1);
  }

  /** What is remembered of some messages: the last 100, or all of them if there are fewer. */
  lemma LastHundred(msgs: seq<Text>)
    ensures |Trim(msgs)| == (if |msgs| < 100 then |msgs| else 100)
    ensures Trim(msgs) == msgs[|msgs| - |Trim(msgs)|..]
  {
    assert msgs[0..] == msgs;
  }

  /**
    * What a session is handed is the last 100 of the messages sent before it joined, or all of them if
    * there were fewer, followed by every message until it left: no gap, no duplicate, no other order.
    */
  lemma Delivery(run: seq<State>, i: nat, k: nat)
    requires Run(run) && i < |run| && k < |run[i].sessions|
    ensures var st, s := run[i], run[i].sessions[k];
      && s.joinedAt <= Until(s, |st.sent|) <= |st.sent|
      && s.handed == Trim(st.sent[..s.joinedAt]) + st.sent[s.joinedAt..Until(s, |st.sent|)]
  {
    InvAlongRun(run, i);
    var st, s := run[i], run[i].sessions[k];
    assert SessionOk(s, st.sent);
  }

  /**
    * Completed writes and the queue together are what was handed. One write is in flight when the queue
    * is not empty and none when it is, until a write fails; then the session has left the room.
    */
  lemma OneWriteInFlight(run: seq<State>, i: nat, k: nat)
    requires Run(run) && i < |run| && k < |run[i].sessions|
    ensures var s := run[i].sessions[k];
      && s.completed + s.writeMsgs == s.handed
      && (!s.failed ==> s.writes == if s.writeMsgs != [] then 1 else 0)
      && (s.failed ==> s.writes == 0 && s.writeMsgs != [])
      && (s.joined <==> !s.failed && !s.reading.Stopped?)
  {
    InvAlongRun(run, i);
    assert SessionOk(run[i].sessions[k], run[i].sent);
  }

  /** The room remembers the last 100 messages, and the messages of each session come in its order. */
  lemma HistoryAndSenders(run: seq<State>, i: nat, k: nat)
    requires Run(run) && i < |run| && k < |run[i].sessions|
    ensures var st := run[i];
      && |st.recent| == (if |st.sent| < 100 then |st.sent| else 100)
      && st.recent == st.sent[|st.sent| - |st.recent|..]
      && |st.sent| == |st.senders| && st.sessions[k].forwarded == By(st.sent, st.senders, k)
  {
    InvAlongRun(run, i);
    LastHundred(run[i].sent);
  }

  /** The frames forwarded for a session are those of what it received; one more may be complete but not yet sent on. */
  lemma ForwardedAreFrames(run: seq<State>, i: nat, k: nat)
    requires Run(run) && i < |run| && k < |run[i].sessions|
    ensures var s := run[i].sessions[k];
      && Concat(s.forwarded) <= s.received
      && s.forwarded <= Frames(s.received) && |Frames(s.received)| <= |s.forwarded| + 1
      && (s.reading.AwaitHeader? ==> s.forwarded == Frames(s.received))
  {
    InvAlongRun(run, i);
    var s := run[i].sessions[k];
    assert SessionOk(s, run[i].sent);
    var rest := StreamSplit(s);
    FramesOfFrames(s.forwarded, rest);
    if s.reading.AwaitBody? {
      assert rest[..HEADER_LENGTH] == rest;
      OneFrameAtMost(rest, rest, Announced(rest).value);
    }
  }

  /**
    * End to end: while a client sends encoded bodies, what the room gets from it are the first of those
    * messages in its order, and all of them once the server has read everything.
    */
  lemma EndToEnd(run: seq<State>, i: nat, k: nat, bodies: seq<Text>)
    requires Run(run) && i < |run| && k < |run[i].sessions|
    requires forall j :: 0 <= j < |bodies| ==> |bodies[j]| <= MAX_BODY_LENGTH
    requires run[i].sessions[k].received <= Concat(Encoded(bodies))
    ensures |run[i].sent| == |run[i].senders|
    ensures var from := By(run[i].sent, run[i].senders, k);
      && from <= Encoded(bodies)
      && (run[i].sessions[k].received == Concat(Encoded(bodies)) && run[i].sessions[k].reading.AwaitHeader? ==>
        from == Encoded(bodies))
  {
    HistoryAndSenders(run, i, k);
    ForwardedAreFrames(run, i, k);
    var s := run[i].sessions[k];
    FramesOfBeginning(s.received, bodies);
    PrefixChain(s.forwarded, Frames(s.received), Encoded(bodies));
  }

  lemma FramesOfBeginning(received: Text, bodies: seq<Text>)
    requires forall j :: 0 <= j < |bodies| ==> |bodies[j]| <= MAX_BODY_LENGTH
    requires received <= Concat(Encoded(bodies))
    ensures Frames(received) <= Encoded(bodies)
    ensures received == Concat(Encoded(bodies)) ==> Frames(received) == Encoded(bodies)
  {
    var all := Concat(Encoded(bodies));
    FramingRoundTrip(bodies);
    FramesOnlyGrow(received, all[|received|..]);
    assert all == received + all[|received|..];
  }

  lemma PrefixChain<T>(a: seq<T>, b: seq<T>, c: seq<T>)
    requires a <= b <= c
    ensures a <= c
  {
  }

  // ------ what later steps do not change ------------------------------------------------------

  /** t continues s: nothing sent, written or forwarded is taken back. */
  ghost predicate Continues(s: State, t: State) {
    && s.sent <= t.sent && |s.sessions| <= |t.sessions|
    && forall k :: 0 <= k < |s.sessions| ==> SessionContinues(s.sessions[k], t.sessions[k])
  }

  /** Who has left is handed nothing more, who has failed writes nothing more, who has stopped reads nothing more. */
  predicate SessionContinues(s: Session, t: Session) {
    && s.joinedAt == t.joinedAt && s.handed <= t.handed && s.completed <= t.completed
    && s.received <= t.received && s.forwarded <= t.forwarded
    && (!s.joined ==> !t.joined && t.leftAt == s.leftAt && t.handed == s.handed)
    && (s.failed ==> t.failed && t.completed == s.completed && t.writeMsgs == s.writeMsgs && t.writes == s.writes)
    && (s.reading.Stopped? ==> t.reading.Stopped? && t.received == s.received && t.forwarded == s.forwarded)
  }

  /** What one handler makes of session k: its own step, and the message that it may be handed. */
  lemma PushContinues(s: Session, msg: Text)
    requires QueueOk(s)
    ensures SessionContinues(s, PushIfJoined(s, msg))
  {
  }

  lemma OwnStepContinues(st: State, a: Action, k: nat)
    requires Enabled(st, a) && !a.Start? && a.i == k && QueueOk(st.sessions[k])
    ensures SessionContinues(st.sessions[k], Step(st, a).sessions[k])
  {
  }

  lemma OtherStepContinues(st: State, a: Action, k: nat)
    requires Enabled(st, a) && k < |st.sessions| && (a.Start? || a.i != k) && QueueOk(st.sessions[k])
    ensures SessionContinues(st.sessions[k], Step(st, a).sessions[k])
  {
    if a.ReadBody? && a.ok {
      PushContinues(st.sessions[k], st.sessions[a.i].reading.header + a.octets);
    }
  }

  ghost predicate QueuesOk(st: State) {
    forall k: nat :: k < |st.sessions| ==> QueueOk(st.sessions[k])
  }

  lemma QueuesAlongRun(run: seq<State>, i: nat)
    requires Run(run) && i < |run|
    ensures QueuesOk(run[i])
  {
    InvAlongRun(run, i);
    forall k: nat | k < |run[i].sessions| ensures QueueOk(run[i].sessions[k]) {
      assert SessionOk(run[i].sessions[k], run[i].sent);
    }
  }

  lemma StepContinues(st: State, a: Action)
    requires QueuesOk(st) && Enabled(st, a)
    ensures Continues(st, Step(st, a))
  {
    forall k: nat | k < |st.sessions| ensures SessionContinues(st.sessions[k], Step(st, a).sessions[k]) {
      if a.Start? || a.i != k {
        OtherStepContinues(st, a, k);
      } else {
        OwnStepContinues(st, a, k);
      }
    }
  }

  lemma NextContinues(st: State, st': State)
    requires QueuesOk(st) && Next(st, st')
    ensures Continues(st, st')
  {
    var a :| Enabled(st, a) && st' == Step(st, a);
    StepContinues(st, a);
  }

  lemma {:induction false} RunContinues(run: seq<State>, i: nat, j: nat)
    requires Run(run) && i <= j < |run|
    ensures Continues(run[i], run[j])
    decreases j
  {
    if i < j {
      RunContinues(run, i, j - 1);
      QueuesAlongRun(run, j - 1);
      StepOf(Init, Next, run, j - 1);
      NextContinues(run[j - 1], run[j]);
      ContinuesIsTransitive(run[i], run[j - 1], run[j]);
    }
  }

  lemma ContinuesIsTransitive(r: State, s: State, t: State)
    requires Continues(r, s) && Continues(s, t)
    ensures Continues(r, t)
  {
    forall k | 0 <= k < |r.sessions| ensures SessionContinues(r.sessions[k], t.sessions[k]) {
      assert SessionContinues(r.sessions[k], s.sessions[k]) && SessionContinues(s.sessions[k], t.sessions[k]);
    }
  }

  // ------ after a failed write ----------------------------------------------------------------

  /** Once a write of a session has failed, its queue is never written again and it is handed nothing more. */
  lemma FailedQueueStays(run: seq<State>, i: nat, j: nat, k: nat)
    requires Run(run) && i <= j < |run| && k < |run[i].sessions| && run[i].sessions[k].failed
    ensures k < |run[j].sessions|
    ensures var s, t := run[i].sessions[k], run[j].sessions[k];
      && t.failed && !t.joined && t.writes == 0
      && t.writeMsgs == s.writeMsgs && t.completed == s.completed && t.handed == s.handed
  {
    RunContinues(run, i, j);
    assert SessionContinues(run[i].sessions[k], run[j].sessions[k]);
    OneWriteInFlight(run, i, k);
    OneWriteInFlight(run, j, k);
  }

  /** A failed write does not touch the session's read. */
  lemma FailedWriteKeepsReading(st: State, k: nat)
    requires Enabled(st, Write(k, false))
    ensures var t := Step(st, Write(k, false)).sessions[k]; t.failed && !t.joined && t.reading == st.sessions[k].reading
  {
  }

  /**
    * A header decides by itself what follows. If it was read without an error and has the shape of an
    * announcement of some length, the session awaits a body and nothing else has changed; otherwise its
    * reads stop and it is out of the room. Its queue and its write are not touched.
    */
  lemma HeaderDecides(st: State, k: nat, ok: bool, octets: Text)
    requires Enabled(st, ReadHeader(k, ok, octets))
    ensures var s, st' := st.sessions[k], Step(st, ReadHeader(k, ok, octets)); var s' := st'.sessions[k];
      && (if ok && exists shape: Shape :: shape.Valid() && shape.Text() == octets && shape.Length().Some?
          then s'.reading == AwaitBody(octets) && s'.joined == s.joined
          else s'.reading == Stopped && !s'.joined)
      && s'.writeMsgs == s.writeMsgs && s'.writes == s.writes && s'.forwarded == s.forwarded
      && st'.sent == st.sent && st'.recent == st.recent && st'.sessions == st.sessions[k := s']
  {
    AnnouncedExactly(octets, Announced(octets));
    if shape: Shape :| shape.Valid() && shape.Text() == octets && shape.Length().Some? {
      AnnouncedExactly(octets, shape.Length());
    }
  }

  /** An error on the read of a body stops the reads of the session and takes it out of the room; nothing is sent. */
  lemma BodyErrorLeaves(st: State, k: nat, octets: Text)
    requires Enabled(st, ReadBody(k, false, octets))
    ensures var s, st' := st.sessions[k], Step(st, ReadBody(k, false, octets)); var s' := st'.sessions[k];
      && s'.reading == Stopped && !s'.joined
      && s'.writeMsgs == s.writeMsgs && s'.writes == s.writes && s'.forwarded == s.forwarded
      && st'.sent == st.sent && st'.recent == st.recent && st'.sessions == st.sessions[k := s']
  {
  }

  /** Whether joined or not, a session has a read outstanding exactly as long as its reads have not stopped. */
  lemma ReadsGoOn(run: seq<State>, i: nat, k: nat)
    requires Run(run) && i < |run| && k < |run[i].sessions|
    ensures !run[i].sessions[k].reading.Stopped? <==>
      exists ok, octets :: Enabled(run[i], ReadHeader(k, ok, octets)) || Enabled(run[i], ReadBody(k, ok, octets))
  {
    InvAlongRun(run, i);
    var s := run[i].sessions[k];
    assert SessionOk(s, run[i].sent);
    if s.reading.AwaitHeader? {
      assert Enabled(run[i], ReadHeader(k, false, []));
    } else if s.reading.AwaitBody? {
      assert Enabled(run[i], ReadBody(k, false, []));
    }
  }

  /**
    * A body that is read without an error is sent to the room, joined or not: it is the last message
    * sent, and exactly the sessions that are in the room are handed it.
    */
  lemma BodyIsSent(st: State, k: nat, octets: Text)
    requires Enabled(st, ReadBody(k, true, octets))
    ensures var msg, st' := st.sessions[k].reading.header + octets, Step(st, ReadBody(k, true, octets));
      && st'.sent == st.sent + [msg] && st'.senders == st.senders + [k]
      && st'.sessions[k].forwarded == st.sessions[k].forwarded + [msg] && |st'.sessions| == |st.sessions|
      && forall j :: 0 <= j < |st.sessions| ==>
          st'.sessions[j].handed == st.sessions[j].handed + if st.sessions[j].joined then [msg] else []
  {
    var st' := Step(st, ReadBody(k, true, octets));
    forall j | 0 <= j < |st.sessions| && !st.sessions[j].joined
      ensures st'.sessions[j].handed == st.sessions[j].handed + []
    {
    }
  }

  /** A session that awaits a header, joined or not, can still send any message: the client sends its frame. */
  lemma StillSends(st: State, k: nat, body: Text)
    requires k < |st.sessions| && st.sessions[k].reading.AwaitHeader? && |body| <= MAX_BODY_LENGTH
    ensures var header := Padded(|body|);
      && Enabled(st, ReadHeader(k, true, header))
      && var st' := Step(st, ReadHeader(k, true, header));
        && Enabled(st', ReadBody(k, true, body))
        && Step(st', ReadBody(k, true, body)).sent == st.sent + [Frame(body)]
        && Step(st', ReadBody(k, true, body)).sessions[k].reading.AwaitHeader?
  {
    HeaderRoundTrip(|body|);
  }

  // ------ progress ----------------------------------------------------------------------------

  function WriteAll(st: State, k: nat, n: nat): State
    requires k < |st.sessions| && QueueOk(st.sessions[k]) && !st.sessions[k].failed && n <= |st.sessions[k].writeMsgs|
    ensures k < |WriteAll(st, k, n).sessions| && |WriteAll(st, k, n).sessions| == |st.sessions|
    decreases n
  {
    if n == 0 then st else WriteAll(WriteOne(st, k), k, n - 1)
  }

  function WriteOne(st: State, k: nat): (st': State)
    requires k < |st.sessions| && QueueOk(st.sessions[k]) && !st.sessions[k].failed && st.sessions[k].writeMsgs != []
    ensures |st'.sessions| == |st.sessions| && QueueOk(st'.sessions[k]) && !st'.sessions[k].failed
    ensures st'.sessions[k].writeMsgs == st.sessions[k].writeMsgs[1..]
    ensures st'.sessions[k].handed == st.sessions[k].handed
  {
    WriteKeepsQueue(st.sessions[k]);
    Step(st, Write(k, true))
  }

  lemma WriteKeepsQueue(s: Session)
    requires QueueOk(s) && s.writes > 0
    ensures QueueOk(AfterWrite(s, true, 0))
  {
    assert s.writeMsgs == [s.writeMsgs[0]] + s.writeMsgs[1..];
    assert (s.completed + [s.writeMsgs[0]]) + s.writeMsgs[1..] == s.completed + s.writeMsgs;
  }

  /** From any state, as many completed writes as there are queued messages bring a session up to date. */
  lemma {:induction false} QueueDrains(st: State, k: nat)
    requires k < |st.sessions| && QueueOk(st.sessions[k]) && !st.sessions[k].failed
    ensures var s := WriteAll(st, k, |st.sessions[k].writeMsgs|).sessions[k];
      s.writeMsgs == [] && s.writes == 0 && s.completed == st.sessions[k].handed
    decreases |st.sessions[k].writeMsgs|
  {
    if st.sessions[k].writeMsgs != [] {
      QueueDrains(WriteOne(st, k), k);
    }
  }
}
