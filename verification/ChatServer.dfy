/**
  * The classes of AsioChatServer.cpp. The server keeps, as ghost state, the sessions ever started and the
  * state of ChatProtocol; each completion is shown to be a step of that machine, so that every run of
  * handlers has the properties of ChatTheorems.
  */
module ChatServer {
  import opened ChatMessage
  import opened ChatProtocol
  import opened ChatTheorems

  class ChatSession {
    const room: ChatRoom
    const readMsg: Message
    var writeMsgs: seq<Text>
    // the operations that the io_service has outstanding for the session
    ghost var writes: nat
    ghost var reading: Reading

    /** The fields of a session are those of a session of the state machine. */
    ghost predicate Agrees(m: Session)
      reads this, readMsg, readMsg.data
    {
      && readMsg.Valid()
      && writeMsgs == m.writeMsgs && writes == m.writes && reading == m.reading
      && (reading.AwaitBody? ==>
        readMsg.data[..HEADER_LENGTH] == reading.header && Announced(reading.header) == Some(readMsg.bodyLength))
    }

    constructor (room: ChatRoom)
      ensures this.room == room && fresh(readMsg) && fresh(readMsg.data) && readMsg.Valid()
      ensures writeMsgs == [] && writes == 0
    {
      this.room := room;
      readMsg := new Message();
      writeMsgs := [];
      writes := 0;
      reading := Stopped;
    }

    /** Queues a message, and starts a write if the queue was empty. */
    method Deliver(msg: Text)
      modifies this`writeMsgs, this`writes
      ensures writeMsgs == old(writeMsgs) + [msg]
      ensures writes == old(writes) + Started(old(writeMsgs) == [])
    {
      var writeInProgress := writeMsgs != [];
      writeMsgs := writeMsgs + [msg];
      if !writeInProgress {
        writes := writes + 1;
      }
    }

    /** The session joins its room, which hands it the recent messages, and waits for a header. */
    method Start(ghost now: nat)
      requires readMsg.Valid() && writeMsgs == [] && writes == 0
      modifies this, room`participants
      ensures Agrees(PushAll(Newcomer(now), room.recentMsgs))
      ensures room.participants == old(room.participants) + {this}
    {
      PushAllIs(now, room.recentMsgs);
      room.Join(this);
      reading := AwaitHeader;
    }

    /** The octets of a completed read arrive in the buffer. */
    method Receive(at: nat, octets: Text)
      requires readMsg.data.Length == HEADER_LENGTH + MAX_BODY_LENGTH && at + |octets| <= readMsg.data.Length
      modifies readMsg.data
      ensures readMsg.data[at..at + |octets|] == octets && readMsg.data[..at] == old(readMsg.data[..at])
    {
      forall k | 0 <= k < |octets| {
        readMsg.data[at + k] := octets[k];
      }
    }

    /** A header has been read: wait for its body, or leave. */
    method HandleReadHeader(ok: bool, octets: Text, ghost m: Session, ghost now: nat)
      requires Agrees(m) && reading.AwaitHeader?
      requires |octets| <= HEADER_LENGTH && (ok ==> |octets| == HEADER_LENGTH)
      modifies this`reading, room`participants, readMsg, readMsg.data
      ensures Agrees(AfterHeader(m, ok, octets, now))
      ensures room.participants == if reading.Stopped? then old(room.participants) - {this} else old(room.participants)
    {
      Receive(0, octets);
      assert readMsg.data[..|octets|] == octets;
      var accepted := false;
      if ok {
        accepted := readMsg.DecodeHeader();
      }
      if accepted {
        reading := AwaitBody(octets);
      } else {
        room.Leave(this);
        reading := Stopped;
      }
    }

    /** A body has been read: send the message to the room and wait for a header, or leave. */
    method HandleReadBody(ok: bool, octets: Text, ghost m: Session, ghost now: nat)
      requires Agrees(m) && reading.AwaitBody? && (this in room.participants <==> m.joined)
      requires |octets| <= readMsg.bodyLength && (ok ==> |octets| == readMsg.bodyLength)
      modifies this`reading, room, room.participants`writeMsgs, room.participants`writes, readMsg.data
      ensures ok ==> room.participants == old(room.participants)
      ensures ok ==> room.recentMsgs == Trim(old(room.recentMsgs) + [m.reading.header + octets])
      ensures ok ==> forall p: ChatSession :: p in room.participants ==> p.Pushed(m.reading.header + octets)
      ensures ok ==> Agrees(PushIfJoined(AfterBody(m, ok, octets, now), m.reading.header + octets))
      ensures !ok ==> room.participants == old(room.participants) - {this} && room.recentMsgs == old(room.recentMsgs)
      ensures !ok ==> forall p: ChatSession :: p in old(room.participants) && p != this ==>
        p.writeMsgs == old(p.writeMsgs) && p.writes == old(p.writes)
      ensures !ok ==> Agrees(AfterBody(m, ok, octets, now))
    {
      Receive(HEADER_LENGTH, octets);
      if ok {
        var n := readMsg.Length();
        Joins(readMsg.data[..n], reading.header, octets);
        room.Deliver(readMsg.data[..n]);
        reading := AwaitHeader;
      } else {
        room.Leave(this);
        reading := Stopped;
      }
    }

    /** msg has been handed to the session. */
    twostate predicate Pushed(msg: Text)
      reads this
    {
      && writeMsgs == old(writeMsgs) + [msg]
      && writes == old(writes) + Started(old(writeMsgs) == [])
    }

    /** A write has completed: start the next one if there is one; on an error leave. */
    method HandleWrite(ok: bool, ghost m: Session, ghost now: nat)
      requires Agrees(m) && writes > 0 && writeMsgs != []
      modifies this`writeMsgs, this`writes, room`participants
      ensures Agrees(AfterWrite(m, ok, now))
      ensures room.participants == if ok then old(room.participants) else old(room.participants) - {this}
    {
      writes := writes - 1;
      if ok {
        writeMsgs := writeMsgs[1..];
        if writeMsgs != [] {
          writes := writes + 1;
        }
      } else {
        room.Leave(this);
      }
    }
  }

  lemma Joins(data: Text, header: Text, octets: Text)
    requires |header| <= |data| && data[..|header|] == header && data[|header|..] == octets
    ensures data == header + octets
  {
  }

  class ChatRoom {
    var participants: set<ChatSession>
    var recentMsgs: seq<Text>

    constructor ()
      ensures participants == {} && recentMsgs == []
    {
      participants, recentMsgs := {}, [];
    }

    /** The recent messages are handed to a newcomer, oldest first. */
    method Join(p: ChatSession)
      modifies this`participants, p`writeMsgs, p`writes
      ensures participants == old(participants) + {p}
      ensures p.writeMsgs == old(p.writeMsgs) + recentMsgs
      ensures p.writes == old(p.writes) + Started(old(p.writeMsgs) == [] && recentMsgs != [])
    {
      participants := participants + {p};
      for k := 0 to |recentMsgs|
        invariant participants == old(participants) + {p}
        invariant p.writeMsgs == old(p.writeMsgs) + recentMsgs[..k]
        invariant p.writes == old(p.writes) + Started(old(p.writeMsgs) == [] && k > 0)
      {
        p.Deliver(recentMsgs[k]);
      }
      assert recentMsgs[..|recentMsgs|] == recentMsgs;
    }

    method Leave(p: ChatSession)
      modifies this`participants
      ensures participants == old(participants) - {p}
    {
      participants := participants - {p};
    }

    /** A message is remembered, the oldest forgotten beyond 100, and handed to every participant. */
    method Deliver(msg: Text)
      modifies this`recentMsgs, participants`writeMsgs, participants`writes
      ensures recentMsgs == Trim(old(recentMsgs) + [msg])
      ensures |recentMsgs| == if |old(recentMsgs)| < 100 then |old(recentMsgs)| + 1 else 100
      ensures forall p: ChatSession :: p in participants ==> p.Pushed(msg)
    {
      Remember(msg);
      var rest := participants;
      while rest != {}
        invariant rest <= participants && recentMsgs == Trim(old(recentMsgs) + [msg])
        invariant forall p: ChatSession :: p in rest ==> p.writeMsgs == old(p.writeMsgs) && p.writes == old(p.writes)
        invariant forall p: ChatSession :: p in participants - rest ==> p.Pushed(msg)
        decreases |rest|
      {
        var p :| p in rest;
        p.Deliver(msg);
        rest := rest - {p};
      }
    }

    method Remember(msg: Text)
      modifies this`recentMsgs
      ensures recentMsgs == Trim(old(recentMsgs) + [msg])
    {
      recentMsgs := recentMsgs + [msg];
      ghost var all := recentMsgs;
      assert all[0..] == all;
      while |recentMsgs| > MAX_RECENT
        invariant |recentMsgs| <= |all| && recentMsgs == all[|all| - |recentMsgs|..]
        invariant |recentMsgs| >= MAX_RECENT || recentMsgs == all
      {
        recentMsgs := recentMsgs[1..];
      }
    }
  }

  /** A complete body, seen session by session. */
  lemma BodyPushes(st: State, i: nat, octets: Text, msg: Text, next: State)
    requires Enabled(st, ReadBody(i, true, octets)) && msg == st.sessions[i].reading.header + octets
    requires next == Step(st, ReadBody(i, true, octets))
    ensures next.recent == Trim(st.recent + [msg]) && |next.sessions| == |st.sessions|
    ensures next.sessions[i] == PushIfJoined(AfterBody(st.sessions[i], true, octets, |st.sent|), msg)
    ensures forall j: nat :: j < |st.sessions| && j != i ==> next.sessions[j] == PushIfJoined(st.sessions[j], msg)
  {
  }

  /** No two sessions share anything that a handler changes. */
  ghost predicate Apart(sessions: seq<ChatSession>) {
    forall i, j :: 0 <= i < j < |sessions| ==> Separate(sessions[i], sessions[j])
  }

  ghost predicate Separate(s: ChatSession, t: ChatSession) {
    s != t && s.readMsg != t.readMsg && s.readMsg.data != t.readMsg.data
  }

  /** The server and the operations of its io_service that complete. */
  class ChatServer {
    const room: ChatRoom
    ghost var sessions: seq<ChatSession>
    ghost var model: State

    /** Session i and its membership are what the state machine says. */
    ghost predicate Follows(i: nat)
      requires i < |sessions| && |sessions| == |model.sessions|
      reads this, room, sessions[i], sessions[i].readMsg, sessions[i].readMsg.data
    {
      && sessions[i].room == room && sessions[i].Agrees(model.sessions[i])
      && (sessions[i] in room.participants <==> model.sessions[i].joined)
    }

    ghost predicate Valid()
      reads this, room, sessions
      reads set s: ChatSession | s in sessions :: s.readMsg
      reads set s: ChatSession | s in sessions :: s.readMsg.data
    {
      Reachable(model) && Coupled()
    }

    /** The server is in the state of the machine. */
    ghost predicate Coupled()
      reads this, room, sessions
      reads set s: ChatSession | s in sessions :: s.readMsg
      reads set s: ChatSession | s in sessions :: s.readMsg.data
    {
      && room.recentMsgs == model.recent
      && |sessions| == |model.sessions| && Apart(sessions)
      && (forall i: nat :: i < |sessions| ==> Follows(i))
      && forall p: ChatSession :: p in room.participants ==> p in sessions
    }

    constructor ()
      ensures Valid() && Init(model) && sessions == []
    {
      room := new ChatRoom();
      sessions, model := [], State([], [], [], []);
      ReachableInit();
    }

    /** What does not touch a session leaves it as it was. */
    twostate lemma Unchanged(j: nat)
      requires j < |old(sessions)| <= |sessions| && |old(sessions)| == |old(model).sessions|
      requires |sessions| == |model.sessions| && sessions[j] == old(sessions)[j]
      requires old(Follows(j)) && model.sessions[j] == old(model).sessions[j]
      requires unchanged(sessions[j], sessions[j].readMsg, sessions[j].readMsg.data)
      requires sessions[j] in room.participants <==> sessions[j] in old(room.participants)
      ensures Follows(j)
    {
    }

    /** A message handed to the participants is pushed to exactly the joined sessions. */
    twostate lemma Pushed(j: nat, new msg: Text)
      requires sessions == old(sessions) && j < |sessions| == |old(model).sessions| == |model.sessions|
      requires old(Follows(j)) && model.sessions[j] == PushIfJoined(old(model).sessions[j], msg)
      requires unchanged(sessions[j].readMsg, sessions[j].readMsg.data)
      requires sessions[j].reading == old(sessions[j].reading)
      requires room.participants == old(room.participants)
      requires sessions[j] in room.participants ==> sessions[j].Pushed(msg)
      requires sessions[j] !in room.participants ==> unchanged(sessions[j])
      ensures Follows(j)
    {
    }

    lemma Others(i: nat, j: nat)
      requires Apart(sessions) && i < |sessions| && j < |sessions| && i != j
      ensures Separate(sessions[i], sessions[j])
    {
    }

    /** A connection has been accepted: start its session. */
    method HandleAccept(session: ChatSession, error: bool)
      requires Valid() && session.room == room && session.readMsg.Valid()
      requires session.writeMsgs == [] && session.writes == 0
      requires Apart(sessions + [session]) && session !in room.participants
      modifies this, session, room`participants
      ensures Valid()
      ensures if error then model == old(model) && sessions == old(sessions)
        else model == Step(old(model), Start) && sessions == old(sessions) + [session]
    {
      if !error {
        ReachableStep(model, Start);
        PushAllIs(|model.sent|, room.recentMsgs);
        Accepted(session, PushAll(Newcomer(|model.sent|), model.recent));
      }
    }

    method Accepted(session: ChatSession, ghost m: Session)
      requires Coupled() && session.room == room && session.readMsg.Valid()
      requires session.writeMsgs == [] && session.writes == 0
      requires Apart(sessions + [session]) && session !in room.participants
      requires m == PushAll(Newcomer(|model.sent|), room.recentMsgs) && m.joined
      modifies this, session, room`participants
      ensures Coupled() && sessions == old(sessions) + [session]
      ensures model == old(model).(sessions := old(model).sessions + [m])
    {
      session.Start(|model.sent|);
      sessions := sessions + [session];
      model := model.(sessions := model.sessions + [m]);
      forall j: nat | j < |old(sessions)| ensures Follows(j) {
        Others(j, |old(sessions)|);
        Unchanged(j);
      }
    }

    /**
      * What the objects promise at any time: the room remembers the last 100 messages; what a session has
      * written and still queues is the last 100 messages before it joined and all until it left; one write
      * is in flight exactly while the queue is not empty, unless a write has failed; and the participants
      * are the sessions of which no write has failed and the reads have not stopped.
      */
    lemma Promises(i: nat)
      requires Valid() && i < |sessions|
      ensures room.recentMsgs == Trim(model.sent)
      ensures i < |model.sessions|
      ensures var m := model.sessions[i];
        && m.joinedAt <= Until(m, |model.sent|) <= |model.sent|
        && m.completed + sessions[i].writeMsgs
          == Trim(model.sent[..m.joinedAt]) + model.sent[m.joinedAt..Until(m, |model.sent|)]
        && sessions[i].writes == (if sessions[i].writeMsgs != [] && !m.failed then 1 else 0)
        && (sessions[i] in room.participants <==> !m.failed && !sessions[i].reading.Stopped?)
    {
      var run := ReachingRun(model);
      Delivery(run, |run| - 1, i);
      OneWriteInFlight(run, |run| - 1, i);
      ReachableInv(model);
      assert Follows(i);
    }

    method HeaderRead(session: ChatSession, ghost i: nat, ok: bool, octets: Text)
      requires Valid() && i < |sessions| && sessions[i] == session
      requires Enabled(model, ReadHeader(i, ok, octets))
      modifies this`model, session`reading, room`participants, session.readMsg, session.readMsg.data
      ensures Valid() && model == Step(old(model), ReadHeader(i, ok, octets))
    {
      ReachableStep(model, ReadHeader(i, ok, octets));
      assert Follows(i);
      HeaderComplete(session, i, ok, octets, Step(model, ReadHeader(i, ok, octets)));
    }

    method HeaderComplete(session: ChatSession, ghost i: nat, ok: bool, octets: Text, ghost next: State)
      requires Coupled() && i < |sessions| && sessions[i] == session && session.reading.AwaitHeader?
      requires |octets| <= HEADER_LENGTH && (ok ==> |octets| == HEADER_LENGTH)
      requires next == model.(sessions := model.sessions[i := AfterHeader(model.sessions[i], ok, octets, |model.sent|)])
      modifies this`model, session`reading, room`participants, session.readMsg, session.readMsg.data
      ensures Coupled() && model == next
    {
      assert Follows(i);
      session.HandleReadHeader(ok, octets, model.sessions[i], |model.sent|);
      model := next;
      forall j: nat | j < |sessions| && j != i ensures Follows(j) {
        Others(i, j);
        Unchanged(j);
      }
    }

    /** A body has been read; without an error its message reaches every participant. */
    method BodyRead(session: ChatSession, ghost i: nat, ok: bool, octets: Text)
      requires Valid() && i < |sessions| && sessions[i] == session
      requires Enabled(model, ReadBody(i, ok, octets))
      modifies this`model, session`reading, session.readMsg.data
      modifies room, room.participants`writeMsgs, room.participants`writes
      ensures Valid() && model == Step(old(model), ReadBody(i, ok, octets))
    {
      ReachableStep(model, ReadBody(i, ok, octets));
      if ok {
        ghost var msg := model.sessions[i].reading.header + octets;
        ghost var next := Step(model, ReadBody(i, true, octets));
        BodyPushes(model, i, octets, msg, next);
        assert Follows(i);
        BodyComplete(session, i, octets, msg, next);
      } else {
        assert Follows(i);
        BodyFailed(session, i, octets, Step(model, ReadBody(i, false, octets)));
      }
    }

    method BodyComplete(session: ChatSession, ghost i: nat, octets: Text, ghost msg: Text, ghost next: State)
      requires Coupled() && i < |sessions| && sessions[i] == session && session.reading.AwaitBody?
      requires |octets| == session.readMsg.bodyLength && msg == session.reading.header + octets
      requires model.sessions[i].reading == session.reading
      requires next.recent == Trim(model.recent + [msg]) && |next.sessions| == |model.sessions|
      requires next.sessions[i] == PushIfJoined(AfterBody(model.sessions[i], true, octets, |model.sent|), msg)
      requires forall j: nat :: j < |model.sessions| && j != i ==>
        next.sessions[j] == PushIfJoined(model.sessions[j], msg)
      modifies this`model, session`reading, session.readMsg.data
      modifies room, room.participants`writeMsgs, room.participants`writes
      ensures Coupled() && model == next
    {
      assert Follows(i);
      session.HandleReadBody(true, octets, model.sessions[i], |model.sent|);
      model := next;
      forall j: nat | j < |sessions| && j != i ensures Follows(j) {
        Others(i, j);
        Pushed(j, msg);
      }
    }

    method BodyFailed(session: ChatSession, ghost i: nat, octets: Text, ghost next: State)
      requires Coupled() && i < |sessions| && sessions[i] == session && session.reading.AwaitBody?
      requires |octets| <= session.readMsg.bodyLength && model.sessions[i].reading == session.reading
      requires next ==
        model.(sessions := model.sessions[i := AfterBody(model.sessions[i], false, octets, |model.sent|)])
      modifies this`model, session`reading, session.readMsg.data
      modifies room, room.participants`writeMsgs, room.participants`writes
      ensures Coupled() && model == next
    {
      assert Follows(i);
      session.HandleReadBody(false, octets, model.sessions[i], |model.sent|);
      model := next;
      forall j: nat | j < |sessions| && j != i ensures Follows(j) {
        Others(i, j);
        Unchanged(j);
      }
    }

    method Written(session: ChatSession, ghost i: nat, ok: bool)
      requires Valid() && i < |sessions| && sessions[i] == session
      requires Enabled(model, Write(i, ok))
      modifies this`model, session`writeMsgs, session`writes, room`participants
      ensures Valid() && model == Step(old(model), Write(i, ok))
    {
      ReachableStep(model, Write(i, ok));
      assert Follows(i);
      WriteComplete(session, i, ok, Step(model, Write(i, ok)));
    }

    method WriteComplete(session: ChatSession, ghost i: nat, ok: bool, ghost next: State)
      requires Coupled() && i < |sessions| && sessions[i] == session && session.writes > 0 && session.writeMsgs != []
      requires model.sessions[i].writes == session.writes && model.sessions[i].writeMsgs == session.writeMsgs
      requires next == model.(sessions := model.sessions[i := AfterWrite(model.sessions[i], ok, |model.sent|)])
      modifies this`model, session`writeMsgs, session`writes, room`participants
      ensures Coupled() && model == next
    {
      assert Follows(i);
      session.HandleWrite(ok, model.sessions[i], |model.sent|);
      model := next;
      forall j: nat | j < |sessions| && j != i ensures Follows(j) {
        Others(i, j);
        Unchanged(j);
      }
    }
  }
}
