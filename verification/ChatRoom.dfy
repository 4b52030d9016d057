/** The chat server as the program runs it: room and session objects whose completion handlers
    update them in place. Every handler performs exactly one step of the machine in `ChatServer`,
    so what is proved there of every run holds of these objects. */
module ChatRoom {
  import opened Wrappers
  import opened ChatMessages
  import opened Framing
  import opened ChatServer

  /** chat_session. The ghost fields record what has passed through its socket. */
  class ChatSession {
    var readMsg: Message
    var writeMsgs: seq<Message>
    var phase: Phase       // which async_read is outstanding
    var pending: nat       // how many async_write operations are outstanding

    ghost var consumed: seq<Byte>
    ghost var frames: seq<Frame>
    ghost var inbound: seq<Byte>
    ghost var partial: nat
    ghost var failed: bool
    ghost var sent: seq<Message>
    ghost var outbound: seq<Byte>
    ghost var joinAt: nat
    ghost var leftAt: nat

    ghost function ReadSide(): Reader
      reads this
    {
      Reader(phase, readMsg, consumed, frames)
    }

    ghost function WriteSide(): Writer
      reads this
    {
      Writer(writeMsgs, pending, partial, failed, sent, outbound)
    }

    /** A session before start(): read_msg_ has length 0 and holds whatever its memory held. */
    constructor (memory: Message)
      ensures ReadSide() == Reader(ReadStopped, memory.(bodyLength := 0), [], [])
      ensures WriteSide() == IDLE_WRITER && inbound == []
    {
      readMsg, writeMsgs, phase, pending := memory.(bodyLength := 0), [], ReadStopped, 0;
      consumed, frames, inbound := [], [], [];
      partial, failed, sent, outbound := 0, false, [], [];
    }

    method DoWrite()
      modifies `pending, `partial
      ensures WriteSide() == Framing.DoWrite(old(WriteSide()))
    {
      pending := pending + 1;
      partial := 0;
    }

    method Deliver(msg: Message)
      modifies `writeMsgs, `pending, `partial
      ensures WriteSide() == Push(old(WriteSide()), msg)
    {
      var writeInProgress := writeMsgs != [];
      writeMsgs := writeMsgs + [msg];
      if !writeInProgress {
        DoWrite();
      }
    }

    method DoReadHeader()
      modifies `phase
      ensures phase == ReadingHeader
    {
      phase := ReadingHeader;
    }

    /** start(): enter the room, then read the first header. */
    method Start(room: ChatRoom)
      modifies room`participants, `writeMsgs, `pending, `partial, `phase
      ensures room.participants == old(room.participants) + {this} && phase == ReadingHeader
      ensures WriteSide() == PushAll(old(WriteSide()), room.recentMsgs)
    {
      room.Join(this);
      DoReadHeader();
    }

    /** What asio does before it calls a read handler: the bytes go into read_msg_, at `at`. */
    method Fill(at: nat, bytes: seq<Byte>)
      requires at + |bytes| <= BUFFER_LENGTH
      modifies `readMsg, `consumed
      ensures readMsg == old(readMsg).(data := Overwrite(old(readMsg.data), at, bytes))
      ensures consumed == old(consumed) + bytes
    {
      readMsg := readMsg.(data := Overwrite(readMsg.data, at, bytes));
      consumed := consumed + bytes;
    }

    /** Either read handler when its error code is set, after `bytes`: leave the room. */
    method OnReadError(room: ChatRoom, ghost i: nat, bytes: seq<Byte>)
      requires room.Valid() && i < |room.sessions| && room.sessions[i] == this
      requires bytes <= Unread(room.SessionView(this)) && !phase.ReadStopped?
      requires |bytes| < Wanted(ReadSide()) || bytes == []
      modifies room`participants, this
      ensures room.Valid() && Enabled(old(room.View()), ReadFailed(i, |bytes|))
      ensures room.View() == Step(old(room.View()), ReadFailed(i, |bytes|))
    {
      hide HeaderLength, Overwrite;
      ghost var s := room.View();
      assert s.sessions[i] == room.SessionView(this);
      assert Unread(s.sessions[i])[..|bytes|] == bytes;
      Fill(if phase.ReadingHeader? then 0 else HEADER_LENGTH, bytes);
      phase := ReadStopped;
      room.Leave(this);
      room.OneSessionChanged(s, i);
    }

    /** The handler of do_read_header; `failure` is its error code being set, after `bytes`. */
    method OnHeader(room: ChatRoom, ghost i: nat, failure: bool, bytes: seq<Byte>)
      requires room.Valid() && i < |room.sessions| && room.sessions[i] == this
      requires bytes <= Unread(room.SessionView(this)) && phase.ReadingHeader?
      requires if failure then |bytes| < HEADER_LENGTH else |bytes| == HEADER_LENGTH
      modifies room`participants, this
      ensures room.Valid()
      ensures var e := if failure then ReadFailed(i, |bytes|) else HeaderDone(i);
              Enabled(old(room.View()), e) && room.View() == Step(old(room.View()), e)
    {
      if failure {
        OnReadError(room, i, bytes);
      } else {
        Decode(room, i, bytes);
      }
    }

    /** The other branch of that handler: go on to the body if the header is accepted. */
    method Decode(room: ChatRoom, ghost i: nat, bytes: seq<Byte>)
      requires room.Valid() && i < |room.sessions| && room.sessions[i] == this
      requires bytes <= Unread(room.SessionView(this)) && phase.ReadingHeader? && |bytes| == HEADER_LENGTH
      modifies room`participants, this
      ensures room.Valid() && Enabled(old(room.View()), HeaderDone(i))
      ensures room.View() == Step(old(room.View()), HeaderDone(i))
    {
      hide HeaderLength;
      ghost var s := room.View();
      assert s.sessions[i] == room.SessionView(this);
      assert Unread(s.sessions[i])[..|bytes|] == bytes;
      Fill(0, bytes);
      var length := HeaderLength(bytes);
      if length.Some? {
        readMsg := readMsg.(bodyLength := length.value);
        phase := ReadingBody;
      } else {
        readMsg := readMsg.(bodyLength := 0);
        phase := ReadStopped;
        room.Leave(this);
      }
      room.OneSessionChanged(s, i);
    }

    /** The handler of do_read_body. */
    method OnBody(room: ChatRoom, ghost i: nat, failure: bool, bytes: seq<Byte>)
      requires room.Valid() && i < |room.sessions| && room.sessions[i] == this
      requires bytes <= Unread(room.SessionView(this)) && phase.ReadingBody?
      requires if failure then |bytes| < readMsg.bodyLength || bytes == [] else |bytes| == readMsg.bodyLength
      modifies room`participants, room`recentMsgs, room`history, room`origins, this
      modifies room.participants`writeMsgs, room.participants`pending, room.participants`partial
      ensures room.Valid()
      ensures var e := if failure then ReadFailed(i, |bytes|) else BodyDone(i);
              Enabled(old(room.View()), e) && room.View() == Step(old(room.View()), e)
    {
      if failure {
        OnReadError(room, i, bytes);
      } else {
        hide Push, Trim, Wire, HeaderLength, Overwrite;
        ghost var s := room.View();
        assert s.sessions[i] == room.SessionView(this);
        assert Unread(s.sessions[i])[..|bytes|] == bytes;
        Fill(HEADER_LENGTH, bytes);
        HandOn(room, i);
        assert room.View() == Step(s, BodyDone(i)) by {
          var r := BodyRead(s.sessions[i].reader, bytes);
          assert s.sessions[i := s.sessions[i].(reader := r)] == Update(s, i, s.sessions[i].(reader := r)).sessions;
        }
      }
    }

    /** The success branch of that handler: deliver the message, then read the next header. */
    method HandOn(room: ChatRoom, ghost i: nat)
      requires room.Valid() && i < |room.sessions| && room.sessions[i] == this
      modifies `phase, `frames, room`recentMsgs, room`history, room`origins
      modifies room.participants`writeMsgs, room.participants`pending, room.participants`partial
      ensures room.Valid()
      ensures var s := old(room.View());
              var n := s.sessions[i];
              var r := n.reader.(phase := ReadingHeader, frames := n.reader.frames + [Wire(n.reader.msg)]);
              room.View() == Broadcast(s.(sessions := s.sessions[i := n.(reader := r)]), i, n.reader.msg)
    {
      hide Push, Trim, Wire, HeaderLength;
      ghost var s := room.View();
      assert s.sessions[i] == room.SessionView(this);
      room.Deliver(readMsg, i);
      ghost var t := room.View();
      assert t.sessions[i] == room.SessionView(this);
      frames := frames + [Wire(readMsg)];
      DoReadHeader();
      room.OneSessionChanged(t, i);
    }

    /** The handler of do_write. */
    method OnWritten(room: ChatRoom, ghost i: nat, failure: bool)
      requires room.Valid() && i < |room.sessions| && room.sessions[i] == this
      requires if failure then pending > 0 else CanWriteDone(WriteSide())
      modifies room`participants, this
      ensures room.Valid()
      ensures var e := if failure then SendFailed(i) else SendDone(i);
              Enabled(old(room.View()), e) && room.View() == Step(old(room.View()), e)
    {
      hide HeaderLength, Wire;
      ghost var s := room.View();
      assert s.sessions[i] == room.SessionView(this);
      if !failure {
        PopFront();
        assert room.SessionView(this) == s.sessions[i].(writer := WriteDone(s.sessions[i].writer));
      } else {
        pending := pending - 1;
        failed := true;
        room.Leave(this);
      }
      room.OneSessionChanged(s, i);
    }

    /** The success branch of do_write's handler. */
    method PopFront()
      requires CanWriteDone(WriteSide())
      modifies `writeMsgs, `pending, `partial, `sent
      ensures WriteSide() == WriteDone(old(WriteSide()))
    {
      sent := sent + [writeMsgs[0]];
      pending := pending - 1;
      partial := 0;
      writeMsgs := writeMsgs[1..];
      if writeMsgs != [] {
        DoWrite();
      }
    }
  }

  /** chat_room. `sessions` lists every session that was ever started, in order. */
  class ChatRoom {
    var participants: set<ChatSession>
    var recentMsgs: seq<Message>
    ghost var history: seq<Message>
    ghost var origins: seq<nat>
    ghost var sessions: seq<ChatSession>

    ghost predicate Valid()
      reads this
    {
      && (forall i, j :: 0 <= i < j < |sessions| ==> sessions[i] != sessions[j])
      && (forall p :: p in participants ==> p in sessions)
    }

    ghost function SessionView(p: ChatSession): Session
      reads this, p
    {
      Session(p.ReadSide(), p.WriteSide(), p in participants, p.joinAt, p.leftAt, p.inbound)
    }

    ghost function View(): (s: Server)
      reads this, sessions
      ensures |s.sessions| == |sessions|
    {
      Server(history, origins, recentMsgs,
             seq(|sessions|, i requires 0 <= i < |sessions| reads this, sessions => SessionView(sessions[i])))
    }

    /** A state that differs from `s` in session `i` only. */
    lemma OneSessionChanged(s: Server, i: nat)
      requires |s.sessions| == |sessions| && i < |sessions|
      requires forall j :: 0 <= j < |sessions| && j != i ==> SessionView(sessions[j]) == s.sessions[j]
      ensures View().sessions == s.sessions[i := SessionView(sessions[i])]
    {
    }

    /** A state that differs from `s` in one more session. */
    lemma OneSessionAdded(s: Server)
      requires |sessions| == |s.sessions| + 1
      requires forall j :: 0 <= j < |s.sessions| ==> SessionView(sessions[j]) == s.sessions[j]
      ensures View().sessions == s.sessions + [SessionView(sessions[|s.sessions|])]
    {
    }

    constructor ()
      ensures Valid() && View() == EMPTY_SERVER
    {
      participants, recentMsgs := {}, [];
      history, origins, sessions := [], [], [];
    }

    /** join: the session enters the room and is given the recent messages, one by one. */
    method Join(p: ChatSession)
      modifies `participants, p`writeMsgs, p`pending, p`partial
      ensures participants == old(participants) + {p}
      ensures p.WriteSide() == PushAll(old(p.WriteSide()), recentMsgs)
    {
      participants := participants + {p};
      for k := 0 to |recentMsgs|
        invariant participants == old(participants) + {p}
        invariant PushAll(p.WriteSide(), recentMsgs[k..]) == PushAll(old(p.WriteSide()), recentMsgs)
      {
        p.Deliver(recentMsgs[k]);
        assert recentMsgs[k..][1..] == recentMsgs[k + 1..];
      }
    }

    method Leave(p: ChatSession)
      requires Valid() && p in sessions
      modifies `participants, p`leftAt
      ensures Valid()
      ensures SessionView(p) == ChatServer.Leave(old(SessionView(p)), |history|)
      ensures forall q :: q in sessions && q != p ==> SessionView(q) == old(SessionView(q))
    {
      if p in participants {
        p.leftAt := |history|;
      }
      participants := participants - {p};
    }

    /** The first half of deliver: the message is kept among the recent ones. */
    method Keep(msg: Message)
      modifies `recentMsgs
      ensures recentMsgs == Trim(old(recentMsgs) + [msg])
    {
      recentMsgs := recentMsgs + [msg];
      while |recentMsgs| > MAX_RECENT
        invariant Trim(recentMsgs) == Trim(old(recentMsgs) + [msg])
      {
        recentMsgs := recentMsgs[1..];
      }
    }

    /** The second half: every participant gets the message, in an arbitrary order. */
    method Tell(msg: Message)
      modifies participants`writeMsgs, participants`pending, participants`partial
      ensures forall p :: p in participants ==> p.WriteSide() == Push(old(p.WriteSide()), msg)
    {
      hide Push;
      var todo := participants;
      while todo != {}
        invariant todo <= participants
        invariant forall p :: p in participants ==>
          p.WriteSide() == if p in todo then old(p.WriteSide()) else Push(old(p.WriteSide()), msg)
        decreases |todo|
      {
        var p :| p in todo;
        p.Deliver(msg);
        todo := todo - {p};
      }
    }

    method Deliver(msg: Message, ghost from: nat)
      requires Valid()
      modifies `recentMsgs, `history, `origins
      modifies participants`writeMsgs, participants`pending, participants`partial
      ensures Valid() && View() == Broadcast(old(View()), from, msg)
    {
      hide Push, Trim;
      ghost var s := View();
      history, origins := history + [msg], origins + [from];
      Keep(msg);
      Tell(msg);
      forall i | 0 <= i < |sessions|
        ensures SessionView(sessions[i]) == Receive(s.sessions[i], msg)
      {
        assert s.sessions[i] == old(SessionView(sessions[i]));
      }
      assert View().sessions == Broadcast(s, from, msg).sessions;
    }

    /** The handler of async_accept: a new session is made and started. */
    method Accept(memory: Message) returns (p: ChatSession)
      requires Valid()
      modifies `participants, `sessions
      ensures Valid() && fresh(p) && sessions == old(sessions) + [p]
      ensures View() == Step(old(View()), Event.Accept(memory.(bodyLength := 0)))
    {
      hide PushAll, Push, Wire, HeaderLength, Trim;
      ghost var s := View();
      p := new ChatSession(memory);
      p.joinAt, p.leftAt := |history|, |history|;
      p.Start(this);
      sessions := sessions + [p];
      assert SessionView(p) == NewSession(s, memory.(bodyLength := 0));
      OneSessionAdded(s);
    }
  }
}
