/** The chat server as a state machine: one room and any number of sessions.

    Every completion handler of the io_context is one atomic step. The sockets are represented by
    the bytes that have arrived and have not been read, and by the bytes put on the wire. */
module ChatServer {
  import opened Wrappers
  import opened ChatMessages
  import opened Framing

  const MAX_RECENT: nat := 100

  /** A chat_session. `joined` says that it is in participants_; `joinAt` and `leftAt` record how
      many messages the room had delivered when the session entered and when it was removed. */
  datatype Session = Session(reader: Reader, writer: Writer, joined: bool,
                             joinAt: nat, leftAt: nat, inbound: seq<Byte>)

  /** `recent` is recent_msgs_; `history` records every message ever passed to the room's deliver,
      and `origins` the session that passed it. */
  datatype Server = Server(history: seq<Message>, origins: seq<nat>, recent: seq<Message>,
                           sessions: seq<Session>)

  const EMPTY_SERVER := Server([], [], [], [])

  // ---------- chat_room ----------

  /** The trimming loop of deliver. */
  function Trim(ms: seq<Message>): (r: seq<Message>) {
    if |ms| > MAX_RECENT then Trim(ms[1..]) else ms
  }

  function NewSession(s: Server, msg: Message): (n: Session) {
    Session(Reader(ReadingHeader, msg, [], []), PushAll(IDLE_WRITER, s.recent), true,
            |s.history|, |s.history|, [])
  }

  function Leave(n: Session, now: nat): (n': Session) {
    if n.joined then n.(joined := false, leftAt := now) else n
  }

  /** What a broadcast does to one session. */
  function Receive(n: Session, m: Message): (n': Session) {
    if n.joined then n.(writer := Push(n.writer, m)) else n
  }

  function Broadcast(s: Server, from: nat, m: Message): (s': Server)
    ensures |s'.sessions| == |s.sessions|
  {
    Server(s.history + [m], s.origins + [from], Trim(s.recent + [m]),
           seq(|s.sessions|, i requires 0 <= i < |s.sessions| => Receive(s.sessions[i], m)))
  }

  // ---------- the steps ----------

  datatype Event =
    | Accept(msg: Message)                    // async_accept succeeded; msg is the uninitialised read_msg_
    | Arrive(i: nat, bytes: seq<Byte>)        // bytes of the peer reach the socket
    | HeaderDone(i: nat)                      // async_read of a header completed
    | BodyDone(i: nat)                        // async_read of a body completed
    | ReadFailed(i: nat, n: nat)              // async_read failed after n bytes
    | Written(i: nat, n: nat)                 // the outstanding async_write moved n bytes
    | SendDone(i: nat)                        // async_write completed
    | SendFailed(i: nat)                      // async_write failed

  /** The bytes that have arrived and have not been read. */
  function Unread(n: Session): (s: seq<Byte>) {
    if |n.reader.consumed| <= |n.inbound| then n.inbound[|n.reader.consumed|..] else []
  }

  predicate Enabled(s: Server, e: Event) {
    e.Accept? ||
    (e.i < |s.sessions| &&
     var n := s.sessions[e.i];
     match e
     case Accept(_) => true
     case Arrive(_, _) => true
     case HeaderDone(_) => n.reader.phase.ReadingHeader? && |Unread(n)| >= Wanted(n.reader)
     case BodyDone(_) => n.reader.phase.ReadingBody? && |Unread(n)| >= Wanted(n.reader)
     case ReadFailed(_, k) =>
       !n.reader.phase.ReadStopped? && k <= |Unread(n)| && (k < Wanted(n.reader) || k == 0)
     case Written(_, k) => CanWriteSome(n.writer, k)
     case SendDone(_) => CanWriteDone(n.writer)
     case SendFailed(_) => n.writer.pending > 0)
  }

  function Update(s: Server, i: nat, n: Session): (s': Server)
    requires i < |s.sessions|
  {
    s.(sessions := s.sessions[i := n])
  }

  function Step(s: Server, e: Event): (s': Server)
    requires Enabled(s, e)
  {
    match e
    case Accept(msg) => s.(sessions := s.sessions + [NewSession(s, msg)])
    case Arrive(i, bytes) =>
      var n := s.sessions[i];
      Update(s, i, n.(inbound := n.inbound + bytes))
    case HeaderDone(i) =>
      var n := s.sessions[i];
      var r := HeaderRead(n.reader, Unread(n)[..Wanted(n.reader)]);
      var n' := n.(reader := r);
      Update(s, i, if r.phase.ReadStopped? then Leave(n', |s.history|) else n')
    case BodyDone(i) =>
      var n := s.sessions[i];
      var r := BodyRead(n.reader, Unread(n)[..Wanted(n.reader)]);
      Broadcast(Update(s, i, n.(reader := r)), i, r.msg)
    case ReadFailed(i, k) =>
      var n := s.sessions[i];
      Update(s, i, Leave(n.(reader := ReadError(n.reader, Unread(n)[..k])), |s.history|))
    case Written(i, k) =>
      var n := s.sessions[i];
      Update(s, i, n.(writer := WriteSome(n.writer, k)))
    case SendDone(i) =>
      var n := s.sessions[i];
      Update(s, i, n.(writer := WriteDone(n.writer)))
    case SendFailed(i) =>
      var n := s.sessions[i];
      Update(s, i, Leave(n.(writer := WriteError(n.writer)), |s.history|))
  }

  // ---------- what every step keeps ----------

  /** Where the history slice of a session starts: at most MAX_RECENT messages before it joined. */
  function SliceStart(n: Session): (k: nat) {
    if n.joinAt <= MAX_RECENT then 0 else n.joinAt - MAX_RECENT
  }

  /** Where it ends: now, or where the session was when it was removed. */
  function SliceEnd(n: Session, now: nat): (k: nat) {
    if n.joined then now else n.leftAt
  }

  /** The last min(MAX_RECENT, n) messages of a history. */
  function LastRecent(history: seq<Message>): (ms: seq<Message>) {
    if |history| <= MAX_RECENT then history else history[|history| - MAX_RECENT..]
  }

  ghost predicate SessionInv(n: Session, history: seq<Message>) {
    && ReaderInv(n.reader)
    && WriterInv(n.writer)
    && n.reader.consumed <= n.inbound
    && n.joinAt <= n.leftAt <= |history|
    && Accepted(n.writer) == history[SliceStart(n)..SliceEnd(n, |history|)]
    && (n.joined <==> !n.reader.phase.ReadStopped? && !n.writer.failed)
  }

  /** The frames that session `i` has contributed to the history. */
  function From(history: seq<Message>, origins: seq<nat>, i: nat): (fs: seq<Frame>)
    requires |history| == |origins|
  {
    if history == [] then []
    else
      var last := |history| - 1;
      var before := From(history[..last], origins[..last], i);
      if origins[last] == i then before + [Wire(history[last])] else before
  }

  ghost predicate ServerInv(s: Server) {
    && |s.origins| == |s.history|
    && s.recent == LastRecent(s.history)
    && (forall k :: 0 <= k < |s.history| ==> WellHeaded(s.history[k]))
    && (forall k :: 0 <= k < |s.history| ==> s.origins[k] < |s.sessions|)
    && (forall i :: 0 <= i < |s.sessions| ==> SessionInv(s.sessions[i], s.history))
    && (forall i :: 0 <= i < |s.sessions| ==>
          s.sessions[i].reader.frames == From(s.history, s.origins, i))
  }

  lemma {:induction false} TrimIsLast(ms: seq<Message>)
    ensures Trim(ms) == LastRecent(ms)
  {
    if |ms| > MAX_RECENT {
      TrimIsLast(ms[1..]);
    }
  }

  /** recent_msgs_ stays the tail of the history. */
  lemma RecentAfter(history: seq<Message>, m: Message)
    ensures Trim(LastRecent(history) + [m]) == LastRecent(history + [m])
  {
    TrimIsLast(LastRecent(history) + [m]);
  }

  lemma {:induction false} FromNobody(history: seq<Message>, origins: seq<nat>, i: nat)
    requires |history| == |origins|
    requires forall k :: 0 <= k < |origins| ==> origins[k] != i
    ensures From(history, origins, i) == []
  {
    if history != [] {
      FromNobody(history[..|history| - 1], origins[..|history| - 1], i);
    }
  }

  /** A new session is given exactly the recent messages. */
  lemma NewSessionInv(s: Server, msg: Message)
    requires s.recent == LastRecent(s.history)
    ensures SessionInv(NewSession(s, msg), s.history)
  {
    hide PushAll, WriterInv;
    IdleWriterInv();
    var n := NewSession(s, msg);
    PushAllInv(IDLE_WRITER, s.recent);
    assert Accepted(IDLE_WRITER) + s.recent == s.recent;
    assert s.history[SliceStart(n)..|s.history|] == s.recent;
  }

  lemma AcceptKeepsInv(s: Server, msg: Message)
    requires ServerInv(s)
    ensures ServerInv(Step(s, Accept(msg)))
  {
    NewSessionInv(s, msg);
    FromNobody(s.history, s.origins, |s.sessions|);
    var s' := s.(sessions := s.sessions + [NewSession(s, msg)]);
    forall i | 0 <= i < |s'.sessions|
      ensures SessionInv(s'.sessions[i], s'.history)
      ensures s'.sessions[i].reader.frames == From(s'.history, s'.origins, i)
    {
      assert i < |s.sessions| ==> s'.sessions[i] == s.sessions[i];
    }
  }

  /** Replacing one session by a good one with the same handed frames keeps the invariant. */
  lemma UpdateKeepsInv(s: Server, i: nat, n: Session)
    requires ServerInv(s) && i < |s.sessions| && SessionInv(n, s.history)
    requires n.reader.frames == s.sessions[i].reader.frames
    ensures ServerInv(Update(s, i, n))
  {
    hide WriterInv, ReaderInv;
  }

  lemma ReceiveKeepsInv(n: Session, history: seq<Message>, m: Message)
    requires SessionInv(n, history)
    ensures SessionInv(Receive(n, m), history + [m])
  {
    hide WriterInv, ReaderInv;
    PushInv(n.writer, m);
    var all := history + [m];
    if n.joined {
      assert all[SliceStart(n)..|all|] == history[SliceStart(n)..|history|] + [m];
    } else {
      assert all[SliceStart(n)..n.leftAt] == history[SliceStart(n)..n.leftAt];
    }
  }

  /** One delivery: every participant gets the message, the others keep what they have. */
  lemma BroadcastKeepsInv(s: Server, i: nat, n: Session)
    requires ServerInv(s) && i < |s.sessions|
    requires SessionInv(n, s.history) && WellHeaded(n.reader.msg)
    requires n.reader.frames == s.sessions[i].reader.frames + [Wire(n.reader.msg)]
    ensures ServerInv(Broadcast(Update(s, i, n), i, n.reader.msg))
  {
    hide WriterInv, ReaderInv;
    var m := n.reader.msg;
    var u := Update(s, i, n);
    var s' := Broadcast(u, i, m);
    RecentAfter(s.history, m);
    forall j | 0 <= j < |s'.sessions|
      ensures SessionInv(s'.sessions[j], s'.history)
      ensures s'.sessions[j].reader.frames == From(s'.history, s'.origins, j)
    {
      ReceiveKeepsInv(u.sessions[j], s.history, m);
      assert s'.history[..|s.history|] == s.history && s'.origins[..|s.history|] == s.origins;
    }
  }

  lemma BodyDoneKeepsInv(s: Server, i: nat)
    requires ServerInv(s) && Enabled(s, BodyDone(i))
    ensures ServerInv(Step(s, BodyDone(i)))
  {
    hide WriterInv, ReaderInv, Wire, Broadcast;
    var n := s.sessions[i];
    var bytes := Unread(n)[..Wanted(n.reader)];
    var r := BodyRead(n.reader, bytes);
    BodyReadInv(n.reader, bytes);
    BodyReadKeepsSession(n, s.history, bytes);
    BroadcastKeepsInv(s, i, n.(reader := r));
  }

  lemma BodyReadKeepsSession(n: Session, history: seq<Message>, bytes: seq<Byte>)
    requires SessionInv(n, history) && n.reader.phase.ReadingBody?
    requires bytes <= Unread(n) && |bytes| == Wanted(n.reader)
    ensures SessionInv(n.(reader := BodyRead(n.reader, bytes)), history)
  {
    hide WriterInv, ReaderInv, Wire;
    BodyReadInv(n.reader, bytes);
  }

  /** A session that read some of its bytes and handed nothing on, and perhaps left. */
  lemma ReadingKeepsSession(n: Session, history: seq<Message>, r: Reader)
    requires SessionInv(n, history) && ReaderInv(r) && r.consumed <= n.inbound
    requires !n.reader.phase.ReadStopped?
    ensures !r.phase.ReadStopped? ==> SessionInv(n.(reader := r), history)
    ensures r.phase.ReadStopped? ==> SessionInv(Leave(n.(reader := r), |history|), history)
  {
    hide WriterInv, ReaderInv;
  }

  lemma HeaderDoneKeepsInv(s: Server, i: nat)
    requires ServerInv(s) && Enabled(s, HeaderDone(i))
    ensures ServerInv(Step(s, HeaderDone(i)))
  {
    hide WriterInv, ReaderInv;
    var n := s.sessions[i];
    var bytes := Unread(n)[..Wanted(n.reader)];
    var r := HeaderRead(n.reader, bytes);
    HeaderReadInv(n.reader, bytes);
    ReadingKeepsSession(n, s.history, r);
    UpdateKeepsInv(s, i, if r.phase.ReadStopped? then Leave(n.(reader := r), |s.history|) else n.(reader := r));
  }

  lemma ReadFailedKeepsInv(s: Server, i: nat, k: nat)
    requires ServerInv(s) && Enabled(s, ReadFailed(i, k))
    ensures ServerInv(Step(s, ReadFailed(i, k)))
  {
    hide WriterInv, ReaderInv;
    var n := s.sessions[i];
    var r := ReadError(n.reader, Unread(n)[..k]);
    ReadErrorInv(n.reader, Unread(n)[..k]);
    ReadingKeepsSession(n, s.history, r);
    UpdateKeepsInv(s, i, Leave(n.(reader := r), |s.history|));
  }

  /** A write side that moved on without taking or losing a message. */
  lemma WritingKeepsInv(s: Server, i: nat, w: Writer)
    requires ServerInv(s) && i < |s.sessions| && WriterInv(w)
    requires Accepted(w) == Accepted(s.sessions[i].writer) && w.failed == s.sessions[i].writer.failed
    ensures ServerInv(Update(s, i, s.sessions[i].(writer := w)))
  {
    hide ReaderInv, WriterInv;
    assert SessionInv(s.sessions[i], s.history);
    UpdateKeepsInv(s, i, s.sessions[i].(writer := w));
  }

  lemma SendFailedKeepsInv(s: Server, i: nat)
    requires ServerInv(s) && Enabled(s, SendFailed(i))
    ensures ServerInv(Step(s, SendFailed(i)))
  {
    hide ReaderInv;
    var n := s.sessions[i];
    assert SessionInv(n, s.history);
    UpdateKeepsInv(s, i, Leave(n.(writer := WriteError(n.writer)), |s.history|));
  }

  lemma StepKeepsInv(s: Server, e: Event)
    requires ServerInv(s) && Enabled(s, e)
    ensures ServerInv(Step(s, e))
  {
    match e {
      case Accept(msg) => AcceptKeepsInv(s, msg);
      case Arrive(i, bytes) => UpdateKeepsInv(s, i, Step(s, e).sessions[i]);
      case HeaderDone(i) => HeaderDoneKeepsInv(s, i);
      case BodyDone(i) => BodyDoneKeepsInv(s, i);
      case ReadFailed(i, k) => ReadFailedKeepsInv(s, i, k);
      case Written(i, k) =>
        WriteSomeInv(s.sessions[i].writer, k);
        WritingKeepsInv(s, i, WriteSome(s.sessions[i].writer, k));
      case SendDone(i) =>
        WriteDoneInv(s.sessions[i].writer);
        WritingKeepsInv(s, i, WriteDone(s.sessions[i].writer));
      case SendFailed(i) => SendFailedKeepsInv(s, i);
    }
  }

  // ---------- every run ----------

  /** A run: it starts with an empty room, and each state follows from the one before by the event
      recorded for it. */
  ghost predicate IsRun(run: seq<Server>, events: seq<Event>) {
    && |run| == |events| + 1
    && run[0] == EMPTY_SERVER
    && (forall k :: 0 <= k < |events| ==> Enabled(run[k], events[k]) && run[k + 1] == Step(run[k], events[k]))
  }

  lemma {:induction false} RunKeepsInv(run: seq<Server>, events: seq<Event>, k: nat)
    requires IsRun(run, events) && k < |run|
    ensures ServerInv(run[k])
  {
    if k > 0 {
      RunKeepsInv(run, events, k - 1);
      StepKeepsInv(run[k - 1], events[k - 1]);
    }
  }

  /** At every point of every run, what a session has written followed by what it still has to write
      is one contiguous slice of the room's history: from at most MAX_RECENT messages before it
      joined up to now, or up to where it left. Nothing is lost, repeated or reordered. */
  lemma SessionReceivesSlice(run: seq<Server>, events: seq<Event>, k: nat, i: nat)
    requires IsRun(run, events) && k < |run| && i < |run[k].sessions|
    ensures var n := run[k].sessions[i];
            && SliceStart(n) <= SliceEnd(n, |run[k].history|) <= |run[k].history|
            && n.writer.sent + n.writer.queue
               == run[k].history[SliceStart(n)..SliceEnd(n, |run[k].history|)]
  {
    RunKeepsInv(run, events, k);
    assert SessionInv(run[k].sessions[i], run[k].history);
  }

  /** Two sessions agree on every message that both were given. */
  lemma SessionsAgree(run: seq<Server>, events: seq<Event>, k: nat, i: nat, j: nat, h: nat)
    requires IsRun(run, events) && k < |run| && i < |run[k].sessions| && j < |run[k].sessions|
    requires var s := run[k];
             && SliceStart(s.sessions[i]) <= h < SliceEnd(s.sessions[i], |s.history|)
             && SliceStart(s.sessions[j]) <= h < SliceEnd(s.sessions[j], |s.history|)
    ensures var (a, b) := (run[k].sessions[i], run[k].sessions[j]);
            && h - SliceStart(a) < |Accepted(a.writer)| && h - SliceStart(b) < |Accepted(b.writer)|
            && Accepted(a.writer)[h - SliceStart(a)] == Accepted(b.writer)[h - SliceStart(b)]
  {
    SessionReceivesSlice(run, events, k, i);
    SessionReceivesSlice(run, events, k, j);
  }

  /** Whatever headers the senders used, the bytes put on the wire for a session are read back as a
      prefix of its slice, message for message, and as all of it when nothing is left to write. */
  lemma ForwardedReadsBack(run: seq<Server>, events: seq<Event>, k: nat, i: nat)
    requires IsRun(run, events) && k < |run| && i < |run[k].sessions|
    ensures var n := run[k].sessions[i];
            var h := run[k].history;
            && SliceStart(n) <= SliceEnd(n, |h|) <= |h|
            && Frames(n.writer.outbound) <= Wires(h[SliceStart(n)..SliceEnd(n, |h|)])
            && (n.writer.queue == [] ==> Frames(n.writer.outbound) == Wires(h[SliceStart(n)..SliceEnd(n, |h|)]))
  {
    hide ReaderInv, WriterInv;
    RunKeepsInv(run, events, k);
    var n := run[k].sessions[i];
    assert SessionInv(n, run[k].history);
    var slice := Accepted(n.writer);
    forall j | 0 <= j < |slice|
      ensures IsFrame(Wires(slice)[j])
    {
      FrameWire(slice[j]);
    }
    OutboundIsPrefix(n.writer);
    FramesOfCut(Wires(slice), n.writer.outbound);
    if n.writer.queue == [] {
      FramesRoundTrip(Wires(slice));
    }
  }

  /** A session never has two writes outstanding, and has one exactly while its queue is not empty
      and no write has failed; a failed write has removed it from the room. */
  lemma WriteDiscipline(run: seq<Server>, events: seq<Event>, k: nat, i: nat)
    requires IsRun(run, events) && k < |run| && i < |run[k].sessions|
    ensures var n := run[k].sessions[i];
            && n.writer.pending <= 1
            && (n.writer.pending == 1 <==> n.writer.queue != [] && !n.writer.failed)
            && (n.writer.failed ==> n.writer.queue != [] && !n.joined)
  {
    RunKeepsInv(run, events, k);
    assert SessionInv(run[k].sessions[i], run[k].history);
  }

  /** A session is a participant exactly as long as neither its reading nor its writing has failed.
      Being a participant is about receiving only: `BodyDone` does not ask for it. */
  lemma MembershipIff(run: seq<Server>, events: seq<Event>, k: nat, i: nat)
    requires IsRun(run, events) && k < |run| && i < |run[k].sessions|
    ensures var n := run[k].sessions[i];
            n.joined <==> !n.reader.phase.ReadStopped? && !n.writer.failed
  {
    RunKeepsInv(run, events, k);
    assert SessionInv(run[k].sessions[i], run[k].history);
  }

  /** How one session changes in the course of time. */
  ghost predicate Evolves(n: Session, n': Session) {
    && n'.joinAt == n.joinAt
    && (!n.joined ==> !n'.joined && n'.leftAt == n.leftAt && Accepted(n'.writer) == Accepted(n.writer))
    && Accepted(n.writer) <= Accepted(n'.writer)
    && n.writer.sent <= n'.writer.sent
    && n.writer.outbound <= n'.writer.outbound
    && n.reader.frames <= n'.reader.frames
    // while a message is being written it stays at the front, untouched
    && (n.writer.queue != [] && n'.writer.sent == n.writer.sent ==>
          n'.writer.queue != [] && n'.writer.queue[0] == n.writer.queue[0])
    // after a failed write the write side never changes again
    && (n.writer.failed && !n.joined ==> n'.writer == n.writer)
  }

  /** A change of the read side, or a departure, leaves the write side alone. */
  lemma ReadingEvolves(n: Session, r: Reader, now: nat)
    requires n.reader.frames <= r.frames && (n.writer.failed ==> !n.joined)
    ensures Evolves(n, n.(reader := r))
    ensures Evolves(n, Leave(n.(reader := r), now))
  {
  }

  lemma ReceiveEvolves(n: Session, m: Message)
    requires WriterInv(n.writer)
    ensures Evolves(n, Receive(n, m))
  {
    PushInv(n.writer, m);
  }

  lemma WritingEvolves(n: Session, e: Event, now: nat)
    requires WriterInv(n.writer)
    ensures e.Written? && CanWriteSome(n.writer, e.n) ==> Evolves(n, n.(writer := WriteSome(n.writer, e.n)))
    ensures e.SendDone? && CanWriteDone(n.writer) ==> Evolves(n, n.(writer := WriteDone(n.writer)))
    ensures e.SendFailed? && n.writer.pending > 0 ==> Evolves(n, Leave(n.(writer := WriteError(n.writer)), now))
  {
    if e.Written? && CanWriteSome(n.writer, e.n) {
      WriteSomeInv(n.writer, e.n);
    } else if e.SendDone? && CanWriteDone(n.writer) {
      WriteDoneInv(n.writer);
    }
  }

  lemma DeliveryEvolves(s: Server, from: nat, i: nat)
    requires ServerInv(s) && Enabled(s, BodyDone(from)) && i < |s.sessions|
    ensures Evolves(s.sessions[i], Step(s, BodyDone(from)).sessions[i])
  {
    hide ReaderInv, WriterInv;
    var n := s.sessions[i];
    assert SessionInv(n, s.history);
    var a := s.sessions[from];
    var r := BodyRead(a.reader, Unread(a)[..Wanted(a.reader)]);
    if from == i {
      ReadingEvolves(n, r, |s.history|);
      ReceiveEvolves(n.(reader := r), r.msg);
      EvolvesTransitive(n, n.(reader := r), Receive(n.(reader := r), r.msg));
    } else {
      ReceiveEvolves(n, r.msg);
    }
  }

  lemma StepEvolves(s: Server, e: Event, i: nat)
    requires ServerInv(s) && Enabled(s, e) && i < |s.sessions|
    ensures |s.sessions| <= |Step(s, e).sessions|
    ensures s.history <= Step(s, e).history
    ensures Evolves(s.sessions[i], Step(s, e).sessions[i])
  {
    hide ReaderInv, WriterInv;
    var n := s.sessions[i];
    assert SessionInv(n, s.history);
    if e.BodyDone? {
      DeliveryEvolves(s, e.i, i);
    } else if e.HeaderDone? || e.ReadFailed? {
      ReadingEvolves(n, Step(s, e).sessions[i].reader, |s.history|);
    } else {
      WritingEvolves(n, e, |s.history|);
    }
  }

  /** Over any stretch of any run the history only grows, and every session evolves as above: in
      particular what it was given, what it has written and what it has handed on only grow. */
  lemma {:induction false} RunEvolves(run: seq<Server>, events: seq<Event>, k: nat, l: nat, i: nat)
    requires IsRun(run, events) && k <= l < |run| && i < |run[k].sessions|
    ensures run[k].history <= run[l].history
    ensures i < |run[l].sessions| && Evolves(run[k].sessions[i], run[l].sessions[i])
    decreases l - k
  {
    if k < l {
      RunEvolves(run, events, k, l - 1, i);
      RunKeepsInv(run, events, l - 1);
      StepEvolves(run[l - 1], events[l - 1], i);
      var (a, b, c) := (run[k].sessions[i], run[l - 1].sessions[i], run[l].sessions[i]);
      EvolvesTransitive(a, b, c);
    }
  }

  lemma EvolvesTransitive(a: Session, b: Session, c: Session)
    requires Evolves(a, b) && Evolves(b, c)
    ensures Evolves(a, c)
  {
    if a.writer.sent == c.writer.sent {
      assert |b.writer.sent| == |a.writer.sent|;
    }
  }

  // ---------- what the events decide ----------

  /** The session's reading ends with this event: it failed, or the header it read is refused. */
  predicate StopsReading(s: Server, e: Event, i: nat) {
    (e.ReadFailed? && e.i == i) ||
    (e.HeaderDone? && e.i == i < |s.sessions| && |Unread(s.sessions[i])| >= 4 &&
     !(0 <= Atoi(Unread(s.sessions[i])[..4]) <= 512))
  }

  /** The session is taken out of the room by this event, if it is still in it. */
  predicate Departs(s: Server, e: Event, i: nat) {
    StopsReading(s, e, i) || e == SendFailed(i)
  }

  lemma StepFate(s: Server, e: Event, i: nat)
    requires ServerInv(s) && Enabled(s, e) && i < |s.sessions|
    ensures i < |Step(s, e).sessions|
    ensures var (n, n') := (s.sessions[i], Step(s, e).sessions[i]);
            && (n'.reader.phase.ReadStopped? <==> n.reader.phase.ReadStopped? || StopsReading(s, e, i))
            && (n'.writer.failed <==> n.writer.failed || e == SendFailed(i))
            && (n'.joined <==> n.joined && !Departs(s, e, i))
            && n'.joinAt == n.joinAt
            && (!n'.joined ==> n'.leftAt == if n.joined then |s.history| else n.leftAt)
  {
    hide ReaderInv, WriterInv, Atoi, Overwrite;
    assert SessionInv(s.sessions[i], s.history);
    if e.HeaderDone? && e.i == i {
      HeaderAccepted(Unread(s.sessions[i])[..4]);
    }
  }

  /** Every session has been accepted at some point, as the one with its number. */
  lemma {:induction false} AcceptedAt(run: seq<Server>, events: seq<Event>, k: nat, i: nat) returns (a: nat)
    requires IsRun(run, events) && k < |run| && i < |run[k].sessions|
    ensures a < k && events[a].Accept? && |run[a].sessions| == i
  {
    if i < |run[k - 1].sessions| {
      a := AcceptedAt(run, events, k - 1, i);
    } else {
      a := k - 1;
    }
  }

  /** The session accepted at point `a` has stopped reading exactly if one of its reads has failed or
      brought a refused header, its writing has failed exactly if a write has, and it is in the room
      exactly if neither has happened. It joined behind the history of its time. */
  lemma {:induction false} SessionFate(run: seq<Server>, events: seq<Event>, a: nat, k: nat)
    requires IsRun(run, events) && a < k < |run| && events[a].Accept?
    ensures |run[a].sessions| < |run[k].sessions|
    ensures var i := |run[a].sessions|;
            var n := run[k].sessions[i];
            && (n.reader.phase.ReadStopped? <==> exists h :: a < h < k && StopsReading(run[h], events[h], i))
            && (n.writer.failed <==> exists h :: a < h < k && events[h] == SendFailed(i))
            && (n.joined <==> forall h :: a < h < k ==> !Departs(run[h], events[h], i))
            && n.joinAt == |run[a].history|
  {
    hide ServerInv, StopsReading, Departs, Step, Enabled;
    if k == a + 1 {
      AcceptedFresh(run[a], events[a].msg);
    } else {
      SessionFate(run, events, a, k - 1);
      RunKeepsInv(run, events, k - 1);
      StepFate(run[k - 1], events[k - 1], |run[a].sessions|);
    }
  }

  lemma AcceptedFresh(s: Server, msg: Message)
    ensures Enabled(s, Accept(msg))
    ensures var s' := Step(s, Accept(msg));
            && |s'.sessions| == |s.sessions| + 1
            && var n := s'.sessions[|s.sessions|];
               && n.reader.phase.ReadingHeader? && !n.writer.failed && n.joined && n.joinAt == |s.history|
  {
    hide WriterInv;
    IdleWriterInv();
    PushAllInv(IDLE_WRITER, s.recent);
  }

  /** What a session is given, told by the events alone: it was accepted at point `a`, and `l` is the
      point where it departed, or the present one. It is given the last hundred messages delivered
      before `a` and everything delivered from `a` to `l`. */
  lemma SliceByEvents(run: seq<Server>, events: seq<Event>, a: nat, l: nat, k: nat)
    requires IsRun(run, events) && a < l <= k < |run| && events[a].Accept?
    requires forall h :: a < h < l ==> !Departs(run[h], events[h], |run[a].sessions|)
    requires l < k ==> Departs(run[l], events[l], |run[a].sessions|)
    ensures |run[a].sessions| < |run[k].sessions|
    ensures |run[a].history| <= |run[l].history| <= |run[k].history|
    ensures var w := run[k].sessions[|run[a].sessions|].writer;
            var start := if |run[a].history| <= 100 then 0 else |run[a].history| - 100;
            w.sent + w.queue == run[k].history[start..|run[l].history|]
  {
    hide ServerInv, StopsReading, Departs, Step, Enabled;
    var i := |run[a].sessions|;
    SessionFate(run, events, a, k);
    SessionFate(run, events, a, l);
    HistoryGrows(run, events, a, l);
    HistoryGrows(run, events, l, k);
    SessionReceivesSlice(run, events, k, i);
    if l < k {
      LeftAt(run, events, a, l, k);
    }
  }

  /** A session that departed at point `l` keeps the mark of that point. */
  lemma {:induction false} LeftAt(run: seq<Server>, events: seq<Event>, a: nat, l: nat, k: nat)
    requires IsRun(run, events) && a < l < k < |run| && events[a].Accept?
    requires forall h :: a < h < l ==> !Departs(run[h], events[h], |run[a].sessions|)
    requires Departs(run[l], events[l], |run[a].sessions|)
    ensures |run[a].sessions| < |run[k].sessions|
    ensures var n := run[k].sessions[|run[a].sessions|]; !n.joined && n.leftAt == |run[l].history|
    decreases k
  {
    hide ServerInv, StopsReading, Departs, Step, Enabled;
    SessionFate(run, events, a, k - 1);
    RunKeepsInv(run, events, k - 1);
    StepFate(run[k - 1], events[k - 1], |run[a].sessions|);
    if l < k - 1 {
      LeftAt(run, events, a, l, k - 1);
    }
  }

  lemma {:induction false} HistoryGrows(run: seq<Server>, events: seq<Event>, k: nat, l: nat)
    requires IsRun(run, events) && k <= l < |run|
    ensures run[k].history <= run[l].history
    decreases l - k
  {
    if k < l {
      HistoryGrows(run, events, k, l - 1);
    }
  }

  /** Whoever is at the other end: a message that arrives at a session waiting for one is read and
      delivered as it came, from that session, to everybody in the room. */
  lemma ArrivalIsDelivered(s: Server, i: nat, f: Frame)
    requires ServerInv(s) && i < |s.sessions| && IsFrame(f)
    requires s.sessions[i].reader.phase.ReadingHeader? && s.sessions[i].reader.consumed == s.sessions[i].inbound
    ensures var s1 := Step(s, Arrive(i, f));
            && Enabled(s1, HeaderDone(i))
            && var s2 := Step(s1, HeaderDone(i));
               && Enabled(s2, BodyDone(i))
               && IsDelivered(s, Step(s2, BodyDone(i)), i, f)
  {
    hide ReaderInv, WriterInv, Trim, Wire, Overwrite, HeaderRead, BodyRead, IsFrame;
    var n := s.sessions[i];
    assert SessionInv(n, s.history);
    ReadsOneFrame(n.reader, f);
    FrameLength(f);
    var s1 := Step(s, Arrive(i, f));
    assert Unread(s1.sessions[i]) == f;
    var a := HeaderRead(n.reader, f[..4]);
    HeaderConsumes(n.reader, f[..4]);
    var s2 := Step(s1, HeaderDone(i));
    assert s2.sessions[i] == s1.sessions[i].(reader := a);
    assert Unread(s2.sessions[i]) == f[4..];
    var b := BodyRead(a, f[4..]);
    assert f[4..][..Wanted(a)] == f[4..];
    var s3 := Step(s2, BodyDone(i));
    forall j | 0 <= j < |s.sessions|
      ensures s3.sessions[j].writer
              == if s.sessions[j].joined then Push(s.sessions[j].writer, b.msg) else s.sessions[j].writer
    {
    }
    DeliveredToAll(s, s3, i, b.msg);
  }

  /** Message `f` of session `i` is the next in the history, and the next for all in the room. */
  ghost predicate IsDelivered(s: Server, s': Server, i: nat, f: Frame) {
    && |s'.history| == |s.history| + 1 && s.history <= s'.history && s'.origins == s.origins + [i]
    && |s'.sessions| == |s.sessions|
    && var m := s'.history[|s.history|];
       && Wire(m) == f
       && forall j :: 0 <= j < |s.sessions| ==>
            && s'.sessions[j].joined == s.sessions[j].joined
            && s'.sessions[j].writer.sent + s'.sessions[j].writer.queue
               == s.sessions[j].writer.sent + s.sessions[j].writer.queue
                  + if s.sessions[j].joined then [m] else []
  }

  lemma FrameLength(f: Frame)
    requires IsFrame(f)
    ensures |f| >= 4
  {
  }

  lemma HeaderConsumes(r: Reader, bytes: seq<Byte>)
    requires r.phase.ReadingHeader? && |bytes| == 4
    ensures HeaderRead(r, bytes).consumed == r.consumed + bytes
  {
  }

  lemma DeliveredToAll(s: Server, s': Server, i: nat, m: Message)
    requires ServerInv(s) && |s'.sessions| == |s.sessions|
    requires s'.history == s.history + [m] && s'.origins == s.origins + [i]
    requires forall j :: 0 <= j < |s.sessions| ==>
      && s'.sessions[j].joined == s.sessions[j].joined
      && s'.sessions[j].writer
         == if s.sessions[j].joined then Push(s.sessions[j].writer, m) else s.sessions[j].writer
    ensures IsDelivered(s, s', i, Wire(m))
  {
    hide ReaderInv, WriterInv, Push, Wire;
    forall j | 0 <= j < |s.sessions| && s.sessions[j].joined
      ensures Accepted(s'.sessions[j].writer) == Accepted(s.sessions[j].writer) + [m]
    {
      assert SessionInv(s.sessions[j], s.history);
      PushInv(s.sessions[j].writer, m);
    }
  }
}
