/** What the chat system can always still do.

    The run theorems say that nothing wrong is ever printed. These say that the right thing can be:
    from every point of every run there is a continuation in which everything typed at one client
    reaches the room and everything in the room reaches the screen of another. */
module ChatProgress {
  import opened Wrappers
  import opened ChatMessages
  import opened Framing
  import opened ChatSystem
  import Srv = ChatServer
  import Cli = ChatClient

  function Last(run: seq<System>): (s: System)
    requires run != []
  {
    run[|run| - 1]
  }

  ghost predicate Continues(run: seq<System>, events: seq<Event>, run': seq<System>, events': seq<Event>) {
    IsRun(run', events') && run <= run' && events <= events'
  }

  lemma OneMore(run: seq<System>, events: seq<Event>, e: Event) returns (run': seq<System>, events': seq<Event>)
    requires IsRun(run, events) && Enabled(Last(run), e)
    ensures Continues(run, events, run', events') && Last(run') == Step(Last(run), e)
  {
    hide Enabled, Step;
    run', events' := run + [Step(Last(run), e)], events + [e];
  }

  lemma LastInv(run: seq<System>, events: seq<Event>)
    requires IsRun(run, events)
    ensures run != [] && SystemInv(Last(run))
  {
    hide SystemInv;
    RunKeepsInv(run, events, |events|);
  }

  // ---------- a session reads ----------

  /** What the reading of session `i` leaves alone: who is in the room and since when, what has
      arrived, and how far the others have read. */
  ghost predicate KeptByReading(s: Srv.Server, s': Srv.Server, i: nat) {
    && |s'.sessions| == |s.sessions|
    && forall j :: 0 <= j < |s.sessions| ==>
         && s'.sessions[j].joined == s.sessions[j].joined
         && s'.sessions[j].joinAt == s.sessions[j].joinAt
         && s'.sessions[j].inbound == s.sessions[j].inbound
         && s'.sessions[j].writer.outbound == s.sessions[j].writer.outbound
         && (j != i ==> s'.sessions[j].reader == s.sessions[j].reader)
  }

  /** How many handlers the bytes of a session are still good for, at most. */
  function ToRead(n: Srv.Session): (k: int) {
    2 * (|n.inbound| - |n.reader.consumed|) + if n.reader.phase.ReadingBody? then 1 else 0
  }

  lemma ReadsHeader(s: Srv.Server, i: nat, fs: seq<Frame>)
    requires Srv.ServerInv(s) && i < |s.sessions|
    requires var n := s.sessions[i];
             && n.joined && n.reader.phase.ReadingHeader?
             && AllFrames(fs) && n.inbound == Flatten(fs) && n.reader.consumed != n.inbound
    ensures Srv.Enabled(s, Srv.HeaderDone(i))
    ensures var s' := Srv.Step(s, Srv.HeaderDone(i));
            KeptByReading(s, s', i) && ToRead(s'.sessions[i]) < ToRead(s.sessions[i])
  {
    hide ReaderInv, WriterInv, Atoi, Overwrite, AllFrames;
    var n := s.sessions[i];
    assert Srv.SessionInv(n, s.history);
    NextRead(n.reader, fs);
    HeaderAccepted(Srv.Unread(n)[..4]);
  }

  lemma ReadsBody(s: Srv.Server, i: nat, fs: seq<Frame>)
    requires Srv.ServerInv(s) && i < |s.sessions|
    requires var n := s.sessions[i];
             n.joined && n.reader.phase.ReadingBody? && AllFrames(fs) && n.inbound == Flatten(fs)
    ensures Srv.Enabled(s, Srv.BodyDone(i))
    ensures var s' := Srv.Step(s, Srv.BodyDone(i));
            KeptByReading(s, s', i) && ToRead(s'.sessions[i]) < ToRead(s.sessions[i])
  {
    hide ReaderInv, WriterInv, Atoi, Overwrite, AllFrames;
    var n := s.sessions[i];
    assert Srv.SessionInv(n, s.history);
    NextRead(n.reader, fs);
  }

  lemma SessionFacts(s: Srv.Server, i: nat)
    requires Srv.ServerInv(s) && i < |s.sessions|
    ensures var n := s.sessions[i];
            && ReaderInv(n.reader) && WriterInv(n.writer) && n.reader.consumed <= n.inbound
            && (n.joined <==> !n.reader.phase.ReadStopped? && !n.writer.failed)
            && (n.joined ==> Srv.SliceStart(n) <= |s.history|
                             && Accepted(n.writer) == s.history[Srv.SliceStart(n)..])
            && |s.origins| == |s.history| && n.reader.frames == Srv.From(s.history, s.origins, i)
  {
    hide ReaderInv, WriterInv;
    var n := s.sessions[i];
    assert Srv.SessionInv(n, s.history);
    assert s.history[Srv.SliceStart(n)..|s.history|] == s.history[Srv.SliceStart(n)..];
  }

  /** Unless everything is read, one of the two handlers can run and brings the session further. */
  lemma SessionReadsOn(s: Srv.Server, i: nat, fs: seq<Frame>) returns (e: Srv.Event)
    requires Srv.ServerInv(s) && i < |s.sessions| && AllFrames(fs)
    requires var n := s.sessions[i]; n.joined && n.inbound == Flatten(fs) && n.reader.frames != fs
    ensures Srv.Enabled(s, e) && !e.Arrive?
    ensures KeptByReading(s, Srv.Step(s, e), i) && ToRead(Srv.Step(s, e).sessions[i]) < ToRead(s.sessions[i])
  {
    hide Srv.ServerInv, Srv.Step, Srv.Enabled, AllFrames, KeptByReading;
    var n := s.sessions[i];
    SessionFacts(s, i);
    NextRead(n.reader, fs);
    if n.reader.phase.ReadingHeader? {
      ReadsHeader(s, i, fs);
      e := Srv.HeaderDone(i);
    } else {
      ReadsBody(s, i, fs);
      e := Srv.BodyDone(i);
    }
  }

  lemma KeptSelf(s: Srv.Server, s': Srv.Server, i: nat)
    requires i < |s.sessions| && KeptByReading(s, s', i)
    ensures i < |s'.sessions|
    ensures s'.sessions[i].joined == s.sessions[i].joined && s'.sessions[i].inbound == s.sessions[i].inbound
  {
  }

  lemma KeptTwice(a: Srv.Server, b: Srv.Server, c: Srv.Server, i: nat)
    requires KeptByReading(a, b, i) && KeptByReading(b, c, i)
    ensures KeptByReading(a, c, i)
  {
  }

  lemma NothingRead(s: Srv.Server, i: nat)
    ensures KeptByReading(s, s, i)
  {
  }

  /** A session in the room to which acceptable messages have arrived can hand on all of them. */
  lemma SessionReads(run: seq<System>, events: seq<Event>, i: nat, fs: seq<Frame>)
    returns (run': seq<System>, events': seq<Event>)
    requires IsRun(run, events) && i < |Last(run).server.sessions| && AllFrames(fs)
    requires var n := Last(run).server.sessions[i]; n.joined && n.inbound == Flatten(fs)
    ensures Continues(run, events, run', events')
    ensures var (s, s') := (Last(run), Last(run'));
            && s'.clients == s.clients && s'.link == s.link
            && KeptByReading(s.server, s'.server, i)
            && s'.server.sessions[i].reader.frames == fs
    decreases ToRead(Last(run).server.sessions[i])
  {
    hide Srv.ServerInv, Srv.Step, Srv.Enabled, AllFrames, SystemInv, Cli.Step, Cli.Enabled, KeptByReading;
    var s := Last(run);
    NothingRead(s.server, i);
    if s.server.sessions[i].reader.frames == fs {
      return run, events;
    }
    LastInv(run, events);
    ServerPart(s);
    SessionFacts(s.server, i);
    var e := SessionReadsOn(s.server, i, fs);
    var run1, events1 := OneMore(run, events, OnServer(e));
    KeptSelf(s.server, Last(run1).server, i);
    run', events' := SessionReads(run1, events1, i, fs);
    KeptTwice(s.server, Last(run1).server, Last(run').server, i);
  }

  // ---------- a session writes ----------

  /** Only the write side of session `j` differs, and holds the same messages. */
  ghost predicate KeptByWriting(s: Srv.Server, s': Srv.Server, j: nat) {
    && j < |s.sessions| == |s'.sessions|
    && s' == s.(sessions := s.sessions[j := s.sessions[j].(writer := s'.sessions[j].writer)])
    && Accepted(s'.sessions[j].writer) == Accepted(s.sessions[j].writer)
  }

  /** The front of the queue can be written out. */
  lemma SessionWritesFront(s: Srv.Server, j: nat)
    requires Srv.ServerInv(s) && j < |s.sessions| && s.sessions[j].joined && s.sessions[j].writer.queue != []
    ensures var n := |Wire(s.sessions[j].writer.queue[0])| - s.sessions[j].writer.partial;
            && n >= 0 && Srv.Enabled(s, Srv.Written(j, n))
            && var s1 := Srv.Step(s, Srv.Written(j, n));
               && Srv.Enabled(s1, Srv.SendDone(j))
               && var s2 := Srv.Step(s1, Srv.SendDone(j));
                  KeptByWriting(s, s2, j) && s2.sessions[j].writer.queue == s.sessions[j].writer.queue[1..]
  {
    hide Srv.ServerInv, ReaderInv, WriterInv, CanWriteSome, CanWriteDone, WriteSome, WriteDone, Wire;
    SessionFacts(s, j);
    var w := s.sessions[j].writer;
    WritesFront(w);
    var w' := WriteDone(WriteSome(w, |Wire(w.queue[0])| - w.partial));
    assert w'.sent + w'.queue == w.sent + w.queue;
  }

  lemma ServerPart(s: System)
    requires SystemInv(s)
    ensures Srv.ServerInv(s.server)
  {
  }

  lemma SessionWrites(run: seq<System>, events: seq<Event>, j: nat)
    returns (run': seq<System>, events': seq<Event>)
    requires IsRun(run, events) && j < |Last(run).server.sessions| && Last(run).server.sessions[j].joined
    ensures Continues(run, events, run', events')
    ensures var (s, s') := (Last(run), Last(run'));
            && s'.clients == s.clients && s'.link == s.link
            && KeptByWriting(s.server, s'.server, j)
            && s'.server.sessions[j].writer.queue == []
    decreases |Last(run).server.sessions[j].writer.queue|
  {
    hide Srv.ServerInv, SystemInv, Srv.Step, Srv.Enabled, Cli.Step, Cli.Enabled, Wire;
    var w := Last(run).server.sessions[j].writer;
    if w.queue == [] {
      return run, events;
    }
    LastInv(run, events);
    ServerPart(Last(run));
    SessionWritesFront(Last(run).server, j);
    var run1, events1 := OneMore(run, events, OnServer(Srv.Written(j, |Wire(w.queue[0])| - w.partial)));
    run1, events1 := OneMore(run1, events1, OnServer(Srv.SendDone(j)));
    run', events' := SessionWrites(run1, events1, j);
  }

  // ---------- a client ----------

  ghost predicate Healthy(c: Cli.Client) {
    c.connected && !c.closed
  }

  /** Client `a` of `s` is replaced by `c`, and nothing else has changed. */
  ghost predicate OnlyClient(s: System, s': System, a: nat, c: Cli.Client) {
    a < |s.clients| && s' == s.(clients := s.clients[a := c])
  }

  /** The handler of the first posted message can run. */
  lemma RunsPosted(c: Cli.Client)
    requires Cli.ClientInv(c) && Healthy(c) && c.posted != []
    ensures Cli.Enabled(c, Cli.RunPosted)
    ensures var c' := Cli.Step(c, Cli.RunPosted);
            && c' == c.(writer := c'.writer, posted := c.posted[1..])
            && Cli.Submitted(c') == Cli.Submitted(c)
  {
    hide ReaderInv, WriterInv;
    Cli.WriteKeepsInv(c, Cli.RunPosted);
  }

  /** The front of the queue can be written out. */
  lemma ClientWritesFront(c: Cli.Client)
    requires Cli.ClientInv(c) && Healthy(c) && c.writer.queue != []
    ensures var n := |Wire(c.writer.queue[0])| - c.writer.partial;
            && n >= 0 && Cli.Enabled(c, Cli.Written(n))
            && var c1 := Cli.Step(c, Cli.Written(n));
               && Cli.Enabled(c1, Cli.SendDone)
               && var c2 := Cli.Step(c1, Cli.SendDone);
                  && c2 == c.(writer := c2.writer) && c2.writer.queue == c.writer.queue[1..]
                  && Cli.Submitted(c2) == Cli.Submitted(c)
  {
    hide ReaderInv, WriterInv, CanWriteSome, CanWriteDone, WriteSome, WriteDone, Wire;
    WritesFront(c.writer);
    var w' := WriteDone(WriteSome(c.writer, |Wire(c.writer.queue[0])| - c.writer.partial));
    assert w'.sent + w'.queue == c.writer.sent + c.writer.queue;
  }

  lemma ClientPart(s: System, c: nat)
    requires SystemInv(s) && c < |s.clients|
    ensures Cli.ClientInv(s.clients[c])
  {
    hide Srv.ServerInv, Cli.ClientInv, Linked;
  }

  lemma ClientEvent(run: seq<System>, events: seq<Event>, a: nat, e: Cli.Event)
    returns (run': seq<System>, events': seq<Event>)
    requires IsRun(run, events) && a < |Last(run).clients|
    requires Cli.Enabled(Last(run).clients[a], e) && !e.Arrive?
    ensures Continues(run, events, run', events')
    ensures OnlyClient(Last(run), Last(run'), a, Cli.Step(Last(run).clients[a], e))
  {
    hide IsRun, Cli.Step, Cli.Enabled, Srv.Step, Srv.Enabled;
    run', events' := OneMore(run, events, OnClient(a, e));
  }

  /** What a client still has to do until everything typed is on the wire. */
  function ToSend(c: Cli.Client): (k: nat) {
    2 * |c.posted| + |c.writer.queue|
  }

  /** What the writing of a client changes. */
  ghost predicate KeptBySending(c: Cli.Client, c': Cli.Client) {
    c' == c.(writer := c'.writer, posted := c'.posted) && Cli.Submitted(c') == Cli.Submitted(c)
  }

  /** A client can put everything that was typed on the wire. */
  lemma ClientSends(run: seq<System>, events: seq<Event>, a: nat)
    returns (run': seq<System>, events': seq<Event>)
    requires IsRun(run, events) && a < |Last(run).clients| && Healthy(Last(run).clients[a])
    ensures Continues(run, events, run', events') && a < |Last(run').clients|
    ensures var (c, c') := (Last(run).clients[a], Last(run').clients[a]);
            && OnlyClient(Last(run), Last(run'), a, c') && KeptBySending(c, c')
            && c'.posted == [] && c'.writer.queue == []
    decreases ToSend(Last(run).clients[a])
  {
    hide Cli.Step, Cli.Enabled, Srv.Step, Srv.Enabled, SystemInv, Cli.ClientInv, Step, Enabled, Wire;
    var c := Last(run).clients[a];
    if c.posted == [] && c.writer.queue == [] {
      return run, events;
    }
    LastInv(run, events);
    ClientPart(Last(run), a);
    var run1, events1;
    if c.posted != [] {
      RunsPosted(c);
      run1, events1 := ClientEvent(run, events, a, Cli.RunPosted);
      PostedCounts(c, Last(run1).clients[a]);
    } else {
      ClientWritesFront(c);
      run1, events1 := ClientEvent(run, events, a, Cli.Written(|Wire(c.writer.queue[0])| - c.writer.partial));
      run1, events1 := ClientEvent(run1, events1, a, Cli.SendDone);
    }
    run', events' := ClientSends(run1, events1, a);
  }

  /** A message moves from the posted ones to the queue. */
  lemma PostedCounts(c: Cli.Client, c': Cli.Client)
    requires c.posted != [] && Cli.Enabled(c, Cli.RunPosted) && c' == Cli.Step(c, Cli.RunPosted)
    ensures ToSend(c') < ToSend(c)
  {
  }

  /** Unless everything is read, one of the two handlers can run and brings the client further. */
  lemma ClientReadsOn(c: Cli.Client, fs: seq<Frame>) returns (e: Cli.Event)
    requires Cli.ClientInv(c) && Healthy(c) && AllFrames(fs) && c.inbound == Flatten(fs) && c.reader.frames != fs
    ensures Cli.Enabled(c, e) && !e.Arrive?
    ensures var c' := Cli.Step(c, e);
            && Healthy(c') && c'.inbound == c.inbound && ClientToRead(c') < ClientToRead(c)
            && c' == c.(reader := c'.reader, printed := c'.printed)
  {
    hide ReaderInv, WriterInv, Atoi, Overwrite, AllFrames, Body, Wire;
    NextRead(c.reader, fs);
    if c.reader.phase.ReadingHeader? {
      e := Cli.HeaderDone;
      HeaderAccepted(Cli.Unread(c)[..4]);
    } else {
      e := Cli.BodyDone;
    }
  }

  function ClientToRead(c: Cli.Client): (k: int) {
    2 * (|c.inbound| - |c.reader.consumed|) + if c.reader.phase.ReadingBody? then 1 else 0
  }

  /** A client to which acceptable messages have arrived can print all of them. */
  lemma ClientReads(run: seq<System>, events: seq<Event>, b: nat, fs: seq<Frame>)
    returns (run': seq<System>, events': seq<Event>)
    requires IsRun(run, events) && b < |Last(run).clients| && AllFrames(fs)
    requires var c := Last(run).clients[b]; Healthy(c) && c.inbound == Flatten(fs)
    ensures Continues(run, events, run', events') && b < |Last(run').clients|
    ensures var (c, c') := (Last(run).clients[b], Last(run').clients[b]);
            && OnlyClient(Last(run), Last(run'), b, c')
            && c' == c.(reader := c'.reader, printed := c'.printed)
            && c'.reader.frames == fs && c'.printed == FrameBodies(fs)
    decreases ClientToRead(Last(run).clients[b])
  {
    hide Cli.Step, Cli.Enabled, Srv.Step, Srv.Enabled, SystemInv, Cli.ClientInv, Step, Enabled, AllFrames;
    LastInv(run, events);
    ClientPart(Last(run), b);
    var c := Last(run).clients[b];
    ClientFacts(c);
    if c.reader.frames == fs {
      return run, events;
    }
    var e := ClientReadsOn(c, fs);
    var run1, events1 := ClientEvent(run, events, b, e);
    run', events' := ClientReads(run1, events1, b, fs);
  }

  lemma ClientFacts(c: Cli.Client)
    requires Cli.ClientInv(c)
    ensures ReaderInv(c.reader) && WriterInv(c.writer)
    ensures c.reader.consumed <= c.inbound && c.printed == FrameBodies(c.reader.frames)
    ensures |Cli.Submitted(c)| == |c.lines|
    ensures forall k :: 0 <= k < |c.lines| ==> |c.lines[k]| <= 512 && Cli.IsMessageFor(Cli.Submitted(c)[k], c.lines[k])
  {
    hide ReaderInv, WriterInv, Cli.IsMessageFor;
  }

  // ---------- from keyboard to screen ----------

  /** The connection of session `i` is in order: the session is in the room and the client is there. */
  ghost predicate Connected(s: System, i: nat) {
    && i in s.link && i < |s.server.sessions| && s.link[i] < |s.clients|
    && s.server.sessions[i].joined && Healthy(s.clients[s.link[i]])
  }

  /** Nobody comes, goes or types. */
  ghost predicate SameUsers(s: System, s': System) {
    && s'.link == s.link && |s'.server.sessions| == |s.server.sessions| && |s'.clients| == |s.clients|
    && (forall j :: 0 <= j < |s.server.sessions| ==>
          && s'.server.sessions[j].joined == s.server.sessions[j].joined
          && s'.server.sessions[j].joinAt == s.server.sessions[j].joinAt)
    && (forall c :: 0 <= c < |s.clients| ==>
          && s'.clients[c].lines == s.clients[c].lines
          && s'.clients[c].connected == s.clients[c].connected
          && s'.clients[c].closed == s.clients[c].closed)
  }

  /** The connection moves what the client has put on the wire and the session has not received. */
  lemma MovesUp(run: seq<System>, events: seq<Event>, i: nat) returns (run': seq<System>, events': seq<Event>)
    requires IsRun(run, events) && Connected(Last(run), i)
    ensures Continues(run, events, run', events')
    ensures var (s, s') := (Last(run), Last(run'));
            var n := s.server.sessions[i].(inbound := s.clients[s.link[i]].writer.outbound);
            s' == s.(server := s.server.(sessions := s.server.sessions[i := n]))
  {
    hide Srv.ServerInv, Cli.ClientInv, IsRun;
    LastInv(run, events);
    var s := Last(run);
    var (n, c) := (s.server.sessions[i], s.clients[s.link[i]]);
    assert Linked(n, c);
    var bytes := c.writer.outbound[|n.inbound|..];
    assert n.inbound + bytes == c.writer.outbound;
    run', events' := OneMore(run, events, ToServer(i, bytes));
  }

  /** And the other way. */
  lemma MovesDown(run: seq<System>, events: seq<Event>, i: nat) returns (run': seq<System>, events': seq<Event>)
    requires IsRun(run, events) && Connected(Last(run), i)
    ensures Continues(run, events, run', events')
    ensures var (s, s') := (Last(run), Last(run'));
            OnlyClient(s, s', s.link[i], s.clients[s.link[i]].(inbound := s.server.sessions[i].writer.outbound))
  {
    hide Srv.ServerInv, Cli.ClientInv, IsRun;
    LastInv(run, events);
    var s := Last(run);
    var (n, c) := (s.server.sessions[i], s.clients[s.link[i]]);
    assert Linked(n, c);
    var bytes := n.writer.outbound[|c.inbound|..];
    assert c.inbound + bytes == n.writer.outbound;
    run', events' := OneMore(run, events, ToClient(i, bytes));
  }

  lemma WiresAreFrames(ms: seq<Message>)
    requires forall j :: 0 <= j < |ms| ==> WellHeaded(ms[j])
    ensures AllFrames(Wires(ms))
  {
    forall j | 0 <= j < |ms|
      ensures IsFrame(Wires(ms)[j])
    {
      FrameWire(ms[j]);
    }
  }

  /** A client that has nothing left to send. */
  lemma AllSent(c: Cli.Client)
    requires Cli.ClientInv(c) && c.posted == [] && c.writer.queue == []
    ensures AllFrames(Wires(Cli.Submitted(c))) && c.writer.outbound == Flatten(Wires(Cli.Submitted(c)))
    ensures |Cli.Submitted(c)| == |c.lines|
    ensures forall j :: 0 <= j < |c.lines| ==> FrameBody(Wires(Cli.Submitted(c))[j]) == Sendable(c.lines[j])
  {
    hide ReaderInv, WriterInv, Sendable, WellHeaded, FrameBody, IsFrame, Body;
    ClientFacts(c);
    var ms := Cli.Submitted(c);
    assert ms == Accepted(c.writer);
    OutboundIsPrefix(c.writer);
    WiresAreFrames(ms);
    forall j | 0 <= j < |c.lines|
      ensures FrameBody(Wires(ms)[j]) == Sendable(c.lines[j])
    {
      FrameWire(ms[j]);
    }
  }

  /** Upwards: everything typed at a connected client can reach the room, line for line. */
  lemma TypedReachesRoom(run: seq<System>, events: seq<Event>, i: nat)
    returns (run': seq<System>, events': seq<Event>)
    requires IsRun(run, events) && Connected(Last(run), i)
    ensures Continues(run, events, run', events') && SameUsers(Last(run), Last(run'))
    ensures Connected(Last(run'), i)
    ensures var (s, s') := (Last(run), Last(run'));
            var lines := s.clients[s.link[i]].lines;
            && |s'.server.origins| == |s'.server.history|
            && var fs := Srv.From(s'.server.history, s'.server.origins, i);
               |fs| == |lines| && forall j :: 0 <= j < |lines| ==> FrameBody(fs[j]) == Sendable(lines[j])
  {
    hide Srv.ServerInv, Cli.ClientInv, IsRun, SystemInv, Sendable, FrameBody, AllFrames;
    LastInv(run, events);
    var a := Last(run).link[i];
    var run1, events1 := ClientSends(run, events, a);
    LastInv(run1, events1);
    ClientPart(Last(run1), a);
    AllSent(Last(run1).clients[a]);
    var fs := Wires(Cli.Submitted(Last(run1).clients[a]));
    run1, events1 := MovesUp(run1, events1, i);
    run', events' := SessionReads(run1, events1, i, fs);
    LastInv(run', events');
    ServerPart(Last(run'));
    SessionFacts(Last(run').server, i);
  }

  /** A session that has nothing left to write. */
  lemma AllWritten(s: Srv.Server, i: nat)
    requires Srv.ServerInv(s) && i < |s.sessions| && s.sessions[i].joined && s.sessions[i].writer.queue == []
    ensures Srv.SliceStart(s.sessions[i]) <= |s.history|
    ensures var slice := s.history[Srv.SliceStart(s.sessions[i])..];
            && AllFrames(Wires(slice)) && s.sessions[i].writer.outbound == Flatten(Wires(slice))
            && FrameBodies(Wires(slice)) == Bodies(slice)
  {
    hide ReaderInv, WriterInv, WellHeaded, FrameBody, IsFrame, Body;
    SessionFacts(s, i);
    var slice := s.history[Srv.SliceStart(s.sessions[i])..];
    OutboundIsPrefix(s.sessions[i].writer);
    WiresAreFrames(slice);
    forall j | 0 <= j < |slice|
      ensures FrameBodies(Wires(slice))[j] == Bodies(slice)[j]
    {
      FrameWire(slice[j]);
    }
  }

  /** Downwards: everything that a session was given can be printed by its client. */
  lemma RoomReachesScreen(run: seq<System>, events: seq<Event>, i: nat)
    returns (run': seq<System>, events': seq<Event>)
    requires IsRun(run, events) && Connected(Last(run), i)
    ensures Continues(run, events, run', events') && SameUsers(Last(run), Last(run'))
    ensures Connected(Last(run'), i)
    ensures var (s, s') := (Last(run), Last(run'));
            && s'.server.history == s.server.history && s'.server.origins == s.server.origins
            && var start := Srv.SliceStart(s.server.sessions[i]);
               && start <= |s.server.history|
               && s'.clients[s.link[i]].printed == Bodies(s.server.history[start..])
  {
    hide Srv.ServerInv, Cli.ClientInv, IsRun, SystemInv, AllFrames, FrameBodies, Bodies;
    LastInv(run, events);
    var b := Last(run).link[i];
    var run1, events1 := SessionWrites(run, events, i);
    LastInv(run1, events1);
    ServerPart(Last(run1));
    AllWritten(Last(run1).server, i);
    var fs := Wires(Last(run1).server.history[Srv.SliceStart(Last(run1).server.sessions[i])..]);
    run1, events1 := MovesDown(run1, events1, i);
    run', events' := ClientReads(run1, events1, b, fs);
  }

  /** Where in the history message number `j` of session `i` stands. */
  lemma {:induction false} PlaceOf(history: seq<Message>, origins: seq<nat>, i: nat, j: nat) returns (h: nat)
    requires |history| == |origins| && j < |Srv.From(history, origins, i)|
    ensures h < |history| && origins[h] == i && Rank(origins, h) == j
  {
    var last := |history| - 1;
    var before := Srv.From(history[..last], origins[..last], i);
    if j < |before| {
      h := PlaceOf(history[..last], origins[..last], i, j);
      assert origins[..last][..h] == origins[..h];
    } else {
      h := last;
      FromCounts(history[..last], origins[..last], i);
    }
  }

  /** Line number `p` of session `i` is message `h` of the history, as it was typed, and is printed in
      its place by a client whose slice starts at `start`, if the slice reaches back that far. */
  ghost predicate Delivered(
      s: Srv.Server, i: nat, p: nat, line: seq<Byte>, printed: seq<seq<Byte>>, start: nat) {
    exists h: nat ::
      && h < |s.history| && |s.origins| == |s.history| && s.origins[h] == i && Rank(s.origins, h) == p
      && Body(s.history[h]) == Sendable(line)
      && (0 !in line ==> Body(s.history[h]) == line)
      && (start <= h ==> h - start < |printed| && printed[h - start] == Body(s.history[h]))
  }

  /** From every point of every run, and for any two connections in order, there is a continuation
      with the same users in which every line typed at the first client so far is delivered to the
      room, and is printed by the second, as it was typed up to a NUL, unless it was delivered more than a
      hundred messages before the second client joined. */
  lemma TypedCanBePrinted(run: seq<System>, events: seq<Event>, i: nat, j: nat)
    returns (run': seq<System>, events': seq<Event>)
    requires IsRun(run, events) && Connected(Last(run), i) && Connected(Last(run), j)
    ensures Continues(run, events, run', events') && SameUsers(Last(run), Last(run'))
    ensures i in Last(run').link && Last(run').link[i] < |Last(run').clients|
    ensures j in Last(run').link && Last(run').link[j] < |Last(run').clients|
    ensures j < |Last(run').server.sessions|
    ensures var s := Last(run').server;
            var lines := Last(run').clients[Last(run').link[i]].lines;
            var printed := Last(run').clients[Last(run').link[j]].printed;
            var start := Srv.SliceStart(s.sessions[j]);
            forall p :: 0 <= p < |lines| ==> Delivered(s, i, p, lines[p], printed, start)
  {
    hide Srv.ServerInv, Cli.ClientInv, IsRun, SystemInv, Sendable, FrameBody, Body, Srv.From, Rank;
    var run1, events1 := TypedReachesRoom(run, events, i);
    run', events' := RoomReachesScreen(run1, events1, j);
    LastInv(run', events');
    var s := Last(run').server;
    var c := Last(run').clients[Last(run').link[i]];
    ClientPart(Last(run'), Last(run').link[i]);
    ClientFacts(c);
    var printed := Last(run').clients[Last(run').link[j]].printed;
    var start := Srv.SliceStart(s.sessions[j]);
    forall p | 0 <= p < |c.lines|
      ensures Delivered(s, i, p, c.lines[p], printed, start)
    {
      var h := PlaceOf(s.history, s.origins, i, p);
      FromAtRank(s.history, s.origins, h);
      FrameWire(s.history[h]);
      SendableWhole(c.lines[p]);
      assert Body(s.history[h]) == Sendable(c.lines[p]);
    }
  }

  /** A client can be started and connected at any time. */
  lemma ConnectionCanBeMade(run: seq<System>, events: seq<Event>, memory: Message)
    returns (run': seq<System>, events': seq<Event>, i: nat)
    requires IsRun(run, events)
    ensures Continues(run, events, run', events')
    ensures i == |Last(run).server.sessions| && Connected(Last(run'), i)
    ensures Last(run').link[i] == |Last(run).clients|
  {
    hide Srv.ServerInv, Cli.ClientInv, IsRun, PushAll;
    LastInv(run, events);
    var s := Last(run);
    i := |s.server.sessions|;
    var run1, events1 := OneMore(run, events, Launch(memory));
    run1, events1 := OneMore(run1, events1, AcceptClient(memory, |s.clients|));
    run', events' := OneMore(run1, events1, OnClient(|s.clients|, Cli.Connected));
  }

  /** There is a message for every line. */
  lemma MessageFor(line: seq<Byte>) returns (m: Message)
    ensures Cli.IsMessageFor(m, line)
  {
    var body := Sendable(line);
    var header := FormatLength(|body|);
    HeaderRoundTrip(|body|);
    var rest := seq(BUFFER_LENGTH - HEADER_LENGTH - |body|, _ => 0);
    m := Message(header + body + rest, |body|);
    assert m.data[..HEADER_LENGTH] == header;
  }

  /** Whatever happens, the history and its origins only grow. */
  lemma {:induction false} RoomGrows(run: seq<System>, events: seq<Event>, k: nat, l: nat)
    requires IsRun(run, events) && k <= l < |run|
    ensures run[k].server.history <= run[l].server.history
    ensures run[k].server.origins <= run[l].server.origins
    decreases l - k
  {
    hide Srv.Step, Srv.Enabled, Cli.Step, Cli.Enabled;
    if k < l {
      RoomGrows(run, events, k, l - 1);
      RoomStepGrows(run[l - 1], events[l - 1]);
    }
  }

  lemma RoomStepGrows(s: System, e: Event)
    requires Enabled(s, e)
    ensures s.server.history <= Step(s, e).server.history
    ensures s.server.origins <= Step(s, e).server.origins
  {
    hide Cli.Step, Cli.Enabled;
    match e {
      case AcceptClient(memory, _) => ServerStepKeeps(s.server, Srv.Accept(memory));
      case OnServer(e') => ServerStepKeeps(s.server, e');
      case ToServer(i, bytes) => ServerStepKeeps(s.server, Srv.Arrive(i, bytes));
      case _ =>
    }
  }

  lemma ServerStepKeeps(s: Srv.Server, e: Srv.Event)
    requires Srv.Enabled(s, e)
    ensures s.history <= Srv.Step(s, e).history && s.origins <= Srv.Step(s, e).origins
  {
  }

  /** A message that was there has a smaller rank than the number of those its session had sent. */
  lemma RankOfEarlier(history: seq<Message>, origins: seq<nat>, origins': seq<nat>, h: nat)
    requires |history| == |origins| && origins <= origins' && h < |history|
    ensures Rank(origins', h) < |Srv.From(history, origins, origins'[h])|
  {
    var i := origins'[h];
    FromCounts(history, origins, i);
    assert origins'[..h] == origins[..h];
    assert origins == origins[..h] + [i] + origins[h + 1..];
    assert multiset(origins)[i] == multiset(origins[..h])[i] + 1 + multiset(origins[h + 1..])[i];
  }

  /** What has not been typed yet will come behind everything in the room. */
  lemma NextComesBehind(run: seq<System>, events: seq<Event>, i: nat, j: nat, origins': seq<nat>, h: nat)
    requires IsRun(run, events) && Connected(Last(run), i) && Connected(Last(run), j)
    requires Last(run).server.origins <= origins' && h < |origins'| && origins'[h] == i
    requires Rank(origins', h) == |Last(run).clients[Last(run).link[i]].lines|
    ensures Srv.SliceStart(Last(run).server.sessions[j])
            + |Last(run).clients[Last(run).link[j]].printed| <= |Last(run).server.history| <= h
  {
    hide Srv.ServerInv, SystemInv, Cli.ClientInv, IsRun, Srv.From, Rank, Healthy, FrameBody, Sendable;
    LastInv(run, events);
    var s := Last(run);
    ServerPart(s);
    SessionFacts(s.server, i);
    PrintedByLast(run, events, j);
    HandedByLast(run, events, i);
    if h < |s.server.history| {
      RankOfEarlier(s.server.history, s.server.origins, origins', h);
    }
  }

  lemma PrintedByLast(run: seq<System>, events: seq<Event>, j: nat)
    requires IsRun(run, events) && Connected(Last(run), j)
    ensures Srv.SliceStart(Last(run).server.sessions[j])
            + |Last(run).clients[Last(run).link[j]].printed| <= |Last(run).server.history|
  {
    hide Srv.ServerInv, SystemInv, Cli.ClientInv;
    PrintedIsPrefixOfSlice(run, events, |events|, j);
  }

  lemma HandedByLast(run: seq<System>, events: seq<Event>, i: nat)
    requires IsRun(run, events) && Connected(Last(run), i)
    ensures |Last(run).server.sessions[i].reader.frames| <= |Last(run).clients[Last(run).link[i]].lines|
  {
    hide Srv.ServerInv, SystemInv, Cli.ClientInv, FrameBody, Sendable;
    HandedIsPrefixOfQueued(run, events, |events|, i);
  }

  /** From keyboard to screen, at any time: whatever line is typed next at a connected client, if it
      fits and holds no NUL, can be printed as it is, and anew, by any connected client. */
  lemma NextLineCanBePrinted(run: seq<System>, events: seq<Event>, i: nat, j: nat, line: seq<Byte>)
    returns (run': seq<System>, events': seq<Event>, q: int)
    requires IsRun(run, events) && Connected(Last(run), i) && Connected(Last(run), j)
    requires |line| <= 512 && 0 !in line
    ensures Continues(run, events, run', events')
    ensures Last(run').link == Last(run).link
    ensures Connected(Last(run'), i) && Connected(Last(run'), j)
    ensures Last(run').clients[Last(run).link[i]].lines == Last(run).clients[Last(run).link[i]].lines + [line]
    ensures var (before, now) := (Last(run).clients[Last(run).link[j]], Last(run').clients[Last(run).link[j]]);
            |before.printed| <= q < |now.printed| && now.printed[q] == line
  {
    hide Srv.ServerInv, Cli.ClientInv, IsRun, SystemInv, Sendable, Srv.From, Rank, Linked;
    LastInv(run, events);
    var s := Last(run);
    var a := s.link[i];
    var msg := MessageFor(line);
    var run1, events1 := ClientEvent(run, events, a, Cli.Type(line, msg));
    run', events' := TypedCanBePrinted(run1, events1, i, j);
    var s' := Last(run');
    var p := |s.clients[a].lines|;
    assert s'.clients[a].lines[p] == line;
    var printed := s'.clients[s.link[j]].printed;
    var start := Srv.SliceStart(s'.server.sessions[j]);
    assert Delivered(s'.server, i, p, line, printed, start);
    var h: nat :|
      && h < |s'.server.history| && |s'.server.origins| == |s'.server.history|
      && s'.server.origins[h] == i && Rank(s'.server.origins, h) == p
      && Body(s'.server.history[h]) == line
      && (start <= h ==> h - start < |printed| && printed[h - start] == Body(s'.server.history[h]));
    RoomGrowsTo(run, events, run', events');
    NextComesBehind(run, events, i, j, s'.server.origins, h);
    assert start == Srv.SliceStart(s.server.sessions[j]);
    q := h - start;
  }

  lemma RoomGrowsTo(run: seq<System>, events: seq<Event>, run': seq<System>, events': seq<Event>)
    requires IsRun(run, events) && Continues(run, events, run', events')
    ensures Last(run).server.origins <= Last(run').server.origins
  {
    RoomGrows(run', events', |run| - 1, |run'| - 1);
  }
}
