/** The server and any number of clients, joined by TCP connections.

    A connection delivers a prefix of the bytes put on the wire at its other end: it is reliable
    and in order, and may stop. Sessions without a client of ours have a peer that may send
    anything. */
module ChatSystem {
  import opened Wrappers
  import opened ChatMessages
  import opened Framing
  import Srv = ChatServer
  import Cli = ChatClient

  /** `link` gives the client at the other end of a session. */
  datatype System = System(server: Srv.Server, clients: seq<Cli.Client>, link: map<nat, nat>)

  const EMPTY_SYSTEM := System(Srv.EMPTY_SERVER, [], map[])

  datatype Event =
    | Launch(memory: Message)                       // a client program starts
    | AcceptClient(memory: Message, c: nat)         // the server accepts the connection of a client
    | OnServer(se: Srv.Event)
    | OnClient(c: nat, ce: Cli.Event)
    | ToServer(i: nat, bytes: seq<Byte>)            // a connection moves bytes of a client
    | ToClient(i: nat, bytes: seq<Byte>)            // a connection moves bytes of a session

  predicate Enabled(s: System, e: Event) {
    match e
    case Launch(_) => true
    case AcceptClient(_, c) => c < |s.clients| && c !in s.link.Values
    case OnServer(e') => Srv.Enabled(s.server, e') && (e'.Arrive? ==> e'.i !in s.link)
    case OnClient(c, e') => c < |s.clients| && Cli.Enabled(s.clients[c], e') && !e'.Arrive?
    case ToServer(i, bytes) =>
      && i in s.link && i < |s.server.sessions| && s.link[i] < |s.clients|
      && s.server.sessions[i].inbound + bytes <= s.clients[s.link[i]].writer.outbound
    case ToClient(i, bytes) =>
      && i in s.link && i < |s.server.sessions| && s.link[i] < |s.clients|
      && s.clients[s.link[i]].connected
      && s.clients[s.link[i]].inbound + bytes <= s.server.sessions[i].writer.outbound
  }

  function UpdateClient(s: System, c: nat, e: Cli.Event): (s': System)
    requires c < |s.clients| && Cli.Enabled(s.clients[c], e)
  {
    s.(clients := s.clients[c := Cli.Step(s.clients[c], e)])
  }

  function Step(s: System, e: Event): (s': System)
    requires Enabled(s, e)
  {
    match e
    case Launch(memory) => s.(clients := s.clients + [Cli.Fresh(memory)])
    case AcceptClient(memory, c) =>
      s.(server := Srv.Step(s.server, Srv.Accept(memory)), link := s.link[|s.server.sessions| := c])
    case OnServer(e') => s.(server := Srv.Step(s.server, e'))
    case OnClient(c, e') => UpdateClient(s, c, e')
    case ToServer(i, bytes) => s.(server := Srv.Step(s.server, Srv.Arrive(i, bytes)))
    case ToClient(i, bytes) => UpdateClient(s, s.link[i], Cli.Arrive(bytes))
  }

  ghost predicate IsRun(run: seq<System>, events: seq<Event>) {
    && |run| == |events| + 1
    && run[0] == EMPTY_SYSTEM
    && (forall k :: 0 <= k < |events| ==> Enabled(run[k], events[k]) && run[k + 1] == Step(run[k], events[k]))
  }

  /** Both ends of a connection hold what the connection has moved so far. */
  ghost predicate Linked(n: Srv.Session, c: Cli.Client) {
    n.inbound <= c.writer.outbound && c.inbound <= n.writer.outbound
  }

  ghost predicate SystemInv(s: System) {
    && Srv.ServerInv(s.server)
    && (forall c :: 0 <= c < |s.clients| ==> Cli.ClientInv(s.clients[c]))
    && (forall i :: i in s.link ==> i < |s.server.sessions| && s.link[i] < |s.clients|)
    && (forall i, j :: i in s.link && j in s.link && i != j ==> s.link[i] != s.link[j])
    && (forall i :: i in s.link ==> Linked(s.server.sessions[i], s.clients[s.link[i]]))
    && (forall c :: 0 <= c < |s.clients| && c !in s.link.Values ==> s.clients[c].inbound == [])
  }

  /** What a server step can do to a connection: only add bytes to its own side of the wire. */
  lemma ServerStepGrows(s: Srv.Server, e: Srv.Event, i: nat)
    requires Srv.ServerInv(s) && Srv.Enabled(s, e) && i < |s.sessions|
    ensures i < |Srv.Step(s, e).sessions|
    ensures s.sessions[i].writer.outbound <= Srv.Step(s, e).sessions[i].writer.outbound
    ensures Srv.Step(s, e).sessions[i].inbound
            == s.sessions[i].inbound + if e.Arrive? && e.i == i then e.bytes else []
  {
    hide Srv.ServerInv;
    Srv.StepEvolves(s, e, i);
  }

  lemma ClientStepGrows(c: Cli.Client, e: Cli.Event)
    requires Cli.ClientInv(c) && Cli.Enabled(c, e)
    ensures c.writer.outbound <= Cli.Step(c, e).writer.outbound
    ensures Cli.Step(c, e).inbound == c.inbound + if e.Arrive? then e.bytes else []
  {
  }

  lemma ServerPartKeepsInv(s: System, e: Srv.Event)
    requires SystemInv(s) && Srv.Enabled(s.server, e)
    requires e.Arrive? && e.i in s.link ==>
               s.server.sessions[e.i].inbound + e.bytes <= s.clients[s.link[e.i]].writer.outbound
    ensures SystemInv(s.(server := Srv.Step(s.server, e)))
  {
    hide Srv.ServerInv, Cli.ClientInv;
    Srv.StepKeepsInv(s.server, e);
    var s' := s.(server := Srv.Step(s.server, e));
    forall i | i in s.link
      ensures i < |s'.server.sessions| && Linked(s'.server.sessions[i], s'.clients[s'.link[i]])
    {
      hide Srv.Step, Srv.Enabled;
      ServerStepGrows(s.server, e, i);
    }
  }

  lemma ClientPartKeepsInv(s: System, c: nat, e: Cli.Event, i: nat)
    requires SystemInv(s) && c < |s.clients| && Cli.Enabled(s.clients[c], e)
    requires e.Arrive? ==>
               && i in s.link && s.link[i] == c
               && s.clients[c].inbound + e.bytes <= s.server.sessions[i].writer.outbound
    ensures SystemInv(UpdateClient(s, c, e))
  {
    hide Srv.ServerInv, Cli.ClientInv, Cli.Step, Cli.Enabled;
    Cli.StepKeepsInv(s.clients[c], e);
    ClientStepGrows(s.clients[c], e);
  }

  /** Joining a session and a client between which nothing has moved yet. */
  lemma AddLinkKeepsInv(s: System, n: nat, c: nat)
    requires SystemInv(s) && n < |s.server.sessions| && c < |s.clients|
    requires n !in s.link && c !in s.link.Values && s.server.sessions[n].inbound == []
    ensures SystemInv(s.(link := s.link[n := c]))
  {
    hide Srv.ServerInv, Cli.ClientInv;
    var s' := s.(link := s.link[n := c]);
    forall d | d in s.link.Values || d == c
      ensures d in s'.link.Values
    {
      if d == c {
        assert s'.link[n] == d;
      } else {
        var i :| i in s.link && s.link[i] == d;
        assert s'.link[i] == d;
      }
    }
    assert Linked(s'.server.sessions[n], s'.clients[c]);
  }

  lemma AcceptClientKeepsInv(s: System, memory: Message, c: nat)
    requires SystemInv(s) && Enabled(s, AcceptClient(memory, c))
    ensures SystemInv(Step(s, AcceptClient(memory, c)))
  {
    hide Srv.ServerInv, Cli.ClientInv, Linked;
    ServerPartKeepsInv(s, Srv.Accept(memory));
    AddLinkKeepsInv(s.(server := Srv.Step(s.server, Srv.Accept(memory))), |s.server.sessions|, c);
  }

  lemma FreshClient(memory: Message)
    ensures Cli.ClientInv(Cli.Fresh(memory))
  {
  }

  lemma LaunchKeepsInv(s: System, memory: Message)
    requires SystemInv(s)
    ensures SystemInv(Step(s, Launch(memory)))
  {
    hide Srv.ServerInv, Cli.ClientInv;
    FreshClient(memory);
  }

  lemma StepKeepsInv(s: System, e: Event)
    requires SystemInv(s) && Enabled(s, e)
    ensures SystemInv(Step(s, e))
  {
    hide Srv.ServerInv, Cli.ClientInv, Linked, Srv.Step, Cli.Step;
    match e {
      case Launch(memory) => LaunchKeepsInv(s, memory);
      case AcceptClient(memory, c) => AcceptClientKeepsInv(s, memory, c);
      case OnServer(e') => ServerPartKeepsInv(s, e');
      case OnClient(c, e') => ClientPartKeepsInv(s, c, e', 0);
      case ToServer(i, bytes) => ServerPartKeepsInv(s, Srv.Arrive(i, bytes));
      case ToClient(i, bytes) => ClientPartKeepsInv(s, s.link[i], Cli.Arrive(bytes), i);
    }
  }

  lemma {:induction false} RunKeepsInv(run: seq<System>, events: seq<Event>, k: nat)
    requires IsRun(run, events) && k < |run|
    ensures SystemInv(run[k])
  {
    if k > 0 {
      RunKeepsInv(run, events, k - 1);
      StepKeepsInv(run[k - 1], events[k - 1]);
    }
  }

  // ---------- end to end ----------

  /** Upwards, at every point of every run: the messages that a session has handed to the room are,
      byte for byte, a prefix of those its client has queued, and the k-th of them carries the k-th
      line typed there. */
  lemma HandedIsPrefixOfQueued(run: seq<System>, events: seq<Event>, k: nat, i: nat)
    requires IsRun(run, events) && k < |run| && i in run[k].link
    ensures i < |run[k].server.sessions| && run[k].link[i] < |run[k].clients|
    ensures var n := run[k].server.sessions[i];
            var c := run[k].clients[run[k].link[i]];
            && n.reader.frames <= Wires(Accepted(c.writer))
            && |n.reader.frames| <= |c.lines|
            && forall j :: 0 <= j < |n.reader.frames| ==> FrameBody(n.reader.frames[j]) == Sendable(c.lines[j])
  {
    hide Cli.ClientInv, WriterInv, ReaderInv;
    RunKeepsInv(run, events, k);
    var s := run[k];
    assert Linked(s.server.sessions[i], s.clients[s.link[i]]);
    Cli.PeerIsHandedTheLines(s.clients[s.link[i]], s.server.sessions[i].reader);
  }

  /** The bodies of a stretch of the history. */
  function Bodies(ms: seq<Message>): (bs: seq<seq<Byte>>)
    ensures |bs| == |ms|
  {
    seq(|ms|, j requires 0 <= j < |ms| => Body(ms[j]))
  }

  /** Downwards, at every point of every run: what a client has printed is a prefix of the bodies of
      its session's slice of the room's history. */
  lemma PrintedIsPrefixOfSlice(run: seq<System>, events: seq<Event>, k: nat, i: nat)
    requires IsRun(run, events) && k < |run| && i in run[k].link
    ensures i < |run[k].server.sessions| && run[k].link[i] < |run[k].clients|
    ensures var n := run[k].server.sessions[i];
            var c := run[k].clients[run[k].link[i]];
            var h := run[k].server.history;
            && Srv.SliceStart(n) <= Srv.SliceEnd(n, |h|) <= |h|
            && c.printed <= Bodies(h[Srv.SliceStart(n)..Srv.SliceEnd(n, |h|)])
  {
    hide WriterInv, ReaderInv;
    RunKeepsInv(run, events, k);
    var s := run[k];
    var (n, c) := (s.server.sessions[i], s.clients[s.link[i]]);
    assert Linked(n, c);
    assert Srv.SessionInv(n, s.server.history);
    var slice := Accepted(n.writer);
    PeerReadsPrefix(n.writer, c.reader);
    forall j | 0 <= j < |c.printed|
      ensures c.printed[j] == Body(slice[j])
    {
      assert c.reader.frames[j] == Wires(slice)[j];
      FrameWire(slice[j]);
    }
  }

  /** How many of the first `h` messages of the history came from the same session as message `h`. */
  function Rank(origins: seq<nat>, h: nat): (r: nat)
    requires h < |origins|
  {
    multiset(origins[..h])[origins[h]]
  }

  /** Message `h` is the one with its rank among those of its session. */
  lemma {:induction false} FromAtRank(history: seq<Message>, origins: seq<nat>, h: nat)
    requires |history| == |origins| && h < |history|
    ensures var fs := Srv.From(history, origins, origins[h]);
            Rank(origins, h) < |fs| && fs[Rank(origins, h)] == Wire(history[h])
  {
    var last := |history| - 1;
    var i := origins[h];
    if h == last {
      FromCounts(history[..last], origins[..last], i);
    } else {
      FromAtRank(history[..last], origins[..last], h);
      assert origins[..last][..h] == origins[..h];
      assert Srv.From(history[..last], origins[..last], i) <= Srv.From(history, origins, i);
    }
  }

  lemma {:induction false} FromCounts(history: seq<Message>, origins: seq<nat>, i: nat)
    requires |history| == |origins|
    ensures |Srv.From(history, origins, i)| == multiset(origins)[i]
  {
    if history != [] {
      var last := |history| - 1;
      FromCounts(history[..last], origins[..last], i);
      assert origins == origins[..last] + [origins[last]];
    }
  }

  /** A client has closed its connection exactly if an event of its own has made it do so. */
  lemma {:induction false} ClosedIff(run: seq<System>, events: seq<Event>, k: nat, c: nat)
    requires IsRun(run, events) && k < |run| && c < |run[k].clients|
    ensures run[k].clients[c].closed <==>
              exists h :: 0 <= h < k && events[h].OnClient? && events[h].c == c
                          && c < |run[h].clients| && Cli.Closes(run[h].clients[c], events[h].ce)
    decreases k
  {
    hide Cli.ClientInv, Srv.ServerInv, Cli.Step, Srv.Step, Cli.Enabled, Srv.Enabled, Cli.Closes;
    if k > 0 {
      RunKeepsInv(run, events, k - 1);
      ClientFate(run[k - 1], events[k - 1], c);
      if c < |run[k - 1].clients| {
        ClosedIff(run, events, k - 1, c);
      } else {
        NotBefore(run, events, k - 1, c);
      }
    }
  }

  lemma ClientFate(s: System, e: Event, c: nat)
    requires SystemInv(s) && Enabled(s, e) && c < |Step(s, e).clients|
    ensures |s.clients| <= |Step(s, e).clients|
    ensures c >= |s.clients| ==> !Step(s, e).clients[c].closed
    ensures c < |s.clients| ==>
              (Step(s, e).clients[c].closed <==>
                 s.clients[c].closed || (e.OnClient? && e.c == c && Cli.Closes(s.clients[c], e.ce)))
  {
    hide Cli.ClientInv, Srv.ServerInv, Cli.Step, Srv.Step, Cli.Enabled, Srv.Enabled, Linked;
    match e {
      case OnClient(c', e') => Cli.StepFate(s.clients[c'], e');
      case ToClient(i, bytes) => ArriveEnabled(s.clients[s.link[i]], bytes);
      case _ =>
    }
  }

  lemma ArriveEnabled(c: Cli.Client, bytes: seq<Byte>)
    requires c.connected
    ensures Cli.Enabled(c, Cli.Arrive(bytes)) && Cli.Step(c, Cli.Arrive(bytes)).closed == c.closed
  {
  }

  lemma {:induction false} NotBefore(run: seq<System>, events: seq<Event>, k: nat, c: nat)
    requires IsRun(run, events) && k < |run| && c >= |run[k].clients|
    ensures forall h :: 0 <= h <= k ==> c >= |run[h].clients|
  {
    hide Cli.Step, Srv.Step, Cli.Enabled, Srv.Enabled;
    if k > 0 {
      NotBefore(run, events, k - 1, c);
    }
  }

  /** From keyboard to screen, at every point of every run: line number `p` that a client prints is
      message number h = start + p of the history; and when the session that delivered that message
      belongs to one of our clients, the line is the one typed there as number Rank(h). So no line
      is invented, altered, duplicated or reordered on its way from any client to any other. */
  lemma PrintedLineWasTyped(run: seq<System>, events: seq<Event>, k: nat, i: nat, p: nat)
    requires IsRun(run, events) && k < |run| && i in run[k].link
    requires run[k].link[i] < |run[k].clients| && p < |run[k].clients[run[k].link[i]].printed|
    ensures i < |run[k].server.sessions|
    ensures var (s, c) := (run[k], run[k].clients[run[k].link[i]]);
            var h := Srv.SliceStart(s.server.sessions[i]) + p;
            && h < |s.server.history| == |s.server.origins|
            && c.printed[p] == Body(s.server.history[h])
            && (s.server.origins[h] in s.link ==>
                  var sender := s.link[s.server.origins[h]];
                  && sender < |s.clients|
                  && Rank(s.server.origins, h) < |s.clients[sender].lines|
                  && var line := s.clients[sender].lines[Rank(s.server.origins, h)];
                     && |line| <= 512 && c.printed[p] == Sendable(line)
                     && (0 !in line ==> c.printed[p] == line))
  {
    hide Cli.ClientInv, Srv.SessionInv, Sendable;
    PrintedIsPrefixOfSlice(run, events, k, i);
    RunKeepsInv(run, events, k);
    var s := run[k];
    var n := s.server.sessions[i];
    var h := Srv.SliceStart(n) + p;
    assert s.clients[s.link[i]].printed[p]
        == Bodies(s.server.history[Srv.SliceStart(n)..Srv.SliceEnd(n, |s.server.history|)])[p];
    var from := s.server.origins[h];
    if from in s.link {
      HandedIsPrefixOfQueued(run, events, k, from);
      FromAtRank(s.server.history, s.server.origins, h);
      FrameWire(s.server.history[h]);
      LinesFit(s.clients[s.link[from]]);
      SendableWhole(s.clients[s.link[from]].lines[Rank(s.server.origins, h)]);
    }
  }

  lemma LinesFit(c: Cli.Client)
    requires Cli.ClientInv(c)
    ensures forall k :: 0 <= k < |c.lines| ==> |c.lines[k]| <= 512
  {
  }
}
