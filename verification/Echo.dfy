/** The echo connection: a polled session that reads into and writes from one fixed buffer, and the
    glue that starts the waits it asks for.

    `Conn` is a connection as a value, moved by one completion handler at a time. `Session` and
    `Connection` are the objects; in them the unsent bytes are a view into the reused buffer. */
module Echo {
  import opened Wrappers

  const DATA_LENGTH: nat := 128

  /** What one handler meets: its own error code, the error of the operation it then performs, or
      the bytes (for a read) or number of bytes (for a write) that the operation moves. */
  datatype Outcome<T> = HandlerError(wouldBlock: bool) | OperationError(wouldBlock: bool) | Moved(what: T)

  datatype Event =
    | Start
    | ReadHandler(read: Outcome<seq<Byte>>)
    | WriteHandler(write: Outcome<nat>)

  /** `readWaits` and `writeWaits` count the async_wait operations outstanding; `received` and `sent`
      record the bytes that went through the socket; `unsent` is what write_buffer_ shows. */
  datatype Conn = Conn(started: bool, open: bool, writing: bool, unsent: seq<Byte>,
                       readFlag: bool, writeFlag: bool, readWaits: nat, writeWaits: nat,
                       received: seq<Byte>, sent: seq<Byte>)

  const NEW_CONN := Conn(false, true, false, [], false, false, 0, 0, [], [])

  function StartRead(c: Conn): (c': Conn) {
    if !c.writing && !c.readFlag then c.(readFlag := true, readWaits := c.readWaits + 1) else c
  }

  function StartWrite(c: Conn): (c': Conn) {
    if c.writing && !c.writeFlag then c.(writeFlag := true, writeWaits := c.writeWaits + 1) else c
  }

  /** start_operations: ask for the waits that the session wants and that are not outstanding. */
  function AskAgain(c: Conn): (c': Conn) {
    StartWrite(StartRead(c))
  }

  /** read_some filled the front of the buffer, and the view shows exactly what was read. */
  function DoRead(c: Conn, bytes: seq<Byte>): (c': Conn) {
    c.(received := c.received + bytes, unsent := bytes, writing := true)
  }

  function DoWrite(c: Conn, n: nat): (c': Conn)
    requires n <= |c.unsent|
  {
    c.(sent := c.sent + c.unsent[..n], unsent := c.unsent[n..], writing := n < |c.unsent|)
  }

  /** Closing the socket cancels whatever is outstanding. */
  function Close(c: Conn): (c': Conn) {
    c.(open := false)
  }

  predicate Enabled(c: Conn, e: Event) {
    match e
    case Start => !c.started
    case ReadHandler(o) => c.readWaits > 0 && (o.Moved? ==> 0 < |o.what| <= DATA_LENGTH)
    case WriteHandler(o) => c.writeWaits > 0 && (o.Moved? ==> 0 < o.what <= |c.unsent|)
  }

  function Step(c: Conn, e: Event): (c': Conn)
    requires Enabled(c, e)
  {
    match e
    case Start => AskAgain(c.(started := true))
    case ReadHandler(o) =>
      var d := c.(readFlag := false, readWaits := c.readWaits - 1);
      if o.Moved? then AskAgain(DoRead(d, o.what))
      else if o.wouldBlock then AskAgain(d)
      else Close(d)
    case WriteHandler(o) =>
      var d := c.(writeFlag := false, writeWaits := c.writeWaits - 1);
      if o.Moved? then AskAgain(DoWrite(d, o.what))
      else if o.wouldBlock then AskAgain(d)
      else Close(d)
  }

  /** Echo: nothing is lost, repeated or reordered. Waits: an open, started connection has exactly
      one wait outstanding, of the kind that the session wants, and the flags say so; before the
      start and after closing there is none. */
  ghost predicate ConnInv(c: Conn) {
    && c.sent + c.unsent == c.received
    && |c.unsent| <= DATA_LENGTH
    && (c.writing <==> c.unsent != [])
    && c.readWaits == (if c.started && c.open && !c.writing then 1 else 0)
    && c.writeWaits == (if c.started && c.open && c.writing then 1 else 0)
    && c.readFlag == (c.readWaits == 1)
    && c.writeFlag == (c.writeWaits == 1)
    && (!c.started ==> c.open && c.received == [])
  }

  lemma StepKeepsInv(c: Conn, e: Event)
    requires ConnInv(c) && Enabled(c, e)
    ensures ConnInv(Step(c, e))
    ensures c.open
  {
    if e.WriteHandler? && e.write.Moved? {
      assert c.unsent == c.unsent[..e.write.what] + c.unsent[e.write.what..];
    }
  }

  ghost predicate IsRun(run: seq<Conn>, events: seq<Event>) {
    && |run| == |events| + 1
    && run[0] == NEW_CONN
    && (forall k :: 0 <= k < |events| ==> Enabled(run[k], events[k]) && run[k + 1] == Step(run[k], events[k]))
  }

  lemma {:induction false} RunKeepsInv(run: seq<Conn>, events: seq<Event>, k: nat)
    requires IsRun(run, events) && k < |run|
    ensures ConnInv(run[k])
  {
    if k > 0 {
      RunKeepsInv(run, events, k - 1);
      StepKeepsInv(run[k - 1], events[k - 1]);
    }
  }

  /** At every point of every run, for all sizes of reads and writes and wherever they block, the
      bytes sent followed by the unsent view are the bytes received. */
  lemma EchoesInOrder(run: seq<Conn>, events: seq<Event>, k: nat)
    requires IsRun(run, events) && k < |run|
    ensures run[k].sent + run[k].unsent == run[k].received
  {
    RunKeepsInv(run, events, k);
  }

  /** A read only ever happens when everything read before has been sent: the buffer is never
      overwritten under the unsent view. */
  lemma ReadsFindNothingUnsent(run: seq<Conn>, events: seq<Event>, k: nat)
    requires IsRun(run, events) && k < |events| && events[k].ReadHandler?
    ensures run[k].unsent == [] && run[k].sent == run[k].received
  {
    RunKeepsInv(run, events, k);
  }

  /** An open, started connection always waits for exactly the one thing its session wants, so it
      neither stalls nor waits twice; a closed one waits for nothing and never moves again. */
  lemma OneWaitOutstanding(run: seq<Conn>, events: seq<Event>, k: nat)
    requires IsRun(run, events) && k < |run|
    ensures var c := run[k];
            && (c.started && c.open ==> c.readWaits + c.writeWaits == 1)
            && (c.readWaits == 1 ==> !c.writing) && (c.writeWaits == 1 ==> c.writing)
            && (c.readFlag <==> c.readWaits == 1) && (c.writeFlag <==> c.writeWaits == 1)
            && (!c.open ==> c.readWaits + c.writeWaits == 0 && k == |events|)
  {
    RunKeepsInv(run, events, k);
  }

  /** The handler met an error other than would-block, in its own error code or from its operation. */
  predicate Fatal(e: Event) {
    (e.ReadHandler? && !e.read.Moved? && !e.read.wouldBlock) ||
    (e.WriteHandler? && !e.write.Moved? && !e.write.wouldBlock)
  }

  /** A connection is open in a state of a run exactly if no handler before it met such an error. */
  lemma {:induction false} OpenIff(run: seq<Conn>, events: seq<Event>, k: nat)
    requires IsRun(run, events) && k < |run|
    ensures run[k].open <==> forall h :: 0 <= h < k ==> !Fatal(events[h])
  {
    if k > 0 {
      OpenIff(run, events, k - 1);
      RunKeepsInv(run, events, k - 1);
      StepKeepsInv(run[k - 1], events[k - 1]);
      assert run[k].open <==> !Fatal(events[k - 1]);
    }
  }

  /** The bytes that an event takes out of the socket. */
  function ReadBy(e: Event): (bytes: seq<Byte>) {
    if e.ReadHandler? && e.read.Moved? then e.read.what else []
  }

  /** How many bytes an event puts into the socket. */
  function WrittenBy(e: Event): (n: nat) {
    if e.WriteHandler? && e.write.Moved? then e.write.what else 0
  }

  function BytesRead(events: seq<Event>): (bytes: seq<Byte>) {
    if events == [] then [] else BytesRead(events[..|events| - 1]) + ReadBy(events[|events| - 1])
  }

  function CountWritten(events: seq<Event>): (n: nat) {
    if events == [] then 0 else CountWritten(events[..|events| - 1]) + WrittenBy(events[|events| - 1])
  }

  /** What has been sent is as many of the bytes read as the writes have moved, from the first one
      on; a connection that is started waits for a read exactly if these are all of them. */
  lemma SentIsRead(run: seq<Conn>, events: seq<Event>, k: nat)
    requires IsRun(run, events) && k < |run|
    ensures var (bytes, n) := (BytesRead(events[..k]), CountWritten(events[..k]));
            && n <= |bytes| && run[k].sent == bytes[..n] && run[k].unsent == bytes[n..]
            && (run[k].started && run[k].open ==> (run[k].readWaits == 1 <==> n == |bytes|))
  {
    RunKeepsInv(run, events, k);
    SentAndRead(run, events, k);
    EchoesInOrder(run, events, k);
  }

  lemma {:induction false} SentAndRead(run: seq<Conn>, events: seq<Event>, k: nat)
    requires IsRun(run, events) && k < |run|
    ensures run[k].received == BytesRead(events[..k]) && |run[k].sent| == CountWritten(events[..k])
  {
    hide Step, ConnInv, ReadBy, WrittenBy;
    if k > 0 {
      SentAndRead(run, events, k - 1);
      RunKeepsInv(run, events, k - 1);
      StepMoves(run[k - 1], events[k - 1]);
      assert events[..k][..k - 1] == events[..k - 1];
    }
  }

  lemma StepMoves(c: Conn, e: Event)
    requires Enabled(c, e)
    ensures Step(c, e).received == c.received + ReadBy(e)
    ensures |Step(c, e).sent| == |c.sent| + WrittenBy(e)
  {
    assert c.received + [] == c.received;
    if e.WriteHandler? && e.write.Moved? {
      assert |c.unsent[..e.write.what]| == e.write.what;
    }
  }

  function Total(ns: seq<nat>): (n: nat) {
    if ns == [] then 0 else ns[0] + Total(ns[1..])
  }

  /** However the unsent bytes are split into writes, these writes can follow, and then everything
      received has been sent and the next read is waited for. */
  lemma {:induction false} WritesFinish(run: seq<Conn>, events: seq<Event>, ns: seq<nat>)
    returns (run': seq<Conn>, events': seq<Event>)
    requires IsRun(run, events)
    requires var c := run[|events|]; c.started && c.open && Total(ns) == |c.unsent|
    requires forall i :: 0 <= i < |ns| ==> ns[i] > 0
    ensures IsRun(run', events') && run <= run' && |events'| == |events| + |ns|
    ensures events' == events + seq(|ns|, i requires 0 <= i < |ns| => WriteHandler(Moved(ns[i])))
    ensures var c' := run'[|events'|];
            && c'.sent == c'.received == run[|events|].received
            && c'.open && c'.readWaits == 1 && c'.writeWaits == 0
    decreases |ns|
  {
    var c := run[|events|];
    RunKeepsInv(run, events, |events|);
    if ns == [] {
      return run, events;
    }
    var e := WriteHandler(Moved(ns[0]));
    var (run1, events1) := (run + [Step(c, e)], events + [e]);
    run', events' := WritesFinish(run1, events1, ns[1..]);
  }

  /** Any reading can follow when everything read before has been sent, and can be echoed. */
  lemma EchoesNextRead(run: seq<Conn>, events: seq<Event>, bytes: seq<Byte>, ns: seq<nat>)
    returns (run': seq<Conn>, events': seq<Event>)
    requires IsRun(run, events) && 0 < |bytes| <= 128
    requires var c := run[|events|]; c.started && c.open && c.sent == c.received
    requires Total(ns) == |bytes| && forall i :: 0 <= i < |ns| ==> ns[i] > 0
    ensures IsRun(run', events') && run <= run'
    ensures run'[|events'|].open && run'[|events'|].sent == run[|events|].sent + bytes
  {
    var c := run[|events|];
    RunKeepsInv(run, events, |events|);
    var e := ReadHandler(Moved(bytes));
    run', events' := WritesFinish(run + [Step(c, e)], events + [e], ns);
  }

  // ---------- the objects ----------

  class Session {
    const data: array<Byte>
    var writing: bool
    var viewAt: nat        // write_buffer_ is data[viewAt..viewAt + viewLength]
    var viewLength: nat

    ghost predicate Valid()
      reads this
    {
      data.Length == DATA_LENGTH && viewAt + viewLength <= DATA_LENGTH
    }

    ghost function Unsent(): seq<Byte>
      reads this, data
      requires Valid()
    {
      data[viewAt..viewAt + viewLength]
    }

    constructor ()
      ensures Valid() && fresh(data) && !writing && Unsent() == []
    {
      data := new Byte[DATA_LENGTH];
      writing, viewAt, viewLength := false, 0, 0;
    }

    predicate WantRead()
      reads this
    {
      !writing
    }

    predicate WantWrite()
      reads this
    {
      writing
    }

    /** read_some puts `bytes` at the front of the buffer, whatever the view shows at that time. */
    method Read(bytes: seq<Byte>)
      requires Valid() && 0 < |bytes| <= DATA_LENGTH
      modifies this, data
      ensures Valid() && WantWrite() && Unsent() == bytes
      ensures data[..] == bytes + old(data[|bytes|..])
    {
      for i := 0 to |bytes|
        invariant forall m :: 0 <= m < i ==> data[m] == bytes[m]
        invariant forall m :: i <= m < data.Length ==> data[m] == old(data[m])
      {
        data[i] := bytes[i];
      }
      assert data[..] == data[..|bytes|] + data[|bytes|..];
      viewAt, viewLength := 0, |bytes|;
      writing := true;
    }

    /** write_some has taken the first `n` bytes of the view. */
    method Write(n: nat) returns (ghost taken: seq<Byte>)
      requires Valid() && 0 < n <= viewLength
      modifies this
      ensures Valid() && taken == old(Unsent())[..n] && Unsent() == old(Unsent())[n..]
      ensures WantWrite() <==> Unsent() != []
    {
      taken := data[viewAt..viewAt + n];
      viewAt, viewLength := viewAt + n, viewLength - n;
      writing := viewLength > 0;
    }
  }

  class Connection {
    const session: Session
    var readInProgress: bool
    var writeInProgress: bool
    var open: bool
    ghost var started: bool
    ghost var readWaits: nat
    ghost var writeWaits: nat
    ghost var received: seq<Byte>
    ghost var sent: seq<Byte>

    ghost predicate Valid()
      reads this, session
    {
      session.Valid()
    }

    ghost function View(): Conn
      reads this, session, session.data
      requires Valid()
    {
      Conn(started, open, session.writing, session.Unsent(), readInProgress, writeInProgress,
           readWaits, writeWaits, received, sent)
    }

    constructor ()
      ensures Valid() && fresh(session) && fresh(session.data) && View() == NEW_CONN
    {
      session := new Session();
      readInProgress, writeInProgress, open := false, false, true;
      started, readWaits, writeWaits, received, sent := false, 0, 0, [], [];
    }

    method StartOperations()
      requires Valid()
      modifies `readInProgress, `writeInProgress, `readWaits, `writeWaits
      ensures Valid() && View() == AskAgain(old(View()))
    {
      if session.WantRead() && !readInProgress {
        readInProgress := true;
        readWaits := readWaits + 1;
      }
      if session.WantWrite() && !writeInProgress {
        writeInProgress := true;
        writeWaits := writeWaits + 1;
      }
    }

    method Start()
      requires Valid() && !started
      modifies this
      ensures Valid() && View() == Step(old(View()), Event.Start)
    {
      started := true;
      StartOperations();
    }

    /** The session's read, and its bytes coming out of the socket. */
    method PerformRead(bytes: seq<Byte>)
      requires Valid() && 0 < |bytes| <= DATA_LENGTH
      modifies `received, session, session.data
      ensures Valid() && View() == DoRead(old(View()), bytes)
    {
      session.Read(bytes);
      received := received + bytes;
    }

    /** The session's write, and its bytes going into the socket. */
    method PerformWrite(n: nat)
      requires Valid() && 0 < n <= session.viewLength
      modifies `sent, session
      ensures Valid() && View() == DoWrite(old(View()), n)
    {
      ghost var taken := session.Write(n);
      sent := sent + taken;
    }

    method HandleRead(o: Outcome<seq<Byte>>)
      requires Valid() && Enabled(View(), ReadHandler(o))
      modifies this, session, session.data
      ensures Valid() && View() == Step(old(View()), ReadHandler(o))
    {
      hide DoRead, DoWrite, AskAgain;
      ghost var c := View();
      readInProgress := false;
      readWaits := readWaits - 1;
      ghost var d := c.(readFlag := false, readWaits := c.readWaits - 1);
      assert View() == d;
      if o.Moved? {
        PerformRead(o.what);
      }
      if o.Moved? || o.wouldBlock {
        StartOperations();
      } else {
        open := false;
      }
    }

    method HandleWrite(o: Outcome<nat>)
      requires Valid() && Enabled(View(), WriteHandler(o))
      modifies this, session
      ensures Valid() && View() == Step(old(View()), WriteHandler(o))
    {
      hide DoRead, DoWrite, AskAgain;
      ghost var c := View();
      writeInProgress := false;
      writeWaits := writeWaits - 1;
      ghost var d := c.(writeFlag := false, writeWaits := c.writeWaits - 1);
      assert View() == d;
      if o.Moved? {
        PerformWrite(o.what);
      }
      if o.Moved? || o.wouldBlock {
        StartOperations();
      } else {
        open := false;
      }
    }
  }
}
