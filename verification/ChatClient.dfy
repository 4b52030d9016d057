/** The chat client: an input loop that posts messages, and handlers that write them one at a time
    and print what the server sends. `Client` is its state as a value; `ChatClient` is the object
    whose methods update that state. */
module ChatClient {
  import opened Wrappers
  import opened ChatMessages
  import opened Framing

  /** `lines` records the lines typed and `posted` the messages posted whose handler has not run;
      `printed` is what went to std::cout, without the line ends. */
  datatype Client = Client(lines: seq<seq<Byte>>, posted: seq<Message>, reader: Reader, writer: Writer,
                           connected: bool, closed: bool, inbound: seq<Byte>, printed: seq<seq<Byte>>)

  datatype Event =
    | Type(line: seq<Byte>, msg: Message)  // the input loop reads a line that fits and posts its message
    | RunPosted                            // the handler that write posted
    | Close                                // the handler that close posted
    | Connected                            // async_connect succeeded
    | Arrive(bytes: seq<Byte>)             // bytes of the server reach the socket
    | HeaderDone
    | BodyDone
    | ReadFailed(n: nat)
    | Written(n: nat)                      // the outstanding async_write moved n bytes
    | SendDone
    | SendFailed

  function Fresh(memory: Message): (c: Client) {
    Client([], [], Reader(ReadStopped, memory, [], []), IDLE_WRITER, false, false, [], [])
  }

  function Unread(c: Client): (s: seq<Byte>) {
    if |c.reader.consumed| <= |c.inbound| then c.inbound[|c.reader.consumed|..] else []
  }

  /** The messages that the input loop can build from a line: the bytes after the body are
      whatever the memory of the message held. */
  predicate IsMessageFor(m: Message, line: seq<Byte>) {
    WellHeaded(m) && Body(m) == Sendable(line)
  }

  predicate Enabled(c: Client, e: Event) {
    match e
    case Type(line, msg) => |line| <= MAX_BODY_LENGTH && IsMessageFor(msg, line)
    case RunPosted => c.posted != []
    case Close => true
    case Connected => !c.connected
    case Arrive(_) => c.connected
    case HeaderDone => c.reader.phase.ReadingHeader? && |Unread(c)| >= Wanted(c.reader)
    case BodyDone => c.reader.phase.ReadingBody? && |Unread(c)| >= Wanted(c.reader)
    case ReadFailed(n) =>
      !c.reader.phase.ReadStopped? && n <= |Unread(c)| && (n < Wanted(c.reader) || n == 0)
    case Written(n) => c.connected && !c.closed && CanWriteSome(c.writer, n)
    case SendDone => CanWriteDone(c.writer)
    case SendFailed => c.writer.pending > 0
  }

  function Step(c: Client, e: Event): (c': Client)
    requires Enabled(c, e)
  {
    match e
    case Type(line, msg) => c.(lines := c.lines + [line], posted := c.posted + [msg])
    case RunPosted => c.(writer := Push(c.writer, c.posted[0]), posted := c.posted[1..])
    case Close => c.(closed := true)
    case Connected => c.(connected := true, reader := c.reader.(phase := ReadingHeader))
    case Arrive(bytes) => c.(inbound := c.inbound + bytes)
    case HeaderDone =>
      var r := HeaderRead(c.reader, Unread(c)[..Wanted(c.reader)]);
      c.(reader := r, closed := c.closed || r.phase.ReadStopped?)
    case BodyDone =>
      var r := BodyRead(c.reader, Unread(c)[..Wanted(c.reader)]);
      c.(reader := r, printed := c.printed + [Body(r.msg)])
    case ReadFailed(n) => c.(reader := ReadError(c.reader, Unread(c)[..n]), closed := true)
    case Written(n) => c.(writer := WriteSome(c.writer, n))
    case SendDone => c.(writer := WriteDone(c.writer))
    case SendFailed => c.(writer := WriteError(c.writer), closed := true)
  }

  /** Everything typed so far, as messages: queued by a handler that has run, or still posted. */
  function Submitted(c: Client): (ms: seq<Message>) {
    Accepted(c.writer) + c.posted
  }

  ghost predicate ClientInv(c: Client) {
    && ReaderInv(c.reader)
    && WriterInv(c.writer)
    && (!c.connected ==> c.reader.phase.ReadStopped? && c.reader.consumed == [] && c.reader.frames == [])
    && (c.connected && c.reader.phase.ReadStopped? ==> c.closed)
    && (c.writer.failed ==> c.closed)
    && c.reader.consumed <= c.inbound
    && c.printed == FrameBodies(c.reader.frames)
    && |Submitted(c)| == |c.lines|
    && (forall k :: 0 <= k < |c.lines| ==>
          |c.lines[k]| <= MAX_BODY_LENGTH && IsMessageFor(Submitted(c)[k], c.lines[k]))
  }

  lemma HeaderOrFailureKeepsInv(c: Client, e: Event)
    requires ClientInv(c) && Enabled(c, e) && (e.HeaderDone? || e.ReadFailed?)
    ensures ClientInv(Step(c, e))
  {
    hide WriterInv, ReaderInv, Wire, Body, IsMessageFor;
    var bytes := Unread(c)[..if e.ReadFailed? then e.n else Wanted(c.reader)];
    if e.HeaderDone? {
      HeaderReadInv(c.reader, bytes);
    } else {
      ReadErrorInv(c.reader, bytes);
    }
    assert Step(c, e).reader.consumed == c.reader.consumed + bytes;
  }

  lemma BodyDoneKeepsInv(c: Client)
    requires ClientInv(c) && Enabled(c, BodyDone)
    ensures ClientInv(Step(c, BodyDone))
  {
    hide WriterInv, Wire, Body;
    var bytes := Unread(c)[..Wanted(c.reader)];
    BodyReadInv(c.reader, bytes);
    FrameWire(BodyRead(c.reader, bytes).msg);
  }

  lemma WriteKeepsInv(c: Client, e: Event)
    requires ClientInv(c) && Enabled(c, e)
    requires e.RunPosted? || e.Written? || e.SendDone? || e.SendFailed?
    ensures ClientInv(Step(c, e)) && Submitted(Step(c, e)) == Submitted(c)
  {
    hide ReaderInv;
    match e {
      case RunPosted => PushInv(c.writer, c.posted[0]);
      case Written(n) => WriteSomeInv(c.writer, n);
      case SendDone => WriteDoneInv(c.writer);
      case SendFailed =>
    }
    assert Submitted(Step(c, e)) == Submitted(c);
  }

  lemma StepKeepsInv(c: Client, e: Event)
    requires ClientInv(c) && Enabled(c, e)
    ensures ClientInv(Step(c, e))
  {
    if e.HeaderDone? || e.ReadFailed? {
      HeaderOrFailureKeepsInv(c, e);
    } else if e.BodyDone? {
      BodyDoneKeepsInv(c);
    } else if e.RunPosted? || e.Written? || e.SendDone? || e.SendFailed? {
      WriteKeepsInv(c, e);
    } else if e.Type? {
      assert Submitted(Step(c, e)) == Submitted(c) + [e.msg];
    }
  }

  /** The client gives the connection up with this event: on close, on an error, or on a header that
      is refused. */
  predicate Closes(c: Client, e: Event) {
    e.Close? || e.ReadFailed? || e.SendFailed? ||
    (e.HeaderDone? && |Unread(c)| >= 4 && !(0 <= Atoi(Unread(c)[..4]) <= 512))
  }

  lemma StepFate(c: Client, e: Event)
    requires ClientInv(c) && Enabled(c, e)
    ensures Step(c, e).closed <==> c.closed || Closes(c, e)
    ensures c.connected ==> Step(c, e).connected
    ensures c.connected ==>
              (Step(c, e).reader.phase.ReadStopped? <==>
                 c.reader.phase.ReadStopped? || (Closes(c, e) && (e.HeaderDone? || e.ReadFailed?)))
    ensures Step(c, e).printed == c.printed || (e.BodyDone? && |Step(c, e).printed| == |c.printed| + 1)
  {
    hide ReaderInv, WriterInv, Atoi, Overwrite;
    if e.HeaderDone? {
      HeaderAccepted(Unread(c)[..4]);
    }
  }

  /** The peer of a client has been handed, byte for byte, a prefix of what the client queued, and
      each of these messages carries the line that was typed for it. */
  lemma PeerIsHandedTheLines(c: Client, r: Reader)
    requires ClientInv(c) && ReaderInv(r) && r.consumed <= c.writer.outbound
    ensures r.frames <= Wires(Accepted(c.writer))
    ensures |r.frames| <= |c.lines|
    ensures forall k :: 0 <= k < |r.frames| ==> FrameBody(r.frames[k]) == Sendable(c.lines[k])
  {
    hide WriterInv, ReaderInv;
    var ms := Accepted(c.writer);
    assert forall k :: 0 <= k < |ms| ==> Submitted(c)[k] == ms[k];
    PeerReadsPrefix(c.writer, r);
    forall k | 0 <= k < |r.frames|
      ensures FrameBody(r.frames[k]) == Sendable(c.lines[k])
    {
      assert r.frames[k] == Wires(ms)[k];
      FrameWire(ms[k]);
    }
  }

  /** chat_client. The ghost fields record what has passed through its socket and its input. */
  class ChatClient {
    var posted: seq<Message>
    var readMsg: Message
    var writeMsgs: seq<Message>
    var phase: Phase
    var pending: nat
    var connected: bool
    var closed: bool
    var printed: seq<seq<Byte>>

    ghost var lines: seq<seq<Byte>>
    ghost var consumed: seq<Byte>
    ghost var frames: seq<Frame>
    ghost var inbound: seq<Byte>
    ghost var partial: nat
    ghost var failed: bool
    ghost var sent: seq<Message>
    ghost var outbound: seq<Byte>

    ghost function View(): Client
      reads this
    {
      Client(lines, posted, Reader(phase, readMsg, consumed, frames),
             Writer(writeMsgs, pending, partial, failed, sent, outbound),
             connected, closed, inbound, printed)
    }

    constructor (memory: Message)
      ensures View() == Fresh(memory)
    {
      posted, readMsg, writeMsgs, phase, pending := [], memory, [], ReadStopped, 0;
      connected, closed, printed := false, false, [];
      lines, consumed, frames, inbound := [], [], [], [];
      partial, failed, sent, outbound := 0, false, [], [];
    }

    /** One round of the input loop. A line that does not fit into the loop's buffer ends the loop,
        and nothing of it is posted. */
    method TypeLine(line: seq<Byte>) returns (more: bool)
      modifies `posted, `lines
      ensures more <==> |line| <= MAX_BODY_LENGTH
      ensures !more ==> View() == old(View())
      ensures more ==> exists msg ::
                Enabled(old(View()), Type(line, msg)) && View() == Step(old(View()), Type(line, msg))
    {
      if |line| > MAX_BODY_LENGTH {
        return false;
      }
      var msg := BuildMessage(line);
      posted := posted + [msg];
      lines := lines + [line];
      assert Enabled(old(View()), Type(line, msg)) && View() == Step(old(View()), Type(line, msg));
      return true;
    }

    /** The handler that close posts. */
    method OnClose()
      modifies `closed
      ensures View() == Step(old(View()), Close)
    {
      closed := true;
    }

    method DoWrite()
      modifies `pending, `partial
      ensures pending == old(pending) + 1 && partial == 0
    {
      pending := pending + 1;
      partial := 0;
    }

    /** The handler that write posts. */
    method OnPosted()
      requires posted != []
      modifies `posted, `writeMsgs, `pending, `partial
      ensures View() == Step(old(View()), RunPosted)
    {
      hide HeaderLength, Wire, Body, IsMessageFor;
      var msg := posted[0];
      posted := posted[1..];
      var writeInProgress := writeMsgs != [];
      writeMsgs := writeMsgs + [msg];
      if !writeInProgress {
        DoWrite();
      }
    }

    method OnConnected()
      requires !connected
      modifies `connected, `phase
      ensures View() == Step(old(View()), Connected)
    {
      connected := true;
      phase := ReadingHeader;
    }

    method OnHeader(failure: bool, bytes: seq<Byte>)
      requires bytes <= Unread(View()) && phase.ReadingHeader?
      requires if failure then |bytes| < HEADER_LENGTH else |bytes| == HEADER_LENGTH
      modifies `readMsg, `phase, `closed, `consumed
      ensures var e := if failure then ReadFailed(|bytes|) else HeaderDone;
              Enabled(old(View()), e) && View() == Step(old(View()), e)
    {
      hide HeaderLength, Wire, Body, IsMessageFor;
      assert Unread(View())[..|bytes|] == bytes;
      var data := Overwrite(readMsg.data, 0, bytes);
      var length := if failure then None else HeaderLength(bytes);
      consumed := consumed + bytes;
      if length.Some? {
        readMsg := Message(data, length.value);
        phase := ReadingBody;
      } else {
        readMsg := Message(data, if failure then readMsg.bodyLength else 0);
        phase := ReadStopped;
        closed := true;
      }
    }

    /** What asio does before it calls the handler below: the bytes go into the body of read_msg_. */
    method FillBody(bytes: seq<Byte>)
      requires |bytes| <= readMsg.bodyLength
      modifies `readMsg, `consumed
      ensures readMsg == old(readMsg).(data := Overwrite(old(readMsg.data), HEADER_LENGTH, bytes))
      ensures consumed == old(consumed) + bytes
    {
      readMsg := readMsg.(data := Overwrite(readMsg.data, HEADER_LENGTH, bytes));
      consumed := consumed + bytes;
    }

    method OnBody(failure: bool, bytes: seq<Byte>)
      requires bytes <= Unread(View()) && phase.ReadingBody?
      requires if failure then |bytes| < readMsg.bodyLength || bytes == [] else |bytes| == readMsg.bodyLength
      modifies `readMsg, `phase, `closed, `consumed, `frames, `printed
      ensures failure ==>
        Enabled(old(View()), ReadFailed(|bytes|)) && View() == Step(old(View()), ReadFailed(|bytes|))
      ensures !failure ==> Enabled(old(View()), BodyDone) && View() == Step(old(View()), BodyDone)
    {
      hide HeaderLength, Wire, Body, IsMessageFor, Overwrite;
      ghost var c := View();
      assert Unread(c)[..|bytes|] == bytes;
      FillBody(bytes);
      if !failure {
        Print();
        assert View().reader == BodyRead(c.reader, bytes);
      } else {
        phase := ReadStopped;
        closed := true;
        assert View().reader == ReadError(c.reader, bytes);
      }
    }

    /** The success branch of that handler: print the body, then read the next header. */
    method Print()
      modifies `phase, `frames, `printed
      ensures phase == ReadingHeader
      ensures frames == old(frames) + [Wire(readMsg)] && printed == old(printed) + [Body(readMsg)]
    {
      frames := frames + [Wire(readMsg)];
      printed := printed + [Body(readMsg)];
      phase := ReadingHeader;
    }

    method OnWritten(failure: bool)
      requires if failure then pending > 0 else CanWriteDone(View().writer)
      modifies `writeMsgs, `pending, `partial, `sent, `failed, `closed
      ensures View() == Step(old(View()), if failure then SendFailed else SendDone)
    {
      hide HeaderLength, Wire, Body, IsMessageFor;
      if !failure {
        PopFront();
      } else {
        pending := pending - 1;
        failed, closed := true, true;
      }
    }

    /** The success branch of that handler. */
    method PopFront()
      requires CanWriteDone(View().writer)
      modifies `writeMsgs, `pending, `partial, `sent
      ensures View().writer == WriteDone(old(View().writer))
    {
      hide HeaderLength, Wire, Body;
      sent := sent + [writeMsgs[0]];
      pending := pending - 1;
      partial := 0;
      writeMsgs := writeMsgs[1..];
      if writeMsgs != [] {
        DoWrite();
      }
    }
  }
}
