/** The byte stream that carries the messages, and the header/body read loop that cuts it up again.

    `Frames` is the reference reading of a whole stream. `Reader` is the event-driven form that
    the server's sessions and the client share: one completion handler for a header, one for a
    body, each followed by the next read. */
module Framing {
  import opened Wrappers
  import opened ChatMessages

  type Frame = seq<Byte>

  /** A frame that a reader accepts: its header announces exactly the rest of it. */
  predicate IsFrame(f: Frame) {
    |f| >= HEADER_LENGTH && HeaderLength(f[..HEADER_LENGTH]) == Some(|f| - HEADER_LENGTH)
  }

  ghost predicate AllFrames(fs: seq<Frame>) {
    forall i :: 0 <= i < |fs| ==> IsFrame(fs[i])
  }

  function FrameBody(f: Frame): (b: seq<Byte>) {
    if |f| < HEADER_LENGTH then [] else f[HEADER_LENGTH..]
  }

  function FrameBodies(fs: seq<Frame>): (bs: seq<seq<Byte>>)
    ensures |bs| == |fs|
  {
    seq(|fs|, i requires 0 <= i < |fs| => FrameBody(fs[i]))
  }

  function Flatten(fs: seq<Frame>): (s: seq<Byte>) {
    if fs == [] then [] else fs[0] + Flatten(fs[1..])
  }

  function Wires(ms: seq<Message>): (fs: seq<Frame>)
    ensures |fs| == |ms|
  {
    seq(|ms|, i requires 0 <= i < |ms| => Wire(ms[i]))
  }

  /** The frames completely contained in a stream, up to the first refused header. */
  function Frames(s: seq<Byte>): (fs: seq<Frame>)
    decreases |s|
  {
    if |s| < HEADER_LENGTH then []
    else
      match HeaderLength(s[..HEADER_LENGTH])
      case None => []
      case Some(n) =>
        if |s| < HEADER_LENGTH + n then []
        else [s[..HEADER_LENGTH + n]] + Frames(s[HEADER_LENGTH + n..])
  }

  lemma FrameWire(m: Message)
    ensures IsFrame(Wire(m)) <==> WellHeaded(m)
    ensures FrameBody(Wire(m)) == Body(m)
  {
    assert Wire(m)[..HEADER_LENGTH] == m.data[..HEADER_LENGTH];
  }

  lemma {:induction false} FlattenAppend(a: seq<Frame>, b: seq<Frame>)
    ensures Flatten(a + b) == Flatten(a) + Flatten(b)
  {
    if a == [] {
      assert a + b == b;
    } else {
      assert (a + b)[1..] == a[1..] + b;
      FlattenAppend(a[1..], b);
    }
  }

  lemma FlattenSnoc(a: seq<Frame>, f: Frame)
    ensures Flatten(a + [f]) == Flatten(a) + f
  {
    FlattenAppend(a, [f]);
    assert Flatten([f]) == f + Flatten([]);
  }

  lemma FlattenCons(f: Frame, fs: seq<Frame>)
    ensures Flatten([f] + fs) == f + Flatten(fs)
  {
    assert ([f] + fs)[1..] == fs;
  }

  /** One frame in front of a stream is cut off exactly. */
  lemma FramesCons(f: Frame, tail: seq<Byte>)
    requires IsFrame(f)
    ensures Frames(f + tail) == [f] + Frames(tail)
  {
    var s := f + tail;
    assert s[..HEADER_LENGTH] == f[..HEADER_LENGTH];
    assert s[..|f|] == f && s[|f|..] == tail;
  }

  /** Frames put in front of a stream are read back one by one, then the stream is read. */
  lemma {:induction false} FramesAppend(fs: seq<Frame>, tail: seq<Byte>)
    requires AllFrames(fs)
    ensures Frames(Flatten(fs) + tail) == fs + Frames(tail)
  {
    if fs == [] {
      assert Flatten(fs) + tail == tail;
    } else {
      var rest := Flatten(fs[1..]) + tail;
      calc {
        Frames(Flatten(fs) + tail);
        { assert Flatten(fs) + tail == fs[0] + rest; }
        Frames(fs[0] + rest);
        { FramesCons(fs[0], rest); }
        [fs[0]] + Frames(rest);
        { FramesAppend(fs[1..], tail); }
        [fs[0]] + (fs[1..] + Frames(tail));
        { assert [fs[0]] + fs[1..] == fs; }
        fs + Frames(tail);
      }
    }
  }

  /** Round trip: the frames of a concatenation of acceptable frames are those frames. */
  lemma FramesRoundTrip(fs: seq<Frame>)
    requires AllFrames(fs)
    ensures Frames(Flatten(fs)) == fs
  {
    FramesAppend(fs, []);
    assert Flatten(fs) + [] == Flatten(fs);
  }

  /** Reading is monotone: more bytes can only add frames at the end. */
  lemma {:induction false} FramesPrefix(s: seq<Byte>, t: seq<Byte>)
    requires s <= t
    ensures Frames(s) <= Frames(t)
    decreases |s|
  {
    hide HeaderLength;
    if |s| >= HEADER_LENGTH {
      assert s[..HEADER_LENGTH] == t[..HEADER_LENGTH];
      match HeaderLength(s[..HEADER_LENGTH])
      case None =>
      case Some(n) =>
        if |s| >= HEADER_LENGTH + n {
          var k := HEADER_LENGTH + n;
          assert s[k..] <= t[k..];
          FramesPrefix(s[k..], t[k..]);
          assert s[..k] == t[..k];
        }
    }
  }

  /** Any cut of the stream of some frames is read as a prefix of those frames. */
  lemma FramesOfCut(fs: seq<Frame>, cut: seq<Byte>)
    requires AllFrames(fs) && cut <= Flatten(fs)
    ensures Frames(cut) <= fs
  {
    FramesPrefix(cut, Flatten(fs));
    FramesRoundTrip(fs);
  }

  /** Whatever the stream, what is read is acceptable and is a prefix of the stream. */
  lemma {:induction false} FramesSound(s: seq<Byte>)
    ensures AllFrames(Frames(s)) && Flatten(Frames(s)) <= s
    decreases |s|
  {
    hide HeaderLength;
    if |s| >= HEADER_LENGTH {
      match HeaderLength(s[..HEADER_LENGTH])
      case None =>
      case Some(n) =>
        var k := HEADER_LENGTH + n;
        if |s| >= k {
          FramesSound(s[k..]);
          var rest := Frames(s[k..]);
          assert Frames(s) == [s[..k]] + rest;
          FlattenCons(s[..k], rest);
          assert s[..k][..HEADER_LENGTH] == s[..HEADER_LENGTH];
          assert s == s[..k] + s[k..];
        }
    }
  }

  // ---------- the event-driven reader ----------

  datatype Phase = ReadingHeader | ReadingBody | ReadStopped

  /** The read side of a connection. `msg` is read_msg_ and `phase` says which async_read is
      outstanding; `consumed` and `frames` record the bytes taken from the socket so far and the
      messages handed on so far. */
  datatype Reader = Reader(phase: Phase, msg: Message, consumed: seq<Byte>, frames: seq<Frame>)

  /** How many bytes the outstanding async_read asks for. */
  function Wanted(r: Reader): (n: nat) {
    match r.phase
    case ReadingHeader => HEADER_LENGTH
    case ReadingBody => r.msg.bodyLength
    case ReadStopped => 0
  }

  function HeaderRead(r: Reader, bytes: seq<Byte>): (r': Reader)
    requires r.phase.ReadingHeader? && |bytes| == Wanted(r)
  {
    var data := Overwrite(r.msg.data, 0, bytes);
    match HeaderLength(bytes)
    case Some(n) => Reader(ReadingBody, Message(data, n), r.consumed + bytes, r.frames)
    case None => Reader(ReadStopped, Message(data, 0), r.consumed + bytes, r.frames)
  }

  function BodyRead(r: Reader, bytes: seq<Byte>): (r': Reader)
    requires r.phase.ReadingBody? && |bytes| == Wanted(r)
  {
    var msg := r.msg.(data := Overwrite(r.msg.data, HEADER_LENGTH, bytes));
    Reader(ReadingHeader, msg, r.consumed + bytes, r.frames + [Wire(msg)])
  }

  /** async_read failed after `bytes`, fewer than it was asked for. */
  function ReadError(r: Reader, bytes: seq<Byte>): (r': Reader)
    requires !r.phase.ReadStopped? && (|bytes| < Wanted(r) || bytes == [])
  {
    var at := if r.phase.ReadingHeader? then 0 else HEADER_LENGTH;
    r.(phase := ReadStopped, msg := r.msg.(data := Overwrite(r.msg.data, at, bytes)),
       consumed := r.consumed + bytes)
  }

  /** The bytes taken that have not been handed on. */
  function Pending(r: Reader): (s: seq<Byte>) {
    var k := |Flatten(r.frames)|;
    if k <= |r.consumed| then r.consumed[k..] else []
  }

  /** The header of a message without a body: a whole frame, though its body is still to be read. */
  predicate IsBodiless(h: seq<Byte>) {
    |h| == HEADER_LENGTH && HeaderLength(h) == Some(0)
  }

  /** What has been handed on accounts for all bytes taken, up to the message being read. */
  ghost predicate ReaderInv(r: Reader) {
    && AllFrames(r.frames)
    && Flatten(r.frames) <= r.consumed
    && (Frames(Pending(r)) == [] || IsBodiless(Pending(r)))
    && (r.phase.ReadingHeader? ==> r.consumed == Flatten(r.frames))
    && (r.phase.ReadingBody? ==>
          && WellHeaded(r.msg)
          && r.consumed == Flatten(r.frames) + r.msg.data[..HEADER_LENGTH])
  }

  /** Bytes that were taken after whole messages are what is pending. */
  lemma PendingAfter(r: Reader, tail: seq<Byte>)
    requires r.consumed == Flatten(r.frames) + tail
    ensures Pending(r) == tail
  {
  }

  lemma HeaderReadInv(r: Reader, bytes: seq<Byte>)
    requires ReaderInv(r) && r.phase.ReadingHeader? && |bytes| == Wanted(r)
    ensures ReaderInv(HeaderRead(r, bytes))
  {
    assert HeaderRead(r, bytes).msg.data[..HEADER_LENGTH] == bytes;
    PendingAfter(HeaderRead(r, bytes), bytes);
    HeaderAlone(bytes);
  }

  lemma BodyReadInv(r: Reader, bytes: seq<Byte>)
    requires ReaderInv(r) && r.phase.ReadingBody? && |bytes| == Wanted(r)
    ensures ReaderInv(BodyRead(r, bytes))
    ensures WellHeaded(BodyRead(r, bytes).msg)
  {
    hide HeaderLength, Frames;
    var msg := BodyRead(r, bytes).msg;
    assert msg.data[..HEADER_LENGTH] == r.msg.data[..HEADER_LENGTH];
    assert Wire(msg) == msg.data[..HEADER_LENGTH] + bytes;
    FrameWire(msg);
    FlattenSnoc(r.frames, Wire(msg));
    assert BodyRead(r, bytes).consumed == Flatten(BodyRead(r, bytes).frames) + [];
    PendingAfter(BodyRead(r, bytes), []);
    NoFrames();
  }

  lemma NoFrames()
    ensures Frames([]) == []
  {
  }

  lemma ReadErrorInv(r: Reader, bytes: seq<Byte>)
    requires ReaderInv(r) && !r.phase.ReadStopped? && (|bytes| < Wanted(r) || bytes == [])
    ensures ReaderInv(ReadError(r, bytes))
  {
    var header := if r.phase.ReadingBody? then r.msg.data[..HEADER_LENGTH] else [];
    assert r.consumed + bytes == Flatten(r.frames) + (header + bytes);
    PendingAfter(ReadError(r, bytes), header + bytes);
    assert r.phase.ReadingBody? ==> (header + bytes)[..HEADER_LENGTH] == header;
    if r.phase.ReadingBody? && bytes == [] {
      assert header + bytes == header;
      HeaderAlone(header);
    }
  }

  /** What the event-driven reader has handed on is a prefix of the reference reading of the bytes
      it has taken, in every phase and also once it has stopped. It is all of it, but for the header
      of a message without a body whose empty body has not been read. */
  lemma ReaderRefinesFrames(r: Reader)
    requires ReaderInv(r)
    ensures r.frames <= Frames(r.consumed)
    ensures r.frames == Frames(r.consumed) <==> !IsBodiless(Pending(r))
    ensures IsBodiless(Pending(r)) ==> Frames(r.consumed) == r.frames + [Pending(r)]
    ensures r.phase.ReadingHeader? ==> Pending(r) == []
  {
    assert r.consumed == Flatten(r.frames) + Pending(r);
    FramesAppend(r.frames, Pending(r));
    if IsBodiless(Pending(r)) {
      HeaderAlone(Pending(r));
    }
  }

  /** A header without its body is no frame, unless the body is empty. */
  lemma HeaderAlone(h: seq<Byte>)
    requires |h| == HEADER_LENGTH
    ensures Frames(h) == if HeaderLength(h) == Some(0) then [h] else []
  {
    assert h[..HEADER_LENGTH] == h && h[HEADER_LENGTH..] == [];
  }

  /** Reading a message: its header is accepted, its body is asked for and read, the message is
      handed on as it came, and the next header is asked for. */
  lemma ReadsOneFrame(r: Reader, f: Frame)
    requires ReaderInv(r) && r.phase.ReadingHeader? && IsFrame(f)
    ensures var a := HeaderRead(r, f[..4]);
            && a.phase.ReadingBody? && Wanted(a) == |f| - 4
            && var b := BodyRead(a, f[4..]);
               && b.phase.ReadingHeader? && b.frames == r.frames + [f] && b.consumed == r.consumed + f
               && Body(b.msg) == f[4..] && Wire(b.msg) == f
  {
    hide Flatten, Frames;
    var a := HeaderRead(r, f[..4]);
    var b := BodyRead(a, f[4..]);
    assert a.msg.data[..4] == f[..4];
    assert b.msg.data[..4] == f[..4];
    assert Wire(b.msg) == f[..4] + f[4..] == f;
  }

  /** A header that is refused stops the reading; nothing was handed on. */
  lemma StopsAtRefusal(r: Reader, bytes: seq<Byte>)
    requires r.phase.ReadingHeader? && |bytes| == 4
    ensures HeaderRead(r, bytes).phase.ReadStopped? <==> !(0 <= Atoi(bytes) <= 512)
    ensures HeaderRead(r, bytes).frames == r.frames && HeaderRead(r, bytes).consumed == r.consumed + bytes
  {
    HeaderAccepted(bytes);
  }

  /** The handlers run for as long as the bytes at hand suffice for the outstanding read. */
  function ReadOn(r: Reader, s: seq<Byte>): (r': Reader)
    decreases |s|, if r.phase.ReadingBody? then 1 else 0
  {
    if r.phase.ReadStopped? || |s| < Wanted(r) then r
    else if r.phase.ReadingHeader? then ReadOn(HeaderRead(r, s[..Wanted(r)]), s[Wanted(r)..])
    else ReadOn(BodyRead(r, s[..Wanted(r)]), s[Wanted(r)..])
  }

  /** On any bytes whatsoever the handlers hand on exactly what the reference reading finds in them,
      and give up exactly if a refused header comes next. */
  lemma {:induction false} ReadsWhatIsThere(r: Reader, s: seq<Byte>)
    requires ReaderInv(r) && r.phase.ReadingHeader?
    ensures ReadOn(r, s).frames == r.frames + Frames(s)
    ensures var rest := Flatten(Frames(s));
            && rest <= s
            && (ReadOn(r, s).phase.ReadStopped? <==>
                  |s| >= |rest| + 4 && !(0 <= Atoi(s[|rest|..|rest| + 4]) <= 512))
    decreases |s|
  {
    hide ReaderInv, HeaderLength, Atoi;
    FramesSound(s);
    if |s| >= 4 {
      var h := s[..4];
      StopsAtRefusal(r, h);
      HeaderAccepted(h);
      var a := HeaderRead(r, h);
      if 0 <= Atoi(h) <= 512 && |s| >= 4 + Atoi(h) {
        var k := 4 + Atoi(h);
        ReadsOn(r, s, k);
        ReadsWhatIsThere(BodyRead(a, s[4..k]), s[k..]);
        FlattenCons(s[..k], Frames(s[k..]));
        var rest := Flatten(Frames(s[k..]));
        assert |s[k..]| >= |rest| + 4 ==> s[k..][|rest|..|rest| + 4] == s[k + |rest|..k + |rest| + 4];
      } else {
        assert s[0..4] == h;
      }
    }
  }

  /** The first message of what is there. */
  lemma ReadsOn(r: Reader, s: seq<Byte>, k: nat)
    requires ReaderInv(r) && r.phase.ReadingHeader?
    requires 4 <= k <= |s| && HeaderLength(s[..4]) == Some(k - 4)
    ensures HeaderRead(r, s[..4]).phase.ReadingBody? && Wanted(HeaderRead(r, s[..4])) == k - 4
    ensures var b := BodyRead(HeaderRead(r, s[..4]), s[4..k]);
            && ReaderInv(b) && b.phase.ReadingHeader? && b.frames == r.frames + [s[..k]]
            && ReadOn(r, s) == ReadOn(b, s[k..])
    ensures Frames(s) == [s[..k]] + Frames(s[k..])
  {
    hide ReaderInv, Frames, Overwrite, Wire, Atoi;
    var f := s[..k];
    assert f[..4] == s[..4] && f[4..] == s[4..k];
    ReadsOneFrame(r, f);
    HeaderReadInv(r, s[..4]);
    var a := HeaderRead(r, s[..4]);
    BodyReadInv(a, s[4..k]);
    assert s[4..][..k - 4] == s[4..k] && s[4..][k - 4..] == s[k..];
    assert ReadOn(r, s) == ReadOn(a, s[4..]);
    FramesCons(f, s[k..]);
    assert f + s[k..] == s;
  }

  /** Messages put on the wire one after the other are handed on, all of them and as they are, and
      the next header is asked for. */
  lemma {:induction false} ReadsAllFrames(r: Reader, fs: seq<Frame>)
    requires ReaderInv(r) && r.phase.ReadingHeader? && AllFrames(fs)
    ensures var r' := ReadOn(r, Flatten(fs));
            r'.phase.ReadingHeader? && r'.frames == r.frames + fs && r'.consumed == r.consumed + Flatten(fs)
    decreases |fs|
  {
    hide ReaderInv, Frames, HeaderLength, Overwrite, Wire;
    if fs != [] {
      var (f, s) := (fs[0], Flatten(fs));
      assert s[..4] == f[..4] && s[4..|f|] == f[4..] && s[..|f|] == f && s[|f|..] == Flatten(fs[1..]);
      ReadsOn(r, s, |f|);
      ReadsOneFrame(r, f);
      ReadsAllFrames(BodyRead(HeaderRead(r, f[..4]), f[4..]), fs[1..]);
    }
  }

  /** On a stream of acceptable messages no reader gets stuck: it always finds the bytes that it asks
      for, and an acceptable header, until it has handed on all of them. */
  lemma NextRead(r: Reader, fs: seq<Frame>)
    requires ReaderInv(r) && !r.phase.ReadStopped? && AllFrames(fs) && r.consumed <= Flatten(fs)
    ensures var rest := Flatten(fs)[|r.consumed|..];
            && (r.phase.ReadingBody? ==> |rest| >= Wanted(r))
            && (r.phase.ReadingHeader? && rest != [] ==> |rest| >= 4 && 0 <= Atoi(rest[..4]) <= 512)
            && (r.phase.ReadingHeader? && rest == [] ==> r.frames == fs)
  {
    hide Frames, HeaderLength, Atoi;
    FramesOfCut(fs, Flatten(r.frames));
    FramesRoundTrip(r.frames);
    var gs := fs[|r.frames|..];
    assert fs == r.frames + gs;
    FlattenAppend(r.frames, gs);
    var rest := Flatten(fs)[|r.consumed|..];
    if gs != [] {
      var g := gs[0];
      assert IsFrame(g);
      assert Flatten(gs)[..4] == g[..4];
      HeaderAccepted(g[..4]);
      if r.phase.ReadingHeader? {
        assert rest == Flatten(gs);
      } else {
        assert r.msg.data[..4] == (r.consumed)[|Flatten(r.frames)|..] == Flatten(gs)[..4];
      }
    } else {
      assert Flatten(fs) == Flatten(r.frames);
    }
  }

  // ---------- the write queue ----------

  /** The write side of a connection. `queue` is write_msgs_; `pending` counts the async_write
      operations outstanding, each of the front at its time, and `partial` the bytes of the front
      that are already on the wire; `failed` says that a write has failed. `sent` records the
      messages completely written and `outbound` the bytes put on the wire. */
  datatype Writer = Writer(queue: seq<Message>, pending: nat, partial: nat, failed: bool,
                           sent: seq<Message>, outbound: seq<Byte>)

  /** do_write: start an async_write of the front of the queue. */
  function DoWrite(w: Writer): (w': Writer) {
    w.(pending := w.pending + 1, partial := 0)
  }

  function Push(w: Writer, m: Message): (w': Writer) {
    var w' := w.(queue := w.queue + [m]);
    if w.queue == [] then DoWrite(w') else w'
  }

  function PushAll(w: Writer, ms: seq<Message>): (w': Writer)
    decreases |ms|
  {
    if ms == [] then w else PushAll(Push(w, ms[0]), ms[1..])
  }

  predicate CanWriteSome(w: Writer, n: nat) {
    w.pending > 0 && w.queue != [] && w.partial + n <= |Wire(w.queue[0])|
  }

  /** The outstanding async_write puts `n` more bytes on the wire. */
  function WriteSome(w: Writer, n: nat): (w': Writer)
    requires CanWriteSome(w, n)
  {
    w.(partial := w.partial + n,
       outbound := w.outbound + Wire(w.queue[0])[w.partial..w.partial + n])
  }

  predicate CanWriteDone(w: Writer) {
    w.pending > 0 && w.queue != [] && w.partial == |Wire(w.queue[0])|
  }

  /** The completion handler of async_write, without an error. */
  function WriteDone(w: Writer): (w': Writer)
    requires CanWriteDone(w)
  {
    var w' := w.(queue := w.queue[1..], pending := w.pending - 1, partial := 0, sent := w.sent + [w.queue[0]]);
    if w'.queue != [] then DoWrite(w') else w'
  }

  /** The completion handler of async_write, with an error: the front stays where it is. */
  function WriteError(w: Writer): (w': Writer)
    requires w.pending > 0
  {
    w.(pending := w.pending - 1, failed := true)
  }

  /** Everything that was ever put into the queue, in order. */
  function Accepted(w: Writer): (ms: seq<Message>) {
    w.sent + w.queue
  }

  const IDLE_WRITER := Writer([], 0, 0, false, [], [])

  /** Exactly one write is outstanding while there is something to write and no write has failed,
      and the bytes on the wire are the messages written followed by part of the front. */
  ghost predicate WriterInv(w: Writer) {
    && w.pending == (if w.queue != [] && !w.failed then 1 else 0)
    && (w.failed ==> w.queue != [])
    && (w.queue == [] ==> w.partial == 0)
    && (w.queue != [] ==> w.partial <= |Wire(w.queue[0])|)
    && w.outbound == Flatten(Wires(w.sent)) + (if w.queue == [] then [] else Wire(w.queue[0])[..w.partial])
  }

  lemma IdleWriterInv()
    ensures WriterInv(IDLE_WRITER) && Accepted(IDLE_WRITER) == []
  {
  }

  lemma WiresAppend(a: seq<Message>, b: seq<Message>)
    ensures Wires(a + b) == Wires(a) + Wires(b)
  {
  }

  lemma PushInv(w: Writer, m: Message)
    requires WriterInv(w)
    ensures WriterInv(Push(w, m)) && Accepted(Push(w, m)) == Accepted(w) + [m]
    ensures Push(w, m).outbound == w.outbound && Push(w, m).sent == w.sent
    ensures Push(w, m).failed == w.failed
  {
  }

  lemma {:induction false} PushAllInv(w: Writer, ms: seq<Message>)
    requires WriterInv(w)
    ensures WriterInv(PushAll(w, ms)) && Accepted(PushAll(w, ms)) == Accepted(w) + ms
    ensures PushAll(w, ms).outbound == w.outbound && PushAll(w, ms).sent == w.sent
    ensures PushAll(w, ms).failed == w.failed
    decreases |ms|
  {
    if ms != [] {
      PushInv(w, ms[0]);
      PushAllInv(Push(w, ms[0]), ms[1..]);
      assert [ms[0]] + ms[1..] == ms;
    }
  }

  lemma WriteSomeInv(w: Writer, n: nat)
    requires WriterInv(w) && CanWriteSome(w, n)
    ensures WriterInv(WriteSome(w, n)) && Accepted(WriteSome(w, n)) == Accepted(w)
    ensures w.outbound <= WriteSome(w, n).outbound
  {
    var f := Wire(w.queue[0]);
    assert f[..w.partial] + f[w.partial..w.partial + n] == f[..w.partial + n];
  }

  lemma WriteDoneInv(w: Writer)
    requires WriterInv(w) && CanWriteDone(w)
    ensures WriterInv(WriteDone(w)) && Accepted(WriteDone(w)) == Accepted(w)
    ensures WriteDone(w).outbound == w.outbound
  {
    var f := Wire(w.queue[0]);
    WiresAppend(w.sent, [w.queue[0]]);
    assert Wires([w.queue[0]]) == [f];
    FlattenSnoc(Wires(w.sent), f);
    assert f[..w.partial] == f;
    assert [w.queue[0]] + w.queue[1..] == w.queue;
  }

  /** While no write has failed the front of the queue can be written, and is then out of the queue. */
  lemma WritesFront(w: Writer)
    requires WriterInv(w) && w.queue != [] && !w.failed
    ensures var n := |Wire(w.queue[0])| - w.partial;
            && n >= 0 && CanWriteSome(w, n) && CanWriteDone(WriteSome(w, n))
            && var w' := WriteDone(WriteSome(w, n));
               && WriterInv(w') && !w'.failed && w'.queue == w.queue[1..] && w'.sent == w.sent + [w.queue[0]]
  {
    var n := |Wire(w.queue[0])| - w.partial;
    WriteSomeInv(w, n);
    WriteDoneInv(WriteSome(w, n));
  }

  /** The bytes on the wire never run ahead of what was put into the queue, and have caught up with
      it when the queue is empty. */
  lemma OutboundIsPrefix(w: Writer)
    requires WriterInv(w)
    ensures w.outbound <= Flatten(Wires(Accepted(w)))
    ensures w.queue == [] ==> w.outbound == Flatten(Wires(Accepted(w)))
  {
    WiresAppend(w.sent, w.queue);
    FlattenAppend(Wires(w.sent), Wires(w.queue));
    if w.queue != [] {
      var f := Wire(w.queue[0]);
      assert Wires(w.queue)[0] == f;
      assert f[..w.partial] <= f <= Flatten(Wires(w.queue));
    }
  }

  /** A peer that has read any part of what is on the wire has been handed a prefix, byte for byte,
      of the messages put into the queue. */
  lemma PeerReadsPrefix(w: Writer, r: Reader)
    requires WriterInv(w) && ReaderInv(r) && r.consumed <= w.outbound
    requires forall i :: 0 <= i < |Accepted(w)| ==> WellHeaded(Accepted(w)[i])
    ensures r.frames <= Wires(Accepted(w))
  {
    var ms := Accepted(w);
    forall i | 0 <= i < |ms|
      ensures IsFrame(Wires(ms)[i])
    {
      FrameWire(ms[i]);
    }
    OutboundIsPrefix(w);
    FramesOfCut(Wires(ms), r.consumed);
    ReaderRefinesFrames(r);
  }
}
