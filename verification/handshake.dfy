/**
 The order of events each side of a transfer keeps, as a small state machine per side.
 The client sends its 1024-byte header, waits for one acknowledgement, then sends chunks,
 each followed by a progress report of the running byte count, waits for a second
 acknowledgement and closes. The server takes the header, replaces the destination file,
 acknowledges, writes chunks, acknowledges again once the file is complete, and closes.
 */
module Handshake {
  import opened Wrappers
  import opened JavaInts
  import opened Streams
  import opened HeaderFormat
  import opened HeaderDecode
  import opened UploadSession
  import opened ReceiveSession

  /** Runs `step` over `evs` from phase `p`; `None` once an event is not allowed. */
  function Walk<P, E>(step: (P, E) -> Option<P>, p: P, evs: seq<E>): Option<P>
    decreases |evs|
  {
    if |evs| == 0 then Some(p)
    else
      match step(p, evs[0])
      case None => None
      case Some(q) => Walk(step, q, evs[1..])
  }

  lemma {:induction false} WalkAppend<P, E>(step: (P, E) -> Option<P>, p: P, a: seq<E>, b: seq<E>)
    ensures Walk(step, p, a + b) == if Walk(step, p, a).None? then None else Walk(step, Walk(step, p, a).value, b)
    decreases |a|
  {
    if |a| == 0 {
      assert a + b == b;
    } else {
      assert (a + b)[1..] == a[1..] + b;
      match step(p, a[0])
      case None =>
      case Some(q) => WalkAppend(step, q, a[1..], b);
    }
  }

  lemma {:induction false} WalkOne<P, E>(step: (P, E) -> Option<P>, p: P, e: E)
    ensures Walk(step, p, [e]) == step(p, e)
  {
    assert [e][1..] == [];
  }

  lemma {:induction false} WalkPair<P, E>(step: (P, E) -> Option<P>, p: P, e1: E, e2: E)
    ensures Walk(step, p, [e1, e2]) == if step(p, e1).None? then None else step(step(p, e1).value, e2)
  {
    assert [e1, e2][1..] == [e2];
    if step(p, e1).Some? {
      WalkOne(step, step(p, e1).value, e2);
    }
  }

  // ---------------------------------------------------------------------------
  // The client

  datatype ClientPhase =
    | Connecting
    | AwaitingFirstAck
    | Streaming(sent: int)
    | Reporting(sent: int)
    | Finishing
    | Closed

  /** The client's protocol: every chunk fits the 4096-byte buffer and is followed by a
      report of exactly the bytes sent so far; the second acknowledgement may only come
      between chunks. */
  function ClientStep(p: ClientPhase, e: ClientEvent): Option<ClientPhase>
  {
    match e
    case HeaderSent(f) => if p == Connecting && |f| == FrameSize then Some(AwaitingFirstAck) else None
    case AckReceived(_) =>
      if p == AwaitingFirstAck then Some(Streaming(0))
      else if p.Streaming? then Some(Finishing)
      else None
    case ChunkSent(d) =>
      if p.Streaming? && |d| <= UploadSession.ChunkSize then Some(Reporting(p.sent + |d|)) else None
    case ProgressReported(u) => if p.Reporting? && u == p.sent then Some(Streaming(u)) else None
    case SocketClosed => if p == Finishing then Some(Closed) else None
  }

  /** Why the client's protocol is stated only below 2^31 bytes: one more byte after
      `Integer.MAX_VALUE` makes `int j` wrap, the client reports `Integer.MIN_VALUE`, and
      that report leaves the protocol. */
  lemma {:induction false} WrappedTotalLeavesProtocol()
    ensures UploadLoop([[1]], MaxInt + 5, MaxInt).chunks == [[1]]
    ensures UploadLoop([[1]], MaxInt + 5, MaxInt).reports == [MinInt]
    ensures Walk(ClientStep, Streaming(MaxInt), [ChunkSent([1]), ProgressReported(MinInt)]) == None
  {
    var s: Stream := [[1]];
    assert Read(s, UploadSession.ChunkSize).0.bytes == [1];
    assert Int32(MaxInt + 1) == MinInt;
    WalkPair(ClientStep, Streaming(MaxInt), ChunkSent([1]), ProgressReported(MinInt));
  }

  /** Sending chunks and reporting their running totals moves the count on by their bytes. */
  lemma {:induction false} StreamingWalk(j: int, chunks: seq<Segment>)
    requires forall k :: 0 <= k < |chunks| ==> |chunks[k]| <= UploadSession.ChunkSize
    ensures Walk(ClientStep, Streaming(j), StreamEvents(chunks, RunningTotals(j, chunks)))
      == Some(Streaming(j + |Content(chunks)|))
    decreases |chunks|
  {
    if |chunks| > 0 {
      var c := chunks[0];
      var pair := [ChunkSent(c), ProgressReported(j + |c|)];
      var tail := StreamEvents(chunks[1..], RunningTotals(j + |c|, chunks[1..]));
      assert StreamEvents(chunks, RunningTotals(j, chunks)) == pair + tail;
      WalkPair(ClientStep, Streaming(j), ChunkSent(c), ProgressReported(j + |c|));
      WalkAppend(ClientStep, Streaming(j), pair, tail);
      StreamingWalk(j + |c|, chunks[1..]);
    }
  }

  /** The trace of an upload up to the last chunk: header, first acknowledgement, then the
      chunks with their running totals. */
  lemma {:induction false} OpeningWalk(frame: seq<Byte>, a1: Byte, chunks: seq<Segment>)
    requires |frame| == FrameSize
    requires forall k :: 0 <= k < |chunks| ==> |chunks[k]| <= UploadSession.ChunkSize
    ensures Walk(ClientStep, Connecting, [HeaderSent(frame)] + [AckReceived(a1)] + StreamEvents(chunks, RunningTotals(0, chunks)))
      == Some(Streaming(|Content(chunks)|))
  {
    var opening := [HeaderSent(frame)] + [AckReceived(a1)];
    assert opening == [HeaderSent(frame), AckReceived(a1)];
    WalkPair(ClientStep, Connecting, HeaderSent(frame), AckReceived(a1));
    StreamingWalk(0, chunks);
    WalkAppend(ClientStep, Connecting, opening, StreamEvents(chunks, RunningTotals(0, chunks)));
  }

  /** ... followed by the second acknowledgement and the close. */
  lemma {:induction false} ClosingWalk(streamed: seq<ClientEvent>, n: int, a2: Byte)
    requires Walk(ClientStep, Connecting, streamed) == Some(Streaming(n))
    ensures Walk(ClientStep, Connecting, streamed + [AckReceived(a2), SocketClosed]) == Some(Closed)
  {
    WalkPair(ClientStep, Streaming(n), AckReceived(a2), SocketClosed);
    WalkAppend(ClientStep, Connecting, streamed, [AckReceived(a2), SocketClosed]);
  }

  /** A client run without wrap-around keeps the client's protocol as far as it gets, and
      gets to its end exactly when the upload succeeds. */
  lemma {:induction false} ClientFollowsProtocol(lengthOfFile: nat, name: seq<JavaChar>, connects: bool, file: Stream, fromServer: Stream)
    requires IsLong(lengthOfFile) && NoWrap(file, 0)
    ensures var run := UploadFile(lengthOfFile, name, connects, file, fromServer);
      var end := Walk(ClientStep, Connecting, run.events);
      && end.Some?
      && (run.outcome.Uploaded? <==> end == Some(Closed))
      && (run.events == [] <==> end == Some(Connecting))
      && (run.outcome.FileEndedEarly? ==> end.value.Streaming?)
      && (run.outcome.StalledAwaitingAck? ==> end == Some(AwaitingFirstAck) || end.value.Streaming?)
  {
    if Fits(lengthOfFile, name) && connects {
      var frame := EncodeHeader(lengthOfFile, name);
      WalkOne(ClientStep, Connecting, HeaderSent(frame));
      var (first, replies) := Read(fromServer, 1);
      if first.Data? {
        var loop := UploadLoop(file, lengthOfFile, 0);
        var streamed := [HeaderSent(frame)] + [AckReceived(first.bytes[0])] + StreamEvents(loop.chunks, loop.reports);
        OpeningWalk(frame, first.bytes[0], loop.chunks);
        var (second, _) := Read(replies, 1);
        if loop.complete && second.Data? {
          ClosingWalk(streamed, |Content(loop.chunks)|, second.bytes[0]);
        }
      }
    }
  }

  // ---------------------------------------------------------------------------
  // The server

  datatype ServerPhase =
    | Listening
    | HeaderIn
    | Replaced
    | Receiving(written: int)
    | Acknowledged
    | Done

  /** The server's protocol: both acknowledgements are `AckByte`, the first comes only after
      the destination is replaced, every chunk fits the 4096-byte buffer, and the connection
      closes only after the second acknowledgement. */
  function ServerStep(p: ServerPhase, e: ServerEvent): Option<ServerPhase>
  {
    match e
    case HeaderReceived(f) => if p == Listening && |f| == FrameSize then Some(HeaderIn) else None
    case FileReplaced(_) => if p == HeaderIn then Some(Replaced) else None
    case AckSent(a) =>
      if a != AckByte then None
      else if p == Replaced then Some(Receiving(0))
      else if p.Receiving? then Some(Acknowledged)
      else None
    case ChunkWritten(d) =>
      if p.Receiving? && |d| <= ReceiveSession.ChunkSize then Some(Receiving(p.written + |d|)) else None
    case ConnectionClosed => if p == Acknowledged then Some(Done) else None
  }

  /** Writing chunks moves the count of bytes written on by theirs. */
  lemma {:induction false} WritesWalk(n: int, cs: seq<Segment>)
    requires forall k :: 0 <= k < |cs| ==> |cs[k]| <= ReceiveSession.ChunkSize
    ensures Walk(ServerStep, Receiving(n), Writes(cs)) == Some(Receiving(n + |Content(cs)|))
    decreases |cs|
  {
    if |cs| > 0 {
      assert Writes(cs)[1..] == Writes(cs[1..]);
      WritesWalk(n + |cs[0]|, cs[1..]);
    }
  }

  /** The bytes a server run writes to the socket, in order. */
  function Acks(events: seq<ServerEvent>): seq<Byte>
    decreases |events|
  {
    if |events| == 0 then [] else Sent(events[0]) + Acks(events[1..])
  }

  function Sent(e: ServerEvent): seq<Byte>
  {
    if e.AckSent? then [e.ack] else []
  }

  lemma {:induction false} AcksAppend(a: seq<ServerEvent>, b: seq<ServerEvent>)
    ensures Acks(a + b) == Acks(a) + Acks(b)
    decreases |a|
  {
    if |a| == 0 {
      assert a + b == b;
    } else {
      assert (a + b)[0] == a[0] && (a + b)[1..] == a[1..] + b;
      AcksAppend(a[1..], b);
      calc {
        Acks(a + b);
        Sent(a[0]) + Acks(a[1..] + b);
        Sent(a[0]) + (Acks(a[1..]) + Acks(b));
        (Sent(a[0]) + Acks(a[1..])) + Acks(b);
      }
    }
  }

  lemma {:induction false} AcksOne(e: ServerEvent)
    ensures Acks([e]) == if e.AckSent? then [e.ack] else []
  {
    assert [e][1..] == [];
  }

  lemma {:induction false} WritesSendNothing(cs: seq<Segment>)
    ensures Acks(Writes(cs)) == []
    decreases |cs|
  {
    if |cs| > 0 {
      assert Writes(cs)[1..] == Writes(cs[1..]);
      WritesSendNothing(cs[1..]);
    }
  }

  /** The trace of a connection that got as far as the file data: header, replacement,
      first acknowledgement, then the chunks written. */
  lemma {:induction false} PrologueWalk(frame: seq<Byte>, path: seq<JavaChar>, cs: seq<Segment>)
    requires |frame| == FrameSize
    requires forall k :: 0 <= k < |cs| ==> |cs[k]| <= ReceiveSession.ChunkSize
    ensures var evs := [HeaderReceived(frame), FileReplaced(path), AckSent(AckByte)] + Writes(cs);
      Walk(ServerStep, Listening, evs) == Some(Receiving(|Content(cs)|)) && Acks(evs) == [AckByte]
  {
    var prologue := [HeaderReceived(frame), FileReplaced(path), AckSent(AckByte)];
    assert prologue == [HeaderReceived(frame), FileReplaced(path)] + [AckSent(AckByte)];
    WalkPair(ServerStep, Listening, HeaderReceived(frame), FileReplaced(path));
    WalkOne(ServerStep, Replaced, AckSent(AckByte));
    WalkAppend(ServerStep, Listening, [HeaderReceived(frame), FileReplaced(path)], [AckSent(AckByte)]);
    assert Acks(prologue) == [AckByte] by {
      assert prologue == [HeaderReceived(frame)] + [FileReplaced(path)] + [AckSent(AckByte)];
      AcksOne(HeaderReceived(frame));
      AcksOne(FileReplaced(path));
      AcksOne(AckSent(AckByte));
      AcksAppend([HeaderReceived(frame)], [FileReplaced(path)]);
      AcksAppend([HeaderReceived(frame)] + [FileReplaced(path)], [AckSent(AckByte)]);
    }
    WritesWalk(0, cs);
    WalkAppend(ServerStep, Listening, prologue, Writes(cs));
    WritesSendNothing(cs);
    AcksAppend(prologue, Writes(cs));
  }

  /** ... followed by the second acknowledgement and the close. */
  lemma {:induction false} FinishWalk(body: seq<ServerEvent>, n: int)
    requires Walk(ServerStep, Listening, body) == Some(Receiving(n)) && Acks(body) == [AckByte]
    ensures var evs := body + [AckSent(AckByte), ConnectionClosed];
      Walk(ServerStep, Listening, evs) == Some(Done) && Acks(evs) == [AckByte, AckByte]
      && evs[..|evs| - 2] == body
  {
    var closing := [AckSent(AckByte), ConnectionClosed];
    WalkPair(ServerStep, Receiving(n), AckSent(AckByte), ConnectionClosed);
    WalkAppend(ServerStep, Listening, body, closing);
    assert Acks(closing) == [AckByte] by {
      assert closing == [AckSent(AckByte)] + [ConnectionClosed];
      AcksOne(AckSent(AckByte));
      AcksOne(ConnectionClosed);
      AcksAppend([AckSent(AckByte)], [ConnectionClosed]);
    }
    AcksAppend(body, closing);
    assert (body + closing)[..|body + closing| - 2] == body;
  }

  /** Once a 1024-byte header has been decoded, a server run keeps the server's protocol,
      gets to its end exactly when the file is saved, and then has written the whole saved
      content before its second acknowledgement; it sends one `AckByte` per acknowledgement. */
  lemma {:induction false} ServeDecodedFollowsProtocol(frame: seq<Byte>, lengthOfFile: int, name: seq<JavaChar>, rest: Stream)
    requires |frame| == FrameSize
    ensures var run := ServeDecoded(frame, lengthOfFile, name, rest);
      var end := Walk(ServerStep, Listening, run.events);
      && end.Some?
      && (run.outcome.Saved? <==> end == Some(Done))
      && (run.outcome.StalledInPayload? ==>
            end == Some(Receiving(|run.outcome.partial|)) && Acks(run.events) == [AckByte])
      && (run.outcome.Saved? ==>
            && |run.events| >= 5
            && Walk(ServerStep, Listening, run.events[..|run.events| - 2]) == Some(Receiving(|run.outcome.content|))
            && Acks(run.events) == [AckByte, AckByte])
  {
    var rec := ReceiveLoop(rest, lengthOfFile, 0);
    var body := [HeaderReceived(frame), FileReplaced(Destination(name)), AckSent(AckByte)] + Writes(rec.chunks);
    PrologueWalk(frame, Destination(name), rec.chunks);
    if rec.Received? {
      FinishWalk(body, |Content(rec.chunks)|);
    }
  }

  /** After a 1024-byte header, a server run keeps the server's protocol as far as it gets;
      a header without `','` ends it before any acknowledgement. */
  lemma {:induction false} ServeFrameFollowsProtocol(frame: seq<Byte>, rest: Stream)
    requires |frame| == FrameSize
    ensures var run := ServeFrame(frame, rest);
      var end := Walk(ServerStep, Listening, run.events);
      && end.Some?
      && (run.outcome.Saved? <==> end == Some(Done))
      && (run.outcome.MalformedHeader? ==> end == Some(HeaderIn) && Acks(run.events) == [])
      && (run.outcome.StalledInPayload? ==>
            end == Some(Receiving(|run.outcome.partial|)) && Acks(run.events) == [AckByte])
      && (run.outcome.Saved? ==>
            && |run.events| >= 5
            && Walk(ServerStep, Listening, run.events[..|run.events| - 2]) == Some(Receiving(|run.outcome.content|))
            && Acks(run.events) == [AckByte, AckByte])
  {
    if DecodeHeader(frame).Some? {
      var h := DecodeHeader(frame).value;
      assert ServeFrame(frame, rest) == ServeDecoded(frame, h.length, h.name, rest);
      ServeDecodedFollowsProtocol(frame, h.length, h.name, rest);
    } else {
      WalkOne(ServerStep, Listening, HeaderReceived(frame));
      assert [HeaderReceived(frame)][1..] == [];
    }
  }

  /** The same for a whole connection of the corrected server; a stream that ends inside
      the header leaves the server listening, with nothing sent. */
  lemma {:induction false} ServerFollowsProtocol(s: Stream)
    ensures var run := ServeConnection(s);
      var end := Walk(ServerStep, Listening, run.events);
      && end.Some?
      && (run.outcome.Saved? <==> end == Some(Done))
      && (run.outcome.StalledInHeader? ==> end == Some(Listening) && Acks(run.events) == [])
      && (run.outcome.MalformedHeader? ==> end == Some(HeaderIn) && Acks(run.events) == [])
      && (run.outcome.StalledInPayload? ==>
            end == Some(Receiving(|run.outcome.partial|)) && Acks(run.events) == [AckByte])
      && (run.outcome.Saved? ==>
            && |run.events| >= 5
            && Walk(ServerStep, Listening, run.events[..|run.events| - 2]) == Some(Receiving(|run.outcome.content|))
            && Acks(run.events) == [AckByte, AckByte])
  {
    var r := ReadHeaderExact(s);
    if r.HeaderRead? {
      ServeFrameFollowsProtocol(r.header, r.rest);
    }
  }

  /** The server exactly as written keeps the same protocol: fewer than 1023 bytes leave it
      listening with nothing sent, a buffer without `','` ends it before any
      acknowledgement, and otherwise it acknowledges once before the payload and once
      after it. */
  lemma {:induction false} ServeConnectionAsWrittenFollowsProtocol(s: Stream)
    ensures var run := ServeConnectionAsWritten(s);
      var end := Walk(ServerStep, Listening, run.events);
      && end.Some?
      && (run.outcome.Saved? <==> end == Some(Done))
      && (run.outcome.StalledInHeader? <==> |Content(s)| < FrameSize - 1)
      && (run.outcome.StalledInHeader? ==> end == Some(Listening) && Acks(run.events) == [])
      && (run.outcome.MalformedHeader? ==> end == Some(HeaderIn) && Acks(run.events) == [])
      && (run.outcome.StalledInPayload? ==>
            end == Some(Receiving(|run.outcome.partial|)) && Acks(run.events) == [AckByte])
      && (run.outcome.Saved? ==>
            && |run.events| >= 5
            && Walk(ServerStep, Listening, run.events[..|run.events| - 2]) == Some(Receiving(|run.outcome.content|))
            && Acks(run.events) == [AckByte, AckByte])
  {
    var r := ReadHeaderData(s);
    if r.HeaderRead? {
      var length := GetLengthOfFile(r.header);
      if length.Some? {
        ServeDecodedFollowsProtocol(r.header, length.value, GetFileName(r.header), r.rest);
      } else {
        WalkOne(ServerStep, Listening, HeaderReceived(r.header));
        assert [HeaderReceived(r.header)][1..] == [];
      }
    }
  }
}
