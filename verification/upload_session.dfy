/**
 One client upload, `FileUploadThread.run`: build the header, connect, send the header,
 wait for the server's first acknowledgement, send the file in chunks of at most 4096
 bytes reporting the running count after each, wait for the second acknowledgement,
 close. The file and the socket's input are `Stream`s; whether the connection is
 established is a parameter.
 */
module UploadSession {
  import opened JavaInts
  import opened Streams
  import opened HeaderFormat

  /** The client's file read buffer. */
  const ChunkSize: nat := 4096

  /** The running count cannot wrap: the file holds no more than `int` can count. */
  predicate NoWrap(file: Stream, j: int)
  {
    j + |Content(file)| <= MaxInt
  }

  /** The running byte counts, starting from `j`, after each of `chunks`. */
  function RunningTotals(j: int, chunks: seq<Segment>): (totals: seq<int>)
    ensures |totals| == |chunks|
    decreases |chunks|
  {
    if |chunks| == 0 then [] else [j + |chunks[0]|] + RunningTotals(j + |chunks[0]|, chunks[1..])
  }

  lemma {:induction false} RunningTotalsCons(j: int, b: Segment, chunks: seq<Segment>)
    ensures RunningTotals(j, [b] + chunks) == [j + |b|] + RunningTotals(j + |b|, chunks)
  {
    assert ([b] + chunks)[1..] == chunks;
  }

  /** Each running total is the start plus the bytes of the chunks up to and including its own. */
  lemma {:induction false} RunningTotalsCount(j: int, chunks: seq<Segment>, k: nat)
    requires k < |chunks|
    ensures RunningTotals(j, chunks)[k] == j + |Content(chunks[..k + 1])|
    decreases |chunks|
  {
    assert chunks[..k + 1] == [chunks[0]] + chunks[1..][..k];
    ContentPrepend(chunks[0], chunks[1..][..k]);
    if k > 0 {
      RunningTotalsCount(j + |chunks[0]|, chunks[1..], k - 1);
    }
  }

  lemma {:induction false} RunningTotalsAbove(j: int, chunks: seq<Segment>, k: nat)
    requires k < |chunks|
    ensures j < RunningTotals(j, chunks)[k]
    decreases |chunks|
  {
    if k > 0 {
      RunningTotalsAbove(j + |chunks[0]|, chunks[1..], k - 1);
    }
  }

  /** Running totals over non-empty chunks grow strictly, from above the start. */
  lemma {:induction false} RunningTotalsIncrease(j: int, chunks: seq<Segment>, k: nat, l: nat)
    requires k < l < |chunks|
    ensures j < RunningTotals(j, chunks)[k] < RunningTotals(j, chunks)[l]
    decreases |chunks|
  {
    if k > 0 {
      RunningTotalsIncrease(j + |chunks[0]|, chunks[1..], k - 1, l - 1);
    } else {
      RunningTotalsAbove(j + |chunks[0]|, chunks[1..], l - 1);
    }
  }

  /** What the chunk loop did: the chunks sent, the count reported after each, and whether
      it left its loop normally. It leaves abnormally when the file ends early, since
      `os.write(bytes, 0, -1)` throws. */
  datatype ChunkLoop = ChunkLoop(chunks: seq<Segment>, reports: seq<int>, complete: bool)

  /** The chunk loop from the point where `j` bytes have gone out. `j` is a Java `int`, so
      the running count wraps; `lengthOfFile` is a `long`. Without wrap-around the loop
      reports the running byte count after every chunk, completes exactly when the file
      holds enough bytes, overshoots the announced length by less than one chunk, and sends
      a file holding exactly the announced length whole. */
  function UploadLoop(file: Stream, lengthOfFile: int, j: int): (r: ChunkLoop)
    requires IsInt(j)
    ensures |r.reports| == |r.chunks|
    ensures forall k :: 0 <= k < |r.chunks| ==> |r.chunks[k]| <= ChunkSize
    ensures |Content(r.chunks)| <= |Content(file)| && Content(r.chunks) == Content(file)[..|Content(r.chunks)|]
    ensures forall k :: 0 <= k < |r.reports| ==> IsInt(r.reports[k])
    ensures lengthOfFile > MaxInt ==> !r.complete
    ensures 0 <= j && NoWrap(file, j) ==> r.reports == RunningTotals(j, r.chunks)
    ensures NoWrap(file, j) ==> (r.complete <==> j >= lengthOfFile || |Content(file)| >= lengthOfFile - j)
    ensures NoWrap(file, j) && r.complete && j < lengthOfFile ==>
      lengthOfFile <= j + |Content(r.chunks)| < lengthOfFile + ChunkSize
    ensures NoWrap(file, j) && j <= lengthOfFile && |Content(file)| == lengthOfFile - j ==>
      r.complete && Content(r.chunks) == Content(file)
    decreases |Content(file)|
  {
    if j >= lengthOfFile then ChunkLoop([], [], true)
    else
      var rd := Read(file, ChunkSize);
      if rd.0.EndOfStream? then ChunkLoop([], [], false)
      else
        var b := rd.0.bytes;
        assert |Content(file)| == |b| + |Content(rd.1)|;
        var next := Int32(j + |b|);
        assert NoWrap(file, j) ==> next == j + |b| && NoWrap(rd.1, next);
        var tail := UploadLoop(rd.1, lengthOfFile, next);
        ContentPrepend(b, tail.chunks);
        RunningTotalsCons(j, b, tail.chunks);
        ChunkLoop([b] + tail.chunks, [next] + tail.reports, tail.complete)
  }

  // ---------------------------------------------------------------------------
  // One upload

  datatype ClientEvent =
    | HeaderSent(frame: seq<Byte>)
    | AckReceived(ack: Byte)
    | ChunkSent(data: Segment)
    | ProgressReported(uploaded: int)
    | SocketClosed

  datatype ClientOutcome = Uploaded | HeaderOverflow | ConnectFailed | StalledAwaitingAck | FileEndedEarly

  datatype ClientRun = ClientRun(events: seq<ClientEvent>, outcome: ClientOutcome)

  /** Each chunk written, followed by the progress event posted for it. */
  function StreamEvents(chunks: seq<Segment>, reports: seq<int>): (evs: seq<ClientEvent>)
    requires |chunks| == |reports|
    ensures |evs| == 2 * |chunks|
    ensures forall k :: 0 <= k < |chunks| ==> evs[2 * k] == ChunkSent(chunks[k]) && evs[2 * k + 1] == ProgressReported(reports[k])
  {
    if |chunks| == 0 then []
    else [ChunkSent(chunks[0]), ProgressReported(reports[0])] + StreamEvents(chunks[1..], reports[1..])
  }

  /** The bytes a run writes to the socket, in order. */
  function Transmitted(events: seq<ClientEvent>): seq<Byte>
  {
    if |events| == 0 then []
    else
      var here := match events[0]
        case HeaderSent(f) => f
        case ChunkSent(d) => d
        case _ => [];
      here + Transmitted(events[1..])
  }

  lemma {:induction false} TransmittedAppend(a: seq<ClientEvent>, b: seq<ClientEvent>)
    ensures Transmitted(a + b) == Transmitted(a) + Transmitted(b)
    decreases |a|
  {
    if |a| > 0 {
      assert (a + b)[1..] == a[1..] + b;
      TransmittedAppend(a[1..], b);
    } else {
      assert a + b == b;
    }
  }

  lemma {:induction false} TransmittedChunks(chunks: seq<Segment>, reports: seq<int>)
    requires |chunks| == |reports|
    ensures Transmitted(StreamEvents(chunks, reports)) == Content(chunks)
    decreases |chunks|
  {
    if |chunks| > 0 {
      var evs := StreamEvents(chunks, reports);
      var tail := StreamEvents(chunks[1..], reports[1..]);
      TransmittedChunks(chunks[1..], reports[1..]);
      TransmittedAppend([ChunkSent(chunks[0]), ProgressReported(reports[0])], tail);
      assert Transmitted([ChunkSent(chunks[0]), ProgressReported(reports[0])]) == chunks[0] by {
        assert [ChunkSent(chunks[0]), ProgressReported(reports[0])][1..] == [ProgressReported(reports[0])];
        assert [ProgressReported(reports[0])][1..] == [];
      }
    }
  }

  /** `FileUploadThread.run`. An oversized header throws before the socket is opened; a
      server that closes before an acknowledgement leaves the client spinning in its
      read loop. The acknowledgement bytes are read and otherwise ignored. */
  function UploadFile(lengthOfFile: nat, name: seq<JavaChar>, connects: bool, file: Stream, fromServer: Stream): (run: ClientRun)
    requires IsLong(lengthOfFile)
    ensures run.outcome.HeaderOverflow? <==> !Fits(lengthOfFile, name)
    ensures run.outcome.ConnectFailed? <==> Fits(lengthOfFile, name) && !connects
    ensures run.events == [] <==> !Fits(lengthOfFile, name) || !connects
    ensures run.events != [] ==> run.events[0] == HeaderSent(EncodeHeader(lengthOfFile, name))
    ensures Fits(lengthOfFile, name) && connects && Content(fromServer) == [] ==>
      run == ClientRun([HeaderSent(EncodeHeader(lengthOfFile, name))], StalledAwaitingAck)
    ensures run.outcome.Uploaded? ==>
      && |Content(fromServer)| >= 2 && |run.events| >= 4
      && run.events[1] == AckReceived(Content(fromServer)[0])
      && run.events[|run.events| - 2] == AckReceived(Content(fromServer)[1])
      && run.events[|run.events| - 1] == SocketClosed
    ensures NoWrap(file, 0) ==>
      (run.outcome.Uploaded? <==>
        Fits(lengthOfFile, name) && connects && |Content(fromServer)| >= 2 && |Content(file)| >= lengthOfFile)
  {
    if !Fits(lengthOfFile, name) then ClientRun([], HeaderOverflow)
    else if !connects then ClientRun([], ConnectFailed)
    else
      var sent := [HeaderSent(EncodeHeader(lengthOfFile, name))];
      var (first, replies) := Read(fromServer, 1);
      match first
      case EndOfStream => ClientRun(sent, StalledAwaitingAck)
      case Data(a1) =>
        var loop := UploadLoop(file, lengthOfFile, 0);
        var streamed := sent + [AckReceived(a1[0])] + StreamEvents(loop.chunks, loop.reports);
        if !loop.complete then ClientRun(streamed, FileEndedEarly)
        else
          var (second, _) := Read(replies, 1);
          match second
          case EndOfStream => ClientRun(streamed, StalledAwaitingAck)
          case Data(a2) =>
            assert Content(fromServer)[..2] == a1 + a2 by {
              assert Content(fromServer) == a1 + a2 + Content(Read(replies, 1).1);
            }
            ClientRun(streamed + [AckReceived(a2[0]), SocketClosed], Uploaded)
  }
}
