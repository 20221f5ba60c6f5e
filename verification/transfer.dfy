/**
 A whole transfer: the bytes one upload writes to its socket are the server's input. The
 client announces the length `File.length()` reports, which is the file's content, and the
 two acknowledgements are all the server ever writes back.
 */
module Transfer {
  import opened Wrappers
  import opened JavaInts
  import opened Streams
  import opened HeaderFormat
  import opened HeaderDecode
  import opened JavaText
  import opened Progress
  import opened UploadSession
  import opened ReceiveSession
  import opened Handshake

  // ---------------------------------------------------------------------------
  // What goes on the wire

  lemma {:induction false} TransmittedOne(e: ClientEvent)
    ensures Transmitted([e]) == match e
      case HeaderSent(f) => f
      case ChunkSent(d) => d
      case _ => []
  {
    assert [e][1..] == [];
  }

  /** The bytes of an upload up to its last chunk: the header frame, then the chunks. */
  lemma {:induction false} StreamedBytes(frame: seq<Byte>, a: Byte, chunks: seq<Segment>, reports: seq<int>)
    requires |chunks| == |reports|
    ensures Transmitted([HeaderSent(frame)] + [AckReceived(a)] + StreamEvents(chunks, reports)) == frame + Content(chunks)
  {
    TransmittedOne(HeaderSent(frame));
    TransmittedOne(AckReceived(a));
    TransmittedAppend([HeaderSent(frame)], [AckReceived(a)]);
    TransmittedAppend([HeaderSent(frame)] + [AckReceived(a)], StreamEvents(chunks, reports));
    TransmittedChunks(chunks, reports);
  }

  /** Reading the second acknowledgement and closing send nothing. */
  lemma {:induction false} ClosingSendsNothing(evs: seq<ClientEvent>, a: Byte)
    ensures Transmitted(evs + [AckReceived(a), SocketClosed]) == Transmitted(evs)
  {
    assert [AckReceived(a), SocketClosed] == [AckReceived(a)] + [SocketClosed];
    TransmittedOne(AckReceived(a));
    TransmittedOne(SocketClosed);
    TransmittedAppend([AckReceived(a)], [SocketClosed]);
    TransmittedAppend(evs, [AckReceived(a), SocketClosed]);
  }

  /** What an upload puts on the wire: nothing when it never connects, otherwise the header
      frame followed by a prefix of the file, and the whole file once it succeeds on a file
      of the announced length. */
  lemma {:induction false} WireCarriesHeaderThenFile(lengthOfFile: nat, name: seq<JavaChar>, connects: bool, file: Stream, fromServer: Stream)
    requires IsLong(lengthOfFile)
    ensures var run := UploadFile(lengthOfFile, name, connects, file, fromServer);
      var wire := Transmitted(run.events);
      && (run.events == [] ==> wire == [])
      && (run.events != [] ==>
            && FrameSize <= |wire| <= FrameSize + |Content(file)|
            && wire[..FrameSize] == EncodeHeader(lengthOfFile, name)
            && wire[FrameSize..] == Content(file)[..|wire| - FrameSize])
      && (run.outcome.Uploaded? && NoWrap(file, 0) && |Content(file)| == lengthOfFile ==>
            wire == EncodeHeader(lengthOfFile, name) + Content(file))
  {
    if Fits(lengthOfFile, name) && connects {
      var frame := EncodeHeader(lengthOfFile, name);
      TransmittedOne(HeaderSent(frame));
      var (first, replies) := Read(fromServer, 1);
      if first.Data? {
        var loop := UploadLoop(file, lengthOfFile, 0);
        var streamed := [HeaderSent(frame)] + [AckReceived(first.bytes[0])] + StreamEvents(loop.chunks, loop.reports);
        StreamedBytes(frame, first.bytes[0], loop.chunks, loop.reports);
        var (second, _) := Read(replies, 1);
        if loop.complete && second.Data? {
          ClosingSendsNothing(streamed, second.bytes[0]);
        }
        assert (frame + Content(loop.chunks))[FrameSize..] == Content(loop.chunks);
      }
    }
  }

  // ---------------------------------------------------------------------------
  // End to end

  /** An upload of an ASCII name without a trailing space, over a connection on which both
      acknowledgements arrive, succeeds; and however the transport cuts what it sent into
      pieces, the corrected server saves exactly the file's bytes under the name and
      acknowledges twice. */
  lemma {:induction false} FileArrivesIntact(name: seq<JavaChar>, file: Stream, fromServer: Stream, wire: Stream)
    requires NoWrap(file, 0) && Fits(|Content(file)|, name)
    requires IsAscii(name) && (name == [] || name[|name| - 1] != ' ')
    requires |Content(fromServer)| >= 2
    requires Content(wire) == Transmitted(UploadFile(|Content(file)|, name, true, file, fromServer).events)
    ensures UploadFile(|Content(file)|, name, true, file, fromServer).outcome == Uploaded
    ensures ServeConnection(wire).outcome == Saved(Destination(name), Content(file))
    ensures Acks(ServeConnection(wire).events) == [AckByte, AckByte]
  {
    var n := |Content(file)|;
    var frame := EncodeHeader(n, name);
    WireCarriesHeaderThenFile(n, name, true, file, fromServer);
    assert Content(wire)[..FrameSize] == frame && Content(wire)[FrameSize..] == Content(file);
    DecodeHeaderRoundTrip(n, name);
    ServerFollowsProtocol(wire);
  }

  /** The counts a run posts to its progress bar, in order. */
  function Reports(events: seq<ClientEvent>): seq<int>
    decreases |events|
  {
    if |events| == 0 then [] else Posted(events[0]) + Reports(events[1..])
  }

  function Posted(e: ClientEvent): seq<int>
  {
    if e.ProgressReported? then [e.uploaded] else []
  }

  lemma {:induction false} ReportsAppend(a: seq<ClientEvent>, b: seq<ClientEvent>)
    ensures Reports(a + b) == Reports(a) + Reports(b)
    decreases |a|
  {
    if |a| == 0 {
      assert a + b == b;
    } else {
      assert (a + b)[0] == a[0] && (a + b)[1..] == a[1..] + b;
      ReportsAppend(a[1..], b);
      calc {
        Reports(a + b);
        Posted(a[0]) + Reports(a[1..] + b);
        Posted(a[0]) + (Reports(a[1..]) + Reports(b));
        (Posted(a[0]) + Reports(a[1..])) + Reports(b);
      }
    }
  }

  lemma {:induction false} ReportsOfStream(chunks: seq<Segment>, reports: seq<int>)
    requires |chunks| == |reports|
    ensures Reports(StreamEvents(chunks, reports)) == reports
    decreases |chunks|
  {
    if |chunks| > 0 {
      var pair := [ChunkSent(chunks[0]), ProgressReported(reports[0])];
      assert pair[1..] == [ProgressReported(reports[0])] && pair[1..][1..] == [];
      ReportsAppend(pair, StreamEvents(chunks[1..], reports[1..]));
      ReportsOfStream(chunks[1..], reports[1..]);
      assert [reports[0]] + reports[1..] == reports;
    }
  }

  lemma {:induction false} ReportsOfUpload(lengthOfFile: nat, name: seq<JavaChar>, connects: bool, file: Stream, fromServer: Stream)
    requires IsLong(lengthOfFile)
    requires UploadFile(lengthOfFile, name, connects, file, fromServer).outcome.Uploaded?
    ensures Reports(UploadFile(lengthOfFile, name, connects, file, fromServer).events)
      == UploadLoop(file, lengthOfFile, 0).reports
  {
    var frame := EncodeHeader(lengthOfFile, name);
    var (first, replies) := Read(fromServer, 1);
    var loop := UploadLoop(file, lengthOfFile, 0);
    var head := [HeaderSent(frame)] + [AckReceived(first.bytes[0])];
    var (second, _) := Read(replies, 1);
    var closing := [AckReceived(second.bytes[0]), SocketClosed];
    assert head[1..] == [AckReceived(first.bytes[0])] && head[1..][1..] == [];
    assert closing[1..] == [SocketClosed] && closing[1..][1..] == [];
    ReportsOfStream(loop.chunks, loop.reports);
    ReportsAppend(head, StreamEvents(loop.chunks, loop.reports));
    ReportsAppend(head + StreamEvents(loop.chunks, loop.reports), closing);
  }

  /** Progress counts `ps` for a file of `n > 0` bytes rise strictly, stay within the file,
      and end at its length; the bar they drive never moves back and shows 100 on the last
      report and only there. */
  predicate ClimbsToFull(ps: seq<int>, n: int)
    requires 0 < n <= MaxInt
  {
    && |ps| > 0 && ps[|ps| - 1] == n
    && (forall k, l :: 0 <= k < l < |ps| ==> ps[k] < ps[l])
    && (forall k :: 0 <= k < |ps| ==> 0 < ps[k] <= n)
    && (forall k, l :: 0 <= k <= l < |ps| ==> Percentage(ps[k], n) <= Percentage(ps[l], n))
    && (forall k :: 0 <= k < |ps| ==> (Percentage(ps[k], n) == 100 <==> k == |ps| - 1))
  }

  /** On a successful upload of a non-empty file the progress reports climb to full. */
  lemma {:induction false} ProgressClimbsToFull(name: seq<JavaChar>, connects: bool, file: Stream, fromServer: Stream)
    requires NoWrap(file, 0) && |Content(file)| > 0
    requires UploadFile(|Content(file)|, name, connects, file, fromServer).outcome.Uploaded?
    ensures ClimbsToFull(Reports(UploadFile(|Content(file)|, name, connects, file, fromServer).events), |Content(file)|)
  {
    var n := |Content(file)|;
    ReportsOfUpload(n, name, connects, file, fromServer);
    var loop := UploadLoop(file, n, 0);
    assert Content(loop.chunks) == Content(file);
    TotalsClimbToFull(loop.chunks, n);
  }

  /** The running totals from zero over chunks holding `n > 0` bytes. */
  lemma {:induction false} TotalsClimbToFull(chunks: seq<Segment>, n: nat)
    requires |Content(chunks)| == n > 0 && n <= MaxInt
    ensures ClimbsToFull(RunningTotals(0, chunks), n)
  {
    var ps := RunningTotals(0, chunks);
    assert |chunks| > 0;
    forall k | 0 <= k < |ps| ensures 0 < ps[k] <= n && (k == |ps| - 1 ==> ps[k] == n) {
      RunningTotalsCount(0, chunks, k);
      RunningTotalsAbove(0, chunks, k);
      assert chunks == chunks[..k + 1] + chunks[k + 1..];
      ContentAppend(chunks[..k + 1], chunks[k + 1..]);
    }
    forall k, l | 0 <= k < l < |ps| ensures ps[k] < ps[l] {
      RunningTotalsIncrease(0, chunks, k, l);
    }
    forall k, l | 0 <= k <= l < |ps| ensures Percentage(ps[k], n) <= Percentage(ps[l], n) {
      if k < l {
        RunningTotalsIncrease(0, chunks, k, l);
      }
      PercentageMonotone(ps[k], ps[l], n);
    }
    forall k | 0 <= k < |ps| ensures Percentage(ps[k], n) == 100 <==> k == |ps| - 1 {
      FullExactlyAtEnd(ps[k], n);
      if k < |ps| - 1 {
        RunningTotalsIncrease(0, chunks, k, |ps| - 1);
      }
    }
  }

  // ---------------------------------------------------------------------------
  // The source as written

  /** A wire that hands over a frame's first 1023 bytes as one piece and its last byte in
      front of the data as the next. */
  function SplitWire(frame: seq<Byte>, data: seq<Byte>): Stream
    requires |frame| == FrameSize
  {
    [frame[..FrameSize - 1], [frame[FrameSize - 1]] + data]
  }

  /** When the transport hands over the first 1023 header bytes on their own, the header
      read as written returns without byte 1023, which then leads the file data: the server
      as written saves a file that starts with the header's padding space and then the
      file, while the exact header read saves the file intact from the same wire. */
  lemma {:induction false} SplitHeaderShiftsFile(name: seq<JavaChar>, file: Stream)
    requires NoWrap(file, 0) && |Content(file)| > 0
    requires |Digits(|Content(file)|)| + 1 + |name| < FrameSize
    requires IsAscii(name) && (name == [] || name[|name| - 1] != ' ')
    ensures var wire := SplitWire(EncodeHeader(|Content(file)|, name), Content(file));
      var asWritten := ServeConnectionAsWritten(wire).outcome;
      && ReadHeaderData(wire).HeaderRead? && ReadHeaderData(wire).count == FrameSize - 1
      && asWritten.Saved?
      && |Content(file)| <= |asWritten.content| <= |Content(file)| + 1
      && asWritten.content == ([Padding] + Content(file))[..|asWritten.content|]
      && asWritten.content[0] == Padding
      && ServeConnection(wire).outcome == Saved(Destination(name), Content(file))
  {
    var n := |Content(file)|;
    var frame := EncodeHeader(n, name);
    var d := |Digits(n)|;
    var wire := SplitWire(frame, Content(file));
    assert frame[FrameSize - 1] == Padding;
    assert Content(wire) == frame + Content(file) && ReadHeaderData(wire).count == FrameSize - 1 by {
      SplitWireReadsShort(frame, Content(file));
    }
    assert var out := ServeConnectionAsWritten(wire).outcome;
      && out.Saved?
      && n <= |out.content| <= n + 1
      && out.content == ([Padding] + Content(file))[..|out.content|]
      && out.content[0] == Padding
    by {
      SplitWireReadsShort(frame, Content(file));
      Pow10Values();
      if d > 10 {
        Pow10Monotone(10, d - 1);
      }
      DigitsValueOfDigits(n);
      ShortReadShiftsData(wire, frame, d, name, Content(file));
    }
    assert ServeConnection(wire).outcome == Saved(Destination(name), Content(file)) by {
      FileArrivesOnExactRead(name, file, wire);
    }
  }

  /** The server as written, after a header read that stopped at byte 1023 of a laid-out
      frame announcing `|data|` bytes, receives the padding byte and then the data. */
  lemma {:induction false} ShortReadShiftsData(wire: Stream, frame: seq<Byte>, d: nat, name: seq<JavaChar>, data: seq<Byte>)
    requires Layout(frame, d, name) && d + 1 + |name| < FrameSize
    requires d <= 10 && DigitsValue(frame[..d]) == |data| && 0 < |data| <= MaxInt
    requires ReadHeaderData(wire).HeaderRead?
    requires |ReadHeaderData(wire).header| == FrameSize
    requires ReadHeaderData(wire).header[..FrameSize - 1] == frame[..FrameSize - 1]
    requires Content(ReadHeaderData(wire).rest) == [Padding] + data
    ensures var out := ServeConnectionAsWritten(wire).outcome;
      && out.Saved?
      && |data| <= |out.content| <= |data| + 1
      && out.content == ([Padding] + data)[..|out.content|]
      && out.content[0] == Padding
  {
    var r := ReadHeaderData(wire);
    LengthOfShortFrame(r.header, frame, d, name);
    assert ServeConnectionAsWritten(wire) == ServeDecoded(r.header, |data|, GetFileName(r.header), r.rest);
  }

  lemma {:induction false} ContentOfPair(a: Segment, b: Segment)
    ensures Content([a, b]) == a + b
  {
    assert [a, b] == [a] + [b] && [b] == [b] + [];
    ContentPrepend(a, [b]);
    ContentPrepend(b, []);
  }

  /** A wire whose first piece is a frame's first 1023 bytes: the header read as written
      takes just those, and leaves byte 1023 in front of the data. */
  lemma {:induction false} SplitWireReadsShort(frame: seq<Byte>, data: seq<Byte>)
    requires |frame| == FrameSize
    ensures var wire := SplitWire(frame, data);
      var r := ReadHeaderData(wire);
      && Content(wire) == frame + data
      && r.HeaderRead? && r.count == FrameSize - 1
      && r.header[..FrameSize - 1] == frame[..FrameSize - 1]
      && Content(r.rest) == [frame[FrameSize - 1]] + data
  {
    var wire := SplitWire(frame, data);
    ContentOfPair(frame[..FrameSize - 1], [frame[FrameSize - 1]] + data);
    assert frame == frame[..FrameSize - 1] + [frame[FrameSize - 1]];
    assert CutsAt(wire, FrameSize - 1) by {
      assert wire[1..] == [[frame[FrameSize - 1]] + data];
      assert CutsAt(wire[1..], 0);
    }
    assert (frame + data)[..FrameSize - 1] == frame[..FrameSize - 1];
    assert (frame + data)[FrameSize - 1..] == [frame[FrameSize - 1]] + data;
  }

  /** A buffer agreeing with a laid-out frame before byte 1023 still yields the frame's
      length, as long as the name leaves byte 1023 to the padding. */
  lemma {:induction false} LengthOfShortFrame(h: seq<Byte>, frame: seq<Byte>, d: nat, name: seq<JavaChar>)
    requires Layout(frame, d, name) && d + 1 + |name| < FrameSize
    requires |h| == FrameSize && h[..FrameSize - 1] == frame[..FrameSize - 1]
    requires d <= 10 && DigitsValue(frame[..d]) <= MaxInt
    ensures GetLengthOfFile(h) == Some(DigitsValue(frame[..d]))
  {
    assert h[..d] == frame[..d] by {
      assert h[..d] == h[..FrameSize - 1][..d];
      assert frame[..d] == frame[..FrameSize - 1][..d];
    }
    assert h[d] == Separator by {
      assert h[d] == h[..FrameSize - 1][d];
    }
    assert forall k :: 0 <= k < d ==> 0 <= h[k] <= 9 by {
      forall k | 0 <= k < d ensures 0 <= h[k] <= 9 {
        assert h[k] == h[..d][k];
      }
    }
    LengthOfDigitField(h, d);
  }

  /** The exact header read saves the file intact from any wire carrying the header frame
      followed by the file. */
  lemma {:induction false} FileArrivesOnExactRead(name: seq<JavaChar>, file: Stream, wire: Stream)
    requires NoWrap(file, 0) && Fits(|Content(file)|, name)
    requires IsAscii(name) && (name == [] || name[|name| - 1] != ' ')
    requires Content(wire) == EncodeHeader(|Content(file)|, name) + Content(file)
    ensures ServeConnection(wire).outcome == Saved(Destination(name), Content(file))
  {
    var n := |Content(file)|;
    assert Content(wire)[..FrameSize] == EncodeHeader(n, name) && Content(wire)[FrameSize..] == Content(file);
    DecodeHeaderRoundTrip(n, name);
  }

  /** However the transport cuts the wire, as long as the first 1024 bytes reach the header
      read whole, the server as written saves the file's bytes, but under the name with
      the header's separator in front of it, where the exact decoding saves it under the
      name itself. */
  lemma {:induction false} CommaPrefixesSavedName(name: seq<JavaChar>, file: Stream, wire: Stream)
    requires NoWrap(file, 0) && |Digits(|Content(file)|)| + 1 + |name| < FrameSize
    requires IsAscii(name) && name != [] && !IsTrimmable(name[|name| - 1])
    requires Content(wire) == EncodeHeader(|Content(file)|, name) + Content(file)
    requires !CutsAt(wire, FrameSize - 1)
    ensures ServeConnectionAsWritten(wire).outcome == Saved(Destination([SeparatorChar] + name), Content(file))
    ensures ServeConnection(wire).outcome == Saved(Destination(name), Content(file))
  {
    var n := |Content(file)|;
    var frame := EncodeHeader(n, name);
    WholeFrameRead(wire, frame, Content(file));
    LengthRoundTrip(n, name);
    WholeReadServesAsWritten(wire, frame, Content(file));
    GetFileNameKeepsSeparator(n, name);
    FileArrivesOnExactRead(name, file, wire);
  }

  /** The server as written, after a header read that took a whole frame announcing the
      length of the data that follows, saves that data under the name `getFileName` reads. */
  lemma {:induction false} WholeReadServesAsWritten(wire: Stream, frame: seq<Byte>, data: seq<Byte>)
    requires ReadHeaderData(wire).HeaderRead? && ReadHeaderData(wire).header == frame
    requires Content(ReadHeaderData(wire).rest) == data
    requires GetLengthOfFile(frame) == Some(|data|)
    ensures ServeConnectionAsWritten(wire).outcome == Saved(Destination(GetFileName(frame)), data)
  {
    var r := ReadHeaderData(wire);
    assert ServeConnectionAsWritten(wire) == ServeDecoded(frame, |data|, GetFileName(frame), r.rest);
  }

  /** A wire carrying a frame and then data, cut anywhere but after byte 1022: the header
      read as written takes the whole frame and leaves the data. */
  lemma {:induction false} WholeFrameRead(wire: Stream, frame: seq<Byte>, data: seq<Byte>)
    requires |frame| == FrameSize && Content(wire) == frame + data
    requires !CutsAt(wire, FrameSize - 1)
    ensures ReadHeaderData(wire).HeaderRead?
    ensures ReadHeaderData(wire).header == frame && Content(ReadHeaderData(wire).rest) == data
  {
    var r := ReadHeaderData(wire);
    assert Content(wire)[..FrameSize] == frame && Content(wire)[FrameSize..] == data;
    assert r.header == r.header[..FrameSize];
  }
}
