/**
 One server connection, `RequestProcessor.run`: read the 1024-byte header, decode it,
 replace the destination file, acknowledge, copy `lengthOfFile` bytes into the file,
 acknowledge again, close. The socket's input is a `Stream`; a read that returns -1 inside
 one of the source's retry loops would repeat forever, which is a stalled outcome.
 `ServeConnectionAsWritten` is the connection as written; `ServeConnection` is the
 corrected server, which reads all 1024 header bytes and decodes the name between the
 separator and the padding.
 */
module ReceiveSession {
  import opened JavaInts
  import opened Wrappers
  import opened Streams
  import opened HeaderFormat
  import opened HeaderDecode

  /** The server's read buffer for file data. */
  const ChunkSize: nat := 4096
  /** The single byte `sendAck` writes. */
  const AckByte: Byte := 1
  /** Received files go to this directory, joined with `/` as `File.separator` is on Unix. */
  const StorageRoot: seq<JavaChar> := "uploads"

  datatype HeaderRead = HeaderRead(header: seq<Byte>, count: nat, rest: Stream) | HeaderStalled

  // ---------------------------------------------------------------------------
  // Reading the header

  lemma {:induction false} PrefixOfConcat<T>(a: seq<T>, b: seq<T>, k: nat)
    requires |a| <= k <= |a| + |b|
    ensures (a + b)[..k] == a + b[..k - |a|]
  {
    assert (a + b)[..k][|a|..] == b[..k - |a|];
  }

  /** `readHeaderData`'s loop as written: it runs while `j < 1024` with `j == i + 1`, each
      read asking for the `1024 - i` bytes still missing and depositing what it gets at
      offset `i`. */
  function ReadHeaderLoop(s: Stream, header: seq<Byte>, i: nat, j: int): (r: HeaderRead)
    requires |header| == FrameSize && i <= FrameSize && j == i + 1
    ensures r.HeaderRead? ==>
      && |r.header| == FrameSize
      && i <= r.count <= FrameSize && FrameSize - 1 <= r.count
      && (i >= FrameSize - 1 ==> r.count == i)
    decreases FrameSize - i
  {
    if j >= FrameSize then HeaderRead(header, i, s)
    else
      var (res, rest) := Read(s, FrameSize - i);
      match res
      case EndOfStream => HeaderStalled
      case Data(b) => ReadHeaderLoop(rest, header[..i] + b + header[i + |b|..], i + |b|, j + |b|)
  }

  /** What the as-written loop leaves in the buffer: the bytes it read, in stream order,
      from offset `i` to its final count, and the buffer untouched around them. */
  lemma {:induction false} ReadHeaderLoopFills(s: Stream, header: seq<Byte>, i: nat)
    requires |header| == FrameSize && i <= FrameSize
    requires ReadHeaderLoop(s, header, i, i + 1).HeaderRead?
    ensures var r := ReadHeaderLoop(s, header, i, i + 1);
      && r.count - i <= |Content(s)|
      && r.header[..i] == header[..i]
      && r.header[i..r.count] == Content(s)[..r.count - i]
      && r.header[r.count..] == header[r.count..]
      && Content(r.rest) == Content(s)[r.count - i..]
    decreases FrameSize - i
  {
    if i + 1 < FrameSize {
      var (res, rest) := Read(s, FrameSize - i);
      var b := res.bytes;
      var next := header[..i] + b + header[i + |b|..];
      ReadHeaderLoopFills(rest, next, i + |b|);
      var r := ReadHeaderLoop(rest, next, i + |b|, i + |b| + 1);
      DepositThenFill(header, b, Content(rest), i, r.header, r.count);
    }
  }

  /** Bytes `b` deposited at `i`, followed by a fill of the rest of the stream after them,
      is one fill from `i` of `b` and that rest. */
  lemma {:induction false} DepositThenFill(header: seq<Byte>, b: seq<Byte>, more: seq<Byte>, i: nat, filled: seq<Byte>, count: nat)
    requires i + |b| <= count <= |header| == |filled| && count - i - |b| <= |more|
    requires var next := header[..i] + b + header[i + |b|..];
      && filled[..i + |b|] == next[..i + |b|]
      && filled[i + |b|..count] == more[..count - i - |b|]
      && filled[count..] == next[count..]
    ensures filled[..i] == header[..i]
    ensures filled[i..count] == (b + more)[..count - i]
    ensures filled[count..] == header[count..]
  {
    var next := header[..i] + b + header[i + |b|..];
    assert filled[..i] == filled[..i + |b|][..i];
    assert filled[i..count] == filled[..i + |b|][i..] + filled[i + |b|..count];
    assert next[..i + |b|][i..] == b;
    PrefixOfConcat(b, more, count - i);
    assert next[count..] == header[i + |b|..][count - i - |b|..];
  }

  /** The as-written loop stalls exactly when the stream ends before byte 1023. */
  lemma {:induction false} ReadHeaderLoopStalls(s: Stream, header: seq<Byte>, i: nat)
    requires |header| == FrameSize && i <= FrameSize
    ensures ReadHeaderLoop(s, header, i, i + 1).HeaderStalled? <==> i < FrameSize - 1 && |Content(s)| < FrameSize - 1 - i
    decreases FrameSize - i
  {
    if i + 1 < FrameSize {
      var (res, rest) := Read(s, FrameSize - i);
      if res.Data? {
        ReadHeaderLoopStalls(rest, header[..i] + res.bytes + header[i + |res.bytes|..], i + |res.bytes|);
      }
    }
  }

  /** The as-written loop stops one byte short exactly when some leading run of the
      stream's segments holds 1023 bytes. */
  lemma {:induction false} ReadHeaderLoopStopsShort(s: Stream, header: seq<Byte>, i: nat)
    requires |header| == FrameSize && i < FrameSize - 1
    requires ReadHeaderLoop(s, header, i, i + 1).HeaderRead?
    ensures ReadHeaderLoop(s, header, i, i + 1).count == FrameSize - 1 <==> CutsAt(s, FrameSize - 1 - i)
    decreases FrameSize - i
  {
    var (res, rest) := Read(s, FrameSize - i);
    var next := i + |res.bytes|;
    CutsAtAfterRead(s, FrameSize - i, FrameSize - 1 - i);
    if next < FrameSize - 1 {
      ReadHeaderLoopStopsShort(rest, header[..i] + res.bytes + header[i + |res.bytes|..], next);
    }
  }

  /** `readHeaderData` as written. It returns once 1023 bytes are in whenever the transport
      happens to deliver exactly 1023 first; the last header byte then stays zero and is
      left in the stream, in front of the file data. */
  function ReadHeaderData(s: Stream): (r: HeaderRead)
    ensures r.HeaderStalled? <==> |Content(s)| < FrameSize - 1
    ensures r.HeaderRead? ==>
      && FrameSize - 1 <= r.count <= FrameSize && r.count <= |Content(s)|
      && |r.header| == FrameSize
      && r.header[..r.count] == Content(s)[..r.count]
      && (forall k :: r.count <= k < FrameSize ==> r.header[k] == 0)
      && Content(r.rest) == Content(s)[r.count..]
    ensures r.HeaderRead? ==> (r.count == FrameSize - 1 <==> CutsAt(s, FrameSize - 1))
  {
    ReadIntoZeros(s);
    ReadHeaderLoop(s, Zeros(), 0, 1)
  }

  /** The buffer `new byte[1024]` starts as. */
  function Zeros(): (z: seq<Byte>)
    ensures |z| == FrameSize && forall k :: 0 <= k < FrameSize ==> z[k] == 0
  {
    seq(FrameSize, _ => 0)
  }

  /** The as-written loop run on a fresh buffer. */
  lemma {:induction false} ReadIntoZeros(s: Stream)
    ensures var r := ReadHeaderLoop(s, Zeros(), 0, 1);
      && (r.HeaderStalled? <==> |Content(s)| < FrameSize - 1)
      && (r.HeaderRead? ==>
        && FrameSize - 1 <= r.count <= FrameSize && r.count <= |Content(s)|
        && |r.header| == FrameSize
        && r.header[..r.count] == Content(s)[..r.count]
        && (forall k :: r.count <= k < FrameSize ==> r.header[k] == 0)
        && Content(r.rest) == Content(s)[r.count..]
        && (r.count == FrameSize - 1 <==> CutsAt(s, FrameSize - 1)))
  {
    var zeros := Zeros();
    var r := ReadHeaderLoop(s, zeros, 0, 1);
    ReadHeaderLoopStalls(s, zeros, 0);
    if r.HeaderRead? {
      ReadHeaderLoopStopsShort(s, zeros, 0);
      ReadHeaderLoopFills(s, zeros, 0);
      assert r.header[..r.count] == Content(s)[..r.count] by {
        assert r.header[..r.count] == r.header[0..r.count];
      }
      ZerosAfter(r.header, r.count);
    }
  }

  lemma ZerosAfter(h: seq<Byte>, c: nat)
    requires |h| == FrameSize && c <= FrameSize && h[c..] == Zeros()[c..]
    ensures forall k :: c <= k < FrameSize ==> h[k] == 0
  {
    forall k | c <= k < FrameSize ensures h[k] == 0 {
      assert h[k] == h[c..][k - c] == Zeros()[c..][k - c];
    }
  }

  /** The loop the header read calls for: keep reading while fewer than 1024 bytes are in. */
  function ReadFully(s: Stream, header: seq<Byte>, i: nat): (r: HeaderRead)
    requires |header| == FrameSize && i <= FrameSize
    ensures r.HeaderStalled? <==> |Content(s)| < FrameSize - i
    ensures r.HeaderRead? ==>
      && r.count == FrameSize && |r.header| == FrameSize && FrameSize - i <= |Content(s)|
      && r.header[..i] == header[..i]
      && r.header[i..] == Content(s)[..FrameSize - i]
      && Content(r.rest) == Content(s)[FrameSize - i..]
    decreases FrameSize - i
  {
    if i >= FrameSize then HeaderRead(header, i, s)
    else
      var (res, rest) := Read(s, FrameSize - i);
      match res
      case EndOfStream => HeaderStalled
      case Data(b) =>
        var next := header[..i] + b + header[i + |b|..];
        var r := ReadFully(rest, next, i + |b|);
        if r.HeaderRead? then
          FillStep(header, b, Content(rest), i, r.header);
          r
        else r
  }

  /** Bytes `b` deposited at `i`, and the buffer then filled after them from `more`, is the
      buffer filled from `i` with `b` and then `more`. */
  lemma {:induction false} FillStep(header: seq<Byte>, b: seq<Byte>, more: seq<Byte>, i: nat, filled: seq<Byte>)
    requires i + |b| <= |header| == |filled| == FrameSize
    requires FrameSize - i - |b| <= |more|
    requires var next := header[..i] + b + header[i + |b|..];
      filled[..i + |b|] == next[..i + |b|] && filled[i + |b|..] == more[..FrameSize - i - |b|]
    ensures filled[..i] == header[..i]
    ensures filled[i..] == (b + more)[..FrameSize - i]
  {
    var next := header[..i] + b + header[i + |b|..];
    assert filled[..i] == filled[..i + |b|][..i];
    assert filled[i..] == filled[..i + |b|][i..] + filled[i + |b|..];
    assert next[..i + |b|][i..] == b;
    PrefixOfConcat(b, more, FrameSize - i);
  }

  /** The header read the protocol calls for: exactly the first 1024 bytes of the stream. */
  function ReadHeaderExact(s: Stream): (r: HeaderRead)
    ensures r.HeaderStalled? <==> |Content(s)| < FrameSize
    ensures r.HeaderRead? ==>
      && |Content(s)| >= FrameSize
      && r.header == Content(s)[..FrameSize]
      && Content(r.rest) == Content(s)[FrameSize..]
  {
    ReadFully(s, Zeros(), 0)
  }

  // ---------------------------------------------------------------------------
  // Receiving the file

  datatype Received =
    | Received(chunks: seq<Segment>, count: int, rest: Stream)
    | PayloadStalled(chunks: seq<Segment>)

  /** `receiveAndSaveFileData`'s loop: while `m < lengthOfFile`, read up to 4096 bytes, write
      them to the file, add their number to `m`. */
  function ReceiveLoop(s: Stream, lengthOfFile: int, m: int): (r: Received)
    ensures forall k :: 0 <= k < |r.chunks| ==> |r.chunks[k]| <= ChunkSize
    ensures |Content(r.chunks)| <= |Content(s)| && Content(r.chunks) == Content(s)[..|Content(r.chunks)|]
    ensures r.Received? <==> m >= lengthOfFile || |Content(s)| >= lengthOfFile - m
    ensures r.Received? ==>
      && r.count == m + |Content(r.chunks)| && r.count >= lengthOfFile
      && (m < lengthOfFile ==> r.count < lengthOfFile + ChunkSize)
      && Content(r.rest) == Content(s)[|Content(r.chunks)|..]
    ensures r.PayloadStalled? ==> Content(r.chunks) == Content(s)
    ensures m <= lengthOfFile && |Content(s)| == lengthOfFile - m ==>
      r.Received? && r.count == lengthOfFile && Content(r.chunks) == Content(s)
    decreases |Content(s)|
  {
    if m >= lengthOfFile then Received([], m, s)
    else
      var (res, rest) := Read(s, ChunkSize);
      match res
      case EndOfStream => PayloadStalled([])
      case Data(b) =>
        var tail := ReceiveLoop(rest, lengthOfFile, m + |b|);
        ContentPrepend(b, tail.chunks);
        match tail
        case Received(cs, count, left) => Received([b] + cs, count, left)
        case PayloadStalled(cs) => PayloadStalled([b] + cs)
  }

  // ---------------------------------------------------------------------------
  // One connection

  datatype ServerEvent =
    | HeaderReceived(frame: seq<Byte>)
    | FileReplaced(path: seq<JavaChar>)
    | AckSent(ack: Byte)
    | ChunkWritten(data: Segment)
    | ConnectionClosed

  datatype ServerOutcome =
    | Saved(path: seq<JavaChar>, content: seq<Byte>)
    | MalformedHeader
    | StalledInHeader
    | StalledInPayload(path: seq<JavaChar>, partial: seq<Byte>)

  datatype ServerRun = ServerRun(events: seq<ServerEvent>, outcome: ServerOutcome)

  /** `saveFile`'s path: the name as the last component under `uploads`, with
      `File.separator` taken as `/`. */
  function Destination(name: seq<JavaChar>): (p: seq<JavaChar>)
    ensures |p| == |StorageRoot| + 1 + |name|
    ensures p[..|StorageRoot|] == StorageRoot && p[|StorageRoot|] == '/'
    ensures p[|StorageRoot| + 1..] == name
  {
    StorageRoot + "/" + name
  }

  /** Two names share a saved file exactly when they are the same name. */
  lemma {:induction false} DestinationInjective(a: seq<JavaChar>, b: seq<JavaChar>)
    ensures Destination(a) == Destination(b) <==> a == b
  {
    if Destination(a) == Destination(b) {
      assert a == Destination(a)[|StorageRoot| + 1..];
    }
  }

  function Writes(cs: seq<Segment>): (evs: seq<ServerEvent>)
    ensures |evs| == |cs|
    ensures forall k :: 0 <= k < |cs| ==> evs[k] == ChunkWritten(cs[k])
  {
    seq(|cs|, k requires 0 <= k < |cs| => ChunkWritten(cs[k]))
  }

  /** `RequestProcessor.run`, with the exact header read and the layout's name decoding in
      place of `readHeaderData` and `getFileName`. */
  function ServeConnection(s: Stream): (run: ServerRun)
    ensures run.outcome.StalledInHeader? <==> |Content(s)| < FrameSize
    ensures run.outcome.MalformedHeader? <==> |Content(s)| >= FrameSize && Separator !in Content(s)[..FrameSize]
    ensures run.outcome.Saved? ==>
      && |Content(s)| >= FrameSize
      && DecodeHeader(Content(s)[..FrameSize]).Some?
      && var h := DecodeHeader(Content(s)[..FrameSize]).value;
      && run.outcome.path == Destination(h.name)
      && h.length <= |run.outcome.content| <= |Content(s)| - FrameSize
      && run.outcome.content == Content(s)[FrameSize..][..|run.outcome.content|]
    ensures |Content(s)| >= FrameSize && DecodeHeader(Content(s)[..FrameSize]).Some? ==>
      var h := DecodeHeader(Content(s)[..FrameSize]).value;
      0 <= h.length == |Content(s)| - FrameSize ==> run.outcome == Saved(Destination(h.name), Content(s)[FrameSize..])
  {
    match ReadHeaderExact(s)
    case HeaderStalled => ServerRun([], StalledInHeader)
    case HeaderRead(frame, _, rest) => ServeFrame(frame, rest)
  }

  /** Everything after the header read: decode the frame, then serve what it announces. A
      frame without `','` makes `getLengthOfFile` throw before any acknowledgement. */
  function ServeFrame(frame: seq<Byte>, rest: Stream): (run: ServerRun)
    ensures run.outcome.MalformedHeader? <==> Separator !in frame
    ensures !run.outcome.StalledInHeader?
    ensures run.outcome.Saved? ==>
      && DecodeHeader(frame).Some?
      && run.outcome.path == Destination(DecodeHeader(frame).value.name)
      && DecodeHeader(frame).value.length <= |run.outcome.content| <= |Content(rest)|
      && run.outcome.content == Content(rest)[..|run.outcome.content|]
    ensures DecodeHeader(frame).Some? && 0 <= DecodeHeader(frame).value.length == |Content(rest)| ==>
      run.outcome == Saved(Destination(DecodeHeader(frame).value.name), Content(rest))
  {
    match DecodeHeader(frame)
    case None => ServerRun([HeaderReceived(frame)], MalformedHeader)
    case Some(h) => ServeDecoded(frame, h.length, h.name, rest)
  }

  /** `saveFile`, the first `sendAck`, `receiveAndSaveFileData`, the second `sendAck` and the
      close, for a header announcing `lengthOfFile` bytes under `name`. */
  function ServeDecoded(frame: seq<Byte>, lengthOfFile: int, name: seq<JavaChar>, rest: Stream): (run: ServerRun)
    ensures run.outcome.Saved? || run.outcome.StalledInPayload?
    ensures run.outcome.Saved? <==> |Content(rest)| >= lengthOfFile
    ensures run.outcome.path == Destination(name)
    ensures run.outcome.Saved? ==>
      && lengthOfFile <= |run.outcome.content| <= |Content(rest)|
      && run.outcome.content == Content(rest)[..|run.outcome.content|]
      && (0 < lengthOfFile ==> |run.outcome.content| < lengthOfFile + ChunkSize)
    ensures run.outcome.StalledInPayload? ==> run.outcome.partial == Content(rest)
    ensures 0 <= lengthOfFile == |Content(rest)| ==> run.outcome == Saved(Destination(name), Content(rest))
  {
    var path := Destination(name);
    var prologue := [HeaderReceived(frame), FileReplaced(path), AckSent(AckByte)];
    match ReceiveLoop(rest, lengthOfFile, 0)
    case PayloadStalled(cs) => ServerRun(prologue + Writes(cs), StalledInPayload(path, Content(cs)))
    case Received(cs, _, _) =>
      ServerRun(prologue + Writes(cs) + [AckSent(AckByte), ConnectionClosed], Saved(path, Content(cs)))
  }

  /** `RequestProcessor.run` exactly as written: `readHeaderData`, `getLengthOfFile` and
      `getFileName` on whatever the header read left in the buffer. */
  function ServeConnectionAsWritten(s: Stream): (run: ServerRun)
    ensures run.outcome.StalledInHeader? <==> |Content(s)| < FrameSize - 1
    ensures run.outcome.MalformedHeader? <==>
      ReadHeaderData(s).HeaderRead? && Separator !in ReadHeaderData(s).header
    ensures run.outcome.Saved? ==>
      && ReadHeaderData(s).HeaderRead?
      && run.outcome.path == Destination(GetFileName(ReadHeaderData(s).header))
      && |run.outcome.content| <= |Content(ReadHeaderData(s).rest)|
      && run.outcome.content == Content(ReadHeaderData(s).rest)[..|run.outcome.content|]
  {
    var r := ReadHeaderData(s);
    if r.HeaderStalled? then ServerRun([], StalledInHeader)
    else
      var length := GetLengthOfFile(r.header);
      if length.None? then ServerRun([HeaderReceived(r.header)], MalformedHeader)
      else ServeDecoded(r.header, length.value, GetFileName(r.header), r.rest)
  }
}
