/**
 A blocking socket or file input stream, seen as the bytes still to come cut into the
 pieces in which the transport hands them over. A Java `read(buf, off, len)` with
 `len > 0` blocks until one piece is available and returns between 1 and `len` of its
 bytes; once no piece is left the peer has closed the stream and every read returns -1.
 */
module Streams {
  import opened JavaInts

  /** A piece of a stream, and what one successful `read` returns: at least one byte. */
  type Segment = s: seq<Byte> | |s| > 0 witness [0]

  type Stream = seq<Segment>

  /** All bytes of a stream (or of a list of chunks), in order. */
  function Content(s: seq<Segment>): (bytes: seq<Byte>)
    ensures |bytes| >= |s|
  {
    if |s| == 0 then [] else s[0] + Content(s[1..])
  }

  lemma {:induction false} ContentAppend(a: seq<Segment>, b: seq<Segment>)
    ensures Content(a + b) == Content(a) + Content(b)
    decreases |a|
  {
    if |a| == 0 {
      assert a + b == b;
    } else {
      assert (a + b)[1..] == a[1..] + b;
      ContentAppend(a[1..], b);
    }
  }

  lemma {:induction false} ContentPrepend(c: Segment, s: seq<Segment>)
    ensures Content([c] + s) == c + Content(s)
  {
    assert ([c] + s)[1..] == s;
  }

  datatype ReadResult = EndOfStream | Data(bytes: Segment)

  /** `InputStream.read` asking for at most `limit` bytes; the second component is what is left. */
  function Read(s: Stream, limit: nat): (r: (ReadResult, Stream))
    requires limit > 0
    ensures r.0.EndOfStream? <==> Content(s) == []
    ensures r.0.EndOfStream? ==> r.1 == s
    ensures r.0.Data? ==> |r.0.bytes| <= limit && Content(s) == r.0.bytes + Content(r.1)
    ensures r.0.Data? && |r.0.bytes| < limit ==> r.0.bytes == s[0] && r.1 == s[1..]
  {
    if |s| == 0 then (EndOfStream, s)
    else if |s[0]| <= limit then (Data(s[0]), s[1..])
    else
      ContentPrepend(s[0][limit..], s[1..]);
      assert s[0] == s[0][..limit] + s[0][limit..];
      (Data(s[0][..limit]), [s[0][limit..]] + s[1..])
  }

  /** Whether some leading run of whole segments holds exactly `n` bytes, so that a reader
      asking for more than that is handed exactly those `n` bytes first. */
  predicate CutsAt(s: Stream, n: nat)
  {
    n == 0 || (|s| > 0 && |s[0]| <= n && CutsAt(s[1..], n - |s[0]|))
  }

  /** A read asking for more than `n` bytes either stays within the first `n` bytes, and then
      the rest of the stream cuts at what is left of `n`, or takes more than `n` bytes, and
      then the stream does not cut at `n`. */
  lemma {:induction false} CutsAtAfterRead(s: Stream, limit: nat, n: nat)
    requires 0 < n < limit && Read(s, limit).0.Data?
    ensures |Read(s, limit).0.bytes| <= n ==>
      (CutsAt(s, n) <==> CutsAt(Read(s, limit).1, n - |Read(s, limit).0.bytes|))
    ensures |Read(s, limit).0.bytes| > n ==> !CutsAt(s, n)
  {
  }
}
