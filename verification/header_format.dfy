/**
 The 1024-byte header frame the client sends before a file's bytes, as
 `FileUploadThread.run` builds it: the file length's decimal digits as raw values 0-9,
 least significant first; the separator `','`; the name's characters narrowed to bytes;
 space padding up to the last offset.
 */
module HeaderFormat {
  import opened JavaInts
  import opened Wrappers

  const FrameSize: nat := 1024
  /** `','`, written after the digits. */
  const Separator: Byte := 44
  /** `' '`, written after the name up to offset 1023. */
  const Padding: Byte := 32

  function Pow10(k: nat): (p: nat)
    ensures p >= 1
  {
    if k == 0 then 1 else 10 * Pow10(k - 1)
  }

  /** The digits the client's `while (k > 0)` loop writes, least significant first. */
  function Digits(n: nat): (ds: seq<Byte>)
    ensures forall k :: 0 <= k < |ds| ==> 0 <= ds[k] <= 9
    ensures |ds| == 0 <==> n == 0
    ensures n < Pow10(|ds|)
    ensures |ds| > 0 ==> Pow10(|ds| - 1) <= n
    decreases n
  {
    if n == 0 then []
    else
      var rest := Digits(n / 10);
      assert n == 10 * (n / 10) + n % 10;
      [n % 10] + rest
  }

  /** The number a least-significant-first digit list denotes, sum of ds[k] * 10^k. */
  function DigitsValue(ds: seq<int>): int
  {
    if |ds| == 0 then 0 else ds[0] + 10 * DigitsValue(ds[1..])
  }

  /** The digit list gives back the number; this is what makes the length field decodable. */
  lemma {:induction false} DigitsValueOfDigits(n: nat)
    ensures DigitsValue(Digits(n)) == n
    decreases n
  {
    if n > 0 {
      DigitsValueOfDigits(n / 10);
      assert Digits(n)[1..] == Digits(n / 10);
    }
  }

  /** The client writes every part of the frame only when this holds; otherwise a write
      lands past offset 1023 and `ArrayIndexOutOfBoundsException` ends the upload. */
  predicate Fits(n: nat, name: seq<JavaChar>)
  {
    |Digits(n)| + 1 + |name| <= FrameSize
  }

  /** The name's characters as the `(byte)` casts narrow them. */
  function NameBytes(name: seq<JavaChar>): (bs: seq<Byte>)
    ensures |bs| == |name|
    ensures forall k :: 0 <= k < |name| ==> bs[k] == CharToByte(name[k])
  {
    seq(|name|, k requires 0 <= k < |name| => CharToByte(name[k]))
  }

  /** Byte `k` of the frame for a file of `n` bytes called `name`. */
  function FrameByte(n: nat, name: seq<JavaChar>, k: int): Byte
  {
    var d := |Digits(n)|;
    if 0 <= k < d then Digits(n)[k]
    else if k == d then Separator
    else if d < k <= d + |name| then CharToByte(name[k - d - 1])
    else Padding
  }

  /** `f` is a frame holding, from offset 0: `d` digit values, the separator, `name`
      narrowed to bytes, then padding up to offset 1023. */
  predicate Layout(f: seq<Byte>, d: nat, name: seq<JavaChar>)
  {
    && |f| == FrameSize && d + 1 + |name| <= FrameSize
    && (forall k :: 0 <= k < d ==> 0 <= f[k] <= 9)
    && f[d] == Separator
    && (forall k :: 0 <= k < |name| ==> f[d + 1 + k] == CharToByte(name[k]))
    && (forall k :: d + 1 + |name| <= k < FrameSize ==> f[k] == Padding)
  }

  /** The header frame for a file of `n` bytes called `name`: its digits read back as `n`,
      then the separator, the name and the padding. */
  function EncodeHeader(n: nat, name: seq<JavaChar>): (frame: seq<Byte>)
    requires Fits(n, name)
    ensures Layout(frame, |Digits(n)|, name)
    ensures frame[..|Digits(n)|] == Digits(n)
    ensures DigitsValue(frame[..|Digits(n)|]) == n
  {
    var frame := seq(FrameSize, k => FrameByte(n, name, k));
    assert frame[..|Digits(n)|] == Digits(n);
    DigitsValueOfDigits(n);
    frame
  }

  /**
   The client's three loops over a zero-filled `byte[1024]`, literally: digits while `k > 0`,
   the separator, the name's characters, then spaces while `i <= 1023`. A write at an offset
   past the array is the exception that ends the upload, here `None`.
   */
  method BuildHeader(lengthOfFile: nat, name: seq<JavaChar>) returns (r: Option<seq<Byte>>)
    ensures r.Some? <==> Fits(lengthOfFile, name)
    ensures r.Some? ==> r.value == EncodeHeader(lengthOfFile, name)
  {
    var header: seq<Byte> := seq(FrameSize, _ => 0);
    var at, ok;
    header, at, ok := WriteDigits(header, lengthOfFile);
    if !ok {
      return None;
    }
    if at >= FrameSize {
      return None;
    }
    header := header[at := Separator];
    at := at + 1;
    var named := WriteName(header, at, lengthOfFile, name);
    if named.None? {
      return None;
    }
    header := WritePadding(named.value, lengthOfFile, name);
    return Some(header);
  }

  /** The `while (k > 0)` loop: `(byte) (k % 10)` at offsets 0, 1, ...; `ok` is false when a
      digit would land past offset 1023. */
  method WriteDigits(header0: seq<Byte>, lengthOfFile: nat) returns (header: seq<Byte>, i: nat, ok: bool)
    requires |header0| == FrameSize
    ensures ok <==> |Digits(lengthOfFile)| <= FrameSize
    ensures ok ==> |header| == FrameSize && i == |Digits(lengthOfFile)| && header[..i] == Digits(lengthOfFile)
  {
    header := header0;
    var ds := Digits(lengthOfFile);
    i := 0;
    var k: nat := lengthOfFile;
    while k > 0
      invariant |header| == FrameSize && i <= FrameSize
      invariant i + |Digits(k)| == |ds| && ds[i..] == Digits(k)
      invariant header[..i] == ds[..i]
      decreases k
    {
      if i >= FrameSize {
        return header, i, false;
      }
      assert Digits(k) == [k % 10] + Digits(k / 10);
      assert ds[i] == k % 10 && ds[i + 1..] == Digits(k / 10);
      assert ds[..i + 1] == ds[..i] + [k % 10];
      assert header[i := k % 10][..i + 1] == header[..i] + [k % 10];
      header := header[i := k % 10];
      k := k / 10;
      i := i + 1;
    }
    assert ds[..i] == ds;
    return header, i, true;
  }

  /** The `while (r < x)` loop: `(byte) name.charAt(r)` from offset `at` on, or `None` when a
      character would land past offset 1023. */
  method WriteName(header0: seq<Byte>, at: nat, lengthOfFile: nat, name: seq<JavaChar>) returns (r: Option<seq<Byte>>)
    requires |header0| == FrameSize && at == |Digits(lengthOfFile)| + 1 <= FrameSize
    requires header0[..at] == Digits(lengthOfFile) + [Separator]
    ensures r.Some? <==> Fits(lengthOfFile, name)
    ensures r.Some? ==> |r.value| == FrameSize
    ensures r.Some? ==> r.value[..at + |name|] == Digits(lengthOfFile) + [Separator] + NameBytes(name)
  {
    var header: seq<Byte> := header0;
    var i := at;
    var k: nat := 0;
    while k < |name|
      invariant |header| == FrameSize && i == at + k <= FrameSize && k <= |name|
      invariant header[..i] == header0[..at] + NameBytes(name)[..k]
    {
      if i >= FrameSize {
        return None;
      }
      assert NameBytes(name)[..k + 1] == NameBytes(name)[..k] + [CharToByte(name[k])];
      header := header[i := CharToByte(name[k])];
      i := i + 1;
      k := k + 1;
    }
    assert NameBytes(name)[..k] == NameBytes(name);
    return Some(header);
  }

  /** The `while (i <= 1023)` loop: spaces after the name up to the end of the frame. */
  method WritePadding(header0: seq<Byte>, lengthOfFile: nat, name: seq<JavaChar>) returns (header: seq<Byte>)
    requires Fits(lengthOfFile, name) && |header0| == FrameSize
    requires header0[..|Digits(lengthOfFile)| + 1 + |name|] == Digits(lengthOfFile) + [Separator] + NameBytes(name)
    ensures header == EncodeHeader(lengthOfFile, name)
  {
    ghost var frame := EncodeHeader(lengthOfFile, name);
    var i := |Digits(lengthOfFile)| + 1 + |name|;
    header := header0;
    assert frame[..i] == header[..i];
    while i <= FrameSize - 1
      invariant |header| == FrameSize && i <= FrameSize
      invariant header[..i] == frame[..i]
    {
      assert frame[..i + 1] == frame[..i] + [Padding];
      header := header[i := Padding];
      i := i + 1;
    }
    assert header == header[..i];
  }
}
