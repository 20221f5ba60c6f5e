/**
 The server's reading of a header frame. `GetLengthOfFile` and `GetFileName` follow
 `getLengthOfFile` and `getFileName` literally, with Java `int` arithmetic; `DecodeName`
 and `DecodeHeader` read the name as the text between the first `','` and the space
 padding, which is what the corrected server uses.
 */
module HeaderDecode {
  import opened JavaInts
  import opened Wrappers
  import opened JavaText
  import opened HeaderFormat

  // ---------------------------------------------------------------------------
  // The length field

  /** The `while (header[i] != ',')` loop with its `int` accumulator `acc` and place value
      `j`; reading `header[i]` past the end throws, which is `None`. */
  function LengthLoop(h: seq<Byte>, i: nat, acc: int, j: int): (r: Option<int>)
    requires i <= |h| && IsInt(acc)
    ensures r.None? <==> forall k :: i <= k < |h| ==> h[k] != Separator
    ensures r.Some? ==> IsInt(r.value)
    decreases |h| - i
  {
    if i == |h| then None
    else if h[i] == Separator then Some(acc)
    else LengthLoop(h, i + 1, Int32(acc + Int32(h[i] * j)), Int32(j * 10))
  }

  function GetLengthOfFile(h: seq<Byte>): (r: Option<int>)
    ensures r.None? <==> Separator !in h
    ensures r.Some? ==> IsInt(r.value)
    ensures |h| > 0 && h[0] == Separator ==> r == Some(0)
  {
    LengthLoop(h, 0, 0, 1)
  }

  lemma {:induction false} DigitsValueAppend(a: seq<int>, b: seq<int>)
    ensures DigitsValue(a + b) == DigitsValue(a) + Pow10(|a|) * DigitsValue(b)
    decreases |a|
  {
    if |a| > 0 {
      assert (a + b)[1..] == a[1..] + b;
      DigitsValueAppend(a[1..], b);
    } else {
      assert a + b == b;
    }
  }

  lemma {:induction false} DigitsValueNonNegative(ds: seq<int>)
    requires forall k :: 0 <= k < |ds| ==> 0 <= ds[k]
    ensures DigitsValue(ds) >= 0
    decreases |ds|
  {
    if |ds| > 0 {
      DigitsValueNonNegative(ds[1..]);
    }
  }

  lemma {:induction false} Pow10Monotone(a: nat, b: nat)
    requires a <= b
    ensures Pow10(a) <= Pow10(b)
    decreases b
  {
    if a < b {
      Pow10Monotone(a, b - 1);
    }
  }

  lemma {:induction false} Pow10Values()
    ensures Pow10(9) == 1_000_000_000 && Pow10(10) == 10_000_000_000
  {
    assert Pow10(1) == 10;
    assert Pow10(3) == 1000;
    assert Pow10(6) == 1_000_000;
  }

  /** One step of the accumulation: digit i adds `ds[i] * 10^i`, and no partial sum
      exceeds the whole. */
  lemma {:induction false} PrefixStep(ds: seq<int>, i: nat)
    requires i < |ds|
    requires forall k :: 0 <= k < |ds| ==> 0 <= ds[k]
    ensures DigitsValue(ds[..i + 1]) == DigitsValue(ds[..i]) + ds[i] * Pow10(i)
    ensures 0 <= DigitsValue(ds[..i]) && 0 <= ds[i] * Pow10(i)
    ensures DigitsValue(ds[..i + 1]) <= DigitsValue(ds)
  {
    assert ds[..i + 1] == ds[..i] + [ds[i]];
    DigitsValueAppend(ds[..i], [ds[i]]);
    assert DigitsValue([ds[i]]) == ds[i];
    assert ds == ds[..i + 1] + ds[i + 1..];
    DigitsValueAppend(ds[..i + 1], ds[i + 1..]);
    DigitsValueNonNegative(ds[i + 1..]);
    DigitsValueNonNegative(ds[..i]);
  }

  /** From digit i on, the `int` loop adds the remaining digits without wrapping. */
  lemma {:induction false} LengthLoopSumsDigits(h: seq<Byte>, ds: seq<Byte>, i: nat, acc: int, j: int)
    requires |ds| < |h| && h[..|ds|] == ds && h[|ds|] == Separator
    requires forall k :: 0 <= k < |ds| ==> 0 <= ds[k] <= 9
    requires |ds| <= 10 && DigitsValue(ds) <= MaxInt
    requires i <= |ds| && acc == DigitsValue(ds[..i]) && IsInt(acc) && (i <= 9 ==> j == Pow10(i))
    ensures LengthLoop(h, i, acc, j) == Some(DigitsValue(ds))
    decreases |ds| - i
  {
    if i < |ds| {
      assert h[i] == ds[i];
      PrefixStep(ds, i);
      Pow10Values();
      var next := Int32(j * 10);
      if i + 1 <= 9 {
        Pow10Monotone(i + 1, 9);
        assert next == Pow10(i + 1);
      }
      LengthLoopSumsDigits(h, ds, i + 1, DigitsValue(ds[..i + 1]), next);
    } else {
      assert ds[..i] == ds;
    }
  }

  /** `getLengthOfFile` rebuilds the sum of digit * 10^k over the bytes before the first
      `','`, as long as they are digits and the value fits an `int`. */
  lemma {:induction false} LengthOfDigitField(h: seq<Byte>, p: nat)
    requires p < |h| && h[p] == Separator && p <= 10
    requires forall k :: 0 <= k < p ==> 0 <= h[k] <= 9
    requires DigitsValue(h[..p]) <= MaxInt
    ensures GetLengthOfFile(h) == Some(DigitsValue(h[..p]))
  {
    Pow10Values();
    LengthLoopSumsDigits(h, h[..p], 0, 0, 1);
  }

  /** The length field round-trips for every length an `int` holds. */
  lemma {:induction false} LengthRoundTrip(n: nat, name: seq<JavaChar>)
    requires Fits(n, name) && n <= MaxInt
    ensures GetLengthOfFile(EncodeHeader(n, name)) == Some(n)
  {
    var ds := Digits(n);
    var frame := EncodeHeader(n, name);
    Pow10Values();
    if |ds| > 10 {
      Pow10Monotone(10, |ds| - 1);
    }
    LengthOfDigitField(frame, |ds|);
  }

  // ---------------------------------------------------------------------------
  // The name field, as the server reads it

  /** What `getFileName` skips when it scans backward from offset 1023. */
  const ScanSentinel: Byte := 0

  /** The backward scan: the largest index at or below `i` holding a non-zero byte, or -1. */
  function ScanBack(h: seq<Byte>, i: int): (r: int)
    requires -1 <= i < |h|
    ensures -1 <= r <= i
    ensures r >= 0 ==> h[r] != ScanSentinel
    ensures forall k :: r < k <= i ==> h[k] == ScanSentinel
    decreases i + 1
  {
    if i >= 0 && h[i] == ScanSentinel then ScanBack(h, i - 1) else i
  }

  /** The `StringBuffer` after the `for` loop: `(char) header[j]`, then `j - 1`, down to 0. */
  function CollectBackward(h: seq<Byte>, j: int): (cs: seq<JavaChar>)
    requires j < |h|
    ensures |cs| == if j < 0 then 0 else j + 1
    ensures forall k :: 0 <= k < |cs| ==> cs[k] == ByteToChar(h[j - k])
    decreases j + 1
  {
    if j < 0 then [] else [ByteToChar(h[j])] + CollectBackward(h, j - 1)
  }

  /** `StringBuffer.reverse`. */
  function Reverse<T>(s: seq<T>): (r: seq<T>)
    ensures |r| == |s|
    ensures forall k :: 0 <= k < |s| ==> r[k] == s[|s| - 1 - k]
  {
    if |s| == 0 then [] else Reverse(s[1..]) + [s[0]]
  }

  /** Bytes widened by `(char)`, one character each. */
  function Chars(bs: seq<Byte>): (cs: seq<JavaChar>)
    ensures |cs| == |bs|
    ensures forall k :: 0 <= k < |bs| ==> cs[k] == ByteToChar(bs[k])
  {
    seq(|bs|, k requires 0 <= k < |bs| => ByteToChar(bs[k]))
  }

  /** A name as the server reads it back: each character narrowed by `(byte)`, then
      widened by `(char)`. */
  function Echo(name: seq<JavaChar>): seq<JavaChar>
  {
    Chars(NameBytes(name))
  }

  predicate IsAscii(name: seq<JavaChar>)
  {
    forall k :: 0 <= k < |name| ==> name[k] as int < 128
  }

  lemma {:induction false} AsciiEchoes(name: seq<JavaChar>)
    requires IsAscii(name)
    ensures Echo(name) == name
  {
  }

  /** Collecting `header[i-1]` down to `header[0]` and reversing gives bytes `0..i-1` in order. */
  lemma {:induction false} ReversedCollection(h: seq<Byte>, i: int)
    requires -1 <= i < |h|
    ensures Reverse(CollectBackward(h, i - 1)) == Chars(h[..if i < 0 then 0 else i])
  {
    var c := CollectBackward(h, i - 1);
    var r := Reverse(c);
    var want := Chars(h[..if i < 0 then 0 else i]);
    assert |r| == |want|;
    forall k | 0 <= k < |r| ensures r[k] == want[k] {
      assert r[k] == c[|c| - 1 - k];
    }
  }

  /** `getFileName`: the trimmed text of the bytes before the last non-zero byte. */
  function GetFileName(h: seq<Byte>): (name: seq<JavaChar>)
    ensures var i := ScanBack(h, |h| - 1); name == Trim(Chars(h[..if i < 0 then 0 else i]))
    ensures name == [] || (!IsTrimmable(name[0]) && !IsTrimmable(name[|name| - 1]))
  {
    var i := ScanBack(h, |h| - 1);
    var collected := CollectBackward(h, i - 1);
    ReversedCollection(h, i);
    Trim(Reverse(collected))
  }

  /** The separator as the server reads it back, `(char) ','`. */
  const SeparatorChar: JavaChar := ','

  /** On a frame whose name leaves room for padding, the server's name is `','` followed by
      the name with its trailing blanks removed: the digits in front are trimmed away, the
      separator is not. */
  lemma {:induction false} GetFileNameOfEncoded(n: nat, name: seq<JavaChar>)
    requires |Digits(n)| + 1 + |name| < FrameSize
    ensures GetFileName(EncodeHeader(n, name)) == [SeparatorChar] + TrimEnd(Echo(name))
  {
    GetFileNameOfLayout(EncodeHeader(n, name), |Digits(n)|, name);
  }

  lemma {:induction false} GetFileNameOfLayout(f: seq<Byte>, d: nat, name: seq<JavaChar>)
    requires Layout(f, d, name) && d + 1 + |name| < FrameSize
    ensures GetFileName(f) == [SeparatorChar] + TrimEnd(Echo(name))
  {
    var cs := Chars(f[..FrameSize - 1]);
    assert GetFileName(f) == Trim(cs) by {
      assert f[FrameSize - 1] == Padding;
      assert ScanBack(f, FrameSize - 1) == FrameSize - 1;
    }
    NameTail(f, cs, d, name, FrameSize - 1);
  }

  /** On a frame the name fills to the last byte, that last character is lost as well. */
  lemma {:induction false} GetFileNameOfFullFrame(n: nat, name: seq<JavaChar>)
    requires |name| > 0 && |Digits(n)| + 1 + |name| == FrameSize
    requires CharToByte(name[|name| - 1]) != ScanSentinel
    ensures GetFileName(EncodeHeader(n, name)) == [SeparatorChar] + TrimEnd(Echo(name[..|name| - 1]))
  {
    GetFileNameOfFullLayout(EncodeHeader(n, name), |Digits(n)|, name);
  }

  lemma {:induction false} GetFileNameOfFullLayout(f: seq<Byte>, d: nat, name: seq<JavaChar>)
    requires Layout(f, d, name) && |name| > 0 && d + 1 + |name| == FrameSize
    requires CharToByte(name[|name| - 1]) != ScanSentinel
    ensures GetFileName(f) == [SeparatorChar] + TrimEnd(Echo(name[..|name| - 1]))
  {
    assert f[FrameSize - 1] == CharToByte(name[|name| - 1]);
    assert ScanBack(f, FrameSize - 1) == FrameSize - 1;
    var cs := Chars(f[..FrameSize - 1]);
    NameTail(f, cs, d, name[..|name| - 1], FrameSize - 1);
  }

  /** Trimming the characters of `f[..end]`, where `f` holds digits up to `d`, the separator
      at `d`, then `name`, then only padding up to `end`. */
  lemma {:induction false} NameTail(f: seq<Byte>, cs: seq<JavaChar>, d: nat, name: seq<JavaChar>, end: nat)
    requires d + 1 + |name| <= end <= |f| && cs == Chars(f[..end])
    requires forall k :: 0 <= k < d ==> 0 <= f[k] <= 9
    requires f[d] == Separator
    requires forall k :: 0 <= k < |name| ==> f[d + 1 + k] == CharToByte(name[k])
    requires forall k :: d + 1 + |name| <= k < end ==> f[k] == Padding
    ensures Trim(cs) == [SeparatorChar] + TrimEnd(Echo(name))
  {
    var m := |name|;
    var blank := cs[..d];
    var e := cs[d + 1..d + 1 + m];
    var pad := cs[d + 1 + m..];
    assert cs == blank + [cs[d]] + e + pad;
    assert forall k :: 0 <= k < |blank| ==> IsTrimmable(blank[k]) by {
      forall k | 0 <= k < |blank| ensures IsTrimmable(blank[k]) {
        assert blank[k] == ByteToChar(f[k]);
      }
    }
    assert forall k :: 0 <= k < |pad| ==> IsTrimmable(pad[k]) by {
      forall k | 0 <= k < |pad| ensures IsTrimmable(pad[k]) {
        assert pad[k] == ByteToChar(f[d + 1 + m + k]);
      }
    }
    assert e == Echo(name) by {
      forall k | 0 <= k < m ensures e[k] == Echo(name)[k] {
        assert e[k] == ByteToChar(f[d + 1 + k]);
      }
    }
    assert cs[d] == ',' by {
      assert cs[d] == ByteToChar(f[d]);
    }
    TrimAroundField(blank, ',', e, pad);
  }

  /** For an ASCII name ending in a printable character, as every ordinary file name does,
      the server's name is the name with `','` in front: `test.txt` is saved as `,test.txt`. */
  lemma {:induction false} GetFileNameKeepsSeparator(n: nat, name: seq<JavaChar>)
    requires |Digits(n)| + 1 + |name| < FrameSize && IsAscii(name)
    requires name != [] && !IsTrimmable(name[|name| - 1])
    ensures GetFileName(EncodeHeader(n, name)) == [SeparatorChar] + name
  {
    GetFileNameOfEncoded(n, name);
    AsciiEchoes(name);
  }

  // ---------------------------------------------------------------------------
  // The decoding the layout calls for

  /** The first `','` at or after `i`. */
  function SeparatorFrom(h: seq<Byte>, i: nat): (r: Option<nat>)
    requires i <= |h|
    ensures r.None? <==> forall k :: i <= k < |h| ==> h[k] != Separator
    ensures r.Some? ==> i <= r.value < |h| && h[r.value] == Separator
    ensures r.Some? ==> forall k :: i <= k < r.value ==> h[k] != Separator
    decreases |h| - i
  {
    if i == |h| then None
    else if h[i] == Separator then Some(i)
    else SeparatorFrom(h, i + 1)
  }

  /** The bytes before the trailing run of padding. */
  function StripPadding(bs: seq<Byte>): (r: seq<Byte>)
    ensures |r| <= |bs| && r == bs[..|r|]
    ensures r == [] || r[|r| - 1] != Padding
    ensures forall k :: |r| <= k < |bs| ==> bs[k] == Padding
  {
    if |bs| > 0 && bs[|bs| - 1] == Padding then StripPadding(bs[..|bs| - 1]) else bs
  }

  lemma {:induction false} StripPaddingOf(a: seq<Byte>, pad: seq<Byte>)
    requires a == [] || a[|a| - 1] != Padding
    requires forall k :: 0 <= k < |pad| ==> pad[k] == Padding
    ensures StripPadding(a + pad) == a
  {
    var t := a + pad;
    var r := StripPadding(t);
    if |a| > 0 {
      assert t[|a| - 1] == a[|a| - 1];
    }
    if |r| > |a| {
      assert t[|r| - 1] == pad[|r| - 1 - |a|];
    }
    assert r == t[..|r|];
  }

  /** The name is the text between the first separator and the padding. */
  function DecodeName(h: seq<Byte>): (r: Option<seq<JavaChar>>)
    ensures r.None? <==> Separator !in h
  {
    match SeparatorFrom(h, 0)
    case None => None
    case Some(p) => Some(Chars(StripPadding(h[p + 1..])))
  }

  datatype Header = Header(length: int, name: seq<JavaChar>)

  /** A frame without any `','` is a framing error. */
  function DecodeHeader(h: seq<Byte>): (r: Option<Header>)
    ensures r.None? <==> Separator !in h
    ensures r.Some? ==> GetLengthOfFile(h) == Some(r.value.length) && DecodeName(h) == Some(r.value.name)
  {
    match GetLengthOfFile(h)
    case None => None
    case Some(length) => Some(Header(length, DecodeName(h).value))
  }

  /** The name field round-trips up to the byte casts, unless the name's last byte is a space. */
  lemma {:induction false} DecodeNameOfEncoded(n: nat, name: seq<JavaChar>)
    requires Fits(n, name)
    requires name == [] || CharToByte(name[|name| - 1]) != Padding
    ensures DecodeName(EncodeHeader(n, name)) == Some(Echo(name))
  {
    DecodeNameOfLayout(EncodeHeader(n, name), |Digits(n)|, name);
  }

  lemma {:induction false} DecodeNameOfLayout(f: seq<Byte>, d: nat, name: seq<JavaChar>)
    requires Layout(f, d, name)
    requires name == [] || CharToByte(name[|name| - 1]) != Padding
    ensures DecodeName(f) == Some(Echo(name))
  {
    assert SeparatorFrom(f, 0) == Some(d) by {
      assert forall k :: 0 <= k < d ==> f[k] != Separator;
    }
    var nb := NameBytes(name);
    var pad := f[d + 1 + |name|..];
    assert f[d + 1..] == nb + pad by {
      forall k | 0 <= k < |f| - d - 1 ensures f[d + 1..][k] == (nb + pad)[k] {
        if k < |name| {
          assert f[d + 1 + k] == nb[k];
        } else {
          assert pad[k - |name|] == f[d + 1 + k];
        }
      }
    }
    assert forall k :: 0 <= k < |pad| ==> pad[k] == Padding by {
      forall k | 0 <= k < |pad| ensures pad[k] == Padding {
        assert pad[k] == f[d + 1 + |name| + k];
      }
    }
    StripPaddingOf(nb, pad);
  }

  /** Header round trip: any `int` length and any ASCII name not ending in a space. */
  lemma {:induction false} DecodeHeaderRoundTrip(n: nat, name: seq<JavaChar>)
    requires Fits(n, name) && n <= MaxInt && IsAscii(name)
    requires name == [] || name[|name| - 1] != ' '
    ensures DecodeHeader(EncodeHeader(n, name)) == Some(Header(n, name))
  {
    LengthRoundTrip(n, name);
    DecodeNameOfEncoded(n, name);
    AsciiEchoes(name);
  }
}
