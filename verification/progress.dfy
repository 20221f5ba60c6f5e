/** The client's progress-bar percentage, `ProgressPanel.updateProgressBar`. */
module Progress {
  import opened JavaInts

  /** Lengths for which `bytesUploaded * 100` cannot overflow a `long`. */
  const MaxTracked: int := MaxLong / 100

  /** 100 when the counts agree; otherwise `(int) ((bytesUploaded * 100) / fileLength)` in
      `long` arithmetic. Dividing by a zero length throws, so callers never do. */
  function Percentage(bytesUploaded: int, fileLength: int): (p: int)
    requires IsLong(bytesUploaded) && IsLong(fileLength)
    requires bytesUploaded == fileLength || fileLength != 0
    ensures bytesUploaded == fileLength ==> p == 100
    ensures 0 <= bytesUploaded < fileLength <= MaxTracked ==>
      0 <= p < 100 && p * fileLength <= bytesUploaded * 100 < (p + 1) * fileLength
  {
    if bytesUploaded == fileLength then 100
    else
      var q := JavaDiv(Int64(bytesUploaded * 100), fileLength);
      if 0 <= bytesUploaded < fileLength <= MaxTracked then
        FloorBelow100(bytesUploaded, fileLength);
        Int32(q)
      else Int32(q)
  }

  lemma {:induction false} FloorBelow100(b: int, len: int)
    requires 0 <= b < len <= MaxTracked
    ensures 0 <= (b * 100) / len < 100
    ensures ((b * 100) / len) * len <= b * 100 < ((b * 100) / len + 1) * len
  {
    var x := b * 100;
    var q := x / len;
    var r := x % len;
    assert x == q * len + r && 0 <= r < len;
    assert (q + 1) * len == q * len + len;
    assert x < 100 * len by {
      MulRight(b + 1, len, 100);
    }
    if q >= 100 {
      MulRight(100, q, len);
    }
    if q < 0 {
      MulRight(q, -1, len);
    }
  }

  lemma {:induction false} MulRight(a: int, b: int, c: int)
    requires a <= b && 0 <= c
    ensures a * c <= b * c
  {
  }

  /** The bar never moves back while the count grows up to the file length. */
  lemma {:induction false} PercentageMonotone(a: int, b: int, len: int)
    requires 0 <= a <= b <= len && 0 < len <= MaxTracked
    ensures Percentage(a, len) <= Percentage(b, len)
  {
    var pa := Percentage(a, len);
    var pb := Percentage(b, len);
    if b < len {
      MulRight(a, b, 100);
      if pa > pb {
        MulRight(pb + 1, pa, len);
      }
    }
  }

  /** 100 is shown exactly when the whole file has been counted. */
  lemma {:induction false} FullExactlyAtEnd(b: int, len: int)
    requires 0 <= b <= len && 0 < len <= MaxTracked
    ensures Percentage(b, len) == 100 <==> b == len
  {
  }
}
