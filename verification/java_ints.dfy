/**
 Java's fixed-width primitive values, written out over Dafny's unbounded integers:
 the signed `byte`, the 16-bit `char`, `int`/`long` wrap-around, truncating division
 and the two narrowing casts the protocol performs on file names.
 */
module JavaInts {

  /** A Java `byte`: a signed 8-bit value. */
  type Byte = b: int | -128 <= b < 128

  /** A Java `char`: one UTF-16 code unit. Surrogate code units have no Dafny `char`. */
  type JavaChar = c: char | c as int < 0x1_0000 witness 'a'

  const MinInt: int := -0x8000_0000
  const MaxInt: int := 0x7fff_ffff
  const MinLong: int := -0x8000_0000_0000_0000
  const MaxLong: int := 0x7fff_ffff_ffff_ffff

  predicate IsInt(x: int) {
    MinInt <= x <= MaxInt
  }

  predicate IsLong(x: int) {
    MinLong <= x <= MaxLong
  }

  /** The value Java `int` arithmetic produces for the exact result `x`. */
  function Int32(x: int): (r: int)
    ensures IsInt(r)
    ensures (r - x) % 0x1_0000_0000 == 0
    ensures IsInt(x) ==> r == x
  {
    (x - MinInt) % 0x1_0000_0000 + MinInt
  }

  /** The value Java `long` arithmetic produces for the exact result `x`. */
  function Int64(x: int): (r: int)
    ensures IsLong(r)
    ensures (r - x) % 0x1_0000_0000_0000_0000 == 0
    ensures IsLong(x) ==> r == x
  {
    (x - MinLong) % 0x1_0000_0000_0000_0000 + MinLong
  }

  function Abs(x: int): nat {
    if x < 0 then -x else x
  }

  /** Java's integer `/`, which truncates toward zero. */
  function JavaDiv(a: int, b: int): (q: int)
    requires b != 0
    ensures 0 <= a && 0 < b ==> q == a / b
    ensures a <= 0 && 0 < b ==> q == -((-a) / b)
    ensures 0 <= a && b < 0 ==> q == -(a / (-b))
    ensures a <= 0 && b < 0 ==> q == (-a) / (-b)
  {
    if (a < 0) == (b < 0) then Abs(a) / Abs(b) else -(Abs(a) / Abs(b))
  }

  /** Java's `(byte) c`: the low eight bits of the code unit, read as two's complement. */
  function CharToByte(c: JavaChar): (b: Byte)
    ensures (b - c as int) % 256 == 0
    ensures c as int < 128 ==> b == c as int
  {
    var low := (c as int) % 256;
    if low < 128 then low else low - 256
  }

  /** Java's `(char) b` for a byte: sign extension to sixteen bits. */
  function ByteToChar(b: Byte): (c: JavaChar)
    ensures (c as int - b) % 0x1_0000 == 0
    ensures 0 <= b ==> c as int == b
  {
    (if b < 0 then b + 0x1_0000 else b) as char
  }
}
