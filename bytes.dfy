/** Unsigned 8-bit values and the C# operations on them that the LZ65 codec uses. */
module Bytes {

  /** A C# `byte`. Kept as a subset of `int` so that index arithmetic stays in `int`. */
  type byte = b: int | 0 <= b < 256

  /** The C# conversion `(byte)x`: only the low eight bits survive, so -1 becomes 255 and 256 becomes 0. */
  function ToByte(x: int): (b: byte)
    ensures 0 <= x < 256 ==> b == x
    ensures x == 256 ==> b == 0
    ensures x == -1 ==> b == 255
    ensures (x - b) % 256 == 0
  {
    x % 256
  }

  /** A byte whose low six bits are clear: 0x00, 0x40, 0x80 or 0xC0. */
  predicate IsHigh(h: byte) {
    h == 0x00 || h == 0x40 || h == 0x80 || h == 0xC0
  }

  /** `x & 0xC0`: the top two bits of a byte, in place. */
  function HighBits(x: byte): (h: byte)
    ensures IsHigh(h) && h <= x < h + 64
  {
    if x < 64 then 0 else 64 + HighBits(x - 64)
  }

  /** `x & 0x3F`: the low six bits of a byte. */
  function LowBits(x: byte): (l: byte)
    ensures l < 64 && HighBits(x) + l == x
  {
    if x < 64 then x else LowBits(x - 64)
  }

  /** `f | g` for two bytes whose low six bits are clear. */
  function OrHighs(f: byte, g: byte): (h: byte)
    requires IsHigh(f) && IsHigh(g)
    ensures IsHigh(h)
    ensures h == 0 <==> f == 0 && g == 0
  {
    if f == g then f
    else if f == 0x00 then g
    else if g == 0x00 then f
    else 0xC0
  }

  /** `f | x` for a byte `f` whose low six bits are clear: the low six bits are those of `x`. */
  function OrHigh(f: byte, x: byte): (r: byte)
    requires IsHigh(f)
    ensures LowBits(r) == LowBits(x)
    ensures HighBits(r) == OrHighs(f, HighBits(x))
  {
    OrHighs(f, HighBits(x)) + LowBits(x)
  }
}
