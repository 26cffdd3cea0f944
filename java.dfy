/** The Java integer widths and narrowing casts the wrapper depends on. */
module Java {

  /** An unsigned byte value. */
  type Byte = b: int | 0 <= b < 256

  const IntegerMaxValue: int := 0x7fff_ffff
  const IntegerMinValue: int := -0x8000_0000

  /** Values of Java's `int`. */
  type Int32 = x: int | -0x8000_0000 <= x <= 0x7fff_ffff

  /** Values of Java's `long`. */
  type Int64 = x: int | -0x8000_0000_0000_0000 <= x <= 0x7fff_ffff_ffff_ffff

  /** Java's `(int)` cast of a `long`: keeps the low 32 bits, read in two's complement. */
  function ToInt32(x: Int64): (r: Int32)
    ensures IntegerMinValue <= x <= IntegerMaxValue ==> r == x
    ensures (x - r) % 0x1_0000_0000 == 0
  {
    var low := x % 0x1_0000_0000;
    if low <= IntegerMaxValue then low else low - 0x1_0000_0000
  }

  /** Java's `(byte)` cast of an `int`, as an unsigned byte: the low 8 bits. */
  function LowByte(x: Int32): (r: Byte)
    ensures 0 <= x < 256 ==> r == x
    ensures (x - r) % 256 == 0
  {
    x % 256
  }
}
