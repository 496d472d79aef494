/** C's sizes and strings. */
module CTypes {

  /** One more than the largest size_t. */
  const SIZE_T: int := 0x1_0000_0000_0000_0000

  type Byte = x: int | 0 <= x < 256

  /** A byte of a C string: its terminator is not one of them. */
  type StringByte = x: int | 1 <= x < 256 witness 1

  type CString = seq<StringByte>

  /** The string as it lies in memory. */
  function WithTerminator(str: CString): seq<Byte> {
    var bytes: seq<Byte> := str;
    bytes + [0]
  }

  /** The sum of two size_t values. */
  function Add(a: int, b: int): int {
    if a + b < SIZE_T then a + b else a + b - SIZE_T
  }
}
