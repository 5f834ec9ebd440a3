/** Bytes on the wire and the ASCII bytes that RESP gives a meaning to. */
module Bytes {

  newtype byte = b: int | 0 <= b < 256

  const CR: byte := 0x0D      // '\r'
  const LF: byte := 0x0A      // '\n'
  const PLUS: byte := 0x2B    // '+', simple string
  const MINUS: byte := 0x2D   // '-', error reply, and the sign of a negative number
  const COLON: byte := 0x3A   // ':', integer
  const DOLLAR: byte := 0x24  // '$', bulk string
  const STAR: byte := 0x2A    // '*', array
  const ZERO: byte := 0x30    // '0'

  /** The line terminator of every RESP line. */
  const CRLF: seq<byte> := [CR, LF]

  /** The bytes of a string, one per character: the character code modulo 256, which is
      the code itself for the ASCII text of the wire examples. */
  function Ascii(s: string): (r: seq<byte>)
    ensures |r| == |s|
  {
    seq(|s|, i requires 0 <= i < |s| => (s[i] as int % 256) as byte)
  }
}
