/** The RESP reply value, the failures a connection reports, and the wire form of a reply. */
module Resp {
  import opened Bytes
  import opened Decimal

  /** One decoded reply. The protocol's null bulk string (`$-1`) and null array (`*-1`)
      both decode to the same nil value. */
  datatype Reply =
    | SimpleString(text: seq<byte>)
    | ErrorReply(message: seq<byte>)
    | Integer(value: int64)
    | Bulk(data: seq<byte>)
    | Nil
    | Array(elements: seq<Reply>)

  /** Why an operation on a connection did not produce a value. */
  datatype Failure =
    | UnexpectedEof            // the stream ended inside a reply
    | BadLineTerminator        // a line ends in '\n' without the '\r' before it
    | ShortLine                // a line with no type byte
    | BadInteger               // the text after ':' is not a 64-bit decimal integer
    | BadLength                // the length after '$' or '*' is not a decimal number >= -1
    | BadBulkTerminator        // the bytes of a bulk string are not followed by "\r\n"
    | UnknownType(tag: byte)   // the leading byte is none of + - : $ *
    | ServerError(message: seq<byte>)  // the server answered with an error reply
    | Closed                   // the connection was closed

  /** The replies that have a wire form: a line of text cannot hold a '\n', and a length
      or count must fit in a 64-bit integer. */
  predicate WellFormed(r: Reply) {
    match r
    case SimpleString(t) => LF !in t
    case ErrorReply(m) => LF !in m
    case Integer(_) => true
    case Bulk(d) => |d| <= MaxInt64
    case Nil => true
    case Array(es) => |es| <= MaxInt64 && forall i :: 0 <= i < |es| ==> WellFormed(es[i])
  }

  predicate AllWellFormed(rs: seq<Reply>) {
    forall i :: 0 <= i < |rs| ==> WellFormed(rs[i])
  }

  /** A type byte, the text of the line, and the terminator. */
  function Line(tag: byte, text: seq<byte>): seq<byte> {
    [tag] + text + CRLF
  }

  /** A bulk string: its length line, its bytes, and the terminator. */
  function BulkFrame(d: seq<byte>): seq<byte> {
    Line(DOLLAR, Format(|d|)) + d + CRLF
  }

  /** The canonical bytes a server sends for a reply. */
  function EncodeReply(r: Reply): seq<byte>
    decreases r, 1
  {
    match r
    case SimpleString(t) => Line(PLUS, t)
    case ErrorReply(m) => Line(MINUS, m)
    case Integer(v) => Line(COLON, Format(v))
    case Bulk(d) => BulkFrame(d)
    case Nil => Line(DOLLAR, Format(-1))
    case Array(es) => Line(STAR, Format(|es|)) + EncodeAll(es)
  }

  /** The replies one after the other, as they arrive on a pipelined connection. */
  function EncodeAll(rs: seq<Reply>): seq<byte>
    decreases rs, 0
  {
    if |rs| == 0 then [] else EncodeReply(rs[0]) + EncodeAll(rs[1..])
  }
}
