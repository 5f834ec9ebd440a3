# A verified model of redigo's RESP client codec

redigo is a Go client for Redis. Its connection speaks RESP, the REdis Serialization
Protocol (version 2). `Send` writes a command as a RESP array of bulk strings, and leaves
it in a buffered writer until the caller calls `Flush`. `Receive` reads exactly one reply
from a buffered reader. A reply is one of these:

- a simple string (`+`);
- an error (`-`);
- an integer (`:`);
- a bulk string (`$`) or nil;
- an array (`*`) of further replies, or nil.

Pipelining means several `Send`s followed by as many `Receive`s. The replies then come
back in the order the commands were sent.

This project models that codec in Dafny and proves properties of the model. It has these
parts:

- **Data**:
  - `Resp.Reply` is the reply value.
  - `Resp.Failure` lists the ways an operation can fail.
  - `Encoder.Arg` is a command argument: a string, a byte slice, an integer or nil.
  - `Resp.EncodeReply` is the canonical wire form of a reply.
- **Decoding**: `Decoder.Decode` is a pure function from the unread input to the reply at
  its front and the bytes after it. Integer and length lines are read with the semantics
  of Go's `strconv.ParseInt(s, 10, 64)`, in `Decimal.Parse`.
- **Encoding**: `Encoder.EncodeCommand` gives the bytes `Send` writes for a command.
- **Framing**: a reply's bytes decide its decoding on their own (module `Framing`). Bytes
  after a reply never change it, whatever its framing, and an array's elements may each
  use any framing. A reply's canonical wire form cut short is an early end of input, and
  a bulk string whose canonical `$n` header is not followed by n bytes and CRLF is
  rejected.
- **The connection**: `Connection.Conn` is a class with these fields:
  - `pending`: the buffered output;
  - `wire`: what has been flushed;
  - `input`: what the server sends;
  - `cursor`: a read position into `input`;
  - `failure`: the failure that made the connection unusable, if any.

  Its methods are `Send`, `Flush`, `Receive`, `Do` and `Close`. They update these fields
  in place. `SendAll`, `ReceiveAll` and `Pipeline` are the loops of a pipelining client.
- **Proofs**:
  - decoding undoes encoding for every well-formed reply, whatever bytes follow it;
  - an encoded command decodes back to the array of its name and its arguments;
  - replies are received in FIFO order, whatever well-formed framing each reply arrives in
    (a `*-1`, a `+` sign or leading zeros in a length included), not only the canonical one;
  - every byte-level example of the send and receive test tables holds (module `Vectors`).

How the model reads the behaviour of the package:

- `Receive` flushes the buffered output before it reads. The receive test gives the
  connection a writer only so that it can be flushed (redis/conn_test.go:119). The
  pipelining test issues no `Flush` between its `Send`s and its `Receive`s
  (redis/conn_test.go:265-281).
- RESP v2 has two different nil replies: `$-1` (null bulk string) and `*-1` (null array).
  The model decodes both to one and the same `Nil`, because the receive test expects Go
  `nil` for both (redis/conn_test.go:89-92 and 101-104).
- A server error reply (`-`) is consumed, and `Receive` returns it as
  `Err(ServerError(message))`. The connection stays usable.
- Any other failure is fatal: a framing error, a truncated stream, or `Close`. It is
  stored in `failure`, and every later operation returns it. A second `Close` therefore
  fails.
- A length or count below -1 is a framing error (`BadLength`).

## Model

| member | source | states |
|---|---|---|
| Decimal.Digits | redis/conn_test.go:39-42 | the digits of a natural number are a non-empty run of decimal digits with no leading zero |
| Decimal.Format | redis/conn_test.go:39-42 | the decimal text of an integer is never empty and holds no CR or LF, so it fits in one RESP line |
| Decimal.Parse | redis/conn_test.go:93-96 | text is accepted only if it is an optional sign followed by at least one digit and nothing else; the value lies in the int64 range (its type) |
| Decimal.ValueOfDigits | redis/conn_test.go:39-42 | reading back the shortest decimal digits of a natural number gives that number |
| Decimal.ParseFormat | redis/conn_test.go:39-42 | parsing the decimal text of any int64 gives it back, which is why integer arguments and `:` replies survive the wire |
| Decoder.FindLF | redis/conn_test.go:77-80 | the position found is the first LF in the input, or the end when there is none |
| Decoder.ReadLine | redis/conn_test.go:77-80 | a line that is read leaves the input as text + CRLF + rest, with no LF in the text; the read ends early exactly when the input holds no LF, and fails with a bad terminator exactly when the first LF has no CR before it |
| Decoder.ParseLength | redis/conn_test.go:89-92 | a length or count that is accepted is -1 (nil) or between 0 and MaxInt64 |
| Decoder.DecodeBulk | redis/conn_test.go:85-92 | a bulk body consumes only a prefix of the input and yields a well-formed reply |
| Decoder.Decode | redis/conn_test.go:115-122 | one decoded reply consumes at least one byte, leaves a proper suffix of the input, and is well-formed |
| Decoder.DecodeBody | redis/conn_test.go:77-112 | dispatching on the type byte consumes only a prefix of what follows the header line, and yields a well-formed reply |
| Decoder.DecodeElements | redis/conn_test.go:105-112 | decoding n elements gives exactly n well-formed replies and leaves a suffix of the input |
| RoundTrip.ReadLineFrame | redis/conn_test.go:77-80 | a line is read up to its own CRLF and no further |
| RoundTrip.DecodeTaggedLine | redis/conn_test.go:77-84 | after a framed header line, decoding continues with the type byte and the line's text |
| RoundTrip.DecodeEncodeLine | redis/conn_test.go:77-80 | a `+` or `-` line decodes to a simple string or an error reply holding its text, and the rest is left unread |
| RoundTrip.DecodeEncodeInteger | redis/conn_test.go:93-96 | a `:` line holding the decimal text of v decodes to the integer v |
| RoundTrip.DecodeEncodeBulk | redis/conn_test.go:85-88 | a `$n` frame decodes to exactly its n bytes, and the bytes after its trailer are left unread |
| RoundTrip.DecodeEncodeNil | redis/conn_test.go:89-92 | `$-1` decodes to nil |
| RoundTrip.DecodeArrayBody | redis/conn_test.go:97-100 | an array header with count n, followed by n decoded elements, gives the array of those elements |
| RoundTrip.DecodeEncodeArray | redis/conn_test.go:105-112 | an array's wire form decodes to the same array, with its elements in order |
| RoundTrip.DecodeEncode | redis/conn_test.go:77-112 | every well-formed reply decodes from its wire form to itself, and whatever follows is left unread |
| RoundTrip.DecodeEncodeAll | redis/conn_test.go:105-112 | replies written back to back are decoded as exactly those replies, in order |
| RoundTrip.DecodeNext | redis/conn_test.go:272-281 | FIFO over canonical wire forms (the special case of Framing.FrameNext): when the unread input holds replies i, i+1, ... one decode yields reply i and leaves replies i+1, ... unread |
| RoundTrip.DecodeWire | redis/conn_test.go:115-122 | a reply that is the whole input decodes to itself with nothing left over |
| RoundTrip.DecodeUnknownType | redis/conn_test.go:81-84 | a line whose type byte is none of + - : $ * is an UnknownType error for that byte |
| RoundTrip.DecodeNullArray | redis/conn_test.go:101-104 | `*-1` decodes to nil |
| Encoder.ArgBytes | redis/conn_test.go:39-50 | an integer argument is sent as text that parses back to it; a nil argument is sent as no bytes |
| Encoder.AppendArg | redis/conn_test.go:31-38 | writing one more argument's bulk string after the buffered bytes extends the encoding by that argument |
| Encoder.AppendCommand | redis/conn_test.go:265-271 | sending one more command after the buffered bytes extends the pipeline's bytes by that command |
| Encoder.EncodeArgs | redis/conn_test.go:31-50 | the arguments' bytes are the wire forms of their bulk strings, one after the other and in order |
| Encoder.EncodeCommandIsArray | redis/conn_test.go:31-50 | the bytes of `Encoder.EncodeCommand` for a name and its arguments are exactly the wire form of the array of bulk strings of the name and the arguments |
| Encoder.EncodeCommands | redis/conn_test.go:265-271 | what a pipeline of Sends writes is the wire forms of the commands' arrays, back to back and in send order |
| Encoder.DecodeEncodedCommand | redis/conn_test.go:31-50 | decoding an encoded command gives an array of argc+1 bulk strings: the name, then each argument's bytes in order; exactly the command's bytes are consumed |
| Connection.Surface | redis/conn_test.go:123-135 | Receive returns an error exactly when the reply is a server error reply, carrying its message; any other reply is returned as it is |
| Connection.WriteArgs | redis/conn_test.go:31-50 | writing the arguments one by one appends exactly their encoding |
| Connection.Conn.constructor | redis/conn_test.go:117-121 | a new connection has empty output, reads the given input from the start, and has not failed |
| Connection.Conn.Send | redis/conn_test.go:55-62 | Send succeeds and appends the encoded command to the buffered output; it flushes nothing, and it moves neither the wire nor the read position; on a failed connection it returns the stored failure and changes nothing |
| Connection.Conn.Flush | redis/conn_test.go:63-64 | Flush moves the buffered output onto the wire, after what was already there, and empties the buffer |
| Connection.Conn.Receive | redis/conn_test.go:117-122 | Receive flushes, then decodes one reply at the cursor. On success it consumes exactly that reply's bytes and returns it through Surface. On a framing failure it returns the failure and stores it. On a failed connection it changes nothing |
| Connection.Conn.Do | redis/conn_test.go:247 | Do writes the command and flushes, then receives as Receive does |
| Connection.Conn.Close | redis/conn_test.go:152 | Close marks the connection closed; closing again, or any later operation, fails. Buffers and read position are untouched |
| Connection.SendAll | redis/conn_test.go:265-271 | sending every command in turn buffers the concatenation of their encodings, in order, and flushes nothing; on a failed connection nothing is buffered |
| Connection.ReceiveNext | redis/conn_test.go:272-281 | one Receive when the unread input holds the frames of replies i, i+1, ...: it returns reply i through Surface and leaves frames i+1, ... unread; on a failed connection it returns the stored failure and moves nothing |
| Connection.ReceiveAll | redis/conn_test.go:272-281 | receiving n times over n frames returns their replies in send order, each through Surface, and consumes exactly their bytes; on a failed connection every result is the stored failure and nothing changes |
| Connection.Pipeline | redis/conn_test.go:258-281 | n Sends then n Receives put exactly the n encoded commands on the wire (no commands: buffers untouched), and return the replies of the n frames in the order the commands were sent; on a failed connection every result is the stored failure and nothing changes |
| Connection.PipelineEncoded | redis/conn_test.go:258-281 | the same wire, failure and send-order guarantees as Pipeline, when the replies arrive in their canonical wire forms |
| Connection.SendAndFlush | redis/conn_test.go:53-69 | what a fresh connection writes for a Send followed by a Flush is exactly the encoded command |
| Connection.ReceiveFrom | redis/conn_test.go:115-137 | one Receive on a connection over the given bytes returns what decoding them gives, through Surface, or the decoding failure |
| Framing.ReadLineAppend | redis/conn_test.go:77-80 | a line read from the input is read the same way whatever is appended to the input |
| Framing.DecodeBulkAppend | redis/conn_test.go:85-92 | a bulk body decodes the same way whatever is appended to the input |
| Framing.DecodeAppend | redis/conn_test.go:272-281 | a decoded reply, and the bytes left after it, are the same whatever is appended to the input |
| Framing.DecodeBodyAppend | redis/conn_test.go:77-112 | the same for the body after a header line, of any type |
| Framing.DecodeElementsAppend | redis/conn_test.go:105-112 | the same for the n elements of an array |
| Framing.FrameNext | redis/conn_test.go:272-281 | FIFO: when the unread input holds frames i, i+1, ..., one decode yields the reply of frame i and leaves frames i+1, ... unread |
| Framing.ElementsOfFrames | redis/conn_test.go:105-112 | n frames one after the other decode as n elements, giving exactly their replies and leaving the rest, whatever framing each element uses (a `*-1` nil element included) |
| Framing.ArrayOfFrames | redis/conn_test.go:101-112 | an array header with count n followed by n frames decodes to the array of their replies, nested arrays and nil arrays as elements included |
| Framing.WireFramesAreFrames | redis/conn_test.go:272-281 | the canonical wire forms of well-formed replies are frames of those replies, and together they are the replies written back to back |
| Framing.NoLineEof | redis/conn_test.go:77-80 | input with no line terminator at all is an early end of input |
| Framing.HeaderCut | redis/conn_test.go:77-112 | a header line cut before its LF is an early end of input, whatever was to follow it |
| Framing.LineTruncated | redis/conn_test.go:77-96 | a one-line reply cut short is an early end of input |
| Framing.BulkTruncated | redis/conn_test.go:85-88 | a bulk string cut short, in its header, its bytes or its trailer, is an early end of input |
| Framing.ArrayTruncated | redis/conn_test.go:97-112 | an array cut short is an early end of input |
| Framing.DecodeTruncated | redis/conn_test.go:77-112 | every proper prefix of a well-formed reply's wire form is an early end of input, never a value |
| Framing.DecodeAllTruncated | redis/conn_test.go:105-112 | n replies written back to back and cut short are an early end of input while reading the n elements |
| Framing.BulkBadTerminator | redis/conn_test.go:85-88 | a `$n` header whose n bytes are not followed by CRLF is an error: an early end of input, or a bad terminator |
| Vectors.SendSetFooBar | redis/conn_test.go:31-38 | `SET foo bar` is written as `*3\r\n$3\r\nSET\r\n$3\r\nfoo\r\n$3\r\nbar\r\n` |
| Vectors.SendSetFooInteger | redis/conn_test.go:39-42 | `SET foo 100` with an integer argument is written as `...$3\r\n100\r\n` |
| Vectors.SendEmptyString | redis/conn_test.go:43-46 | an empty-string argument is written as `$0\r\n\r\n` and a byte slice verbatim |
| Vectors.SendNil | redis/conn_test.go:47-50 | a nil argument is written as `$0\r\n\r\n`, with the same bytes as the empty string |
| Vectors.ReceiveSimpleString | redis/conn_test.go:77-80 | `+OK\r\n` decodes to the simple string OK |
| Vectors.ReceiveUnknownType | redis/conn_test.go:81-84 | `@OK\r\n` is an error, not a value |
| Vectors.ReceiveBulk | redis/conn_test.go:85-88 | `$6\r\nfoobar\r\n` decodes to the bytes foobar |
| Vectors.ReceiveNullBulk | redis/conn_test.go:89-92 | `$-1\r\n` decodes to nil |
| Vectors.ReceiveInteger | redis/conn_test.go:93-96 | `:1\r\n` decodes to the integer 1 |
| Vectors.ReceiveEmptyArray | redis/conn_test.go:97-100 | `*0\r\n` decodes to the empty array |
| Vectors.ReceiveNullArray | redis/conn_test.go:101-104 | `*-1\r\n` decodes to nil |
| Vectors.ReceiveArray | redis/conn_test.go:105-108 | the `*4` reply decodes to the four bulk strings foo, bar, Hello, World, in order |
| Vectors.ReceiveArrayWithNil | redis/conn_test.go:109-112 | the `*3` reply decodes to foo, nil, bar, in order |
| Vectors.ReceiveNestedArray | redis/conn_test.go:231-235 | the EXEC reply decodes to an array holding the array [bar, foo] and the status PONG |

## Left out

- Dialing a server over TCP, and the `SELECT 9` / `DBSIZE` / `FLUSHDB` set-up and
  tear-down around the live tests (redis/conn_test.go:139-176). These are networking and
  server state. The connection is modelled over in-memory byte sequences: `input` is
  fixed when the connection is created, and `wire` collects what is flushed.
- What the server replies and why: INCR counters, list lengths, MULTI/QUEUED/EXEC
  transactions (redis/conn_test.go:178-237). Only how those replies are framed is
  modelled, and the EXEC reply is one of the decoding examples. `Do`'s contract is
  stated for any input, not for a particular server.
- `redis.Int` and the other reply-conversion helpers. Their source is not part of this
  model.
- The connection's own source (conn.go, reply.go) is not part of this model. Its
  behaviour is inferred from the tests that drive it and from the RESP v2 framing they
  check.
- The internals of `bufio`, `bytes.Buffer` and `strings.Reader`. The buffer, the wire and
  the input are sequences of bytes. On the read side, a blocking read and a transport
  error both reduce to the end of the input (`UnexpectedEof`). `reflect.DeepEqual` becomes structural equality on
  `Reply`.
- A reply's Go value types. A simple string and a bulk string are both byte sequences
  here, tagged by the `Reply` constructor, where the tests compare a Go `string` and a
  Go `[]byte`.
- The limit on the length of one line that `bufio.Reader` imposes. The model reads lines
  of any length.
- Float and boolean arguments, and the encoding error for argument types that cannot be
  written. `Encoder.Arg` has only the four kinds the tests send, and each of them can be
  written.
- Write failures: `Send` and `Flush` never fail on an open connection, because the writer
  is an in-memory buffer that always accepts bytes. A writer that returns an error is not
  modelled.
- Concurrent use of one connection by a producer and a consumer. The model is
  sequential.
- A cap on the nesting depth of arrays. Nesting is unbounded, as in the protocol.
- The 64-bit limits of Go slices are not imposed on `Send`, which encodes an argument
  list of any length. `Encoder.DecodeEncodedCommand` assumes them (`Encodable`), because
  the decoder reads lengths as int64.
