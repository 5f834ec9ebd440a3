/** Decoding undoes the wire form of every well-formed reply and consumes exactly its bytes,
    whatever follows it on the stream. */
module RoundTrip {
  import opened Bytes
  import opened Decimal
  import opened Wrappers
  import opened Resp
  import opened Decoder

  /** A line is read up to its own terminator and no further. */
  lemma ReadLineFrame(text: seq<byte>, rest: seq<byte>)
    requires LF !in text
    ensures ReadLine(text + CRLF + rest) == Ok((text, rest))
  {
    var s := text + CRLF + rest;
    var k := FindLF(s);
    assert s[|text| + 1] == LF;
    assert k == |text| + 1;
    assert s[..k - 1] == text;
    assert s[k + 1..] == rest;
  }

  /** The first line of a reply is read back and dispatched on its type byte. */
  lemma DecodeTaggedLine(tag: byte, text: seq<byte>, rest: seq<byte>)
    requires tag != LF && LF !in text
    ensures Decode(Line(tag, text) + rest) == DecodeBody(tag, text, rest)
  {
    var line := [tag] + text;
    assert Line(tag, text) + rest == line + CRLF + rest;
    ReadLineFrame(line, rest);
    assert line[1..] == text;
  }

  lemma DecodeEncodeBulk(d: seq<byte>, rest: seq<byte>)
    requires |d| <= MaxInt64
    ensures Decode(BulkFrame(d) + rest) == Ok((Bulk(d), rest))
  {
    var tail := d + CRLF + rest;
    assert BulkFrame(d) + rest == Line(DOLLAR, Format(|d|)) + tail;
    DecodeTaggedLine(DOLLAR, Format(|d|), tail);
    ParseFormat(|d|);
    assert tail[..|d|] == d;
    assert tail[|d|..] == [] + CRLF + rest;
    ReadLineFrame([], rest);
  }

  lemma DecodeEncodeLine(tag: byte, text: seq<byte>, rest: seq<byte>)
    requires tag == PLUS || tag == MINUS
    requires LF !in text
    ensures Decode(Line(tag, text) + rest) ==
      Ok((if tag == PLUS then SimpleString(text) else ErrorReply(text), rest))
  {
    DecodeTaggedLine(tag, text, rest);
  }

  lemma DecodeEncodeInteger(v: int64, rest: seq<byte>)
    ensures Decode(Line(COLON, Format(v)) + rest) == Ok((Integer(v), rest))
  {
    DecodeTaggedLine(COLON, Format(v), rest);
    ParseFormat(v);
  }

  lemma DecodeEncodeNil(rest: seq<byte>)
    ensures Decode(Line(DOLLAR, Format(-1)) + rest) == Ok((Nil, rest))
  {
    DecodeTaggedLine(DOLLAR, Format(-1), rest);
    ParseFormat(-1);
  }

  /** An array header with count n is followed by n elements decoded in turn. */
  lemma DecodeArrayBody(es: seq<Reply>, s: seq<byte>, rest: seq<byte>)
    requires |es| <= MaxInt64
    requires DecodeElements(s, |es|) == Ok((es, rest))
    ensures DecodeBody(STAR, Format(|es|), s) == Ok((Array(es), rest))
  {
    ParseFormat(|es|);
    assert ParseLength(Format(|es|)) == Ok(|es|);
  }

  lemma {:induction false} DecodeEncodeArray(es: seq<Reply>, rest: seq<byte>)
    requires WellFormed(Array(es))
    ensures Decode(EncodeReply(Array(es)) + rest) == Ok((Array(es), rest))
    decreases Array(es), 0
  {
    var tail := EncodeAll(es) + rest;
    assert EncodeReply(Array(es)) + rest == Line(STAR, Format(|es|)) + tail;
    DecodeTaggedLine(STAR, Format(|es|), tail);
    DecodeEncodeAll(es, rest);
    DecodeArrayBody(es, tail, rest);
  }

  /** Every well-formed reply is decoded back from its wire form, and the bytes after it are
      left unread. */
  lemma {:induction false} DecodeEncode(r: Reply, rest: seq<byte>)
    requires WellFormed(r)
    ensures Decode(EncodeReply(r) + rest) == Ok((r, rest))
    decreases r, 1
  {
    match r
    case SimpleString(t) => DecodeEncodeLine(PLUS, t, rest);
    case ErrorReply(m) => DecodeEncodeLine(MINUS, m, rest);
    case Integer(v) => DecodeEncodeInteger(v, rest);
    case Bulk(d) => DecodeEncodeBulk(d, rest);
    case Nil => DecodeEncodeNil(rest);
    case Array(es) => DecodeEncodeArray(es, rest);
  }

  /** Replies sent back to back are decoded one at a time, in the order they were sent. */
  lemma {:induction false} DecodeEncodeAll(rs: seq<Reply>, rest: seq<byte>)
    requires AllWellFormed(rs)
    ensures DecodeElements(EncodeAll(rs) + rest, |rs|) == Ok((rs, rest))
    decreases rs, 2
  {
    if |rs| > 0 {
      var tail := EncodeAll(rs[1..]) + rest;
      assert EncodeAll(rs) + rest == EncodeReply(rs[0]) + tail;
      DecodeEncode(rs[0], tail);
      DecodeEncodeAll(rs[1..], rest);
      assert [rs[0]] + rs[1..] == rs;
    }
  }

  /** FIFO: when the unread input holds replies i, i+1, ... back to back, one decode yields
      reply i and leaves replies i+1, ... unread. This is the canonical-form special case of
      Framing.FrameNext, which allows any framing of each reply. */
  lemma DecodeNext(rs: seq<Reply>, i: nat, rest: seq<byte>)
    requires i < |rs| && AllWellFormed(rs)
    ensures Decode(EncodeAll(rs[i..]) + rest) == Ok((rs[i], EncodeAll(rs[i + 1..]) + rest))
  {
    var tail := EncodeAll(rs[i + 1..]) + rest;
    assert rs[i..][1..] == rs[i + 1..];
    assert EncodeAll(rs[i..]) + rest == EncodeReply(rs[i]) + tail;
    DecodeEncode(rs[i], tail);
  }

  /** A reply that is the whole input is decoded with nothing left over. */
  lemma DecodeWire(r: Reply)
    requires WellFormed(r)
    ensures Decode(EncodeReply(r)) == Ok((r, []))
  {
    DecodeEncode(r, []);
    assert EncodeReply(r) + [] == EncodeReply(r);
  }

  /** A leading byte that is none of + - : $ * is a framing error, whatever the line holds. */
  lemma DecodeUnknownType(tag: byte, text: seq<byte>, rest: seq<byte>)
    requires tag !in {PLUS, MINUS, COLON, DOLLAR, STAR, LF}
    requires LF !in text
    ensures Decode(Line(tag, text) + rest) == Err(UnknownType(tag))
  {
    DecodeTaggedLine(tag, text, rest);
  }

  /** `*-1` is the null array, which decodes to nil like the null bulk string. */
  lemma DecodeNullArray(rest: seq<byte>)
    ensures Decode(Line(STAR, Format(-1)) + rest) == Ok((Nil, rest))
  {
    DecodeTaggedLine(STAR, Format(-1), rest);
    ParseFormat(-1);
  }
}
