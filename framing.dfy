/** What a reply's framing decides on its own: decoding a reply does not look past its last
    byte, a reply cut short is an early end of input, and a bulk string whose bytes are not
    followed by its terminator is rejected. */
module Framing {
  import opened Bytes
  import opened Decimal
  import opened Wrappers
  import opened Resp
  import opened Decoder
  import opened RoundTrip

  // Prefix independence: the bytes after a reply never change how it is decoded.

  lemma ReadLineAppend(s: seq<byte>, t: seq<byte>)
    requires ReadLine(s).Ok?
    ensures ReadLine(s + t) == Ok((ReadLine(s).value.0, ReadLine(s).value.1 + t))
  {
    var (line, rest) := ReadLine(s).value;
    assert s + t == line + CRLF + (rest + t);
    ReadLineFrame(line, rest + t);
  }

  lemma DecodeBulkAppend(n: int, s: seq<byte>, t: seq<byte>)
    requires -1 <= n <= MaxInt64 && DecodeBulk(n, s).Ok?
    ensures DecodeBulk(n, s + t) == Ok((DecodeBulk(n, s).value.0, DecodeBulk(n, s).value.1 + t))
  {
    if n != -1 {
      assert (s + t)[n..] == s[n..] + t;
      assert (s + t)[..n] == s[..n];
      ReadLineAppend(s[n..], t);
    }
  }

  /** A decoded reply and the bytes after it are the same whatever is appended to the input. */
  lemma {:induction false} DecodeAppend(s: seq<byte>, t: seq<byte>)
    requires Decode(s).Ok?
    ensures Decode(s + t) == Ok((Decode(s).value.0, Decode(s).value.1 + t))
    decreases |s|, 2, 0
  {
    var (line, rest) := ReadLine(s).value;
    ReadLineAppend(s, t);
    DecodeBodyAppend(line[0], line[1..], rest, t);
  }

  lemma {:induction false} DecodeBodyAppend(tag: byte, text: seq<byte>, s: seq<byte>, t: seq<byte>)
    requires LF !in text && DecodeBody(tag, text, s).Ok?
    ensures DecodeBody(tag, text, s + t) ==
      Ok((DecodeBody(tag, text, s).value.0, DecodeBody(tag, text, s).value.1 + t))
    decreases |s|, 4, 0
  {
    if tag == DOLLAR {
      DecodeBulkAppend(ParseLength(text).value, s, t);
    } else if tag == STAR {
      var n := ParseLength(text).value;
      if n != -1 {
        DecodeElementsAppend(s, n, t);
      }
    }
  }

  /** A successful decode of m + 1 elements is a decoded first element, then m more. */
  lemma ElementsSplit(s: seq<byte>, m: nat)
    returns (first: Reply, rest: seq<byte>, others: seq<Reply>, after: seq<byte>)
    requires DecodeElements(s, m + 1).Ok?
    ensures Decode(s) == Ok((first, rest))
    ensures DecodeElements(rest, m) == Ok((others, after))
    ensures DecodeElements(s, m + 1) == Ok(([first] + others, after))
  {
    first, rest := Decode(s).value.0, Decode(s).value.1;
    others, after := DecodeElements(rest, m).value.0, DecodeElements(rest, m).value.1;
  }

  /** The elements decode the same way after something is appended, once their first
      element and the others are known to. */
  lemma ElementsJoin(s: seq<byte>, m: nat, t: seq<byte>,
                     first: Reply, rest: seq<byte>, others: seq<Reply>, after: seq<byte>)
    requires Decode(s + t) == Ok((first, rest + t))
    requires DecodeElements(rest + t, m) == Ok((others, after + t))
    ensures DecodeElements(s + t, m + 1) == Ok(([first] + others, after + t))
  {
  }

  lemma {:induction false} DecodeElementsAppend(s: seq<byte>, n: nat, t: seq<byte>)
    requires DecodeElements(s, n).Ok?
    ensures DecodeElements(s + t, n) ==
      Ok((DecodeElements(s, n).value.0, DecodeElements(s, n).value.1 + t))
    decreases |s|, 3, n, 1
  {
    if n > 0 {
      var m: nat := n - 1;
      var first, rest, others, after := ElementsSplit(s, m);
      ElementsAppendStep(s, m, t, first, rest, others, after);
    }
  }

  /** The inductive step of DecodeElementsAppend: a first element, then m more. */
  lemma {:induction false} ElementsAppendStep(s: seq<byte>, m: nat, t: seq<byte>,
                     first: Reply, rest: seq<byte>, others: seq<Reply>, after: seq<byte>)
    requires Decode(s) == Ok((first, rest))
    requires DecodeElements(rest, m) == Ok((others, after))
    ensures DecodeElements(s + t, m + 1) == Ok(([first] + others, after + t))
    decreases |s|, 3, m + 1, 0
  {
    DecodeAppend(s, t);
    DecodeElementsAppend(rest, m, t);
    ElementsJoin(s, m, t, first, rest, others, after);
  }

  /** The replies' frames one after the other, as they arrive on a pipelined connection. */
  function Concat(frames: seq<seq<byte>>): seq<byte> {
    if |frames| == 0 then [] else frames[0] + Concat(frames[1..])
  }

  /** Each frame holds exactly one reply. */
  predicate Frames(frames: seq<seq<byte>>, replies: seq<Reply>) {
    |frames| == |replies| && forall j :: 0 <= j < |frames| ==> Decode(frames[j]) == Ok((replies[j], []))
  }

  /** FIFO over any frames: when the unread input holds frames i, i+1, ... back to back, one
      decode yields the reply of frame i and leaves frames i+1, ... unread. */
  lemma FrameNext(frames: seq<seq<byte>>, replies: seq<Reply>, i: nat, rest: seq<byte>)
    requires i < |frames| && Frames(frames, replies)
    ensures Decode(Concat(frames[i..]) + rest) == Ok((replies[i], Concat(frames[i + 1..]) + rest))
  {
    var tail := Concat(frames[i + 1..]) + rest;
    assert frames[i..][1..] == frames[i + 1..];
    assert Concat(frames[i..]) + rest == frames[i] + tail;
    DecodeAppend(frames[i], tail);
  }

  /** The canonical wire forms of replies are frames of those replies. */
  function WireFrames(rs: seq<Reply>): seq<seq<byte>> {
    seq(|rs|, j requires 0 <= j < |rs| => EncodeReply(rs[j]))
  }

  lemma {:induction false} ConcatWireFrames(rs: seq<Reply>)
    ensures Concat(WireFrames(rs)) == EncodeAll(rs)
  {
    if |rs| > 0 {
      assert WireFrames(rs)[1..] == WireFrames(rs[1..]);
      ConcatWireFrames(rs[1..]);
    }
  }

  lemma WireFramesAreFrames(rs: seq<Reply>)
    requires AllWellFormed(rs)
    ensures Frames(WireFrames(rs), rs) && Concat(WireFrames(rs)) == EncodeAll(rs)
  {
    forall j | 0 <= j < |rs|
      ensures Decode(WireFrames(rs)[j]) == Ok((rs[j], []))
    {
      DecodeWire(rs[j]);
    }
    ConcatWireFrames(rs);
  }

  /** A decoded first element followed by m decoded elements is m + 1 decoded elements. */
  lemma ElementsCons(s: seq<byte>, m: nat, first: Reply, rest: seq<byte>,
                     others: seq<Reply>, after: seq<byte>)
    requires Decode(s) == Ok((first, rest))
    requires DecodeElements(rest, m) == Ok((others, after))
    ensures DecodeElements(s, m + 1) == Ok(([first] + others, after))
  {
  }

  /** The frames after the first are frames of the replies after the first. */
  lemma FramesTail(frames: seq<seq<byte>>, replies: seq<Reply>)
    requires |frames| > 0 && Frames(frames, replies)
    ensures Frames(frames[1..], replies[1..])
  {
    var fs, rs := frames[1..], replies[1..];
    forall j | 0 <= j < |fs|
      ensures Decode(fs[j]) == Ok((rs[j], []))
    {
      assert fs[j] == frames[j + 1] && rs[j] == replies[j + 1];
    }
  }

  lemma ConcatCons(frames: seq<seq<byte>>, rest: seq<byte>)
    requires |frames| > 0
    ensures Concat(frames) + rest == frames[0] + (Concat(frames[1..]) + rest)
  {
    var head, tail := frames[0], Concat(frames[1..]);
    assert Concat(frames) == head + tail;
    Associative(head, tail, rest);
  }

  lemma Associative(a: seq<byte>, b: seq<byte>, c: seq<byte>)
    ensures (a + b) + c == a + (b + c)
  { }

  /** A frame of r, then m elements decoded from what follows it, is m + 1 elements. */
  lemma FrameThenElements(frame: seq<byte>, tail: seq<byte>, r: Reply, m: nat,
                          others: seq<Reply>, rest: seq<byte>)
    requires Decode(frame) == Ok((r, []))
    requires DecodeElements(tail, m) == Ok((others, rest))
    ensures DecodeElements(frame + tail, m + 1) == Ok(([r] + others, rest))
  {
    DecodeAppend(frame, tail);
    assert [] + tail == tail;
    ElementsCons(frame + tail, m, r, tail, others, rest);
  }

  /** Frames one after the other are read back as the elements of an array, whatever
      framing each element uses (a `*-1` nil element, a `+` sign or leading zeros in a
      length included). */
  lemma {:induction false} ElementsOfFrames(frames: seq<seq<byte>>, replies: seq<Reply>, rest: seq<byte>)
    requires Frames(frames, replies)
    ensures DecodeElements(Concat(frames) + rest, |frames|) == Ok((replies, rest))
    decreases |frames|
  {
    if |frames| > 0 {
      var fs, rs := frames[1..], replies[1..];
      FramesTail(frames, replies);
      ElementsOfFrames(fs, rs, rest);
      var m: nat := |fs|;
      FrameThenElements(frames[0], Concat(fs) + rest, replies[0], m, rs, rest);
      ConcatCons(frames, rest);
      assert [replies[0]] + rs == replies;
    }
  }

  /** An array header with count n followed by n frames decodes to the array of their
      replies. */
  lemma ArrayOfFrames(frames: seq<seq<byte>>, replies: seq<Reply>, rest: seq<byte>)
    requires Frames(frames, replies) && |frames| <= MaxInt64
    ensures Decode(Line(STAR, Format(|frames|)) + Concat(frames) + rest) == Ok((Array(replies), rest))
  {
    var body := Concat(frames) + rest;
    assert Line(STAR, Format(|frames|)) + Concat(frames) + rest == Line(STAR, Format(|frames|)) + body;
    DecodeTaggedLine(STAR, Format(|frames|), body);
    ElementsOfFrames(frames, replies, rest);
    DecodeArrayBody(replies, body, rest);
  }

  // Truncation: a reply cut short anywhere is an early end of input, never a value.

  /** Input holding no line terminator at all ends too early. */
  lemma NoLineEof(s: seq<byte>)
    requires LF !in s
    ensures Decode(s) == Err(UnexpectedEof)
  {
  }

  /** A header line cut before its LF ends too early, whatever was to follow it. */
  lemma HeaderCut(tag: byte, text: seq<byte>, tail: seq<byte>, k: nat)
    requires tag != LF && LF !in text && k < |Line(tag, text)|
    ensures Decode((Line(tag, text) + tail)[..k]) == Err(UnexpectedEof)
  {
    var p := (Line(tag, text) + tail)[..k];
    assert p == Line(tag, text)[..k];
    assert forall j :: 0 <= j < k ==> p[j] != LF by {
      forall j | 0 <= j < k ensures p[j] != LF {
        if 1 <= j <= |text| {
          assert p[j] == text[j - 1];
        }
      }
    }
    NoLineEof(p);
  }

  lemma BulkCut(d: seq<byte>, j: nat)
    requires |d| <= MaxInt64 && j < |d| + 2
    ensures DecodeBulk(|d|, (d + CRLF)[..j]) == Err(UnexpectedEof)
  {
    var q := (d + CRLF)[..j];
    if j >= |d| {
      var after := q[|d|..];
      assert |after| < 2;
      assert |after| == 1 ==> after[0] == CR;
      assert LF !in after;
    }
  }

  /** A one-line reply cut short ends too early. */
  lemma LineTruncated(tag: byte, text: seq<byte>, k: nat)
    requires tag != LF && LF !in text && k < |Line(tag, text)|
    ensures Decode(Line(tag, text)[..k]) == Err(UnexpectedEof)
  {
    HeaderCut(tag, text, [], k);
    assert Line(tag, text) + [] == Line(tag, text);
  }

  lemma BulkTruncated(d: seq<byte>, k: nat)
    requires |d| <= MaxInt64 && k < |BulkFrame(d)|
    ensures Decode(BulkFrame(d)[..k]) == Err(UnexpectedEof)
  {
    var head := Line(DOLLAR, Format(|d|));
    assert BulkFrame(d) == head + (d + CRLF);
    if k < |head| {
      HeaderCut(DOLLAR, Format(|d|), d + CRLF, k);
    } else {
      var q := (d + CRLF)[..k - |head|];
      assert BulkFrame(d)[..k] == head + q;
      DecodeTaggedLine(DOLLAR, Format(|d|), q);
      DollarHeader(|d|, q);
      BulkCut(d, k - |head|);
    }
  }

  /** A `$` line holding the decimal text of n goes on to read a bulk body of n bytes. */
  lemma DollarHeader(n: nat, s: seq<byte>)
    requires n <= MaxInt64
    ensures DecodeBody(DOLLAR, Format(n), s) == DecodeBulk(n, s)
  {
    ParseFormat(n);
    assert ParseLength(Format(n)) == Ok(n);
  }

  /** A `*` line holding the decimal text of n goes on to read n elements. */
  lemma StarHeader(n: nat, s: seq<byte>)
    requires n <= MaxInt64
    ensures DecodeElements(s, n).Err? ==> DecodeBody(STAR, Format(n), s) == Err(DecodeElements(s, n).error)
  {
    ParseFormat(n);
    assert ParseLength(Format(n)) == Ok(n);
  }

  lemma {:induction false} ArrayTruncated(es: seq<Reply>, k: nat)
    requires WellFormed(Array(es)) && k < |EncodeReply(Array(es))|
    ensures Decode(EncodeReply(Array(es))[..k]) == Err(UnexpectedEof)
    decreases Array(es), 0
  {
    var head := Line(STAR, Format(|es|));
    if k < |head| {
      HeaderCut(STAR, Format(|es|), EncodeAll(es), k);
    } else {
      var j: nat := k - |head|;
      var q := EncodeAll(es)[..j];
      assert EncodeReply(Array(es))[..k] == head + q;
      DecodeAllTruncated(es, j);
      StarHeader(|es|, q);
      DecodeTaggedLine(STAR, Format(|es|), q);
    }
  }

  /** Every proper prefix of a well-formed reply's wire form is an early end of input. */
  lemma {:induction false} DecodeTruncated(r: Reply, k: nat)
    requires WellFormed(r) && k < |EncodeReply(r)|
    ensures Decode(EncodeReply(r)[..k]) == Err(UnexpectedEof)
    decreases r, 1
  {
    match r
    case SimpleString(t) => LineTruncated(PLUS, t, k);
    case ErrorReply(m) => LineTruncated(MINUS, m, k);
    case Integer(v) => LineTruncated(COLON, Format(v), k);
    case Nil => LineTruncated(DOLLAR, Format(-1), k);
    case Bulk(d) => BulkTruncated(d, k);
    case Array(es) => ArrayTruncated(es, k);
  }

  lemma {:induction false} DecodeAllTruncated(es: seq<Reply>, j: nat)
    requires AllWellFormed(es) && j < |EncodeAll(es)|
    ensures DecodeElements(EncodeAll(es)[..j], |es|) == Err(UnexpectedEof)
    decreases es, 0
  {
    var first := EncodeReply(es[0]);
    var others := EncodeAll(es[1..]);
    assert EncodeAll(es) == first + others;
    if j < |first| {
      assert EncodeAll(es)[..j] == first[..j];
      DecodeTruncated(es[0], j);
    } else {
      var i: nat := j - |first|;
      var q := others[..i];
      assert EncodeAll(es)[..j] == first + q;
      DecodeEncode(es[0], q);
      DecodeAllTruncated(es[1..], i);
    }
  }

  lemma BulkTrailer(d: seq<byte>, after: seq<byte>)
    requires |d| <= MaxInt64
    requires !(|after| >= 2 && after[..2] == CRLF)
    ensures var r := DecodeBulk(|d|, d + after);
      r.Err? && r.error in {UnexpectedEof, BadLineTerminator, BadBulkTerminator}
  {
    assert (d + after)[|d|..] == after;
    match ReadLine(after)
    case Err(_) =>
    case Ok((trailer, rest)) =>
      assert after[|trailer|..|trailer| + 2] == CRLF;
  }

  /** A bulk string whose bytes are not followed by "\r\n" is rejected: the length does not
      match the bytes that follow it. */
  lemma BulkBadTerminator(d: seq<byte>, after: seq<byte>)
    requires |d| <= MaxInt64
    requires !(|after| >= 2 && after[..2] == CRLF)
    ensures var r := Decode(Line(DOLLAR, Format(|d|)) + d + after);
      r.Err? && r.error in {UnexpectedEof, BadLineTerminator, BadBulkTerminator}
  {
    var tail := d + after;
    assert Line(DOLLAR, Format(|d|)) + d + after == Line(DOLLAR, Format(|d|)) + tail;
    DecodeTaggedLine(DOLLAR, Format(|d|), tail);
    DollarHeader(|d|, tail);
    BulkTrailer(d, after);
  }
}
