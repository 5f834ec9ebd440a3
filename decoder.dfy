/** Reading exactly one reply off the front of the unread input. */
module Decoder {
  import opened Bytes
  import opened Decimal
  import opened Wrappers
  import opened Resp

  /** The position of the first '\n' in s, or |s| when there is none. */
  function FindLF(s: seq<byte>): (k: nat)
    ensures k <= |s|
    ensures k < |s| ==> s[k] == LF
    ensures forall j :: 0 <= j < k ==> s[j] != LF
  {
    if |s| == 0 then 0
    else if s[0] == LF then 0
    else 1 + FindLF(s[1..])
  }

  /** Reads up to and including the first '\n', which must follow a '\r': the text of the
      line without its terminator, and what comes after it. */
  function ReadLine(s: seq<byte>): (r: Result<(seq<byte>, seq<byte>), Failure>)
    ensures r.Ok? ==> s == r.value.0 + CRLF + r.value.1 && LF !in r.value.0
    ensures r.Err? ==> r.error == UnexpectedEof || r.error == BadLineTerminator
    ensures r == Err(UnexpectedEof) <==> LF !in s
    ensures r == Err(BadLineTerminator) <==>
      var k := FindLF(s); k < |s| && (k == 0 || s[k - 1] != CR)
  {
    var k := FindLF(s);
    if k == |s| then Err(UnexpectedEof)
    else if k == 0 || s[k - 1] != CR then Err(BadLineTerminator)
    else
      assert s == s[..k - 1] + CRLF + s[k + 1..];
      Ok((s[..k - 1], s[k + 1..]))
  }

  /** The length or count after '$' or '*': -1 for nil, otherwise a natural number. */
  function ParseLength(text: seq<byte>): (r: Result<int, Failure>)
    ensures r.Ok? ==> -1 <= r.value <= MaxInt64
  {
    match Parse(text)
    case None => Err(BadLength)
    case Some(n) => if n < -1 then Err(BadLength) else Ok(n)
  }

  /** The rest of the input is a suffix of it: decoding only ever consumes a prefix. */
  predicate SuffixOf(t: seq<byte>, s: seq<byte>) {
    |t| <= |s| && t == s[|s| - |t|..]
  }

  /** The bytes of a bulk string of length n and the "\r\n" after them. */
  function DecodeBulk(n: int, s: seq<byte>): (r: Result<(Reply, seq<byte>), Failure>)
    requires -1 <= n <= MaxInt64
    ensures r.Ok? ==> SuffixOf(r.value.1, s) && WellFormed(r.value.0)
  {
    if n == -1 then Ok((Nil, s))
    else if |s| < n then Err(UnexpectedEof)
    else
      var (trailer, after) :- ReadLine(s[n..]);
      if |trailer| != 0 then Err(BadBulkTerminator)
      else
        assert s == s[..n] + s[n..];
        Ok((Bulk(s[..n]), after))
  }

  /** Decodes one reply from the front of s, returning it and the bytes after it. A reply
      consumes at least its type byte and terminator, and leaves a suffix of s. */
  function Decode(s: seq<byte>): (r: Result<(Reply, seq<byte>), Failure>)
    decreases |s|, 2, 0
    ensures r.Ok? ==> |r.value.1| < |s| && SuffixOf(r.value.1, s)
    ensures r.Ok? ==> WellFormed(r.value.0)
  {
    var (line, rest) :- ReadLine(s);
    assert SuffixOf(rest, s);
    if |line| == 0 then Err(ShortLine)
    else
      var (reply, after) :- DecodeBody(line[0], line[1..], rest);
      SuffixTransitive(after, rest, s);
      Ok((reply, after))
  }

  /** Dispatches on the type byte of a reply's first line; text is the rest of that line and
      s what follows the line. */
  function DecodeBody(tag: byte, text: seq<byte>, s: seq<byte>): (r: Result<(Reply, seq<byte>), Failure>)
    requires LF !in text
    decreases |s|, 4, 0
    ensures r.Ok? ==> SuffixOf(r.value.1, s) && WellFormed(r.value.0)
  {
    if tag == PLUS then Ok((SimpleString(text), s))
    else if tag == MINUS then Ok((ErrorReply(text), s))
    else if tag == COLON then
      match Parse(text)
      case None => Err(BadInteger)
      case Some(v) => Ok((Integer(v), s))
    else if tag == DOLLAR then
      var n :- ParseLength(text);
      DecodeBulk(n, s)
    else if tag == STAR then
      var n :- ParseLength(text);
      if n == -1 then Ok((Nil, s))
      else
        var (elements, after) :- DecodeElements(s, n);
        Ok((Array(elements), after))
    else Err(UnknownType(tag))
  }

  /** Decodes n replies in order, each starting where the previous one ended. */
  function DecodeElements(s: seq<byte>, n: nat): (r: Result<(seq<Reply>, seq<byte>), Failure>)
    decreases |s|, 3, n
    ensures r.Ok? ==> |r.value.0| == n && AllWellFormed(r.value.0)
    ensures r.Ok? ==> SuffixOf(r.value.1, s)
  {
    if n == 0 then Ok(([], s))
    else
      var (first, rest) :- Decode(s);
      var (others, after) :- DecodeElements(rest, n - 1);
      SuffixTransitive(after, rest, s);
      Ok(([first] + others, after))
  }

  lemma SuffixTransitive(a: seq<byte>, b: seq<byte>, c: seq<byte>)
    requires SuffixOf(a, b) && SuffixOf(b, c)
    ensures SuffixOf(a, c)
  {
    assert c[|c| - |a|..] == c[|c| - |b|..][|b| - |a|..];
  }
}
