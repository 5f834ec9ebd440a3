/** A client connection over in-memory streams: buffered output that Send appends to and
    Flush drains onto the wire, and input that Receive decodes at a read cursor. */
module Connection {
  import opened Bytes
  import opened Wrappers
  import opened Resp
  import opened Decoder
  import opened Encoder
  import opened Framing

  /** What Receive makes of a decoded reply: a server error reply becomes an error result,
      every other reply is a value. */
  function Surface(reply: Reply): (r: Result<Reply, Failure>)
    ensures r.Err? <==> reply.ErrorReply?
    ensures r.Ok? ==> r.value == reply
    ensures r.Err? ==> r.error == ServerError(reply.message)
  {
    if reply.ErrorReply? then Err(ServerError(reply.message)) else Ok(reply)
  }

  /** Writes the bulk string of every argument, one after the other, after the bytes
      already buffered. */
  method WriteArgs(buffered: seq<byte>, args: seq<Arg>) returns (buffer: seq<byte>)
    ensures buffer == buffered + EncodeArgs(args)
  {
    buffer := buffered;
    for i := 0 to |args|
      invariant buffer == buffered + EncodeArgs(args[..i])
    {
      AppendArg(buffered, args, i);
      buffer := buffer + BulkFrame(ArgBytes(args[i]));
    }
    assert args[..|args|] == args;
  }

  class Conn {
    /** Bytes written by Send and not yet flushed. */
    var pending: seq<byte>
    /** Every byte flushed to the underlying stream so far. */
    var wire: seq<byte>
    /** Every byte the underlying stream delivers to this connection. */
    var input: seq<byte>
    /** How many bytes of input have been consumed. */
    var cursor: nat
    /** The failure that made the connection unusable, once there is one. */
    var failure: Option<Failure>

    ghost predicate Valid()
      reads this
    {
      cursor <= |input|
    }

    /** The input not yet consumed by Receive. */
    function Unread(): seq<byte>
      reads this
      requires Valid()
    {
      input[cursor..]
    }

    /** A connection over a writer that starts empty and a reader that yields incoming. */
    constructor (incoming: seq<byte>)
      ensures Valid()
      ensures pending == [] && wire == [] && input == incoming && cursor == 0 && failure == None
    {
      pending, wire, input, cursor, failure := [], [], incoming, 0, None;
    }

    /** Encodes a command into the output buffer without flushing it. */
    method Send(name: seq<byte>, args: seq<Arg>) returns (r: Result<(), Failure>)
      requires Valid()
      modifies this
      ensures Valid()
      ensures wire == old(wire) && input == old(input) && cursor == old(cursor) && failure == old(failure)
      ensures old(failure).Some? ==> r == Err(old(failure).value) && pending == old(pending)
      ensures old(failure).None? ==> r == Ok(()) && pending == old(pending) + EncodeCommand(name, args)
    {
      if failure.Some? {
        return Err(failure.value);
      }
      var command := WriteArgs(Line(STAR, Decimal.Format(|args| + 1)) + BulkFrame(name), args);
      pending := pending + command;
      return Ok(());
    }

    /** Moves the buffered output onto the wire. */
    method Flush() returns (r: Result<(), Failure>)
      requires Valid()
      modifies this
      ensures Valid()
      ensures input == old(input) && cursor == old(cursor) && failure == old(failure)
      ensures old(failure).Some? ==> r == Err(old(failure).value) && pending == old(pending) && wire == old(wire)
      ensures old(failure).None? ==> r == Ok(()) && pending == [] && wire == old(wire) + old(pending)
    {
      if failure.Some? {
        return Err(failure.value);
      }
      wire := wire + pending;
      pending := [];
      return Ok(());
    }

    /** Flushes the buffered output, then decodes one reply at the cursor and consumes
        exactly its bytes. A server error reply is returned as an error and leaves the
        connection usable; a framing or transport failure makes it unusable. */
    method Receive() returns (r: Result<Reply, Failure>)
      requires Valid()
      modifies this
      ensures Valid()
      ensures input == old(input)
      ensures old(failure).Some? ==>
        r == Err(old(failure).value) && unchanged(this)
      ensures old(failure).None? ==> pending == [] && wire == old(wire) + old(pending)
      ensures old(failure).None? ==>
        match Decode(old(Unread()))
        case Ok((reply, rest)) => r == Surface(reply) && Unread() == rest && failure == None
        case Err(e) => r == Err(e) && failure == Some(e) && cursor == old(cursor)
    {
      if failure.Some? {
        return Err(failure.value);
      }
      var _ := Flush();
      match Decode(input[cursor..])
      case Err(e) =>
        failure := Some(e);
        r := Err(e);
      case Ok((reply, rest)) =>
        ghost var unread := input[cursor..];
        assert input[|input| - |rest|..] == unread[|unread| - |rest|..];
        cursor := |input| - |rest|;
        r := Surface(reply);
    }

    /** One round trip: Send, then Receive, which flushes before it reads. */
    method Do(name: seq<byte>, args: seq<Arg>) returns (r: Result<Reply, Failure>)
      requires Valid()
      modifies this
      ensures Valid()
      ensures input == old(input)
      ensures old(failure).Some? ==> r == Err(old(failure).value) && unchanged(this)
      ensures old(failure).None? ==> pending == [] && wire == old(wire) + old(pending) + EncodeCommand(name, args)
      ensures old(failure).None? ==>
        match Decode(old(Unread()))
        case Ok((reply, rest)) => r == Surface(reply) && Unread() == rest && failure == None
        case Err(e) => r == Err(e) && failure == Some(e) && cursor == old(cursor)
    {
      if failure.Some? {
        return Err(failure.value);
      }
      var _ := Send(name, args);
      r := Receive();
    }

    /** Closes the connection; every later operation, a second Close included, fails. */
    method Close() returns (r: Result<(), Failure>)
      requires Valid()
      modifies this
      ensures Valid()
      ensures pending == old(pending) && wire == old(wire) && input == old(input) && cursor == old(cursor)
      ensures old(failure).Some? ==> r == Err(old(failure).value) && failure == old(failure)
      ensures old(failure).None? ==> r == Ok(()) && failure == Some(Closed)
    {
      if failure.Some? {
        return Err(failure.value);
      }
      failure := Some(Closed);
      return Ok(());
    }
  }

  /** The first half of a pipeline: every command is sent, in order, and nothing is flushed.
      On a connection that has already failed every Send fails and nothing is buffered. */
  method SendAll(c: Conn, cmds: seq<Command>)
    requires c.Valid()
    modifies c
    ensures c.Valid()
    ensures c.input == old(c.input) && c.cursor == old(c.cursor)
    ensures c.wire == old(c.wire) && c.failure == old(c.failure)
    ensures old(c.failure).None? ==> c.pending == old(c.pending) + EncodeCommands(cmds)
    ensures old(c.failure).Some? ==> c.pending == old(c.pending)
  {
    for i := 0 to |cmds|
      invariant c.Valid() && c.input == old(c.input) && c.cursor == old(c.cursor)
      invariant c.wire == old(c.wire) && c.failure == old(c.failure)
      invariant old(c.failure).None? ==> c.pending == old(c.pending) + EncodeCommands(cmds[..i])
      invariant old(c.failure).Some? ==> c.pending == old(c.pending)
    {
      AppendCommand(old(c.pending), cmds, i);
      var _ := c.Send(cmds[i].name, cmds[i].args);
    }
    assert cmds[..|cmds|] == cmds;
  }

  /** One Receive in a pipeline: when the unread input holds the frames of replies i, i+1, ...
      back to back, it returns reply i through Surface and leaves frames i+1, ... unread. On a
      connection that has already failed it returns that failure and changes nothing. */
  method ReceiveNext(c: Conn, ghost frames: seq<seq<byte>>, ghost replies: seq<Reply>, i: nat,
                     ghost rest: seq<byte>)
    returns (r: Result<Reply, Failure>)
    requires c.Valid()
    modifies c
    ensures c.Valid() && c.input == old(c.input)
    ensures c.wire + c.pending == old(c.wire) + old(c.pending)
    ensures old(c.failure).None? ==> c.pending == []
    ensures old(c.failure).Some? ==>
      r == Err(old(c.failure).value) && c.pending == old(c.pending) && c.wire == old(c.wire) &&
      c.cursor == old(c.cursor) && c.failure == old(c.failure)
    ensures (old(c.failure).None? && i < |frames| && Frames(frames, replies) &&
             old(c.Unread()) == Concat(frames[i..]) + rest) ==>
      c.failure == None && c.Unread() == Concat(frames[i + 1..]) + rest && r == Surface(replies[i])
  {
    if i < |frames| && Frames(frames, replies) {
      FrameNext(frames, replies, i, rest);
    }
    r := c.Receive();
  }

  /** The second half of a pipeline: n replies are received, one Receive at a time. When the
      unread input starts with n frames, they come back in the order they were sent, each
      through Surface, and exactly their bytes are consumed. On a connection that has already
      failed every result is that failure and nothing changes. */
  method ReceiveAll(c: Conn, n: nat, ghost frames: seq<seq<byte>>, ghost replies: seq<Reply>,
                    ghost rest: seq<byte>)
    returns (results: seq<Result<Reply, Failure>>)
    requires c.Valid()
    modifies c
    ensures c.Valid() && c.input == old(c.input) && |results| == n
    ensures old(c.failure).None? && n > 0 ==> c.pending == [] && c.wire == old(c.wire) + old(c.pending)
    ensures n == 0 ==> c.pending == old(c.pending) && c.wire == old(c.wire)
    ensures old(c.failure).Some? ==>
      c.pending == old(c.pending) && c.wire == old(c.wire) && c.cursor == old(c.cursor) &&
      c.failure == old(c.failure) && forall j :: 0 <= j < n ==> results[j] == Err(old(c.failure).value)
    ensures (old(c.failure).None? && |frames| == n && Frames(frames, replies) &&
             old(c.Unread()) == Concat(frames) + rest) ==>
      c.failure == None && c.Unread() == rest &&
      forall j :: 0 <= j < n ==> results[j] == Surface(replies[j])
  {
    ghost var expected := c.failure.None? && |frames| == n && Frames(frames, replies) &&
      c.Unread() == Concat(frames) + rest;
    assert frames[0..] == frames;
    results := [];
    for i := 0 to n
      invariant c.Valid() && c.input == old(c.input) && |results| == i
      invariant c.wire + c.pending == old(c.wire) + old(c.pending)
      invariant i == 0 ==> c.pending == old(c.pending) && c.wire == old(c.wire) && c.failure == old(c.failure)
      invariant old(c.failure).None? && i > 0 ==> c.pending == []
      invariant old(c.failure).Some? ==>
        c.pending == old(c.pending) && c.wire == old(c.wire) && c.cursor == old(c.cursor) &&
        c.failure == old(c.failure)
      invariant old(c.failure).Some? ==> forall j :: 0 <= j < i ==> results[j] == Err(old(c.failure).value)
      invariant expected ==> c.failure == None && c.Unread() == Concat(frames[i..]) + rest
      invariant expected ==> forall j :: 0 <= j < i ==> results[j] == Surface(replies[j])
    {
      var r := ReceiveNext(c, frames, replies, i, rest);
      if expected {
        SurfacedSnoc(results, replies, r);
      }
      results := results + [r];
    }
    assert expected ==> frames[n..] == [];
    assert c.wire + [] == c.wire;
  }

  /** One more result in send order keeps every result in send order. */
  lemma SurfacedSnoc(results: seq<Result<Reply, Failure>>, replies: seq<Reply>, r: Result<Reply, Failure>)
    requires |results| < |replies| && r == Surface(replies[|results|])
    requires forall j :: 0 <= j < |results| ==> results[j] == Surface(replies[j])
    ensures forall j :: 0 <= j < |results| + 1 ==> (results + [r])[j] == Surface(replies[j])
  {
  }

  /** Pipelining as a client uses it: every command is sent, then one reply is received per
      command; the replies come back in send order. The canonical wire forms of the replies
      are one choice of frames (Framing.WireFramesAreFrames). */
  method Pipeline(c: Conn, cmds: seq<Command>, ghost frames: seq<seq<byte>>, ghost replies: seq<Reply>,
                  ghost rest: seq<byte>)
    returns (results: seq<Result<Reply, Failure>>)
    requires c.Valid()
    modifies c
    ensures c.Valid() && c.input == old(c.input) && |results| == |cmds|
    ensures old(c.failure).None? && |cmds| > 0 ==>
      c.pending == [] && c.wire == old(c.wire) + (old(c.pending) + EncodeCommands(cmds))
    ensures |cmds| == 0 ==> c.pending == old(c.pending) && c.wire == old(c.wire)
    ensures old(c.failure).Some? ==>
      c.pending == old(c.pending) && c.wire == old(c.wire) && c.cursor == old(c.cursor) &&
      c.failure == old(c.failure) && forall j :: 0 <= j < |cmds| ==> results[j] == Err(old(c.failure).value)
    ensures (old(c.failure).None? && |frames| == |cmds| && Frames(frames, replies) &&
             old(c.Unread()) == Concat(frames) + rest) ==>
      c.failure == None && c.Unread() == rest &&
      forall j :: 0 <= j < |cmds| ==> results[j] == Surface(replies[j])
  {
    SendAll(c, cmds);
    assert c.Unread() == old(c.Unread());
    results := ReceiveAll(c, |cmds|, frames, replies, rest);
  }

  /** Pipeline when the replies arrive in their canonical wire forms, back to back. */
  method PipelineEncoded(c: Conn, cmds: seq<Command>, ghost replies: seq<Reply>, ghost rest: seq<byte>)
    returns (results: seq<Result<Reply, Failure>>)
    requires c.Valid()
    modifies c
    ensures c.Valid() && c.input == old(c.input) && |results| == |cmds|
    ensures old(c.failure).None? && |cmds| > 0 ==>
      c.pending == [] && c.wire == old(c.wire) + (old(c.pending) + EncodeCommands(cmds))
    ensures |cmds| == 0 ==> c.pending == old(c.pending) && c.wire == old(c.wire)
    ensures old(c.failure).Some? ==>
      c.pending == old(c.pending) && c.wire == old(c.wire) && c.cursor == old(c.cursor) &&
      c.failure == old(c.failure) && forall j :: 0 <= j < |cmds| ==> results[j] == Err(old(c.failure).value)
    ensures (old(c.failure).None? && |replies| == |cmds| && AllWellFormed(replies) &&
             old(c.Unread()) == EncodeAll(replies) + rest) ==>
      c.failure == None && c.Unread() == rest &&
      forall j :: 0 <= j < |cmds| ==> results[j] == Surface(replies[j])
  {
    if AllWellFormed(replies) {
      WireFramesAreFrames(replies);
    }
    results := Pipeline(c, cmds, WireFrames(replies), replies, rest);
  }

  /** The send test: a connection whose writer starts empty sends one command and is
      flushed; what reaches the writer is exactly the encoded command. */
  method SendAndFlush(name: seq<byte>, args: seq<Arg>) returns (written: seq<byte>)
    ensures written == EncodeCommand(name, args)
  {
    var c := new Conn([]);
    var sent := c.Send(name, args);
    var flushed := c.Flush();
    written := c.wire;
  }

  /** The receive test: a connection whose reader yields the bytes of one reply receives
      once; the result is what decoding those bytes gives, through Surface. */
  method ReceiveFrom(incoming: seq<byte>) returns (r: Result<Reply, Failure>)
    ensures match Decode(incoming)
      case Ok((reply, _)) => r == Surface(reply)
      case Err(e) => r == Err(e)
  {
    var c := new Conn(incoming);
    r := c.Receive();
  }
}
