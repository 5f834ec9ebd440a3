/** Writing a command as a RESP array of bulk strings. */
module Encoder {
  import opened Bytes
  import opened Decimal
  import opened Wrappers
  import opened Resp
  import opened Decoder
  import opened RoundTrip

  /** A command argument, one case per kind of Go value the send tests pass: a string,
      a byte slice, an integer, or nil. */
  datatype Arg =
    | Text(text: seq<byte>)
    | Blob(data: seq<byte>)
    | Number(n: int64)
    | NilArg

  /** The bytes an argument is sent as: strings and byte slices as they are, an integer as
      its decimal text, nil as no bytes at all. */
  function ArgBytes(a: Arg): (r: seq<byte>)
    ensures a.Number? ==> Parse(r) == Some(a.n)
    ensures a.NilArg? ==> r == []
  {
    match a
    case Text(t) => t
    case Blob(d) => d
    case Number(n) => ParseFormat(n); Format(n)
    case NilArg => []
  }

  /** The bulk strings of the arguments, in order: the wire form of the bulk-string replies
      the arguments are read back as. */
  function EncodeArgs(args: seq<Arg>): (r: seq<byte>)
    ensures r == EncodeAll(ArgBulks(args))
  {
    if |args| == 0 then []
    else
      var n := |args| - 1;
      ArgBulksSnoc(args);
      EncodeAllAppend(ArgBulks(args[..n]), Bulk(ArgBytes(args[n])));
      EncodeArgs(args[..n]) + BulkFrame(ArgBytes(args[n]))
  }

  /** Writing one more argument after what is already buffered appends its bulk string. */
  lemma AppendArg(buffered: seq<byte>, args: seq<Arg>, i: nat)
    requires i < |args|
    ensures (buffered + EncodeArgs(args[..i])) + BulkFrame(ArgBytes(args[i])) ==
      buffered + EncodeArgs(args[..i + 1])
  {
    assert args[..i + 1][..i] == args[..i];
  }

  /** Sending one more command after what is already buffered appends its bytes. */
  lemma AppendCommand(buffered: seq<byte>, cmds: seq<Command>, i: nat)
    requires i < |cmds|
    ensures (buffered + EncodeCommands(cmds[..i])) + EncodeCommand(cmds[i].name, cmds[i].args) ==
      buffered + EncodeCommands(cmds[..i + 1])
  {
    assert cmds[..i + 1][..i] == cmds[..i];
  }

  /** The count line `*<argc+1>`, the name as a bulk string, then every argument. */
  function EncodeCommand(name: seq<byte>, args: seq<Arg>): seq<byte> {
    Line(STAR, Format(|args| + 1)) + BulkFrame(name) + EncodeArgs(args)
  }

  /** A command name and its arguments, as one call to Send takes them. */
  datatype Command = Command(name: seq<byte>, args: seq<Arg>)

  /** The commands one after the other, as a pipeline of Send calls writes them: the wire
      forms of their arrays, back to back. */
  function EncodeCommands(cmds: seq<Command>): (r: seq<byte>)
    ensures r == EncodeAll(CommandArrays(cmds))
  {
    if |cmds| == 0 then []
    else
      var n := |cmds| - 1;
      CommandArraysSnoc(cmds);
      EncodeCommandIsArray(cmds[n].name, cmds[n].args);
      EncodeAllAppend(CommandArrays(cmds[..n]), CommandArray(cmds[n].name, cmds[n].args));
      EncodeCommands(cmds[..n]) + EncodeCommand(cmds[n].name, cmds[n].args)
  }

  /** The arguments as the bulk-string replies a decoder reads them back as. */
  function ArgBulks(args: seq<Arg>): seq<Reply> {
    seq(|args|, i requires 0 <= i < |args| => Bulk(ArgBytes(args[i])))
  }

  /** A command seen as the array of bulk strings it is sent as. */
  function CommandArray(name: seq<byte>, args: seq<Arg>): Reply {
    Array([Bulk(name)] + ArgBulks(args))
  }

  /** The commands seen as arrays of bulk strings, in order. */
  function CommandArrays(cmds: seq<Command>): seq<Reply> {
    seq(|cmds|, i requires 0 <= i < |cmds| => CommandArray(cmds[i].name, cmds[i].args))
  }

  /** Bounds every Go value meets: a slice has at most MaxInt64 elements. */
  predicate Encodable(name: seq<byte>, args: seq<Arg>) {
    |args| < MaxInt64 && |name| <= MaxInt64 &&
    forall i :: 0 <= i < |args| ==> |ArgBytes(args[i])| <= MaxInt64
  }

  lemma {:induction false} EncodeAllAppend(rs: seq<Reply>, r: Reply)
    ensures EncodeAll(rs + [r]) == EncodeAll(rs) + EncodeReply(r)
  {
    if |rs| > 0 {
      assert (rs + [r])[1..] == rs[1..] + [r];
      EncodeAllAppend(rs[1..], r);
    }
  }

  lemma ArgBulksSnoc(args: seq<Arg>)
    requires |args| > 0
    ensures ArgBulks(args) == ArgBulks(args[..|args| - 1]) + [Bulk(ArgBytes(args[|args| - 1]))]
  {
    var n := |args| - 1;
    var front := ArgBulks(args[..n]);
    assert forall i :: 0 <= i < n ==> ArgBulks(args)[i] == front[i];
  }

  lemma CommandArraysSnoc(cmds: seq<Command>)
    requires |cmds| > 0
    ensures CommandArrays(cmds) ==
      CommandArrays(cmds[..|cmds| - 1]) + [CommandArray(cmds[|cmds| - 1].name, cmds[|cmds| - 1].args)]
  {
    var n := |cmds| - 1;
    var front := CommandArrays(cmds[..n]);
    assert forall i :: 0 <= i < n ==> CommandArrays(cmds)[i] == front[i];
  }

  /** A command's bytes are exactly the wire form of an array of bulk strings. */
  lemma EncodeCommandIsArray(name: seq<byte>, args: seq<Arg>)
    ensures EncodeCommand(name, args) == EncodeReply(CommandArray(name, args))
  {
    var es := [Bulk(name)] + ArgBulks(args);
    assert es[1..] == ArgBulks(args);
    assert EncodeAll(es) == BulkFrame(name) + EncodeArgs(args);
  }

  /** Decoding an encoded command gives back an array holding the bytes of the name and of
      each argument, in order, and consumes exactly the command. */
  lemma DecodeEncodedCommand(name: seq<byte>, args: seq<Arg>, rest: seq<byte>)
    requires Encodable(name, args)
    ensures var d := Decode(EncodeCommand(name, args) + rest);
      d.Ok? && d.value.1 == rest && d.value.0.Array? &&
      |d.value.0.elements| == |args| + 1 &&
      d.value.0.elements[0] == Bulk(name) &&
      forall i :: 0 <= i < |args| ==> d.value.0.elements[i + 1] == Bulk(ArgBytes(args[i]))
  {
    var c := CommandArray(name, args);
    assert WellFormed(c);
    EncodeCommandIsArray(name, args);
    DecodeEncode(c, rest);
  }
}
