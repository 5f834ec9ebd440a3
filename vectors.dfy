/** The byte-level examples of the send and receive test tables, stated about the model:
    Send writes exactly the listed bytes, and Receive decodes each listed reply to the listed
    value. The wire texts are ASCII, taken to bytes by Ascii. */
module Vectors {
  import opened Bytes
  import opened Decimal
  import opened Wrappers
  import opened Resp
  import opened Decoder
  import opened RoundTrip
  import opened Encoder

  // Composing wire texts out of their frames. These helpers, and the one-line frame lemmas
  // below, only split each example into small steps so that every proof stays cheap.

  lemma AsciiConcat(a: string, b: string)
    ensures Ascii(a + b) == Ascii(a) + Ascii(b)
  {
  }

  lemma Ascii3(x: string, y: string, z: string)
    ensures Ascii(x + y + z) == Ascii(x) + Ascii(y) + Ascii(z)
  {
    AsciiConcat(x, y);
    AsciiConcat(x + y, z);
  }

  lemma Ascii4(w: string, x: string, y: string, z: string)
    ensures Ascii(w + x + y + z) == Ascii(w) + Ascii(x) + Ascii(y) + Ascii(z)
  {
    Ascii3(w, x, y);
    AsciiConcat(w + x + y, z);
  }

  lemma Ascii5(v: string, w: string, x: string, y: string, z: string)
    ensures Ascii(v + w + x + y + z) == Ascii(v) + Ascii(w) + Ascii(x) + Ascii(y) + Ascii(z)
  {
    Ascii4(v, w, x, y);
    AsciiConcat(v + w + x + y, z);
  }

  lemma EncodeAllCons(r: Reply, rs: seq<Reply>)
    ensures EncodeAll([r] + rs) == EncodeReply(r) + EncodeAll(rs)
  {
    assert ([r] + rs)[1..] == rs;
  }

  lemma Reassociate(l: seq<byte>, a: seq<byte>, b: seq<byte>, c: seq<byte>, d: seq<byte>)
    ensures l + (a + (b + (c + d))) == l + a + b + c + d
    ensures l + (a + (b + c)) == l + a + b + c
    ensures l + (a + b) == l + a + b
  {
  }

  lemma EncodeArray2(a: Reply, b: Reply)
    ensures EncodeReply(Array([a, b])) == Line(STAR, Format(2)) + EncodeReply(a) + EncodeReply(b)
  {
    EncodeAllCons(b, []);
    EncodeAllCons(a, [b]);
    assert [b] + [] == [b] && [a] + [b] == [a, b];
    Reassociate(Line(STAR, Format(2)), EncodeReply(a), EncodeReply(b) + [], [], []);
  }

  lemma EncodeArray3(a: Reply, b: Reply, c: Reply)
    ensures EncodeReply(Array([a, b, c])) ==
      Line(STAR, Format(3)) + EncodeReply(a) + EncodeReply(b) + EncodeReply(c)
  {
    EncodeAllCons(c, []);
    EncodeAllCons(b, [c]);
    EncodeAllCons(a, [b, c]);
    assert [c] + [] == [c] && [b] + [c] == [b, c] && [a] + [b, c] == [a, b, c];
    assert EncodeReply(c) + [] == EncodeReply(c);
    Reassociate(Line(STAR, Format(3)), EncodeReply(a), EncodeReply(b), EncodeReply(c), []);
  }

  lemma EncodeArray4(a: Reply, b: Reply, c: Reply, d: Reply)
    ensures EncodeReply(Array([a, b, c, d])) ==
      Line(STAR, Format(4)) + EncodeReply(a) + EncodeReply(b) + EncodeReply(c) + EncodeReply(d)
  {
    EncodeAllCons(d, []);
    EncodeAllCons(c, [d]);
    EncodeAllCons(b, [c, d]);
    EncodeAllCons(a, [b, c, d]);
    assert [d] + [] == [d] && [c] + [d] == [c, d] && [b] + [c, d] == [b, c, d] && [a] + [b, c, d] == [a, b, c, d];
    assert EncodeReply(d) + [] == EncodeReply(d);
    Reassociate(Line(STAR, Format(4)), EncodeReply(a), EncodeReply(b), EncodeReply(c), EncodeReply(d));
  }

  lemma EncodeCommand2(name: seq<byte>, a: Arg, b: Arg)
    ensures EncodeCommand(name, [a, b]) ==
      Line(STAR, Format(3)) + BulkFrame(name) + BulkFrame(ArgBytes(a)) + BulkFrame(ArgBytes(b))
  {
    var args := [a, b];
    assert args[..1][..0] == [] && args[..2] == args && args[..1] == [a];
    assert EncodeArgs([a]) == [] + BulkFrame(ArgBytes(a)) == BulkFrame(ArgBytes(a));
  }

  lemma Array2Wire(count: string, p0: string, p1: string, a: Reply, b: Reply)
    requires Ascii(count) == Line(STAR, Format(2))
    requires Ascii(p0) == EncodeReply(a) && Ascii(p1) == EncodeReply(b)
    ensures Ascii(count + p0 + p1) == EncodeReply(Array([a, b]))
  {
    Ascii3(count, p0, p1);
    EncodeArray2(a, b);
  }

  lemma Array3Wire(count: string, p0: string, p1: string, p2: string, a: Reply, b: Reply, c: Reply)
    requires Ascii(count) == Line(STAR, Format(3))
    requires Ascii(p0) == EncodeReply(a) && Ascii(p1) == EncodeReply(b) && Ascii(p2) == EncodeReply(c)
    ensures Ascii(count + p0 + p1 + p2) == EncodeReply(Array([a, b, c]))
  {
    Ascii4(count, p0, p1, p2);
    EncodeArray3(a, b, c);
  }

  lemma Array4Wire(count: string, p0: string, p1: string, p2: string, p3: string,
                   a: Reply, b: Reply, c: Reply, d: Reply)
    requires Ascii(count) == Line(STAR, Format(4))
    requires Ascii(p0) == EncodeReply(a) && Ascii(p1) == EncodeReply(b)
    requires Ascii(p2) == EncodeReply(c) && Ascii(p3) == EncodeReply(d)
    ensures Ascii(count + p0 + p1 + p2 + p3) == EncodeReply(Array([a, b, c, d]))
  {
    Ascii5(count, p0, p1, p2, p3);
    EncodeArray4(a, b, c, d);
  }

  /** A two-argument command whose count line and bulk strings are given as text. */
  lemma Command2Wire(count: string, p0: string, p1: string, p2: string, name: seq<byte>, a: Arg, b: Arg)
    requires Ascii(count) == Line(STAR, Format(3))
    requires Ascii(p0) == BulkFrame(name)
    requires Ascii(p1) == BulkFrame(ArgBytes(a)) && Ascii(p2) == BulkFrame(ArgBytes(b))
    ensures Ascii(count + p0 + p1 + p2) == EncodeCommand(name, [a, b])
  {
    Ascii4(count, p0, p1, p2);
    EncodeCommand2(name, a, b);
  }

  // The frames the tables are made of (splitting steps, as above).

  lemma SetFrame() ensures Ascii("$3\r\nSET\r\n") == BulkFrame(Ascii("SET")) {}
  lemma FooFrame() ensures Ascii("$3\r\nfoo\r\n") == EncodeReply(Bulk(Ascii("foo"))) {}
  lemma BarFrame() ensures Ascii("$3\r\nbar\r\n") == EncodeReply(Bulk(Ascii("bar"))) {}
  lemma HelloFrame() ensures Ascii("$5\r\nHello\r\n") == EncodeReply(Bulk(Ascii("Hello"))) {}
  lemma WorldFrame() ensures Ascii("$5\r\nWorld\r\n") == EncodeReply(Bulk(Ascii("World"))) {}
  lemma EmptyFrame() ensures Ascii("$0\r\n\r\n") == BulkFrame([]) {}
  lemma HundredFrame() ensures Ascii("$3\r\n100\r\n") == BulkFrame(ArgBytes(Number(100))) {}
  lemma NilFrame() ensures Ascii("$-1\r\n") == EncodeReply(Nil) {}
  lemma PongFrame() ensures Ascii("+PONG\r\n") == EncodeReply(SimpleString(Ascii("PONG"))) {}
  lemma NullArrayFrame() ensures Ascii("*-1\r\n") == Line(STAR, Format(-1)) {}
  lemma Count2() ensures Ascii("*2\r\n") == Line(STAR, Format(2)) {}
  lemma Count3() ensures Ascii("*3\r\n") == Line(STAR, Format(3)) {}
  lemma Count4() ensures Ascii("*4\r\n") == Line(STAR, Format(4)) {}

  // The send table: each command is written as these bytes.

  lemma SetFooBarText()
    ensures "*3\r\n$3\r\nSET\r\n$3\r\nfoo\r\n$3\r\nbar\r\n" ==
      "*3\r\n" + "$3\r\nSET\r\n" + "$3\r\nfoo\r\n" + "$3\r\nbar\r\n"
  {
  }

  lemma SendSetFooBar()
    ensures EncodeCommand(Ascii("SET"), [Text(Ascii("foo")), Text(Ascii("bar"))]) ==
      Ascii("*3\r\n$3\r\nSET\r\n$3\r\nfoo\r\n$3\r\nbar\r\n")
  {
    Count3(); SetFrame(); FooFrame(); BarFrame();
    Command2Wire("*3\r\n", "$3\r\nSET\r\n", "$3\r\nfoo\r\n", "$3\r\nbar\r\n",
      Ascii("SET"), Text(Ascii("foo")), Text(Ascii("bar")));
    SetFooBarText();
  }

  lemma SetFooHundredText()
    ensures "*3\r\n$3\r\nSET\r\n$3\r\nfoo\r\n$3\r\n100\r\n" ==
      "*3\r\n" + "$3\r\nSET\r\n" + "$3\r\nfoo\r\n" + "$3\r\n100\r\n"
  {
  }

  lemma SendSetFooInteger()
    ensures EncodeCommand(Ascii("SET"), [Text(Ascii("foo")), Number(100)]) ==
      Ascii("*3\r\n$3\r\nSET\r\n$3\r\nfoo\r\n$3\r\n100\r\n")
  {
    Count3(); SetFrame(); FooFrame(); HundredFrame();
    Command2Wire("*3\r\n", "$3\r\nSET\r\n", "$3\r\nfoo\r\n", "$3\r\n100\r\n",
      Ascii("SET"), Text(Ascii("foo")), Number(100));
    SetFooHundredText();
  }

  lemma SetEmptyFooText()
    ensures "*3\r\n$3\r\nSET\r\n$0\r\n\r\n$3\r\nfoo\r\n" ==
      "*3\r\n" + "$3\r\nSET\r\n" + "$0\r\n\r\n" + "$3\r\nfoo\r\n"
  {
  }

  lemma SendEmptyString()
    ensures EncodeCommand(Ascii("SET"), [Text([]), Blob(Ascii("foo"))]) ==
      Ascii("*3\r\n$3\r\nSET\r\n$0\r\n\r\n$3\r\nfoo\r\n")
  {
    Count3(); SetFrame(); EmptyFrame(); FooFrame();
    Command2Wire("*3\r\n", "$3\r\nSET\r\n", "$0\r\n\r\n", "$3\r\nfoo\r\n",
      Ascii("SET"), Text([]), Blob(Ascii("foo")));
    SetEmptyFooText();
  }

  /** A nil argument is written exactly like an empty string. */
  lemma SendNil()
    ensures EncodeCommand(Ascii("SET"), [NilArg, Blob(Ascii("foo"))]) ==
      Ascii("*3\r\n$3\r\nSET\r\n$0\r\n\r\n$3\r\nfoo\r\n")
  {
    Count3(); SetFrame(); EmptyFrame(); FooFrame();
    Command2Wire("*3\r\n", "$3\r\nSET\r\n", "$0\r\n\r\n", "$3\r\nfoo\r\n",
      Ascii("SET"), NilArg, Blob(Ascii("foo")));
    SetEmptyFooText();
  }

  // The receive table: each reply is decoded to this value.

  lemma ReceiveSimpleString()
    ensures Decode(Ascii("+OK\r\n")) == Ok((SimpleString(Ascii("OK")), []))
  {
    assert Ascii("+OK\r\n") == EncodeReply(SimpleString(Ascii("OK")));
    DecodeWire(SimpleString(Ascii("OK")));
  }

  lemma ReceiveUnknownType()
    ensures Decode(Ascii("@OK\r\n")) == Err(UnknownType(0x40))
  {
    assert Ascii("@OK\r\n") == Line(0x40, Ascii("OK")) + [];
    DecodeUnknownType(0x40, Ascii("OK"), []);
  }

  lemma ReceiveBulk()
    ensures Decode(Ascii("$6\r\nfoobar\r\n")) == Ok((Bulk(Ascii("foobar")), []))
  {
    assert Ascii("$6\r\nfoobar\r\n") == EncodeReply(Bulk(Ascii("foobar")));
    DecodeWire(Bulk(Ascii("foobar")));
  }

  lemma ReceiveNullBulk()
    ensures Decode(Ascii("$-1\r\n")) == Ok((Nil, []))
  {
    NilFrame();
    DecodeWire(Nil);
  }

  lemma ReceiveInteger()
    ensures Decode(Ascii(":1\r\n")) == Ok((Integer(1), []))
  {
    assert Ascii(":1\r\n") == EncodeReply(Integer(1));
    DecodeWire(Integer(1));
  }

  lemma ReceiveEmptyArray()
    ensures Decode(Ascii("*0\r\n")) == Ok((Array([]), []))
  {
    assert Ascii("*0\r\n") == EncodeReply(Array([]));
    DecodeWire(Array([]));
  }

  lemma ReceiveNullArray()
    ensures Decode(Ascii("*-1\r\n")) == Ok((Nil, []))
  {
    NullArrayFrame();
    DecodeNullArray([]);
    assert Line(STAR, Format(-1)) + [] == Line(STAR, Format(-1));
  }

  lemma ArrayText()
    ensures "*4\r\n$3\r\nfoo\r\n$3\r\nbar\r\n$5\r\nHello\r\n$5\r\nWorld\r\n" ==
      "*4\r\n" + "$3\r\nfoo\r\n" + "$3\r\nbar\r\n" + "$5\r\nHello\r\n" + "$5\r\nWorld\r\n"
  {
  }

  lemma ArrayWire()
    ensures Ascii("*4\r\n$3\r\nfoo\r\n$3\r\nbar\r\n$5\r\nHello\r\n$5\r\nWorld\r\n") ==
      EncodeReply(Array([Bulk(Ascii("foo")), Bulk(Ascii("bar")), Bulk(Ascii("Hello")), Bulk(Ascii("World"))]))
  {
    Count4(); FooFrame(); BarFrame(); HelloFrame(); WorldFrame();
    Array4Wire("*4\r\n", "$3\r\nfoo\r\n", "$3\r\nbar\r\n", "$5\r\nHello\r\n", "$5\r\nWorld\r\n",
      Bulk(Ascii("foo")), Bulk(Ascii("bar")), Bulk(Ascii("Hello")), Bulk(Ascii("World")));
    ArrayText();
  }

  lemma ReceiveArray()
    ensures Decode(Ascii("*4\r\n$3\r\nfoo\r\n$3\r\nbar\r\n$5\r\nHello\r\n$5\r\nWorld\r\n")) ==
      Ok((Array([Bulk(Ascii("foo")), Bulk(Ascii("bar")), Bulk(Ascii("Hello")), Bulk(Ascii("World"))]), []))
  {
    ArrayWire();
    DecodeWire(Array([Bulk(Ascii("foo")), Bulk(Ascii("bar")), Bulk(Ascii("Hello")), Bulk(Ascii("World"))]));
  }

  lemma ArrayWithNilText()
    ensures "*3\r\n$3\r\nfoo\r\n$-1\r\n$3\r\nbar\r\n" ==
      "*3\r\n" + "$3\r\nfoo\r\n" + "$-1\r\n" + "$3\r\nbar\r\n"
  {
  }

  lemma ArrayWithNilWire()
    ensures Ascii("*3\r\n$3\r\nfoo\r\n$-1\r\n$3\r\nbar\r\n") ==
      EncodeReply(Array([Bulk(Ascii("foo")), Nil, Bulk(Ascii("bar"))]))
  {
    Count3(); FooFrame(); NilFrame(); BarFrame();
    Array3Wire("*3\r\n", "$3\r\nfoo\r\n", "$-1\r\n", "$3\r\nbar\r\n", Bulk(Ascii("foo")), Nil, Bulk(Ascii("bar")));
    ArrayWithNilText();
  }

  lemma ReceiveArrayWithNil()
    ensures Decode(Ascii("*3\r\n$3\r\nfoo\r\n$-1\r\n$3\r\nbar\r\n")) ==
      Ok((Array([Bulk(Ascii("foo")), Nil, Bulk(Ascii("bar"))]), []))
  {
    ArrayWithNilWire();
    DecodeWire(Array([Bulk(Ascii("foo")), Nil, Bulk(Ascii("bar"))]));
  }

  lemma BarFooWire()
    ensures Ascii("*2\r\n" + "$3\r\nbar\r\n" + "$3\r\nfoo\r\n") ==
      EncodeReply(Array([Bulk(Ascii("bar")), Bulk(Ascii("foo"))]))
  {
    Count2(); FooFrame(); BarFrame();
    Array2Wire("*2\r\n", "$3\r\nbar\r\n", "$3\r\nfoo\r\n", Bulk(Ascii("bar")), Bulk(Ascii("foo")));
  }

  lemma NestedArrayText()
    ensures "*2\r\n*2\r\n$3\r\nbar\r\n$3\r\nfoo\r\n+PONG\r\n" ==
      "*2\r\n" + ("*2\r\n" + "$3\r\nbar\r\n" + "$3\r\nfoo\r\n") + "+PONG\r\n"
  {
  }

  lemma NestedArrayWire()
    ensures Ascii("*2\r\n*2\r\n$3\r\nbar\r\n$3\r\nfoo\r\n+PONG\r\n") ==
      EncodeReply(Array([Array([Bulk(Ascii("bar")), Bulk(Ascii("foo"))]), SimpleString(Ascii("PONG"))]))
  {
    Count2(); BarFooWire(); PongFrame();
    Array2Wire("*2\r\n", "*2\r\n" + "$3\r\nbar\r\n" + "$3\r\nfoo\r\n", "+PONG\r\n",
      Array([Bulk(Ascii("bar")), Bulk(Ascii("foo"))]), SimpleString(Ascii("PONG")));
    NestedArrayText();
  }

  /** The reply to EXEC in the command table: an array holding an array and a status. */
  lemma ReceiveNestedArray()
    ensures Decode(Ascii("*2\r\n*2\r\n$3\r\nbar\r\n$3\r\nfoo\r\n+PONG\r\n")) ==
      Ok((Array([Array([Bulk(Ascii("bar")), Bulk(Ascii("foo"))]), SimpleString(Ascii("PONG"))]), []))
  {
    NestedArrayWire();
    DecodeWire(Array([Array([Bulk(Ascii("bar")), Bulk(Ascii("foo"))]), SimpleString(Ascii("PONG"))]));
  }
}
