/** Worked examples of the standards, computed by the specification. */
module KnownAnswers {
  import opened Bytes
  import HeadParser
  import Base64
  import opened WsFrames

  // ---------------------------------------------------------------- methods

  /** The nine names of methods. */
  lemma MethodNames()
    ensures HeadParser.MethodOf("GET") == Some(HeadParser.GET) && HeadParser.MethodOf("POST") == Some(HeadParser.POST)
    ensures HeadParser.MethodOf("PUT") == Some(HeadParser.PUT) && HeadParser.MethodOf("PATCH") == Some(HeadParser.PATCH)
    ensures HeadParser.MethodOf("DELETE") == Some(HeadParser.DEL) && HeadParser.MethodOf("HEAD") == Some(HeadParser.HEAD)
    ensures HeadParser.MethodOf("OPTIONS") == Some(HeadParser.OPTIONS) && HeadParser.MethodOf("TRACE") == Some(HeadParser.TRACE)
    ensures HeadParser.MethodOf("CONNECT") == Some(HeadParser.CONNECT)
  {
  }

  /** Numbers are written in base ten. */
  lemma DecimalText()
    ensures Decimal(0) == "0" && Decimal(101) == "101" && Decimal(2048) == "2048"
  {
    assert Decimal(1) == "1" && Decimal(10) == "10" && Decimal(2) == "2" && Decimal(20) == "20" && Decimal(204) == "204";
  }

  // ---------------------------------------------------------------- WebSocket frames: section 5.7 of RFC 6455

  const HELLO: bytes := "Hello"

  ghost function Octet(n: nat): byte
    requires n < 256
  {
    n as char
  }

  /** Unmasked text, the same in two fragments, and a ping. */
  lemma UnmaskedText()
    ensures Encoded(Sent(Frame(true, Text, HELLO), None)) == [Octet(0x81), Octet(0x05)] + HELLO
    ensures Encoded(Sent(Frame(false, Text, "Hel"), None)) == [Octet(0x01), Octet(0x03)] + "Hel"
    ensures Encoded(Sent(Frame(true, Continuation, "lo"), None)) == [Octet(0x80), Octet(0x02)] + "lo"
    ensures Encoded(Sent(Frame(true, Ping, HELLO), None)) == [Octet(0x89), Octet(0x05)] + HELLO
  {
  }

  /** A masked frame: the mask bit, the key, and the text under it. */
  lemma MaskedText(key: Mask)
    ensures Encoded(Sent(Frame(true, Text, HELLO), Some(key))) == [Octet(0x81), Octet(0x85)] + key + Masked(HELLO, Some(key))
    ensures Encoded(Sent(Frame(true, Pong, HELLO), Some(key))) == [Octet(0x8a), Octet(0x85)] + key + Masked(HELLO, Some(key))
  {
    hide Masked;
  }

  /** 256 bytes, 64 KiB, and the close frame with code 1000. */
  lemma LongFrames(data: bytes)
    ensures |data| == 256 ==>
      HeadBytes(Sent(Frame(true, Binary, data), None)) == [Octet(0x82), Octet(0x7e), Octet(0x01), Octet(0x00)]
    ensures |data| == 65536 ==>
      HeadBytes(Sent(Frame(true, Binary, data), None)) ==
        [Octet(0x82), Octet(0x7f), Octet(0), Octet(0), Octet(0), Octet(0), Octet(0), Octet(1), Octet(0), Octet(0)]
    ensures var code: bytes := [Octet(0x03), Octet(0xe8)];
      Encoded(Sent(Frame(true, Close, code), None)) == [Octet(0x88), Octet(0x02)] + code
  {
    if |data| == 65536 {
      var b := LongLength(65536);
      assert b == [Octet(0), Octet(0), Octet(0), Octet(0), Octet(0), Octet(1), Octet(0), Octet(0)];
    }
  }

  // ---------------------------------------------------------------- Base64: section 10 of RFC 4648

  /** Two whole groups. */
  lemma Foobar()
    ensures Base64.Encoded("foobar") == "Zm9vYmFy"
  {
    GroupIs('f', 'o', 'o', "Zm9v");
    GroupIs('b', 'a', 'r', "YmFy");
    hide Base64.Symbols;
    hide Base64.Group;
    assert "foobar"[3..] == "bar" && "bar"[3..] == [];
    assert Base64.Encoded("bar") == "YmFy" + [];
  }

  /** A group of two bytes, and one of a single byte. */
  lemma Padded()
    ensures Base64.Encoded("ba") == "YmE=" && Base64.Encoded("b") == "Yg=="
  {
    GroupIs('b', 'a', 0 as char, "YmEA");
    GroupIs('b', 0 as char, 0 as char, "YgAA");
    hide Base64.Symbols;
    hide Base64.Group;
    assert Base64.Encoded("ba") == "YmEA"[..3] + "=" && Base64.Encoded("b") == "YgAA"[..2] + "==";
  }

  lemma GroupIs(a: byte, b: byte, c: byte, s: bytes)
    requires |s| == 4 && Base64.Value(s[0]) * 0x4_0000 + Base64.Value(s[1]) * 0x1000 + Base64.Value(s[2]) * 64 + Base64.Value(s[3])
      == Base64.Group(a, b, c)
    requires forall i :: 0 <= i < 4 ==> Base64.IsAlnum(s[i])
    ensures Base64.Symbols(Base64.Group(a, b, c)) == s
  {
    hide Base64.Symbol;
    hide Base64.Value;
    hide Base64.Group;
    var n := Base64.Group(a, b, c);
    SymbolOf(s[0]);
    SymbolOf(s[1]);
    SymbolOf(s[2]);
    SymbolOf(s[3]);
    Sextets(Base64.Value(s[0]), Base64.Value(s[1]), Base64.Value(s[2]), Base64.Value(s[3]));
  }

  lemma SymbolOf(c: byte)
    requires Base64.IsAlnum(c)
    ensures Base64.Symbol(Base64.Value(c)) == c
  {
  }

  lemma Sextets(p: nat, q: nat, r: nat, s: nat)
    requires p < 64 && q < 64 && r < 64 && s < 64
    ensures var n := p * 0x4_0000 + q * 0x1000 + r * 64 + s;
      n / 0x4_0000 == p && n / 0x1000 % 64 == q && n / 64 % 64 == r && n % 64 == s
  {
    var n := p * 0x4_0000 + q * 0x1000 + r * 64 + s;
    assert n / 64 == p * 0x1000 + q * 64 + r;
    assert n / 0x1000 == p * 64 + q;
  }
}
