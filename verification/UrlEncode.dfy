/** Percent-encoding of URI components. */
module UrlEncode {
  import opened Bytes

  /** The loop over the safe list runs one element too far, so NUL counts as safe as well. */
  const SAFE_LIST: bytes := "$-_.+!*'()\0"

  predicate UrlSafe(c: byte) {
    IsDigit(c) || 'A' <= c <= 'Z' || 'a' <= c <= 'z' || c in SAFE_LIST
  }

  function HexDigit(n: nat): byte
    requires n < 16
  {
    if n < 10 then ('0' as int + n) as char else ('A' as int + n - 10) as char
  }

  function EncodedRune(c: byte): (r: bytes)
    ensures r != []
  {
    if UrlSafe(c) then [c] else ['%', HexDigit(c as int / 16), HexDigit(c as int % 16)]
  }

  function Encoded(s: bytes): (r: bytes)
    ensures s != [] ==> r != []
  {
    if s == [] then [] else EncodedRune(s[0]) + Encoded(s[1..])
  }

  function HexValue(c: byte): Option<nat> {
    if IsDigit(c) then Some(c as int - '0' as int)
    else if 'a' <= c <= 'f' then Some(c as int - 'a' as int + 10)
    else if 'A' <= c <= 'F' then Some(c as int - 'A' as int + 10)
    else None
  }

  function ReadHex(s: bytes, acc: nat): nat {
    if s == [] || HexValue(s[0]).None? then acc else ReadHex(s[1..], acc * 16 + HexValue(s[0]).value)
  }

  /** `std::stoi(s, nullptr, 16)` of at most two characters, narrowed to a byte; None where it
      throws. Two characters leave no room for digits after a `0x` prefix. */
  function HexByte(s: bytes): Option<byte> {
    var t := SkipSpaces(s);
    var signed := t != [] && (t[0] == '-' || t[0] == '+');
    var digits := if signed then t[1..] else t;
    if digits == [] || HexValue(digits[0]).None? then None
    else
      var n := ReadHex(digits, 0);
      Some((if signed && t[0] == '-' then (256 - n % 256) % 256 else n % 256) as char)
  }

  function Prefixed(out: bytes, rest: Option<bytes>): Option<bytes> {
    match rest
    case None => None
    case Some(t) => Some(out + t)
  }

  lemma PrefixedTwice(a: bytes, b: bytes, rest: Option<bytes>)
    ensures Prefixed(a + b, rest) == Prefixed(a, Prefixed(b, rest))
    ensures Prefixed([], rest) == rest
  {
    match rest
    case None =>
    case Some(t) =>
      assert a + b + t == a + (b + t);
      assert [] + t == t;
  }

  /** None where the conversion of an escape throws. */
  function Decoded(s: bytes): Option<bytes>
    decreases |s|
  {
    if s == [] then Some([])
    else if s[0] == '%' then
      var end := if |s| < 3 then |s| else 3;
      match HexByte(s[1..end])
      case None => None
      case Some(c) => Prefixed([c], Decoded(s[end..]))
    else Prefixed([s[0]], Decoded(s[1..]))
  }

  lemma EncodedStep(s: bytes)
    requires s != []
    ensures Encoded(s) == EncodedRune(s[0]) + Encoded(s[1..])
  {
  }

  method EncodeUriComponent(input: bytes) returns (result: bytes)
    ensures result == Encoded(input)
  {
    hide Encoded;
    hide HexDigit;
    result := [];
    assert input[0..] == input;
    for i := 0 to |input|
      invariant result + Encoded(input[i..]) == Encoded(input)
    {
      var rune := input[i];
      ghost var before := result;
      EncodedStep(input[i..]);
      assert input[i..][1..] == input[i + 1..];
      assert before + (EncodedRune(rune) + Encoded(input[i + 1..])) == before + EncodedRune(rune) + Encoded(input[i + 1..]);
      if UrlSafe(rune) {
        result := result + [rune];
        continue;
      }
      result := result + ['%'];
      result := result + [HexDigit(rune as int / 16)];
      result := result + [HexDigit(rune as int % 16)];
      assert result == before + EncodedRune(rune);
    }
    EncodedNothing();
    assert input[|input|..] == [] && result + [] == result;
  }

  lemma EncodedNothing()
    ensures Encoded([]) == []
  {
  }

  method DecodeUriComponent(input: bytes) returns (result: Option<bytes>)
    ensures result == Decoded(input)
  {
    hide Prefixed;
    hide HexByte;
    var out: bytes := [];
    var i := 0;
    PrefixedTwice([], [], Decoded(input));
    assert input[0..] == input;
    while i < |input|
      invariant i <= |input|
      invariant Prefixed(out, Decoded(input[i..])) == Decoded(input)
    {
      var rune := input[i];
      ghost var rest := input[i..];
      if rune == '%' {
        var end := if i + 3 <= |input| then i + 3 else |input|;
        assert rest[1..end - i] == input[i + 1..end] && rest[end - i..] == input[end..];
        var c := HexByte(input[i + 1..end]);
        if c.None? {
          PrefixedNone(out);
          return None;
        }
        PrefixedTwice(out, [c.value], Decoded(input[end..]));
        out := out + [c.value];
        i := end;
        continue;
      }
      assert rest[1..] == input[i + 1..];
      PrefixedTwice(out, [rune], Decoded(input[i + 1..]));
      out := out + [rune];
      i := i + 1;
    }
    PrefixedSome(out);
    return Some(out);
  }

  lemma PrefixedNone(out: bytes)
    ensures Prefixed(out, None) == None
  {
  }

  lemma PrefixedSome(out: bytes)
    ensures Prefixed(out, Decoded([])) == Some(out)
  {
    assert out + [] == out;
  }

  lemma HexByteOf(c: byte)
    ensures HexByte([HexDigit(c as int / 16), HexDigit(c as int % 16)]) == Some(c)
  {
    var hi, lo := HexDigit(c as int / 16), HexDigit(c as int % 16);
    var s: bytes := [hi, lo];
    assert HexValue(hi) == Some(c as int / 16) && HexValue(lo) == Some(c as int % 16);
    assert SkipSpaces(s) == s;
    assert s[1..] == [lo] && s[1..][1..] == [];
    assert ReadHex(s[1..], c as int / 16) == c as int;
    assert ReadHex(s, 0) == c as int;
    assert hi != '-' && hi != '+';
    assert HexByte(s).Some?;
    assert HexByte(s).value as int == c as int % 256;
  }

  /** Text without escapes is decoded as it is; a plus sign stays a plus sign. */
  lemma {:induction false} DecodedPlain(s: bytes)
    requires '%' !in s
    ensures Decoded(s) == Some(s)
  {
    if s != [] {
      DecodedPlain(s[1..]);
      assert [s[0]] + s[1..] == s;
    }
  }

  lemma DecodedRune(c: byte, rest: bytes)
    ensures Decoded(EncodedRune(c) + rest) == Prefixed([c], Decoded(rest))
  {
    var s := EncodedRune(c) + rest;
    if UrlSafe(c) {
      assert s[1..] == rest;
    } else {
      assert s[1..3] == [HexDigit(c as int / 16), HexDigit(c as int % 16)] && s[3..] == rest;
      HexByteOf(c);
    }
  }

  /** Decoding undoes encoding for every byte string. */
  lemma {:induction false} DecodedEncoded(s: bytes)
    ensures Decoded(Encoded(s)) == Some(s)
  {
    if s != [] {
      DecodedRune(s[0], Encoded(s[1..]));
      DecodedEncoded(s[1..]);
      assert [s[0]] + s[1..] == s;
    }
  }

  /** Digits, letters and these ten marks are printed as they are, and so is NUL; any other character as its two
      hexadecimal digits. */
  lemma EncodedIs(c: byte)
    ensures Encoded([c]) ==
      if '0' <= c <= '9' || 'A' <= c <= 'Z' || 'a' <= c <= 'z' || c in "$-_.+!*'()" || c as int == 0 then [c]
      else ['%', "0123456789ABCDEF"[c as int / 16], "0123456789ABCDEF"[c as int % 16]]
  {
    var s: bytes := [c];
    assert s[1..] == [] && EncodedRune(c) + [] == EncodedRune(c);
    HexDigitIs(c as int / 16);
    HexDigitIs(c as int % 16);
  }

  lemma HexDigitIs(n: nat)
    requires n < 16
    ensures HexDigit(n) == "0123456789ABCDEF"[n]
  {
  }

  /** Text concatenated is encoded in parts. */
  lemma {:induction false} EncodedConcat(s: bytes, t: bytes)
    ensures Encoded(s + t) == Encoded(s) + Encoded(t)
    decreases |s|
  {
    hide EncodedRune;
    if s == [] {
      assert s + t == t;
    } else {
      assert (s + t)[1..] == s[1..] + t;
      EncodedConcat(s[1..], t);
    }
  }

  /** The number a hexadecimal digit of either case stands for. */
  ghost function HexOf(c: byte): Option<nat> {
    if '0' <= c <= '9' then Some(c as int - 48)
    else if 'A' <= c <= 'F' then Some(c as int - 55)
    else if 'a' <= c <= 'f' then Some(c as int - 87)
    else None
  }

  /** What two characters behind a percent sign stand for: two digits, one that something else follows, or one
      behind a blank or a sign, of which a minus takes it modulo 256; anything else throws. */
  ghost function EscapeOf(a: byte, b: byte): Option<byte> {
    if HexOf(a).Some? then Some((if HexOf(b).Some? then HexOf(a).value * 16 + HexOf(b).value else HexOf(a).value) as char)
    else if HexOf(b).None? then None
    else if a == ' ' || 9 <= a as int <= 13 || a == '+' then Some(HexOf(b).value as char)
    else if a == '-' then Some(((256 - HexOf(b).value) % 256) as char)
    else None
  }

  lemma EscapeReads(a: byte, b: byte, rest: bytes)
    ensures Decoded(['%', a, b] + rest) == if EscapeOf(a, b).None? then None else Prefixed([EscapeOf(a, b).value], Decoded(rest))
    ensures Decoded(['%', a]) == if HexOf(a).Some? then Some([HexOf(a).value as char]) else None
    ensures Decoded(['%']) == None
  {
    hide HexByte;
    hide Decoded;
    hide EscapeOf;
    hide HexOf;
    EscapeStep(['%', a, b] + rest);
    EscapeStep(['%', a]);
    EscapeStep(['%']);
    assert (['%', a, b] + rest)[1..3] == [a, b] && (['%', a, b] + rest)[3..] == rest;
    assert ['%', a][1..2] == [a] && ['%', a][2..] == [] && ['%'][1..1] == [] && ['%'][1..] == [];
    TwoRead(a, b);
    OneReads(a);
    DecodedNothing();
    assert forall c: byte :: [c] + [] == [c];
  }

  lemma TwoRead(a: byte, b: byte)
    ensures HexByte([a, b]) == EscapeOf(a, b)
  {
    hide ReadHex;
    hide HexValue;
    hide SkipSpaces;
    hide IsSpace;
    HexRead(a, b);
    HexSkips(a, b);
    HexPlain(a);
    HexPlain(b);
  }

  lemma OneReads(a: byte)
    ensures HexByte([a]) == (if HexOf(a).Some? then Some(HexOf(a).value as char) else None) && HexByte([]) == None
  {
    HexRead(a, a);
    HexSkips(a, a);
    HexPlain(a);
    hide ReadHex;
    hide HexValue;
    hide SkipSpaces;
  }

  lemma HexPlain(a: byte)
    ensures HexOf(a).Some? ==> !IsSpace(a) && a != '-' && a != '+'
    ensures HexOf(a).Some? ==> HexOf(a).value < 16
  {
  }

  lemma EscapeStep(s: bytes)
    requires s != [] && s[0] == '%'
    ensures var end := if |s| < 3 then |s| else 3;
      Decoded(s) == match HexByte(s[1..end]) { case None => None case Some(c) => Prefixed([c], Decoded(s[end..])) }
  {
    hide HexByte;
  }

  lemma DecodedNothing()
    ensures Decoded([]) == Some([])
  {
  }

  lemma HexRead(a: byte, b: byte)
    ensures HexValue(a) == HexOf(a) && HexValue(b) == HexOf(b)
    ensures HexOf(a).Some? ==>
      ReadHex([a, b], 0) == if HexOf(b).Some? then HexOf(a).value * 16 + HexOf(b).value else HexOf(a).value
    ensures HexOf(a).Some? ==> ReadHex([a], 0) == HexOf(a).value
    ensures HexOf(b).Some? ==> ReadHex([b], 0) == HexOf(b).value
  {
    assert [a, b][1..] == [b] && [a][1..] == [] && [b][1..] == [];
    assert HexOf(a).Some? ==> ReadHex([a, b], 0) == ReadHex([b], HexOf(a).value);
  }

  lemma HexSkips(a: byte, b: byte)
    ensures SkipSpaces([a, b]) == if !IsSpace(a) then [a, b] else if !IsSpace(b) then [b] else []
    ensures SkipSpaces([a]) == if !IsSpace(a) then [a] else []
    ensures IsSpace(a) <==> a == ' ' || 9 <= a as int <= 13
    ensures SkipSpaces([]) == [] && [a, b][1..] == [b] && [b][1..] == [] && [a][1..] == []
  {
    assert [a, b][1..] == [b] && [a][1..] == [] && [b][1..] == [];
  }

  /** Encoded text never contains the separators of a query or of a URL. */
  lemma {:induction false} EncodedIsPlain(s: bytes)
    ensures forall c :: c in Encoded(s) ==> c != '&' && c != '=' && c != '#' && c != '?' && c != '/' && c != ':' && c != '@'
  {
    if s != [] {
      EncodedIsPlain(s[1..]);
      assert forall c :: c in EncodedRune(s[0]) ==> c != '&' && c != '=' && c != '#' && c != '?' && c != '/' && c != ':' && c != '@';
    }
  }
}
