/** Base64: bit twiddling over index loops, proved against the 24-bit groups of section 4 of RFC 4648. */
module Base64 {
  import opened Bytes

  // ---------------------------------------------------------------- the standard

  /** The symbol for six bits. */
  function Symbol(n: nat): byte
    requires n < 64
  {
    if n < 26 then ('A' as int + n) as char
    else if n < 52 then ('a' as int + n - 26) as char
    else if n < 62 then ('0' as int + n - 52) as char
    else if n == 62 then '+' else '/'
  }

  /** The six bits a symbol stands for; anything else, the padding included, stands for zero. */
  function Value(c: byte): (n: nat)
    ensures n < 64
  {
    if 'A' <= c <= 'Z' then c as int - 'A' as int
    else if 'a' <= c <= 'z' then c as int - 'a' as int + 26
    else if '0' <= c <= '9' then c as int - '0' as int + 52
    else if c == '+' then 62
    else if c == '/' then 63 else 0
  }

  /** Three bytes as a group of 24 bits. */
  function Group(a: byte, b: byte, c: byte): (n: nat)
    ensures n < 0x100_0000
  {
    a as int * 0x1_0000 + b as int * 0x100 + c as int
  }

  /** A group of 24 bits as four symbols. */
  function Symbols(n: nat): (r: bytes)
    requires n < 0x100_0000
    ensures |r| == 4
  {
    [Symbol(n / 0x4_0000), Symbol(n / 0x1000 % 64), Symbol(n / 64 % 64), Symbol(n % 64)]
  }

  /** What `encode` makes of a text: four symbols for three bytes, the last group filled with zero
      bits and padded. */
  function Encoded(x: bytes): bytes
    decreases |x|
  {
    if x == [] then []
    else if |x| == 1 then Symbols(Group(x[0], 0 as char, 0 as char))[..2] + "=="
    else if |x| == 2 then Symbols(Group(x[0], x[1], 0 as char))[..3] + "="
    else Symbols(Group(x[0], x[1], x[2])) + Encoded(x[3..])
  }

  /** Four symbols as three bytes. */
  function Triple(a: byte, b: byte, c: byte, d: byte): (r: bytes)
    ensures |r| == 3
  {
    var n := Value(a) * 0x4_0000 + Value(b) * 0x1000 + Value(c) * 64 + Value(d);
    [(n / 0x1_0000) as char, (n / 0x100 % 256) as char, (n % 256) as char]
  }

  /** Every whole group as bytes. */
  function Triples(data: bytes): (r: bytes)
    ensures |r| == |data| / 4 * 3
    decreases |data|
  {
    if |data| < 4 then []
    else Triple(data[0], data[1], data[2], data[3]) + Triples(data[4..])
  }

  /** The padding signs among the last two symbols. */
  function Padding(data: bytes): (r: nat)
    requires |data| >= 2
    ensures r <= 2
  {
    (if data[|data| - 1] == '=' then 1 else 0) + (if data[|data| - 2] == '=' then 1 else 0)
  }

  /** What `decode` returns; None where it reads or writes outside its buffers, which is on no
      symbols at all and on two or three that are left over. */
  function Decoded(data: bytes): Option<bytes> {
    var rest := |data| % 4;
    var whole := Triples(data[..|data| - rest]);
    if rest == 1 then Some(whole + [(Value(data[|data| - 1]) * 4) as char])
    else if rest > 1 || data == [] then None
    else Some(whole[..|whole| - Padding(data)])
  }

  predicate IsAlnum(c: byte) {
    IsDigit(c) || 'A' <= c <= 'Z' || 'a' <= c <= 'z'
  }

  predicate ValidSymbol(c: byte) {
    IsAlnum(c) || c == '+' || c == '/' || c == '='
  }

  // ---------------------------------------------------------------- the law

  lemma ValueOfSymbol(n: nat)
    requires n < 64
    ensures Value(Symbol(n)) == n && Symbol(n) != '=' && ValidSymbol(Symbol(n))
  {
  }

  /** The alphabet of section 4 of RFC 4648: capital letters, small letters, and these. */
  lemma AlphabetIs(n: nat)
    ensures n < 26 ==> Symbol(n) == "ABCDEFGHIJKLMNOPQRSTUVWXYZ"[n] && Symbol(n + 26) == "abcdefghijklmnopqrstuvwxyz"[n]
    ensures n < 12 ==> Symbol(n + 52) == "0123456789+/"[n]
  {
    if n < 26 {
      CapitalIs(n);
      SmallIs(n);
    }
  }

  lemma CapitalIs(n: nat)
    requires n < 26
    ensures "ABCDEFGHIJKLMNOPQRSTUVWXYZ"[n] as int == 65 + n
  {
  }

  lemma SmallIs(n: nat)
    requires n < 26
    ensures "abcdefghijklmnopqrstuvwxyz"[n] as int == 97 + n
  {
  }

  /** A text is taken for Base64 when it holds nothing but these symbols and padding signs; what is no symbol stands
      for zero bits. */
  lemma ValidSymbolIff(c: byte)
    ensures ValidSymbol(c) <==> c == '=' || exists n :: 0 <= n < 64 && Symbol(n) == c
    ensures (forall n :: 0 <= n < 64 ==> Symbol(n) != c) ==> Value(c) == 0
  {
    forall n | 0 <= n < 64 ensures ValidSymbol(Symbol(n)) {
      ValueOfSymbol(n);
    }
    if ValidSymbol(c) && c != '=' {
      assert Symbol(Value(c)) == c;
    }
    if Value(c) != 0 {
      assert Symbol(Value(c)) == c;
    }
  }

  lemma Regrouped(n: nat)
    ensures n / 0x4_0000 * 0x4_0000 + n / 0x1000 % 64 * 0x1000 + n / 64 % 64 * 64 + n % 64 == n
  {
    var q := n / 64;
    var r := q / 64;
    assert n / 0x1000 == r && n / 0x4_0000 == r / 64;
  }

  lemma GroupBytes(a: byte, b: byte, c: byte)
    ensures var n := Group(a, b, c);
      n / 0x1_0000 == a as int && n / 0x100 % 256 == b as int && n % 256 == c as int
  {
    var top := a as int * 0x100 + b as int;
    assert Group(a, b, c) == top * 0x100 + c as int;
    assert Group(a, b, c) / 0x100 == top && top / 0x100 == a as int;
  }

  /** Symbols are read back as the bytes they were made of. */
  lemma TripleOfSymbols(a: byte, b: byte, c: byte)
    ensures var s := Symbols(Group(a, b, c)); Triple(s[0], s[1], s[2], s[3]) == [a, b, c]
  {
    hide Symbol;
    hide Value;
    hide Group;
    var n := Group(a, b, c);
    GroupBytes(a, b, c);
    Regrouped(n);
    ValueOfSymbol(n / 0x4_0000);
    ValueOfSymbol(n / 0x1000 % 64);
    ValueOfSymbol(n / 64 % 64);
    ValueOfSymbol(n % 64);
  }

  lemma GroupLow(a: byte, b: byte)
    ensures Group(a, b, 0 as char) % 64 == 0
    ensures Group(a, 0 as char, 0 as char) / 64 % 64 == 0
  {
  }

  lemma ZeroValues()
    ensures Value(Symbol(0)) == 0 == Value('=')
  {
  }

  /** A padding sign is read as the zero bits it stands in for. */
  lemma PaddedOnce(a: byte, b: byte)
    ensures var s := Symbols(Group(a, b, 0 as char)); Triple(s[0], s[1], s[2], '=') == [a, b, 0 as char]
  {
    hide Triple;
    hide Group;
    hide Symbol;
    hide Value;
    TripleOfSymbols(a, b, 0 as char);
    GroupLow(a, b);
    ZeroValues();
    var s := Symbols(Group(a, b, 0 as char));
    TripleByValue(s[0], s[1], s[2], s[2], s[3], '=');
  }

  lemma PaddedTwice(a: byte)
    ensures var s := Symbols(Group(a, 0 as char, 0 as char));
      Triple(s[0], s[1], '=', '=') == [a, 0 as char, 0 as char]
  {
    hide Triple;
    hide Group;
    hide Symbol;
    hide Value;
    TripleOfSymbols(a, 0 as char, 0 as char);
    GroupLow(a, 0 as char);
    ZeroValues();
    var s := Symbols(Group(a, 0 as char, 0 as char));
    TripleByValue(s[0], s[1], s[2], '=', s[3], '=');
  }

  lemma TripleByValue(a: byte, b: byte, c: byte, c': byte, d: byte, d': byte)
    requires Value(c) == Value(c') && Value(d) == Value(d')
    ensures Triple(a, b, c, d) == Triple(a, b, c', d')
  {
  }

  lemma SymbolsPlain(n: nat)
    requires n < 0x100_0000
    ensures forall i :: 0 <= i < 4 ==> Symbols(n)[i] != '=' && ValidSymbol(Symbols(n)[i])
  {
    hide Symbol;
    ValueOfSymbol(n / 0x4_0000);
    ValueOfSymbol(n / 0x1000 % 64);
    ValueOfSymbol(n / 64 % 64);
    ValueOfSymbol(n % 64);
  }

  lemma {:induction false} EncodedLength(x: bytes)
    ensures |Encoded(x)| == (|x| + 2) / 3 * 4
    decreases |x|
  {
    hide Symbols;
    hide Group;
    if |x| >= 3 {
      EncodedLength(x[3..]);
    }
  }

  lemma {:induction false} EncodedValid(x: bytes)
    ensures forall c :: c in Encoded(x) ==> ValidSymbol(c)
    decreases |x|
  {
    hide Symbols;
    if |x| >= 3 {
      SymbolsPlain(Group(x[0], x[1], x[2]));
      EncodedValid(x[3..]);
    } else if |x| == 2 {
      SymbolsPlain(Group(x[0], x[1], 0 as char));
    } else if |x| == 1 {
      SymbolsPlain(Group(x[0], 0 as char, 0 as char));
    }
  }

  /** The zero bytes that fill the last group. */
  function Filling(n: nat): bytes {
    if n % 3 == 0 then [] else if n % 3 == 1 then [0 as char, 0 as char] else [0 as char]
  }

  lemma TriplesFirst(first: bytes, rest: bytes)
    requires |first| == 4
    ensures Triples(first + rest) == Triple(first[0], first[1], first[2], first[3]) + Triples(rest)
    ensures |rest| >= 2 ==> Padding(first + rest) == Padding(rest)
  {
    hide Triple;
    assert (first + rest)[4..] == rest;
  }

  lemma EncodedTwo(x: bytes)
    requires |x| == 2
    ensures |Encoded(x)| == 4 && Triples(Encoded(x)) == x + [0 as char] && Padding(Encoded(x)) == 1
  {
    hide Group;
    hide Symbols;
    hide Triple;
    hide Triples;
    var s := Symbols(Group(x[0], x[1], 0 as char));
    SymbolsPlain(Group(x[0], x[1], 0 as char));
    PaddedOnce(x[0], x[1]);
    LastTriple(s[..3] + "=");
    assert x == [x[0], x[1]];
  }

  lemma EncodedOne(x: bytes)
    requires |x| == 1
    ensures |Encoded(x)| == 4 && Triples(Encoded(x)) == x + [0 as char, 0 as char] && Padding(Encoded(x)) == 2
  {
    hide Group;
    hide Symbols;
    hide Triple;
    hide Triples;
    var s := Symbols(Group(x[0], 0 as char, 0 as char));
    PaddedTwice(x[0]);
    LastTriple(s[..2] + "==");
    assert x == [x[0]];
  }

  lemma EncodedMore(x: bytes)
    requires |x| >= 3
    ensures Encoded(x) == Symbols(Group(x[0], x[1], x[2])) + Encoded(x[3..])
  {
  }

  lemma {:induction false} TriplesOfEncoded(x: bytes)
    ensures |Encoded(x)| % 4 == 0
    ensures Triples(Encoded(x)) == x + Filling(|x|)
    ensures x != [] ==> |Encoded(x)| >= 4 && Padding(Encoded(x)) == |Filling(|x|)|
    decreases |x|
  {
    hide Group;
    hide Symbols;
    hide Triple;
    hide Triples;
    hide Encoded;
    if |x| >= 3 {
      var first := Symbols(Group(x[0], x[1], x[2]));
      EncodedMore(x);
      SymbolsPlain(Group(x[0], x[1], x[2]));
      TripleOfSymbols(x[0], x[1], x[2]);
      TriplesOfEncoded(x[3..]);
      TriplesFirst(first, Encoded(x[3..]));
      assert x == [x[0], x[1], x[2]] + x[3..];
      if |x| == 3 {
        assert Encoded(x) == first;
      }
    } else if |x| == 2 {
      EncodedTwo(x);
    } else if |x| == 1 {
      EncodedOne(x);
    } else {
      EncodedNothing();
    }
  }

  lemma LastTriple(last: bytes)
    requires |last| == 4
    ensures Triples(last) == Triple(last[0], last[1], last[2], last[3])
  {
    hide Triple;
    assert last[4..] == [] && Triples([]) == [];
  }

  /** Decoding encoded bytes gives them back exactly when there are any. */
  lemma Base64RoundTripIff(x: bytes)
    ensures Decoded(Encoded(x)) == Some(x) <==> x != []
  {
    hide Encoded;
    TriplesOfEncoded(x);
    EncodedNothing();
    var data := Encoded(x);
    assert data[..|data|] == data;
    if x != [] {
      assert (x + Filling(|x|))[..|x|] == x;
    }
  }

  lemma EncodedNothing()
    ensures Encoded([]) == [] && Triples([]) == []
  {
  }

  /** One symbol left over makes a byte of its own. */
  lemma LeftOver(data: bytes, whole: bytes, c: byte)
    requires |data| % 4 == 1 && whole == data[..|data| - 1] && c == data[|data| - 1]
    ensures Decoded(data) == Some(Triples(whole) + [(Value(c) * 4) as char])
  {
    hide Triples;
    hide Value;
  }

  // ---------------------------------------------------------------- the loops

  predicate IsValid(data: bytes) {
    forall i :: 0 <= i < |data| ==> ValidSymbol(data[i])
  }

  method Valid(data: bytes) returns (r: bool)
    ensures r <==> IsValid(data)
  {
    for i := 0 to |data|
      invariant IsValid(data[..i])
    {
      var rune := data[i];
      if !IsAlnum(rune) && rune != '+' && rune != '/' && rune != '=' {
        return false;
      }
    }
    assert data[..|data|] == data;
    return true;
  }

  // `enc_b1` to `enc_b4`: the symbols for the bytes of a group, by shifting and exclusive or

  function EncB1(a: byte): byte {
    Symbol(a as int / 4 % 64)
  }

  function EncB2(a: byte, b: byte): byte {
    Symbol(XorNat(a as int * 16, b as int / 16) % 64)
  }

  function EncB3(b: byte, c: byte): byte {
    Symbol(XorNat(b as int * 4, c as int / 64) % 64)
  }

  function EncB4(c: byte): byte {
    Symbol(c as int % 64)
  }

  lemma XorShifted(high: nat, low: nat)
    ensures low < 4 ==> XorNat(high * 4, low) == high * 4 + low
    ensures low < 16 ==> XorNat(high * 16, low) == high * 16 + low
    ensures low < 64 ==> XorNat(high * 64, low) == high * 64 + low
  {
    assert Pow2(2) == 4 && Pow2(4) == 16 && Pow2(6) == 64;
    if low < 4 {
      XorNatDisjoint(high, low, 2);
    }
    if low < 16 {
      XorNatDisjoint(high, low, 4);
    }
    if low < 64 {
      XorNatDisjoint(high, low, 6);
    }
  }

  lemma GroupSextets(a: byte, b: byte, c: byte)
    ensures var n := Group(a, b, c);
      n / 0x4_0000 == a as int / 4 % 64 && n / 0x1000 % 64 == (a as int * 16 + b as int / 16) % 64 &&
      n / 64 % 64 == (b as int * 4 + c as int / 64) % 64 && n % 64 == c as int % 64
  {
    hide Group;
    var n := Group(a, b, c);
    GroupTop(a, b, c);
    GroupMiddle(a, b, c);
    assert n / 0x4_0000 == n / 0x1000 / 64;
  }

  lemma GroupTop(a: byte, b: byte, c: byte)
    ensures Group(a, b, c) / 0x1000 == a as int * 16 + b as int / 16
    ensures (a as int * 16 + b as int / 16) / 64 == a as int / 4 == a as int / 4 % 64
  {
    var low := b as int % 16 * 0x100 + c as int;
    assert Group(a, b, c) == (a as int * 16 + b as int / 16) * 0x1000 + low && low < 0x1000;
  }

  lemma GroupMiddle(a: byte, b: byte, c: byte)
    ensures Group(a, b, c) / 64 % 64 == (b as int * 4 + c as int / 64) % 64
    ensures Group(a, b, c) % 64 == c as int % 64
  {
    var middle := b as int * 4 + c as int / 64;
    assert Group(a, b, c) == (a as int * 16 * 64 + middle) * 64 + c as int % 64;
    Modulo(a as int * 16, middle);
  }

  lemma Modulo(k: nat, n: nat)
    ensures (k * 64 + n) % 64 == n % 64
  {
  }

  lemma EncIsSymbols(a: byte, b: byte, c: byte)
    ensures [EncB1(a), EncB2(a, b), EncB3(b, c), EncB4(c)] == Symbols(Group(a, b, c))
  {
    hide Group;
    hide Symbol;
    hide XorNat;
    GroupSextets(a, b, c);
    XorShifted(a as int, b as int / 16);
    XorShifted(b as int, c as int / 64);
  }

  lemma ThreePlaced(r: bytes, w: nat, a: byte, b: byte, c: byte)
    requires w + 3 <= |r|
    ensures var placed := r[w := a][w + 1 := b][w + 2 := c]; |placed| == |r| && placed[..w + 3] == r[..w] + [a, b, c]
  {
  }

  lemma FourPlaced(r: bytes, w: nat, a: byte, b: byte, c: byte, d: byte)
    requires w + 4 <= |r|
    ensures var placed := r[w := a][w + 1 := b][w + 2 := c][w + 3 := d];
      |placed| == |r| && placed[..w + 4] == r[..w] + [a, b, c, d]
  {
  }

  /** The loop of `encode` over whole groups. */
  method EncodeBlocks(data: bytes, haveBlocks: nat) returns (result: bytes)
    requires haveBlocks == |data| / 3 * 3
    ensures |result| == haveBlocks * 4 / 3
    ensures result + Encoded(data[haveBlocks..]) == Encoded(data)
  {
    hide Encoded;
    hide Group;
    hide Symbols;
    hide EncB1;
    hide EncB2;
    hide EncB3;
    hide EncB4;
    var resultBlocks := haveBlocks * 4 / 3;
    result := seq(resultBlocks, _ => 0 as char);
    var rIdx, wIdx := 0, 0;
    ghost var groups, k := |data| / 3, 0;
    assert data[0..] == data && result[..0] == [];
    while rIdx < haveBlocks
      invariant k <= groups && rIdx == 3 * k && wIdx == 4 * k
      invariant |result| == resultBlocks == 4 * groups && haveBlocks == 3 * groups
      invariant result[..wIdx] + Encoded(data[rIdx..]) == Encoded(data)
    {
      EncIsSymbols(data[rIdx], data[rIdx + 1], data[rIdx + 2]);
      FourPlaced(result, wIdx, EncB1(data[rIdx]), EncB2(data[rIdx], data[rIdx + 1]), EncB3(data[rIdx + 1], data[rIdx + 2]),
                 EncB4(data[rIdx + 2]));
      EncodedMore(data[rIdx..]);
      assert data[rIdx..][3..] == data[rIdx + 3..];
      result := result[wIdx := EncB1(data[rIdx])];
      result := result[wIdx + 1 := EncB2(data[rIdx], data[rIdx + 1])];
      result := result[wIdx + 2 := EncB3(data[rIdx + 1], data[rIdx + 2])];
      result := result[wIdx + 3 := EncB4(data[rIdx + 2])];
      rIdx, wIdx, k := rIdx + 3, wIdx + 4, k + 1;
    }
    assert result[..wIdx] == result;
  }

  /** `encode`. */
  method Encode(data: bytes) returns (result: bytes)
    ensures result == Encoded(data)
  {
    hide Encoded;
    hide EncB1;
    hide EncB2;
    hide EncB3;
    var haveBlocks := |data| / 3 * 3;
    var resultBlocks := haveBlocks * 4 / 3;
    result := EncodeBlocks(data, haveBlocks);
    ghost var done := result;
    ghost var rest := data[haveBlocks..];
    var incompleteBytes := |data| - haveBlocks;
    if incompleteBytes == 0 {
      EncodedNothing();
      assert rest == [];
      return;
    }
    EncodedLast(rest);
    result := result + "====";
    result := result[resultBlocks := EncB1(data[haveBlocks])];
    if incompleteBytes == 1 {
      result := result[resultBlocks + 1 := EncB2(data[haveBlocks], 0 as char)];
    } else {
      result := result[resultBlocks + 1 := EncB2(data[haveBlocks], data[haveBlocks + 1])];
      result := result[resultBlocks + 2 := EncB3(data[haveBlocks + 1], 0 as char)];
    }
    assert result == done + Encoded(rest);
  }

  lemma EncodedLast(x: bytes)
    requires |x| == 1 || |x| == 2
    ensures |x| == 1 ==> Encoded(x) == [EncB1(x[0]), EncB2(x[0], 0 as char), '=', '=']
    ensures |x| == 2 ==> Encoded(x) == [EncB1(x[0]), EncB2(x[0], x[1]), EncB3(x[1], 0 as char), '=']
  {
    hide Symbols;
    hide Group;
    hide EncB1;
    hide EncB2;
    hide EncB3;
    hide EncB4;
    if |x| == 1 {
      EncIsSymbols(x[0], 0 as char, 0 as char);
    } else {
      EncIsSymbols(x[0], x[1], 0 as char);
    }
  }

  // `table_decode`, and `dec_b1` to `dec_b3`: the bytes of a group from its symbols

  function Table(c: byte): nat {
    Value(c) * 4
  }

  function DecB1(a: byte, b: byte): byte {
    (XorNat(Table(a), Table(b) / 64) % 256) as char
  }

  function DecB2(b: byte, c: byte): byte {
    (XorNat(Table(b) * 4, Table(c) / 16) % 256) as char
  }

  function DecB3(c: byte, d: byte): byte {
    (XorNat(Table(c) * 16, Table(d) / 4) % 256) as char
  }

  lemma TripleBytes(v: nat, w: nat, x: nat, y: nat)
    requires v < 64 && w < 64 && x < 64 && y < 64
    ensures var n := v * 0x4_0000 + w * 0x1000 + x * 64 + y;
      n / 0x1_0000 == v * 4 + w / 16 && n / 0x100 % 256 == (w * 16 + x / 4) % 256 && n % 256 == (x * 64 + y) % 256
  {
    var n := v * 0x4_0000 + w * 0x1000 + x * 64 + y;
    var top, low := v * 1024 + w * 16, x * 64 + y;
    assert n == top * 256 + low;
    assert n / 0x100 == top + low / 256 == top + x / 4;
    assert n / 0x1_0000 == (top + x / 4) / 256;
  }

  lemma DecBytes(a: byte, b: byte)
    ensures DecB1(a, b) as int == Value(a) * 4 + Value(b) / 16
    ensures DecB2(a, b) as int == (Value(a) * 16 + Value(b) / 4) % 256
    ensures DecB3(a, b) as int == (Value(a) * 64 + Value(b)) % 256
  {
    hide Value;
    hide XorNat;
    var v, w := Value(a), Value(b);
    assert v * 4 * 4 == v * 16 && v * 4 * 16 == v * 64;
    assert w * 4 / 64 == w / 16 && w * 4 / 16 == w / 4 && w * 4 / 4 == w;
    XorShifted(v, w / 16);
    XorShifted(v, w / 4);
    XorShifted(v, w);
  }

  lemma TripleBytesAre(a: byte, b: byte, c: byte, d: byte)
    ensures var t := Triple(a, b, c, d);
      t[0] as int == Value(a) * 4 + Value(b) / 16 &&
      t[1] as int == (Value(b) * 16 + Value(c) / 4) % 256 &&
      t[2] as int == (Value(c) * 64 + Value(d)) % 256
  {
    hide Value;
    TripleBytes(Value(a), Value(b), Value(c), Value(d));
  }

  lemma DecIsTriple(a: byte, b: byte, c: byte, d: byte)
    ensures [DecB1(a, b), DecB2(b, c), DecB3(c, d)] == Triple(a, b, c, d)
  {
    hide Value;
    hide Triple;
    hide DecB1;
    hide DecB2;
    hide DecB3;
    TripleBytesAre(a, b, c, d);
    DecBytes(a, b);
    DecBytes(b, c);
    DecBytes(c, d);
    var t := Triple(a, b, c, d);
    assert t == [t[0], t[1], t[2]];
  }

  lemma DecLone(a: byte)
    ensures DecB1(a, 0 as char) == (Value(a) * 4) as char
  {
    hide DecB1;
    hide DecB2;
    hide DecB3;
    DecBytes(a, 0 as char);
    assert Value(0 as char) == 0;
  }

  /** The loop of `decode` over whole groups. */
  method DecodeBlocks(data: bytes, haveBlocks: nat) returns (result: bytes)
    requires haveBlocks == |data| / 4 * 4
    ensures result == Triples(data[..haveBlocks])
  {
    hide Triple;
    hide Triples;
    hide Value;
    hide DecB1;
    hide DecB2;
    hide DecB3;
    var resultBlocks := |data| / 4 * 3;
    result := seq(resultBlocks, _ => 0 as char);
    ghost var whole := data[..haveBlocks];
    var rIdx, wIdx := 0, 0;
    ghost var groups, k := |data| / 4, 0;
    DecodeStarts(whole, result);
    while rIdx < haveBlocks
      invariant k <= groups && rIdx == 4 * k && wIdx == 3 * k
      invariant |result| == resultBlocks == 3 * groups && haveBlocks == |whole| == 4 * groups && |whole[rIdx..]| == 4 * (groups - k)
      invariant result[..wIdx] + Triples(whole[rIdx..]) == Triples(whole)
    {
      DecodeStep(whole, result, k, groups);
      result := result[wIdx := DecB1(data[rIdx], data[rIdx + 1])];
      result := result[wIdx + 1 := DecB2(data[rIdx + 1], data[rIdx + 2])];
      result := result[wIdx + 2 := DecB3(data[rIdx + 2], data[rIdx + 3])];
      rIdx, wIdx, k := rIdx + 4, wIdx + 3, k + 1;
    }
    DecodeEnds(whole, result);
  }

  lemma DecodeStarts(whole: bytes, result: bytes)
    ensures result[..0] + Triples(whole[0..]) == Triples(whole)
  {
    hide Triples;
    assert whole[0..] == whole && result[..0] == [];
  }

  lemma DecodeEnds(whole: bytes, result: bytes)
    ensures result[..|result|] + Triples(whole[|whole|..]) == result
  {
    EncodedNothing();
    hide Triples;
    assert whole[|whole|..] == [] && result[..|result|] == result && result + [] == result;
  }

  /** One group more. */
  lemma DecodeStep(whole: bytes, result: bytes, k: nat, groups: nat)
    requires k < groups && |whole| == 4 * groups && |result| == 3 * groups
    ensures var i, w := 4 * k, 3 * k;
      var more := result[w := DecB1(whole[i], whole[i + 1])][w + 1 := DecB2(whole[i + 1], whole[i + 2])]
                        [w + 2 := DecB3(whole[i + 2], whole[i + 3])];
      result[..w] + Triples(whole[i..]) == more[..w + 3] + Triples(whole[i + 4..])
  {
    hide Triple;
    hide Triples;
    hide Value;
    hide DecB1;
    hide DecB2;
    hide DecB3;
    var i, w := 4 * k, 3 * k;
    DecIsTriple(whole[i], whole[i + 1], whole[i + 2], whole[i + 3]);
    ThreePlaced(result, w, DecB1(whole[i], whole[i + 1]), DecB2(whole[i + 1], whole[i + 2]), DecB3(whole[i + 2], whole[i + 3]));
    TriplesAt(whole, i);
  }

  lemma TriplesAt(whole: bytes, i: nat)
    requires i + 4 <= |whole|
    ensures Triples(whole[i..]) == Triple(whole[i], whole[i + 1], whole[i + 2], whole[i + 3]) + Triples(whole[i + 4..])
  {
    hide Triple;
    hide Triples;
    var rest := whole[i..];
    assert rest == rest[..4] + rest[4..] && rest[4..] == whole[i + 4..];
    TriplesFirst(rest[..4], rest[4..]);
  }

  /** `decode`; None where it goes outside its buffers. */
  method Decode(data: bytes) returns (r: Option<bytes>)
    ensures r == Decoded(data)
  {
    hide Triples;
    hide Value;
    hide DecB1;
    var haveBlocks := |data| / 4 * 4;
    var result := DecodeBlocks(data, haveBlocks);
    var incompleteBytes := |data| - haveBlocks;
    if incompleteBytes > 0 {
      if incompleteBytes > 1 {
        return None;
      }
      DecLone(data[haveBlocks]);
      result := result + [DecB1(data[haveBlocks], 0 as char)];
      return Some(result);
    }
    if |data| == 0 {
      return None;
    }
    var paddLength := 0;
    for i := 1 to 3
      invariant i == 2 ==> paddLength == if data[|data| - 1] == '=' then 1 else 0
      invariant i == 3 ==> paddLength == Padding(data)
      invariant i == 1 ==> paddLength == 0
    {
      if data[|data| - i] == '=' {
        paddLength := paddLength + 1;
      }
    }
    assert result[..|result|] == result;
    if paddLength > 0 {
      result := result[..|result| - paddLength];
    }
    return Some(result);
  }
}
