/** The streaming SHA-1 of `hash/sha1.cpp` against the pad-then-fold definition of FIPS 180-4. */
module Sha1 {

  // ---------------------------------------------------------------- FIPS 180-4

  datatype Words = Words(a: bv32, b: bv32, c: bv32, d: bv32, e: bv32)

  /** Section 5.3.1. */
  const INITIAL: Words := Words(0x67452301, 0xEFCDAB89, 0x98BADCFE, 0x10325476, 0xC3D2E1F0)

  /** Section 4.2.1: the constants of the four groups of twenty rounds. */
  const K: seq<bv32> := [0x5A827999, 0x6ED9EBA1, 0x8F1BBCDC, 0xCA62C1D6]

  /** They are the integral parts of the square roots of 2, 3, 5 and 10, times 2^30. */
  lemma ConstantsAreRoots(i: nat)
    requires i < 4
    ensures var k, n := K[i] as nat, if i == 0 then 2 else if i == 1 then 3 else if i == 2 then 5 else 10;
      k * k <= n * 0x1000_0000_0000_0000 < (k + 1) * (k + 1)
  {
    assert K[0] as nat == 0x5A827999 && K[1] as nat == 0x6ED9EBA1 && K[2] as nat == 0x8F1BBCDC && K[3] as nat == 0xCA62C1D6;
  }

  function Rotl(x: bv32, n: nat): bv32
    requires n < 32
  {
    x.RotateLeft(n)
  }

  function Ch(x: bv32, y: bv32, z: bv32): bv32 {
    (x & y) ^ (!x & z)
  }

  function Parity(x: bv32, y: bv32, z: bv32): bv32 {
    x ^ y ^ z
  }

  function Maj(x: bv32, y: bv32, z: bv32): bv32 {
    (x & y) ^ (x & z) ^ (y & z)
  }

  /** Section 4.1.1. */
  function F(t: nat, x: bv32, y: bv32, z: bv32): bv32
    requires t < 80
  {
    if t < 20 then Ch(x, y, z)
    else if t < 40 then Parity(x, y, z)
    else if t < 60 then Maj(x, y, z)
    else Parity(x, y, z)
  }

  /** Addition modulo 2^32. */
  function Plus(x: bv32, y: bv32): bv32 {
    x + y
  }

  function Sum(p: bv32, q: bv32, r: bv32, s: bv32, t: bv32): bv32 {
    p + q + r + s + t
  }

  /** Section 3.1: four bytes as a word, the leftmost byte being the most significant. */
  function WordOf(b0: bv8, b1: bv8, b2: bv8, b3: bv8): bv32 {
    (b0 as bv32 << 24) | (b1 as bv32 << 16) | (b2 as bv32 << 8) | (b3 as bv32)
  }

  function Mix(p: bv32, q: bv32, r: bv32, s: bv32): bv32 {
    p ^ q ^ r ^ s
  }

  /** Section 6.1.2, step 1: the message schedule of a block. */
  function Schedule(block: seq<bv8>, t: nat): bv32
    requires |block| == 64 && t < 80
  {
    if t < 16 then WordOf(block[4 * t], block[4 * t + 1], block[4 * t + 2], block[4 * t + 3])
    else Rotl(Mix(Schedule(block, t - 3), Schedule(block, t - 8), Schedule(block, t - 14), Schedule(block, t - 16)), 1)
  }

  /** Steps 2 and 3: the working variables after `t` rounds. */
  function Rounds(h: Words, block: seq<bv8>, t: nat): Words
    requires |block| == 64 && t <= 80
  {
    if t == 0 then h
    else
      var s := Rounds(h, block, t - 1);
      var temp := Sum(Rotl(s.a, 5), F(t - 1, s.b, s.c, s.d), s.e, K[(t - 1) / 20], Schedule(block, t - 1));
      Words(temp, s.a, Rotl(s.b, 30), s.c, s.d)
  }

  /** Step 4: the next intermediate hash value. */
  function Compress(h: Words, block: seq<bv8>): Words
    requires |block| == 64
  {
    var s := Rounds(h, block, 80);
    Words(Plus(h.a, s.a), Plus(h.b, s.b), Plus(h.c, s.c), Plus(h.d, s.d), Plus(h.e, s.e))
  }

  function Fold(h: Words, message: seq<bv8>): Words
    requires |message| % 64 == 0
    decreases |message|
  {
    if message == [] then h else Fold(Compress(h, message[..64]), message[64..])
  }

  function Zeros(n: nat): (r: seq<bv8>)
    ensures |r| == n
  {
    seq(n, _ => 0)
  }

  const TWO_TO_64: nat := 0x1_0000_0000_0000_0000

  /** The length in bits of so many bytes, in a 64-bit counter. */
  function Counter(length: nat): nat {
    8 * length % TWO_TO_64
  }

  function ByteOf(bits: nat, weight: nat): bv8
    requires weight > 0
  {
    (bits / weight % 256) as bv8
  }

  /** A number as eight bytes, the most significant first. */
  function LengthBytes(bits: nat): (r: seq<bv8>)
    ensures |r| == 8
  {
    [ByteOf(bits, 0x100_0000_0000_0000), ByteOf(bits, 0x1_0000_0000_0000),
     ByteOf(bits, 0x100_0000_0000), ByteOf(bits, 0x1_0000_0000),
     ByteOf(bits, 0x100_0000), ByteOf(bits, 0x1_0000), ByteOf(bits, 0x100), ByteOf(bits, 1)]
  }

  /** The number that some bytes make, the most significant first. */
  ghost function BigEndian(b: seq<bv8>): nat {
    if b == [] then 0 else 256 * BigEndian(b[..|b| - 1]) + b[|b| - 1] as nat
  }

  /** A number without its last `k` digits. */
  ghost function Cut(n: nat, k: nat): nat {
    if k == 0 then n else Cut(n / 256, k - 1)
  }

  lemma {:induction false} CutDigit(b: seq<bv8>, k: nat)
    requires k < |b|
    ensures Cut(BigEndian(b), k) % 256 == b[|b| - 1 - k] as nat
    decreases k
  {
    LastDigit(BigEndian(b[..|b| - 1]), b[|b| - 1] as nat);
    if k > 0 {
      CutDigit(b[..|b| - 1], k - 1);
    }
  }

  lemma LastDigit(n: nat, x: nat)
    requires x < 256
    ensures (256 * n + x) / 256 == n && (256 * n + x) % 256 == x
  {
  }

  lemma CutLow(n: nat)
    ensures Cut(n, 0) == n / 1 && Cut(n, 1) == n / 0x100 && Cut(n, 2) == n / 0x1_0000 && Cut(n, 3) == n / 0x100_0000
  {
    var a := n / 0x100;
    var b := a / 0x100;
    assert Cut(n, 1) == Cut(a, 0) && Cut(n, 2) == Cut(b, 0) && Cut(n, 3) == Cut(b / 0x100, 0);
  }

  lemma CutHigh(n: nat)
    ensures Cut(n, 4) == n / 0x1_0000_0000 && Cut(n, 5) == n / 0x100_0000_0000
    ensures Cut(n, 6) == n / 0x1_0000_0000_0000 && Cut(n, 7) == n / 0x100_0000_0000_0000
  {
    hide Cut;
    var high := n / 0x1_0000_0000;
    CutLow(high);
    CutFour(n, 0);
    CutFour(n, 1);
    CutFour(n, 2);
    CutFour(n, 3);
  }

  lemma CutFour(n: nat, k: nat)
    ensures Cut(n, k + 4) == Cut(n / 0x1_0000_0000, k)
  {
    var a := n / 0x100;
    var b := a / 0x100;
    var c := b / 0x100;
    assert Cut(n, k + 4) == Cut(a, k + 3) == Cut(b, k + 2) == Cut(c, k + 1) == Cut(c / 0x100, k);
    assert b == n / 0x1_0000 && c == n / 0x100_0000 && c / 0x100 == n / 0x1_0000_0000;
  }

  /** Eight bytes are the bytes of the number they make. */
  lemma LengthBytesRead(b: seq<bv8>)
    requires |b| == 8
    ensures LengthBytes(BigEndian(b)) == b
  {
    hide ByteOf;
    hide BigEndian;
    hide Cut;
    var n := BigEndian(b);
    CutLow(n);
    CutHigh(n);
    DigitIs(b, 7, 0x100_0000_0000_0000);
    DigitIs(b, 6, 0x1_0000_0000_0000);
    DigitIs(b, 5, 0x100_0000_0000);
    DigitIs(b, 4, 0x1_0000_0000);
    DigitIs(b, 3, 0x100_0000);
    DigitIs(b, 2, 0x1_0000);
    DigitIs(b, 1, 0x100);
    DigitIs(b, 0, 1);
  }

  lemma DigitIs(b: seq<bv8>, k: nat, weight: nat)
    requires |b| == 8 && k < 8 && weight > 0 && Cut(BigEndian(b), k) == BigEndian(b) / weight
    ensures ByteOf(BigEndian(b), weight) == b[7 - k]
  {
    hide BigEndian;
    hide Cut;
    hide ByteOf;
    CutDigit(b, k);
    ByteIs(BigEndian(b), weight, b[7 - k]);
  }

  lemma ByteIs(n: nat, weight: nat, b: bv8)
    requires weight > 0 && n / weight % 256 == b as nat
    ensures ByteOf(n, weight) == b
  {
  }

  /** The least number of zero bytes that makes room for the length at the end of a block. */
  function ZeroCount(length: nat): (n: nat)
    ensures (length + 9 + n) % 64 == 0
  {
    if length % 64 < 56 then 55 - length % 64 else 119 - length % 64
  }

  lemma ZeroCountIsLeast(length: nat, n: nat)
    requires (length + 9 + n) % 64 == 0
    ensures n >= ZeroCount(length)
  {
  }

  /** Section 5.1.1: a one bit, the least number of zero bits, and the length in bits. The standard
      defines it below 2^64 bits; beyond, the length is taken modulo 2^64 as the counter is. */
  function Padding(length: nat): (r: seq<bv8>)
    ensures |r| == 9 + ZeroCount(length)
  {
    [0x80] + Zeros(ZeroCount(length)) + LengthBytes(Counter(length))
  }

  /** Byte `i` of a word, the most significant first. */
  function WordByte(w: bv32, i: nat): bv8
    requires i < 4
  {
    if i == 0 then ((w >> 24) & 0xFF) as bv8
    else if i == 1 then ((w >> 16) & 0xFF) as bv8
    else if i == 2 then ((w >> 8) & 0xFF) as bv8
    else (w & 0xFF) as bv8
  }

  /** A word is made of its bytes. */
  lemma WordOfItsBytes(w: bv32)
    ensures WordOf(WordByte(w, 0), WordByte(w, 1), WordByte(w, 2), WordByte(w, 3)) == w
  {
  }

  function Part(h: Words, i: nat): bv32
    requires i < 5
  {
    if i == 0 then h.a else if i == 1 then h.b else if i == 2 then h.c else if i == 3 then h.d else h.e
  }

  /** The five words one after another, each most significant byte first. */
  function DigestBytes(h: Words): (r: seq<bv8>)
    ensures |r| == 20
  {
    seq(20, i requires 0 <= i < 20 => WordByte(Part(h, i / 4), i % 4))
  }

  function Hash(message: seq<bv8>): seq<bv8> {
    DigestBytes(Fold(INITIAL, message + Padding(|message|)))
  }

  // ---------------------------------------------------------------- folding

  lemma {:induction false} FoldConcat(h: Words, a: seq<bv8>, b: seq<bv8>)
    requires |a| % 64 == 0 && |b| % 64 == 0
    ensures Fold(h, a + b) == Fold(Fold(h, a), b)
    decreases |a|
  {
    hide Compress;
    if a == [] {
      assert a + b == b;
    } else {
      assert (a + b)[..64] == a[..64] && (a + b)[64..] == a[64..] + b;
      FoldConcat(Compress(h, a[..64]), a[64..], b);
    }
  }

  lemma FoldBlock(h: Words, a: seq<bv8>, block: seq<bv8>)
    requires |a| % 64 == 0 && |block| == 64
    ensures Fold(h, a + block) == Compress(Fold(h, a), block)
  {
    hide Compress;
    FoldConcat(h, a, block);
    assert block[..64] == block && block[64..] == [];
  }

  // ---------------------------------------------------------------- the code's expressions

  /** Four shifted bytes are added where the standard puts them side by side. */
  function AddedWord(b0: bv8, b1: bv8, b2: bv8, b3: bv8): (r: bv32)
    ensures r == WordOf(b0, b1, b2, b3)
  {
    (b0 as bv32 << 24) + (b1 as bv32 << 16) + (b2 as bv32 << 8) + (b3 as bv32)
  }

  /** SHA1_ROTLEFT, for the three distances in use. */
  function RotLeft1(x: bv32): (r: bv32)
    ensures r == Rotl(x, 1)
  {
    (x << 1) | (x >> 31)
  }

  function RotLeft5(x: bv32): (r: bv32)
    ensures r == Rotl(x, 5)
  {
    (x << 5) | (x >> 27)
  }

  function RotLeft30(x: bv32): (r: bv32)
    ensures r == Rotl(x, 30)
  {
    (x << 30) | (x >> 2)
  }

  /** `t0` of round `i`. */
  function RoundWord(i: nat, s0: bv32, s1: bv32, s2: bv32, s3: bv32, s4: bv32, word: bv32): bv32
    requires i < 80
  {
    if i < 20 then Sum(RotLeft5(s0), Ch(s1, s2, s3), s4, K[0], word)
    else if i < 40 then Sum(RotLeft5(s0), Parity(s1, s2, s3), s4, K[1], word)
    else if i < 60 then Sum(RotLeft5(s0), Maj(s1, s2, s3), s4, K[2], word)
    else Sum(RotLeft5(s0), Parity(s1, s2, s3), s4, K[3], word)
  }

  lemma RoundWordIs(i: nat, s: Words, word: bv32)
    requires i < 80
    ensures RoundWord(i, s.a, s.b, s.c, s.d, s.e, word) == Sum(Rotl(s.a, 5), F(i, s.b, s.c, s.d), s.e, K[i / 20], word)
  {
    hide Rotl;
    hide RotLeft5;
    hide Ch;
    hide Parity;
    hide Maj;
    hide Sum;
    assert i / 20 == if i < 20 then 0 else if i < 40 then 1 else if i < 60 then 2 else 3;
  }

  lemma RoundsStep(h: Words, block: seq<bv8>, t: nat)
    requires |block| == 64 && t < 80
    ensures var s := Rounds(h, block, t);
      Rounds(h, block, t + 1) ==
        Words(RoundWord(t, s.a, s.b, s.c, s.d, s.e, Schedule(block, t)), s.a, RotLeft30(s.b), s.c, s.d)
  {
    hide Rotl;
    hide F;
    hide RotLeft30;
    hide RoundWord;
    hide Sum;
    hide Schedule;
    RoundWordIs(t, Rounds(h, block, t), Schedule(block, t));
  }

  lemma ScheduleStart(block: seq<bv8>, t: nat)
    requires |block| == 64 && t < 16
    ensures Schedule(block, t) == WordOf(block[4 * t], block[4 * t + 1], block[4 * t + 2], block[4 * t + 3])
  {
    hide WordOf;
  }

  lemma ScheduleStep(block: seq<bv8>, t: nat)
    requires |block| == 64 && 16 <= t < 80
    ensures Schedule(block, t) ==
      RotLeft1(Mix(Schedule(block, t - 3), Schedule(block, t - 8), Schedule(block, t - 14), Schedule(block, t - 16)))
  {
    hide Mix;
    hide Rotl;
    hide RotLeft1;
    hide WordOf;
  }

  // ---------------------------------------------------------------- the class

  class Sha1 {
    const data: array<bv8>
    const state: array<bv32>
    var datalen: nat
    var bitlen: nat

    /** Everything hashed so far. */
    ghost var message: seq<bv8>

    ghost function Current(): Words
      reads state
      requires state.Length == 5
    {
      Words(state[0], state[1], state[2], state[3], state[4])
    }

    /** The whole blocks of the message are folded into the state, the rest waits in the buffer, and
        the counter knows the folded bits. */
    ghost predicate Valid()
      reads this, data, state
    {
      && data.Length == 64 && state.Length == 5
      && datalen < 64 && datalen <= |message| && (|message| - datalen) % 64 == 0
      && Current() == Fold(INITIAL, message[..|message| - datalen])
      && data[..datalen] == message[|message| - datalen..]
      && bitlen == Counter(|message| - datalen)
    }

    constructor ()
      ensures Valid() && message == [] && fresh(data) && fresh(state)
    {
      data := new bv8[64](_ => 0);
      state := new bv32[5];
      datalen, bitlen, message := 0, 0, [];
      new;
      state[0] := 0x67452301;
      state[1] := 0xEFCDAB89;
      state[2] := 0x98BADCFE;
      state[3] := 0x10325476;
      state[4] := 0xC3D2E1F0;
      hide Fold;
      hide Compress;
      hide Counter;
      NothingFolded();
    }

    method Update(input: seq<bv8>)
      requires Valid()
      modifies this, data, state
      ensures Valid() && message == old(message) + input
    {
      for idx := 0 to |input|
        invariant Valid() && message == old(message) + input[..idx]
      {
        Push(input[idx]);
      }
      assert input[..|input|] == input;
    }

    method Push(b: bv8)
      requires Valid()
      modifies this, data, state
      ensures Valid() && message == old(message) + [b]
    {
      hide Compress;
      hide Fold;
      hide Counter;
      MessageGrows(message, data[..], datalen, b);
      data[datalen] := b;
      assert data[..] == old(data[..])[datalen := b];
      datalen := datalen + 1;
      message := message + [b];
      if datalen == 64 {
        FoldFull();
      }
    }

    method FoldFull()
      requires data.Length == 64 && state.Length == 5 && datalen == 64 && |message| % 64 == 0 && |message| >= 64
      requires Current() == Fold(INITIAL, message[..|message| - 64]) && data[..] == message[|message| - 64..]
      requires bitlen == Counter(|message| - 64)
      modifies this`datalen, this`bitlen, state
      ensures Valid()
    {
      hide Compress;
      hide Fold;
      hide Counter;
      CounterSteps(|message| - 64);
      FoldBlock(INITIAL, message[..|message| - 64], message[|message| - 64..]);
      assert message[..|message| - 64] + message[|message| - 64..] == message == message[..|message|];
      Transform();
      bitlen := (bitlen + 512) % TWO_TO_64;
      datalen := 0;
    }

    /** Pads the buffer, in one block or in two, folds it and returns the hash of the message. The
        object is used up. */
    method Digest() returns (hash: seq<bv8>)
      requires Valid()
      modifies this, data, state
      ensures hash == Hash(old(message))
    {
      hide Compress;
      hide Fold;
      hide Counter;
      hide LengthBytes;
      hide Zeros;
      hide Padding;
      hide DigestBytes;
      hide Hash;
      HashIs(message);
      CounterEnds(|message| - datalen, datalen);
      Pad();
      bitlen := (bitlen + datalen * 8) % TWO_TO_64;
      PutLength();
      Transform();
      hash := Output();
    }

    /** Fills the last block up to the length; with fewer than nine bytes left another block comes first. */
    method Pad()
      requires Valid()
      modifies data, state
      ensures data.Length == 64 && state.Length == 5
      ensures Compress(Current(), data[..56] + LengthBytes(Counter(|message|))) == Fold(INITIAL, message + Padding(|message|))
    {
      hide Compress;
      hide Fold;
      hide Counter;
      hide LengthBytes;
      hide Zeros;
      hide Padding;
      ghost var whole, tail := message[..|message| - datalen], message[|message| - datalen..];
      assert message == whole + tail;
      if datalen < 56 {
        PaddedOneBlock(whole, tail);
        PadTo(56);
      } else {
        PaddedTwoBlocks(whole, tail);
        PadTo(64);
        assert data[..] == data[..64];
        Transform();
        Clear();
      }
    }

    /** A one bit and zeroes up to a position. */
    method PadTo(end: nat)
      requires data.Length == 64 && datalen < end <= 64
      modifies data
      ensures data[..end] == old(data[..datalen]) + [0x80] + Zeros(end - 1 - datalen)
    {
      var i := datalen;
      data[i] := 0x80;
      i := i + 1;
      while i < end
        invariant datalen < i <= end
        invariant data[..i] == old(data[..datalen]) + [0x80] + Zeros(i - 1 - datalen)
      {
        data[i] := 0x00;
        i := i + 1;
      }
    }

    method Clear()
      requires data.Length == 64
      modifies data
      ensures data[..56] == Zeros(56)
    {
      for i := 0 to 56
        invariant data[..i] == Zeros(i)
      {
        data[i] := 0;
      }
    }

    method PutLength()
      requires data.Length == 64
      modifies data
      ensures data[..] == old(data[..56]) + LengthBytes(bitlen)
    {
      hide ByteOf;
      hide LengthBytes;
      var bits := bitlen;
      data[63] := ByteOf(bits, 1);
      data[62] := ByteOf(bits, 0x100);
      data[61] := ByteOf(bits, 0x1_0000);
      data[60] := ByteOf(bits, 0x100_0000);
      data[59] := ByteOf(bits, 0x1_0000_0000);
      data[58] := ByteOf(bits, 0x100_0000_0000);
      data[57] := ByteOf(bits, 0x1_0000_0000_0000);
      data[56] := ByteOf(bits, 0x100_0000_0000_0000);
      LengthBytesAre(bits);
      LastEight(old(data[..]), data[..], LengthBytes(bits));
    }

    method Output() returns (hash: seq<bv8>)
      requires state.Length == 5
      ensures hash == DigestBytes(Current())
    {
      hide WordByte;
      hide DigestBytes;
      hide ColumnAt;
      ghost var h := Current();
      var out := new bv8[20];
      for i := 0 to 4
        invariant ColumnsDone(out[..], h, i)
        modifies out
      {
        ghost var before := out[..];
        PutColumn(out, i);
        ColumnMore(before, out[..], h, i);
      }
      ColumnsAre(out[..], h);
      hash := out[..];
    }

    /** Byte `i` of every word. */
    method PutColumn(out: array<bv8>, i: nat)
      requires state.Length == 5 && out.Length == 20 && i < 4
      modifies out
      ensures ColumnAt(out[..], Current(), i)
      ensures forall k :: 0 <= k < 20 && k % 4 != i ==> out[k] == old(out[k])
    {
      hide WordByte;
      out[i] := WordByte(state[0], i);
      out[i + 4] := WordByte(state[1], i);
      out[i + 8] := WordByte(state[2], i);
      out[i + 12] := WordByte(state[3], i);
      out[i + 16] := WordByte(state[4], i);
    }

    /** Folds the full buffer into the state. */
    method Transform()
      requires data.Length == 64 && state.Length == 5
      modifies state
      ensures Current() == Compress(old(Current()), data[..])
    {
      hide Rounds;
      hide Schedule;
      hide RoundWord;
      hide RotLeft30;
      hide Plus;
      ghost var bytes := data[..];
      ghost var before := Current();
      var block := new bv32[80];
      MakeSchedule(block);
      var shift := new bv32[5];
      for i := 0 to 5
        invariant forall j :: 0 <= j < i ==> shift[j] == state[j]
        modifies shift
      {
        shift[i] := state[i];
      }
      assert before == Words(shift[0], shift[1], shift[2], shift[3], shift[4]);
      RunRounds(shift, block, bytes);
      AddInto(shift);
    }

    /** The eighty rounds. */
    static method RunRounds(shift: array<bv32>, block: array<bv32>, ghost bytes: seq<bv8>)
      requires shift.Length == 5 && block.Length == 80 && shift != block && |bytes| == 64
      requires forall t :: 0 <= t < 80 ==> block[t] == Schedule(bytes, t)
      modifies shift
      ensures Words(shift[0], shift[1], shift[2], shift[3], shift[4]) ==
        Rounds(old(Words(shift[0], shift[1], shift[2], shift[3], shift[4])), bytes, 80)
    {
      hide Rounds;
      hide Schedule;
      hide RoundWord;
      hide RotLeft30;
      ghost var before := Words(shift[0], shift[1], shift[2], shift[3], shift[4]);
      RoundsNone(before, bytes);
      for i := 0 to 80
        invariant Words(shift[0], shift[1], shift[2], shift[3], shift[4]) == Rounds(before, bytes, i)
      {
        RoundsStep(before, bytes, i);
        var t0 := RoundWord(i, shift[0], shift[1], shift[2], shift[3], shift[4], block[i]);
        shift[4] := shift[3];
        shift[3] := shift[2];
        shift[2] := RotLeft30(shift[1]);
        shift[1] := shift[0];
        shift[0] := t0;
      }
    }

    method AddInto(shift: array<bv32>)
      requires state.Length == 5 && shift.Length == 5 && shift != state
      modifies state
      ensures forall j :: 0 <= j < 5 ==> state[j] == Plus(old(state[j]), shift[j])
    {
      hide Plus;
      for i := 0 to 5
        invariant forall j :: 0 <= j < 5 ==> state[j] == if j < i then Plus(old(state[j]), shift[j]) else old(state[j])
      {
        state[i] := Plus(state[i], shift[i]);
      }
    }

    method MakeSchedule(block: array<bv32>)
      requires data.Length == 64 && block.Length == 80
      modifies block
      ensures forall t :: 0 <= t < 80 ==> block[t] == Schedule(data[..], t)
    {
      hide Schedule;
      hide Mix;
      hide RotLeft1;
      hide AddedWord;
      hide WordOf;
      var j := 0;
      for i := 0 to 80
        invariant j == if i < 16 then 4 * i else 64
        invariant forall t :: 0 <= t < i ==> block[t] == Schedule(data[..], t)
      {
        if i >= 16 {
          ScheduleStep(data[..], i);
          block[i] := RotLeft1(Mix(block[i - 3], block[i - 8], block[i - 14], block[i - 16]));
          continue;
        }
        ScheduleStart(data[..], i);
        block[i] := AddedWord(data[j], data[j + 1], data[j + 2], data[j + 3]);
        j := j + 4;
      }
    }
  }

  // ---------------------------------------------------------------- bookkeeping

  /** One byte more that does not complete a block. */
  lemma MessageGrows(message: seq<bv8>, data: seq<bv8>, datalen: nat, b: bv8)
    requires |data| == 64 && datalen < 64 && datalen <= |message| && (|message| - datalen) % 64 == 0
    requires data[..datalen] == message[|message| - datalen..]
    ensures (message + [b])[..|message| - datalen] == message[..|message| - datalen]
    ensures data[datalen := b][..datalen + 1] == (message + [b])[|message| - datalen..]
    ensures datalen == 63 ==> data[datalen := b] == (message + [b])[|message| - 63..] && (|message| + 1) % 64 == 0
  {
    var after := data[datalen := b];
    assert after[..datalen + 1] == data[..datalen] + [b];
    assert (message + [b])[|message| - datalen..] == message[|message| - datalen..] + [b];
    assert after[..64] == after;
  }

  lemma LastEight(before: seq<bv8>, after: seq<bv8>, b: seq<bv8>)
    requires |before| == |after| == 64 && |b| == 8 && forall i :: 0 <= i < 56 ==> after[i] == before[i]
    requires after[56] == b[0] && after[57] == b[1] && after[58] == b[2] && after[59] == b[3]
    requires after[60] == b[4] && after[61] == b[5] && after[62] == b[6] && after[63] == b[7]
    ensures after == before[..56] + b
  {
    assert after[56..] == b;
    assert after == after[..56] + after[56..];
  }

  lemma LengthBytesAre(bits: nat)
    ensures var b := LengthBytes(bits);
      && b[0] == ByteOf(bits, 0x100_0000_0000_0000) && b[1] == ByteOf(bits, 0x1_0000_0000_0000)
      && b[2] == ByteOf(bits, 0x100_0000_0000) && b[3] == ByteOf(bits, 0x1_0000_0000)
      && b[4] == ByteOf(bits, 0x100_0000) && b[5] == ByteOf(bits, 0x1_0000)
      && b[6] == ByteOf(bits, 0x100) && b[7] == ByteOf(bits, 1)
  {
    hide ByteOf;
  }

  lemma NothingFolded()
    ensures Fold(INITIAL, []) == INITIAL && Counter(0) == 0
  {
  }

  lemma CounterSteps(folded: nat)
    ensures (Counter(folded) + 512) % TWO_TO_64 == Counter(folded + 64)
  {
  }

  lemma CounterEnds(folded: nat, rest: nat)
    ensures (Counter(folded) + 8 * rest) % TWO_TO_64 == Counter(folded + rest)
  {
  }

  lemma ZerosAdd(m: nat, n: nat)
    ensures Zeros(m + n) == Zeros(m) + Zeros(n)
  {
  }

  lemma PadOneBlock(whole: seq<bv8>, tail: seq<bv8>)
    requires |whole| % 64 == 0 && |tail| < 56
    ensures var message := whole + tail;
      var block := tail + [0x80] + Zeros(55 - |tail|) + LengthBytes(Counter(|message|));
      |block| == 64 && message + Padding(|message|) == whole + block
  {
    hide Zeros;
    hide Counter;
    hide LengthBytes;
    assert |whole + tail| % 64 == |tail|;
  }

  lemma PadTwoBlocks(whole: seq<bv8>, tail: seq<bv8>)
    requires |whole| % 64 == 0 && 56 <= |tail| < 64
    ensures var message := whole + tail;
      var block := tail + [0x80] + Zeros(63 - |tail|);
      var last := Zeros(56) + LengthBytes(Counter(|message|));
      |block| == 64 && |last| == 64 && message + Padding(|message|) == whole + block + last
  {
    hide Zeros;
    hide Counter;
    hide LengthBytes;
    assert |whole + tail| % 64 == |tail|;
    ZerosAdd(63 - |tail|, 56);
  }

  /** The padded message ends in one block when fewer than 56 bytes wait, otherwise in two. */
  lemma PaddedOneBlock(whole: seq<bv8>, tail: seq<bv8>)
    requires |whole| % 64 == 0 && |tail| < 56
    ensures var message := whole + tail;
      Fold(INITIAL, message + Padding(|message|)) ==
        Compress(Fold(INITIAL, whole), tail + [0x80] + Zeros(55 - |tail|) + LengthBytes(Counter(|message|)))
  {
    hide Compress;
    hide Fold;
    hide LengthBytes;
    hide Counter;
    hide Zeros;
    hide Padding;
    PadOneBlock(whole, tail);
    FoldBlock(INITIAL, whole, tail + [0x80] + Zeros(55 - |tail|) + LengthBytes(Counter(|whole + tail|)));
  }

  lemma PaddedTwoBlocks(whole: seq<bv8>, tail: seq<bv8>)
    requires |whole| % 64 == 0 && 56 <= |tail| < 64
    ensures var message := whole + tail;
      Fold(INITIAL, message + Padding(|message|)) ==
        Compress(Compress(Fold(INITIAL, whole), tail + [0x80] + Zeros(63 - |tail|)),
                 Zeros(56) + LengthBytes(Counter(|message|)))
  {
    hide Compress;
    hide Fold;
    hide LengthBytes;
    hide Counter;
    hide Zeros;
    hide Padding;
    PadTwoBlocks(whole, tail);
    var block := tail + [0x80] + Zeros(63 - |tail|);
    var last := Zeros(56) + LengthBytes(Counter(|whole + tail|));
    TwoBlocks(INITIAL, whole, block, last);
  }

  lemma TwoBlocks(h: Words, whole: seq<bv8>, block: seq<bv8>, last: seq<bv8>)
    requires |whole| % 64 == 0 && |block| == 64 && |last| == 64
    ensures Fold(h, whole + block + last) == Compress(Compress(Fold(h, whole), block), last)
  {
    hide Compress;
    hide Fold;
    FoldBlock(h, whole, block);
    FoldBlock(h, whole + block, last);
  }

  /** The first `n` bytes of each word are in place. */
  ghost predicate ColumnsDone(out: seq<bv8>, h: Words, n: nat)
    requires |out| == 20 && n <= 4
  {
    forall j :: 0 <= j < n ==> ColumnAt(out, h, j)
  }

  ghost predicate ColumnAt(out: seq<bv8>, h: Words, j: nat)
    requires |out| == 20 && j < 4
  {
    && out[j] == WordByte(h.a, j) && out[j + 4] == WordByte(h.b, j) && out[j + 8] == WordByte(h.c, j)
    && out[j + 12] == WordByte(h.d, j) && out[j + 16] == WordByte(h.e, j)
  }

  lemma ColumnMore(before: seq<bv8>, out: seq<bv8>, h: Words, n: nat)
    requires |before| == |out| == 20 && n < 4 && ColumnsDone(before, h, n) && ColumnAt(out, h, n)
    requires forall k :: 0 <= k < 20 && k % 4 != n ==> out[k] == before[k]
    ensures ColumnsDone(out, h, n + 1)
  {
    hide WordByte;
    forall j | 0 <= j < n ensures ColumnAt(out, h, j) {
      assert ColumnAt(before, h, j);
      assert (j + 4) % 4 == j && (j + 8) % 4 == j && (j + 12) % 4 == j && (j + 16) % 4 == j;
    }
  }

  lemma ColumnsAre(out: seq<bv8>, h: Words)
    requires |out| == 20 && ColumnsDone(out, h, 4)
    ensures out == DigestBytes(h)
  {
    hide WordByte;
    forall i | 0 <= i < 20 ensures out[i] == WordByte(Part(h, i / 4), i % 4) {
      var w, j := i / 4, i % 4;
      assert ColumnAt(out, h, j) && i == 4 * w + j;
    }
  }

  lemma HashIs(message: seq<bv8>)
    ensures Hash(message) == DigestBytes(Fold(INITIAL, message + Padding(|message|)))
  {
  }

  lemma RoundsNone(h: Words, block: seq<bv8>)
    requires |block| == 64
    ensures Rounds(h, block, 0) == h
  {
  }

  /** `SHA1::text`. */
  method Text(data: seq<bv8>) returns (hash: seq<bv8>)
    ensures hash == Hash(data)
  {
    hide Hash;
    hide Fold;
    hide Compress;
    hide Sha1.Valid;
    var sha := new Sha1();
    sha.Update(data);
    assert [] + data == data;
    hash := sha.Digest();
  }

  /** Hashing in pieces is hashing the whole. */
  method InPieces(a: seq<bv8>, b: seq<bv8>) returns (hash: seq<bv8>)
    ensures hash == Hash(a + b)
  {
    hide Hash;
    hide Fold;
    hide Compress;
    hide Sha1.Valid;
    var sha := new Sha1();
    sha.Update(a);
    assert sha.message == a;
    sha.Update(b);
    assert sha.message == a + b;
    hash := sha.Digest();
  }
}
