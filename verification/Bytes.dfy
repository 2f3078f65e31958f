/** Bytes, text and decimal numbers, shared by every other module.

    A C++ `char` or `uint8_t` is a Dafny character below 256, so that `std::string` and
    `std::vector<uint8_t>` are the same type here and text can be written as text. */
module Bytes {

  type byte = c: char | c as int < 256
  type bytes = seq<byte>

  const SIZE_MAX: nat := 0xFFFF_FFFF_FFFF_FFFF

  datatype Option<+T> = None | Some(value: T)
  datatype Result<+T, +E> = Ok(value: T) | Err(error: E)

  /** `isspace` in the "C" locale. */
  predicate IsSpace(c: byte) {
    c == ' ' || 9 <= c as int <= 13
  }

  predicate IsDigit(c: byte) {
    '0' <= c <= '9'
  }

  /** The first position at or after `from` holding `c`, or |s| when there is none. */
  function IndexOf(s: bytes, c: byte, from: nat := 0): (i: nat)
    requires from <= |s|
    ensures from <= i <= |s|
    ensures i < |s| ==> s[i] == c
    ensures forall j :: from <= j < i ==> s[j] != c
    decreases |s| - from
  {
    if from == |s| || s[from] == c then from else IndexOf(s, c, from + 1)
  }

  /** `IndexOf` is determined by its defining property. */
  lemma IndexOfIs(s: bytes, c: byte, from: nat, i: nat)
    requires from <= i <= |s|
    requires i < |s| ==> s[i] == c
    requires forall j :: from <= j < i ==> s[j] != c
    ensures IndexOf(s, c, from) == i
  {
  }

  /** The scanning loop that the sources write out wherever they look for one character. */
  method FindChar(s: bytes, c: byte, from: nat, end: nat) returns (r: Option<nat>)
    requires from <= end <= |s|
    ensures r.Some? ==> from <= r.value < end && s[r.value] == c && forall j :: from <= j < r.value ==> s[j] != c
    ensures r.None? ==> forall j :: from <= j < end ==> s[j] != c
  {
    for idx := from to end
      invariant forall j :: from <= j < idx ==> s[j] != c
    {
      if s[idx] == c {
        return Some(idx);
      }
    }
    return None;
  }

  lemma Slice(s: bytes, i: nat, j: nat, a: nat, b: nat)
    requires i <= j <= |s| && a <= b <= j - i
    ensures s[i..j][a..b] == s[i + a..i + b]
  {
    forall k | 0 <= k < b - a ensures s[i..j][a..b][k] == s[i + a..i + b][k] {
      assert s[i..j][a + k] == s[i + a + k];
    }
  }

  // ---------------------------------------------------------------- exclusive or

  /** Bitwise exclusive or of two naturals. */
  function XorNat(a: nat, b: nat): nat
    decreases a + b
  {
    if a == 0 && b == 0 then 0
    else (if a % 2 == b % 2 then 0 else 1) + 2 * XorNat(a / 2, b / 2)
  }

  function Pow2(width: nat): nat {
    if width == 0 then 1 else 2 * Pow2(width - 1)
  }

  lemma {:induction false} XorNatBound(a: nat, b: nat, width: nat)
    requires a < Pow2(width) && b < Pow2(width)
    ensures XorNat(a, b) < Pow2(width)
  {
    if width > 0 {
      XorNatBound(a / 2, b / 2, width - 1);
    }
  }

  lemma {:induction false} XorNatInvolution(a: nat, b: nat)
    ensures XorNat(XorNat(a, b), b) == a
    decreases a + b
  {
    hide XorNat;
    XorNatHalves(a, b);
    XorNatHalves(XorNat(a, b), b);
    if a != 0 || b != 0 {
      XorNatInvolution(a / 2, b / 2);
    }
  }

  /** Digit `k` of a number in base two. */
  function Bit(n: nat, k: nat): nat {
    if k == 0 then n % 2 else Bit(n / 2, k - 1)
  }

  /** A bit of the result is set exactly where the bits of the two numbers differ. */
  lemma {:induction false} XorNatBit(a: nat, b: nat, k: nat)
    ensures Bit(XorNat(a, b), k) == if Bit(a, k) == Bit(b, k) then 0 else 1
    decreases k
  {
    hide XorNat;
    XorNatHalves(a, b);
    if k > 0 {
      XorNatBit(a / 2, b / 2, k - 1);
    }
  }

  lemma XorNatHalves(a: nat, b: nat)
    ensures XorNat(a, b) / 2 == XorNat(a / 2, b / 2)
    ensures XorNat(a, b) % 2 == if a % 2 == b % 2 then 0 else 1
    ensures XorNat(0, 0) == 0
  {
  }

  lemma {:induction false} XorNatZero(a: nat)
    ensures XorNat(a, 0) == a
  {
    if a != 0 {
      XorNatZero(a / 2);
    }
  }

  /** Bit fields that do not overlap add up. */
  lemma {:induction false} XorNatDisjoint(high: nat, low: nat, width: nat)
    requires low < Pow2(width)
    ensures XorNat(high * Pow2(width), low) == high * Pow2(width) + low
  {
    if width == 0 {
      XorNatZero(high);
    } else {
      var half := high * Pow2(width - 1);
      assert high * Pow2(width) == 2 * half;
      XorNatDisjoint(high, low / 2, width - 1);
    }
  }

  lemma {:induction false} XorNatCancel(a: nat, b: nat, c: nat)
    requires XorNat(a, b) == XorNat(a, c)
    ensures b == c
    decreases a + b + c
  {
    if a != 0 || (b != 0 && c != 0) {
      XorNatCancel(a / 2, b / 2, c / 2);
    } else if b != 0 {
      XorNatInvolution(b, 0);
      XorNatCancel(0, b / 2, 0);
    } else if c != 0 {
      XorNatCancel(0, 0, c / 2);
    }
  }

  function Xor(a: byte, b: byte): (r: byte)
    ensures r as int == XorNat(a as int, b as int)
  {
    assert Pow2(8) == 256;
    XorNatBound(a as int, b as int, 8);
    XorNat(a as int, b as int) as char
  }

  lemma XorInvolution(a: byte, b: byte)
    ensures Xor(Xor(a, b), b) == a
  {
    XorNatInvolution(a as int, b as int);
  }

  /** Applying two keys in turn gives the byte back exactly when the keys are equal. */
  lemma XorTwiceIff(p: byte, k: byte, l: byte)
    ensures Xor(Xor(p, k), l) == p <==> k == l
  {
    XorInvolution(p, k);
    if Xor(Xor(p, k), l) == p {
      XorNatCancel(Xor(p, k) as int, k as int, l as int);
    }
  }

  // ---------------------------------------------------------------- decimal numbers

  /** `std::to_string` of a non-negative number. */
  function Decimal(n: nat): (s: bytes)
    ensures s != [] && forall i :: 0 <= i < |s| ==> IsDigit(s[i])
  {
    var last: bytes := [('0' as int + n % 10) as char];
    if n < 10 then last else Decimal(n / 10) + last
  }

  /** The value of the digits at the front of `s`, added to those already read. */
  function ReadDigits(s: bytes, acc: nat): nat {
    if s == [] || !IsDigit(s[0]) then acc
    else ReadDigits(s[1..], acc * 10 + (s[0] as int - '0' as int))
  }

  lemma {:induction false} ReadDecimal(n: nat, rest: bytes)
    ensures ReadDigits(Decimal(n) + rest, 0) == ReadDigits(rest, n)
  {
    var last: byte := ('0' as int + n % 10) as char;
    ReadOne(last, rest, n / 10);
    if n >= 10 {
      ReadDecimal(n / 10, [last] + rest);
      assert Decimal(n) + rest == Decimal(n / 10) + ([last] + rest);
    }
  }

  lemma ReadOne(digit: byte, rest: bytes, acc: nat)
    requires IsDigit(digit)
    ensures ReadDigits([digit] + rest, acc) == ReadDigits(rest, acc * 10 + (digit as int - '0' as int))
  {
    assert ([digit] + rest)[1..] == rest;
  }

  function SkipSpaces(s: bytes): (r: bytes)
    ensures |r| <= |s|
    ensures r == [] || !IsSpace(r[0])
  {
    if s == [] || !IsSpace(s[0]) then s else SkipSpaces(s[1..])
  }

  datatype Scanned = NoDigits | Number(negative: bool, magnitude: nat)

  /** What the C conversion functions read in base ten: spaces, a sign, then digits;
      whatever follows the digits is ignored. */
  function ScanNumber(s: bytes): Scanned {
    var t := SkipSpaces(s);
    var signed := t != [] && (t[0] == '-' || t[0] == '+');
    var digits := if signed then t[1..] else t;
    if digits == [] || !IsDigit(digits[0]) then NoDigits
    else Number(signed && t[0] == '-', ReadDigits(digits, 0))
  }

  lemma ScanDecimal(n: nat)
    ensures ScanNumber(Decimal(n)) == Number(false, n)
    ensures ScanNumber("-" + Decimal(n)) == Number(true, n)
  {
    ReadDecimal(n, []);
    assert Decimal(n) + [] == Decimal(n);
    assert ("-" + Decimal(n))[1..] == Decimal(n);
  }

  /** `std::strtoul`: None stands for "no digits", and a value out of range saturates. */
  function Strtoul(s: bytes): Option<nat> {
    match ScanNumber(s)
    case NoDigits => None
    case Number(negative, n) =>
      if n > SIZE_MAX then Some(SIZE_MAX)
      else if negative then Some((SIZE_MAX + 1 - n) % (SIZE_MAX + 1))
      else Some(n)
  }

  lemma StrtoulDecimal(n: nat)
    requires n <= SIZE_MAX
    ensures Strtoul(Decimal(n)) == Some(n)
  {
    ScanDecimal(n);
  }

  /** `std::stoul`, which throws where `strtoul` finds no digits or saturates. */
  function Stoul(s: bytes): Option<nat> {
    match ScanNumber(s)
    case NoDigits => None
    case Number(_, n) => if n > SIZE_MAX then None else Strtoul(s)
  }

  lemma {:induction false} SkipBlanks(blanks: bytes, rest: bytes)
    requires forall i :: 0 <= i < |blanks| ==> blanks[i] == ' ' || 9 <= blanks[i] as int <= 13
    requires rest == [] || !(rest[0] == ' ' || 9 <= rest[0] as int <= 13)
    ensures SkipSpaces(blanks + rest) == rest
    decreases |blanks|
  {
    if blanks == [] {
      assert blanks + rest == rest;
    } else {
      assert (blanks + rest)[1..] == blanks[1..] + rest;
      SkipBlanks(blanks[1..], rest);
    }
  }

  /** A number is read behind blanks and a sign, as far as its digits go; out of range it saturates, or makes
      `stoul` throw, and a minus sign takes it modulo 2^64. */
  lemma StrtoulReads(blanks: bytes, sign: bytes, n: nat, rest: bytes)
    requires forall i :: 0 <= i < |blanks| ==> blanks[i] == ' ' || 9 <= blanks[i] as int <= 13
    requires sign == "" || sign == "+" || sign == "-"
    requires rest == [] || !('0' <= rest[0] <= '9')
    ensures var s := blanks + (sign + (Decimal(n) + rest));
      && Strtoul(s) == Some(if n > 0xFFFF_FFFF_FFFF_FFFF then 0xFFFF_FFFF_FFFF_FFFF
                            else if sign == "-" && n > 0 then 0x1_0000_0000_0000_0000 - n else n)
      && Stoul(s) == if n > 0xFFFF_FFFF_FFFF_FFFF then None else Strtoul(s)
  {
    hide SkipSpaces;
    hide Decimal;
    hide ReadDigits;
    var digits := Decimal(n) + rest;
    assert IsDigit(digits[0]);
    SkipBlanks(blanks, sign + digits);
    assert (sign + digits)[|sign|..] == digits;
    ReadDecimal(n, rest);
    DigitsEnd(rest, n);
    assert ScanNumber(blanks + (sign + digits)) == Number(sign == "-", n);
  }

  lemma DigitsEnd(rest: bytes, n: nat)
    requires rest == [] || !('0' <= rest[0] <= '9')
    ensures ReadDigits(rest, n) == n
  {
  }

  /** Without a digit there is no number. */
  lemma StrtoulRefuses(blanks: bytes, sign: bytes, rest: bytes)
    requires forall i :: 0 <= i < |blanks| ==> blanks[i] == ' ' || 9 <= blanks[i] as int <= 13
    requires sign == "" || sign == "+" || sign == "-"
    requires rest == [] || !('0' <= rest[0] <= '9' || rest[0] == '+' || rest[0] == '-' || rest[0] == ' ' || 9 <= rest[0] as int <= 13)
    ensures Strtoul(blanks + (sign + rest)) == None && Stoul(blanks + (sign + rest)) == None
  {
    hide SkipSpaces;
    SkipBlanks(blanks, sign + rest);
    assert (sign + rest)[|sign|..] == rest;
  }

  // ---------------------------------------------------------------- joining and splitting

  /** The pieces of `s` between occurrences of `sep`. */
  function Split(s: bytes, sep: byte): (r: seq<bytes>)
    ensures |r| >= 1
    decreases |s|
  {
    var i := IndexOf(s, sep);
    if i == |s| then [s] else [s[..i]] + Split(s[i + 1..], sep)
  }

  function Join(pieces: seq<bytes>, sep: byte): bytes {
    if pieces == [] then []
    else if |pieces| == 1 then pieces[0]
    else pieces[0] + [sep] + Join(pieces[1..], sep)
  }

  lemma {:induction false} SplitJoin(pieces: seq<bytes>, sep: byte)
    requires pieces != []
    requires forall i :: 0 <= i < |pieces| ==> sep !in pieces[i]
    ensures Split(Join(pieces, sep), sep) == pieces
    decreases |pieces|
  {
    var s := Join(pieces, sep);
    var n := |pieces[0]|;
    if |pieces| == 1 {
      IndexOfIs(s, sep, 0, n);
    } else {
      assert s[..n] == pieces[0] && s[n] == sep && s[n + 1..] == Join(pieces[1..], sep);
      IndexOfIs(s, sep, 0, n);
      SplitJoin(pieces[1..], sep);
    }
  }
}
