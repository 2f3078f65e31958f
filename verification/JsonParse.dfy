/** Reading JSON: recursive descent over index ranges of one buffer. */
module JsonParse {
  import opened Bytes
  import opened OrderedMap
  import opened JsonStringify

  const UINT32_MAX: int := 0xFFFF_FFFF

  datatype Error =
    | TooLarge
    | EmptyInput
    | StringBounds
    | UnescapedQuote
    | NotAnEscape
    | InvalidEscape
    | NotANumber
    | NumberRange
    | ScopeTokens
    | LiteralTooLong
    | UnknownLiteral

  /** `is_valid_escaped_quote`: the quote at `idx` has two backslashes before it and is at least
      three characters into the range. */
  predicate EscapedQuote(data: bytes, idx: nat, begin: nat)
    requires begin <= idx < |data|
  {
    idx - begin >= 3 && data[idx - 1] == '\\' && data[idx - 2] == '\\'
  }

  // ---------------------------------------------------------------- the comma splitter

  /** Brackets open, closed ones counting negatively, and whether a quote is open. */
  datatype Scope = Scope(objects: int, arrays: int, quoted: bool)

  const OUTSIDE := Scope(0, 0, false)

  function Passed(scope: Scope, rune: byte): Scope {
    match rune
    case '{' => scope.(objects := scope.objects + 1)
    case '}' => scope.(objects := scope.objects - 1)
    case '[' => scope.(arrays := scope.arrays + 1)
    case ']' => scope.(arrays := scope.arrays - 1)
    case '\"' => scope.(quoted := !scope.quoted)
    case _ => scope
  }

  /** The scope after data[begin..end]. */
  function ScopeAt(data: bytes, begin: nat, end: nat): Scope
    requires begin <= end <= |data|
    decreases end
  {
    if begin == end then OUTSIDE
    else
      var before := ScopeAt(data, begin, end - 1);
      if data[end - 1] == '\"' && EscapedQuote(data, end - 1, begin) then before
      else Passed(before, data[end - 1])
  }

  /** A comma that separates two entries of the range that starts at `begin`. */
  predicate Separator(data: bytes, begin: nat, idx: nat)
    requires begin <= idx < |data|
  {
    data[idx] == ',' && ScopeAt(data, begin, idx + 1) == OUTSIDE
  }

  type Range = (nat, nat)

  /** The entries of data[begin..end], of which the one under way at `idx` starts at `from`. */
  function Ranges(data: bytes, begin: nat, end: nat, from: nat, idx: nat): (r: seq<Range>)
    requires begin <= from <= idx <= end <= |data|
    ensures r != []
    ensures forall i :: 0 <= i < |r| ==> begin <= r[i].0 <= r[i].1 <= end
    decreases end - idx
  {
    if idx == end then [(from, end)]
    else if Separator(data, begin, idx) then [(from, idx)] + Ranges(data, begin, end, idx + 1, idx + 1)
    else Ranges(data, begin, end, from, idx + 1)
  }

  /** The ranges cover `from` to `end` but for one comma between neighbours. */
  ghost predicate Tiles(data: bytes, rs: seq<Range>, from: nat, end: nat) {
    rs != [] && from <= rs[0].1 <= end <= |data| && rs[0].0 == from &&
    if |rs| == 1 then rs[0].1 == end
    else rs[0].1 < end && data[rs[0].1] == ',' && Tiles(data, rs[1..], rs[0].1 + 1, end)
  }

  /** `idx` is the end of a range that is not the last. */
  ghost predicate EndsRange(rs: seq<Range>, idx: nat) {
    exists i :: 0 <= i < |rs| - 1 && rs[i].1 == idx
  }

  lemma EndsRangeFirst(rs: seq<Range>, idx: nat)
    requires |rs| > 1
    ensures EndsRange(rs, idx) <==> idx == rs[0].1 || EndsRange(rs[1..], idx)
  {
    if EndsRange(rs, idx) && idx != rs[0].1 {
      var k :| 0 <= k < |rs| - 1 && rs[k].1 == idx;
      assert rs[1..][k - 1].1 == idx;
    }
    if EndsRange(rs[1..], idx) {
      var k :| 0 <= k < |rs[1..]| - 1 && rs[1..][k].1 == idx;
      assert rs[k + 1].1 == idx;
    }
  }

  lemma {:induction false} EndsRangeWithin(data: bytes, rs: seq<Range>, from: nat, end: nat, idx: nat)
    requires Tiles(data, rs, from, end) && EndsRange(rs, idx)
    ensures |rs| > 1 && rs[0].1 <= idx < end
    ensures idx != rs[0].1 ==> rs[0].1 + 1 <= idx
  {
    if |rs| > 1 {
      EndsRangeFirst(rs, idx);
      if EndsRange(rs[1..], idx) {
        EndsRangeWithin(data, rs[1..], rs[0].1 + 1, end, idx);
      }
    }
  }

  lemma {:induction false} RangesTileFrom(data: bytes, begin: nat, end: nat, from: nat, idx: nat)
    requires begin <= from <= idx <= end <= |data|
    ensures Tiles(data, Ranges(data, begin, end, from, idx), from, end)
    decreases end - idx
  {
    hide Separator;
    if idx < end {
      if Separator(data, begin, idx) {
        SeparatorIsComma(data, begin, idx);
        RangesTileFrom(data, begin, end, idx + 1, idx + 1);
        assert Ranges(data, begin, end, from, idx)[1..] == Ranges(data, begin, end, idx + 1, idx + 1);
      } else {
        RangesTileFrom(data, begin, end, from, idx + 1);
      }
    }
  }

  lemma {:induction false} RangesEndAt(data: bytes, begin: nat, end: nat, from: nat, idx: nat, i: nat)
    requires begin <= from <= idx <= end <= |data|
    ensures EndsRange(Ranges(data, begin, end, from, idx), i) <==> idx <= i < end && Separator(data, begin, i)
    decreases end - idx
  {
    hide Separator;
    hide EndsRange;
    var rs := Ranges(data, begin, end, from, idx);
    if idx == end {
      SingleEndsNone(rs);
    } else if Separator(data, begin, idx) {
      assert rs[1..] == Ranges(data, begin, end, idx + 1, idx + 1);
      EndsRangeFirst(rs, i);
      RangesEndAt(data, begin, end, idx + 1, idx + 1, i);
    } else {
      RangesEndAt(data, begin, end, from, idx + 1, i);
    }
  }

  /** The splitter tiles its range, and cuts at the separators and nowhere else. */
  lemma RangesTile(data: bytes, begin: nat, end: nat)
    requires begin <= end <= |data|
    ensures Tiles(data, Ranges(data, begin, end, begin, begin), begin, end)
    ensures forall i: nat :: EndsRange(Ranges(data, begin, end, begin, begin), i) <==> begin <= i < end && Separator(data, begin, i)
  {
    RangesTileFrom(data, begin, end, begin, begin);
    forall i: nat {
      RangesEndAt(data, begin, end, begin, begin, i);
    }
  }

  lemma SingleEndsNone(rs: seq<Range>)
    requires |rs| == 1
    ensures forall i: nat :: !EndsRange(rs, i)
  {
  }

  lemma SeparatorIsComma(data: bytes, begin: nat, idx: nat)
    requires begin <= idx < |data| && Separator(data, begin, idx)
    ensures data[idx] == ','
  {
  }

  /** What tiles a range and is cut at the same places is the same list of entries. */
  lemma {:induction false} TilesUnique(data: bytes, rs: seq<Range>, qs: seq<Range>, from: nat, end: nat)
    requires Tiles(data, rs, from, end) && Tiles(data, qs, from, end)
    requires forall i: nat :: EndsRange(rs, i) <==> EndsRange(qs, i)
    ensures rs == qs
  {
    hide EndsRange;
    if |rs| == 1 {
      SingleEndsNone(rs);
      if |qs| > 1 {
        EndsRangeFirst(qs, qs[0].1);
        assert false;
      }
      assert rs[0] == qs[0];
    } else if |qs| == 1 {
      SingleEndsNone(qs);
      EndsRangeFirst(rs, rs[0].1);
      assert false;
    } else {
      EndsRangeFirst(rs, rs[0].1);
      EndsRangeFirst(qs, qs[0].1);
      EndsRangeWithin(data, rs, from, end, qs[0].1);
      EndsRangeWithin(data, qs, from, end, rs[0].1);
      forall i: nat ensures EndsRange(rs[1..], i) <==> EndsRange(qs[1..], i) {
        TailEnds(data, rs, from, end, i);
        TailEnds(data, qs, from, end, i);
      }
      TilesUnique(data, rs[1..], qs[1..], rs[0].1 + 1, end);
      assert rs == [rs[0]] + rs[1..] && qs == [qs[0]] + qs[1..] && rs[0] == qs[0];
    }
  }

  lemma TailEnds(data: bytes, rs: seq<Range>, from: nat, end: nat, i: nat)
    requires |rs| > 1 && Tiles(data, rs, from, end)
    ensures EndsRange(rs[1..], i) <==> EndsRange(rs, i) && i != rs[0].1
  {
    hide EndsRange;
    EndsRangeFirst(rs, i);
    if EndsRange(rs[1..], i) {
      EndsRangeWithin(data, rs[1..], rs[0].1 + 1, end, i);
    }
  }

  /** A bracket count as a `size_t` holds it. */
  function Wrapped(n: int): (r: nat) {
    n % (SIZE_MAX + 1)
  }

  /** In a buffer within the size limit a counter that wrapped below zero is not taken for zero. */
  lemma WrappedIsZero(n: int)
    requires -UINT32_MAX <= n <= UINT32_MAX
    ensures Wrapped(n) == 0 <==> n == 0
  {
  }

  lemma WrappedSteps(n: int)
    ensures Wrapped(Wrapped(n) + 1) == Wrapped(n + 1)
    ensures Wrapped(Wrapped(n) - 1) == Wrapped(n - 1)
  {
    var q, r := n / (SIZE_MAX + 1), n % (SIZE_MAX + 1);
    assert n == q * (SIZE_MAX + 1) + r && Wrapped(n) == r;
    hide Wrapped;
    if r == SIZE_MAX {
      WrappedIs(r + 1, 1, 0);
      WrappedIs(n + 1, q + 1, 0);
    } else {
      WrappedIs(r + 1, 0, r + 1);
      WrappedIs(n + 1, q, r + 1);
    }
    if r == 0 {
      WrappedIs(r - 1, -1, SIZE_MAX);
      WrappedIs(n - 1, q - 1, SIZE_MAX);
    } else {
      WrappedIs(r - 1, 0, r - 1);
      WrappedIs(n - 1, q, r - 1);
    }
  }

  lemma WrappedIs(n: int, q: int, r: nat)
    requires n == q * (SIZE_MAX + 1) + r && r <= SIZE_MAX
    ensures Wrapped(n) == r
  {
    assert n / (SIZE_MAX + 1) == q;
  }

  /** The wrapping counters after one more character. */
  lemma CountersStep(scope: Scope, rune: byte)
    ensures var after := Passed(scope, rune);
      && Wrapped(after.objects) == (if rune == '{' then Wrapped(Wrapped(scope.objects) + 1)
                                    else if rune == '}' then Wrapped(Wrapped(scope.objects) - 1) else Wrapped(scope.objects))
      && Wrapped(after.arrays) == (if rune == '[' then Wrapped(Wrapped(scope.arrays) + 1)
                                   else if rune == ']' then Wrapped(Wrapped(scope.arrays) - 1) else Wrapped(scope.arrays))
      && after.quoted == (if rune == '\"' then !scope.quoted else scope.quoted)
      && scope.objects - 1 <= after.objects <= scope.objects + 1 && scope.arrays - 1 <= after.arrays <= scope.arrays + 1
  {
    hide Wrapped;
    WrappedSteps(scope.objects);
    WrappedSteps(scope.arrays);
  }

  /** `get_object_entries`. */
  method GetObjectEntries(data: bytes, begin: nat, end: nat) returns (entries: seq<Range>)
    requires begin <= end <= |data| <= UINT32_MAX
    ensures entries == Ranges(data, begin, end, begin, begin)
  {
    hide Ranges;
    hide ScopeAt;
    hide Wrapped;
    hide Passed;
    hide EscapedQuote;
    WrappedIsZero(0);
    var entryBegin := begin;
    entries := [];
    var scopeObj, scopeArr, scopeStr := 0, 0, false;
    ghost var scope := OUTSIDE;
    ScopeAtStart(data, begin);
    for idx := begin to end
      invariant entryBegin <= idx && begin <= entryBegin
      invariant scope == ScopeAt(data, begin, idx)
      invariant begin - idx <= scope.objects <= idx - begin && begin - idx <= scope.arrays <= idx - begin
      invariant scopeObj == Wrapped(scope.objects) && scopeArr == Wrapped(scope.arrays) && scopeStr == scope.quoted
      invariant entries + Ranges(data, begin, end, entryBegin, idx) == Ranges(data, begin, end, begin, begin)
    {
      ScopeAtStep(data, begin, idx);
      CountersStep(scope, data[idx]);
      match data[idx] {
        case '{' =>
          scopeObj := Wrapped(scopeObj + 1);
        case '}' =>
          scopeObj := Wrapped(scopeObj - 1);
        case '[' =>
          scopeArr := Wrapped(scopeArr + 1);
        case ']' =>
          scopeArr := Wrapped(scopeArr - 1);
        case '\"' =>
          if !EscapedQuote(data, idx, begin) {
            scopeStr := !scopeStr;
          }
        case _ =>
      }
      scope := ScopeAt(data, begin, idx + 1);
      WrappedIsZero(scope.objects);
      WrappedIsZero(scope.arrays);
      RangesStep(data, begin, end, entryBegin, idx);
      if scopeObj == 0 && scopeArr == 0 && !scopeStr && data[idx] == ',' {
        entries := entries + [(entryBegin, idx)];
        entryBegin := idx + 1;
      }
    }
    RangesEnd(data, begin, end, entryBegin);
    entries := entries + [(entryBegin, end)];
  }

  lemma ScopeAtStart(data: bytes, begin: nat)
    requires begin <= |data|
    ensures ScopeAt(data, begin, begin) == OUTSIDE
  {
  }

  lemma ScopeAtStep(data: bytes, begin: nat, idx: nat)
    requires begin <= idx < |data|
    ensures ScopeAt(data, begin, idx + 1) ==
      var before := ScopeAt(data, begin, idx);
      if data[idx] == '\"' && EscapedQuote(data, idx, begin) then before else Passed(before, data[idx])
  {
  }

  lemma RangesEnd(data: bytes, begin: nat, end: nat, from: nat)
    requires begin <= from <= end <= |data|
    ensures Ranges(data, begin, end, from, end) == [(from, end)]
  {
  }

  lemma RangesStep(data: bytes, begin: nat, end: nat, from: nat, idx: nat)
    requires begin <= from <= idx < end <= |data|
    ensures Ranges(data, begin, end, from, idx) ==
      if Separator(data, begin, idx) then [(from, idx)] + Ranges(data, begin, end, idx + 1, idx + 1)
      else Ranges(data, begin, end, from, idx + 1)
  {
  }

  // ---------------------------------------------------------------- strings

  /** A quote in the content of a string that no pair of backslashes excuses. */
  predicate BareQuote(content: bytes, i: nat)
    requires i < |content|
  {
    content[i] == '\"' && !EscapedQuote(content, i, 0)
  }

  predicate HasBareQuote(content: bytes) {
    exists i :: 0 <= i < |content| && BareQuote(content, i)
  }

  function EscapeOf(c: byte): Option<byte> {
    match c
    case 'n' => Some('\n')
    case 'r' => Some('\r')
    case 't' => Some('\t')
    case '\"' => Some('\"')
    case '\\' => Some('\\')
    case _ => None
  }

  /** Two backslashes and one of these letters are one character; other letters are refused. */
  lemma EscapeReads(c: byte, rest: bytes)
    ensures Unescaped(['\\', '\\', c] + rest) ==
      if c == 'n' then Prepended('\n', Unescaped(rest))
      else if c == 'r' then Prepended('\r', Unescaped(rest))
      else if c == 't' then Prepended('\t', Unescaped(rest))
      else if c == '\"' || c == '\\' then Prepended(c, Unescaped(rest))
      else Err(InvalidEscape)
  {
    var s: bytes := ['\\', '\\', c] + rest;
    assert s[3..] == rest && s[2] == c;
  }

  /** One backslash is no escape, and two at the end of a string escape the quote that closes it. */
  lemma LoneBackslash(c: byte, rest: bytes)
    ensures c != '\\' ==> Unescaped(['\\', c] + rest) == Err(NotAnEscape)
    ensures Unescaped(['\\']) == Err(NotAnEscape)
    ensures Unescaped(['\\', '\\']) == Ok("\"")
  {
  }

  function Prepended(c: byte, r: Result<bytes, Error>): Result<bytes, Error> {
    match r
    case Ok(rest) => Ok([c] + rest)
    case Err(e) => Err(e)
  }

  /** The content of a string with its escapes resolved; an escape is two backslashes and a letter,
      and the letter of one at the very end is the closing quote. */
  function Unescaped(content: bytes): Result<bytes, Error>
    decreases |content|
  {
    if content == [] then Ok([])
    else if content[0] != '\\' then Prepended(content[0], Unescaped(content[1..]))
    else if |content| == 1 || content[1] != '\\' then Err(NotAnEscape)
    else if |content| == 2 then Ok("\"")
    else match EscapeOf(content[2])
      case Some(c) => Prepended(c, Unescaped(content[3..]))
      case None => Err(InvalidEscape)
  }

  /** `parse_string`; a lone quote is taken for an empty string. */
  function StringAt(data: bytes, begin: nat, end: nat): Result<Property, Error>
    requires begin < end <= |data|
  {
    if data[begin] != '\"' || data[end - 1] != '\"' then Err(StringBounds)
    else if end - begin == 1 then Ok(Str([]))
    else
      var content := data[begin + 1..end - 1];
      if HasBareQuote(content) then Err(UnescapedQuote)
      else Quoted(Unescaped(content))
  }

  function Quoted(r: Result<bytes, Error>): Result<Property, Error> {
    match r
    case Ok(value) => Ok(Str(value))
    case Err(e) => Err(e)
  }

  function Onto(value: bytes, r: Result<bytes, Error>): Result<bytes, Error> {
    match r
    case Ok(rest) => Ok(value + rest)
    case Err(e) => Err(e)
  }

  lemma UnescapedAt(content: bytes, i: nat, value: bytes)
    requires i < |content|
    ensures Onto(value, Unescaped(content[i..])) ==
      if content[i] != '\\' then Onto(value + [content[i]], Unescaped(content[i + 1..]))
      else if i + 1 == |content| || content[i + 1] != '\\' then Err(NotAnEscape)
      else if i + 2 == |content| then Ok(value + "\"")
      else if EscapeOf(content[i + 2]).None? then Err(InvalidEscape)
      else Onto(value + [EscapeOf(content[i + 2]).value], Unescaped(content[i + 3..]))
  {
    hide EscapeOf;
    var rest := content[i..];
    assert rest[1..] == content[i + 1..];
    if i + 2 < |content| {
      assert rest[3..] == content[i + 3..] && rest[2] == content[i + 2];
      OntoPrepended(value, EscapeOf(content[i + 2]), Unescaped(content[i + 3..]));
    }
    OntoPrepended(value, Some(content[i]), Unescaped(content[i + 1..]));
  }

  lemma OntoPrepended(value: bytes, c: Option<byte>, r: Result<bytes, Error>)
    ensures c.Some? ==> Onto(value, Prepended(c.value, r)) == Onto(value + [c.value], r)
  {
    if c.Some? && r.Ok? {
      assert value + ([c.value] + r.value) == value + [c.value] + r.value;
    }
  }

  lemma UnescapedEnds(content: bytes)
    ensures Onto([], Unescaped(content[0..])) == Unescaped(content)
    ensures forall value :: Onto(value, Unescaped(content[|content|..])) == Ok(value)
  {
    forall value ensures Onto(value, Ok([])) == Ok(value) {
      assert value + [] == value;
    }
    assert content[0..] == content;
    if Unescaped(content).Ok? {
      assert [] + Unescaped(content).value == Unescaped(content).value;
    }
  }

  method ParseString(data: bytes, begin: nat, end: nat) returns (r: Result<Property, Error>)
    requires begin < end <= |data|
    ensures r == StringAt(data, begin, end)
  {
    hide Unescaped;
    if data[begin] != '\"' || data[end - 1] != '\"' {
      return Err(StringBounds);
    }
    if end - 1 < begin + 1 {
      return Ok(Str([]));
    }
    var first, last := begin + 1, end - 1;
    ghost var content := data[first..last];
    for idx := first to last
      invariant forall i :: 0 <= i < idx - first ==> !BareQuote(content, i)
    {
      if data[idx] == '\"' && !EscapedQuote(data, idx, first) {
        assert BareQuote(content, idx - first);
        return Err(UnescapedQuote);
      }
    }
    var value := UnescapeContent(data, first, last);
    return if value.Ok? then Ok(Str(value.value)) else Err(value.error);
  }

  lemma QuoteEscapes()
    ensures EscapeOf('\"') == Some('\"')
  {
  }

  method UnescapeContent(data: bytes, begin: nat, end: nat) returns (r: Result<bytes, Error>)
    requires begin <= end < |data| && data[end] == '\"'
    ensures r == Unescaped(data[begin..end])
  {
    hide Unescaped;
    hide EscapeOf;
    ghost var content := data[begin..end];
    var value: bytes := [];
    var idx := begin;
    QuoteEscapes();
    UnescapedEnds(content);
    while idx < end
      invariant begin <= idx <= end
      invariant Onto(value, Unescaped(content[idx - begin..])) == Unescaped(content)
    {
      UnescapedAt(content, idx - begin, value);
      var rune := data[idx];
      if rune == '\\' {
        var nextRune := data[idx + 1];
        if nextRune != '\\' {
          return Err(NotAnEscape);
        }
        var escape := EscapeOf(data[idx + 2]);
        if escape.None? {
          return Err(InvalidEscape);
        }
        value := value + [escape.value];
        if idx + 2 == end {
          return Ok(value);
        }
        idx := idx + 3;
      } else {
        value := value + [rune];
        idx := idx + 1;
      }
    }
    return Ok(value);
  }

  // ---------------------------------------------------------------- numbers and literals

  function IntOf(token: bytes): Result<Property, Error> {
    match ScanNumber(token)
    case NoDigits => Err(NotANumber)
    case Number(negative, magnitude) =>
      var n := if negative then 0 - magnitude else magnitude;
      if -0x8000_0000_0000_0000 <= n < 0x8000_0000_0000_0000 then Ok(Int(n)) else Err(NumberRange)
  }

  /** A number of at most 64 bits is read as far as its digits go. */
  lemma IntOfIs(negative: bool, n: nat, rest: bytes)
    requires rest == [] || !('0' <= rest[0] <= '9')
    ensures IntOf((if negative then "-" else "") + (Decimal(n) + rest)) ==
      if negative && n <= 0x8000_0000_0000_0000 then Ok(Int(0 - n))
      else if !negative && n < 0x8000_0000_0000_0000 then Ok(Int(n))
      else Err(NumberRange)
  {
    hide Decimal;
    hide ReadDigits;
    var digits := Decimal(n) + rest;
    assert IsDigit(digits[0]);
    ReadDecimal(n, rest);
    DigitsEnd(rest, n);
    if negative {
      assert ("-" + digits)[1..] == digits && ("-" + digits)[0] == '-';
      assert ScanNumber("-" + digits) == Number(true, n);
    } else {
      assert "" + digits == digits;
      assert ScanNumber(digits) == Number(false, n);
    }
  }

  /** `parse_number`: a point anywhere in the buffer up to `end` makes the number a float. */
  function NumberAt(data: bytes, begin: nat, end: nat): Result<Property, Error>
    requires begin < end <= |data| && data[begin] != '.'
  {
    if '.' in data[..end] then Ok(Float(data[begin..end])) else IntOf(data[begin..end])
  }

  /** `parse_literal`. */
  function LiteralOf(token: bytes): Result<Property, Error> {
    if |token| > 4 then Err(LiteralTooLong)
    else if token == "true" then Ok(Bool(true))
    else if token == "false" then Ok(Bool(false))
    else if token == "null" then Ok(Null)
    else Err(UnknownLiteral)
  }

  /** `true` and `null` are read, and `false` is too long to be. */
  lemma LiteralOfIs(token: bytes)
    ensures LiteralOf(token) ==
      if token == "true" then Ok(Bool(true))
      else if token == "null" then Ok(Null)
      else if |token| > 4 then Err(LiteralTooLong)
      else Err(UnknownLiteral)
    ensures LiteralOf("false") == Err(LiteralTooLong)
  {
  }

  // ---------------------------------------------------------------- keys

  /** A quote that opens or closes a key: no backslash stands before it. */
  predicate IsKeyQuote(data: bytes, begin: nat, idx: nat)
    requires begin <= idx < |data|
  {
    data[idx] == '\"' && !(idx > begin && data[idx - 1] == '\\')
  }

  /** The first quote at or after `from` that has no backslash before it, or `end`. */
  function KeyQuote(data: bytes, begin: nat, end: nat, from: nat): (r: nat)
    requires begin <= from <= end <= |data|
    ensures from <= r <= end
    ensures r < end ==> IsKeyQuote(data, begin, r)
    decreases end - from
  {
    if from == end || IsKeyQuote(data, begin, from) then from
    else KeyQuote(data, begin, end, from + 1)
  }

  /** The key of an entry and where its value begins; None where the entry is passed over, for
      want of a key, a colon or a value. */
  function KeyAt(data: bytes, begin: nat, end: nat): (r: Option<(bytes, nat)>)
    requires begin <= end <= |data|
    ensures r.Some? ==> r.value.0 != [] && begin < r.value.1 < end
  {
    var open := KeyQuote(data, begin, end, begin);
    if open == end then None
    else
      var close := KeyQuote(data, begin, end, open + 1);
      if close == end || close == open + 1 then None
      else
        var colon := IndexOf(data[..end], ':', close + 1);
        if colon + 1 >= end then None else Some((data[open + 1..close], colon + 1))
  }

  lemma KeyQuoteStep(data: bytes, begin: nat, end: nat, from: nat)
    requires begin <= from < end <= |data|
    ensures KeyQuote(data, begin, end, from) ==
      if IsKeyQuote(data, begin, from) then from else KeyQuote(data, begin, end, from + 1)
  {
  }

  /** The key scan of `parse_object`. */
  method FindKey(data: bytes, begin: nat, end: nat) returns (r: Option<(bytes, nat)>)
    requires begin <= end <= |data|
    ensures r == KeyAt(data, begin, end)
  {
    hide KeyQuote;
    var key: bytes := [];
    var keyBegin, valueBegin: Option<nat> := None, None;
    var idx := begin;
    while idx < end
      invariant begin <= idx <= end
      invariant keyBegin.None? ==> key == [] && KeyQuote(data, begin, end, begin) == KeyQuote(data, begin, end, idx)
      invariant keyBegin.Some? ==> KeyQuote(data, begin, end, begin) + 1 == keyBegin.value <= idx
      invariant keyBegin.Some? && key == [] ==>
        KeyQuote(data, begin, end, keyBegin.value) == KeyQuote(data, begin, end, idx)
      invariant key != [] ==> Keyed(data, begin, end, key, idx)
    {
      KeyQuoteStep(data, begin, end, idx);
      var rune := data[idx];
      if key == [] && rune == '\"' && !(idx > begin && data[idx - 1] == '\\') {
        if keyBegin.None? {
          keyBegin := Some(idx + 1);
          idx := idx + 1;
          continue;
        }
        var keySize := idx - keyBegin.value;
        if keySize == 0 {
          return None;
        }
        key := data[keyBegin.value..idx];
        idx := idx + 1;
        continue;
      }
      if key != [] && rune == ':' {
        valueBegin := Some(idx + 1);
        break;
      }
      idx := idx + 1;
    }
    if key == [] || valueBegin.None? || end - valueBegin.value <= 0 {
      return None;
    }
    return Some((key, valueBegin.value));
  }

  /** The key has been read and no colon found yet before `idx`. */
  ghost predicate Keyed(data: bytes, begin: nat, end: nat, key: bytes, idx: nat)
    requires begin <= idx <= end <= |data|
  {
    var open := KeyQuote(data, begin, end, begin);
    open < end &&
    var close := KeyQuote(data, begin, end, open + 1);
    open + 1 < close < idx && key == data[open + 1..close] &&
    IndexOf(data[..end], ':', close + 1) == IndexOf(data[..end], ':', idx)
  }

  // ---------------------------------------------------------------- values

  /** The first position at or after `begin` that is not blank, or `end`. */
  function FirstInk(data: bytes, begin: nat, end: nat): (r: nat)
    requires begin <= end <= |data|
    ensures begin <= r <= end
    ensures r < end ==> !IsSpace(data[r])
    ensures forall i :: begin <= i < r ==> IsSpace(data[i])
    decreases end - begin
  {
    if begin == end || !IsSpace(data[begin]) then begin else FirstInk(data, begin + 1, end)
  }

  /** Where the blanks that end data[begin..end] begin. */
  function LastInk(data: bytes, begin: nat, end: nat): (r: nat)
    requires begin <= end <= |data|
    ensures begin <= r <= end
    ensures begin < r ==> !IsSpace(data[r - 1])
    ensures begin < end && !IsSpace(data[begin]) ==> begin < r
    ensures forall i :: r <= i < end ==> IsSpace(data[i])
    decreases end
  {
    if begin == end || !IsSpace(data[end - 1]) then end else LastInk(data, begin, end - 1)
  }

  /** The range without the blanks around it; a range of blanks alone is left as it is. */
  function Inked(data: bytes, begin: nat, end: nat): (r: Range)
    requires begin <= end <= |data|
    ensures begin <= r.0 <= r.1 <= end
    ensures r.0 == r.1 ==> begin == end
  {
    var b := FirstInk(data, begin, end);
    if b == end then (begin, end) else (b, LastInk(data, b, end))
  }

  lemma InkedAll(data: bytes, begin: nat, end: nat)
    requires begin < end <= |data| && !IsSpace(data[begin]) && !IsSpace(data[end - 1])
    ensures Inked(data, begin, end) == (begin, end)
  {
  }

  lemma InkedIs(data: bytes, begin: nat, b: nat, e: nat, end: nat)
    requires begin <= b < e <= end <= |data| && !IsSpace(data[b]) && !IsSpace(data[e - 1])
    requires forall i :: begin <= i < b || e <= i < end ==> IsSpace(data[i])
    ensures Inked(data, begin, end) == (b, e)
  {
    var first := FirstInk(data, begin, end);
    assert !(first < b) && !(b < first);
    var last := LastInk(data, b, end);
    assert !(last < e) && !(e < last);
  }

  method TrimRange(data: bytes, begin: nat, end: nat) returns (b: nat, e: nat)
    requires begin <= end <= |data|
    ensures (b, e) == Inked(data, begin, end)
  {
    hide IsSpace;
    b, e := begin, end;
    var idx := begin;
    while idx < end
      invariant begin <= idx <= end
      invariant b == begin && FirstInk(data, begin, end) == FirstInk(data, idx, end)
    {
      if !IsSpace(data[idx]) {
        b := idx;
        break;
      }
      idx := idx + 1;
    }
    var back := end - 1;
    while back >= b
      invariant b - 1 <= back < end
      invariant e == end && LastInk(data, b, end) == LastInk(data, b, back + 1)
    {
      if !IsSpace(data[back]) {
        e := back + 1;
        break;
      }
      back := back - 1;
    }
  }

  /** `parse_range`. */
  function ParseRange(data: bytes, begin: nat, end: nat): Result<Property, Error>
    requires begin <= end <= |data|
    decreases end - begin, 0, 0
  {
    var (b, e) := Inked(data, begin, end);
    if b == e then Ok(Undefined)
    else if data[b] == '\"' then StringAt(data, b, e)
    else if IsDigit(data[b]) || data[b] == '-' then NumberAt(data, b, e)
    else if data[b] == '{' then
      if data[e - 1] != '}' then Err(ScopeTokens)
      else match ParseEntries(data, b + 1, e - 1, Ranges(data, b + 1, e - 1, b + 1, b + 1), [])
        case Ok(entries) => Ok(Obj(entries))
        case Err(error) => Err(error)
    else if data[b] == '[' then
      if data[e - 1] != ']' then Err(ScopeTokens)
      else match ParseItems(data, b + 1, e - 1, Ranges(data, b + 1, e - 1, b + 1, b + 1))
        case Ok(items) => Ok(Arr(items))
        case Err(error) => Err(error)
    else LiteralOf(data[b..e])
  }

  /** Blanks around a value do not matter: spaces, tabs, line feeds, vertical tabs, form feeds and carriage
      returns. */
  lemma BlanksDropped(data: bytes, begin: nat, b: nat, e: nat, end: nat)
    requires begin <= b < e <= end <= |data|
    requires forall i :: begin <= i < b || e <= i < end ==> data[i] == ' ' || 9 <= data[i] as int <= 13
    requires !(data[b] == ' ' || 9 <= data[b] as int <= 13) && !(data[e - 1] == ' ' || 9 <= data[e - 1] as int <= 13)
    ensures ParseRange(data, begin, end) == ParseRange(data, b, e)
  {
    hide Inked;
    hide StringAt;
    hide NumberAt;
    hide Ranges;
    hide ParseItems;
    hide ParseEntries;
    hide LiteralOf;
    InkedIs(data, begin, b, e, end);
    InkedIs(data, b, b, e, e);
  }

  /** Blanks alone are no value. */
  lemma BlanksRefused(data: bytes, begin: nat, end: nat)
    requires begin < end <= |data|
    requires forall i :: begin <= i < end ==> data[i] == ' ' || 9 <= data[i] as int <= 13
    ensures ParseRange(data, begin, end) == Err(if end - begin > 4 then LiteralTooLong else UnknownLiteral)
  {
    hide StringAt;
    hide NumberAt;
    hide Ranges;
    hide ParseItems;
    hide ParseEntries;
    var b := FirstInk(data, begin, end);
    assert b == end;
    assert data[begin] == data[begin..end][0];
  }

  ghost predicate Inside(rs: seq<Range>, begin: nat, end: nat) {
    forall i :: 0 <= i < |rs| ==> begin <= rs[i].0 <= rs[i].1 <= end
  }

  /** The values found in `ranges`, all of which lie in data[begin..end]. */
  function ParseItems(data: bytes, begin: nat, end: nat, ranges: seq<Range>): Result<seq<Property>, Error>
    requires begin <= end <= |data| && Inside(ranges, begin, end)
    decreases end - begin, 1, |ranges|
  {
    if ranges == [] then Ok([])
    else match ParseRange(data, ranges[0].0, ranges[0].1)
      case Err(error) => Err(error)
      case Ok(item) =>
        match ParseItems(data, begin, end, ranges[1..])
        case Err(error) => Err(error)
        case Ok(items) => Ok([item] + items)
  }

  /** `entries` once the entries found in `ranges` are put into it. */
  function ParseEntries(data: bytes, begin: nat, end: nat, ranges: seq<Range>, entries: seq<(bytes, Property)>):
    Result<seq<(bytes, Property)>, Error>
    requires begin <= end <= |data| && Inside(ranges, begin, end)
    decreases end - begin, 1, |ranges|
  {
    if ranges == [] then Ok(entries)
    else match KeyAt(data, ranges[0].0, ranges[0].1)
      case None => ParseEntries(data, begin, end, ranges[1..], entries)
      case Some((key, value)) =>
        match ParseRange(data, value, ranges[0].1)
        case Err(error) => Err(error)
        case Ok(v) => ParseEntries(data, begin, end, ranges[1..], Put(entries, key, v))
  }

  /** `JSON::parse`. */
  function Parse(data: bytes): Result<Property, Error> {
    if |data| > UINT32_MAX then Err(TooLarge)
    else match ParseRange(data, 0, |data|)
      case Ok(Undefined) => Err(EmptyInput)
      case r => r
  }

  /** Four gigabytes are too large, and nothing is no value. */
  lemma ParseLimits(data: bytes)
    ensures |data| >= 0x1_0000_0000 ==> Parse(data) == Err(TooLarge)
    ensures data == [] ==> Parse(data) == Err(EmptyInput)
    ensures data != [] && |data| < 0x1_0000_0000 && ParseRange(data, 0, |data|) != Ok(Undefined) ==>
      Parse(data) == ParseRange(data, 0, |data|)
  {
  }

  method ReadRange(data: bytes, begin: nat, end: nat) returns (r: Result<Property, Error>)
    requires begin <= end <= |data| <= UINT32_MAX
    ensures r == ParseRange(data, begin, end)
    decreases end - begin, 0
  {
    hide Ranges;
    hide Inked;
    hide StringAt;
    hide NumberAt;
    hide ParseItems;
    hide ParseEntries;
    hide LiteralOf;
    var b, e := TrimRange(data, begin, end);
    if e - b <= 0 {
      return Ok(Undefined);
    }
    var firstRune := data[b];
    if firstRune == '\"' {
      r := ParseString(data, b, e);
    } else if IsDigit(firstRune) || firstRune == '-' {
      return NumberAt(data, b, e);
    } else if firstRune == '{' {
      if data[e - 1] != '}' {
        return Err(ScopeTokens);
      }
      var entries := ReadObject(data, b + 1, e - 1);
      return if entries.Ok? then Ok(Obj(entries.value)) else Err(entries.error);
    } else if firstRune == '[' {
      if data[e - 1] != ']' {
        return Err(ScopeTokens);
      }
      var items := ReadArray(data, b + 1, e - 1);
      return if items.Ok? then Ok(Arr(items.value)) else Err(items.error);
    } else {
      return LiteralOf(data[b..e]);
    }
  }

  method ReadArray(data: bytes, begin: nat, end: nat) returns (r: Result<seq<Property>, Error>)
    requires begin <= end <= |data| <= UINT32_MAX
    ensures r == ParseItems(data, begin, end, Ranges(data, begin, end, begin, begin))
    decreases end - begin, 1
  {
    hide Ranges;
    hide ParseRange;
    hide ParseItems;
    var ranges := GetObjectEntries(data, begin, end);
    var entries: seq<Property> := [];
    ParseItemsEnds(data, begin, end, ranges);
    for i := 0 to |ranges|
      invariant Items(entries, ParseItems(data, begin, end, ranges[i..])) == ParseItems(data, begin, end, ranges)
    {
      ParseItemsAt(data, begin, end, ranges, i, entries);
      var entry := ReadRange(data, ranges[i].0, ranges[i].1);
      if entry.Err? {
        return Err(entry.error);
      }
      entries := entries + [entry.value];
    }
    assert entries + [] == entries;
    return Ok(entries);
  }

  function Items(done: seq<Property>, r: Result<seq<Property>, Error>): Result<seq<Property>, Error> {
    match r
    case Ok(items) => Ok(done + items)
    case Err(error) => Err(error)
  }

  lemma ParseItemsEnds(data: bytes, begin: nat, end: nat, ranges: seq<Range>)
    requires begin <= end <= |data| && Inside(ranges, begin, end)
    ensures Items([], ParseItems(data, begin, end, ranges[0..])) == ParseItems(data, begin, end, ranges)
    ensures ParseItems(data, begin, end, ranges[|ranges|..]) == Ok([])
  {
    hide ParseRange;
    assert ranges[0..] == ranges;
    var r := ParseItems(data, begin, end, ranges);
    if r.Ok? {
      assert [] + r.value == r.value;
    }
  }

  lemma ParseItemsAt(data: bytes, begin: nat, end: nat, ranges: seq<Range>, i: nat, done: seq<Property>)
    requires begin <= end <= |data| && Inside(ranges, begin, end) && i < |ranges|
    ensures Items(done, ParseItems(data, begin, end, ranges[i..])) ==
      var item := ParseRange(data, ranges[i].0, ranges[i].1);
      if item.Err? then Err(item.error)
      else Items(done + [item.value], ParseItems(data, begin, end, ranges[i + 1..]))
  {
    hide ParseRange;
    assert ranges[i..][1..] == ranges[i + 1..];
    var item := ParseRange(data, ranges[i].0, ranges[i].1);
    var rest := ParseItems(data, begin, end, ranges[i + 1..]);
    if item.Ok? && rest.Ok? {
      assert done + ([item.value] + rest.value) == done + [item.value] + rest.value;
    }
  }

  method ReadObject(data: bytes, begin: nat, end: nat) returns (r: Result<seq<(bytes, Property)>, Error>)
    requires begin <= end <= |data| <= UINT32_MAX
    ensures r == ParseEntries(data, begin, end, Ranges(data, begin, end, begin, begin), [])
    decreases end - begin, 1
  {
    hide Ranges;
    hide ParseRange;
    hide ParseEntries;
    hide Put;
    var ranges := GetObjectEntries(data, begin, end);
    var entries: seq<(bytes, Property)> := [];
    ParseEntriesStart(data, begin, end, ranges);
    for i := 0 to |ranges|
      invariant ParseEntries(data, begin, end, ranges[i..], entries) == ParseEntries(data, begin, end, ranges, [])
    {
      ParseEntriesAt(data, begin, end, ranges, i, entries);
      var found := FindKey(data, ranges[i].0, ranges[i].1);
      if found.Some? {
        var (key, valueBegin) := found.value;
        var value := ReadRange(data, valueBegin, ranges[i].1);
        if value.Err? {
          return Err(value.error);
        }
        entries := Put(entries, key, value.value);
      }
    }
    ParseEntriesEnd(data, begin, end, ranges, entries);
    return Ok(entries);
  }

  lemma ParseEntriesStart(data: bytes, begin: nat, end: nat, ranges: seq<Range>)
    requires begin <= end <= |data| && Inside(ranges, begin, end)
    ensures ParseEntries(data, begin, end, ranges[0..], []) == ParseEntries(data, begin, end, ranges, [])
  {
    assert ranges[0..] == ranges;
  }

  lemma ParseEntriesEnd(data: bytes, begin: nat, end: nat, ranges: seq<Range>, entries: seq<(bytes, Property)>)
    requires begin <= end <= |data| && Inside(ranges, begin, end)
    ensures ParseEntries(data, begin, end, ranges[|ranges|..], entries) == Ok(entries)
  {
  }

  lemma ParseEntriesAt(data: bytes, begin: nat, end: nat, ranges: seq<Range>, i: nat, entries: seq<(bytes, Property)>)
    requires begin <= end <= |data| && Inside(ranges, begin, end) && i < |ranges|
    ensures ParseEntries(data, begin, end, ranges[i..], entries) ==
      var found := KeyAt(data, ranges[i].0, ranges[i].1);
      if found.None? then ParseEntries(data, begin, end, ranges[i + 1..], entries)
      else
        var value := ParseRange(data, found.value.1, ranges[i].1);
        if value.Err? then Err(value.error)
        else ParseEntries(data, begin, end, ranges[i + 1..], Put(entries, found.value.0, value.value))
  {
    hide ParseRange;
    hide Put;
    hide KeyAt;
    assert ranges[i..][1..] == ranges[i + 1..];
  }

  method ReadJson(data: bytes) returns (r: Result<Property, Error>)
    ensures r == Parse(data)
  {
    if |data| > UINT32_MAX {
      return Err(TooLarge);
    }
    r := ReadRange(data, 0, |data|);
    if r == Ok(Undefined) {
      return Err(EmptyInput);
    }
  }
}
