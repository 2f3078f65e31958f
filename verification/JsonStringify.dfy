/** JSON values and how they are printed. */
module JsonStringify {
  import opened Bytes

  type int64 = n: int | -0x8000_0000_0000_0000 <= n < 0x8000_0000_0000_0000

  /** A number as the library prints it or as the parser finds it: a digit or a sign comes first. */
  type NumberText = t: bytes | t != [] && t[0] != '.' witness "0"

  /** A `Property`. `Float` carries a number as text: the token handed to the library's conversion
      on the way in, the token the library prints on the way out. */
  datatype Property =
    | Undefined
    | Null
    | Str(s: bytes)
    | Bool(b: bool)
    | Int(n: int64)
    | Float(token: NumberText)
    | Arr(items: seq<Property>)
    | Obj(entries: seq<(bytes, Property)>)

  const ESC: byte := 27 as char

  /** `rune_replace`: empty where a character is printed as it is. */
  function RuneReplace(rune: byte): bytes {
    match rune
    case '\n' => "\\\\n"
    case '\t' => "\\\\t"
    case '\"' => "\\\""
    case _ => if rune == ESC then "\\\\r" else ""
  }

  function RuneText(rune: byte): bytes {
    if RuneReplace(rune) == "" then [rune] else RuneReplace(rune)
  }

  function Escaped(s: bytes): bytes {
    if s == [] then [] else RuneText(s[0]) + Escaped(s[1..])
  }

  /** Line feeds, tabs and escape characters are printed as two backslashes and a letter, quotes behind one
      backslash, and everything else as it is. */
  lemma EscapedIs(c: byte, rest: bytes)
    ensures Escaped([c] + rest) ==
      (if c == '\n' then ['\\', '\\', 'n'] else if c == '\t' then ['\\', '\\', 't']
       else if c as int == 27 then ['\\', '\\', 'r'] else if c == '\"' then ['\\', '\"'] else [c]) + Escaped(rest)
  {
    assert ([c] + rest)[1..] == rest;
  }

  function IntText(n: int): bytes {
    if n < 0 then "-" + Decimal(-n) else Decimal(n)
  }

  /** A printed float without the zeros that end its fraction, and without a point that ends it. */
  function FloatText(token: NumberText): (r: bytes)
    ensures r != [] && r <= token
  {
    var point := IndexOf(token, '.');
    if point == |token| then token
    else
      var end := ZerosEnd(token, point, |token|);
      if end > point + 1 then token[..end] else token[..point]
  }

  /** Where the zeros that end token[..end] begin. */
  function ZerosEnd(token: bytes, point: nat, end: nat): (r: nat)
    requires point < end <= |token| && token[point] == '.'
    ensures point < r <= end && token[r - 1] != '0'
    ensures forall i :: r <= i < end ==> token[i] == '0'
  {
    if token[end - 1] != '0' then end else ZerosEnd(token, point, end - 1)
  }

  /** The fraction is printed without the zeros that end it, and not at all if it has nothing else. */
  lemma FloatTextIs(whole: bytes, fraction: bytes, zeros: bytes)
    requires whole != [] && '.' !in whole && (fraction != [] ==> fraction[|fraction| - 1] != '0')
    requires forall i :: 0 <= i < |zeros| ==> zeros[i] == '0'
    ensures FloatText(whole) == whole
    ensures FloatText(whole + "." + fraction + zeros) == if fraction == [] then whole else whole + "." + fraction
  {
    hide ZerosEnd;
    IndexOfIs(whole, '.', 0, |whole|);
    var token := whole + "." + fraction + zeros;
    var n := |whole| + 1 + |fraction|;
    IndexOfIs(token, '.', 0, |whole|);
    assert token[n - 1] != '0' && forall i :: n <= i < |token| ==> token[i] == '0';
    var end := ZerosEnd(token, |whole|, |token|);
    assert !(end < n) && !(n < end);
    assert token[..n] == whole + "." + fraction && token[..|whole|] == whole;
  }

  /** What `stringify` prints. */
  function Text(v: Property): (r: bytes)
    ensures r != []
    decreases v
  {
    match v
    case Undefined => "null"
    case Null => "null"
    case Str(s) => "\"" + Escaped(s) + "\""
    case Bool(b) => if b then "true" else "false"
    case Int(n) => IntText(n)
    case Float(token) => FloatText(token)
    case Arr(items) => "[" + ItemsText(items) + "]"
    case Obj(entries) => "{" + EntriesText(entries) + "}"
  }

  function ItemsText(items: seq<Property>): (r: bytes)
    ensures items == [] ==> r == []
    decreases items
  {
    if items == [] then []
    else if |items| == 1 then Text(items[0])
    else Text(items[0]) + "," + ItemsText(items[1..])
  }

  function EntryText(entry: (bytes, Property)): bytes
    decreases entry
  {
    "\"" + entry.0 + "\":" + Text(entry.1)
  }

  function EntriesText(entries: seq<(bytes, Property)>): (r: bytes)
    ensures entries == [] ==> r == []
    decreases entries
  {
    if entries == [] then []
    else if |entries| == 1 then EntryText(entries[0])
    else EntryText(entries[0]) + "," + EntriesText(entries[1..])
  }

  lemma LiteralTexts()
    ensures Text(Null) == Text(Undefined) == "null" && Text(Bool(true)) == "true" && Text(Bool(false)) == "false"
    ensures Text(Arr([])) == "[]" && Text(Obj([])) == "{}"
  {
    assert "[" + [] + "]" == "[]" && "{" + [] + "}" == "{}";
  }

  /** The text still to be printed, from item `i` on and with the comma before it. */
  ghost function Remaining(items: seq<Property>, i: nat): bytes
    requires i <= |items|
  {
    if i == |items| then [] else (if i == 0 then "" else ",") + ItemsText(items[i..])
  }

  ghost function RemainingEntries(entries: seq<(bytes, Property)>, i: nat): bytes
    requires i <= |entries|
  {
    if i == |entries| then [] else (if i == 0 then "" else ",") + EntriesText(entries[i..])
  }

  lemma RemainingEnds(items: seq<Property>)
    ensures Remaining(items, 0) == ItemsText(items) && Remaining(items, |items|) == []
  {
    hide ItemsText;
    assert items[0..] == items;
  }

  lemma RemainingEntriesEnds(entries: seq<(bytes, Property)>)
    ensures RemainingEntries(entries, 0) == EntriesText(entries) && RemainingEntries(entries, |entries|) == []
  {
    hide EntriesText;
    assert entries[0..] == entries;
  }

  lemma RemainingStep(items: seq<Property>, i: nat)
    requires i < |items|
    ensures Remaining(items, i) == (if i == 0 then "" else ",") + Text(items[i]) + Remaining(items, i + 1)
  {
    assert items[i..][0] == items[i] && items[i..][1..] == items[i + 1..];
    if i + 1 == |items| {
      assert |items[i..]| == 1;
    } else {
      assert |items[i..]| > 1;
    }
  }

  lemma RemainingEntriesStep(entries: seq<(bytes, Property)>, i: nat)
    requires i < |entries|
    ensures RemainingEntries(entries, i) ==
      (if i == 0 then "" else ",") + EntryText(entries[i]) + RemainingEntries(entries, i + 1)
  {
    assert entries[i..][0] == entries[i] && entries[i..][1..] == entries[i + 1..];
    if i + 1 == |entries| {
      assert |entries[i..]| == 1;
    } else {
      assert |entries[i..]| > 1;
    }
  }

  // ---------------------------------------------------------------- the printing loops

  lemma EscapedStep(s: bytes, i: nat)
    requires i < |s|
    ensures Escaped(s[i..]) == RuneText(s[i]) + Escaped(s[i + 1..])
  {
    assert s[i..][0] == s[i] && s[i..][1..] == s[i + 1..];
  }

  lemma EscapedEnds(s: bytes)
    ensures Escaped(s[0..]) == Escaped(s) && Escaped(s[|s|..]) == []
  {
    assert s[0..] == s;
  }

  method EscapeString(content: bytes) returns (value: bytes)
    ensures value == Escaped(content)
  {
    hide Escaped;
    hide RuneReplace;
    value := [];
    EscapedEnds(content);
    for idx := 0 to |content|
      invariant value + Escaped(content[idx..]) == Escaped(content)
    {
      var escaped := RuneReplace(content[idx]);
      if escaped != [] {
        value := value + escaped;
      } else {
        value := value + [content[idx]];
      }
      EscapedStep(content, idx);
    }
  }

  method TrimFloat(token: NumberText) returns (r: bytes)
    ensures r == FloatText(token)
  {
    var decimalBegin := FindChar(token, '.', 0, |token|);
    if decimalBegin.None? {
      IndexOfIs(token, '.', 0, |token|);
      return token;
    }
    var point := decimalBegin.value;
    IndexOfIs(token, '.', 0, point);
    var idx := |token| - 1;
    while idx >= point && token[idx] == '0'
      invariant point <= idx < |token|
      invariant ZerosEnd(token, point, idx + 1) == ZerosEnd(token, point, |token|)
    {
      idx := idx - 1;
    }
    var zerosEnd := idx + 1;
    return if zerosEnd - point > 1 then token[..zerosEnd] else token[..point];
  }

  /** `stringify`. */
  method Stringify(v: Property) returns (r: bytes)
    ensures r == Text(v)
    decreases v
  {
    match v
    case Undefined => return "null";
    case Null => return "null";
    case Int(n) => return IntText(n);
    case Bool(b) => return if b then "true" else "false";
    case Float(token) =>
      r := TrimFloat(token);
    case Str(s) =>
      var value := EscapeString(s);
      return "\"" + value + "\"";
    case Arr(items) =>
      var buff := StringifyItems(items);
      return "[" + buff + "]";
    case Obj(entries) =>
      var buff := StringifyEntries(entries);
      return "{" + buff + "}";
  }

  method StringifyItems(items: seq<Property>) returns (buff: bytes)
    ensures buff == ItemsText(items)
    decreases items
  {
    hide Text;
    hide ItemsText;
    hide Remaining;
    buff := [];
    RemainingEnds(items);
    for i := 0 to |items|
      invariant buff == [] <==> i == 0
      invariant buff + Remaining(items, i) == ItemsText(items)
    {
      RemainingStep(items, i);
      if buff != [] {
        buff := buff + [','];
      }
      var text := Stringify(items[i]);
      buff := buff + text;
    }
  }

  method StringifyEntry(entry: (bytes, Property)) returns (r: bytes)
    ensures r == EntryText(entry)
    decreases entry
  {
    var text := Stringify(entry.1);
    return "\"" + entry.0 + "\":" + text;
  }

  method StringifyEntries(entries: seq<(bytes, Property)>) returns (buff: bytes)
    ensures buff == EntriesText(entries)
    decreases entries
  {
    hide Text;
    hide EntriesText;
    hide RemainingEntries;
    buff := [];
    RemainingEntriesEnds(entries);
    for i := 0 to |entries|
      invariant buff == [] <==> i == 0
      invariant buff + RemainingEntries(entries, i) == EntriesText(entries)
    {
      RemainingEntriesStep(entries, i);
      if buff != [] {
        buff := buff + [','];
      }
      var text := StringifyEntry(entries[i]);
      buff := buff + text;
    }
  }
}
