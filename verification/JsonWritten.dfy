/** What has to be written for the parser to read a string: its escapes are two backslashes and a letter, which is
    not what the printer prints. */
module JsonWritten {
  import opened Bytes
  import opened JsonStringify
  import opened JsonParse
  import opened JsonStrings
  import opened JsonScan
  import opened JsonRoundTrip

  predicate NeedsEscape(c: byte) {
    c == '\"' || c == '\\' || c == '\n' || c == '\r' || c == '\t'
  }

  function Letter(c: byte): byte {
    if c == '\n' then 'n' else if c == '\r' then 'r' else if c == '\t' then 't' else c
  }

  function WrittenRune(c: byte): (r: bytes)
    ensures |r| == if NeedsEscape(c) then 3 else 1
  {
    if NeedsEscape(c) then ['\\', '\\', Letter(c)] else [c]
  }

  function Written(s: bytes): bytes {
    if s == [] then [] else WrittenRune(s[0]) + Written(s[1..])
  }

  // ---------------------------------------------------------------- one string

  lemma {:induction false} UnescapedWritten(s: bytes)
    ensures Unescaped(Written(s)) == Ok(s)
  {
    if s != [] {
      UnescapedWritten(s[1..]);
      var rest := Written(s[1..]);
      if NeedsEscape(s[0]) {
        EscapeReads(Letter(s[0]), rest);
      } else {
        assert ([s[0]] + rest)[1..] == rest;
      }
      assert [s[0]] + s[1..] == s;
    }
  }

  /** A quote in the written text stands behind two backslashes. */
  lemma {:induction false} QuoteBehind(s: bytes, q: nat)
    requires q < |Written(s)| && Written(s)[q] == '\"'
    ensures q >= 2 && Written(s)[q - 1] == '\\' && Written(s)[q - 2] == '\\'
    ensures s[0] != '\"' ==> q >= 3
  {
    var n := |WrittenRune(s[0])|;
    if q >= n {
      QuoteBehind(s[1..], q - n);
    }
  }

  /** The parser reads the string that was written, unless it begins with a quote. */
  lemma WrittenReads(s: bytes, data: bytes, begin: nat, end: nat)
    requires begin <= end <= |data| && data[begin..end] == "\"" + Written(s) + "\""
    ensures StringAt(data, begin, end) == if s != [] && s[0] == '\"' then Err(UnescapedQuote) else Ok(Str(s))
  {
    hide Written;
    hide Unescaped;
    var content := data[begin + 1..end - 1];
    assert data[begin..end][0] == '\"' && data[begin..end][end - begin - 1] == '\"';
    Slice(data, begin, end, 1, end - begin - 1);
    assert content == Written(s);
    UnescapedWritten(s);
    BareFirst(s);
  }

  lemma BareFirst(s: bytes)
    ensures HasBareQuote(Written(s)) <==> s != [] && s[0] == '\"'
  {
    if s != [] && s[0] == '\"' {
      assert BareQuote(Written(s), 2);
    }
    if HasBareQuote(Written(s)) {
      var q :| 0 <= q < |Written(s)| && BareQuote(Written(s), q);
      QuoteBehind(s, q);
    }
  }

  // ---------------------------------------------------------------- the splitter

  lemma {:induction false} WrittenCount(s: bytes, c: byte)
    requires c == '{' || c == '}' || c == '[' || c == ']'
    ensures Count(Written(s), c) == Count(s, c)
  {
    if s != [] {
      CountConcat(WrittenRune(s[0]), Written(s[1..]), c);
      RuneCount(s[0], c);
      WrittenCount(s[1..], c);
    }
  }

  lemma RuneCount(rune: byte, c: byte)
    requires c == '{' || c == '}' || c == '[' || c == ']'
    ensures Count(WrittenRune(rune), c) == if rune == c then 1 else 0
  {
    hide Count;
    var t := WrittenRune(rune);
    NothingCounted();
    OneMore([], t[0]);
    assert [] + [t[0]] == [t[0]];
    if |t| == 3 {
      OneMore([t[0]], t[1]);
      OneMore([t[0]] + [t[1]], t[2]);
      assert t == [t[0]] + [t[1]] + [t[2]];
    } else {
      assert t == [t[0]];
    }
  }

  /** Inside a written string a quote does not close it, and brackets count. */
  lemma {:induction false} ScopeInside(s: bytes, data: bytes, begin: nat, i: nat, n: nat)
    requires n <= |Written(s)| && begin <= i && i + 1 + |Written(s)| <= |data|
    requires data[i + 1..i + 1 + |Written(s)|] == Written(s)
    requires data[i] == '\"' && !EscapedQuote(data, i, begin) && !ScopeAt(data, begin, i).quoted
    ensures var before, t := ScopeAt(data, begin, i), Written(s)[..n];
      ScopeAt(data, begin, i + 1 + n) ==
        Scope(before.objects + Count(t, '{') - Count(t, '}'), before.arrays + Count(t, '[') - Count(t, ']'), true)
    decreases n
  {
    hide ScopeAt;
    hide Written;
    hide Count;
    if n == 0 {
      ScopeAtStep(data, begin, i);
      NothingCounted();
    } else {
      ScopeInside(s, data, begin, i, n - 1);
      ScopeAtStep(data, begin, i + n);
      var c := Written(s)[n - 1];
      assert forall k :: 0 <= k < |Written(s)| ==> data[i + 1 + k] == data[i + 1..i + 1 + |Written(s)|][k] == Written(s)[k];
      if c == '\"' {
        QuoteBehind(s, n - 1);
      }
      assert Written(s)[..n] == Written(s)[..n - 1] + [c];
      OneMore(Written(s)[..n - 1], c);
    }
  }

  lemma NothingCounted()
    ensures forall c :: Count([], c) == 0
  {
  }

  lemma OneMore(t: bytes, c: byte)
    ensures forall d :: Count(t + [c], d) == Count(t, d) + if c == d then 1 else 0
  {
    forall d ensures Count(t + [c], d) == Count(t, d) + if c == d then 1 else 0 {
      CountConcat(t, [c], d);
      assert [c][1..] == [];
    }
  }

  /** A written string whose brackets balance, and that does not end with a backslash, is passed over as a whole. */
  lemma WrittenPasses(s: bytes, data: bytes, begin: nat, end: nat, from: nat, i: nat)
    requires begin <= from <= i && i + 2 + |Written(s)| <= end <= |data|
    requires data[i..i + 2 + |Written(s)|] == "\"" + Written(s) + "\""
    requires Balanced(s) && (s == [] || s[|s| - 1] != '\\')
    requires !EscapedQuote(data, i, begin) && !ScopeAt(data, begin, i).quoted
    ensures ScopeAt(data, begin, i + 2 + |Written(s)|) == ScopeAt(data, begin, i)
    ensures Ranges(data, begin, end, from, i) == Ranges(data, begin, end, from, i + 2 + |Written(s)|)
  {
    hide ScopeAt;
    hide Written;
    hide Count;
    hide Ranges;
    var n := |Written(s)|;
    var text := data[i..i + 2 + n];
    assert text[0] == '\"' && text[n + 1] == '\"' && text[1..n + 1] == Written(s);
    Slice(data, i, i + 2 + n, 1, n + 1);
    assert data[i] == text[0] && data[i + 1 + n] == text[n + 1];
    LastIsNoBackslash(s);
    assert n > 0 ==> data[i + n] == data[i + 1..i + 1 + n][n - 1];
    WrittenCount(s, '{');
    WrittenCount(s, '}');
    WrittenCount(s, '[');
    WrittenCount(s, ']');
    ScopeInside(s, data, begin, i, n);
    assert Written(s)[..n] == Written(s);
    ScopeAtStep(data, begin, i + 1 + n);
    forall idx | i <= idx < i + 2 + n ensures !Separator(data, begin, idx) {
      if i <= idx <= i + n {
        ScopeInside(s, data, begin, i, idx - i);
      }
    }
    NoCut(data, begin, end, from, i, i + 2 + n);
  }

  lemma {:induction false} LastIsNoBackslash(s: bytes)
    requires s == [] || s[|s| - 1] != '\\'
    ensures Written(s) == [] || Written(s)[|Written(s)| - 1] != '\\'
  {
    if |s| > 1 {
      LastIsNoBackslash(s[1..]);
    }
  }

  lemma {:induction false} NoCut(data: bytes, begin: nat, end: nat, from: nat, i: nat, j: nat)
    requires begin <= from <= i <= j <= end <= |data|
    requires forall idx :: i <= idx < j ==> !Separator(data, begin, idx)
    ensures Ranges(data, begin, end, from, i) == Ranges(data, begin, end, from, j)
    decreases j - i
  {
    hide Separator;
    if i < j {
      NoCut(data, begin, end, from, i + 1, j);
    }
  }

  // ---------------------------------------------------------------- arrays of strings

  /** Brackets balance, and neither a quote comes first nor a backslash last. */
  predicate Writable(s: bytes) {
    Balanced(s) && (s == [] || (s[0] != '\"' && s[|s| - 1] != '\\'))
  }

  function InQuotes(s: bytes): bytes {
    "\"" + Written(s) + "\""
  }

  function WrittenItems(ss: seq<bytes>): bytes {
    if ss == [] then []
    else if |ss| == 1 then InQuotes(ss[0])
    else InQuotes(ss[0]) + "," + WrittenItems(ss[1..])
  }

  function Strings(ss: seq<bytes>): seq<Property> {
    if ss == [] then [] else [Str(ss[0])] + Strings(ss[1..])
  }

  lemma {:induction false} WrittenItemsRead(ss: seq<bytes>, data: bytes, begin: nat, end: nat, from: nat)
    requires begin <= from <= end <= |data| && data[from..end] == WrittenItems(ss)
    requires ss != [] && (forall s :: s in ss ==> Writable(s))
    requires ScopeAt(data, begin, from) == OUTSIDE && (from > begin ==> data[from - 1] == ',')
    ensures ParseItems(data, begin, end, Ranges(data, begin, end, from, from)) == Ok(Strings(ss))
    decreases |ss|
  {
    hide ScopeAt;
    hide Ranges;
    hide ParseItems;
    hide ParseRange;
    hide Written;
    hide Writable;
    hide WrittenItems;
    hide Strings;
    var s, text := ss[0], InQuotes(ss[0]);
    var mid := from + |text|;
    assert s in ss;
    WrittenItemsFirst(ss);
    StringsFirst(ss);
    FirstText(data, from, end, text, |ss| == 1, WrittenItems(ss[1..]));
    WrittenRange(s, data, begin, end, from);
    ItemReads(s, data, from, mid);
    if |ss| == 1 {
      assert [(from, mid)] + [] == [(from, mid)];
      ParseItemsFirst(data, begin, end, (from, mid), []);
      ParseItemsEnds(data, begin, end, []);
    } else {
      WrittenItemsRead(ss[1..], data, begin, end, mid + 1);
      ParseItemsFirst(data, begin, end, (from, mid), Ranges(data, begin, end, mid + 1, mid + 1));
    }
  }

  lemma WrittenItemsFirst(ss: seq<bytes>)
    requires ss != []
    ensures WrittenItems(ss) == InQuotes(ss[0]) + if |ss| == 1 then [] else "," + WrittenItems(ss[1..])
  {
  }

  lemma StringsFirst(ss: seq<bytes>)
    requires ss != []
    ensures Strings(ss) == [Str(ss[0])] + if |ss| == 1 then [] else Strings(ss[1..])
  {
    if |ss| == 1 {
      assert ss[1..] == [];
    }
  }

  /** The range of a written string ends with it, at a comma or at the end of all. */
  lemma WrittenRange(s: bytes, data: bytes, begin: nat, end: nat, from: nat)
    requires begin <= from && from + 2 + |Written(s)| <= end <= |data| && Writable(s)
    requires data[from..from + 2 + |Written(s)|] == "\"" + Written(s) + "\""
    requires ScopeAt(data, begin, from) == OUTSIDE && (from > begin ==> data[from - 1] == ',')
    ensures var mid := from + 2 + |Written(s)|;
      && (mid == end ==> Ranges(data, begin, end, from, from) == [(from, end)])
      && (mid < end && data[mid] == ',' ==>
            && ScopeAt(data, begin, mid + 1) == OUTSIDE
            && Ranges(data, begin, end, from, from) == [(from, mid)] + Ranges(data, begin, end, mid + 1, mid + 1))
  {
    hide ScopeAt;
    hide Ranges;
    hide Written;
    hide Balanced;
    var mid := from + 2 + |Written(s)|;
    WrittenPasses(s, data, begin, end, from, from);
    if mid == end {
      RangesEnd(data, begin, end, from);
    } else {
      ScopeAtStep(data, begin, mid);
      RangesStep(data, begin, end, from, mid);
    }
  }

  lemma ItemReads(s: bytes, data: bytes, begin: nat, end: nat)
    requires begin <= end <= |data| && data[begin..end] == "\"" + Written(s) + "\"" && Writable(s)
    ensures ParseRange(data, begin, end) == Ok(Str(s))
  {
    hide Written;
    hide Balanced;
    hide StringAt;
    hide Ranges;
    hide ParseItems;
    hide ParseEntries;
    hide Inked;
    assert data[begin..end][0] == '\"' && data[begin..end][end - begin - 1] == '\"';
    assert data[begin] == '\"' && data[end - 1] == '\"';
    InkedAll(data, begin, end);
    WrittenReads(s, data, begin, end);
  }

  /** An array of such strings, quotes and all, is read back. */
  lemma StringsRead(ss: seq<bytes>)
    requires ss != [] && forall s :: s in ss ==> Writable(s)
    requires |WrittenItems(ss)| + 2 <= UINT32_MAX
    ensures Parse("[" + WrittenItems(ss) + "]") == Ok(Arr(Strings(ss)))
  {
    hide ScopeAt;
    hide Ranges;
    hide ParseItems;
    hide ParseRange;
    hide WrittenItems;
    hide Writable;
    var data := "[" + WrittenItems(ss) + "]";
    var last := |data| - 1;
    assert data[1..last] == WrittenItems(ss);
    ScopeAtStart(data, 1);
    WrittenItemsRead(ss, data, 1, last, 1);
    BracketsRead(data);
  }
}
