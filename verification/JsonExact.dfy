/** Exactly which JSON values survive printing and parsing: brackets inside a string mislead the comma
    splitter unless they balance or nothing is printed after the string. */
module JsonExact {
  import opened Bytes
  import opened OrderedMap
  import opened JsonStringify
  import opened JsonParse
  import opened JsonStrings
  import opened JsonScan
  import opened JsonRoundTrip

  // ---------------------------------------------------------------- what is printed last

  /** What is printed last is a number or an empty container, which the parser may find in a range
      that is too long. */
  predicate Loose(v: Property)
    decreases v
  {
    match v
    case Int(_) => true
    case Float(_) => true
    case Arr(items) => LooseItems(items)
    case Obj(entries) => LooseEntries(entries)
    case _ => false
  }

  predicate LooseItems(items: seq<Property>)
    decreases items
  {
    items == [] || if |items| == 1 then Loose(items[0]) else LooseItems(items[1..])
  }

  predicate LooseEntry(entry: (bytes, Property))
    decreases entry
  {
    Loose(entry.1)
  }

  predicate LooseEntries(entries: seq<(bytes, Property)>)
    decreases entries
  {
    entries == [] || if |entries| == 1 then LooseEntry(entries[0]) else LooseEntries(entries[1..])
  }

  /** No string is printed last, so all are settled. */
  lemma {:induction false} LooseSettled(v: Property)
    requires Loose(v) && Settled(v, true)
    ensures Settled(v, false)
    decreases v
  {
    match v
    case Int(_) =>
    case Float(_) =>
    case Arr(items) => LooseItemsSettled(items);
    case Obj(entries) => LooseEntriesSettled(entries);
  }

  lemma {:induction false} LooseItemsSettled(items: seq<Property>)
    requires LooseItems(items) && SettledItems(items, true)
    ensures SettledItems(items, false)
    decreases items
  {
    if |items| == 1 {
      LooseSettled(items[0]);
    } else if |items| > 1 {
      LooseItemsSettled(items[1..]);
    }
  }

  lemma {:induction false} LooseEntrySettled(entry: (bytes, Property))
    requires LooseEntry(entry) && SettledEntry(entry, true)
    ensures SettledEntry(entry, false)
    decreases entry
  {
    LooseSettled(entry.1);
  }

  lemma {:induction false} LooseEntriesSettled(entries: seq<(bytes, Property)>)
    requires LooseEntries(entries) && SettledEntries(entries, true)
    ensures SettledEntries(entries, false)
    decreases entries
  {
    if |entries| == 1 {
      LooseEntrySettled(entries[0]);
    } else if |entries| > 1 {
      LooseEntriesSettled(entries[1..]);
    }
  }

  // ---------------------------------------------------------------- texts that leave the scope as it was

  lemma BracketsFold(o: nat, a: nat, t: bytes, square: bool)
    requires var text := if square then "[" + t + "]" else "{" + t + "}";
      Folded(Scope(o, a, false), text) == Scope(o, a, false)
    ensures var inner := if square then Scope(o, a + 1, false) else Scope(o + 1, a, false); Folded(inner, t) == inner
  {
    var scope := Scope(o, a, false);
    var open, close: byte := if square then '[' else '{', if square then ']' else '}';
    OneFolds(scope, open);
    FoldedConcat(scope, [open], t);
    FoldedConcat(scope, [open] + t, [close]);
    OneFolds(Folded(scope, [open] + t), close);
  }

  lemma CommaFolds(o: nat, a: nat, x: bytes, rest: bytes)
    requires Folded(Scope(o, a, false), x) == Scope(o, a, false)
    ensures Folded(Scope(o, a, false), x + ("," + rest)) == Folded(Scope(o, a, false), rest)
  {
    var scope := Scope(o, a, false);
    FoldedConcat(scope, x, "," + rest);
    FoldedConcat(scope, ",", rest);
    OneFolds(scope, ',');
  }

  lemma PassesAt(t: bytes, o: nat, a: nat)
    requires Passes(t, true)
    ensures Folded(Scope(o, a, false), t) == Scope(o, a, false)
  {
  }

  lemma KeyFolds(key: bytes, text: bytes, o: nat, a: nat)
    requires LegibleKey(key)
    ensures Folded(Scope(o, a, false), "\"" + key + "\":" + text) == Folded(Scope(o, a, false), text)
  {
    PlainPasses([], true);
    KeyPasses(key, [], true);
    assert "\"" + key + "\":" + [] == "\"" + key + "\":";
    PassesAt("\"" + key + "\":", o, a);
    FoldedConcat(Scope(o, a, false), "\"" + key + "\":", text);
  }

  /** A text that leaves the scope as it was has no unbalanced string, not even as its last. */
  lemma {:induction false} NetZero(v: Property, o: nat, a: nat)
    requires Legible(v) && Settled(v, true)
    requires Folded(Scope(o, a, false), Text(v)) == Scope(o, a, false)
    ensures Settled(v, false)
    decreases v
  {
    match v
    case Str(s) =>
      EscapedUnquoted(s);
      QuotedAs(Scope(o, a, false), Escaped(s));
      EscapedBalanced(s);
    case Arr(items) =>
      BracketsFold(o, a, ItemsText(items), true);
      NetZeroItems(items, o, a + 1);
    case Obj(entries) =>
      BracketsFold(o, a, EntriesText(entries), false);
      NetZeroEntries(entries, o + 1, a);
    case _ =>
  }

  lemma {:induction false} NetZeroItems(items: seq<Property>, o: nat, a: nat)
    requires SettledItems(items, true) && forall i :: 0 <= i < |items| ==> Legible(items[i])
    requires Folded(Scope(o, a, false), ItemsText(items)) == Scope(o, a, false)
    ensures SettledItems(items, false)
    decreases items
  {
    hide Legible;
    hide Settled;
    hide Text;
    hide Folded;
    hide Passes;
    if items != [] {
      ItemsTextFirst(items);
      if |items| == 1 {
        NetZero(items[0], o, a);
      } else {
        TextPasses(items[0], false);
        PassesAt(Text(items[0]), o, a);
        CommaFolds(o, a, Text(items[0]), ItemsText(items[1..]));
        NetZeroItems(items[1..], o, a);
      }
    }
  }

  lemma {:induction false} NetZeroEntry(entry: (bytes, Property), o: nat, a: nat)
    requires SettledEntry(entry, true) && LegibleKey(entry.0) && Legible(entry.1)
    requires Folded(Scope(o, a, false), EntryText(entry)) == Scope(o, a, false)
    ensures SettledEntry(entry, false)
    decreases entry
  {
    KeyFolds(entry.0, Text(entry.1), o, a);
    NetZero(entry.1, o, a);
  }

  lemma {:induction false} NetZeroEntries(entries: seq<(bytes, Property)>, o: nat, a: nat)
    requires SettledEntries(entries, true)
    requires forall i :: 0 <= i < |entries| ==> LegibleKey(entries[i].0) && Legible(entries[i].1)
    requires Folded(Scope(o, a, false), EntriesText(entries)) == Scope(o, a, false)
    ensures SettledEntries(entries, false)
    decreases entries
  {
    hide Legible;
    hide LegibleKey;
    hide SettledEntry;
    hide EntryText;
    hide Folded;
    hide Passes;
    if entries != [] {
      EntriesTextFirst(entries);
      if |entries| == 1 {
        NetZeroEntry(entries[0], o, a);
      } else {
        EntryPasses(entries[0], false);
        PassesAt(EntryText(entries[0]), o, a);
        CommaFolds(o, a, EntryText(entries[0]), EntriesText(entries[1..]));
        NetZeroEntries(entries[1..], o, a);
      }
    }
  }

  // ---------------------------------------------------------------- named entries

  /** Every key is nonempty. */
  ghost predicate Named(v: Property)
    decreases v
  {
    match v
    case Arr(items) => NamedItems(items)
    case Obj(entries) => NamedEntries(entries)
    case _ => true
  }

  ghost predicate NamedItems(items: seq<Property>)
    decreases items
  {
    forall i :: 0 <= i < |items| ==> Named(items[i])
  }

  ghost predicate NamedEntries(entries: seq<(bytes, Property)>)
    decreases entries
  {
    forall i :: 0 <= i < |entries| ==> NamedEntry(entries[i])
  }

  ghost predicate NamedEntry(entry: (bytes, Property))
    decreases entry
  {
    entry.0 != [] && Named(entry.1)
  }

  /** Whatever is parsed is named. */
  lemma {:induction false} ParseNamed(data: bytes, begin: nat, end: nat)
    requires begin <= end <= |data|
    ensures ParseRange(data, begin, end).Ok? ==> Named(ParseRange(data, begin, end).value)
    decreases end - begin, 0, 0
  {
    hide Inked;
    hide NumberAt;
    hide StringAt;
    hide Ranges;
    hide ParseItems;
    hide ParseEntries;
    var (b, e) := Inked(data, begin, end);
    if b < e {
      NumberNamed(data, b, e);
      if data[b] == '{' && data[e - 1] == '}' {
        ParseEntriesNamed(data, b + 1, e - 1, Ranges(data, b + 1, e - 1, b + 1, b + 1), []);
      } else if data[b] == '[' && data[e - 1] == ']' {
        ParseItemsNamed(data, b + 1, e - 1, Ranges(data, b + 1, e - 1, b + 1, b + 1));
      } else if data[b] != '{' && data[b] != '[' && data[b] != '\"' && data[b] != '-' && !IsDigit(data[b]) {
        assert ParseRange(data, begin, end) == LiteralOf(data[b..e]);
      }
    }
  }

  lemma NumberNamed(data: bytes, begin: nat, end: nat)
    requires begin < end <= |data|
    ensures data[begin] != '.' && NumberAt(data, begin, end).Ok? ==> Named(NumberAt(data, begin, end).value)
    ensures StringAt(data, begin, end).Ok? ==> Named(StringAt(data, begin, end).value)
  {
  }

  lemma {:induction false} ParseItemsNamed(data: bytes, begin: nat, end: nat, ranges: seq<Range>)
    requires begin <= end <= |data| && Inside(ranges, begin, end)
    ensures var r := ParseItems(data, begin, end, ranges); r.Ok? ==> NamedItems(r.value)
    decreases end - begin, 1, |ranges|
  {
    hide Named;
    hide ParseRange;
    if ranges != [] {
      ParseNamed(data, ranges[0].0, ranges[0].1);
      ParseItemsNamed(data, begin, end, ranges[1..]);
    }
  }

  lemma {:induction false} ParseEntriesNamed(
    data: bytes, begin: nat, end: nat, ranges: seq<Range>, entries: seq<(bytes, Property)>)
    requires begin <= end <= |data| && Inside(ranges, begin, end) && NamedEntries(entries)
    ensures var r := ParseEntries(data, begin, end, ranges, entries); r.Ok? ==> NamedEntries(r.value)
    decreases end - begin, 1, |ranges|
  {
    hide Named;
    hide ParseRange;
    hide Put;
    hide KeyAt;
    if ranges != [] {
      var found := KeyAt(data, ranges[0].0, ranges[0].1);
      if found.None? {
        ParseEntriesNamed(data, begin, end, ranges[1..], entries);
      } else {
        var value := ParseRange(data, found.value.1, ranges[0].1);
        ParseNamed(data, found.value.1, ranges[0].1);
        if value.Ok? {
          PutEntries(entries, found.value.0, value.value);
          ParseEntriesNamed(data, begin, end, ranges[1..], Put(entries, found.value.0, value.value));
        }
      }
    }
  }

  // ---------------------------------------------------------------- where a parsed range must end

  predicate Delimiter(c: byte) {
    c == ',' || c == ']' || c == '}'
  }

  /** A comma, a closing bracket or the end of the buffer. */
  ghost predicate Delimited(data: bytes, i: nat) {
    i <= |data| && (i < |data| ==> Delimiter(data[i]))
  }

  ghost predicate EvenQuotes(t: bytes) {
    Count(t, '\"') % 2 == 0
  }

  /** A range may end at a comma inside a text, but not inside its strings. */
  ghost predicate MayEnd(data: bytes, begin: nat, end: nat, stop: nat)
    requires begin <= end <= |data|
  {
    Delimited(data, end) && (EvenQuotes(data[begin..end]) || stop <= end)
  }

  /** The text stands at `begin`, and something that ends a value follows it. */
  ghost predicate Stands(data: bytes, begin: nat, text: bytes) {
    Delimited(data, begin + |text|) && data[begin..begin + |text|] == text
  }

  lemma {:induction false} CountNowhere(t: bytes, c: byte)
    requires c !in t
    ensures Count(t, c) == 0
  {
    if t != [] {
      CountNowhere(t[1..], c);
    }
  }

  lemma TextStarts(v: Property)
    requires Legible(v)
    ensures var c := Text(v)[0]; !IsSpace(c) && !Delimiter(c)
  {
    if v.Int? {
      DecimalPlain(v.n);
    } else if v.Float? {
      FloatPlain(v.token);
    }
  }

  /** Trimming a range that goes on behind a value keeps the character behind it. */
  lemma InkBehind(data: bytes, begin: nat, end: nat, i: nat)
    requires begin <= i < end <= |data| && !IsSpace(data[begin]) && !IsSpace(data[i])
    ensures var (b, e) := Inked(data, begin, end); b == begin && i < e <= end
  {
  }

  predicate IsLiteral(v: Property) {
    v.Undefined? || v.Null? || v.Bool?
  }

  lemma ExactLiteral(v: Property, data: bytes, begin: nat, end: nat)
    requires IsLiteral(v) || v.Int? || (v.Float? && Legible(v))
    requires begin < end <= |data| && Stands(data, begin, Text(v)) && Delimited(data, end)
    requires ParseRange(data, begin, end).Ok?
    ensures begin + |Text(v)| <= end && (end == begin + |Text(v)| || v.Int? || v.Float?)
  {
    hide ParseItems;
    hide ParseEntries;
    hide Inked;
    hide NumberAt;
    hide StringAt;
    var text := Text(v);
    var stop := begin + |text|;
    PlainText(v);
    assert forall i :: begin <= i < stop ==> data[i] == text[i - begin];
    if end > stop && IsLiteral(v) {
      InkBehind(data, begin, end, stop);
      LiteralLong(data, begin, end);
    }
  }

  lemma LiteralLong(data: bytes, begin: nat, end: nat)
    requires begin <= end <= |data| && Inked(data, begin, end).1 > begin + 4 && Inked(data, begin, end).0 == begin
    requires data[begin] == 'n' || data[begin] == 't' || data[begin] == 'f'
    ensures ParseRange(data, begin, end).Err?
  {
    hide ParseItems;
    hide ParseEntries;
    hide Inked;
    hide NumberAt;
    hide StringAt;
  }

  lemma PlainText(v: Property)
    requires IsLiteral(v) || v.Int? || (v.Float? && Legible(v))
    ensures forall i :: 0 <= i < |Text(v)| ==> !Delimiter(Text(v)[i]) && !IsSpace(Text(v)[i])
    ensures IsLiteral(v) ==> |Text(v)| >= 4 && (Text(v)[0] == 'n' || Text(v)[0] == 't' || Text(v)[0] == 'f')
  {
    if v.Int? {
      DecimalPlain(v.n);
    } else if v.Float? {
      FloatPlain(v.token);
    }
  }

  /** A string is read only if its range ends with it. */
  lemma ExactString(s: bytes, data: bytes, begin: nat, end: nat)
    requires LegibleText(s) && Tame(data)
    requires begin < end <= |data| && Stands(data, begin, Text(Str(s)))
    requires MayEnd(data, begin, end, begin + |Text(Str(s))|)
    requires ParseRange(data, begin, end).Ok?
    ensures end == begin + |Text(Str(s))|
  {
    hide ParseItems;
    hide ParseEntries;
    hide Inked;
    hide NumberAt;
    hide StringAt;
    hide Escaped;
    hide Tame;
    var text := Text(Str(s));
    var stop := begin + |text|;
    EscapedUnquoted(s);
    if end < stop {
      InsideString(Escaped(s), data, begin, end);
    } else if end > stop {
      assert data[begin] == data[begin..stop][0] == '\"';
      assert data[stop - 1] == data[begin..stop][|text| - 1] == '\"';
      InkBehind(data, begin, end, stop);
      QuoteInside(data, begin, Inked(data, begin, end).1, stop - 1);
    }
  }

  lemma InsideString(t: bytes, data: bytes, begin: nat, end: nat)
    requires '\"' !in t && begin < end < begin + |t| + 2 <= |data|
    requires data[begin..begin + |t| + 2] == "\"" + t + "\""
    ensures !EvenQuotes(data[begin..end])
  {
    var n := end - begin;
    Slice(data, begin, begin + |t| + 2, 0, n);
    assert ("\"" + t + "\"")[..n] == "\"" + t[..n - 1];
    CountConcat("\"", t[..n - 1], '\"');
    CountNowhere(t[..n - 1], '\"');
    assert Count("\"", '\"') == 1;
  }

  lemma QuoteInside(data: bytes, begin: nat, end: nat, i: nat)
    requires begin < i < end - 1 && end <= |data| && Tame(data) && data[begin] == '\"' && data[i] == '\"'
    ensures StringAt(data, begin, end).Err?
  {
    var content := data[begin + 1..end - 1];
    var k := i - begin - 1;
    assert content[k] == '\"';
    assert k > 0 ==> content[k - 1] == data[i - 1];
    TameQuote(data, i, begin);
    assert BareQuote(content, k);
  }

  // ---------------------------------------------------------------- cuts

  /** The first range ends at the first separator, or at the end. */
  lemma {:induction false} FirstCut(data: bytes, begin: nat, end: nat, from: nat, idx: nat) returns (q: nat, rest: seq<Range>)
    requires begin <= from <= idx <= end <= |data|
    ensures idx <= q <= end && Ranges(data, begin, end, from, idx) == [(from, q)] + rest
    ensures forall i :: idx <= i < q ==> !Separator(data, begin, i)
    ensures q == end ==> rest == []
    ensures q < end ==> Separator(data, begin, q) && rest == Ranges(data, begin, end, q + 1, q + 1)
    decreases end - idx
  {
    hide Separator;
    if idx == end {
      q, rest := end, [];
    } else if Separator(data, begin, idx) {
      q, rest := idx, Ranges(data, begin, end, idx + 1, idx + 1);
    } else {
      q, rest := FirstCut(data, begin, end, from, idx + 1);
    }
  }

  lemma {:induction false} ScopeFolds(data: bytes, begin: nat, i: nat, j: nat)
    requires begin <= i <= j <= |data| && Tame(data)
    ensures ScopeAt(data, begin, j) == Folded(ScopeAt(data, begin, i), data[i..j])
    decreases j - i
  {
    hide ScopeAt;
    if i < j {
      ScopeAtStep(data, begin, i);
      if data[i] == '\"' {
        TameQuote(data, i, begin);
      }
      assert data[i..j][1..] == data[i + 1..j];
      ScopeFolds(data, begin, i + 1, j);
    }
  }

  lemma {:induction false} FoldedQuoted(scope: Scope, t: bytes)
    ensures Folded(scope, t).quoted <==> scope.quoted != !EvenQuotes(t)
    decreases |t|
  {
    if t != [] {
      FoldedQuoted(Passed(scope, t[0]), t[1..]);
    }
  }

  lemma SeparatorEven(data: bytes, begin: nat, from: nat, q: nat)
    requires begin <= from <= q < |data| && Tame(data) && ScopeAt(data, begin, from) == OUTSIDE
    requires Separator(data, begin, q)
    ensures ScopeAt(data, begin, q) == OUTSIDE == ScopeAt(data, begin, q + 1) && data[q] == ','
    ensures Folded(OUTSIDE, data[from..q]) == OUTSIDE && EvenQuotes(data[from..q])
  {
    ScopeAtStep(data, begin, q);
    ScopeFolds(data, begin, from, q);
    FoldedQuoted(OUTSIDE, data[from..q]);
  }

  lemma EvenSplit(data: bytes, from: nat, q: nat, end: nat)
    requires from <= q < end <= |data| && EvenQuotes(data[from..q]) && data[q] != '\"'
    ensures EvenQuotes(data[from..end]) <==> EvenQuotes(data[q + 1..end])
  {
    var rest := data[q + 1..end];
    assert data[from..end] == data[from..q] + ([data[q]] + rest);
    CountConcat(data[from..q], [data[q]] + rest, '\"');
    CountConcat([data[q]], rest, '\"');
  }

  /** Where a first range may end. */
  lemma FirstMayEnd(data: bytes, begin: nat, end: nat, from: nat, mid: nat, stop: nat, q: nat)
    requires begin <= from <= mid <= stop && from < end < |data| && Tame(data) && ScopeAt(data, begin, from) == OUTSIDE
    requires from <= q <= end && (q < end ==> Separator(data, begin, q))
    requires Delimiter(data[end]) && (EvenQuotes(data[from..end]) || stop <= end)
    ensures MayEnd(data, from, q, mid)
  {
    if q < end {
      SeparatorEven(data, begin, from, q);
    }
  }

  lemma WholeSeparates(data: bytes, begin: nat, from: nat, mid: nat)
    requires begin <= from <= mid < |data| && Tame(data) && ScopeAt(data, begin, from) == OUTSIDE
    requires data[mid] == ',' && Passes(data[from..mid], true)
    ensures Separator(data, begin, mid)
  {
    PassesOutside(data[from..mid], true);
    ScopeFolds(data, begin, from, mid);
    ScopeAtStep(data, begin, mid);
  }

  /** A range that ends at or behind a text before a comma ends there, if the text is whole. */
  lemma CutThere(data: bytes, begin: nat, end: nat, from: nat, mid: nat, stop: nat, q: nat)
    requires begin <= from <= mid <= q <= end < |data| && Tame(data) && ScopeAt(data, begin, from) == OUTSIDE
    requires q < end ==> Separator(data, begin, q)
    requires forall i :: from <= i < q ==> !Separator(data, begin, i)
    requires data[mid] == ',' != data[end] && (q == mid || Passes(data[from..mid], true))
    requires EvenQuotes(data[from..end]) || stop <= end
    ensures q == mid < end && Separator(data, begin, mid)
    ensures ScopeAt(data, begin, mid + 1) == OUTSIDE && Folded(OUTSIDE, data[from..mid]) == OUTSIDE
    ensures EvenQuotes(data[mid + 1..end]) || stop <= end
  {
    hide EvenQuotes;
    if q != mid {
      WholeSeparates(data, begin, from, mid);
    }
    SeparatorEven(data, begin, from, mid);
    EvenSplit(data, from, mid, end);
  }

  // ---------------------------------------------------------------- values

  /** A value is read only from a range that ends with it, or behind it if the value is loose; and
      then the splitter was not misled by any of its strings. */
  lemma {:induction false} Exact(v: Property, data: bytes, begin: nat, end: nat)
    requires Legible(v) && Named(v) && Tame(data)
    requires begin < end <= |data| && Stands(data, begin, Text(v)) && MayEnd(data, begin, end, begin + |Text(v)|)
    requires ParseRange(data, begin, end).Ok?
    ensures begin + |Text(v)| <= end && Settled(v, true)
    ensures end == begin + |Text(v)| || Loose(v)
    decreases v
  {
    hide ParseRange;
    hide Tame;
    hide Stands;
    match v
    case Str(s) => ExactString(s, data, begin, end);
    case Arr(items) => ExactArray(items, data, begin, end);
    case Obj(entries) => ExactObject(entries, data, begin, end);
    case _ => ExactLiteral(v, data, begin, end);
  }

  /** What trimming leaves of a range that starts with a bracketed text. */
  lemma Opened(data: bytes, begin: nat, end: nat, t: bytes, open: byte, close: byte) returns (last: nat)
    requires begin < end <= |data| && Stands(data, begin, [open] + t + [close])
    requires MayEnd(data, begin, end, begin + |t| + 2)
    requires open == '[' || open == '{'
    requires Delimiter(close) && close != ',' && data[Inked(data, begin, end).1 - 1] == close
    ensures Inked(data, begin, end) == (begin, last + 1) && begin + 1 <= last < end && data[begin] == open && data[last] == close
    ensures begin + 1 + |t| < |data| && data[begin + 1..begin + 1 + |t|] == t && data[begin + 1 + |t|] == close
    ensures EvenQuotes(data[begin + 1..last]) || begin + 1 + |t| <= last
    ensures last == begin + 1 + |t| ==> end == begin + |t| + 2
  {
    hide EvenQuotes;
    hide Stands;
    var stop := begin + |t| + 2;
    BracketsStand(data, begin, t, open, close);
    var (b, e) := Inked(data, begin, end);
    last := e - 1;
    InkBehind(data, begin, end, begin);
    if stop <= end {
      InkBehind(data, begin, end, stop - 1);
      if stop < end {
        InkBehind(data, begin, end, stop);
      }
    } else {
      InsideEven(data, begin, end, last);
    }
  }

  lemma BracketsStand(data: bytes, begin: nat, t: bytes, open: byte, close: byte)
    requires Stands(data, begin, [open] + t + [close])
    ensures begin + |t| + 2 <= |data| && data[begin] == open && data[begin + 1 + |t|] == close
    ensures data[begin + 1..begin + 1 + |t|] == t && Delimited(data, begin + |t| + 2)
  {
    var text, stop := [open] + t + [close], begin + |t| + 2;
    assert data[begin] == data[begin..stop][0];
    assert data[stop - 1] == data[begin..stop][|t| + 1];
    Slice(data, begin, stop, 1, 1 + |t|);
    assert text[1..1 + |t|] == t;
  }

  lemma InsideEven(data: bytes, begin: nat, end: nat, last: nat)
    requires begin < last < end <= |data| && EvenQuotes(data[begin..end])
    requires data[begin] != '\"' && data[last] != '\"' && forall i :: last < i < end ==> IsSpace(data[i])
    ensures EvenQuotes(data[begin + 1..last])
  {
    var inner, blanks := data[begin + 1..last], data[last + 1..end];
    assert data[begin..end] == [data[begin]] + (inner + ([data[last]] + blanks));
    CountConcat([data[begin]], inner + ([data[last]] + blanks), '\"');
    CountConcat(inner, [data[last]] + blanks, '\"');
    CountConcat([data[last]], blanks, '\"');
    CountNowhere(blanks, '\"');
  }

  lemma ParsedArray(data: bytes, begin: nat, end: nat)
    requires begin < end <= |data| && data[begin] == '[' && ParseRange(data, begin, end).Ok?
    ensures var (b, e) := Inked(data, begin, end);
      b == begin && b + 1 <= e - 1 && data[e - 1] == ']' &&
      ParseItems(data, b + 1, e - 1, Ranges(data, b + 1, e - 1, b + 1, b + 1)).Ok?
  {
    hide ParseItems;
    hide ParseEntries;
    hide Ranges;
    InkBehind(data, begin, end, begin);
  }

  lemma ParsedObject(data: bytes, begin: nat, end: nat)
    requires begin < end <= |data| && data[begin] == '{' && ParseRange(data, begin, end).Ok?
    ensures var (b, e) := Inked(data, begin, end);
      b == begin && b + 1 <= e - 1 && data[e - 1] == '}' &&
      ParseEntries(data, b + 1, e - 1, Ranges(data, b + 1, e - 1, b + 1, b + 1), []).Ok?
  {
    hide ParseItems;
    hide ParseEntries;
    hide Ranges;
    InkBehind(data, begin, end, begin);
  }

  lemma {:induction false} ExactArray(items: seq<Property>, data: bytes, begin: nat, end: nat)
    requires (forall i :: 0 <= i < |items| ==> Legible(items[i])) && NamedItems(items) && Tame(data)
    requires begin < end <= |data| && Stands(data, begin, "[" + ItemsText(items) + "]")
    requires MayEnd(data, begin, end, begin + |ItemsText(items)| + 2)
    requires ParseRange(data, begin, end).Ok?
    ensures begin + |ItemsText(items)| + 2 <= end && SettledItems(items, true)
    ensures end == begin + |ItemsText(items)| + 2 || LooseItems(items)
    decreases items, 1
  {
    hide ParseRange;
    hide ParseItems;
    hide Ranges;
    hide Inked;
    hide Tame;
    hide Legible;
    hide Named;
    hide NamedItems;
    hide ItemsText;
    hide ScopeAt;
    hide EvenQuotes;
    var t := ItemsText(items);
    assert data[begin] == '[' by {
      StandsAt(data, begin, "[" + t + "]");
    }
    ParsedArray(data, begin, end);
    var last := Opened(data, begin, end, t, '[', ']');
    if items != [] {
      ScopeAtStart(data, begin + 1);
      ExactItems(items, data, begin + 1, last, begin + 1, begin + 1 + |t|);
    }
  }

  lemma StandsAt(data: bytes, begin: nat, text: bytes)
    requires text != [] && Stands(data, begin, text)
    ensures begin + |text| <= |data| && data[begin] == text[0]
  {
    assert data[begin] == data[begin..begin + |text|][0];
  }

  /** A text stands before another text, a comma between them, or at the end of all. */
  lemma StandsFirst(data: bytes, from: nat, stop: nat, text: bytes, last: bool, rest: bytes)
    requires from <= stop < |data| && data[from..stop] == text + if last then [] else "," + rest
    requires Delimiter(data[stop])
    ensures Stands(data, from, text) && (last <==> from + |text| == stop)
    ensures !last ==> data[from + |text|] == ',' && data[from + |text| + 1..stop] == rest
  {
    FirstText(data, from, stop, text, last, rest);
  }

  lemma {:induction false} ExactItems(
    items: seq<Property>, data: bytes, begin: nat, end: nat, from: nat, stop: nat)
    requires (forall i :: 0 <= i < |items| ==> Legible(items[i])) && NamedItems(items) && items != [] && Tame(data)
    requires begin <= from <= end < |data| && data[end] == ']'
    requires from <= stop < |data| && data[stop] == ']' && data[from..stop] == ItemsText(items)
    requires EvenQuotes(data[from..end]) || stop <= end
    requires ScopeAt(data, begin, from) == OUTSIDE
    requires ParseItems(data, begin, end, Ranges(data, begin, end, from, from)).Ok?
    ensures stop <= end && SettledItems(items, true) && (end == stop || LooseItems(items))
    decreases items, 0
  {
    hide ParseRange;
    hide ParseItems;
    hide Ranges;
    hide Tame;
    hide Legible;
    hide Named;
    hide ItemsText;
    hide ScopeAt;
    hide EvenQuotes;
    hide Separator;
    hide Settled;
    hide Loose;
    hide Passes;
    hide Folded;
    var item := items[0];
    var text := Text(item);
    var mid := from + |text|;
    ItemsTextFirst(items);
    StandsFirst(data, from, stop, text, |items| == 1, ItemsText(items[1..]));
    StandsAt(data, from, text);
    TextStarts(item);
    var q, rest := FirstCut(data, begin, end, from, from);
    if q < end {
      SeparatorIsComma(data, begin, q);
    }
    ParseItemsFirst(data, begin, end, (from, q), rest);
    FirstMayEnd(data, begin, end, from, mid, stop, q);
    Exact(item, data, from, q);
    if |items| > 1 {
      if q != mid {
        LooseSettled(item);
        TextPasses(item, false);
      }
      CutThere(data, begin, end, from, mid, stop, q);
      NetZero(item, 0, 0);
      ExactItems(items[1..], data, begin, end, mid + 1, stop);
    }
  }

  lemma {:induction false} ExactObject(entries: seq<(bytes, Property)>, data: bytes, begin: nat, end: nat)
    requires forall i :: 0 <= i < |entries| ==> LegibleKey(entries[i].0) && Legible(entries[i].1)
    requires NamedEntries(entries) && Tame(data)
    requires begin < end <= |data| && Stands(data, begin, "{" + EntriesText(entries) + "}")
    requires MayEnd(data, begin, end, begin + |EntriesText(entries)| + 2)
    requires ParseRange(data, begin, end).Ok?
    ensures begin + |EntriesText(entries)| + 2 <= end && SettledEntries(entries, true)
    ensures end == begin + |EntriesText(entries)| + 2 || LooseEntries(entries)
    decreases entries, 1
  {
    hide ParseRange;
    hide ParseEntries;
    hide Ranges;
    hide Inked;
    hide Tame;
    hide Legible;
    hide LegibleKey;
    hide NamedEntry;
    hide EntriesText;
    hide ScopeAt;
    hide EvenQuotes;
    var t := EntriesText(entries);
    assert data[begin] == '{' by {
      StandsAt(data, begin, "{" + t + "}");
    }
    ParsedObject(data, begin, end);
    var last := Opened(data, begin, end, t, '{', '}');
    if entries != [] {
      ScopeAtStart(data, begin + 1);
      ExactEntries(entries, data, begin + 1, last, begin + 1, begin + 1 + |t|, []);
    }
  }

  /** The entry of a range that starts with a printed entry and ends somewhere behind its key. */
  lemma {:induction false} ExactEntry(entry: (bytes, Property), data: bytes, begin: nat, end: nat)
    requires LegibleKey(entry.0) && Legible(entry.1) && NamedEntry(entry) && Tame(data)
    requires begin < end <= |data| && Stands(data, begin, EntryText(entry))
    requires MayEnd(data, begin, end, begin + |EntryText(entry)|)
    ensures KeyAt(data, begin, end).Some? && KeyAt(data, begin, end).value.1 <= end
    ensures ParseRange(data, KeyAt(data, begin, end).value.1, end).Ok? ==>
      begin + |EntryText(entry)| <= end && SettledEntry(entry, true) &&
      (end == begin + |EntryText(entry)| || LooseEntry(entry))
    decreases entry
  {
    hide ParseRange;
    hide KeyAt;
    hide Legible;
    hide Named;
    hide Text;
    var (key, v) := entry;
    var text := Text(v);
    var value := begin + |key| + 3;
    TextStarts(v);
    BehindKey(key, v, data, begin, end);
    KeyReads(key, data[value..end], data, begin, end);
    if ParseRange(data, value, end).Ok? {
      Exact(v, data, value, end);
    }
  }

  /** The pieces of a printed entry in the buffer. */
  lemma EntryPieces(key: bytes, text: bytes, data: bytes, begin: nat)
    requires begin + |key| + 3 + |text| <= |data| && text != []
    requires data[begin..begin + |key| + 3 + |text|] == "\"" + key + "\":" + text
    ensures var value := begin + |key| + 3;
      data[begin..value - 1] == "\"" + key + "\"" && data[value - 1] == ':' &&
      data[begin..value] == "\"" + key + "\":" && data[value..value + |text|] == text && data[value] == text[0]
  {
    var front := "\"" + key + "\":";
    var stop := begin + |front| + |text|;
    Slice(data, begin, stop, 0, |front|);
    Slice(data, begin, stop, 0, |front| - 1);
    Slice(data, begin, stop, |front|, |front| + |text|);
    assert (front + text)[..|front| - 1] == "\"" + key + "\"";
    assert data[begin..stop][|front| - 1] == ':' && data[begin..stop][|front|] == text[0];
  }

  /** The text does not start with a character that may end a value. */
  predicate Delimitless(text: bytes) {
    text != [] && !Delimiter(text[0])
  }

  lemma BehindKey(key: bytes, v: Property, data: bytes, begin: nat, end: nat)
    requires '\"' !in key && Delimitless(Text(v))
    requires begin < end <= |data| && Stands(data, begin, "\"" + key + "\":" + Text(v))
    requires MayEnd(data, begin, end, begin + |key| + 3 + |Text(v)|)
    ensures begin + |key| + 3 < end && Stands(data, begin + |key| + 3, Text(v))
    ensures data[begin..end] == "\"" + key + "\":" + data[begin + |key| + 3..end]
    ensures MayEnd(data, begin + |key| + 3, end, begin + |key| + 3 + |Text(v)|)
  {
    hide EvenQuotes;
    hide Text;
    var value := begin + |key| + 3;
    EntryPieces(key, Text(v), data, begin);
    if end < value - 1 {
      InsideString(key, data, begin, end);
    }
    assert data[begin..end] == data[begin..value] + data[value..end];
    FrontEven(key, data[value..end]);
  }

  lemma FrontEven(key: bytes, rest: bytes)
    requires '\"' !in key
    ensures EvenQuotes("\"" + key + "\":" + rest) <==> EvenQuotes(rest)
  {
    assert "\"" + key + "\":" + rest == "\"" + (key + ("\":" + rest));
    CountConcat("\"", key + ("\":" + rest), '\"');
    CountConcat(key, "\":" + rest, '\"');
    CountConcat("\":", rest, '\"');
    CountNowhere(key, '\"');
    assert Count("\"", '\"') == 1;
    assert "\":"[1..] == ":" && ":"[1..] == "";
    assert Count("\":", '\"') == 1;
  }

  lemma {:induction false} ExactEntries(
    entries: seq<(bytes, Property)>, data: bytes, begin: nat, end: nat, from: nat, stop: nat, acc: seq<(bytes, Property)>)
    requires forall i :: 0 <= i < |entries| ==> LegibleKey(entries[i].0) && Legible(entries[i].1)
    requires NamedEntries(entries) && entries != [] && Tame(data)
    requires begin <= from <= end < |data| && data[end] == '}'
    requires from <= stop < |data| && data[stop] == '}' && data[from..stop] == EntriesText(entries)
    requires EvenQuotes(data[from..end]) || stop <= end
    requires ScopeAt(data, begin, from) == OUTSIDE
    requires ParseEntries(data, begin, end, Ranges(data, begin, end, from, from), acc).Ok?
    ensures stop <= end && SettledEntries(entries, true) && (end == stop || LooseEntries(entries))
    decreases entries, 0
  {
    hide ParseRange;
    hide ParseEntries;
    hide KeyAt;
    hide Put;
    hide Ranges;
    hide Tame;
    hide Legible;
    hide LegibleKey;
    hide NamedEntry;
    hide EntriesText;
    hide EntryText;
    hide ScopeAt;
    hide EvenQuotes;
    hide Separator;
    hide SettledEntry;
    hide LooseEntry;
    hide Passes;
    hide Folded;
    var entry := entries[0];
    var text := EntryText(entry);
    var mid := from + |text|;
    EntriesTextFirst(entries);
    StandsFirst(data, from, stop, text, |entries| == 1, EntriesText(entries[1..]));
    EntryStarts(entry);
    StandsAt(data, from, text);
    var q, rest := FirstCut(data, begin, end, from, from);
    if q < end {
      SeparatorIsComma(data, begin, q);
    }
    ParseEntriesFirst(data, begin, end, (from, q), rest, acc);
    FirstMayEnd(data, begin, end, from, mid, stop, q);
    ExactEntry(entry, data, from, q);
    if |entries| > 1 {
      if q != mid {
        LooseEntrySettled(entry);
        EntryPasses(entry, false);
      }
      CutThere(data, begin, end, from, mid, stop, q);
      NetZeroEntry(entry, 0, 0);
      var found := KeyAt(data, from, q).value;
      ExactEntries(entries[1..], data, begin, end, mid + 1, stop,
        Put(acc, found.0, ParseRange(data, found.1, q).value));
    }
  }

  lemma EntryStarts(entry: (bytes, Property))
    ensures EntryText(entry) != [] && EntryText(entry)[0] == '\"'
  {
  }

  /** Printing and parsing gives a legible value back exactly when every string but the last one
      printed is balanced, the value is faithful, and the text is within the size limit. */
  lemma JsonRoundTripIff(v: Property)
    requires Legible(v)
    ensures Parse(Text(v)) == Ok(v) <==> Settled(v, true) && Faithful(v, false) && |Text(v)| <= UINT32_MAX
  {
    hide Text;
    hide ParseRange;
    if Settled(v, true) {
      ParseText(v);
      ReparsedIff(v, false);
    } else if Parse(Text(v)) == Ok(v) {
      var data := Text(v);
      ParseNamed(data, 0, |data|);
      LegibleTidy(v);
      TextTame(v);
      assert data[0..|data|] == data;
      Exact(v, data, 0, |data|);
      assert false;
    }
  }
}
