/** What parsing makes of a printed JSON value, and exactly when that is the value itself. */
module JsonRoundTrip {
  import opened Bytes
  import opened OrderedMap
  import opened JsonStringify
  import opened JsonParse
  import opened JsonStrings
  import opened JsonLayout
  import opened JsonScan

  // ---------------------------------------------------------------- what comes back

  /** What a printed value is read back as, when `dotted` tells whether a point was printed before. */
  function Reparsed(v: Property, dotted: bool): Result<Property, Error>
    decreases v
  {
    match v
    case Undefined => Ok(Null)
    case Str(s) => Quoted(Unescaped(Escaped(s)))
    case Bool(b) => if b then Ok(v) else Err(LiteralTooLong)
    case Int(n) => if dotted then Ok(Float(IntText(n))) else Ok(v)
    case Float(token) => if dotted || '.' in FloatText(token) then Ok(Float(FloatText(token))) else IntOf(FloatText(token))
    case Arr(items) =>
      if items == [] then Ok(Arr([Undefined]))
      else (match ReparsedItems(items, dotted) case Ok(r) => Ok(Arr(r)) case Err(e) => Err(e))
    case Obj(entries) =>
      (match ReparsedEntries(entries, dotted) case Ok(r) => Ok(Obj(r)) case Err(e) => Err(e))
    case _ => Ok(v)
  }

  function ReparsedItems(items: seq<Property>, dotted: bool): Result<seq<Property>, Error>
    decreases items
  {
    if items == [] then Ok([])
    else match Reparsed(items[0], dotted)
      case Err(e) => Err(e)
      case Ok(item) =>
        match ReparsedItems(items[1..], dotted || '.' in Text(items[0]))
        case Err(e) => Err(e)
        case Ok(rest) => Ok([item] + rest)
  }

  function ReparsedEntry(entry: (bytes, Property), dotted: bool): Result<Property, Error>
    decreases entry
  {
    Reparsed(entry.1, dotted || '.' in entry.0)
  }

  /** An entry without a key is passed over, whatever its value. */
  function ReparsedEntries(entries: seq<(bytes, Property)>, dotted: bool): Result<seq<(bytes, Property)>, Error>
    decreases entries
  {
    if entries == [] then Ok([])
    else
      var rest := ReparsedEntries(entries[1..], dotted || '.' in EntryText(entries[0]));
      if entries[0].0 == [] then rest
      else match ReparsedEntry(entries[0], dotted)
        case Err(e) => Err(e)
        case Ok(value) =>
          match rest
          case Err(e) => Err(e)
          case Ok(r) => Ok([(entries[0].0, value)] + r)
  }

  /** Nothing in the value is `false`, undefined, an empty array, an empty key, a string with a
      backslash or an escape character, an integer printed after a point, a float printed without one
      where none came before, or a float whose end is trimmed. */
  predicate Faithful(v: Property, dotted: bool)
    decreases v
  {
    match v
    case Undefined => false
    case Null => true
    case Str(s) => '\\' !in s && ESC !in s
    case Bool(b) => b
    case Int(_) => !dotted
    case Float(token) => FloatText(token) == token && (dotted || '.' in token)
    case Arr(items) => items != [] && FaithfulItems(items, dotted)
    case Obj(entries) => FaithfulEntries(entries, dotted)
  }

  predicate FaithfulItems(items: seq<Property>, dotted: bool)
    decreases items
  {
    items == [] || (Faithful(items[0], dotted) && FaithfulItems(items[1..], dotted || '.' in Text(items[0])))
  }

  predicate FaithfulEntries(entries: seq<(bytes, Property)>, dotted: bool)
    decreases entries
  {
    entries == [] ||
    (FaithfulEntry(entries[0], dotted) &&
     FaithfulEntries(entries[1..], dotted || '.' in EntryText(entries[0])))
  }

  predicate FaithfulEntry(entry: (bytes, Property), dotted: bool)
    decreases entry
  {
    entry.0 != [] && Faithful(entry.1, dotted || '.' in entry.0)
  }

  lemma {:induction false} ReparsedIff(v: Property, dotted: bool)
    requires Legible(v)
    ensures Reparsed(v, dotted) == Ok(v) <==> Faithful(v, dotted)
    decreases v
  {
    match v
    case Str(s) => UnescapedIff(s);
    case Arr(items) => ReparsedItemsIff(items, dotted);
    case Obj(entries) => ReparsedEntriesIff(entries, dotted);
    case _ =>
  }

  lemma {:induction false} ReparsedItemsIff(items: seq<Property>, dotted: bool)
    requires forall i :: 0 <= i < |items| ==> Legible(items[i])
    ensures ReparsedItems(items, dotted) == Ok(items) <==> FaithfulItems(items, dotted)
    decreases items
  {
    if items != [] {
      hide Reparsed;
      hide Faithful;
      ReparsedIff(items[0], dotted);
      ReparsedItemsIff(items[1..], dotted || '.' in Text(items[0]));
      SplitFirst(items);
    }
  }

  lemma SplitFirst<T>(s: seq<T>)
    requires s != []
    ensures forall x, r :: [x] + r == s <==> x == s[0] && r == s[1..]
  {
    forall x, r ensures [x] + r == s <==> x == s[0] && r == s[1..] {
      assert ([x] + r)[1..] == r && ([x] + r)[0] == x;
      assert [s[0]] + s[1..] == s;
    }
  }

  lemma {:induction false} ReparsedEntriesShorter(entries: seq<(bytes, Property)>, dotted: bool)
    ensures ReparsedEntries(entries, dotted).Ok? ==> |ReparsedEntries(entries, dotted).value| <= |entries|
    decreases |entries|
  {
    if entries != [] {
      hide ReparsedEntry;
      ReparsedEntriesShorter(entries[1..], dotted || '.' in EntryText(entries[0]));
    }
  }

  lemma {:induction false} ReparsedEntriesIff(entries: seq<(bytes, Property)>, dotted: bool)
    requires forall i :: 0 <= i < |entries| ==> Legible(entries[i].1)
    ensures ReparsedEntries(entries, dotted) == Ok(entries) <==> FaithfulEntries(entries, dotted)
    decreases entries
  {
    if entries != [] {
      hide ReparsedEntry;
      ReparsedEntryIff(entries[0], dotted);
      var rest := dotted || '.' in EntryText(entries[0]);
      ReparsedEntriesIff(entries[1..], rest);
      ReparsedEntriesShorter(entries[1..], rest);
      SplitFirst(entries);
    }
  }

  lemma {:induction false} ReparsedEntryIff(entry: (bytes, Property), dotted: bool)
    requires Legible(entry.1)
    ensures entry.0 != [] ==> (ReparsedEntry(entry, dotted) == Ok(entry.1) <==> FaithfulEntry(entry, dotted))
    decreases entry
  {
    ReparsedIff(entry.1, dotted || '.' in entry.0);
  }

  // ---------------------------------------------------------------- reading printed text

  lemma DotLater(data: bytes, i: nat, j: nat)
    requires i <= j <= |data|
    ensures '.' in data[..j] <==> '.' in data[..i] || '.' in data[i..j]
  {
    assert data[..j] == data[..i] + data[i..j];
  }

  lemma CoreInk(v: Property, l: Layout)
    requires Legible(v)
    ensures var t := Core(v, l); !IsSpace(t[0]) && !IsSpace(t[|t| - 1])
  {
    if v.Int? {
      DecimalPlain(v.n);
    } else if v.Float? {
      FloatPlain(v.token);
    }
  }

  lemma StringReads(s: bytes, data: bytes, begin: nat, end: nat)
    requires '\"' !in s
    requires begin <= end <= |data| && data[begin..end] == "\"" + Escaped(s) + "\""
    ensures StringAt(data, begin, end) == Quoted(Unescaped(Escaped(s)))
  {
    hide Escaped;
    hide Unescaped;
    var content := data[begin + 1..end - 1];
    assert data[begin..end][0] == '\"' && data[begin..end][end - begin - 1] == '\"';
    Slice(data, begin, end, 1, end - begin - 1);
    assert content == Escaped(s);
    EscapedUnquoted(s);
    PlainHasNoBareQuote(content);
  }

  lemma IntReads(n: int64, data: bytes, begin: nat, end: nat)
    requires begin <= end <= |data| && data[begin..end] == IntText(n)
    ensures begin < end && data[begin] != '.'
    ensures NumberAt(data, begin, end) == if '.' in data[..begin] then Ok(Float(IntText(n))) else Ok(Int(n))
  {
    hide ScanNumber;
    DecimalPlain(n);
    assert data[begin] == data[begin..end][0];
    DotLater(data, begin, end);
    ScanDecimal(if n < 0 then 0 - n else n as int);
  }

  lemma FloatReads(token: NumberText, data: bytes, begin: nat, end: nat)
    requires begin <= end <= |data| && data[begin..end] == FloatText(token)
    ensures begin < end && data[begin] != '.'
    ensures NumberAt(data, begin, end) ==
      if '.' in data[..begin] || '.' in FloatText(token) then Ok(Float(FloatText(token))) else IntOf(FloatText(token))
  {
    hide IntOf;
    hide FloatText;
    assert data[begin] == data[begin..end][0];
    DotLater(data, begin, end);
  }

  lemma KeyReads(key: bytes, text: bytes, data: bytes, begin: nat, end: nat)
    requires LegibleText(key) && text != []
    requires begin <= end <= |data| && data[begin..end] == "\"" + key + "\":" + text
    ensures KeyAt(data, begin, end) == if key == [] then None else Some((key, end - |text|))
  {
    hide KeyAt;
    assert "\"" + key + "\":" + text == [] + "\"" + key + "\"" + [] + ":" + text;
    SpacedKeyReads([], key, [], text, data, begin, end);
  }

  /** Every quote in the key stands behind a backslash, and the quote that closes it does not. */
  predicate KeyText(key: bytes) {
    && (forall i :: 0 <= i < |key| && key[i] == '\"' ==> i > 0 && key[i - 1] == '\\')
    && (key == [] || key[|key| - 1] != '\\')
  }

  /** The key scan finds the key between its quotes, as it stands there, and the value behind the colon, whatever
      blanks stand before the one and the other. An entry without a key, or with nothing behind its colon, is
      passed over. */
  lemma SpacedKeyReads(lead: bytes, key: bytes, gap: bytes, text: bytes, data: bytes, begin: nat, end: nat)
    requires KeyText(key) && BlankText(lead) && BlankText(gap)
    requires begin <= end <= |data| && data[begin..end] == lead + "\"" + key + "\"" + gap + ":" + text
    ensures KeyAt(data, begin, end) == if key == [] || text == [] then None else Some((key, end - |text|))
  {
    hide KeyQuote;
    var open := begin + |lead|;
    var close := open + 1 + |key|;
    var colon := close + 1 + |gap|;
    KeyPieces(lead, key, gap, text, data, begin, end);
    LeadUnquoted(lead, data, begin, open);
    KeyUnquoted(key, data, begin, open);
    KeyQuoteSkips(data, begin, end, begin, open);
    KeyQuoteSkips(data, begin, end, open + 1, close);
    IndexOfIs(data[..end], ':', close + 1, colon);
  }

  lemma LeadUnquoted(lead: bytes, data: bytes, begin: nat, open: nat)
    requires BlankText(lead) && begin <= open < |data| && data[begin..open] == lead && data[open] == '\"'
    ensures (forall i :: begin <= i < open ==> !IsKeyQuote(data, begin, i)) && IsKeyQuote(data, begin, open)
  {
    forall i | begin <= i < open ensures data[i] != '\"' && data[i] != '\\' {
      assert data[i] == lead[i - begin];
    }
  }

  lemma KeyUnquoted(key: bytes, data: bytes, begin: nat, open: nat)
    requires KeyText(key) && begin <= open && open + 1 + |key| < |data| && data[open + 1..open + 1 + |key|] == key
    requires data[open] == data[open + 1 + |key|] == '\"'
    ensures (forall i :: open < i < open + 1 + |key| ==> !IsKeyQuote(data, begin, i)) && IsKeyQuote(data, begin, open + 1 + |key|)
  {
    var close := open + 1 + |key|;
    forall i | open < i < close ensures data[i] == key[i - open - 1] {
      assert data[i] == data[open + 1..close][i - open - 1];
    }
  }

  /** An entry without a quote, or without a colon behind its key, is passed over. */
  lemma EntryPassedOver(lead: bytes, key: bytes, rest: bytes, data: bytes, begin: nat, end: nat)
    requires KeyText(key) && BlankText(lead) && ':' !in rest
    requires begin <= end <= |data| && data[begin..end] == lead + "\"" + key + "\"" + rest
    ensures KeyAt(data, begin, end) == None
  {
    hide KeyQuote;
    var open := begin + |lead|;
    var close := open + 1 + |key|;
    var all := data[begin..end];
    assert all[|lead|] == '\"' && all[|lead| + 1 + |key|] == '\"';
    assert all[..|lead|] == lead && all[|lead| + 1..|lead| + 1 + |key|] == key && all[|lead| + 2 + |key|..] == rest;
    Slice(data, begin, end, 0, |lead|);
    Slice(data, begin, end, |lead| + 1, |lead| + 1 + |key|);
    Slice(data, begin, end, |lead| + 2 + |key|, end - begin);
    LeadUnquoted(lead, data, begin, open);
    KeyUnquoted(key, data, begin, open);
    KeyQuoteSkips(data, begin, end, begin, open);
    KeyQuoteSkips(data, begin, end, open + 1, close);
    forall i | close < i < end ensures data[i] != ':' {
      assert data[i] == rest[i - close - 1];
    }
    IndexOfIs(data[..end], ':', close + 1, end);
  }

  lemma BlankUnquoted(s: bytes)
    requires BlankText(s)
    ensures '\"' !in s && ':' !in s && '.' !in s && '\\' !in s
  {
  }

  lemma KeyPieces(lead: bytes, key: bytes, gap: bytes, text: bytes, data: bytes, begin: nat, end: nat)
    requires BlankText(gap)
    requires begin <= end <= |data| && data[begin..end] == lead + "\"" + key + "\"" + gap + ":" + text
    ensures var open := begin + |lead|;
      var close := open + 1 + |key|;
      var colon := close + 1 + |gap|;
      && colon < end && data[begin..open] == lead && data[open] == '\"' && data[open + 1..close] == key && data[close] == '\"'
      && (forall i :: close < i < colon ==> data[i] != ':') && data[colon] == ':'
      && colon + 1 == end - |text| && data[colon + 1..end] == text
  {
    var all := data[begin..end];
    var o := |lead|;
    var c := o + 1 + |key|;
    var n := c + 1 + |gap|;
    assert all[o] == '\"' && all[c] == '\"' && all[n] == ':';
    assert all[..o] == lead && all[o + 1..c] == key && all[c + 1..n] == gap && all[n + 1..] == text;
    Slice(data, begin, end, 0, o);
    Slice(data, begin, end, o + 1, c);
    Slice(data, begin, end, n + 1, end - begin);
    forall i | begin + c < i < begin + n ensures data[i] != ':' {
      assert data[i] == all[i - begin] == gap[i - begin - c - 1];
    }
  }

  lemma {:induction false} KeyQuoteSkips(data: bytes, begin: nat, end: nat, from: nat, stop: nat)
    requires begin <= from <= stop < end <= |data| && IsKeyQuote(data, begin, stop)
    requires forall i :: from <= i < stop ==> !IsKeyQuote(data, begin, i)
    ensures KeyQuote(data, begin, end, from) == stop
    decreases stop - from
  {
    if from < stop {
      KeyQuoteSkips(data, begin, end, from + 1, stop);
    }
  }

  /** Where the text of a legible value stands in a buffer, however it is spaced, the parser finds `Reparsed`
      of it. */
  lemma {:induction false} ReadsBack(v: Property, l: Layout, data: bytes, begin: nat, end: nat)
    requires begin <= end <= |data| && data[begin..end] == SpacedText(v, l) && Tame(data)
    requires Legible(v) && Settled(v, true) && Blank(l)
    ensures ParseRange(data, begin, end) == Reparsed(v, '.' in data[..begin])
    decreases v, 3
  {
    hide Core;
    hide Tame;
    hide ParseRange;
    hide Reparsed;
    hide Legible;
    hide Settled;
    var b, e := begin + |l.before|, end - |l.after|;
    CoreStands(v, l, data, begin, end);
    CoreInk(v, l);
    BlanksDropped(data, begin, b, e, end);
    CoreReads(v, l, data, b, e);
  }

  lemma CoreStands(v: Property, l: Layout, data: bytes, begin: nat, end: nat)
    requires begin <= end <= |data| && data[begin..end] == SpacedText(v, l) && Blank(l)
    ensures var t := Core(v, l);
      var b, e := begin + |l.before|, end - |l.after|;
      && begin <= b < e <= end && data[b..e] == t && data[b] == t[0] && data[e - 1] == t[|t| - 1]
      && (forall i :: begin <= i < b || e <= i < end ==> data[i] == ' ' || 9 <= data[i] as int <= 13)
      && ('.' in data[..b] <==> '.' in data[..begin])
  {
    hide Core;
    hide BlankText;
    var t := Core(v, l);
    var b, e := begin + |l.before|, end - |l.after|;
    ThreePieces(l.before, t, l.after, data, begin, end);
    assert data[b] == data[b..e][0] && data[e - 1] == data[b..e][e - b - 1];
    BlankSlice(data, begin, b);
    BlankSlice(data, e, end);
    BlankUnquoted(l.before);
    DotLater(data, begin, b);
  }

  lemma ThreePieces(x: bytes, t: bytes, y: bytes, data: bytes, begin: nat, end: nat)
    requires begin <= end <= |data| && data[begin..end] == x + t + y
    ensures var b, e := begin + |x|, end - |y|;
      begin <= b <= e <= end && e - b == |t| && data[begin..b] == x && data[b..e] == t && data[e..end] == y
  {
    assert data[begin..end][..|x|] == x && data[begin..end][|x|..|x| + |t|] == t && data[begin..end][|x| + |t|..] == y;
    Slice(data, begin, end, 0, |x|);
    Slice(data, begin, end, |x|, |x| + |t|);
    Slice(data, begin, end, |x| + |t|, end - begin);
  }

  lemma BlankSlice(data: bytes, i: nat, j: nat)
    requires i <= j <= |data| && BlankText(data[i..j])
    ensures forall k :: i <= k < j ==> data[k] == ' ' || 9 <= data[k] as int <= 13
  {
    forall k | i <= k < j ensures data[k] == ' ' || 9 <= data[k] as int <= 13 {
      assert data[k] == data[i..j][k - i];
    }
  }

  lemma {:induction false} CoreReads(v: Property, l: Layout, data: bytes, begin: nat, end: nat)
    requires begin <= end <= |data| && data[begin..end] == Core(v, l) && Tame(data)
    requires Legible(v) && Settled(v, true) && Blank(l)
    ensures ParseRange(data, begin, end) == Reparsed(v, '.' in data[..begin])
    decreases v, 2
  {
    hide Inked;
    hide Tame;
    hide StringAt;
    hide NumberAt;
    hide Ranges;
    hide ParseItems;
    hide ParseEntries;
    hide ReparsedItems;
    hide ReparsedEntries;
    hide IntOf;
    hide FloatText;
    hide IntText;
    hide SpacedItems;
    hide SpacedEntries;
    CoreInk(v, l);
    assert data[begin] == data[begin..end][0] && data[end - 1] == data[begin..end][end - begin - 1];
    InkedAll(data, begin, end);
    match v
    case Undefined =>
    case Null =>
    case Bool(b) =>
    case Str(s) => StringReads(s, data, begin, end);
    case Int(n) =>
      DecimalPlain(n);
      IntReads(n, data, begin, end);
    case Float(token) =>
      FloatPlain(token);
      FloatReads(token, data, begin, end);
    case Arr(items) => ArrayReads(items, l.parts, data, begin, end);
    case Obj(entries) => ObjectReads(entries, l.parts, l.inside, data, begin, end);
  }

  /** What is settled anywhere is settled at the end. */
  lemma {:induction false} SettledAgain(v: Property)
    ensures Settled(v, false) ==> Settled(v, true)
    decreases v
  {
    match v
    case Arr(items) => SettledItemsAgain(items);
    case Obj(entries) => SettledEntriesAgain(entries);
    case _ =>
  }

  lemma {:induction false} SettledItemsAgain(items: seq<Property>)
    ensures SettledItems(items, false) ==> SettledItems(items, true)
    decreases items
  {
    if |items| == 1 {
      SettledAgain(items[0]);
    } else if |items| > 1 {
      SettledItemsAgain(items[1..]);
    }
  }

  lemma {:induction false} SettledEntryAgain(entry: (bytes, Property))
    ensures SettledEntry(entry, false) ==> SettledEntry(entry, true)
    decreases entry
  {
    SettledAgain(entry.1);
  }

  lemma {:induction false} SettledEntriesAgain(entries: seq<(bytes, Property)>)
    ensures SettledEntries(entries, false) ==> SettledEntries(entries, true)
    decreases entries
  {
    if |entries| == 1 {
      SettledEntryAgain(entries[0]);
    } else if |entries| > 1 {
      SettledEntriesAgain(entries[1..]);
    }
  }

  lemma EmptyReads(data: bytes, i: nat)
    requires i <= |data|
    ensures ParseRange(data, i, i) == Ok(Undefined)
  {
  }

  lemma {:induction false} ArrayReads(items: seq<Property>, ls: seq<Layout>, data: bytes, begin: nat, end: nat)
    requires begin <= end <= |data| && data[begin..end] == "[" + SpacedItems(items, ls) + "]" && Tame(data)
    requires SettledItems(items, true) && AllBlank(ls) && forall i :: 0 <= i < |items| ==> Legible(items[i])
    ensures begin + 1 <= end - 1
    ensures ParseItems(data, begin + 1, end - 1, Ranges(data, begin + 1, end - 1, begin + 1, begin + 1)) ==
      if items == [] then Ok([Undefined]) else ReparsedItems(items, '.' in data[..begin])
    decreases items, 1
  {
    hide Tame;
    hide Legible;
    hide SpacedItems;
    hide ScopeAt;
    hide Ranges;
    hide ParseItems;
    hide ParseRange;
    hide ReparsedItems;
    hide Blank;
    var first, last := begin + 1, end - 1;
    Slice(data, begin, end, 1, end - begin - 1);
    assert data[first..last] == SpacedItems(items, ls);
    DotLater(data, begin, first);
    assert data[begin..first] == data[begin..end][..1] == "[";
    ScopeAtStart(data, first);
    if items == [] {
      assert |data[begin..end]| == 2;
      RangesEnd(data, first, last, first);
      assert [(first, last)] + [] == [(first, last)];
      ParseItemsFirst(data, first, last, (first, last), []);
      ParseItemsEnds(data, first, last, []);
      EmptyReads(data, first);
      assert first == last && [Undefined] + [] == [Undefined];
    } else {
      ItemsRead(items, ls, data, first, last, first);
    }
  }

  lemma SpacedItemsFirst(items: seq<Property>, ls: seq<Layout>)
    requires items != []
    ensures SpacedItems(items, ls) ==
      SpacedText(items[0], First(ls)) + if |items| == 1 then [] else "," + SpacedItems(items[1..], Others(ls))
  {
  }

  lemma ItemsTextFirst(items: seq<Property>)
    requires items != []
    ensures ItemsText(items) == Text(items[0]) + if |items| == 1 then [] else "," + ItemsText(items[1..])
  {
  }

  /** A text at `from` and, after a comma, the rest. */
  lemma FirstText(data: bytes, from: nat, end: nat, text: bytes, last: bool, rest: bytes)
    requires from <= end <= |data| && data[from..end] == text + if last then [] else "," + rest
    ensures data[from..from + |text|] == text && (last <==> from + |text| == end)
    ensures !last ==> data[from + |text|] == ',' && data[from + |text| + 1..end] == rest
    ensures '.' in data[..from + |text|] <==> '.' in data[..from] || '.' in text
    ensures !last ==> ('.' in data[..from + |text| + 1] <==> '.' in data[..from + |text|])
  {
    var mid := from + |text|;
    Slice(data, from, end, 0, |text|);
    DotLater(data, from, mid);
    if !last {
      assert data[from..end][|text|] == ',';
      Slice(data, from, end, |text| + 1, end - from);
      assert data[from..end] == text + "," + rest;
      assert data[mid + 1..end] == rest;
      DotLater(data, mid, mid + 1);
    }
  }

  lemma ParseItemsFirst(data: bytes, begin: nat, end: nat, first: Range, rest: seq<Range>)
    requires begin <= end <= |data| && Inside([first] + rest, begin, end) && Inside(rest, begin, end)
    ensures begin <= first.0 <= first.1 <= end
    ensures ParseItems(data, begin, end, [first] + rest) ==
      var item := ParseRange(data, first.0, first.1);
      if item.Err? then Err(item.error) else Items([item.value], ParseItems(data, begin, end, rest))
  {
    hide ParseRange;
    var ranges := [first] + rest;
    assert ranges[0] == first && ranges[1..] == rest;
  }

  lemma {:induction false} ItemsRead(items: seq<Property>, ls: seq<Layout>, data: bytes, begin: nat, end: nat, from: nat)
    requires begin <= from <= end <= |data| && data[from..end] == SpacedItems(items, ls) && Tame(data)
    requires items != [] && AllBlank(ls) && forall i :: 0 <= i < |items| ==> Legible(items[i])
    requires SettledItems(items, true)
    requires ScopeAt(data, begin, from) == OUTSIDE
    ensures ParseItems(data, begin, end, Ranges(data, begin, end, from, from)) ==
            ReparsedItems(items, '.' in data[..from])
    decreases items, 0
  {
    hide Legible;
    hide Tame;
    hide Passes;
    hide SpacedText;
    hide SpacedItems;
    hide Text;
    hide ParseRange;
    hide ParseItems;
    hide Reparsed;
    hide Settled;
    hide Ranges;
    hide ScopeAt;
    hide Blank;
    PartsBlank(ls);
    var text := SpacedText(items[0], First(ls));
    var mid := from + |text|;
    SpacedItemsFirst(items, ls);
    FirstText(data, from, end, text, |items| == 1, SpacedItems(items[1..], Others(ls)));
    SpacedDots(items[0], First(ls));
    SettledAgain(items[0]);
    ReadsBack(items[0], First(ls), data, from, mid);
    SpacedPasses(items[0], First(ls), |items| == 1);
    FirstRange(text, data, begin, end, from, |items| > 1);
    if |items| == 1 {
      assert [(from, mid)] + [] == [(from, mid)];
      ParseItemsFirst(data, begin, end, (from, mid), []);
      ParseItemsEnds(data, begin, end, []);
      assert items[1..] == [];
    } else {
      ItemsRead(items[1..], Others(ls), data, begin, end, mid + 1);
      ParseItemsFirst(data, begin, end, (from, mid), Ranges(data, begin, end, mid + 1, mid + 1));
    }
  }

  lemma PassesOutside(text: bytes, whole: bool)
    requires Passes(text, whole)
    ensures Quiet(OUTSIDE, text) && (whole ==> Folded(OUTSIDE, text) == OUTSIDE)
  {
    assert Quiet(Scope(0, 0, false), text);
  }

  /** The first range found where a text stands ends with the text, or at the end of all. */
  lemma FirstRange(text: bytes, data: bytes, begin: nat, end: nat, from: nat, whole: bool)
    requires begin <= from <= from + |text| <= end <= |data| && Tame(data) && Passes(text, whole)
    requires data[from..from + |text|] == text && ScopeAt(data, begin, from) == OUTSIDE
    ensures from + |text| == end ==> Ranges(data, begin, end, from, from) == [(from, end)]
    ensures whole && from + |text| < end && data[from + |text|] == ',' ==>
      ScopeAt(data, begin, from + |text| + 1) == OUTSIDE &&
      Ranges(data, begin, end, from, from) ==
        [(from, from + |text|)] + Ranges(data, begin, end, from + |text| + 1, from + |text| + 1)
  {
    hide Ranges;
    hide ScopeAt;
    hide Folded;
    hide Quiet;
    hide Passes;
    hide Tame;
    var mid := from + |text|;
    PassesOutside(text, whole);
    RangesSkip(data, begin, end, from, from, mid);
    if mid == end {
      RangesEnd(data, begin, end, from);
    } else {
      ScopeAtStep(data, begin, mid);
      RangesStep(data, begin, end, from, mid);
    }
  }

  function Added(acc: seq<(bytes, Property)>, r: Result<seq<(bytes, Property)>, Error>): Result<seq<(bytes, Property)>, Error> {
    match r
    case Ok(entries) => Ok(acc + entries)
    case Err(error) => Err(error)
  }

  lemma {:induction false} ObjectReads(
    entries: seq<(bytes, Property)>, ls: seq<Layout>, inside: bytes, data: bytes, begin: nat, end: nat)
    requires begin <= end <= |data| && Tame(data) && BlankText(inside) && AllBlank(ls)
    requires data[begin..end] == "{" + (if entries == [] then inside else SpacedEntries(entries, ls)) + "}"
    requires Sorted(entries) && SettledEntries(entries, true)
    requires forall i :: 0 <= i < |entries| ==> LegibleKey(entries[i].0) && Legible(entries[i].1)
    ensures begin + 1 <= end - 1
    ensures ParseEntries(data, begin + 1, end - 1, Ranges(data, begin + 1, end - 1, begin + 1, begin + 1), []) ==
            ReparsedEntries(entries, '.' in data[..begin])
    decreases entries, 1
  {
    hide Tame;
    hide Legible;
    hide SpacedEntries;
    hide ScopeAt;
    hide Ranges;
    hide ParseEntries;
    hide KeyAt;
    hide Blank;
    var first, last := begin + 1, end - 1;
    Slice(data, begin, end, 1, end - begin - 1);
    assert data[first..last] == if entries == [] then inside else SpacedEntries(entries, ls);
    DotLater(data, begin, first);
    assert data[begin..first] == data[begin..end][..1] == "{";
    ScopeAtStart(data, first);
    if entries == [] {
      BlankEntry(data, first, last);
    } else {
      EntriesRead(entries, ls, data, first, last, first, []);
      var r := ReparsedEntries(entries, '.' in data[..begin]);
      if r.Ok? {
        assert [] + r.value == r.value;
      }
    }
  }

  /** Between the brackets of an empty object may be blanks. */
  lemma BlankEntry(data: bytes, begin: nat, end: nat)
    requires begin <= end <= |data| && BlankText(data[begin..end]) && Tame(data)
    ensures ParseEntries(data, begin, end, Ranges(data, begin, end, begin, begin), []) == Ok([])
  {
    hide ScopeAt;
    hide Ranges;
    hide ParseEntries;
    hide Tame;
    hide Passes;
    var blanks := data[begin..end];
    BlankPlain(blanks);
    PlainPasses(blanks, true);
    ScopeAtStart(data, begin);
    FirstRange(blanks, data, begin, end, begin, true);
    assert [(begin, end)] + [] == [(begin, end)];
    ParseEntriesFirst(data, begin, end, (begin, end), [], []);
    ParseEntriesEnd(data, begin, end, [], []);
    BlankUnquoted(blanks);
    NoKey(data, begin, end, begin);
  }

  lemma {:induction false} NoKey(data: bytes, begin: nat, end: nat, from: nat)
    requires begin <= from <= end <= |data| && '\"' !in data[from..end]
    ensures KeyQuote(data, begin, end, from) == end
    decreases end - from
  {
    if from < end {
      assert data[from] == data[from..end][0] && data[from + 1..end] == data[from..end][1..];
      NoKey(data, begin, end, from + 1);
    }
  }

  /** The key of an entry is above every key put before it. */
  ghost predicate Follow(acc: seq<(bytes, Property)>, entries: seq<(bytes, Property)>) {
    forall i, j :: 0 <= i < |acc| && 0 <= j < |entries| ==> Less(acc[i].0, entries[j].0)
  }

  lemma {:induction false} EntriesRead(
    entries: seq<(bytes, Property)>, ls: seq<Layout>, data: bytes, begin: nat, end: nat, from: nat, acc: seq<(bytes, Property)>)
    requires begin <= from <= end <= |data| && data[from..end] == SpacedEntries(entries, ls) && Tame(data)
    requires entries != [] && forall i :: 0 <= i < |entries| ==> LegibleKey(entries[i].0) && Legible(entries[i].1)
    requires Sorted(entries) && Follow(acc, entries) && SettledEntries(entries, true) && AllBlank(ls)
    requires ScopeAt(data, begin, from) == OUTSIDE
    ensures ParseEntries(data, begin, end, Ranges(data, begin, end, from, from), acc) ==
            Added(acc, ReparsedEntries(entries, '.' in data[..from]))
    decreases entries, 0
  {
    hide Legible;
    hide LegibleKey;
    hide Tame;
    hide Passes;
    hide SettledEntry;
    hide SpacedEntry;
    hide EntryText;
    hide ParseRange;
    hide ReparsedEntry;
    hide KeyAt;
    hide Ranges;
    hide Put;
    hide SpacedEntries;
    hide ParseEntries;
    hide ScopeAt;
    hide Blank;
    PartsBlank(ls);
    var text := SpacedEntry(entries[0], First(ls));
    var mid := from + |text|;
    SpacedEntriesFirst(entries, ls);
    FirstText(data, from, end, text, |entries| == 1, SpacedEntries(entries[1..], Others(ls)));
    SpacedEntryDots(entries[0], First(ls));
    SettledEntryAgain(entries[0]);
    EntryReads(entries[0], First(ls), data, from, mid);
    SpacedEntryPasses(entries[0], First(ls), |entries| == 1);
    FirstRange(text, data, begin, end, from, |entries| > 1);
    var key := entries[0].0;
    var value := ReparsedEntry(entries[0], '.' in data[..from]);
    var acc' := if key != [] && value.Ok? then acc + [(key, value.value)] else acc;
    if key != [] && value.Ok? {
      PutLast(acc, key, value.value);
    }
    AddedFirst(acc, key, value, ReparsedEntries(entries[1..], '.' in data[..from] || '.' in text));
    if |entries| == 1 {
      assert entries[1..] == [] && acc' + [] == acc';
      assert [(from, mid)] + [] == [(from, mid)];
      ParseEntriesFirst(data, begin, end, (from, mid), [], acc);
      ParseEntriesEnd(data, begin, end, [], acc');
    } else {
      FollowNext(acc, entries, acc');
      EntriesRead(entries[1..], Others(ls), data, begin, end, mid + 1, acc');
      ParseEntriesFirst(data, begin, end, (from, mid), Ranges(data, begin, end, mid + 1, mid + 1), acc);
    }
  }

  lemma SpacedEntriesFirst(entries: seq<(bytes, Property)>, ls: seq<Layout>)
    requires entries != []
    ensures SpacedEntries(entries, ls) ==
      SpacedEntry(entries[0], First(ls)) + if |entries| == 1 then [] else "," + SpacedEntries(entries[1..], Others(ls))
  {
  }

  lemma AddedFirst(
    acc: seq<(bytes, Property)>, key: bytes, value: Result<Property, Error>, rest: Result<seq<(bytes, Property)>, Error>)
    ensures value.Ok? && rest.Ok? ==>
      Added(acc + [(key, value.value)], rest) == Added(acc, Ok([(key, value.value)] + rest.value))
  {
    if value.Ok? && rest.Ok? {
      assert acc + ([(key, value.value)] + rest.value) == acc + [(key, value.value)] + rest.value;
    }
  }

  lemma FollowNext(acc: seq<(bytes, Property)>, entries: seq<(bytes, Property)>, acc': seq<(bytes, Property)>)
    requires entries != [] && Sorted(entries) && Follow(acc, entries)
    requires acc' == acc || exists v :: acc' == acc + [(entries[0].0, v)]
    ensures Follow(acc', entries[1..]) && Sorted(entries[1..])
  {
  }

  lemma EntriesTextFirst(entries: seq<(bytes, Property)>)
    requires entries != []
    ensures EntriesText(entries) ==
            EntryText(entries[0]) + if |entries| == 1 then [] else "," + EntriesText(entries[1..])
  {
  }

  lemma ParseEntriesFirst(
    data: bytes, begin: nat, end: nat, first: Range, rest: seq<Range>, acc: seq<(bytes, Property)>)
    requires begin <= end <= |data| && Inside([first] + rest, begin, end) && Inside(rest, begin, end)
    ensures begin <= first.0 <= first.1 <= end
    ensures ParseEntries(data, begin, end, [first] + rest, acc) ==
      var found := KeyAt(data, first.0, first.1);
      if found.None? then ParseEntries(data, begin, end, rest, acc)
      else
        var value := ParseRange(data, found.value.1, first.1);
        if value.Err? then Err(value.error)
        else ParseEntries(data, begin, end, rest, Put(acc, found.value.0, value.value))
  {
    hide ParseRange;
    hide KeyAt;
    hide Put;
    var ranges := [first] + rest;
    assert ranges[0] == first && ranges[1..] == rest;
  }

  lemma {:induction false} EntryReads(entry: (bytes, Property), l: Layout, data: bytes, begin: nat, end: nat)
    requires begin <= end <= |data| && data[begin..end] == SpacedEntry(entry, l) && Tame(data)
    requires LegibleKey(entry.0) && Legible(entry.1) && SettledEntry(entry, true) && Blank(l)
    ensures entry.0 == [] ==> KeyAt(data, begin, end) == None
    ensures entry.0 != [] ==> KeyAt(data, begin, end).Some? && KeyAt(data, begin, end).value.0 == entry.0
    ensures entry.0 != [] ==> ParseRange(data, KeyAt(data, begin, end).value.1, end) == ReparsedEntry(entry, '.' in data[..begin])
    decreases entry
  {
    hide Legible;
    hide Tame;
    hide KeyAt;
    hide ParseRange;
    hide Reparsed;
    hide SpacedText;
    var (key, v) := entry;
    var text := SpacedText(v, l);
    SpacedKeyReads(l.lead, key, l.gap, text, data, begin, end);
    var value := end - |text|;
    ValuePlace(l, key, text, data, begin, end);
    ReadsBack(v, l, data, value, end);
  }

  lemma ValuePlace(l: Layout, key: bytes, text: bytes, data: bytes, begin: nat, end: nat)
    requires begin <= end <= |data| && Blank(l)
    requires data[begin..end] == l.lead + "\"" + key + "\"" + l.gap + ":" + text
    ensures var value := end - |text|;
      begin <= value && data[value..end] == text && ('.' in data[..value] <==> '.' in data[..begin] || '.' in key)
  {
    var value := end - |text|;
    var front := l.lead + "\"" + key + "\"" + l.gap + ":";
    assert data[begin..end] == front + text;
    Slice(data, begin, end, |front|, end - begin);
    Slice(data, begin, end, 0, |front|);
    assert data[value..end] == text && data[begin..value] == front;
    DotLater(data, begin, value);
    BlankUnquoted(l.lead);
    BlankUnquoted(l.gap);
    assert '.' in front <==> '.' in key;
  }

  /** Parsing a settled value however its text is spaced, errors included. */
  lemma ParseSpaced(v: Property, l: Layout)
    requires Legible(v) && Settled(v, true) && Blank(l)
    ensures Parse(SpacedText(v, l)) == if |SpacedText(v, l)| > UINT32_MAX then Err(TooLarge) else Reparsed(v, false)
  {
    hide SpacedText;
    hide ParseRange;
    var data := SpacedText(v, l);
    LegibleTidy(v);
    SpacedTame(v, l);
    assert data[0..|data|] == data;
    ReadsBack(v, l, data, 0, |data|);
    ReparsedDefined(v, false);
  }

  /** Printing and parsing a settled value, errors included. */
  lemma ParseText(v: Property)
    requires Legible(v) && Settled(v, true)
    ensures Parse(Text(v)) == if |Text(v)| > UINT32_MAX then Err(TooLarge) else Reparsed(v, false)
  {
    TightText(v);
    TightIsBlank();
    ParseSpaced(v, TIGHT);
  }

  /** Blanks before and after a value and its items, keys and colons make no difference to what is parsed. */
  lemma BlanksIgnored(v: Property, l: Layout)
    requires Legible(v) && Settled(v, true) && Blank(l)
    requires |Text(v)| <= UINT32_MAX && |SpacedText(v, l)| <= UINT32_MAX
    ensures Parse(SpacedText(v, l)) == Parse(Text(v))
  {
    hide Parse;
    ParseSpaced(v, l);
    ParseText(v);
  }

  /** An array without items may not hold blanks. */
  lemma BlankArrayIff(blanks: bytes)
    requires BlankText(blanks) && |blanks| + 2 <= UINT32_MAX
    ensures Parse("[" + blanks + "]") == Ok(Arr([Undefined])) <==> blanks == []
  {
    hide Ranges;
    hide ParseRange;
    hide ParseItems;
    hide BlankText;
    var data := "[" + blanks + "]";
    var last := |data| - 1;
    assert data[1..last] == blanks;
    BracketsRead(data);
    BlankUnquoted(blanks);
    BlankItems(data, 1, last);
    if blanks == [] {
      EmptyReads(data, 1);
      assert [Undefined] + [] == [Undefined];
    } else {
      BlankSlice(data, 1, last);
      BlanksRefused(data, 1, last);
    }
  }

  /** Blanks are one item. */
  lemma BlankItems(data: bytes, begin: nat, end: nat)
    requires begin <= end <= |data| && BlankText(data[begin..end]) && '\\' !in data
    ensures ParseItems(data, begin, end, Ranges(data, begin, end, begin, begin)) ==
      match ParseRange(data, begin, end)
      case Ok(item) => Ok([item] + [])
      case Err(error) => Err(error)
  {
    hide Ranges;
    hide ParseRange;
    hide ParseItems;
    hide Tame;
    hide Passes;
    hide ScopeAt;
    var blanks := data[begin..end];
    BlankPlain(blanks);
    PlainPasses(blanks, true);
    PlainTame(data);
    ScopeAtStart(data, begin);
    FirstRange(blanks, data, begin, end, begin, true);
    assert [(begin, end)] + [] == [(begin, end)];
    ParseItemsFirst(data, begin, end, (begin, end), []);
    ParseItemsEnds(data, begin, end, []);
  }

  lemma BracketsRead(data: bytes)
    requires |data| >= 2 && data[0] == '[' && data[|data| - 1] == ']'
    ensures var last := |data| - 1;
      ParseRange(data, 0, |data|) ==
        match ParseItems(data, 1, last, Ranges(data, 1, last, 1, 1))
        case Ok(items) => Ok(Arr(items))
        case Err(error) => Err(error)
  {
    hide Inked;
    hide Ranges;
    hide ParseItems;
    hide ParseEntries;
    InkedAll(data, 0, |data|);
  }

  lemma ReparsedDefined(v: Property, dotted: bool)
    ensures Reparsed(v, dotted) != Ok(Undefined)
  {
  }
}
