/** Exactly which JSON trees survive printing and parsing, whatever brackets their strings and keys hold. */
module JsonKept {
  import opened Bytes
  import opened OrderedMap
  import opened JsonStringify
  import opened JsonParse
  import opened JsonStrings
  import opened JsonScan
  import opened JsonRoundTrip
  import opened JsonExact
  import opened JsonCost

  // ---------------------------------------------------------------- cutting where texts meet

  /** Where texts stand that are joined by commas. */
  function Bounds(texts: seq<bytes>, from: nat): (r: seq<Range>)
    ensures |r| == |texts|
  {
    if texts == [] then []
    else [(from, from + |texts[0]|)] + Bounds(texts[1..], from + |texts[0]| + 1)
  }

  /** The comma splitter cuts the joined texts where they meet, and nowhere else. */
  predicate Splits(texts: seq<bytes>) {
    var t := Join(texts, ',');
    Ranges(t, 0, |t|, 0, 0) == Bounds(texts, 0)
  }

  function Texts(items: seq<Property>): (r: seq<bytes>)
    ensures |r| == |items|
  {
    if items == [] then [] else [Text(items[0])] + Texts(items[1..])
  }

  function EntryTexts(entries: seq<(bytes, Property)>): (r: seq<bytes>)
    ensures |r| == |entries|
  {
    if entries == [] then [] else [EntryText(entries[0])] + EntryTexts(entries[1..])
  }

  lemma {:induction false} ItemsJoined(items: seq<Property>)
    ensures Join(Texts(items), ',') == ItemsText(items)
    decreases |items|
  {
    hide Text;
    if |items| > 1 {
      ItemsJoined(items[1..]);
      assert Texts(items)[1..] == Texts(items[1..]);
    }
  }

  lemma {:induction false} EntriesJoined(entries: seq<(bytes, Property)>)
    ensures Join(EntryTexts(entries), ',') == EntriesText(entries)
    decreases |entries|
  {
    hide EntryText;
    if |entries| > 1 {
      EntriesJoined(entries[1..]);
      assert EntryTexts(entries)[1..] == EntryTexts(entries[1..]);
    }
  }

  // the splitter looks at nothing outside its range

  function Moved(rs: seq<Range>, shift: nat): (r: seq<Range>)
    ensures |r| == |rs|
  {
    if rs == [] then [] else [(rs[0].0 + shift, rs[0].1 + shift)] + Moved(rs[1..], shift)
  }

  lemma {:induction false} MovedSame(rs: seq<Range>, qs: seq<Range>, shift: nat)
    requires Moved(rs, shift) == Moved(qs, shift)
    ensures rs == qs
  {
    if rs != [] {
      assert Moved(rs, shift)[0] == Moved(qs, shift)[0] && Moved(rs, shift)[1..] == Moved(qs, shift)[1..];
      assert Moved(rs, shift)[1..] == Moved(rs[1..], shift) && Moved(qs, shift)[1..] == Moved(qs[1..], shift);
      MovedSame(rs[1..], qs[1..], shift);
      assert rs == [rs[0]] + rs[1..] && qs == [qs[0]] + qs[1..];
    }
  }

  lemma {:induction false} BoundsMoved(texts: seq<bytes>, from: nat, shift: nat)
    ensures Moved(Bounds(texts, from), shift) == Bounds(texts, from + shift)
    decreases |texts|
  {
    if texts != [] {
      BoundsMoved(texts[1..], from + |texts[0]| + 1, shift);
      assert Bounds(texts, from)[1..] == Bounds(texts[1..], from + |texts[0]| + 1);
    }
  }

  lemma {:induction false} ScopeMoved(data: bytes, begin: nat, end: nat, i: nat)
    requires begin <= i <= end <= |data|
    ensures ScopeAt(data, begin, i) == ScopeAt(data[begin..end], 0, i - begin)
    decreases i
  {
    if begin < i {
      ScopeMoved(data, begin, end, i - 1);
      assert data[begin..end][i - 1 - begin] == data[i - 1];
      EscapeMoved(data, begin, end, i - 1);
    }
  }

  lemma EscapeMoved(data: bytes, begin: nat, end: nat, i: nat)
    requires begin <= i < end <= |data|
    ensures EscapedQuote(data, i, begin) == EscapedQuote(data[begin..end], i - begin, 0)
  {
  }

  lemma SeparatorMoved(data: bytes, begin: nat, end: nat, idx: nat)
    requires begin <= idx < end <= |data|
    ensures Separator(data, begin, idx) == Separator(data[begin..end], 0, idx - begin)
  {
    hide ScopeAt;
    ScopeMoved(data, begin, end, idx + 1);
    assert data[begin..end][idx - begin] == data[idx];
  }

  lemma RangesUnfold(data: bytes, begin: nat, end: nat, from: nat, idx: nat)
    requires begin <= from <= idx <= end <= |data|
    ensures Ranges(data, begin, end, from, idx) ==
      if idx == end then [(from, end)]
      else if Separator(data, begin, idx) then [(from, idx)] + Ranges(data, begin, end, idx + 1, idx + 1)
      else Ranges(data, begin, end, from, idx + 1)
  {
    hide Separator;
  }

  lemma {:induction false} RangesMoved(data: bytes, begin: nat, end: nat, from: nat, idx: nat)
    requires begin <= from <= idx <= end <= |data|
    ensures Ranges(data, begin, end, from, idx)
         == Moved(Ranges(data[begin..end], 0, end - begin, from - begin, idx - begin), begin)
    decreases end - idx
  {
    hide Separator;
    hide Ranges;
    RangesUnfold(data, begin, end, from, idx);
    RangesUnfold(data[begin..end], 0, end - begin, from - begin, idx - begin);
    if idx < end {
      SeparatorMoved(data, begin, end, idx);
      if Separator(data, begin, idx) {
        RangesMoved(data, begin, end, idx + 1, idx + 1);
        var rest := Ranges(data[begin..end], 0, end - begin, idx + 1 - begin, idx + 1 - begin);
        assert ([(from - begin, idx - begin)] + rest)[1..] == rest;
      } else {
        RangesMoved(data, begin, end, from, idx + 1);
      }
    }
  }

  lemma SplitsAnywhere(texts: seq<bytes>, data: bytes, begin: nat, end: nat)
    requires begin <= end <= |data| && data[begin..end] == Join(texts, ',')
    ensures Splits(texts) <==> Ranges(data, begin, end, begin, begin) == Bounds(texts, begin)
  {
    hide Ranges;
    hide Bounds;
    hide Join;
    RangesMoved(data, begin, end, begin, begin);
    BoundsMoved(texts, 0, begin);
    var rs := Ranges(data[begin..end], 0, end - begin, 0, 0);
    if Moved(rs, begin) == Moved(Bounds(texts, 0), begin) {
      MovedSame(rs, Bounds(texts, 0), begin);
    }
  }

  // ---------------------------------------------------------------- what is kept

  /** A token that is printed as it is and read as a number, and as a float. */
  predicate KeptToken(token: NumberText, dotted: bool) {
    && FloatText(token) == token && (IsDigit(token[0]) || token[0] == '-') && !IsSpace(token[|token| - 1])
    && (dotted || '.' in token)
  }

  /** Everywhere in the value the splitter cuts between items, and nothing is `false`, undefined, an empty
      array, an empty key, a string with a backslash or an escape character, an integer printed after a
      point, or a float that is not. */
  predicate Kept(v: Property, dotted: bool)
    decreases v
  {
    match v
    case Undefined => false
    case Null => true
    case Str(s) => '\\' !in s && ESC !in s
    case Bool(b) => b
    case Int(_) => !dotted
    case Float(token) => KeptToken(token, dotted)
    case Arr(items) => items != [] && Splits(Texts(items)) && KeptItems(items, dotted)
    case Obj(entries) => (entries == [] || Splits(EntryTexts(entries))) && KeptEntries(entries, dotted)
  }

  predicate KeptItems(items: seq<Property>, dotted: bool)
    decreases items
  {
    items == [] || (Kept(items[0], dotted) && KeptItems(items[1..], dotted || '.' in Text(items[0])))
  }

  predicate KeptEntries(entries: seq<(bytes, Property)>, dotted: bool)
    decreases entries
  {
    entries == [] ||
    (KeptEntry(entries[0], dotted) && KeptEntries(entries[1..], dotted || '.' in EntryText(entries[0])))
  }

  predicate KeptEntry(entry: (bytes, Property), dotted: bool)
    decreases entry
  {
    entry.0 != [] && Kept(entry.1, dotted || '.' in entry.0)
  }

  // ---------------------------------------------------------------- ranges that weigh what the texts weigh

  /** Every text has a range that weighs no less. */
  ghost predicate Cover(data: bytes, rs: seq<Range>, texts: seq<bytes>) {
    |rs| == |texts| &&
    forall i :: 0 <= i < |rs| ==> rs[i].0 <= rs[i].1 <= |data| && Weight(texts[i]) <= Weight(data[rs[i].0..rs[i].1])
  }

  lemma CoverStep(data: bytes, rs: seq<Range>, texts: seq<bytes>)
    requires Cover(data, rs, texts) && rs != []
    ensures |rs| == |texts| && rs[0].0 <= rs[0].1 <= |data| && Weight(texts[0]) <= Weight(data[rs[0].0..rs[0].1])
    ensures Cover(data, rs[1..], texts[1..])
  {
    hide Weight;
  }

  lemma BoundsStep(texts: seq<bytes>, from: nat)
    requires texts != []
    ensures Bounds(texts, from) == [(from, from + |texts[0]|)] + Bounds(texts[1..], from + |texts[0]| + 1)
    ensures |texts| == 1 ==> Bounds(texts, from) == [(from, from + |texts[0]|)]
  {
  }

  /** Ranges none of which weighs less than its text weigh as much together. */
  lemma {:induction false} TilesHeavy(data: bytes, rs: seq<Range>, texts: seq<bytes>, p: nat, end: nat)
    requires Tiles(data, rs, p, end)
    requires Cover(data, rs, texts)
    ensures p <= end && Weight(Join(texts, ',')) <= Weight(data[p..end])
    decreases |rs|
  {
    hide Weight;
    hide Join;
    hide Grows;
    hide Tiles;
    hide Cover;
    TilesStep(data, rs, p, end);
    CoverStep(data, rs, texts);
    JoinStep(texts);
    if |rs| > 1 {
      TilesHeavy(data, rs[1..], texts[1..], rs[0].1 + 1, end);
      Thirds(data, p, rs[0].1, end);
      CommaWeight(texts[0], Join(texts[1..], ','));
      NothingGrows();
    }
  }

  lemma TilesStep(data: bytes, rs: seq<Range>, p: nat, end: nat)
    requires Tiles(data, rs, p, end)
    ensures rs != [] && rs[0].0 == p && p <= rs[0].1 <= end <= |data|
    ensures if |rs| == 1 then rs[0].1 == end
      else rs[0].1 < end && data[rs[0].1] == ',' && Tiles(data, rs[1..], rs[0].1 + 1, end)
  {
  }

  lemma JoinStep(texts: seq<bytes>)
    requires texts != []
    ensures |texts| == 1 ==> Join(texts, ',') == texts[0]
    ensures |texts| > 1 ==> Join(texts, ',') == texts[0] + "," + Join(texts[1..], ',')
  {
  }

  /** If they tile exactly the joined texts, they are where the texts are. */
  lemma {:induction false} TilesExact(data: bytes, rs: seq<Range>, texts: seq<bytes>, from: nat, end: nat)
    requires Tiles(data, rs, from, end) && from <= end && data[from..end] == Join(texts, ',')
    requires Cover(data, rs, texts)
    ensures rs == Bounds(texts, from)
    decreases |rs|
  {
    hide Weight;
    hide Grows;
    hide Join;
    hide Tiles;
    hide Cover;
    hide Bounds;
    TilesStep(data, rs, from, end);
    CoverStep(data, rs, texts);
    JoinStep(texts);
    BoundsStep(texts, from);
    if |rs| == 1 {
      assert |data[from..end]| == |texts[0]|;
      assert rs == [(from, end)];
    } else {
      FirstExact(data, rs, texts, from, end);
      TilesExact(data, rs[1..], texts[1..], rs[0].1 + 1, end);
      assert rs == [rs[0]] + rs[1..];
    }
  }

  lemma FirstExact(data: bytes, rs: seq<Range>, texts: seq<bytes>, from: nat, end: nat)
    requires Tiles(data, rs, from, end) && |rs| > 1 && from <= end && data[from..end] == Join(texts, ',')
    requires Cover(data, rs, texts)
    ensures |texts| > 1 && rs[0].1 == from + |texts[0]| < end && data[rs[0].1 + 1..end] == Join(texts[1..], ',')
  {
    hide Weight;
    hide Grows;
    hide Join;
    hide Tiles;
    hide Cover;
    TilesStep(data, rs, from, end);
    CoverStep(data, rs, texts);
    JoinStep(texts);
    var rest := Join(texts[1..], ',');
    TilesHeavy(data, rs[1..], texts[1..], rs[0].1 + 1, end);
    Thirds(data, from, rs[0].1, end);
    NothingGrows();
    CommaWeight(texts[0], rest);
    JoinedFirst(data, from, end, texts[0], rest);
    assert Weight(texts[0]) == Weight(data[from..rs[0].1]);
    WeighedApart(data, from, from + |texts[0]|, rs[0].1);
  }

  lemma JoinedFirst(data: bytes, from: nat, end: nat, first: bytes, rest: bytes)
    requires from <= end <= |data| && data[from..end] == first + "," + rest
    ensures from + |first| < end && data[from..from + |first|] == first
    ensures data[from + |first|] == ',' && data[from + |first| + 1..end] == rest
  {
    var n := |first|;
    Slice(data, from, end, 0, n);
    Slice(data, from, end, n + 1, end - from);
    assert data[from..end][n] == ',';
  }

  // ---------------------------------------------------------------- quotes of printed text

  lemma OddConcat(x: bytes, y: bytes)
    ensures Odd(x + y) == (Odd(x) + Odd(y)) % 2
  {
    CountConcat(x, y, '\"');
  }

  lemma OddThree(x: bytes, y: bytes, z: bytes)
    requires Odd(y) == 0
    ensures Odd(x + y + z) == (Odd(x) + Odd(z)) % 2
  {
    hide Odd;
    OddConcat(x, y);
    OddConcat(x + y, z);
    OddIsBit(x);
  }

  /** Printed text closes its quotes. */
  lemma {:induction false} TextEven(v: Property)
    requires Tidy(v)
    ensures Odd(Text(v)) == 0
    decreases v
  {
    hide Odd;
    hide Tidy;
    hide ItemsText;
    hide EntriesText;
    hide Escaped;
    TidyParts(v);
    match v
    case Str(s) =>
      EscapedUnquoted(s);
      UnquotedEven(Escaped(s));
      EnclosedEven('\"', Escaped(s), '\"');
    case Arr(items) =>
      ItemsEven(items);
      EnclosedEven('[', ItemsText(items), ']');
    case Obj(entries) =>
      EntriesEven(entries);
      EnclosedEven('{', EntriesText(entries), '}');
    case Float(token) => UnquotedEven(Text(v));
    case _ =>
      PlainUnquoted(v);
      UnquotedEven(Text(v));
  }

  lemma EnclosedEven(open: byte, t: bytes, close: byte)
    requires Odd(t) == 0 && (open == '\"' <==> close == '\"')
    ensures Odd([open] + t + [close]) == 0
  {
    hide Odd;
    OddThree([open], t, [close]);
    WeightOne(open);
    WeightOne(close);
  }

  lemma PlainUnquoted(v: Property)
    requires IsLiteral(v) || v.Int?
    ensures '\"' !in Text(v)
  {
    if v.Int? {
      DecimalPlain(v.n);
    }
  }

  lemma {:induction false} ItemsEven(items: seq<Property>)
    requires forall i :: 0 <= i < |items| ==> Tidy(items[i])
    ensures Odd(ItemsText(items)) == 0
    decreases items
  {
    hide Odd;
    hide Text;
    hide Tidy;
    if items == [] {
      NothingWeighs();
    } else {
      TextEven(items[0]);
      if |items| > 1 {
        ItemsEven(items[1..]);
        WeightOne(',');
        OddThree(Text(items[0]), ",", ItemsText(items[1..]));
      }
    }
  }

  lemma {:induction false} EntriesEven(entries: seq<(bytes, Property)>)
    requires forall i :: 0 <= i < |entries| ==> LegibleText(entries[i].0) && Tidy(entries[i].1)
    ensures Odd(EntriesText(entries)) == 0
    decreases entries
  {
    hide Odd;
    hide EntryText;
    hide Tidy;
    hide LegibleText;
    if entries == [] {
      NothingWeighs();
    } else {
      EntryEven(entries[0]);
      if |entries| > 1 {
        EntriesEven(entries[1..]);
        WeightOne(',');
        OddThree(EntryText(entries[0]), ",", EntriesText(entries[1..]));
      }
    }
  }

  lemma {:induction false} EntryEven(entry: (bytes, Property))
    requires LegibleText(entry.0) && Tidy(entry.1)
    ensures Odd(EntryText(entry)) == 0
    decreases entry
  {
    TextEven(entry.1);
    FrontEven(entry.0, Text(entry.1));
    EvenIsNotOdd(EntryText(entry));
    EvenIsNotOdd(Text(entry.1));
  }

  /** If all but the last close their quotes, and all of them together, so does the last. */
  lemma {:induction false} AllEven(data: bytes, rs: seq<Range>, p: nat, end: nat)
    requires Tiles(data, rs, p, end) && EvenBut(data, rs) && p <= end && Odd(data[p..end]) == 0
    ensures forall i :: 0 <= i < |rs| ==> rs[i].0 <= rs[i].1 <= |data| && Odd(data[rs[i].0..rs[i].1]) == 0
    decreases |rs|
  {
    hide Odd;
    if |rs| > 1 {
      assert rs[0].0 <= rs[0].1;
      TilesOrdered(data, rs[1..], rs[0].1 + 1, end);
      Thirds(data, p, rs[0].1, end);
      OddIsBit(data[rs[0].1 + 1..end]);
      assert forall i :: 0 <= i < |rs| - 1 ==> rs[1..][i] == rs[i + 1];
      AllEven(data, rs[1..], rs[0].1 + 1, end);
    }
  }

  lemma TilesOrdered(data: bytes, rs: seq<Range>, p: nat, end: nat)
    requires Tiles(data, rs, p, end)
    ensures p <= rs[0].1 <= end
  {
  }

  // ---------------------------------------------------------------- reading back

  lemma FloatBack(token: NumberText, data: bytes, begin: nat, end: nat)
    requires begin <= end <= |data| && data[begin..end] == FloatText(token)
    ensures ParseRange(data, begin, end) == Ok(Float(token)) <==> KeptToken(token, '.' in data[..begin])
  {
    hide FloatText;
    hide ParseItems;
    hide ParseEntries;
    hide Ranges;
    hide StringAt;
    hide IntOf;
    hide LiteralOf;
    DotLater(data, begin, end);
    var (b, e) := Inked(data, begin, end);
    assert data[begin] == FloatText(token)[0];
    StringIsNoFloat(data, b, e, token);
    if ParseRange(data, begin, end) == Ok(Float(token)) {
      assert data[b..e] == token;
      assert b == begin && e == end;
    }
  }

  lemma StringIsNoFloat(data: bytes, begin: nat, end: nat, token: NumberText)
    requires begin <= end <= |data|
    ensures begin < end ==> StringAt(data, begin, end) != Ok(Float(token))
    ensures LiteralOf(data[begin..end]) != Ok(Float(token)) && IntOf(data[begin..end]) != Ok(Float(token))
  {
  }

  /** The value a text was printed from is read from its range exactly when it is kept. */
  lemma {:induction false} Back(v: Property, data: bytes, begin: nat, end: nat)
    requires begin <= end <= |data| && data[begin..end] == Text(v) && Tame(data) && Tidy(v) && Defined(v)
    ensures ParseRange(data, begin, end) == Ok(v) <==> Kept(v, '.' in data[..begin])
    decreases v
  {
    hide Inked;
    hide Tame;
    hide StringAt;
    hide NumberAt;
    hide Ranges;
    hide ParseItems;
    hide ParseEntries;
    hide Splits;
    hide KeptItems;
    hide KeptEntries;
    hide KeptToken;
    hide LiteralOf;
    hide IntText;
    hide FloatText;
    hide ItemsText;
    hide EntriesText;
    hide Unescaped;
    hide Escaped;
    hide Tidy;
    TidyParts(v);
    match v
    case Float(token) => FloatBack(token, data, begin, end);
    case Arr(items) =>
      EndsInk(v, data, begin, end);
      ArrayBack(items, data, begin, end);
    case Obj(entries) =>
      EndsInk(v, data, begin, end);
      ObjectBack(entries, data, begin, end);
    case Str(s) =>
      EndsInk(v, data, begin, end);
      StringReads(s, data, begin, end);
      UnescapedIff(s);
    case Int(n) =>
      EndsInk(v, data, begin, end);
      DecimalPlain(n);
      IntReads(n, data, begin, end);
    case _ =>
      EndsInk(v, data, begin, end);
      LiteralsRead();
  }

  lemma LiteralsRead()
    ensures LiteralOf("null") == Ok(Null) && LiteralOf("true") == Ok(Bool(true)) && LiteralOf("false").Err?
  {
  }

  lemma TidyParts(v: Property)
    requires Tidy(v)
    ensures v.Str? ==> LegibleText(v.s)
    ensures v.Float? ==> '\"' !in Text(v)
    ensures v.Arr? ==> forall i :: 0 <= i < |v.items| ==> Tidy(v.items[i])
    ensures v.Obj? ==> Sorted(v.entries) && forall i :: 0 <= i < |v.entries| ==> LegibleText(v.entries[i].0) && Tidy(v.entries[i].1)
  {
  }

  /** Nothing is trimmed off a printed value. */
  lemma EndsInk(v: Property, data: bytes, begin: nat, end: nat)
    requires begin <= end <= |data| && data[begin..end] == Text(v) && !v.Float?
    ensures begin < end && Inked(data, begin, end) == (begin, end)
    ensures data[begin] == Text(v)[0] && data[end - 1] == Text(v)[|Text(v)| - 1]
  {
    if v.Int? {
      DecimalPlain(v.n);
    }
    assert data[begin] == data[begin..end][0] && data[end - 1] == data[begin..end][end - begin - 1];
    InkedAll(data, begin, end);
  }

  lemma {:induction false} ArrayBack(items: seq<Property>, data: bytes, begin: nat, end: nat)
    requires begin <= end <= |data| && data[begin..end] == "[" + ItemsText(items) + "]" && Tame(data)
    requires (forall i :: 0 <= i < |items| ==> Tidy(items[i])) && DefinedItems(items)
    ensures begin + 1 <= end - 1
    ensures ParseItems(data, begin + 1, end - 1, Ranges(data, begin + 1, end - 1, begin + 1, begin + 1)) == Ok(items) <==>
      items != [] && Splits(Texts(items)) && KeptItems(items, '.' in data[..begin])
    decreases items, 1
  {
    hide Tame;
    hide Tidy;
    hide ItemsText;
    hide Texts;
    hide Join;
    hide Ranges;
    hide ParseItems;
    hide Splits;
    hide Bounds;
    hide KeptItems;
    hide DefinedItems;
    hide Tiles;
    hide ScopeAt;
    hide EvenBut;
    hide Odd;
    hide Weight;
    hide EndsRange;
    var first, last := begin + 1, end - 1;
    BracketsOff(data, begin, end, '[', ItemsText(items), ']');
    var rs := Ranges(data, first, last, first, first);
    ItemsJoined(items);
    SplitsAnywhere(Texts(items), data, first, last);
    RangesTile(data, first, last);
    ScopeAtStart(data, first);
    RangesEven(data, first, last, first, first);
    if ParseItems(data, first, last, rs) == Ok(items) {
      ItemsCost(data, first, last, rs, first);
      ItemsEven(items);
      AllEven(data, rs, first, last);
      ItemsHeavy(data, first, last, rs, items);
      assert Cover(data, rs, Texts(items));
      TilesExact(data, rs, Texts(items), first, last);
    }
    if items != [] && rs == Bounds(Texts(items), first) {
      ItemsBack(items, data, first, last, first);
    }
  }

  /** A bracketed text in the buffer. */
  lemma BracketsOff(data: bytes, begin: nat, end: nat, open: byte, t: bytes, close: byte)
    requires begin <= end <= |data| && data[begin..end] == [open] + t + [close] && open != '.'
    ensures begin + 1 <= end - 1 && data[begin + 1..end - 1] == t && data[end - 1] == close
    ensures '.' in data[..begin + 1] <==> '.' in data[..begin]
  {
    Slice(data, begin, end, 1, end - begin - 1);
    assert data[begin..end][0] == open && data[begin..end][end - begin - 1] == close;
    assert ([open] + t + [close])[1..end - begin - 1] == t;
    assert data[..begin + 1] == data[..begin] + [data[begin]];
  }

  /** Items read from ranges weigh no more than those. */
  lemma {:induction false} ItemsHeavy(data: bytes, begin: nat, end: nat, ranges: seq<Range>, items: seq<Property>)
    requires begin <= end <= |data| && Inside(ranges, begin, end) && Tame(data)
    requires ParseItems(data, begin, end, ranges) == Ok(items) && DefinedItems(items)
    requires forall i :: 0 <= i < |ranges| ==> Odd(data[ranges[i].0..ranges[i].1]) == 0
    ensures |ranges| == |items|
    ensures forall i :: 0 <= i < |items| ==> Weight(Texts(items)[i]) <= Weight(data[ranges[i].0..ranges[i].1])
    decreases |ranges|
  {
    hide Weight;
    hide Odd;
    hide Tame;
    hide Text;
    hide Defined;
    hide ParseRange;
    if ranges != [] {
      ParsedCost(data, ranges[0].0, ranges[0].1);
      var rest := ParseItems(data, begin, end, ranges[1..]).value;
      assert items == [items[0]] + rest && items[1..] == rest;
      ItemsHeavy(data, begin, end, ranges[1..], rest);
    }
  }

  lemma {:induction false} ItemsBack(items: seq<Property>, data: bytes, begin: nat, end: nat, from: nat)
    requires begin <= from <= end <= |data| && data[from..end] == ItemsText(items) && Tame(data)
    requires items != [] && (forall i :: 0 <= i < |items| ==> Tidy(items[i])) && DefinedItems(items)
    requires Inside(Bounds(Texts(items), from), begin, end)
    ensures ParseItems(data, begin, end, Bounds(Texts(items), from)) == Ok(items) <==> KeptItems(items, '.' in data[..from])
    decreases items, 0
  {
    hide Tame;
    hide Text;
    hide Tidy;
    hide Defined;
    hide Kept;
    hide ItemsText;
    hide ParseRange;
    hide ParseItems;
    var text := Text(items[0]);
    var mid := from + |text|;
    ItemsTextFirst(items);
    FirstText(data, from, end, text, |items| == 1, ItemsText(items[1..]));
    Back(items[0], data, from, mid);
    assert Texts(items)[0] == text && Texts(items)[1..] == Texts(items[1..]);
    var rest := Bounds(Texts(items[1..]), mid + 1);
    assert Bounds(Texts(items), from) == [(from, mid)] + rest;
    assert forall i :: 0 <= i < |rest| ==> Bounds(Texts(items), from)[i + 1] == rest[i];
    ParseItemsFirst(data, begin, end, (from, mid), rest);
    ItemsMore(items, ParseRange(data, from, mid), ParseItems(data, begin, end, rest));
    if |items| > 1 {
      ItemsBack(items[1..], data, begin, end, mid + 1);
    } else {
      ParseItemsEnds(data, begin, end, []);
      assert rest == [] && items[1..] == [];
    }
  }

  lemma ItemsMore(items: seq<Property>, item: Result<Property, Error>, rest: Result<seq<Property>, Error>)
    requires items != []
    ensures item.Ok? ==> (Items([item.value], rest) == Ok(items) <==> item.value == items[0] && rest == Ok(items[1..]))
  {
    SplitFirst(items);
  }

  // ---------------------------------------------------------------- entries

  lemma {:induction false} LookupAt(m: seq<(bytes, Property)>, i: nat)
    requires Sorted(m) && i < |m|
    ensures Lookup(m, m[i].0) == Some(m[i].1)
    decreases |m|
  {
    if i > 0 {
      LessIrreflexive(m[i].0);
      assert Less(m[0].0, m[i].0);
      LookupAt(m[1..], i - 1);
    }
  }

  lemma {:induction false} NamedAt(entries: seq<(bytes, Property)>, i: nat)
    requires NamedEntries(entries) && i < |entries|
    ensures entries[i].0 != []
  {
    assert NamedEntry(entries[i]);
  }

  lemma EntryStands(entry: (bytes, Property), data: bytes, from: nat, end: nat, q: nat)
    requires LegibleText(entry.0) && Tame(data) && from <= q <= end < |data| && data[end] == '}'
    requires q < end ==> data[q] == ','
    requires Stands(data, from, EntryText(entry)) && from + |EntryText(entry)| <= end && Odd(data[from..q]) == 0 && from < q
    requires Delimitless(Text(entry.1)) && entry.0 != []
    ensures KeyAt(data, from, q) == Some((entry.0, from + |entry.0| + 3))
  {
    hide Text;
    hide KeyAt;
    hide Tame;
    var (key, v) := entry;
    EvenIsNotOdd(data[from..q]);
    BehindKey(key, v, data, from, q);
    KeyReads(key, data[from + |key| + 3..q], data, from, q);
  }

  lemma {:induction false} ObjectBack(entries: seq<(bytes, Property)>, data: bytes, begin: nat, end: nat)
    requires begin <= end <= |data| && data[begin..end] == "{" + EntriesText(entries) + "}" && Tame(data)
    requires Sorted(entries) && DefinedEntries(entries)
    requires forall i :: 0 <= i < |entries| ==> LegibleText(entries[i].0) && Tidy(entries[i].1)
    ensures begin + 1 <= end - 1
    ensures ParseEntries(data, begin + 1, end - 1, Ranges(data, begin + 1, end - 1, begin + 1, begin + 1), []) == Ok(entries) <==>
      (entries == [] || Splits(EntryTexts(entries))) && KeptEntries(entries, '.' in data[..begin])
    decreases entries, 1
  {
    hide Tame;
    hide Tidy;
    hide LegibleText;
    hide EntriesText;
    hide EntryTexts;
    hide Join;
    hide Ranges;
    hide ParseEntries;
    hide Splits;
    hide Bounds;
    hide KeptEntries;
    hide DefinedEntries;
    hide Tiles;
    hide ScopeAt;
    hide EvenBut;
    hide Odd;
    hide EndsRange;
    hide Sorted;
    var first, last := begin + 1, end - 1;
    BracketsOff(data, begin, end, '{', EntriesText(entries), '}');
    var rs := Ranges(data, first, last, first, first);
    if entries == [] {
      EmptyObject(data, first, last);
    } else {
      NothingSorted();
      EntriesJoined(entries);
      SplitsAnywhere(EntryTexts(entries), data, first, last);
      RangesTile(data, first, last);
      ScopeAtStart(data, first);
      RangesEven(data, first, last, first, first);
      assert [] + entries == entries;
      if ParseEntries(data, first, last, rs, []) == Ok(entries) {
        EntriesEven(entries);
        AllEven(data, rs, first, last);
        ParseEntriesNamed(data, first, last, rs, []);
        EntriesExact(entries, data, first, last, rs, first, []);
      }
      if rs == Bounds(EntryTexts(entries), first) {
        EntriesBack(entries, data, first, last, first, []);
      }
    }
  }

  /** Entries read from ranges that tile exactly their text are where they were printed: nothing can be
      passed over or replaced on the way, because the weight would be missed. */
  lemma {:induction false} EntriesExact(
    entries: seq<(bytes, Property)>, data: bytes, begin: nat, end: nat, ranges: seq<Range>, from: nat,
    acc: seq<(bytes, Property)>)
    requires begin <= from <= end < |data| && data[end] == '}' && Tame(data) && Inside(ranges, begin, end)
    requires Tiles(data, ranges, from, end) && EvenBut(data, ranges) && Odd(data[from..end]) == 0
    requires forall i :: 0 <= i < |ranges| ==> Odd(data[ranges[i].0..ranges[i].1]) == 0
    requires entries != [] && data[from..end] == EntriesText(entries) && DefinedEntries(entries) && NamedEntries(entries)
    requires forall i :: 0 <= i < |entries| ==> LegibleText(entries[i].0) && Tidy(entries[i].1)
    requires Sorted(acc) && Sorted(acc + entries) && ParseEntries(data, begin, end, ranges, acc) == Ok(acc + entries)
    ensures ranges == Bounds(EntryTexts(entries), from)
    decreases |entries|
  {
    hide ParseRange;
    hide ParseEntries;
    hide KeyAt;
    hide Put;
    hide Tame;
    hide Tidy;
    hide LegibleText;
    hide EntryText;
    hide EntriesText;
    hide EntryCost;
    hide DefinedEntry;
    hide Odd;
    hide Weight;
    hide Sorted;
    hide Lookup;
    hide Grows;
    hide NamedEntry;
    hide EntriesCost;
    hide Tiles;
    hide Bounds;
    hide EntryTexts;
    hide Stands;
    hide Delimitless;
    hide EvenBut;
    TilesStep(data, ranges, from, end);
    BoundsFirst(entries, from);
    var entry, q := entries[0], ranges[0].1;
    var text, key := EntryText(entry), entry.0;
    var mid := from + |text|;
    EntriesTextFirst(entries);
    StandsFirst(data, from, end, text, |entries| == 1, EntriesText(entries[1..]));
    EntryStarts(entry);
    StandsAt(data, from, text);
    NamedAt(entries, 0);
    TidyStarts(entry.1);
    EntryStands(entry, data, from, end, q);
    assert ranges == [(from, q)] + ranges[1..];
    ParseEntriesFirst(data, begin, end, (from, q), ranges[1..], acc);
    var value := ParseRange(data, from + |key| + 3, q).value;
    KeysBelow(acc, entries);
    PutLast(acc, key, value);
    var acc' := acc + [(key, value)];
    if |ranges| == 1 {
      ParseEntriesEnd(data, begin, end, [], acc');
      assert ranges[1..] == [] && acc' == acc + entries && |entries| == 1 && entries[1..] == [];
      NoBounds(mid + 1);
    } else {
      PutSorted(acc, key, value);
      FirstEntryExact(entries, data, begin, end, ranges, from, acc, value);
      assert acc' + entries[1..] == acc + entries && entry == (key, value);
      Thirds(data, from, q, end);
      OddIsBit(data[q + 1..end]);
      EvenButRest(data, ranges);
      DefinedFirst(entries);
      EntriesExact(entries[1..], data, begin, end, ranges[1..], mid + 1, acc');
    }
  }

  /** The first of several ranges holds the first entry and no more. */
  lemma FirstEntryExact(
    entries: seq<(bytes, Property)>, data: bytes, begin: nat, end: nat, ranges: seq<Range>, from: nat,
    acc: seq<(bytes, Property)>, value: Property)
    requires begin <= from <= end <= |data| && Tame(data) && Inside(ranges, begin, end) && |ranges| > 1
    requires Tiles(data, ranges, from, end) && EvenBut(data, ranges) && Odd(data[from..end]) == 0
    requires from <= ranges[0].1 && Odd(data[from..ranges[0].1]) == 0
    requires entries != [] && data[from..end] == EntriesText(entries) && DefinedEntries(entries)
    requires from + |EntryText(entries[0])| <= end && data[from..from + |EntryText(entries[0])|] == EntryText(entries[0])
    requires KeyAt(data, from, ranges[0].1).Some? && KeyAt(data, from, ranges[0].1).value.0 == entries[0].0
    requires ParseRange(data, KeyAt(data, from, ranges[0].1).value.1, ranges[0].1) == Ok(value)
    requires Sorted(acc + [(entries[0].0, value)]) && Sorted(acc + entries)
    requires ParseEntries(data, begin, end, ranges[1..], acc + [(entries[0].0, value)]) == Ok(acc + entries)
    ensures value == entries[0].1 && ranges[0].1 == from + |EntryText(entries[0])|
  {
    hide ParseRange;
    hide ParseEntries;
    hide KeyAt;
    hide Tame;
    hide EntryText;
    hide EntriesText;
    hide EntryCost;
    hide DefinedEntry;
    hide Odd;
    hide Weight;
    hide Sorted;
    hide Lookup;
    hide Grows;
    hide EntriesCost;
    hide Tiles;
    hide EvenBut;
    TilesStep(data, ranges, from, end);
    var entry, q := entries[0], ranges[0].1;
    var key := entry.0;
    var acc' := acc + [(key, value)];
    LookupAt(acc', |acc|);
    LookupAt(acc + entries, |acc|);
    EntriesCostConcat(acc, entries);
    EntriesCostConcat(acc, [(key, value)]);
    OneEntryCost((key, value));
    EntriesTextWeight(entries);
    Thirds(data, from, q, end);
    NothingGrows();
    OddIsBit(data[q + 1..end]);
    EvenButRest(data, ranges);
    PutsCost(data, begin, end, ranges[1..], q + 1, acc', key);
    assert value == entry.1 && entry == (key, value);
    FoundCost(data, from, q);
    DefinedFirst(entries);
    EntryTextWeight(entry);
    WeighedApart(data, from, from + |EntryText(entry)|, q);
  }

  lemma TidyStarts(v: Property)
    requires Tidy(v)
    ensures Delimitless(Text(v))
  {
    if v.Int? {
      DecimalPlain(v.n);
    }
  }

  lemma KeysBelow(acc: seq<(bytes, Property)>, entries: seq<(bytes, Property)>)
    requires Sorted(acc + entries) && entries != []
    ensures forall i :: 0 <= i < |acc| ==> Less(acc[i].0, entries[0].0)
    ensures Sorted(entries)
    ensures (acc + entries)[|acc|] == entries[0]
  {
    var all := acc + entries;
    forall i, j | 0 <= i < j < |entries| ensures Less(entries[i].0, entries[j].0) {
      assert all[|acc| + i] == entries[i] && all[|acc| + j] == entries[j];
    }
    forall i | 0 <= i < |acc| ensures Less(acc[i].0, entries[0].0) {
      assert all[i] == acc[i] && all[|acc|] == entries[0];
    }
  }

  lemma NothingSorted()
    ensures Sorted<Property>([]) && NamedEntries([])
  {
  }

  lemma OneEntryCost(entry: (bytes, Property))
    ensures EntriesCost([entry]) == EntryCost(entry) + 1
  {
    hide EntryCost;
    assert [entry][1..] == [] && EntriesCost([]) == 0;
  }

  lemma DefinedFirst(entries: seq<(bytes, Property)>)
    requires DefinedEntries(entries) && entries != []
    ensures DefinedEntry(entries[0]) && DefinedEntries(entries[1..])
  {
  }

  lemma EvenButRest(data: bytes, rs: seq<Range>)
    requires rs != [] && EvenBut(data, rs)
    ensures EvenBut(data, rs[1..])
  {
    hide Odd;
    assert forall i :: 0 <= i < |rs| - 1 ==> rs[1..][i] == rs[i + 1];
  }

  /** A printed entry: its key, if it has one, and its value. */
  lemma {:induction false} EntryBack(entry: (bytes, Property), data: bytes, begin: nat, end: nat)
    requires begin <= end <= |data| && data[begin..end] == EntryText(entry) && Tame(data)
    requires LegibleText(entry.0) && Tidy(entry.1) && DefinedEntry(entry)
    ensures entry.0 == [] ==> KeyAt(data, begin, end) == None
    ensures entry.0 != [] ==> KeyAt(data, begin, end).Some? && KeyAt(data, begin, end).value.0 == entry.0
    ensures entry.0 != [] ==>
      (ParseRange(data, KeyAt(data, begin, end).value.1, end) == Ok(entry.1) <==> KeptEntry(entry, '.' in data[..begin]))
    decreases entry
  {
    hide Tidy;
    hide Tame;
    hide KeyAt;
    hide ParseRange;
    hide Kept;
    hide Text;
    var (key, v) := entry;
    KeyReads(key, Text(v), data, begin, end);
    ValueStands(entry, data, begin, end);
    Back(v, data, end - |Text(v)|, end);
  }

  lemma ValueStands(entry: (bytes, Property), data: bytes, begin: nat, end: nat)
    requires begin <= end <= |data| && data[begin..end] == EntryText(entry)
    ensures var value := end - |Text(entry.1)|;
      && begin <= value && data[value..end] == Text(entry.1)
      && ('.' in data[..value] <==> '.' in data[..begin] || '.' in entry.0)
  {
    hide Text;
    var (key, v) := entry;
    var front := "\"" + key + "\":";
    var value := end - |Text(v)|;
    Slice(data, begin, end, |front|, end - begin);
    Slice(data, begin, end, 0, |front|);
    assert data[begin..value] == front;
    DotLater(data, begin, value);
    assert '.' in front <==> '.' in key;
  }

  lemma BoundsFirst(entries: seq<(bytes, Property)>, from: nat)
    requires entries != []
    ensures var mid := from + |EntryText(entries[0])|;
      Bounds(EntryTexts(entries), from) == [(from, mid)] + Bounds(EntryTexts(entries[1..]), mid + 1)
  {
    hide EntryText;
    assert EntryTexts(entries)[1..] == EntryTexts(entries[1..]);
  }

  lemma InsideRest(first: Range, rest: seq<Range>, begin: nat, end: nat)
    requires Inside([first] + rest, begin, end)
    ensures Inside(rest, begin, end)
  {
    assert forall i :: 0 <= i < |rest| ==> ([first] + rest)[i + 1] == rest[i];
  }

  /** Reading printed entries leaves alone what is held under other keys. */
  lemma {:induction false} EntriesKeep(
    entries: seq<(bytes, Property)>, data: bytes, begin: nat, end: nat, from: nat, acc: seq<(bytes, Property)>, k: bytes)
    requires begin <= from <= end <= |data| && Tame(data) && entries != [] && data[from..end] == EntriesText(entries)
    requires forall i :: 0 <= i < |entries| ==> LegibleText(entries[i].0) && entries[i].0 != k
    requires Inside(Bounds(EntryTexts(entries), from), begin, end)
    ensures var r := ParseEntries(data, begin, end, Bounds(EntryTexts(entries), from), acc);
      r.Ok? ==> Lookup(r.value, k) == Lookup(acc, k)
    decreases |entries|
  {
    hide ParseRange;
    hide ParseEntries;
    hide KeyAt;
    hide Put;
    hide Lookup;
    hide Tame;
    hide LegibleText;
    hide Text;
    hide EntriesText;
    hide EntryTexts;
    hide Bounds;
    var entry := entries[0];
    var mid := from + |EntryText(entry)|;
    var rest := Bounds(EntryTexts(entries[1..]), mid + 1);
    EntriesTextFirst(entries);
    FirstText(data, from, end, EntryText(entry), |entries| == 1, EntriesText(entries[1..]));
    KeyReads(entry.0, Text(entry.1), data, from, mid);
    BoundsFirst(entries, from);
    InsideRest((from, mid), rest, begin, end);
    ParseEntriesFirst(data, begin, end, (from, mid), rest, acc);
    var acc' := acc;
    if entry.0 != [] {
      var value := ParseRange(data, mid - |Text(entry.1)|, mid);
      if value.Ok? {
        LookupPut(acc, entry.0, value.value, k);
        acc' := Put(acc, entry.0, value.value);
      }
    }
    if |entries| > 1 {
      EntriesKeep(entries[1..], data, begin, end, mid + 1, acc', k);
    } else {
      NoBounds(mid + 1);
      assert entries[1..] == [];
      ParseEntriesEnd(data, begin, end, [], acc');
    }
  }

  lemma NoBounds(from: nat)
    ensures Bounds(EntryTexts([]), from) == [] == Bounds(Texts([]), from)
  {
  }

  lemma {:induction false} EntriesBack(
    entries: seq<(bytes, Property)>, data: bytes, begin: nat, end: nat, from: nat, acc: seq<(bytes, Property)>)
    requires begin <= from <= end <= |data| && Tame(data) && entries != [] && data[from..end] == EntriesText(entries)
    requires forall i :: 0 <= i < |entries| ==> LegibleText(entries[i].0) && Tidy(entries[i].1)
    requires DefinedEntries(entries) && Sorted(acc) && Sorted(acc + entries) && NamedEntries(acc)
    requires Inside(Bounds(EntryTexts(entries), from), begin, end)
    ensures ParseEntries(data, begin, end, Bounds(EntryTexts(entries), from), acc) == Ok(acc + entries) <==>
      KeptEntries(entries, '.' in data[..from])
    decreases entries, 0
  {
    hide ParseRange;
    hide ParseEntries;
    hide KeyAt;
    hide Put;
    hide Lookup;
    hide Tame;
    hide Tidy;
    hide LegibleText;
    hide EntryText;
    hide EntriesText;
    hide EntryTexts;
    hide Bounds;
    hide Sorted;
    hide DefinedEntry;
    hide KeptEntry;
    hide Named;
    var entry := entries[0];
    var key, mid := entry.0, from + |EntryText(entry)|;
    var rest := Bounds(EntryTexts(entries[1..]), mid + 1);
    EntriesTextFirst(entries);
    FirstText(data, from, end, EntryText(entry), |entries| == 1, EntriesText(entries[1..]));
    BoundsFirst(entries, from);
    InsideRest((from, mid), rest, begin, end);
    EntryBack(entry, data, from, mid);
    ParseEntriesFirst(data, begin, end, (from, mid), rest, acc);
    KeysBelow(acc, entries);
    if key == [] {
      ParseEntriesNamed(data, begin, end, Bounds(EntryTexts(entries), from), acc);
      NamelessLeft(acc, entries);
      KeylessNotKept(entries, '.' in data[..from]);
    } else {
      var value := ParseRange(data, KeyAt(data, from, mid).value.1, mid);
      if value.Ok? {
        PutLast(acc, key, value.value);
        PutSorted(acc, key, value.value);
        LookupPut(acc, key, value.value, key);
        LookupAt(acc + entries, |acc|);
        var acc' := acc + [(key, value.value)];
        if |entries| > 1 {
          KeysDiffer(entries);
          EntriesKeep(entries[1..], data, begin, end, mid + 1, acc', key);
        } else {
          NoBounds(mid + 1);
          assert entries[1..] == [];
          ParseEntriesEnd(data, begin, end, [], acc');
        }
        if value.value == entry.1 {
          assert entry == (key, value.value) && acc' + entries[1..] == acc + entries;
          ParseNamed(data, KeyAt(data, from, mid).value.1, mid);
          NamedMore(acc, entry, value.value);
          assert acc' + [] == acc';
          if |entries| > 1 {
            EntriesBack(entries[1..], data, begin, end, mid + 1, acc');
          }
        }
      }
    }
  }

  lemma NamedMore(acc: seq<(bytes, Property)>, entry: (bytes, Property), value: Property)
    requires NamedEntries(acc) && entry.0 != [] && Named(value)
    ensures NamedEntries(acc + [(entry.0, value)])
  {
    hide Named;
  }

  lemma NamelessLeft(acc: seq<(bytes, Property)>, entries: seq<(bytes, Property)>)
    requires entries != [] && entries[0].0 == []
    ensures !NamedEntries(acc + entries)
  {
    assert !NamedEntry((acc + entries)[|acc|]);
  }

  lemma KeylessNotKept(entries: seq<(bytes, Property)>, dotted: bool)
    requires entries != [] && entries[0].0 == []
    ensures !KeptEntries(entries, dotted)
  {
  }

  lemma KeysDiffer(entries: seq<(bytes, Property)>)
    requires Sorted(entries) && entries != []
    ensures forall i :: 0 <= i < |entries| - 1 ==> entries[1..][i].0 != entries[0].0
  {
    LessIrreflexive(entries[0].0);
    forall i | 0 <= i < |entries| - 1 ensures entries[1..][i].0 != entries[0].0 {
      assert Less(entries[0].0, entries[i + 1].0);
    }
  }

  lemma EmptyObject(data: bytes, first: nat, last: nat)
    requires first == last <= |data|
    ensures ParseEntries(data, first, last, Ranges(data, first, last, first, first), []) == Ok([])
    ensures KeptEntries([], false) && KeptEntries([], true)
  {
    hide ParseRange;
    RangesEnd(data, first, last, first);
    assert [(first, last)] + [] == [(first, last)];
    ParseEntriesFirst(data, first, last, (first, last), [], []);
    ParseEntriesEnd(data, first, last, [], []);
  }

  // ---------------------------------------------------------------- the round trip

  /** Printing and parsing gives a tidy value back exactly when it is kept and its text is within the size
      limit. Undefined properties are printed as `null` and are not kept; that they do not come back is
      shown for the trees whose keys balance. */
  lemma KeptIff(v: Property)
    requires Tidy(v) && (Defined(v) || Legible(v))
    ensures Parse(Text(v)) == Ok(v) <==> Kept(v, false) && |Text(v)| <= UINT32_MAX
  {
    hide Text;
    hide ParseRange;
    hide Kept;
    hide Faithful;
    if Defined(v) {
      var data := Text(v);
      TextTame(v);
      assert data[0..|data|] == data;
      Back(v, data, 0, |data|);
    } else {
      JsonRoundTripIff(v);
      UndefinedLost(v, false);
    }
  }

  /** A value with an undefined property somewhere is neither faithful nor kept. */
  lemma {:induction false} UndefinedLost(v: Property, dotted: bool)
    requires !Defined(v)
    ensures !Faithful(v, dotted) && !Kept(v, dotted)
    decreases v
  {
    match v
    case Arr(items) => UndefinedItems(items, dotted);
    case Obj(entries) => UndefinedEntries(entries, dotted);
    case _ =>
  }

  lemma {:induction false} UndefinedItems(items: seq<Property>, dotted: bool)
    requires !DefinedItems(items)
    ensures !FaithfulItems(items, dotted) && !KeptItems(items, dotted)
    decreases items
  {
    hide Text;
    if !Defined(items[0]) {
      UndefinedLost(items[0], dotted);
    } else {
      UndefinedItems(items[1..], dotted || '.' in Text(items[0]));
    }
  }

  lemma {:induction false} UndefinedEntries(entries: seq<(bytes, Property)>, dotted: bool)
    requires !DefinedEntries(entries)
    ensures !FaithfulEntries(entries, dotted) && !KeptEntries(entries, dotted)
    decreases entries
  {
    hide EntryText;
    if !DefinedEntry(entries[0]) {
      UndefinedEntry(entries[0], dotted);
    } else {
      UndefinedEntries(entries[1..], dotted || '.' in EntryText(entries[0]));
    }
  }

  lemma {:induction false} UndefinedEntry(entry: (bytes, Property), dotted: bool)
    requires !DefinedEntry(entry)
    ensures !FaithfulEntry(entry, dotted) && !KeptEntry(entry, dotted)
    decreases entry
  {
    UndefinedLost(entry.1, dotted || '.' in entry.0);
  }

  // ---------------------------------------------------------------- unbalanced keys

  /** Brackets in the only key mislead nobody when no comma follows it. */
  lemma LoneEntryKept(key: bytes, n: int64)
    requires LegibleText(key) && key != [] && '.' !in key && |Text(Obj([(key, Int(n))]))| <= UINT32_MAX
    ensures Parse(Text(Obj([(key, Int(n))]))) == Ok(Obj([(key, Int(n))]))
  {
    hide Text;
    hide Parse;
    hide Kept;
    hide Tame;
    var entry := (key, Int(n));
    var entries: seq<(bytes, Property)> := [entry];
    var t := EntryText(entry);
    LoneEntryQuiet(key, n);
    EntryTame(entry);
    ScopeAtStart(t, 0);
    assert t[0..|t|] == t && entries[1..] == [];
    RangesSkip(t, 0, |t|, 0, 0, |t|);
    RangesEnd(t, 0, |t|, 0);
    BoundsFirst(entries, 0);
    NoBounds(|t| + 1);
    assert EntryTexts(entries) == [t] && Join([t], ',') == t;
    LoneKept(key, n);
    KeptIff(Obj(entries));
  }

  lemma LoneKept(key: bytes, n: int64)
    requires LegibleText(key) && key != [] && '.' !in key
    ensures var v := Obj([(key, Int(n))]);
      Tidy(v) && Defined(v) && (Splits(EntryTexts([(key, Int(n))])) ==> Kept(v, false))
  {
    hide Splits;
    hide EntryTexts;
    var entries: seq<(bytes, Property)> := [(key, Int(n))];
    assert entries[1..] == [] && DefinedEntry(entries[0]) && KeptEntry(entries[0], false);
    assert DefinedEntries(entries) && KeptEntries(entries, false);
  }

  lemma LoneEntryQuiet(key: bytes, n: int64)
    requires LegibleText(key)
    ensures Quiet(OUTSIDE, EntryText((key, Int(n)))) && Tame(EntryText((key, Int(n))))
  {
    hide Quiet;
    hide Folded;
    hide Tame;
    var quoted, rest := "\"" + key + "\"", ":" + IntText(n);
    var entry: (bytes, Property) := (key, Int(n));
    EntryTame(entry);
    QuotedAs(OUTSIDE, key);
    DecimalPlain(n);
    PlainFolds(Folded(OUTSIDE, quoted), rest);
    FoldedConcat(OUTSIDE, quoted, rest);
    assert EntryText(entry) == quoted + rest;
  }

  const MISLEADING: Property := Obj([("]", Arr([Int(1), Int(2)]))])

  /** A key may mislead the splitter even where a string could not, because its value is printed after it:
      the bracket in this one makes the comma in the value a cut. */
  lemma LastKeyMisleads()
    ensures Tidy(MISLEADING) && Settled(MISLEADING, true) && Faithful(MISLEADING, false)
    ensures Parse(Text(MISLEADING)) != Ok(MISLEADING)
  {
    hide Parse;
    hide Ranges;
    hide Tame;
    MisleadingText();
    var t: bytes := "\"]\":[1,2]";
    var entries := MISLEADING.entries;
    KeptIff(MISLEADING);
    EntriesJoined(entries);
    MisleadingComma();
    RangesTile(t, 0, |t|);
    assert EndsRange(Ranges(t, 0, |t|, 0, 0), 6);
  }

  lemma MisleadingText()
    ensures EntriesText(MISLEADING.entries) == "\"]\":[1,2]"
    ensures Tidy(MISLEADING) && Defined(MISLEADING) && Settled(MISLEADING, true) && Faithful(MISLEADING, false)
  {
    var items: seq<Property> := [Int(1), Int(2)];
    assert items[1..] == [Int(2)] && items[1..][1..] == [];
    assert IntText(1) == "1" && IntText(2) == "2";
    assert ItemsText(items) == "1,2";
    assert MISLEADING.entries[1..] == [];
  }

  lemma MisleadingComma()
    ensures var t: bytes := "\"]\":[1,2]"; |t| == 9 && Separator(t, 0, 6)
  {
    hide ScopeAt;
    var t: bytes := "\"]\":[1,2]";
    ScopeAtStart(t, 0);
    for i := 0 to 7
      invariant ScopeAt(t, 0, i) == Scope(0, if i < 2 || i > 4 then 0 else -1, i == 1 || i == 2)
    {
      ScopeAtStep(t, 0, i);
    }
  }
}
