/** What is read from a range of JSON text never prints longer than the range. */
module JsonCost {
  import opened Bytes
  import opened OrderedMap
  import opened JsonStringify
  import opened JsonParse
  import opened JsonStrings
  import opened JsonScan
  import opened JsonRoundTrip
  import opened JsonExact

  // ---------------------------------------------------------------- weights

  /** Printed as three characters inside a string, and as it is inside a key. */
  predicate Grows(c: byte) {
    c == '\n' || c == '\t' || c == ESC
  }

  /** The length of a text, its growing characters counted as three. */
  function Weight(t: bytes): (n: nat)
    ensures n >= |t|
  {
    if t == [] then 0 else (if Grows(t[0]) then 3 else 1) + Weight(t[1..])
  }

  /** One when a quote is left open. */
  function Odd(t: bytes): nat {
    Count(t, '\"') % 2
  }

  lemma {:induction false} WeightConcat(x: bytes, y: bytes)
    ensures Weight(x + y) == Weight(x) + Weight(y)
    decreases |x|
  {
    if x == [] {
      assert x + y == y;
    } else {
      assert (x + y)[1..] == x[1..] + y;
      WeightConcat(x[1..], y);
    }
  }

  lemma WeightOne(c: byte)
    ensures Weight([c]) == if Grows(c) then 3 else 1
    ensures Odd([c]) == if c == '\"' then 1 else 0
  {
    assert [c][1..] == [];
    assert Count([], '\"') == 0;
  }

  lemma Halves(data: bytes, i: nat, j: nat, k: nat)
    requires i <= j <= k <= |data|
    ensures Weight(data[i..k]) == Weight(data[i..j]) + Weight(data[j..k])
    ensures Odd(data[i..k]) == (Odd(data[i..j]) + Odd(data[j..k])) % 2
  {
    hide Weight;
    hide Count;
    assert data[i..k] == data[i..j] + data[j..k];
    WeightConcat(data[i..j], data[j..k]);
    CountConcat(data[i..j], data[j..k], '\"');
  }

  /** A character between two halves. */
  lemma Thirds(data: bytes, i: nat, j: nat, k: nat)
    requires i <= j < k <= |data|
    ensures Weight(data[i..k]) == Weight(data[i..j]) + (if Grows(data[j]) then 3 else 1) + Weight(data[j + 1..k])
    ensures Odd(data[i..k]) == (Odd(data[i..j]) + (if data[j] == '\"' then 1 else 0) + Odd(data[j + 1..k])) % 2
  {
    hide Weight;
    hide Odd;
    hide Grows;
    Halves(data, i, j, k);
    Halves(data, j, j + 1, k);
    WeightOne(data[j]);
    assert data[j..j + 1] == [data[j]];
  }

  lemma {:induction false} UnquotedEven(t: bytes)
    requires '\"' !in t
    ensures Odd(t) == 0
  {
    CountNowhere(t, '\"');
  }

  lemma {:induction false} FlatWeight(t: bytes)
    requires forall i :: 0 <= i < |t| ==> !Grows(t[i])
    ensures Weight(t) == |t|
  {
    if t != [] {
      FlatWeight(t[1..]);
    }
  }

  lemma EscapedWeight(s: bytes)
    ensures Weight(Escaped(s)) == |Escaped(s)|
  {
    hide Escaped;
    EscapedPrintable(s);
    FlatWeight(Escaped(s));
  }

  /** A longer front weighs more. */
  lemma WeighedApart(data: bytes, i: nat, j: nat, k: nat)
    requires i <= j <= |data| && i <= k <= |data| && Weight(data[i..j]) == Weight(data[i..k])
    ensures j == k
  {
    hide Weight;
    if j < k {
      Halves(data, i, j, k);
    } else {
      Halves(data, i, k, j);
    }
  }

  // ---------------------------------------------------------------- trees without undefined properties

  predicate Defined(v: Property)
    decreases v
  {
    match v
    case Undefined => false
    case Arr(items) => DefinedItems(items)
    case Obj(entries) => DefinedEntries(entries)
    case _ => true
  }

  predicate DefinedItems(items: seq<Property>)
    decreases items
  {
    items == [] || (Defined(items[0]) && DefinedItems(items[1..]))
  }

  predicate DefinedEntries(entries: seq<(bytes, Property)>)
    decreases entries
  {
    entries == [] || (DefinedEntry(entries[0]) && DefinedEntries(entries[1..]))
  }

  predicate DefinedEntry(entry: (bytes, Property))
    decreases entry
  {
    Defined(entry.1)
  }

  /** The weight of a value as it is printed; one with undefined properties has none. */
  function Cost(v: Property): nat {
    if Defined(v) then Weight(Text(v)) else 0
  }

  function EntryCost(entry: (bytes, Property)): nat {
    Weight(entry.0) + 3 + Cost(entry.1)
  }

  /** The costs of entries with a comma each. */
  function EntriesCost(entries: seq<(bytes, Property)>): nat {
    if entries == [] then 0 else EntryCost(entries[0]) + 1 + EntriesCost(entries[1..])
  }

  lemma {:induction false} EntriesCostConcat(a: seq<(bytes, Property)>, b: seq<(bytes, Property)>)
    ensures EntriesCost(a + b) == EntriesCost(a) + EntriesCost(b)
    decreases |a|
  {
    hide EntryCost;
    if a == [] {
      assert a + b == b;
    } else {
      assert (a + b)[1..] == a[1..] + b;
      EntriesCostConcat(a[1..], b);
    }
  }

  lemma EntryTextWeight(entry: (bytes, Property))
    requires DefinedEntry(entry)
    ensures Weight(EntryText(entry)) == EntryCost(entry)
  {
    hide Text;
    hide Weight;
    var (key, v) := entry;
    WeightConcat("\"", key);
    WeightConcat("\"" + key, "\":");
    WeightConcat("\"" + key + "\":", Text(v));
    FlatWeight("\"");
    FlatWeight("\":");
  }

  lemma {:induction false} EntriesTextWeight(entries: seq<(bytes, Property)>)
    requires DefinedEntries(entries) && entries != []
    ensures Weight(EntriesText(entries)) + 1 == EntriesCost(entries)
    decreases |entries|
  {
    hide EntryText;
    hide DefinedEntry;
    hide EntryCost;
    hide Weight;
    EntryTextWeight(entries[0]);
    if |entries| > 1 {
      EntriesTextWeight(entries[1..]);
      WeightConcat(EntryText(entries[0]), ",");
      WeightConcat(EntryText(entries[0]) + ",", EntriesText(entries[1..]));
      FlatWeight(",");
    }
  }

  lemma {:induction false} PutCost(m: seq<(bytes, Property)>, k: bytes, v: Property)
    requires Sorted(m)
    ensures EntriesCost(Put(m, k, v)) + (if Lookup(m, k).Some? then EntryCost((k, Lookup(m, k).value)) + 1 else 0)
         == EntriesCost(m) + EntryCost((k, v)) + 1
  {
    hide EntryCost;
    hide Less;
    if m == [] {
      assert [(k, v)][1..] == [];
    } else if k == m[0].0 {
      assert ([(k, v)] + m[1..])[1..] == m[1..] && m[0] == (k, m[0].1);
    } else if Less(k, m[0].0) {
      assert ([(k, v)] + m)[1..] == m;
      Above(m, k);
    } else {
      PutCost(m[1..], k, v);
      assert ([m[0]] + Put(m[1..], k, v))[1..] == Put(m[1..], k, v);
    }
  }

  lemma Above(m: seq<(bytes, Property)>, k: bytes)
    requires Sorted(m) && m != [] && Less(k, m[0].0)
    ensures Lookup(m, k) == None
  {
    forall i | 0 <= i < |m| ensures Less(k, m[i].0) {
      if i > 0 {
        LessTransitive(k, m[0].0, m[i].0);
      }
    }
    NotBefore(m, k);
  }

  // ---------------------------------------------------------------- strings and numbers

  /** Resolving escapes gains no weight that printing would not take back. */
  lemma {:induction false} UnescapedWeight(c: bytes)
    requires '\"' !in c && Unescaped(c).Ok?
    ensures |Escaped(Unescaped(c).value)| <= Weight(c)
    decreases |c|
  {
    hide Escaped;
    hide Weight;
    hide RuneText;
    if c == [] {
      EscapedEnds([]);
    } else if c[0] != '\\' {
      UnescapedWeight(c[1..]);
      EscapedFirst(c[0], Unescaped(c[1..]).value);
      FirstWeight(c);
    } else if |c| > 2 {
      UnescapedWeight(c[3..]);
      EscapedFirst(EscapeOf(c[2]).value, Unescaped(c[3..]).value);
      EscapeWeight(c);
    } else {
      EscapedFirst('\"', []);
      EscapedEnds([]);
      EscapeWeight(c);
      assert "\"" + [] == "\"";
    }
  }

  lemma FirstWeight(c: bytes)
    requires c != [] && c[0] != '\"' && c[0] != '\\'
    ensures Weight(c) == |RuneText(c[0])| + Weight(c[1..])
  {
  }

  lemma EscapeWeight(c: bytes)
    requires |c| >= 2 && c[0] == '\\'
    ensures |RuneText('\"')| == 2 <= Weight(c)
    ensures |c| > 2 && EscapeOf(c[2]).Some? ==> |RuneText(EscapeOf(c[2]).value)| + Weight(c[3..]) <= Weight(c)
  {
    if |c| > 2 {
      Halves(c, 0, 3, |c|);
      assert c[0..|c|] == c && c[3..|c|] == c[3..];
    }
  }

  /** Without a backslash before them, all quotes in the content of a string are bare. */
  lemma StringCost(data: bytes, begin: nat, end: nat)
    requires begin < end <= |data| && Tame(data) && StringAt(data, begin, end).Ok?
    ensures Weight(Text(StringAt(data, begin, end).value)) <= Weight(data[begin..end]) + Odd(data[begin..end])
  {
    hide Unescaped;
    hide Weight;
    hide Odd;
    hide Escaped;
    hide Tame;
    var s := StringAt(data, begin, end).value.s;
    QuotedWeight(s);
    if end - begin == 1 {
      EscapedEnds([]);
      assert data[begin..end] == ['\"'];
      WeightOne('\"');
    } else {
      var content := data[begin + 1..end - 1];
      forall k | 0 <= k < |content| ensures content[k] != '\"' {
        if content[k] == '\"' {
          QuoteInside(data, begin, end, begin + 1 + k);
        }
      }
      Thirds(data, begin, begin, end);
      Thirds(data, begin + 1, end - 1, end);
      assert data[begin..begin] == [] && data[end..end] == [];
      UnescapedWeight(content);
      NothingWeighs();
    }
  }

  lemma NothingWeighs()
    ensures Weight([]) == 0 && Odd([]) == 0
  {
  }

  lemma QuotedWeight(s: bytes)
    ensures Weight(Text(Str(s))) == |Escaped(s)| + 2
  {
    hide Escaped;
    hide Weight;
    EscapedWeight(s);
    WeightConcat("\"", Escaped(s));
    WeightConcat("\"" + Escaped(s), "\"");
    FlatWeight("\"");
  }

  lemma {:induction false} DigitsShort(s: bytes, acc: nat)
    ensures |Decimal(ReadDigits(s, acc))| <= |Decimal(acc)| + |s|
  {
    hide Decimal;
    if s != [] && IsDigit(s[0]) {
      var next := acc * 10 + (s[0] as int - '0' as int);
      DigitsShort(s[1..], next);
      DecimalStep(acc, next);
    }
  }

  lemma DecimalStep(acc: nat, next: nat)
    requires acc * 10 <= next < acc * 10 + 10
    ensures |Decimal(next)| <= |Decimal(acc)| + 1 && (acc == 0 ==> |Decimal(next)| == 1)
  {
    assert next / 10 == acc;
  }

  lemma IntShort(token: bytes)
    requires IntOf(token).Ok?
    ensures |IntText(IntOf(token).value.n)| <= |token|
  {
    hide Decimal;
    hide ReadDigits;
    var t := SkipSpaces(token);
    var signed := t[0] == '-' || t[0] == '+';
    var digits := if signed then t[1..] else t;
    var first := digits[0] as int - '0' as int;
    FirstDigit(digits);
    DigitsShort(digits[1..], first);
    DecimalStep(0, first);
  }

  lemma FirstDigit(digits: bytes)
    requires digits != [] && IsDigit(digits[0])
    ensures ReadDigits(digits, 0) == ReadDigits(digits[1..], digits[0] as int - '0' as int)
  {
  }

  lemma NumberCost(data: bytes, begin: nat, end: nat)
    requires begin < end <= |data| && data[begin] != '.' && NumberAt(data, begin, end).Ok?
    ensures Weight(Text(NumberAt(data, begin, end).value)) <= Weight(data[begin..end])
  {
    hide IntOf;
    hide Weight;
    hide FloatText;
    var token := data[begin..end];
    if '.' in data[..end] {
      var printed := FloatText(token);
      Halves(token, 0, |printed|, |token|);
      assert token[0..|token|] == token && token[0..|printed|] == printed;
    } else {
      IntShort(token);
      IntIs(token);
      DecimalPlain(IntOf(token).value.n);
      FlatWeight(IntText(IntOf(token).value.n));
    }
  }

  lemma IntIs(token: bytes)
    requires IntOf(token).Ok?
    ensures IntOf(token).value.Int?
  {
  }

  // ---------------------------------------------------------------- ranges

  /** Every range but the last closes its quotes. */
  ghost predicate EvenBut(data: bytes, rs: seq<Range>) {
    forall i :: 0 <= i < |rs| - 1 ==> rs[i].0 <= rs[i].1 <= |data| && Odd(data[rs[i].0..rs[i].1]) == 0
  }

  lemma {:induction false} RangesEven(data: bytes, begin: nat, end: nat, from: nat, idx: nat)
    requires begin <= from <= idx <= end <= |data| && Tame(data) && ScopeAt(data, begin, from) == OUTSIDE
    ensures EvenBut(data, Ranges(data, begin, end, from, idx))
    decreases end - idx
  {
    hide Tame;
    hide ScopeAt;
    hide Separator;
    hide Odd;
    if idx < end {
      if Separator(data, begin, idx) {
        SeparatorEven(data, begin, from, idx);
        EvenIsNotOdd(data[from..idx]);
        RangesEven(data, begin, end, idx + 1, idx + 1);
        var rest := Ranges(data, begin, end, idx + 1, idx + 1);
        assert forall i :: 0 < i <= |rest| ==> ([(from, idx)] + rest)[i] == rest[i - 1];
      } else {
        RangesEven(data, begin, end, from, idx + 1);
      }
    }
  }

  lemma EvenIsNotOdd(t: bytes)
    ensures EvenQuotes(t) <==> Odd(t) == 0
  {
  }

  /** Trimming drops only blanks. */
  lemma InkedWeight(data: bytes, begin: nat, end: nat)
    requires begin <= end <= |data|
    ensures var (b, e) := Inked(data, begin, end);
      Weight(data[b..e]) <= Weight(data[begin..end]) && Odd(data[b..e]) == Odd(data[begin..end])
  {
    hide Weight;
    hide Odd;
    var (b, e) := Inked(data, begin, end);
    if (b, e) != (begin, end) {
      Halves(data, begin, b, end);
      Halves(data, b, e, end);
      UnquotedEven(data[begin..b]);
      UnquotedEven(data[e..end]);
      OddIsBit(data[b..e]);
    }
  }

  lemma OddIsBit(t: bytes)
    ensures Odd(t) < 2
  {
  }

  /** What a range is read as costs no more than the range, and one more if a quote is left open. */
  lemma {:induction false} ParsedCost(data: bytes, begin: nat, end: nat)
    requires begin <= end <= |data| && Tame(data)
    ensures ParseRange(data, begin, end).Ok? ==>
      Cost(ParseRange(data, begin, end).value) <= Weight(data[begin..end]) + Odd(data[begin..end])
    decreases end - begin, 0, 0
  {
    hide Inked;
    hide NumberAt;
    hide StringAt;
    hide LiteralOf;
    hide Ranges;
    hide ParseItems;
    hide ParseEntries;
    hide Weight;
    hide Odd;
    hide Tame;
    hide Text;
    hide Defined;
    var (b, e) := Inked(data, begin, end);
    var r := ParseRange(data, begin, end);
    InkedWeight(data, begin, end);
    if r.Ok? {
      if b == e {
        UndefinedCosts();
      } else if data[b] == '\"' {
        StringCost(data, b, e);
      } else if data[b] == '-' || IsDigit(data[b]) {
        NumberCost(data, b, e);
      } else if data[b] == '{' {
        ObjectCost(data, b, e);
      } else if data[b] == '[' {
        ArrayCost(data, b, e);
      } else {
        LiteralCost(data[b..e]);
      }
    }
  }

  lemma UndefinedCosts()
    ensures Cost(Undefined) == 0
  {
  }

  lemma LiteralCost(token: bytes)
    requires LiteralOf(token).Ok?
    ensures Weight(Text(LiteralOf(token).value)) <= Weight(token)
  {
    FlatWeight("true");
    FlatWeight("null");
  }

  /** The brackets around a content. */
  lemma InsideBrackets(data: bytes, begin: nat, end: nat)
    requires begin + 1 <= end - 1 && end <= |data|
    requires !Grows(data[begin]) && data[begin] != '\"' && !Grows(data[end - 1]) && data[end - 1] != '\"'
    ensures Weight(data[begin..end]) == Weight(data[begin + 1..end - 1]) + 2
    ensures Odd(data[begin..end]) == Odd(data[begin + 1..end - 1])
  {
    hide Weight;
    hide Odd;
    Thirds(data, begin, begin, end);
    Thirds(data, begin + 1, end - 1, end);
    assert data[begin..begin] == [] && data[end..end] == [];
    NothingWeighs();
    OddIsBit(data[begin + 1..end - 1]);
  }

  lemma BracketedWeight(open: byte, t: bytes, close: byte)
    requires !Grows(open) && !Grows(close)
    ensures Weight([open] + t + [close]) == Weight(t) + 2
  {
    hide Weight;
    WeightConcat([open], t);
    WeightConcat([open] + t, [close]);
    WeightOne(open);
    WeightOne(close);
  }

  lemma {:induction false} ArrayCost(data: bytes, b: nat, e: nat)
    requires b + 1 <= e - 1 && e <= |data| && Tame(data) && data[b] == '[' && data[e - 1] == ']'
    requires ParseItems(data, b + 1, e - 1, Ranges(data, b + 1, e - 1, b + 1, b + 1)).Ok?
    ensures var items := ParseItems(data, b + 1, e - 1, Ranges(data, b + 1, e - 1, b + 1, b + 1)).value;
      Cost(Arr(items)) <= Weight(data[b..e]) + Odd(data[b..e])
    decreases e - b - 1, 3, 0
  {
    hide Weight;
    hide Odd;
    hide Tame;
    hide Ranges;
    hide ParseItems;
    hide ItemsText;
    hide Tiles;
    hide EvenBut;
    hide ScopeAt;
    var rs := Ranges(data, b + 1, e - 1, b + 1, b + 1);
    var items := ParseItems(data, b + 1, e - 1, rs).value;
    InsideBrackets(data, b, e);
    BracketedWeight('[', ItemsText(items), ']');
    RangesTile(data, b + 1, e - 1);
    ScopeAtStart(data, b + 1);
    RangesEven(data, b + 1, e - 1, b + 1, b + 1);
    ItemsCost(data, b + 1, e - 1, rs, b + 1);
  }

  lemma {:induction false} ItemsCost(data: bytes, begin: nat, end: nat, ranges: seq<Range>, p: nat)
    requires begin <= p <= end <= |data| && Inside(ranges, begin, end) && Tame(data)
    requires Tiles(data, ranges, p, end) && EvenBut(data, ranges)
    ensures var r := ParseItems(data, begin, end, ranges);
      r.Ok? ==>
        && r.value != [] && |r.value| == |ranges|
        && (DefinedItems(r.value) ==> Weight(ItemsText(r.value)) <= Weight(data[p..end]) + Odd(data[p..end]))
    decreases end - begin, 1, |ranges|
  {
    hide Weight;
    hide Odd;
    hide Tame;
    hide Text;
    hide Defined;
    hide ParseRange;
    var first, rest := ranges[0], ranges[1..];
    ParsedCost(data, first.0, first.1);
    var r := ParseItems(data, begin, end, ranges);
    if |ranges| > 1 {
      ItemsCost(data, begin, end, rest, first.1 + 1);
      Thirds(data, p, first.1, end);
      OddIsBit(data[first.1 + 1..end]);
      if r.Ok? {
        var item, items := r.value[0], ParseItems(data, begin, end, rest).value;
        assert r.value == [item] + items && r.value[1..] == items;
        CommaWeight(Text(item), ItemsText(items));
      }
    } else {
      assert rest == [] && ParseItems(data, begin, end, []) == Ok([]);
      if r.Ok? {
        assert r.value == [r.value[0]];
      }
    }
  }

  lemma CommaWeight(x: bytes, y: bytes)
    ensures Weight(x + "," + y) == Weight(x) + 1 + Weight(y)
  {
    hide Weight;
    WeightConcat(x, ",");
    WeightConcat(x + ",", y);
    FlatWeight(",");
  }

  lemma {:induction false} ObjectCost(data: bytes, b: nat, e: nat)
    requires b + 1 <= e - 1 && e <= |data| && Tame(data) && data[b] == '{' && data[e - 1] == '}'
    requires ParseEntries(data, b + 1, e - 1, Ranges(data, b + 1, e - 1, b + 1, b + 1), []).Ok?
    ensures var entries := ParseEntries(data, b + 1, e - 1, Ranges(data, b + 1, e - 1, b + 1, b + 1), []).value;
      Cost(Obj(entries)) <= Weight(data[b..e]) + Odd(data[b..e])
    decreases e - b - 1, 3, 0
  {
    hide Weight;
    hide Odd;
    hide Tame;
    hide Ranges;
    hide ParseEntries;
    hide EntriesText;
    hide Tiles;
    hide EvenBut;
    hide ScopeAt;
    var rs := Ranges(data, b + 1, e - 1, b + 1, b + 1);
    var entries := ParseEntries(data, b + 1, e - 1, rs, []).value;
    InsideBrackets(data, b, e);
    BracketedWeight('{', EntriesText(entries), '}');
    RangesTile(data, b + 1, e - 1);
    ScopeAtStart(data, b + 1);
    RangesEven(data, b + 1, e - 1, b + 1, b + 1);
    PutsCost(data, b + 1, e - 1, rs, b + 1, [], []);
    if entries == [] {
      NothingWeighs();
    } else if DefinedEntries(entries) {
      EntriesTextWeight(entries);
    }
  }

  /** The key and the value of an entry weigh no more than it. */
  lemma {:induction false} FoundCost(data: bytes, begin: nat, end: nat)
    requires begin <= end <= |data| && Tame(data) && KeyAt(data, begin, end).Some?
    ensures var (key, value) := KeyAt(data, begin, end).value;
      ParseRange(data, value, end).Ok? ==>
        EntryCost((key, ParseRange(data, value, end).value)) <= Weight(data[begin..end]) + Odd(data[begin..end])
    decreases end - begin, 1, 0
  {
    hide Weight;
    hide Odd;
    hide ParseRange;
    hide Cost;
    var (key, value) := KeyAt(data, begin, end).value;
    ParsedCost(data, value, end);
    KeyWeight(data, begin, end);
  }

  lemma KeyWeight(data: bytes, begin: nat, end: nat)
    requires begin <= end <= |data| && Tame(data) && KeyAt(data, begin, end).Some?
    ensures var (key, value) := KeyAt(data, begin, end).value;
      Weight(key) + 3 + Weight(data[value..end]) + Odd(data[value..end]) <= Weight(data[begin..end]) + Odd(data[begin..end])
  {
    hide Weight;
    hide Odd;
    hide Tame;
    hide KeyQuote;
    hide Grows;
    var open := KeyQuote(data, begin, end, begin);
    var close := KeyQuote(data, begin, end, open + 1);
    var (key, value) := KeyAt(data, begin, end).value;
    Unquoted(data, begin, end, begin, open);
    Unquoted(data, begin, end, open + 1, close);
    Thirds(data, begin, open, end);
    Thirds(data, open + 1, close, end);
    Thirds(data, close + 1, value - 1, end);
    NothingGrows();
    OddWeighs(data[close + 1..value - 1]);
    OddIsBit(data[value..end]);
  }

  lemma NothingGrows()
    ensures !Grows('\"') && !Grows(':') && !Grows(',')
  {
  }

  lemma OddWeighs(t: bytes)
    ensures Odd(t) <= Weight(t) && Odd(t) < 2
  {
    if t == [] {
      NothingWeighs();
    }
  }

  /** Without a backslash before them, all quotes are key quotes. */
  lemma Unquoted(data: bytes, begin: nat, end: nat, from: nat, stop: nat)
    requires begin <= from <= stop <= end <= |data| && Tame(data) && KeyQuote(data, begin, end, from) == stop
    ensures Odd(data[from..stop]) == 0
  {
    hide Odd;
    KeyQuoteFirst(data, begin, end, from);
    forall i | from <= i < stop ensures data[i] != '\"' {
      assert !IsKeyQuote(data, begin, i);
      if data[i] == '\"' {
        TameQuote(data, i, begin);
      }
    }
    UnquotedEven(data[from..stop]);
  }

  lemma {:induction false} KeyQuoteFirst(data: bytes, begin: nat, end: nat, from: nat)
    requires begin <= from <= end <= |data|
    ensures forall i :: from <= i < KeyQuote(data, begin, end, from) ==> !IsKeyQuote(data, begin, i)
    decreases end - from
  {
    if from < end && !IsKeyQuote(data, begin, from) {
      KeyQuoteFirst(data, begin, end, from + 1);
    }
  }

  /** Reading entries into a map costs no more than their ranges; if what it held under `k` is replaced,
      what was replaced is lost. */
  lemma {:induction false} PutsCost(
    data: bytes, begin: nat, end: nat, ranges: seq<Range>, p: nat, acc: seq<(bytes, Property)>, k: bytes)
    requires begin <= p <= end <= |data| && Inside(ranges, begin, end) && Tame(data)
    requires Tiles(data, ranges, p, end) && EvenBut(data, ranges) && Sorted(acc)
    ensures var r := ParseEntries(data, begin, end, ranges, acc);
      r.Ok? ==>
        && Sorted(r.value)
        && EntriesCost(r.value) <= EntriesCost(acc) + Weight(data[p..end]) + 1 + Odd(data[p..end])
        && (Lookup(acc, k).Some? && Lookup(r.value, k) != Lookup(acc, k) ==>
              EntriesCost(r.value) + EntryCost((k, Lookup(acc, k).value)) + 1
                <= EntriesCost(acc) + Weight(data[p..end]) + 1 + Odd(data[p..end]))
    decreases end - begin, 2, |ranges|
  {
    hide Weight;
    hide Odd;
    hide Tame;
    hide EntryCost;
    hide EntriesCost;
    hide ParseRange;
    hide KeyAt;
    hide Put;
    hide Lookup;
    hide Sorted;
    var first, rest := ranges[0], ranges[1..];
    var found := KeyAt(data, first.0, first.1);
    var acc' := acc;
    if found.Some? {
      var value := ParseRange(data, found.value.1, first.1);
      if value.Ok? {
        FoundCost(data, first.0, first.1);
        PutCost(acc, found.value.0, value.value);
        PutSorted(acc, found.value.0, value.value);
        LookupPut(acc, found.value.0, value.value, k);
        acc' := Put(acc, found.value.0, value.value);
      }
    }
    if |ranges| > 1 {
      Thirds(data, p, first.1, end);
      OddIsBit(data[first.1 + 1..end]);
      PutsCost(data, begin, end, rest, first.1 + 1, acc', k);
    } else {
      assert rest == [] && ParseEntries(data, begin, end, [], acc') == Ok(acc');
    }
  }
}
