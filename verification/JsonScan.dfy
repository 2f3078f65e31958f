/** Printed JSON as the comma splitter sees it. */
module JsonScan {
  import opened Bytes
  import opened OrderedMap
  import opened JsonStringify
  import opened JsonParse
  import opened JsonStrings
  import opened JsonLayout

  // ---------------------------------------------------------------- values the splitter can follow

  /** As many brackets closed as opened: the splitter counts those inside strings too. */
  predicate Balanced(s: bytes) {
    Count(s, '{') == Count(s, '}') && Count(s, '[') == Count(s, ']')
  }

  /** Text without quotes, which the printer escapes in its own way, and without a backslash before
      the quote that closes it. */
  predicate LegibleText(s: bytes) {
    '\"' !in s && (s == [] || s[|s| - 1] != '\\')
  }

  predicate LegibleKey(key: bytes) {
    LegibleText(key) && Balanced(key)
  }

  /** A number as it is printed in figures: `nan` and `inf` are not. */
  predicate Numeric(token: NumberText) {
    && (IsDigit(token[0]) || token[0] == '-')
    && forall i :: 0 <= i < |token| ==> IsDigit(token[i]) || token[i] in ['+', '-', '.', 'e', 'E']
  }

  ghost predicate Legible(v: Property)
    decreases v
  {
    match v
    case Str(s) => LegibleText(s)
    case Float(token) => Numeric(token)
    case Arr(items) => forall i :: 0 <= i < |items| ==> Legible(items[i])
    case Obj(entries) =>
      Sorted(entries) && forall i :: 0 <= i < |entries| ==> LegibleKey(entries[i].0) && Legible(entries[i].1)
    case _ => true
  }

  /** Texts, keys and tokens that put no quote behind a backslash, and keys in order. */
  ghost predicate Tidy(v: Property)
    decreases v
  {
    match v
    case Str(s) => LegibleText(s)
    case Float(token) => '\"' !in token && '\\' !in token && token[0] !in [',', ']', '}']
    case Arr(items) => forall i :: 0 <= i < |items| ==> Tidy(items[i])
    case Obj(entries) =>
      Sorted(entries) && forall i :: 0 <= i < |entries| ==> LegibleText(entries[i].0) && Tidy(entries[i].1)
    case _ => true
  }

  lemma {:induction false} LegibleTidy(v: Property)
    requires Legible(v)
    ensures Tidy(v)
    decreases v
  {
    match v
    case Arr(items) =>
      forall i | 0 <= i < |items| ensures Tidy(items[i]) {
        LegibleTidy(items[i]);
      }
    case Obj(entries) =>
      forall i | 0 <= i < |entries| ensures Tidy(entries[i].1) {
        LegibleTidy(entries[i].1);
      }
    case _ =>
  }

  /** Every string is balanced, except that the last one printed need not be when `last`. */
  predicate Settled(v: Property, last: bool)
    decreases v
  {
    match v
    case Str(s) => last || Balanced(s)
    case Arr(items) => SettledItems(items, last)
    case Obj(entries) => SettledEntries(entries, last)
    case _ => true
  }

  predicate SettledItems(items: seq<Property>, last: bool)
    decreases items
  {
    items == [] ||
    if |items| == 1 then Settled(items[0], last)
    else Settled(items[0], false) && SettledItems(items[1..], last)
  }

  predicate SettledEntry(entry: (bytes, Property), last: bool)
    decreases entry
  {
    Settled(entry.1, last)
  }

  predicate SettledEntries(entries: seq<(bytes, Property)>, last: bool)
    decreases entries
  {
    entries == [] ||
    if |entries| == 1 then SettledEntry(entries[0], last)
    else SettledEntry(entries[0], false) && SettledEntries(entries[1..], last)
  }

  // ---------------------------------------------------------------- scanning printed text

  /** The scope after `t`, when no quote in it is excused by backslashes. */
  function Folded(scope: Scope, t: bytes): Scope
    decreases |t|
  {
    if t == [] then scope else Folded(Passed(scope, t[0]), t[1..])
  }

  /** No comma of `t` separates entries when `t` is reached in `scope`. */
  ghost predicate Quiet(scope: Scope, t: bytes)
    decreases |t|
  {
    t == [] || ((t[0] == ',' ==> scope != OUTSIDE) && Quiet(Passed(scope, t[0]), t[1..]))
  }

  lemma {:induction false} FoldedConcat(scope: Scope, x: bytes, y: bytes)
    ensures Folded(scope, x + y) == Folded(Folded(scope, x), y)
    ensures Quiet(scope, x + y) <==> Quiet(scope, x) && Quiet(Folded(scope, x), y)
    decreases |x|
  {
    if x == [] {
      assert x + y == y;
    } else {
      assert (x + y)[1..] == x[1..] + y;
      FoldedConcat(Passed(scope, x[0]), x[1..], y);
    }
  }

  /** The splitter makes no cut in `t`, in brackets or out of them, and when `whole` comes out of it
      as it went in. */
  ghost predicate Passes(t: bytes, whole: bool) {
    forall o: nat, a: nat ::
      Quiet(Scope(o, a, false), t) && (whole ==> Folded(Scope(o, a, false), t) == Scope(o, a, false))
  }

  /** The same inside brackets, where commas do not count. */
  ghost predicate PassesInside(t: bytes, whole: bool) {
    forall o: nat, a: nat :: o + a > 0 ==>
      Quiet(Scope(o, a, false), t) && (whole ==> Folded(Scope(o, a, false), t) == Scope(o, a, false))
  }

  /** Every backslash is followed by something other than a quote. */
  ghost predicate Tame(t: bytes) {
    forall i :: 0 <= i < |t| && t[i] == '\\' ==> i + 1 < |t| && t[i + 1] != '\"'
  }

  lemma TameConcat(x: bytes, y: bytes)
    requires Tame(x) && Tame(y)
    ensures Tame(x + y)
  {
  }

  predicate Special(c: byte) {
    c == '{' || c == '}' || c == '[' || c == ']' || c == '\"' || c == ','
  }

  lemma {:induction false} PlainFolds(scope: Scope, t: bytes)
    requires forall i :: 0 <= i < |t| ==> !Special(t[i])
    ensures Folded(scope, t) == scope && Quiet(scope, t)
    decreases |t|
  {
    if t != [] {
      PlainFolds(scope, t[1..]);
    }
  }

  lemma {:induction false} QuotedFolds(scope: Scope, t: bytes)
    requires scope.quoted && '\"' !in t
    ensures Folded(scope, t) == Scope(
      scope.objects + Count(t, '{') - Count(t, '}'), scope.arrays + Count(t, '[') - Count(t, ']'), true)
    ensures Quiet(scope, t)
    decreases |t|
  {
    if t != [] {
      QuotedFolds(Passed(scope, t[0]), t[1..]);
    }
  }

  lemma QuotedPasses(t: bytes, whole: bool)
    requires '\"' !in t && (whole ==> Balanced(t))
    ensures Passes("\"" + t + "\"", whole)
  {
    hide Count;
    forall o: nat, a: nat
      ensures whole ==> Folded(Scope(o, a, false), "\"" + t + "\"") == Scope(o, a, false)
      ensures Quiet(Scope(o, a, false), "\"" + t + "\"")
    {
      QuotedAs(Scope(o, a, false), t);
    }
  }

  lemma QuotedAs(scope: Scope, t: bytes)
    requires '\"' !in t && !scope.quoted
    ensures Folded(scope, "\"" + t + "\"") == Scope(
      scope.objects + Count(t, '{') - Count(t, '}'), scope.arrays + Count(t, '[') - Count(t, ']'), false)
    ensures Quiet(scope, "\"" + t + "\"")
  {
    hide Count;
    OneFolds(scope, '\"');
    FoldedConcat(scope, "\"", t);
    QuotedFolds(Passed(scope, '\"'), t);
    FoldedConcat(scope, "\"" + t, "\"");
    OneFolds(Folded(scope, "\"" + t), '\"');
  }

  lemma OneFolds(scope: Scope, c: byte)
    ensures Folded(scope, [c]) == Passed(scope, c)
    ensures c != ',' || scope != OUTSIDE ==> Quiet(scope, [c])
  {
    var t: bytes := [c];
    assert t[1..] == [];
  }

  lemma PassesConcat(x: bytes, y: bytes, whole: bool)
    requires Passes(x, true) && Passes(y, whole)
    ensures Passes(x + y, whole)
  {
    forall o: nat, a: nat
      ensures Quiet(Scope(o, a, false), x + y)
      ensures whole ==> Folded(Scope(o, a, false), x + y) == Scope(o, a, false)
    {
      FoldedConcat(Scope(o, a, false), x, y);
    }
  }

  lemma PlainPasses(t: bytes, whole: bool)
    requires forall i :: 0 <= i < |t| ==> !Special(t[i])
    ensures Passes(t, whole)
  {
    forall o: nat, a: nat
      ensures Folded(Scope(o, a, false), t) == Scope(o, a, false) && Quiet(Scope(o, a, false), t)
    {
      PlainFolds(Scope(o, a, false), t);
    }
  }

  lemma PassesThenInside(x: bytes, y: bytes, whole: bool)
    requires Passes(x, true) && PassesInside(y, whole)
    ensures PassesInside(x + "," + y, whole)
  {
    forall o: nat, a: nat | o + a > 0
      ensures whole ==> Folded(Scope(o, a, false), x + "," + y) == Scope(o, a, false)
      ensures Quiet(Scope(o, a, false), x + "," + y)
    {
      var scope := Scope(o, a, false);
      FoldedConcat(scope, x, ",");
      FoldedConcat(scope, x + ",", y);
      OneFolds(scope, ',');
    }
  }

  lemma BracketedPasses(open: byte, t: bytes, close: byte, whole: bool)
    requires (open == '{' && close == '}') || (open == '[' && close == ']')
    requires PassesInside(t, whole)
    ensures Passes([open] + t + [close], whole)
  {
    forall o: nat, a: nat
      ensures whole ==> Folded(Scope(o, a, false), [open] + t + [close]) == Scope(o, a, false)
      ensures Quiet(Scope(o, a, false), [open] + t + [close])
    {
      var scope := Scope(o, a, false);
      OneFolds(scope, open);
      FoldedConcat(scope, [open], t);
      FoldedConcat(scope, [open] + t, [close]);
      OneFolds(Folded(scope, [open] + t), close);
    }
  }

  lemma {:induction false} CountConcat(x: bytes, y: bytes, c: byte)
    ensures Count(x + y, c) == Count(x, c) + Count(y, c)
    decreases |x|
  {
    if x == [] {
      assert x + y == y;
    } else {
      assert (x + y)[1..] == x[1..] + y;
      CountConcat(x[1..], y, c);
    }
  }

  lemma RuneTextCount(rune: byte, c: byte)
    requires c == '{' || c == '}' || c == '[' || c == ']'
    ensures Count(RuneText(rune), c) == if rune == c then 1 else 0
  {
    var t := RuneText(rune);
    if |t| == 3 {
      assert t == [t[0]] + ([t[1]] + [t[2]]);
      CountConcat([t[0]], [t[1]] + [t[2]], c);
      CountConcat([t[1]], [t[2]], c);
    } else if |t| == 2 {
      assert t == [t[0]] + [t[1]];
      CountConcat([t[0]], [t[1]], c);
    }
  }

  lemma {:induction false} EscapedCount(s: bytes, c: byte)
    requires c == '{' || c == '}' || c == '[' || c == ']'
    ensures Count(Escaped(s), c) == Count(s, c)
    decreases |s|
  {
    if s != [] {
      hide RuneText;
      RuneTextCount(s[0], c);
      CountConcat(RuneText(s[0]), Escaped(s[1..]), c);
      EscapedCount(s[1..], c);
    }
  }

  lemma {:induction false} EscapedTame(s: bytes)
    requires '\"' !in s && (s == [] || s[|s| - 1] != '\\')
    ensures Tame(Escaped(s))
    decreases |s|
  {
    if s != [] {
      EscapedTame(s[1..]);
      var t, rest := RuneText(s[0]), Escaped(s[1..]);
      if s[0] == '\\' {
        assert s[1] != '\"';
        assert rest != [] && rest[0] != '\"';
      } else {
        assert Tame(t);
        TameConcat(t, rest);
      }
    }
  }

  lemma DecimalPlain(n: int)
    ensures forall i :: 0 <= i < |IntText(n)| ==> IsDigit(IntText(n)[i]) || IntText(n)[i] == '-'
  {
  }

  lemma FloatPlain(token: NumberText)
    requires Numeric(token)
    ensures Numeric(FloatText(token))
  {
  }

  lemma BlankPlain(s: bytes)
    requires BlankText(s)
    ensures Tame(s) && forall i :: 0 <= i < |s| ==> !Special(s[i])
  {
  }

  /** The printed text of a tidy value has no quote behind a backslash, however it is spaced. */
  lemma {:induction false} SpacedTame(v: Property, l: Layout)
    requires Tidy(v) && Blank(l)
    ensures Tame(SpacedText(v, l))
    decreases v, 1
  {
    hide Tame;
    hide Core;
    BlankPlain(l.before);
    BlankPlain(l.after);
    CoreTame(v, l);
    TameConcat(l.before, Core(v, l));
    TameConcat(l.before + Core(v, l), l.after);
  }

  lemma {:induction false} CoreTame(v: Property, l: Layout)
    requires Tidy(v) && Blank(l)
    ensures Tame(Core(v, l))
    decreases v, 0
  {
    hide Tame;
    match v
    case Undefined => PlainTame("null");
    case Null => PlainTame("null");
    case Bool(b) => PlainTame(if b then "true" else "false");
    case Int(n) =>
      DecimalPlain(n);
      PlainTame(IntText(n));
    case Float(token) => PlainTame(FloatText(token));
    case Str(s) =>
      EscapedTame(s);
      Enclosed("\"", Escaped(s), "\"");
    case Arr(items) =>
      ItemsTame(items, l.parts);
      Enclosed("[", SpacedItems(items, l.parts), "]");
    case Obj(entries) =>
      EntriesTame(entries, l.parts);
      BlankPlain(l.inside);
      Enclosed("{", if entries == [] then l.inside else SpacedEntries(entries, l.parts), "}");
  }

  lemma PlainTame(t: bytes)
    requires '\\' !in t
    ensures Tame(t)
  {
  }

  lemma Enclosed(open: bytes, t: bytes, close: bytes)
    requires '\\' !in open && Tame(t) && '\\' !in close
    ensures Tame(open + t + close)
  {
    TameConcat(open, t);
    TameConcat(open + t, close);
  }

  lemma {:induction false} ItemsTame(items: seq<Property>, ls: seq<Layout>)
    requires AllBlank(ls) && forall i :: 0 <= i < |items| ==> Tidy(items[i])
    ensures Tame(SpacedItems(items, ls))
    decreases items
  {
    hide Tame;
    hide Tidy;
    hide SpacedText;
    hide Blank;
    if items == [] {
      PlainTame([]);
    } else {
      PartsBlank(ls);
      SpacedTame(items[0], First(ls));
      if |items| > 1 {
        ItemsTame(items[1..], Others(ls));
        PlainTame(",");
        TameConcat(SpacedText(items[0], First(ls)), ",");
        TameConcat(SpacedText(items[0], First(ls)) + ",", SpacedItems(items[1..], Others(ls)));
      }
    }
  }

  lemma {:induction false} SpacedEntryTame(entry: (bytes, Property), l: Layout)
    requires LegibleText(entry.0) && Tidy(entry.1) && Blank(l)
    ensures Tame(SpacedEntry(entry, l))
    decreases entry
  {
    hide Tame;
    hide SpacedText;
    SpacedTame(entry.1, l);
    KeyTame(entry.0);
    BlankPlain(l.lead);
    BlankPlain(l.gap);
    PlainTame("\"");
    PlainTame(":");
    var text := SpacedText(entry.1, l);
    TameConcat(l.lead, "\"");
    TameConcat(l.lead + "\"", entry.0);
    TameConcat(l.lead + "\"" + entry.0, "\"");
    TameConcat(l.lead + "\"" + entry.0 + "\"", l.gap);
    TameConcat(l.lead + "\"" + entry.0 + "\"" + l.gap, ":");
    TameConcat(l.lead + "\"" + entry.0 + "\"" + l.gap + ":", text);
  }

  lemma KeyTame(key: bytes)
    requires LegibleText(key)
    ensures Tame(key)
  {
  }

  lemma {:induction false} EntriesTame(entries: seq<(bytes, Property)>, ls: seq<Layout>)
    requires AllBlank(ls) && forall i :: 0 <= i < |entries| ==> LegibleText(entries[i].0) && Tidy(entries[i].1)
    ensures Tame(SpacedEntries(entries, ls))
    decreases entries
  {
    hide Tame;
    hide Tidy;
    hide LegibleText;
    hide SpacedEntry;
    hide Blank;
    if entries == [] {
      PlainTame([]);
    } else {
      PartsBlank(ls);
      SpacedEntryTame(entries[0], First(ls));
      if |entries| > 1 {
        EntriesTame(entries[1..], Others(ls));
        PlainTame(",");
        TameConcat(SpacedEntry(entries[0], First(ls)), ",");
        TameConcat(SpacedEntry(entries[0], First(ls)) + ",", SpacedEntries(entries[1..], Others(ls)));
      }
    }
  }

  lemma TextTame(v: Property)
    requires Tidy(v)
    ensures Tame(Text(v))
  {
    TightText(v);
    TightIsBlank();
    SpacedTame(v, TIGHT);
  }

  lemma EntryTame(entry: (bytes, Property))
    requires LegibleText(entry.0) && Tidy(entry.1)
    ensures Tame(EntryText(entry))
  {
    TightEntry(entry);
    TightIsBlank();
    SpacedEntryTame(entry, TIGHT);
  }

  /** What follows cannot turn into a cut if it is plain. */
  lemma PassesThenPlain(x: bytes, y: bytes, whole: bool)
    requires Passes(x, whole) && forall i :: 0 <= i < |y| ==> !Special(y[i])
    ensures Passes(x + y, whole)
  {
    forall o: nat, a: nat
      ensures Quiet(Scope(o, a, false), x + y)
      ensures whole ==> Folded(Scope(o, a, false), x + y) == Scope(o, a, false)
    {
      FoldedConcat(Scope(o, a, false), x, y);
      PlainFolds(Folded(Scope(o, a, false), x), y);
    }
  }

  lemma KeyPasses(key: bytes, text: bytes, whole: bool)
    requires LegibleKey(key) && Passes(text, whole)
    ensures Passes("\"" + key + "\":" + text, whole)
  {
    SpacedKeyPasses([], key, [], text, whole);
    assert [] + "\"" + key + "\"" + [] + ":" + text == "\"" + key + "\":" + text;
  }

  lemma SpacedKeyPasses(lead: bytes, key: bytes, gap: bytes, text: bytes, whole: bool)
    requires LegibleKey(key) && BlankText(lead) && BlankText(gap) && Passes(text, whole)
    ensures Passes(lead + "\"" + key + "\"" + gap + ":" + text, whole)
  {
    hide Passes;
    BlankPlain(lead);
    BlankPlain(gap);
    PlainPasses(lead, true);
    QuotedPasses(key, true);
    var quoted := "\"" + key + "\"";
    PassesConcat(lead, quoted, true);
    PassesThenPlain(lead + quoted, gap, true);
    PassesThenPlain(lead + quoted + gap, ":", true);
    PassesConcat(lead + quoted + gap + ":", text, whole);
    assert lead + quoted + gap + ":" + text == lead + "\"" + key + "\"" + gap + ":" + text;
  }

  lemma EscapedBalanced(s: bytes)
    ensures Balanced(Escaped(s)) <==> Balanced(s)
  {
    hide Escaped;
    EscapedCount(s, '{');
    EscapedCount(s, '}');
    EscapedCount(s, '[');
    EscapedCount(s, ']');
  }

  /** The printed text of a settled value is passed over, and as a whole unless it may be last, however it is
      spaced. */
  lemma {:induction false} SpacedPasses(v: Property, l: Layout, last: bool)
    requires Legible(v) && Settled(v, last) && Blank(l)
    ensures Passes(SpacedText(v, l), !last)
    decreases v, 1
  {
    hide Passes;
    hide Core;
    BlankPlain(l.before);
    BlankPlain(l.after);
    PlainPasses(l.before, true);
    CorePasses(v, l, last);
    PassesConcat(l.before, Core(v, l), !last);
    PassesThenPlain(l.before + Core(v, l), l.after, !last);
  }

  lemma {:induction false} CorePasses(v: Property, l: Layout, last: bool)
    requires Legible(v) && Settled(v, last) && Blank(l)
    ensures Passes(Core(v, l), !last)
    decreases v, 0
  {
    hide Passes;
    hide PassesInside;
    hide Balanced;
    match v
    case Undefined => PlainPasses("null", !last);
    case Null => PlainPasses("null", !last);
    case Bool(b) => PlainPasses(if b then "true" else "false", !last);
    case Int(n) =>
      DecimalPlain(n);
      PlainPasses(IntText(n), !last);
    case Float(token) =>
      FloatPlain(token);
      PlainPasses(FloatText(token), !last);
    case Str(s) =>
      EscapedBalanced(s);
      EscapedUnquoted(s);
      QuotedPasses(Escaped(s), !last);
    case Arr(items) =>
      ItemsPass(items, l.parts, last);
      BracketedPasses('[', SpacedItems(items, l.parts), ']', !last);
    case Obj(entries) =>
      EntriesPass(entries, l.parts, last);
      if entries == [] {
        BlankPlain(l.inside);
        PlainPasses(l.inside, !last);
        PassIsInside(l.inside, !last);
      }
      BracketedPasses('{', if entries == [] then l.inside else SpacedEntries(entries, l.parts), '}', !last);
  }

  lemma PassIsInside(t: bytes, whole: bool)
    requires Passes(t, whole) || t == []
    ensures PassesInside(t, whole)
  {
  }

  lemma {:induction false} ItemsPass(items: seq<Property>, ls: seq<Layout>, last: bool)
    requires SettledItems(items, last) && AllBlank(ls) && forall i :: 0 <= i < |items| ==> Legible(items[i])
    ensures PassesInside(SpacedItems(items, ls), !last)
    decreases items
  {
    hide Passes;
    hide PassesInside;
    hide Legible;
    hide Settled;
    hide SpacedText;
    hide Blank;
    PartsBlank(ls);
    if items == [] {
      PassIsInside([], !last);
    } else if |items| == 1 {
      SpacedPasses(items[0], First(ls), last);
      PassIsInside(SpacedText(items[0], First(ls)), !last);
    } else {
      SpacedPasses(items[0], First(ls), false);
      ItemsPass(items[1..], Others(ls), last);
      PassesThenInside(SpacedText(items[0], First(ls)), SpacedItems(items[1..], Others(ls)), !last);
    }
  }

  lemma {:induction false} SpacedEntryPasses(entry: (bytes, Property), l: Layout, last: bool)
    requires LegibleKey(entry.0) && Legible(entry.1) && SettledEntry(entry, last) && Blank(l)
    ensures Passes(SpacedEntry(entry, l), !last)
    decreases entry
  {
    hide Passes;
    hide SpacedText;
    SpacedPasses(entry.1, l, last);
    SpacedKeyPasses(l.lead, entry.0, l.gap, SpacedText(entry.1, l), !last);
  }

  lemma {:induction false} EntriesPass(entries: seq<(bytes, Property)>, ls: seq<Layout>, last: bool)
    requires SettledEntries(entries, last) && AllBlank(ls)
    requires forall i :: 0 <= i < |entries| ==> LegibleKey(entries[i].0) && Legible(entries[i].1)
    ensures PassesInside(SpacedEntries(entries, ls), !last)
    decreases entries
  {
    hide Passes;
    hide PassesInside;
    hide Legible;
    hide LegibleKey;
    hide SettledEntry;
    hide SpacedEntry;
    hide Blank;
    PartsBlank(ls);
    if entries == [] {
      PassIsInside([], !last);
    } else if |entries| == 1 {
      SpacedEntryPasses(entries[0], First(ls), last);
      PassIsInside(SpacedEntry(entries[0], First(ls)), !last);
    } else {
      SpacedEntryPasses(entries[0], First(ls), false);
      EntriesPass(entries[1..], Others(ls), last);
      PassesThenInside(SpacedEntry(entries[0], First(ls)), SpacedEntries(entries[1..], Others(ls)), !last);
    }
  }

  lemma TextPasses(v: Property, last: bool)
    requires Legible(v) && Settled(v, last)
    ensures Passes(Text(v), !last)
  {
    TightText(v);
    TightIsBlank();
    SpacedPasses(v, TIGHT, last);
  }

  lemma EntryPasses(entry: (bytes, Property), last: bool)
    requires LegibleKey(entry.0) && Legible(entry.1) && SettledEntry(entry, last)
    ensures Passes(EntryText(entry), !last)
  {
    TightEntry(entry);
    TightIsBlank();
    SpacedEntryPasses(entry, TIGHT, last);
  }

  /** The splitter in the buffer does what folding over the text does. */
  lemma {:induction false} RangesSkip(data: bytes, begin: nat, end: nat, from: nat, i: nat, j: nat)
    requires begin <= from <= i <= j <= end <= |data| && Tame(data)
    requires Quiet(ScopeAt(data, begin, i), data[i..j])
    ensures ScopeAt(data, begin, j) == Folded(ScopeAt(data, begin, i), data[i..j])
    ensures Ranges(data, begin, end, from, i) == Ranges(data, begin, end, from, j)
    decreases j - i
  {
    hide Ranges;
    hide ScopeAt;
    if i < j {
      ScopeAtStep(data, begin, i);
      if data[i] == '\"' {
        TameQuote(data, i, begin);
      }
      RangesStep(data, begin, end, from, i);
      assert data[i..j][1..] == data[i + 1..j];
      RangesSkip(data, begin, end, from, i + 1, j);
    }
  }

  lemma TameQuote(data: bytes, i: nat, begin: nat)
    requires Tame(data) && begin <= i < |data| && data[i] == '\"'
    ensures !EscapedQuote(data, i, begin)
    ensures i > 0 ==> data[i - 1] != '\\'
  {
  }
}
