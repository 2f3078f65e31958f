/** JSON values printed with blanks between their parts. */
module JsonLayout {
  import opened Bytes
  import opened JsonStringify

  /** Where the blanks stand: before and after a value, in an empty object, before a key, and between a key
      and its colon; and so for the parts of the value. */
  datatype Layout = Layout(lead: bytes, gap: bytes, before: bytes, after: bytes, inside: bytes, parts: seq<Layout>)

  const TIGHT := Layout([], [], [], [], [], [])

  predicate BlankText(s: bytes) {
    forall i :: 0 <= i < |s| ==> s[i] == ' ' || 9 <= s[i] as int <= 13
  }

  ghost predicate Blank(l: Layout)
    decreases l
  {
    && BlankText(l.lead) && BlankText(l.gap) && BlankText(l.before) && BlankText(l.after) && BlankText(l.inside)
    && forall i :: 0 <= i < |l.parts| ==> Blank(l.parts[i])
  }

  ghost predicate AllBlank(ls: seq<Layout>) {
    forall i :: 0 <= i < |ls| ==> Blank(ls[i])
  }

  /** The layout of the next part; parts without one are printed tight. */
  function First(ls: seq<Layout>): Layout {
    if ls == [] then TIGHT else ls[0]
  }

  function Others(ls: seq<Layout>): seq<Layout> {
    if ls == [] then [] else ls[1..]
  }

  lemma PartsBlank(ls: seq<Layout>)
    requires AllBlank(ls)
    ensures Blank(First(ls)) && AllBlank(Others(ls))
  {
  }

  function SpacedText(v: Property, l: Layout): (r: bytes)
    ensures r != []
    decreases v, 1
  {
    l.before + Core(v, l) + l.after
  }

  function Core(v: Property, l: Layout): (r: bytes)
    ensures r != []
    decreases v, 0
  {
    match v
    case Arr(items) => "[" + SpacedItems(items, l.parts) + "]"
    case Obj(entries) => "{" + (if entries == [] then l.inside else SpacedEntries(entries, l.parts)) + "}"
    case _ => Text(v)
  }

  function SpacedItems(items: seq<Property>, ls: seq<Layout>): (r: bytes)
    ensures items == [] ==> r == []
    decreases items
  {
    if items == [] then []
    else if |items| == 1 then SpacedText(items[0], First(ls))
    else SpacedText(items[0], First(ls)) + "," + SpacedItems(items[1..], Others(ls))
  }

  function SpacedEntry(entry: (bytes, Property), l: Layout): bytes
    decreases entry
  {
    l.lead + "\"" + entry.0 + "\"" + l.gap + ":" + SpacedText(entry.1, l)
  }

  function SpacedEntries(entries: seq<(bytes, Property)>, ls: seq<Layout>): bytes
    decreases entries
  {
    if entries == [] then []
    else if |entries| == 1 then SpacedEntry(entries[0], First(ls))
    else SpacedEntry(entries[0], First(ls)) + "," + SpacedEntries(entries[1..], Others(ls))
  }

  // ---------------------------------------------------------------- without blanks

  /** Printed tight, a value has the text that the printer gives it. */
  lemma {:induction false} TightText(v: Property)
    ensures SpacedText(v, TIGHT) == Text(v)
    decreases v
  {
    match v
    case Arr(items) => TightItems(items);
    case Obj(entries) => TightEntries(entries);
    case _ =>
  }

  lemma {:induction false} TightItems(items: seq<Property>)
    ensures SpacedItems(items, []) == ItemsText(items)
    decreases items
  {
    hide SpacedText;
    hide Text;
    if items != [] {
      TightText(items[0]);
      TightItems(items[1..]);
    }
  }

  lemma {:induction false} TightEntry(entry: (bytes, Property))
    ensures SpacedEntry(entry, TIGHT) == EntryText(entry)
    decreases entry
  {
    hide SpacedText;
    hide Text;
    TightText(entry.1);
  }

  lemma {:induction false} TightEntries(entries: seq<(bytes, Property)>)
    ensures SpacedEntries(entries, []) == EntriesText(entries)
    decreases entries
  {
    hide SpacedEntry;
    hide EntryText;
    if entries != [] {
      TightEntry(entries[0]);
      TightEntries(entries[1..]);
    }
  }

  lemma TightIsBlank()
    ensures Blank(TIGHT)
  {
  }

  // ---------------------------------------------------------------- points

  /** Blanks hold no point, and so a text has one however it is spaced. */
  lemma {:induction false} SpacedDots(v: Property, l: Layout)
    requires Blank(l)
    ensures '.' in SpacedText(v, l) <==> '.' in Text(v)
    ensures '.' in Core(v, l) <==> '.' in Text(v)
    decreases v
  {
    match v
    case Arr(items) => SpacedItemsDots(items, l.parts);
    case Obj(entries) => SpacedEntriesDots(entries, l.parts);
    case _ =>
  }

  lemma {:induction false} SpacedItemsDots(items: seq<Property>, ls: seq<Layout>)
    requires AllBlank(ls)
    ensures '.' in SpacedItems(items, ls) <==> '.' in ItemsText(items)
    decreases items
  {
    hide SpacedText;
    hide Text;
    hide Blank;
    if items != [] {
      PartsBlank(ls);
      SpacedDots(items[0], First(ls));
      SpacedItemsDots(items[1..], Others(ls));
    }
  }

  lemma {:induction false} SpacedEntryDots(entry: (bytes, Property), l: Layout)
    requires Blank(l)
    ensures '.' in SpacedEntry(entry, l) <==> '.' in EntryText(entry)
    decreases entry
  {
    hide SpacedText;
    hide Text;
    SpacedDots(entry.1, l);
  }

  lemma {:induction false} SpacedEntriesDots(entries: seq<(bytes, Property)>, ls: seq<Layout>)
    requires AllBlank(ls)
    ensures '.' in SpacedEntries(entries, ls) <==> '.' in EntriesText(entries)
    decreases entries
  {
    hide SpacedEntry;
    hide EntryText;
    hide Blank;
    if entries != [] {
      PartsBlank(ls);
      SpacedEntryDots(entries[0], First(ls));
      SpacedEntriesDots(entries[1..], Others(ls));
    }
  }
}
