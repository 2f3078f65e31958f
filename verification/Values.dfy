/** The normalising multimap behind headers and search parameters. */
module Values {
  import opened Bytes
  import opened OrderedMap

  type Entries = seq<(bytes, seq<bytes>)>

  // ---------------------------------------------------------------- key normalisation

  /** The text without its trailing white space. */
  function TrimRight(s: bytes): (r: bytes)
    ensures r <= s
    ensures r == [] || !IsSpace(r[|r| - 1])
    ensures forall i :: |r| <= i < |s| ==> IsSpace(s[i])
  {
    if s == [] || !IsSpace(s[|s| - 1]) then s else TrimRight(s[..|s| - 1])
  }

  /** The text without white space at either end. */
  function Stripped(s: bytes): bytes {
    TrimRight(SkipSpaces(s))
  }

  /** What `trim_space` returns: a stripped text of a single character is lost. */
  function Trimmed(s: bytes): bytes {
    var t := Stripped(s);
    if |t| < 2 then [] else t
  }

  function Lower(c: byte): byte {
    if 'A' <= c <= 'Z' then (c as int + 0x20) as char else c
  }

  function Lowered(s: bytes): (r: bytes)
    ensures |r| == |s|
  {
    seq(|s|, i requires 0 <= i < |s| => Lower(s[i]))
  }

  /** The key under which `reset_case` files a token. */
  function Normalized(token: bytes): bytes {
    Lowered(Trimmed(token))
  }

  ghost predicate NormalKey(key: bytes) {
    key != [] && Normalized(key) == key
  }

  lemma {:induction false} SkipSpacesIs(s: bytes, begin: nat)
    requires begin <= |s|
    requires forall i :: 0 <= i < begin ==> IsSpace(s[i])
    requires begin == |s| || !IsSpace(s[begin])
    ensures SkipSpaces(s) == s[begin..]
  {
    if begin > 0 {
      SkipSpacesIs(s[1..], begin - 1);
      assert s[1..][begin - 1..] == s[begin..];
    }
  }

  lemma {:induction false} TrimRightIs(s: bytes, end: nat)
    requires end <= |s|
    requires forall i :: end <= i < |s| ==> IsSpace(s[i])
    requires end == 0 || !IsSpace(s[end - 1])
    ensures TrimRight(s) == s[..end]
  {
    if end < |s| {
      TrimRightIs(s[..|s| - 1], end);
      assert s[..|s| - 1][..end] == s[..end];
    }
  }

  method TrimSpace(token: bytes) returns (r: bytes)
    ensures r == Trimmed(token)
  {
    if |token| == 0 {
      return [];
    }
    var trimBegin := 0;
    while trimBegin < |token| && IsSpace(token[trimBegin])
      invariant trimBegin <= |token|
      invariant forall i :: 0 <= i < trimBegin ==> IsSpace(token[i])
    {
      trimBegin := trimBegin + 1;
    }
    SkipSpacesIs(token, trimBegin);
    ghost var left := token[trimBegin..];
    var tokenEnd := |token| - 1;
    if trimBegin >= tokenEnd {
      return [];
    }
    var trimEnd := |token| - 1;
    while trimEnd > 0 && IsSpace(token[trimEnd])
      invariant trimBegin <= trimEnd < |token|
      invariant forall i :: trimEnd < i < |token| ==> IsSpace(token[i])
    {
      trimEnd := trimEnd - 1;
    }
    TrimRightIs(left, trimEnd + 1 - trimBegin);
    if trimEnd <= trimBegin {
      return [];
    }
    assert left[..trimEnd + 1 - trimBegin] == token[trimBegin..trimEnd + 1];
    return token[trimBegin..trimEnd + 1];
  }

  method ResetCase(token: bytes) returns (r: bytes)
    ensures r == Normalized(token)
  {
    r := TrimSpace(token);
    for i := 0 to |r|
      invariant |r| == |Trimmed(token)|
      invariant forall j :: 0 <= j < |r| ==> r[j] == if j < i then Lower(Trimmed(token)[j]) else Trimmed(token)[j]
    {
      if 'A' <= r[i] <= 'Z' {
        r := r[i := (r[i] as int + 0x20) as char];
      }
    }
    assert r == Normalized(token);
  }

  lemma TrimmedFixed(s: bytes)
    requires |s| >= 2 && !IsSpace(s[0]) && !IsSpace(s[|s| - 1])
    ensures Trimmed(s) == s
  {
  }

  /** Blanks around a token do not matter; what is left of it is lost when it is a single character. */
  lemma TrimmedIs(lead: bytes, token: bytes, trail: bytes)
    requires forall i :: 0 <= i < |lead| ==> lead[i] == ' ' || 9 <= lead[i] as int <= 13
    requires forall i :: 0 <= i < |trail| ==> trail[i] == ' ' || 9 <= trail[i] as int <= 13
    requires token != [] ==> !(token[0] == ' ' || 9 <= token[0] as int <= 13)
    requires token != [] ==> !(token[|token| - 1] == ' ' || 9 <= token[|token| - 1] as int <= 13)
    ensures Trimmed(lead + token + trail) == if |token| >= 2 then token else []
  {
    hide SkipSpaces;
    hide TrimRight;
    var all := lead + token + trail;
    if token == [] {
      SkipSpacesIs(all, |all|);
      TrimRightIs([], 0);
    } else {
      SkipSpacesIs(all, |lead|);
      assert all[|lead|..] == token + trail;
      TrimRightIs(token + trail, |token|);
      assert (token + trail)[..|token|] == token;
    }
  }

  /** Two tokens are one key when their characters are the same but for the case of letters. */
  lemma LoweredIff(a: bytes, b: bytes)
    ensures Lowered(a) == Lowered(b) <==>
      |a| == |b| && forall i :: 0 <= i < |a| ==>
        || a[i] == b[i]
        || ('A' <= a[i] <= 'Z' && b[i] as int == a[i] as int + 32)
        || ('A' <= b[i] <= 'Z' && a[i] as int == b[i] as int + 32)
  {
    if Lowered(a) == Lowered(b) {
      forall i | 0 <= i < |a|
        ensures a[i] == b[i] || ('A' <= a[i] <= 'Z' && b[i] as int == a[i] as int + 32)
             || ('A' <= b[i] <= 'Z' && a[i] as int == b[i] as int + 32)
      {
        assert Lower(a[i]) == Lowered(a)[i] == Lowered(b)[i] == Lower(b[i]);
      }
    }
  }

  /** A key in small letters stays as it is. */
  lemma LoweredFixed(s: bytes)
    requires forall i :: 0 <= i < |s| ==> !('A' <= s[i] <= 'Z')
    ensures Lowered(s) == s
  {
  }

  lemma LoweredTwice(s: bytes)
    ensures Lowered(Lowered(s)) == Lowered(s)
  {
  }

  /** Stored keys are fixed points: normalising again changes nothing. */
  lemma NormalizedIdempotent(token: bytes)
    ensures Normalized(Normalized(token)) == Normalized(token)
    ensures Normalized(token) == [] || (NormalKey(Normalized(token)) && |Normalized(token)| >= 2)
  {
    var t := Trimmed(token);
    if t != [] {
      assert t[0] == SkipSpaces(token)[0];
      var n := Lowered(t);
      assert !IsSpace(n[0]) && !IsSpace(n[|n| - 1]);
      TrimmedFixed(n);
      LoweredTwice(t);
    }
  }

  /** `trim_space` strips exactly the texts that do not come down to one character. */
  lemma TrimmedIsStrippedIff(token: bytes)
    ensures Trimmed(token) == Stripped(token) <==> |Stripped(token)| != 1
  {
  }

  // ---------------------------------------------------------------- the multimap

  ghost predicate ValidEntry(e: (bytes, seq<bytes>)) {
    NormalKey(e.0) && e.1 != []
  }

  ghost predicate ValidEntries(m: Entries) {
    Sorted(m) && forall e :: e in m ==> ValidEntry(e)
  }

  /** The values filed under a normalised key. */
  function Filed(m: Entries, k: bytes): seq<bytes> {
    match Lookup(m, k)
    case None => []
    case Some(values) => values
  }

  function AfterSet(m: Entries, key: bytes, value: bytes): Entries {
    var k := Normalized(key);
    if k == [] then m else Put(m, k, [value])
  }

  function AfterAppend(m: Entries, key: bytes, value: bytes): Entries {
    var k := Normalized(key);
    if k == [] then m else Put(m, k, Filed(m, k) + [value])
  }

  function AfterDel(m: Entries, key: bytes): Entries {
    var k := Normalized(key);
    if k == [] then m else Erase(m, k)
  }

  function AllOf(m: Entries, key: bytes): seq<bytes> {
    var k := Normalized(key);
    if k == [] then [] else Filed(m, k)
  }

  /** The last value filed under a key, or the empty text. */
  function LastOf(m: Entries, key: bytes): bytes {
    var all := AllOf(m, key);
    if all == [] then [] else all[|all| - 1]
  }

  lemma SetKeepsValid(m: Entries, key: bytes, value: bytes)
    requires ValidEntries(m)
    ensures ValidEntries(AfterSet(m, key, value))
  {
    NormalizedIdempotent(key);
    PutSorted(m, Normalized(key), [value]);
    PutEntries(m, Normalized(key), [value]);
  }

  lemma AppendKeepsValid(m: Entries, key: bytes, value: bytes)
    requires ValidEntries(m)
    ensures ValidEntries(AfterAppend(m, key, value))
  {
    NormalizedIdempotent(key);
    var k := Normalized(key);
    PutSorted(m, k, Filed(m, k) + [value]);
    PutEntries(m, k, Filed(m, k) + [value]);
  }

  lemma DelKeepsValid(m: Entries, key: bytes)
    requires ValidEntries(m)
    ensures ValidEntries(AfterDel(m, key))
  {
    EraseSorted(m, Normalized(key));
  }

  /** Keys that normalise alike are one key; the others are left alone. */
  lemma AllOfAfterSet(m: Entries, key: bytes, value: bytes, q: bytes)
    ensures AllOf(AfterSet(m, key, value), q) ==
      if Normalized(key) == Normalized(q) != [] then [value] else AllOf(m, q)
  {
    LookupPut(m, Normalized(key), [value], Normalized(q));
  }

  lemma AllOfAfterAppend(m: Entries, key: bytes, value: bytes, q: bytes)
    ensures AllOf(AfterAppend(m, key, value), q) ==
      if Normalized(key) == Normalized(q) != [] then AllOf(m, q) + [value] else AllOf(m, q)
  {
    var k := Normalized(key);
    LookupPut(m, k, Filed(m, k) + [value], Normalized(q));
  }

  lemma AllOfAfterDel(m: Entries, key: bytes, q: bytes)
    requires ValidEntries(m)
    ensures AllOf(AfterDel(m, key), q) == if Normalized(key) == Normalized(q) then [] else AllOf(m, q)
  {
    LookupErase(m, Normalized(key), Normalized(q));
  }

  // ---------------------------------------------------------------- listing and rebuilding

  function PairsOf(key: bytes, values: seq<bytes>): seq<(bytes, bytes)> {
    seq(|values|, i requires 0 <= i < |values| => (key, values[i]))
  }

  /** One pair per value, keys in ascending order, values in the order they were added. */
  function Flat(m: Entries): seq<(bytes, bytes)> {
    if m == [] then [] else PairsOf(m[0].0, m[0].1) + Flat(m[1..])
  }

  /** Appending pairs one by one. */
  function Appended(m: Entries, pairs: seq<(bytes, bytes)>): Entries
    decreases |pairs|
  {
    if pairs == [] then m else Appended(AfterAppend(m, pairs[0].0, pairs[0].1), pairs[1..])
  }

  /** The same for keys that are normal already. */
  function FiledAll(m: Entries, pairs: seq<(bytes, bytes)>): Entries
    decreases |pairs|
  {
    if pairs == [] then m
    else FiledAll(Put(m, pairs[0].0, Filed(m, pairs[0].0) + [pairs[0].1]), pairs[1..])
  }

  lemma {:induction false} AppendedIsFiledAll(m: Entries, pairs: seq<(bytes, bytes)>)
    requires forall p :: p in pairs ==> NormalKey(p.0)
    ensures Appended(m, pairs) == FiledAll(m, pairs)
    decreases |pairs|
  {
    if pairs != [] {
      assert NormalKey(pairs[0].0);
      AppendedIsFiledAll(Put(m, pairs[0].0, Filed(m, pairs[0].0) + [pairs[0].1]), pairs[1..]);
    }
  }

  lemma {:induction false} FiledAllConcat(m: Entries, a: seq<(bytes, bytes)>, b: seq<(bytes, bytes)>)
    ensures FiledAll(m, a + b) == FiledAll(FiledAll(m, a), b)
    decreases |a|
  {
    if a == [] {
      assert a + b == b;
    } else {
      assert (a + b)[1..] == a[1..] + b;
      FiledAllConcat(Put(m, a[0].0, Filed(m, a[0].0) + [a[0].1]), a[1..], b);
    }
  }

  lemma {:induction false} FiledValues(m: Entries, key: bytes, had: seq<bytes>, more: seq<bytes>)
    requires forall i :: 0 <= i < |m| ==> Less(m[i].0, key)
    ensures FiledAll(m + [(key, had)], PairsOf(key, more)) == m + [(key, had + more)]
    decreases |more|
  {
    hide Less;
    var full := m + [(key, had)];
    if more == [] {
      assert had + more == had;
    } else {
      PutReplacesLast(m, key, had, had + [more[0]]);
      assert Filed(full, key) == had;
      assert PairsOf(key, more)[0] == (key, more[0]) && PairsOf(key, more)[1..] == PairsOf(key, more[1..]);
      FiledValues(m, key, had + [more[0]], more[1..]);
      assert had + [more[0]] + more[1..] == had + more;
    }
  }

  lemma FiledKey(m: Entries, key: bytes, values: seq<bytes>)
    requires values != []
    requires forall i :: 0 <= i < |m| ==> Less(m[i].0, key)
    ensures FiledAll(m, PairsOf(key, values)) == m + [(key, values)]
  {
    hide Less;
    hide Put;
    hide Lookup;
    PutLast(m, key, [] + [values[0]]);
    assert [] + [values[0]] == [values[0]];
    assert PairsOf(key, values)[0] == (key, values[0]) && PairsOf(key, values)[1..] == PairsOf(key, values[1..]);
    FiledValues(m, key, [values[0]], values[1..]);
    assert [values[0]] + values[1..] == values;
  }

  lemma {:induction false} FiledFlat(done: Entries, m: Entries)
    requires Sorted(done + m)
    requires forall i :: 0 <= i < |m| ==> m[i].1 != []
    ensures FiledAll(done, Flat(m)) == done + m
    decreases |m|
  {
    hide Less;
    if m == [] {
      assert done + m == done;
    } else {
      var all := done + m;
      var first := m[0];
      assert all[|done|] == first;
      forall i | 0 <= i < |done| ensures Less(done[i].0, first.0) {
        assert all[i] == done[i];
      }
      FiledKey(done, first.0, first.1);
      FiledAllConcat(done, PairsOf(first.0, first.1), Flat(m[1..]));
      assert done + [first] + m[1..] == all;
      FiledFlat(done + [first], m[1..]);
    }
  }

  lemma {:induction false} FlatKeys(m: Entries)
    requires forall i :: 0 <= i < |m| ==> NormalKey(m[i].0)
    ensures forall p :: p in Flat(m) ==> NormalKey(p.0)
  {
    if m != [] {
      FlatKeys(m[1..]);
    }
  }

  /** Listing a multimap and appending the pairs to an empty one rebuilds it. */
  lemma Rebuilt(m: Entries)
    requires ValidEntries(m)
    ensures Appended([], Flat(m)) == m
  {
    assert forall i :: 0 <= i < |m| ==> ValidEntry(m[i]);
    FlatKeys(m);
    AppendedIsFiledAll([], Flat(m));
    assert [] + m == m;
    FiledFlat([], m);
  }

  /** `HTTP::Values`. */
  class Values {
    var entries: Entries

    ghost predicate Valid()
      reads this
    {
      ValidEntries(entries)
    }

    constructor ()
      ensures Valid() && entries == []
    {
      entries := [];
    }

    method Has(key: bytes) returns (r: bool)
      requires Valid()
      ensures r <==> AllOf(entries, key) != []
    {
      var k := ResetCase(key);
      if k == [] {
        return false;
      }
      r := Lookup(entries, k).Some?;
      if r {
        LookupFound(entries, k);
        assert ValidEntry((k, Lookup(entries, k).value));
      }
    }

    method Get(key: bytes) returns (r: bytes)
      ensures r == LastOf(entries, key)
    {
      var k := ResetCase(key);
      if k == [] {
        return [];
      }
      match Lookup(entries, k)
      case None => return [];
      case Some(values) =>
        if |values| == 0 {
          return [];
        }
        return values[|values| - 1];
    }

    method GetAll(key: bytes) returns (r: seq<bytes>)
      ensures r == AllOf(entries, key)
    {
      var k := ResetCase(key);
      if k == [] {
        return [];
      }
      match Lookup(entries, k)
      case None => return [];
      case Some(values) => return values;
    }

    method Set(key: bytes, value: bytes)
      requires Valid()
      modifies this
      ensures Valid() && entries == AfterSet(old(entries), key, value)
    {
      SetKeepsValid(entries, key, value);
      var k := ResetCase(key);
      if k == [] {
        return;
      }
      entries := Put(entries, k, [value]);
    }

    method Append(key: bytes, value: bytes)
      requires Valid()
      modifies this
      ensures Valid() && entries == AfterAppend(old(entries), key, value)
    {
      AppendKeepsValid(entries, key, value);
      var k := ResetCase(key);
      if k == [] {
        return;
      }
      assert [] + [value] == [value];
      match Lookup(entries, k)
      case None => entries := Put(entries, k, [value]);
      case Some(values) => entries := Put(entries, k, values + [value]);
    }

    method Del(key: bytes)
      requires Valid()
      modifies this
      ensures Valid() && entries == AfterDel(old(entries), key)
    {
      DelKeepsValid(entries, key);
      var k := ResetCase(key);
      if k == [] {
        return;
      }
      entries := Erase(entries, k);
    }

    /** `entries()`. */
    method List() returns (r: seq<(bytes, bytes)>)
      ensures r == Flat(entries)
    {
      r := ListEntries(entries);
    }
  }

  lemma {:induction false} LookupFound<V>(m: seq<(bytes, V)>, k: bytes)
    requires Lookup(m, k).Some?
    ensures exists i :: 0 <= i < |m| && m[i] == (k, Lookup(m, k).value)
  {
    if m[0].0 == k {
      assert m[0] == (k, m[0].1);
    } else {
      LookupFound(m[1..], k);
      var i :| 0 <= i < |m[1..]| && m[1..][i] == (k, Lookup(m[1..], k).value);
      assert m[i + 1] == (k, Lookup(m, k).value);
    }
  }

  lemma {:induction false} FlatStep(m: Entries, n: nat)
    requires n < |m|
    ensures Flat(m[..n + 1]) == Flat(m[..n]) + PairsOf(m[n].0, m[n].1)
    decreases n
  {
    if n > 0 {
      assert m[..n + 1][1..] == m[1..][..n] && m[..n][1..] == m[1..][..n - 1];
      FlatStep(m[1..], n - 1);
    } else {
      assert m[..1][1..] == [] && m[..0] == [];
      assert Flat(m[..1]) == PairsOf(m[0].0, m[0].1) + [];
    }
  }

  method ListEntries(m: Entries) returns (r: seq<(bytes, bytes)>)
    ensures r == Flat(m)
  {
    r := [];
    for i := 0 to |m|
      invariant r == Flat(m[..i])
    {
      var (key, values) := m[i];
      for j := 0 to |values|
        invariant r == Flat(m[..i]) + PairsOf(key, values)[..j]
      {
        r := r + [(key, values[j])];
      }
      FlatStep(m, i);
      assert PairsOf(key, values)[..|values|] == PairsOf(key, values);
    }
    assert m[..|m|] == m;
  }
}
