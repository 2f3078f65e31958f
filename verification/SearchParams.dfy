/** Query strings: parsing into and printing from the normalising multimap. */
module SearchParams {
  import opened Bytes
  import opened OrderedMap
  import opened Values
  import opened UrlEncode

  /** One `key=value` token of a query. Tokens without a key or without a value are ignored; None
      where decoding throws. */
  function WithToken(m: Entries, token: bytes): Option<Entries> {
    var split := IndexOf(token, '=');
    if split == 0 || split + 1 >= |token| then Some(m)
    else match (Decoded(token[..split]), Decoded(token[split + 1..]))
      case (Some(key), Some(value)) => Some(AfterAppend(m, key, value))
      case _ => None
  }

  function WithTokens(m: Entries, tokens: seq<bytes>): Option<Entries>
    decreases |tokens|
  {
    if tokens == [] then Some(m)
    else match WithToken(m, tokens[0])
      case Some(m') => WithTokens(m', tokens[1..])
      case None => None
  }

  /** What the constructor makes of a query. */
  function ParamsOf(params: bytes): Option<Entries> {
    WithTokens([], Split(params, '&'))
  }

  function PairText(p: (bytes, bytes)): bytes {
    Encoded(p.0) + "=" + Encoded(p.1)
  }

  function PairTexts(pairs: seq<(bytes, bytes)>): (r: seq<bytes>)
    ensures |r| == |pairs|
    ensures forall i :: 0 <= i < |pairs| ==> r[i] == PairText(pairs[i])
  {
    seq(|pairs|, i requires 0 <= i < |pairs| => PairText(pairs[i]))
  }

  /** What `to_string` prints. */
  function Printed(m: Entries): bytes {
    Join(PairTexts(Flat(m)), '&')
  }

  /** A key and a value with a `=` between them are decoded and filed; decoding either may throw. */
  lemma TokenFiled(m: Entries, key: bytes, value: bytes)
    requires key != [] && value != [] && '=' !in key
    ensures WithToken(m, key + "=" + value) ==
      if Decoded(key).None? || Decoded(value).None? then None
      else Some(AfterAppend(m, Decoded(key).value, Decoded(value).value))
  {
    hide AfterAppend;
    hide UrlEncode.Decoded;
    var token := key + "=" + value;
    IndexOfIs(token, '=', 0, |key|);
    assert token[..|key|] == key && token[|key| + 1..] == value;
  }

  /** A token without a `=`, or with nothing before or behind it, is passed over, escapes and all. */
  lemma TokenIgnored(m: Entries, token: bytes)
    requires '=' !in token || token[0] == '=' || '=' !in token[..|token| - 1]
    ensures WithToken(m, token) == Some(m)
  {
    if '=' !in token {
      IndexOfIs(token, '=', 0, |token|);
    } else if token[0] == '=' {
      IndexOfIs(token, '=', 0, 0);
    } else {
      forall i | 0 <= i < |token| - 1 ensures token[i] != '=' {
        assert token[i] == token[..|token| - 1][i];
      }
    }
  }

  /** The tokens of a query stand between ampersands and are filed in order. */
  lemma QueryReads(m: Entries, token: bytes, rest: bytes)
    requires '&' !in token
    ensures WithTokens(m, Split(token, '&')) == WithToken(m, token)
    ensures WithTokens(m, Split(token + "&" + rest, '&')) ==
      if WithToken(m, token).None? then None else WithTokens(WithToken(m, token).value, Split(rest, '&'))
    ensures m == [] ==> ParamsOf(token) == WithToken(m, token)
    ensures m == [] ==> ParamsOf(token + "&" + rest) == WithTokens(m, Split(token + "&" + rest, '&'))
  {
    hide WithToken;
    hide Split;
    var all := token + "&" + rest;
    SplitNone(token, '&');
    SplitAt(all, '&', |token|);
    assert all[..|token|] == token && all[|token| + 1..] == rest;
    WithTokensStep(m, token, Split(rest, '&'));
    WithTokensStep(m, token, []);
    assert [token] + [] == [token];
    NoTokens();
  }

  lemma NoTokens()
    ensures forall m :: WithTokens(m, []) == Some(m)
  {
  }

  method ParseToken(values: Values, params: bytes, tokenStart: nat, tokenEnd: nat) returns (ok: bool)
    requires tokenStart <= tokenEnd <= |params| && values.Valid()
    modifies values
    ensures values.Valid()
    ensures ok <==> WithToken(old(values.entries), params[tokenStart..tokenEnd]).Some?
    ensures ok ==> WithToken(old(values.entries), params[tokenStart..tokenEnd]) == Some(values.entries)
  {
    hide ValidEntries;
    hide AfterAppend;
    hide UrlEncode.Decoded;
    var found := FindChar(params, '=', tokenStart, tokenEnd);
    var tokenSplit := if found.Some? then found.value else tokenEnd;
    ghost var token := params[tokenStart..tokenEnd];
    IndexOfIs(token, '=', 0, tokenSplit - tokenStart);
    if tokenSplit == tokenStart || tokenSplit >= tokenEnd - 1 {
      return true;
    }
    assert token[..tokenSplit - tokenStart] == params[tokenStart..tokenSplit];
    assert token[tokenSplit - tokenStart + 1..] == params[tokenSplit + 1..tokenEnd];
    var key := DecodeUriComponent(params[tokenStart..tokenSplit]);
    var value := DecodeUriComponent(params[tokenSplit + 1..tokenEnd]);
    if key.None? || value.None? {
      return false;
    }
    values.Append(key.value, value.value);
    return true;
  }

  lemma SplitAt(s: bytes, sep: byte, i: nat)
    requires i < |s| && s[i] == sep && forall j :: 0 <= j < i ==> s[j] != sep
    ensures Split(s, sep) == [s[..i]] + Split(s[i + 1..], sep)
  {
    IndexOfIs(s, sep, 0, i);
  }

  lemma SplitNone(s: bytes, sep: byte)
    requires forall j :: 0 <= j < |s| ==> s[j] != sep
    ensures Split(s, sep) == [s]
  {
    IndexOfIs(s, sep, 0, |s|);
  }

  lemma WithTokensStep(m: Entries, first: bytes, rest: seq<bytes>)
    ensures WithTokens(m, [first] + rest) ==
      match WithToken(m, first) { case Some(m') => WithTokens(m', rest) case None => None }
  {
    assert ([first] + rest)[1..] == rest;
  }

  /** `URLSearchParams(params)`; false where it throws. */
  method FromString(params: bytes) returns (ok: bool, values: Values)
    ensures fresh(values) && values.Valid()
    ensures ok <==> ParamsOf(params).Some?
    ensures ok ==> values.entries == ParamsOf(params).value
  {
    hide ValidEntries;
    hide WithToken;
    hide WithTokens;
    hide Split;
    values := new Values();
    var pairStart := 0;
    var idx := 0;
    SplitNone([], '&');
    WithTokensNone([], []);
    while idx < |params|
      invariant pairStart <= idx <= |params| && (idx < |params| || pairStart == |params|)
      invariant fresh(values) && values.Valid()
      invariant forall j :: pairStart <= j < idx ==> params[j] != '&'
      invariant WithTokens(values.entries, Split(params[pairStart..], '&')) == ParamsOf(params)
      decreases |params| - idx
    {
      ghost var rest := params[pairStart..];
      if params[idx] == '&' {
        SplitAt(rest, '&', idx - pairStart);
        assert rest[..idx - pairStart] == params[pairStart..idx] && rest[idx - pairStart + 1..] == params[idx + 1..];
        WithTokensStep(values.entries, params[pairStart..idx], Split(params[idx + 1..], '&'));
        ok := ParseToken(values, params, pairStart, idx);
        if !ok {
          return;
        }
        pairStart := idx + 1;
      } else if idx == |params| - 1 {
        SplitNone(rest, '&');
        assert rest == params[pairStart..|params|];
        WithTokensStep(values.entries, rest, []);
        assert [rest] + [] == [rest];
        ok := ParseToken(values, params, pairStart, |params|);
        if ok {
          WithTokensNone(values.entries, []);
        }
        return;
      }
      idx := idx + 1;
    }
    assert params[pairStart..] == [];
    WithTokensStep(values.entries, [], []);
    var none: seq<bytes> := [];
    assert [[]] + none == [[]];
    WithTokensNone(values.entries, []);
    return true, values;
  }

  lemma WithTokensNone(m: Entries, token: bytes)
    requires token == []
    ensures WithTokens(m, []) == Some(m) && WithToken(m, token) == Some(m)
  {
  }

  lemma {:induction false} JoinSnoc(pieces: seq<bytes>, last: bytes, sep: byte)
    ensures Join(pieces + [last], sep) == if pieces == [] then last else Join(pieces, sep) + [sep] + last
    decreases |pieces|
  {
    if |pieces| >= 1 {
      assert (pieces + [last])[1..] == pieces[1..] + [last];
      JoinSnoc(pieces[1..], last, sep);
    }
  }

  lemma JoinNonempty(pieces: seq<bytes>, sep: byte)
    requires forall p :: p in pieces ==> p != []
    ensures Join(pieces, sep) == [] <==> pieces == []
  {
    if pieces != [] {
      assert pieces[0] in pieces;
    }
  }

  method ToString(values: Values) returns (search: bytes)
    ensures search == Printed(values.entries)
  {
    hide PairText;
    hide Join;
    hide PairTexts;
    var pairs := values.List();
    search := [];
    JoinNothing();
    for i := 0 to |pairs|
      invariant search == Join(PairTexts(pairs[..i]), '&')
    {
      PairTextsSnoc(pairs, i);
      if search != [] {
        search := search + ['&'];
      }
      var text := PrintPair(pairs[i]);
      search := search + text;
    }
    assert pairs[..|pairs|] == pairs;
  }

  lemma JoinNothing()
    ensures Join(PairTexts([]), '&') == []
  {
  }

  lemma PairTextsSnoc(pairs: seq<(bytes, bytes)>, i: nat)
    requires i < |pairs|
    ensures var search := Join(PairTexts(pairs[..i]), '&');
      Join(PairTexts(pairs[..i + 1]), '&') == (if search == [] then search else search + ['&']) + PairText(pairs[i])
  {
    hide PairText;
    var texts := PairTexts(pairs[..i]);
    PairTextsNonempty(pairs[..i]);
    JoinNonempty(texts, '&');
    assert PairTexts(pairs[..i + 1]) == texts + [PairText(pairs[i])];
    JoinSnoc(texts, PairText(pairs[i]), '&');
    assert [] + PairText(pairs[i]) == PairText(pairs[i]);
  }

  method PrintPair(p: (bytes, bytes)) returns (text: bytes)
    ensures text == PairText(p)
  {
    text := EncodeUriComponent(p.0);
    text := text + ['='];
    var value := EncodeUriComponent(p.1);
    text := text + value;
  }

  lemma PairTextsNonempty(pairs: seq<(bytes, bytes)>)
    ensures forall t :: t in PairTexts(pairs) ==> t != []
  {
  }

  // ---------------------------------------------------------------- the round trip

  /** The pairs that survive: those with a value. */
  function Valued(pairs: seq<(bytes, bytes)>): seq<(bytes, bytes)> {
    if pairs == [] then []
    else (if pairs[0].1 == [] then [] else [pairs[0]]) + Valued(pairs[1..])
  }

  lemma TokenRoundTrip(m: Entries, p: (bytes, bytes))
    requires p.0 != []
    ensures WithToken(m, PairText(p)) == Some(if p.1 == [] then m else AfterAppend(m, p.0, p.1))
  {
    hide AfterAppend;
    hide Encoded;
    hide UrlEncode.Decoded;
    var key, value := Encoded(p.0), Encoded(p.1);
    assert key != [] && (p.1 != [] ==> value != []) && (p.1 == [] ==> value == []) by {
      EncodedEmpty(p.0);
      EncodedEmpty(p.1);
    }
    var text := PairText(p);
    EncodedIsPlain(p.0);
    forall j | 0 <= j < |key| ensures text[j] != '=' {
      assert text[j] == key[j] && key[j] in key;
    }
    IndexOfIs(text, '=', 0, |key|);
    assert text[..|key|] == key && text[|key| + 1..] == value;
    DecodedEncoded(p.0);
    DecodedEncoded(p.1);
  }

  lemma EncodedEmpty(s: bytes)
    ensures Encoded(s) == [] <==> s == []
  {
  }

  lemma {:induction false} TokensRoundTrip(m: Entries, pairs: seq<(bytes, bytes)>)
    requires forall p :: p in pairs ==> p.0 != []
    ensures WithTokens(m, PairTexts(pairs)) == Some(Appended(m, Valued(pairs)))
    decreases |pairs|
  {
    hide AfterAppend;
    hide PairText;
    hide WithToken;
    if pairs != [] {
      var p := pairs[0];
      var after := if p.1 == [] then m else AfterAppend(m, p.0, p.1);
      TokenRoundTrip(m, p);
      var texts := PairTexts(pairs);
      assert texts[0] == PairText(p) && texts[1..] == PairTexts(pairs[1..]);
      TokensRoundTrip(after, pairs[1..]);
      assert p.1 == [] ==> Valued(pairs) == Valued(pairs[1..]);
      assert p.1 != [] ==> Valued(pairs)[0] == p && Valued(pairs)[1..] == Valued(pairs[1..]);
    }
  }

  lemma {:induction false} ValuedCount(pairs: seq<(bytes, bytes)>)
    ensures |Valued(pairs)| <= |pairs|
    ensures |Valued(pairs)| == |pairs| ==> Valued(pairs) == pairs
    ensures |Valued(pairs)| == |pairs| <==> forall p :: p in pairs ==> p.1 != []
  {
    if pairs != [] {
      ValuedCount(pairs[1..]);
      assert [pairs[0]] + pairs[1..] == pairs;
    }
  }

  ghost predicate NoEmptyValue(m: Entries) {
    forall i :: 0 <= i < |m| ==> [] !in m[i].1
  }

  lemma {:induction false} NoEmptyPair(m: Entries)
    ensures NoEmptyValue(m) <==> forall p :: p in Flat(m) ==> p.1 != []
  {
    if m != [] {
      NoEmptyPair(m[1..]);
      var here := PairsOf(m[0].0, m[0].1);
      assert Flat(m) == here + Flat(m[1..]);
      assert forall i :: 0 <= i < |here| ==> here[i] in Flat(m);
      assert forall i :: 0 < i < |m| ==> m[i] == m[1..][i - 1];
      if [] in m[0].1 {
        var i :| 0 <= i < |m[0].1| && m[0].1[i] == [];
        assert here[i] in Flat(m) && here[i].1 == [];
      }
    }
  }

  /** Filing one value makes the listing one pair longer. */
  lemma {:induction false} FlatCount(m: Entries, key: bytes, value: bytes)
    requires Sorted(m)
    ensures |Flat(Put(m, key, Filed(m, key) + [value]))| == |Flat(m)| + 1
  {
    hide Less;
    if m == [] {
      assert Flat([(key, [value])]) == PairsOf(key, [value]) + [];
    } else if m[0].0 == key {
      assert ([(key, m[0].1 + [value])] + m[1..])[1..] == m[1..];
    } else if Less(key, m[0].0) {
      NotAbove(m, key);
      assert ([(key, [value])] + m)[1..] == m;
    } else {
      FlatCount(m[1..], key, value);
      var more := Put(m[1..], key, Filed(m, key) + [value]);
      assert ([m[0]] + more)[1..] == more;
    }
  }

  /** A key below the first key is absent. */
  lemma NotAbove(m: Entries, key: bytes)
    requires Sorted(m) && m != [] && Less(key, m[0].0)
    ensures Lookup(m, key) == None
  {
    forall i | 0 <= i < |m| ensures Less(key, m[i].0) {
      if i > 0 {
        LessTransitive(key, m[0].0, m[i].0);
      }
    }
    NotBefore(m, key);
  }

  lemma {:induction false} FiledCount(m: Entries, pairs: seq<(bytes, bytes)>)
    requires Sorted(m)
    ensures |Flat(FiledAll(m, pairs))| == |Flat(m)| + |pairs|
    decreases |pairs|
  {
    hide Less;
    hide Put;
    if pairs != [] {
      var next := Filed(m, pairs[0].0) + [pairs[0].1];
      FlatCount(m, pairs[0].0, pairs[0].1);
      PutSorted(m, pairs[0].0, next);
      FiledCount(Put(m, pairs[0].0, next), pairs[1..]);
    }
  }

  lemma {:induction false} ValuedAmong(pairs: seq<(bytes, bytes)>)
    ensures forall p :: p in Valued(pairs) ==> p in pairs
  {
    if pairs != [] {
      ValuedAmong(pairs[1..]);
    }
  }

  /** Parsing printed parameters keeps exactly the pairs that have a value. */
  lemma ParamsOfPrinted(m: Entries)
    requires ValidEntries(m)
    ensures ParamsOf(Printed(m)) == Some(FiledAll([], Valued(Flat(m))))
  {
    hide PairText;
    var pairs := Flat(m);
    assert forall i :: 0 <= i < |m| ==> ValidEntry(m[i]);
    FlatKeys(m);
    var texts := PairTexts(pairs);
    ValuedAmong(pairs);
    AppendedIsFiledAll([], Valued(pairs));
    if pairs == [] {
      SplitNone([], '&');
      WithTokensStep([], [], []);
      var none: seq<bytes> := [];
      assert [[]] + none == [[]];
      WithTokensNone([], []);
    } else {
      forall i | 0 <= i < |texts| ensures '&' !in texts[i] {
        PairTextPlain(pairs[i]);
      }
      SplitJoin(texts, '&');
      TokensRoundTrip([], pairs);
    }
  }

  lemma PairTextPlain(p: (bytes, bytes))
    ensures forall c :: c in PairText(p) ==> c != '&' && c != '#' && c != '?' && c != '/'
  {
    EncodedIsPlain(p.0);
    EncodedIsPlain(p.1);
  }

  /** For every multimap the operations can reach, printing and parsing is lossless exactly when
      no value is empty. */
  lemma ParamsRoundTripIff(m: Entries)
    requires ValidEntries(m)
    ensures ParamsOf(Printed(m)) == Some(m) <==> NoEmptyValue(m)
  {
    hide ValidEntry;
    hide Printed;
    hide ParamsOf;
    var pairs := Flat(m);
    ParamsOfPrinted(m);
    NoEmptyPair(m);
    ValuedCount(pairs);
    FiledCount([], Valued(pairs));
    RebuiltFiled(m);
  }

  lemma RebuiltFiled(m: Entries)
    requires ValidEntries(m)
    ensures FiledAll([], Flat(m)) == m
  {
    assert forall i :: 0 <= i < |m| ==> ValidEntry(m[i]);
    FlatKeys(m);
    AppendedIsFiledAll([], Flat(m));
    Rebuilt(m);
  }
}
