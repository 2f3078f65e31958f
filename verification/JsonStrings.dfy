/** Exactly which strings survive printing and parsing. */
module JsonStrings {
  import opened Bytes
  import opened JsonStringify
  import opened JsonParse

  function Count(s: bytes, c: byte): nat {
    if s == [] then 0 else (if s[0] == c then 1 else 0) + Count(s[1..], c)
  }

  /** An escape character comes back as a carriage return. */
  function Returned(s: bytes): (r: bytes)
    ensures |r| == |s|
  {
    seq(|s|, i requires 0 <= i < |s| => if s[i] == ESC then '\r' else s[i])
  }

  lemma ReturnedSameIff(s: bytes)
    ensures Returned(s) == s <==> ESC !in s
  {
    if ESC in s {
      var i :| 0 <= i < |s| && s[i] == ESC;
      assert Returned(s)[i] == '\r';
    }
  }

  lemma {:induction false} UnescapedEscaped(s: bytes)
    requires '\"' !in s && '\\' !in s
    ensures Unescaped(Escaped(s)) == Ok(Returned(s))
    decreases |s|
  {
    hide RuneText;
    hide Unescaped;
    if s == [] {
      NothingUnescaped();
    } else {
      UnescapedEscaped(s[1..]);
      UnescapedRune(s[0], Escaped(s[1..]));
      assert Returned(s) == [if s[0] == ESC then '\r' else s[0]] + Returned(s[1..]);
    }
  }

  lemma NothingUnescaped()
    ensures Unescaped([]) == Ok([])
  {
  }

  lemma UnescapedRune(rune: byte, rest: bytes)
    requires rune != '\"' && rune != '\\'
    ensures Unescaped(RuneText(rune) + rest) == Prepended(if rune == ESC then '\r' else rune, Unescaped(rest))
  {
    var t := RuneText(rune) + rest;
    if |RuneText(rune)| == 3 {
      assert t[3..] == rest;
    } else {
      assert t[1..] == rest;
    }
  }

  lemma {:induction false} EscapedUnquoted(s: bytes)
    requires '\"' !in s
    ensures '\"' !in Escaped(s)
    decreases |s|
  {
    if s != [] {
      EscapedUnquoted(s[1..]);
    }
  }

  /** Text as the printer leaves it: what it escapes is never left as it is. */
  ghost predicate Printable(c: bytes) {
    '\n' !in c && '\t' !in c && ESC !in c
  }

  ghost predicate QuotesFollow(c: bytes) {
    forall i :: 0 < i < |c| && c[i] == '\"' ==> c[i - 1] == '\\'
  }

  function Extra(c: bytes): nat {
    if c != [] && c[0] == '\"' then 1 else 0
  }

  lemma {:induction false} EscapedPrintable(s: bytes)
    ensures Printable(Escaped(s))
  {
    if s != [] {
      EscapedPrintable(s[1..]);
    }
  }

  lemma {:induction false} EscapedConcat(x: bytes, y: bytes)
    ensures Escaped(x + y) == Escaped(x) + Escaped(y)
    decreases |x|
  {
    if x == [] {
      assert x + y == y;
    } else {
      hide RuneText;
      assert (x + y)[1..] == x[1..] + y;
      EscapedConcat(x[1..], y);
    }
  }

  lemma EscapedFirst(c: byte, rest: bytes)
    ensures Escaped([c] + rest) == RuneText(c) + Escaped(rest)
    ensures Count([c] + rest, '\\') == (if c == '\\' then 1 else 0) + Count(rest, '\\')
  {
    assert ([c] + rest)[1..] == rest;
  }

  /** What resolving escapes costs: printing the result again would not be longer than the content,
      and a backslash takes one character more than it is printed with. */
  lemma {:induction false} UnescapedCost(c: bytes)
    requires Printable(c) && QuotesFollow(c) && Unescaped(c).Ok?
    ensures |c| + Extra(c) >= |Escaped(Unescaped(c).value)| + Count(Unescaped(c).value, '\\')
    ensures ESC !in Unescaped(c).value
    decreases |c|
  {
    if c == [] {
    } else if c[0] != '\\' {
      UnescapedCost(c[1..]);
      EscapedFirst(c[0], Unescaped(c[1..]).value);
    } else if |c| > 2 {
      UnescapedCost(c[3..]);
      EscapedFirst(EscapeOf(c[2]).value, Unescaped(c[3..]).value);
    } else {
      EscapedFirst('\"', []);
      assert "\"" + [] == "\"";
    }
  }

  lemma {:induction false} CountNone(s: bytes, c: byte)
    requires Count(s, c) == 0
    ensures c !in s
  {
    if s != [] {
      CountNone(s[1..], c);
    }
  }

  lemma EscapedLast(s: bytes)
    requires s != [] && '\\' !in s
    ensures Escaped(s) != [] && Escaped(s)[|Escaped(s)| - 1] != '\\'
  {
    var n := |s| - 1;
    assert s == s[..n] + [s[n]];
    EscapedConcat(s[..n], [s[n]]);
    EscapedFirst(s[n], []);
    assert [s[n]] + [] == [s[n]];
  }

  lemma BareAfter(front: bytes, rest: bytes)
    requires front == [] || front[|front| - 1] != '\\'
    ensures HasBareQuote(front + ("\\\"" + rest))
  {
    var content := front + ("\\\"" + rest);
    var p := |front| + 1;
    assert content[p] == '\"';
    if front != [] {
      assert content[p - 2] == front[|front| - 1];
    }
    assert BareQuote(content, p);
  }

  /** A printed quote is one the parser refuses. */
  lemma QuoteRefused(s: bytes)
    requires '\"' in s && '\\' !in s
    ensures HasBareQuote(Escaped(s))
  {
    hide Escaped;
    hide HasBareQuote;
    var i :| 0 <= i < |s| && s[i] == '\"';
    var front, rest := Escaped(s[..i]), Escaped(s[i + 1..]);
    assert s == s[..i] + ([s[i]] + s[i + 1..]);
    EscapedConcat(s[..i], [s[i]] + s[i + 1..]);
    EscapedFirst(s[i], s[i + 1..]);
    if i > 0 {
      EscapedLast(s[..i]);
    } else {
      assert s[..i] == [] && Escaped([]) == [] by {
        EscapedEnds([]);
      }
    }
    BareAfter(front, rest);
  }

  lemma NoBareQuote(c: bytes)
    requires !HasBareQuote(c)
    ensures QuotesFollow(c) && Extra(c) == 0
  {
    forall i | 0 <= i < |c| && c[i] == '\"' ensures i >= 3 && c[i - 1] == '\\' {
      assert !BareQuote(c, i);
    }
  }

  /** Without quotes, resolving the escapes that were printed gives a text back exactly when it has
      no backslash and no escape character. */
  lemma UnescapedIff(s: bytes)
    requires '\"' !in s
    ensures Unescaped(Escaped(s)) == Ok(s) <==> '\\' !in s && ESC !in s
  {
    hide Escaped;
    hide Unescaped;
    if '\\' !in s {
      UnescapedEscaped(s);
      ReturnedSameIff(s);
    } else if Unescaped(Escaped(s)) == Ok(s) {
      EscapedUnquoted(s);
      EscapedPrintable(s);
      UnescapedCost(Escaped(s));
      CountNone(s, '\\');
      assert false;
    }
  }

  lemma ParseQuoted(s: bytes)
    ensures Parse(Text(Str(s))) ==
      if |Text(Str(s))| > UINT32_MAX then Err(TooLarge)
      else if HasBareQuote(Escaped(s)) then Err(UnescapedQuote)
      else Quoted(Unescaped(Escaped(s)))
  {
    hide Escaped;
    hide Unescaped;
    hide HasBareQuote;
    var data := Text(Str(s));
    assert data == "\"" + Escaped(s) + "\"";
    InkedAll(data, 0, |data|);
    assert data[1..|data| - 1] == Escaped(s);
  }

  /** A string comes back as it was exactly when it has no quote, backslash or escape character. */
  lemma StringRoundTripIff(s: bytes)
    ensures Parse(Text(Str(s))) == Ok(Str(s)) <==>
            '\"' !in s && '\\' !in s && ESC !in s && |Text(Str(s))| <= UINT32_MAX
  {
    ParseQuoted(s);
    hide Escaped;
    hide Unescaped;
    hide HasBareQuote;
    if '\"' !in s {
      EscapedUnquoted(s);
      PlainHasNoBareQuote(Escaped(s));
      UnescapedIff(s);
    } else if Parse(Text(Str(s))) == Ok(Str(s)) {
      NoBareQuote(Escaped(s));
      EscapedPrintable(s);
      UnescapedCost(Escaped(s));
      CountNone(s, '\\');
      QuoteRefused(s);
      assert false;
    }
  }

  lemma PlainHasNoBareQuote(c: bytes)
    requires '\"' !in c
    ensures !HasBareQuote(c)
  {
  }
}
