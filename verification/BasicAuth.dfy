/** The credentials of a basic authentication header. */
module BasicAuth {
  import opened Bytes
  import opened Values
  import Base64
  import opened Url

  /** Where the token starts: the first character after `from` that is not a space. */
  function TokenStart(header: bytes, from: nat): (r: nat)
    requires from <= |header|
    ensures from <= r <= |header|
    ensures r < |header| ==> header[r] != ' '
    ensures forall i :: from <= i < r ==> header[i] == ' '
    decreases |header| - from
  {
    if from == |header| || header[from] != ' ' then from else TokenStart(header, from + 1)
  }

  /** A user and a password, as they stand in the decoded token. */
  function PairOf(pair: bytes): Option<Credentials> {
    var split := IndexOf(pair, ':');
    if split == |pair| || split == 0 then None else Some(Credentials(pair[..split], pair[split + 1..]))
  }

  /** What a token stands for; Err where decoding it goes outside its buffers. */
  function TokenCredentials(token: bytes): Result<Option<Credentials>, ()> {
    if !Base64.IsValid(token) then Ok(None)
    else match Base64.Decoded(token)
      case None => Err(())
      case Some(pair) => Ok(PairOf(pair))
  }

  /** What `parse_basic_auth` makes of a header. */
  function AuthOf(header: bytes): Result<Option<Credentials>, ()> {
    var schemeEnd := IndexOf(header, ' ');
    var tokenBegin := TokenStart(header, schemeEnd);
    if tokenBegin == |header| || Lowered(header[..schemeEnd]) != "basic" then Ok(None)
    else TokenCredentials(header[tokenBegin..])
  }

  method ParseBasicAuth(header: bytes) returns (r: Result<Option<Credentials>, ()>)
    ensures r == AuthOf(header)
  {
    if |header| == 0 {
      return Ok(None);
    }
    var schemeEnd, tokenBegin: Option<nat> := None, None;
    var idx := 0;
    while idx < |header|
      invariant idx <= |header|
      invariant schemeEnd.None? ==> IndexOf(header, ' ') == IndexOf(header, ' ', idx)
      invariant schemeEnd.Some? ==> schemeEnd.value == IndexOf(header, ' ') < idx
      invariant schemeEnd.Some? ==> TokenStart(header, schemeEnd.value) == TokenStart(header, idx)
    {
      var runeIsSpace := header[idx] == ' ';
      if runeIsSpace && schemeEnd.None? {
        schemeEnd := Some(idx);
      } else if !runeIsSpace && schemeEnd.Some? {
        tokenBegin := Some(idx);
        break;
      }
      idx := idx + 1;
    }
    if schemeEnd.None? || tokenBegin.None? {
      return Ok(None);
    }
    var scheme := LowerAll(header[..schemeEnd.value]);
    if scheme != "basic" {
      return Ok(None);
    }
    r := ReadToken(header[tokenBegin.value..]);
  }

  method LowerAll(text: bytes) returns (r: bytes)
    ensures r == Lowered(text)
  {
    r := text;
    for i := 0 to |r|
      invariant |r| == |text|
      invariant forall j :: 0 <= j < |r| ==> r[j] == if j < i then Lower(text[j]) else text[j]
    {
      if 'A' <= r[i] <= 'Z' {
        r := r[i := (r[i] as int + 0x20) as char];
      }
    }
    assert r == Lowered(text);
  }

  method ReadToken(token: bytes) returns (r: Result<Option<Credentials>, ()>)
    ensures r == TokenCredentials(token)
  {
    hide Base64.Decoded;
    var valid := Base64.Valid(token);
    if !valid {
      return Ok(None);
    }
    var decoded := Base64.Decode(token);
    if decoded.None? {
      return Err(());
    }
    var pair := decoded.value;
    var split := FindChar(pair, ':', 0, |pair|);
    if split.None? || split.value == 0 {
      if split.None? {
        IndexOfIs(pair, ':', 0, |pair|);
      } else {
        IndexOfIs(pair, ':', 0, 0);
      }
      return Ok(None);
    }
    IndexOfIs(pair, ':', 0, split.value);
    return Ok(Some(Credentials(pair[..split.value], pair[split.value + 1..])));
  }

  /** The header a client sends for a user and a password. */
  function HeaderFor(user: bytes, password: bytes): bytes {
    "Basic " + Base64.Encoded(user + ":" + password)
  }

  /** The scheme is `basic` in letters of either case, and any number of spaces stands between it and the token. */
  lemma AuthReads(scheme: bytes, gap: bytes, token: bytes)
    requires ' ' !in scheme && gap != [] && (forall c :: c in gap ==> c == ' ') && token != [] && token[0] != ' '
    ensures AuthOf(scheme + gap + token) == if Lowered(scheme) == "basic" then TokenCredentials(token) else Ok(None)
  {
    hide TokenCredentials;
    hide Lowered;
    var header := scheme + gap + token;
    var end := |scheme| + |gap|;
    assert header[|scheme|] == gap[0] && gap[0] in gap;
    IndexOfIs(header, ' ', 0, |scheme|);
    forall i | |scheme| <= i < end ensures header[i] == ' ' {
      assert header[i] == gap[i - |scheme|] && gap[i - |scheme|] in gap;
    }
    TokenStartIs(header, |scheme|, end);
    assert header[..|scheme|] == scheme && header[end..] == token;
  }

  lemma {:induction false} TokenStartIs(header: bytes, from: nat, i: nat)
    requires from <= i < |header| && header[i] != ' ' && forall j :: from <= j < i ==> header[j] == ' '
    ensures TokenStart(header, from) == i
    decreases i - from
  {
    if from < i {
      TokenStartIs(header, from + 1, i);
    }
  }

  /** A header without anything behind its first space holds no credentials. */
  lemma NoToken(scheme: bytes, gap: bytes)
    requires ' ' !in scheme && forall c :: c in gap ==> c == ' '
    ensures AuthOf(scheme + gap) == Ok(None)
  {
    var header := scheme + gap;
    forall i | |scheme| <= i < |header| ensures header[i] == ' ' {
      assert header[i] == gap[i - |scheme|] && gap[i - |scheme|] in gap;
    }
    assert forall i :: 0 <= i < |scheme| ==> header[i] == scheme[i];
  }

  lemma SchemeIsBasic(token: bytes)
    requires token != [] && token[0] != ' '
    ensures var header := "Basic " + token;
      IndexOf(header, ' ') == 5 && TokenStart(header, 5) == 6 && header[6..] == token &&
      Lowered(header[..5]) == "basic"
  {
    var header := "Basic " + token;
    assert header[5] == ' ' && header[6] == token[0];
    IndexOfIs(header, ' ', 0, 5);
    assert TokenStart(header, 6) == 6;
    assert header[..5] == "Basic";
    assert Lowered("Basic") == "basic";
  }

  /** A header gives back the user and the password it was made of exactly when there is a user and
      its name has no colon. */
  lemma BasicAuthRoundTripIff(user: bytes, password: bytes)
    ensures AuthOf(HeaderFor(user, password)) == Ok(Some(Credentials(user, password))) <==>
            user != [] && ':' !in user
  {
    hide Base64.Encoded;
    hide Base64.Decoded;
    var pair := user + ":" + password;
    var token := Base64.Encoded(pair);
    Base64.EncodedLength(pair);
    Base64.EncodedValid(pair);
    Base64.Base64RoundTripIff(pair);
    assert token[0] in token;
    SchemeIsBasic(token);
    assert pair[|user|] == ':';
    if ':' !in user {
      forall j | 0 <= j < |user| ensures pair[j] != ':' {
        assert pair[j] == user[j];
      }
      IndexOfIs(pair, ':', 0, |user|);
      assert pair[..|user|] == user && pair[|user| + 1..] == password;
    }
    assert Base64.IsValid(token);
  }

  /** Decoding goes outside its buffers exactly for a valid token that leaves two or three symbols over. */
  lemma AuthUndefinedIff(header: bytes)
    ensures var schemeEnd := IndexOf(header, ' ');
      var tokenBegin := TokenStart(header, schemeEnd);
      var token := header[tokenBegin..];
      AuthOf(header).Err? <==>
        token != [] && Lowered(header[..schemeEnd]) == "basic" && Base64.IsValid(token) && |token| % 4 >= 2
  {
    hide Base64.IsValid;
    hide Base64.Triples;
    hide Base64.Value;
    hide Lowered;
  }
}
