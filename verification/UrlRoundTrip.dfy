/** Exactly which URLs survive printing and parsing, and what credentials do to a host. */
module UrlRoundTrip {
  import opened Bytes
  import opened Values
  import opened UrlEncode
  import opened SearchParams
  import opened Url

  // ---------------------------------------------------------------- path, query and fragment

  lemma {:induction false} JoinPlain(pieces: seq<bytes>, c: byte)
    requires c != '&' && forall i :: 0 <= i < |pieces| ==> c !in pieces[i]
    ensures c !in Join(pieces, '&')
    decreases |pieces|
  {
    if |pieces| > 1 {
      JoinPlain(pieces[1..], c);
    }
  }

  lemma PrintedPlain(m: Entries)
    ensures '#' !in Printed(m) && '?' !in Printed(m) && '/' !in Printed(m)
  {
    hide PairText;
    var texts := PairTexts(Flat(m));
    forall i | 0 <= i < |texts| ensures '#' !in texts[i] && '?' !in texts[i] && '/' !in texts[i] {
      PairTextPlain(Flat(m)[i]);
    }
    JoinPlain(texts, '#');
    JoinPlain(texts, '?');
    JoinPlain(texts, '/');
  }

  lemma QueryPlain(m: Entries)
    ensures '#' !in QueryText(m) && '/' !in QueryText(m)
    ensures m != [] ==> QueryText(m)[0] == '?' && '?' !in QueryText(m)[1..]
  {
    PrintedPlain(m);
    hide Printed;
  }

  function TailText(path: bytes, search: Entries, fragment: bytes): bytes {
    path + QueryText(search) + fragment
  }

  /** What becomes of a query that is printed and parsed. */
  function SearchBack(search: Entries): Option<Entries> {
    if search == [] then Some([]) else ParamsOf(Printed(search))
  }

  ghost predicate PlainPath(path: bytes) {
    path != [] && path[0] == '/' && '?' !in path && '#' !in path
  }

  ghost predicate PlainFragment(fragment: bytes) {
    fragment == [] || fragment[0] == '#'
  }

  lemma TailReads(path: bytes, search: Entries, fragment: bytes)
    requires PlainPath(path) && PlainFragment(fragment)
    ensures TailOf(TailText(path, search, fragment)) ==
      if SearchBack(search).None? then None else Some((path, SearchBack(search).value, fragment))
  {
    hide ParamsOf;
    hide Printed;
    var tail := TailText(path, search, fragment);
    var query := QueryText(search);
    QueryPlain(search);
    IndexOfIs(tail, '#', 0, |path + query|);
    var before := tail[..|path + query|];
    assert before == path + query && tail[|path + query|..] == fragment;
    IndexOfIs(before, '?', 0, |path|);
    assert before[..|path|] == path;
    if search == [] {
      assert before == path;
    } else {
      assert query[1..] == Printed(search) && before[|path| + 1..] == query[1..];
    }
  }

  /** Any tail is its path, the query behind the first `?`, and the fragment. */
  lemma TailIs(path: bytes, query: bytes, fragment: bytes)
    requires '?' !in path && '#' !in path && '#' !in query && (fragment == [] || fragment[0] == '#')
    ensures TailOf(path + fragment) == Some((path, [], fragment))
    ensures TailOf(path + "?" + query + fragment) ==
      if ParamsOf(query).None? then None else Some((path, ParamsOf(query).value, fragment))
  {
    hide ParamsOf;
    IndexOfIs(path + fragment, '#', 0, |path|);
    assert (path + fragment)[..|path|] == path && (path + fragment)[|path|..] == fragment;
    IndexOfIs(path, '?', 0, |path|);
    var rest := path + "?" + query;
    IndexOfIs(rest + fragment, '#', 0, |rest|);
    assert (rest + fragment)[..|rest|] == rest && (rest + fragment)[|rest|..] == fragment;
    IndexOfIs(rest, '?', 0, |path|);
    assert rest[|path| + 1..] == query && rest[..|path|] == path;
  }

  // ---------------------------------------------------------------- scheme and host

  ghost predicate HasMark(s: bytes) {
    exists i :: 0 <= i < |s| && SchemeMarkAt(s, i)
  }

  lemma {:induction false} SchemeMarkIs(s: bytes, from: nat, i: nat)
    requires from <= i <= |s| && (i < |s| ==> SchemeMarkAt(s, i))
    requires forall j :: from <= j < i ==> !SchemeMarkAt(s, j)
    ensures SchemeMark(s, from) == i
    decreases i - from
  {
    if from < i {
      SchemeMarkIs(s, from + 1, i);
    }
  }

  /** In a printed tail the scheme mark can only stand in the path or in the fragment. */
  lemma TailMark(path: bytes, search: Entries, fragment: bytes)
    requires PlainPath(path) && PlainFragment(fragment)
    ensures HasMark(TailText(path, search, fragment)) <==> HasMark(path) || HasMark(fragment)
  {
    hide QueryText;
    var query := QueryText(search);
    var tail := TailText(path, search, fragment);
    var n := |path + query|;
    QueryPlain(search);
    forall i | 0 <= i < |path| && SchemeMarkAt(path, i) ensures SchemeMarkAt(tail, i) {
    }
    forall i | 0 <= i < |fragment| && SchemeMarkAt(fragment, i) ensures SchemeMarkAt(tail, n + i) {
    }
    forall i | 0 <= i < |tail| && SchemeMarkAt(tail, i)
      ensures HasMark(path) || HasMark(fragment)
    {
      MarkAside(path, query, fragment, i);
    }
  }

  lemma MarkAside(path: bytes, query: bytes, fragment: bytes, i: nat)
    requires '/' !in query && PlainFragment(fragment)
    requires i < |path + query + fragment| && SchemeMarkAt(path + query + fragment, i)
    ensures HasMark(path) || HasMark(fragment)
  {
    var tail := path + query + fragment;
    var n := |path + query|;
    assert tail[i + 1] == '/' && tail[i + 2] == '/';
    assert forall j :: |path| <= j < n ==> tail[j] == query[j - |path|];
    assert forall j :: n <= j < |tail| ==> tail[j] == fragment[j - n];
    if i + 2 < |path| {
      assert SchemeMarkAt(path, i);
    } else {
      assert i + 1 >= n && i + 1 != n;
      assert SchemeMarkAt(fragment, i - n);
    }
  }

  lemma FrontMark(scheme: bytes, rest: bytes)
    requires !HasMark(scheme)
    ensures SchemeMark(scheme + "://" + rest) == |scheme|
  {
    hide SchemeMark;
    var url := scheme + "://" + rest;
    assert url[|scheme|] == ':' && url[|scheme| + 1] == '/' && url[|scheme| + 2] == '/';
    forall j | 0 <= j < |scheme| ensures !SchemeMarkAt(url, j) {
      assert !SchemeMarkAt(scheme, j);
    }
    SchemeMarkIs(url, 0, |scheme|);
  }

  lemma SlashAfter(front: bytes, host: bytes, tail: bytes)
    requires '/' !in host && tail != [] && tail[0] == '/'
    ensures IndexOf(front + host + tail, '/', |front|) == |front| + |host|
  {
    var url := front + host + tail;
    forall j | |front| <= j < |front| + |host| ensures url[j] != '/' {
      assert url[j] == host[j - |front|];
    }
    IndexOfIs(url, '/', |front|, |front| + |host|);
  }

  lemma Pieces(a: bytes, b: bytes)
    ensures (a + b)[..|a|] == a && (a + b)[|a|..] == b
  {
  }

  lemma Middle(a: bytes, b: bytes, c: bytes)
    ensures (a + b + c)[|a|..|a| + |b|] == b && (a + b + c)[|a| + |b|..] == c
  {
  }

  /** The printed front of a URL with a host is taken apart again. */
  lemma FrontReads(scheme: bytes, host: bytes, tail: bytes)
    requires !HasMark(scheme) && '/' !in host && tail != [] && tail[0] == '/'
    ensures var url := scheme + "://" + host + tail;
      SchemeMark(url) == |scheme| &&
      IndexOf(url, '/', |scheme| + 3) == |scheme| + 3 + |host| &&
      url[..|scheme|] == scheme && url[|scheme| + 3..|scheme| + 3 + |host|] == host && url[|scheme| + 3 + |host|..] == tail
  {
    hide HasMark;
    hide SchemeMark;
    hide IndexOf;
    Regrouped(scheme, "://", host, tail);
    FrontMark(scheme, host + tail);
    SlashAfter(scheme + "://", host, tail);
    Pieces(scheme, "://" + (host + tail));
    Middle(scheme + "://", host, tail);
  }

  lemma Regrouped(a: bytes, b: bytes, c: bytes, d: bytes)
    ensures a + b + c + d == a + b + (c + d) == a + (b + (c + d)) && |a + b| == |a| + |b|
  {
  }

  // ---------------------------------------------------------------- the round trip

  /** What a printed URL must look like to be taken apart into what it was. */
  ghost predicate Restorable(u: Parts) {
    u.user.None? && PlainPath(u.path) && PlainFragment(u.fragment) &&
    if u.host == [] then u.scheme == [] && !HasMark(u.path) && !HasMark(u.fragment)
    else
      Normalized(u.host) == u.host && '/' !in u.host && '@' !in u.host &&
      Normalized(u.scheme) == u.scheme && !HasMark(u.scheme)
  }

  lemma UrlReads(u: Parts)
    requires Restorable(u)
    ensures UrlOf(UrlText(u)) ==
      if SearchBack(u.search).None? then None else Some(u.(search := SearchBack(u.search).value))
  {
    hide TailOf;
    hide QueryText;
    hide Normalized;
    hide SearchBack;
    hide HasMark;
    hide SchemeMark;
    hide SchemeMarkAt;
    hide HostOf;
    hide UserOf;
    hide FragmentText;
    var url := UrlText(u);
    FragmentPlain(u.fragment);
    var tail := TailText(u.path, u.search, u.fragment);
    TailReads(u.path, u.search, u.fragment);
    NothingNormalized();
    if u.host == [] {
      assert url == tail;
      TailMark(u.path, u.search, u.fragment);
      NoMark(url);
      NoAt([]);
      assert url[0] == '/' && url[0..0] == [] && url[0..] == tail;
    } else {
      assert url == u.scheme + "://" + u.host + tail;
      FrontReads(u.scheme, u.host, tail);
      NoAt(u.host);
    }
  }

  lemma FragmentPlain(fragment: bytes)
    requires PlainFragment(fragment)
    ensures FragmentText(fragment) == fragment
  {
  }

  lemma NoMark(s: bytes)
    requires !HasMark(s)
    ensures SchemeMark(s) == |s|
  {
  }

  lemma NoAt(host: bytes)
    requires '@' !in host
    ensures HostOf(host) == Normalized(host) && UserOf(host) == None
  {
  }

  lemma {:induction false} SkipSpacesDrops(s: bytes)
    ensures exists k :: 0 <= k <= |s| && s[k..] == SkipSpaces(s)
    decreases |s|
  {
    if s == [] || !IsSpace(s[0]) {
      assert s[0..] == s;
    } else {
      SkipSpacesDrops(s[1..]);
      var k :| 0 <= k <= |s[1..]| && s[1..][k..] == SkipSpaces(s[1..]);
      assert s[k + 1..] == s[1..][k..];
    }
  }

  /** A normalised token is a part of the token, in lower case. */
  lemma NormalizedPart(token: bytes) returns (k: nat)
    ensures k + |Normalized(token)| <= |token|
    ensures forall i :: 0 <= i < |Normalized(token)| ==> Normalized(token)[i] == Lower(token[k + i])
  {
    SkipSpacesDrops(token);
    k :| 0 <= k <= |token| && token[k..] == SkipSpaces(token);
    var t := Trimmed(token);
    forall i | 0 <= i < |t| ensures t[i] == token[k + i] {
      assert t[i] == SkipSpaces(token)[i] == token[k..][i];
    }
  }

  lemma NormalizedMark(token: bytes)
    ensures HasMark(Normalized(token)) ==> HasMark(token)
    ensures forall c: byte :: (c == '/' || c == '@') && c in Normalized(token) ==> c in token
  {
    var k := NormalizedPart(token);
    hide Normalized;
    var n := Normalized(token);
    if HasMark(n) {
      var i :| 0 <= i < |n| && SchemeMarkAt(n, i);
      assert SchemeMarkAt(token, k + i);
    }
  }

  /** The query as it stands in a tail that could be read. */
  lemma TailShape(tail: bytes) returns (query: bytes)
    requires tail != [] && tail[0] == '/' && TailOf(tail).Some?
    ensures var (path, search, fragment) := TailOf(tail).value;
      PlainPath(path) && PlainFragment(fragment) && tail == path + query + fragment &&
      (query == [] ==> search == []) && (query != [] ==> query[0] == '?')
  {
    hide ParamsOf;
    var hash := IndexOf(tail, '#');
    var before := tail[..hash];
    var q := IndexOf(before, '?');
    query := before[q..];
    assert before == before[..q] + query && tail == before + tail[hash..];
    assert before[0] == tail[0];
  }

  lemma UrlShape(url: bytes)
    requires UrlOf(url).Some?
    ensures var u := UrlOf(url).value;
      PlainPath(u.path) && PlainFragment(u.fragment) &&
      Normalized(u.host) == u.host && '/' !in u.host && '@' !in u.host &&
      Normalized(u.scheme) == u.scheme && !HasMark(u.scheme) &&
      (u.host != [] ==> u.user.None?)
  {
    hide TailOf;
    hide Normalized;
    hide HasMark;
    var mark := SchemeMark(url);
    var start := if mark < |url| then mark + 3 else 0;
    var slash := IndexOf(url, '/', start);
    var authority := url[start..slash];
    assert '/' !in authority;
    NormalizedIdempotent(authority);
    NormalizedMark(authority);
    NothingNormalized();
    if mark < |url| {
      NormalizedIdempotent(url[..mark]);
      NormalizedMark(url[..mark]);
      NoMarkBefore(url, mark);
    } else {
      NoMarkBefore(url, 0);
    }
    assert '@' !in authority ==> IndexOf(authority, '@') == |authority|;
    var query := TailShape(url[slash..]);
  }

  lemma NoMarkBefore(url: bytes, i: nat)
    requires i <= SchemeMark(url)
    ensures !HasMark(url[..i])
  {
    forall j | 0 <= j < i ensures !SchemeMarkAt(url[..i], j) {
      assert !SchemeMarkAt(url, j);
    }
  }

  /** A URL printed without a host and read back as it was has nothing before its path. */
  lemma NoFront(u: Parts)
    requires u.host == [] && UrlOf(UrlText(u)) == Some(u)
    ensures !HasMark(UrlText(u)) && u.user.None? && u.scheme == []
  {
    hide TailOf;
    hide QueryText;
    hide HasMark;
    hide HostOf;
    hide CredentialsOf;
    hide Normalized;
    hide SchemeMarkAt;
    var url := UrlText(u);
    UrlShape(url);
    QueryPlain(u.search);
    var mark := SchemeMark(url);
    var start := if mark < |url| then mark + 3 else 0;
    var slash := IndexOf(url, '/', start);
    var query := TailShape(url[slash..]);
    var printed := QueryText(u.search);
    assert url == u.path + printed + u.fragment;
    QueryEmpty(u.search);
    NothingBefore(u.path, printed, query, u.fragment, slash);
    assert url[0..0] == [];
    NoMarkBefore(url, |url|);
    assert url[..|url|] == url;
  }

  lemma NothingBefore(path: bytes, printed: bytes, query: bytes, fragment: bytes, slash: nat)
    requires slash <= |path + printed + fragment|
    requires (path + printed + fragment)[slash..] == path + query + fragment
    requires printed != [] ==> '?' !in printed[1..] && query != []
    requires query != [] ==> query[0] == '?'
    ensures slash == 0
  {
    var url := path + printed + fragment;
    assert |printed| == slash + |query|;
    if query != [] {
      assert (path + query + fragment)[|path|] == '?';
      assert url[slash..][|path|] == url[slash + |path|] == printed[slash];
    }
    assert forall j :: 1 <= j < |printed| ==> printed[j] == printed[1..][j - 1];
  }

  lemma QueryEmpty(search: Entries)
    ensures QueryText(search) == [] <==> search == []
  {
  }

  /** For every multimap a URL can hold, printing and taking apart give the URL back exactly when it
      is restorable and no search value is empty. */
  lemma UrlRoundTripIff(u: Parts)
    requires ValidEntries(u.search)
    ensures UrlOf(UrlText(u)) == Some(u) <==> Restorable(u) && NoEmptyValue(u.search)
  {
    hide UrlOf;
    hide ValidEntries;
    hide Printed;
    hide ParamsOf;
    hide UrlText;
    ParamsRoundTripIff(u.search);
    if Restorable(u) {
      UrlReads(u);
    } else if UrlOf(UrlText(u)) == Some(u) {
      UrlShape(UrlText(u));
      if u.host == [] {
        NoFront(u);
        HostlessText(u);
        TailMark(u.path, u.search, u.fragment);
      }
      assert false;
    }
  }

  lemma HostlessText(u: Parts)
    requires u.host == [] && PlainFragment(u.fragment)
    ensures UrlText(u) == TailText(u.path, u.search, u.fragment)
  {
  }

  /** A fragment without its mark is printed with one. */
  lemma HashAdded(u: Parts)
    requires u.fragment != [] && u.fragment[0] != '#'
    ensures UrlText(u) == UrlText(u.(fragment := "#" + u.fragment))
  {
    hide UserText;
    hide QueryText;
  }

  // ---------------------------------------------------------------- credentials

  /** A URL is printed with its credentials, and does not survive it: they come back encoded, and the host is lost. */
  lemma PrintedCredentialsRead(u: Parts)
    requires u.user.Some? && u.user.value.user != [] && u.user.value.password != []
    requires u.host != [] && '/' !in u.host && !HasMark(u.scheme) && PlainPath(u.path) && PlainFragment(u.fragment)
    ensures UrlOf(UrlText(u)) ==
      if SearchBack(u.search).None? then None
      else Some(Parts(Normalized(u.scheme),
        Some(Credentials(UrlEncode.Encoded(u.user.value.user), UrlEncode.Encoded(u.user.value.password))),
        [], u.path, SearchBack(u.search).value, u.fragment))
  {
    hide TailOf;
    hide UserOf;
    hide UrlOf;
    hide Normalized;
    hide HasMark;
    hide SearchBack;
    hide QueryText;
    hide UrlEncode.Encoded;
    var Credentials(name, password) := u.user.value;
    var tail := TailText(u.path, u.search, u.fragment);
    var authority := UserText(u.user) + u.host;
    FragmentPlain(u.fragment);
    TailReads(u.path, u.search, u.fragment);
    PrintedUserReads(name, password, u.host);
    UserHasNoSlash(name, password);
    assert '@' in authority && '/' !in authority;
    assert UrlText(u) == u.scheme + "://" + authority + tail;
    AuthorityReads(u.scheme, authority, tail);
  }

  lemma UserHasNoSlash(name: bytes, password: bytes)
    requires name != [] && password != []
    ensures '/' !in UserText(Some(Credentials(name, password))) && '@' in UserText(Some(Credentials(name, password)))
  {
    EncodedIsPlain(name);
    EncodedIsPlain(password);
    hide UrlEncode.Encoded;
    var text := UserText(Some(Credentials(name, password)));
    assert text[|text| - 1] == '@';
  }

  /** What stands between the scheme and the path is taken for the host, or for credentials and a host that is
      lost. */
  lemma AuthorityReads(scheme: bytes, authority: bytes, tail: bytes)
    requires !HasMark(scheme) && '/' !in authority && tail != [] && tail[0] == '/'
    ensures UrlOf(scheme + "://" + authority + tail) ==
      if TailOf(tail).None? then None
      else
        var (path, search, fragment) := TailOf(tail).value;
        Some(Parts(Normalized(scheme), UserOf(authority), if '@' in authority then [] else Normalized(authority), path, search, fragment))
  {
    hide TailOf;
    hide UserOf;
    hide Normalized;
    hide HasMark;
    hide SchemeMark;
    hide IndexOf;
    FrontReads(scheme, authority, tail);
  }

  /** A user and a password stand before the first `@`, with the first colon between them, and are taken as they
      are, without decoding. */
  lemma UserReads(name: bytes, password: bytes, host: bytes)
    requires name != [] && ':' !in name && '@' !in name && '@' !in password
    ensures UserOf(name + ":" + password + "@" + host) == Some(Credentials(name, password))
  {
    var token := name + ":" + password;
    var authority := token + "@" + host;
    BeforeAt(token, host);
    IndexOfIs(token, ':', 0, |name|);
    assert token[..|name|] == name && token[|name| + 1..] == password;
  }

  /** Without a colon there is a user and no password, but a single character is none; and without a user there is
      nobody. */
  lemma UserAlone(name: bytes, password: bytes, host: bytes)
    requires ':' !in name && '@' !in name && '@' !in password
    ensures UserOf(name + "@" + host) == if |name| < 2 then None else Some(Credentials(name, []))
    ensures UserOf(":" + password + "@" + host) == None
  {
    BeforeAt(name, host);
    IndexOfIs(name, ':', 0, |name|);
    BeforeAt(":" + password, host);
    IndexOfIs(":" + password, ':', 0, 0);
  }

  lemma BeforeAt(token: bytes, host: bytes)
    requires '@' !in token
    ensures UserOf(token + "@" + host) == CredentialsOf(token)
  {
    hide CredentialsOf;
    var authority := token + "@" + host;
    IndexOfIs(authority, '@', 0, |token|);
    assert authority[..|token|] == token;
  }

  /** Credentials are printed encoded, when both of them are there; and what is printed is read back encoded. */
  lemma PrintedUserReads(name: bytes, password: bytes, host: bytes)
    ensures name == [] || password == [] ==> UserText(Some(Credentials(name, password))) == []
    ensures name != [] && password != [] ==>
      && UserText(Some(Credentials(name, password))) == UrlEncode.Encoded(name) + ":" + UrlEncode.Encoded(password) + "@"
      && UserOf(UserText(Some(Credentials(name, password))) + host)
         == Some(Credentials(UrlEncode.Encoded(name), UrlEncode.Encoded(password)))
  {
    hide UserOf;
    if name != [] && password != [] {
      EncodedIsPlain(name);
      EncodedIsPlain(password);
      EncodedEmpty(name);
      hide UrlEncode.Encoded;
      UserReads(UrlEncode.Encoded(name), UrlEncode.Encoded(password), host);
    }
  }

  /** The part of a URL between the scheme and the path. */
  function Authority(url: bytes): bytes
    requires UrlOf(url).Some?
  {
    var mark := SchemeMark(url);
    var start := if mark < |url| then mark + 3 else 0;
    url[start..IndexOf(url, '/', start)]
  }

  /** The host is what follows the credentials, or all of the authority without them. The
      constructor finds it exactly when there are no credentials, or no host to lose. */
  lemma HostKeptIff(url: bytes)
    requires UrlOf(url).Some?
    ensures var authority := Authority(url);
      var at := IndexOf(authority, '@');
      var meant := Normalized(if at < |authority| then authority[at + 1..] else authority);
      UrlOf(url).value.host == meant <==> '@' !in authority || meant == []
  {
    hide TailOf;
    hide Normalized;
    var authority := Authority(url);
    var at := IndexOf(authority, '@');
    assert '@' in authority ==> at < |authority|;
  }
}
