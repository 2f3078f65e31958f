/** URLs: taking one apart and printing it. */
module Url {
  import opened Bytes
  import opened Values
  import UrlEncode
  import opened SearchParams

  datatype Credentials = Credentials(user: bytes, password: bytes)

  /** The parts of a URL; the query is the content of its multimap. */
  datatype Parts = Parts(
    scheme: bytes, user: Option<Credentials>, host: bytes, path: bytes, search: Entries, fragment: bytes)

  // ---------------------------------------------------------------- taking apart

  predicate SchemeMarkAt(s: bytes, i: nat)
    requires i <= |s|
  {
    i + 3 <= |s| && s[i] == ':' && s[i + 1] == '/' && s[i + 2] == '/'
  }

  /** `find("://")`, or |s| when it is absent. */
  function SchemeMark(s: bytes, from: nat := 0): (r: nat)
    requires from <= |s|
    ensures from <= r <= |s|
    ensures r < |s| ==> SchemeMarkAt(s, r)
    ensures forall i :: from <= i < r ==> !SchemeMarkAt(s, i)
    decreases |s| - from
  {
    if from == |s| || SchemeMarkAt(s, from) then from else SchemeMark(s, from + 1)
  }

  /** What stands before the `@`: a user and perhaps a password. */
  function CredentialsOf(token: bytes): Option<Credentials> {
    if |token| < 2 then None
    else
      var split := IndexOf(token, ':');
      if split == |token| then Some(Credentials(token, []))
      else if split == 0 then None
      else Some(Credentials(token[..split], token[split + 1..]))
  }

  /** Path, query and fragment: everything from the first slash after the scheme on. */
  function TailOf(tail: bytes): Option<(bytes, Entries, bytes)> {
    var hash := IndexOf(tail, '#');
    var before := tail[..hash];
    var query := IndexOf(before, '?');
    if query == |before| then Some((before, [], tail[hash..]))
    else match ParamsOf(before[query + 1..])
      case Some(search) => Some((before[..query], search, tail[hash..]))
      case None => None
  }

  function UserOf(authority: bytes): Option<Credentials> {
    var at := IndexOf(authority, '@');
    if at < |authority| then CredentialsOf(authority[..at]) else None
  }

  /** The host; one that stands after credentials is lost. */
  function HostOf(authority: bytes): bytes {
    if '@' in authority then [] else Normalized(authority)
  }

  /** What the constructor makes of a URL; None where it throws. */
  function UrlOf(url: bytes): Option<Parts> {
    var mark := SchemeMark(url);
    var start := if mark < |url| then mark + 3 else 0;
    var slash := IndexOf(url, '/', start);
    if slash == |url| then None
    else
      var authority := url[start..slash];
      match TailOf(url[slash..])
      case None => None
      case Some((path, search, fragment)) =>
        var scheme := if mark < |url| then Normalized(url[..mark]) else [];
        Some(Parts(scheme, UserOf(authority), HostOf(authority), path, search, fragment))
  }

  // ---------------------------------------------------------------- printing

  function UserText(user: Option<Credentials>): bytes {
    match user
    case Some(Credentials(name, password)) =>
      if name != [] && password != [] then UrlEncode.Encoded(name) + ":" + UrlEncode.Encoded(password) + "@" else []
    case None => []
  }

  function FrontText(u: Parts): bytes {
    if u.host == [] then [] else u.scheme + "://" + UserText(u.user) + u.host
  }

  function QueryText(search: Entries): bytes {
    if search == [] then [] else "?" + Printed(search)
  }

  function FragmentText(fragment: bytes): bytes {
    if fragment == [] || fragment[0] == '#' then fragment else "#" + fragment
  }

  /** What `to_string` prints. */
  function UrlText(u: Parts): bytes {
    FrontText(u) + (u.path + QueryText(u.search) + FragmentText(u.fragment))
  }

  // ---------------------------------------------------------------- the class

  method ParseCredentials(url: bytes, tokenBegin: nat, tokenEnd: nat) returns (r: Option<Credentials>)
    requires tokenBegin <= tokenEnd <= |url|
    ensures r == CredentialsOf(url[tokenBegin..tokenEnd])
  {
    if tokenEnd - tokenBegin < 2 {
      return None;
    }
    ghost var token := url[tokenBegin..tokenEnd];
    var found := FindChar(url, ':', tokenBegin, tokenEnd);
    if found.None? {
      IndexOfIs(token, ':', 0, |token|);
      return Some(Credentials(url[tokenBegin..tokenEnd], []));
    }
    var authSplit := found.value;
    IndexOfIs(token, ':', 0, authSplit - tokenBegin);
    if authSplit - tokenBegin < 1 {
      return None;
    }
    var passwordStart := authSplit + 1;
    Slice(url, tokenBegin, tokenEnd, 0, authSplit - tokenBegin);
    Slice(url, tokenBegin, tokenEnd, passwordStart - tokenBegin, |token|);
    var password: bytes := [];
    if tokenEnd - passwordStart > 0 {
      password := url[passwordStart..tokenEnd];
    }
    return Some(Credentials(url[tokenBegin..authSplit], password));
  }

  /** The structure the constructor fills in. */
  class Url {
    var scheme: bytes
    var user: Option<Credentials>
    var host: bytes
    var path: bytes
    var search: Values
    var fragment: bytes

    ghost function GetParts(): Parts
      reads this, search
    {
      Parts(scheme, user, host, path, search.entries, fragment)
    }

    constructor ()
      ensures GetParts() == Parts([], None, [], [], [], []) && search.Valid() && fresh(search)
    {
      scheme, user, host, path, fragment := [], None, [], [], [];
      search := new Values();
    }

    method ToString() returns (url: bytes)
      ensures url == UrlText(GetParts())
    {
      hide FrontText;
      hide QueryText;
      hide FragmentText;
      var front := PrintFront();
      var query := PrintQuery();
      var mark := PrintFragment();
      url := front;
      if path != [] {
        url := url + path;
      }
      url := url + query;
      url := url + mark;
    }

    method PrintFront() returns (url: bytes)
      ensures url == FrontText(GetParts())
    {
      hide UserText;
      url := [];
      if host != [] {
        if scheme != [] {
          url := url + scheme;
        }
        assert url == scheme;
        url := url + "://";
        var credentials := PrintUser();
        url := url + credentials;
        url := url + host;
      }
    }

    method PrintUser() returns (text: bytes)
      ensures text == UserText(user)
    {
      hide UrlEncode.Encoded;
      text := [];
      if user.Some? {
        var name, password := user.value.user, user.value.password;
        if |name| > 0 && |password| > 0 {
          var encodedName := UrlEncode.EncodeUriComponent(name);
          var encodedPassword := UrlEncode.EncodeUriComponent(password);
          text := encodedName + [':'] + encodedPassword + ['@'];
        }
      }
    }

    method PrintQuery() returns (url: bytes)
      ensures url == QueryText(search.entries)
    {
      url := [];
      if search.entries != [] {
        var text := SearchParams.ToString(search);
        url := ['?'] + text;
      }
    }

    method PrintFragment() returns (url: bytes)
      ensures url == FragmentText(fragment)
    {
      url := [];
      if fragment != [] {
        if fragment[0] != '#' {
          url := url + ['#'];
        }
        url := url + fragment;
      }
    }
  }

  /** `URL(url)`; false where it throws. */
  method Parse(url: bytes) returns (ok: bool, r: Url)
    ensures fresh(r) && fresh(r.search) && r.search.Valid()
    ensures ok <==> UrlOf(url).Some?
    ensures ok ==> r.GetParts() == UrlOf(url).value
  {
    hide TailOf;
    hide UserOf;
    hide HostOf;
    hide Normalized;
    hide ValidEntries;
    r := new Url();
    var schemeEnd := SchemeMark(url);
    if schemeEnd < |url| {
      r.scheme := ResetCase(url[..schemeEnd]);
      schemeEnd := schemeEnd + 3;
    } else {
      schemeEnd := 0;
    }
    var slash := FindChar(url, '/', schemeEnd, |url|);
    if slash.None? {
      IndexOfIs(url, '/', schemeEnd, |url|);
      return false, r;
    }
    var pathBegin := slash.value;
    IndexOfIs(url, '/', schemeEnd, pathBegin);
    var host, user := ParseAuthority(url, schemeEnd, pathBegin);
    r.host, r.user := host, user;
    var path, search, fragment;
    ok, path, search, fragment := ParseTail(url, pathBegin);
    r.path, r.search, r.fragment := path, search, fragment;
  }

  method ParseAuthority(url: bytes, begin: nat, end: nat) returns (host: bytes, user: Option<Credentials>)
    requires begin <= end <= |url|
    ensures host == HostOf(url[begin..end]) && user == UserOf(url[begin..end])
  {
    hide Normalized;
    hide CredentialsOf;
    ghost var authority := url[begin..end];
    var at := FindChar(url, '@', begin, end);
    if at.Some? {
      IndexOfIs(authority, '@', 0, at.value - begin);
      Slice(url, begin, end, 0, at.value - begin);
      assert authority[at.value - begin] == '@';
      host := ResetCase([]);
      NothingNormalized();
      user := ParseCredentials(url, begin, at.value);
    } else {
      IndexOfIs(authority, '@', 0, |authority|);
      host := ResetCase(url[begin..end]);
      user := None;
    }
  }

  lemma NothingNormalized()
    ensures Normalized([]) == []
  {
  }

  method ParseTail(url: bytes, pathBegin: nat) returns (ok: bool, path: bytes, search: Values, fragment: bytes)
    requires pathBegin <= |url|
    ensures fresh(search) && search.Valid()
    ensures ok <==> TailOf(url[pathBegin..]).Some?
    ensures ok ==> (path, search.entries, fragment) == TailOf(url[pathBegin..]).value
  {
    hide ParamsOf;
    hide ValidEntries;
    hide IndexOf;
    ghost var tail := url[pathBegin..];
    ok, fragment := true, [];
    search := new Values();
    var fragmentBegin := |url|;
    var hash := FindChar(url, '#', pathBegin, |url|);
    if hash.Some? {
      fragment := url[hash.value..];
      fragmentBegin := hash.value;
    }
    IndexOfIs(tail, '#', 0, fragmentBegin - pathBegin);
    Slice(url, pathBegin, |url|, 0, fragmentBegin - pathBegin);
    ghost var before := url[pathBegin..fragmentBegin];
    assert tail == url[pathBegin..|url|] && before == tail[..fragmentBegin - pathBegin];
    assert tail[fragmentBegin - pathBegin..] == fragment;
    var queryBegin := fragmentBegin;
    var query := FindChar(url, '?', pathBegin, fragmentBegin);
    if query.Some? {
      queryBegin := query.value;
      ok, search := FromString(url[queryBegin + 1..fragmentBegin]);
      Slice(url, pathBegin, fragmentBegin, queryBegin + 1 - pathBegin, |before|);
    }
    IndexOfIs(before, '?', 0, queryBegin - pathBegin);
    Slice(url, pathBegin, fragmentBegin, 0, queryBegin - pathBegin);
    path := url[pathBegin..queryBegin];
  }
}
