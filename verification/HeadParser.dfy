/** Request heads as bytes: lines, the request line, header fields, and the reading of a head out
    of a buffer that holds everything the peer will ever send. */
module HeadParser {
  import opened Bytes
  import opened Values
  import opened SearchParams
  import opened HeadText

  datatype Method = GET | POST | PUT | PATCH | DEL | HEAD | OPTIONS | TRACE | CONNECT

  datatype Target = Target(path: bytes, search: Entries, fragment: bytes)

  datatype RequestLine = RequestLine(meth: Method, target: Target)

  datatype RequestHead = RequestHead(meth: Method, target: Target, headers: Entries)

  /** `Thrown` is an exception escaping from the decoding of the query. */
  datatype LineError = BadSpacing | NoMethod | UnknownMethod | NoUrl | BadVersion | Thrown

  function MethodOf(s: bytes): Option<Method> {
    if s == "GET" then Some(GET)
    else if s == "POST" then Some(POST)
    else if s == "PUT" then Some(PUT)
    else if s == "PATCH" then Some(PATCH)
    else if s == "DELETE" then Some(DEL)
    else if s == "HEAD" then Some(HEAD)
    else if s == "OPTIONS" then Some(OPTIONS)
    else if s == "TRACE" then Some(TRACE)
    else if s == "CONNECT" then Some(CONNECT)
    else None
  }

  function MethodName(m: Method): bytes {
    match m
    case GET => "GET"
    case POST => "POST"
    case PUT => "PUT"
    case PATCH => "PATCH"
    case DEL => "DELETE"
    case HEAD => "HEAD"
    case OPTIONS => "OPTIONS"
    case TRACE => "TRACE"
    case CONNECT => "CONNECT"
  }

  /** A text names a method exactly when it is the method's name, letter case included. */
  lemma MethodOfIff(s: bytes, m: Method)
    ensures MethodOf(s) == Some(m) <==> s == MethodName(m)
  {
  }

  predicate CanHaveBody(m: Method) {
    m == POST || m == PUT || m == PATCH || m == CONNECT
  }

  // ---------------------------------------------------------------- lines

  predicate CrlfAt(data: bytes, i: nat) {
    i + 1 < |data| && data[i] == '\r' && data[i + 1] == '\n'
  }

  /** The first CRLF at or after `begin`. */
  function NextLine(data: bytes, begin: nat): (r: Option<nat>)
    ensures r.Some? ==> begin <= r.value && CrlfAt(data, r.value) && forall i :: begin <= i < r.value ==> !CrlfAt(data, i)
    ensures r.None? ==> forall i :: begin <= i ==> !CrlfAt(data, i)
    decreases |data| - begin
  {
    if begin + 1 >= |data| then None
    else if CrlfAt(data, begin) then Some(begin)
    else NextLine(data, begin + 1)
  }

  lemma NextLineIs(data: bytes, begin: nat, end: nat)
    requires begin <= end && CrlfAt(data, end) && forall i :: begin <= i < end ==> !CrlfAt(data, i)
    ensures NextLine(data, begin) == Some(end)
  {
  }

  method FindLine(data: bytes, begin: nat) returns (r: Option<nat>)
    ensures r == NextLine(data, begin)
  {
    if begin < |data| {
      for idx := begin to |data|
        invariant forall i :: begin <= i && i + 1 < idx ==> !CrlfAt(data, i)
      {
        if data[idx] == '\n' && idx > begin && data[idx - 1] == '\r' {
          assert CrlfAt(data, idx - 1);
          return Some(idx - 1);
        }
      }
    }
    return None;
  }

  /** The first position at or after `from` that is not a space. */
  function NextToken(s: bytes, from: nat): (i: nat)
    requires from <= |s|
    ensures from <= i <= |s|
    ensures i < |s| ==> s[i] != ' '
    ensures forall j :: from <= j < i ==> s[j] == ' '
    decreases |s| - from
  {
    if from == |s| || s[from] != ' ' then from else NextToken(s, from + 1)
  }

  // ---------------------------------------------------------------- the request line

  /** `parse_request_url`: the fragment goes first; a query leaves the path empty. */
  function TargetOf(url: bytes): Option<Target> {
    var f := IndexOf(url, '#');
    var fragment := url[f..];
    var rest := url[..f];
    var q := IndexOf(rest, '?');
    if q == |rest| then Some(Target(rest, [], fragment))
    else match ParamsOf(rest[q + 1..])
      case None => None
      case Some(search) => Some(Target([], search, fragment))
  }

  /** A target without a query is its path and fragment; one with a query is the query and fragment alone. */
  lemma TargetReads(path: bytes, query: bytes, fragment: bytes)
    requires '?' !in path && '#' !in path && '#' !in query && (fragment == [] || fragment[0] == '#')
    ensures TargetOf(path + fragment) == Some(Target(path, [], fragment))
    ensures TargetOf(path + "?" + query + fragment) ==
      if ParamsOf(query).None? then None else Some(Target([], ParamsOf(query).value, fragment))
  {
    hide ParamsOf;
    IndexOfIs(path + fragment, '#', 0, |path|);
    assert (path + fragment)[..|path|] == path && (path + fragment)[|path|..] == fragment;
    IndexOfIs(path, '?', 0, |path|);
    var rest := path + "?" + query;
    IndexOfIs(rest + fragment, '#', 0, |rest|);
    assert (rest + fragment)[..|rest|] == rest && (rest + fragment)[|rest|..] == fragment;
    IndexOfIs(rest, '?', 0, |path|);
    assert rest[|path| + 1..] == query;
  }

  predicate ValidVersion(v: bytes) {
    var slash := IndexOf(v, '/');
    && slash + 1 < |v|
    && Normalized(v[..slash]) == "http"
    && (v[slash + 1..] == "1.0" || v[slash + 1..] == "1.1")
  }

  /** Versions 1.0 and 1.1 of HTTP, the name in letters of either case, and nothing else. */
  lemma VersionIff(name: bytes, number: bytes)
    requires '/' !in name
    ensures ValidVersion(name + "/" + number) <==> Lowered(Trimmed(name)) == "http" && (number == "1.0" || number == "1.1")
    ensures !ValidVersion(name)
  {
    hide Lowered;
    hide Trimmed;
    var v := name + "/" + number;
    IndexOfIs(v, '/', 0, |name|);
    assert v[..|name|] == name && v[|name| + 1..] == number;
    IndexOfIs(name, '/', 0, |name|);
  }

  function ParseRequestLine(s: bytes): Result<RequestLine, LineError> {
    var m0 := NextToken(s, 0);
    if m0 == |s| then Err(BadSpacing) else
    var m1 := IndexOf(s, ' ', m0);
    if m1 == |s| then Err(NoMethod) else
    var meth := MethodOf(s[m0..m1]);
    if meth.None? then Err(UnknownMethod) else
    var u0 := NextToken(s, m1);
    if u0 == |s| then Err(BadSpacing) else
    var u1 := IndexOf(s, ' ', u0);
    if u1 == |s| then Err(NoUrl) else
    var target := TargetOf(s[u0..u1]);
    if target.None? then Err(Thrown) else
    var v0 := NextToken(s, u1);
    if v0 == |s| then Err(BadSpacing) else
    if !ValidVersion(s[v0..IndexOf(s, ' ', v0)]) then Err(BadVersion) else
    Ok(RequestLine(meth.value, target.value))
  }

  // the shape of a request line: three tokens between runs of spaces

  ghost predicate Blank(s: bytes, from: nat, end: nat) {
    from <= end <= |s| && forall i :: from <= i < end ==> s[i] == ' '
  }

  ghost predicate Token(s: bytes, from: nat, end: nat) {
    from < end <= |s| && (forall i :: from <= i < end ==> s[i] != ' ') && (end < |s| ==> s[end] == ' ')
  }

  /** Method, target and version stand at these positions, after any number of spaces each. */
  ghost predicate Shaped(s: bytes, m0: nat, m1: nat, u0: nat, u1: nat, v0: nat, v1: nat) {
    Blank(s, 0, m0) && Token(s, m0, m1) && Blank(s, m1, u0) && Token(s, u0, u1) && Blank(s, u1, v0) && Token(s, v0, v1)
  }

  function Judged(name: bytes, url: bytes, version: bytes): Result<RequestLine, LineError> {
    if MethodOf(name).None? then Err(UnknownMethod)
    else if TargetOf(url).None? then Err(Thrown)
    else if !ValidVersion(version) then Err(BadVersion)
    else Ok(RequestLine(MethodOf(name).value, TargetOf(url).value))
  }

  lemma TokenEnds(s: bytes, from: nat, end: nat)
    requires Token(s, from, end)
    ensures IndexOf(s, ' ', from) == end && NextToken(s, from) == from
  {
    IndexOfIs(s, ' ', from, end);
  }

  lemma BlankEnds(s: bytes, from: nat, end: nat)
    requires Blank(s, from, end) && end < |s| && s[end] != ' '
    ensures NextToken(s, from) == end
  {
    NextTokenIs(s, from, end);
  }

  /** However the tokens are spaced, a line of three is judged by its tokens, in this order. */
  lemma RequestLineReads(s: bytes, m0: nat, m1: nat, u0: nat, u1: nat, v0: nat, v1: nat)
    requires Shaped(s, m0, m1, u0, u1, v0, v1)
    ensures ParseRequestLine(s) == Judged(s[m0..m1], s[u0..u1], s[v0..v1])
  {
    hide MethodOf;
    hide TargetOf;
    hide ValidVersion;
    BlankEnds(s, 0, m0);
    TokenEnds(s, m0, m1);
    BlankEnds(s, m1, u0);
    TokenEnds(s, u0, u1);
    BlankEnds(s, u1, v0);
    TokenEnds(s, v0, v1);
  }

  /** What is wrong with a line of fewer tokens, or with its first or second, in the order in which it is found. */
  lemma ShortLineReads(s: bytes, m0: nat, m1: nat, u0: nat, u1: nat)
    ensures Blank(s, 0, |s|) ==> ParseRequestLine(s) == Err(BadSpacing)
    ensures Blank(s, 0, m0) && Token(s, m0, m1) ==>
      && (m1 == |s| ==> ParseRequestLine(s) == Err(NoMethod))
      && (m1 < |s| && MethodOf(s[m0..m1]).None? ==> ParseRequestLine(s) == Err(UnknownMethod))
      && (m1 < |s| && MethodOf(s[m0..m1]).Some? && Blank(s, m1, |s|) ==> ParseRequestLine(s) == Err(BadSpacing))
    ensures Blank(s, 0, m0) && Token(s, m0, m1) && Blank(s, m1, u0) && Token(s, u0, u1) && MethodOf(s[m0..m1]).Some? ==>
      && (u1 == |s| ==> ParseRequestLine(s) == Err(NoUrl))
      && (u1 < |s| && TargetOf(s[u0..u1]).None? ==> ParseRequestLine(s) == Err(Thrown))
      && (u1 < |s| && TargetOf(s[u0..u1]).Some? && Blank(s, u1, |s|) ==> ParseRequestLine(s) == Err(BadSpacing))
  {
    hide MethodOf;
    hide TargetOf;
    hide ValidVersion;
    if Blank(s, 0, |s|) {
      NextTokenIs(s, 0, |s|);
    }
    if Blank(s, 0, m0) && Token(s, m0, m1) {
      BlankEnds(s, 0, m0);
      TokenEnds(s, m0, m1);
      if Blank(s, m1, |s|) {
        NextTokenIs(s, m1, |s|);
      }
      if Blank(s, m1, u0) && Token(s, u0, u1) {
        BlankEnds(s, m1, u0);
        TokenEnds(s, u0, u1);
        if Blank(s, u1, |s|) {
          NextTokenIs(s, u1, |s|);
        }
      }
    }
  }

  /** A line that is accepted has that shape: nothing but such lines parses. */
  lemma AcceptedIsShaped(s: bytes) returns (m0: nat, m1: nat, u0: nat, u1: nat, v0: nat, v1: nat)
    requires ParseRequestLine(s).Ok?
    ensures Shaped(s, m0, m1, u0, u1, v0, v1)
    ensures ParseRequestLine(s) == Judged(s[m0..m1], s[u0..u1], s[v0..v1])
  {
    hide MethodOf;
    hide TargetOf;
    hide ValidVersion;
    m0 := NextToken(s, 0);
    m1 := IndexOf(s, ' ', m0);
    u0 := NextToken(s, m1);
    u1 := IndexOf(s, ' ', u0);
    v0 := NextToken(s, u1);
    v1 := IndexOf(s, ' ', v0);
  }

  /** A target means the path before its query and fragment. It comes back exactly when no `?` stands
      before the fragment, or nothing stands before the `?`. */
  lemma PathKeptIff(url: bytes)
    requires TargetOf(url).Some?
    ensures var rest := url[..IndexOf(url, '#')];
      var meant := rest[..IndexOf(rest, '?')];
      TargetOf(url).value.path == meant <==> '?' !in rest || meant == []
  {
    hide ParamsOf;
    var rest := url[..IndexOf(url, '#')];
    if '?' in rest {
      assert IndexOf(rest, '?') < |rest|;
    }
  }

  method ParseRequestUrl(url: bytes) returns (r: Option<Target>)
    ensures r == TargetOf(url)
  {
    hide ParamsOf;
    var hash := FindChar(url, '#', 0, |url|);
    var end := if hash.Some? then hash.value else |url|;
    IndexOfIs(url, '#', 0, end);
    var rest := url[..end];
    var mark := FindChar(rest, '?', 0, |rest|);
    IndexOfIs(rest, '?', 0, if mark.Some? then mark.value else |rest|);
    if mark.None? {
      return Some(Target(rest, [], url[end..]));
    }
    var ok, search := FromString(rest[mark.value + 1..]);
    if !ok {
      return None;
    }
    return Some(Target([], search.entries, url[end..]));
  }

  // ---------------------------------------------------------------- header fields

  /** The first space at or after `from` with a colon right before it. */
  function FindSplit(s: bytes, from: nat): (i: nat)
    requires 1 <= from <= |s|
    ensures from <= i <= |s|
    ensures i < |s| ==> s[i] == ' ' && s[i - 1] == ':'
    ensures forall j :: from <= j < i ==> !(s[j] == ' ' && s[j - 1] == ':')
    decreases |s| - from
  {
    if from == |s| || (s[from] == ' ' && s[from - 1] == ':') then from else FindSplit(s, from + 1)
  }

  /** The key and the value of a header line; None for a line that `parse_header` drops. */
  function HeaderPair(s: bytes): Option<(bytes, bytes)> {
    var begin := NextToken(s, 0);
    if begin == |s| then None else
    var space := FindSplit(s, begin + 1);
    if space == |s| || space - 1 == begin then None else
    var value := NextToken(s, space + 1);
    if value == |s| then None else Some((s[begin..space - 1], s[value..]))
  }

  function WithHeader(headers: Entries, line: bytes): Entries {
    match HeaderPair(line)
    case None => headers
    case Some(p) => AfterAppend(headers, p.0, p.1)
  }

  method FindToken(s: bytes, from: nat) returns (i: nat)
    requires from <= |s|
    ensures i == NextToken(s, from)
  {
    for idx := from to |s|
      invariant forall j :: from <= j < idx ==> s[j] == ' '
    {
      if s[idx] != ' ' {
        NextTokenIs(s, from, idx);
        return idx;
      }
    }
    NextTokenIs(s, from, |s|);
    return |s|;
  }

  lemma NextTokenIs(s: bytes, from: nat, i: nat)
    requires from <= i <= |s| && (i < |s| ==> s[i] != ' ') && forall j :: from <= j < i ==> s[j] == ' '
    ensures NextToken(s, from) == i
  {
  }

  method SplitHeader(s: bytes) returns (r: Option<(bytes, bytes)>)
    ensures r == HeaderPair(s)
  {
    var begin := FindToken(s, 0);
    if begin == |s| {
      return None;
    }
    var space := |s|;
    for idx := begin to |s|
      invariant space == |s|
      invariant forall j :: begin < j < idx ==> !(s[j] == ' ' && s[j - 1] == ':')
    {
      if s[idx] == ' ' && idx > begin && s[idx - 1] == ':' {
        space := idx;
        break;
      }
    }
    FindSplitIs(s, begin + 1, space);
    if space == |s| || space - 1 - begin < 1 {
      return None;
    }
    var value := FindToken(s, space + 1);
    if value == |s| {
      return None;
    }
    return Some((s[begin..space - 1], s[value..]));
  }

  method ParseHeader(headers: Values, data: bytes, begin: nat, end: nat)
    requires headers.Valid() && begin <= end <= |data|
    modifies headers
    ensures headers.Valid() && headers.entries == WithHeader(old(headers.entries), data[begin..end])
  {
    hide HeaderPair;
    var p := SplitHeader(data[begin..end]);
    match p
    case None =>
    case Some(pair) => headers.Append(pair.0, pair.1);
  }

  method ReadRequestLine(s: bytes) returns (r: Result<RequestLine, LineError>)
    ensures r == ParseRequestLine(s)
  {
    hide TargetOf;
    hide ValidVersion;
    hide MethodOf;
    var m0 := FindToken(s, 0);
    if m0 == |s| {
      return Err(BadSpacing);
    }
    var m1 := FindSpace(s, m0);
    if m1 == |s| {
      return Err(NoMethod);
    }
    var meth := MethodOf(s[m0..m1]);
    if meth.None? {
      return Err(UnknownMethod);
    }
    var u0 := FindToken(s, m1);
    if u0 == |s| {
      return Err(BadSpacing);
    }
    var u1 := FindSpace(s, u0);
    if u1 == |s| {
      return Err(NoUrl);
    }
    var target := ParseRequestUrl(s[u0..u1]);
    if target.None? {
      return Err(Thrown);
    }
    var v0 := FindToken(s, u1);
    if v0 == |s| {
      return Err(BadSpacing);
    }
    var v1 := FindSpace(s, v0);
    if !ValidVersion(s[v0..v1]) {
      return Err(BadVersion);
    }
    return Ok(RequestLine(meth.value, target.value));
  }

  method FindSpace(s: bytes, from: nat) returns (i: nat)
    requires from <= |s|
    ensures i == IndexOf(s, ' ', from)
  {
    var space := FindChar(s, ' ', from, |s|);
    i := if space.Some? then space.value else |s|;
    IndexOfIs(s, ' ', from, i);
  }

  lemma FindSplitIs(s: bytes, from: nat, i: nat)
    requires 1 <= from <= i <= |s|
    requires i < |s| ==> s[i] == ' ' && s[i - 1] == ':'
    requires forall j :: from <= j < i ==> !(s[j] == ' ' && s[j - 1] == ':')
    ensures FindSplit(s, from) == i
  {
  }

  // ---------------------------------------------------------------- whole heads

  datatype Scan = NeedMore | BadHead(error: LineError) | HeadAt(head: RequestHead, end: nat)

  /** Reads lines from `seek` on. The first is the request line, and passes for a header too; a
      line of at most two characters ends the head. */
  function ScanHead(data: bytes, seek: nat, line: Option<RequestLine>, headers: Entries): (r: Scan)
    ensures r.HeadAt? ==> seek + 2 <= r.end <= |data|
    decreases |data| - seek
  {
    match NextLine(data, seek)
    case None => NeedMore
    case Some(end) =>
      var text := data[seek..end];
      match (if line.None? then ParseRequestLine(text) else Ok(line.value))
      case Err(e) => BadHead(e)
      case Ok(rl) =>
        if |text| <= 2 then HeadAt(RequestHead(rl.meth, rl.target, headers), end + 2)
        else ScanHead(data, end + 2, Some(rl), WithHeader(headers, text))
  }

  function FirstHead(data: bytes): (r: Scan)
    ensures r.HeadAt? ==> 2 <= r.end <= |data|
  {
    ScanHead(data, 0, None, [])
  }

  /** What one complete line does to the reading of a head. */
  lemma ScanStep(data: bytes, seek: nat, line: Option<RequestLine>, headers: Entries, end: nat)
    requires NextLine(data, seek) == Some(end)
    ensures seek <= end && end + 2 <= |data|
    ensures ScanHead(data, seek, line, headers) ==
      match (if line.None? then ParseRequestLine(data[seek..end]) else Ok(line.value))
      case Err(e) => BadHead(e)
      case Ok(rl) =>
        if end - seek <= 2 then HeadAt(RequestHead(rl.meth, rl.target, headers), end + 2)
        else ScanHead(data, end + 2, Some(rl), WithHeader(headers, data[seek..end]))
  {
    hide ParseRequestLine;
    hide WithHeader;
  }

  lemma CrlfInPrefix(p: bytes, data: bytes, i: nat)
    requires p <= data
    ensures CrlfAt(p, i) <==> CrlfAt(data, i) && i + 2 <= |p|
  {
    if i + 1 < |p| {
      assert p[i] == data[i] && p[i + 1] == data[i + 1];
    }
  }

  lemma NextLineInPrefix(p: bytes, data: bytes, seek: nat)
    requires p <= data
    ensures NextLine(p, seek).Some? ==> NextLine(data, seek) == NextLine(p, seek)
    ensures NextLine(data, seek).Some? && NextLine(data, seek).value + 2 <= |p| ==> NextLine(p, seek) == NextLine(data, seek)
  {
    forall i: nat ensures CrlfAt(p, i) <==> CrlfAt(data, i) && i + 2 <= |p| {
      CrlfInPrefix(p, data, i);
    }
    match NextLine(p, seek) {
      case Some(e) => NextLineIs(data, seek, e);
      case None =>
    }
    match NextLine(data, seek) {
      case Some(e) => if e + 2 <= |p| { NextLineIs(p, seek, e); }
      case None =>
    }
  }

  /** A head found, or refused, in a prefix is found or refused in everything that follows too. */
  lemma {:induction false} ScanStable(p: bytes, data: bytes, seek: nat, line: Option<RequestLine>, headers: Entries)
    requires p <= data && ScanHead(p, seek, line, headers) != NeedMore
    ensures ScanHead(data, seek, line, headers) == ScanHead(p, seek, line, headers)
    decreases |p| - seek
  {
    hide ParseRequestLine;
    hide WithHeader;
    hide ScanHead;
    hide NextLine;
    HasLine(p, seek, line, headers);
    var end := NextLine(p, seek).value;
    var text := p[seek..end];
    ScanStep(p, seek, line, headers, end);
    NextLineInPrefix(p, data, seek);
    ScanStep(data, seek, line, headers, end);
    assert data[seek..end] == text;
    match (if line.None? then ParseRequestLine(text) else Ok(line.value)) {
      case Err(_) =>
      case Ok(rl) =>
        if |text| > 2 {
          ScanStable(p, data, end + 2, Some(rl), WithHeader(headers, text));
        }
    }
  }

  /** A head is found in every prefix that reaches its end. */
  lemma {:induction false} ScanEnough(p: bytes, data: bytes, seek: nat, line: Option<RequestLine>, headers: Entries)
    requires p <= data
    requires ScanHead(data, seek, line, headers).HeadAt? && ScanHead(data, seek, line, headers).end <= |p|
    ensures ScanHead(p, seek, line, headers) == ScanHead(data, seek, line, headers)
    decreases |data| - seek
  {
    hide ParseRequestLine;
    hide WithHeader;
    hide ScanHead;
    hide NextLine;
    HasLine(data, seek, line, headers);
    var end := NextLine(data, seek).value;
    var text := data[seek..end];
    ScanStep(data, seek, line, headers, end);
    NextLineInPrefix(p, data, seek);
    ScanStep(p, seek, line, headers, end);
    assert p[seek..end] == text;
    if |text| > 2 {
      var rl := (if line.None? then ParseRequestLine(text) else Ok(line.value)).value;
      ScanEnough(p, data, end + 2, Some(rl), WithHeader(headers, text));
    }
  }

  lemma HasLine(data: bytes, seek: nat, line: Option<RequestLine>, headers: Entries)
    requires ScanHead(data, seek, line, headers) != NeedMore
    ensures NextLine(data, seek).Some?
  {
  }

  // ---------------------------------------------------------------- printed heads

  ghost predicate NoCrlf(s: bytes) {
    forall i: nat :: !CrlfAt(s, i)
  }

  /** A printed header that can be taken apart again: the key does not start with a space and holds
      no colon followed by a space, and the value is not empty and does not start with a space. */
  ghost predicate Splittable(p: (bytes, bytes)) {
    && p.0 != [] && p.0[0] != ' '
    && (forall j :: 1 <= j < |p.0| ==> !(p.0[j] == ' ' && p.0[j - 1] == ':'))
    && p.1 != [] && p.1[0] != ' '
  }

  ghost predicate CleanPair(p: (bytes, bytes)) {
    Splittable(p) && NoCrlf(HeaderText(p))
  }

  lemma SplittableParses(p: (bytes, bytes))
    requires Splittable(p)
    ensures HeaderPair(HeaderText(p)) == Some(p)
  {
    var s := HeaderText(p);
    var n := |p.0|;
    NextTokenIs(s, 0, 0);
    assert s[n] == ':' && s[n + 1] == ' ' && s[n + 2] == p.1[0];
    FindSplitIs(s, 1, n + 1);
    NextTokenIs(s, n + 2, n + 2);
    assert s[0..n] == p.0 && s[n + 2..] == p.1;
  }

  lemma ParsedIsSplittable(p: (bytes, bytes))
    requires HeaderPair(HeaderText(p)) == Some(p)
    ensures Splittable(p)
  {
    var s := HeaderText(p);
    var begin := NextToken(s, 0);
    var space := FindSplit(s, begin + 1);
    var value := NextToken(s, space + 1);
    assert |p.0| == space - 1 - begin && |p.1| == |s| - value && |s| == |p.0| + 2 + |p.1|;
    assert begin == 0 && value == space + 1;
    forall j | 0 <= j < |p.0| ensures s[j] == p.0[j] {
    }
  }

  /** A colon with a space behind it, the first after `begin`, splits the line into a key and, after any
      number of spaces, a value; neither is empty. */
  ghost predicate FieldShaped(s: bytes, begin: nat, split: nat, value: nat) {
    && Blank(s, 0, begin) && begin < split < |s| && s[begin] != ' ' && s[split] == ':'
    && (forall j :: begin < j <= split ==> !(s[j] == ' ' && s[j - 1] == ':'))
    && split + 2 <= value < |s| && Blank(s, split + 1, value) && s[value] != ' '
  }

  lemma FieldReads(s: bytes, begin: nat, split: nat, value: nat)
    requires FieldShaped(s, begin, split, value)
    ensures HeaderPair(s) == Some((s[begin..split], s[value..]))
  {
    NextTokenIs(s, 0, begin);
    FindSplitIs(s, begin + 1, split + 1);
    NextTokenIs(s, split + 2, value);
  }

  lemma FieldIsShaped(s: bytes) returns (begin: nat, split: nat, value: nat)
    requires HeaderPair(s).Some?
    ensures FieldShaped(s, begin, split, value)
  {
    begin := NextToken(s, 0);
    var space := FindSplit(s, begin + 1);
    split, value := space - 1, NextToken(s, space + 1);
  }

  /** A line files a header exactly when it has that shape. */
  lemma HeaderFiledIff(s: bytes, p: (bytes, bytes))
    ensures HeaderPair(s) == Some(p) <==>
      exists begin: nat, split: nat, value: nat :: FieldShaped(s, begin, split, value) && p == (s[begin..split], s[value..])
  {
    hide HeaderPair;
    if HeaderPair(s).Some? {
      var begin, split, value := FieldIsShaped(s);
      FieldReads(s, begin, split, value);
    }
    forall begin: nat, split: nat, value: nat | FieldShaped(s, begin, split, value)
      ensures HeaderPair(s) == Some((s[begin..split], s[value..]))
    {
      FieldReads(s, begin, split, value);
    }
  }

  const TIGHT_LENGTH: bytes := "Content-Length:5"

  /** HTTP does not ask for the space: this length is dropped. */
  lemma TightLengthDropped()
    ensures HeaderPair(TIGHT_LENGTH) == None && NoCrlf(TIGHT_LENGTH) && |TIGHT_LENGTH| == 16
  {
    hide HeaderPair;
    Unspaced(TIGHT_LENGTH);
  }

  /** A line without a space files nothing. */
  lemma Unspaced(s: bytes)
    requires ' ' !in s
    ensures HeaderPair(s) == None
  {
    FindSplitNone(s);
  }

  lemma FindSplitNone(s: bytes)
    requires ' ' !in s
    ensures s != [] ==> FindSplit(s, 1) == |s|
  {
    if s != [] {
      FindSplitIs(s, 1, |s|);
    }
  }

  /** A printed header comes back as it was exactly when it is splittable. */
  lemma HeaderRoundTripIff(p: (bytes, bytes))
    ensures HeaderPair(HeaderText(p)) == Some(p) <==> Splittable(p)
  {
    if Splittable(p) {
      SplittableParses(p);
    }
    if HeaderPair(HeaderText(p)) == Some(p) {
      ParsedIsSplittable(p);
    }
  }

  lemma NextLineAfterText(data: bytes, seek: nat, text: bytes, rest: bytes)
    requires seek <= |data| && data[seek..] == text + CRLF + rest
    requires NoCrlf(text)
    ensures NextLine(data, seek) == Some(seek + |text|)
    ensures data[seek..seek + |text|] == text
    ensures data[seek + |text| + 2..] == rest
  {
    var tail := text + CRLF + rest;
    var end := seek + |text|;
    assert forall j :: 0 <= j < |tail| ==> data[seek + j] == tail[j];
    assert data[end] == tail[|text|] == '\r' && data[end + 1] == tail[|text| + 1] == '\n';
    forall i | seek <= i < end ensures !CrlfAt(data, i) {
      assert !CrlfAt(text, i - seek);
      assert data[i] == text[i - seek];
      if i + 1 < end {
        assert data[i + 1] == text[i + 1 - seek];
      }
    }
    NextLineIs(data, seek, end);
    assert data[seek..end] == tail[..|text|] == text;
    assert data[end + 2..] == tail[|text| + 2..] == rest;
  }

  ghost predicate CleanPairs(pairs: seq<(bytes, bytes)>) {
    forall i :: 0 <= i < |pairs| ==> CleanPair(pairs[i])
  }

  /** Scanning a block of printed headers appends them in order and stops at the empty line. */
  lemma {:induction false} ScanBlock(data: bytes, seek: nat, rl: RequestLine, headers: Entries, pairs: seq<(bytes, bytes)>, rest: bytes)
    requires seek <= |data| && data[seek..] == HeaderBlock(pairs) + CRLF + rest && CleanPairs(pairs)
    ensures ScanHead(data, seek, Some(rl), headers)
         == HeadAt(RequestHead(rl.meth, rl.target, Appended(headers, pairs)), seek + |HeaderBlock(pairs)| + 2)
    decreases |pairs|
  {
    hide AfterAppend;
    hide NoCrlf;
    hide CrlfAt;
    hide HeaderPair;
    hide HeaderText;
    if pairs == [] {
      assert data[seek..] == [] + CRLF + rest;
      EmptyNoCrlf();
      NextLineAfterText(data, seek, [], rest);
    } else {
      var p := pairs[0];
      var text := HeaderText(p);
      var after := HeaderBlock(pairs[1..]) + CRLF + rest;
      assert HeaderBlock(pairs) + CRLF + rest == text + CRLF + after;
      assert CleanPair(p);
      assert |text| > 2 by {
        HeaderTextLong(p);
      }
      NextLineAfterText(data, seek, text, after);
      SplittableParses(p);
      ScanBlock(data, seek + |text| + 2, rl, AfterAppend(headers, p.0, p.1), pairs[1..], rest);
    }
  }

  lemma EmptyNoCrlf()
    ensures NoCrlf([])
  {
  }

  lemma HeaderTextLong(p: (bytes, bytes))
    requires CleanPair(p)
    ensures |HeaderText(p)| > 2
  {
  }
}
