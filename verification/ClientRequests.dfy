/** Requests as a client prints them are well formed, whatever their method, target and headers. */
module ClientRequests {
  import opened Bytes
  import opened Values
  import opened HeadText
  import opened HeadParser
  import opened Net
  import opened Stream
  import opened ResponseWriter
  import opened Serve
  import opened Pipelining

  const VERSION: bytes := "HTTP/1.1"

  function LineText(meth: Method, url: bytes): bytes {
    MethodName(meth) + " " + url + " " + VERSION
  }

  /** A target that can stand in a request line. */
  ghost predicate Sendable(url: bytes) {
    url != [] && ' ' !in url && '\r' !in url && url[|url| - 1] != ':' && TargetOf(url).Some?
  }

  /** The four methods that carry a body tell its length; the others send none. */
  function LengthPairs(meth: Method, body: bytes): seq<(bytes, bytes)> {
    if meth in {POST, PUT, PATCH, CONNECT} then [("Content-Length", Decimal(|body|))] else []
  }

  function ClientRequest(meth: Method, url: bytes, pairs: seq<(bytes, bytes)>, body: bytes): Request
    requires TargetOf(url).Some?
  {
    Request(LineText(meth, url), RequestLine(meth, TargetOf(url).value), pairs + LengthPairs(meth, body), body)
  }

  lemma MethodNamePlain(meth: Method)
    ensures var name := MethodName(meth); name != [] && forall i :: 0 <= i < |name| ==> 'A' <= name[i] <= 'Z'
  {
  }

  lemma VersionIsValid()
    ensures ValidVersion(VERSION) && |VERSION| == 8 && ' ' !in VERSION && '\r' !in VERSION
  {
    IndexOfIs(VERSION, '/', 0, 4);
    assert VERSION[..4] == "HTTP" && VERSION[5..] == "1.1";
    TrimmedFixed("HTTP");
    assert Lowered("HTTP") == "http";
  }

  /** The three tokens of a printed request line, by position. */
  lemma LineShape(meth: Method, url: bytes)
    requires Sendable(url)
    ensures var s := LineText(meth, url);
      var m1 := |MethodName(meth)|;
      var u1 := m1 + 1 + |url|;
      Shaped(s, 0, m1, m1 + 1, u1, u1 + 1, |s|) &&
      s[0..m1] == MethodName(meth) && s[m1 + 1..u1] == url && s[u1 + 1..|s|] == VERSION
  {
    hide TargetOf;
    MethodNamePlain(meth);
    VersionIsValid();
    hide MethodName;
    hide ValidVersion;
    var s := LineText(meth, url);
    var m1 := |MethodName(meth)|;
    var u1 := m1 + 1 + |url|;
    assert forall i :: 0 <= i < m1 ==> s[i] == MethodName(meth)[i];
    assert s[m1] == ' ' && s[u1] == ' ';
    assert forall i :: m1 + 1 <= i < u1 ==> s[i] == url[i - m1 - 1];
    assert forall i :: u1 + 1 <= i < |s| ==> s[i] == VERSION[i - u1 - 1];
  }

  lemma LineParses(meth: Method, url: bytes)
    requires Sendable(url)
    ensures ParseRequestLine(LineText(meth, url)) == Ok(RequestLine(meth, TargetOf(url).value))
  {
    hide TargetOf;
    hide Shaped;
    hide ParseRequestLine;
    hide MethodOf;
    hide MethodName;
    hide ValidVersion;
    hide LineText;
    var s := LineText(meth, url);
    var m1 := |MethodName(meth)|;
    var u1 := m1 + 1 + |url|;
    LineShape(meth, url);
    RequestLineReads(s, 0, m1, m1 + 1, u1, u1 + 1, |s|);
    MethodOfIff(MethodName(meth), meth);
    VersionIsValid();
  }

  /** A printed request line is one line, and none that passes for a header. */
  lemma LineIsPlain(meth: Method, url: bytes)
    requires Sendable(url)
    ensures var s := LineText(meth, url); NoCrlf(s) && |s| > 2 && HeaderPair(s) == None
  {
    hide TargetOf;
    MethodNamePlain(meth);
    VersionIsValid();
    hide MethodName;
    hide ValidVersion;
    var s := LineText(meth, url);
    var m1 := |MethodName(meth)|;
    var u1 := m1 + 1 + |url|;
    assert forall i :: 0 <= i < m1 ==> s[i] == MethodName(meth)[i];
    assert forall i :: m1 + 1 <= i < u1 ==> s[i] == url[i - m1 - 1];
    assert forall i :: u1 + 1 <= i < |s| ==> s[i] == VERSION[i - u1 - 1];
    assert s[m1] == ' ' && s[u1] == ' ';
    NextTokenIs(s, 0, 0);
    FindSplitIs(s, 1, |s|);
  }

  lemma {:induction false} AppendedSnoc(m: Entries, pairs: seq<(bytes, bytes)>, last: (bytes, bytes))
    ensures Appended(m, pairs + [last]) == AfterAppend(Appended(m, pairs), last.0, last.1)
    decreases |pairs|
  {
    hide AfterAppend;
    if pairs == [] {
      assert ([] + [last])[1..] == [];
      assert [] + [last] == [last];
    } else {
      assert (pairs + [last])[1..] == pairs[1..] + [last];
      AppendedSnoc(AfterAppend(m, pairs[0].0, pairs[0].1), pairs[1..], last);
    }
  }

  lemma LengthName()
    ensures Normalized("Content-Length") == Normalized("content-length") == "content-length"
  {
    hide Trimmed;
    HeaderNamesAreNormal();
    TrimmedFixed("Content-Length");
    LengthLowered();
  }

  lemma LengthLowered()
    ensures Lowered("Content-Length") == "content-length"
  {
    var s: bytes := "Content-Length";
    assert s[0] == 'C' && s[8] == 'L';
    assert forall i :: 0 <= i < |s| && i != 0 && i != 8 ==> !('A' <= s[i] <= 'Z');
  }

  lemma LengthAfterAppend(m: Entries, n: nat)
    ensures LastOf(AfterAppend(m, "Content-Length", Decimal(n)), "content-length") == Decimal(n)
  {
    hide Normalized;
    hide AfterAppend;
    hide AllOf;
    hide Decimal;
    LengthName();
    AllOfAfterAppend(m, "Content-Length", Decimal(n), "content-length");
  }

  /** Whatever headers come before, the length appended last is the one that counts, and whatever length is
      announced, the five methods without a body have none. */
  lemma LengthCounts(meth: Method, target: Target, pairs: seq<(bytes, bytes)>, body: bytes)
    requires |body| <= SIZE_MAX && (body == [] || meth in {POST, PUT, PATCH, CONNECT})
    ensures BodyLength(RequestHead(meth, target, Appended([], pairs + LengthPairs(meth, body)))) == |body|
  {
    hide AfterAppend;
    hide Appended;
    hide LastOf;
    hide Decimal;
    hide BodyLength;
    var headers := Appended([], pairs + LengthPairs(meth, body));
    if meth in {POST, PUT, PATCH, CONNECT} {
      AppendedSnoc([], pairs, ("Content-Length", Decimal(|body|)));
      LengthAfterAppend(Appended([], pairs), |body|);
    }
    BodyLengthIs(RequestHead(meth, target, headers), |body|);
  }

  lemma LengthPairClean(n: nat)
    ensures CleanPair(("Content-Length", Decimal(n)))
  {
    var s := HeaderText(("Content-Length", Decimal(n)));
    assert forall i :: 0 <= i < |s| ==> s[i] != '\r';
  }

  lemma ClientRequestWellFormed(meth: Method, url: bytes, pairs: seq<(bytes, bytes)>, body: bytes, maxHeaderSize: nat)
    requires Sendable(url) && CleanPairs(pairs)
    requires |body| <= SIZE_MAX && (body == [] || meth in {POST, PUT, PATCH, CONNECT})
    ensures WellFormed(ClientRequest(meth, url, pairs, body), maxHeaderSize) <==>
            |HeadBytes(ClientRequest(meth, url, pairs, body))| <= maxHeaderSize
  {
    hide HeadBytes;
    hide BodyLength;
    hide ParseRequestLine;
    hide HeaderPair;
    hide NoCrlf;
    hide CleanPair;
    hide TargetOf;
    hide Appended;
    LineParses(meth, url);
    LineIsPlain(meth, url);
    LengthPairClean(|body|);
    LengthCounts(meth, TargetOf(url).value, pairs, body);
  }

  // ---------------------------------------------------------------- a client's requests on one connection

  datatype Client = Client(meth: Method, url: bytes, pairs: seq<(bytes, bytes)>, body: bytes)

  function ClientHead(c: Client): bytes {
    MethodName(c.meth) + " " + c.url + " HTTP/1.1" + "\r\n" + HeaderBlock(c.pairs + LengthPairs(c.meth, c.body)) + "\r\n"
  }

  function ClientWire(clients: seq<Client>): bytes {
    if clients == [] then [] else ClientHead(clients[0]) + clients[0].body + ClientWire(clients[1..])
  }

  /** A request that can be sent: only four methods have a body. */
  ghost predicate Proper(c: Client, maxHeaderSize: nat) {
    && Sendable(c.url) && CleanPairs(c.pairs) && |ClientHead(c)| <= maxHeaderSize
    && |c.body| <= SIZE_MAX && (c.body == [] || c.meth in {POST, PUT, PATCH, CONNECT})
  }

  /** The handler saw that request: its method, target and headers, and of its body the beginning or, when
      `whole`, all. */
  ghost predicate Heard(x: Exchange, c: Client, whole: bool) {
    && x.head.meth == c.meth && TargetOf(c.url) == Some(x.head.target)
    && x.head.headers == Appended([], c.pairs + LengthPairs(c.meth, c.body))
    && BodyGot(x) <= c.body && (whole ==> BodyGot(x) == c.body)
  }

  ghost predicate AllHeard(log: seq<Exchange>, clients: seq<Client>, whole: bool) {
    |log| <= |clients| && forall i :: 0 <= i < |log| ==> Heard(log[i], clients[i], whole)
  }

  function RequestOf(c: Client): Request
    requires TargetOf(c.url).Some?
  {
    ClientRequest(c.meth, c.url, c.pairs, c.body)
  }

  lemma ClientWellFormed(c: Client, maxHeaderSize: nat)
    requires Proper(c, maxHeaderSize)
    ensures HeadBytes(RequestOf(c)) == ClientHead(c) && WellFormed(RequestOf(c), maxHeaderSize)
  {
    hide WellFormed;
    hide HeaderBlock;
    hide TargetOf;
    hide CleanPairs;
    assert VERSION == "HTTP/1.1";
    ClientRequestWellFormed(c.meth, c.url, c.pairs, c.body, maxHeaderSize);
  }

  function RequestsOf(clients: seq<Client>): (r: seq<Request>)
    requires forall c :: c in clients ==> TargetOf(c.url).Some?
    ensures |r| == |clients| && forall i :: 0 <= i < |r| ==> r[i] == RequestOf(clients[i])
  {
    seq(|clients|, i requires 0 <= i < |clients| => RequestOf(clients[i]))
  }

  lemma {:induction false} ClientWireIs(clients: seq<Client>, maxHeaderSize: nat)
    requires forall c :: c in clients ==> Proper(c, maxHeaderSize) && TargetOf(c.url).Some?
    ensures Wire(RequestsOf(clients)) == ClientWire(clients) && AllWellFormed(RequestsOf(clients), maxHeaderSize)
  {
    hide WellFormed;
    hide HeadBytes;
    hide ClientHead;
    hide TargetOf;
    hide RequestOf;
    forall i | 0 <= i < |clients| ensures WellFormed(RequestsOf(clients)[i], maxHeaderSize) {
      ClientWellFormed(clients[i], maxHeaderSize);
    }
    if clients != [] {
      ClientWellFormed(clients[0], maxHeaderSize);
      ClientWireIs(clients[1..], maxHeaderSize);
      assert RequestsOf(clients)[1..] == RequestsOf(clients[1..]);
      BodyIs(clients[0]);
    }
  }

  lemma BodyIs(c: Client)
    requires TargetOf(c.url).Some?
    ensures RequestOf(c).body == c.body
  {
  }

  lemma ListedIsHeard(log: seq<Exchange>, clients: seq<Client>, whole: bool)
    requires forall c :: c in clients ==> TargetOf(c.url).Some?
    requires Lists(log, RequestsOf(clients), whole)
    ensures AllHeard(log, clients, whole)
  {
    hide Appended;
    hide TargetOf;
    hide BodyGot;
    forall i | 0 <= i < |log| ensures Heard(log[i], clients[i], whole) {
      assert Serves(log[i], RequestsOf(clients)[i], whole);
    }
  }

  /** What a client sends on one connection is what the handler sees, request by request, whatever the methods
      and bodies are: each body is its own request's and never part of the next head. A draining handler on
      a network that never goes silent sees every body whole, and unless it ends the connection, raises or
      upgrades, every request. */
  method ServeClients(conn: Connection, ghost clients: seq<Client>, h: Handler, maxHeaderSize: nat, date: bytes)
    returns (threw: bool, stream: StreamState, ghost log: seq<Exchange>, ghost last: Option<Visit>, ghost lost: bool)
    requires conn.open && conn.unread == ClientWire(clients)
    requires forall c :: c in clients ==> Proper(c, maxHeaderSize)
    modifies conn
    ensures fresh(stream) && (conn.reliable ==> conn.stalls == old(conn.stalls))
    ensures AllDispatched(h, log) && FramedWhenEnough(log, date) && TokensTell(log, date, last.None?)
    ensures old(conn.output) + Replies(log, date) <= conn.output
    ensures !lost ==> AllHeard(Plain(log), clients, Draining(h) && conn.stalls == old(conn.stalls))
    ensures lost ==> SomeCutShort(log)
    ensures Draining(h) && conn.stalls == old(conn.stalls) ==>
      !lost && (last.Some? && last.value.NoHead? ==> |log| == |clients|)
  {
    hide Proper;
    hide ClientHead;
    hide RequestOf;
    hide Wire;
    hide ClientWire;
    hide WellFormed;
    hide TargetOf;
    hide Lists;
    hide AllHeard;
    hide Replies;
    hide AllDispatched;
    hide FramedWhenEnough;
    hide TokensTell;
    hide LastingBut;
    hide Plain;
    hide SomeCutShort;
    hide Draining;
    hide LastText;
    hide ThrewAt;
    hide Attempted;
    hide Serves;
    ClientsHaveTargets(clients, maxHeaderSize);
    ClientWireIs(clients, maxHeaderSize);
    threw, stream, log, last, lost := ServePipelined(conn, RequestsOf(clients), h, maxHeaderSize, date);
    if !lost {
      ListedIsHeard(Plain(log), clients, Draining(h) && conn.stalls == old(conn.stalls));
    }
  }

  lemma ClientsHaveTargets(clients: seq<Client>, maxHeaderSize: nat)
    requires forall c :: c in clients ==> Proper(c, maxHeaderSize)
    ensures forall c :: c in clients ==> TargetOf(c.url).Some?
  {
  }
}
