/** Writing one response: a head that is sent at once or deferred until the body is known. */
module ResponseWriter {
  import opened Bytes
  import opened Values
  import opened Net
  import opened Stream
  import opened HeadText

  const VERSION_PREFIX: bytes := "HTTP/1.1 "
  const CONTENT_LENGTH: bytes := "content-length"
  const CONTENT_TYPE: bytes := "content-type"
  const CONNECTION: bytes := "connection"
  const DATE: bytes := "date"
  const SERVER: bytes := "server"
  const SERVER_NAME: bytes := "maddsua/l3"
  const CACHE_CONTROL: bytes := "cache-control"

  /** A status code with its reason phrase; the codes missing from the table have none. */
  datatype Status = Status(code: nat, phrase: Option<bytes>)

  const OK_STATUS: Status := Status(200, Some("OK"))

  datatype Response = Response(status: Status, headers: Entries, body: bytes)

  datatype WriteError = AlreadyWritten | BadContentLength | UnknownStatus | ConnectionClosed

  datatype Deferred = Deferred(headers: Entries, status: Status, body: bytes)

  // ---------------------------------------------------------------- heads as bytes

  function StatusText(status: Status): bytes
    requires status.phrase.Some?
  {
    VERSION_PREFIX + Decimal(status.code) + " " + status.phrase.value
  }

  function StatusLine(status: Status): bytes
    requires status.phrase.Some?
  {
    StatusText(status) + CRLF
  }

  function RenderHead(status: Status, headers: Entries): bytes
    requires status.phrase.Some?
  {
    StatusLine(status) + HeaderBlock(Flat(headers)) + CRLF
  }

  function Render(r: Response): bytes
    requires r.status.phrase.Some?
  {
    RenderHead(r.status, r.headers) + r.body
  }

  method WriteHead(conn: Connection, status: Status, headers: Entries) returns (r: Result<nat, WriteError>)
    modifies conn`output
    ensures r.Ok? <==> conn.open && status.phrase.Some?
    ensures r.Ok? ==> conn.output == old(conn.output) + RenderHead(status, headers)
    ensures r.Ok? ==> r.value == |conn.output| - |old(conn.output)|
    ensures r.Err? ==> conn.output == old(conn.output) && r.error == if status.phrase.None? then UnknownStatus else ConnectionClosed
  {
    hide Flat;
    hide StatusLine;
    hide HeaderText;
    if status.phrase.None? {
      return Err(UnknownStatus);
    }
    if !conn.open {
      return Err(ConnectionClosed);
    }
    var written := conn.Write(StatusLine(status));
    var pairs := ListEntries(headers);
    for i := 0 to |pairs|
      invariant conn.output == old(conn.output) + StatusLine(status) + HeaderBlock(pairs[..i])
      invariant written == |conn.output| - |old(conn.output)|
    {
      var n := conn.Write(HeaderText(pairs[i]) + CRLF);
      written := written + n;
      HeaderBlockSnoc(pairs[..i], pairs[i]);
      assert pairs[..i + 1] == pairs[..i] + [pairs[i]];
    }
    assert pairs[..|pairs|] == pairs;
    var n := conn.Write(CRLF);
    assert conn.output == old(conn.output) + RenderHead(status, headers);
    return Ok(written + n);
  }

  // ---------------------------------------------------------------- what a head announces

  predicate Contains(s: bytes, t: bytes) {
    t <= s || (s != [] && Contains(s[1..], t))
  }

  predicate Upgrades(m: Entries) {
    Contains(Normalized(LastOf(m, CONNECTION)), "upgrade")
  }

  predicate StreamsEvents(m: Entries) {
    Contains(Normalized(LastOf(m, CONTENT_TYPE)), "event-stream")
  }

  function WithDefault(m: Entries, key: bytes, value: bytes): Entries {
    if AllOf(m, key) != [] then m else AfterSet(m, key, value)
  }

  function WithoutLength(m: Entries): Entries {
    var m1 := if Upgrades(m) then AfterDel(m, CONTENT_LENGTH) else m;
    if StreamsEvents(m) then AfterDel(m1, CONTENT_LENGTH) else m1
  }

  lemma LengthAloneIsDropped(m: Entries)
    requires ValidEntries(m)
    ensures StreamsEvents(AfterDel(m, CONTENT_LENGTH)) == StreamsEvents(m)
  {
    HeaderNamesAreNormal();
    AllOfAfterDel(m, CONTENT_LENGTH, CONTENT_TYPE);
  }

  /** The headers as `write_header` completes them. */
  function Prepared(m: Entries, keepAlive: bool, date: bytes): Entries {
    Completed(WithoutLength(m), keepAlive, date)
  }

  function Completed(m: Entries, keepAlive: bool, date: bytes): Entries {
    var m1 := WithDefault(m, CONNECTION, if keepAlive then "keep-alive" else "close");
    var m2 := WithDefault(m1, DATE, date);
    var m3 := WithDefault(m2, SERVER, SERVER_NAME);
    WithDefault(m3, CACHE_CONTROL, "no-cache")
  }

  lemma HeaderNamesAreNormal()
    ensures Normalized(CONTENT_LENGTH) == CONTENT_LENGTH
    ensures Normalized(CONNECTION) == CONNECTION
    ensures Normalized(CONTENT_TYPE) == CONTENT_TYPE
    ensures Normalized(DATE) == DATE
    ensures Normalized(SERVER) == SERVER
    ensures Normalized(CACHE_CONTROL) == CACHE_CONTROL
  {
    TrimmedFixed(CONTENT_LENGTH);
    TrimmedFixed(CONNECTION);
    TrimmedFixed(CONTENT_TYPE);
    TrimmedFixed(DATE);
    TrimmedFixed(SERVER);
    TrimmedFixed(CACHE_CONTROL);
  }

  lemma WithDefaultKeeps(m: Entries, key: bytes, value: bytes, q: bytes)
    requires ValidEntries(m)
    requires Normalized(key) == key && Normalized(q) == q != key
    ensures ValidEntries(WithDefault(m, key, value))
    ensures AllOf(WithDefault(m, key, value), q) == AllOf(m, q)
  {
    SetKeepsValid(m, key, value);
    AllOfAfterSet(m, key, value, q);
  }

  /** Completing the headers keeps the length announced, or drops it with an upgrade or an
      event stream. */
  lemma PreparedLength(m: Entries, keepAlive: bool, date: bytes)
    requires ValidEntries(m)
    ensures ValidEntries(Prepared(m, keepAlive, date))
    ensures LastOf(Prepared(m, keepAlive, date), CONTENT_LENGTH)
         == if Upgrades(m) || StreamsEvents(m) then [] else LastOf(m, CONTENT_LENGTH)
  {
    HeaderNamesAreNormal();
    var m1 := if Upgrades(m) then AfterDel(m, CONTENT_LENGTH) else m;
    DelKeepsValid(m, CONTENT_LENGTH);
    DelKeepsValid(m1, CONTENT_LENGTH);
    AllOfAfterDel(m, CONTENT_LENGTH, CONTENT_LENGTH);
    AllOfAfterDel(m1, CONTENT_LENGTH, CONTENT_LENGTH);
    PreparedKeepsLength(WithoutLength(m), keepAlive, date);
  }

  lemma PreparedKeepsLength(m0: Entries, keepAlive: bool, date: bytes)
    requires ValidEntries(m0)
    ensures ValidEntries(Completed(m0, keepAlive, date))
    ensures AllOf(Completed(m0, keepAlive, date), CONTENT_LENGTH) == AllOf(m0, CONTENT_LENGTH)
  {
    HeaderNamesAreNormal();
    var token := if keepAlive then "keep-alive" else "close";
    var m1 := WithDefault(m0, CONNECTION, token);
    var m2 := WithDefault(m1, DATE, date);
    var m3 := WithDefault(m2, SERVER, SERVER_NAME);
    WithDefaultKeeps(m0, CONNECTION, token, CONTENT_LENGTH);
    WithDefaultKeeps(m1, DATE, date, CONTENT_LENGTH);
    WithDefaultKeeps(m2, SERVER, SERVER_NAME, CONTENT_LENGTH);
    WithDefaultKeeps(m3, CACHE_CONTROL, "no-cache", CONTENT_LENGTH);
  }

  predicate Streaming(m: Entries) {
    Upgrades(m) || StreamsEvents(m)
  }

  /** The length that a head with these headers announces; upgrades and event streams drop it. */
  function LengthText(m: Entries): bytes {
    if Streaming(m) then [] else LastOf(m, CONTENT_LENGTH)
  }

  /** Sending the head does not throw: the length can be read, and the head is deferred or can go out. */
  predicate CanStart(m: Entries, status: Status, open: bool) {
    var length := LengthText(m);
    && (length == [] || Stoul(length).Some?)
    && ((length == [] && !Streaming(m)) || (open && status.phrase.Some?))
  }

  /** The body bytes a response of announced length lets through. */
  function Accepted(announced: Option<nat>, written: bytes): (r: bytes)
    ensures r <= written && (announced.Some? ==> |r| <= announced.value)
  {
    if announced.Some? && announced.value < |written| then written[..announced.value] else written
  }

  lemma AcceptedMore(announced: Option<nat>, written: bytes, data: bytes)
    ensures var done := |Accepted(announced, written)|;
      Accepted(announced, written + data) == Accepted(announced, written) +
        if announced.None? || |data| <= announced.value - done then data else data[..announced.value - done]
  {
    var done := Accepted(announced, written);
    if announced.Some? && announced.value < |written + data| {
      if |written| <= announced.value {
        assert (written + data)[..announced.value] == written + data[..announced.value - |written|];
      } else {
        assert (written + data)[..announced.value] == written[..announced.value] + data[..0];
      }
    }
  }

  // ---------------------------------------------------------------- the writer

  class ResponseWriter {
    const conn: Connection
    const stream: StreamState
    const headers: Values
    const date: bytes

    var headerWritten: bool
    var bodyWritten: nat
    var deferred: Option<Deferred>
    var announced: Option<nat>

    /** The output before this response, all data handed to `Write`, and the head decided on. */
    ghost const base: bytes
    ghost var written: bytes
    ghost var status: Status
    ghost var sent: Entries
    /** Sending the head threw; a handler that goes on writes its body without one. */
    ghost var failed: bool

    ghost predicate Valid()
      reads this, conn`output, headers, stream`httpKeepAlive, stream`rawIo, stream`streamResponse
    {
      && headers.Valid()
      && stream.Safe()
      && (!headerWritten ==>
            && written == [] && bodyWritten == 0 && deferred.None? && announced.None?
            && !failed && conn.output == base && !stream.rawIo && !stream.streamResponse)
      && (deferred.Some? ==>
            && deferred.value == Deferred(sent, status, written) && !failed
            && announced.None? && conn.output == base && ValidEntries(sent))
      && (headerWritten && deferred.None? ==>
            && (failed || (status.phrase.Some? && ValidEntries(sent)))
            && conn.output == base + HeadSent() + Accepted(announced, written)
            && bodyWritten == |Accepted(announced, written)|)
    }

    /** The head as it went out; nothing when sending it threw. */
    ghost function HeadSent(): bytes
      reads this`failed, this`status, this`sent
    {
      if failed || status.phrase.None? then [] else RenderHead(status, sent)
    }

    constructor (conn: Connection, stream: StreamState, date: bytes)
      requires stream.Safe() && !stream.rawIo && !stream.streamResponse
      ensures Valid() && this.conn == conn && this.stream == stream && this.date == date
      ensures fresh(headers) && base == conn.output
      ensures headers.entries == [] && !headerWritten && !failed && written == []
    {
      this.conn, this.stream, this.date, this.base := conn, stream, date, conn.output;
      headers := new Values();
      headerWritten, bodyWritten, deferred, announced := false, 0, None, None;
      written, status, sent, failed := [], OK_STATUS, [], false;
    }

    /** The response that the output will hold once `Flush` is called now. */
    ghost function Final(): Response
      reads this, headers
    {
      if !headerWritten then Response(OK_STATUS, AfterSet(headers.entries, CONTENT_LENGTH, Decimal(0)), [])
      else if deferred.Some? then Response(status, AfterSet(sent, CONTENT_LENGTH, Decimal(|written|)), written)
      else Response(status, sent, Accepted(announced, written))
    }

    method SetDefault(key: bytes, value: bytes)
      requires headers.Valid()
      modifies headers
      ensures headers.Valid() && headers.entries == WithDefault(old(headers.entries), key, value)
    {
      var had := headers.Has(key);
      if !had {
        headers.Set(key, value);
      }
    }

    method IsUpgrade() returns (r: bool)
      ensures r == Upgrades(headers.entries)
    {
      var token := headers.Get(CONNECTION);
      token := ResetCase(token);
      r := Contains(token, "upgrade");
    }

    method IsEventStream() returns (r: bool)
      ensures r == StreamsEvents(headers.entries)
    {
      var token := headers.Get(CONTENT_TYPE);
      token := ResetCase(token);
      r := Contains(token, "event-stream");
    }

    /** Flags upgraded connections and streaming responses. */
    method FlagModes()
      requires headers.Valid()
      modifies headers, stream`httpKeepAlive, stream`httpBodyPending, stream`rawIo, stream`streamResponse
      ensures headers.Valid() && headers.entries == WithoutLength(old(headers.entries))
      ensures Flagged(old(headers.entries))
    {
      hide Upgrades;
      hide StreamsEvents;
      hide AfterDel;
      hide ValidEntries;
      LengthAloneIsDropped(headers.entries);
      var upgrades := IsUpgrade();
      if upgrades {
        headers.Del(CONTENT_LENGTH);
        stream.httpKeepAlive := false;
        stream.httpBodyPending := 0;
        stream.rawIo := true;
      }
      var streams := IsEventStream();
      if streams {
        headers.Del(CONTENT_LENGTH);
        stream.httpKeepAlive := false;
        stream.streamResponse := true;
      }
    }

    method CompleteHeaders()
      requires headers.Valid()
      modifies headers
      ensures headers.Valid() && headers.entries == Completed(old(headers.entries), stream.httpKeepAlive, date)
    {
      hide WithDefault;
      hide ValidEntries;
      SetDefault(CONNECTION, if stream.httpKeepAlive then "keep-alive" else "close");
      SetDefault(DATE, date);
      SetDefault(SERVER, SERVER_NAME);
      SetDefault(CACHE_CONTROL, "no-cache");
    }

    method PrepareHeaders()
      requires headers.Valid() && stream.Safe()
      modifies headers, stream`httpKeepAlive, stream`httpBodyPending, stream`rawIo, stream`streamResponse
      ensures headers.Valid() && stream.Safe() && Flagged(old(headers.entries))
      ensures headers.entries == Prepared(old(headers.entries), stream.httpKeepAlive, date)
    {
      FlagModes();
      CompleteHeaders();
    }

    method WriteHeader(status: Status) returns (r: Result<nat, WriteError>)
      requires Valid()
      modifies this`headerWritten, this`deferred, this`announced, this`status, this`sent, this`failed
      modifies conn`output, headers, stream`httpKeepAlive, stream`httpBodyPending, stream`rawIo, stream`streamResponse
      ensures old(conn.output) <= conn.output
      ensures Valid() && headerWritten
      ensures old(headerWritten) ==> r == Err(AlreadyWritten) && unchanged(this, conn, headers, stream)
      ensures !old(headerWritten) ==>
        && (failed <==> r.Err?) && (r.Ok? <==> CanStart(old(headers.entries), status, conn.open))
        && (r.Ok? ==> (deferred.Some? || conn.open) && r.value == |conn.output| - |old(conn.output)|)
        && (r.Err? ==> r.error == HeadError())
      // an upgrade or an event stream ends keep-alive for good, and drops the length
      ensures !old(headerWritten) ==> Flagged(old(headers.entries))
      // which of the three modes the response is in
      ensures !old(headerWritten) ==>
        this.status == status && sent == Prepared(old(headers.entries), stream.httpKeepAlive, date) && ModeDecided()
    {
      if headerWritten {
        return Err(AlreadyWritten);
      }
      r := FirstHeader(status);
    }

    twostate predicate Flagged(m: Entries)
      reads stream
    {
      && stream.rawIo == (old(stream.rawIo) || Upgrades(m))
      && stream.streamResponse == (old(stream.streamResponse) || StreamsEvents(m))
      && stream.httpKeepAlive == (old(stream.httpKeepAlive) && !Upgrades(m) && !StreamsEvents(m))
      && stream.httpBodyPending == (if Upgrades(m) then 0 else old(stream.httpBodyPending))
    }

    /** Plain HTTP is left for good, and that, but nothing else, ends keep-alive. */
    twostate predicate Leaves()
      reads stream
    {
      && (old(stream.rawIo) ==> stream.rawIo) && (old(stream.streamResponse) ==> stream.streamResponse)
      && (stream.httpKeepAlive <==> old(stream.httpKeepAlive) && !stream.rawIo && !stream.streamResponse)
    }

    /** Deferred without a length, announced with one, streamed after an upgrade or for events. */
    ghost predicate ModeDecided()
      reads this, stream`rawIo, stream`streamResponse
    {
      var length := LastOf(sent, CONTENT_LENGTH);
      && (deferred.Some? <==> length == [] && !stream.rawIo && !stream.streamResponse)
      && announced == (if length == [] then None else Stoul(length))
      && (length != [] && announced.None? ==> failed)
    }

    method FirstHeader(status: Status) returns (r: Result<nat, WriteError>)
      requires Valid() && !headerWritten
      modifies this`headerWritten, this`deferred, this`announced, this`status, this`sent, this`failed
      modifies conn`output, headers, stream`httpKeepAlive, stream`httpBodyPending, stream`rawIo, stream`streamResponse
      ensures old(conn.output) <= conn.output
      ensures Valid() && headerWritten && (failed <==> r.Err?) && ModeDecided()
      ensures Flagged(old(headers.entries))
      ensures this.status == status && sent == Prepared(old(headers.entries), stream.httpKeepAlive, date)
      ensures r.Ok? <==> CanStart(old(headers.entries), status, conn.open)
      ensures r.Ok? ==> (deferred.Some? || conn.open) && r.value == |conn.output| - |old(conn.output)|
      ensures r.Err? ==> r.error == HeadError()
    {
      hide RenderHead;
      hide ValidEntries;
      hide Stoul;
      hide LastOf;
      hide Prepared;
      hide Upgrades;
      hide StreamsEvents;
      headerWritten := true;
      failed := true;
      PrepareHeaders();
      PreparedLength(old(headers.entries), stream.httpKeepAlive, date);
      r := SendOrDefer(status);
    }

    /** Neither the length nor the status nor the connection makes sending the head throw. */
    ghost predicate Sendable()
      reads this, stream`rawIo, stream`streamResponse, conn`open
    {
      var length := LastOf(sent, CONTENT_LENGTH);
      && (length == [] || Stoul(length).Some?)
      && ((length == [] && !stream.rawIo && !stream.streamResponse) || (conn.open && status.phrase.Some?))
    }

    /** Which of these it is. */
    ghost function HeadError(): WriteError
      reads this`sent, this`status
    {
      var length := LastOf(sent, CONTENT_LENGTH);
      if length != [] && Stoul(length).None? then BadContentLength
      else if status.phrase.None? then UnknownStatus else ConnectionClosed
    }

    /** Defers the response if no content length is given, otherwise sends the head. */
    method SendOrDefer(status: Status) returns (r: Result<nat, WriteError>)
      requires headers.Valid() && stream.Safe() && headerWritten && failed
      requires written == [] && bodyWritten == 0 && deferred.None? && announced.None? && conn.output == base
      modifies this`deferred, this`announced, this`status, this`sent, this`failed, conn`output, headers
      ensures old(conn.output) <= conn.output
      ensures Valid() && (failed <==> r.Err?)
      ensures this.status == status && sent == old(headers.entries)
      ensures (r.Ok? <==> Sendable()) && ModeDecided()
      ensures r.Ok? ==> (deferred.Some? || conn.open) && r.value == |conn.output| - |old(conn.output)|
      ensures r.Err? ==> r.error == HeadError()
    {
      hide RenderHead;
      hide ValidEntry;
      hide Stoul;
      hide LastOf;
      this.status, sent := status, headers.entries;
      var bodyDeferrable := !(stream.streamResponse || stream.rawIo);
      var contentLength := headers.Get(CONTENT_LENGTH);
      assert base + [] + [] == base;
      if bodyDeferrable && contentLength == [] {
        deferred := Some(Deferred(headers.entries, status, []));
        headers.entries := [];
        failed := false;
        return Ok(0);
      } else if contentLength != [] {
        announced := Stoul(contentLength);
        if announced.None? {
          return Err(BadContentLength);
        }
      }
      r := SendHead(status);
    }

    /** Sends the head decided on. */
    method SendHead(status: Status) returns (r: Result<nat, WriteError>)
      requires headers.Valid() && this.status == status && sent == headers.entries && stream.Safe() && headerWritten && failed
      requires written == [] && bodyWritten == 0 && deferred.None? && conn.output == base
      modifies this`failed, conn`output
      ensures old(conn.output) <= conn.output
      ensures Valid() && (failed <==> r.Err?)
      ensures r.Ok? <==> conn.open && status.phrase.Some?
      ensures r.Ok? ==> r.value == |conn.output| - |old(conn.output)|
      ensures r.Err? ==> r.error == if status.phrase.None? then UnknownStatus else ConnectionClosed
    {
      hide RenderHead;
      hide ValidEntry;
      assert base + [] + [] == base;
      r := WriteHead(conn, status, headers.entries);
      failed := r.Err?;
      if r.Ok? {
        assert base + RenderHead(status, sent) + [] == base + RenderHead(status, sent);
      }
    }

    /** All announced bytes have been written, so more are dropped. */
    ghost predicate Full()
      reads this
    {
      announced.Some? && bodyWritten >= announced.value
    }

    method Write(data: bytes) returns (r: Result<nat, WriteError>)
      requires Valid()
      modifies this, headers
      modifies conn`output, stream`httpKeepAlive, stream`httpBodyPending, stream`rawIo, stream`streamResponse
      ensures old(conn.output) <= conn.output
      ensures Valid() && headerWritten
      // when it throws, and what it leaves behind
      ensures old(headerWritten) ==>
        && (r.Ok? <==> old(deferred).Some? || old(Full()) || conn.open)
        && (r.Err? ==> unchanged(this, conn, headers, stream) && r.error == ConnectionClosed)
      ensures !old(headerWritten) ==>
        && (r.Ok? <==> CanStart(old(headers.entries), OK_STATUS, conn.open)) && (failed <==> r.Err?)
        && status == OK_STATUS && sent == Prepared(old(headers.entries), stream.httpKeepAlive, date)
        && ModeDecided() && Flagged(old(headers.entries))
      ensures written == if r.Ok? then old(written) + data else old(written)
      ensures old(headerWritten) ==>
        && stream.rawIo == old(stream.rawIo) && stream.httpKeepAlive == old(stream.httpKeepAlive)
        && stream.streamResponse == old(stream.streamResponse) && stream.httpBodyPending == old(stream.httpBodyPending)
        && status == old(status) && sent == old(sent) && announced == old(announced) && failed == old(failed)
        && deferred.Some? == old(deferred.Some?) && (old(ModeDecided()) ==> ModeDecided())
      ensures r.Ok? && old(headerWritten) && old(deferred).None? && old(announced).None? ==>
        conn.output == old(conn.output) + data && r.value == |data|
      ensures r.Ok? && old(headerWritten) ==>
        r.value == if old(deferred).Some? then |data| else |conn.output| - |old(conn.output)|
      ensures Leaves()
      ensures !stream.rawIo ==> !old(stream.rawIo) && stream.httpBodyPending == old(stream.httpBodyPending)
    {
      hide RenderHead;
      hide ValidEntries;
      hide Stoul;
      hide LastOf;
      hide Prepared;
      hide Upgrades;
      hide StreamsEvents;
      hide Accepted;
      if !headerWritten {
        var h := WriteHeader(OK_STATUS);
        if h.Err? {
          return h;
        }
      }
      r := WriteBody(data);
      assert [] + data == data;
    }

    method WriteBody(data: bytes) returns (r: Result<nat, WriteError>)
      requires Valid() && headerWritten
      modifies this`deferred, this`bodyWritten, this`written, conn`output
      ensures old(conn.output) <= conn.output
      ensures Valid()
      ensures r.Ok? <==> old(deferred).Some? || old(Full()) || conn.open
      ensures written == if r.Ok? then old(written) + data else old(written)
      ensures deferred.Some? == old(deferred.Some?)
      ensures r.Ok? && old(deferred).None? && announced.None? ==> conn.output == old(conn.output) + data && r.value == |data|
      ensures r.Ok? ==> r.value == if old(deferred).Some? then |data| else |conn.output| - |old(conn.output)|
      ensures r.Err? ==> unchanged(this, conn) && r.error == ConnectionClosed
    {
      hide RenderHead;
      hide ValidEntries;
      hide Accepted;
      if deferred.Some? {
        deferred := Some(deferred.value.(body := deferred.value.body + data));
        written := written + data;
        return Ok(|data|);
      }
      r := SendBody(data);
    }

    /** A head that is not deferred is out: the data follows it, as far as its length allows. */
    method SendBody(data: bytes) returns (r: Result<nat, WriteError>)
      requires Valid() && headerWritten && deferred.None?
      modifies this`bodyWritten, this`written, conn`output
      ensures old(conn.output) <= conn.output
      ensures Valid()
      ensures r.Ok? <==> old(Full()) || conn.open
      ensures written == if r.Ok? then old(written) + data else old(written)
      ensures r.Ok? && announced.None? ==> conn.output == old(conn.output) + data && r.value == |data|
      ensures r.Ok? ==> r.value == |conn.output| - |old(conn.output)|
      ensures r.Err? ==> unchanged(this, conn) && r.error == ConnectionClosed
    {
      hide RenderHead;
      hide ValidEntries;
      hide Accepted;
      hide HeadSent;
      AcceptedMore(announced, written, data);
      if announced.Some? {
        if bodyWritten >= announced.value {
          assert Accepted(announced, written) + [] == Accepted(announced, written);
          assert data[..0] == [];
          written := written + data;
          return Ok(0);
        }
        var canWrite := announced.value - bodyWritten;
        if |data| > canWrite {
          if !conn.open {
            return Err(ConnectionClosed);
          }
          var n := conn.Write(data[..canWrite]);
          bodyWritten := bodyWritten + n;
          written := written + data;
          return Ok(n);
        }
      }
      if !conn.open {
        return Err(ConnectionClosed);
      }
      var n := conn.Write(data);
      bodyWritten := bodyWritten + n;
      written := written + data;
      return Ok(n);
    }

    /** Completes the response: afterwards the output is exactly one head and one body. */
    method Flush() returns (r: Result<nat, WriteError>)
      requires Valid()
      modifies conn`output, headers
      ensures old(conn.output) <= conn.output
      ensures !conn.open ==> r == Ok(0) && conn.output == old(conn.output)
      ensures conn.open && failed ==> r.Ok? && conn.output == old(conn.output)
      ensures conn.open && !failed && old(Final()).status.phrase.Some? ==>
        r.Ok? && conn.output == base + Render(old(Final()))
      ensures conn.open && !failed && old(Final()).status.phrase.None? ==> r == Err(UnknownStatus) && conn.output == base
      ensures r.Ok? ==> r.value == |conn.output| - |old(conn.output)|
    {
      hide RenderHead;
      hide ValidEntries;
      hide AfterSet;
      hide Decimal;
      if !conn.open {
        return Ok(0);
      }
      if !headerWritten {
        headers.Set(CONTENT_LENGTH, Decimal(0));
        r := WriteHead(conn, OK_STATUS, headers.entries);
        assert Render(old(Final())) == RenderHead(OK_STATUS, headers.entries) + [];
        return r;
      }
      if deferred.Some? {
        var toSend := new Values();
        toSend.entries := deferred.value.headers;
        toSend.Set(CONTENT_LENGTH, Decimal(|deferred.value.body|));
        r := WriteHead(conn, deferred.value.status, toSend.entries);
        if r.Ok? {
          var n := conn.Write(deferred.value.body);
          return Ok(r.value + n);
        }
        return r;
      }
      return Ok(0);
    }
  }

  // ---------------------------------------------------------------- sequences of calls

  /** What a handler may do with a response. */
  datatype Op =
    | SetHeader(key: bytes, value: bytes)
    | AppendHeader(key: bytes, value: bytes)
    | DelHeader(key: bytes)
    | Head(status: Status)
    | Body(data: bytes)

  function DataOf(op: Op): bytes {
    if op.Body? then op.data else []
  }

  /** All data written, in order. */
  function BodyOf(ops: seq<Op>): bytes {
    if ops == [] then []
    else BodyOf(ops[..|ops| - 1]) + DataOf(ops[|ops| - 1])
  }

  predicate OnlyEdits(ops: seq<Op>) {
    forall i :: 0 <= i < |ops| ==> !ops[i].Head? && !ops[i].Body?
  }

  function Edited(m: Entries, op: Op): Entries {
    match op
    case SetHeader(key, value) => AfterSet(m, key, value)
    case AppendHeader(key, value) => AfterAppend(m, key, value)
    case DelHeader(key) => AfterDel(m, key)
    case _ => m
  }

  /** The headers when the head is decided on: the edits made before it. */
  function HeadersBefore(ops: seq<Op>): Entries {
    if ops == [] then []
    else
      var before := ops[..|ops| - 1];
      if OnlyEdits(before) then Edited(HeadersBefore(before), ops[|ops| - 1]) else HeadersBefore(before)
  }

  /** The status of the head; data written before any head sends one of its own. */
  function FirstStatus(ops: seq<Op>): Status {
    if ops == [] then OK_STATUS
    else
      var before, last := ops[..|ops| - 1], ops[|ops| - 1];
      if OnlyEdits(before) then (if last.Head? then last.status else OK_STATUS) else FirstStatus(before)
  }

  predicate Upgraded(ops: seq<Op>) {
    !OnlyEdits(ops) && Upgrades(HeadersBefore(ops))
  }

  predicate Streamed(ops: seq<Op>) {
    !OnlyEdits(ops) && Streaming(HeadersBefore(ops))
  }

  /** The head these calls ask for can be sent on an open connection. */
  predicate HeadFits(ops: seq<Op>) {
    CanStart(HeadersBefore(ops), FirstStatus(ops), true)
  }

  /** On an open connection, the last of these calls throws: a head after the head, or a first head
      that cannot be sent. */
  predicate LastThrows(ops: seq<Op>)
    requires ops != []
  {
    var before, last := ops[..|ops| - 1], ops[|ops| - 1];
    if OnlyEdits(before) then (last.Head? || last.Body?) && !HeadFits(ops) else last.Head?
  }

  /** The data of the calls that do not throw. */
  function WrittenOf(ops: seq<Op>): bytes {
    if ops == [] then []
    else WrittenOf(ops[..|ops| - 1]) + if LastThrows(ops) then [] else DataOf(ops[|ops| - 1])
  }

  /** The response that a sequence of calls asks for: empty without a head or data, deferred without a
      length, and otherwise with as much of the data as was announced. */
  function Asked(ops: seq<Op>, keepAlive: bool, date: bytes): Response {
    var m := HeadersBefore(ops);
    var head := Prepared(m, keepAlive, date);
    if OnlyEdits(ops) then Response(OK_STATUS, AfterSet(m, CONTENT_LENGTH, Decimal(0)), [])
    else if LengthText(m) != [] then Response(FirstStatus(ops), head, Accepted(Stoul(LengthText(m)), BodyOf(ops)))
    else if Streaming(m) then Response(FirstStatus(ops), head, BodyOf(ops))
    else Response(FirstStatus(ops), AfterSet(head, CONTENT_LENGTH, Decimal(|BodyOf(ops)|)), BodyOf(ops))
  }

  /** Nothing throws, the flush included: no head after the first head or data, and either none at all
      or one with a known status and a length that can be read, if it announces one. */
  predicate Legal(ops: seq<Op>) {
    && (forall i :: 0 <= i < |ops| && ops[i].Head? ==> OnlyEdits(ops[..i]))
    && (OnlyEdits(ops) || (FirstStatus(ops).phrase.Some? && LengthReads(ops)))
  }

  /** The length announced, if any, is a number. */
  predicate LengthReads(ops: seq<Op>) {
    var length := LengthText(HeadersBefore(ops));
    length == [] || Stoul(length).Some?
  }

  /** The flush does not throw: what was deferred has a known status. */
  predicate Flushes(ops: seq<Op>) {
    OnlyEdits(ops) || !HeadFits(ops) || FirstStatus(ops).phrase.Some?
  }

  /** The calls lead to a response: without a head, or with one that can be sent and has a known status. */
  predicate Answered(ops: seq<Op>) {
    OnlyEdits(ops) || (HeadFits(ops) && FirstStatus(ops).phrase.Some?)
  }

  /** What the peer gets for a sequence of calls of which the throwing ones are passed over: the response
      asked for, or bare data when the head could not be sent. */
  function Reply(ops: seq<Op>, keepAlive: bool, date: bytes): bytes {
    var length := LengthText(HeadersBefore(ops));
    if OnlyEdits(ops) || HeadFits(ops) then RenderKnown(Asked(ops, keepAlive, date))
    else Accepted(if length == [] then None else Stoul(length), WrittenOf(ops))
  }

  /** What of it has gone out before the flush: nothing of a response that is still deferred. */
  function Early(ops: seq<Op>, keepAlive: bool, date: bytes): bytes {
    var m := HeadersBefore(ops);
    if OnlyEdits(ops) || (HeadFits(ops) && LengthText(m) == [] && !Streaming(m)) then [] else Reply(ops, keepAlive, date)
  }

  function RenderKnown(r: Response): bytes {
    if r.status.phrase.Some? then Render(r) else []
  }

  /** What one more call changes. */
  lemma OpsStep(ops: seq<Op>, op: Op)
    ensures var all := ops + [op];
      && BodyOf(all) == BodyOf(ops) + DataOf(op)
      && (OnlyEdits(all) <==> OnlyEdits(ops) && !op.Head? && !op.Body?)
      && HeadersBefore(all) == (if OnlyEdits(ops) then Edited(HeadersBefore(ops), op) else HeadersBefore(ops))
      && FirstStatus(all) == (if !OnlyEdits(ops) then FirstStatus(ops) else if op.Head? then op.status else OK_STATUS)
      && WrittenOf(all) == WrittenOf(ops) + (if LastThrows(all) then [] else DataOf(op))
      && (LastThrows(all) <==> if OnlyEdits(ops) then (op.Head? || op.Body?) && !HeadFits(all) else op.Head?)
  {
    hide Edited;
    hide HeadFits;
    assert (ops + [op])[..|ops|] == ops;
  }

  lemma HeadFitsStep(ops: seq<Op>, op: Op)
    requires !OnlyEdits(ops)
    ensures HeadFits(ops + [op]) == HeadFits(ops)
  {
    hide CanStart;
    OpsStep(ops, op);
  }

  /** Once a head is decided on, later calls do not change it. */
  lemma {:induction false} HeadStays(ops: seq<Op>, n: nat)
    requires n <= |ops| && !OnlyEdits(ops[..n])
    ensures !OnlyEdits(ops) && HeadFits(ops) == HeadFits(ops[..n])
    decreases |ops|
  {
    hide HeadFits;
    if n == |ops| {
      assert ops[..n] == ops;
    } else {
      var before := ops[..|ops| - 1];
      assert before[..n] == ops[..n] && ops == before + [ops[|ops| - 1]];
      HeadStays(before, n);
      OpsStep(before, ops[|ops| - 1]);
      HeadFitsStep(before, ops[|ops| - 1]);
    }
  }

  lemma FirstNonEdit(ops: seq<Op>) returns (i: nat)
    requires !OnlyEdits(ops)
    ensures i < |ops| && (ops[i].Head? || ops[i].Body?) && OnlyEdits(ops[..i]) && !OnlyEdits(ops[..i + 1])
  {
    i := 0;
    while !(ops[i].Head? || ops[i].Body?)
      invariant i < |ops| && OnlyEdits(ops[..i])
      invariant exists j :: i <= j < |ops| && (ops[j].Head? || ops[j].Body?)
      decreases |ops| - i
    {
      i := i + 1;
    }
    assert ops[..i + 1][i] == ops[i];
  }

  ghost predicate NoneThrows(ops: seq<Op>) {
    forall i :: 0 < i <= |ops| ==> !LastThrows(ops[..i])
  }

  lemma ThrowsAt(ops: seq<Op>, i: nat)
    requires i < |ops|
    ensures LastThrows(ops[..i + 1]) <==>
      if OnlyEdits(ops[..i]) then (ops[i].Head? || ops[i].Body?) && !HeadFits(ops) else ops[i].Head?
  {
    hide HeadFits;
    assert ops[..i + 1] == ops[..i] + [ops[i]];
    OpsStep(ops[..i], ops[i]);
    if !OnlyEdits(ops[..i + 1]) {
      HeadStays(ops, i + 1);
    }
  }

  /** A sequence of calls is legal exactly when none of them throws, nor the flush. */
  lemma LegalIff(ops: seq<Op>)
    ensures Legal(ops) <==> NoneThrows(ops) && Flushes(ops)
  {
    hide HeadersBefore;
    hide FirstStatus;
    hide LastThrows;
    forall i | 0 < i <= |ops|
      ensures LastThrows(ops[..i]) <==>
        if OnlyEdits(ops[..i - 1]) then (ops[i - 1].Head? || ops[i - 1].Body?) && !HeadFits(ops) else ops[i - 1].Head?
    {
      ThrowsAt(ops, i - 1);
    }
    if NoneThrows(ops) {
      forall i | 0 <= i < |ops| && ops[i].Head? ensures OnlyEdits(ops[..i]) {
        assert !LastThrows(ops[..i + 1]);
      }
    }
    if Legal(ops) {
      forall i | 0 < i <= |ops| ensures !LastThrows(ops[..i]) {
        if ops[i - 1].Head? {
          assert OnlyEdits(ops[..i - 1]);
        }
      }
    }
    if !OnlyEdits(ops) {
      var i := FirstNonEdit(ops);
      assert LastThrows(ops[..i + 1]) <==> !HeadFits(ops);
    }
  }

  /** When the head can be sent, only later heads throw, and so no data is lost. */
  lemma {:induction false} AllWritten(ops: seq<Op>)
    requires OnlyEdits(ops) || HeadFits(ops)
    ensures WrittenOf(ops) == BodyOf(ops)
    decreases |ops|
  {
    hide HeadFits;
    if ops != [] {
      var before, last := ops[..|ops| - 1], ops[|ops| - 1];
      assert ops == before + [last];
      OpsStep(before, last);
      if !OnlyEdits(before) {
        HeadFitsStep(before, last);
      }
      AllWritten(before);
    }
  }

  lemma {:induction false} EditsKeepValid(ops: seq<Op>)
    ensures ValidEntries(HeadersBefore(ops))
    decreases |ops|
  {
    hide ValidEntries;
    hide AfterSet;
    hide AfterAppend;
    hide AfterDel;
    if ops == [] {
      NothingDrafted();
    } else {
      var before, last := ops[..|ops| - 1], ops[|ops| - 1];
      EditsKeepValid(before);
      match last
      case SetHeader(key, value) => SetKeepsValid(HeadersBefore(before), key, value);
      case AppendHeader(key, value) => AppendKeepsValid(HeadersBefore(before), key, value);
      case DelHeader(key) => DelKeepsValid(HeadersBefore(before), key);
      case _ =>
    }
  }

  lemma NothingDrafted()
    ensures BodyOf([]) == WrittenOf([]) == [] && OnlyEdits([]) && HeadersBefore([]) == [] && ValidEntries([])
  {
  }

  // ---------------------------------------------------------------- whole responses

  lemma LengthAfterSet(m: Entries, n: nat)
    ensures LastOf(AfterSet(m, CONTENT_LENGTH, Decimal(n)), CONTENT_LENGTH) == Decimal(n)
  {
    HeaderNamesAreNormal();
    AllOfAfterSet(m, CONTENT_LENGTH, Decimal(n), CONTENT_LENGTH);
  }

  /** The reader of a response can tell where its body ends: its length is announced exactly, or it
      ends with a connection that is not kept alive. */
  predicate Framed(r: Response, keepAlive: bool) {
    var length := LastOf(r.headers, CONTENT_LENGTH);
    || length == Decimal(|r.body|)
    || Stoul(length) == Some(|r.body|)
    || (length == [] && !keepAlive)
  }

  /** No length is announced, or no more than was written. */
  predicate Enough(ops: seq<Op>) {
    var length := LengthText(HeadersBefore(ops));
    OnlyEdits(ops) || length == [] || (Stoul(length).Some? && Stoul(length).value <= |BodyOf(ops)|)
  }

  /** An answer is framed exactly when the calls wrote as much as they announced; the flush makes up for
      nothing. */
  lemma FramedIff(ops: seq<Op>, keepAlive: bool, date: bytes)
    requires Answered(ops) && (Streamed(ops) ==> !keepAlive)
    ensures Framed(Asked(ops, keepAlive, date), keepAlive) <==> Enough(ops)
  {
    hide Prepared;
    hide AfterSet;
    hide LastOf;
    hide Upgrades;
    hide StreamsEvents;
    hide HeadersBefore;
    hide FirstStatus;
    hide BodyOf;
    hide OnlyEdits;
    hide ValidEntries;
    hide Stoul;
    hide Decimal;
    var m := HeadersBefore(ops);
    var r := Asked(ops, keepAlive, date);
    EditsKeepValid(ops);
    PreparedLength(m, keepAlive, date);
    LengthAfterSet(m, 0);
    LengthAfterSet(Prepared(m, keepAlive, date), |BodyOf(ops)|);
    if !OnlyEdits(ops) && LengthText(m) != [] {
      AnnouncedBound(LengthText(m), |r.body|);
    }
  }

  lemma AnnouncedBound(length: bytes, n: nat)
    ensures length == Decimal(n) && Stoul(length).Some? ==> Stoul(length) == Some(n)
  {
    ScanDecimal(n);
  }

  /** A handler that announces ten bytes and writes five is answered with five, and the client takes
      the other five from the next response. */
  lemma ShortBodyUnframed(date: bytes)
    ensures var ops := [SetHeader(CONTENT_LENGTH, "10"), Body("hello")];
      var r := Asked(ops, true, date);
      Legal(ops) && !Streamed(ops) && r.body == "hello" && LastOf(r.headers, CONTENT_LENGTH) == "10" && !Framed(r, true)
  {
    hide Prepared;
    hide Edited;
    hide HeadersBefore;
    hide FirstStatus;
    hide BodyOf;
    hide ValidEntries;
    hide LastOf;
    hide Upgrades;
    hide StreamsEvents;
    var edit, body := SetHeader(CONTENT_LENGTH, "10"), Body("hello");
    var ops := [edit, body];
    assert [] + [edit] == [edit] && [edit] + [body] == ops && ops[..0] == [] && ops[..1] == [edit];
    NothingDrafted();
    OpsStep([], edit);
    OpsStep([edit], body);
    TenIsAnnounced();
    assert [] + "hello" == "hello";
    EditedByData(HeadersBefore([edit]), "hello");
    FramedIff(ops, true, date);
    EditsKeepValid(ops);
    PreparedLength(HeadersBefore(ops), true, date);
  }

  lemma EditedByHead(m: Entries, status: Status)
    ensures Edited(m, Head(status)) == m
  {
  }

  lemma EditedByData(m: Entries, data: bytes)
    ensures Edited(m, Body(data)) == m
  {
  }

  lemma TenIsAnnounced()
    ensures var m := Edited([], SetHeader(CONTENT_LENGTH, "10"));
      !Streaming(m) && LastOf(m, CONTENT_LENGTH) == "10" && Stoul("10") == Some(10)
  {
    hide AfterSet;
    hide Contains;
    hide Normalized;
    HeaderNamesAreNormal();
    var m := AfterSet([], CONTENT_LENGTH, "10");
    AllOfAfterSet([], CONTENT_LENGTH, "10", CONTENT_LENGTH);
    AllOfAfterSet([], CONTENT_LENGTH, "10", CONNECTION);
    AllOfAfterSet([], CONTENT_LENGTH, "10", CONTENT_TYPE);
    NothingContained();
    assert Decimal(10) == "10";
    ScanDecimal(10);
  }

  lemma NothingContained()
    ensures Normalized([]) == [] && !Contains([], "upgrade") && !Contains([], "event-stream")
  {
  }

  // ---------------------------------------------------------------- running the calls

  lemma WriterFacts(w: ResponseWriter)
    requires w.Valid()
    ensures w.stream.Safe() && (w.deferred.Some? ==> !w.failed)
    ensures !w.headerWritten ==>
      !w.stream.rawIo && !w.stream.streamResponse && !w.failed && w.written == [] && w.conn.output == w.base
  {
  }

  method EditHeaders(headers: Values, op: Op)
    requires headers.Valid()
    modifies headers
    ensures headers.Valid() && headers.entries == Edited(old(headers.entries), op)
  {
    match op
    case SetHeader(key, value) => headers.Set(key, value);
    case AppendHeader(key, value) => headers.Append(key, value);
    case DelHeader(key) => headers.Del(key);
    case _ =>
  }

  /** Header edits touch nothing but the headers; after the head is written they have no effect. */
  method Edit(w: ResponseWriter, op: Op)
    requires w.Valid()
    modifies w.headers
    ensures w.Valid() && w.headers.entries == Edited(old(w.headers.entries), op)
  {
    hide RenderHead;
    hide Edited;
    hide ValidEntry;
    hide Accepted;
    EditHeaders(w.headers, op);
  }

  /** The writer is where these calls take it. */
  ghost predicate Drafts(w: ResponseWriter, ops: seq<Op>)
    reads w, w.headers, w.stream`httpKeepAlive, w.stream`rawIo, w.stream`streamResponse
  {
    && (w.headerWritten <==> !OnlyEdits(ops))
    && (!w.headerWritten ==> w.headers.entries == HeadersBefore(ops))
    && (w.headerWritten ==>
          && w.status == FirstStatus(ops) && w.ModeDecided()
          && w.sent == Prepared(HeadersBefore(ops), w.stream.httpKeepAlive, w.date)
          && w.stream.rawIo == Upgrades(HeadersBefore(ops)) && w.stream.streamResponse == StreamsEvents(HeadersBefore(ops)))
  }

  /** What these calls get through on a connection that stays open. */
  ghost predicate Through(w: ResponseWriter, ops: seq<Op>)
    reads w
  {
    w.written == WrittenOf(ops) && (w.headerWritten ==> (w.failed <==> !HeadFits(ops)))
  }

  /** The first head after these edits. */
  method ApplyHead(w: ResponseWriter, ghost ops: seq<Op>, status: Status) returns (r: Result<nat, WriteError>)
    requires w.Valid() && Drafts(w, ops) && (w.conn.open ==> Through(w, ops))
    modifies w, w.headers
    modifies w.conn`output, w.stream`httpKeepAlive, w.stream`httpBodyPending, w.stream`rawIo, w.stream`streamResponse
    ensures old(w.conn.output) <= w.conn.output
    ensures w.Valid() && w.Leaves()
    ensures !w.stream.rawIo ==> !old(w.stream.rawIo) && w.stream.httpBodyPending == old(w.stream.httpBodyPending)
    ensures Drafts(w, ops + [Head(status)])
    ensures w.conn.open ==> Through(w, ops + [Head(status)]) && (r.Ok? <==> !LastThrows(ops + [Head(status)]))
    ensures r.Ok? ==> OnlyEdits(ops) && (w.deferred.Some? || w.conn.open)
  {
    hide Edited;
    hide CanStart;
    hide Accepted;
    hide Upgrades;
    hide StreamsEvents;
    hide Prepared;
    hide LastThrows;
    hide WrittenOf;
    hide HeadersBefore;
    hide FirstStatus;
    hide OnlyEdits;
    hide ResponseWriter.ModeDecided;
    hide ResponseWriter.Valid;
    OpsStep(ops, Head(status));
    EditedByHead(HeadersBefore(ops), status);
    if !OnlyEdits(ops) {
      HeadFitsStep(ops, Head(status));
    }
    WriterFacts(w);
    r := w.WriteHeader(status);
    assert WrittenOf(ops) + [] == WrittenOf(ops);
  }

  method ApplyBody(w: ResponseWriter, ghost ops: seq<Op>, data: bytes) returns (r: Result<nat, WriteError>)
    requires w.Valid() && Drafts(w, ops) && (w.conn.open ==> Through(w, ops))
    modifies w, w.headers
    modifies w.conn`output, w.stream`httpKeepAlive, w.stream`httpBodyPending, w.stream`rawIo, w.stream`streamResponse
    ensures old(w.conn.output) <= w.conn.output
    ensures w.Valid() && w.Leaves()
    ensures !w.stream.rawIo ==> !old(w.stream.rawIo) && w.stream.httpBodyPending == old(w.stream.httpBodyPending)
    ensures Drafts(w, ops + [Body(data)])
    ensures w.conn.open ==> Through(w, ops + [Body(data)]) && (r.Ok? <==> !LastThrows(ops + [Body(data)]))
  {
    hide Edited;
    hide CanStart;
    hide Accepted;
    hide Upgrades;
    hide StreamsEvents;
    hide Prepared;
    hide LastThrows;
    hide WrittenOf;
    hide HeadersBefore;
    hide FirstStatus;
    hide OnlyEdits;
    hide ResponseWriter.ModeDecided;
    hide ResponseWriter.Valid;
    OpsStep(ops, Body(data));
    EditedByData(HeadersBefore(ops), data);
    if !OnlyEdits(ops) {
      HeadFitsStep(ops, Body(data));
    }
    WriterFacts(w);
    r := w.Write(data);
    assert WrittenOf(ops) + [] == WrittenOf(ops);
  }

  method ApplyEdit(w: ResponseWriter, ghost ops: seq<Op>, op: Op)
    requires !op.Head? && !op.Body?
    requires w.Valid() && Drafts(w, ops) && (w.conn.open ==> Through(w, ops))
    modifies w.headers
    ensures w.Valid()
    ensures Drafts(w, ops + [op]) && (w.conn.open ==> Through(w, ops + [op])) && !LastThrows(ops + [op])
  {
    hide Edited;
    hide CanStart;
    hide Accepted;
    hide Upgrades;
    hide StreamsEvents;
    hide Prepared;
    hide LastThrows;
    hide WrittenOf;
    hide HeadersBefore;
    hide FirstStatus;
    hide OnlyEdits;
    hide ResponseWriter.ModeDecided;
    OpsStep(ops, op);
    if !OnlyEdits(ops) {
      HeadFitsStep(ops, op);
    }
    Edit(w, op);
    assert WrittenOf(ops) + [] == WrittenOf(ops);
  }

  /** One call, the one after `ops`. On an open connection it throws exactly when the specification says
      so, and takes the writer where the specification says, thrown or not. */
  method Apply(w: ResponseWriter, ghost ops: seq<Op>, op: Op) returns (r: Result<nat, WriteError>)
    requires w.Valid() && Drafts(w, ops) && (w.conn.open ==> Through(w, ops))
    modifies w, w.headers
    modifies w.conn`output, w.stream`httpKeepAlive, w.stream`httpBodyPending, w.stream`rawIo, w.stream`streamResponse
    ensures old(w.conn.output) <= w.conn.output
    ensures w.Valid() && w.Leaves()
    ensures !w.stream.rawIo ==> !old(w.stream.rawIo) && w.stream.httpBodyPending == old(w.stream.httpBodyPending)
    ensures Drafts(w, ops + [op])
    ensures w.conn.open ==> Through(w, ops + [op]) && (r.Ok? <==> !LastThrows(ops + [op]))
  {
    hide ResponseWriter.Valid;
    hide Drafts;
    hide Through;
    hide LastThrows;
    WriterFacts(w);
    match op
    case Head(status) => r := ApplyHead(w, ops, status);
    case Body(data) => r := ApplyBody(w, ops, data);
    case _ =>
      ApplyEdit(w, ops, op);
      r := Ok(0);
  }

  ghost predicate NoneThrowsAfter(done: seq<Op>, ops: seq<Op>)
    decreases |ops|
  {
    ops == [] || (!LastThrows(done + [ops[0]]) && NoneThrowsAfter(done + [ops[0]], ops[1..]))
  }

  lemma {:induction false} NoneThrowsAfterIff(ops: seq<Op>, n: nat)
    requires n <= |ops|
    ensures NoneThrowsAfter(ops[..n], ops[n..]) <==> forall i :: n < i <= |ops| ==> !LastThrows(ops[..i])
    decreases |ops| - n
  {
    hide LastThrows;
    if n < |ops| {
      assert ops[..n] + [ops[n..][0]] == ops[..n + 1] && ops[n..][1..] == ops[n + 1..];
      NoneThrowsAfterIff(ops, n + 1);
    }
  }

  /** Calls in order, up to the first that throws. */
  method ApplyAll(w: ResponseWriter, ghost done: seq<Op>, ops: seq<Op>) returns (r: Result<nat, WriteError>)
    requires w.Valid() && w.conn.open && Drafts(w, done) && Through(w, done)
    modifies w, w.headers
    modifies w.conn`output, w.stream`httpKeepAlive, w.stream`httpBodyPending, w.stream`rawIo, w.stream`streamResponse
    ensures old(w.conn.output) <= w.conn.output
    ensures w.Valid() && w.Leaves()
    ensures !w.stream.rawIo ==> !old(w.stream.rawIo) && w.stream.httpBodyPending == old(w.stream.httpBodyPending)
    ensures r.Ok? <==> NoneThrowsAfter(done, ops)
    ensures r.Ok? ==> Drafts(w, done + ops) && Through(w, done + ops)
    decreases |ops|
  {
    hide NoneThrowsAfter;
    hide ResponseWriter.Valid;
    hide Drafts;
    hide Through;
    hide LastThrows;
    WriterFacts(w);
    NoneThrowsStep(done, ops);
    if ops == [] {
      return Ok(0);
    }
    r := Apply(w, done, ops[0]);
    if r.Ok? {
      r := ApplyAll(w, done + [ops[0]], ops[1..]);
    }
  }

  lemma NoneThrowsStep(done: seq<Op>, ops: seq<Op>)
    ensures NoneThrowsAfter(done, ops) <==>
      ops == [] || (!LastThrows(done + [ops[0]]) && NoneThrowsAfter(done + [ops[0]], ops[1..]))
    ensures if ops == [] then done + ops == done else done + [ops[0]] + ops[1..] == done + ops
  {
    hide LastThrows;
  }

  lemma NoneThrowsAll(ops: seq<Op>)
    ensures NoneThrowsAfter([], ops) <==> NoneThrows(ops)
    ensures [] + ops == ops
  {
    assert ops[..0] == [] && ops[0..] == ops;
    NoneThrowsAfterIff(ops, 0);
  }

  lemma FreshDrafts(w: ResponseWriter)
    requires w.Valid() && !w.headerWritten && w.headers.entries == []
    ensures Drafts(w, []) && Through(w, [])
  {
    NothingDrafted();
  }

  /** The writer's state after any calls determines the response. */
  lemma FinalAsked(w: ResponseWriter, ops: seq<Op>)
    requires w.Valid() && Drafts(w, ops) && Through(w, ops) && (OnlyEdits(ops) || HeadFits(ops))
    ensures !w.failed && w.Final() == Asked(ops, w.stream.httpKeepAlive, w.date)
  {
    hide Prepared;
    hide AfterSet;
    hide Stoul;
    hide LastOf;
    hide RenderHead;
    hide ValidEntries;
    hide Upgrades;
    hide StreamsEvents;
    hide HeadFits;
    hide WrittenOf;
    AllWritten(ops);
    EditsKeepValid(ops);
    PreparedLength(HeadersBefore(ops), w.stream.httpKeepAlive, w.date);
  }

  /** What is left in the output when the head could not be sent. */
  lemma HeadlessText(w: ResponseWriter, ops: seq<Op>)
    requires w.Valid() && Drafts(w, ops) && Through(w, ops) && !OnlyEdits(ops) && !HeadFits(ops)
    ensures w.failed && w.conn.output == w.base + Reply(ops, w.stream.httpKeepAlive, w.date)
  {
    hide Prepared;
    hide Stoul;
    hide LastOf;
    hide RenderHead;
    hide ValidEntries;
    hide Upgrades;
    hide StreamsEvents;
    hide WrittenOf;
    hide HeadFits;
    hide OnlyEdits;
    hide Accepted;
    EditsKeepValid(ops);
    PreparedLength(HeadersBefore(ops), w.stream.httpKeepAlive, w.date);
    assert w.base + [] == w.base;
  }

  /** What is in the output before the flush. */
  lemma EarlyText(w: ResponseWriter, ops: seq<Op>)
    requires w.Valid() && Drafts(w, ops) && Through(w, ops)
    ensures w.conn.output == w.base + Early(ops, w.stream.httpKeepAlive, w.date)
  {
    hide Prepared;
    hide Stoul;
    hide LastOf;
    hide RenderHead;
    hide ValidEntries;
    hide Upgrades;
    hide StreamsEvents;
    hide WrittenOf;
    hide HeadFits;
    hide OnlyEdits;
    hide Accepted;
    hide HeadersBefore;
    hide BodyOf;
    hide FirstStatus;
    assert w.base + [] == w.base;
    EditsKeepValid(ops);
    PreparedLength(HeadersBefore(ops), w.stream.httpKeepAlive, w.date);
    if OnlyEdits(ops) || HeadFits(ops) {
      FinalAsked(w, ops);
    } else {
      HeadlessText(w, ops);
    }
  }

  /** The flush after any calls completes exactly the reply they ask for, and throws exactly when a
      deferred head has no known status. */
  method Finish(w: ResponseWriter, ghost ops: seq<Op>) returns (r: Result<nat, WriteError>)
    requires w.Valid() && Drafts(w, ops) && (w.conn.open ==> Through(w, ops))
    modifies w.conn`output, w.headers
    ensures old(w.conn.output) <= w.conn.output
    ensures !w.conn.open ==> r.Ok? && w.conn.output == old(w.conn.output)
    ensures w.conn.open ==> (r.Ok? <==> Flushes(ops))
    ensures w.conn.open && r.Ok? ==> w.conn.output == w.base + Reply(ops, w.stream.httpKeepAlive, w.date)
    ensures w.conn.open && r.Err? ==> w.conn.output == w.base + Early(ops, w.stream.httpKeepAlive, w.date)
  {
    hide ResponseWriter.Valid;
    hide Drafts;
    hide Through;
    hide Asked;
    hide HeadFits;
    hide Early;
    hide OnlyEdits;
    hide ResponseWriter.Final;
    if w.conn.open {
      if OnlyEdits(ops) || HeadFits(ops) {
        FinalAsked(w, ops);
        AskedStatus(ops, w.stream.httpKeepAlive, w.date);
      } else {
        HeadlessText(w, ops);
      }
    }
    r := w.Flush();
    if r.Err? {
      UnknownIsDeferred(ops, w.stream.httpKeepAlive, w.date);
      assert w.base + [] == w.base;
    }
  }

  lemma UnknownIsDeferred(ops: seq<Op>, keepAlive: bool, date: bytes)
    ensures !Flushes(ops) ==> Early(ops, keepAlive, date) == []
  {
    hide Reply;
  }

  lemma AskedStatus(ops: seq<Op>, keepAlive: bool, date: bytes)
    ensures Asked(ops, keepAlive, date).status == if OnlyEdits(ops) then OK_STATUS else FirstStatus(ops)
  {
  }

  /** Calls up to the first that throws, and then a flush. It succeeds exactly for legal calls, and then
      the output gains exactly one head followed by its body, the ones asked for. */
  method Respond(w: ResponseWriter, ops: seq<Op>) returns (r: Result<nat, WriteError>, ghost resp: Response)
    requires w.Valid() && !w.headerWritten && w.conn.open && w.headers.entries == []
    modifies w, w.headers
    modifies w.conn`output, w.stream`httpKeepAlive, w.stream`httpBodyPending, w.stream`rawIo, w.stream`streamResponse
    ensures old(w.conn.output) <= w.conn.output
    ensures w.stream.Safe() && w.Leaves()
    ensures !w.stream.rawIo ==> !old(w.stream.rawIo) && w.stream.httpBodyPending == old(w.stream.httpBodyPending)
    ensures r.Ok? <==> Legal(ops)
    ensures resp == Asked(ops, w.stream.httpKeepAlive, w.date)
    ensures r.Ok? ==> resp.status.phrase.Some? && w.conn.output == old(w.conn.output) + Render(resp)
    ensures r.Ok? ==> (Framed(resp, w.stream.httpKeepAlive) <==> Enough(ops))
    ensures r.Ok? ==> w.stream.rawIo == Upgraded(ops) && (w.stream.rawIo || w.stream.streamResponse <==> Streamed(ops))
  {
    hide NoneThrows;
    hide NoneThrowsAfter;
    hide Asked;
    hide Upgraded;
    hide Streamed;
    hide ResponseWriter.Valid;
    hide LastThrows;
    hide Legal;
    hide Flushes;
    hide Framed;
    hide Enough;
    hide Drafts;
    hide Through;
    hide Render;
    FreshDrafts(w);
    LegalIff(ops);
    NoneThrowsAll(ops);
    WriterFacts(w);
    r := ApplyAll(w, [], ops);
    resp := Asked(ops, w.stream.httpKeepAlive, w.date);
    if r.Ok? {
      r := FinishLegal(w, ops);
    }
  }

  method FinishLegal(w: ResponseWriter, ghost ops: seq<Op>) returns (r: Result<nat, WriteError>)
    requires w.Valid() && w.conn.open && Drafts(w, ops) && Through(w, ops) && NoneThrows(ops)
    modifies w.conn`output, w.headers
    ensures old(w.conn.output) <= w.conn.output && w.stream.Safe()
    ensures r.Ok? <==> Legal(ops)
    ensures w.stream.rawIo == Upgraded(ops) && (w.stream.rawIo || w.stream.streamResponse <==> Streamed(ops))
    ensures var resp := Asked(ops, w.stream.httpKeepAlive, w.date);
      r.Ok? ==>
        && resp.status.phrase.Some? && w.conn.output == w.base + Render(resp)
        && (Framed(resp, w.stream.httpKeepAlive) <==> Enough(ops))
  {
    hide NoneThrows;
    hide Reply;
    hide Asked;
    hide Upgraded;
    hide Streamed;
    hide ResponseWriter.Valid;
    hide Legal;
    hide Flushes;
    hide Framed;
    hide Enough;
    hide Drafts;
    hide Through;
    hide Render;
    FlagsDrafted(w, ops);
    LegalIff(ops);
    AnsweredReply(ops, w.stream.httpKeepAlive, w.date);
    r := Finish(w, ops);
  }

  lemma FlagsDrafted(w: ResponseWriter, ops: seq<Op>)
    requires w.Valid() && Drafts(w, ops) && (w.conn.open ==> Through(w, ops))
    ensures w.stream.rawIo == Upgraded(ops) && (w.stream.rawIo || w.stream.streamResponse <==> Streamed(ops))
    ensures w.stream.Safe()
  {
    hide Prepared;
    hide Upgrades;
    hide StreamsEvents;
    hide HeadersBefore;
  }

  /** The reply to answered calls, legal ones among them, is the response they ask for, and it is framed
      exactly when they write enough. */
  lemma AnsweredReply(ops: seq<Op>, keepAlive: bool, date: bytes)
    requires Streamed(ops) ==> !keepAlive
    ensures Legal(ops) ==> Answered(ops)
    ensures Answered(ops) ==> Flushes(ops)
    ensures var resp := Asked(ops, keepAlive, date);
      Answered(ops) ==>
        && resp.status.phrase.Some? && Reply(ops, keepAlive, date) == Render(resp)
        && (Framed(resp, keepAlive) <==> Enough(ops))
  {
    hide Render;
    hide HeadersBefore;
    hide FirstStatus;
    hide Prepared;
    hide Framed;
    hide Enough;
    hide Accepted;
    hide Stoul;
    AskedStatus(ops, keepAlive, date);
    if Answered(ops) {
      FramedIff(ops, keepAlive, date);
    }
  }

  /** Edits that announce nothing, a known status and one body: legal, and answered with that status, that
      body and its exact length. */
  lemma AnswerLegal(edits: seq<Op>, status: Status, body: bytes, keepAlive: bool, date: bytes)
    requires OnlyEdits(edits) && status.phrase.Some?
    requires !Streaming(HeadersBefore(edits)) && LastOf(HeadersBefore(edits), CONTENT_LENGTH) == []
    ensures var ops := edits + [Head(status)] + [Body(body)];
      var r := Asked(ops, keepAlive, date);
      && Legal(ops) && !Streamed(ops) && Enough(ops)
      && r.status == status && r.body == body && LastOf(r.headers, CONTENT_LENGTH) == Decimal(|body|)
  {
    hide Prepared;
    hide AfterSet;
    hide HeadersBefore;
    hide FirstStatus;
    hide BodyOf;
    hide OnlyEdits;
    hide LastOf;
    hide Upgrades;
    hide StreamsEvents;
    hide Stoul;
    hide Accepted;
    hide Decimal;
    AnswerDrafted(edits, status, body);
    LengthAfterSet(Prepared(HeadersBefore(edits), keepAlive, date), |body|);
  }

  lemma AnswerDrafted(edits: seq<Op>, status: Status, body: bytes)
    requires OnlyEdits(edits)
    ensures var ops := edits + [Head(status)] + [Body(body)];
      && !OnlyEdits(ops) && HeadersBefore(ops) == HeadersBefore(edits) && FirstStatus(ops) == status && BodyOf(ops) == body
      && forall i :: 0 <= i < |ops| && ops[i].Head? ==> OnlyEdits(ops[..i])
  {
    hide Edited;
    hide HeadersBefore;
    hide FirstStatus;
    hide BodyOf;
    hide WrittenOf;
    hide LastThrows;
    var ops := edits + [Head(status)] + [Body(body)];
    OpsStep(edits, Head(status));
    OpsStep(edits + [Head(status)], Body(body));
    EditsHaveNoBody(edits);
    EditedByHead(HeadersBefore(edits), status);
    assert [] + DataOf(Head(status)) + body == body;
    forall i | 0 <= i < |ops| && ops[i].Head? ensures OnlyEdits(ops[..i]) {
      assert i == |edits| && ops[..i] == edits;
    }
  }

  lemma {:induction false} EditsHaveNoBody(ops: seq<Op>)
    requires OnlyEdits(ops)
    ensures BodyOf(ops) == []
    decreases |ops|
  {
    if ops != [] {
      EditsHaveNoBody(ops[..|ops| - 1]);
    }
  }
}
