/** Pipelined requests and printed heads: what the connection loop makes of well-formed input. */
module Pipelining {
  import opened Bytes
  import opened Values
  import opened HeadText
  import opened HeadParser
  import opened HeadReader
  import opened Net
  import opened Stream
  import opened ResponseWriter
  import opened Serve

  datatype Request = Request(line: bytes, parsed: RequestLine, pairs: seq<(bytes, bytes)>, body: bytes)

  function HeadBytes(req: Request): bytes {
    req.line + CRLF + HeaderBlock(req.pairs) + CRLF
  }

  function RequestBytes(req: Request): bytes {
    HeadBytes(req) + req.body
  }

  function Wire(reqs: seq<Request>): bytes {
    if reqs == [] then [] else RequestBytes(reqs[0]) + Wire(reqs[1..])
  }

  function HeadOf(req: Request): RequestHead {
    RequestHead(req.parsed.meth, req.parsed.target, Appended([], req.pairs))
  }

  /** A request line that parses and does not pass for a header, headers that survive printing, a
      head within the limit, and a body of the announced length. */
  ghost predicate WellFormed(req: Request, maxHeaderSize: nat) {
    && ParseRequestLine(req.line) == Ok(req.parsed) && NoCrlf(req.line) && |req.line| > 2 && HeaderPair(req.line) == None
    && CleanPairs(req.pairs)
    && |HeadBytes(req)| <= maxHeaderSize
    && |req.body| == BodyLength(HeadOf(req))
  }

  ghost predicate AllWellFormed(reqs: seq<Request>, maxHeaderSize: nat) {
    forall i :: 0 <= i < |reqs| ==> WellFormed(reqs[i], maxHeaderSize)
  }

  /** The log lists the first requests: their heads, and of their bodies the beginning or, when
      `whole`, all. */
  ghost predicate Lists(log: seq<Exchange>, reqs: seq<Request>, whole: bool) {
    |log| <= |reqs| && forall i :: 0 <= i < |log| ==> Serves(log[i], reqs[i], whole)
  }

  ghost predicate Serves(x: Exchange, req: Request, whole: bool) {
    x.head == HeadOf(req) && BodyGot(x) <= req.body && (whole ==> BodyGot(x) == req.body)
  }

  lemma RequestScans(req: Request, maxHeaderSize: nat, rest: bytes)
    requires WellFormed(req, maxHeaderSize)
    ensures FirstHead(RequestBytes(req) + rest) == HeadAt(HeadOf(req), |HeadBytes(req)|)
  {
    hide ParseRequestLine;
    hide HeaderPair;
    hide CleanPairs;
    hide NoCrlf;
    hide BodyLength;
    hide ScanHead;
    hide NextLine;
    hide HeaderBlock;
    hide Appended;
    var data := RequestBytes(req) + rest;
    var block := HeaderBlock(req.pairs);
    var after := block + CRLF + (req.body + rest);
    assert data == req.line + CRLF + after;
    assert data[0..] == data;
    NextLineAfterText(data, 0, req.line, after);
    ScanStep(data, 0, None, [], |req.line|);
    assert WithHeader([], req.line) == [];
    ScanBlock(data, |req.line| + 2, req.parsed, [], req.pairs, req.body + rest);
  }

  function TightHead(line: bytes): bytes {
    line + CRLF + TIGHT_LENGTH + CRLF + CRLF
  }

  /** A request whose length is written without a space before it is read as one without a body, so that
      the body is what the next head is read from. */
  lemma TightLengthMisread(line: bytes, parsed: RequestLine, rest: bytes)
    requires ParseRequestLine(line) == Ok(parsed) && NoCrlf(line) && |line| > 2 && HeaderPair(line) == None
    ensures FirstHead(TightHead(line) + rest) == HeadAt(RequestHead(parsed.meth, parsed.target, []), |TightHead(line)|)
    ensures BodyLength(RequestHead(parsed.meth, parsed.target, [])) == 0
  {
    hide ParseRequestLine;
    hide HeaderPair;
    hide ScanHead;
    hide NextLine;
    hide NoCrlf;
    var n := |line|;
    var data := TightHead(line) + rest;
    TightLengthDropped();
    assert data == line + CRLF + (TIGHT_LENGTH + CRLF + (CRLF + rest)) == data[0..];
    NextLineAfterText(data, 0, line, TIGHT_LENGTH + CRLF + (CRLF + rest));
    ScanStep(data, 0, None, [], n);
    NextLineAfterText(data, n + 2, TIGHT_LENGTH, CRLF + rest);
    ScanStep(data, n + 2, Some(parsed), [], n + 18);
    NothingBroken();
    assert CRLF + rest == [] + CRLF + rest;
    NextLineAfterText(data, n + 20, [], rest);
    ScanStep(data, n + 20, Some(parsed), [], n + 20);
  }

  lemma NothingBroken()
    ensures NoCrlf([])
  {
  }

  /** A discard may stop wherever the buffered bytes and one read end. If a request stands there in the
      body, the loop takes it for the next one, and not what follows the body. */
  lemma ShortDiscardServesBody(inner: Request, maxHeaderSize: nat, front: bytes, tail: bytes, buffered: nat)
    requires WellFormed(inner, maxHeaderSize) && buffered <= |front|
    ensures var body := front + RequestBytes(inner);
      var got := |front| - DiscardBuffered(buffered, |body|);
      && got >= 0 && DiscardLeaves(buffered, |body|, got) == |RequestBytes(inner)| > 0
      && FirstHead((body + tail)[|front|..]) == HeadAt(HeadOf(inner), |HeadBytes(inner)|)
      && (body + tail)[|body|..] == tail
  {
    hide FirstHead;
    hide WellFormed;
    hide HeadBytes;
    hide HeadOf;
    var body := front + RequestBytes(inner);
    assert (body + tail)[|front|..] == RequestBytes(inner) + tail;
    RequestScans(inner, maxHeaderSize, tail);
    assert |HeadBytes(inner)| >= 2 by {
      HeadNotEmpty(inner);
    }
  }

  lemma HeadNotEmpty(req: Request)
    ensures |HeadBytes(req)| >= 2
  {
  }

  lemma FirstRequest(reqs: seq<Request>, maxHeaderSize: nat)
    requires reqs != [] && AllWellFormed(reqs, maxHeaderSize)
    ensures var wire := Wire(reqs); var end := |HeadBytes(reqs[0])|;
      && FirstHead(wire) == HeadAt(HeadOf(reqs[0]), end)
      && BodyLength(HeadOf(reqs[0])) == |reqs[0].body| && end + |reqs[0].body| <= |wire|
      && wire[end..][..|reqs[0].body|] == reqs[0].body
      && wire[end + |reqs[0].body|..] == Wire(reqs[1..])
  {
    hide FirstHead;
    hide BodyLength;
    hide HeadBytes;
    hide HeadOf;
    var req := reqs[0];
    assert WellFormed(req, maxHeaderSize);
    RequestScans(req, maxHeaderSize, Wire(reqs[1..]));
    assert Wire(reqs) == RequestBytes(req) + Wire(reqs[1..]);
  }

  /** A log that follows a stream of well-formed requests lists exactly the first of them. */
  lemma {:induction false} FollowsRequests(reqs: seq<Request>, maxHeaderSize: nat, log: seq<Exchange>, rest: bytes)
    requires AllWellFormed(reqs, maxHeaderSize) && Follows(Wire(reqs), log, rest)
    ensures Lists(log, reqs, ReadsWhole(Wire(reqs), log)) && rest == Wire(reqs[|log|..])
    decreases |log|
  {
    hide FirstHead;
    hide BodyLength;
    hide HeadBytes;
    hide HeadOf;
    hide WellFormed;
    hide BodyGot;
    if log == [] {
      assert reqs[0..] == reqs;
    } else if reqs == [] {
      NothingFollows();
    } else {
      FirstRequest(reqs, maxHeaderSize);
      FollowsRequests(reqs[1..], maxHeaderSize, log[1..], rest);
      assert reqs[1..][|log| - 1..] == reqs[|log|..];
      var whole := ReadsWhole(Wire(reqs), log);
      ListsLess(log[1..], reqs[1..], ReadsWhole(Wire(reqs[1..]), log[1..]), whole);
      ListsMore(reqs, log, whole);
    }
  }

  lemma ListsLess(log: seq<Exchange>, reqs: seq<Request>, whole: bool, less: bool)
    requires Lists(log, reqs, whole) && (less ==> whole)
    ensures Lists(log, reqs, less)
  {
    hide HeadOf;
    hide BodyGot;
  }

  lemma ListsMore(reqs: seq<Request>, log: seq<Exchange>, whole: bool)
    requires log != [] && reqs != [] && Lists(log[1..], reqs[1..], whole) && Serves(log[0], reqs[0], whole)
    ensures Lists(log, reqs, whole)
  {
    hide Serves;
    forall i | 0 <= i < |log| ensures Serves(log[i], reqs[i], whole) {
      if i > 0 {
        assert log[i] == log[1..][i - 1] && reqs[i] == reqs[1..][i - 1];
      }
    }
  }

  lemma NothingFollows()
    ensures FirstHead([]) == NeedMore
  {
  }

  lemma RequestWaits(reqs: seq<Request>, maxHeaderSize: nat)
    requires reqs != [] && AllWellFormed(reqs, maxHeaderSize)
    ensures RequestAt(Wire(reqs), maxHeaderSize)
  {
    hide FirstHead;
    FirstRequest(reqs, maxHeaderSize);
    assert WellFormed(reqs[0], maxHeaderSize);
  }

  /** Where the loop stops in a stream of well-formed requests: behind the last of them, or at the first
      not listed, because its handler raised or upgraded. */
  ghost predicate StoppedAt(h: Handler, reqs: seq<Request>, turn: nat, visit: Visit, open: bool, quiet: bool) {
    match visit
    case NoHead(error, answer) => (error == TimedOut || error == Closed) && answer.None? && (quiet ==> turn == |reqs|)
    case Attempt(x) =>
      && turn < |reqs| && Serves(x, reqs[turn], false) && Attempted(h, turn, x, open)
      && (quiet ==> Raises(h, turn, x, open) || Upgraded(Calls(x)))
  }

  lemma StoppedInWire(h: Handler, reqs: seq<Request>, maxHeaderSize: nat, turn: nat, visit: Visit, open: bool, quiet: bool)
    requires AllWellFormed(reqs, maxHeaderSize) && turn <= |reqs|
    requires Stopped(h, turn, visit, Wire(reqs[turn..]), maxHeaderSize, open, quiet)
    requires visit.NoHead? ==> Refused(visit.error, visit.answer)
    ensures StoppedAt(h, reqs, turn, visit, open, quiet)
  {
    hide WellFormed;
    hide HeadOf;
    hide Wire;
    hide FirstHead;
    hide BodyLength;
    hide BodyGot;
    hide Attempted;
    hide Raises;
    hide Upgraded;
    hide HeadBytes;
    var left := reqs[turn..];
    if left == [] {
      NothingLeft();
      NothingFollows();
    } else {
      assert left[0] == reqs[turn];
      FirstRequest(left, maxHeaderSize);
      RequestWaits(left, maxHeaderSize);
      RequestAttempted(h, turn, visit, Wire(left), maxHeaderSize, open, quiet);
    }
  }

  lemma NothingLeft()
    ensures Wire([]) == []
  {
  }

  /** Pipelined framing. Whatever the handler does and however the reads split, the exchanges are the first
      requests of the stream, unless a discard fell short of a body that was neither read nor buffered.
      When the network never goes silent, the loop ends with an exchange that does not let it go on, at a
      request whose handler raised or upgraded, or behind the last request; and a draining handler sees
      every body. */
  method ServePipelined(conn: Connection, ghost reqs: seq<Request>, h: Handler, maxHeaderSize: nat, date: bytes)
    returns (threw: bool, stream: StreamState, ghost log: seq<Exchange>, ghost last: Option<Visit>, ghost lost: bool)
    requires conn.open && conn.unread == Wire(reqs)
    requires AllWellFormed(reqs, maxHeaderSize)
    modifies conn
    ensures fresh(stream) && conn.stalls >= old(conn.stalls) && (conn.reliable ==> conn.stalls == old(conn.stalls))
    ensures AllDispatched(h, log) && FramedWhenEnough(log, date) && TokensTell(log, date, last.None?)
    ensures LastingBut(log, |log| - 1)
    ensures last.None? ==> conn.output == old(conn.output) + Replies(log, date) && !Lasted(log) && !threw
    ensures last.Some? ==> old(conn.output) + Replies(log, date) <= conn.output
    ensures last.Some? && (last.value.NoHead? || conn.open) ==>
      conn.output == old(conn.output) + Replies(log, date) + LastText(last.value, date)
    ensures last.Some? ==> Lasted(log) && (threw <==> ThrewAt(h, |log|, last.value, conn.open))
    ensures !lost ==> Lists(Plain(log), reqs, Draining(h) && conn.stalls == old(conn.stalls))
    ensures !lost && last.Some? ==> StoppedAt(h, reqs, |log|, last.value, conn.open, conn.stalls == old(conn.stalls))
    ensures lost ==> SomeCutShort(log)
    ensures Draining(h) && conn.stalls == old(conn.stalls) ==> !lost
  {
    hide Follows;
    hide ReadsWhole;
    hide WellFormed;
    hide Wire;
    hide Stopped;
    hide StoppedAt;
    hide ThrewAt;
    hide LastText;
    hide Refused;
    hide Replies;
    hide AllDispatched;
    hide FramedWhenEnough;
    hide TokensTell;
    hide LastingBut;
    hide Plain;
    hide Lists;
    hide SomeCutShort;
    hide Draining;
    hide At;
    ghost var rest;
    threw, stream, log, last, rest, lost := ServeConn(conn, h, maxHeaderSize, date);
    if !lost {
      FollowsRequests(reqs, maxHeaderSize, Plain(log), rest);
      ListsLess(Plain(log), reqs, ReadsWhole(Wire(reqs), Plain(log)), Draining(h) && conn.stalls == old(conn.stalls));
      ListsLength(Plain(log), reqs, ReadsWhole(Wire(reqs), Plain(log)));
      if last.Some? {
        PlainIsAll(log);
        StoppedInWire(h, reqs, maxHeaderSize, |log|, last.value, conn.open, conn.stalls == old(conn.stalls));
      }
    }
  }

  lemma ListsLength(log: seq<Exchange>, reqs: seq<Request>, whole: bool)
    ensures Lists(log, reqs, whole) ==> |log| <= |reqs|
  {
  }

  // ---------------------------------------------------------------- printed heads

  /** Splitting a printed head into lines and parsing the lines after the status line rebuilds the
      same multimap, the order of the values of each key included. */
  lemma HeadRoundTrip(status: Status, headers: Entries, rl: RequestLine, body: bytes)
    requires status.phrase.Some? && NoCrlf(StatusText(status))
    requires ValidEntries(headers) && CleanPairs(Flat(headers))
    ensures var data := RenderHead(status, headers) + body;
      && NextLine(data, 0) == Some(|StatusText(status)|)
      && ScanHead(data, |StatusText(status)| + 2, Some(rl), [])
         == HeadAt(RequestHead(rl.meth, rl.target, headers), |RenderHead(status, headers)|)
  {
    hide NoCrlf;
    hide ScanHead;
    hide NextLine;
    hide CleanPairs;
    hide ValidEntries;
    hide HeaderBlock;
    hide Flat;
    hide StatusText;
    hide RenderHead;
    hide Appended;
    HeadPieces(status, headers, body);
    var text := StatusText(status);
    var rest := HeaderBlock(Flat(headers)) + CRLF + body;
    var data := RenderHead(status, headers) + body;
    assert data[0..] == data;
    NextLineAfterText(data, 0, text, rest);
    ScanBlock(data, |text| + 2, rl, [], Flat(headers), body);
    Rebuilt(headers);
  }

  lemma HeadPieces(status: Status, headers: Entries, body: bytes)
    requires status.phrase.Some?
    ensures var block := HeaderBlock(Flat(headers));
      && RenderHead(status, headers) + body == StatusText(status) + CRLF + (block + CRLF + body)
      && |RenderHead(status, headers)| == |StatusText(status)| + 2 + |block| + 2
  {
    hide StatusText;
    hide HeaderBlock;
    hide Flat;
  }
}
