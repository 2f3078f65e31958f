/** The keep-alive loop: one request head, one body and one response after another. */
module Serve {
  import opened Bytes
  import opened Values
  import opened Net
  import opened Stream
  import opened HeadParser
  import opened HeadReader
  import opened ResponseWriter
  import ResponseHeaders

  const LENGTH_REQUIRED: Status := Status(411, Some("Length Required"))
  const BAD_REQUEST: Status := Status(400, Some("Bad Request"))
  const HEADER_TOO_LARGE: Status := Status(431, Some("Request Header Fields Too Large"))

  const LENGTH_MESSAGE: bytes := "Content-Length header required " + "for methods POST, PUT, PATCH..."

  // ---------------------------------------------------------------- handlers

  /** What a handler sees of its own calls: the bytes it read, and which calls threw. */
  datatype Event = Got(size: nat, chunk: bytes) | Did(op: Op, ok: bool)

  /** What it does next: another call, the end, or an exception of its own or of a call, let through. */
  datatype Action = Take(size: nat) | Do(op: Op) | Return | Raise

  /** Any handler that ends: what it does, and how many calls it makes at most, for the request of that
      number on the connection. It may catch what its calls throw and go on. */
  datatype Handler = Handler(
    next: (nat, RequestHead, seq<Event>) -> Action, limit: (nat, RequestHead) -> nat)

  function Verdict(h: Handler, turn: nat, head: RequestHead, events: seq<Event>): Action {
    if |events| >= h.limit(turn, head) then Return else h.next(turn, head, events)
  }

  predicate Matches(action: Action, event: Event) {
    match action
    case Take(size) => event.Got? && event.size == size
    case Do(op) => event.Did? && event.op == op
    case _ => false
  }

  /** Every call is the one the handler makes after what it has seen. */
  ghost predicate Played(h: Handler, turn: nat, head: RequestHead, events: seq<Event>) {
    forall i :: 0 <= i < |events| ==> Matches(Verdict(h, turn, head, events[..i]), events[i])
  }

  predicate Ends(action: Action) {
    action.Return? || action.Raise?
  }

  function CallsOf(events: seq<Event>): seq<Op> {
    if events == [] then []
    else CallsOf(events[..|events| - 1]) + if events[|events| - 1].Did? then [events[|events| - 1].op] else []
  }

  /** The body bytes read; what is read after an upgrade belongs to no body. */
  function BodyRead(events: seq<Event>): bytes {
    if events == [] then []
    else
      var before, last := events[..|events| - 1], events[|events| - 1];
      BodyRead(before) + if last.Got? && !Upgraded(CallsOf(before)) then last.chunk else []
  }

  /** The calls threw exactly where they throw on an open connection. */
  ghost predicate Truthful(events: seq<Event>) {
    forall i :: 0 < i <= |events| && events[i - 1].Did? ==>
      CallsOf(events[..i]) != [] && (events[i - 1].ok <==> !LastThrows(CallsOf(events[..i])))
  }

  predicate LastEmpty(events: seq<Event>) {
    events != [] && events[|events| - 1].Got? && events[|events| - 1].chunk == []
  }

  /** Some read came back empty. */
  ghost predicate FoundEnd(events: seq<Event>) {
    exists i :: 0 <= i < |events| && events[i].Got? && events[i].chunk == []
  }

  lemma FoundEndStep(events: seq<Event>, e: Event)
    ensures FoundEnd(events) || (e.Got? && e.chunk == []) ==> FoundEnd(events + [e])
  {
    var all := events + [e];
    assert all[|events|] == e;
    if FoundEnd(events) {
      var i :| 0 <= i < |events| && events[i].Got? && events[i].chunk == [];
      assert all[i] == events[i];
    }
  }

  /** A handler that does not return before it has the whole body, or has upgraded, or has read
      nothing where there should have been more. */
  ghost predicate Draining(h: Handler) {
    forall turn: nat, head, events ::
      Played(h, turn, head, events) && Verdict(h, turn, head, events).Return? ==>
        |BodyRead(events)| >= BodyLength(head) || Upgraded(CallsOf(events)) || LastEmpty(events)
  }

  lemma EventsStep(events: seq<Event>, e: Event)
    ensures var all := events + [e];
      && CallsOf(all) == (if e.Did? then CallsOf(events) + [e.op] else CallsOf(events))
      && BodyRead(all) == BodyRead(events) + (if e.Got? && !Upgraded(CallsOf(events)) then e.chunk else [])
  {
    hide Upgraded;
    assert (events + [e])[..|events|] == events;
    if e.Got? {
      assert CallsOf(events) + [] == CallsOf(events);
    }
  }

  lemma TruthfulStep(events: seq<Event>, e: Event)
    requires Truthful(events)
    requires e.Did? ==> (e.ok <==> !LastThrows(CallsOf(events) + [e.op]))
    ensures Truthful(events + [e])
  {
    hide LastThrows;
    hide Upgraded;
    hide BodyRead;
    var all := events + [e];
    EventsStep(events, e);
    forall i | 0 < i <= |all| && all[i - 1].Did?
      ensures CallsOf(all[..i]) != [] && (all[i - 1].ok <==> !LastThrows(CallsOf(all[..i])))
    {
      if i == |all| {
        assert all[..i] == all;
      } else {
        assert all[..i] == events[..i] && all[i - 1] == events[i - 1];
      }
    }
  }

  lemma PlayedStep(h: Handler, turn: nat, head: RequestHead, events: seq<Event>, e: Event)
    requires Played(h, turn, head, events) && Matches(Verdict(h, turn, head, events), e)
    ensures Played(h, turn, head, events + [e])
  {
    hide Verdict;
    hide Matches;
    var all := events + [e];
    forall i | 0 <= i < |all| ensures Matches(Verdict(h, turn, head, all[..i]), all[i]) {
      if i == |events| {
        assert all[..i] == events;
      } else {
        assert all[..i] == events[..i] && all[i] == events[i];
      }
    }
  }

  // ---------------------------------------------------------------- exchanges

  /** One request, what was done about it, and how many bytes were buffered afterwards. `served` is
      false when the request never reached the handler. */
  datatype Exchange = Exchange(head: RequestHead, events: seq<Event>, served: bool, buffered: nat)

  datatype Outcome = Done | Ended | Threw

  function Calls(x: Exchange): seq<Op> {
    CallsOf(x.events)
  }

  function BodyGot(x: Exchange): bytes {
    BodyRead(x.events)
  }

  /** The announced length of a request; `strtoul` makes 0 of a text without digits. */
  function ContentLength(headers: Entries): Option<nat> {
    var text := LastOf(headers, CONTENT_LENGTH);
    if text == [] then None
    else match Strtoul(text) case None => Some(0) case Some(n) => Some(n)
  }

  function BodyLength(head: RequestHead): nat {
    if !CanHaveBody(head.meth) then 0
    else match ContentLength(head.headers) case None => 0 case Some(n) => n
  }

  /** A request with a content type but no length is answered without reaching the handler. */
  predicate LacksLength(head: RequestHead) {
    CanHaveBody(head.meth) && AllOf(head.headers, CONTENT_TYPE) != [] && ContentLength(head.headers).None?
  }

  predicate AsksToClose(head: RequestHead) {
    Contains(LastOf(head.headers, CONNECTION), "close")
  }

  /** The exchange is not the last one a client can have on its connection. */
  predicate Lasting(x: Exchange) {
    !(x.served && AsksToClose(x.head)) && !Streamed(Calls(x))
  }

  /** Four methods carry a body, of the length that the last header of that name tells, or as far as none
      tells one, of none; the other five carry none whatever it tells. */
  lemma BodyLengthIs(head: RequestHead, n: nat)
    ensures head.meth in {GET, DEL, HEAD, OPTIONS, TRACE} ==> BodyLength(head) == 0
    ensures LastOf(head.headers, "content-length") == [] ==> BodyLength(head) == 0
    ensures head.meth in {POST, PUT, PATCH, CONNECT} && n <= SIZE_MAX && LastOf(head.headers, "content-length") == Decimal(n) ==>
      BodyLength(head) == n
  {
    hide LastOf;
    hide Strtoul;
    hide Decimal;
    if n <= SIZE_MAX {
      StrtoulDecimal(n);
    }
  }

  /** A length is missed with those four methods, if there is a content type and no content length. */
  lemma LacksLengthIff(head: RequestHead)
    ensures LacksLength(head) <==>
      && head.meth in {POST, PUT, PATCH, CONNECT}
      && AllOf(head.headers, "content-type") != [] && LastOf(head.headers, "content-length") == []
  {
    hide LastOf;
    hide AllOf;
    hide Strtoul;
  }

  /** An exchange is the last of its connection exactly when the handler was reached and the last connection
      header of the request tells to close, or its response upgrades or streams. */
  lemma LastingIff(x: Exchange)
    ensures var v := LastOf(x.head.headers, "connection");
      Lasting(x) <==>
        && !(x.served && exists i :: 0 <= i <= |v| && "close" <= v[i..])
        && (OnlyEdits(Calls(x)) || !(Upgrades(HeadersBefore(Calls(x))) || StreamsEvents(HeadersBefore(Calls(x)))))
  {
    hide LastOf;
    hide Contains;
    hide Calls;
    hide HeadersBefore;
    hide Upgrades;
    hide StreamsEvents;
    ResponseHeaders.ContainsIff(LastOf(x.head.headers, CONNECTION), "close");
  }

  const LENGTH_EVENTS: seq<Event> :=
    [Did(SetHeader(CONTENT_TYPE, "text/plain"), true), Did(Head(LENGTH_REQUIRED), true), Did(Body(LENGTH_MESSAGE), true)]

  /** The request reached the handler, which did what it does and returned, or it was answered for want
      of a length. */
  ghost predicate Dispatched(h: Handler, turn: nat, x: Exchange) {
    && (x.served <==> !LacksLength(x.head)) && Truthful(x.events) && Flushes(Calls(x))
    && if x.served then Played(h, turn, x.head, x.events) && Verdict(h, turn, x.head, x.events).Return?
       else x.events == LENGTH_EVENTS
  }

  /** The response to an answered exchange. */
  function AnswerTo(x: Exchange, date: bytes): Response {
    Asked(Calls(x), Lasting(x), date)
  }

  /** Less of the body was read than was announced, and the rest was not buffered. */
  predicate CutShort(x: Exchange) {
    |BodyGot(x)| + x.buffered < BodyLength(x.head)
  }

  // ---------------------------------------------------------------- running a handler

  /** One read by a handler, as far as the connection loop is concerned. */
  method ReadSome(reader: RequestBodyReader, size: nat) returns (chunk: bytes)
    modifies reader.conn`unread, reader.conn`open, reader.conn`stalls, reader.stream`readBuff, reader.stream`httpBodyPending
    ensures old(Source(reader.stream, reader.conn)) == chunk + Source(reader.stream, reader.conn)
    ensures reader.stream.httpBodyPending == old(reader.stream.httpBodyPending) - if reader.stream.rawIo then 0 else |chunk|
    ensures reader.conn.stalls == old(reader.conn.stalls) +
      if old(reader.conn.open) && chunk == [] && (reader.stream.rawIo || old(reader.stream.httpBodyPending) > 0)
         && Source(reader.stream, reader.conn) != [] then 1 else 0
    ensures reader.conn.reliable ==> reader.conn.stalls == old(reader.conn.stalls)
    ensures chunk != [] || (!reader.stream.rawIo && old(reader.stream.httpBodyPending) == 0) ==>
      reader.conn.open == old(reader.conn.open)
    ensures old(reader.conn.open) && reader.conn.stalls == old(reader.conn.stalls) ==>
      reader.conn.open || Source(reader.stream, reader.conn) == []
    ensures !old(reader.conn.open) ==> chunk == [] && !reader.conn.open
  {
    hide Granted;
    hide Least;
    chunk := reader.Read(size);
  }

  /** The writer is where the calls of these events take it, and on an open connection they threw where
      they should; only a read that comes back empty closes it. */
  ghost predicate Playing(w: ResponseWriter, events: seq<Event>)
    reads w, w.headers, w.stream, w.conn
  {
    && w.Valid() && Drafts(w, CallsOf(events))
    && (w.conn.open ==> Through(w, CallsOf(events)) && Truthful(events))
    && (w.conn.open || FoundEnd(events))
  }

  lemma PlayingFacts(w: ResponseWriter, events: seq<Event>)
    requires Playing(w, events)
    ensures w.stream.Safe() && (w.conn.open ==> Truthful(events)) && (w.conn.open || FoundEnd(events))
    ensures w.conn.open ==> w.conn.output == w.base + Early(CallsOf(events), w.stream.httpKeepAlive, w.date)
    ensures w.stream.rawIo == Upgraded(CallsOf(events))
    ensures (w.stream.rawIo || w.stream.streamResponse) == Streamed(CallsOf(events))
  {
    hide ResponseWriter.Valid;
    hide Drafts;
    hide Through;
    hide Truthful;
    hide CallsOf;
    hide Early;
    hide Upgraded;
    hide Streamed;
    hide FoundEnd;
    WriterFacts(w);
    FlagsDrafted(w, CallsOf(events));
    if w.conn.open {
      EarlyText(w, CallsOf(events));
    }
  }

  lemma PlayingSafe(w: ResponseWriter, events: seq<Event>)
    requires Playing(w, events)
    ensures w.stream.Safe()
  {
    PlayingFacts(w, events);
  }

  /** Reading changes nothing for the writer, but that the connection may close. */
  lemma PlayingRead(w: ResponseWriter, events: seq<Event>, e: Event)
    requires w.Valid() && Drafts(w, CallsOf(events)) && (w.conn.open ==> Through(w, CallsOf(events)) && Truthful(events))
    requires e.Got? && (w.conn.open || FoundEnd(events) || e.chunk == [])
    ensures Playing(w, events + [e])
  {
    hide ResponseWriter.Valid;
    hide Drafts;
    hide Through;
    hide Truthful;
    hide CallsOf;
    hide BodyRead;
    hide Upgraded;
    hide FoundEnd;
    EventsStep(events, e);
    FoundEndStep(events, e);
    if w.conn.open {
      TruthfulStep(events, e);
    }
  }

  /** One call of a handler. `more` are the bytes of the body it read. */
  method Step(reader: RequestBodyReader, w: ResponseWriter, ghost events: seq<Event>, action: Action)
    returns (e: Event, ghost more: bytes)
    requires Playing(w, events) && !Ends(action) && w.conn == reader.conn && w.stream == reader.stream
    modifies w, w.headers
    modifies w.conn`output, w.conn`unread, w.conn`open, w.conn`stalls
    modifies w.stream`readBuff, w.stream`httpBodyPending, w.stream`httpKeepAlive, w.stream`rawIo, w.stream`streamResponse
    ensures Playing(w, events + [e]) && Matches(action, e) && w.Leaves()
    ensures old(w.conn.output) <= w.conn.output
    ensures BodyRead(events + [e]) == BodyRead(events) + more
    ensures Consumed(old(Source(w.stream, w.conn)), old(w.stream.httpBodyPending), old(w.stream.rawIo),
                     more, Source(w.stream, w.conn), w.stream.httpBodyPending, w.stream.rawIo)
    ensures w.stream.rawIo ==> more == []
    ensures w.conn.stalls >= old(w.conn.stalls) && (w.conn.reliable ==> w.conn.stalls == old(w.conn.stalls))
    ensures !w.stream.rawIo && old(w.conn.open) ==>
      && (w.conn.stalls == old(w.conn.stalls) ==> w.conn.open || Source(w.stream, w.conn) == [])
      && (more != [] || old(w.stream.httpBodyPending) == 0 ==> w.conn.open)
    ensures !old(w.conn.open) ==> !w.conn.open && more == []
    // an empty read of an unfinished body means that there was no more to read, or a stall
    ensures LastEmpty(events + [e]) && !w.stream.rawIo && old(w.conn.open) && w.conn.stalls == old(w.conn.stalls) ==>
      w.stream.httpBodyPending == 0 || Source(w.stream, w.conn) == []
  {
    hide Drafts;
    hide Through;
    hide ResponseWriter.Valid;
    hide Upgraded;
    hide Streamed;
    hide BodyRead;
    hide CallsOf;
    hide LastThrows;
    hide Truthful;
    hide FoundEnd;
    hide Early;
    PlayingFacts(w, events);
    if action.Take? {
      var chunk := ReadSome(reader, action.size);
      e := Event.Got(action.size, chunk);
      EventsStep(events, e);
      PlayingRead(w, events, e);
      more := if w.stream.rawIo then [] else chunk;
    } else {
      e := Play1(w, events, action.op);
      EventsStep(events, e);
      more := [];
    }
    assert BodyRead(events) + [] == BodyRead(events);
  }

  method Play1(w: ResponseWriter, ghost events: seq<Event>, op: Op) returns (e: Event)
    requires Playing(w, events)
    modifies w, w.headers
    modifies w.conn`output, w.stream`httpKeepAlive, w.stream`httpBodyPending, w.stream`rawIo, w.stream`streamResponse
    ensures e.Did? && e.op == op && Playing(w, events + [e]) && w.Leaves()
    ensures old(w.conn.output) <= w.conn.output
    ensures !w.stream.rawIo ==> !old(w.stream.rawIo) && w.stream.httpBodyPending == old(w.stream.httpBodyPending)
  {
    hide Drafts;
    hide Through;
    hide ResponseWriter.Valid;
    hide LastThrows;
    hide Truthful;
    hide BodyRead;
    hide CallsOf;
    hide FoundEnd;
    var r := Apply(w, CallsOf(events), op);
    e := Did(op, r.Ok?);
    EventsStep(events, e);
    FoundEndStep(events, e);
    if w.conn.open {
      TruthfulStep(events, e);
    }
  }

  /** What was read off the wire, and what is left of wire and body; the bytes stay in step until an
      upgrade. */
  ghost predicate Consumed(wire: bytes, pending: nat, wasRaw: bool, more: bytes, left: bytes, rest: nat, raw: bool) {
    && |left| <= |wire| && more <= wire && |more| <= pending && (wasRaw ==> more == [] && raw)
    && (!raw ==> wire == more + left && |more| + rest == pending)
  }

  lemma ConsumedTwice(
    wire: bytes, pending: nat, wasRaw: bool, chunk: bytes, left: bytes, rest: nat, raw: bool,
    chunk': bytes, left': bytes, rest': nat, raw': bool)
    requires Consumed(wire, pending, wasRaw, chunk, left, rest, raw) && Consumed(left, rest, raw, chunk', left', rest', raw')
    ensures Consumed(wire, pending, wasRaw, chunk + chunk', left', rest', raw') && (raw ==> raw') && |left'| <= |left| && (!raw' ==> rest' <= rest)
  {
  }

  /** On a network that did not go silent the connection closes only at the end of the bytes, and not
      before a body that arrives whole. */
  ghost predicate Calm(wire: bytes, pending: nat, left: bytes, open: bool) {
    (open || left == []) && (pending <= |wire| ==> open)
  }

  lemma CalmTwice(wire: bytes, pending: nat, more: bytes, left: bytes, rest: nat, open: bool, left': bytes, open': bool)
    requires Consumed(wire, pending, false, more, left, rest, false) && |left'| <= |left| && (open' ==> open)
    requires (open || left == []) && (more != [] || pending == 0 ==> open) && (open ==> Calm(left, rest, left', open'))
    ensures Calm(wire, pending, left', open')
  {
  }

  lemma ConsumedNothing(wire: bytes, pending: nat, raw: bool)
    ensures Consumed(wire, pending, raw, [], wire, pending, raw) && Calm(wire, pending, wire, true)
  {
  }

  lemma VerdictEnds(h: Handler, turn: nat, head: RequestHead, events: seq<Event>)
    ensures !Ends(Verdict(h, turn, head, events)) ==> |events| < h.limit(turn, head)
  {
  }

  /** The rest of what a handler does after these events. */
  method Play(reader: RequestBodyReader, w: ResponseWriter, h: Handler, turn: nat, head: RequestHead, events: seq<Event>)
    returns (all: seq<Event>, ghost more: bytes)
    requires Playing(w, events) && Played(h, turn, head, events) && w.conn == reader.conn && w.stream == reader.stream
    modifies w, w.headers
    modifies w.conn`output, w.conn`unread, w.conn`open, w.conn`stalls
    modifies w.stream`readBuff, w.stream`httpBodyPending, w.stream`httpKeepAlive, w.stream`rawIo, w.stream`streamResponse
    ensures Playing(w, all) && Played(h, turn, head, all) && Ends(Verdict(h, turn, head, all)) && w.Leaves()
    ensures events <= all && BodyRead(all) == BodyRead(events) + more
    ensures old(w.conn.output) <= w.conn.output
    ensures Consumed(old(Source(w.stream, w.conn)), old(w.stream.httpBodyPending), old(w.stream.rawIo),
                     more, Source(w.stream, w.conn), w.stream.httpBodyPending, w.stream.rawIo)
    ensures w.conn.stalls >= old(w.conn.stalls) && (w.conn.reliable ==> w.conn.stalls == old(w.conn.stalls))
    ensures w.conn.open ==> old(w.conn.open)
    ensures old(w.conn.open) && w.conn.stalls == old(w.conn.stalls) && !w.stream.rawIo ==>
      && Calm(old(Source(w.stream, w.conn)), old(w.stream.httpBodyPending), Source(w.stream, w.conn), w.conn.open)
      && (LastEmpty(all) && |all| > |events| ==> w.stream.httpBodyPending == 0 || Source(w.stream, w.conn) == [])
    decreases h.limit(turn, head) - |events|
  {
    hide Playing;
    hide Played;
    hide BodyRead;
    hide LastEmpty;
    hide Source;
    hide Verdict;
    hide Upgraded;
    hide Streamed;
    hide CallsOf;
    hide Matches;
    hide Consumed;
    hide Calm;
    VerdictEnds(h, turn, head, events);
    PlayingSafe(w, events);
    ghost var stalls, there := w.conn.stalls, w.conn.open;
    ghost var wire, pending, raw := Source(w.stream, w.conn), w.stream.httpBodyPending, w.stream.rawIo;
    ConsumedNothing(wire, pending, raw);
    assert BodyRead(events) + [] == BodyRead(events);
    var action := Verdict(h, turn, head, events);
    if Ends(action) {
      return events, [];
    }
    var e;
    ghost var chunk, rest;
    e, chunk := Step(reader, w, events, action);
    PlayedStep(h, turn, head, events, e);
    ghost var open' := w.conn.open;
    ghost var left, pending', raw' := Source(w.stream, w.conn), w.stream.httpBodyPending, w.stream.rawIo;
    all, rest := Play(reader, w, h, turn, head, events + [e]);
    more := chunk + rest;
    ConsumedTwice(wire, pending, raw, chunk, left, pending', raw', rest, Source(w.stream, w.conn), w.stream.httpBodyPending,
                  w.stream.rawIo);
    if stalls == w.conn.stalls && there && !w.stream.rawIo {
      CalmTwice(wire, pending, chunk, left, pending', open', Source(w.stream, w.conn), w.conn.open);
    }
    assert BodyRead(events) + chunk + rest == BodyRead(events) + more;
    assert all == events + [e] ==> LastEmpty(all) == LastEmpty(events + [e]);
  }

  // ---------------------------------------------------------------- one request

  /** An exception leaves the handler, or its response is found to have no known status. */
  ghost predicate Raises(h: Handler, turn: nat, x: Exchange, open: bool) {
    Verdict(h, turn, x.head, x.events).Raise? || (open && !Flushes(Calls(x)))
  }

  /** Keep-alive ends when the client asks for it. */
  method HeedClose(w: ResponseWriter, head: RequestHead)
    requires w.Valid() && !w.headerWritten && w.headers.entries == [] && w.conn.open
    modifies w.stream`httpKeepAlive
    ensures Playing(w, []) && w.base == w.conn.output && !w.stream.rawIo && !w.stream.streamResponse
    ensures w.stream.httpKeepAlive == (old(w.stream.httpKeepAlive) && !AsksToClose(head))
  {
    hide AsksToClose;
    hide ValidEntries;
    hide RenderHead;
    hide Accepted;
    if AsksToClose(head) {
      w.stream.httpKeepAlive := false;
    }
    FreshDrafts(w);
  }

  lemma NothingPlayed(h: Handler, turn: nat, head: RequestHead)
    ensures Played(h, turn, head, []) && CallsOf([]) == [] && BodyRead([]) == []
  {
  }

  lemma DrainsOrGaveUp(h: Handler, turn: nat, head: RequestHead, events: seq<Event>)
    requires Draining(h) && Played(h, turn, head, events) && Verdict(h, turn, head, events).Return?
    ensures |BodyRead(events)| >= BodyLength(head) || Upgraded(CallsOf(events)) || (LastEmpty(events) && events != [])
  {
    hide Played;
    hide Verdict;
    hide BodyRead;
    hide BodyLength;
    hide Upgraded;
    hide CallsOf;
  }

  method FinishPlayed(w: ResponseWriter, ghost events: seq<Event>) returns (r: Result<nat, WriteError>)
    requires Playing(w, events)
    modifies w.conn`output, w.headers
    ensures old(w.conn.output) <= w.conn.output
    ensures !w.conn.open ==> r.Ok?
    ensures w.conn.open ==> (r.Ok? <==> Flushes(CallsOf(events)))
    ensures w.conn.open && r.Ok? ==> w.conn.output == w.base + Reply(CallsOf(events), w.stream.httpKeepAlive, w.date)
    ensures w.conn.open && r.Err? ==> w.conn.output == w.base + Early(CallsOf(events), w.stream.httpKeepAlive, w.date)
  {
    hide ResponseWriter.Valid;
    hide Drafts;
    hide Through;
    hide Truthful;
    hide CallsOf;
    hide Flushes;
    hide Reply;
    hide Early;
    hide FoundEnd;
    r := Finish(w, CallsOf(events));
  }

  /** Runs the handler on a request and completes its response. */
  method RunHandler(reader: RequestBodyReader, w: ResponseWriter, h: Handler, turn: nat, head: RequestHead)
    returns (outcome: Outcome, ghost x: Exchange)
    requires w.stream.httpBodyPending == BodyLength(head)
    requires w.Valid() && !w.headerWritten && w.headers.entries == [] && w.conn == reader.conn && w.stream == reader.stream
    requires w.conn.open
    modifies w, w.headers
    modifies w.conn`output, w.conn`unread, w.conn`open, w.conn`stalls
    modifies w.stream`readBuff, w.stream`httpBodyPending, w.stream`httpKeepAlive, w.stream`rawIo, w.stream`streamResponse
    ensures |Source(w.stream, w.conn)| <= |old(Source(w.stream, w.conn))|
    ensures old(w.conn.output) <= w.conn.output
    ensures w.stream.Safe() && w.conn.stalls >= old(w.conn.stalls) && (w.conn.reliable ==> w.conn.stalls == old(w.conn.stalls))
    // what the handler did
    ensures x.head == head && x.served && Played(h, turn, head, x.events) && Ends(Verdict(h, turn, head, x.events))
    ensures if w.conn.open then Truthful(x.events) else FoundEnd(x.events)
    ensures BodyGot(x) <= old(Source(w.stream, w.conn)) && |BodyGot(x)| <= BodyLength(head)
    // how it ended
    ensures outcome == Threw <==> Raises(h, turn, x, w.conn.open)
    ensures outcome == Ended ==> !w.conn.open
    ensures outcome == Done ==>
      && w.conn.open && x.buffered == |w.stream.readBuff|
      && w.conn.output == old(w.conn.output) + Reply(Calls(x), w.stream.httpKeepAlive, w.date)
    ensures outcome == Threw && w.conn.open ==>
      w.conn.output == old(w.conn.output) + Early(Calls(x), w.stream.httpKeepAlive, w.date)
    // where it left the connection
    ensures w.stream.rawIo == Upgraded(Calls(x))
    ensures w.stream.httpKeepAlive <==> old(w.stream.httpKeepAlive) && Lasting(x)
    ensures !w.stream.rawIo ==>
      && old(Source(w.stream, w.conn)) == BodyGot(x) + Source(w.stream, w.conn)
      && |BodyGot(x)| + w.stream.httpBodyPending == BodyLength(head)
    ensures w.conn.stalls == old(w.conn.stalls) && !w.stream.rawIo ==>
      && (BodyLength(head) <= |old(Source(w.stream, w.conn))| ==> w.conn.open)
      && (Draining(h) && outcome == Done ==> w.stream.httpBodyPending == 0 || Source(w.stream, w.conn) == [])
  {
    hide BodyLength;
    hide AsksToClose;
    hide Playing;
    hide Played;
    hide Truthful;
    hide BodyRead;
    hide CallsOf;
    hide Verdict;
    hide LastThrows;
    hide Reply;
    hide Flushes;
    hide Draining;
    hide Source;
    hide LastEmpty;
    hide Upgraded;
    hide Streamed;
    hide FoundEnd;
    hide Early;
    hide ResponseWriter.Valid;
    WriterFacts(w);
    HeedClose(w, head);
    NothingPlayed(h, turn, head);
    var events;
    ghost var body;
    events, body := Play(reader, w, h, turn, head, []);
    assert [] + body == body;
    PlayingFacts(w, events);
    if Draining(h) && Verdict(h, turn, head, events).Return? {
      DrainsOrGaveUp(h, turn, head, events);
    }
    x := Exchange(head, events, true, |w.stream.readBuff|);
    if Verdict(h, turn, head, events).Raise? {
      return Threw, x;
    }
    var r := FinishPlayed(w, events);
    if r.Err? {
      return Threw, x;
    }
    return if w.conn.open then Done else Ended, x;
  }

  const LENGTH_CALLS: seq<Op> := [SetHeader(CONTENT_TYPE, "text/plain")] + [Head(LENGTH_REQUIRED)] + [Body(LENGTH_MESSAGE)]

  /** Header edits that set a plain type, and may set the connection to close. */
  lemma RefusalHeaders()
    ensures var edits := [SetHeader(CONTENT_TYPE, "text/plain")];
      OnlyEdits(edits) && !Streaming(HeadersBefore(edits)) && LastOf(HeadersBefore(edits), CONTENT_LENGTH) == []
    ensures var edits := [SetHeader(CONNECTION, "close")] + [SetHeader(CONTENT_TYPE, "text/plain")];
      OnlyEdits(edits) && !Streaming(HeadersBefore(edits)) && LastOf(HeadersBefore(edits), CONTENT_LENGTH) == []
  {
    hide AfterSet;
    hide Normalized;
    hide AllOf;
    hide Contains;
    hide BodyOf;
    hide WrittenOf;
    hide LastThrows;
    hide FirstStatus;
    hide HeadersBefore;
    var close, plain := SetHeader(CONNECTION, "close"), SetHeader(CONTENT_TYPE, "text/plain");
    NothingDrafted();
    OpsStep([], close);
    OpsStep([], plain);
    OpsStep([close], plain);
    assert [] + [close] == [close] && [] + [plain] == [plain];
    PlainHeaders([]);
    PlainHeaders(AfterSet([], CONNECTION, "close"));
  }

  lemma PlainHeaders(m: Entries)
    requires m == [] || m == AfterSet([], CONNECTION, "close")
    ensures var after := AfterSet(m, CONTENT_TYPE, "text/plain"); !Streaming(after) && LastOf(after, CONTENT_LENGTH) == []
  {
    hide AfterSet;
    hide Contains;
    HeaderNamesAreNormal();
    NothingContained();
    PlainWords();
    hide Normalized;
    AllOfAfterSet([], CONNECTION, "close", CONNECTION);
    AllOfAfterSet([], CONNECTION, "close", CONTENT_LENGTH);
    AllOfAfterSet(m, CONTENT_TYPE, "text/plain", CONNECTION);
    AllOfAfterSet(m, CONTENT_TYPE, "text/plain", CONTENT_TYPE);
    AllOfAfterSet(m, CONTENT_TYPE, "text/plain", CONTENT_LENGTH);
  }

  lemma PlainWords()
    ensures NeverIn("close", "upgrade") && NeverIn("text/plain", "event-stream")
  {
    hide NeverIn;
    ShorterNever("close", "upgrade");
    ShorterNever("text/plain", "event-stream");
  }

  ghost predicate NeverIn(token: bytes, word: bytes) {
    !Contains(Normalized(token), word)
  }

  lemma ShorterNever(token: bytes, word: bytes)
    requires |token| < |word|
    ensures NeverIn(token, word)
  {
    hide Contains;
    assert |Normalized(token)| <= |token|;
    TooShort(Normalized(token), word);
  }

  lemma {:induction false} TooShort(s: bytes, t: bytes)
    requires |s| < |t|
    ensures !Contains(s, t)
  {
    if s != [] {
      TooShort(s[1..], t);
    }
  }

  /** The answer for want of a length. */
  lemma LengthAnswer(keepAlive: bool, date: bytes)
    ensures CallsOf(LENGTH_EVENTS) == LENGTH_CALLS && BodyRead(LENGTH_EVENTS) == [] && Truthful(LENGTH_EVENTS)
    ensures Legal(LENGTH_CALLS) && Flushes(LENGTH_CALLS) && !Streamed(LENGTH_CALLS) && Enough(LENGTH_CALLS)
    ensures var r := Asked(LENGTH_CALLS, keepAlive, date); r.status == LENGTH_REQUIRED && r.body == LENGTH_MESSAGE
  {
    hide Asked;
    hide LastThrows;
    hide Upgraded;
    hide Streamed;
    hide Streaming;
    hide HeadersBefore;
    hide LastOf;
    hide Legal;
    hide Enough;
    hide Flushes;
    hide OnlyEdits;
    RefusalHeaders();
    AnswerLegal([SetHeader(CONTENT_TYPE, "text/plain")], LENGTH_REQUIRED, LENGTH_MESSAGE, keepAlive, date);
    LegalIff(LENGTH_CALLS);
    LengthEvents();
  }

  /** What the client is told that gave no length. */
  lemma LengthTold(keepAlive: bool, date: bytes)
    ensures var r := Asked(LENGTH_CALLS, keepAlive, date);
      && r.status == Status(411, Some("Length Required"))
      && r.body == "Content-Length header required " + "for methods POST, PUT, PATCH..."
  {
    hide Asked;
    hide Streaming;
    hide Streamed;
    hide CallsOf;
    hide BodyRead;
    hide Truthful;
    hide Legal;
    hide Flushes;
    hide Enough;
    LengthAnswer(keepAlive, date);
  }

  lemma LengthHeaders(keepAlive: bool, date: bytes)
    ensures var r := Asked(LENGTH_CALLS, keepAlive, date);
      && AllOf(r.headers, "content-type") == ["text/plain"]
      && AllOf(r.headers, "connection") == [if keepAlive then "keep-alive" else "close"]
  {
    hide Asked;
    hide Streaming;
    hide HeadersBefore;
    hide LastOf;
    hide OnlyEdits;
    hide AllOf;
    hide Normalized;
    hide ResponseHeaders.ValuesSet;
    RefusalHeaders();
    RefusalValues();
    var edits := [SetHeader(CONTENT_TYPE, "text/plain")];
    ResponseHeaders.AnswerHeader(edits, LENGTH_REQUIRED, LENGTH_MESSAGE, keepAlive, date, "content-type");
    ResponseHeaders.AnswerHeader(edits, LENGTH_REQUIRED, LENGTH_MESSAGE, keepAlive, date, "connection");
  }

  lemma RefusalTold(status: Status, message: bytes, keepAlive: bool, date: bytes)
    ensures var edits := [SetHeader(CONNECTION, "close")] + [SetHeader(CONTENT_TYPE, "text/plain")];
      var r := Asked(edits + [Head(status)] + [Body(message)], keepAlive, date);
      && LastOf(r.headers, "connection") == "close" && LastOf(r.headers, "content-type") == "text/plain"
  {
    hide Asked;
    hide Streaming;
    hide HeadersBefore;
    hide OnlyEdits;
    hide AllOf;
    hide Normalized;
    hide ResponseHeaders.ValuesSet;
    RefusalHeaders();
    RefusalValues();
    var edits := [SetHeader(CONNECTION, "close")] + [SetHeader(CONTENT_TYPE, "text/plain")];
    ResponseHeaders.AnswerHeader(edits, status, message, keepAlive, date, "content-type");
    ResponseHeaders.AnswerHeader(edits, status, message, keepAlive, date, "connection");
  }

  lemma LengthEvents()
    requires NoneThrows(LENGTH_CALLS)
    ensures CallsOf(LENGTH_EVENTS) == LENGTH_CALLS && BodyRead(LENGTH_EVENTS) == [] && Truthful(LENGTH_EVENTS)
  {
    hide LastThrows;
    hide Upgraded;
    hide BodyRead;
    hide CallsOf;
    var a, b, c := LENGTH_EVENTS[0], LENGTH_EVENTS[1], LENGTH_EVENTS[2];
    NothingDone();
    assert LENGTH_EVENTS == [] + [a] + [b] + [c];
    assert LENGTH_CALLS[..1] == [] + [a.op] && LENGTH_CALLS[..2] == [] + [a.op] + [b.op] && LENGTH_CALLS[..3] == LENGTH_CALLS;
    EventsStep([], a);
    TruthfulStep([], a);
    EventsStep([] + [a], b);
    TruthfulStep([] + [a], b);
    EventsStep([] + [a] + [b], c);
    TruthfulStep([] + [a] + [b], c);
  }

  lemma NothingDone()
    ensures CallsOf([]) == [] && BodyRead([]) == [] && Truthful([])
  {
  }

  /** Answers a request that should have told the length of its body. */
  method AskLength(w: ResponseWriter, head: RequestHead) returns (ghost x: Exchange)
    requires w.Valid() && !w.headerWritten && w.headers.entries == [] && w.conn.open
    modifies w, w.headers, w.conn`output
    modifies w.stream`httpBodyPending, w.stream`httpKeepAlive, w.stream`rawIo, w.stream`streamResponse
    ensures w.stream.Safe() && !w.stream.rawIo && w.stream.httpBodyPending == old(w.stream.httpBodyPending)
    ensures x == Exchange(head, LENGTH_EVENTS, false, |w.stream.readBuff|)
    ensures w.conn.output == old(w.conn.output) + Reply(Calls(x), w.stream.httpKeepAlive, w.date)
    ensures w.stream.httpKeepAlive == old(w.stream.httpKeepAlive)
  {
    hide Render;
    hide Asked;
    hide ResponseWriter.Valid;
    hide OnlyEdits;
    hide Legal;
    hide Enough;
    hide Framed;
    hide Streamed;
    hide Upgraded;
    hide CallsOf;
    hide Reply;
    hide Answered;
    WriterFacts(w);
    var r, resp := Respond(w, [SetHeader(CONTENT_TYPE, "text/plain"), Head(LENGTH_REQUIRED), Body(LENGTH_MESSAGE)]);
    LengthCallsAre();
    LengthAnswer(w.stream.httpKeepAlive, w.date);
    AnsweredReply(LENGTH_CALLS, w.stream.httpKeepAlive, w.date);
    x := Exchange(head, LENGTH_EVENTS, false, |w.stream.readBuff|);
  }

  lemma LengthCallsAre()
    ensures LENGTH_CALLS == [SetHeader(CONTENT_TYPE, "text/plain"), Head(LENGTH_REQUIRED), Body(LENGTH_MESSAGE)]
  {
  }

  /** Answers one parsed request. */
  method Answer(reader: RequestBodyReader, w: ResponseWriter, h: Handler, turn: nat, head: RequestHead)
    returns (outcome: Outcome, ghost x: Exchange)
    requires w.Valid() && !w.headerWritten && w.headers.entries == [] && w.conn == reader.conn && w.stream == reader.stream
    requires w.conn.open
    modifies w, w.headers
    modifies w.conn`output, w.conn`unread, w.conn`open, w.conn`stalls
    modifies w.stream`readBuff, w.stream`httpBodyPending, w.stream`httpKeepAlive, w.stream`rawIo, w.stream`streamResponse
    ensures |Source(w.stream, w.conn)| <= |old(Source(w.stream, w.conn))|
    ensures old(w.conn.output) <= w.conn.output
    ensures w.stream.Safe() && w.conn.stalls >= old(w.conn.stalls) && (w.conn.reliable ==> w.conn.stalls == old(w.conn.stalls))
    ensures x.head == head
    ensures outcome == Done ==> w.conn.open && Dispatched(h, turn, x)
    ensures outcome == Ended ==> !w.conn.open
    ensures outcome != Done ==> Attempted(h, turn, x, w.conn.open) && (outcome == Threw <==> Raises(h, turn, x, w.conn.open))
    ensures BodyGot(x) <= old(Source(w.stream, w.conn)) && |BodyGot(x)| <= BodyLength(head)
    ensures outcome == Done ==>
      && x.buffered == |w.stream.readBuff|
      && w.conn.output == old(w.conn.output) + Reply(Calls(x), w.stream.httpKeepAlive, w.date)
    ensures outcome == Threw && w.conn.open ==>
      w.conn.output == old(w.conn.output) + Early(Calls(x), w.stream.httpKeepAlive, w.date)
    ensures w.stream.rawIo == Upgraded(Calls(x))
    ensures w.stream.httpKeepAlive <==> old(w.stream.httpKeepAlive) && Lasting(x)
    ensures !w.stream.rawIo ==>
      && old(Source(w.stream, w.conn)) == BodyGot(x) + Source(w.stream, w.conn)
      && |BodyGot(x)| + w.stream.httpBodyPending == BodyLength(head)
    ensures w.conn.stalls == old(w.conn.stalls) && !w.stream.rawIo ==>
      && (BodyLength(head) <= |old(Source(w.stream, w.conn))| ==> w.conn.open)
      && (Draining(h) && outcome == Done ==> w.stream.httpBodyPending == 0 || Source(w.stream, w.conn) == [])
  {
    hide Early;
    hide FoundEnd;
    hide BodyLength;
    hide LacksLength;
    hide AsksToClose;
    hide Played;
    hide Truthful;
    hide BodyRead;
    hide CallsOf;
    hide Verdict;
    hide Reply;
    hide Flushes;
    hide Draining;
    hide Upgraded;
    hide Streamed;
    hide Dispatched;
    hide Source;
    hide Attempted;
    hide Raises;
    hide Lasting;
    hide ResponseWriter.Valid;
    SetPending(w, head);
    if LacksLength(head) {
      NothingRead(Source(w.stream, w.conn), head);
      x := AskLength(w, head);
      LengthDispatched(h, turn, x);
      return Done, x;
    }
    outcome, x := RunHandler(reader, w, h, turn, head);
    HandlerDispatched(h, turn, x, w.conn.open);
  }

  lemma HandlerDispatched(h: Handler, turn: nat, x: Exchange, open: bool)
    requires x.served && !LacksLength(x.head) && (if open then Truthful(x.events) else FoundEnd(x.events))
    requires Played(h, turn, x.head, x.events) && Ends(Verdict(h, turn, x.head, x.events))
    ensures Attempted(h, turn, x, open) && (open && !Raises(h, turn, x, open) ==> Dispatched(h, turn, x))
  {
  }

  method SetPending(w: ResponseWriter, head: RequestHead)
    requires w.Valid() && !w.headerWritten && w.headers.entries == []
    modifies w.stream`httpBodyPending
    ensures w.Valid() && w.stream.httpBodyPending == BodyLength(head) && !w.stream.rawIo && !w.stream.streamResponse
  {
    hide BodyLength;
    WriterFacts(w);
    w.stream.httpBodyPending := BodyLength(head);
  }

  lemma NothingRead(wire: bytes, head: RequestHead)
    ensures [] + wire == wire && [] <= wire && (LacksLength(head) ==> BodyLength(head) == 0)
  {
  }

  lemma LengthDispatched(h: Handler, turn: nat, x: Exchange)
    requires LacksLength(x.head) && x == Exchange(x.head, LENGTH_EVENTS, false, x.buffered)
    ensures Dispatched(h, turn, x) && BodyGot(x) == [] && !Upgraded(Calls(x)) && Lasting(x)
  {
    hide LacksLength;
    hide Truthful;
    hide BodyRead;
    hide CallsOf;
    hide Flushes;
    hide Upgrades;
    hide StreamsEvents;
    hide HeadersBefore;
    hide Legal;
    hide Asked;
    LengthAnswer(true, []);
  }

  /** A handler that ran to its end or to an exception, on a request it was meant to get. If the
      connection ended meanwhile, it did so at a read that came back empty. */
  ghost predicate Attempted(h: Handler, turn: nat, x: Exchange, open: bool) {
    && x.served && !LacksLength(x.head) && (if open then Truthful(x.events) else FoundEnd(x.events))
    && Played(h, turn, x.head, x.events) && Ends(Verdict(h, turn, x.head, x.events))
  }

  function StatusOf(error: HeadError): (s: Status)
    ensures s.phrase.Some?
  {
    match error
    case TooBig => HEADER_TOO_LARGE
    case _ => BAD_REQUEST
  }

  function MessageOf(error: HeadError): bytes {
    match error
    case TooBig => "request header section is too big"
    case Malformed(BadSpacing) => "Request line invalid: invalid spacing"
    case Malformed(NoMethod) => "Request line invalid: no defined method"
    case Malformed(UnknownMethod) => "Invlid http method"
    case Malformed(NoUrl) => "Request line invalid: no defined url"
    case _ => "Unsupported http version"
  }

  /** The answer to a head that could not be read; a connection that is gone or silent gets none. */
  ghost predicate Refused(error: HeadError, answer: Option<Response>) {
    && (answer.Some? <==> error == TooBig || (error.Malformed? && error.error != Thrown))
    && (answer.Some? ==>
          && answer.value.status == StatusOf(error) && answer.value.body == MessageOf(error)
          && Framed(answer.value, true) && LastOf(answer.value.headers, "connection") == "close")
  }

  /** What the client is told: nothing by a connection that is gone or silent, or by an exception. */
  lemma RefusedTells(error: HeadError, answer: Option<Response>)
    requires Refused(error, answer)
    ensures answer.None? <==> error == Closed || error == TimedOut || error == Malformed(Thrown)
    ensures error == TooBig ==>
      && answer.value.status == Status(431, Some("Request Header Fields Too Large"))
      && answer.value.body == "request header section is too big"
    ensures error.Malformed? && error.error != Thrown ==>
      && answer.value.status == Status(400, Some("Bad Request"))
      && answer.value.body == match error.error
        case BadSpacing => "Request line invalid: invalid spacing"
        case NoMethod => "Request line invalid: no defined method"
        case UnknownMethod => "Invlid http method"
        case NoUrl => "Request line invalid: no defined url"
        case _ => "Unsupported http version"
  {
    hide Framed;
    hide LastOf;
  }

  function AnswerText(answer: Option<Response>): bytes {
    if answer.Some? then RenderKnown(answer.value) else []
  }

  /** Answers a head that could not be read, and hangs up; the exception of a query that cannot be
      decoded goes through. */
  method Refuse(w: ResponseWriter, error: HeadError) returns (outcome: Outcome, ghost answer: Option<Response>)
    requires w.Valid() && !w.headerWritten && w.headers.entries == []
    requires error != TimedOut ==> (error == Closed <==> !w.conn.open)
    modifies w, w.headers, w.conn`output, w.conn`open
    modifies w.stream`httpBodyPending, w.stream`httpKeepAlive, w.stream`rawIo, w.stream`streamResponse
    ensures w.stream.Safe() && !w.stream.rawIo && w.stream.httpKeepAlive == old(w.stream.httpKeepAlive)
    ensures outcome == if error == Malformed(Thrown) then Threw else Ended
    ensures outcome == Ended ==> !w.conn.open
    ensures outcome == Threw ==> w.conn.open == old(w.conn.open)
    ensures Refused(error, answer) && w.conn.output == old(w.conn.output) + AnswerText(answer)
  {
    hide RenderKnown;
    hide ResponseWriter.Valid;
    hide StatusOf;
    hide MessageOf;
    hide Framed;
    WriterFacts(w);
    answer := None;
    assert w.conn.output + [] == w.conn.output;
    if error == Malformed(Thrown) {
      return Threw, answer;
    }
    if !w.conn.open {
      return Ended, answer;
    }
    if error == TimedOut {
      w.conn.Close();
      return Ended, answer;
    }
    ghost var resp := AnswerError(w, error);
    w.conn.Close();
    return Ended, Some(resp);
  }

  method AnswerError(w: ResponseWriter, error: HeadError) returns (ghost resp: Response)
    requires w.Valid() && !w.headerWritten && w.headers.entries == [] && w.conn.open
    modifies w, w.headers, w.conn`output
    modifies w.stream`httpBodyPending, w.stream`httpKeepAlive, w.stream`rawIo, w.stream`streamResponse
    ensures w.stream.Safe() && !w.stream.rawIo && w.stream.httpKeepAlive == old(w.stream.httpKeepAlive)
    ensures w.conn.output == old(w.conn.output) + RenderKnown(resp)
    ensures resp.status == StatusOf(error) && resp.body == MessageOf(error) && Framed(resp, true)
    ensures LastOf(resp.headers, "connection") == "close"
  {
    hide Render;
    hide Asked;
    hide ResponseWriter.Valid;
    hide OnlyEdits;
    hide Legal;
    hide Enough;
    hide Framed;
    hide Streamed;
    hide Upgraded;
    hide StatusOf;
    hide MessageOf;
    hide Reply;
    hide LastOf;
    WriterFacts(w);
    RefusalAsked(error, w.stream.httpKeepAlive, w.date);
    var r;
    r, resp := Respond(w, [SetHeader(CONNECTION, "close"), SetHeader(CONTENT_TYPE, "text/plain"),
                           Head(StatusOf(error)), Body(MessageOf(error))]);
  }

  lemma RefusalValues()
    ensures var edits := [SetHeader(CONNECTION, "close")] + [SetHeader(CONTENT_TYPE, "text/plain")];
      && Normalized("connection") == "connection" && Normalized("content-type") == "content-type"
      && ResponseHeaders.ValuesSet(edits, "connection") == ["close"]
      && ResponseHeaders.ValuesSet(edits, "content-type") == ["text/plain"]
    ensures var edits := [SetHeader(CONTENT_TYPE, "text/plain")];
      && ResponseHeaders.ValuesSet(edits, "connection") == []
      && ResponseHeaders.ValuesSet(edits, "content-type") == ["text/plain"]
  {
    HeaderNamesAreNormal();
    hide Normalized;
    var close, plain := SetHeader(CONNECTION, "close"), SetHeader(CONTENT_TYPE, "text/plain");
    assert ([close] + [plain])[..1] == [close] && [close][..0] == [] && [plain][..0] == [];
  }

  lemma RefusalAsked(error: HeadError, keepAlive: bool, date: bytes)
    ensures var ops := [SetHeader(CONNECTION, "close"), SetHeader(CONTENT_TYPE, "text/plain"),
                        Head(StatusOf(error)), Body(MessageOf(error))];
      var r := Asked(ops, keepAlive, date);
      && Legal(ops) && !Streamed(ops) && Framed(r, true)
      && r.status == StatusOf(error) && r.body == MessageOf(error)
      && LastOf(r.headers, "connection") == "close" && LastOf(r.headers, "content-type") == "text/plain"
  {
    hide Asked;
    hide StatusOf;
    hide MessageOf;
    hide Legal;
    hide Streamed;
    hide Streaming;
    hide HeadersBefore;
    hide OnlyEdits;
    hide LastOf;
    hide Enough;
    var close, plain := SetHeader(CONNECTION, "close"), SetHeader(CONTENT_TYPE, "text/plain");
    var head, body := Head(StatusOf(error)), Body(MessageOf(error));
    RefusalHeaders();
    AnswerLegal([close] + [plain], StatusOf(error), MessageOf(error), keepAlive, date);
    assert [close] + [plain] + [head] + [body] == [close, plain, head, body];
    RefusalTold(StatusOf(error), MessageOf(error), keepAlive, date);
  }

  // ---------------------------------------------------------------- the reference framing

  function Min(a: nat, b: nat): nat {
    if a <= b then a else b
  }

  /** The bytes from the next request head on: what is left of the current body is skipped. */
  ghost function Rest(stream: StreamState, conn: Connection): bytes
    reads stream, conn
  {
    Source(stream, conn)[Min(stream.httpBodyPending, |Source(stream, conn)|)..]
  }

  /** The requests of a stream of bytes, one head and one body after another: `log` lists them in
      order, each body read at most up to its announced length, and `rest` is what follows. */
  ghost predicate Follows(wire: bytes, log: seq<Exchange>, rest: bytes)
    decreases |log|
  {
    if log == [] then rest == wire
    else
      match FirstHead(wire)
      case HeadAt(head, end) =>
        && log[0].head == head
        && |BodyGot(log[0])| <= BodyLength(head) && BodyGot(log[0]) <= wire[end..]
        && Follows(wire[Min(end + BodyLength(head), |wire|)..], log[1..], rest)
      case _ => false
  }

  /** Of these requests, every body that arrived whole was read whole. */
  ghost predicate ReadsWhole(wire: bytes, log: seq<Exchange>)
    decreases |log|
  {
    log == [] ||
    match FirstHead(wire)
    case HeadAt(head, end) =>
      && (end + BodyLength(head) <= |wire| ==> |BodyGot(log[0])| == BodyLength(head))
      && ReadsWhole(wire[Min(end + BodyLength(head), |wire|)..], log[1..])
    case _ => false
  }

  /** A whole request, with a head within the limit, stands there. */
  ghost predicate RequestAt(wire: bytes, maxHeaderSize: nat) {
    match FirstHead(wire)
    case HeadAt(head, end) => end <= maxHeaderSize && end + BodyLength(head) <= |wire|
    case _ => false
  }

  /** The request at the front of the bytes is this one, and its body was read from there. */
  ghost predicate At(wire: bytes, x: Exchange) {
    match FirstHead(wire)
    case HeadAt(head, end) =>
      head == x.head && BodyGot(x) <= wire[end..] && |BodyGot(x)| <= BodyLength(head)
    case _ => false
  }

  lemma {:induction false} FollowsOneMore(wire: bytes, log: seq<Exchange>, rest: bytes, x: Exchange, after: bytes)
    requires Follows(wire, log, rest) && Follows(rest, [x], after)
    ensures Follows(wire, log + [x], after)
    ensures ReadsWhole(wire, log) && ReadsWhole(rest, [x]) ==> ReadsWhole(wire, log + [x])
    decreases |log|
  {
    hide FirstHead;
    hide BodyLength;
    hide BodyGot;
    if log == [] {
      assert log + [x] == [x];
    } else {
      assert (log + [x])[1..] == log[1..] + [x];
      var scan := FirstHead(wire);
      FollowsOneMore(wire[Min(scan.end + BodyLength(scan.head), |wire|)..], log[1..], rest, x, after);
    }
  }

  lemma FollowsOne(wire: bytes, x: Exchange, left: bytes, pending: nat)
    requires FirstHead(wire).HeadAt? && FirstHead(wire).head == x.head
    requires wire[FirstHead(wire).end..] == BodyGot(x) + left && |BodyGot(x)| + pending == BodyLength(x.head)
    ensures Follows(wire, [x], left[Min(pending, |left|)..])
    ensures pending == 0 || left == [] ==> ReadsWhole(wire, [x])
  {
    hide FirstHead;
    hide BodyLength;
    hide BodyGot;
    var end := FirstHead(wire).end;
    var len := BodyLength(x.head);
    var body := BodyGot(x);
    assert [x][1..] == [];
    assert |wire[end..]| == |body + left|;
    assert wire[end..][Min(len, |body| + |left|)..] == wire[Min(end + len, |wire|)..];
    assert (body + left)[|body| + Min(pending, |left|)..] == left[Min(pending, |left|)..];
  }

  // ---------------------------------------------------------------- one turn

  /** What became of the bytes that waited: no head could be read from them, or an exchange was begun. */
  datatype Visit = NoHead(error: HeadError, answer: Option<Response>) | Attempt(x: Exchange)

  /** What is known of the bytes when the loop stops at them. `quiet` networks never go silent. */
  ghost predicate Stopped(h: Handler, turn: nat, visit: Visit, wire: bytes, maxHeaderSize: nat, open: bool, quiet: bool) {
    match visit
    case NoHead(error, _) =>
      match error {
        case Malformed(e) => FirstHead(wire) == BadHead(e)
        case TooBig => |wire| > maxHeaderSize && FirstHead(wire[..maxHeaderSize]) == NeedMore
        case _ => quiet ==> FirstHead(wire) == NeedMore
      }
    case Attempt(x) =>
      && At(wire, x) && Attempted(h, turn, x, open)
      && (quiet && !Raises(h, turn, x, open) && !Upgraded(Calls(x)) ==> !RequestAt(wire, maxHeaderSize))
  }

  /** A request with a head within the limit is not turned away; only a silent network keeps it. */
  lemma RequestAttempted(h: Handler, turn: nat, visit: Visit, wire: bytes, maxHeaderSize: nat, open: bool, quiet: bool)
    requires Stopped(h, turn, visit, wire, maxHeaderSize, open, quiet) && RequestAt(wire, maxHeaderSize)
    ensures visit.NoHead? ==> !quiet && (visit.error == TimedOut || visit.error == Closed)
  {
    hide BodyLength;
    hide ScanHead;
    if visit.NoHead? && visit.error == TooBig {
      ScanEnough(wire[..maxHeaderSize], wire, 0, None, []);
    }
  }

  /** What the peer gets from it: the answer to a head that could not be read, or what had gone out before
      an exception. */
  ghost function LastText(visit: Visit, date: bytes): bytes {
    match visit
    case NoHead(_, answer) => AnswerText(answer)
    case Attempt(x) => Early(Calls(x), Lasting(x), date)
  }

  ghost predicate ThrewAt(h: Handler, turn: nat, visit: Visit, open: bool) {
    match visit
    case NoHead(error, _) => error == Malformed(Thrown)
    case Attempt(x) => Raises(h, turn, x, open)
  }

  /** Reads one request and answers it. */
  method ServeRequest(conn: Connection, stream: StreamState, h: Handler, turn: nat, maxHeaderSize: nat, date: bytes)
    returns (outcome: Outcome, ghost visit: Visit)
    requires (conn.open || stream.readBuff == []) && stream.Safe() && stream.httpKeepAlive
    modifies conn, stream
    ensures |Source(stream, conn)| <= |old(Source(stream, conn))|
    ensures old(conn.output) <= conn.output
    ensures stream.Safe() && conn.stalls >= old(conn.stalls) && (conn.reliable ==> conn.stalls == old(conn.stalls))
    ensures outcome == Ended ==> !conn.open
    // an exchange was completed
    ensures outcome == Done ==>
      && visit.Attempt? && conn.open && |Source(stream, conn)| < |old(Source(stream, conn))|
      && Dispatched(h, turn, visit.x) && visit.x.buffered == |stream.readBuff|
      && conn.output == old(conn.output) + Reply(Calls(visit.x), Lasting(visit.x), date)
      && (stream.httpKeepAlive <==> Lasting(visit.x)) && stream.rawIo == Upgraded(Calls(visit.x))
      && At(old(Source(stream, conn)), visit.x)
    ensures outcome == Done && !stream.rawIo ==>
      && Follows(old(Source(stream, conn)), [visit.x], Rest(stream, conn))
      && |BodyGot(visit.x)| + stream.httpBodyPending == BodyLength(visit.x.head)
      && (Draining(h) && conn.stalls == old(conn.stalls) ==>
            && (stream.httpBodyPending == 0 || Source(stream, conn) == [])
            && ReadsWhole(old(Source(stream, conn)), [visit.x]))
    // or it was not
    ensures outcome != Done ==>
      && Stopped(h, turn, visit, old(Source(stream, conn)), maxHeaderSize, conn.open, old(conn.open) && conn.stalls == old(conn.stalls))
      && (outcome == Threw <==> ThrewAt(h, turn, visit, conn.open))
    ensures visit.NoHead? ==> Refused(visit.error, visit.answer)
    ensures outcome != Done && (visit.NoHead? || conn.open) ==> conn.output == old(conn.output) + LastText(visit, date)
  {
    hide Dispatched;
    hide Attempted;
    hide Raises;
    hide Lasting;
    hide FirstHead;
    hide BodyLength;
    hide BodyGot;
    hide Calls;
    hide Upgraded;
    hide Reply;
    hide Follows;
    hide ReadsWhole;
    hide Draining;
    hide AnswerText;
    hide Early;
    hide Refused;
    hide ResponseWriter.Valid;
    ghost var wire := Source(stream, conn);
    var reader := new RequestBodyReader(conn, stream);
    var w := new ResponseWriter(conn, stream, date);
    var head := ReadRequestHead(conn, stream, maxHeaderSize);
    if head.Err? {
      ghost var answer;
      outcome, answer := Refuse(w, head.error);
      visit := NoHead(head.error, answer);
      return;
    }
    ghost var left := Source(stream, conn);
    ghost var x;
    outcome, x := Answer(reader, w, h, turn, head.value);
    visit := Attempt(x);
    if outcome == Done && !stream.rawIo {
      FollowsOne(wire, x, Source(stream, conn), stream.httpBodyPending);
    }
  }

  /** `discard_unread_body` moves towards the next head without passing it. */
  method Discard(conn: Connection, stream: StreamState) returns (ghost short: bool)
    requires conn.open && !stream.rawIo
    modifies conn`unread, conn`open, conn`stalls, stream`readBuff, stream`httpBodyPending
    ensures Rest(stream, conn) == old(Rest(stream, conn)) && |Source(stream, conn)| <= |old(Source(stream, conn))|
    ensures conn.stalls >= old(conn.stalls) && (conn.reliable ==> conn.stalls == old(conn.stalls))
    ensures conn.open || stream.readBuff == []
    ensures conn.stalls == old(conn.stalls) ==> conn.open || Source(stream, conn) == []
    ensures !short ==> Rest(stream, conn) == Source(stream, conn)
    ensures old(stream.httpBodyPending == 0 || Source(stream, conn) == []) ==> !short
    ensures short ==> old(stream.httpBodyPending) > old(|stream.readBuff|)
  {
    ghost var before := Source(stream, conn);
    ghost var pending := stream.httpBodyPending;
    ghost var dropped := DiscardUnreadBody(conn, stream);
    ghost var after := Source(stream, conn);
    assert before[Min(pending, |before|)..] == after[Min(stream.httpBodyPending, |after|)..] by {
      assert (dropped + after)[|dropped| + Min(stream.httpBodyPending, |after|)..] == after[Min(stream.httpBodyPending, |after|)..];
    }
    short := stream.httpBodyPending > 0 && after != [];
  }

  lemma NothingAt(h: Handler, turn: nat, visit: Visit, maxHeaderSize: nat, open: bool, quiet: bool, silent: bool)
    requires Stopped(h, turn, visit, [], maxHeaderSize, open, quiet)
    ensures Stopped(h, turn, visit, [], maxHeaderSize, open, silent)
  {
    hide Attempted;
    hide Raises;
    hide Upgraded;
    hide BodyGot;
  }

  /** One turn of the loop: a discard, then a request. */
  method Turn(conn: Connection, stream: StreamState, h: Handler, turn: nat, maxHeaderSize: nat, date: bytes)
    returns (outcome: Outcome, ghost visit: Visit, ghost short: bool)
    requires conn.open && stream.Safe() && stream.httpKeepAlive
    modifies conn, stream
    ensures |Source(stream, conn)| <= |old(Source(stream, conn))|
    ensures old(conn.output) <= conn.output
    ensures stream.Safe() && conn.stalls >= old(conn.stalls) && (conn.reliable ==> conn.stalls == old(conn.stalls))
    ensures outcome == Ended ==> !conn.open
    ensures outcome == Done ==>
      && visit.Attempt? && conn.open && |Source(stream, conn)| < |old(Source(stream, conn))|
      && Dispatched(h, turn, visit.x) && visit.x.buffered == |stream.readBuff|
      && conn.output == old(conn.output) + Reply(Calls(visit.x), Lasting(visit.x), date)
      && (stream.httpKeepAlive <==> Lasting(visit.x)) && stream.rawIo == Upgraded(Calls(visit.x))
    ensures outcome == Done && !stream.rawIo ==>
      && |BodyGot(visit.x)| + stream.httpBodyPending == BodyLength(visit.x.head)
      && (Draining(h) && conn.stalls == old(conn.stalls) ==> stream.httpBodyPending == 0 || Source(stream, conn) == [])
    ensures outcome == Done && !short ==> At(old(Rest(stream, conn)), visit.x)
    ensures outcome == Done && !short && !stream.rawIo ==> Follows(old(Rest(stream, conn)), [visit.x], Rest(stream, conn))
    ensures outcome == Done && !short && !stream.rawIo && Draining(h) && conn.stalls == old(conn.stalls) ==>
      ReadsWhole(old(Rest(stream, conn)), [visit.x])
    ensures outcome != Done && !short ==>
      Stopped(h, turn, visit, old(Rest(stream, conn)), maxHeaderSize, conn.open, conn.stalls == old(conn.stalls))
    ensures outcome != Done ==> (outcome == Threw <==> ThrewAt(h, turn, visit, conn.open))
    ensures visit.NoHead? ==> Refused(visit.error, visit.answer)
    ensures outcome != Done && (visit.NoHead? || conn.open) ==> conn.output == old(conn.output) + LastText(visit, date)
    // the discard falls short only of a body that was neither read nor buffered
    ensures short ==> old(stream.httpBodyPending) > old(|stream.readBuff|)
    ensures old(stream.httpBodyPending == 0 || Source(stream, conn) == []) ==> !short
  {
    hide Dispatched;
    hide Stopped;
    hide ThrewAt;
    hide Lasting;
    hide At;
    hide BodyLength;
    hide BodyGot;
    hide Calls;
    hide Upgraded;
    hide Reply;
    hide Follows;
    hide ReadsWhole;
    hide Draining;
    hide LastText;
    hide Refused;
    hide Rest;
    hide Source;
    short := Discard(conn, stream);
    ghost var stalls := conn.stalls;
    ghost var there := conn.open;
    ghost var wire := Source(stream, conn);
    outcome, visit := ServeRequest(conn, stream, h, turn, maxHeaderSize, date);
    if outcome != Done && !short && !there && stalls == old(conn.stalls) {
      NothingAt(h, turn, visit, maxHeaderSize, conn.open, false, conn.stalls == old(conn.stalls));
    }
    if outcome != Done && !short && conn.stalls != old(conn.stalls) {
      LessQuiet(h, turn, visit, wire, maxHeaderSize, conn.open, there && conn.stalls == stalls);
    }
  }

  lemma LessQuiet(h: Handler, turn: nat, visit: Visit, wire: bytes, maxHeaderSize: nat, open: bool, quiet: bool)
    requires Stopped(h, turn, visit, wire, maxHeaderSize, open, quiet)
    ensures Stopped(h, turn, visit, wire, maxHeaderSize, open, false)
  {
    hide Attempted;
    hide Raises;
    hide At;
    hide RequestAt;
    hide FirstHead;
  }

  // ---------------------------------------------------------------- whole connections

  /** The replies of a log, one after another. */
  ghost function Replies(log: seq<Exchange>, date: bytes): bytes {
    if log == [] then []
    else Replies(log[..|log| - 1], date) + Reply(Calls(log[|log| - 1]), Lasting(log[|log| - 1]), date)
  }

  lemma RepliesSnoc(before: bytes, log: seq<Exchange>, x: Exchange, date: bytes)
    ensures before + Replies(log, date) + Reply(Calls(x), Lasting(x), date) == before + Replies(log + [x], date)
  {
    hide Reply;
    hide Lasting;
    hide Calls;
    assert (log + [x])[..|log|] == log;
  }

  /** The first exchanges ended neither plain HTTP nor keep-alive. */
  ghost predicate LastingBut(log: seq<Exchange>, n: int) {
    forall i :: 0 <= i < |log| && i < n ==> Lasting(log[i])
  }

  ghost predicate Lasted(log: seq<Exchange>) {
    LastingBut(log, |log|)
  }

  ghost predicate AllDispatched(h: Handler, log: seq<Exchange>) {
    forall i :: 0 <= i < |log| ==> Dispatched(h, i, log[i])
  }

  ghost predicate SomeCutShort(log: seq<Exchange>) {
    exists i :: 0 <= i < |log| && CutShort(log[i])
  }

  lemma LogSnoc(h: Handler, log: seq<Exchange>, x: Exchange)
    ensures Lasted(log) ==> LastingBut(log + [x], |log|) && (Lasted(log + [x]) <==> Lasting(x))
    ensures AllDispatched(h, log) && Dispatched(h, |log|, x) ==> AllDispatched(h, log + [x])
    ensures SomeCutShort(log) ==> SomeCutShort(log + [x])
    ensures (log + [x])[|log|] == x && (CutShort(x) ==> SomeCutShort(log + [x]))
  {
    hide Lasting;
    hide Dispatched;
    hide CutShort;
    var all := log + [x];
    assert all[|log|] == x;
    assert forall i :: 0 <= i < |log| ==> all[i] == log[i];
    if SomeCutShort(log) {
      var i :| 0 <= i < |log| && CutShort(log[i]);
      assert CutShort(all[i]);
    }
  }

  /** The exchanges before an upgrade. */
  ghost function Plain(log: seq<Exchange>): seq<Exchange> {
    if log != [] && Upgraded(Calls(log[|log| - 1])) then log[..|log| - 1] else log
  }

  lemma PlainIsAll(log: seq<Exchange>)
    requires Lasted(log)
    ensures Plain(log) == log
  {
    if log != [] {
      assert Lasting(log[|log| - 1]);
    }
  }

  lemma PlainSnoc(log: seq<Exchange>, x: Exchange)
    ensures Plain(log + [x]) == if Upgraded(Calls(x)) then log else log + [x]
  {
    hide Upgraded;
    hide Calls;
    assert (log + [x])[..|log|] == log;
  }

  /** The log and the bytes after it, which an upgraded exchange has not moved past. */
  ghost predicate InStep(wire: bytes, log: seq<Exchange>, rest: bytes) {
    && Follows(wire, Plain(log), rest)
    && (Plain(log) != log ==> At(rest, log[|log| - 1]))
  }

  lemma InStepMore(wire: bytes, log: seq<Exchange>, rest: bytes, x: Exchange, after: bytes)
    requires InStep(wire, log, rest) && Lasted(log) && At(rest, x)
    requires !Upgraded(Calls(x)) ==> Follows(rest, [x], after)
    ensures InStep(wire, log + [x], if Upgraded(Calls(x)) then rest else after)
    ensures ReadsWhole(wire, Plain(log)) && (Upgraded(Calls(x)) || ReadsWhole(rest, [x])) ==> ReadsWhole(wire, Plain(log + [x]))
  {
    hide Follows;
    hide ReadsWhole;
    hide At;
    hide Upgraded;
    hide Calls;
    hide Lasted;
    PlainIsAll(log);
    PlainSnoc(log, x);
    if !Upgraded(Calls(x)) {
      FollowsOneMore(wire, log, rest, x, after);
    }
  }

  /** The bytes left behind by the exchanges so far, as the loop finds them. */
  ghost predicate Ready(log: seq<Exchange>, stream: StreamState)
    reads stream
  {
    if log == [] then stream.httpBodyPending == 0
    else
      var x := log[|log| - 1];
      |BodyGot(x)| + stream.httpBodyPending == BodyLength(x.head) && x.buffered == |stream.readBuff|
  }

  lemma ShortMeansCut(log: seq<Exchange>, stream: StreamState)
    requires Ready(log, stream) && stream.httpBodyPending > |stream.readBuff|
    ensures SomeCutShort(log)
  {
    hide BodyGot;
    hide BodyLength;
    assert CutShort(log[|log| - 1]);
  }

  /** The answers of a log are framed, so that the client finds the next one, exactly where as much was
      written as was announced. */
  ghost predicate FramedWhenEnough(log: seq<Exchange>, date: bytes) {
    forall i :: 0 <= i < |log| && Answered(Calls(log[i])) ==>
      && Reply(Calls(log[i]), Lasting(log[i]), date) == RenderKnown(AnswerTo(log[i], date))
      && (Framed(AnswerTo(log[i], date), Lasting(log[i])) <==> Enough(Calls(log[i])))
  }

  lemma AllFramed(log: seq<Exchange>, date: bytes)
    ensures FramedWhenEnough(log, date)
  {
    hide Calls;
    hide Streamed;
    hide Answered;
    hide Reply;
    hide Asked;
    hide Framed;
    hide Enough;
    hide Render;
    forall i | 0 <= i < |log| && Answered(Calls(log[i]))
      ensures Reply(Calls(log[i]), Lasting(log[i]), date) == RenderKnown(AnswerTo(log[i], date))
      ensures Framed(AnswerTo(log[i], date), Lasting(log[i])) <==> Enough(Calls(log[i]))
    {
      AnsweredReply(Calls(log[i]), Lasting(log[i]), date);
    }
  }

  /** Where the handler set no connection header, the head of every answer tells the client what the loop does:
      `close` when it ends behind that answer, `keep-alive` otherwise. */
  ghost predicate TokensTell(log: seq<Exchange>, date: bytes, ended: bool) {
    forall i :: 0 <= i < |log| && !OnlyEdits(Calls(log[i])) && AllOf(HeadersBefore(Calls(log[i])), "connection") == [] ==>
      LastOf(AnswerTo(log[i], date).headers, "connection") == if ended && i == |log| - 1 then "close" else "keep-alive"
  }

  lemma TokensRight(log: seq<Exchange>, date: bytes, ended: bool)
    requires LastingBut(log, |log| - 1) && (Lasted(log) <==> !ended)
    ensures TokensTell(log, date, ended)
  {
    hide Calls;
    hide OnlyEdits;
    hide HeadersBefore;
    hide Lasting;
    hide AllOf;
    hide LastOf;
    hide Asked;
    if ended {
      LastEnds(log);
    }
    forall i | 0 <= i < |log| && !OnlyEdits(Calls(log[i])) && AllOf(HeadersBefore(Calls(log[i])), "connection") == []
      ensures LastOf(AnswerTo(log[i], date).headers, "connection") == if ended && i == |log| - 1 then "close" else "keep-alive"
    {
      ResponseHeaders.TokenTells(Calls(log[i]), Lasting(log[i]), date);
      assert Lasting(log[i]) <==> !(ended && i == |log| - 1);
    }
  }

  lemma LastEnds(log: seq<Exchange>)
    requires LastingBut(log, |log| - 1) && !Lasted(log)
    ensures log != [] && !Lasting(log[|log| - 1])
  {
    hide Lasting;
    var i :| 0 <= i < |log| && !Lasting(log[i]);
    assert i == |log| - 1;
  }

  /** A handler that reads until it has the whole body, or finds nothing more, and returns. */
  function Drainer(): Handler {
    Handler(
      (turn, head, events) => if LastEmpty(events) || |BodyRead(events)| >= BodyLength(head) then Return else Take(0),
      (turn, head) => BodyLength(head) + 1)
  }

  lemma {:induction false} DrainerReads(turn: nat, head: RequestHead, events: seq<Event>)
    requires Played(Drainer(), turn, head, events)
    ensures CallsOf(events) == [] && (LastEmpty(events) || |BodyRead(events)| >= |events|)
    decreases |events|
  {
    hide Upgraded;
    hide BodyLength;
    hide Drainer;
    hide Verdict;
    hide BodyRead;
    hide CallsOf;
    if events == [] {
      NothingDone();
    } else {
      var before, e := events[..|events| - 1], events[|events| - 1];
      assert events == before + [e];
      assert forall i :: 0 <= i < |before| ==> before[..i] == events[..i] && before[i] == events[i];
      assert Matches(Verdict(Drainer(), turn, head, before), e);
      DrainerReads(turn, head, before);
      DrainerTakes(turn, head, before);
      EventsStep(before, e);
      NoUpgradeYet();
    }
  }

  lemma DrainerTakes(turn: nat, head: RequestHead, events: seq<Event>)
    ensures Verdict(Drainer(), turn, head, events) == Take(0) || Verdict(Drainer(), turn, head, events) == Return
    ensures Verdict(Drainer(), turn, head, events) == Take(0) ==> !LastEmpty(events)
  {
    hide BodyRead;
    hide BodyLength;
    hide LastEmpty;
  }

  lemma NoUpgradeYet()
    ensures !Upgraded([])
  {
  }

  /** Such handlers are draining. */
  lemma DrainerDrains()
    ensures Draining(Drainer())
  {
    hide Upgraded;
    hide BodyRead;
    hide BodyLength;
    hide CallsOf;
    hide Played;
    forall turn: nat, head, events | Played(Drainer(), turn, head, events) && Verdict(Drainer(), turn, head, events).Return?
      ensures |BodyRead(events)| >= BodyLength(head) || Upgraded(CallsOf(events)) || LastEmpty(events)
    {
      DrainerReads(turn, head, events);
    }
  }

  /** The connection loop, for every handler, every network and every stream of bytes.
      The exchanges are the requests of the stream in order, each dispatched, and the output starts with
      their replies. The loop ends with an exchange that asks for it or leaves plain HTTP, or at bytes
      where no head can be read, an exception is thrown, or the connection ends; `last` is what became of
      those. All this is about the true boundaries of the requests unless a discard came back short of a
      body (`lost`), and that takes a body that was neither read nor buffered. On a network that never
      goes silent a draining handler loses nothing. */
  method ServeConn(conn: Connection, h: Handler, maxHeaderSize: nat, date: bytes)
    returns (threw: bool, stream: StreamState, ghost log: seq<Exchange>, ghost last: Option<Visit>, ghost rest: bytes, ghost lost: bool)
    requires conn.open
    modifies conn
    ensures fresh(stream) && stream.Safe() && conn.stalls >= old(conn.stalls) && (conn.reliable ==> conn.stalls == old(conn.stalls))
    ensures AllDispatched(h, log) && LastingBut(log, |log| - 1)
    // the loop goes on as long as every exchange leaves the connection usable
    ensures last.None? ==> conn.open && !Lasted(log) && !threw
    ensures last.Some? ==> Lasted(log) && (threw <==> ThrewAt(h, |log|, last.value, conn.open)) && (conn.open ==> threw)
    // what the peer gets
    ensures last.None? ==> conn.output == old(conn.output) + Replies(log, date)
    ensures last.Some? ==> old(conn.output) + Replies(log, date) <= conn.output
    ensures last.Some? && last.value.NoHead? ==> Refused(last.value.error, last.value.answer)
    ensures last.Some? && (last.value.NoHead? || conn.open) ==>
      conn.output == old(conn.output) + Replies(log, date) + LastText(last.value, date)
    // what of the wire was served
    ensures !lost ==> InStep(old(conn.unread), log, rest)
    ensures !lost && last.Some? ==>
      Stopped(h, |log|, last.value, rest, maxHeaderSize, conn.open, conn.stalls == old(conn.stalls))
    ensures lost ==> SomeCutShort(log)
    // which answers a client can tell apart
    ensures FramedWhenEnough(log, date) && TokensTell(log, date, last.None?)
    ensures Draining(h) && conn.stalls == old(conn.stalls) ==> !lost && ReadsWhole(old(conn.unread), Plain(log))
  {
    hide Follows;
    hide ReadsWhole;
    hide InStep;
    hide Stopped;
    hide ThrewAt;
    hide At;
    hide Rest;
    hide Source;
    hide Replies;
    hide Reply;
    hide LastText;
    hide Refused;
    hide Lasting;
    hide Dispatched;
    hide CutShort;
    hide SomeCutShort;
    hide AllDispatched;
    hide LastingBut;
    hide Lasted;
    hide Ready;
    hide Calls;
    hide Upgraded;
    hide BodyGot;
    hide BodyLength;
    hide Draining;
    hide FramedWhenEnough;
    hide TokensTell;
    hide Plain;
    stream := new StreamState();
    threw, log, last, lost := false, [], None, false;
    rest := conn.unread;
    ghost var wire := conn.unread;
    StartsReady(h, stream, conn, date);
    var turn := 0;
    while conn.open && stream.httpKeepAlive
      invariant fresh(stream) && stream.Safe() && conn.stalls >= old(conn.stalls) && (conn.reliable ==> conn.stalls == old(conn.stalls))
      invariant turn == |log| && last.None? && conn.open && !threw
      invariant AllDispatched(h, log) && LastingBut(log, |log| - 1) && (stream.httpKeepAlive <==> Lasted(log))
      invariant conn.output == old(conn.output) + Replies(log, date)
      invariant !lost ==> InStep(wire, log, rest)
      invariant stream.httpKeepAlive ==> Ready(log, stream) && (!lost ==> rest == Rest(stream, conn))
      invariant lost ==> SomeCutShort(log)
      invariant Draining(h) && conn.stalls == old(conn.stalls) ==>
        !lost && ReadsWhole(wire, Plain(log)) && (stream.httpKeepAlive ==> stream.httpBodyPending == 0 || Source(stream, conn) == [])
      decreases |Source(stream, conn)|
    {
      ghost var stalls := conn.stalls;
      ghost var visit, short;
      var outcome;
      if stream.httpBodyPending > |stream.readBuff| {
        ShortMeansCut(log, stream);
      }
      outcome, visit, short := Turn(conn, stream, h, turn, maxHeaderSize, date);
      lost := lost || short;
      if outcome == Done {
        ghost var x := visit.x;
        LogSnoc(h, log, x);
        RepliesSnoc(old(conn.output), log, x, date);
        if !lost {
          InStepMore(wire, log, rest, x, Rest(stream, conn));
          rest := if Upgraded(Calls(x)) then rest else Rest(stream, conn);
        }
        log := log + [x];
        turn := turn + 1;
        NowReady(log, stream);
      } else {
        last := Some(visit);
        threw := outcome == Threw;
        if !lost && conn.stalls != old(conn.stalls) {
          LessQuiet(h, |log|, visit, rest, maxHeaderSize, conn.open, conn.stalls == stalls);
        }
        // an exception ends the loop, and otherwise the connection is closed, which ends it as well
        break;
      }
    }
    AllFramed(log, date);
    TokensRight(log, date, last.None?);
  }

  lemma NowReady(log: seq<Exchange>, stream: StreamState)
    requires log != [] && log[|log| - 1].buffered == |stream.readBuff|
    ensures Ready(log, stream) <==> |BodyGot(log[|log| - 1])| + stream.httpBodyPending == BodyLength(log[|log| - 1].head)
  {
  }

  lemma StartsReady(h: Handler, stream: StreamState, conn: Connection, date: bytes)
    requires stream.readBuff == [] && stream.httpBodyPending == 0
    ensures ReadsWhole(conn.unread, Plain([]))
    ensures InStep(conn.unread, [], conn.unread) && Ready([], stream) && Rest(stream, conn) == conn.unread
    ensures AllDispatched(h, []) && LastingBut([], -1) && Lasted([])
    ensures Replies([], date) == [] && conn.output + Replies([], date) == conn.output
  {
  }
}
