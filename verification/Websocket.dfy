/** The WebSocket endpoint: frames cut out of the raw stream left behind by the HTTP upgrade. */
module Websocket {
  import opened Bytes
  import opened Values
  import opened Stream
  import opened HeadText
  import opened HeadParser
  import opened Serve
  import opened ResponseWriter
  import opened WsFrames
  import OrderedMap
  import ResponseHeaders
  import Base64
  import Sha1

  const READ_CHUNK_SIZE: nat := 32
  const MAX_HEADER_SIZE: nat := 16
  const SWITCHING_PROTOCOLS: Status := Status(101, Some("Switching Protocols"))

  datatype Received = Nothing | Delivered(frame: Frame) | Failed(error: FrameError)

  class Websocket {
    const reader: RequestBodyReader
    const writer: ResponseWriter
    var multipart: Option<Multipart>
    var readBuff: bytes
    var closed: bool

    /** The stream switched to raw reads, and a nonempty frame buffer means that the bytes left
        over from the HTTP head are gone: raw reads ignore their size while there are any. */
    ghost predicate Valid()
      reads this, reader.stream
    {
      && reader.stream.rawIo
      && (readBuff != [] ==> reader.stream.readBuff == [])
    }

    /** Bytes that no frame delivered so far accounts for. */
    ghost function Pending(): bytes
      reads this, reader.stream, reader.conn
    {
      readBuff + Source(reader.stream, reader.conn)
    }

    /** Takes the connection over once protocols are switched: the first bytes this endpoint sees are those
        the HTTP head reader had buffered. */
    constructor (reader: RequestBodyReader, writer: ResponseWriter)
      requires reader.stream.rawIo && PassesThrough(writer)
      ensures Valid() && Streaming() && this.reader == reader && this.writer == writer
      ensures !closed && multipart == None && Pending() == Source(reader.stream, reader.conn)
    {
      this.reader, this.writer := reader, writer;
      multipart, readBuff, closed := None, [], false;
    }

    /** Whatever is written goes to the peer unchanged. */
    ghost predicate Streaming()
      reads writer
    {
      PassesThrough(writer)
    }

    /** Prints one unmasked frame. */
    method Write(frame: Frame) returns (r: Result<nat, FrameError>)
      requires writer.Valid() && Streaming() && |frame.data| <= SIZE_MAX
      modifies writer, writer.headers, writer.conn`output
      modifies writer.stream`httpKeepAlive, writer.stream`httpBodyPending, writer.stream`rawIo, writer.stream`streamResponse
      ensures writer.Valid() && Streaming()
      ensures r.Ok? ==> writer.conn.output == old(writer.conn.output) + Encoded(Sent(frame, None))
      ensures r.Ok? ==> r.value == |Encoded(Sent(frame, None))| > 0
      ensures r.Err? <==> closed || !writer.conn.open
      ensures r.Err? ==> r.error == if closed then SocketClosed else TransportClosed
      ensures writer.stream.rawIo == old(writer.stream.rawIo)
      ensures r.Err? ==> writer.conn.output == old(writer.conn.output)
    {
      hide Encoded;
      hide PackedLength;
      hide ValidEntries;
      if closed {
        return Err(SocketClosed);
      }
      var buff: bytes := [FirstByte(frame)];
      var sizeBuff := PackPaylen(|frame.data|);
      buff := buff + sizeBuff;
      buff := buff + frame.data;
      UnmaskedEncoding(frame);
      var w := writer.Write(buff);
      match w
      case Ok(n) => return Ok(n);
      case Err(_) => return Err(TransportClosed);
    }

    /** The close frame carries the reason code, high byte first. */
    method Close(reason: nat) returns (r: Result<nat, FrameError>)
      requires writer.Valid() && Streaming() && reason < 0x8000
      modifies this`closed, writer, writer.headers, writer.conn`output
      modifies writer.stream`httpKeepAlive, writer.stream`httpBodyPending, writer.stream`rawIo, writer.stream`streamResponse
      ensures writer.Valid() && Streaming()
      ensures r.Err? <==> old(closed) || !writer.conn.open
      ensures r.Err? ==> r.error == if old(closed) then SocketClosed else TransportClosed
      ensures r.Ok? ==> closed
      ensures r.Ok? ==>
        writer.conn.output == old(writer.conn.output)
          + Encoded(Sent(Frame(true, WsFrames.Close, [(reason / 256) as char, (reason % 256) as char]), None))
      ensures r.Err? ==> closed == old(closed) && writer.conn.output == old(writer.conn.output)
    {
      hide Encoded;
      hide PassesThrough;
      hide ResponseWriter.Valid;
      r := Write(Frame(true, WsFrames.Close, [(reason / 256 % 256) as char, (reason % 256) as char]));
      if r.Ok? && r.value > 0 {
        closed := true;
      }
    }

    /** One attempt to deliver a frame. It either delivers exactly the next frame of the stream,
        or leaves every byte pending; it never skips or repeats any, however the reads split. */
    method Next() returns (r: Received)
      requires Valid()
      modifies this, reader.conn`unread, reader.conn`open, reader.conn`stalls, reader.stream`readBuff, reader.stream`httpBodyPending
      ensures Valid() && closed == old(closed)
      ensures r.Delivered? ==>
        var step := NextFrame(old(multipart), old(Pending()));
        && step.Deliver? && step.frame == r.frame && step.multi == multipart
        && Pending() == old(Pending())[step.consumed..]
      ensures !r.Delivered? ==> Pending() == old(Pending()) && multipart == old(multipart)
      ensures r.Failed? ==> if old(closed) then r.error == SocketClosed else NextFrame(old(multipart), old(Pending())) == Broken(r.error)
      // a call that delivers nothing consumed input, met a silent network, or had nothing to do
      ensures r.Nothing? ==>
        || |Source(reader.stream, reader.conn)| < |old(Source(reader.stream, reader.conn))|
        || (!old(reader.conn.open) && Source(reader.stream, reader.conn) != [])
        || reader.conn.stalls > old(reader.conn.stalls)
        || NextFrame(multipart, Pending()) == Wait
      ensures reader.conn.stalls >= old(reader.conn.stalls) && (reader.conn.reliable ==> reader.conn.stalls == old(reader.conn.stalls))
      ensures |Source(reader.stream, reader.conn)| <= |old(Source(reader.stream, reader.conn))|
      ensures old(reader.conn.open) && reader.conn.stalls == old(reader.conn.stalls) ==>
        reader.conn.open || Source(reader.stream, reader.conn) == []
    {
      hide HeaderOf;
      hide NextFrame;
      if closed {
        return Failed(SocketClosed);
      }
      ghost var wire := Pending();
      var parsed := ParseFrame(readBuff);
      if parsed.Invalid? {
        BrokenStays(multipart, readBuff, Source(reader.stream, reader.conn));
        return Failed(parsed.error);
      }
      if parsed.Incomplete? {
        if |readBuff| > MAX_HEADER_SIZE {
          HeaderDecided(readBuff);
          return Failed(Clogged);
        }
        var chunk := reader.Read(READ_CHUNK_SIZE);
        if chunk == [] {
          IncompleteWaits(multipart, readBuff);
          assert readBuff + [] == readBuff;
          return Nothing;
        }
        readBuff := readBuff + chunk;
        parsed := ParseFrame(readBuff);
        assert Pending() == wire;
        if parsed.Invalid? {
          BrokenStays(multipart, readBuff, Source(reader.stream, reader.conn));
          return Failed(parsed.error);
        }
        if parsed.Incomplete? {
          return Nothing;
        }
      }
      r := Payload(parsed.header);
    }

    /** Collects the payload of a parsed header, then unmasks it. */
    method Payload(h: Header) returns (r: Received)
      requires Valid() && HeaderOf(readBuff) == Parsed(h)
      modifies this, reader.conn`unread, reader.conn`open, reader.conn`stalls, reader.stream`readBuff, reader.stream`httpBodyPending
      ensures Valid() && closed == old(closed)
      ensures r.Delivered? ==>
        var step := NextFrame(old(multipart), old(Pending()));
        && step.Deliver? && step.frame == r.frame && step.multi == multipart
        && Pending() == old(Pending())[step.consumed..]
      ensures !r.Delivered? ==> Pending() == old(Pending()) && multipart == old(multipart)
      ensures r.Failed? ==> NextFrame(old(multipart), old(Pending())) == Broken(r.error)
      ensures r.Nothing? ==>
        || |Source(reader.stream, reader.conn)| < |old(Source(reader.stream, reader.conn))|
        || (!old(reader.conn.open) && Source(reader.stream, reader.conn) != [])
        || reader.conn.stalls > old(reader.conn.stalls)
        || NextFrame(multipart, Pending()) == Wait
      ensures reader.conn.stalls >= old(reader.conn.stalls) && (reader.conn.reliable ==> reader.conn.stalls == old(reader.conn.stalls))
      ensures |Source(reader.stream, reader.conn)| <= |old(Source(reader.stream, reader.conn))|
      ensures old(reader.conn.open) && reader.conn.stalls == old(reader.conn.stalls) ==>
        reader.conn.open || Source(reader.stream, reader.conn) == []
    {
      hide HeaderOf;
      hide Masked;
      hide EffectiveMask;
      hide MultipartAfter;
      hide NextFrame;
      ghost var wire := Pending();
      HeaderStable(readBuff, Source(reader.stream, reader.conn));
      StepAt(multipart, wire, h);
      var data: bytes;
      var end := (h.nextSeek + h.payloadLen) % (SIZE_MAX + 1);
      if |readBuff| >= end {
        if end < h.nextSeek {
          return Failed(Undefined);
        }
        data := readBuff[h.nextSeek..end];
        readBuff := readBuff[end..];
        assert wire[h.nextSeek..end] == data;
        assert Pending() == wire[end..];
      } else {
        var collected := Collect(h);
        if collected.None? {
          return Nothing;
        }
        data := collected.value;
      }
      r := Finish(h, data);
    }

    /** The payload is not complete in the buffer: reads the rest of it, and nothing more. */
    method Collect(h: Header) returns (data: Option<bytes>)
      requires Valid() && 2 <= h.nextSeek <= |readBuff| < h.nextSeek + h.payloadLen <= SIZE_MAX
      modifies this`readBuff, reader.conn`unread, reader.conn`open, reader.conn`stalls, reader.stream`readBuff, reader.stream`httpBodyPending
      ensures Valid()
      ensures data.Some? ==>
        var end := h.nextSeek + h.payloadLen;
        && end <= |old(Pending())| && data.value == old(Pending())[h.nextSeek..end] && Pending() == old(Pending())[end..]
      ensures data.None? ==> Pending() == old(Pending())
      ensures data.None? ==>
        || |Source(reader.stream, reader.conn)| < |old(Source(reader.stream, reader.conn))|
        || (!old(reader.conn.open) && Source(reader.stream, reader.conn) != [])
        || reader.conn.stalls > old(reader.conn.stalls)
        || |Pending()| < h.nextSeek + h.payloadLen
      ensures reader.conn.stalls >= old(reader.conn.stalls) && (reader.conn.reliable ==> reader.conn.stalls == old(reader.conn.stalls))
      ensures |Source(reader.stream, reader.conn)| <= |old(Source(reader.stream, reader.conn))|
      ensures old(reader.conn.open) && reader.conn.stalls == old(reader.conn.stalls) ==>
        reader.conn.open || Source(reader.stream, reader.conn) == []
    {
      ghost var wire := Pending();
      var unbuffered := h.payloadLen - (|readBuff| - h.nextSeek);
      var chunk := reader.Read(unbuffered);
      if |chunk| < unbuffered {
        readBuff := readBuff + chunk;
        return None;
      }
      data := Some(readBuff[h.nextSeek..] + chunk);
      assert wire[h.nextSeek..h.nextSeek + h.payloadLen] == data.value;
      readBuff := [];
      assert Pending() == wire[h.nextSeek + h.payloadLen..];
    }

    method Finish(h: Header, data: bytes) returns (r: Received)
      modifies this`multipart
      ensures r == Delivered(Frame(h.final, h.code, Masked(data, EffectiveMask(old(multipart), h.final, h.mask))))
      ensures multipart == MultipartAfter(old(multipart), h.final, h.code, h.mask)
    {
      var mask := h.mask;
      if !h.final {
        if multipart.None? {
          multipart := Some(Multipart(h.code, h.mask));
        } else {
          mask := multipart.value.mask;
        }
      } else {
        multipart := None;
      }
      var payload := data;
      if mask.Some? {
        payload := Unmask(data, mask.value);
      }
      return Delivered(Frame(h.final, h.code, payload));
    }
  }

  lemma BrokenStays(multi: Option<Multipart>, buff: bytes, more: bytes)
    requires HeaderOf(buff).Invalid?
    ensures NextFrame(multi, buff + more) == Broken(HeaderOf(buff).error)
  {
    HeaderStable(buff, more);
  }

  lemma IncompleteWaits(multi: Option<Multipart>, buff: bytes)
    requires HeaderOf(buff) == Incomplete
    ensures NextFrame(multi, buff) == Wait
  {
  }

  /** The step of a stream whose header is known. */
  lemma StepAt(multi: Option<Multipart>, wire: bytes, h: Header)
    requires HeaderOf(wire) == Parsed(h)
    ensures var end := (h.nextSeek + h.payloadLen) % (SIZE_MAX + 1);
      NextFrame(multi, wire) ==
        if |wire| < end then Wait
        else if end < h.nextSeek then Broken(Undefined)
        else Deliver(Frame(h.final, h.code, Masked(wire[h.nextSeek..end], EffectiveMask(multi, h.final, h.mask))),
                     MultipartAfter(multi, h.final, h.code, h.mask), end)
  {
    hide HeaderOf;
  }

  // ---------------------------------------------------------------- the handshake

  const METHOD_NOT_ALLOWED: Status := Status(405, Some("Method Not Allowed"))

  /** The request asks for a WebSocket. */
  predicate Acceptable(head: RequestHead) {
    && head.meth == GET && Normalized(LastOf(head.headers, "upgrade")) == "websocket"
    && Normalized(LastOf(head.headers, "sec-websocket-key")) != []
  }

  /** That is a GET with an upgrade header of that name, in letters of either case and with any blanks around it,
      and a key of more than one character. */
  lemma AcceptableIff(head: RequestHead)
    ensures var upgrade, key := LastOf(head.headers, "upgrade"), LastOf(head.headers, "sec-websocket-key");
      Acceptable(head) <==> head.meth == GET && Lowered(Trimmed(upgrade)) == "websocket" && Trimmed(key) != []
  {
    hide LastOf;
    hide Trimmed;
    hide Lowered;
    LoweredLength(Trimmed(LastOf(head.headers, "sec-websocket-key")));
  }

  lemma LoweredLength(s: bytes)
    ensures Lowered(s) == [] <==> s == []
  {
  }

  function RejectionStatus(head: RequestHead): Status {
    if head.meth != GET then METHOD_NOT_ALLOWED else BAD_REQUEST
  }

  function RejectionMessage(head: RequestHead): bytes {
    if head.meth != GET then "invalid ws handshake method" else "invalid ws upgrade headers"
  }

  /** What the client is told whose request does not. */
  lemma RejectionTells(head: RequestHead)
    ensures RejectionStatus(head) == if head.meth == GET then Status(400, Some("Bad Request")) else Status(405, Some("Method Not Allowed"))
    ensures RejectionMessage(head) == if head.meth == GET then "invalid ws upgrade headers" else "invalid ws handshake method"
  {
  }

  /** The answer to a request that does not: an error with its exact length. */
  function RejectionCalls(head: RequestHead): seq<Op> {
    var message := RejectionMessage(head);
    [SetHeader(CONTENT_LENGTH, Decimal(|message|))] + [Head(RejectionStatus(head))] + [Body(message)]
  }

  /** Before any head, that answer is legal whatever headers were edited, and writes what it announces. */
  lemma RejectionLegal(ops: seq<Op>, head: RequestHead)
    requires OnlyEdits(ops)
    ensures var all := ops + RejectionCalls(head);
      && Legal(all) && Enough(all) && FirstStatus(all) == RejectionStatus(head) && BodyOf(all) == RejectionMessage(head)
  {
    hide HeadersBefore;
    hide FirstStatus;
    hide OnlyEdits;
    hide BodyOf;
    hide Edited;
    hide LastOf;
    hide Upgrades;
    hide StreamsEvents;
    hide Decimal;
    hide ScanNumber;
    var message := RejectionMessage(head);
    var length := SetHeader(CONTENT_LENGTH, Decimal(|message|));
    var all := ops + RejectionCalls(head);
    assert all == ops + [length] + [Head(RejectionStatus(head))] + [Body(message)];
    OpsStep(ops, length);
    AnswerDrafted(ops + [length], RejectionStatus(head), message);
    LengthEdited(HeadersBefore(ops), |message|);
  }

  lemma LengthEdited(m: Entries, n: nat)
    requires n <= SIZE_MAX
    ensures var after := Edited(m, SetHeader(CONTENT_LENGTH, Decimal(n)));
      LengthText(after) == [] || (LengthText(after) == Decimal(n) && Stoul(Decimal(n)) == Some(n))
  {
    hide AfterSet;
    hide LastOf;
    hide Upgrades;
    hide StreamsEvents;
    LengthAfterSet(m, n);
    ScanDecimal(n);
  }

  /** Rejects a handshake; an exception on the way, because there is a head already or no connection, is
      caught. */
  method Reject(writer: ResponseWriter, ghost ops: seq<Op>, head: RequestHead) returns (ghost calls: seq<Op>)
    requires writer.Valid() && Drafts(writer, ops) && (writer.conn.open ==> Through(writer, ops))
    modifies writer, writer.headers, writer.conn`output
    modifies writer.stream`httpKeepAlive, writer.stream`httpBodyPending, writer.stream`rawIo, writer.stream`streamResponse
    ensures calls <= RejectionCalls(head) && (OnlyEdits(ops) && writer.conn.open ==> calls == RejectionCalls(head))
    ensures writer.Valid() && Drafts(writer, ops + calls) && (writer.conn.open ==> Through(writer, ops + calls))
  {
    hide ResponseWriter.Valid;
    hide Drafts;
    hide Through;
    hide OnlyEdits;
    hide LastThrows;
    hide Legal;
    hide RejectionStatus;
    hide RejectionMessage;
    hide Flushes;
    var status, message := RejectionStatus(head), RejectionMessage(head);
    var length := SetHeader(CONTENT_LENGTH, Decimal(|message|));
    calls := RejectionCalls(head);
    ghost var all := ops + calls;
    assert all[..|ops| + 2] == ops + [length] + [Head(status)] && all == ops + [length] + [Head(status)] + [Body(message)];
    if OnlyEdits(ops) {
      RejectionLegal(ops, head);
      LegalIff(all);
    }
    var r := Apply(writer, ops, length);
    r := Apply(writer, ops + [length], Head(status));
    if r.Err? {
      calls := [length] + [Head(status)];
      assert ops + calls == ops + [length] + [Head(status)];
      return;
    }
    r := Apply(writer, ops + [length] + [Head(status)], Body(message));
  }

  const HANDSHAKE_GUID: bytes := "258EAFA5-E914-47DA-95CA-C5AB0DC85B11"

  function Octets(s: bytes): seq<bv8> {
    seq(|s|, i requires 0 <= i < |s| => s[i] as int as bv8)
  }

  function Characters(s: seq<bv8>): bytes {
    seq(|s|, i requires 0 <= i < |s| => s[i] as int as char)
  }

  /** The text that bytes are, place by place, and back. */
  lemma OctetsRead(s: seq<bv8>)
    ensures |Characters(s)| == |s| && forall i :: 0 <= i < |s| ==> Characters(s)[i] as int == s[i] as int
    ensures Octets(Characters(s)) == s
  {
    forall i | 0 <= i < |s| ensures Octets(Characters(s))[i] == s[i] {
    }
  }

  /** The answer to the client's key, which is lowered and comes behind the GUID. */
  function AcceptKey(key: bytes): bytes {
    Base64.Encoded(Characters(Sha1.Hash(Octets(HANDSHAKE_GUID + Normalized(key)))))
  }

  lemma AcceptKeyIs(key: bytes)
    ensures AcceptKey(key) ==
      Base64.Encoded(Characters(Sha1.Hash(Octets("258EAFA5-E914-47DA-95CA-C5AB0DC85B11" + Lowered(Trimmed(key))))))
  {
    hide Base64.Encoded;
    hide Sha1.Hash;
    hide Octets;
    hide Characters;
  }

  /** Section 4.2.2 of RFC 6455 hashes the key as it came and the GUID behind it. That is never the text
      hashed here. */
  lemma AcceptKeyNotStandard(key: bytes)
    requires Normalized(key) != []
    ensures HANDSHAKE_GUID + Normalized(key) != key + HANDSHAKE_GUID
  {
    var l := Normalized(key);
    var n := |l|;
    NormalizedIdempotent(key);
    if n == |key| {
      assert (key + HANDSHAKE_GUID)[n + 33] == HANDSHAKE_GUID[33] == 'B';
      assert (HANDSHAKE_GUID + l)[n + 33] == if n == 2 then HANDSHAKE_GUID[35] else l[n - 3];
    }
  }

  function KeyAnswer(head: RequestHead): bytes {
    AcceptKey(LastOf(head.headers, "sec-websocket-key"))
  }

  method AnswerKey(key: bytes) returns (r: bytes)
    ensures r == Base64.Encoded(Characters(Sha1.Hash(Octets("258EAFA5-E914-47DA-95CA-C5AB0DC85B11" + key))))
  {
    hide Base64.Encoded;
    hide Sha1.Hash;
    hide Octets;
    hide Characters;
    var digest := Sha1.Text(Octets(HANDSHAKE_GUID + key));
    r := Base64.Encode(Characters(digest));
  }

  /** The constructor of the sources: None where it throws. The connection is taken over exactly when the
      request asks for a WebSocket, no head was written before, and the connection is open; a request that
      does not ask for one is answered with an error as far as that is possible. */
  method Accept(head: RequestHead, reader: RequestBodyReader, writer: ResponseWriter, ghost ops: seq<Op>)
    returns (ws: Option<Websocket>, ghost calls: seq<Op>)
    requires writer.Valid() && Drafts(writer, ops) && (writer.conn.open ==> Through(writer, ops))
    requires writer.conn == reader.conn && writer.stream == reader.stream
    modifies writer, writer.headers, writer.conn`output
    modifies writer.stream`httpKeepAlive, writer.stream`httpBodyPending, writer.stream`rawIo, writer.stream`streamResponse
    ensures ws.Some? <==> Acceptable(head) && OnlyEdits(ops) && writer.conn.open
    ensures ws.Some? ==>
      && fresh(ws.value) && ws.value.Valid() && ws.value.reader == reader && ws.value.writer == writer
      && !ws.value.closed && ws.value.multipart == None && ws.value.Pending() == old(Source(reader.stream, reader.conn))
      && ws.value.Streaming() && !reader.stream.httpKeepAlive
      && writer.conn.output == old(writer.conn.output) + UpgradeHead(HeadersBefore(ops), KeyAnswer(head), writer.date)
    // the calls made on the response
    ensures writer.Valid() && Drafts(writer, ops + calls) && (writer.conn.open ==> Through(writer, ops + calls))
    ensures if Acceptable(head) then calls == UpgradeCalls(KeyAnswer(head)) else
      calls <= RejectionCalls(head) && (OnlyEdits(ops) && writer.conn.open ==> calls == RejectionCalls(head))
  {
    hide UpgradeHead;
    hide UpgradeCalls;
    hide ResponseWriter.Valid;
    hide Drafts;
    hide Through;
    hide OnlyEdits;
    hide RejectionCalls;
    hide Normalized;
    hide LastOf;
    hide HeadersBefore;
    hide Base64.Encoded;
    hide Sha1.Hash;
    hide Octets;
    hide Characters;
    var upgrade := LastOf(head.headers, "upgrade");
    upgrade := ResetCase(upgrade);
    var key := LastOf(head.headers, "sec-websocket-key");
    key := ResetCase(key);
    if head.meth != GET || upgrade != "websocket" || key == [] {
      calls := Reject(writer, ops, head);
      return None, calls;
    }
    var acceptKey := AnswerKey(key);
    calls := UpgradeCalls(acceptKey);
    var r := SwitchProtocols(writer, ops, acceptKey);
    if r.Err? {
      return None, calls;
    }
    var socket := new Websocket(reader, writer);
    return Some(socket), calls;
  }

  ghost predicate PassesThrough(writer: ResponseWriter)
    reads writer
  {
    writer.headerWritten && !writer.failed && writer.deferred.None? && writer.announced.None?
  }

  function UpgradeCalls(acceptKey: bytes): seq<Op> {
    [SetHeader(CONNECTION, "upgrade")] + [SetHeader("upgrade", "websocket")]
      + [SetHeader("Sec-WebSocket-Accept", acceptKey)] + [Head(SWITCHING_PROTOCOLS)]
  }

  /** What these calls come to: they throw exactly after a head. */
  lemma UpgradeDrafted(ops: seq<Op>, acceptKey: bytes)
    ensures var all := ops + UpgradeCalls(acceptKey);
      && !OnlyEdits(all) && (OnlyEdits(all[..|all| - 1]) <==> OnlyEdits(ops)) && (LastThrows(all) <==> !OnlyEdits(ops))
      && (OnlyEdits(ops) ==>
            && HeadersBefore(all) == UpgradeHeaders(HeadersBefore(ops), acceptKey) && FirstStatus(all) == SWITCHING_PROTOCOLS
            && HeadFits(all) && WrittenOf(all) == [])
  {
    hide HeadersBefore;
    hide FirstStatus;
    hide OnlyEdits;
    hide LastThrows;
    hide BodyOf;
    hide AfterSet;
    hide Upgrades;
    hide StreamsEvents;
    hide LastOf;
    hide WrittenOf;
    var a, b, c := SetHeader(CONNECTION, "upgrade"), SetHeader("upgrade", "websocket"), SetHeader("Sec-WebSocket-Accept", acceptKey);
    var head := Head(SWITCHING_PROTOCOLS);
    var all := ops + UpgradeCalls(acceptKey);
    assert all == ops + [a] + [b] + [c] + [head] && all[..|all| - 1] == ops + [a] + [b] + [c];
    OpsStep(ops, a);
    OpsStep(ops + [a], b);
    OpsStep(ops + [a] + [b], c);
    OpsStep(ops + [a] + [b] + [c], head);
    UpgradeIsSet(HeadersBefore(ops), acceptKey);
    if OnlyEdits(ops) {
      AllWritten(ops + [a] + [b] + [c] + [head]);
      EditsHaveNoBody(ops + [a] + [b] + [c]);
    }
  }

  /** Sets the headers and sends the head, which throws after another head and on a closed connection. */
  method SwitchProtocols(writer: ResponseWriter, ghost ops: seq<Op>, acceptKey: bytes) returns (r: Result<nat, WriteError>)
    requires writer.Valid() && Drafts(writer, ops) && (writer.conn.open ==> Through(writer, ops))
    modifies writer, writer.headers, writer.conn`output
    modifies writer.stream`httpKeepAlive, writer.stream`httpBodyPending, writer.stream`rawIo, writer.stream`streamResponse
    ensures r.Ok? <==> OnlyEdits(ops) && writer.conn.open
    ensures var all := ops + UpgradeCalls(acceptKey);
      writer.Valid() && Drafts(writer, all) && (writer.conn.open ==> Through(writer, all))
    ensures r.Ok? ==>
      && writer.stream.rawIo && !writer.stream.httpKeepAlive && PassesThrough(writer)
      && writer.conn.output == old(writer.conn.output) + UpgradeHead(HeadersBefore(ops), acceptKey, writer.date)
  {
    hide ResponseWriter.Valid;
    hide Drafts;
    hide Through;
    hide OnlyEdits;
    hide LastThrows;
    hide HeadersBefore;
    hide UpgradeHead;
    hide PassesThrough;
    UpgradeDrafted(ops, acceptKey);
    if OnlyEdits(ops) {
      BaseKept(writer, ops);
    }
    ghost var all := ops + UpgradeCalls(acceptKey);
    var a, b, c := SetHeader(CONNECTION, "upgrade"), SetHeader("upgrade", "websocket"), SetHeader("Sec-WebSocket-Accept", acceptKey);
    assert all == ops + [a] + [b] + [c] + [Head(SWITCHING_PROTOCOLS)] && all[..|all| - 1] == ops + [a] + [b] + [c];
    ApplyEdit(writer, ops, a);
    ApplyEdit(writer, ops + [a], b);
    ApplyEdit(writer, ops + [a] + [b], c);
    r := ApplyHead(writer, ops + [a] + [b] + [c], SWITCHING_PROTOCOLS);
    if OnlyEdits(ops) {
      Switched(writer, ops, acceptKey);
    }
  }

  lemma Switched(writer: ResponseWriter, ops: seq<Op>, acceptKey: bytes)
    requires OnlyEdits(ops) && writer.Valid() && Drafts(writer, ops + UpgradeCalls(acceptKey))
    ensures writer.stream.rawIo && !writer.stream.httpKeepAlive && writer.deferred.None?
    ensures Through(writer, ops + UpgradeCalls(acceptKey)) ==>
      PassesThrough(writer) && writer.conn.output == writer.base + UpgradeHead(HeadersBefore(ops), acceptKey, writer.date)
  {
    hide Prepared;
    hide Stoul;
    hide LastOf;
    hide RenderHead;
    hide ValidEntries;
    hide Upgrades;
    hide StreamsEvents;
    hide WrittenOf;
    hide OnlyEdits;
    hide FirstStatus;
    hide HeadersBefore;
    hide HeadFits;
    hide UpgradeHeaders;
    hide UpgradeCalls;
    hide LastThrows;
    var all := ops + UpgradeCalls(acceptKey);
    UpgradeDrafted(ops, acceptKey);
    UpgradeIsSet(HeadersBefore(ops), acceptKey);
    EditsKeepValid(all);
    PreparedLength(HeadersBefore(all), writer.stream.httpKeepAlive, writer.date);
    assert writer.base + RenderHead(SWITCHING_PROTOCOLS, writer.sent) + [] == writer.base + RenderHead(SWITCHING_PROTOCOLS, writer.sent);
  }

  lemma BaseKept(writer: ResponseWriter, ops: seq<Op>)
    requires writer.Valid() && Drafts(writer, ops) && OnlyEdits(ops)
    ensures writer.conn.output == writer.base
  {
  }

  /** The head that switches protocols. */
  function UpgradeHead(m: Entries, acceptKey: bytes, date: bytes): bytes {
    RenderHead(SWITCHING_PROTOCOLS, Prepared(UpgradeHeaders(m, acceptKey), false, date))
  }

  function UpgradeHeaders(m: Entries, acceptKey: bytes): Entries {
    AfterSet(AfterSet(AfterSet(m, CONNECTION, "upgrade"), "upgrade", "websocket"), "Sec-WebSocket-Accept", acceptKey)
  }

  // ---------------------------------------------------------------- the text of the answer

  lemma UpgradeNames()
    ensures Normalized("upgrade") == "upgrade" && Normalized("Sec-WebSocket-Accept") == "sec-websocket-accept"
  {
    hide Trimmed;
    TrimmedFixed("upgrade");
    TrimmedFixed("Sec-WebSocket-Accept");
    LoweredFixed("upgrade");
    AcceptLowered();
  }

  lemma AcceptLowered()
    ensures Lowered("Sec-WebSocket-Accept") == "sec-websocket-accept"
  {
    var s: bytes := "Sec-WebSocket-Accept";
    assert s[0] == 'S' && s[4] == 'W' && s[7] == 'S' && s[14] == 'A';
    assert forall i :: 0 <= i < |s| && i != 0 && i != 4 && i != 7 && i != 14 ==> !('A' <= s[i] <= 'Z');
  }

  lemma UpgradeOrder()
    ensures OrderedMap.Less("connection", "upgrade") && OrderedMap.Less("connection", "sec-websocket-accept")
    ensures OrderedMap.Less("sec-websocket-accept", "upgrade") && OrderedMap.Less("date", "sec-websocket-accept")
    ensures OrderedMap.Less("date", "upgrade") && OrderedMap.Less("sec-websocket-accept", "server") && OrderedMap.Less("server", "upgrade")
    ensures OrderedMap.Less("cache-control", "upgrade") && OrderedMap.Less("cache-control", "sec-websocket-accept")
  {
    hide OrderedMap.Less;
    ResponseHeaders.NameOrder();
    ResponseHeaders.Before("connection", "upgrade", 0);
    ResponseHeaders.Before("connection", "sec-websocket-accept", 0);
    ResponseHeaders.Before("sec-websocket-accept", "upgrade", 0);
    ResponseHeaders.Before("date", "sec-websocket-accept", 0);
    ResponseHeaders.Before("date", "upgrade", 0);
    assert "sec-websocket-accept"[..2] == "se" == "server"[..2];
    ResponseHeaders.Before("sec-websocket-accept", "server", 2);
    ResponseHeaders.Before("server", "upgrade", 0);
    ResponseHeaders.Before("cache-control", "upgrade", 0);
    ResponseHeaders.Before("cache-control", "sec-websocket-accept", 0);
  }

  /** The headers of the switch, in the order in which they are printed. */
  ghost function SwitchHeaders(acceptKey: bytes, date: bytes): Entries {
    [("cache-control", ["no-cache"]), ("connection", ["upgrade"]), ("date", [date]), ("sec-websocket-accept", [acceptKey]),
     ("server", ["maddsua/l3"]), ("upgrade", ["websocket"])]
  }

  lemma UpgradeThree(acceptKey: bytes)
    ensures UpgradeHeaders([], acceptKey)
         == [("connection", ["upgrade"]), ("sec-websocket-accept", [acceptKey]), ("upgrade", ["websocket"])]
  {
    hide OrderedMap.Less;
    hide OrderedMap.Put;
    HeaderNamesAreNormal();
    UpgradeNames();
    hide Normalized;
    UpgradeOrder();
    var b: (bytes, seq<bytes>) := ("connection", ["upgrade"]);
    var s: (bytes, seq<bytes>) := ("sec-websocket-accept", [acceptKey]);
    var u: (bytes, seq<bytes>) := ("upgrade", ["websocket"]);
    OrderedMap.PutBetween([], [], "connection", b.1);
    assert AfterSet([], CONNECTION, "upgrade") == [b] by { ResponseHeaders.Between([], b, []); }
    OrderedMap.PutBetween([b], [], "upgrade", u.1);
    assert AfterSet([b], "upgrade", "websocket") == [b] + [u] by { ResponseHeaders.Between([b], u, []); }
    OrderedMap.PutBetween([b], [u], "sec-websocket-accept", [acceptKey]);
    assert AfterSet([b] + [u], "Sec-WebSocket-Accept", acceptKey) == [b] + [s] + [u] == [b, s, u];
  }

  lemma NoLength(m: Entries)
    requires Upgrades(m) && !StreamsEvents(m) && forall i :: 0 <= i < |m| ==> m[i].0 != CONTENT_LENGTH
    ensures WithoutLength(m) == m
  {
    hide Upgrades;
    hide StreamsEvents;
    HeaderNamesAreNormal();
    hide Normalized;
    NothingErased(m, CONTENT_LENGTH);
  }

  lemma {:induction false} NothingErased(m: Entries, key: bytes)
    requires forall i :: 0 <= i < |m| ==> m[i].0 != key
    ensures OrderedMap.Erase(m, key) == m
  {
    if m != [] {
      NothingErased(m[1..], key);
      assert [m[0]] + m[1..] == m;
    }
  }

  lemma SwitchEntries(acceptKey: bytes, date: bytes)
    ensures Prepared(UpgradeHeaders([], acceptKey), false, date) == SwitchHeaders(acceptKey, date)
  {
    hide OrderedMap.Less;
    hide WithDefault;
    hide WithoutLength;
    hide UpgradeHeaders;
    HeaderNamesAreNormal();
    hide Normalized;
    UpgradeOrder();
    ResponseHeaders.NameOrder();
    UpgradeThree(acceptKey);
    SwitchHasNoLength(acceptKey);
    var a: (bytes, seq<bytes>) := ("cache-control", ["no-cache"]);
    var b: (bytes, seq<bytes>) := ("connection", ["upgrade"]);
    var c: (bytes, seq<bytes>) := ("date", [date]);
    var s: (bytes, seq<bytes>) := ("sec-websocket-accept", [acceptKey]);
    var d: (bytes, seq<bytes>) := ("server", ["maddsua/l3"]);
    var u: (bytes, seq<bytes>) := ("upgrade", ["websocket"]);
    KeptConnection([b, s, u]);
    ResponseHeaders.DefaultBetween([b], [s, u], "date", date);
    assert [b] + [s, u] == [b, s, u] && [b] + [c] + [s, u] == [b, c, s] + [u];
    ResponseHeaders.DefaultBetween([b, c, s], [u], "server", "maddsua/l3");
    assert [b, c, s] + [d] + [u] == [] + [b, c, s, d, u];
    ResponseHeaders.DefaultBetween([], [b, c, s, d, u], "cache-control", "no-cache");
    assert [] + [a] + [b, c, s, d, u] == [a, b, c, s, d, u];
  }

  lemma KeptConnection(m: Entries)
    requires m != [] && m[0] == (CONNECTION, ["upgrade"])
    ensures WithDefault(m, CONNECTION, "close") == m
  {
    HeaderNamesAreNormal();
  }

  lemma SwitchHasNoLength(acceptKey: bytes)
    ensures WithoutLength(UpgradeHeaders([], acceptKey)) == UpgradeHeaders([], acceptKey)
  {
    hide Upgrades;
    hide StreamsEvents;
    hide WithoutLength;
    UpgradeIsSet([], acceptKey);
    UpgradeThree(acceptKey);
    NoEventStream(UpgradeHeaders([], acceptKey));
    NoLength(UpgradeHeaders([], acceptKey));
  }

  lemma NoEventStream(m: Entries)
    requires |m| == 3 && m[0].0 == "connection" && m[1].0 == "sec-websocket-accept" && m[2].0 == "upgrade"
    ensures !StreamsEvents(m)
  {
    hide Contains;
    HeaderNamesAreNormal();
    NothingContained();
    hide Normalized;
    assert OrderedMap.Lookup(m[1..][1..][1..], "content-type") == None;
    assert OrderedMap.Lookup(m[1..][1..], "content-type") == None;
    assert OrderedMap.Lookup(m[1..], "content-type") == None;
  }

  ghost function SwitchText(acceptKey: bytes, date: bytes): bytes {
    ResponseHeaders.Line("cache-control", "no-cache") + (ResponseHeaders.Line("connection", "upgrade")
      + (ResponseHeaders.Line("date", date) + (ResponseHeaders.Line("sec-websocket-accept", acceptKey)
      + (ResponseHeaders.Line("server", "maddsua/l3") + (ResponseHeaders.Line("upgrade", "websocket") + "\r\n")))))
  }

  /** The answer that switches protocols, to the byte. */
  lemma SwitchRendered(acceptKey: bytes, date: bytes)
    ensures UpgradeHead([], acceptKey, date) ==
      ResponseHeaders.StatusStart(101, "Switching Protocols") + SwitchText(acceptKey, date)
  {
    hide HeaderBlock;
    hide Flat;
    hide SwitchHeaders;
    hide SwitchText;
    hide StatusLine;
    hide ResponseHeaders.StatusStart;
    hide Prepared;
    hide UpgradeHeaders;
    SwitchEntries(acceptKey, date);
    SixLines(acceptKey, date);
    ResponseHeaders.StatusStarts(SWITCHING_PROTOCOLS);
    var start, block := StatusLine(SWITCHING_PROTOCOLS), HeaderBlock(Flat(SwitchHeaders(acceptKey, date)));
    assert start + block + CRLF == start + (block + CRLF);
  }

  lemma SixLines(acceptKey: bytes, date: bytes)
    ensures HeaderBlock(Flat(SwitchHeaders(acceptKey, date))) + CRLF == SwitchText(acceptKey, date)
  {
    hide HeaderBlock;
    hide Flat;
    hide ResponseHeaders.Line;
    var a: (bytes, seq<bytes>) := ("cache-control", ["no-cache"]);
    var b: (bytes, seq<bytes>) := ("connection", ["upgrade"]);
    var c: (bytes, seq<bytes>) := ("date", [date]);
    var s: (bytes, seq<bytes>) := ("sec-websocket-accept", [acceptKey]);
    var d: (bytes, seq<bytes>) := ("server", ["maddsua/l3"]);
    var u: (bytes, seq<bytes>) := ("upgrade", ["websocket"]);
    ResponseHeaders.FlatFirst(a, [b, c, s, d, u]);
    ResponseHeaders.FlatFirst(b, [c, s, d, u]);
    ResponseHeaders.FlatFirst(c, [s, d, u]);
    ResponseHeaders.FlatFirst(s, [d, u]);
    ResponseHeaders.FlatFirst(d, [u]);
    ResponseHeaders.FlatFirst(u, []);
    ResponseHeaders.FlatNothing();
    assert [a] + [b, c, s, d, u] == [a, b, c, s, d, u];
    assert [b] + [c, s, d, u] == [b, c, s, d, u];
    assert [c] + [s, d, u] == [c, s, d, u];
    assert [s] + [d, u] == [s, d, u];
    assert [d] + [u] == [d, u];
    assert [u] + [] == [u];
  }

  lemma UpgradesWhen(m: Entries)
    requires AllOf(m, CONNECTION) == ["upgrade"]
    ensures Upgrades(m)
  {
    TrimmedFixed("upgrade");
    assert Lowered("upgrade") == "upgrade";
  }

  lemma UpgradeIsSet(m: Entries, acceptKey: bytes)
    ensures Upgrades(UpgradeHeaders(m, acceptKey))
  {
    HeaderNamesAreNormal();
    TrimmedFixed("upgrade");
    TrimmedFixed("Sec-WebSocket-Accept");
    assert |Normalized("upgrade")| == 7 && |Normalized("Sec-WebSocket-Accept")| == 20;
    hide Normalized;
    hide AfterSet;
    var m1 := AfterSet(m, CONNECTION, "upgrade");
    var m2 := AfterSet(m1, "upgrade", "websocket");
    AllOfAfterSet(m, CONNECTION, "upgrade", CONNECTION);
    AllOfAfterSet(m1, "upgrade", "websocket", CONNECTION);
    AllOfAfterSet(m2, "Sec-WebSocket-Accept", acceptKey, CONNECTION);
    UpgradesWhen(UpgradeHeaders(m, acceptKey));
  }

  // ---------------------------------------------------------------- whole runs

  method WriteAll(ws: Websocket, frames: seq<Frame>) returns (r: Result<nat, FrameError>)
    requires ws.writer.Valid() && ws.Streaming() && forall f :: f in frames ==> |f.data| <= SIZE_MAX
    modifies ws.writer, ws.writer.headers, ws.writer.conn`output
    modifies ws.writer.stream`httpKeepAlive, ws.writer.stream`httpBodyPending, ws.writer.stream`rawIo, ws.writer.stream`streamResponse
    ensures r.Ok? ==> ws.writer.conn.output == old(ws.writer.conn.output) + Wire(Unmasked(frames))
    ensures r.Ok? <==> frames == [] || (!ws.closed && ws.writer.conn.open)
  {
    hide Encoded;
    hide Wire;
    hide Unmasked;
    hide PassesThrough;
    hide ResponseWriter.Valid;
    WireOfNothing();
    assert frames[..0] == [] && ws.writer.conn.output + [] == ws.writer.conn.output;
    r := Ok(0);
    for i := 0 to |frames|
      invariant ws.writer.Valid() && ws.Streaming() && r.Ok?
      invariant i > 0 ==> !ws.closed && ws.writer.conn.open
      invariant ws.writer.conn.output == old(ws.writer.conn.output) + Wire(Unmasked(frames[..i]))
    {
      r := ws.Write(frames[i]);
      if r.Err? {
        return;
      }
      WireOfUnmasked(frames[..i], frames[i]);
      assert frames[..i + 1] == frames[..i] + [frames[i]];
    }
    assert frames[..|frames|] == frames;
  }

  lemma WireOfNothing()
    ensures Wire(Unmasked([])) == []
  {
  }

  lemma DecodedStep(multi: Option<Multipart>, wire: bytes)
    ensures var step := NextFrame(multi, wire);
      Decoded(multi, wire) == if step.Deliver? then [step.frame] + Decoded(step.multi, wire[step.consumed..]) else []
  {
  }

  /** Repeated calls. Frames delivered and frames still to be decoded always make up the frames of
      the whole stream, and on a network that never goes silent enough calls deliver all of them. */
  method Receive(ws: Websocket, calls: nat) returns (frames: seq<Frame>)
    requires ws.Valid() && !ws.closed && ws.reader.conn.open
    modifies ws, ws.reader.conn`unread, ws.reader.conn`open, ws.reader.conn`stalls
    modifies ws.reader.stream`readBuff, ws.reader.stream`httpBodyPending
    ensures ws.Valid()
    ensures ws.reader.conn.reliable ==> ws.reader.conn.stalls == old(ws.reader.conn.stalls)
    ensures frames + Decoded(ws.multipart, ws.Pending()) == Decoded(old(ws.multipart), old(ws.Pending()))
    ensures ws.reader.conn.stalls == old(ws.reader.conn.stalls)
         && calls >= |Decoded(old(ws.multipart), old(ws.Pending()))| + |old(Source(ws.reader.stream, ws.reader.conn))|
         ==> frames == Decoded(old(ws.multipart), old(ws.Pending()))
  {
    hide Decoded;
    hide NextFrame;
    hide HeaderOf;
    hide Websocket.Valid;
    hide Websocket.Pending;
    hide Source;
    ghost var all := Decoded(ws.multipart, ws.Pending());
    ghost var source := |Source(ws.reader.stream, ws.reader.conn)|;
    frames := [];
    for i := 0 to calls
      invariant ws.Valid() && !ws.closed
      invariant ws.reader.conn.stalls >= old(ws.reader.conn.stalls)
      invariant ws.reader.conn.reliable ==> ws.reader.conn.stalls == old(ws.reader.conn.stalls)
      invariant frames + Decoded(ws.multipart, ws.Pending()) == all
      invariant ws.reader.conn.stalls == old(ws.reader.conn.stalls) ==>
        ws.reader.conn.open || Source(ws.reader.stream, ws.reader.conn) == []
      invariant ws.reader.conn.stalls == old(ws.reader.conn.stalls) ==>
        || Decoded(ws.multipart, ws.Pending()) == []
        || i + |Decoded(ws.multipart, ws.Pending())| + |Source(ws.reader.stream, ws.reader.conn)| <= |all| + source
    {
      DecodedStep(ws.multipart, ws.Pending());
      var r := ws.Next();
      match r {
        case Delivered(frame) => frames := frames + [frame];
        case Failed(_) => return;
        case Nothing => DecodedStep(ws.multipart, ws.Pending());
      }
    }
  }

  /** The chunk-independent round trip: a peer's frames below 2^31 bytes, masked or not and split
      into reads in any way, arrive as they were sent exactly when the masks agree inside every
      fragmented message. */
  method ReceiveSent(ws: Websocket, ghost sents: seq<Sent>, calls: nat) returns (frames: seq<Frame>)
    requires ws.Valid() && !ws.closed && ws.reader.conn.open && ws.multipart.None?
    requires ws.Pending() == Wire(sents) && forall s :: s in sents ==> |s.frame.data| < 0x8000_0000
    modifies ws, ws.reader.conn`unread, ws.reader.conn`open, ws.reader.conn`stalls
    modifies ws.reader.stream`readBuff, ws.reader.stream`httpBodyPending
    ensures ws.reader.conn.reliable ==> ws.reader.conn.stalls == old(ws.reader.conn.stalls)
    ensures frames <= Arrivals(None, sents)
    ensures ws.reader.conn.stalls == old(ws.reader.conn.stalls) && calls >= |sents| + |Wire(sents)| ==>
      && frames == Arrivals(None, sents) && (frames == Originals(sents) <==> FragmentsAgree(sents))
      && ((forall s :: s in sents ==> s.frame.final) ==> frames == Originals(sents))
  {
    DecodedWire(None, sents);
    ArrivalsFaithfulIff(sents);
    ArrivalsLength(None, sents);
    if forall s :: s in sents ==> s.frame.final {
      WholeMessagesAgree(sents);
    }
    frames := Receive(ws, calls);
  }
}
