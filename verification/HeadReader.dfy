/** Reading a request head off a connection, chunk by chunk. */
module HeadReader {
  import opened Bytes
  import opened Values
  import opened Net
  import opened Stream
  import opened HeadParser

  const HEADER_CHUNK_SIZE: nat := 2048

  datatype HeadError = Closed | TooBig | TimedOut | Malformed(error: LineError)

  /** No line break starts in `buff` between the positions. */
  ghost predicate NoLineIn(buff: bytes, from: nat, to: nat) {
    forall i :: from <= i < to ==> !CrlfAt(buff, i)
  }

  /** Where a new search may start without missing a line break or finding a stale one: nothing
      ends between the line's first byte and it, and one byte before the line is the end of the
      previous one. */
  ghost predicate Resumable(buff: bytes, readerSeek: nat, seek: nat) {
    && seek <= |buff|
    && (seek >= readerSeek ==> NoLineIn(buff, readerSeek, seek))
    && (seek < readerSeek ==> seek + 1 == readerSeek <= |buff| && buff[seek] == '\n')
  }

  /** Resuming finds the same line as searching again from the line's first byte. */
  lemma ResumeFindsSame(buff: bytes, readerSeek: nat, seek: nat)
    requires Resumable(buff, readerSeek, seek)
    ensures NextLine(buff, seek) == NextLine(buff, readerSeek)
  {
    match NextLine(buff, readerSeek) {
      case Some(end) => NextLineIs(buff, seek, end);
      case None =>
        if NextLine(buff, seek).Some? {
          assert CrlfAt(buff, NextLine(buff, seek).value);
        }
    }
  }

  /** After a search that found nothing, the last byte of the buffer is where to go on: a CR may be
      waiting there for its LF. */
  lemma ResumeAtLastByte(buff: bytes, more: bytes, readerSeek: nat)
    requires readerSeek <= |buff| && buff != [] && NextLine(buff, readerSeek) == None
    requires readerSeek > 0 ==> buff[readerSeek - 1] == '\n'
    ensures Resumable(buff + more, readerSeek, |buff| - 1)
  {
    var all := buff + more;
    forall i | readerSeek <= i < |buff| - 1 ensures !CrlfAt(all, i) {
      assert !CrlfAt(buff, i) && all[i] == buff[i] && all[i + 1] == buff[i + 1];
    }
    if |buff| - 1 < readerSeek {
      assert all[|buff| - 1] == buff[readerSeek - 1];
    }
  }

  /** The head of the bytes that wait on a connection, however they arrive. A head that is
      returned is the first head of those bytes, and exactly its bytes are consumed. */
  method ReadRequestHead(conn: Connection, stream: StreamState, maxHeaderSize: nat) returns (r: Result<RequestHead, HeadError>)
    modifies conn`unread, conn`open, conn`stalls, stream`readBuff
    ensures r.Ok? ==>
      var scan := FirstHead(old(Source(stream, conn)));
      scan.HeadAt? && r.value == scan.head && Source(stream, conn) == old(Source(stream, conn))[scan.end..]
    ensures r.Err? ==> Source(stream, conn) == old(Source(stream, conn))
    ensures r.Err? && r.error.Malformed? ==> FirstHead(old(Source(stream, conn))) == BadHead(r.error.error)
    // a head that is complete or bad within the limit is never refused for its size, and little is read beyond it
    ensures r == Err(TooBig) ==>
      |old(Source(stream, conn))| > maxHeaderSize && FirstHead(old(Source(stream, conn))[..maxHeaderSize]) == NeedMore
    ensures |old(conn.unread)| - |conn.unread| <= maxHeaderSize + 2048
    // otherwise only a network that goes silent stands between a head and its reader
    ensures r == Err(Closed) || r == Err(TimedOut) ==>
      !old(conn.open) || conn.stalls > old(conn.stalls) || FirstHead(old(Source(stream, conn))) == NeedMore
    ensures conn.stalls >= old(conn.stalls) && (conn.reliable || r.Ok? ==> conn.stalls == old(conn.stalls))
    ensures r != Err(TimedOut) ==> conn.open == old(conn.open)
    ensures r == Err(Closed) ==> !old(conn.open)
    ensures !old(conn.open) && old(stream.readBuff) == [] ==> r == Err(Closed)
  {
    hide ScanHead;
    hide NextLine;
    hide ValidEntries;
    ghost var wire := Source(stream, conn);
    ghost var front := if |wire| > maxHeaderSize then wire[..maxHeaderSize] else wire;
    var readerSeek: nat := 0;
    var totalRead: nat := 0;
    var line: Option<RequestLine> := None;
    var headers := new Values();
    while true
      invariant fresh(headers) && headers.Valid()
      invariant Source(stream, conn) == wire
      invariant FirstHead(wire) == ScanHead(wire, readerSeek, line, headers.entries)
      invariant FirstHead(front) == NeedMore || FirstHead(front) == ScanHead(front, readerSeek, line, headers.entries)
      invariant readerSeek <= |stream.readBuff| && (readerSeek > 0 ==> stream.readBuff[readerSeek - 1] == '\n')
      invariant totalRead == |old(conn.unread)| - |conn.unread| <= |stream.readBuff|
      invariant totalRead <= maxHeaderSize + HEADER_CHUNK_SIZE
      invariant conn.open == old(conn.open) && conn.stalls == old(conn.stalls)
      invariant !conn.open ==> totalRead == 0
      decreases |wire| - readerSeek
    {
      var awaited, total := AwaitLine(conn, stream, readerSeek, totalRead, maxHeaderSize);
      totalRead := total;
      if awaited.Err? {
        NothingYet(stream.readBuff, wire, front, readerSeek, line, headers.entries);
        return Err(awaited.error);
      }
      var handled, next := HandleLine(conn, stream, headers, readerSeek, awaited.value, line, front);
      match handled {
        case Err(e) => return Err(e);
        case Ok(Some(head)) => return Ok(head);
        case Ok(None) => readerSeek, line := awaited.value + 2, next;
      }
    }
  }

  /** Reads chunks until a line is complete. `chunker_seek` lives only as long as one line takes:
      it is reset to nullidx whenever one is found. */
  method AwaitLine(conn: Connection, stream: StreamState, readerSeek: nat, read: nat, maxHeaderSize: nat)
    returns (r: Result<nat, HeadError>, totalRead: nat)
    requires readerSeek <= |stream.readBuff| && (readerSeek > 0 ==> stream.readBuff[readerSeek - 1] == '\n')
    requires read <= maxHeaderSize + HEADER_CHUNK_SIZE
    modifies conn`unread, conn`open, conn`stalls, stream`readBuff
    ensures Source(stream, conn) == old(Source(stream, conn)) && old(stream.readBuff) <= stream.readBuff
    ensures totalRead == read + |old(conn.unread)| - |conn.unread| <= maxHeaderSize + HEADER_CHUNK_SIZE
    ensures |stream.readBuff| == |old(stream.readBuff)| + totalRead - read
    ensures conn.stalls >= old(conn.stalls) && (conn.reliable ==> conn.stalls == old(conn.stalls))
    ensures r.Ok? ==> NextLine(stream.readBuff, readerSeek) == Some(r.value) && conn.open == old(conn.open) && conn.stalls == old(conn.stalls)
    ensures r.Err? ==> NextLine(stream.readBuff, readerSeek) == None && !r.error.Malformed?
    ensures r == Err(TooBig) ==> totalRead > maxHeaderSize
    ensures r != Err(TimedOut) ==> conn.open == old(conn.open)
    ensures r == Err(Closed) ==> !old(conn.open)
    ensures !old(conn.open) ==> totalRead == read && (r.Ok? || r == Err(Closed))
    ensures r.Err? && r.error != TooBig ==>
      !old(conn.open) || conn.stalls > old(conn.stalls) || Source(stream, conn) == stream.readBuff
  {
    hide NextLine;
    hide Resumable;
    var chunkerSeek: Option<nat> := None;
    totalRead := read;
    while true
      invariant Source(stream, conn) == old(Source(stream, conn)) && old(stream.readBuff) <= stream.readBuff
      invariant chunkerSeek.Some? ==> Resumable(stream.readBuff, readerSeek, chunkerSeek.value)
      invariant totalRead == read + |old(conn.unread)| - |conn.unread| <= maxHeaderSize + HEADER_CHUNK_SIZE
      invariant |stream.readBuff| == |old(stream.readBuff)| + totalRead - read
      invariant conn.open == old(conn.open) && conn.stalls == old(conn.stalls)
      invariant !conn.open ==> totalRead == read
      decreases |conn.unread|
    {
      var seekBegin := if chunkerSeek.Some? then chunkerSeek.value else readerSeek;
      if chunkerSeek.Some? {
        ResumeFindsSame(stream.readBuff, readerSeek, seekBegin);
      }
      var lineEnd := FindLine(stream.readBuff, seekBegin);
      if lineEnd.Some? {
        return Ok(lineEnd.value), totalRead;
      }
      var error, seek, count := ReadChunk(conn, stream, readerSeek, totalRead, maxHeaderSize);
      if error.Some? {
        return Err(error.value), totalRead;
      }
      totalRead := totalRead + count;
      chunkerSeek := seek;
    }
  }

  /** A line is complete: the head goes on behind it, is refused, or ends with it. */
  method HandleLine(conn: Connection, stream: StreamState, headers: Values, begin: nat, end: nat, line: Option<RequestLine>,
    ghost front: bytes)
    returns (r: Result<Option<RequestHead>, HeadError>, line': Option<RequestLine>)
    requires headers.Valid() && NextLine(stream.readBuff, begin) == Some(end) && front <= Source(stream, conn)
    modifies headers, stream`readBuff
    ensures headers.Valid()
    ensures var wire := old(Source(stream, conn));
      var scan := ScanHead(wire, begin, line, old(headers.entries));
      match r
      case Err(e) => e.Malformed? && scan == BadHead(e.error) && Source(stream, conn) == wire
      case Ok(Some(head)) => scan.HeadAt? && scan.head == head && Source(stream, conn) == wire[scan.end..]
      case Ok(None) =>
        && scan == ScanHead(wire, end + 2, line', headers.entries) && stream.readBuff == old(stream.readBuff)
        && begin <= end && end + 2 <= |stream.readBuff| && stream.readBuff[end + 1] == '\n'
    // the same for any front of the stream that reaches behind the line
    ensures r == Ok(None) ==>
      var scan := ScanHead(front, begin, line, old(headers.entries));
      scan == NeedMore || scan == ScanHead(front, end + 2, line', headers.entries)
  {
    hide ScanHead;
    hide NextLine;
    hide ValidEntries;
    hide ParseRequestLine;
    hide WithHeader;
    hide CrlfAt;
    var buff := stream.readBuff;
    ghost var wire := Source(stream, conn);
    assert buff <= wire;
    LineInWire(buff, wire, begin, end);
    ScanStep(wire, begin, line, headers.entries, end);
    ScanStepInFront(front, wire, begin, line, headers.entries, end);
    var rl, last := TakeLine(headers, buff[begin..end], line);
    line' := line;
    if rl.Err? {
      return Err(Malformed(rl.error)), line';
    }
    line' := Some(rl.value);
    if last {
      stream.readBuff := stream.readBuff[end + 2..];
      assert Source(stream, conn) == wire[end + 2..];
      return Ok(Some(RequestHead(rl.value.meth, rl.value.target, headers.entries))), line';
    }
    return Ok(None), line';
  }

  /** No line is complete yet: reads one more chunk, and notes where to resume. */
  method ReadChunk(conn: Connection, stream: StreamState, readerSeek: nat, totalRead: nat, maxHeaderSize: nat)
    returns (error: Option<HeadError>, chunkerSeek: Option<nat>, count: nat)
    requires readerSeek <= |stream.readBuff| && NextLine(stream.readBuff, readerSeek) == None
    requires readerSeek > 0 ==> stream.readBuff[readerSeek - 1] == '\n'
    modifies conn`unread, conn`open, conn`stalls, stream`readBuff
    ensures Source(stream, conn) == old(Source(stream, conn))
    ensures error.Some? ==> stream.readBuff == old(stream.readBuff) && conn.unread == old(conn.unread) && !error.value.Malformed?
    ensures error == Some(TooBig) ==> totalRead > maxHeaderSize
    ensures error != Some(TimedOut) ==> conn.open == old(conn.open)
    ensures error == Some(Closed) <==> !old(conn.open)
    ensures error.Some? && error != Some(TooBig) ==>
      !old(conn.open) || conn.stalls > old(conn.stalls) || Source(stream, conn) == stream.readBuff
    ensures conn.stalls >= old(conn.stalls) && (conn.reliable ==> conn.stalls == old(conn.stalls))
    ensures error.None? ==>
      && conn.open == old(conn.open) && conn.stalls == old(conn.stalls)
      && 0 < count == |old(conn.unread)| - |conn.unread| <= HEADER_CHUNK_SIZE && totalRead <= maxHeaderSize
      && |stream.readBuff| == |old(stream.readBuff)| + count && old(stream.readBuff) <= stream.readBuff
      && (chunkerSeek.Some? ==> Resumable(stream.readBuff, readerSeek, chunkerSeek.value))
  {
    hide NextLine;
    hide Resumable;
    error, chunkerSeek, count := None, None, 0;
    if !conn.open {
      error := Some(Closed);
      return;
    }
    if totalRead > maxHeaderSize {
      error := Some(TooBig);
      return;
    }
    var buff := stream.readBuff;
    var chunk := conn.Read(HEADER_CHUNK_SIZE);
    if chunk == [] {
      assert buff + [] == buff;
      error := Some(TimedOut);
      return;
    }
    // size() - 1 of an empty buffer wraps to nullidx: there is nothing to resume
    chunkerSeek := if buff == [] then None else Some(|buff| - 1);
    if buff != [] {
      ResumeAtLastByte(buff, chunk, readerSeek);
    }
    count := |chunk|;
    stream.readBuff := buff + chunk;
  }

  /** One complete line: the request line if it is still to come, and a header unless it is short. */
  method TakeLine(headers: Values, text: bytes, line: Option<RequestLine>) returns (r: Result<RequestLine, LineError>, last: bool)
    requires headers.Valid()
    modifies headers
    ensures headers.Valid()
    ensures r == if line.None? then ParseRequestLine(text) else Ok(line.value)
    ensures last <==> r.Ok? && |text| <= 2
    ensures headers.entries == if r.Ok? && !last then WithHeader(old(headers.entries), text) else old(headers.entries)
  {
    hide ValidEntries;
    hide WithHeader;
    hide ParseRequestLine;
    if line.None? {
      r := ReadRequestLine(text);
    } else {
      r := Ok(line.value);
    }
    last := r.Ok? && |text| <= 2;
    if r.Ok? && !last {
      assert text[0..|text|] == text;
      ParseHeader(headers, text, 0, |text|);
    }
  }

  /** A line found in the buffer is the line of the whole stream. */
  lemma LineInWire(buff: bytes, wire: bytes, begin: nat, end: nat)
    requires buff <= wire && NextLine(buff, begin) == Some(end)
    ensures NextLine(wire, begin) == Some(end) && wire[begin..end] == buff[begin..end]
    ensures begin <= end && end + 1 < |buff| && buff[end + 1] == '\n'
  {
    NextLineInPrefix(buff, wire, begin);
  }

  lemma ScanStepInFront(front: bytes, wire: bytes, seek: nat, line: Option<RequestLine>, headers: Entries, end: nat)
    requires front <= wire && NextLine(wire, seek) == Some(end)
    ensures ScanHead(front, seek, line, headers) == NeedMore ||
      (NextLine(front, seek) == Some(end) && seek <= end && end + 2 <= |front| && front[seek..end] == wire[seek..end])
    ensures NextLine(front, seek) == Some(end) ==>
      ScanHead(front, seek, line, headers) ==
        match (if line.None? then ParseRequestLine(wire[seek..end]) else Ok(line.value))
        case Err(e) => BadHead(e)
        case Ok(rl) =>
          if end - seek <= 2 then HeadAt(RequestHead(rl.meth, rl.target, headers), end + 2)
          else ScanHead(front, end + 2, Some(rl), WithHeader(headers, wire[seek..end]))
  {
    hide ParseRequestLine;
    hide WithHeader;
    NextLineInPrefix(front, wire, seek);
    if NextLine(front, seek) == Some(end) {
      ScanStep(front, seek, line, headers, end);
      assert front[seek..end] == wire[seek..end];
    }
  }

  lemma NothingYet(buff: bytes, wire: bytes, front: bytes, seek: nat, line: Option<RequestLine>, headers: Entries)
    requires buff <= wire && front <= wire && NextLine(buff, seek) == None
    ensures ScanHead(wire, seek, line, headers).HeadAt? ==> ScanHead(wire, seek, line, headers).end > |buff|
    ensures wire == buff ==> ScanHead(wire, seek, line, headers) == NeedMore
    ensures |front| <= |buff| ==> ScanHead(front, seek, line, headers) == NeedMore
  {
    if |front| <= |buff| {
      assert front <= buff;
      NextLineInPrefix(front, buff, seek);
    }
    if ScanHead(wire, seek, line, headers).HeadAt? && ScanHead(wire, seek, line, headers).end <= |buff| {
      ScanEnough(buff, wire, seek, line, headers);
    }
  }
}
