/** The state one connection keeps between requests, and the readers of request bodies. */
module Stream {
  import opened Bytes
  import opened Net

  const BODY_CHUNK_SIZE: nat := 128 * 1024
  const LENGTH_UNKNOWN: nat := SIZE_MAX

  class StreamState {
    var readBuff: bytes
    var httpBodyPending: nat
    var httpKeepAlive: bool
    var rawIo: bool
    var streamResponse: bool

    constructor ()
      ensures readBuff == [] && httpBodyPending == 0 && httpKeepAlive && !rawIo && !streamResponse
    {
      readBuff, httpBodyPending := [], 0;
      httpKeepAlive, rawIo, streamResponse := true, false, false;
    }

    /** A connection that left plain HTTP is never kept alive for another request. */
    predicate Safe()
      reads this`httpKeepAlive, this`rawIo, this`streamResponse
    {
      rawIo || streamResponse ==> !httpKeepAlive
    }
  }

  /** The bytes still to be consumed: those already buffered, then those not yet read. */
  ghost function Source(stream: StreamState, conn: Connection): bytes
    reads stream`readBuff, conn`unread
  {
    stream.readBuff + conn.unread
  }

  function Least(a: nat, b: nat, c: nat): nat {
    if a <= b && a <= c then a else if b <= c then b else c
  }

  method ReadRequestBody(conn: Connection, stream: StreamState, chunkSize: nat, bytesRemain: nat) returns (chunk: bytes)
    requires conn.open
    modifies conn`unread, conn`open, conn`stalls, stream`readBuff
    ensures |chunk| <= chunkSize && |chunk| <= bytesRemain
    ensures old(stream.readBuff) != [] ==>
      conn.unread == old(conn.unread) && |chunk| == Least(chunkSize, bytesRemain, |old(stream.readBuff)|)
    ensures old(Source(stream, conn)) == chunk + Source(stream, conn)
    ensures conn.stalls == old(conn.stalls) +
      if chunk == [] && chunkSize > 0 && bytesRemain > 0 && Source(stream, conn) != [] then 1 else 0
    ensures conn.reliable ==> conn.stalls == old(conn.stalls)
    ensures chunk != [] || chunkSize == 0 || bytesRemain == 0 ==> conn.open
    ensures conn.open || Source(stream, conn) == [] || conn.stalls > old(conn.stalls)
  {
    var canRead := if bytesRemain > chunkSize then chunkSize else bytesRemain;
    if canRead <= 0 {
      return [];
    }
    if stream.readBuff != [] {
      if canRead >= |stream.readBuff| {
        chunk := stream.readBuff;
        stream.readBuff := [];
        return chunk;
      }
      chunk := stream.readBuff[..canRead];
      stream.readBuff := stream.readBuff[canRead..];
      return chunk;
    }
    chunk := conn.Read(canRead);
  }

  /** Hands out the whole buffer first, whatever size was asked for. */
  method ReadRawBody(conn: Connection, stream: StreamState, chunkSize: nat) returns (chunk: bytes)
    requires conn.open
    modifies conn`unread, conn`open, conn`stalls, stream`readBuff
    ensures if old(stream.readBuff) != [] then chunk == old(stream.readBuff) else |chunk| <= chunkSize
    ensures old(stream.readBuff) != [] ==> conn.unread == old(conn.unread)
    ensures stream.readBuff == []
    ensures old(Source(stream, conn)) == chunk + Source(stream, conn)
    ensures conn.stalls == old(conn.stalls) + if chunk == [] && Source(stream, conn) != [] then 1 else 0
    ensures conn.reliable && chunkSize > 0 ==> conn.stalls == old(conn.stalls)
    ensures chunk != [] ==> conn.open
    ensures conn.open || Source(stream, conn) == [] || conn.stalls > old(conn.stalls)
  {
    if stream.readBuff != [] {
      chunk := stream.readBuff;
      stream.readBuff := [];
      return chunk;
    }
    chunk := conn.Read(chunkSize);
  }

  /** How many buffered bytes `discard_unread_body` drops, and how many the one read after it
      may at most return. */
  function DiscardBuffered(buffered: nat, pending: nat): nat {
    if pending <= buffered then pending else buffered
  }

  /** What stays pending when that one read returns `got` bytes. */
  function DiscardLeaves(buffered: nat, pending: nat, got: nat): int {
    pending - DiscardBuffered(buffered, pending) - got
  }

  /** The discard reads once, so it is complete whatever the network returns exactly when the
      rest of the body is buffered already. */
  lemma DiscardCompleteIff(buffered: nat, pending: nat)
    ensures (forall got: nat :: DiscardBuffered(buffered, pending) + got <= pending ==> DiscardLeaves(buffered, pending, got) == 0)
       <==> pending <= buffered
  {
    assert pending > buffered ==> DiscardLeaves(buffered, pending, 0) > 0;
  }

  method DiscardUnreadBody(conn: Connection, stream: StreamState) returns (ghost dropped: bytes)
    requires conn.open
    modifies conn`unread, conn`open, conn`stalls, stream`readBuff, stream`httpBodyPending
    ensures old(Source(stream, conn)) == dropped + Source(stream, conn)
    ensures stream.httpBodyPending == old(stream.httpBodyPending) - |dropped|
    ensures stream.rawIo ==> dropped == []
    ensures !stream.rawIo ==>
      var kept := DiscardBuffered(old(|stream.readBuff|), old(stream.httpBodyPending));
      && |dropped| >= kept
      && stream.httpBodyPending == DiscardLeaves(old(|stream.readBuff|), old(stream.httpBodyPending), |dropped| - kept)
    // what was not buffered is asked of the network once
    ensures !stream.rawIo && old(stream.httpBodyPending > |stream.readBuff|) && old(conn.unread) != [] ==>
      conn.stalls > old(conn.stalls) || |dropped| > old(|stream.readBuff|)
    ensures conn.stalls >= old(conn.stalls) && (conn.reliable ==> conn.stalls == old(conn.stalls))
    ensures conn.stalls == old(conn.stalls) ==> conn.open || Source(stream, conn) == []
    ensures conn.open || stream.readBuff == []
    ensures old(stream.httpBodyPending) == 0 ==> conn.open && dropped == [] && conn.stalls == old(conn.stalls)
  {
    dropped := [];
    if stream.rawIo || stream.httpBodyPending <= 0 {
      return;
    }
    if stream.readBuff != [] {
      var size := if stream.httpBodyPending <= |stream.readBuff| then stream.httpBodyPending else |stream.readBuff|;
      dropped := stream.readBuff[..size];
      stream.readBuff := stream.readBuff[size..];
      stream.httpBodyPending := stream.httpBodyPending - size;
    }
    if stream.httpBodyPending > 0 {
      var chunk := conn.Read(stream.httpBodyPending);
      dropped := dropped + chunk;
      stream.httpBodyPending := stream.httpBodyPending - |chunk|;
    }
  }

  /** The chunk size of a read; `read_all` asks for an unknown length, and so is one bounded read. */
  function Granted(size: nat): nat {
    if size == LENGTH_UNKNOWN || size <= 0 then BODY_CHUNK_SIZE else size
  }

  /** A reader that asks for nothing, or for everything, is given at most 128 KiB; any other what it asks for. */
  lemma GrantedIs(size: nat)
    ensures Granted(size) == if size == 0 || size == 0xFFFF_FFFF_FFFF_FFFF then 131072 else size
  {
  }

  class RequestBodyReader {
    const conn: Connection
    const stream: StreamState

    constructor (conn: Connection, stream: StreamState)
      ensures this.conn == conn && this.stream == stream
    {
      this.conn := conn;
      this.stream := stream;
    }

    predicate IsReadable()
      reads conn`open
    {
      conn.open
    }

    method Read(size: nat) returns (chunk: bytes)
      modifies conn`unread, conn`open, conn`stalls, stream`readBuff, stream`httpBodyPending
      ensures old(Source(stream, conn)) == chunk + Source(stream, conn)
      // the counter follows the bytes, and never goes below zero
      ensures stream.httpBodyPending == old(stream.httpBodyPending) - if stream.rawIo then 0 else |chunk|
      ensures !old(conn.open) ==> !conn.open && chunk == [] && conn.stalls == old(conn.stalls) && stream.readBuff == old(stream.readBuff)
      ensures chunk != [] ==> conn.open
      // a body read asks for no more than it was granted, and for nothing while bytes are buffered
      ensures !stream.rawIo ==> |chunk| <= Granted(size)
      ensures old(stream.readBuff) != [] ==> conn.unread == old(conn.unread)
      ensures !stream.rawIo && old(conn.open) && old(stream.readBuff) != [] ==>
        |chunk| == Least(Granted(size), old(stream.httpBodyPending), |old(stream.readBuff)|)
      ensures conn.stalls == old(conn.stalls) +
        if old(conn.open) && chunk == [] && (stream.rawIo || old(stream.httpBodyPending) > 0) && Source(stream, conn) != []
        then 1 else 0
      ensures conn.reliable ==> conn.stalls == old(conn.stalls)
      // only a read that finds nothing can close the connection
      ensures !stream.rawIo && old(stream.httpBodyPending) == 0 ==> conn.open == old(conn.open)
      ensures old(conn.open) && conn.stalls == old(conn.stalls) ==> conn.open || Source(stream, conn) == []
      // raw reads empty the buffer, ignoring the size they were given
      ensures stream.rawIo && old(conn.open) ==>
        stream.readBuff == [] && (chunk == old(stream.readBuff) || (old(stream.readBuff) == [] && |chunk| <= Granted(size)))
    {
      if !IsReadable() {
        return [];
      }
      var chunkSize := Granted(size);
      if stream.rawIo {
        chunk := ReadRawBody(conn, stream, chunkSize);
        return chunk;
      }
      if stream.httpBodyPending <= 0 {
        return [];
      }
      chunk := ReadRequestBody(conn, stream, chunkSize, stream.httpBodyPending);
      stream.httpBodyPending := stream.httpBodyPending - |chunk|;
    }
  }

  /** Any sequence of reads, then the discard before the next request. Nothing is lost or
      returned twice: what was read, what was dropped and what is still pending make up the
      content length, and with nothing pending the stream stands exactly at the body's end. */
  method ReadThenDiscard(reader: RequestBodyReader, sizes: seq<nat>) returns (body: bytes, ghost dropped: bytes)
    requires !reader.stream.rawIo
    modifies reader.conn`unread, reader.conn`open, reader.conn`stalls, reader.stream`readBuff, reader.stream`httpBodyPending
    ensures old(Source(reader.stream, reader.conn)) == body + dropped + Source(reader.stream, reader.conn)
    ensures |body| + |dropped| + reader.stream.httpBodyPending == old(reader.stream.httpBodyPending)
    ensures reader.stream.httpBodyPending == 0 ==>
      var length := old(reader.stream.httpBodyPending);
      && length <= |old(Source(reader.stream, reader.conn))|
      && body + dropped == old(Source(reader.stream, reader.conn))[..length]
      && Source(reader.stream, reader.conn) == old(Source(reader.stream, reader.conn))[length..]
  {
    body, dropped := [], [];
    for i := 0 to |sizes|
      invariant old(Source(reader.stream, reader.conn)) == body + Source(reader.stream, reader.conn)
      invariant |body| + reader.stream.httpBodyPending == old(reader.stream.httpBodyPending)
    {
      var chunk := reader.Read(sizes[i]);
      body := body + chunk;
    }
    if reader.conn.open {
      dropped := DiscardUnreadBody(reader.conn, reader.stream);
    }
  }
}
