/** One connection from its upgrade request to its last frame. */
module Handover {
  import opened Bytes
  import opened Net
  import opened Stream
  import opened HeadParser
  import opened HeadReader
  import opened ResponseWriter
  import Pipelining
  import opened WsFrames
  import opened Websocket

  /** A well-formed upgrade request with frames right behind it, split into reads in any way: the head is
      answered with the switch of protocols, and the frames arrive as `ReceiveSent` says, those that were
      read along with the head included. */
  method UpgradeAndReceive(
    conn: Connection, ghost req: Pipelining.Request, ghost sents: seq<Sent>,
    maxHeaderSize: nat, date: bytes, calls: nat)
    returns (frames: seq<Frame>)
    requires conn.open && conn.unread == Pipelining.RequestBytes(req) + Wire(sents)
    requires Pipelining.WellFormed(req, maxHeaderSize) && Acceptable(Pipelining.HeadOf(req))
    requires forall s :: s in sents ==> |s.frame.data| < 0x8000_0000
    modifies conn
    ensures conn.reliable ==> conn.stalls == old(conn.stalls)
    ensures frames <= Arrivals(None, sents)
    ensures conn.stalls == old(conn.stalls) ==> conn.output == old(conn.output) + UpgradeHead([], KeyAnswer(Pipelining.HeadOf(req)), date)
    ensures conn.stalls == old(conn.stalls) && calls >= |sents| + |Wire(sents)| ==>
      && frames == Arrivals(None, sents) && (frames == Originals(sents) <==> FragmentsAgree(sents))
      && ((forall s :: s in sents ==> s.frame.final) ==> frames == Originals(sents))
  {
    hide FirstHead;
    hide ScanHead;
    hide Pipelining.HeadOf;
    hide Pipelining.WellFormed;
    hide Wire;
    hide Arrivals;
    hide Originals;
    hide UpgradeHead;
    hide Acceptable;
    hide KeyAnswer;
    hide ResponseWriter.Valid;
    hide Drafts;
    hide Through;
    NoBody(req, maxHeaderSize);
    Pipelining.RequestScans(req, maxHeaderSize, Wire(sents));
    var stream := new StreamState();
    assert Source(stream, conn) == conn.unread;
    NotTooBig(conn.unread, maxHeaderSize);
    var head := ReadRequestHead(conn, stream, maxHeaderSize);
    frames := [];
    if head.Err? {
      return;
    }
    var reader := new RequestBodyReader(conn, stream);
    var writer := new ResponseWriter(conn, stream, date);
    FreshDrafts(writer);
    NothingDrafted();
    var ws, _ := Accept(head.value, reader, writer, []);
    if ws.None? {
      return;
    }
    frames := ReceiveSent(ws.value, sents, calls);
  }

  lemma NoBody(req: Pipelining.Request, maxHeaderSize: nat)
    requires Pipelining.WellFormed(req, maxHeaderSize) && Acceptable(Pipelining.HeadOf(req))
    ensures req.body == [] && Pipelining.RequestBytes(req) == Pipelining.HeadBytes(req)
    ensures |Pipelining.HeadBytes(req)| <= maxHeaderSize
  {
  }

  lemma NotTooBig(wire: bytes, maxHeaderSize: nat)
    requires FirstHead(wire).HeadAt? && FirstHead(wire).end <= maxHeaderSize
    ensures |wire| > maxHeaderSize ==> FirstHead(wire[..maxHeaderSize]) != NeedMore
  {
    if |wire| > maxHeaderSize {
      ScanEnough(wire[..maxHeaderSize], wire, 0, None, []);
    }
  }
}
