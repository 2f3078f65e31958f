/** What the reader of a response finds in its head, header by header and in whole texts. */
module ResponseHeaders {
  import opened Bytes
  import opened OrderedMap
  import opened Values
  import opened HeadText
  import opened ResponseWriter

  // ---------------------------------------------------------------- tokens

  /** One text contains another exactly when it stands somewhere in it. */
  lemma {:induction false} ContainsIff(s: bytes, t: bytes)
    ensures Contains(s, t) <==> exists i :: 0 <= i <= |s| && t <= s[i..]
  {
    assert s[0..] == s;
    if !(t <= s) && s != [] {
      ContainsIff(s[1..], t);
      forall i | 0 <= i < |s| ensures s[1..][i..] == s[i + 1..] {
      }
      if Contains(s[1..], t) {
        var i :| 0 <= i < |s| && t <= s[1..][i..];
        assert t <= s[i + 1..];
      }
      if i :| 0 < i <= |s| && t <= s[i..] {
        assert t <= s[1..][i - 1..];
      }
    }
  }

  /** A head upgrades when that token stands in the last connection header, and streams events when the last
      content type has the other. */
  lemma StreamingIff(m: Entries)
    ensures var v := Normalized(LastOf(m, "connection"));
      Upgrades(m) <==> exists i :: 0 <= i <= |v| && "upgrade" <= v[i..]
    ensures var v := Normalized(LastOf(m, "content-type"));
      StreamsEvents(m) <==> exists i :: 0 <= i <= |v| && "event-stream" <= v[i..]
  {
    hide Contains;
    hide Normalized;
    hide LastOf;
    ContainsIff(Normalized(LastOf(m, CONNECTION)), "upgrade");
    ContainsIff(Normalized(LastOf(m, CONTENT_TYPE)), "event-stream");
  }

  // ---------------------------------------------------------------- edits

  /** What an edit does to the values of one key. */
  lemma EditedAt(m: Entries, op: Op, q: bytes)
    requires ValidEntries(m) && Normalized(q) != []
    ensures ValidEntries(Edited(m, op))
    ensures AllOf(Edited(m, op), q) ==
      if op.SetHeader? && Normalized(op.key) == Normalized(q) then [op.value]
      else if op.AppendHeader? && Normalized(op.key) == Normalized(q) then AllOf(m, q) + [op.value]
      else if op.DelHeader? && Normalized(op.key) == Normalized(q) then []
      else AllOf(m, q)
  {
    hide Normalized;
    hide AfterSet;
    hide AfterAppend;
    hide AfterDel;
    hide AllOf;
    hide ValidEntries;
    match op
    case SetHeader(key, value) =>
      SetKeepsValid(m, key, value);
      AllOfAfterSet(m, key, value, q);
    case AppendHeader(key, value) =>
      AppendKeepsValid(m, key, value);
      AllOfAfterAppend(m, key, value, q);
    case DelHeader(key) =>
      DelKeepsValid(m, key);
      AllOfAfterDel(m, key, q);
    case _ =>
  }

  /** The values that a run of edits leaves under a key. */
  ghost function ValuesSet(ops: seq<Op>, q: bytes): seq<bytes> {
    if ops == [] then []
    else
      var before, last := ValuesSet(ops[..|ops| - 1], q), ops[|ops| - 1];
      match last
      case SetHeader(key, value) => if Normalized(key) == Normalized(q) then [value] else before
      case AppendHeader(key, value) => if Normalized(key) == Normalized(q) then before + [value] else before
      case DelHeader(key) => if Normalized(key) == Normalized(q) then [] else before
      case _ => before
  }

  /** The edits before the head, and none behind it, decide its headers. */
  lemma {:induction false} HeadersAt(ops: seq<Op>, n: nat, q: bytes)
    requires n <= |ops| && OnlyEdits(ops[..n]) && (n < |ops| ==> ops[n].Head? || ops[n].Body?) && Normalized(q) != []
    ensures AllOf(HeadersBefore(ops), q) == ValuesSet(ops[..n], q)
    decreases |ops|
  {
    hide Normalized;
    hide AllOf;
    hide Edited;
    if ops == [] {
      NothingFiled(q);
    } else {
      var before, last := ops[..|ops| - 1], ops[|ops| - 1];
      EditsKeepValid(before);
      EditedAt(HeadersBefore(before), last, q);
      if n == |ops| {
        assert ops[..n] == ops && before[..n - 1] == before;
        HeadersAt(before, n - 1, q);
      } else {
        assert before[..n] == ops[..n];
        assert OnlyEdits(before) ==> n == |before|;
        HeadersAt(before, n, q);
      }
    }
  }

  lemma NothingFiled(q: bytes)
    ensures AllOf(HeadersBefore([]), q) == []
  {
  }

  // ---------------------------------------------------------------- completed headers

  lemma DefaultAt(m: Entries, key: bytes, value: bytes, q: bytes)
    requires Normalized(key) == key != []
    ensures AllOf(WithDefault(m, key, value), q) ==
      if Normalized(q) == key && AllOf(m, q) == [] then [value] else AllOf(m, q)
  {
    AllOfAfterSet(m, key, value, q);
  }

  /** What a header is that nobody set. */
  ghost function Default(k: bytes, keepAlive: bool, date: bytes): seq<bytes> {
    if k == "connection" then [if keepAlive then "keep-alive" else "close"]
    else if k == "date" then [date]
    else if k == "server" then ["maddsua/l3"]
    else if k == "cache-control" then ["no-cache"]
    else []
  }

  lemma CompletedAt(m: Entries, keepAlive: bool, date: bytes, q: bytes)
    ensures AllOf(Completed(m, keepAlive, date), q) ==
      if AllOf(m, q) != [] then AllOf(m, q) else Default(Normalized(q), keepAlive, date)
  {
    hide Normalized;
    hide AllOf;
    hide WithDefault;
    HeaderNamesAreNormal();
    var m1 := WithDefault(m, "connection", if keepAlive then "keep-alive" else "close");
    var m2 := WithDefault(m1, "date", date);
    var m3 := WithDefault(m2, "server", "maddsua/l3");
    DefaultAt(m, "connection", if keepAlive then "keep-alive" else "close", q);
    DefaultAt(m1, "date", date, q);
    DefaultAt(m2, "server", "maddsua/l3", q);
    DefaultAt(m3, "cache-control", "no-cache", q);
  }

  lemma WithoutLengthAt(m: Entries, q: bytes)
    requires ValidEntries(m)
    ensures AllOf(WithoutLength(m), q) ==
      if (Upgrades(m) || StreamsEvents(m)) && Normalized(q) == "content-length" then [] else AllOf(m, q)
  {
    hide AfterDel;
    hide Upgrades;
    hide StreamsEvents;
    hide AllOf;
    hide ValidEntries;
    HeaderNamesAreNormal();
    hide Normalized;
    var m1 := AfterDel(m, CONTENT_LENGTH);
    DelKeepsValid(m, CONTENT_LENGTH);
    AllOfAfterDel(m, CONTENT_LENGTH, q);
    AllOfAfterDel(m1, CONTENT_LENGTH, q);
  }

  /** Every header of a response with a head: what the handler set is kept, the connection token says whether
      the connection is, and the length is that of the body unless the handler announced one; an upgrade or
      an event stream has none. */
  lemma AskedHeader(ops: seq<Op>, keepAlive: bool, date: bytes, q: bytes)
    requires !OnlyEdits(ops)
    ensures var m, k := HeadersBefore(ops), Normalized(q);
      AllOf(Asked(ops, keepAlive, date).headers, q) ==
        if k == "content-length" && (Upgrades(m) || StreamsEvents(m)) then []
        else if k == "content-length" && LastOf(m, q) == [] then [Decimal(|BodyOf(ops)|)]
        else if AllOf(m, q) != [] then AllOf(m, q)
        else Default(k, keepAlive, date)
  {
    hide HeadersBefore;
    hide OnlyEdits;
    hide BodyOf;
    hide FirstStatus;
    hide AfterSet;
    hide Completed;
    hide WithoutLength;
    hide Upgrades;
    hide StreamsEvents;
    hide Accepted;
    hide Decimal;
    hide Stoul;
    hide Normalized;
    hide AllOf;
    hide ValidEntries;
    var m := HeadersBefore(ops);
    EditsKeepValid(ops);
    HeaderNamesAreNormal();
    WithoutLengthAt(m, q);
    CompletedAt(WithoutLength(m), keepAlive, date, q);
    AllOfAfterSet(Prepared(m, keepAlive, date), CONTENT_LENGTH, Decimal(|BodyOf(ops)|), q);
    SameValues(m, q, CONTENT_LENGTH);
  }

  lemma SameValues(m: Entries, a: bytes, b: bytes)
    ensures Normalized(a) == Normalized(b) ==> AllOf(m, a) == AllOf(m, b) && LastOf(m, a) == LastOf(m, b)
  {
  }

  /** The headers of the answer to a run of edits, a status and one body. */
  lemma AnswerHeader(edits: seq<Op>, status: Status, body: bytes, keepAlive: bool, date: bytes, q: bytes)
    requires OnlyEdits(edits) && Normalized(q) != [] && Normalized(q) != "content-length"
    ensures AllOf(Asked(edits + [Head(status)] + [Body(body)], keepAlive, date).headers, q) ==
      if ValuesSet(edits, q) != [] then ValuesSet(edits, q) else Default(Normalized(q), keepAlive, date)
  {
    hide HeadersBefore;
    hide ValuesSet;
    hide OnlyEdits;
    hide Asked;
    hide Default;
    hide Normalized;
    hide AllOf;
    hide BodyOf;
    hide FirstStatus;
    hide Upgrades;
    hide StreamsEvents;
    hide LastOf;
    hide Decimal;
    var ops := edits + [Head(status)] + [Body(body)];
    AnswerDrafted(edits, status, body);
    AskedHeader(ops, keepAlive, date, q);
    assert edits[..|edits|] == edits;
    HeadersAt(edits, |edits|, q);
  }

  /** A head without a connection header of its own tells the client whether to go on. */
  lemma TokenTells(ops: seq<Op>, keepAlive: bool, date: bytes)
    requires !OnlyEdits(ops) && AllOf(HeadersBefore(ops), "connection") == []
    ensures LastOf(Asked(ops, keepAlive, date).headers, "connection") == if keepAlive then "keep-alive" else "close"
  {
    hide HeadersBefore;
    hide OnlyEdits;
    hide Asked;
    hide AllOf;
    hide Normalized;
    HeaderNamesAreNormal();
    AskedHeader(ops, keepAlive, date, "connection");
  }

  // ---------------------------------------------------------------- status and body

  /** Without a head or data the answer is an empty 200 with the headers that were set. */
  lemma AskedNothing(ops: seq<Op>, keepAlive: bool, date: bytes, q: bytes)
    requires OnlyEdits(ops)
    ensures var r := Asked(ops, keepAlive, date);
      && r.status == Status(200, Some("OK")) && r.body == []
      && AllOf(r.headers, q) == if Normalized(q) == "content-length" then ["0"] else AllOf(HeadersBefore(ops), q)
  {
    hide HeadersBefore;
    hide OnlyEdits;
    hide AfterSet;
    hide AllOf;
    HeaderNamesAreNormal();
    hide Normalized;
    assert Decimal(0) == "0";
    AllOfAfterSet(HeadersBefore(ops), CONTENT_LENGTH, Decimal(0), q);
  }

  /** Data before any head is the body of a 200. */
  lemma DataFirst(edits: seq<Op>, data: bytes, keepAlive: bool, date: bytes)
    requires OnlyEdits(edits)
    ensures Asked(edits + [Body(data)], keepAlive, date).status == Status(200, Some("OK"))
  {
    hide HeadersBefore;
    hide OnlyEdits;
    hide Prepared;
    hide AfterSet;
    hide WrittenOf;
    hide LastThrows;
    OpsStep(edits, Body(data));
  }

  /** The body is all the data, cut off at the length if one was announced and nothing upgrades or streams. */
  lemma AskedBody(ops: seq<Op>, n: nat, keepAlive: bool, date: bytes)
    requires !OnlyEdits(ops) && n <= 0xFFFF_FFFF_FFFF_FFFF
    ensures var m, data := HeadersBefore(ops), BodyOf(ops);
      var body, length := Asked(ops, keepAlive, date).body, LastOf(m, "content-length");
      if Upgrades(m) || StreamsEvents(m) || length == [] then body == data
      else length == Decimal(n) ==> body == if n < |data| then data[..n] else data
  {
    hide HeadersBefore;
    hide OnlyEdits;
    hide Prepared;
    hide AfterSet;
    hide BodyOf;
    hide FirstStatus;
    hide LastOf;
    hide Upgrades;
    hide StreamsEvents;
    hide Decimal;
    ScanDecimal(n);
  }

  /** The head can be sent without a length, or with one that is a number; unless it waits for the body, its status
      must be known. It waits when no length is given and nothing upgrades or streams. */
  lemma HeadFitsIff(ops: seq<Op>)
    ensures var m := HeadersBefore(ops);
      var streams, length := Upgrades(m) || StreamsEvents(m), LastOf(m, "content-length");
      HeadFits(ops) <==>
        if streams then FirstStatus(ops).phrase.Some?
        else length != [] ==> Stoul(length).Some? && FirstStatus(ops).phrase.Some?
  {
    hide HeadersBefore;
    hide FirstStatus;
    hide Upgrades;
    hide StreamsEvents;
    hide LastOf;
    hide Stoul;
  }

  /** Nothing of a response that waits has gone out before the flush, and of any other all that was written. */
  lemma EarlyIs(ops: seq<Op>, keepAlive: bool, date: bytes)
    requires !OnlyEdits(ops) && HeadFits(ops)
    ensures var m := HeadersBefore(ops);
      Early(ops, keepAlive, date) ==
        if !Upgrades(m) && !StreamsEvents(m) && LastOf(m, "content-length") == [] then [] else RenderKnown(Asked(ops, keepAlive, date))
  {
    hide HeadersBefore;
    hide HeadFits;
    hide OnlyEdits;
    hide Upgrades;
    hide StreamsEvents;
    hide LastOf;
    hide Asked;
    hide RenderKnown;
  }

  // ---------------------------------------------------------------- whole texts

  lemma Before(a: bytes, b: bytes, i: nat)
    requires i < |a| && i < |b| && a[..i] == b[..i] && a[i] < b[i]
    ensures Less(a, b) && !Less(b, a) && a != b
  {
    assert FirstDifference(a, b, i) by {
      assert forall j :: 0 <= j < i ==> a[j] == a[..i][j] && b[j] == b[..i][j];
    }
    LessIff(a, b);
    LessIff(b, a);
  }

  lemma NameOrder()
    ensures Less("connection", "date") && Less("connection", "server") && Less("date", "server")
    ensures Less("cache-control", "connection") && Less("cache-control", "date") && Less("cache-control", "server")
    ensures Less("cache-control", "content-length") && Less("connection", "content-length")
    ensures Less("content-length", "date") && Less("content-length", "server")
  {
    hide Less;
    Before("connection", "date", 0);
    Before("connection", "server", 0);
    Before("date", "server", 0);
    Before("cache-control", "connection", 1);
    Before("cache-control", "content-length", 1);
    assert "connection"[..3] == "con" == "content-length"[..3];
    Before("connection", "content-length", 3);
    Before("content-length", "date", 0);
    LessTransitive("cache-control", "connection", "date");
    LessTransitive("cache-control", "connection", "server");
    LessTransitive("content-length", "date", "server");
  }

  lemma DefaultBetween(a: Entries, b: Entries, key: bytes, value: bytes)
    requires Normalized(key) == key != []
    requires forall i :: 0 <= i < |a| ==> Less(a[i].0, key)
    requires forall i :: 0 <= i < |b| ==> Less(key, b[i].0)
    ensures WithDefault(a + b, key, value) == a + [(key, [value])] + b
  {
    hide Less;
    hide Normalized;
    hide Put;
    PutBetween(a, b, key, [value]);
  }

  /** The headers of a plain answer, in the order in which they are printed. */
  ghost function PlainHeaders(keepAlive: bool, length: bytes, date: bytes): Entries {
    [("cache-control", ["no-cache"]), ("connection", [if keepAlive then "keep-alive" else "close"]),
     ("content-length", [length]), ("date", [date]), ("server", ["maddsua/l3"])]
  }

  /** The first three of them that are filled in. */
  lemma PlainThree(token: bytes, date: bytes)
    ensures WithDefault(WithDefault(WithDefault([], "connection", token), "date", date), "server", "maddsua/l3")
         == [("connection", [token]), ("date", [date]), ("server", ["maddsua/l3"])]
  {
    hide Less;
    hide WithDefault;
    HeaderNamesAreNormal();
    hide Normalized;
    NameOrder();
    var b: (bytes, seq<bytes>) := ("connection", [token]);
    var c: (bytes, seq<bytes>) := ("date", [date]);
    var d: (bytes, seq<bytes>) := ("server", ["maddsua/l3"]);
    DefaultBetween([], [], "connection", token);
    assert WithDefault([], "connection", token) == [b] by { Between([], b, []); }
    DefaultBetween([b], [], "date", date);
    assert WithDefault([b], "date", date) == [b, c] by { Between([b], c, []); }
    DefaultBetween([b, c], [], "server", "maddsua/l3");
    assert WithDefault([b, c], "server", "maddsua/l3") == [b, c, d] by { Between([b, c], d, []); }
  }

  lemma PlainEntries(keepAlive: bool, date: bytes, length: bytes)
    ensures AfterSet(Prepared([], keepAlive, date), CONTENT_LENGTH, length) == PlainHeaders(keepAlive, length, date)
  {
    hide Less;
    hide WithDefault;
    hide WithoutLength;
    hide Put;
    HeaderNamesAreNormal();
    hide Normalized;
    NameOrder();
    NothingAnnounced();
    var token := if keepAlive then "keep-alive" else "close";
    PlainThree(token, date);
    var a: (bytes, seq<bytes>) := ("cache-control", ["no-cache"]);
    var b: (bytes, seq<bytes>) := ("connection", [token]);
    var c: (bytes, seq<bytes>) := ("date", [date]);
    var d: (bytes, seq<bytes>) := ("server", ["maddsua/l3"]);
    DefaultBetween([], [b, c, d], "cache-control", "no-cache");
    assert WithDefault([b, c, d], "cache-control", "no-cache") == [a, b] + [c, d] by { Between([], a, [b, c, d]); }
    PutBetween([a, b], [c, d], "content-length", [length]);
  }

  lemma Between(a: Entries, e: (bytes, seq<bytes>), b: Entries)
    ensures a + b == if a == [] then b else if b == [] then a else a + b
    ensures a + [e] + b == if a == [] then [e] + b else if b == [] then a + [e] else a + [e] + b
  {
  }

  ghost function Line(name: bytes, value: bytes): bytes {
    name + ": " + value + "\r\n"
  }

  ghost function PlainText(keepAlive: bool, length: bytes, date: bytes): bytes {
    Line("cache-control", "no-cache") + (Line("connection", if keepAlive then "keep-alive" else "close")
      + (Line("content-length", length) + (Line("date", date) + (Line("server", "maddsua/l3") + "\r\n"))))
  }

  /** The answer to a status and one body. */
  lemma PlainAnswer(status: Status, body: bytes, keepAlive: bool, date: bytes)
    requires status.phrase.Some?
    ensures Asked([Head(status), Body(body)], keepAlive, date)
         == Response(status, PlainHeaders(keepAlive, Decimal(|body|), date), body)
  {
    hide Prepared;
    hide AfterSet;
    hide Decimal;
    hide FirstStatus;
    hide BodyOf;
    hide HeadersBefore;
    hide Upgrades;
    hide StreamsEvents;
    hide LastOf;
    hide OnlyEdits;
    hide PlainHeaders;
    NothingDrafted();
    AnswerDrafted([], status, body);
    assert [] + [Head(status)] + [Body(body)] == [Head(status), Body(body)];
    NothingAnnouncedYet();
    PlainEntries(keepAlive, date, Decimal(|body|));
  }

  ghost function StatusStart(code: nat, phrase: bytes): bytes {
    "HTTP/1.1 " + Decimal(code) + " " + phrase + "\r\n"
  }

  /** Its text, to the byte. */
  lemma PlainRendered(status: Status, body: bytes, keepAlive: bool, date: bytes)
    requires status.phrase.Some?
    ensures Render(Response(status, PlainHeaders(keepAlive, Decimal(|body|), date), body))
         == StatusStart(status.code, status.phrase.value) + PlainText(keepAlive, Decimal(|body|), date) + body
  {
    hide Decimal;
    hide HeaderBlock;
    hide Flat;
    hide PlainHeaders;
    hide PlainText;
    hide StatusLine;
    hide StatusStart;
    FiveLines(keepAlive, Decimal(|body|), date);
    StatusStarts(status);
    var start, block := StatusLine(status), HeaderBlock(Flat(PlainHeaders(keepAlive, Decimal(|body|), date)));
    assert start + block + CRLF == start + (block + CRLF);
  }

  lemma StatusStarts(status: Status)
    requires status.phrase.Some?
    ensures StatusLine(status) == StatusStart(status.code, status.phrase.value)
  {
    hide Decimal;
  }

  lemma NothingAnnounced()
    ensures WithoutLength([]) == []
  {
    hide Contains;
    NothingContained();
  }

  lemma NothingAnnouncedYet()
    ensures !Streaming([]) && LastOf([], CONTENT_LENGTH) == []
  {
    hide Contains;
    NothingContained();
  }

  lemma FiveLines(keepAlive: bool, length: bytes, date: bytes)
    ensures HeaderBlock(Flat(PlainHeaders(keepAlive, length, date))) + CRLF == PlainText(keepAlive, length, date)
  {
    hide HeaderBlock;
    hide Flat;
    hide Line;
    var token := if keepAlive then "keep-alive" else "close";
    var a: (bytes, seq<bytes>) := ("cache-control", ["no-cache"]);
    var b: (bytes, seq<bytes>) := ("connection", [token]);
    var c: (bytes, seq<bytes>) := ("content-length", [length]);
    var d: (bytes, seq<bytes>) := ("date", [date]);
    var e: (bytes, seq<bytes>) := ("server", ["maddsua/l3"]);
    FlatFirst(a, [b, c, d, e]);
    FlatFirst(b, [c, d, e]);
    FlatFirst(c, [d, e]);
    FlatFirst(d, [e]);
    FlatFirst(e, []);
    FlatNothing();
    assert [a] + [b, c, d, e] == [a, b, c, d, e];
    assert [b] + [c, d, e] == [b, c, d, e];
    assert [c] + [d, e] == [c, d, e];
    assert [d] + [e] == [d, e];
    assert [e] + [] == [e];
  }

  lemma FlatNothing()
    ensures HeaderBlock(Flat([])) + CRLF == CRLF
  {
  }

  lemma FlatFirst(e: (bytes, seq<bytes>), rest: Entries)
    requires |e.1| == 1
    ensures HeaderBlock(Flat([e] + rest)) + CRLF == Line(e.0, e.1[0]) + (HeaderBlock(Flat(rest)) + CRLF)
  {
    var p := (e.0, e.1[0]);
    assert PairsOf(e.0, e.1) == [p];
    assert ([e] + rest)[1..] == rest;
    assert Flat([e] + rest) == [p] + Flat(rest);
    assert ([p] + Flat(rest))[1..] == Flat(rest);
  }
}
