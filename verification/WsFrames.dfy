/** WebSocket frames as bytes (RFC 6455 section 5.2): the printer, the header parser and the
    reference decoder that a whole-buffer reader would be.

    Where the C++ code has no defined behaviour the model answers `Undefined`: a nonzero byte
    of a 64-bit length is shifted, as an `int`, by 32 bits or more. */
module WsFrames {
  import opened Bytes

  datatype Opcode = Continuation | Text | Binary | Close | Ping | Pong

  datatype Frame = Frame(final: bool, code: Opcode, data: bytes)

  type Mask = m: bytes | |m| == 4 witness "mask"

  datatype Multipart = Multipart(code: Opcode, mask: Option<Mask>)

  datatype FrameError = SocketClosed | TransportClosed | InvalidFrameBit | InvalidOpcode | Clogged | Undefined

  datatype Header = Header(final: bool, code: Opcode, nextSeek: nat, payloadLen: nat, mask: Option<Mask>)

  datatype Parsed = Incomplete | Invalid(error: FrameError) | Parsed(header: Header)

  datatype Length = Missing | Overshifted | Length(value: nat, seek: nat)

  function CodeOf(op: Opcode): nat {
    match op
    case Continuation => 0
    case Text => 1
    case Binary => 2
    case Close => 8
    case Ping => 9
    case Pong => 10
  }

  function OpcodeOf(code: nat): Option<Opcode> {
    match code
    case 0 => Some(Continuation)
    case 1 => Some(Text)
    case 2 => Some(Binary)
    case 8 => Some(Close)
    case 9 => Some(Ping)
    case 10 => Some(Pong)
    case _ => None
  }

  // ---------------------------------------------------------------- payload lengths

  /** The weights of the eight bytes of a big-endian 64-bit number. */
  const WEIGHTS: seq<nat> := [
    0x100_0000_0000_0000, 0x1_0000_0000_0000, 0x100_0000_0000, 0x1_0000_0000,
    0x100_0000, 0x1_0000, 0x100, 1]

  function LengthByte(size: nat, idx: nat): byte
    requires idx < 8
  {
    (size / WEIGHTS[idx] % 256) as char
  }

  function LongLength(size: nat): (r: bytes)
    ensures |r| == 8
  {
    seq(8, i requires 0 <= i < 8 => LengthByte(size, i))
  }

  /** The seven-bit length and the extra length bytes of a payload of `size` bytes. */
  function PackedLength(size: nat): (r: bytes)
    ensures r != [] && r[0] as int < 128
    ensures |r| == if size < 126 then 1 else if size < 65535 then 3 else 9
  {
    if size < 126 then [size as char]
    else if size < 65535 then [126 as char, (size / 256) as char, (size % 256) as char]
    else [127 as char] + LongLength(size)
  }

  method PackPaylen(size: nat) returns (buff: bytes)
    requires size <= SIZE_MAX
    ensures buff == PackedLength(size)
  {
    if size < 126 {
      return [(size % 128) as char];
    }
    if size < 65535 {
      return [126 as char, (size / 256 % 256) as char, (size % 256) as char];
    }
    buff := [127 as char];
    for idx := 0 to 8
      invariant buff == [127 as char] + LongLength(size)[..idx]
    {
      buff := buff + [(size / WEIGHTS[idx] % 256) as char];
    }
  }

  /** What `b << (7 - idx) * 8` adds to a 64-bit number: the byte is an `int` when it is
      shifted, so the sign bit spreads over the upper half and a shift of 32 or more is only
      harmless for a zero byte. */
  function ShiftedByte(b: byte, idx: nat): Option<nat>
    requires idx < 8
  {
    if idx < 4 then (if b as int == 0 then Some(0) else None)
    else if idx == 4 && b as int >= 128 then Some(b as int * WEIGHTS[4] + 0xFFFF_FFFF_0000_0000)
    else Some(b as int * WEIGHTS[idx])
  }

  /** The sum of the shifted bytes from `idx` on; they never overlap, so `|=` adds. */
  function LongValue(b: bytes, idx: nat): Option<nat>
    requires idx <= 8 == |b|
    decreases 8 - idx
  {
    if idx == 8 then Some(0)
    else match (ShiftedByte(b[idx], idx), LongValue(b, idx + 1))
      case (Some(x), Some(y)) => Some(x + y)
      case _ => None
  }

  lemma LongValueBound(b: bytes)
    requires |b| == 8 && LongValue(b, 0).Some?
    ensures LongValue(b, 0).value <= SIZE_MAX
  {
    UpperHalf(b);
    assert LongValue(b, 7) == Some(b[7] as int);
    assert LongValue(b, 6) == Some(b[6] as int * 0x100 + b[7] as int);
    assert LongValue(b, 5) == Some(b[5] as int * 0x1_0000 + b[6] as int * 0x100 + b[7] as int);
    assert LongValue(b, 4).Some? && LongValue(b, 4).value <= SIZE_MAX;
  }

  /** `unpack_paylen` on the bytes of a frame. */
  function LengthIn(buff: bytes): (r: Length)
    requires |buff| >= 2
    ensures r.Length? ==> 2 <= r.seek <= 10 && r.seek <= |buff| && r.value <= SIZE_MAX
  {
    var low := buff[1] as int % 128;
    if low == 126 then
      if |buff| < 4 then Missing
      else Length(buff[2] as int * 256 + buff[3] as int, 4)
    else if low == 127 then
      if |buff| < 10 then Missing
      else match LongValue(buff[2..10], 0)
        case None => Overshifted
        case Some(n) => LongValueBound(buff[2..10]); Length(n, 10)
    else Length(low, 2)
  }

  method UnpackPaylen(buff: bytes, seek: nat) returns (r: Length)
    requires seek == 2
    ensures |buff| >= 2 ==> r == LengthIn(buff)
    ensures |buff| < 2 ==> r == Missing
  {
    if |buff| < seek {
      return Missing;
    }
    var low := buff[seek - 1] as int % 128;
    if low == 126 {
      if |buff| < seek + 2 {
        return Missing;
      }
      var len: nat := 0;
      for idx := 0 to 2
        invariant len == if idx == 0 then 0 else if idx == 1 then buff[2] as int * 256 else buff[2] as int * 256 + buff[3] as int
      {
        len := len + buff[seek + idx] as int * WEIGHTS[6 + idx];
      }
      return Length(len, seek + 2);
    } else if low == 127 {
      if |buff| < seek + 8 {
        return Missing;
      }
      var b := buff[2..10];
      var len: nat := 0;
      for idx := 0 to 8
        invariant match LongValue(b, 0) { case None => LongValue(b, idx) == None
                                          case Some(n) => LongValue(b, idx).Some? && n == len + LongValue(b, idx).value }
      {
        var part := ShiftedByte(buff[seek + idx], idx);
        if part.None? {
          return Overshifted;
        }
        len := len + part.value;
      }
      return Length(len, seek + 8);
    }
    return Length(low, seek);
  }

  lemma FourBytes(n: nat)
    ensures n / 0x100_0000 % 256 * 0x100_0000 + n / 0x1_0000 % 256 * 0x1_0000 + n / 0x100 % 256 * 0x100 + n % 256
         == n % 0x1_0000_0000
  {
    var a := n / 0x100;
    var b := a / 0x100;
    var c := b / 0x100;
    assert b == n / 0x1_0000 && c == n / 0x100_0000 && c / 0x100 == n / 0x1_0000_0000;
  }

  lemma LowerHalf(size: nat)
    ensures LongValue(LongLength(size), 4)
         == Some(size % 0x1_0000_0000 + if size % 0x1_0000_0000 >= 0x8000_0000 then 0xFFFF_FFFF_0000_0000 else 0)
  {
    var b := LongLength(size);
    assert LongValue(b, 7) == Some(size % 256);
    assert LongValue(b, 6) == Some(size / 0x100 % 256 * 0x100 + size % 256);
    assert LongValue(b, 5) == Some(size / 0x1_0000 % 256 * 0x1_0000 + size / 0x100 % 256 * 0x100 + size % 256);
    FourBytes(size);
  }

  lemma UpperHalf(b: bytes)
    requires |b| == 8
    ensures LongValue(b, 4).Some? ==>
      LongValue(b, 0) == if b[0] as int == b[1] as int == b[2] as int == b[3] as int == 0 then LongValue(b, 4) else None
  {
    assert LongValue(b, 3) == if b[3] as int == 0 then LongValue(b, 4) else None;
    assert LongValue(b, 2) == if b[2] as int == 0 then LongValue(b, 3) else None;
  }

  lemma UpperBytes(size: nat)
    requires size <= SIZE_MAX
    ensures (forall i :: 0 <= i < 4 ==> LengthByte(size, i) as int == 0) <==> size < 0x1_0000_0000
  {
    var u := size / 0x1_0000_0000;
    assert LengthByte(size, 3) as int == u % 256;
    assert LengthByte(size, 2) as int == u / 0x100 % 256;
    assert LengthByte(size, 1) as int == u / 0x1_0000 % 256;
    assert LengthByte(size, 0) as int == u / 0x100_0000 % 256;
    FourBytes(u);
  }

  lemma LongValueOfPacked(size: nat)
    requires size <= SIZE_MAX
    ensures LongValue(LongLength(size), 0) == if size < 0x1_0000_0000 then LongValue(LongLength(size), 4) else None
  {
    LowerHalf(size);
    UpperBytes(size);
    UpperHalf(LongLength(size));
    if !(forall i :: 0 <= i < 4 ==> LengthByte(size, i) as int == 0) {
      var i :| 0 <= i < 4 && LengthByte(size, i) as int != 0;
      assert LongLength(size)[i] as int != 0;
    }
  }

  /** A long length is read back exactly below 2^31: from there on the sign bit of the fifth
      byte, or an over-wide shift, spoils it. */
  lemma LongLengthRoundTripIff(size: nat)
    requires size <= SIZE_MAX
    ensures LongValue(LongLength(size), 0) == Some(size) <==> size < 0x8000_0000
  {
    hide LongValue;
    hide LongLength;
    LongValueOfPacked(size);
    LowerHalf(size);
  }

  // ---------------------------------------------------------------- frame headers

  /** `parse_frame` as a function of the buffered bytes. */
  function HeaderOf(buff: bytes): (r: Parsed)
    ensures r.Parsed? ==> 2 <= r.header.nextSeek <= 14 && r.header.nextSeek <= |buff| && r.header.payloadLen <= SIZE_MAX
  {
    if |buff| < 2 then Incomplete
    else if buff[0] as int / 16 != 0 && buff[0] as int / 16 != 8 then Invalid(InvalidFrameBit)
    else match OpcodeOf(buff[0] as int % 16)
      case None => Invalid(InvalidOpcode)
      case Some(code) =>
        var final := buff[0] as int >= 128;
        match LengthIn(buff)
        case Missing => Incomplete
        case Overshifted => Invalid(Undefined)
        case Length(size, seek) =>
          if buff[1] as int < 128 then Parsed(Header(final, code, seek, size, None))
          else if |buff| < seek + 4 then Incomplete
          else Parsed(Header(final, code, seek + 4, size, Some(buff[seek..seek + 4])))
  }

  method UnpackMask(buff: bytes, seek: nat) returns (r: Option<Mask>)
    ensures r == if |buff| < seek + 4 then None else Some(buff[seek..seek + 4])
  {
    if |buff| < seek + 4 {
      return None;
    }
    var mask: bytes := "0000";
    for idx := 0 to 4
      invariant |mask| == 4 && forall j :: 0 <= j < idx ==> mask[j] == buff[seek + j]
    {
      mask := mask[idx := buff[seek + idx]];
    }
    assert mask == buff[seek..seek + 4];
    return Some(mask);
  }

  method ParseFrame(buff: bytes) returns (r: Parsed)
    ensures r == HeaderOf(buff)
  {
    var nextSeek := 2;
    if |buff| < nextSeek {
      return Incomplete;
    }
    var frameBit := buff[0] as int / 16 * 16;
    if frameBit != 0x00 && frameBit != 0x80 {
      return Invalid(InvalidFrameBit);
    }
    var code := OpcodeOf(buff[0] as int % 16);
    if code.None? {
      return Invalid(InvalidOpcode);
    }
    var hasMask := buff[1] as int / 128 == 1;
    var len := UnpackPaylen(buff, nextSeek);
    if len.Overshifted? {
      return Invalid(Undefined);
    }
    if len.Missing? {
      return Incomplete;
    }
    nextSeek := len.seek;
    var mask := None;
    if hasMask {
      mask := UnpackMask(buff, nextSeek);
      if mask.None? {
        return Incomplete;
      }
      nextSeek := nextSeek + 4;
    }
    return Parsed(Header(frameBit == 0x80, code.value, nextSeek, len.value, mask));
  }

  /** Once a header is decided, more bytes never change it. */
  lemma HeaderStable(buff: bytes, more: bytes)
    requires HeaderOf(buff) != Incomplete
    ensures HeaderOf(buff + more) == HeaderOf(buff)
  {
    var all := buff + more;
    assert all[0] == buff[0] && all[1] == buff[1];
    if |buff| >= 10 {
      assert all[2..10] == buff[2..10];
    }
    match LengthIn(buff) {
      case Length(_, seek) =>
        if |buff| >= seek + 4 {
          assert all[seek..seek + 4] == buff[seek..seek + 4];
        }
      case _ =>
    }
  }

  /** Two bytes are refused exactly when a reserved bit is set, or else for an operation code that names nothing. */
  lemma RefusedIff(buff: bytes)
    requires |buff| >= 2
    ensures HeaderOf(buff) == Invalid(InvalidFrameBit) <==> buff[0] as int / 16 % 8 != 0
    ensures HeaderOf(buff) == Invalid(InvalidOpcode) <==>
      buff[0] as int / 16 % 8 == 0 && (3 <= buff[0] as int % 16 <= 7 || 11 <= buff[0] as int % 16)
  {
    hide LengthIn;
  }

  /** Where the parts of a decided header stand (RFC 6455 section 5.2). */
  lemma HeaderFields(buff: bytes)
    requires HeaderOf(buff).Parsed?
    ensures var h := HeaderOf(buff).header;
      var code, low := buff[0] as int % 16, buff[1] as int % 128;
      var size := if low == 126 then 2 else if low == 127 then 8 else 0;
      && (h.final <==> buff[0] as int >= 128)
      && h.code == (if code == 0 then Continuation else if code == 1 then Text else if code == 2 then Binary
                    else if code == 8 then Close else if code == 9 then Ping else Pong)
      && (code <= 2 || 8 <= code <= 10)
      && h.nextSeek == 2 + size + (if buff[1] as int >= 128 then 4 else 0)
      && h.mask == (if buff[1] as int >= 128 then Some(buff[2 + size..6 + size]) else None)
      && (low < 126 ==> h.payloadLen == low)
      && (low == 126 ==> h.payloadLen == 256 * buff[2] as int + buff[3] as int)
  {
    hide LongValue;
  }

  /** Fourteen bytes always decide a header. */
  lemma HeaderDecided(buff: bytes)
    requires |buff| >= 14
    ensures HeaderOf(buff) != Incomplete
  {
  }

  // ---------------------------------------------------------------- the reference decoder

  function MaskKey(mask: Option<Mask>, i: nat): byte {
    if mask.None? then 0 as char else mask.value[i % 4]
  }

  /** RFC 6455 section 5.3: masking and unmasking are the same operation. */
  function Masked(data: bytes, mask: Option<Mask>): (r: bytes)
    ensures |r| == |data|
  {
    if mask.None? then data
    else seq(|data|, i requires 0 <= i < |data| => Xor(data[i], mask.value[i % 4]))
  }

  method Unmask(data: bytes, mask: Mask) returns (r: bytes)
    ensures r == Masked(data, Some(mask))
  {
    r := data;
    for i := 0 to |data|
      invariant |r| == |data|
      invariant forall j :: 0 <= j < |data| ==> r[j] == if j < i then Xor(data[j], mask[j % 4]) else data[j]
    {
      r := r[i := Xor(r[i], mask[i % |mask|])];
    }
    assert r == Masked(data, Some(mask));
  }

  /** The mask `next()` applies: inside a fragmented message, that of its first fragment. */
  function EffectiveMask(multi: Option<Multipart>, final: bool, own: Option<Mask>): Option<Mask> {
    if !final && multi.Some? then multi.value.mask else own
  }

  function MultipartAfter(multi: Option<Multipart>, final: bool, code: Opcode, own: Option<Mask>): Option<Multipart> {
    if final then None else if multi.None? then Some(Multipart(code, own)) else multi
  }

  datatype Step = Wait | Broken(error: FrameError) | Deliver(frame: Frame, multi: Option<Multipart>, consumed: nat)

  /** The first frame of a buffer that holds everything the peer will ever send. */
  function NextFrame(multi: Option<Multipart>, wire: bytes): (r: Step)
    ensures r.Deliver? ==> 2 <= r.consumed <= |wire|
  {
    match HeaderOf(wire)
    case Incomplete => Wait
    case Invalid(e) => Broken(e)
    case Parsed(h) =>
      var end := (h.nextSeek + h.payloadLen) % (SIZE_MAX + 1);
      if |wire| < end then Wait
      else if end < h.nextSeek then Broken(Undefined)
      else Deliver(Frame(h.final, h.code, Masked(wire[h.nextSeek..end], EffectiveMask(multi, h.final, h.mask))),
                   MultipartAfter(multi, h.final, h.code, h.mask), end)
  }

  /** Every frame of such a buffer, up to the first incomplete or broken one. */
  function Decoded(multi: Option<Multipart>, wire: bytes): seq<Frame>
    decreases |wire|
  {
    match NextFrame(multi, wire)
    case Deliver(frame, after, n) => [frame] + Decoded(after, wire[n..])
    case _ => []
  }

  // ---------------------------------------------------------------- the encoder

  /** A frame as a peer sends it, masked or not. */
  datatype Sent = Sent(frame: Frame, mask: Option<Mask>)

  function FirstByte(frame: Frame): byte {
    (CodeOf(frame.code) + if frame.final then 0x80 else 0x00) as char
  }

  function LengthBytes(size: nat, masked: bool): (r: bytes)
    ensures |r| == |PackedLength(size)|
  {
    var p := PackedLength(size);
    if masked then p[0 := (p[0] as int + 128) as char] else p
  }

  function MaskBytes(mask: Option<Mask>): bytes {
    if mask.None? then [] else mask.value
  }

  function HeadBytes(sent: Sent): bytes {
    [FirstByte(sent.frame)] + LengthBytes(|sent.frame.data|, sent.mask.Some?) + MaskBytes(sent.mask)
  }

  function Encoded(sent: Sent): bytes {
    HeadBytes(sent) + Masked(sent.frame.data, sent.mask)
  }

  lemma UnmaskedEncoding(frame: Frame)
    ensures Encoded(Sent(frame, None)) == [FirstByte(frame)] + PackedLength(|frame.data|) + frame.data
  {
  }

  function Wire(sents: seq<Sent>): bytes {
    if sents == [] then [] else Encoded(sents[0]) + Wire(sents[1..])
  }

  function Originals(sents: seq<Sent>): seq<Frame> {
    if sents == [] then [] else [sents[0].frame] + Originals(sents[1..])
  }

  /** `unpack_paylen` inverts `pack_paylen`, and moves past exactly the length bytes, for the
      sizes below 2^31 and for no other. */
  lemma PaylenRoundTripIff(size: nat, first: byte, masked: bool, rest: bytes)
    requires size <= SIZE_MAX
    ensures LengthIn([first] + LengthBytes(size, masked) + rest) == Length(size, 1 + |PackedLength(size)|)
       <==> size < 0x8000_0000
  {
    var buff := [first] + LengthBytes(size, masked) + rest;
    assert buff[1] as int % 128 == PackedLength(size)[0] as int;
    if size < 126 {
    } else if size < 65535 {
      assert buff[2] == PackedLength(size)[1] && buff[3] == PackedLength(size)[2];
    } else {
      assert buff[2..10] == LongLength(size);
      LongLengthRoundTripIff(size);
    }
  }

  /** The printed length is the minimal one of RFC 6455 section 5.2 except at 65535. */
  lemma PaylenMinimalIff(size: nat)
    ensures |PackedLength(size)| == (if size < 126 then 1 else if size < 65536 then 3 else 9) <==> size != 65535
  {
  }

  lemma HeaderOfEncoded(sent: Sent, rest: bytes)
    requires |sent.frame.data| < 0x8000_0000
    ensures HeaderOf(HeadBytes(sent) + rest)
         == Parsed(Header(sent.frame.final, sent.frame.code, |HeadBytes(sent)|, |sent.frame.data|, sent.mask))
  {
    hide PackedLength;
    var size := |sent.frame.data|;
    var buff := HeadBytes(sent) + rest;
    var seek := 1 + |PackedLength(size)|;
    assert buff == [FirstByte(sent.frame)] + LengthBytes(size, sent.mask.Some?) + (MaskBytes(sent.mask) + rest);
    PaylenRoundTripIff(size, FirstByte(sent.frame), sent.mask.Some?, MaskBytes(sent.mask) + rest);
    assert buff[0] == FirstByte(sent.frame);
    assert buff[1] == LengthBytes(size, sent.mask.Some?)[0];
    if sent.mask.Some? {
      assert buff[seek..seek + 4] == sent.mask.value;
    }
  }

  /** What arrives for a sent frame: unmasked with the mask the receiver believes in. */
  function Arrival(multi: Option<Multipart>, sent: Sent): Frame {
    sent.frame.(data := Masked(Masked(sent.frame.data, sent.mask), EffectiveMask(multi, sent.frame.final, sent.mask)))
  }

  function Arrivals(multi: Option<Multipart>, sents: seq<Sent>): seq<Frame>
    decreases |sents|
  {
    if sents == [] then []
    else
      var s := sents[0];
      var after := MultipartAfter(multi, s.frame.final, s.frame.code, s.mask);
      [Arrival(multi, s)] + Arrivals(after, sents[1..])
  }

  lemma NextFrameOfEncoded(multi: Option<Multipart>, sent: Sent, rest: bytes)
    requires |sent.frame.data| < 0x8000_0000
    ensures NextFrame(multi, Encoded(sent) + rest)
         == Deliver(Arrival(multi, sent), MultipartAfter(multi, sent.frame.final, sent.frame.code, sent.mask), |Encoded(sent)|)
  {
    hide HeaderOf;
    hide HeadBytes;
    hide Masked;
    var body := Masked(sent.frame.data, sent.mask);
    HeaderOfEncoded(sent, body + rest);
    var wire := Encoded(sent) + rest;
    var head := HeadBytes(sent);
    assert wire == head + (body + rest);
    assert |Encoded(sent)| == |head| + |sent.frame.data|;
    assert wire[|head|..|Encoded(sent)|] == body;
  }

  /** Decoding the concatenation of encoded frames yields one arrival per frame, in order. */
  lemma {:induction false} DecodedWire(multi: Option<Multipart>, sents: seq<Sent>)
    requires forall s :: s in sents ==> |s.frame.data| < 0x8000_0000
    ensures Decoded(multi, Wire(sents)) == Arrivals(multi, sents)
    decreases |sents|
  {
    if sents == [] {
    } else {
      var s := sents[0];
      NextFrameOfEncoded(multi, s, Wire(sents[1..]));
      assert Wire(sents)[|Encoded(s)|..] == Wire(sents[1..]);
      DecodedWire(MultipartAfter(multi, s.frame.final, s.frame.code, s.mask), sents[1..]);
    }
  }

  // ---------------------------------------------------------------- masks

  /** Two masks act alike on the first `size` bytes of a payload; no mask acts as zeroes. */
  ghost predicate MasksAgreeOn(a: Option<Mask>, b: Option<Mask>, size: nat) {
    forall i :: 0 <= i < 4 && i < size ==> MaskKey(a, i) == MaskKey(b, i)
  }

  /** Frames `j` to `i` are fragments of one message, none of them its last, and `j` is the first. */
  ghost predicate OpensMessageOf(sents: seq<Sent>, j: nat, i: nat)
    requires j <= i < |sents|
  {
    && (j == 0 || sents[j - 1].frame.final)
    && forall k :: j <= k <= i ==> !sents[k].frame.final
  }

  /** Every fragment but the last of a message is masked like the first one, as far as its payload reaches. */
  ghost predicate FragmentsAgree(sents: seq<Sent>) {
    forall i, j :: 0 <= j <= i < |sents| && OpensMessageOf(sents, j, i) ==>
      MasksAgreeOn(sents[j].mask, sents[i].mask, |sents[i].frame.data|)
  }

  lemma MaskedAt(data: bytes, mask: Option<Mask>, i: nat)
    requires i < |data|
    ensures Masked(data, mask)[i] == Xor(data[i], MaskKey(mask, i))
  {
    if mask.None? {
      XorNatZero(data[i] as int);
    }
  }

  lemma MaskedTwiceAt(data: bytes, a: Option<Mask>, b: Option<Mask>, i: nat)
    requires i < |data|
    ensures Masked(Masked(data, a), b)[i] == data[i] <==> MaskKey(a, i % 4) == MaskKey(b, i % 4)
  {
    MaskedAt(data, a, i);
    MaskedAt(Masked(data, a), b, i);
    XorTwiceIff(data[i], MaskKey(a, i), MaskKey(b, i));
  }

  lemma MaskedTwiceIff(data: bytes, a: Option<Mask>, b: Option<Mask>)
    ensures Masked(Masked(data, a), b) == data <==> MasksAgreeOn(a, b, |data|)
  {
    hide Masked;
    hide MaskKey;
    forall i | 0 <= i < |data|
      ensures Masked(Masked(data, a), b)[i] == data[i] <==> MaskKey(a, i % 4) == MaskKey(b, i % 4)
    {
      MaskedTwiceAt(data, a, b, i);
    }
    if MasksAgreeOn(a, b, |data|) {
      assert forall i :: 0 <= i < |data| ==> Masked(Masked(data, a), b)[i] == data[i];
    } else {
      var i :| 0 <= i < 4 && i < |data| && MaskKey(a, i) != MaskKey(b, i);
      assert i % 4 == i;
      assert Masked(Masked(data, a), b)[i] != data[i];
    }
  }

  // ---------------------------------------------------------------- one frame

  /** A final frame arrives as it was sent, whatever mask it has and whatever came before. */
  lemma FinalFrameArrives(multi: Option<Multipart>, sent: Sent, rest: bytes)
    requires sent.frame.final && |sent.frame.data| < 0x8000_0000
    ensures NextFrame(multi, Encoded(sent) + rest) == Deliver(sent.frame, None, |Encoded(sent)|)
  {
    hide Masked;
    hide Encoded;
    hide NextFrame;
    NextFrameOfEncoded(multi, sent, rest);
    MaskedTwiceIff(sent.frame.data, sent.mask, sent.mask);
  }

  /** The first fragment of a message arrives as it was sent, and its mask is kept. */
  lemma FirstFragmentArrives(sent: Sent, rest: bytes)
    requires !sent.frame.final && |sent.frame.data| < 0x8000_0000
    ensures NextFrame(None, Encoded(sent) + rest)
         == Deliver(sent.frame, Some(Multipart(sent.frame.code, sent.mask)), |Encoded(sent)|)
  {
    hide Masked;
    hide Encoded;
    hide NextFrame;
    NextFrameOfEncoded(None, sent, rest);
    MaskedTwiceIff(sent.frame.data, sent.mask, sent.mask);
  }

  /** A later fragment that is not the last leaves the kept mask alone, and arrives as it was sent exactly
      when its own key bytes are those of the kept mask, as far as its payload reaches. */
  lemma LaterFragmentArrivesIff(kept: Multipart, sent: Sent, rest: bytes)
    requires !sent.frame.final && |sent.frame.data| < 0x8000_0000
    ensures var step := NextFrame(Some(kept), Encoded(sent) + rest);
      && step.Deliver? && step.multi == Some(kept) && step.consumed == |Encoded(sent)|
      && step.frame.final == sent.frame.final && step.frame.code == sent.frame.code
      && (step.frame == sent.frame <==>
            forall i :: 0 <= i < 4 && i < |sent.frame.data| ==>
              (if sent.mask.None? then 0 as char else sent.mask.value[i])
                == (if kept.mask.None? then 0 as char else kept.mask.value[i]))
  {
    hide Masked;
    hide Encoded;
    hide NextFrame;
    NextFrameOfEncoded(Some(kept), sent, rest);
    MaskedTwiceIff(sent.frame.data, sent.mask, kept.mask);
    forall i | 0 <= i < 4
      ensures MaskKey(sent.mask, i) == if sent.mask.None? then 0 as char else sent.mask.value[i]
      ensures MaskKey(kept.mask, i) == if kept.mask.None? then 0 as char else kept.mask.value[i]
    {
    }
  }

  // ---------------------------------------------------------------- whole streams

  lemma {:induction false} OriginalsAt(sents: seq<Sent>, i: nat)
    requires i < |sents|
    ensures |Originals(sents)| == |sents| && Originals(sents)[i] == sents[i].frame
    decreases |sents|
  {
    if |sents| > 1 {
      OriginalsAt(sents[1..], if i > 0 then i - 1 else 0);
    }
  }

  lemma {:induction false} ArrivalsLength(multi: Option<Multipart>, sents: seq<Sent>)
    ensures |Arrivals(multi, sents)| == |sents|
    decreases |sents|
  {
    if sents != [] {
      var s := sents[0];
      ArrivalsLength(MultipartAfter(multi, s.frame.final, s.frame.code, s.mask), sents[1..]);
    }
  }

  lemma ArrivalsStep(multi: Option<Multipart>, sents: seq<Sent>, i: nat)
    requires 0 < i < |sents|
    ensures var s := sents[0];
      var after := if s.frame.final then None else if multi.None? then Some(Multipart(s.frame.code, s.mask)) else multi;
      && |Arrivals(multi, sents)| == |sents| && |Arrivals(after, sents[1..])| == |sents| - 1
      && Arrivals(multi, sents)[i] == Arrivals(after, sents[1..])[i - 1]
  {
    hide Arrival;
    ArrivalsLength(multi, sents);
  }

  /** Wherever it stands in a stream, a final frame arrives as it was sent. */
  lemma {:induction false} FinalAt(multi: Option<Multipart>, sents: seq<Sent>, i: nat)
    requires i < |sents| && sents[i].frame.final
    ensures |Arrivals(multi, sents)| == |sents| && Arrivals(multi, sents)[i] == sents[i].frame
    decreases i
  {
    hide Masked;
    ArrivalsLength(multi, sents);
    if i == 0 {
      MaskedTwiceIff(sents[0].frame.data, sents[0].mask, sents[0].mask);
    } else {
      var s := sents[0];
      ArrivalsStep(multi, sents, i);
      FinalAt(if s.frame.final then None else if multi.None? then Some(Multipart(s.frame.code, s.mask)) else multi,
              sents[1..], i - 1);
    }
  }

  /** Any other fragment arrives masked with its own mask and that of the first fragment of its message. */
  lemma {:induction false} FragmentAt(multi: Option<Multipart>, sents: seq<Sent>, j: nat, i: nat)
    requires j <= i < |sents| && OpensMessageOf(sents, j, i)
    ensures |Arrivals(multi, sents)| == |sents|
    ensures var first := if j == 0 && multi.Some? then multi.value.mask else sents[j].mask;
      Arrivals(multi, sents)[i] == sents[i].frame.(data := Masked(Masked(sents[i].frame.data, sents[i].mask), first))
    decreases i
  {
    hide Masked;
    ArrivalsLength(multi, sents);
    if i > 0 {
      var s, rest := sents[0], sents[1..];
      ArrivalsStep(multi, sents, i);
      var after := if s.frame.final then None else if multi.None? then Some(Multipart(s.frame.code, s.mask)) else multi;
      assert forall k :: 0 <= k < |rest| ==> rest[k] == sents[k + 1];
      FragmentAt(after, rest, if j > 0 then j - 1 else 0, i - 1);
    }
  }

  /** Every frame that is not final belongs to a message that some frame opens. */
  lemma {:induction false} Opener(sents: seq<Sent>, i: nat) returns (j: nat)
    requires i < |sents| && !sents[i].frame.final
    ensures j <= i && OpensMessageOf(sents, j, i)
    decreases i
  {
    if i == 0 || sents[i - 1].frame.final {
      j := i;
    } else {
      j := Opener(sents, i - 1);
    }
  }

  /** A stream arrives as it was sent exactly when the masks agree inside every fragmented message. */
  lemma ArrivalsFaithfulIff(sents: seq<Sent>)
    ensures Arrivals(None, sents) == Originals(sents) <==> FragmentsAgree(sents)
  {
    hide Arrivals;
    hide Originals;
    hide Masked;
    hide OpensMessageOf;
    hide MasksAgreeOn;
    ArrivalsLength(None, sents);
    OriginalsLength(sents);
    forall i | 0 <= i < |sents|
      ensures Originals(sents)[i] == sents[i].frame
      ensures sents[i].frame.final ==> Arrivals(None, sents)[i] == sents[i].frame
    {
      OriginalsAt(sents, i);
      if sents[i].frame.final {
        FinalAt(None, sents, i);
      }
    }
    forall i, j | 0 <= j <= i < |sents| && OpensMessageOf(sents, j, i)
      ensures Arrivals(None, sents)[i] == sents[i].frame <==> MasksAgreeOn(sents[j].mask, sents[i].mask, |sents[i].frame.data|)
    {
      FragmentAt(None, sents, j, i);
      MaskedTwiceIff(sents[i].frame.data, sents[i].mask, sents[j].mask);
      MasksAgreeBothWays(sents[i].mask, sents[j].mask, |sents[i].frame.data|);
    }
    if FragmentsAgree(sents) {
      forall i | 0 <= i < |sents|
        ensures Arrivals(None, sents)[i] == Originals(sents)[i]
      {
        if !sents[i].frame.final {
          var j := Opener(sents, i);
        }
      }
    }
  }

  lemma {:induction false} OriginalsLength(sents: seq<Sent>)
    ensures |Originals(sents)| == |sents|
  {
    if sents != [] {
      OriginalsLength(sents[1..]);
    }
  }

  lemma MasksAgreeBothWays(a: Option<Mask>, b: Option<Mask>, size: nat)
    ensures MasksAgreeOn(a, b, size) <==> MasksAgreeOn(b, a, size)
  {
  }

  /** A stream of frames below 2^31 bytes is decoded to the frames that were sent exactly when
      the masks agree inside every fragmented message. */
  lemma FramesRoundTripIff(sents: seq<Sent>)
    requires forall s :: s in sents ==> |s.frame.data| < 0x8000_0000
    ensures Decoded(None, Wire(sents)) == Originals(sents) <==> FragmentsAgree(sents)
  {
    DecodedWire(None, sents);
    ArrivalsFaithfulIff(sents);
  }

  /** Messages in one frame each are decoded to what was sent, each with a mask of its own or none. */
  lemma WholeMessagesArrive(sents: seq<Sent>)
    requires forall s :: s in sents ==> s.frame.final && |s.frame.data| < 0x8000_0000
    ensures Decoded(None, Wire(sents)) == Originals(sents)
  {
    FramesRoundTripIff(sents);
    WholeMessagesAgree(sents);
  }

  lemma WholeMessagesAgree(sents: seq<Sent>)
    requires forall s :: s in sents ==> s.frame.final
    ensures FragmentsAgree(sents)
  {
    assert forall i, j :: 0 <= j <= i < |sents| && OpensMessageOf(sents, j, i) ==> sents[j] in sents && !sents[j].frame.final;
  }

  /** The frames `Websocket::write` prints, which are never masked. */
  function Unmasked(frames: seq<Frame>): (r: seq<Sent>)
    ensures |r| == |frames| && forall s :: s in r ==> s.mask.None? && s.frame in frames
  {
    if frames == [] then [] else [Sent(frames[0], None)] + Unmasked(frames[1..])
  }

  lemma {:induction false} OriginalsOfUnmasked(frames: seq<Frame>)
    ensures Originals(Unmasked(frames)) == frames
  {
    if frames != [] {
      OriginalsOfUnmasked(frames[1..]);
      assert Unmasked(frames)[1..] == Unmasked(frames[1..]);
      assert [frames[0]] + frames[1..] == frames;
    }
  }

  lemma {:induction false} WireOfUnmasked(frames: seq<Frame>, last: Frame)
    ensures Wire(Unmasked(frames + [last])) == Wire(Unmasked(frames)) + Encoded(Sent(last, None))
    decreases |frames|
  {
    hide Encoded;
    if frames == [] {
      assert (frames + [last])[1..] == [];
      assert Unmasked([last])[1..] == [];
    } else {
      assert (frames + [last])[1..] == frames[1..] + [last];
      assert Unmasked(frames)[1..] == Unmasked(frames[1..]);
      assert Unmasked(frames + [last])[1..] == Unmasked(frames[1..] + [last]);
      WireOfUnmasked(frames[1..], last);
    }
  }

  /** Whatever frames below 2^31 bytes are printed, decoding their bytes gives them back. */
  lemma PrintedFramesRoundTrip(frames: seq<Frame>)
    requires forall f :: f in frames ==> |f.data| < 0x8000_0000
    ensures Decoded(None, Wire(Unmasked(frames))) == frames
  {
    assert forall s :: s in Unmasked(frames) ==> s.mask.None?;
    FramesRoundTripIff(Unmasked(frames));
    OriginalsOfUnmasked(frames);
  }
}
