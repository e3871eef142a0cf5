/**
 * The wire format: RFC 6455 frames (section 5.2) carrying Webson's two-byte stream head.
 * `Encode` is what `assemble` writes, `DecodeOne` what one turn of the loop in `Start` reads.
 */
module Frames {
  import opened Wrappers
  import opened Bytes
  import opened Masking

  /** A frame as the two ends see it. Of a stream frame the payload excludes the stream head. */
  datatype Frame = Frame(
    op: byte, fin: bool, compressed: bool, stream: bool, sid: nat, cancel: bool, payload: seq<byte>)

  /** What the receiving side's handshake and configuration say. */
  datatype Peer = Peer(
    streamable: bool, compressable: bool, fromClient: bool,
    extra: Option<seq<byte>>, bufferSize: int, maxPayload: int)

  predicate IsControl(op: byte)
  {
    op >= 8
  }

  const STREAM_BYTES: nat := 2
  const MAX_STREAMS_IN_THEORY: nat := 32768

  // ---------------------------------------------------------------- encoding

  /** The cancel bit and the stream id, in the first two payload bytes. */
  function StreamHead(sid: nat, cancel: bool): (h: seq<byte>)
    ensures |h| == 2
  {
    var h := BigEndian(sid, 2);
    if cancel then [h[0] | 0x80, h[1]] else h
  }

  function Body(f: Frame): (b: seq<byte>)
  {
    if f.stream then StreamHead(f.sid, f.cancel) + f.payload else f.payload
  }

  function Meta0(f: Frame): byte
  {
    f.op | (if f.fin || IsControl(f.op) then 0x80 else 0)
    | (if f.compressed then 0x40 else 0) | (if f.stream then 0x20 else 0)
  }

  function SizeCode(n: nat): (c: nat)
    ensures c < 128
  {
    if n >= 65536 then 127 else if n > 125 then 126 else n
  }

  function Meta1(n: nat, masked: bool): byte
  {
    (SizeCode(n) as byte) | (if masked then 0x80 else 0)
  }

  function ExtSize(n: nat): (s: seq<byte>)
  {
    if n >= 65536 then BigEndian(n, 8) else if n > 125 then BigEndian(n, 2) else []
  }

  /** The frame bytes; `key` is the 4-byte mask of this frame, absent when the sender does not mask. */
  function Encode(f: Frame, key: Option<seq<byte>>, extra: Option<seq<byte>>): (s: seq<byte>)
    requires key.Some? ==> |key.value| == 4
    requires PrivateMaskOk(extra)
  {
    var body := Body(f);
    [Meta0(f), Meta1(|body|, key.Some?)] + ExtSize(|body|) +
    match key
    case None => body
    case Some(k) => k + Masked(body, ExpandKey(extra, k))
  }

  // ---------------------------------------------------------------- decoding

  datatype Meta = Meta(op: byte, fin: bool, compressed: bool, stream: bool, masked: bool, size: nat)

  datatype MetaResult = Parsed(meta: Meta) | Rejected(code: nat)

  const PROTOCOL_ERROR: nat := 1002
  const MESSAGE_TOO_BIG: nat := 1009

  /** The fields packed in the two meta bytes. */
  datatype Flags = Flags(op: byte, fin: bool, rsv1: bool, rsv2: bool, rsv3: bool, masked: bool, size: nat)

  function ReadFlags(b0: byte, b1: byte): (g: Flags)
  {
    Flags(b0 & 0x0F, b0 & 0x80 != 0, b0 & 0x40 != 0, b0 & 0x20 != 0, b0 & 0x10 != 0,
          b1 & 0x80 != 0, (b1 & 0x7F) as nat)
  }

  /** `parseMeta`, with its tests in their order. */
  function ParseMeta(b0: byte, b1: byte, peer: Peer): (r: MetaResult)
  {
    var g := ReadFlags(b0, b1);
    if IsControl(g.op) && !g.fin then Rejected(PROTOCOL_ERROR)
    else if IsControl(g.op) && g.size > 125 then Rejected(MESSAGE_TOO_BIG)
    else if g.op == 0 && g.fin then Rejected(PROTOCOL_ERROR)
    else if g.rsv1 && !peer.compressable then Rejected(PROTOCOL_ERROR)
    else if g.rsv2 && !peer.streamable then Rejected(PROTOCOL_ERROR)
    else if g.rsv3 then Rejected(PROTOCOL_ERROR)
    else if peer.fromClient && !g.masked then Rejected(PROTOCOL_ERROR)
    else if g.rsv2 && g.size < STREAM_BYTES then Rejected(PROTOCOL_ERROR)
    else Parsed(Meta(g.op, g.fin, g.rsv1, g.rsv2, g.masked, g.size))
  }

  lemma {:induction false} LowBits(b: byte)
    ensures (b & 0x0F) as nat == b as nat % 16 && (b & 0x7F) as nat == b as nat % 128
  {
  }

  lemma {:induction false} HighBits(b: byte)
    ensures (b & 0x80 != 0 <==> b as nat >= 128) && (b & 0x40 != 0 <==> b as nat / 64 % 2 == 1)
    ensures (b & 0x20 != 0 <==> b as nat / 32 % 2 == 1) && (b & 0x10 != 0 <==> b as nat / 16 % 2 == 1)
  {
  }

  /** The fields in figures, of any two bytes. */
  lemma {:induction false} FlagsInFigures(b0: byte, b1: byte)
    ensures var g := ReadFlags(b0, b1);
            && g.op as nat == b0 as nat % 16 && (g.fin <==> b0 as nat >= 128)
            && (g.rsv1 <==> b0 as nat / 64 % 2 == 1) && (g.rsv2 <==> b0 as nat / 32 % 2 == 1)
            && (g.rsv3 <==> b0 as nat / 16 % 2 == 1)
            && (g.masked <==> b1 as nat >= 128) && g.size == b1 as nat % 128
  {
    LowBits(b0);
    LowBits(b1);
    HighBits(b0);
    HighBits(b1);
  }

  /**
   * Which headers are refused, whoever sent them, and with which close code: an oversized control frame is "message
   * too big", every other fault is a protocol error, and a header without fault is taken as it stands.
   */
  lemma {:induction false} WhatParseMetaRefuses(b0: byte, b1: byte, peer: Peer)
    ensures var op, code, r := b0 as nat % 16, b1 as nat % 128, ParseMeta(b0, b1, peer);
            var fin, rsv1, rsv2, rsv3 := b0 as nat >= 128, b0 as nat / 64 % 2 == 1, b0 as nat / 32 % 2 == 1,
                                         b0 as nat / 16 % 2 == 1;
            && (r.Parsed? <==>
                  && (op >= 8 ==> fin && code <= 125)
                  && (op == 0 ==> !fin)
                  && (rsv1 ==> peer.compressable) && (rsv2 ==> peer.streamable && code >= 2) && !rsv3
                  && (peer.fromClient ==> b1 as nat >= 128))
            && (r.Parsed? ==> r.meta.op as nat == op
                              && r.meta == Meta(r.meta.op, fin, rsv1, rsv2, b1 as nat >= 128, code))
            && (r.Rejected? ==> r.code == if op >= 8 && fin && code > 125 then 1009 else 1002)
  {
    FlagsInFigures(b0, b1);
    var b := ReadFlags(b0, b1).op;
    assert b as nat >= 8 <==> b >= 8;
    hide ReadFlags;
  }

  datatype Stop =
    | NoMeta                 // the two meta bytes did not come in one read
    | Malformed(code: nat)   // parseMeta refused them
    | NoSize                 // the extended size did not come in one read
    | NoKey                  // the mask key did not come in one read
    | TooLarge               // over MaxPayloadSize
    | NoBody                 // payload over the read buffer, or the stream ended inside it
    | NoStreamId             // a stream frame with id 0
    | Broken                 // a one-byte body in a stream frame: see OpenBody

  datatype Outcome = Got(frame: Frame, used: nat) | Halt(why: Stop)

  /** bufio never uses a buffer of fewer than 16 bytes. */
  function PeekLimit(peer: Peer): (n: nat)
    ensures n >= 16
  {
    if peer.bufferSize < 16 then 16 else peer.bufferSize
  }

  function Unmasked(body: seq<byte>, key: Option<seq<byte>>, extra: Option<seq<byte>>): (b: seq<byte>)
    requires key.Some? ==> |key.value| == 4
    requires PrivateMaskOk(extra)
    ensures |b| == |body|
  {
    match key
    case None => body
    case Some(k) => Masked(body, ExpandKey(extra, k))
  }

  /**
   * From the unmasked body to the frame: the stream head is taken off and checked. Of a one-byte body the code reads
   * the id across its end, from whatever the read buffer holds there: it refuses the frame if that makes id 0, and
   * otherwise panics slicing the head off. `Broken` stands for both; no frame comes out either way.
   */
  function OpenBody(m: Meta, body: seq<byte>, used: nat): (o: Outcome)
    ensures o.Got? ==> o.used == used
  {
    if !m.stream then Got(Frame(m.op, m.fin, m.compressed, false, 0, false, body), used)
    else if |body| < STREAM_BYTES then Halt(Broken)
    else
      var sid := FromBigEndian([body[0] & 0x7F, body[1]]);
      if sid == 0 then Halt(NoStreamId)
      else Got(Frame(m.op, m.fin, m.compressed, true, sid, body[0] & 0x80 != 0, body[2..]), used)
  }

  /**
   * The part of the loop after the sizes and the mask key are known. Without a body there is no stream head: the
   * frame then counts for key 0, whatever its stream bit says.
   */
  function TakeBody(s: seq<byte>, m: Meta, size: int, bodyAt: nat, key: Option<seq<byte>>, peer: Peer): (o: Outcome)
    requires bodyAt <= |s|
    requires key.Some? ==> |key.value| == 4
    requires PrivateMaskOk(peer.extra)
    ensures o.Got? ==> bodyAt <= o.used <= |s|
  {
    if size <= 0 then
      Got(Frame(m.op, m.fin, m.compressed, false, 0, false, []), bodyAt)
    else if peer.maxPayload != 0 && size > peer.maxPayload then Halt(TooLarge)
    else if size > PeekLimit(peer) || |s| < bodyAt + size then Halt(NoBody)
    else OpenBody(m, Unmasked(s[bodyAt..bodyAt + size], key, peer.extra), bodyAt + size)
  }

  function ExtLen(code: nat): (n: nat)
  {
    if code == 126 then 2 else if code == 127 then 8 else 0
  }

  function FullSize(m: Meta, s: seq<byte>): (size: int)
    requires |s| >= 2 + ExtLen(m.size)
  {
    if m.size == 126 then FromBigEndian(s[2..4])
    else if m.size == 127 then AsInt64(FromBigEndian(s[2..10]))
    else m.size
  }

  /** The loop from the parsed meta bytes on: extended size, mask key, body. */
  function DecodeRest(s: seq<byte>, m: Meta, off: nat, peer: Peer, full: nat -> bool): (o: Outcome)
    requires PrivateMaskOk(peer.extra) && |s| >= 2
    ensures o.Got? ==> 2 <= o.used <= |s|
  {
    var keyAt := 2 + ExtLen(m.size);
    if keyAt > 2 && (|s| < keyAt || !full(off + 2)) then Halt(NoSize)
    else if m.masked && (|s| < keyAt + 4 || !full(off + keyAt)) then Halt(NoKey)
    else if m.masked then TakeBody(s, m, FullSize(m, s), keyAt + 4, Some(s[keyAt..keyAt + 4]), peer)
    else TakeBody(s, m, FullSize(m, s), keyAt, None, peer)
  }

  /**
   * One frame off the front of `s`, the bytes that will still arrive. A read of header bytes may come back
   * short: `full(p)` says whether the read that starts at byte p of the connection returns all it was asked for.
   */
  function DecodeOne(s: seq<byte>, off: nat, peer: Peer, full: nat -> bool): (o: Outcome)
    requires PrivateMaskOk(peer.extra)
    ensures o.Got? ==> 2 <= o.used <= |s|
  {
    if |s| < 2 || !full(off) then Halt(NoMeta)
    else
      match ParseMeta(s[0], s[1], peer)
      case Rejected(code) => Halt(Malformed(code))
      case Parsed(m) => DecodeRest(s, m, off, peer, full)
  }

  /** Every frame that comes out before the loop stops. */
  function DecodeAll(s: seq<byte>, off: nat, peer: Peer, full: nat -> bool): (fs: seq<Frame>)
    requires PrivateMaskOk(peer.extra)
    decreases |s|
  {
    match DecodeOne(s, off, peer, full)
    case Halt(_) => []
    case Got(f, used) => [f] + DecodeAll(s[used..], off + used, peer, full)
  }

  // ---------------------------------------------------------------- what senders send, what receivers take

  /** What `assemble` can be asked for: a type of four bits, ids the allocator can hand out (0 when it failed). */
  predicate Sendable(f: Frame)
  {
    && f.op < 16
    && (IsControl(f.op) ==> f.fin)
    && (if f.stream then f.sid <= MAX_STREAMS_IN_THEORY else f.sid == 0 && !f.cancel)
    && |f.payload| + STREAM_BYTES < INT64_LIMIT
  }

  /** MaxPayloadSize and the read buffer, neither of which an empty body meets. */
  predicate WithinLimits(n: nat, peer: Peer)
  {
    n > 0 ==> (peer.maxPayload == 0 || n <= peer.maxPayload) && n <= PeekLimit(peer)
  }

  /** The header tests of `parseMeta`, in terms of the frame that was sent. */
  predicate MetaAcceptable(f: Frame, masked: bool, peer: Peer)
  {
    && (IsControl(f.op) ==> |Body(f)| <= 125)
    && (f.op == 0 ==> !f.fin)
    && (f.compressed ==> peer.compressable)
    && (f.stream ==> peer.streamable)
    && (peer.fromClient ==> masked)
  }

  /** Exactly when the receiver hands the frame on. */
  predicate Acceptable(f: Frame, masked: bool, peer: Peer)
  {
    && MetaAcceptable(f, masked, peer)
    && (f.stream ==> 1 <= f.sid < MAX_STREAMS_IN_THEORY)
    && WithinLimits(|Body(f)|, peer)
  }

  // ---------------------------------------------------------------- one frame

  /** The meta bytes of a frame, read back. */
  function OwnMeta(f: Frame, masked: bool): (m: Meta)
  {
    Meta(f.op, f.fin, f.compressed, f.stream, masked, SizeCode(|Body(f)|))
  }

  lemma {:induction false} FlagBits(op: byte, fin: bool, rsv1: bool, rsv2: bool)
    requires op < 16
    ensures var b := op | (if fin then 0x80 else 0) | (if rsv1 then 0x40 else 0) | (if rsv2 then 0x20 else 0);
            && b & 0x0F == op && (b & 0x80 != 0 <==> fin) && (b & 0x40 != 0 <==> rsv1)
            && (b & 0x20 != 0 <==> rsv2) && b & 0x10 == 0
  {
  }

  lemma {:induction false} SizeBits(b: byte, c: byte, masked: bool)
    requires c < 128 && b == c | (if masked then 0x80 else 0)
    ensures b & 0x7F == c && (b & 0x80 != 0 <==> masked)
  {
  }

  lemma {:induction false} SizeFlags(n: nat, masked: bool)
    ensures (Meta1(n, masked) & 0x7F) as nat == SizeCode(n)
    ensures Meta1(n, masked) & 0x80 != 0 <==> masked
  {
    hide SizeCode;
    ByteRoundTrip(SizeCode(n));
    SizeBits(Meta1(n, masked), SizeCode(n) as byte, masked);
  }

  lemma {:induction false} OwnFlags(f: Frame, n: nat, masked: bool)
    requires f.op < 16
    ensures ReadFlags(Meta0(f), Meta1(n, masked))
         == Flags(f.op, f.fin || IsControl(f.op), f.compressed, f.stream, false, masked, SizeCode(n))
  {
    hide Meta1, SizeCode;
    FlagBits(f.op, f.fin || IsControl(f.op), f.compressed, f.stream);
    SizeFlags(n, masked);
  }

  lemma {:induction false} MetaRoundTrip(f: Frame, masked: bool, peer: Peer)
    requires Sendable(f)
    ensures var r := ParseMeta(Meta0(f), Meta1(|Body(f)|, masked), peer);
            && (r.Parsed? <==> MetaAcceptable(f, masked, peer))
            && (r.Parsed? ==> r.meta == OwnMeta(f, masked))
  {
    hide ReadFlags, Meta0, Meta1, StreamHead;
    OwnFlags(f, |Body(f)|, masked);
  }

  lemma {:induction false} CodedLength(n: nat)
    ensures ExtLen(SizeCode(n)) == |ExtSize(n)|
  {
  }

  lemma {:induction false} SizeRoundTrip(n: nat, m: Meta, s: seq<byte>)
    requires n < INT64_LIMIT && m.size == SizeCode(n)
    requires |s| >= 2 + |ExtSize(n)| && s[2..2 + |ExtSize(n)|] == ExtSize(n)
    ensures ExtLen(m.size) == |ExtSize(n)| && FullSize(m, s) == n
  {
    hide BigEndian, FromBigEndian, AsInt64;
    CodedLength(n);
    if n >= 65536 {
      EightByteValue(n);
    } else if n > 125 {
      TwoByteValue(n);
    }
  }

  lemma {:induction false} TwoBytes(n: nat)
    requires n < 65536
    ensures BigEndian(n, 2) == [(n / 256) as byte, (n % 256) as byte]
  {
    assert BigEndian(n / 256, 1) == BigEndian(n / 256 / 256, 0) + [(n / 256 % 256) as byte];
  }

  lemma {:induction false} HighBit(h: nat)
    requires h <= 128
    ensures var b := h as byte;
            && ((b | 0x80) & 0x7F == b & 0x7F && (b | 0x80) & 0x80 != 0)
            && (h < 128 ==> b & 0x7F == b && b & 0x80 == 0)
            && (h == 128 ==> b & 0x7F == 0)
  {
  }

  /** Clearing the top bit of the stream head leaves the id, except that 32768 has only that bit. */
  lemma {:induction false} HeadValue(sid: nat, cancel: bool)
    requires sid <= MAX_STREAMS_IN_THEORY
    ensures var h := StreamHead(sid, cancel);
            && FromBigEndian([h[0] & 0x7F, h[1]]) == (if sid < MAX_STREAMS_IN_THEORY then sid else 0)
            && (sid < MAX_STREAMS_IN_THEORY ==> (h[0] & 0x80 != 0 <==> cancel))
  {
    var h, plain := StreamHead(sid, cancel), BigEndian(sid, 2);
    TwoBytes(sid);
    HighBit(sid / 256);
    if sid < MAX_STREAMS_IN_THEORY {
      assert [h[0] & 0x7F, h[1]] == plain;
      TwoByteValue(sid);
    } else {
      TwoBytes(0);
      assert [h[0] & 0x7F, h[1]] == BigEndian(0, 2);
      TwoByteValue(0);
    }
  }

  /** The stream head survives exactly for ids 1..32767; the id 32768 that `setup` admits reads as id 0. */
  lemma {:induction false} StreamHeadRoundTrip(m: Meta, sid: nat, cancel: bool, payload: seq<byte>, used: nat)
    requires m.stream && sid <= MAX_STREAMS_IN_THEORY
    ensures OpenBody(m, StreamHead(sid, cancel) + payload, used)
         == if 1 <= sid < MAX_STREAMS_IN_THEORY
            then Got(Frame(m.op, m.fin, m.compressed, true, sid, cancel, payload), used)
            else Halt(NoStreamId)
  {
    HeadValue(sid, cancel);
    var body := StreamHead(sid, cancel) + payload;
    assert body[2..] == payload;
  }

  lemma {:induction false} UnmaskRoundTrip(body: seq<byte>, key: Option<seq<byte>>, extra: Option<seq<byte>>)
    requires key.Some? ==> |key.value| == 4
    requires PrivateMaskOk(extra)
    ensures Unmasked(Unmasked(body, key, extra), key, extra) == body
  {
    if key.Some? {
      MaskIsInvolution(body, ExpandKey(extra, key.value));
    }
  }

  lemma {:induction false} OpenOwnBody(f: Frame, masked: bool, used: nat)
    requires Sendable(f)
    ensures OpenBody(OwnMeta(f, masked), Body(f), used)
         == if f.stream && (f.sid == 0 || f.sid == MAX_STREAMS_IN_THEORY) then Halt(NoStreamId) else Got(f, used)
  {
    if f.stream {
      hide StreamHead, SizeCode;
      StreamHeadRoundTrip(OwnMeta(f, masked), f.sid, f.cancel, f.payload, used);
    }
  }

  lemma {:induction false} EncodeParts(f: Frame, key: Option<seq<byte>>, extra: Option<seq<byte>>)
    requires key.Some? ==> |key.value| == 4
    requires PrivateMaskOk(extra)
    ensures Encode(f, key, extra)
         == [Meta0(f), Meta1(|Body(f)|, key.Some?)] + ExtSize(|Body(f)|) + (if key.Some? then key.value else [])
            + Unmasked(Body(f), key, extra)
  {
    hide ExtSize, Meta0, Meta1, Body;
  }

  // ---------------------------------------------------------------- one frame, in a possibly cut stream

  /** The reads of this frame's header all come back full. */
  predicate HeaderReadsFull(f: Frame, masked: bool, off: nat, full: nat -> bool)
  {
    var ext := |ExtSize(|Body(f)|)|;
    full(off) && (ext > 0 ==> full(off + 2)) && (masked ==> full(off + (2 + ext)))
  }

  /** With the header read, the outcome depends only on the limits, on the body having arrived, and on the id. */
  lemma {:induction false} TakeOwnBody(f: Frame, key: Option<seq<byte>>, peer: Peer, s: seq<byte>, h: nat)
    requires Sendable(f) && PrivateMaskOk(peer.extra)
    requires key.Some? ==> |key.value| == 4
    requires h <= |s|
    requires h + |Body(f)| <= |s| ==> s[h..h + |Body(f)|] == Unmasked(Body(f), key, peer.extra)
    ensures var o := TakeBody(s, OwnMeta(f, key.Some?), |Body(f)|, h, key, peer);
            && (o.Got? <==> && WithinLimits(|Body(f)|, peer) && h + |Body(f)| <= |s|
                            && (f.stream ==> 1 <= f.sid < MAX_STREAMS_IN_THEORY))
            && (o.Got? ==> o == Got(f, h + |Body(f)|))
  {
    hide StreamHead, Unmasked, OpenBody, SizeCode, PrivateMaskOk, PeekLimit;
    UnmaskRoundTrip(Body(f), key, peer.extra);
    OpenOwnBody(f, key.Some?, h + |Body(f)|);
  }

  function BodyAt(f: Frame, masked: bool): (n: nat)
  {
    2 + |ExtSize(|Body(f)|)| + (if masked then 4 else 0)
  }

  /** `s` holds what has arrived of this frame: each part, once complete, is the part that was sent. */
  ghost predicate Carries(s: seq<byte>, f: Frame, key: Option<seq<byte>>, extra: Option<seq<byte>>)
    requires key.Some? ==> |key.value| == 4
    requires PrivateMaskOk(extra)
  {
    var keyAt, bodyAt, end := BodyAt(f, false), BodyAt(f, key.Some?), BodyAt(f, key.Some?) + |Body(f)|;
    && (keyAt <= |s| ==> s[2..keyAt] == ExtSize(|Body(f)|))
    && (key.Some? && bodyAt <= |s| ==> s[keyAt..bodyAt] == key.value)
    && (end <= |s| ==> s[bodyAt..end] == Unmasked(Body(f), key, extra))
  }

  /** The same from the parsed meta bytes on. */
  lemma {:induction false} DecodeOwnRest(f: Frame, key: Option<seq<byte>>, peer: Peer, s: seq<byte>, off: nat,
                                         full: nat -> bool)
    requires Sendable(f) && PrivateMaskOk(peer.extra)
    requires key.Some? ==> |key.value| == 4
    requires |s| >= 2 && full(off) && Carries(s, f, key, peer.extra)
    ensures var o, size := DecodeRest(s, OwnMeta(f, key.Some?), off, peer, full), BodyAt(f, key.Some?) + |Body(f)|;
            && (o.Got? <==> && WithinLimits(|Body(f)|, peer) && size <= |s|
                            && (f.stream ==> 1 <= f.sid < MAX_STREAMS_IN_THEORY)
                            && HeaderReadsFull(f, key.Some?, off, full))
            && (o.Got? ==> o == Got(f, size))
  {
    assert |Body(f)| < INT64_LIMIT;
    hide Body, Unmasked, TakeBody, ExtSize, ExtLen, FullSize, PrivateMaskOk, Sendable, WithinLimits;
    var n := |Body(f)|;
    CodedLength(n);
    if BodyAt(f, false) <= |s| {
      SizeRoundTrip(n, OwnMeta(f, key.Some?), s);
      if BodyAt(f, key.Some?) <= |s| {
        TakeOwnBody(f, key, peer, s, BodyAt(f, key.Some?));
      }
    }
  }

  lemma {:induction false} PrefixParts<T>(s: seq<T>, a: seq<T>, b: seq<T>, c: seq<T>, d: seq<T>, tail: seq<T>)
    requires s <= a + b + c + d + tail
    ensures var i, j, k := |a| + |b|, |a| + |b| + |c|, |a| + |b| + |c| + |d|;
            && (i <= |s| ==> s[|a|..i] == b)
            && (j <= |s| ==> s[i..j] == c)
            && (k <= |s| ==> s[j..k] == d)
  {
    var w := a + b + c + d + tail;
    assert s == w[..|s|];
    assert w[|a|..|a| + |b|] == b && w[|a| + |b|..|a| + |b| + |c|] == c;
    assert w[|a| + |b| + |c|..|a| + |b| + |c| + |d|] == d;
  }

  /**
   * The first frame of any part of the wire: decoded exactly when it is acceptable, has arrived whole and its
   * header reads were full, and then it is the frame that was sent.
   */
  lemma {:induction false} DecodeOwn(f: Frame, key: Option<seq<byte>>, peer: Peer, s: seq<byte>, tail: seq<byte>,
                  off: nat, full: nat -> bool)
    requires Sendable(f) && PrivateMaskOk(peer.extra)
    requires key.Some? ==> |key.value| == 4
    requires s <= Encode(f, key, peer.extra) + tail
    ensures var o := DecodeOne(s, off, peer, full);
            && (o.Got? <==> && Acceptable(f, key.Some?, peer) && |Encode(f, key, peer.extra)| <= |s|
                            && HeaderReadsFull(f, key.Some?, off, full))
            && (o.Got? ==> o == Got(f, |Encode(f, key, peer.extra)|))
  {
    hide Meta0, Meta1, ExtSize, Body, ParseMeta, DecodeRest, PrivateMaskOk;
    var b0, b1 := Meta0(f), Meta1(|Body(f)|, key.Some?);
    var k := if key.Some? then key.value else [];
    assert Encode(f, key, peer.extra)
        == [b0, b1] + ExtSize(|Body(f)|) + k + Unmasked(Body(f), key, peer.extra);
    MetaRoundTrip(f, key.Some?, peer);
    PrefixParts(s, [b0, b1], ExtSize(|Body(f)|), k, Unmasked(Body(f), key, peer.extra), tail);
    if |s| >= 2 && full(off) {
      assert s[0] == b0 && s[1] == b1;
      DecodeOwnRest(f, key, peer, s, off, full);
    }
  }
}
