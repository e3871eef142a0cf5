/**
 * The wire format in the terms of section 5.2 of RFC 6455, in plain arithmetic on byte values and for any sender:
 * where each byte of a frame stands, and what a connection makes of it.
 */
module Rfc6455 {
  import opened Wrappers
  import opened Bytes
  import opened Masking
  import opened Frames

  /** How the payload length is written: in 7 bits, in 7+16 bits, or in 7+64 bits. */
  datatype Form = Short | Medium | Long

  /** The byte of this value. */
  function AsByte(n: nat): (b: byte)
    requires n < 256
  {
    n as byte
  }

  /** A frame as any sender may lay it out; `body` is the payload data before masking. */
  datatype Raw = Raw(
    fin: bool, rsv1: bool, rsv2: bool, rsv3: bool, op: nat, key: Option<seq<byte>>, form: Form, body: seq<byte>)

  predicate Fits(n: nat, form: Form)
  {
    match form
    case Short => n <= 125
    case Medium => n <= 65535
    case Long => n <= 0xFFFF_FFFF_FFFF_FFFF
  }

  predicate RawOk(r: Raw)
  {
    r.op < 16 && (r.key.Some? ==> |r.key.value| == 4) && Fits(|r.body|, r.form)
  }

  function FirstByte(r: Raw): (b: nat)
    requires r.op < 16
    ensures b < 256
  {
    r.op + (if r.fin then 128 else 0) + (if r.rsv1 then 64 else 0) + (if r.rsv2 then 32 else 0)
    + (if r.rsv3 then 16 else 0)
  }

  function LengthCode(n: nat, form: Form): (c: nat)
    requires Fits(n, form)
    ensures c < 128
  {
    match form
    case Short => n
    case Medium => 126
    case Long => 127
  }

  /** The byte of n that stands for so many. */
  function ByteOf(n: nat, weight: nat): (b: byte)
    requires weight > 0
  {
    AsByte(n / weight % 256)
  }

  /** The extended payload length, most significant byte first. */
  function Extended(n: nat, form: Form): (s: seq<byte>)
  {
    match form
    case Short => []
    case Medium => [ByteOf(n, 256), ByteOf(n, 1)]
    case Long =>
      [ByteOf(n, 0x100_0000_0000_0000), ByteOf(n, 0x1_0000_0000_0000), ByteOf(n, 0x100_0000_0000),
       ByteOf(n, 0x1_0000_0000), ByteOf(n, 0x100_0000), ByteOf(n, 0x1_0000), ByteOf(n, 0x100), ByteOf(n, 1)]
  }

  /** Byte by byte: the key repeats every four bytes, and the private mask, if the two ends share one, as it is long. */
  function MaskedData(body: seq<byte>, key: Option<seq<byte>>, extra: Option<seq<byte>>): (s: seq<byte>)
    requires key.Some? ==> |key.value| == 4
    requires PrivateMaskOk(extra)
    ensures |s| == |body|
  {
    match (key, extra)
    case (None, _) => body
    case (Some(k), None) => seq(|body|, i requires 0 <= i < |body| => body[i] ^ k[i % 4])
    case (Some(k), Some(e)) => seq(|body|, i requires 0 <= i < |body| => (body[i] ^ e[i % |e|]) ^ k[i % 4])
  }

  function Layout(r: Raw, extra: Option<seq<byte>>): (s: seq<byte>)
    requires RawOk(r) && PrivateMaskOk(extra)
  {
    [AsByte(FirstByte(r)), AsByte(LengthCode(|r.body|, r.form) + (if r.key.Some? then 128 else 0))]
    + Extended(|r.body|, r.form)
    + (if r.key.Some? then r.key.value else [])
    + MaskedData(r.body, r.key, extra)
  }

  lemma {:induction false} MaskedDataIs(body: seq<byte>, key: Option<seq<byte>>, extra: Option<seq<byte>>)
    requires key.Some? ==> |key.value| == 4
    requires PrivateMaskOk(extra)
    ensures Unmasked(body, key, extra) == MaskedData(body, key, extra)
  {
    if key.Some? {
      forall i | 0 <= i < |body|
        ensures Masked(body, ExpandKey(extra, key.value))[i] == MaskedData(body, key, extra)[i]
      {
        MaskedAt(body, extra, key.value, i);
      }
    }
  }

  lemma {:induction false} Pow256Figures()
    ensures Pow256(0) == 1 && Pow256(1) == 0x100 && Pow256(2) == 0x1_0000 && Pow256(3) == 0x100_0000
    ensures Pow256(4) == 0x1_0000_0000 && Pow256(5) == 0x100_0000_0000 && Pow256(6) == 0x1_0000_0000_0000
    ensures Pow256(7) == 0x100_0000_0000_0000
  {
    assert Pow256(2) == 256 * Pow256(1);
    assert Pow256(3) == 256 * Pow256(2);
    assert Pow256(4) == 256 * Pow256(3);
    assert Pow256(5) == 256 * Pow256(4);
    assert Pow256(6) == 256 * Pow256(5);
    assert Pow256(7) == 256 * Pow256(6);
  }

  lemma {:induction false} ByteOfEight(n: nat, k: nat, weight: nat)
    requires k < 8 && weight == Pow256(k)
    ensures BigEndian(n, 8)[7 - k] == ByteOf(n, weight)
  {
    BigEndianAt(n, 8, k);
    ByteRoundTrip(n / weight % 256);
  }

  lemma {:induction false} EightBytes(n: nat)
    ensures BigEndian(n, 8) == Extended(n, Long)
  {
    hide BigEndian, Pow256, ByteOf;
    Pow256Figures();
    ByteOfEight(n, 7, 0x100_0000_0000_0000);
    ByteOfEight(n, 6, 0x1_0000_0000_0000);
    ByteOfEight(n, 5, 0x100_0000_0000);
    ByteOfEight(n, 4, 0x1_0000_0000);
    ByteOfEight(n, 3, 0x100_0000);
    ByteOfEight(n, 2, 0x1_0000);
    ByteOfEight(n, 1, 0x100);
    ByteOfEight(n, 0, 1);
  }

  lemma {:induction false} TwoByteForm(n: nat)
    ensures BigEndian(n, 2) == Extended(n, Medium)
  {
    assert BigEndian(n / 256, 1) == BigEndian(n / 256 / 256, 0) + [(n / 256 % 256) as byte];
  }

  // ---------------------------------------------------------------- what Webson sends

  /** The stream head: the cancel bit is worth 128 in the first byte, which id 32768 has set already. */
  function Head(sid: nat, cancel: bool): (h: seq<byte>)
    requires sid <= 32768
  {
    [AsByte(if sid == 32768 then 128 else sid / 256 + (if cancel then 128 else 0)), AsByte(sid % 256)]
  }

  /** How a frame is sent: behind its stream head, in the shortest form, and never with the third reserved bit. */
  function AsSent(f: Frame, key: Option<seq<byte>>): (r: Raw)
    requires Sendable(f) && (key.Some? ==> |key.value| == 4)
    ensures RawOk(r)
  {
    var body := (if f.stream then Head(f.sid, f.cancel) else []) + f.payload;
    var form := if |body| <= 125 then Short else if |body| <= 65535 then Medium else Long;
    Raw(f.fin, f.compressed, f.stream, false, f.op as nat, key, form, body)
  }

  /** Adding the top bit. */
  lemma {:induction false} TopBit(b: byte)
    ensures b as nat < 128 ==> (b | 0x80) as nat == b as nat + 128
    ensures b as nat == 128 ==> (b | 0x80) as nat == 128
  {
  }

  lemma {:induction false} SameByte(a: byte, n: nat)
    requires n < 256 && a as nat == n
    ensures a == AsByte(n)
  {
    ByteRoundTrip(n);
  }

  lemma {:induction false} WithTopBit(h: nat)
    requires h <= 128
    ensures AsByte(h) | 0x80 == AsByte(if h == 128 then 128 else h + 128)
  {
    ByteRoundTrip(h);
    TopBit(h as byte);
    SameByte((h as byte) | 0x80, if h == 128 then 128 else h + 128);
  }

  lemma {:induction false} HeadIs(sid: nat, cancel: bool)
    requires sid <= 32768
    ensures StreamHead(sid, cancel) == Head(sid, cancel)
  {
    hide BigEndian;
    TwoBytes(sid);
    WithTopBit(sid / 256);
  }

  lemma {:induction false} Meta0InFigures(f: Frame)
    requires f.op < 16 && (IsControl(f.op) ==> f.fin)
    ensures Meta0(f) as nat == f.op as nat + (if f.fin then 128 else 0) + (if f.compressed then 64 else 0)
                               + (if f.stream then 32 else 0)
  {
  }

  lemma {:induction false} FirstByteIs(f: Frame, key: Option<seq<byte>>)
    requires Sendable(f) && (key.Some? ==> |key.value| == 4)
    ensures Meta0(f) == AsByte(FirstByte(AsSent(f, key)))
  {
    Meta0InFigures(f);
    SameByte(Meta0(f), FirstByte(AsSent(f, key)));
  }

  lemma {:induction false} OrNothing(b: byte)
    ensures b | 0 == b
  {
  }

  lemma {:induction false} CodeWithMask(c: nat, masked: bool)
    requires c < 128
    ensures (c as byte) | (if masked then 0x80 else 0) == AsByte(c + if masked then 128 else 0)
  {
    WithTopBit(c);
    OrNothing(c as byte);
  }

  lemma {:induction false} LengthIs(n: nat, masked: bool)
    requires n < INT64_LIMIT
    ensures var form := if n <= 125 then Short else if n <= 65535 then Medium else Long;
            && Fits(n, form)
            && Meta1(n, masked) == AsByte(LengthCode(n, form) + (if masked then 128 else 0))
            && ExtSize(n) == Extended(n, form)
  {
    hide BigEndian, ByteOf;
    TwoByteForm(n);
    EightBytes(n);
    var form := if n <= 125 then Short else if n <= 65535 then Medium else Long;
    assert SizeCode(n) == LengthCode(n, form);
    hide SizeCode, LengthCode;
    CodeWithMask(SizeCode(n), masked);
  }

  /** What `assemble` puts on the wire, byte by byte. */
  lemma {:induction false} EncodeIsLayout(f: Frame, key: Option<seq<byte>>, extra: Option<seq<byte>>)
    requires Sendable(f) && (key.Some? ==> |key.value| == 4) && PrivateMaskOk(extra)
    ensures Encode(f, key, extra) == Layout(AsSent(f, key), extra)
  {
    hide StreamHead, Meta0, Meta1, ExtSize, Extended, MaskedData, Head, Encode, Unmasked, LengthCode, PrivateMaskOk;
    hide FirstByte, AsByte;
    EncodeParts(f, key, extra);
    FirstByteIs(f, key);
    var r := AsSent(f, key);
    assert r.body == Body(f) && r.key == key by {
      if f.stream {
        HeadIs(f.sid, f.cancel);
      }
    }
    LengthIs(|r.body|, key.Some?);
    MaskedDataIs(r.body, key, extra);
    assert r.form == if |r.body| <= 125 then Short else if |r.body| <= 65535 then Medium else Long;
    hide AsSent, Body;
  }

  // ---------------------------------------------------------------- what a connection makes of any sender's frames

  predicate Oversized(r: Raw)
  {
    r.op >= 8 && r.fin && r.form != Short
  }

  /** The other faults of a header. */
  predicate Faulty(r: Raw, peer: Peer)
  {
    || (r.op >= 8 && !r.fin) || (r.op == 0 && r.fin)
    || (r.rsv1 && !peer.compressable) || (r.rsv2 && !peer.streamable) || r.rsv3
    || (peer.fromClient && r.key.None?) || (r.rsv2 && r.form == Short && |r.body| < 2)
  }

  function BareFrame(r: Raw, body: seq<byte>): (f: Frame)
    requires r.op < 16
  {
    Frame(AsByte(r.op), r.fin, r.rsv1, false, 0, false, body)
  }

  /** From the body on: the cancel bit is the top bit of the first byte, the id the other fifteen. */
  function Opened(r: Raw, used: nat): (o: Outcome)
    requires r.op < 16
  {
    if !r.rsv2 then Got(BareFrame(r, r.body), used)
    else if |r.body| < 2 then Halt(Broken)
    else
      var sid := r.body[0] as nat % 128 * 256 + r.body[1] as nat;
      if sid == 0 then Halt(NoStreamId)
      else Got(Frame(AsByte(r.op), r.fin, r.rsv1, true, sid, r.body[0] as nat >= 128, r.body[2..]), used)
  }

  function KeyAt(form: Form): (n: nat)
  {
    match form
    case Short => 2
    case Medium => 4
    case Long => 10
  }

  /**
   * What becomes of a frame of which `have` bytes arrive, at place `off` of the connection. A length of 2^63 or more
   * is negative as an int64 and counts as none.
   */
  function Taken(r: Raw, have: nat, off: nat, peer: Peer, full: nat -> bool): (o: Outcome)
    requires RawOk(r)
  {
    var n, keyAt := |r.body|, KeyAt(r.form);
    var bodyAt := keyAt + if r.key.Some? then 4 else 0;
    if have < 2 || !full(off) then Halt(NoMeta)
    else if Oversized(r) then Halt(Malformed(1009))
    else if Faulty(r, peer) then Halt(Malformed(1002))
    else if r.form != Short && (have < keyAt || !full(off + 2)) then Halt(NoSize)
    else if r.key.Some? && (have < bodyAt || !full(off + keyAt)) then Halt(NoKey)
    else if n == 0 || n >= 0x8000_0000_0000_0000 then Got(BareFrame(r, []), bodyAt)
    else if peer.maxPayload != 0 && n > peer.maxPayload then Halt(TooLarge)
    else if (n > peer.bufferSize && n > 16) || have < bodyAt + n then Halt(NoBody)
    else Opened(r, bodyAt + n)
  }

  function MetaOf(r: Raw): (m: Meta)
    requires RawOk(r)
  {
    Meta(AsByte(r.op), r.fin, r.rsv1, r.rsv2, r.key.Some?, LengthCode(|r.body|, r.form))
  }

  lemma {:induction false} ByteValue(n: nat)
    requires n < 256
    ensures AsByte(n) as nat == n
  {
    ByteRoundTrip(n);
  }

  /** The first byte taken apart again. */
  lemma {:induction false} FirstByteParts(r: Raw)
    requires r.op < 16
    ensures var b := FirstByte(r);
            && b % 16 == r.op && (b >= 128 <==> r.fin) && (b / 64 % 2 == 1 <==> r.rsv1)
            && (b / 32 % 2 == 1 <==> r.rsv2) && (b / 16 % 2 == 1 <==> r.rsv3)
  {
  }

  lemma {:induction false} SecondByteParts(r: Raw)
    requires RawOk(r)
    ensures var c, b := LengthCode(|r.body|, r.form), LengthCode(|r.body|, r.form) + if r.key.Some? then 128 else 0;
            && b < 256 && b % 128 == c && (b >= 128 <==> r.key.Some?)
            && (c <= 125 <==> r.form == Short) && (c < 2 <==> r.form == Short && |r.body| < 2)
  {
  }

  lemma {:induction false} HeaderVerdict(r: Raw, b0: byte, b1: byte, peer: Peer)
    requires RawOk(r)
    requires b0 as nat % 16 == r.op && (b0 as nat >= 128 <==> r.fin) && (b0 as nat / 64 % 2 == 1 <==> r.rsv1)
    requires (b0 as nat / 32 % 2 == 1 <==> r.rsv2) && (b0 as nat / 16 % 2 == 1 <==> r.rsv3)
    requires b1 as nat % 128 == LengthCode(|r.body|, r.form) && (b1 as nat >= 128 <==> r.key.Some?)
    ensures ParseMeta(b0, b1, peer)
         == if Oversized(r) then Rejected(1009) else if Faulty(r, peer) then Rejected(1002) else Parsed(MetaOf(r))
  {
    SecondByteParts(r);
    hide AsByte, ParseMeta, LengthCode;
    WhatParseMetaRefuses(b0, b1, peer);
    var m := ParseMeta(b0, b1, peer);
    if m.Parsed? {
      SameByte(m.meta.op, r.op);
    }
  }

  lemma {:induction false} HeaderTaken(r: Raw, peer: Peer)
    requires RawOk(r)
    ensures var code := LengthCode(|r.body|, r.form) + if r.key.Some? then 128 else 0;
            ParseMeta(AsByte(FirstByte(r)), AsByte(code), peer)
            == if Oversized(r) then Rejected(1009) else if Faulty(r, peer) then Rejected(1002) else Parsed(MetaOf(r))
  {
    hide AsByte, ParseMeta, FirstByte, LengthCode, Oversized, Faulty, MetaOf;
    var code := LengthCode(|r.body|, r.form) + if r.key.Some? then 128 else 0;
    ByteValue(FirstByte(r));
    ByteValue(code);
    FirstByteParts(r);
    SecondByteParts(r);
    HeaderVerdict(r, AsByte(FirstByte(r)), AsByte(code), peer);
  }

  lemma {:induction false} ExtendedLength(n: nat, form: Form)
    ensures |Extended(n, form)| == KeyAt(form) - 2
  {
  }

  lemma {:induction false} ExtendedValue(n: nat, form: Form)
    requires Fits(n, form) && form != Short
    ensures FromBigEndian(Extended(n, form)) == n
  {
    hide BigEndian, FromBigEndian, Pow256;
    Pow256Values();
    if form == Medium {
      TwoByteForm(n);
      TwoByteValue(n);
    } else {
      EightBytes(n);
      BigEndianRoundTrip(n, 8);
      SmallMod(n, Pow256(8));
    }
  }

  lemma {:induction false} SizeTaken(r: Raw, s: seq<byte>)
    requires RawOk(r) && |s| >= KeyAt(r.form) && s[2..KeyAt(r.form)] == Extended(|r.body|, r.form)
    ensures 2 + ExtLen(MetaOf(r).size) == KeyAt(r.form)
    ensures FullSize(MetaOf(r), s) == if r.form == Long then AsInt64(|r.body|) else |r.body|
  {
    hide FromBigEndian, Extended, AsByte;
    if r.form != Short {
      ExtendedValue(|r.body|, r.form);
    }
  }

  lemma {:induction false} TwoByteId(a: byte, b: byte)
    ensures FromBigEndian([a & 0x7F, b]) == a as nat % 128 * 256 + b as nat
  {
    LowBits(a);
    assert [a & 0x7F, b][..1] == [a & 0x7F] && [a & 0x7F][..0] == [];
    assert FromBigEndian([a & 0x7F]) == FromBigEndian([]) * 256 + (a & 0x7F) as nat;
  }

  lemma {:induction false} HeadOpened(m: Meta, a: byte, b: byte, rest: seq<byte>, used: nat)
    requires m.stream
    ensures var sid := a as nat % 128 * 256 + b as nat;
            OpenBody(m, [a, b] + rest, used)
            == if sid == 0 then Halt(NoStreamId)
               else Got(Frame(m.op, m.fin, m.compressed, true, sid, a as nat >= 128, rest), used)
  {
    hide FromBigEndian;
    TwoByteId(a, b);
    HighBits(a);
    assert ([a, b] + rest)[2..] == rest;
  }

  lemma {:induction false} BodyOpened(r: Raw, used: nat)
    requires RawOk(r)
    ensures OpenBody(MetaOf(r), r.body, used) == Opened(r, used)
  {
    if r.rsv2 && |r.body| >= 2 {
      HeadOpened(MetaOf(r), r.body[0], r.body[1], r.body[2..], used);
      assert r.body == [r.body[0], r.body[1]] + r.body[2..];
      hide OpenBody;
    }
    hide LengthCode, AsByte;
  }

  lemma {:induction false} BodyTaken(r: Raw, peer: Peer, s: seq<byte>, bodyAt: nat)
    requires RawOk(r) && PrivateMaskOk(peer.extra) && bodyAt <= |s|
    requires bodyAt + |r.body| <= |s| ==>
               s[bodyAt..bodyAt + |r.body|] == MaskedData(r.body, r.key, peer.extra)
    ensures var n := |r.body|;
            TakeBody(s, MetaOf(r), if r.form == Long then AsInt64(n) else n, bodyAt, r.key, peer)
            == if n == 0 || n >= 0x8000_0000_0000_0000 then Got(BareFrame(r, []), bodyAt)
               else if peer.maxPayload != 0 && n > peer.maxPayload then Halt(TooLarge)
               else if (n > peer.bufferSize && n > 16) || |s| < bodyAt + n then Halt(NoBody)
               else Opened(r, bodyAt + n)
  {
    hide OpenBody, Opened, Unmasked, MaskedData, AsByte;
    MaskedDataIs(r.body, r.key, peer.extra);
    UnmaskRoundTrip(r.body, r.key, peer.extra);
    BodyOpened(r, bodyAt + |r.body|);
  }

  lemma {:induction false} RestTaken(r: Raw, peer: Peer, s: seq<byte>, off: nat, full: nat -> bool)
    requires RawOk(r) && PrivateMaskOk(peer.extra) && !Oversized(r) && !Faulty(r, peer)
    requires var keyAt := KeyAt(r.form);
             var bodyAt := keyAt + if r.key.Some? then 4 else 0;
             && |s| >= 2 && full(off)
             && (keyAt <= |s| ==> s[2..keyAt] == Extended(|r.body|, r.form))
             && (r.key.Some? && bodyAt <= |s| ==> s[keyAt..bodyAt] == r.key.value)
             && (bodyAt + |r.body| <= |s| ==>
                   s[bodyAt..bodyAt + |r.body|] == MaskedData(r.body, r.key, peer.extra))
    ensures DecodeRest(s, MetaOf(r), off, peer, full) == Taken(r, |s|, off, peer, full)
  {
    hide TakeBody, FullSize, Extended, MaskedData, AsByte, Opened, Oversized, Faulty, PrivateMaskOk;
    var keyAt := KeyAt(r.form);
    var bodyAt := keyAt + if r.key.Some? then 4 else 0;
    assert 2 + ExtLen(MetaOf(r).size) == keyAt;
    if keyAt <= |s| {
      SizeTaken(r, s);
      if bodyAt <= |s| {
        BodyTaken(r, peer, s, bodyAt);
      }
    }
  }

  /**
   * Any frame of any sender, in any of the length forms, masked or not, cut off anywhere and with any header reads
   * short: exactly what becomes of it.
   */
  lemma {:induction false} AnyFrameTaken(r: Raw, peer: Peer, s: seq<byte>, tail: seq<byte>, off: nat,
                                         full: nat -> bool)
    requires RawOk(r) && PrivateMaskOk(peer.extra) && s <= Layout(r, peer.extra) + tail
    ensures DecodeOne(s, off, peer, full) == Taken(r, |s|, off, peer, full)
  {
    hide AsByte, FirstByte, LengthCode, Extended, MaskedData, ParseMeta, DecodeRest, PrivateMaskOk, MetaOf, BareFrame;
    hide Opened, Oversized, Faulty;
    var code := LengthCode(|r.body|, r.form) + if r.key.Some? then 128 else 0;
    var key := if r.key.Some? then r.key.value else [];
    var ext := Extended(|r.body|, r.form);
    ExtendedLength(|r.body|, r.form);
    HeaderTaken(r, peer);
    PrefixParts(s, [AsByte(FirstByte(r)), AsByte(code)], ext, key, MaskedData(r.body, r.key, peer.extra), tail);
    if |s| >= 2 && full(off) {
      assert s[0] == AsByte(FirstByte(r)) && s[1] == AsByte(code);
      if !Oversized(r) && !Faulty(r, peer) {
        RestTaken(r, peer, s, off, full);
      }
    }
  }

  // ---------------------------------------------------------------- the examples of section 5.7

  function Text(payload: seq<byte>): (f: Frame)
  {
    Frame(1, true, false, false, 0, false, payload)
  }

  const HELLO: seq<byte> := [0x48, 0x65, 0x6c, 0x6c, 0x6f]

  lemma {:induction false} HelloMasked()
    ensures Masked(HELLO, [0x37, 0xfa, 0x21, 0x3d]) == [0x7f, 0x9f, 0x4d, 0x51, 0x58]
  {
    var m := Masked(HELLO, [0x37, 0xfa, 0x21, 0x3d]);
    assert m[0] == 0x48 ^ 0x37 && m[1] == 0x65 ^ 0xfa && m[2] == 0x6c ^ 0x21 && m[3] == 0x6c ^ 0x3d;
    assert m[4] == 0x6f ^ 0x37;
  }

  /** "Hello", unmasked and masked, and as a ping. */
  lemma {:induction false} HelloExamples()
    ensures Encode(Text(HELLO), None, None) == [0x81, 0x05, 0x48, 0x65, 0x6c, 0x6c, 0x6f]
    ensures Encode(Text(HELLO), Some([0x37, 0xfa, 0x21, 0x3d]), None)
         == [0x81, 0x85, 0x37, 0xfa, 0x21, 0x3d, 0x7f, 0x9f, 0x4d, 0x51, 0x58]
    ensures Encode(Text(HELLO).(op := 9), None, None) == [0x89, 0x05, 0x48, 0x65, 0x6c, 0x6c, 0x6f]
  {
    HelloMasked();
    assert Meta1(5, false) == 0x05 && Meta1(5, true) == 0x85;
    hide Masked, Meta1;
  }

  lemma {:induction false} SizesInBytes()
    ensures BigEndian(256, 2) == [0x01, 0x00]
    ensures BigEndian(65536, 8) == [0x00, 0x00, 0x00, 0x00, 0x00, 0x01, 0x00, 0x00]
  {
    TwoByteForm(256);
    EightBytes(65536);
    hide BigEndian;
  }

  /** 256 and 65536 bytes of binary data. */
  lemma {:induction false} SizeExamples(data: seq<byte>)
    ensures |data| == 256 ==> Encode(Text(data).(op := 2), None, None) == [0x82, 0x7e, 0x01, 0x00] + data
    ensures |data| == 65536 ==>
              Encode(Text(data).(op := 2), None, None)
              == [0x82, 0x7f, 0x00, 0x00, 0x00, 0x00, 0x00, 0x01, 0x00, 0x00] + data
  {
    SizesInBytes();
    hide BigEndian;
  }
}
