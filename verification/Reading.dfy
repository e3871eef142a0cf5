/** The loop of `Start` as the program runs it: reads into small vessels, a peeked payload unmasked in place. */
module Reading {
  import opened Wrappers
  import opened Bytes
  import opened Masking
  import opened Frames
  import opened Receiver

  /** The buffered reader over the connection: what will still arrive, and which reads come back full. */
  class ByteReader {
    var rest: seq<byte>
    var off: nat
    const full: nat -> bool
    const size: nat

    constructor (incoming: seq<byte>, full: nat -> bool, size: nat)
      ensures rest == incoming && off == 0 && this.full == full && this.size == size
    {
      rest, off := incoming, 0;
      this.full, this.size := full, size;
    }

    /** What `Discard` and a successful Read do to the stream. */
    method Advance(n: nat)
      requires n <= |rest|
      modifies this
      ensures rest == old(rest)[n..] && off == old(off) + n
    {
      rest, off := rest[n..], off + n;
    }

    /** `Read(vessel)`, where anything but a nil error and a full vessel makes the caller give up. */
    method Read(vessel: array<byte>) returns (ok: bool)
      modifies this, vessel
      ensures ok <==> old(|rest|) >= vessel.Length && full(old(off))
      ensures ok ==>
                && vessel[..] == old(rest)[..vessel.Length]
                && rest == old(rest)[vessel.Length..] && off == old(off) + vessel.Length
    {
      ok := |rest| >= vessel.Length && full(off);
      if ok {
        for i := 0 to vessel.Length
          invariant unchanged(this)
          invariant forall j :: 0 <= j < i ==> vessel[j] == rest[j]
        {
          vessel[i] := rest[i];
        }
        Advance(vessel.Length);
      }
    }

    /** `Peek(n)` blocks until n bytes are there; it fails if they do not fit the buffer or never come. */
    method Peek(n: nat) returns (payload: Option<array<byte>>)
      ensures payload.Some? <==> n <= size && n <= |rest|
      ensures payload.Some? ==> fresh(payload.value) && payload.value[..] == rest[..n]
    {
      if n <= size && n <= |rest| {
        var a := new byte[n](i requires 0 <= i < n && n <= |rest| reads this => rest[i]);
        payload := Some(a);
      } else {
        payload := None;
      }
    }
  }

  /** The reader stands at byte `at` of s, the bytes from the start of the frame on. */
  ghost predicate At(r: ByteReader, s: seq<byte>, off: nat, at: nat)
    reads r
  {
    at <= |s| && r.rest == s[at..] && r.off == off + at
  }

  /** The bit fields of the two meta bytes. */
  method Unpack(raw: array<byte>) returns (g: Flags)
    requires raw.Length == 2
    ensures g == ReadFlags(raw[0], raw[1])
  {
    g := Flags(raw[0] & 0x0F, raw[0] & 0x80 != 0, raw[0] & 0x40 != 0, raw[0] & 0x20 != 0, raw[0] & 0x10 != 0,
               raw[1] & 0x80 != 0, (raw[1] & 0x7F) as nat);
  }

  /** `parseMeta` over the vessel, test by test; a failed test returns its close code. */
  method ParseHeader(raw: array<byte>, peer: Peer) returns (r: MetaResult)
    requires raw.Length == 2
    ensures r == ParseMeta(raw[0], raw[1], peer)
  {
    hide ReadFlags;
    var g := Unpack(raw);
    if IsControl(g.op) {
      if !g.fin {
        return Rejected(PROTOCOL_ERROR);
      }
      if g.size > 125 {
        return Rejected(MESSAGE_TOO_BIG);
      }
    }
    if g.op == 0 && g.fin {
      return Rejected(PROTOCOL_ERROR);
    }
    if (g.rsv1 && !peer.compressable) || (g.rsv2 && !peer.streamable) || g.rsv3 || (peer.fromClient && !g.masked) {
      return Rejected(PROTOCOL_ERROR);
    }
    r := Parsed(Meta(g.op, g.fin, g.rsv1, g.rsv2, g.masked, g.size));
    if g.rsv2 && g.size < STREAM_BYTES {
      r := Rejected(PROTOCOL_ERROR);
    }
  }

  method ReadSize(r: ByteReader, m: Meta, ghost s: seq<byte>, ghost off: nat) returns (size: Option<int>)
    requires At(r, s, off, 2)
    modifies r
    ensures size.None? <==> ExtLen(m.size) > 0 && (|s| < 2 + ExtLen(m.size) || !r.full(off + 2))
    ensures size.Some? ==> At(r, s, off, 2 + ExtLen(m.size)) && size.value == FullSize(m, s)
  {
    hide FromBigEndian, AsInt64;
    if m.size == 126 {
      var vessel2 := new byte[2](_ => 0);
      var ok := r.Read(vessel2);
      if !ok {
        return None;
      }
      assert vessel2[..] == s[2..4];
      size := Some(FromBigEndian(vessel2[..]));
    } else if m.size == 127 {
      var vessel8 := new byte[8](_ => 0);
      var ok := r.Read(vessel8);
      if !ok {
        return None;
      }
      assert vessel8[..] == s[2..10];
      size := Some(AsInt64(FromBigEndian(vessel8[..])));
    } else {
      size := Some(m.size);
    }
  }

  /** Takes the stream head off an unmasked payload, clearing the cancel bit in place. */
  method TakeHead(payload: array<byte>, m: Meta, ghost used: nat) returns (f: Option<Frame>, why: Stop)
    requires m.stream
    modifies payload
    ensures OpenBody(m, old(payload[..]), used) == if f.Some? then Got(f.value, used) else Halt(why)
  {
    why := Broken;
    if payload.Length < STREAM_BYTES {
      return None, Broken;
    }
    var cancel := payload[0] & 0x80 != 0;
    payload[0] := payload[0] & 0x7F;
    assert payload[..STREAM_BYTES] == [payload[0], payload[1]];
    var sid := FromBigEndian(payload[..STREAM_BYTES]);
    if sid == 0 {
      return None, NoStreamId;
    }
    f := Some(Frame(m.op, m.fin, m.compressed, true, sid, cancel, payload[STREAM_BYTES..]));
  }

  method Unmask(payload: array<byte>, key: array<byte>, extra: Option<seq<byte>>)
    requires key.Length == 4 && key != payload && PrivateMaskOk(extra)
    modifies payload
    ensures payload[..] == Unmasked(old(payload[..]), Some(key[..]), extra)
  {
    hide Masked;
    var expanded := SetMask(extra, key);
    ghost var was := payload[..];
    assert payload[0..payload.Length] == was;
    MaskPayload(payload, 0, payload.Length, expanded);
    assert payload[..] == Masked(was, expanded[..]);
  }

  /** The payload, peeked, discarded and unmasked. */
  method TakePayload(r: ByteReader, size: nat, key: Option<array<byte>>, extra: Option<seq<byte>>)
    returns (payload: Option<array<byte>>)
    requires PrivateMaskOk(extra) && (key.Some? ==> key.value.Length == 4)
    modifies r
    ensures payload.Some? <==> size <= r.size && size <= old(|r.rest|)
    ensures payload.Some? ==>
              && fresh(payload.value)
              && payload.value[..]
                 == Unmasked(old(r.rest)[..size], if key.Some? then Some(old(key.value[..])) else None, extra)
              && r.rest == old(r.rest)[size..] && r.off == old(r.off) + size
  {
    hide Masked, ExpandKey, PrivateMaskOk;
    payload := r.Peek(size);
    if payload.Some? {
      r.Advance(size);
      if key.Some? {
        Unmask(payload.value, key.value, extra);
      }
    }
  }

  /** What is left of a frame once its payload is unmasked. */
  method OpenPayload(payload: array<byte>, m: Meta, ghost used: nat) returns (f: Option<Frame>, why: Stop)
    modifies payload
    ensures OpenBody(m, old(payload[..]), used) == if f.Some? then Got(f.value, used) else Halt(why)
  {
    why := Broken;
    if m.stream {
      f, why := TakeHead(payload, m, used);
    } else {
      f := Some(Frame(m.op, m.fin, m.compressed, false, 0, false, payload[..]));
    }
  }

  /** From the known size on: the limits, the payload, its mask, its stream head. */
  method ReadBody(r: ByteReader, m: Meta, size: int, key: Option<array<byte>>, peer: Peer,
                  ghost s: seq<byte>, ghost off: nat, ghost at: nat)
    returns (f: Option<Frame>, why: Stop)
    requires At(r, s, off, at) && PrivateMaskOk(peer.extra) && r.size == PeekLimit(peer)
    requires key.Some? ==> key.value.Length == 4
    modifies r
    ensures var k := if key.Some? then Some(old(key.value[..])) else None;
            var o := TakeBody(s, m, size, at, k, peer);
            if f.Some? then o.Got? && o.frame == f.value && At(r, s, off, o.used) else o == Halt(why)
  {
    hide Unmasked, OpenBody, PeekLimit, PrivateMaskOk;
    why := Broken;
    if size <= 0 {
      return Some(Frame(m.op, m.fin, m.compressed, false, 0, false, [])), why;
    }
    if peer.maxPayload != 0 && size > peer.maxPayload {
      return None, TooLarge;
    }
    var payload := TakePayload(r, size, key, peer.extra);
    if payload.None? {
      return None, NoBody;
    }
    assert s[at..][..size] == s[at..at + size];
    f, why := OpenPayload(payload.value, m, at + size);
  }

  /** From the parsed meta bytes on: extended size, mask key, body. */
  method ReadRest(r: ByteReader, m: Meta, peer: Peer, ghost s: seq<byte>, ghost off: nat)
    returns (f: Option<Frame>, why: Stop)
    requires At(r, s, off, 2) && PrivateMaskOk(peer.extra) && r.size == PeekLimit(peer)
    modifies r
    ensures var o := DecodeRest(s, m, off, peer, r.full);
            if f.Some? then o.Got? && o.frame == f.value && At(r, s, off, o.used) else o == Halt(why)
  {
    hide TakeBody, FullSize, ExtLen, PeekLimit, PrivateMaskOk;
    f, why := None, NoSize;
    var size := ReadSize(r, m, s, off);
    if size.None? {
      return;
    }
    ghost var keyAt := 2 + ExtLen(m.size);
    if m.masked {
      var vessel4 := new byte[4](_ => 0);
      var ok := r.Read(vessel4);
      if !ok {
        return None, NoKey;
      }
      assert vessel4[..] == s[keyAt..keyAt + 4];
      f, why := ReadBody(r, m, size.value, Some(vessel4), peer, s, off, keyAt + 4);
    } else {
      f, why := ReadBody(r, m, size.value, None, peer, s, off, keyAt);
    }
  }

  /** One turn of the loop up to the decoded frame. */
  method ReadFrame(r: ByteReader, peer: Peer) returns (f: Option<Frame>, why: Stop)
    requires PrivateMaskOk(peer.extra) && r.size == PeekLimit(peer)
    modifies r
    ensures var o := DecodeOne(old(r.rest), old(r.off), peer, r.full);
            if f.Some? then o.Got? && o.frame == f.value && At(r, old(r.rest), old(r.off), o.used) else o == Halt(why)
  {
    hide ParseMeta, DecodeRest, PeekLimit, PrivateMaskOk;
    ghost var s, off := r.rest, r.off;
    f, why := None, NoMeta;
    var vessel2 := new byte[2](_ => 0);
    var ok := r.Read(vessel2);
    if !ok {
      return;
    }
    assert vessel2[..][0] == s[0] && vessel2[..][1] == s[1];
    var parsed := ParseHeader(vessel2, peer);
    match parsed
    case Rejected(code) => why := Malformed(code);
    case Parsed(m) => f, why := ReadRest(r, m, peer, s, off);
  }

  lemma {:induction false} DemuxNext(r: RState, f: Frame, fs: seq<Frame>)
    ensures DemuxFrom(r, [f] + fs) == DemuxFrom(RecvStep(r, f), fs)
  {
    DemuxConcat(r, [f], fs);
    assert [f][..0] == [];
  }

  lemma {:induction false} NoMoreFrames(r: RState)
    ensures DemuxFrom(r, []) == r
  {
  }

  /**
   * `Start` (TriggerOnStart off): whatever bytes arrive and in whatever pieces, the handlers are triggered with what
   * demultiplexing the decoded frames gives.
   */
  method Start(r: ByteReader, peer: Peer, inbox: Inbox)
    requires PrivateMaskOk(peer.extra) && r.size == PeekLimit(peer) && !inbox.done
    modifies r, inbox
    ensures inbox.State() == DemuxFrom(old(inbox.State()), DecodeAll(old(r.rest), old(r.off), peer, r.full))
  {
    hide DecodeOne, DemuxFrom, RecvStep, PeekLimit, PrivateMaskOk;
    while true
      invariant !inbox.done
      invariant DemuxFrom(old(inbox.State()), DecodeAll(old(r.rest), old(r.off), peer, r.full))
             == DemuxFrom(inbox.State(), DecodeAll(r.rest, r.off, peer, r.full))
      decreases |r.rest|
    {
      ghost var before, s, off := inbox.State(), r.rest, r.off;
      var f, _ := ReadFrame(r, peer);
      if f.None? {
        NoMoreFrames(inbox.State());
        return;
      }
      DemuxNext(before, f.value, DecodeAll(r.rest, r.off, peer, r.full));
      inbox.Handle(f.value);
      if inbox.done {
        DeliveredGrows(inbox.State(), DecodeAll(r.rest, r.off, peer, r.full));
        return;
      }
    }
  }
}
