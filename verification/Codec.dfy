/** The sending half of the codec as the program runs it: byte arrays filled, and masked in place. */
module Codec {
  import opened Wrappers
  import opened Bytes
  import opened Masking
  import opened Frames
  import opened Wire
  import opened Fragments

  // ---------------------------------------------------------------- sending

  /** The sending options of a message, compression off. */
  datatype SendOptions = SendOptions(mask: bool, stream: bool, sid: nat, cancel: bool)

  /** The options `patchMsg` gives a message: clients mask, and on a streaming connection data messages get an id. */
  function Patched(isClient: bool, streamable: bool, op: byte, sid: nat): (opt: SendOptions)
  {
    SendOptions(isClient, streamable && !IsControl(op), sid, false)
  }

  function FrameFor(opt: SendOptions, op: byte, complete: bool, payload: seq<byte>): (f: Frame)
  {
    Frame(op, complete || IsControl(op), false, opt.stream, if opt.stream then opt.sid else 0,
          opt.stream && opt.cancel, payload)
  }

  /** Go's copy into a frame that has room. */
  method CopyInto(dst: array<byte>, at: nat, src: seq<byte>)
    requires at + |src| <= dst.Length
    modifies dst
    ensures dst[..at] == old(dst[..at]) && dst[at..at + |src|] == src
    ensures dst[..at + |src|] == old(dst[..at]) + src
  {
    for i := 0 to |src|
      invariant dst[..at] == old(dst[..at])
      invariant forall j :: 0 <= j < i ==> dst[at + j] == src[j]
    {
      dst[at + i] := src[i];
    }
  }

  /** The payload with the stream head put in front of it, in a new buffer. */
  method WithStreamHead(buf: array<byte>, lo: nat, hi: nat, opt: SendOptions) returns (vessel: array<byte>)
    requires lo <= hi <= buf.Length
    ensures fresh(vessel) && vessel[..] == StreamHead(opt.sid, opt.cancel) + buf[lo..hi]
  {
    vessel := new byte[hi - lo + STREAM_BYTES](_ => 0);
    CopyInto(vessel, 0, BigEndian(opt.sid, 2));
    if opt.cancel {
      vessel[0] := vessel[0] | 0x80;
    }
    assert vessel[..2] == StreamHead(opt.sid, opt.cancel);
    CopyInto(vessel, STREAM_BYTES, buf[lo..hi]);
    assert vessel[..] == vessel[..STREAM_BYTES + (hi - lo)];
  }

  /** The body is masked in place, with the key `setMask` derives, only if the options ask for it. */
  method MaskBody(body: array<byte>, lo: nat, hi: nat, mask: bool, instantMask: array<byte>, extra: Option<seq<byte>>)
    requires lo <= hi <= body.Length && instantMask.Length == 4 && instantMask != body && PrivateMaskOk(extra)
    modifies body
    ensures body[..] == old(body[..lo] + Unmasked(body[lo..hi], if mask then Some(instantMask[..]) else None, extra)
                            + body[hi..])
  {
    if mask {
      var key := SetMask(extra, instantMask);
      MaskPayload(body, lo, hi, key);
    } else {
      assert body[..] == body[..lo] + body[lo..hi] + body[hi..];
    }
  }

  lemma {:induction false} OrCommutes(a: byte, b: byte)
    ensures a | b == b | a && (0 as byte) | b == b
  {
  }

  method PutSize(masked: bool, msgSize: nat) returns (b: byte)
    ensures b == Meta1(msgSize, masked)
  {
    b := 0;
    if masked {
      b := b | 0x80;
    }
    if msgSize >= 65536 {
      b := b | 127;
    } else if msgSize > 125 {
      b := b | 126;
    } else {
      OrCommutes(b, msgSize as byte);
      b := b | (msgSize as byte);
    }
  }

  /** The two meta bytes, flag by flag. */
  method PutMeta(frame: array<byte>, op: byte, complete: bool, stream: bool, masked: bool, msgSize: nat)
    requires frame.Length >= 2 && frame[0] == 0 && frame[1] == 0
    modifies frame
    ensures frame[0] == op | (if complete || IsControl(op) then 0x80 else 0) | (if stream then 0x20 else 0)
    ensures frame[1] == Meta1(msgSize, masked)
    ensures frame[..2] == [frame[0], frame[1]]
  {
    frame[0] := op;
    if complete || IsControl(op) {
      frame[0] := frame[0] | 0x80;
    }
    if stream {
      frame[0] := frame[0] | 0x20;
    }
    var b := PutSize(masked, msgSize);
    frame[1] := b;
  }

  /** The frame around a body that is already masked: meta bytes, extended size, mask key, body. */
  method FillFrame(op: byte, complete: bool, stream: bool, masked: bool, instantMask: seq<byte>, body: seq<byte>)
    returns (frame: array<byte>)
    requires |instantMask| == 4
    ensures fresh(frame)
    ensures frame[..]
         == [op | (if complete || IsControl(op) then 0x80 else 0) | (if stream then 0x20 else 0), Meta1(|body|, masked)]
            + ExtSize(|body|) + (if masked then instantMask else []) + body
  {
    hide Meta1, BigEndian;
    var msgSize := |body|;
    var frameSize := 2 + msgSize;
    if masked {
      frameSize := frameSize + 4;
    }
    if msgSize >= 65536 {
      frameSize := frameSize + 8;
    } else if msgSize > 125 {
      frameSize := frameSize + 2;
    }
    frame := new byte[frameSize](_ => 0);
    PutMeta(frame, op, complete, stream, masked, msgSize);
    var pos := 2;
    ghost var meta := frame[..2];
    if msgSize >= 65536 {
      CopyInto(frame, pos, BigEndian(msgSize, 8));
      pos := pos + 8;
    } else if msgSize > 125 {
      CopyInto(frame, pos, BigEndian(msgSize, 2));
      pos := pos + 2;
    }
    assert frame[..pos] == meta + ExtSize(msgSize);
    hide ExtSize;
    if masked {
      CopyInto(frame, pos, instantMask);
      pos := pos + 4;
    }
    CopyInto(frame, pos, body);
    assert frame[..] == frame[..pos + msgSize];
  }

  /** In place, in the caller's buffer. */
  method MaskInPlace(buf: array<byte>, lo: nat, hi: nat, mask: bool, instantMask: array<byte>, extra: Option<seq<byte>>)
    returns (body: seq<byte>)
    requires lo <= hi <= buf.Length && instantMask.Length == 4 && instantMask != buf && PrivateMaskOk(extra)
    modifies buf
    ensures body == Unmasked(old(buf[lo..hi]), if mask then Some(instantMask[..]) else None, extra)
    ensures buf[..] == old(buf[..lo]) + body + old(buf[hi..])
  {
    hide Unmasked;
    MaskBody(buf, lo, hi, mask, instantMask, extra);
    body := buf[lo..hi];
  }

  /** In a copy behind the stream head. */
  method MaskInCopy(buf: array<byte>, lo: nat, hi: nat, opt: SendOptions, instantMask: array<byte>,
                    extra: Option<seq<byte>>)
    returns (body: seq<byte>)
    requires lo <= hi <= buf.Length && instantMask.Length == 4 && instantMask != buf && PrivateMaskOk(extra)
    ensures body == Unmasked(StreamHead(opt.sid, opt.cancel) + buf[lo..hi],
                             if opt.mask then Some(instantMask[..]) else None, extra)
  {
    hide Unmasked, StreamHead;
    var vessel := WithStreamHead(buf, lo, hi, opt);
    assert vessel[..] == vessel[0..vessel.Length];
    MaskBody(vessel, 0, vessel.Length, opt.mask, instantMask, extra);
    body := vessel[..];
  }

  lemma {:induction false} NoCompression(f: Frame)
    requires !f.compressed
    ensures Meta0(f) == f.op | (if f.fin || IsControl(f.op) then 0x80 else 0) | (if f.stream then 0x20 else 0)
  {
  }

  /**
   * `assemble`: the bytes of one frame. The caller's buffer is left masked exactly when the sender masks and the
   * payload was not copied behind a stream head; the frame itself depends only on what the buffer held before.
   */
  method Assemble(buf: array<byte>, lo: nat, hi: nat, op: byte, complete: bool, opt: SendOptions,
                  instantMask: array<byte>, extra: Option<seq<byte>>)
    returns (frame: array<byte>)
    requires lo <= hi <= buf.Length && instantMask.Length == 4 && instantMask != buf && PrivateMaskOk(extra)
    modifies buf
    ensures fresh(frame)
    ensures frame[..] == Encode(FrameFor(opt, op, complete, old(buf[lo..hi])),
                                if opt.mask then Some(instantMask[..]) else None, extra)
    ensures buf[..] == if opt.stream then old(buf[..])
                       else old(buf[..lo])
                            + Unmasked(old(buf[lo..hi]), if opt.mask then Some(instantMask[..]) else None, extra)
                            + old(buf[hi..])
  {
    hide ExtSize, Meta1, StreamHead, Unmasked, BigEndian, Encode;
    var body: seq<byte>;
    if opt.stream {
      body := MaskInCopy(buf, lo, hi, opt, instantMask, extra);
    } else {
      body := MaskInPlace(buf, lo, hi, opt.mask, instantMask, extra);
    }
    frame := FillFrame(op, complete, opt.stream, opt.mask, instantMask[..], body);
    ghost var f := FrameFor(opt, op, complete, old(buf[lo..hi]));
    ghost var key := if opt.mask then Some(instantMask[..]) else None;
    EncodeParts(f, key, extra);
    assert body == Unmasked(Body(f), key, extra);
    NoCompression(f);
  }

  // ---------------------------------------------------------------- a whole message

  /** The writes of `Dispatch` for a payload: one for each chunk, each with a mask key of its own. */
  function Writes(opt: SendOptions, op: byte, p: seq<byte>, limit: nat, keys: seq<seq<byte>>): (xs: seq<Sent>)
    requires limit > 0 && |keys| == ChunkCount(|p|, limit)
    decreases |p|
  {
    var key := if opt.mask then Some(keys[0]) else None;
    if |p| <= limit then [Sent(FrameFor(opt, op, true, p), key)]
    else
      ChunkCountStep(|p|, limit);
      [Sent(FrameFor(opt, op, false, p[..limit]), key)] + Writes(opt, op, p[limit..], limit, keys[1..])
  }

  predicate FourBytes(keys: seq<seq<byte>>)
  {
    forall i :: 0 <= i < |keys| ==> |keys[i]| == 4
  }

  lemma {:induction false} WritesOk(opt: SendOptions, op: byte, p: seq<byte>, limit: nat, keys: seq<seq<byte>>)
    requires limit > 0 && |keys| == ChunkCount(|p|, limit) && FourBytes(keys)
    ensures KeysOk(Writes(opt, op, p, limit, keys))
    decreases |p|
  {
    hide ChunkCount;
    if |p| > limit {
      ChunkCountStep(|p|, limit);
      WritesOk(opt, op, p[limit..], limit, keys[1..]);
    } else {
      OneChunk(p, limit);
    }
  }

  /** What one chunk's place in the buffer holds afterwards: the chunk, or the chunk masked once with its own key. */
  function Residue(opt: SendOptions, chunk: seq<byte>, key: seq<byte>, extra: Option<seq<byte>>): (r: seq<byte>)
    requires PrivateMaskOk(extra) && |key| == 4
    ensures |r| == |chunk|
  {
    if opt.stream || !opt.mask then chunk else Masked(chunk, ExpandKey(extra, key))
  }

  /** What `Dispatch` leaves in the caller's buffer. */
  function Leftover(opt: SendOptions, p: seq<byte>, limit: nat, keys: seq<seq<byte>>, extra: Option<seq<byte>>)
    : (r: seq<byte>)
    requires limit > 0 && |keys| == ChunkCount(|p|, limit) && FourBytes(keys) && PrivateMaskOk(extra)
    decreases |p|
  {
    if |p| <= limit then Residue(opt, p, keys[0], extra)
    else
      ChunkCountStep(|p|, limit);
      Residue(opt, p[..limit], keys[0], extra) + Leftover(opt, p[limit..], limit, keys[1..], extra)
  }

  lemma {:induction false} LeftoverLength(opt: SendOptions, p: seq<byte>, limit: nat, keys: seq<seq<byte>>,
                                          extra: Option<seq<byte>>)
    requires limit > 0 && |keys| == ChunkCount(|p|, limit) && FourBytes(keys) && PrivateMaskOk(extra)
    ensures |Leftover(opt, p, limit, keys, extra)| == |p|
    decreases |p|
  {
    hide ChunkCount, Residue;
    if |p| > limit {
      ChunkCountStep(|p|, limit);
      LeftoverLength(opt, p[limit..], limit, keys[1..], extra);
    }
  }

  lemma {:induction false} ResidueAt(opt: SendOptions, chunk: seq<byte>, key: seq<byte>, extra: Option<seq<byte>>,
                                     r: nat)
    requires PrivateMaskOk(extra) && |key| == 4 && r < |chunk|
    ensures Residue(opt, chunk, key, extra)[r]
         == if opt.stream || !opt.mask then chunk[r]
            else chunk[r] ^ ExpandKey(extra, key)[r % |ExpandKey(extra, key)|]
  {
  }

  /** Byte r of chunk i afterwards: untouched, or XORed once, with its own chunk's key at place r. */
  lemma {:induction false} MaskedOnce(opt: SendOptions, p: seq<byte>, limit: nat, keys: seq<seq<byte>>,
                                      extra: Option<seq<byte>>, i: nat, r: nat)
    requires limit > 0 && |keys| == ChunkCount(|p|, limit) && FourBytes(keys) && PrivateMaskOk(extra)
    requires r < limit && i * limit + r < |p|
    ensures |Leftover(opt, p, limit, keys, extra)| == |p| && i < |keys|
    ensures var j, key := i * limit + r, ExpandKey(extra, keys[i]);
            Leftover(opt, p, limit, keys, extra)[j]
            == if opt.stream || !opt.mask then p[j] else p[j] ^ key[r % |key|]
    decreases |p|
  {
    hide ChunkCount, ExpandKey, Residue;
    var j := i * limit + r;
    if i > 0 {
      Times(1, i, limit);
      ChunkCountStep(|p|, limit);
      assert (i - 1) * limit + r == j - limit;
      MaskedOnce(opt, p[limit..], limit, keys[1..], extra, i - 1, r);
    } else {
      LeftoverLength(opt, p, limit, keys, extra);
      ChunkCountIsCeiling(|p|, limit);
      ResidueAt(opt, if |p| <= limit then p else p[..limit], keys[0], extra, r);
    }
  }

  /** A buffer that is copied, or not masked, stays as it is. */
  lemma {:induction false} LeftoverUntouched(opt: SendOptions, p: seq<byte>, limit: nat, keys: seq<seq<byte>>,
                                             extra: Option<seq<byte>>)
    requires limit > 0 && |keys| == ChunkCount(|p|, limit) && FourBytes(keys) && PrivateMaskOk(extra)
    requires opt.stream || !opt.mask
    ensures Leftover(opt, p, limit, keys, extra) == p
    decreases |p|
  {
    hide ChunkCount;
    if |p| > limit {
      ChunkCountStep(|p|, limit);
      LeftoverUntouched(opt, p[limit..], limit, keys[1..], extra);
    }
  }

  lemma {:induction false} FlipOne(b: byte)
    ensures 0 ^ (b ^ (b ^ 1)) != 0 && 0 ^ (1 as byte) != 0
  {
  }

  /** A key that changes a buffer of one zero byte. */
  lemma {:induction false} SomeBufferChanges(opt: SendOptions, limit: nat, extra: Option<seq<byte>>)
    returns (keys: seq<seq<byte>>)
    requires limit > 0 && PrivateMaskOk(extra) && opt.mask && !opt.stream
    ensures |keys| == ChunkCount(1, limit) && FourBytes(keys) && Leftover(opt, [0], limit, keys, extra) != [0]
  {
    var other := if extra.Some? then extra.value[0] else 0;
    keys := [[other ^ 1, 0, 0, 0]];
    FlipOne(other);
    OneChunk([0], limit);
    hide ChunkCount, Masked;
    MaskedAt([0], extra, keys[0], 0);
    XorAssociates(0, other, other ^ 1);
  }

  /** Whatever the chunk size and the private mask: the other options change some buffer, for some mask keys. */
  lemma {:induction false} MasksInPlaceIff(opt: SendOptions, limit: nat, extra: Option<seq<byte>>)
    requires limit > 0 && PrivateMaskOk(extra)
    ensures opt.mask && !opt.stream <==>
              exists p, keys :: |keys| == ChunkCount(|p|, limit) && FourBytes(keys)
                                && Leftover(opt, p, limit, keys, extra) != p
  {
    hide ChunkCount, Leftover;
    if opt.mask && !opt.stream {
      var keys := SomeBufferChanges(opt, limit, extra);
      var p: seq<byte> := [0];
      assert |keys| == ChunkCount(|p|, limit) && FourBytes(keys) && Leftover(opt, p, limit, keys, extra) != p;
    } else {
      forall p, keys | |keys| == ChunkCount(|p|, limit) && FourBytes(keys)
        ensures Leftover(opt, p, limit, keys, extra) == p
      {
        LeftoverUntouched(opt, p, limit, keys, extra);
      }
    }
  }

  lemma {:induction false} Rejoin(was: seq<byte>, lo: nat, hi: nat, r: seq<byte>, now: seq<byte>)
    requires lo <= hi <= |was| && |r| == hi - lo
    requires now == was[..lo] + r + was[hi..] || (now == was && r == was[lo..hi])
    ensures |now| == |was| && now[..lo] == was[..lo] && now[hi..] == was[hi..] && now[lo..hi] == r
  {
  }

  /** What `Assemble` leaves, part by part. */
  lemma {:induction false} ResidueParts(opt: SendOptions, was: seq<byte>, lo: nat, hi: nat, key: seq<byte>,
                                        extra: Option<seq<byte>>, now: seq<byte>)
    requires lo <= hi <= |was| && |key| == 4 && PrivateMaskOk(extra)
    requires now == if opt.stream then was
                    else was[..lo] + Unmasked(was[lo..hi], if opt.mask then Some(key) else None, extra) + was[hi..]
    ensures |now| == |was| && now[..lo] == was[..lo] && now[hi..] == was[hi..]
    ensures now[lo..hi] == Residue(opt, was[lo..hi], key, extra)
  {
    var r := Residue(opt, was[lo..hi], key, extra);
    assert !opt.stream ==> r == Unmasked(was[lo..hi], if opt.mask then Some(key) else None, extra);
    assert opt.stream ==> r == was[lo..hi];
    hide Residue, Unmasked;
    Rejoin(was, lo, hi, r, now);
  }

  /** One chunk of the loop below, at `lo`: its frame, and the buffer with the chunk's residue in its place. */
  method WriteChunk(buf: array<byte>, lo: nat, hi: nat, op: byte, complete: bool, opt: SendOptions,
                    key: seq<byte>, extra: Option<seq<byte>>)
    returns (frame: seq<byte>)
    requires lo <= hi <= buf.Length && |key| == 4 && PrivateMaskOk(extra)
    modifies buf
    ensures frame == Encode(FrameFor(opt, op, complete, old(buf[lo..hi])), if opt.mask then Some(key) else None, extra)
    ensures buf[..lo] == old(buf[..lo]) && buf[hi..] == old(buf[hi..])
    ensures buf[lo..hi] == Residue(opt, old(buf[lo..hi]), key, extra)
  {
    hide Encode, FrameFor, Unmasked, Residue;
    var instantMask := new byte[4](k requires 0 <= k < 4 => key[k]);
    assert instantMask[..] == key;
    ghost var was := buf[..];
    var bytes := Assemble(buf, lo, hi, op, complete, opt, instantMask, extra);
    ResidueParts(opt, was, lo, hi, key, extra, buf[..]);
    frame := bytes[..];
  }

  /** The step of the loop, in terms of what is left: p from b on, with the keys from i on. */
  lemma {:induction false} RestStep(opt: SendOptions, op: byte, p: seq<byte>, limit: nat, keys: seq<seq<byte>>,
                                    extra: Option<seq<byte>>)
    requires limit > 0 && |keys| == ChunkCount(|p|, limit) && FourBytes(keys) && PrivateMaskOk(extra)
    requires |p| > limit
    ensures |keys[1..]| == ChunkCount(|p[limit..]|, limit)
    ensures KeysOk(Writes(opt, op, p, limit, keys)) && KeysOk(Writes(opt, op, p[limit..], limit, keys[1..]))
    ensures WireBytes(Writes(opt, op, p, limit, keys), extra)
         == Encode(FrameFor(opt, op, false, p[..limit]), if opt.mask then Some(keys[0]) else None, extra)
            + WireBytes(Writes(opt, op, p[limit..], limit, keys[1..]), extra)
    ensures Leftover(opt, p, limit, keys, extra)
         == Residue(opt, p[..limit], keys[0], extra) + Leftover(opt, p[limit..], limit, keys[1..], extra)
  {
    hide Encode, FrameFor, ChunkCount, Residue;
    ChunkCountStep(|p|, limit);
    WritesOk(opt, op, p, limit, keys);
    WritesOk(opt, op, p[limit..], limit, keys[1..]);
    var xs := Writes(opt, op, p, limit, keys);
    assert xs[1..] == Writes(opt, op, p[limit..], limit, keys[1..]);
  }

  lemma {:induction false} RestEnd(opt: SendOptions, op: byte, p: seq<byte>, limit: nat, keys: seq<seq<byte>>,
                                   extra: Option<seq<byte>>)
    requires limit > 0 && |keys| == ChunkCount(|p|, limit) && FourBytes(keys) && PrivateMaskOk(extra)
    requires |p| <= limit
    ensures |keys| == 1 && KeysOk(Writes(opt, op, p, limit, keys))
    ensures WireBytes(Writes(opt, op, p, limit, keys), extra)
         == Encode(FrameFor(opt, op, true, p), if opt.mask then Some(keys[0]) else None, extra)
    ensures Leftover(opt, p, limit, keys, extra) == Residue(opt, p, keys[0], extra)
  {
    hide Encode, FrameFor, ChunkCount, Residue;
    OneChunk(p, limit);
    var xs := Writes(opt, op, p, limit, keys);
    assert xs[1..] == [];
  }

  /** The loop below before chunk i, which starts at b: what is written, and what the buffer holds now. */
  ghost predicate Halfway(opt: SendOptions, op: byte, p: seq<byte>, limit: nat, keys: seq<seq<byte>>,
                          extra: Option<seq<byte>>, i: nat, b: nat, wire: seq<byte>, now: seq<byte>)
    requires limit > 0 && PrivateMaskOk(extra) && |keys| == ChunkCount(|p|, limit) && FourBytes(keys)
  {
    && i <= |keys| && b == (if i < |keys| then i * limit else |p|) && b <= |p| == |now| && now[b..] == p[b..]
    && KeysOk(Writes(opt, op, p, limit, keys))
    && (i < |keys| ==>
          && |keys[i..]| == ChunkCount(|p[b..]|, limit)
          && KeysOk(Writes(opt, op, p[b..], limit, keys[i..]))
          && WireBytes(Writes(opt, op, p, limit, keys), extra)
             == wire + WireBytes(Writes(opt, op, p[b..], limit, keys[i..]), extra)
          && Leftover(opt, p, limit, keys, extra) == now[..b] + Leftover(opt, p[b..], limit, keys[i..], extra))
    && (i == |keys| ==>
          WireBytes(Writes(opt, op, p, limit, keys), extra) == wire && Leftover(opt, p, limit, keys, extra) == now)
  }

  lemma {:induction false} NothingWritten(opt: SendOptions, op: byte, p: seq<byte>, limit: nat, keys: seq<seq<byte>>,
                       extra: Option<seq<byte>>)
    requires limit > 0 && PrivateMaskOk(extra) && |keys| == ChunkCount(|p|, limit) && FourBytes(keys)
    ensures Halfway(opt, op, p, limit, keys, extra, 0, 0, [], p)
  {
    hide ChunkCount, Writes, Leftover, WireBytes, KeysOk;
    WritesOk(opt, op, p, limit, keys);
    ChunkCountIsCeiling(|p|, limit);
    assert p[0..] == p && keys[0..] == keys && p[..0] == [];
  }

  /** Chunk i written: its frame is out, and only its own place in the buffer has changed. */
  lemma {:induction false} ChunkWritten(opt: SendOptions, op: byte, p: seq<byte>, limit: nat, keys: seq<seq<byte>>,
                     extra: Option<seq<byte>>, i: nat, b: nat, wire: seq<byte>, now: seq<byte>,
                     c: Chunk, frame: seq<byte>, now': seq<byte>)
    requires limit > 0 && PrivateMaskOk(extra) && |keys| == ChunkCount(|p|, limit) && FourBytes(keys)
    requires Halfway(opt, op, p, limit, keys, extra, i, b, wire, now) && i < |keys|
    requires c == ChunkAt(|p|, limit, i) && c.lo <= c.hi <= |p|
    requires frame == Encode(FrameFor(opt, op, c.isComplete, now[c.lo..c.hi]),
                             if opt.mask then Some(keys[i]) else None, extra)
    requires |now'| == |now| && now'[..c.lo] == now[..c.lo] && now'[c.hi..] == now[c.hi..]
    requires now'[c.lo..c.hi] == Residue(opt, now[c.lo..c.hi], keys[i], extra)
    ensures Halfway(opt, op, p, limit, keys, extra, i + 1, c.hi, wire + frame, now')
  {
    hide Encode, FrameFor, ChunkCount, ChunkAt, Writes, Leftover, Residue, WireBytes, KeysOk;
    ChunkOfRest(|p|, limit, i);
    var rest, left := p[b..], keys[i..];
    assert now[b..][..c.hi - b] == now[c.lo..c.hi] == rest[..c.hi - b];
    assert now'[..c.hi] == now'[..c.lo] + now'[c.lo..c.hi];
    if c.isComplete {
      RestEnd(opt, op, rest, limit, left, extra);
      assert rest[..c.hi - b] == rest;
      assert now'[..c.hi] == now';
    } else {
      RestStep(opt, op, rest, limit, left, extra);
      assert rest[limit..] == p[c.hi..] && left[1..] == keys[i + 1..];
      assert now[c.hi..] == now[b..][limit..];
      Times(i, i, limit);
    }
  }

  /**
   * `Dispatch` in the codec's terms. Though the chunks alias the caller's buffer and are masked in place, each byte
   * is masked at most once, with its own chunk's key, and the wire depends only on the payload as it was handed in.
   */
  method DispatchBytes(buf: array<byte>, op: byte, opt: SendOptions, limit: nat, keys: seq<seq<byte>>,
                       extra: Option<seq<byte>>)
    returns (wire: seq<byte>)
    requires limit > 0 && PrivateMaskOk(extra) && |keys| == ChunkCount(buf.Length, limit) && FourBytes(keys)
    modifies buf
    ensures KeysOk(Writes(opt, op, old(buf[..]), limit, keys))
    ensures wire == WireBytes(Writes(opt, op, old(buf[..]), limit, keys), extra)
    ensures buf[..] == Leftover(opt, old(buf[..]), limit, keys, extra)
  {
    hide Encode, FrameFor, ChunkCount, ChunkAt, Writes, Leftover, Residue, WireBytes, KeysOk;
    ghost var p, b := buf[..], 0;
    NothingWritten(opt, op, p, limit, keys, extra);
    var chunks := Split(buf.Length, limit);
    wire := [];
    var i := 0;
    while i < chunks.Length
      invariant i <= chunks.Length
      invariant forall j :: 0 <= j < chunks.Length ==> chunks[j] == ChunkAt(buf.Length, limit, j)
      invariant Halfway(opt, op, p, limit, keys, extra, i, b, wire, buf[..])
    {
      hide Halfway;
      var c := chunks[i];
      ChunkBounds(buf.Length, limit, i);
      ghost var now := buf[..];
      var frame := WriteChunk(buf, c.lo, c.hi, op, c.isComplete, opt, keys[i], extra);
      ChunkWritten(opt, op, p, limit, keys, extra, i, b, wire, now, c, frame, buf[..]);
      wire, b, i := wire + frame, c.hi, i + 1;
    }
  }

  // ---------------------------------------------------------------- a message read from a source

  /** The writes of `DispatchReader`: one for each read, up to and including the first that reports an error. */
  function ReaderWrites(opt: SendOptions, op: byte, rs: seq<ReadResult>, keys: seq<seq<byte>>): (xs: seq<Sent>)
    requires |keys| == |rs|
  {
    if rs == [] then []
    else
      var frame := FrameFor(opt.(cancel := rs[0].end == Failed), op, rs[0].end == AtEof, rs[0].data);
      var x := Sent(frame, if opt.mask then Some(keys[0]) else None);
      if rs[0].end == NoError then [x] + ReaderWrites(opt, op, rs[1..], keys[1..]) else [x]
  }

  lemma {:induction false} ReaderWritesOk(opt: SendOptions, op: byte, rs: seq<ReadResult>, keys: seq<seq<byte>>)
    requires |keys| == |rs| && FourBytes(keys)
    ensures KeysOk(ReaderWrites(opt, op, rs, keys))
  {
    hide FrameFor;
    if rs != [] {
      ReaderWritesOk(opt, op, rs[1..], keys[1..]);
    }
  }

  /** The bytes of the first write, and those still to come. */
  lemma {:induction false} ReaderStep(opt: SendOptions, op: byte, rs: seq<ReadResult>, keys: seq<seq<byte>>,
                                      extra: Option<seq<byte>>)
    requires |keys| == |rs| && FourBytes(keys) && PrivateMaskOk(extra) && rs != []
    ensures KeysOk(ReaderWrites(opt, op, rs, keys)) && KeysOk(ReaderWrites(opt, op, rs[1..], keys[1..]))
    ensures WireBytes(ReaderWrites(opt, op, rs, keys), extra)
         == Encode(FrameFor(opt.(cancel := rs[0].end == Failed), op, rs[0].end == AtEof, rs[0].data),
                   if opt.mask then Some(keys[0]) else None, extra)
            + (if rs[0].end == NoError then WireBytes(ReaderWrites(opt, op, rs[1..], keys[1..]), extra) else [])
  {
    hide Encode, FrameFor;
    ReaderWritesOk(opt, op, rs, keys);
    ReaderWritesOk(opt, op, rs[1..], keys[1..]);
    var xs := ReaderWrites(opt, op, rs, keys);
    assert xs[1..] == if rs[0].end == NoError then ReaderWrites(opt, op, rs[1..], keys[1..]) else [];
  }

  /** One turn of the loop: the data lands at the front of the vessel, and its frame is assembled there. */
  method WriteRead(vessel: array<byte>, data: seq<byte>, op: byte, complete: bool, opt: SendOptions,
                   key: seq<byte>, extra: Option<seq<byte>>)
    returns (frame: seq<byte>)
    requires |data| <= vessel.Length && |key| == 4 && PrivateMaskOk(extra)
    modifies vessel
    ensures frame == Encode(FrameFor(opt, op, complete, data), if opt.mask then Some(key) else None, extra)
  {
    hide Encode, FrameFor, Residue;
    CopyInto(vessel, 0, data);
    assert vessel[0..|data|] == data;
    frame := WriteChunk(vessel, 0, |data|, op, complete, opt, key, extra);
  }

  lemma {:induction false} NothingRead(opt: SendOptions, op: byte, rs: seq<ReadResult>, keys: seq<seq<byte>>,
                                       extra: Option<seq<byte>>)
    requires |keys| == |rs| && rs == [] && PrivateMaskOk(extra)
    ensures KeysOk(ReaderWrites(opt, op, rs, keys)) && WireBytes(ReaderWrites(opt, op, rs, keys), extra) == []
  {
  }

  /**
   * `DispatchReader` in the codec's terms. All reads go through one vessel, which masking may leave scrambled; the
   * wire depends only on the data read.
   */
  method DispatchReaderBytes(rs: seq<ReadResult>, vessel: array<byte>, op: byte, opt: SendOptions,
                             keys: seq<seq<byte>>, extra: Option<seq<byte>>)
    returns (wire: seq<byte>)
    requires forall i :: 0 <= i < |rs| ==> |rs[i].data| <= vessel.Length
    requires PrivateMaskOk(extra) && |keys| == |rs| && FourBytes(keys)
    modifies vessel
    ensures KeysOk(ReaderWrites(opt, op, rs, keys))
    ensures wire == WireBytes(ReaderWrites(opt, op, rs, keys), extra)
  {
    hide Encode, FrameFor, ReaderWrites, WireBytes, KeysOk, PrivateMaskOk;
    ReaderWritesOk(opt, op, rs, keys);
    wire := [];
    assert rs[0..] == rs && keys[0..] == keys;
    for i := 0 to |rs|
      invariant KeysOk(ReaderWrites(opt, op, rs[i..], keys[i..]))
      invariant WireBytes(ReaderWrites(opt, op, rs, keys), extra)
             == wire + WireBytes(ReaderWrites(opt, op, rs[i..], keys[i..]), extra)
    {
      ReaderStep(opt, op, rs[i..], keys[i..], extra);
      assert rs[i..][1..] == rs[i + 1..] && keys[i..][1..] == keys[i + 1..];
      var cancelled := opt.(cancel := rs[i].end == Failed);
      var frame := WriteRead(vessel, rs[i].data, op, rs[i].end == AtEof, cancelled, keys[i], extra);
      wire := wire + frame;
      if rs[i].end != NoError {
        return;
      }
    }
    NothingRead(opt, op, rs[|rs|..], keys[|rs|..], extra);
  }
}
