/** What a receiver makes of a whole connection's bytes, cut anywhere and read in any pieces. */
module Wire {
  import opened Wrappers
  import opened Bytes
  import opened Masking
  import opened Frames

  /** One write to the connection: a frame, and the fresh mask key a client draws for it. */
  datatype Sent = Sent(frame: Frame, key: Option<seq<byte>>)

  predicate SentOk(x: Sent)
  {
    Sendable(x.frame) && (x.key.Some? ==> |x.key.value| == 4)
  }

  predicate KeysOk(xs: seq<Sent>)
  {
    forall i :: 0 <= i < |xs| && xs[i].key.Some? ==> |xs[i].key.value| == 4
  }

  predicate AllSentOk(xs: seq<Sent>)
  {
    KeysOk(xs) && forall i :: 0 <= i < |xs| ==> SentOk(xs[i])
  }

  /** The bytes of consecutive writes. */
  function WireBytes(xs: seq<Sent>, extra: Option<seq<byte>>): (s: seq<byte>)
    requires KeysOk(xs) && PrivateMaskOk(extra)
  {
    if xs == [] then [] else Encode(xs[0].frame, xs[0].key, extra) + WireBytes(xs[1..], extra)
  }

  function FramesOf(xs: seq<Sent>): (fs: seq<Frame>)
    ensures |fs| == |xs|
    ensures forall i :: 0 <= i < |xs| ==> fs[i] == xs[i].frame
  {
    seq(|xs|, i requires 0 <= i < |xs| => xs[i].frame)
  }

  /** This frame comes out when `n` bytes from its start on arrive, at offset `off` of the connection. */
  predicate ComesOut(x: Sent, n: nat, off: nat, peer: Peer, full: nat -> bool)
    requires SentOk(x) && PrivateMaskOk(peer.extra)
  {
    && Acceptable(x.frame, x.key.Some?, peer)
    && |Encode(x.frame, x.key, peer.extra)| <= n
    && HeaderReadsFull(x.frame, x.key.Some?, off, full)
  }

  /** How many leading frames come out of the first `n` bytes. */
  function Survivors(xs: seq<Sent>, n: nat, off: nat, peer: Peer, full: nat -> bool): (k: nat)
    requires AllSentOk(xs) && PrivateMaskOk(peer.extra)
    ensures k <= |xs|
  {
    if xs == [] || !ComesOut(xs[0], n, off, peer, full) then 0
    else
      var size := |Encode(xs[0].frame, xs[0].key, peer.extra)|;
      1 + Survivors(xs[1..], n - size, off + size, peer, full)
  }

  /**
   * Wherever the byte stream is cut and whichever header reads come back short, the receiver hands on exactly the
   * leading frames that arrived whole, were acceptable and were read in full: a prefix of what was sent, nothing
   * altered and nothing invented.
   */
  lemma {:induction false} PrefixSafety(xs: seq<Sent>, n: nat, off: nat, peer: Peer, full: nat -> bool)
    requires AllSentOk(xs) && PrivateMaskOk(peer.extra)
    requires n <= |WireBytes(xs, peer.extra)|
    ensures DecodeAll(WireBytes(xs, peer.extra)[..n], off, peer, full)
         == FramesOf(xs)[..Survivors(xs, n, off, peer, full)]
  {
    hide DecodeOne, Encode, Acceptable, HeaderReadsFull, Sendable;
    var s := WireBytes(xs, peer.extra)[..n];
    if xs == [] {
      assert s == [];
    } else {
      var x := xs[0];
      var size := |Encode(x.frame, x.key, peer.extra)|;
      DecodeOwn(x.frame, x.key, peer, s, WireBytes(xs[1..], peer.extra), off, full);
      if ComesOut(x, n, off, peer, full) {
        assert s[size..] == WireBytes(xs[1..], peer.extra)[..n - size];
        PrefixSafety(xs[1..], n - size, off + size, peer, full);
        assert FramesOf(xs)[1..] == FramesOf(xs[1..]);
      }
    }
  }

  /** The leading frames before the first one the receiver refuses. */
  function LeadingAcceptable(xs: seq<Sent>, peer: Peer): (k: nat)
    ensures k <= |xs|
    ensures k == |xs| <==> forall i :: 0 <= i < |xs| ==> Acceptable(xs[i].frame, xs[i].key.Some?, peer)
  {
    if xs == [] || !Acceptable(xs[0].frame, xs[0].key.Some?, peer) then 0 else 1 + LeadingAcceptable(xs[1..], peer)
  }

  lemma {:induction false} FullReadsSurvive(xs: seq<Sent>, off: nat, peer: Peer, full: nat -> bool)
    requires AllSentOk(xs) && PrivateMaskOk(peer.extra)
    requires forall p: nat :: full(p)
    ensures Survivors(xs, |WireBytes(xs, peer.extra)|, off, peer, full) == LeadingAcceptable(xs, peer)
  {
    hide Encode, Acceptable, Sendable;
    if xs != [] {
      FullReadsSurvive(xs[1..], off + |Encode(xs[0].frame, xs[0].key, peer.extra)|, peer, full);
    }
  }

  /**
   * Round trip. Uncut and with full reads, everything before the first unacceptable frame is decoded as sent; so
   * the whole list comes back if and only if every frame is acceptable to the peer.
   */
  lemma {:induction false} RoundTrip(xs: seq<Sent>, off: nat, peer: Peer, full: nat -> bool)
    requires AllSentOk(xs) && PrivateMaskOk(peer.extra)
    requires forall p: nat :: full(p)
    ensures DecodeAll(WireBytes(xs, peer.extra), off, peer, full) == FramesOf(xs)[..LeadingAcceptable(xs, peer)]
    ensures DecodeAll(WireBytes(xs, peer.extra), off, peer, full) == FramesOf(xs)
       <==> forall i :: 0 <= i < |xs| ==> Acceptable(xs[i].frame, xs[i].key.Some?, peer)
  {
    var s := WireBytes(xs, peer.extra);
    assert s[..|s|] == s;
    PrefixSafety(xs, |s|, off, peer, full);
    FullReadsSurvive(xs, off, peer, full);
    assert FramesOf(xs)[..|xs|] == FramesOf(xs);
  }
}
