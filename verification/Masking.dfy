/** The masking of message.go: an RFC 6455 mask key, optionally widened by the private mask both peers share. */
module Masking {
  import opened Wrappers
  import opened Bytes

  /** The key the payload is XORed with, as `setMask` computes it from the 4 bytes carried by the frame. */
  function ExpandKey(extra: Option<seq<byte>>, mask: seq<byte>): (key: seq<byte>)
    requires |mask| == 4
  {
    match extra
    case None => mask
    case Some(e) => seq(|e|, i requires 0 <= i < |e| => e[i] ^ mask[i % 4])
  }

  /** XOR with a key repeated as often as needed. */
  function Masked(p: seq<byte>, key: seq<byte>): (r: seq<byte>)
    requires key != []
  {
    seq(|p|, i requires 0 <= i < |p| => p[i] ^ key[i % |key|])
  }

  /** What `Config.setup` lets through as a private mask. */
  predicate PrivateMaskOk(extra: Option<seq<byte>>)
  {
    extra.Some? ==> extra.value != [] && |extra.value| % 4 == 0
  }

  lemma {:induction false} XorTwice(a: byte, b: byte)
    ensures (a ^ b) ^ b == a
  {
  }

  lemma {:induction false} MaskIsInvolution(p: seq<byte>, key: seq<byte>)
    requires key != []
    ensures Masked(Masked(p, key), key) == p
  {
    forall i | 0 <= i < |p|
      ensures Masked(Masked(p, key), key)[i] == p[i]
    {
      XorTwice(p[i], key[i % |key|]);
    }
  }

  lemma {:induction false} XorAssociates(a: byte, b: byte, c: byte)
    ensures a ^ (b ^ c) == (a ^ b) ^ c
  {
  }

  lemma {:induction false} ModOfMod(i: nat, n: nat)
    requires n > 0 && n % 4 == 0
    ensures (i % n) % 4 == i % 4
  {
    var q, m := i / n, n / 4;
    assert i == q * n + i % n;
    assert q * n == 4 * (q * m) by {
      assert n == 4 * m;
    }
  }

  /** One byte of the widened key: the private mask and the frame's mask line up when 4 divides the length. */
  lemma {:induction false} ExpandedByte(e: seq<byte>, mask: seq<byte>, i: nat)
    requires |mask| == 4 && e != [] && |e| % 4 == 0
    ensures ExpandKey(Some(e), mask)[i % |e|] == e[i % |e|] ^ mask[i % 4]
  {
    ModOfMod(i, |e|);
  }

  /** Two layers: the repeated private mask, then the masking of section 5.3 of RFC 6455. */
  lemma {:induction false} TwoLayers(p: seq<byte>, e: seq<byte>, mask: seq<byte>)
    requires |mask| == 4 && e != [] && |e| % 4 == 0
    ensures Masked(p, ExpandKey(Some(e), mask)) == Masked(Masked(p, e), mask)
  {
    forall i | 0 <= i < |p|
      ensures Masked(p, ExpandKey(Some(e), mask))[i] == Masked(Masked(p, e), mask)[i]
    {
      ExpandedByte(e, mask, i);
      XorAssociates(p[i], e[i % |e|], mask[i % 4]);
    }
  }

  /** Byte i of what goes out: XORed with byte i mod 4 of the frame's mask, and with the private mask, if any. */
  lemma {:induction false} MaskedAt(p: seq<byte>, extra: Option<seq<byte>>, mask: seq<byte>, i: nat)
    requires |mask| == 4 && PrivateMaskOk(extra) && i < |p|
    ensures Masked(p, ExpandKey(extra, mask))[i]
         == match extra
            case None => p[i] ^ mask[i % 4]
            case Some(e) => (p[i] ^ e[i % |e|]) ^ mask[i % 4]
  {
    if extra.Some? {
      var e := extra.value;
      ExpandedByte(e, mask, i);
      XorAssociates(p[i], e[i % |e|], mask[i % 4]);
    }
  }

  /** Whether masking with `e` really is two layers, for every payload and every frame mask. */
  ghost predicate ActsAsTwoLayers(e: seq<byte>)
    requires e != []
  {
    forall p: seq<byte>, mask: seq<byte> | |mask| == 4 ::
      Masked(p, ExpandKey(Some(e), mask)) == Masked(Masked(p, e), mask)
  }

  lemma {:induction false} DifferentMask(b: byte)
    ensures 0 ^ (b ^ 1) != (0 ^ b) ^ 0
  {
  }

  /** The length test in `Config.setup` is exactly what the two layers need. */
  lemma {:induction false} LengthCheckIsExact(e: seq<byte>)
    requires e != []
    ensures ActsAsTwoLayers(e) <==> |e| % 4 == 0
  {
    if |e| % 4 == 0 {
      forall p: seq<byte>, mask: seq<byte> | |mask| == 4
        ensures Masked(p, ExpandKey(Some(e), mask)) == Masked(Masked(p, e), mask)
      {
        TwoLayers(p, e, mask);
      }
    } else {
      var n := |e|;
      var mask: seq<byte> := [1, 0, 0, 0];
      var p: seq<byte> := seq(n + 1, _ => 0);
      assert n % n == 0;
      assert Masked(p, ExpandKey(Some(e), mask))[n] == 0 ^ (e[0] ^ mask[0]);
      assert Masked(Masked(p, e), mask)[n] == (0 ^ e[0]) ^ mask[n % 4];
      assert mask[n % 4] == 0;
      DifferentMask(e[0]);
    }
  }

  /** `setMask`. */
  method SetMask(extra: Option<seq<byte>>, mask: array<byte>) returns (key: array<byte>)
    requires mask.Length == 4
    ensures key[..] == ExpandKey(extra, mask[..])
    ensures if extra.Some? then fresh(key) else key == mask
  {
    match extra
    case None => key := mask;
    case Some(e) =>
      key := new byte[|e|](_ => 0);
      for i := 0 to |e|
        invariant forall j :: 0 <= j < i ==> key[j] == e[j] ^ mask[j % 4]
      {
        key[i] := e[i] ^ mask[i % 4];
      }
  }

  /** `maskPayload`: XORs payload[lo..hi] in place, the key starting afresh at lo. */
  method MaskPayload(payload: array<byte>, lo: nat, hi: nat, key: array<byte>)
    requires lo <= hi <= payload.Length && key.Length > 0 && key != payload
    modifies payload
    ensures payload[..] == old(payload[..lo] + Masked(payload[lo..hi], key[..]) + payload[hi..])
  {
    for i := lo to hi
      invariant forall j :: 0 <= j < lo || i <= j < payload.Length ==> payload[j] == old(payload[j])
      invariant forall j :: lo <= j < i ==> payload[j] == old(payload[j]) ^ key[(j - lo) % key.Length]
    {
      payload[i] := payload[i] ^ key[(i - lo) % key.Length];
    }
    ghost var was, now := old(payload[..]), payload[..];
    forall j | 0 <= j < |was|
      ensures now[j] == (was[..lo] + Masked(was[lo..hi], key[..]) + was[hi..])[j]
    {
      if lo <= j < hi {
        assert was[lo..hi][j - lo] == was[j];
      }
    }
    assert old(payload[lo..hi]) == was[lo..hi];
  }
}
