/** Bytes, and the big-endian integers that message.go and connection.go read and write with encoding/binary. */
module Bytes {

  type byte = bv8

  function Pow256(width: nat): (p: nat)
    ensures p > 0
  {
    if width == 0 then 1 else 256 * Pow256(width - 1)
  }

  /** The low `width` bytes of `n`, most significant first. Higher bytes are dropped, as uint16(n) drops them. */
  function BigEndian(n: nat, width: nat): (s: seq<byte>)
    ensures |s| == width
  {
    if width == 0 then [] else BigEndian(n / 256, width - 1) + [(n % 256) as byte]
  }

  function FromBigEndian(s: seq<byte>): (n: nat)
  {
    if s == [] then 0 else FromBigEndian(s[..|s| - 1]) * 256 + s[|s| - 1] as nat
  }

  lemma {:induction false} ByteRoundTrip(n: nat)
    requires n < 256
    ensures (n as byte) as nat == n
  {
    assert (n as byte) as int >= 0 && (n as byte) as int < 256 && 0 <= n < 256;
  }

  lemma {:induction false} FromBigEndianSnoc(s: seq<byte>, n: nat)
    requires n < 256
    ensures FromBigEndian(s + [n as byte]) == FromBigEndian(s) * 256 + n
  {
    assert (s + [n as byte])[..|s|] == s;
    ByteRoundTrip(n);
  }

  lemma {:induction false} MultipleGrows(k: int, d: int)
    requires 0 < d && 1 <= k
    ensures k * d >= d
  {
    if k > 1 {
      MultipleGrows(k - 1, d);
    }
  }

  lemma {:induction false} SmallMultiple(k: int, d: int)
    requires 0 < d && -d < k * d < d
    ensures k == 0
  {
    if k >= 1 {
      MultipleGrows(k, d);
    } else if k <= -1 {
      MultipleGrows(-k, d);
    }
  }

  lemma {:induction false} ModUnique(n: nat, d: nat, q: nat, r: nat)
    requires r < d && n == q * d + r
    ensures n % d == r && n / d == q
  {
    assert (n / d - q) * d == r - n % d by {
      assert n == (n / d) * d + n % d;
    }
    SmallMultiple(n / d - q, d);
  }

  lemma {:induction false} DigitSplit(n: nat, p: nat)
    requires p > 0
    ensures n % (256 * p) == (n / 256) % p * 256 + n % 256
  {
    var q, r := (n / 256) / p, (n / 256) % p;
    var low := r * 256 + n % 256;
    assert n / 256 == q * p + r;
    assert n == q * (256 * p) + low by {
      assert q * (256 * p) == (q * p) * 256;
    }
    ModUnique(n, 256 * p, q, low);
  }

  lemma {:induction false} BigEndianRoundTrip(n: nat, width: nat)
    ensures FromBigEndian(BigEndian(n, width)) == n % Pow256(width)
  {
    if width == 0 {
    } else {
      FromBigEndianSnoc(BigEndian(n / 256, width - 1), n % 256);
      BigEndianRoundTrip(n / 256, width - 1);
      DigitSplit(n, Pow256(width - 1));
    }
  }

  const INT64_LIMIT: nat := 0x8000_0000_0000_0000

  /** int64(v) for an unsigned 64-bit v: values from 2^63 up turn negative. */
  function AsInt64(v: nat): (i: int)
  {
    if v < INT64_LIMIT then v else v - 2 * INT64_LIMIT
  }

  lemma {:induction false} Pow256Values()
    ensures Pow256(2) == 65536
    ensures Pow256(8) == 2 * INT64_LIMIT
  {
    assert Pow256(2) == 256 * Pow256(1);
    assert Pow256(4) == 256 * (256 * Pow256(2));
    assert Pow256(6) == 256 * (256 * Pow256(4));
    assert Pow256(8) == 256 * (256 * Pow256(6));
  }

  lemma {:induction false} SmallMod(n: nat, d: nat)
    requires n < d
    ensures n % d == n
  {
  }

  lemma {:induction false} TwoByteValue(n: nat)
    requires n < 65536
    ensures FromBigEndian(BigEndian(n, 2)) == n
  {
    hide BigEndian, FromBigEndian;
    BigEndianRoundTrip(n, 2);
    Pow256Values();
    SmallMod(n, Pow256(2));
  }

  lemma {:induction false} EightByteValue(n: nat)
    requires n < INT64_LIMIT
    ensures AsInt64(FromBigEndian(BigEndian(n, 8))) == n
  {
    hide BigEndian, FromBigEndian, Pow256;
    BigEndianRoundTrip(n, 8);
    Pow256Values();
    SmallMod(n, Pow256(8));
  }

  lemma {:induction false} TimesIn(a: int, b: int, c: int)
    ensures a * (b * c) == (a * c) * b && (a + c) * b == a * b + c * b
  {
  }

  /** n in base b, then what is left in base p. */
  lemma {:induction false} TwoDigits(n: nat, b: nat, m: nat, d: nat, p: nat, q: nat, r: nat, bp: nat)
    requires n == m * b + d && d < b && m == q * p + r && r < p && bp == b * p
    ensures n == q * bp + (r * b + d) && r * b + d < bp
  {
    TimesIn(q, b, p);
    TimesIn(q * p, b, r);
    TimesIn(p - r, b, r);
    MultipleGrows(p - r, b);
    TimesIn(1, p, b);
  }

  lemma {:induction false} DivMod(n: nat, d: nat)
    requires d > 0
    ensures n == n / d * d + n % d
  {
  }

  lemma {:induction false} DivDiv(n: nat, b: nat, p: nat, bp: nat)
    requires b > 0 && p > 0 && bp == b * p
    ensures bp > 0 && n / bp == n / b / p
  {
    MultipleGrows(b, p);
    var m, d := n / b, n % b;
    var q, r := m / p, m % p;
    DivMod(n, b);
    DivMod(m, p);
    TwoDigits(n, b, m, d, p, q, r, bp);
    ModUnique(n, bp, q, r * b + d);
  }

  /** Byte k from the right is that of 256^k. */
  lemma {:induction false} BigEndianAt(n: nat, width: nat, k: nat)
    requires k < width
    ensures BigEndian(n, width)[width - 1 - k] as nat == n / Pow256(k) % 256
  {
    ByteRoundTrip(n % 256);
    if k > 0 {
      BigEndianAt(n / 256, width - 1, k - 1);
      DivDiv(n, 256, Pow256(k - 1), Pow256(k));
    }
  }
}
