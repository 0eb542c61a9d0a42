/** Byte strings and big-endian length prefixes. */
module Bytes {
  import opened Modular

  type Byte = b: nat | b < 256

  type ByteString = seq<Byte>

  /** Bytes of a length prefix. */
  const LENGTH_BYTES: nat := 8

  /** The width lowest bytes of n, most significant first. */
  function BigEndian(n: nat, width: nat): (s: ByteString)
    ensures |s| == width
  {
    if width == 0 then [] else BigEndian(n / 256, width - 1) + [n % 256]
  }

  function FromBigEndian(s: ByteString): (n: nat)
  {
    if s == [] then 0 else 256 * FromBigEndian(s[..|s| - 1]) + s[|s| - 1]
  }

  lemma {:induction false} BigEndianRoundTrip(n: nat, width: nat)
    requires n < Power(256, width)
    ensures FromBigEndian(BigEndian(n, width)) == n
  {
    if width > 0 {
      var s := BigEndian(n, width);
      assert s[..width - 1] == BigEndian(n / 256, width - 1);
      BigEndianRoundTrip(n / 256, width - 1);
    }
  }

  lemma {:induction false} FromBigEndianRoundTrip(s: ByteString)
    ensures FromBigEndian(s) < Power(256, |s|)
    ensures BigEndian(FromBigEndian(s), |s|) == s
  {
    if s != [] {
      var t := s[..|s| - 1];
      FromBigEndianRoundTrip(t);
      assert s == t + [s[|s| - 1]];
    }
  }

  /** A number that leaves the top byte free is written with a zero byte in front. */
  lemma {:induction false} LeadingZero(n: nat, width: nat)
    requires width > 0 && n < Power(256, width - 1)
    ensures BigEndian(n, width)[0] == 0
  {
    if width > 1 {
      LeadingZero(n / 256, width - 1);
    }
  }
}
