/**
 * Octets and the 32-bit integer conversions the wire format uses:
 * `htonl` / `ntohl` (network, i.e. big-endian, byte order) and the
 * C conversions between `uint32_t` and `int32_t`.
 */
module Bytes {

  type Byte = b: int | 0 <= b < 256

  const TwoTo31: int := 0x8000_0000
  const TwoTo32: int := 0x1_0000_0000

  /** The four bytes of a 32-bit value as `htonl` lays them out in memory. */
  function BeU32(n: int): (r: seq<Byte>)
    requires 0 <= n < TwoTo32
    ensures |r| == 4
  {
    [n / 0x100_0000, n / 0x1_0000 % 0x100, n / 0x100 % 0x100, n % 0x100]
  }

  /** `ntohl` of the first four bytes, read as `uint32_t`. */
  function ReadBeU32(s: seq<Byte>): (n: int)
    requires |s| >= 4
    ensures 0 <= n < TwoTo32
  {
    (s[0] as int) * 0x100_0000 + (s[1] as int) * 0x1_0000 + (s[2] as int) * 0x100 + s[3]
  }

  /** The C conversion of a `uint32_t` bit pattern to `int32_t` (two's complement). */
  function AsInt32(u: int): (v: int)
    requires 0 <= u < TwoTo32
    ensures -TwoTo31 <= v < TwoTo31
    ensures v % TwoTo32 == u
  {
    if u < TwoTo31 then u else u - TwoTo32
  }

  /** The C conversion of any integer to `uint32_t` (reduction modulo 2^32). */
  function WrapU32(n: int): (u: int)
    ensures 0 <= u < TwoTo32
  {
    n % TwoTo32
  }

  /** `ntohl` of the first four bytes, read as `int32_t` as the decoder does. */
  function ReadBeI32(s: seq<Byte>): (v: int)
    requires |s| >= 4
    ensures -TwoTo31 <= v < TwoTo31
    ensures v % TwoTo32 == ReadBeU32(s)
    ensures v < 0 <==> s[0] >= 0x80
  {
    AsInt32(ReadBeU32(s))
  }

  /** Reading back what `BeU32` wrote gives the original value. */
  lemma ReadBeU32OfBeU32(n: int)
    requires 0 <= n < TwoTo32
    ensures ReadBeU32(BeU32(n)) == n
  {
    var a, b, c, d := n / 0x100_0000, n / 0x1_0000 % 0x100, n / 0x100 % 0x100, n % 0x100;
    assert n / 0x1_0000 == a * 0x100 + b;
    assert n / 0x100 == (n / 0x1_0000) * 0x100 + c;
    assert n == (n / 0x100) * 0x100 + d;
  }

  /** A four-byte pattern is determined by the value it encodes. */
  lemma BeU32OfReadBeU32(s: seq<Byte>)
    requires |s| == 4
    ensures BeU32(ReadBeU32(s)) == s
  {
    var n := ReadBeU32(s);
    assert n / 0x100 == (s[0] as int) * 0x1_0000 + (s[1] as int) * 0x100 + s[2];
    assert n / 0x1_0000 == (s[0] as int) * 0x100 + s[1];
    assert n / 0x100_0000 == s[0];
  }

  /** A length that fits in `int32_t` survives the trip through `htonl` and a signed `ntohl`. */
  lemma ReadBeI32OfBeU32(n: int, rest: seq<Byte>)
    requires 0 <= n < TwoTo31
    ensures ReadBeI32(BeU32(n) + rest) == n
  {
    ReadBeU32OfBeU32(n);
    assert (BeU32(n) + rest)[..4] == BeU32(n);
    assert ReadBeU32(BeU32(n) + rest) == ReadBeU32(BeU32(n));
  }
}
