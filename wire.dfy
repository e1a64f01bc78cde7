/**
 * Bytes and the big-endian integer encodings used by the chunk wire format
 * (the binpacker packer/unpacker configured with binary.BigEndian).
 */
module Wire {

  /** A Go `byte`. */
  type Byte = b: int | 0 <= b < 256

  /** 256^n, the number of values an n-byte field can hold. */
  function Pow256(n: nat): (r: nat)
    ensures r >= 1
  {
    if n == 0 then 1 else 256 * Pow256(n - 1)
  }

  const U32_LIMIT: nat := 0x1_0000_0000
  const I64_MIN: int := -0x8000_0000_0000_0000
  const I64_MAX: int := 0x7fff_ffff_ffff_ffff
  const U64_LIMIT: nat := 0x1_0000_0000_0000_0000

  /** The widths of the u32 and i64 fields, in bytes. */
  const U32_BYTES: nat := 4
  const I64_BYTES: nat := 8

  lemma Pow256Widths()
    ensures Pow256(U32_BYTES) == U32_LIMIT
    ensures Pow256(I64_BYTES) == U64_LIMIT
  {
    assert Pow256(4) == U32_LIMIT;
    assert Pow256(8) == U64_LIMIT;
  }

  /** The `width`-byte big-endian representation of x, most significant byte first. */
  function BigEndian(x: nat, width: nat): (r: seq<Byte>)
    requires x < Pow256(width)
    ensures |r| == width
  {
    if width == 0 then [] else BigEndian(x / 256, width - 1) + [x % 256]
  }

  /** The unsigned value of a big-endian byte string. */
  function FromBigEndian(s: seq<Byte>): (r: nat)
    ensures r < Pow256(|s|)
  {
    if s == [] then 0 else FromBigEndian(s[..|s| - 1]) * 256 + s[|s| - 1]
  }

  lemma {:induction false} BigEndianRoundTrip(x: nat, width: nat)
    requires x < Pow256(width)
    ensures FromBigEndian(BigEndian(x, width)) == x
  {
    if width > 0 {
      var s := BigEndian(x / 256, width - 1);
      BigEndianRoundTrip(x / 256, width - 1);
      assert (s + [x % 256])[..width - 1] == s;
    }
  }

  lemma {:induction false} FromBigEndianRoundTrip(s: seq<Byte>)
    ensures BigEndian(FromBigEndian(s), |s|) == s
  {
    if s != [] {
      var p := s[..|s| - 1];
      FromBigEndianRoundTrip(p);
      assert s == p + [s[|s| - 1]];
    }
  }

  /** n zero bytes, as make([]byte, n) gives them. */
  function Zeros(n: nat): (r: seq<Byte>)
    ensures |r| == n
    ensures forall i | 0 <= i < n :: r[i] == 0
  {
    seq(n, _ => 0)
  }

  /** PushUint32: four big-endian bytes. */
  function Uint32(x: nat): (r: seq<Byte>)
    requires x < U32_LIMIT
    ensures |r| == 4
  {
    Pow256Widths();
    BigEndian(x, U32_BYTES)
  }

  /** The two's-complement bit pattern of a signed 64-bit integer, read as unsigned. */
  function I64Bits(x: int): (r: nat)
    requires I64_MIN <= x <= I64_MAX
    ensures r < U64_LIMIT
  {
    if x >= 0 then x else x + U64_LIMIT
  }

  /** The signed 64-bit integer whose two's-complement bit pattern is u. */
  function I64FromBits(u: nat): (r: int)
    requires u < U64_LIMIT
    ensures I64_MIN <= r <= I64_MAX
  {
    if u <= I64_MAX then u else u - U64_LIMIT
  }

  lemma I64BitsRoundTrip(x: int, u: nat)
    requires I64_MIN <= x <= I64_MAX && u < U64_LIMIT
    ensures I64FromBits(I64Bits(x)) == x
    ensures I64Bits(I64FromBits(u)) == u
  {
  }

  /** PushInt64: eight big-endian bytes of the two's-complement pattern. */
  function Int64(x: int): (r: seq<Byte>)
    requires I64_MIN <= x <= I64_MAX
    ensures |r| == 8
  {
    Pow256Widths();
    BigEndian(I64Bits(x), I64_BYTES)
  }

  /** FetchUint32's value for four fetched bytes. */
  function ReadUint32(s: seq<Byte>): (r: nat)
    requires |s| == 4
    ensures r < U32_LIMIT
  {
    Pow256Widths();
    FromBigEndian(s)
  }

  /** FetchInt64's value for eight fetched bytes. */
  function ReadInt64(s: seq<Byte>): (r: int)
    requires |s| == 8
    ensures I64_MIN <= r <= I64_MAX
  {
    Pow256Widths();
    I64FromBits(FromBigEndian(s))
  }

  lemma Uint32RoundTrip(x: nat, s: seq<Byte>)
    requires x < U32_LIMIT && |s| == 4
    ensures ReadUint32(Uint32(x)) == x
    ensures Uint32(ReadUint32(s)) == s
  {
    Pow256Widths();
    BigEndianRoundTrip(x, U32_BYTES);
    FromBigEndianRoundTrip(s);
  }

  lemma Int64RoundTrip(x: int, s: seq<Byte>)
    requires I64_MIN <= x <= I64_MAX && |s| == 8
    ensures ReadInt64(Int64(x)) == x
    ensures Int64(ReadInt64(s)) == s
  {
    Pow256Widths();
    BigEndianRoundTrip(I64Bits(x), I64_BYTES);
    FromBigEndianRoundTrip(s);
  }
}
