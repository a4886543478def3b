/** Byte encodings for the C types the accessor macros are instantiated with.
    The header's format is host-endian, so the byte order is a parameter. The
    integer codecs store the two's-complement bits; `bool` takes one byte;
    `float` and `double` are opaque 4- and 8-byte bit patterns; the pointer
    types are 8-byte addresses. Each codec is proved to read back what it
    stores. */
module Codecs {
  import opened UpbTypes
  import opened Accessors

  /** Byte order of the host. */
  datatype Endian = LittleEndian | BigEndian

  function Pow256(w: nat): (p: nat)
    ensures p >= 1
  {
    if w == 0 then 1 else 256 * Pow256(w - 1)
  }

  /** A number below 256 converts to the byte that denotes it. */
  lemma ByteOfNat(x: nat)
    requires x < 256
    ensures (x as bv8) as nat == x
  {
    assert x % 256 == x;
  }

  /** The `w` low-order bytes of `v`, least significant first. */
  function LEBytes(v: nat, w: nat): seq<bv8>
  {
    if w == 0 then [] else [(v % 256) as bv8] + LEBytes(v / 256, w - 1)
  }

  /** The number whose bytes, least significant first, are `bs`. */
  function LEValue(bs: seq<bv8>): (v: nat)
    ensures v < Pow256(|bs|)
  {
    if bs == [] then 0 else bs[0] as nat + 256 * LEValue(bs[1..])
  }

  function Reverse(bs: seq<bv8>): (r: seq<bv8>)
    ensures |r| == |bs|
    ensures forall k :: 0 <= k < |bs| ==> r[k] == bs[|bs| - 1 - k]
  {
    if bs == [] then [] else Reverse(bs[1..]) + [bs[0]]
  }

  /** Bytes in memory order from bytes least significant first, and back. */
  function InHostOrder(bs: seq<bv8>, e: Endian): seq<bv8>
  {
    if e == LittleEndian then bs else Reverse(bs)
  }

  /** The first `w` bytes of `bs`, padded with zero bytes if it is shorter. */
  function Prefix(bs: seq<bv8>, w: nat): (r: seq<bv8>)
    ensures |r| == w
    ensures forall k :: 0 <= k < w && k < |bs| ==> r[k] == bs[k]
  {
    if |bs| >= w then bs[..w] else bs + seq(w - |bs|, _ => 0 as bv8)
  }

  /** A `w`-byte unsigned integer in host order. */
  function UIntBytes(v: nat, w: nat, e: Endian): seq<bv8> {
    InHostOrder(LEBytes(v, w), e)
  }

  /** The `w`-byte unsigned integer stored in host order at the start of `bs`. */
  function UIntValue(bs: seq<bv8>, w: nat, e: Endian): (v: nat)
    ensures v < Pow256(w)
  {
    LEValue(InHostOrder(Prefix(bs, w), e))
  }

  lemma {:induction false} LEBytesRoundTrip(v: nat, w: nat)
    requires v < Pow256(w)
    ensures |LEBytes(v, w)| == w
    ensures LEValue(LEBytes(v, w)) == v
  {
    if w > 0 {
      var lo, hi := v % 256, v / 256;
      assert hi < Pow256(w - 1);
      LEBytesRoundTrip(hi, w - 1);
      var bytes := LEBytes(v, w);
      ByteOfNat(lo);
      assert bytes[0] as nat == lo;
      assert bytes[1..] == LEBytes(hi, w - 1);
      assert LEValue(bytes) == lo + 256 * hi;
    }
  }

  lemma {:induction false} ReverseReverse(bs: seq<bv8>)
    ensures Reverse(Reverse(bs)) == bs
  {
  }

  /** A `w`-byte unsigned integer stored in either byte order reads back
      unchanged. */
  lemma UIntRoundTrip(v: nat, w: nat, e: Endian)
    requires v < Pow256(w)
    ensures |UIntBytes(v, w, e)| == w
    ensures UIntValue(UIntBytes(v, w, e), w, e) == v
  {
    LEBytesRoundTrip(v, w);
    var bytes := UIntBytes(v, w, e);
    assert Prefix(bytes, w) == bytes;
    ReverseReverse(LEBytes(v, w));
  }

  /** Two's-complement reading of a `w`-byte unsigned integer. */
  function FromTwosComplement(u: nat, w: nat): int
  {
    if w > 0 && 2 * u >= Pow256(w) then u - Pow256(w) else u
  }

  /** Two's-complement bits of a signed integer, as an unsigned one. */
  function ToTwosComplement(v: int, w: nat): nat
    requires -(Pow256(w) as int) <= 2 * v < Pow256(w)
  {
    if v < 0 then v + Pow256(w) else v
  }

  lemma TwosComplementRoundTrip(v: int, w: nat)
    requires w > 0
    requires -(Pow256(w) as int) <= 2 * v < Pow256(w)
    ensures ToTwosComplement(v, w) < Pow256(w)
    ensures FromTwosComplement(ToTwosComplement(v, w), w) == v
  {
  }

  function DecodeU32(bs: seq<bv8>, e: Endian): u32 {
    assert Pow256(4) == 0x1_0000_0000;
    UIntValue(bs, 4, e) as u32
  }

  function DecodeU64(bs: seq<bv8>, e: Endian): u64 {
    assert Pow256(8) == 0x1_0000_0000_0000_0000;
    UIntValue(bs, 8, e) as u64
  }

  function DecodeI32(bs: seq<bv8>, e: Endian): i32 {
    assert Pow256(4) == 0x1_0000_0000;
    FromTwosComplement(UIntValue(bs, 4, e), 4) as i32
  }

  function DecodeI64(bs: seq<bv8>, e: Endian): i64 {
    assert Pow256(8) == 0x1_0000_0000_0000_0000;
    FromTwosComplement(UIntValue(bs, 8, e), 8) as i64
  }

  function EncodeI32(v: i32, e: Endian): seq<bv8> {
    assert Pow256(4) == 0x1_0000_0000;
    UIntBytes(ToTwosComplement(v as int, 4), 4, e)
  }

  function EncodeI64(v: i64, e: Endian): seq<bv8> {
    assert Pow256(8) == 0x1_0000_0000_0000_0000;
    UIntBytes(ToTwosComplement(v as int, 8), 8, e)
  }

  /** `uint32_t`. */
  function UInt32Codec(e: Endian): Codec<u32> {
    Codec(4, (v: u32) => UIntBytes(v as nat, 4, e), (bs: seq<bv8>) => DecodeU32(bs, e))
  }

  /** `uint64_t`; also the pointer types, taken as 8-byte addresses. */
  function UInt64Codec(e: Endian): Codec<u64> {
    Codec(8, (v: u64) => UIntBytes(v as nat, 8, e), (bs: seq<bv8>) => DecodeU64(bs, e))
  }

  /** `int32_t`. */
  function Int32Codec(e: Endian): Codec<i32> {
    Codec(4, (v: i32) => EncodeI32(v, e), (bs: seq<bv8>) => DecodeI32(bs, e))
  }

  /** `int64_t`. */
  function Int64Codec(e: Endian): Codec<i64> {
    Codec(8, (v: i64) => EncodeI64(v, e), (bs: seq<bv8>) => DecodeI64(bs, e))
  }

  /** `bool`: one byte, 1 for true and 0 for false. */
  function BoolCodec(): Codec<bool> {
    Codec(1, (v: bool) => [if v then 1 else 0], (bs: seq<bv8>) => |bs| > 0 && bs[0] != 0)
  }

  /** The bit pattern of a `float` or a `double`, left uninterpreted. */
  type FloatBits = bs: seq<bv8> | |bs| == 4 witness [0, 0, 0, 0]
  type DoubleBits = bs: seq<bv8> | |bs| == 8 witness [0, 0, 0, 0, 0, 0, 0, 0]

  function DecodeFloat(bs: seq<bv8>): FloatBits {
    Prefix(bs, 4)
  }

  function DecodeDouble(bs: seq<bv8>): DoubleBits {
    Prefix(bs, 8)
  }

  /** `float`: the four bytes of its bit pattern, in host order. */
  function FloatCodec(): Codec<FloatBits> {
    Codec(4, (v: FloatBits) => v, (bs: seq<bv8>) => DecodeFloat(bs))
  }

  /** `double`: the eight bytes of its bit pattern, in host order. */
  function DoubleCodec(): Codec<DoubleBits> {
    Codec(8, (v: DoubleBits) => v, (bs: seq<bv8>) => DecodeDouble(bs))
  }

  lemma UInt32CodecValid(e: Endian)
    ensures ValidCodec(UInt32Codec(e))
  {
    forall v: u32 ensures |UInt32Codec(e).encode(v)| == 4 && UInt32Codec(e).decode(UInt32Codec(e).encode(v)) == v {
      assert Pow256(4) == 0x1_0000_0000;
      UIntRoundTrip(v as nat, 4, e);
    }
  }

  lemma UInt64CodecValid(e: Endian)
    ensures ValidCodec(UInt64Codec(e))
  {
    forall v: u64 ensures |UInt64Codec(e).encode(v)| == 8 && UInt64Codec(e).decode(UInt64Codec(e).encode(v)) == v {
      assert Pow256(8) == 0x1_0000_0000_0000_0000;
      UIntRoundTrip(v as nat, 8, e);
    }
  }

  lemma Int32CodecValid(e: Endian)
    ensures ValidCodec(Int32Codec(e))
  {
    forall v: i32 ensures |Int32Codec(e).encode(v)| == 4 && Int32Codec(e).decode(Int32Codec(e).encode(v)) == v {
      assert Pow256(4) == 0x1_0000_0000;
      TwosComplementRoundTrip(v as int, 4);
      UIntRoundTrip(ToTwosComplement(v as int, 4), 4, e);
    }
  }

  lemma Int64CodecValid(e: Endian)
    ensures ValidCodec(Int64Codec(e))
  {
    forall v: i64 ensures |Int64Codec(e).encode(v)| == 8 && Int64Codec(e).decode(Int64Codec(e).encode(v)) == v {
      assert Pow256(8) == 0x1_0000_0000_0000_0000;
      TwosComplementRoundTrip(v as int, 8);
      UIntRoundTrip(ToTwosComplement(v as int, 8), 8, e);
    }
  }

  lemma BoolCodecValid()
    ensures ValidCodec(BoolCodec())
  {
  }

  lemma FloatCodecValid()
    ensures ValidCodec(FloatCodec())
  {
    forall v: FloatBits ensures FloatCodec().decode(FloatCodec().encode(v)) == v {
      assert v[..4] == v;
    }
  }

  lemma DoubleCodecValid()
    ensures ValidCodec(DoubleCodec())
  {
    forall v: DoubleBits ensures DoubleCodec().decode(DoubleCodec().encode(v)) == v {
      assert v[..8] == v;
    }
  }
}
