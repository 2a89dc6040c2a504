/** Byte-level building blocks shared by both ends of the point-cloud stream:
    the C# integer widths that appear on the wire and the little-endian
    encodings produced by BitConverter on a little-endian host. */
module Bytes {

  /** C# `byte`. */
  type byte = x: int | 0 <= x < 0x100

  /** C# `ushort`, the raw depth sample type. */
  type ushort = x: int | 0 <= x < 0x1_0000

  /** The 32-bit pattern of a C# `float`. Its value as a number is never
      interpreted here: the calibration table is only moved, never computed with. */
  type FloatBits = x: int | 0 <= x < 0x1_0000_0000

  /** Least significant byte of a 16-bit value: the one byte congruent to it mod 256. */
  function LowByte(u: ushort): (b: byte)
    ensures (u - b) % 0x100 == 0
  {
    u % 0x100
  }

  /** Most significant byte of a 16-bit value. */
  function HighByte(u: ushort): (b: byte)
    ensures b as int * 0x100 <= u < b as int * 0x100 + 0x100
  {
    u / 0x100
  }

  /** `BitConverter.GetBytes(ushort)`: two bytes, least significant first. */
  function UShortBytes(u: ushort): (r: seq<byte>)
    ensures |r| == 2
    ensures UInt16LE(r[0], r[1]) == u
  {
    [LowByte(u), HighByte(u)]
  }

  /** `BitConverter.ToUInt16`: the unsigned value of two little-endian bytes. */
  function UInt16LE(lo: byte, hi: byte): (u: ushort)
    ensures LowByte(u) == lo && HighByte(u) == hi
  {
    lo + 0x100 * hi
  }

  /** `BitConverter.ToInt16`: the two's-complement value of two little-endian bytes. */
  function Int16LE(lo: byte, hi: byte): (v: int)
    ensures -0x8000 <= v < 0x8000
    ensures (v - UInt16LE(lo, hi)) % 0x1_0000 == 0
    ensures v < 0 <==> hi >= 0x80
  {
    var u := UInt16LE(lo, hi);
    if u < 0x8000 then u else u - 0x1_0000
  }

  /** The 16-bit two's-complement reading of a `ushort`: values below 32768 are
      kept, the upper half of the range is shifted down by 65536. */
  function Signed(u: ushort): (v: int)
    ensures -0x8000 <= v < 0x8000
    ensures (v - u) % 0x1_0000 == 0
    ensures u < 0x8000 ==> v == u
  {
    if u < 0x8000 then u else u - 0x1_0000
  }

  /** Reading back a `ushort`'s own two bytes as a signed `short` gives its
      two's-complement reading. */
  lemma SignedReadOfUShort(u: ushort)
    ensures Int16LE(LowByte(u), HighByte(u)) == Signed(u)
  {
    assert UInt16LE(LowByte(u), HighByte(u)) == u;
  }

  /** `BitConverter.GetBytes(float)`: the four bytes of the bit pattern, least
      significant first. */
  function FloatBytes(f: FloatBits): (r: seq<byte>)
    ensures |r| == 4
    ensures FloatFromBytes(r) == f
  {
    var f1 := f / 0x100;
    var f2 := f1 / 0x100;
    assert f == f % 0x100 + 0x100 * (f1 % 0x100 + 0x100 * (f2 % 0x100 + 0x100 * (f2 / 0x100)));
    [f % 0x100, f1 % 0x100, f2 % 0x100, f2 / 0x100]
  }

  /** `BitConverter.ToSingle`, read as a bit pattern. */
  function FloatFromBytes(b: seq<byte>): FloatBits
    requires |b| == 4
  {
    b[0] as int + 0x100 * (b[1] as int + 0x100 * (b[2] as int + 0x100 * b[3] as int))
  }

  /** Decoding then encoding four bytes gives them back: the encoding is a bijection. */
  lemma FloatBytesOfFromBytes(b: seq<byte>)
    requires |b| == 4
    ensures FloatBytes(FloatFromBytes(b)) == b
  {
    var f := FloatFromBytes(b);
    var f1 := b[1] as int + 0x100 * (b[2] as int + 0x100 * b[3] as int);
    var f2 := b[2] as int + 0x100 * b[3] as int;
    assert f / 0x100 == f1 && f % 0x100 == b[0];
    assert f1 / 0x100 == f2 && f1 % 0x100 == b[1];
    assert f2 / 0x100 == b[3] && f2 % 0x100 == b[2];
  }
}
