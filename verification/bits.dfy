/**
  Fixed-width unsigned integers as bit strings.

  Cells store their data bit by bit, most significant bit first; every
  fixed-width integer the wallet codecs read or write (send modes, tags,
  sequence numbers) goes through the two conversions below.
 */
module Bits {

  /** One byte: a send mode, or one byte of a key, hash or signature. */
  type Byte = x: int | 0 <= x < 256

  type Uint32 = x: int | 0 <= x < 0x1_0000_0000
  type Uint64 = x: int | 0 <= x < 0x1_0000_0000_0000_0000
  type Int8 = x: int | -128 <= x < 128

  function Pow2(n: nat): (p: nat)
    ensures p >= 1
  {
    if n == 0 then 1 else 2 * Pow2(n - 1)
  }

  /** The powers of two that bound the widths used by the wallet formats: a byte, a word, a long. */
  lemma Pow2Byte()
    ensures Pow2(8) == 0x100
  {
  }

  lemma Pow2Word()
    ensures Pow2(32) == 0x1_0000_0000
  {
    Pow2Byte();
    Pow2Add(8, 8);
    Pow2Add(16, 16);
  }

  lemma Pow2Long()
    ensures Pow2(64) == 0x1_0000_0000_0000_0000
  {
    Pow2Word();
    Pow2Add(32, 32);
  }

  lemma {:induction false} Pow2Add(a: nat, b: nat)
    ensures Pow2(a + b) == Pow2(a) * Pow2(b)
  {
    if a > 0 {
      Pow2Add(a - 1, b);
    }
  }

  /** The `width`-bit big-endian encoding of `v`, as a cell's WriteUint lays it out. */
  function UintBits(v: nat, width: nat): (bs: seq<bool>)
    requires v < Pow2(width)
    ensures |bs| == width
  {
    if width == 0 then [] else UintBits(v / 2, width - 1) + [v % 2 == 1]
  }

  /** The unsigned value of a big-endian bit string, as a cell's ReadUint computes it. */
  function UintValue(bs: seq<bool>): (v: nat)
    ensures v < Pow2(|bs|)
  {
    if |bs| == 0 then 0
    else 2 * UintValue(bs[..|bs| - 1]) + (if bs[|bs| - 1] then 1 else 0)
  }

  /** Reading back what was written gives the value written. */
  lemma {:induction false} UintValueOfBits(v: nat, width: nat)
    requires v < Pow2(width)
    ensures UintValue(UintBits(v, width)) == v
  {
    if width > 0 {
      var bs := UintBits(v, width);
      assert bs[..width - 1] == UintBits(v / 2, width - 1);
      UintValueOfBits(v / 2, width - 1);
    }
  }

  /** The bytes of a whole number of octets, as a cell's ReadBytes groups them. */
  function BytesOfBits(bs: seq<bool>): (r: seq<Byte>)
    requires |bs| % 8 == 0
    ensures |r| == |bs| / 8
    ensures forall i :: 0 <= i < |r| ==> r[i] == UintValue(bs[8 * i .. 8 * i + 8])
  {
    Pow2Byte();
    if |bs| == 0 then []
    else
      var tail := BytesOfBits(bs[8..]);
      assert forall i :: 0 < i <= |tail| ==> bs[8..][8 * (i - 1) .. 8 * (i - 1) + 8] == bs[8 * i .. 8 * i + 8];
      [UintValue(bs[..8]) as Byte] + tail
  }

  /** The bits of a byte string, eight per byte, most significant first. */
  function BitsOfBytes(r: seq<Byte>): (bs: seq<bool>)
    ensures |bs| == 8 * |r|
    ensures forall i :: 0 <= i < |r| ==> bs[8 * i .. 8 * i + 8] == UintBits(r[i], 8)
  {
    Pow2Byte();
    if |r| == 0 then []
    else
      var head := UintBits(r[0], 8);
      var tail := BitsOfBytes(r[1..]);
      assert forall i :: 0 < i < |r| ==> (head + tail)[8 * i .. 8 * i + 8] == tail[8 * (i - 1) .. 8 * (i - 1) + 8];
      head + tail
  }

  /** Grouping the bits of a byte string gives back the byte string. */
  lemma BytesOfBitsOfBytes(r: seq<Byte>)
    ensures BytesOfBits(BitsOfBytes(r)) == r
  {
    Pow2Byte();
    var bs := BitsOfBytes(r);
    var back := BytesOfBits(bs);
    forall i | 0 <= i < |r|
      ensures back[i] == r[i]
    {
      var chunk := bs[8 * i .. 8 * i + 8];
      assert chunk == UintBits(r[i], 8);
      assert back[i] == UintValue(chunk);
      UintValueOfBits(r[i], 8);
    }
  }
}
