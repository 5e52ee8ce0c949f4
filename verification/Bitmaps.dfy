/** The kernel's bitmap: bits packed eight to a byte, most significant first. */
module Bitmaps {

  function Mask(k: nat): bv8
    requires k < 8
  {
    0x80 >> k
  }

  predicate BitAt(b: bv8, k: nat)
    requires k < 8
  {
    b & Mask(k) > 0
  }

  function WithBit(b: bv8, k: nat, value: bool): bv8
    requires k < 8
  {
    var cleared := b & !Mask(k);
    if value then cleared | Mask(k) else cleared
  }

  lemma MasksAreBits(k: nat, j: nat)
    requires k < 8 && j < 8
    ensures Mask(k) != 0
    ensures j != k ==> Mask(k) & Mask(j) == 0
  {
    var ms := [0x80 as bv8, 0x40, 0x20, 0x10, 0x08, 0x04, 0x02, 0x01];
    assert Mask(0) == ms[0] && Mask(1) == ms[1] && Mask(2) == ms[2] && Mask(3) == ms[3];
    assert Mask(4) == ms[4] && Mask(5) == ms[5] && Mask(6) == ms[6] && Mask(7) == ms[7];
  }

  lemma MaskedByte(b: bv8, m: bv8, other: bv8)
    requires m != 0 && (m & other == 0 || m == other)
    ensures (b & !m) & m == 0 && ((b & !m) | m) & m == m
    ensures m & other == 0 ==> (b & !m) & other == b & other && ((b & !m) | m) & other == b & other
  {}

  lemma WithBitReads(b: bv8, k: nat, value: bool, j: nat)
    requires k < 8 && j < 8
    ensures BitAt(WithBit(b, k, value), j) == if j == k then value else BitAt(b, j)
  {
    MasksAreBits(k, j);
    MaskedByte(b, Mask(k), Mask(j));
  }

  /** The places of the eight bits of a byte. */
  lemma BitPlaces(b: bv8)
    ensures BitAt(b, 0) == (b & 0x80 != 0) && BitAt(b, 1) == (b & 0x40 != 0)
    ensures BitAt(b, 2) == (b & 0x20 != 0) && BitAt(b, 3) == (b & 0x10 != 0)
    ensures BitAt(b, 4) == (b & 0x08 != 0) && BitAt(b, 5) == (b & 0x04 != 0)
    ensures BitAt(b, 6) == (b & 0x02 != 0) && BitAt(b, 7) == (b & 0x01 != 0)
  {
    var ms := [0x80 as bv8, 0x40, 0x20, 0x10, 0x08, 0x04, 0x02, 0x01];
    assert Mask(0) == ms[0] && Mask(1) == ms[1] && Mask(2) == ms[2] && Mask(3) == ms[3];
    assert Mask(4) == ms[4] && Mask(5) == ms[5] && Mask(6) == ms[6] && Mask(7) == ms[7];
  }

  /** The bits of a run of bytes, in index order. */
  function BitsOf(bytes: seq<bv8>): (bits: seq<bool>)
    ensures |bits| == 8 * |bytes|
  {
    seq(8 * |bytes|, j requires 0 <= j < 8 * |bytes| => BitAt(bytes[j / 8], j % 8))
  }

  lemma StoreBit(bytes: seq<bv8>, i: nat, value: bool)
    requires i < 8 * |bytes|
    ensures BitsOf(bytes[i / 8 := WithBit(bytes[i / 8], i % 8, value)]) == BitsOf(bytes)[i := value]
  {
    var bytes' := bytes[i / 8 := WithBit(bytes[i / 8], i % 8, value)];
    forall j | 0 <= j < 8 * |bytes|
      ensures BitsOf(bytes')[j] == if j == i then value else BitsOf(bytes)[j]
    {
      if j / 8 == i / 8 {
        WithBitReads(bytes[i / 8], i % 8, value, j % 8);
      }
    }
  }

  class Bitmap {
    var size: nat
    var address: nat        // where the buffer lies in physical memory
    var buffer: array<bv8>  // the bytes from there on

    constructor ()
      ensures Valid() && size == 0 && address == 0 && fresh(buffer)
    {
      size, address := 0, 0;
      buffer := new bv8[1];
    }

    /** There is memory behind the bitmap. */
    ghost predicate Valid()
      reads this
    {
      size < buffer.Length
    }

    /** What the bounds tests let through: the bits of the bitmap and, since they are
        off by one, the first bit of the byte behind it. */
    ghost function Tracked(): (bits: seq<bool>)
      requires Valid()
      reads this, buffer
      ensures |bits| == 8 * size + 1
    {
      BitsOf(buffer[..])[..8 * size + 1]
    }

    ghost function Bits(): (bits: seq<bool>)
      requires Valid()
      reads this, buffer
      ensures |bits| == 8 * size
    {
      Tracked()[..8 * size]
    }

    /** All other bits of the memory behind the bitmap. */
    ghost function Beyond(): seq<bool>
      requires Valid()
      reads this, buffer
    {
      BitsOf(buffer[..])[8 * size + 1..]
    }

    /** The bit, for every index up to and including the one just past the bitmap;
        clear for every other. */
    predicate Get(index: nat)
      requires Valid()
      reads this, buffer
      ensures Get(index) == (index <= 8 * size && Tracked()[index])
    {
      if index > size * 8 then false
      else
        assert buffer[index / 8] == buffer[..][index / 8];
        BitAt(buffer[index / 8], index % 8)
    }

    method Set(index: nat, value: bool) returns (done: bool)
      requires Valid()
      modifies buffer
      ensures done == (index <= 8 * size)
      ensures Tracked() == if done then old(Tracked())[index := value] else old(Tracked())
      ensures Beyond() == old(Beyond())
    {
      if index > size * 8 {
        return false;
      }
      var byteIndex, bitIndex := index / 8, index % 8;
      ghost var was := buffer[..];
      buffer[byteIndex] := WithBit(buffer[byteIndex], bitIndex, value);
      assert buffer[..] == was[byteIndex := WithBit(was[byteIndex], bitIndex, value)];
      StoreBit(was, index, value);
      StoredParts(BitsOf(was), index, value, 8 * size + 1);
      done := true;
    }
  }

  lemma StoredParts(bits: seq<bool>, i: nat, value: bool, n: nat)
    requires i < n <= |bits|
    ensures bits[i := value][..n] == bits[..n][i := value]
    ensures bits[i := value][n..] == bits[n..]
  {}
}
