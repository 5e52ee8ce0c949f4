/** `CalculateCrc` and the table header check built on it. */
module Crc {
  import opened CrcSteps
  import opened CrcTables
  import opened CrcRegister

  // ----- the reference: eight bit-serial steps a byte

  function SerialState(s: bv32, bytes: seq<bv8>): bv32
    decreases |bytes|
  {
    if bytes == [] then s else SerialState(SerialByte(s, bytes[0]), bytes[1..])
  }

  function SerialByte(s: bv32, b: bv8): bv32 {
    ByteStep(s ^ Wide(b))
  }

  function SerialCrc(bytes: seq<bv8>): bv32 {
    SerialState(0xffff_ffff, bytes) ^ 0xffff_ffff
  }

  lemma SplitXor(s: bv32, b: bv8)
    ensures (s ^ Wide(b)) >> 8 == s >> 8
    ensures LowByte(s ^ Wide(b)) == LowByte(s) ^ b
  {}

  /** One trip of the loop is one byte of the reference. */
  lemma TableByte(s: bv32, b: bv8)
    ensures (s >> 8) ^ CrcTable(LowByte(s) ^ b) == SerialByte(s, b)
  {
    SplitXor(s, b);
    TableStep(s ^ Wide(b));
  }

  method CrcByte(crc: bv32, byte: bv8) returns (next: bv32)
    ensures next == SerialByte(crc, byte)
  {
    TableByte(crc, byte);
    next := (crc >> 8) ^ CrcTable(LowByte(crc) ^ byte);
  }

  /** The table-driven loop computes the bit-serial CRC. */
  method CalculateCrc(data: array<bv8>, size: nat) returns (crc: bv32)
    requires size <= data.Length
    ensures crc == SerialCrc(data[..size])
  {
    crc := 0xffff_ffff;
    var pt, left: nat := 0, size;
    while left > 0
      invariant pt + left == size
      invariant SerialState(crc, data[pt..size]) == SerialState(0xffff_ffff, data[..size])
    {
      assert data[pt..size][1..] == data[pt + 1..size];
      crc := CrcByte(crc, data[pt]);
      pt, left := pt + 1, left - 1;
    }
    crc := crc ^ 0xffff_ffff;
  }

  // ----- what the CRC detects

  /** A message as the stream of bits the register is fed. */
  function MessageBits(bytes: seq<bv8>): (bits: seq<bool>)
    ensures |bits| == 8 * |bytes|
  {
    if bytes == [] then [] else ByteBits(bytes[0]) + MessageBits(bytes[1..])
  }

  lemma {:induction false} StateIsRun(s: bv32, bytes: seq<bv8>)
    ensures Bits(SerialState(s, bytes)) == Run(Bits(s), MessageBits(bytes))
    decreases |bytes|
  {
    if bytes != [] {
      BitsOfByteStep(s, bytes[0]);
      StateIsRun(SerialByte(s, bytes[0]), bytes[1..]);
      RunAppend(Bits(s), ByteBits(bytes[0]), MessageBits(bytes[1..]));
    }
  }

  lemma SameCrcSameState(a: seq<bv8>, b: seq<bv8>)
    requires SerialCrc(a) == SerialCrc(b)
    ensures SerialState(0xffff_ffff, a) == SerialState(0xffff_ffff, b)
  {
    ComplementTwice(SerialState(0xffff_ffff, a), SerialState(0xffff_ffff, b));
  }

  lemma ComplementTwice(x: bv32, y: bv32)
    ensures x ^ 0xffff_ffff == y ^ 0xffff_ffff ==> x == y
  {}

  /** Two messages of one length whose bit streams differ, but only inside some
      window of 32 bits, never have the same CRC. */
  lemma BurstsAreDetected(a: seq<bv8>, b: seq<bv8>, start: nat, width: nat)
    requires |a| == |b| && start + width <= 8 * |a| && width <= 32
    requires MessageBits(a) != MessageBits(b)
    requires forall i :: 0 <= i < 8 * |a| && !(start <= i < start + width) ==> MessageBits(a)[i] == MessageBits(b)[i]
    ensures SerialCrc(a) != SerialCrc(b)
  {
    if SerialCrc(a) == SerialCrc(b) {
      SameCrcSameState(a, b);
      StateIsRun(0xffff_ffff, a);
      StateIsRun(0xffff_ffff, b);
      EqualEndsEqualWindows(Bits(0xffff_ffff), MessageBits(a), MessageBits(b), start, width);
      assert false;
    }
  }

  lemma RunThree(r: Register, x: seq<bool>, y: seq<bool>, z: seq<bool>)
    ensures Run(r, x + y + z) == Run(Run(Run(r, x), y), z)
  {
    RunAppend(r, x + y, z);
    RunAppend(r, x, y);
  }

  /** Three parts of a stream, the outer ones alike in both. */
  lemma EqualEndsEqualParts(r: Register, x: seq<bool>, y: seq<bool>, y': seq<bool>, z: seq<bool>)
    requires |y| == |y'| <= 32 && Run(r, x + y + z) == Run(r, x + y' + z)
    ensures y == y'
  {
    RunThree(r, x, y, z);
    RunThree(r, x, y', z);
    SameBitsKeepStatesApart(Run(Run(r, x), y), Run(Run(r, x), y'), z);
    ShortRunsDiffer(Run(r, x), y, y');
  }

  lemma ThreeParts(a: seq<bool>, start: nat, end: nat)
    requires start <= end <= |a|
    ensures a == a[..start] + a[start..end] + a[end..]
  {}

  lemma EqualEndsEqualWindows(r: Register, a: seq<bool>, b: seq<bool>, start: nat, width: nat)
    requires |a| == |b| && start + width <= |a| && width <= 32
    requires forall i :: 0 <= i < |a| && !(start <= i < start + width) ==> a[i] == b[i]
    requires Run(r, a) == Run(r, b)
    ensures a == b
  {
    var end := start + width;
    ThreeParts(a, start, end);
    ThreeParts(b, start, end);
    assert a[..start] == b[..start] && a[end..] == b[end..];
    EqualEndsEqualParts(r, a[..start], a[start..end], b[start..end], a[end..]);
  }

  lemma {:induction false} MessageBitAt(bytes: seq<bv8>, i: nat)
    requires i < 8 * |bytes|
    ensures MessageBits(bytes)[i] == ByteBits(bytes[i / 8])[i % 8]
    decreases |bytes|
  {
    if i >= 8 {
      MessageBitAt(bytes[1..], i - 8);
    }
  }

  lemma LowFourBits(w: bv32)
    ensures BitAt(w, 0) == (w & 0x1 != 0) && BitAt(w, 1) == (w & 0x2 != 0)
    ensures BitAt(w, 2) == (w & 0x4 != 0) && BitAt(w, 3) == (w & 0x8 != 0)
  {
    assert BitAt(w, 1) == BitAt(w >> 1, 0);
    assert BitAt(w, 2) == BitAt(w >> 1, 1) == BitAt(w >> 2, 0);
    assert BitAt(w, 3) == BitAt(w >> 1, 2) == BitAt(w >> 2, 1) == BitAt(w >> 3, 0);
  }

  lemma FourDown(w: bv32, i: nat)
    ensures BitAt(w, i + 4) == BitAt(w >> 4, i)
  {
    assert BitAt(w, i + 4) == BitAt(w >> 1, i + 3) == BitAt(w >> 2, i + 2) == BitAt(w >> 3, i + 1);
    assert BitAt(w >> 3, i + 1) == BitAt(w >> 4, i);
  }

  lemma BitsOfWide(b: bv8)
    ensures (Wide(b) & 0x1 != 0) == (b & 0x1 != 0) && (Wide(b) & 0x2 != 0) == (b & 0x2 != 0)
    ensures (Wide(b) & 0x4 != 0) == (b & 0x4 != 0) && (Wide(b) & 0x8 != 0) == (b & 0x8 != 0)
    ensures ((Wide(b) >> 4) & 0x1 != 0) == (b & 0x10 != 0) && ((Wide(b) >> 4) & 0x2 != 0) == (b & 0x20 != 0)
    ensures ((Wide(b) >> 4) & 0x4 != 0) == (b & 0x40 != 0) && ((Wide(b) >> 4) & 0x8 != 0) == (b & 0x80 != 0)
  {}

  lemma BitsOfByte(b: bv8)
    ensures BitAt(Wide(b), 0) == (b & 0x1 != 0) && BitAt(Wide(b), 1) == (b & 0x2 != 0)
    ensures BitAt(Wide(b), 2) == (b & 0x4 != 0) && BitAt(Wide(b), 3) == (b & 0x8 != 0)
    ensures BitAt(Wide(b), 4) == (b & 0x10 != 0) && BitAt(Wide(b), 5) == (b & 0x20 != 0)
    ensures BitAt(Wide(b), 6) == (b & 0x40 != 0) && BitAt(Wide(b), 7) == (b & 0x80 != 0)
  {
    BitsOfWide(b);
    LowFourBits(Wide(b));
    LowFourBits(Wide(b) >> 4);
    FourDown(Wide(b), 0);
    FourDown(Wide(b), 1);
    FourDown(Wide(b), 2);
    FourDown(Wide(b), 3);
  }

  predicate SameBit(x: bv8, y: bv8, i: nat)
    requires i < 8
  {
    BitAt(Wide(x), i) == ByteBits(x)[i] == ByteBits(y)[i] == BitAt(Wide(y), i)
  }

  lemma SameBitsSameByte(x: bv8, y: bv8)
    requires ByteBits(x) == ByteBits(y)
    ensures x == y
  {
    BitsOfByte(x);
    BitsOfByte(y);
    assert SameBit(x, y, 0) && SameBit(x, y, 1) && SameBit(x, y, 2) && SameBit(x, y, 3);
    assert SameBit(x, y, 4) && SameBit(x, y, 5) && SameBit(x, y, 6) && SameBit(x, y, 7);
    SameMasksSameByte(x, y);
  }

  lemma SameMasksSameByte(x: bv8, y: bv8)
    requires (x & 0x1 != 0) == (y & 0x1 != 0) && (x & 0x2 != 0) == (y & 0x2 != 0)
    requires (x & 0x4 != 0) == (y & 0x4 != 0) && (x & 0x8 != 0) == (y & 0x8 != 0)
    requires (x & 0x10 != 0) == (y & 0x10 != 0) && (x & 0x20 != 0) == (y & 0x20 != 0)
    requires (x & 0x40 != 0) == (y & 0x40 != 0) && (x & 0x80 != 0) == (y & 0x80 != 0)
    ensures x == y
  {}

  lemma {:induction false} SameBitsSameMessage(a: seq<bv8>, b: seq<bv8>)
    requires |a| == |b| && MessageBits(a) == MessageBits(b)
    ensures a == b
  {
    forall k | 0 <= k < |a|
      ensures a[k] == b[k]
    {
      forall i: nat | i < 8
        ensures ByteBits(a[k])[i] == ByteBits(b[k])[i]
      {
        MessageBitAt(a, 8 * k + i);
        MessageBitAt(b, 8 * k + i);
      }
      SameBitsSameByte(a[k], b[k]);
    }
  }

  /** Four neighbouring bytes are such a window: whatever is done to them shows. */
  lemma DamageIsDetected(a: seq<bv8>, b: seq<bv8>, first: nat)
    requires |a| == |b| && a != b
    requires forall k :: 0 <= k < |a| && !(first <= k < first + 4) ==> a[k] == b[k]
    ensures SerialCrc(a) != SerialCrc(b)
  {
    if MessageBits(a) == MessageBits(b) {
      SameBitsSameMessage(a, b);
    }
    var start := if first < |a| then first else |a|;
    var width := if first + 4 <= |a| then 32 else 8 * (|a| - start);
    forall i: nat | i < 8 * |a| && !(8 * start <= i < 8 * start + width)
      ensures MessageBits(a)[i] == MessageBits(b)[i]
    {
      MessageBitAt(a, i);
      MessageBitAt(b, i);
      assert a[i / 8] == b[i / 8];
    }
    BurstsAreDetected(a, b, 8 * start, width);
  }

  // ----- the CRC32 field of a table header, at offset 16, lowest byte first

  const CRC_OFFSET: nat := 16
  const HEADER_LENGTH: nat := 24

  function GetCrc(h: seq<bv8>): bv32
    requires |h| >= HEADER_LENGTH
  {
    Combine(h[16], h[17], h[18], h[19])
  }

  function Combine(a: bv8, b: bv8, c: bv8, d: bv8): bv32 {
    Wide(a) | (Wide(b) << 8) | (Wide(c) << 16) | (Wide(d) << 24)
  }

  function PutCrc(h: seq<bv8>, crc: bv32): seq<bv8>
    requires |h| >= HEADER_LENGTH
  {
    h[16 := LowByte(crc)][17 := LowByte(crc >> 8)][18 := LowByte(crc >> 16)][19 := LowByte(crc >> 24)]
  }

  lemma CombineBytes(x: bv32)
    ensures Combine(LowByte(x), LowByte(x >> 8), LowByte(x >> 16), LowByte(x >> 24)) == x
  {}

  lemma PutThenGet(h: seq<bv8>, crc: bv32)
    requires |h| >= HEADER_LENGTH
    ensures GetCrc(PutCrc(h, crc)) == crc
  {
    CombineBytes(crc);
  }

  lemma PutTwice(h: seq<bv8>, first: bv32, second: bv32)
    requires |h| >= HEADER_LENGTH
    ensures PutCrc(PutCrc(h, first), second) == PutCrc(h, second)
  {}

  /** The CRC of the first bytes of a header with its own field taken as zero. */
  function HeaderCrc(h: seq<bv8>, size: nat): bv32
    requires HEADER_LENGTH <= |h| && size <= |h|
  {
    SerialCrc(PutCrc(h, 0)[..size])
  }

  method StoreCrc(hdr: array<bv8>, crc: bv32)
    requires hdr.Length >= HEADER_LENGTH
    modifies hdr
    ensures hdr[..] == PutCrc(old(hdr[..]), crc)
  {
    hdr[16] := LowByte(crc);
    hdr[17] := LowByte(crc >> 8);
    hdr[18] := LowByte(crc >> 16);
    hdr[19] := LowByte(crc >> 24);
  }

  method SetCrcAltSize(size: nat, hdr: array<bv8>)
    requires HEADER_LENGTH <= hdr.Length && size <= hdr.Length
    modifies hdr
    ensures hdr[..] == PutCrc(old(hdr[..]), HeaderCrc(old(hdr[..]), size))
  {
    ghost var was := hdr[..];
    StoreCrc(hdr, 0);
    assert hdr[..size] == hdr[..][..size];
    var crc := CalculateCrc(hdr, size);
    PutTwice(was, 0, crc);
    StoreCrc(hdr, crc);
  }

  /** Leaves the header as it was. A size of zero is turned away, since nothing
      would be checked, and so is one above a given maximum. */
  method CheckCrcAltSize(maxSize: nat, size: nat, hdr: array<bv8>) returns (f: bool)
    requires HEADER_LENGTH <= hdr.Length
    requires size != 0 && (maxSize != 0 ==> size <= maxSize) ==> size <= hdr.Length
    modifies hdr
    ensures hdr[..] == old(hdr[..])
    ensures f == (size != 0 && (maxSize != 0 ==> size <= maxSize) && GetCrc(hdr[..]) == HeaderCrc(hdr[..], size))
  {
    if size == 0 {
      return false;
    }
    if maxSize != 0 && size > maxSize {
      return false;
    }
    ghost var was := hdr[..];
    var orgCrc := GetCrc(hdr[..]);
    StoreCrc(hdr, 0);
    assert hdr[..size] == hdr[..][..size];
    var crc := CalculateCrc(hdr, size);
    StoreCrc(hdr, orgCrc);
    GetThenPut(was);
    f := orgCrc == crc;
  }

  lemma GetThenPut(h: seq<bv8>)
    requires |h| >= HEADER_LENGTH
    ensures PutCrc(h, GetCrc(h)) == h
  {
    GetBytes(h[16], h[17], h[18], h[19]);
  }

  lemma GetBytes(a: bv8, b: bv8, c: bv8, d: bv8)
    ensures var x := Combine(a, b, c, d);
      LowByte(x) == a && LowByte(x >> 8) == b && LowByte(x >> 16) == c && LowByte(x >> 24) == d
  {}

  /** A header whose CRC was just set passes the check for every size that is not zero ... */
  lemma SetThenCheck(h: seq<bv8>, size: nat)
    requires HEADER_LENGTH <= |h| && size <= |h|
    ensures var h' := PutCrc(h, HeaderCrc(h, size)); GetCrc(h') == HeaderCrc(h', size)
  {
    PutThenGet(h, HeaderCrc(h, size));
    PutTwice(h, HeaderCrc(h, size), 0);
  }

  /** ... and fails it once up to four neighbouring bytes it covers were changed ... */
  lemma DamagedHeaderFails(h: seq<bv8>, size: nat, h': seq<bv8>, first: nat)
    requires HEADER_LENGTH <= |h| == |h'| && size <= |h| && GetCrc(h) == HeaderCrc(h, size)
    requires forall k :: 0 <= k < |h| && !(first <= k < first + 4) ==> h[k] == h'[k]
    requires h[..size] != h'[..size]
    requires first + 4 <= CRC_OFFSET || CRC_OFFSET + 4 <= first
    ensures GetCrc(h') != HeaderCrc(h', size)
  {
    var a, b := PutCrc(h, 0)[..size], PutCrc(h', 0)[..size];
    var k :| 0 <= k < size && h[..size][k] != h'[..size][k];
    assert a[k] != b[k];
    DamageIsDetected(a, b, first);
    assert GetCrc(h) == GetCrc(h');
  }

  /** ... or once the CRC field itself was. */
  lemma DamagedCrcFails(h: seq<bv8>, size: nat, crc: bv32)
    requires HEADER_LENGTH <= |h| && size <= |h| && GetCrc(h) == HeaderCrc(h, size)
    requires crc != GetCrc(h)
    ensures GetCrc(PutCrc(h, crc)) != HeaderCrc(PutCrc(h, crc), size)
  {
    PutThenGet(h, crc);
    PutTwice(h, crc, 0);
  }
}
