/** Laws of the CRC that its first value and its last complement are there for (IEEE 802.3,
    clause 3.2.9), shown on the register's bits. */
module CrcLaws {
  import opened CrcSteps
  import opened CrcTables
  import opened CrcRegister
  import opened Crc

  lemma {:induction false} StateAppend(s: bv32, a: seq<bv8>, b: seq<bv8>)
    ensures SerialState(s, a + b) == SerialState(SerialState(s, a), b)
    decreases |a|
  {
    if a == [] {
      assert a + b == b;
    } else {
      assert (a + b)[1..] == a[1..] + b;
      StateAppend(SerialByte(s, a[0]), a[1..], b);
    }
  }

  // ----- words and their bits

  lemma FourBitsSame(x: bv32, y: bv32)
    requires forall i: nat :: i < 4 ==> BitAt(x, i) == BitAt(y, i)
    ensures x & 0xf == y & 0xf
  {
    LowFourBits(x);
    LowFourBits(y);
    assert BitAt(x, 0) == BitAt(y, 0) && BitAt(x, 1) == BitAt(y, 1) && BitAt(x, 2) == BitAt(y, 2) && BitAt(x, 3) == BitAt(y, 3);
    FourMasksSame(x, y);
  }

  lemma FourMasksSame(x: bv32, y: bv32)
    requires (x & 0x1 != 0) == (y & 0x1 != 0) && (x & 0x2 != 0) == (y & 0x2 != 0)
    requires (x & 0x4 != 0) == (y & 0x4 != 0) && (x & 0x8 != 0) == (y & 0x8 != 0)
    ensures x & 0xf == y & 0xf
  {}

  ghost predicate Down4(x: bv32, h: bv32) {
    h == x >> 4
  }

  lemma HighPartSame(x: bv32, y: bv32, h: bv32)
    requires x & 0xf == y & 0xf && Down4(x, h) && Down4(y, h)
    ensures x == y
  {}

  lemma Down4Bit(x: bv32, h: bv32, i: nat)
    requires Down4(x, h)
    ensures BitAt(x, i + 4) == BitAt(h, i)
  {
    FourDown(x, i);
  }

  /** k more groups of four bits above these are all there is. */
  predicate Below(x: bv32, k: nat)
    decreases k
  {
    if k == 0 then x == 0 else Below(x >> 4, k - 1)
  }

  lemma WordBelow(x: bv32)
    ensures Below(x, 8)
  {
    assert x >> 4 >> 4 >> 4 >> 4 >> 4 >> 4 >> 4 >> 4 == 0;
    assert Below(x >> 4 >> 4 >> 4 >> 4 >> 4 >> 4 >> 4, 1);
    assert Below(x >> 4 >> 4 >> 4 >> 4 >> 4 >> 4, 2);
    assert Below(x >> 4 >> 4 >> 4 >> 4 >> 4, 3);
    assert Below(x >> 4 >> 4 >> 4 >> 4, 4);
    assert Below(x >> 4 >> 4 >> 4, 5);
    assert Below(x >> 4 >> 4, 6);
    assert Below(x >> 4, 7);
  }

  lemma BelowDown(x: bv32, k: nat) returns (h: bv32)
    requires k > 0 && Below(x, k)
    ensures Down4(x, h) && Below(h, k - 1)
  {
    h := x >> 4;
  }

  ghost predicate SameBits(x: bv32, y: bv32, n: nat) {
    forall i: nat :: i < n ==> BitAt(x, i) == BitAt(y, i)
  }

  lemma SameHighBits(x: bv32, y: bv32, h: bv32, h': bv32, n: nat)
    requires SameBits(x, y, n + 4) && Down4(x, h) && Down4(y, h')
    ensures SameBits(h, h', n)
  {
    forall i: nat | i < n
      ensures BitAt(h, i) == BitAt(h', i)
    {
      Down4Bit(x, h, i);
      Down4Bit(y, h', i);
      assert BitAt(x, i + 4) == BitAt(y, i + 4);
    }
  }

  lemma {:induction false} SameBitsSameWord(x: bv32, y: bv32, k: nat)
    requires Below(x, k) && Below(y, k) && SameBits(x, y, 4 * k)
    ensures x == y
    decreases k
  {
    if k > 0 {
      FourBitsSame(x, y);
      var h := BelowDown(x, k);
      var h' := BelowDown(y, k);
      SameHighBits(x, y, h, h', 4 * (k - 1));
      SameBitsSameWord(h, h', k - 1);
      HighPartSame(x, y, h);
    }
  }

  lemma SameRegisterSameWord(x: bv32, y: bv32)
    requires Bits(x) == Bits(y)
    ensures x == y
  {
    WordBelow(x);
    WordBelow(y);
    forall i: nat | i < 32
      ensures BitAt(x, i) == BitAt(y, i)
    {
      assert Bits(x)[i] == Bits(y)[i];
    }
    SameBitsSameWord(x, y, 8);
  }

  /** The bits of a byte are the low bits of a word and those of its next four. */
  predicate SameMasks(b: bv8, x: bv32, h: bv32) {
    && (b & 0x1 != 0) == (x & 0x1 != 0) && (b & 0x2 != 0) == (x & 0x2 != 0)
    && (b & 0x4 != 0) == (x & 0x4 != 0) && (b & 0x8 != 0) == (x & 0x8 != 0)
    && (b & 0x10 != 0) == (h & 0x1 != 0) && (b & 0x20 != 0) == (h & 0x2 != 0)
    && (b & 0x40 != 0) == (h & 0x4 != 0) && (b & 0x80 != 0) == (h & 0x8 != 0)
  }

  lemma LowByteMasks(x: bv32)
    ensures SameMasks(LowByte(x), x, x >> 4) && Down4(x, x >> 4)
  {}

  ghost predicate IsBit(b: bv8, x: bv32, i: nat)
    requires i < 8
  {
    ByteBits(b)[i] == BitAt(x, i)
  }

  lemma BitsByMasks(b: bv8, x: bv32, h: bv32, i: nat)
    requires SameMasks(b, x, h) && Down4(x, h) && i < 8
    ensures IsBit(b, x, i)
  {
    BitsOfByte(b);
    LowFourBits(x);
    LowFourBits(h);
    Down4Bit(x, h, 0);
    Down4Bit(x, h, 1);
    Down4Bit(x, h, 2);
    Down4Bit(x, h, 3);
    assert IsBit(b, x, 0) && IsBit(b, x, 1) && IsBit(b, x, 2) && IsBit(b, x, 3);
    assert IsBit(b, x, 4) && IsBit(b, x, 5) && IsBit(b, x, 6) && IsBit(b, x, 7);
  }

  /** The low byte of a word has its low eight bits. */
  lemma BitsOfLowByte(x: bv32, i: nat)
    requires i < 8
    ensures ByteBits(LowByte(x))[i] == BitAt(x, i)
  {
    LowByteMasks(x);
    BitsByMasks(LowByte(x), x, x >> 4, i);
  }

  // ----- the residue

  /** The bytes of a CRC, lowest first. */
  function CrcBytes(c: bv32): seq<bv8> {
    [LowByte(c), LowByte(c >> 8), LowByte(c >> 16), LowByte(c >> 24)]
  }

  ghost predicate Down8(x: bv32, h: bv32) {
    h == x >> 8
  }

  lemma Down8Bit(x: bv32, h: bv32, i: nat)
    requires Down8(x, h)
    ensures BitAt(x, i + 8) == BitAt(h, i)
  {
    ByteDown(x, i);
  }

  lemma SecondShift(c: bv32)
    ensures Down8(c >> 8, c >> 16)
  {}

  lemma ThirdShift(c: bv32)
    ensures Down8(c >> 16, c >> 24)
  {}

  lemma ShiftsByBytes(c: bv32)
    ensures Down8(c, CrcByte32(c, 1)) && Down8(CrcByte32(c, 1), CrcByte32(c, 2))
    ensures Down8(CrcByte32(c, 2), CrcByte32(c, 3))
  {
    SecondShift(c);
    ThirdShift(c);
  }

  lemma {:induction false} ShiftedBit(c: bv32, c0: bv32, c1: bv32, c2: bv32, c3: bv32, j: nat, i: nat)
    requires Down8(c0, c1) && Down8(c1, c2) && Down8(c2, c3) && c0 == c
    requires j < 4 && i < 8
    ensures BitAt(if j == 0 then c0 else if j == 1 then c1 else if j == 2 then c2 else c3, i) == BitAt(c, 8 * j + i)
  {
    Down8Bit(c2, c3, i);
    Down8Bit(c1, c2, i);
    Down8Bit(c1, c2, i + 8);
    Down8Bit(c0, c1, i);
    Down8Bit(c0, c1, i + 8);
    Down8Bit(c0, c1, i + 16);
  }

  function CrcByte32(c: bv32, j: nat): bv32
    requires j < 4
  {
    if j == 0 then c else if j == 1 then c >> 8 else if j == 2 then c >> 16 else c >> 24
  }

  /** As a message they are the bits of the CRC in the order of the register. */
  lemma CrcBytesAreBits(c: bv32)
    ensures MessageBits(CrcBytes(c)) == Bits(c)
  {
    forall i: nat | i < 32
      ensures MessageBits(CrcBytes(c))[i] == Bits(c)[i]
    {
      MessageBitAt(CrcBytes(c), i);
      assert CrcBytes(c)[i / 8] == LowByte(CrcByte32(c, i / 8));
      BitsOfLowByte(CrcByte32(c, i / 8), i % 8);
      ShiftsByBytes(c);
      ShiftedBit(c, c, CrcByte32(c, 1), CrcByte32(c, 2), CrcByte32(c, 3), i / 8, i % 8);
    }
  }

  lemma OnesBits(i: nat)
    requires i < 32
    ensures BitAt(0xffff_ffff, i)
  {
    if i >= 16 {
      ByteDown(0xffff_ffff, i - 8);
      ByteDown(0x00ff_ffff, i - 16);
      LowSixteen(0x0000_ffff, i - 16);
    } else {
      LowSixteen(0xffff_ffff, i);
    }
  }

  lemma LowSixteen(x: bv32, i: nat)
    requires x & 0xffff == 0xffff && i < 16
    ensures BitAt(x, i)
  {
    if i >= 8 {
      ByteDown(x, i - 8);
      BitsOfLowByte(x >> 8, i - 8);
      AllOnes(x >> 8, i - 8);
    } else {
      AllOnes(x, i);
    }
  }

  lemma AllOnes(x: bv32, i: nat)
    requires x & 0xff == 0xff && i < 8
    ensures BitAt(x, i)
  {
    LowFourBits(x);
    LowFourBits(x >> 4);
    FourDown(x, 0);
    FourDown(x, 1);
    FourDown(x, 2);
    FourDown(x, 3);
  }

  const ONES: bv32 := 0xffff_ffff

  function Complemented(bits: seq<bool>): (r: seq<bool>)
    ensures |r| == |bits|
  {
    seq(|bits|, i requires 0 <= i < |bits| => !bits[i])
  }

  lemma ComplementBit(x: bv32, i: nat)
    requires i < 32
    ensures BitAt(x ^ 0xffff_ffff, i) == !BitAt(x, i)
  {
    BitOfXor(x, ONES, x ^ 0xffff_ffff, i);
    OnesBits(i);
  }

  lemma ComplementBits(x: bv32)
    ensures Bits(x ^ 0xffff_ffff) == Complemented(Bits(x))
  {
    forall i: nat | i < 32
      ensures BitAt(x ^ 0xffff_ffff, i) == !BitAt(x, i)
    {
      ComplementBit(x, i);
    }
  }

  function AllSet(): Register {
    seq(32, _ => true)
  }

  lemma BitsOfOnes()
    ensures Bits(0xffff_ffff) == AllSet()
  {
    forall i: nat | i < 32
      ensures BitAt(0xffff_ffff, i)
    {
      OnesBits(i);
    }
  }

  /** A register fed its own complement is that of all ones fed zeros. */
  lemma ComplementToZeros(r: Register)
    ensures Run(r, Complemented(r)) == Run(AllSet(), Zeros(32))
  {
    FeedAhead(r, Complemented(r));
    assert XorLow(r, Complemented(r)) == AllSet();
  }

  lemma {:induction false} StepsInTwo(x: bv32, a: nat, b: nat)
    ensures StepTimes(x, a + b) == StepTimes(StepTimes(x, a), b)
    decreases a
  {
    if a > 0 {
      StepsInTwo(BitStep(x), a - 1, b);
    }
  }

  lemma OnesFedZeros()
    ensures StepTimes(0xffff_ffff, 32) == 0xdebb_20e3
  {
    StepsInTwo(0xffff_ffff, 8, 24);
    EightSteps(0xffff_ffff);
    assert ByteStep(0xffff_ffff) == 0x2dfd_1072;
    StepsInTwo(0x2dfd_1072, 8, 16);
    EightSteps(0x2dfd_1072);
    assert ByteStep(0x2dfd_1072) == 0xbe26_ed00;
    StepsInTwo(0xbe26_ed00, 8, 8);
    EightSteps(0xbe26_ed00);
    assert ByteStep(0xbe26_ed00) == 0x00be_26ed;
    EightSteps(0x00be_26ed);
    assert ByteStep(0x00be_26ed) == 0xdebb_20e3;
  }

  lemma StateOfOwnCrc(s: bv32)
    ensures SerialState(s, CrcBytes(s ^ 0xffff_ffff)) == 0xdebb_20e3
  {
    var c := s ^ 0xffff_ffff;
    StateIsRun(s, CrcBytes(c));
    CrcBytesAreBits(c);
    ComplementBits(s);
    ComplementToZeros(Bits(s));
    BitsOfOnes();
    BitsOfSteps(0xffff_ffff, 32);
    OnesFedZeros();
    SameRegisterSameWord(SerialState(s, CrcBytes(c)), 0xdebb_20e3);
  }

  lemma CrcOfState(m: seq<bv8>, s: bv32)
    requires SerialState(0xffff_ffff, m) == s
    ensures SerialCrc(m) == s ^ 0xffff_ffff
  {}

  lemma ResidueOfState(s: bv32)
    requires s == 0xdebb_20e3
    ensures s ^ 0xffff_ffff == 0x2144_df1c
  {}

  /** A message with its own CRC behind it, lowest byte first, always has the same CRC. */
  lemma Residue(m: seq<bv8>)
    ensures SerialCrc(m + CrcBytes(SerialCrc(m))) == 0x2144_df1c
  {
    var s := SerialState(0xffff_ffff, m);
    CrcOfState(m, s);
    StateAppend(0xffff_ffff, m, CrcBytes(SerialCrc(m)));
    StateOfOwnCrc(s);
    var t := SerialState(0xffff_ffff, m + CrcBytes(SerialCrc(m)));
    CrcOfState(m + CrcBytes(SerialCrc(m)), t);
    ResidueOfState(t);
  }

  // ----- the start

  lemma ComplementMasks(b: bv8)
    ensures (!b & 0x1 != 0) != (b & 0x1 != 0) && (!b & 0x2 != 0) != (b & 0x2 != 0)
    ensures (!b & 0x4 != 0) != (b & 0x4 != 0) && (!b & 0x8 != 0) != (b & 0x8 != 0)
    ensures (!b & 0x10 != 0) != (b & 0x10 != 0) && (!b & 0x20 != 0) != (b & 0x20 != 0)
    ensures (!b & 0x40 != 0) != (b & 0x40 != 0) && (!b & 0x80 != 0) != (b & 0x80 != 0)
  {}

  ghost predicate Opposite(b: bv8, c: bv8, i: nat)
    requires i < 8
  {
    ByteBits(b)[i] != ByteBits(c)[i]
  }

  lemma ComplementByte(b: bv8, c: bv8, i: nat)
    requires c == !b && i < 8
    ensures ByteBits(c)[i] == !ByteBits(b)[i]
  {
    BitsOfByte(b);
    BitsOfByte(c);
    ComplementMasks(b);
    assert Opposite(b, c, 0) && Opposite(b, c, 1) && Opposite(b, c, 2) && Opposite(b, c, 3);
    assert Opposite(b, c, 4) && Opposite(b, c, 5) && Opposite(b, c, 6) && Opposite(b, c, 7);
    assert Opposite(b, c, i);
  }

  lemma ComplementMessage(a: seq<bv8>, b: seq<bv8>)
    requires |a| == |b| && forall k :: 0 <= k < |a| ==> b[k] == !a[k]
    ensures MessageBits(b) == Complemented(MessageBits(a))
  {
    forall i: nat | i < 8 * |a|
      ensures MessageBits(b)[i] == !MessageBits(a)[i]
    {
      MessageBitAt(a, i);
      MessageBitAt(b, i);
      ComplementByte(a[i / 8], b[i / 8], i % 8);
    }
  }

  lemma NoneSet(r: Register, bits: seq<bool>)
    requires |bits| == 32 && r == Zeros(32)
    ensures Run(AllSet(), bits) == Run(r, Complemented(bits))
  {
    FeedAhead(AllSet(), bits);
    FeedAhead(r, Complemented(bits));
    assert XorLow(AllSet(), bits) == XorLow(r, Complemented(bits));
  }

  lemma BitsOfZero()
    ensures Bits(0) == Zeros(32)
  {
    forall i: nat
      ensures !BitAt(0, i)
    {
      NoBits(i);
    }
  }

  lemma FourComplements(a: seq<bv8>, b: seq<bv8>)
    requires |a| == |b| == 4 && forall k :: 0 <= k < 4 ==> b[k] == !a[k]
    ensures SerialState(0xffff_ffff, a) == SerialState(0, b)
  {
    StateIsRun(0xffff_ffff, a);
    StateIsRun(0, b);
    BitsOfOnes();
    BitsOfZero();
    ComplementMessage(a, b);
    NoneSet(Zeros(32), MessageBits(a));
    SameRegisterSameWord(SerialState(0xffff_ffff, a), SerialState(0, b));
  }

  lemma CrcIsComplement(m: seq<bv8>, s: bv32)
    requires SerialState(0xffff_ffff, m) == s
    ensures SerialCrc(m) == !s
  {
    CrcOfState(m, s);
    assert s ^ 0xffff_ffff == !s;
  }

  lemma StartComplements(m: seq<bv8>, b: seq<bv8>)
    requires |m| >= 4 && |b| == 4 && forall k :: 0 <= k < 4 ==> b[k] == !m[k]
    ensures SerialState(0xffff_ffff, m) == SerialState(0, b + m[4..])
  {
    assert m == m[..4] + m[4..];
    StateAppend(0xffff_ffff, m[..4], m[4..]);
    StateAppend(0, b, m[4..]);
    FourComplements(m[..4], b);
  }

  /** The CRC is the complement of the register reached from zero over the message with its
      first 32 bits complemented. */
  lemma StartAndEnd(m: seq<bv8>, b: seq<bv8>)
    requires |m| >= 4 && |b| == 4 && forall k :: 0 <= k < 4 ==> b[k] == !m[k]
    ensures SerialCrc(m) == !SerialState(0, b + m[4..])
  {
    StartComplements(m, b);
    CrcIsComplement(m, SerialState(0, b + m[4..]));
  }

  /** The CRC of nothing is zero. */
  lemma EmptyMessage()
    ensures SerialCrc([]) == 0
  {
    CrcOfState([], 0xffff_ffff);
  }

  /** The CRC of a header stands in bytes 16 to 19, lowest first, and nothing else changes
      when it is stored. */
  lemma FieldBytes(h: seq<bv8>, crc: bv32)
    requires |h| >= HEADER_LENGTH
    ensures PutCrc(h, crc) == h[..16] + CrcBytes(crc) + h[20..] && GetCrc(h[..16] + CrcBytes(crc) + h[20..]) == crc
  {
    PutThenGet(h, crc);
    assert PutCrc(h, crc) == h[..16] + CrcBytes(crc) + h[20..];
  }
}
