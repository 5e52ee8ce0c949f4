/** The CRC register as thirty-two single bits, fed one message bit at a time:
    which runs of message bits it can tell apart. */
module CrcRegister {
  import opened CrcSteps

  type Register = r: seq<bool> | |r| == 32 witness seq(32, _ => false)

  function BitAt(x: bv32, i: nat): bool
    decreases i
  {
    if i == 0 then x & 1 == 1 else BitAt(x >> 1, i - 1)
  }

  function Bits(x: bv32): Register {
    seq(32, i requires 0 <= i => BitAt(x, i))
  }

  function Wide(b: bv8): bv32 {
    b as bv32
  }

  /** The bits of a byte in the order they are fed: lowest first. */
  function ByteBits(b: bv8): (bits: seq<bool>)
    ensures |bits| == 8
  {
    seq(8, i requires 0 <= i => BitAt(Wide(b), i))
  }

  /** One message bit: the feedback is the low bit against the message bit. */
  function Feed(r: Register, bit: bool): Register {
    seq(32, i requires 0 <= i < 32 => (i < 31 && r[i + 1]) != (r[0] != bit && BitAt(POLYNOMIAL, i)))
  }

  function Run(r: Register, bits: seq<bool>): Register
    decreases |bits|
  {
    if bits == [] then r else Run(Feed(r, bits[0]), bits[1..])
  }

  /** The polynomial has its top bit, so a step shows its feedback there. */
  lemma TopOfPolynomial()
    ensures BitAt(POLYNOMIAL, 31)
  {
    ByteDown(POLYNOMIAL, 23);
    ByteDown(POLYNOMIAL >> 8, 15);
    ByteDown(POLYNOMIAL >> 16, 7);
    assert BitAt(0xed, 7) == BitAt(0x1d, 4) == BitAt(0x3, 1);
  }

  lemma ByteDown(x: bv32, i: nat)
    ensures BitAt(x, i + 8) == BitAt(x >> 8, i)
  {
    assert BitAt(x, i + 8) == BitAt(x >> 1, i + 7) == BitAt(x >> 2, i + 6) == BitAt(x >> 3, i + 5);
    assert BitAt(x >> 3, i + 5) == BitAt(x >> 4, i + 4) == BitAt(x >> 5, i + 3) == BitAt(x >> 6, i + 2);
    assert BitAt(x >> 6, i + 2) == BitAt(x >> 7, i + 1) == BitAt(x >> 8, i);
  }

  lemma {:induction false} RunAppend(r: Register, a: seq<bool>, b: seq<bool>)
    ensures Run(r, a + b) == Run(Run(r, a), b)
    decreases |a|
  {
    if a == [] {
      assert a + b == b;
    } else {
      assert (a + b)[1..] == a[1..] + b;
      RunAppend(Feed(r, a[0]), a[1..], b);
    }
  }

  /** The top bit after a step is the feedback, so equal registers came from
      equal feedback, and bits above the low one came down unchanged. */
  lemma {:induction false} HighBitsAgree(r: Register, s: Register, a: seq<bool>, b: seq<bool>)
    requires |a| == |b| && Run(r, a) == Run(s, b)
    ensures forall i :: |a| <= i < 32 ==> r[i] == s[i]
    decreases |a|
  {
    if a != [] && |a| <= 32 {
      TopOfPolynomial();
      var r', s' := Feed(r, a[0]), Feed(s, b[0]);
      HighBitsAgree(r', s', a[1..], b[1..]);
      assert r'[31] == s'[31];
      forall i | |a| <= i < 32
        ensures r[i] == s[i]
      {
        assert r'[i - 1] == s'[i - 1];
      }
    }
  }

  /** From one state, no two different runs of at most 32 bits lead to the same state. */
  lemma {:induction false} ShortRunsDiffer(r: Register, a: seq<bool>, b: seq<bool>)
    requires |a| == |b| <= 32 && Run(r, a) == Run(r, b)
    ensures a == b
    decreases |a|
  {
    if a != [] {
      TopOfPolynomial();
      var r', s' := Feed(r, a[0]), Feed(r, b[0]);
      HighBitsAgree(r', s', a[1..], b[1..]);
      assert r'[31] == s'[31];
      assert a[0] == b[0];
      ShortRunsDiffer(r', a[1..], b[1..]);
      assert a == [a[0]] + a[1..] && b == [b[0]] + b[1..];
    }
  }

  /** Different states fed the same bits stay different. */
  lemma {:induction false} SameBitsKeepStatesApart(r: Register, s: Register, bits: seq<bool>)
    requires Run(r, bits) == Run(s, bits)
    ensures r == s
    decreases |bits|
  {
    if bits != [] {
      TopOfPolynomial();
      var r', s' := Feed(r, bits[0]), Feed(s, bits[0]);
      SameBitsKeepStatesApart(r', s', bits[1..]);
      assert r'[31] == s'[31];
      forall i | 0 <= i < 32
        ensures r[i] == s[i]
      {
        if i > 0 {
          assert r'[i - 1] == s'[i - 1];
        }
      }
    }
  }

  // ----- the register as a 32-bit word

  ghost predicate IsXor(x: bv32, y: bv32, z: bv32) {
    z == x ^ y
  }

  ghost predicate BitIsXor(x: bv32, y: bv32, z: bv32, i: nat) {
    BitAt(z, i) == (BitAt(x, i) != BitAt(y, i))
  }

  lemma XorDown(x: bv32, y: bv32, z: bv32)
    requires IsXor(x, y, z)
    ensures BitIsXor(x, y, z, 0) && IsXor(x >> 1, y >> 1, z >> 1)
  {}

  lemma BitDown(x: bv32, y: bv32, z: bv32, i: nat)
    requires i > 0 && BitIsXor(x >> 1, y >> 1, z >> 1, i - 1)
    ensures BitIsXor(x, y, z, i)
  {}

  /** The bits of an exclusive or are the exclusive or of the bits. */
  lemma {:induction false} BitOfXor(x: bv32, y: bv32, z: bv32, i: nat)
    requires IsXor(x, y, z)
    ensures BitIsXor(x, y, z, i)
    decreases i
  {
    XorDown(x, y, z);
    if i > 0 {
      BitOfXor(x >> 1, y >> 1, z >> 1, i - 1);
      BitDown(x, y, z, i);
    }
  }

  lemma {:induction false} NoBits(i: nat)
    ensures !BitAt(0, i)
    decreases i
  {
    if i > 0 {
      NoBits(i - 1);
    }
  }

  lemma NoHighBit(x: bv32)
    ensures !BitAt(x >> 1, 31)
  {
    ByteDown(x >> 1, 23);
    ByteDown(x >> 9, 15);
    ByteDown(x >> 17, 7);
    assert BitAt(x >> 1, 31) == BitAt(x >> 25, 7);
    assert BitAt(x >> 25, 7) == BitAt(x >> 28, 4) == BitAt(x >> 31, 1) == BitAt(0, 0);
  }

  lemma BitsOfStep(x: bv32)
    ensures Bits(BitStep(x)) == Feed(Bits(x), false)
  {
    forall i: nat | i < 32
      ensures BitAt(BitStep(x), i) == ((i < 31 && BitAt(x, i + 1)) != (BitAt(x, 0) && BitAt(POLYNOMIAL, i)))
    {
      if x & 1 == 1 {
        BitOfXor(x >> 1, POLYNOMIAL, BitStep(x), i);
      }
      if i == 31 {
        NoHighBit(x);
      }
    }
  }

  // ----- a byte at a time

  /** The register with some message bits exclusive-ored into its low end. */
  function XorLow(r: Register, bits: seq<bool>): Register {
    seq(32, i requires 0 <= i < 32 => r[i] != (i < |bits| && bits[i]))
  }

  function Zeros(n: nat): (bits: seq<bool>)
    ensures |bits| == n
  {
    seq(n, _ => false)
  }

  /** Feeding bits one by one is the same as exclusive-oring them in at once and
      then stepping. */
  lemma {:induction false} FeedAhead(r: Register, bits: seq<bool>)
    requires |bits| <= 32
    ensures Run(r, bits) == Run(XorLow(r, bits), Zeros(|bits|))
    decreases |bits|
  {
    if bits == [] {
      assert XorLow(r, bits) == r;
      assert Zeros(0) == [];
    } else {
      var x := XorLow(r, bits);
      FeedAhead(Feed(r, bits[0]), bits[1..]);
      assert Zeros(|bits|)[1..] == Zeros(|bits| - 1);
      assert Feed(x, false) == XorLow(Feed(r, bits[0]), bits[1..]);
    }
  }

  lemma {:induction false} HighBitsOfByte(b: bv8, i: nat)
    requires 8 <= i
    ensures !BitAt(Wide(b), i)
  {
    ByteDown(Wide(b), i - 8);
    NoBits(i - 8);
    assert Wide(b) >> 8 == 0;
  }

  lemma BitsOfXorByte(x: bv32, b: bv8)
    ensures Bits(x ^ Wide(b)) == XorLow(Bits(x), ByteBits(b))
  {
    forall i: nat | i < 32
      ensures BitAt(x ^ Wide(b), i) == (BitAt(x, i) != (i < 8 && BitAt(Wide(b), i)))
    {
      BitOfXor(x, Wide(b), x ^ Wide(b), i);
      if i >= 8 {
        HighBitsOfByte(b, i);
      }
    }
  }

  function StepTimes(x: bv32, n: nat): bv32
    decreases n
  {
    if n == 0 then x else StepTimes(BitStep(x), n - 1)
  }

  lemma {:induction false} BitsOfSteps(x: bv32, n: nat)
    ensures Bits(StepTimes(x, n)) == Run(Bits(x), Zeros(n))
    decreases n
  {
    if n > 0 {
      BitsOfStep(x);
      BitsOfSteps(BitStep(x), n - 1);
      assert Zeros(n)[1..] == Zeros(n - 1);
    }
  }

  /** A byte step on the word is a run of the byte's bits on the register. */
  lemma BitsOfByteStep(x: bv32, b: bv8)
    ensures Bits(ByteStep(x ^ Wide(b))) == Run(Bits(x), ByteBits(b))
  {
    BitsOfXorByte(x, b);
    FeedAhead(Bits(x), ByteBits(b));
    BitsOfSteps(x ^ Wide(b), 8);
    EightSteps(x ^ Wide(b));
  }

  lemma EightSteps(x: bv32)
    ensures StepTimes(x, 8) == ByteStep(x)
  {}
}
