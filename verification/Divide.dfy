/** The 64-step shift-and-subtract division of the 32-bit library. */
module Divide {
  import opened Words

  // ----- the instructions used

  /** `rcl x, 1`; `shl` is the same with no carry in. */
  function Rcl(x: uint32, carry: bool): (r: (uint32, bool))
    ensures 2 * x + (if carry then 1 else 0) == r.0 + (if r.1 then TWO_32 else 0)
  {
    (x * 2 % TWO_32 + (if carry then 1 else 0), x >= TWO_31)
  }

  function Sub(a: uint32, b: uint32): uint32 {
    (a - b) % TWO_32
  }

  /** `and`, for a mask of all zeros or all ones. */
  function Masked(mask: uint32, x: uint32): uint32
    requires mask == 0 || mask == TWO_32 - 1
  {
    if mask == 0 then 0 else x
  }

  /** The bit shifted out of a dividend. */
  function TopBit(dividend: int): int {
    if dividend >= TWO_64 / 2 then 1 else 0
  }

  /** One turn of the loop: the next bit of the dividend goes into the remainder, and
      a bit of the quotient takes its place. The remainder never needs a 33rd bit. */
  method DivideStep(lo: uint32, hi: uint32, rem: uint32, divisor: uint32) returns (lo': uint32, hi': uint32, rem': uint32)
    requires 0 < divisor < TWO_31 && rem < divisor
    ensures var n := lo + TWO_32 * hi;
      var shifted := 2 * rem + TopBit(n);
      && shifted < TWO_32
      && rem' == (if shifted >= divisor then shifted - divisor else shifted)
      && lo' + TWO_32 * hi' == 2 * n - TWO_64 * TopBit(n) + (if shifted >= divisor then 1 else 0)
    ensures rem' < divisor
  {
    var carry, eax;
    var shl, c0 := Rcl(lo, false).0, Rcl(lo, false).1;
    var rcl, c1 := Rcl(hi, c0).0, Rcl(hi, c0).1;
    var rem2, c2 := Rcl(rem, c1).0, Rcl(rem, c1).1;
    lo', hi', rem' := shl, rcl, rem2;
    eax := rem';
    carry := eax < divisor;
    carry := !carry;
    eax := if carry then TWO_32 - 1 else 0;
    lo' := Sub(lo', eax);
    eax := Masked(eax, divisor);
    rem' := Sub(rem', eax);
  }

  // ----- the loop

  lemma Pow2Of64()
    ensures Pow2(64) == TWO_64
  {
    assert Pow2(8) == 0x100;
    Pow2Sum(8, 8);
    Pow2Sum(16, 16);
    Pow2Sum(32, 32);
  }

  /** The bits h of the dividend taken in so far were divided into quot and rem; the
      other bits l stand above quot in the dividend's place. */
  ghost predicate Halfway(dividend: int, divisor: int, h: int, l: int, quot: int, rem: int, p: int, q: int, word: int) {
    && p * q == TWO_64 && p > 0 && q > 0
    && dividend == h * p + l && 0 <= l < p
    && h == quot * divisor + rem && 0 <= rem < divisor && 0 <= quot < q
    && word == l * q + quot
  }

  /** One more bit taken in. */
  lemma OneMoreBit(dividend: int, divisor: int, h: int, l: int, quot: int, rem: int, p: int, q: int, word: int, b: int, half: int)
    requires Halfway(dividend, divisor, h, l, quot, rem, 2 * p, q, word) && p > 0
    requires b == (if l >= p then 1 else 0) && half == 2 * rem + b
    ensures b == TopBit(word)
    ensures half < divisor ==>
      Halfway(dividend, divisor, 2 * h + b, l - b * p, 2 * quot, half, p, 2 * q, 2 * word - TWO_64 * b)
    ensures divisor <= half ==>
      Halfway(dividend, divisor, 2 * h + b, l - b * p, 2 * quot + 1, half - divisor, p, 2 * q, 2 * word - TWO_64 * b + 1)
  {
    assert p * (2 * q) == TWO_64;
    TopBitOf(l, p, q, quot, word);
    assert h * (2 * p) == (2 * h) * p && b * p + (2 * h) * p == (2 * h + b) * p;
    assert 2 * h == (2 * quot) * divisor + 2 * rem;
    assert (2 * quot + 1) * divisor == (2 * quot) * divisor + divisor;
    if b == 1 {
      assert (l - p) * (2 * q) == 2 * (l * q) - p * (2 * q);
    } else {
      assert l * (2 * q) == 2 * (l * q);
    }
  }

  lemma TopBitOf(l: int, p: int, q: int, quot: int, word: int)
    requires p > 0 && q > 0 && p * (2 * q) == TWO_64 && 0 <= l < 2 * p && 0 <= quot < q && word == l * q + quot
    ensures 0 <= word < TWO_64
    ensures TopBit(word) == if l >= p then 1 else 0
  {
    assert p * (2 * q) == 2 * (p * q);
    if l >= p {
      assert l * q == p * q + (l - p) * q && (l - p) * q >= 0;
      assert (2 * p - l) * q >= q && (2 * p - l) * q == 2 * (p * q) - l * q by {
        Times(2 * p - l, q);
      }
    } else {
      assert (p - l) * q >= q && (p - l) * q == p * q - l * q by {
        Times(p - l, q);
      }
      assert l * q >= 0;
    }
  }

  /** Quotient and remainder, for every dividend and every nonzero 31-bit divisor. */
  method DivU64x32(dividend: uint64, divisor: uint32) returns (quotient: uint64, remainder: uint32)
    requires 0 < divisor < TWO_31
    ensures dividend == quotient * divisor + remainder && remainder < divisor
  {
    var lo: uint32, hi: uint32, rem: uint32 := dividend % TWO_32, dividend / TWO_32, 0;
    var bit := 0;
    ghost var h, l, quot, q := 0, dividend as int, 0, 1;
    Pow2Of64();
    while bit < 64
      invariant 0 <= bit <= 64 && rem < divisor
      invariant Halfway(dividend, divisor, h, l, quot, rem, Pow2(64 - bit), q, lo + TWO_32 * hi)
    {
      ghost var word, p := lo + TWO_32 * hi, Pow2(63 - bit);
      ghost var b := if l >= p then 1 else 0;
      OneMoreBit(dividend, divisor, h, l, quot, rem, p, q, word, b, 2 * rem + b);
      quot := if 2 * rem + b < divisor then 2 * quot else 2 * quot + 1;
      lo, hi, rem := DivideStep(lo, hi, rem, divisor);
      h, l, q := 2 * h + b, l - b * p, 2 * q;
      bit := bit + 1;
    }
    assert Pow2(0) == 1;
    quotient, remainder := lo + TWO_32 * hi, rem;
  }
}
