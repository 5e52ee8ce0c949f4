/** The bits of 64-bit vectors and of numbers. */
module WordBits {
  import opened Words

  function BitOfWord(w: bv64, i: nat): bool {
    if i == 0 then w & 1 == 1 else BitOfWord(w >> 1, i - 1)
  }

  function BitOfNumber(n: nat, i: nat): bool {
    if i == 0 then n % 2 == 1 else BitOfNumber(n / 2, i - 1)
  }

  /** The low k bits of a word and a number agree. */
  ghost predicate SameBits(w: bv64, n: nat, k: nat) {
    forall i: nat :: i < k ==> BitOfWord(w, i) == BitOfNumber(n, i)
  }

  // ----- masks

  ghost predicate IsAnd(w: bv64, m: bv64, a: bv64) {
    a == w & m
  }

  ghost predicate BitIsAnd(w: bv64, m: bv64, a: bv64, i: nat) {
    BitOfWord(a, i) == (BitOfWord(w, i) && BitOfWord(m, i))
  }

  lemma AndDown(w: bv64, m: bv64, a: bv64)
    requires IsAnd(w, m, a)
    ensures BitIsAnd(w, m, a, 0) && IsAnd(w >> 1, m >> 1, a >> 1)
  {}

  lemma BitDown(w: bv64, m: bv64, a: bv64, i: nat)
    requires i > 0 && BitIsAnd(w >> 1, m >> 1, a >> 1, i - 1)
    ensures BitIsAnd(w, m, a, i)
  {}

  lemma {:induction false} AndBits(w: bv64, m: bv64, a: bv64, i: nat)
    requires IsAnd(w, m, a)
    ensures BitIsAnd(w, m, a, i)
    decreases i
  {
    AndDown(w, m, a);
    if i > 0 {
      AndBits(w >> 1, m >> 1, a >> 1, i - 1);
      BitDown(w, m, a, i);
    }
  }

  /** The low k bits are all set. */
  predicate Full(m: bv64, k: nat) {
    k > 0 ==> m & 1 == 1 && Full(m >> 1, k - 1)
  }

  lemma {:induction false} FullBits(m: bv64, k: nat, i: nat)
    requires Full(m, k) && i < k
    ensures BitOfWord(m, i)
  {
    if i > 0 {
      FullBits(m >> 1, k - 1, i - 1);
    }
  }

  lemma FourDown(m: bv64)
    requires m & 0xf == 0xf
    ensures m & 1 == 1 && (m >> 1) & 1 == 1 && (m >> 1 >> 1) & 1 == 1 && (m >> 1 >> 1 >> 1) & 1 == 1
    ensures m >> 1 >> 1 >> 1 >> 1 == m >> 4
  {}

  lemma FullFour(m: bv64, k: nat)
    requires m & 0xf == 0xf && Full(m >> 4, k)
    ensures Full(m, k + 4)
  {
    FourDown(m);
    assert Full(m >> 1 >> 1 >> 1, k + 1);
    assert Full(m >> 1 >> 1, k + 2);
    assert Full(m >> 1, k + 3);
  }

  lemma FullForty()
    ensures Full(0xff_ffff_ffff, 40)
  {
    FullFour(0xf, 0);
    FullFour(0xff, 4);
    FullFour(0xfff, 8);
    FullFour(0xffff, 12);
    FullFour(0xf_ffff, 16);
    FullFour(0xff_ffff, 20);
    FullFour(0xfff_ffff, 24);
    FullFour(0xffff_ffff, 28);
    FullFour(0xf_ffff_ffff, 32);
    FullFour(0xff_ffff_ffff, 36);
  }

  // ----- remainders

  lemma HalfOfRemainder(n: nat, p: nat)
    requires p > 0
    ensures n % (2 * p) % 2 == n % 2 && n % (2 * p) / 2 == n / 2 % p
  {
    var q, r := n / 2 / p, n / 2 % p;
    assert n / 2 == p * q + r && n == 2 * (n / 2) + n % 2;
    assert n == q * (2 * p) + (2 * r + n % 2);
    UniqueQuotient(n, 2 * p, q, 2 * r + n % 2);
  }

  lemma {:induction false} LowBits(n: nat, k: nat, i: nat)
    requires i < k
    ensures BitOfNumber(n % Pow2(k), i) == BitOfNumber(n, i)
  {
    HalfOfRemainder(n, Pow2(k - 1));
    if i > 0 {
      LowBits(n / 2, k - 1, i - 1);
    }
  }

  lemma Pow2Of40()
    ensures Pow2(40) == TWO_40
  {
    assert Pow2(8) == 0x100;
    Pow2Sum(8, 8);
    Pow2Sum(16, 16);
    Pow2Sum(32, 8);
  }

  /** Masking a word to 40 bits is taking its number modulo 2^40. */
  lemma MaskIsRemainder(w: bv64, n: nat)
    requires SameBits(w, n, 64)
    ensures SameBits(w & 0xff_ffff_ffff, n % TWO_40, 40)
  {
    FullForty();
    Pow2Of40();
    forall i: nat | i < 40
      ensures BitOfWord(w & 0xff_ffff_ffff, i) == BitOfNumber(n % TWO_40, i)
    {
      AndBits(w, 0xff_ffff_ffff, w & 0xff_ffff_ffff, i);
      FullBits(0xff_ffff_ffff, 40, i);
      LowBits(n, 40, i);
    }
  }
}
