/** Machine words, as integers in a range, and division. */
module Words {
  const TWO_31: int := 0x8000_0000
  const TWO_32: int := 0x1_0000_0000
  const TWO_36: int := 0x10_0000_0000
  const TWO_40: int := 0x100_0000_0000
  const TWO_48: int := 0x1_0000_0000_0000
  const TWO_52: int := 0x10_0000_0000_0000
  const TWO_64: int := 0x1_0000_0000_0000_0000

  type byte = x: int | 0 <= x < 0x100
  type uint32 = x: int | 0 <= x < TWO_32
  type uint40 = x: int | 0 <= x < TWO_40
  type uint64 = x: int | 0 <= x < TWO_64
  type int64 = x: int | -(TWO_64 / 2) <= x < TWO_64 / 2

  function Pow2(k: nat): (p: nat)
    ensures p > 0
  {
    if k == 0 then 1 else 2 * Pow2(k - 1)
  }

  lemma {:induction false} Pow2Sum(a: nat, b: nat)
    ensures Pow2(a + b) == Pow2(a) * Pow2(b)
  {
    if a > 0 {
      Pow2Sum(a - 1, b);
      assert Pow2(a) * Pow2(b) == 2 * (Pow2(a - 1) * Pow2(b));
    }
  }

  lemma Times(a: int, q: int)
    requires a >= 1 && q >= 0
    ensures a * q >= q
  {
    assert (a - 1) * q >= 0;
  }

  lemma UniqueQuotient(n: int, d: int, q: int, r: int)
    requires d > 0 && n == q * d + r && 0 <= r < d
    ensures q == n / d && r == n % d
  {
    var e := q - n / d;
    assert e * d == q * d - (n / d) * d;
    assert e * d == n % d - r;
    if e >= 1 {
      Times(e, d);
    } else if e <= -1 {
      assert (-e) * d == -(e * d);
      Times(-e, d);
    }
  }
}
