/** The kernel's vectorised `memset`: wide, possibly overlapping stores in place
    of a byte loop. Memory is an array indexed by address. */
module Memset {
  import opened Words

  /** The plain byte loop that stands commented out above the fast version. */
  function Filled(mem: seq<byte>, s: nat, n: nat, c: byte): (r: seq<byte>)
    requires s + n <= |mem|
    ensures |r| == |mem|
  {
    mem[..s] + seq(n, _ => c) + mem[s + n..]
  }

  method ByteLoop(mem: array<byte>, start: nat, value: byte, len: nat)
    requires start + len <= mem.Length
    modifies mem
    ensures mem[..] == Filled(old(mem[..]), start, len, value)
  {
    var p, left: nat := start, len;
    assert mem[..] == Filled(old(mem[..]), start, 0, value);
    while left > 0
      invariant p + left == start + len && start <= p <= start + len
      invariant mem[..] == Filled(old(mem[..]), start, p - start, value)
    {
      mem[p] := value;
      assert mem[..] == Filled(old(mem[..]), start, p + 1 - start, value);
      p, left := p + 1, left - 1;
    }
  }

  // ----- stores

  /** Bytes in [lo, hi) are c, all others are as they were. */
  ghost predicate Set(was: seq<byte>, now: seq<byte>, lo: nat, hi: nat, c: byte) {
    && lo <= hi <= |was| == |now|
    && forall a :: 0 <= a < |was| ==> now[a] == if lo <= a < hi then c else was[a]
  }

  /** A store of w bytes that all equal c. */
  method Store(mem: array<byte>, p: nat, w: nat, c: byte)
    requires p + w <= mem.Length
    modifies mem
    ensures Set(old(mem[..]), mem[..], p, p + w, c)
  {
    forall a | p <= a < p + w {
      mem[a] := c;
    }
  }

  /** The aligned 32-byte store, which faults unless its address is a multiple of 32. */
  method StoreAligned(mem: array<byte>, p: nat, c: byte)
    requires p % 32 == 0 && p + 32 <= mem.Length
    modifies mem
    ensures Set(old(mem[..]), mem[..], p, p + 32, c)
  {
    Store(mem, p, 32, c);
  }

  /** A store of a w-byte little-endian integer. */
  method StoreWord(mem: array<byte>, p: nat, w: nat, v: nat)
    requires p + w <= mem.Length
    modifies mem
    ensures mem.Length == |old(mem[..])|
    ensures forall a :: 0 <= a < mem.Length ==> mem[a] == if p <= a < p + w then ByteOf(v, a - p) else old(mem[a])
  {
    forall a | p <= a < p + w {
      mem[a] := ByteOf(v, a - p);
    }
  }

  function ByteOf(v: nat, i: nat): byte {
    if i == 0 then v % 256 else ByteOf(v / 256, i - 1)
  }

  /** A byte repeated k times, as a little-endian number. */
  function Repeat(c: byte, k: nat): nat {
    if k == 0 then 0 else c + 256 * Repeat(c, k - 1)
  }

  lemma {:induction false} RepeatBytes(c: byte, k: nat, i: nat)
    requires i < k
    ensures ByteOf(Repeat(c, k), i) == c
  {
    assert Repeat(c, k) % 256 == c && Repeat(c, k) / 256 == Repeat(c, k - 1);
    if i > 0 {
      RepeatBytes(c, k - 1, i - 1);
    }
  }

  lemma RepeatFour(c: byte)
    ensures Repeat(c, 4) == 0x0101_0101 * c
    ensures Repeat(c, 8) == Repeat(c, 4) + 0x1_0000_0000 * Repeat(c, 4)
  {
    assert Repeat(c, 1) == c;
    assert Repeat(c, 2) == 0x0101 * c;
    assert Repeat(c, 3) == 0x01_0101 * c;
    assert Repeat(c, 5) == c + 0x100 * Repeat(c, 4);
    assert Repeat(c, 6) == 0x0101 * c + 0x1_0000 * Repeat(c, 4);
    assert Repeat(c, 7) == 0x01_0101 * c + 0x100_0000 * Repeat(c, 4);
  }

  /** Multiplying by 0x0101010101010101 copies a byte to all eight places, and
      the low half of the product has it in all four. */
  lemma Replicated(c: byte)
    ensures 0x0101_0101_0101_0101 * c == Repeat(c, 8)
    ensures 0x0101_0101_0101_0101 * c % 0x1_0000_0000 == Repeat(c, 4)
  {
    RepeatFour(c);
    LowHalf(Repeat(c, 4));
  }

  lemma LowHalf(x: nat)
    requires x < 0x1_0000_0000
    ensures (x + 0x1_0000_0000 * x) % 0x1_0000_0000 == x
  {}

  /** Consecutive stores into one buffer: what they cover together is set. */
  lemma SetTwice(was: seq<byte>, mid: seq<byte>, now: seq<byte>, lo: nat, hi: nat, p: nat, q: nat, c: byte)
    requires Set(was, mid, lo, hi, c) && Set(mid, now, p, q, c)
    requires lo <= p <= hi
    ensures Set(was, now, lo, if q > hi then q else hi, c)
  {}

  // ----- memset

  method SmallMemset(mem: array<byte>, s: nat, c: byte, n: nat)
    requires n < 32 && s + n <= mem.Length
    modifies mem
    ensures Set(old(mem[..]), mem[..], s, s + n, c)
  {
    if n < 5 {
      if n == 0 {
        return;
      }
      mem[s] := c;
      mem[s + n - 1] := c;
      if n <= 2 {
        return;
      }
      mem[s + 1] := c;
      mem[s + 2] := c;
      return;
    }
    if n <= 16 {
      var val8 := 0x0101_0101_0101_0101 * c;
      Replicated(c);
      if n >= 8 {
        forall i: nat | i < 8
          ensures ByteOf(val8, i) == c
        {
          RepeatBytes(c, 8, i);
        }
        StoreWord(mem, s, 8, val8);
        StoreWord(mem, s + n - 8, 8, val8);
        return;
      }
      var val4 := val8 % 0x1_0000_0000;
      forall i: nat | i < 4
        ensures ByteOf(val4, i) == c
      {
        RepeatBytes(c, 4, i);
      }
      StoreWord(mem, s, 4, val4);
      StoreWord(mem, s + n - 4, 4, val4);
      return;
    }
    Store(mem, s + n - 16, 16, c);
    Store(mem, s, 16, c);
  }

  /** One aligned store into a buffer set up to `done`, and on to the next address. */
  method Stamp(mem: array<byte>, p: nat, c: byte, ghost was: seq<byte>, ghost s: nat, ghost done: nat)
    returns (next: nat, ghost done': nat)
    requires p % 32 == 0 && p + 32 <= mem.Length
    requires s <= p <= done && Set(was, mem[..], s, done, c)
    modifies mem
    ensures next == p + 32 && next % 32 == 0 && done' == (if next > done then next else done)
    ensures Set(was, mem[..], s, done', c)
  {
    ghost var mid := mem[..];
    StoreAligned(mem, p, c);
    SetTwice(was, mid, mem[..], s, done, p, p + 32, c);
    next := p + 32;
    done' := if next > done then next else done;
  }

  /** The same, unless the rest is left to the last store. */
  method TryStamp(mem: array<byte>, p: nat, lastWord: nat, c: byte, ghost was: seq<byte>, ghost s: nat, ghost done: nat)
    returns (next: nat, ghost done': nat)
    requires p % 32 == 0 && done <= lastWord + 32 <= mem.Length
    requires s <= p <= done && Set(was, mem[..], s, done, c)
    modifies mem
    ensures next == (if p < lastWord then p + 32 else p) && next % 32 == 0 && next <= done' <= lastWord + 32 && done <= done'
    ensures Set(was, mem[..], s, done', c)
  {
    next, done' := p, done;
    if p < lastWord {
      next, done' := Stamp(mem, p, c, was, s, done);
    }
  }

  method HugeMemset(mem: array<byte>, s: nat, c: byte, n: nat)
    requires n > 160 && s + n <= mem.Length
    modifies mem
    ensures Set(old(mem[..]), mem[..], s, s + n, c)
  {
    ghost var was, done := mem[..], s + 32;
    Store(mem, s, 32, c);
    var p := s + 32 - s % 32;
    assert p % 32 == 0;
    var bufferEnd := s + n;
    var lastWord := bufferEnd - 32;
    while p + 32 * 5 < bufferEnd
      invariant p % 32 == 0 && s < p <= done <= bufferEnd
      invariant Set(was, mem[..], s, done, c)
      decreases bufferEnd - p
    {
      p, done := Stamp(mem, p, c, was, s, done);
      p, done := Stamp(mem, p, c, was, s, done);
      p, done := Stamp(mem, p, c, was, s, done);
      p, done := Stamp(mem, p, c, was, s, done);
      p, done := Stamp(mem, p, c, was, s, done);
    }
    FinishHuge(mem, p, lastWord, c, was, s, done);
  }

  /** The last few aligned stores, and one more to the end. */
  method FinishHuge(mem: array<byte>, start: nat, lastWord: nat, c: byte, ghost was: seq<byte>, ghost s: nat, ghost reached: nat)
    requires start % 32 == 0 && start + 160 >= lastWord + 32 && s <= lastWord && reached <= lastWord + 32 <= mem.Length
    requires s <= start <= reached && Set(was, mem[..], s, reached, c)
    modifies mem
    ensures Set(was, mem[..], s, lastWord + 32, c)
  {
    var p := start;
    ghost var done := reached;
    p, done := TryStamp(mem, p, lastWord, c, was, s, done);
    p, done := TryStamp(mem, p, lastWord, c, was, s, done);
    p, done := TryStamp(mem, p, lastWord, c, was, s, done);
    p, done := TryStamp(mem, p, lastWord, c, was, s, done);
    ghost var mid := mem[..];
    Store(mem, lastWord, 32, c);
    SetTwice(was, mid, mem[..], s, done, lastWord, lastWord + 32, c);
  }

  /** The fast version does what the byte loop does, for every start and length. */
  method Memset(mem: array<byte>, s: nat, c: byte, n: nat)
    requires s + n <= mem.Length
    modifies mem
    ensures mem[..] == Filled(old(mem[..]), s, n, c)
  {
    ghost var was := mem[..];
    if n < 32 {
      SmallMemset(mem, s, c, n);
    } else if n > 160 {
      HugeMemset(mem, s, c, n);
    } else {
      MediumMemset(mem, s, c, n);
    }
    assert Set(was, mem[..], s, s + n, c);
    assert mem[..] == Filled(was, s, n, c);
  }

  /** The do-while loop of 32-byte stores, and one more to the end. */
  method MediumMemset(mem: array<byte>, s: nat, c: byte, n: nat)
    requires 32 <= n <= 160 && s + n <= mem.Length
    modifies mem
    ensures Set(old(mem[..]), mem[..], s, s + n, c)
  {
    ghost var was := mem[..];
    var lastWord := s + n - 32;
    var p := s;
    Store(mem, p, 32, c);
    p := p + 32;
    while p < lastWord
      invariant s < p <= s + n
      invariant Set(was, mem[..], s, p, c)
    {
      ghost var mid := mem[..];
      Store(mem, p, 32, c);
      SetTwice(was, mid, mem[..], s, p, p, p + 32, c);
      p := p + 32;
    }
    ghost var mid := mem[..];
    Store(mem, lastWord, 32, c);
    SetTwice(was, mid, mem[..], s, p, lastWord, s + n, c);
  }
}
