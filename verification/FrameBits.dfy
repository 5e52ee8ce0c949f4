/** The allocator's view of physical memory: one bit a frame, set when the frame
    may not be handed out. */
module FrameBits {
  import opened Options

  type Bits = seq<bool>

  function LowestFree(bits: Bits): (f: Option<nat>)
    ensures f.None? ==> forall j :: 0 <= j < |bits| ==> bits[j]
    ensures f.Some? ==> f.value < |bits| && !bits[f.value] && forall j :: 0 <= j < f.value ==> bits[j]
  {
    if bits == [] then None
    else if !bits[0] then Some(0)
    else match LowestFree(bits[1..])
      case None => None
      case Some(f) => Some(f + 1)
  }

  function FreeFrames(bits: Bits): set<nat> {
    set j: nat | j < |bits| && !bits[j]
  }

  function FreeCount(bits: Bits): nat {
    |FreeFrames(bits)|
  }

  lemma FreeCountUpdate(bits: Bits, f: nat, value: bool)
    requires f < |bits|
    ensures FreeCount(bits[f := value])
         == FreeCount(bits) - (if bits[f] then 0 else 1) + (if value then 0 else 1)
  {
    var rest := FreeFrames(bits) - {f};
    assert FreeFrames(bits) == if bits[f] then rest else rest + {f};
    assert FreeFrames(bits[f := value]) == if value then rest else rest + {f};
  }

  lemma FreeCountZero(bits: Bits)
    ensures FreeCount(bits) == 0 <==> LowestFree(bits).None?
  {
    if LowestFree(bits).Some? {
      assert LowestFree(bits).value in FreeFrames(bits);
    } else {
      assert FreeFrames(bits) == {};
    }
  }

  /** The bits after n requests. */
  function Requests(bits: Bits, n: nat): Bits
    decreases n
  {
    if n == 0 then bits
    else match LowestFree(bits)
      case None => bits
      case Some(f) => Requests(bits[f := true], n - 1)
  }

  /** Some request of a row returns the frame. */
  ghost predicate CanReturn(bits: Bits, f: nat) {
    exists n: nat :: LowestFree(Requests(bits, n)) == Some(f)
  }

  lemma {:induction false} RequestsTake(bits: Bits, n: nat, j: nat)
    requires j < |bits| && bits[j]
    ensures |Requests(bits, n)| == |bits| && Requests(bits, n)[j]
    decreases n
  {
    if n > 0 && LowestFree(bits).Some? {
      RequestsTake(bits[LowestFree(bits).value := true], n - 1, j);
    }
  }

  lemma {:induction false} RequestsKeepLength(bits: Bits, n: nat)
    ensures |Requests(bits, n)| == |bits|
    decreases n
  {
    if n > 0 && LowestFree(bits).Some? {
      RequestsKeepLength(bits[LowestFree(bits).value := true], n - 1);
    }
  }

  lemma {:induction false} ReturnedAt(bits: Bits, f: nat) returns (n: nat)
    requires f < |bits| && !bits[f]
    ensures LowestFree(Requests(bits, n)) == Some(f)
    decreases FreeCount(bits)
  {
    var lowest := LowestFree(bits).value;
    if lowest == f {
      n := 0;
    } else {
      FreeCountUpdate(bits, lowest, true);
      var k := ReturnedAt(bits[lowest := true], f);
      n := k + 1;
    }
  }

  /** Requests return what is free, all of it, and nothing else. */
  lemma CanReturnFree(bits: Bits, f: nat)
    ensures CanReturn(bits, f) <==> f < |bits| && !bits[f]
  {
    if f < |bits| && !bits[f] {
      var n := ReturnedAt(bits, f);
    } else if CanReturn(bits, f) {
      var n: nat :| LowestFree(Requests(bits, n)) == Some(f);
      RequestsKeepLength(bits, n);
      RequestsTake(bits, n, f);
    }
  }

  /** Setting, or clearing, the bits of a range of frames; bits past the end of
      the map do not exist. */
  function Fill(bits: Bits, start: nat, count: nat, value: bool): (r: Bits)
    ensures |r| == |bits|
    ensures forall j :: 0 <= j < |bits| ==> r[j] == if start <= j < start + count then value else bits[j]
  {
    seq(|bits|, j requires 0 <= j < |bits| => if start <= j < start + count then value else bits[j])
  }

  /** A single frame, on the map or past its end. */
  lemma FillOne(bits: Bits, i: nat, value: bool)
    ensures Fill(bits, i, 1, value) == if i < |bits| then bits[i := value] else bits
    ensures i < |bits| && bits[i] == value ==> Fill(bits, i, 1, value) == bits
  {}

  lemma FillPrefix(bits: Bits, n: nat, start: nat, count: nat, value: bool)
    requires n <= |bits|
    ensures Fill(bits, start, count, value)[..n] == Fill(bits[..n], start, count, value)
  {}

  predicate Covers(a: Bits, b: Bits) {
    |a| == |b| && forall j :: 0 <= j < |a| ==> b[j] ==> a[j]
  }

  /** Reserving a range costs the more, the fewer frames were taken before. */
  lemma FillCostsLess(a: Bits, b: Bits, start: nat, count: nat)
    requires Covers(b, a)
    ensures FreeCount(b) - FreeCount(Fill(b, start, count, true)) <= FreeCount(a) - FreeCount(Fill(a, start, count, true))
  {
    var inA, inB := Within(a, start, count), Within(b, start, count);
    assert FreeFrames(a) == FreeFrames(Fill(a, start, count, true)) + inA;
    assert FreeFrames(b) == FreeFrames(Fill(b, start, count, true)) + inB;
    SubsetCount(inB, inA);
  }

  lemma FillTakes(bits: Bits, start: nat, count: nat)
    ensures FreeCount(Fill(bits, start, count, true)) <= FreeCount(bits)
  {
    SubsetCount(FreeFrames(Fill(bits, start, count, true)), FreeFrames(bits));
  }

  function Within(bits: Bits, start: nat, count: nat): set<nat> {
    set j: nat | j < |bits| && start <= j < start + count && !bits[j]
  }

  lemma SubsetCount(a: set<nat>, b: set<nat>)
    requires a <= b
    ensures |a| <= |b|
  {
    assert b == a + (b - a);
  }
}
