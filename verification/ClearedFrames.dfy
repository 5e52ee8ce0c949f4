/** Frames as bytes: clearing a frame with `memset` clears all entries of the table in it. */
module ClearedFrames {
  import opened Words
  import opened WordBits
  import opened PageEntries
  import opened PageWalk
  import Memset

  /** The little-endian number in k bytes. */
  function Number(bytes: seq<byte>, at: nat, k: nat): nat
    requires at + k <= |bytes|
    decreases k
  {
    if k == 0 then 0 else bytes[at] + 256 * Number(bytes, at + 1, k - 1)
  }

  /** The word there holds the entry. */
  ghost predicate EntryAt(bytes: seq<byte>, at: nat, e: PageDirectoryEntry) {
    at + 8 <= |bytes| && exists w: bv64 :: SameBits(w, Number(bytes, at, 8), 64) && Holds(w, e)
  }

  /** The bytes are those of the memory's frames, each a table of 512 entries. */
  ghost predicate MemoryHolds(bytes: seq<byte>, mem: Memory) {
    && |bytes| == 0x1000 * |mem|
    && forall f, i :: 0 <= f < |mem| && 0 <= i < 512 ==> EntryAt(bytes, EntryAddress(f, i), mem[f][i])
  }

  function EntryAddress(f: nat, i: nat): nat {
    0x1000 * f + 8 * i
  }

  lemma {:induction false} SameNumber(a: seq<byte>, b: seq<byte>, at: nat, k: nat)
    requires at + k <= |a| && at + k <= |b| && forall j :: at <= j < at + k ==> a[j] == b[j]
    ensures Number(a, at, k) == Number(b, at, k)
    decreases k
  {
    if k > 0 {
      SameNumber(a, b, at + 1, k - 1);
    }
  }

  lemma {:induction false} ZeroNumber(bytes: seq<byte>, at: nat, k: nat)
    requires at + k <= |bytes| && forall j :: at <= j < at + k ==> bytes[j] == 0
    ensures Number(bytes, at, k) == 0
    decreases k
  {
    if k > 0 {
      ZeroNumber(bytes, at + 1, k - 1);
    }
  }

  lemma {:induction false} ZeroBits(i: nat)
    ensures !BitOfWord(0, i) && !BitOfNumber(0, i)
  {
    if i > 0 {
      ZeroBits(i - 1);
    }
  }

  lemma ZeroWord()
    ensures SameBits(0, 0, 64) && Holds(0, NULL_ENTRY)
  {
    forall i: nat
      ensures !BitOfWord(0, i) && !BitOfNumber(0, i)
    {
      ZeroBits(i);
    }
    assert AddressOfWord(0) == 0;
    assert forall flag: Flag :: !IsSet(0, Selector(flag));
  }

  lemma ZeroEntry(bytes: seq<byte>, at: nat)
    requires at + 8 <= |bytes| && forall j :: at <= j < at + 8 ==> bytes[j] == 0
    ensures EntryAt(bytes, at, NULL_ENTRY)
  {
    ZeroNumber(bytes, at, 8);
    ZeroWord();
  }

  lemma SameEntry(a: seq<byte>, b: seq<byte>, at: nat, e: PageDirectoryEntry)
    requires EntryAt(a, at, e) && |a| == |b| && forall j :: at <= j < at + 8 ==> a[j] == b[j]
    ensures EntryAt(b, at, e)
  {
    SameNumber(a, b, at, 8);
  }

  /** Setting 0x1000 bytes from the start of a frame to zero clears its table and leaves
      every other frame as it was. */
  lemma MemsetClears(bytes: seq<byte>, mem: Memory, f: nat)
    requires MemoryHolds(bytes, mem) && f < |mem|
    ensures 0x1000 * f + 0x1000 <= |bytes|
    ensures MemoryHolds(Memset.Filled(bytes, 0x1000 * f, 0x1000, 0), mem[f := Cleared()])
  {
    var bytes', mem' := Memset.Filled(bytes, 0x1000 * f, 0x1000, 0), mem[f := Cleared()];
    forall g, i | 0 <= g < |mem| && 0 <= i < 512
      ensures EntryAt(bytes', EntryAddress(g, i), mem'[g][i])
    {
      assert EntryAt(bytes, EntryAddress(g, i), mem[g][i]);
      if g == f {
        ZeroEntry(bytes', EntryAddress(g, i));
      } else {
        SameEntry(bytes, bytes', EntryAddress(g, i), mem[g][i]);
      }
    }
  }

  /** A new table, as the bytes it is. */
  method ClearFrame(bytes: array<byte>, table: uint64, ghost mem: Memory)
    requires MemoryHolds(bytes[..], mem) && table % 0x1000 == 0 && table / 0x1000 < |mem|
    modifies bytes
    ensures MemoryHolds(bytes[..], mem[table / 0x1000 := Cleared()])
  {
    MemsetClears(bytes[..], mem, table / 0x1000);
    Memset.Memset(bytes, table, 0, 0x1000);
  }
}
