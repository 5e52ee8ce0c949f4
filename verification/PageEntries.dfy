/** The 64-bit page directory entry: single-bit flags around the 40-bit frame
    number in bits 12 to 51 (Intel SDM Vol. 3A, section 4.5).

    An entry is kept as that frame number together with the positions of the
    bits that are set outside it, which are the two parts its operations treat
    separately. The second half of this module shows, on 64-bit vectors, that the
    masks and shifts of the code act on the two parts in just this way. */
module PageEntries {
  import opened Words
  import opened WordBits

  datatype Flag =
    | Present | ReadWrite | UserSuper | WriteThrough | CacheDisabled | Accessed
    | LargerPages | Custom0 | Custom1 | Custom2 | NX

  function BitOf(flag: Flag): nat {
    match flag
    case Present => 0
    case ReadWrite => 1
    case UserSuper => 2
    case WriteThrough => 3
    case CacheDisabled => 4
    case Accessed => 5
    case LargerPages => 7
    case Custom0 => 9
    case Custom1 => 10
    case Custom2 => 11
    case NX => 63
  }

  /** Copied by value out of a table and back into it by its only user. */
  datatype PageDirectoryEntry = PageDirectoryEntry(frame: uint40, bits: set<nat>) {

    /** The bit that belongs to a flag. */
    predicate Has(flag: Flag) {
      BitOf(flag) in bits
    }

    /** The test as written: `>` binds tighter than `&`, so the selector is
        compared with zero and the outcome, 1, is the mask: bit 0 is read. */
    predicate GetFlag(flag: Flag) {
      0 in bits
    }

    function SetFlag(flag: Flag, on: bool): PageDirectoryEntry {
      this.(bits := if on then bits + {BitOf(flag)} else bits - {BitOf(flag)})
    }

    /** Only 40 bits of the address survive the mask. */
    function SetAddress(address: uint64): PageDirectoryEntry {
      this.(frame := address % TWO_40)
    }

    function GetAddress(): uint64 {
      frame
    }
  }

  const NULL_ENTRY := PageDirectoryEntry(0, {})

  /** What `MapMemory` makes of an entry: the frame, present and writable, all other
      bits as they were. */
  function Linked(e: PageDirectoryEntry, frame: uint64): PageDirectoryEntry {
    e.SetAddress(frame).SetFlag(Present, true).SetFlag(ReadWrite, true)
  }

  /** The processor's dirty bit, which has no flag of its own. */
  const DIRTY_BIT: nat := 6

  /** An entry after the processor used it in a walk, or wrote through it. */
  function Marked(e: PageDirectoryEntry, written: bool): PageDirectoryEntry {
    e.(bits := e.bits + (if written then {BitOf(Accessed), DIRTY_BIT} else {BitOf(Accessed)}))
  }

  /** `setFlag` writes the bit of its flag and leaves every other flag and the frame alone. */
  lemma SetFlagWritesOneBit(e: PageDirectoryEntry, flag: Flag, on: bool, g: Flag)
    ensures e.SetFlag(flag, on).GetAddress() == e.GetAddress()
    ensures e.SetFlag(flag, on).Has(g) == if g == flag then on else e.Has(g)
  {}

  /** `getFlag` tells the truth on every entry for `Present` and for nothing else. */
  lemma GetFlagOnlyForPresent(flag: Flag)
    ensures (forall e: PageDirectoryEntry :: e.GetFlag(flag) == e.Has(flag)) <==> flag == Present
  {
    if flag != Present {
      var e := NULL_ENTRY.SetFlag(Present, true);
      assert e.GetFlag(flag) && !e.Has(flag);
    }
  }

  // ----- the same operations on a 64-bit word

  const ADDRESS_MASK: bv64 := 0x000f_ffff_ffff_f000

  /** The one bit of each flag. */
  function Selector(flag: Flag): bv64 {
    match flag
    case Present => 1 << 0
    case ReadWrite => 1 << 1
    case UserSuper => 1 << 2
    case WriteThrough => 1 << 3
    case CacheDisabled => 1 << 4
    case Accessed => 1 << 5
    case LargerPages => 1 << 7
    case Custom0 => 1 << 9
    case Custom1 => 1 << 10
    case Custom2 => 1 << 11
    case NX => 1 << 63
  }

  /** Every selector is a bit outside the address field, and no two are the same. */
  lemma SelectorOnTheWord(flag: Flag, other: Flag)
    ensures Selector(flag) > 0 && Selector(flag) & ADDRESS_MASK == 0
    ensures flag != other ==> Selector(flag) & Selector(other) == 0
  {}

  /** Writing the address: `getAddress` reads back its low 40 bits, and no bit
      outside the field changes. */
  lemma SetAddressOnTheWord(value: bv64, address: bv64)
    ensures var v := (value & 0xfff0_0000_0000_0fff) | ((address & 0x0000_00ff_ffff_ffff) << 12);
      && (v & 0x000f_ffff_ffff_f000) >> 12 == address & 0x0000_00ff_ffff_ffff
      && v & !ADDRESS_MASK == value & !ADDRESS_MASK
  {}

  /** `setFlag` as the code has it, for the selector of a flag. */
  function SetWord(value: bv64, selector: bv64, on: bool): bv64 {
    if on then (value & !selector) | selector else value & !selector
  }

  /** `setAddress` as the code has it. */
  function SetAddressWord(value: bv64, address: bv64): bv64 {
    (value & 0xfff0_0000_0000_0fff) | ((address & 0x0000_00ff_ffff_ffff) << 12)
  }

  predicate IsSet(value: bv64, selector: bv64) {
    value & selector != 0
  }

  lemma OnReads(value: bv64, s: bv64)
    requires s > 0
    ensures IsSet(SetWord(value, s, true), s)
  {
    assert ((value & !s) | s) & s == s;
  }

  lemma OffReads(value: bv64, s: bv64)
    ensures !IsSet(SetWord(value, s, false), s)
  {}

  lemma OrKeeps(value: bv64, s: bv64, t: bv64)
    requires s & t == 0
    ensures ((value & !s) | s) & t == value & t
  {}

  lemma AndKeeps(value: bv64, s: bv64, t: bv64)
    requires s & t == 0
    ensures (value & !s) & t == value & t
  {
    assert !s & t == t;
  }

  lemma OrKeepsSet(value: bv64, s: bv64, t: bv64)
    requires s & t == 0
    ensures IsSet((value & !s) | s, t) == IsSet(value, t)
  {
    OrKeeps(value, s, t);
  }

  lemma OnKeeps(value: bv64, s: bv64, t: bv64)
    requires s & t == 0
    ensures IsSet(SetWord(value, s, true), t) == IsSet(value, t)
  {
    OrKeepsSet(value, s, t);
  }

  lemma OffKeeps(value: bv64, s: bv64, t: bv64)
    requires s & t == 0
    ensures IsSet(SetWord(value, s, false), t) == IsSet(value, t)
  {
    AndKeeps(value, s, t);
    assert SetWord(value, s, false) == value & !s;
  }

  /** A selector written reads as written, and a disjoint one reads as before. */
  lemma SetWordReads(value: bv64, s: bv64, t: bv64, on: bool)
    requires s > 0 && (s == t || s & t == 0)
    ensures s == t ==> IsSet(SetWord(value, s, on), t) == on
    ensures s != t ==> IsSet(SetWord(value, s, on), t) == IsSet(value, t)
  {
    if s == t {
      if on {
        OnReads(value, s);
      } else {
        OffReads(value, s);
      }
    } else {
      if on {
        OnKeeps(value, s, t);
      } else {
        OffKeeps(value, s, t);
      }
    }
  }

  lemma SetAddressReads(value: bv64, address: bv64, t: bv64)
    requires t & ADDRESS_MASK == 0
    ensures IsSet(SetAddressWord(value, address), t) == IsSet(value, t)
  {}

  /** A word and an entry with the same flags. */
  ghost predicate SameFlags(value: bv64, e: PageDirectoryEntry) {
    forall flag: Flag :: IsSet(value, Selector(flag)) == e.Has(flag)
  }

  lemma SetFlagInStep(value: bv64, e: PageDirectoryEntry, flag: Flag, on: bool, g: Flag)
    requires SameFlags(value, e)
    ensures IsSet(SetWord(value, Selector(flag), on), Selector(g)) == e.SetFlag(flag, on).Has(g)
  {
    SelectorOnTheWord(flag, g);
    SetWordReads(value, Selector(flag), Selector(g), on);
    SetFlagWritesOneBit(e, flag, on, g);
    assert IsSet(value, Selector(g)) == e.Has(g);
  }

  /** `getAddress` as the code has it. */
  function AddressOfWord(value: bv64): bv64 {
    (value & ADDRESS_MASK) >> 12
  }

  /** A word that holds an entry: the same flags, and the same address. */
  ghost predicate Holds(value: bv64, e: PageDirectoryEntry) {
    SameFlags(value, e) && SameBits(AddressOfWord(value), e.GetAddress(), 40)
  }

  lemma AddressWritten(value: bv64, word: bv64)
    ensures AddressOfWord(SetAddressWord(value, word)) == word & 0xff_ffff_ffff
  {
    SetAddressOnTheWord(value, word);
  }

  lemma FlagKeepsAddress(value: bv64, selector: bv64, on: bool)
    requires selector & ADDRESS_MASK == 0
    ensures SetWord(value, selector, on) & ADDRESS_MASK == value & ADDRESS_MASK
  {
    if on {
      OrKeeps(value, selector, ADDRESS_MASK);
      assert SetWord(value, selector, true) == (value & !selector) | selector;
    } else {
      AndKeeps(value, selector, ADDRESS_MASK);
      assert SetWord(value, selector, false) == value & !selector;
    }
  }

  lemma FlagsInStep(value: bv64, e: PageDirectoryEntry, flag: Flag, on: bool)
    requires SameFlags(value, e)
    ensures SameFlags(SetWord(value, Selector(flag), on), e.SetFlag(flag, on))
  {
    forall g: Flag
      ensures IsSet(SetWord(value, Selector(flag), on), Selector(g)) == e.SetFlag(flag, on).Has(g)
    {
      SetFlagInStep(value, e, flag, on, g);
    }
  }

  lemma AddressKeepsFlags(value: bv64, e: PageDirectoryEntry, word: bv64, address: uint64)
    requires SameFlags(value, e)
    ensures SameFlags(SetAddressWord(value, word), e.SetAddress(address))
  {
    forall g: Flag
      ensures IsSet(SetAddressWord(value, word), Selector(g)) == e.SetAddress(address).Has(g)
    {
      SelectorOnTheWord(g, g);
      SetAddressReads(value, word, Selector(g));
      assert IsSet(value, Selector(g)) == e.Has(g);
    }
  }

  /** `setFlag` on the word and on the entry keep step ... */
  lemma SetFlagOnWord(value: bv64, e: PageDirectoryEntry, flag: Flag, on: bool)
    requires Holds(value, e)
    ensures Holds(SetWord(value, Selector(flag), on), e.SetFlag(flag, on))
  {
    FlagsInStep(value, e, flag, on);
    SelectorOnTheWord(flag, flag);
    FlagKeepsAddress(value, Selector(flag), on);
    SetFlagWritesOneBit(e, flag, on, flag);
  }

  /** ... and so does `setAddress`, for a word and a number of the same 64 bits ... */
  lemma SetAddressOnWord(value: bv64, e: PageDirectoryEntry, word: bv64, address: uint64)
    requires Holds(value, e) && SameBits(word, address, 64)
    ensures Holds(SetAddressWord(value, word), e.SetAddress(address))
  {
    AddressKeepsFlags(value, e, word, address);
    AddressWritten(value, word);
    MaskIsRemainder(word, address);
  }

  /** ... and the flag test, as written, reads the same bit of both. */
  lemma GetFlagOnWord(value: bv64, e: PageDirectoryEntry, flag: Flag)
    requires Holds(value, e)
    ensures IsSet(value, 1) == e.GetFlag(flag)
  {
    assert Selector(Present) == 1 && IsSet(value, Selector(Present)) == e.Has(Present);
  }

  // ----- what this comes to, bit by bit

  /** `MapMemory` sets the two lowest bits of an entry and no other outside its address. */
  lemma LinkedBits(e: PageDirectoryEntry, frame: uint64)
    ensures Linked(e, frame).bits == e.bits + {0, 1} && Linked(e, frame).frame == frame % TWO_40
  {}

  /** The three writes of `MapMemory` to one word. */
  function LinkedWord(value: bv64, address: bv64): bv64 {
    SetWord(SetWord(SetAddressWord(value, address), Selector(Present), true), Selector(ReadWrite), true)
  }

  lemma LinkedWordBits(value: bv64, address: bv64)
    ensures LinkedWord(value, address) == (value & 0xfff0_0000_0000_0ffc) | ((address & 0xff_ffff_ffff) << 12) | 3
  {}

  /** A word that holds an entry holds what those writes make of it. */
  lemma LinkedOnWord(value: bv64, e: PageDirectoryEntry, word: bv64, address: uint64)
    requires Holds(value, e) && SameBits(word, address, 64)
    ensures Holds(LinkedWord(value, word), Linked(e, address))
  {
    SetAddressOnWord(value, e, word, address);
    SetFlagOnWord(SetAddressWord(value, word), e.SetAddress(address), Present, true);
    SetFlagOnWord(SetWord(SetAddressWord(value, word), Selector(Present), true),
                  e.SetAddress(address).SetFlag(Present, true), ReadWrite, true);
  }

  /** The bits of a word the processor looks at (Intel SDM Vol. 3A, section 4.5, tables
      4-15 to 4-20) are those of the flags of the entry it holds. */
  lemma FlagsOnWord(value: bv64, e: PageDirectoryEntry)
    requires Holds(value, e)
    ensures (e.Has(Present) <==> value & 0x1 != 0) && (e.Has(ReadWrite) <==> value & 0x2 != 0)
    ensures (e.Has(UserSuper) <==> value & 0x4 != 0) && (e.Has(WriteThrough) <==> value & 0x8 != 0)
    ensures (e.Has(CacheDisabled) <==> value & 0x10 != 0) && (e.Has(Accessed) <==> value & 0x20 != 0)
    ensures (e.Has(LargerPages) <==> value & 0x80 != 0) && (e.Has(NX) <==> value & 0x8000_0000_0000_0000 != 0)
  {
    SelectorWord(value);
    assert forall flag: Flag :: IsSet(value, Selector(flag)) == e.Has(flag);
  }

  lemma SelectorWord(value: bv64)
    ensures IsSet(value, Selector(Present)) == (value & 0x1 != 0)
    ensures IsSet(value, Selector(ReadWrite)) == (value & 0x2 != 0)
    ensures IsSet(value, Selector(UserSuper)) == (value & 0x4 != 0)
    ensures IsSet(value, Selector(WriteThrough)) == (value & 0x8 != 0)
    ensures IsSet(value, Selector(CacheDisabled)) == (value & 0x10 != 0)
    ensures IsSet(value, Selector(Accessed)) == (value & 0x20 != 0)
    ensures IsSet(value, Selector(LargerPages)) == (value & 0x80 != 0)
    ensures IsSet(value, Selector(NX)) == (value & 0x8000_0000_0000_0000 != 0)
  {}

  /** The same bits by their numbers in an entry, and the mark left by the processor. */
  lemma FlagsByNumber(e: PageDirectoryEntry, written: bool)
    ensures (e.Has(Present) <==> 0 in e.bits) && (e.Has(ReadWrite) <==> 1 in e.bits) && (e.Has(UserSuper) <==> 2 in e.bits)
    ensures (e.Has(WriteThrough) <==> 3 in e.bits) && (e.Has(CacheDisabled) <==> 4 in e.bits)
    ensures (e.Has(LargerPages) <==> 7 in e.bits) && (e.Has(NX) <==> 63 in e.bits)
    ensures Marked(e, written).bits == e.bits + (if written then {5, 6} else {5}) && Marked(e, written).frame == e.frame
  {}
}
