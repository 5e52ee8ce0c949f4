/** Address translation as the processor's manual words it (Intel SDM Vol. 3A, section
    4.5.4, figure 4-8), with literal bits, and what `MapMemory` comes to in these terms. */
module HardwareWalk {
  import opened Words
  import opened Options
  import opened PageEntries
  import opened PageWalk
  import opened FrameBits
  import opened Machine
  import opened OutOfFrames
  import opened Runs

  /** One entry on the way. None: it is not present, or a large page, or outside memory. */
  function NextFrame(mem: Memory, t: nat, i: nat): Option<nat>
    requires i < 512
  {
    if t < |mem| && 0 in mem[t][i].bits && 7 !in mem[t][i].bits then Some(mem[t][i].frame) else None
  }

  predicate Writable(mem: Memory, t: nat, i: nat)
    requires i < 512
  {
    t < |mem| && 1 in mem[t][i].bits
  }

  /** Bits 47 to 39 of an address select the entry of the first table, bits 38 to 30 that of
      the second, 29 to 21 and 20 to 12 those of the others; bits 11 to 0 are the offset.
      Writing takes the write bit in all four entries. */
  function Translate(mem: Memory, root: nat, address: uint64): Option<(nat, bool)> {
    var i4, i3 := address / 0x80_0000_0000 % 512, address / 0x4000_0000 % 512;
    var i2, i1 := address / 0x20_0000 % 512, address / 0x1000 % 512;
    match NextFrame(mem, root, i4)
    case None => None
    case Some(t3) =>
      match NextFrame(mem, t3, i3)
      case None => None
      case Some(t2) =>
        match NextFrame(mem, t2, i2)
        case None => None
        case Some(t1) =>
          if t1 < |mem| && 0 in mem[t1][i1].bits then
            Some((0x1000 * mem[t1][i1].frame + address % 0x1000,
                  Writable(mem, root, i4) && Writable(mem, t3, i3) && Writable(mem, t2, i2) && Writable(mem, t1, i1)))
          else None
  }

  /** The nine bits of each level, from the address and from the number of its page. */
  lemma IndexOfLevels(address: uint64)
    ensures PageOf(address) % 512 == address / 0x1000 % 512
    ensures PageOf(address) / 512 % 512 == address / 0x20_0000 % 512
    ensures PageOf(address) / 512 / 512 % 512 == address / 0x4000_0000 % 512
    ensures PageOf(address) / 512 / 512 / 512 == address / 0x80_0000_0000 % 512
  {
    var n := address / 0x1000;
    var high, low := n / TWO_36, n % TWO_36;
    assert n == 0x10_0000_0000 * high + low;
    assert n / 512 == 0x800_0000 * high + low / 512;
    assert n / 512 / 512 == 0x4_0000 * high + low / 512 / 512;
    assert n / 512 / 512 / 512 == 512 * high + low / 512 / 512 / 512;
    assert address / 0x20_0000 == n / 512 && address / 0x4000_0000 == n / 512 / 512;
    assert address / 0x80_0000_0000 == n / 512 / 512 / 512;
  }

  /** In a tree a level of the walk is what the processor does: there are no large pages
      above the last level, and every entry followed is writable. */
  lemma OneLevel(mem: Memory, root: nat, d: nat, x: nat)
    requires Tree(mem, root) && Position(d, x) && 0 < d
    ensures Position(d - 1, x / 512)
    ensures TableAt(mem, root, d, x) == match TableAt(mem, root, d - 1, x / 512) case None => None case Some(t) => NextFrame(mem, t, x % 512)
    ensures TableAt(mem, root, d, x).Some? ==> Writable(mem, TableAt(mem, root, d - 1, x / 512).value, x % 512)
  {
    ParentPosition(d, x);
    match TableAt(mem, root, d - 1, x / 512)
    case None =>
    case Some(t) =>
      assert t < |mem|;
      assert InnerEntry(mem[t][x % 512]);
      FlagsByNumber(mem[t][x % 512], false);
  }

  /** What a walk gives an address. */
  function Reached(t: Translation, address: uint64): Option<(nat, bool)> {
    match t
    case Fault => None
    case Mapped(f, writable) => Some((0x1000 * f + address % 0x1000, writable))
  }

  /** The walk by page numbers is the processor's translation. */
  lemma WalkTranslates(mem: Memory, root: nat, address: uint64)
    requires Tree(mem, root)
    ensures Translate(mem, root, address) == Reached(Walk(mem, root, PageOf(address)), address)
  {
    var page := PageOf(address);
    IndexOfLevels(address);
    OneLevel(mem, root, 3, page / 512);
    OneLevel(mem, root, 2, page / 512 / 512);
    OneLevel(mem, root, 1, page / 512 / 512 / 512);
    assert page / 512 / 512 / 512 / 512 == 0;
    WalkEndsInLeaf(mem, root, page);
    if TableAt(mem, root, 3, page / 512).Some? {
      TablesAreWritable(mem, root, 3, page / 512);
      var t := TableAt(mem, root, 3, page / 512).value;
      assert t < |mem|;
      FlagsByNumber(mem[t][page % 512], false);
    }
  }

  /** After `MapMemory(v, p)` the processor finds the bytes of v's page in p's frame and may
      write them, and the addresses of all other pages where it found them before. */
  lemma MapTranslates(m: Machine, v: uint64, p: uint64, other: uint64)
    requires Sound(m) && Missing(m, PageOf(v)) <= Spare(m)
    ensures var m' := MapAnyway(m, PageOf(v), FrameOf(p));
      && Translate(m'.mem, m'.root, v) == Some((p / 0x1000 % TWO_40 * 0x1000 + v % 0x1000, true))
      && (other / 0x1000 % TWO_36 != v / 0x1000 % TWO_36 ==>
            Translate(m'.mem, m'.root, other) == Translate(m.mem, m.root, other))
  {
    MapWalks(m, PageOf(v), FrameOf(p), PageOf(other));
    var m' := MapAnyway(m, PageOf(v), FrameOf(p));
    TranslatesTo(m'.mem, m'.root, v, FrameOf(p) % TWO_40);
    if PageOf(other) != PageOf(v) {
      SameTranslation(m.mem, m'.mem, m.root, other);
    }
  }

  lemma MapWalks(m: Machine, page: nat, frame: uint64, other: nat)
    requires Sound(m) && page < TWO_36 && other < TWO_36 && Missing(m, page) <= Spare(m)
    ensures var m' := MapAnyway(m, page, frame);
      && m'.root == m.root && Tree(m.mem, m.root) && Tree(m'.mem, m.root)
      && Walk(m'.mem, m.root, page) == Mapped(frame % TWO_40, true)
      && (other != page ==> Walk(m'.mem, m.root, other) == Walk(m.mem, m.root, other))
  {
    MapAnywayMaps(m, page, frame);
  }

  lemma TranslatesTo(mem: Memory, root: nat, v: uint64, frame: nat)
    requires Tree(mem, root) && Walk(mem, root, PageOf(v)) == Mapped(frame, true)
    ensures Translate(mem, root, v) == Some((frame * 0x1000 + v % 0x1000, true))
  {
    WalkTranslates(mem, root, v);
  }

  lemma SameTranslation(mem: Memory, mem': Memory, root: nat, v: uint64)
    requires Tree(mem, root) && Tree(mem', root) && Walk(mem', root, PageOf(v)) == Walk(mem, root, PageOf(v))
    ensures Translate(mem', root, v) == Translate(mem, root, v)
  {
    WalkTranslates(mem, root, v);
    WalkTranslates(mem', root, v);
  }

  /** Over any run the last mapping of its page decides where an address is found. */
  lemma RunTranslates(w: World, ops: seq<Op>, address: uint64)
    requires Safe(w) && Allowed(w, ops)
    ensures var m := Run(w, ops).m;
      Translate(m.mem, m.root, address)
      == Reached(LastMapping(ops, PageOf(address), Walk(w.m.mem, w.m.root, PageOf(address))), address)
  {
    RunIsSafe(w, ops);
    WalkTranslates(Run(w, ops).m.mem, w.m.root, address);
  }
}
