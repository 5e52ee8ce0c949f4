/** What `MapMemory` does when the allocator runs out. The code takes NULL for a frame
    like any other, so frame 0 becomes a table. */
module OutOfFrames {
  import opened Words
  import opened Options
  import opened PageEntries
  import opened PageWalk
  import opened FrameBits
  import opened Machine

  /** The frame number of what `RequestPage` returns. */
  function Requested(bits: Bits): nat {
    match LowestFree(bits)
    case None => 0
    case Some(f) => f
  }

  function AfterRequest(bits: Bits): Bits {
    match LowestFree(bits)
    case None => bits
    case Some(f) => bits[f := true]
  }

  predicate InMemory(m: Machine, t: nat) {
    t < |m.mem| <= TWO_40 && |m.bits| <= |m.mem|
  }

  /** One level: follow entry i of table t, or hang whatever was returned from it. A
      table outside memory does not occur. */
  function Descend(m: Machine, t: nat, i: nat): (Machine, nat)
    requires i < 512
  {
    if !InMemory(m, t) then (m, t)
    else if m.mem[t][i].GetFlag(Present) then (m, m.mem[t][i].GetAddress())
    else (Machine(Install(m.mem, t, i, Requested(m.bits)), AfterRequest(m.bits), m.root), Requested(m.bits))
  }

  /** The first k levels on the way to a page. */
  function Down(m: Machine, page: nat, k: nat): (Machine, nat) {
    if k == 0 then (m, m.root)
    else
      var (m', t) := Down(m, page, k - 1);
      Descend(m', t, Above(page, k) % 512)
  }

  /** The whole of `MapMemory`. */
  function MapAnyway(m: Machine, page: nat, frame: uint64): Machine {
    var (m', t) := Down(m, page, 3);
    if !InMemory(m', t) then m'
    else m'.(mem := Store(m'.mem, t, page % 512, Linked(m'.mem[t][page % 512], frame)))
  }

  // ----- frames enough

  /** What one level of the walk finds in its table, and what it must write. */
  lemma DescendIsEnsure(m: Machine, d: nat, x: nat, t: nat)
    requires Sound(m) && Position(d, x) && 0 < d && TableAt(m.mem, m.root, d - 1, x / 512) == Some(t)
    requires FreeCount(m.bits) >= MissingAt(m, d, x)
    ensures InMemory(m, t) && Descend(m, t, x % 512).0 == EnsureTable(m, d, x)
    ensures TableAt(EnsureTable(m, d, x).mem, m.root, d, x) == Some(Descend(m, t, x % 512).1)
  {
    ParentPosition(d, x);
    if TableAt(m.mem, m.root, d, x).None? {
      FreeCountZero(m.bits);
      var f := LowestFree(m.bits).value;
      assert Lacks(m, d, x, f);
      NewTableAdds(m, d, x, f);
    }
  }

  /** After k levels, with frames enough for them. */
  ghost predicate Arrived(m: Machine, page: nat, k: nat)
    requires Sound(m) && page < TWO_36 && k <= 3 && FreeCount(m.bits) >= MissingUpTo(m, page, k)
  {
    var (m', t) := Down(m, page, k);
    m' == EnsureUpTo(m, page, k) && TableAt(m'.mem, m.root, k, Above(page, k)) == Some(t) && InMemory(m', t)
  }

  lemma {:induction false} DownArrives(m: Machine, page: nat, k: nat)
    requires Sound(m) && page < TWO_36 && k <= 3 && FreeCount(m.bits) >= MissingUpTo(m, page, k)
    ensures Arrived(m, page, k)
  {
    if k == 0 {
      RootInMemory(m);
    } else {
      DownArrives(m, page, k - 1);
      var m1 := EnsureUpTo(m, page, k - 1);
      EnsureUpToExtends(m, page, k - 1);
      LevelReady(m, m1, page, k - 1);
      NextArrives(m1, Down(m, page, k - 1).1, page, k);
    }
  }

  lemma RootInMemory(m: Machine)
    requires Sound(m)
    ensures InMemory(m, m.root)
  {
    assert Position(0, 0) && TableAt(m.mem, m.root, 0, 0) == Some(m.root);
  }

  lemma NextArrives(m: Machine, t: nat, page: nat, k: nat)
    requires Sound(m) && 0 < k <= 3 && page < TWO_36
    requires Position(k, Above(page, k)) && TableAt(m.mem, m.root, k - 1, Above(page, k - 1)) == Some(t)
    requires TableAt(m.mem, m.root, k - 1, Above(page, k) / 512).Some?
    requires FreeCount(m.bits) >= MissingAt(m, k, Above(page, k))
    ensures var (m', t') := Descend(m, t, Above(page, k) % 512);
      && m' == EnsureTable(m, k, Above(page, k)) && TableAt(m'.mem, m.root, k, Above(page, k)) == Some(t')
      && InMemory(m', t')
  {
    var x := Above(page, k);
    assert k > 1 ==> x / 512 == Above(page, k - 1);
    DescendIsEnsure(m, k, x, t);
    EnsureTableExtends(m, k, x);
  }

  // ----- none left

  /** No frame is free, and whatever frame 0 links to is frame 0. */
  ghost predicate Collapsed(m: Machine, t: nat) {
    t == 0 && InMemory(m, 0) && LowestFree(m.bits).None?
    && forall i :: 0 <= i < 512 && m.mem[0][i].Has(Present) ==> m.mem[0][i].frame == 0
  }

  lemma CollapsedForGood(m: Machine, i: nat)
    requires Collapsed(m, 0) && i < 512
    ensures var (m', t') := Descend(m, 0, i); Collapsed(m', t')
  {}

  lemma FirstCollapse(m: Machine, t: nat, i: nat)
    requires InMemory(m, t) && i < 512 && LowestFree(m.bits).None? && !m.mem[t][i].Has(Present)
    ensures var (m', t') := Descend(m, t, i); Collapsed(m', t')
  {}

  /** However many frames there are, every table the code goes through lies in memory. */
  lemma {:induction false} DownInMemory(m: Machine, page: nat, k: nat)
    requires Sound(m) && page < TWO_36 && k <= 3
    ensures InMemory(Down(m, page, k).0, Down(m, page, k).1)
    ensures FreeCount(m.bits) < MissingUpTo(m, page, k) ==> Collapsed(Down(m, page, k).0, Down(m, page, k).1)
  {
    if FreeCount(m.bits) >= MissingUpTo(m, page, k) {
      DownArrives(m, page, k);
    } else {
      DownInMemory(m, page, k - 1);
      if FreeCount(m.bits) < MissingUpTo(m, page, k - 1) {
        CollapsedForGood(Down(m, page, k - 1).0, Above(page, k) % 512);
      } else {
        var s := Starving(m, page, k - 1);
        FirstCollapse(s.0, s.1, Above(page, k) % 512);
      }
    }
  }

  /** The state and the table where the frames have run out, and the next one is missing. */
  lemma Starving(m: Machine, page: nat, k: nat) returns (s: (Machine, nat))
    requires Sound(m) && page < TWO_36 && k < 3
    requires MissingUpTo(m, page, k) <= FreeCount(m.bits) < MissingUpTo(m, page, k + 1)
    ensures s == Down(m, page, k) && InMemory(s.0, s.1) && Sound(s.0) && ExtendsTo(m, s.0, page, k)
    ensures LowestFree(s.0.bits).None? && !s.0.mem[s.1][Above(page, k + 1) % 512].Has(Present)
    ensures Position(k + 1, Above(page, k + 1)) && Position(k, Above(page, k + 1) / 512)
    ensures TableAt(s.0.mem, m.root, k, Above(page, k + 1) / 512) == Some(s.1)
    ensures TableAt(s.0.mem, m.root, k + 1, Above(page, k + 1)).None?
    ensures FreeCount(m.bits) == MissingUpTo(m, page, k)
  {
    DownArrives(m, page, k);
    EnsureUpToExtends(m, page, k);
    s := Down(m, page, k);
    FreeCountZero(s.0.bits);
    NextPlace(page, k);
    StillMissing(m, s.0, page, k);
  }

  lemma NextPlace(page: nat, k: nat)
    requires page < TWO_36 && k < 3
    ensures Position(k + 1, Above(page, k + 1)) && Position(k, Above(page, k + 1) / 512)
    ensures k > 0 ==> Above(page, k + 1) / 512 == Above(page, k)
  {}

  lemma StillMissing(m: Machine, m': Machine, page: nat, k: nat)
    requires page < TWO_36 && k < 3 && ExtendsTo(m, m', page, k) && MissingUpTo(m, page, k) < MissingUpTo(m, page, k + 1)
    ensures TableAt(m'.mem, m.root, k + 1, Above(page, k + 1)).None?
  {
    NextPlace(page, k);
  }

  // ----- what comes of it

  /** With frames enough the code does what it is meant to. */
  lemma EnoughFrames(m: Machine, page: nat, frame: uint64)
    requires Sound(m) && page < TWO_36 && FreeCount(m.bits) >= Missing(m, page)
    ensures MapAnyway(m, page, frame) == MapPage(m, page, frame)
  {
    MissingUpToThree(m, page);
    DownArrives(m, page, 3);
    EnsureTablesExtends(m, page);
  }

  /** Frame 0 is in use and is no table, as it is after the boot. */
  ghost predicate ZeroAside(m: Machine) {
    0 < |m.bits| && m.bits[0] && !IsTable(m.mem, m.root, 0)
  }

  lemma MissingBelow(m: Machine, page: nat)
    ensures MissingAt(m, 1, Above(page, 1)) <= MissingAt(m, 2, Above(page, 2)) <= MissingAt(m, 3, Above(page, 3))
  {}

  lemma ZeroStaysAside(m: Machine, m': Machine)
    requires ZeroAside(m) && Grows(m, m')
    ensures ZeroAside(m')
  {}

  /** A step without a frame makes a table of frame 0, and otherwise does no harm. */
  lemma HangZero(m: Machine, t: nat, d: nat, x: nat) returns (m1: Machine)
    requires Sound(m) && ZeroAside(m) && InMemory(m, t) && LowestFree(m.bits).None?
    requires Position(d, x) && 0 < d && Position(d - 1, x / 512)
    requires TableAt(m.mem, m.root, d - 1, x / 512) == Some(t) && TableAt(m.mem, m.root, d, x).None?
    ensures Descend(m, t, x % 512) == (m1, 0)
    ensures Sound(m1) && Collapsed(m1, 0) && AddsOne(m, m1, d, x) && SameWalks(m, m1) && AddsZero(m, m1, d, x)
    ensures TableAt(m1.mem, m.root, d, x) == Some(0)
  {
    InstallKeepsTree(m.mem, m.root, d, x, 0);
    m1 := Descend(m, t, x % 512).0;
    FirstCollapse(m, t, x % 512);
  }

  /** The first step without a frame. */
  lemma ZeroBecomesTable(m: Machine, page: nat, k: nat) returns (s: (Machine, nat), m1: Machine)
    requires Sound(m) && page < TWO_36 && k < 3 && ZeroAside(m)
    requires MissingUpTo(m, page, k) <= FreeCount(m.bits) < MissingUpTo(m, page, k + 1)
    ensures s == Down(m, page, k) && Sound(s.0) && ExtendsTo(m, s.0, page, k) && FreeCount(m.bits) == MissingUpTo(m, page, k)
    ensures LowestFree(s.0.bits).None?
    ensures (m1, 0) == Down(m, page, k + 1) && Sound(m1) && Collapsed(m1, 0)
    ensures Position(k + 1, Above(page, k + 1)) && TableAt(m1.mem, m.root, k + 1, Above(page, k + 1)) == Some(0)
    ensures AddsOne(s.0, m1, k + 1, Above(page, k + 1)) && SameWalks(s.0, m1)
    ensures AddsZero(s.0, m1, k + 1, Above(page, k + 1))
  {
    s := Starving(m, page, k);
    ZeroStaysAside(m, s.0);
    m1 := HangZero(s.0, s.1, k + 1, Above(page, k + 1));
  }

  /** Frame 0, cleared, was made a table, and that is all. */
  ghost predicate AddsZero(m: Machine, m': Machine, d: nat, x: nat) {
    && 0 < |m.mem| == |m'.mem| && m'.root == m.root && m'.bits == m.bits && m'.mem[0] == Cleared()
    && Position(d, x) && TableAt(m.mem, m.root, d, x).None?
    && (forall e: nat, y: nat :: Position(e, y) ==>
          TableAt(m'.mem, m.root, e, y) == if e == d && y == x then Some(0) else TableAt(m.mem, m.root, e, y))
    && (forall f :: 0 < f < |m.mem| && !IsTable(m.mem, m.root, f) ==> m'.mem[f] == m.mem[f])
  }

  /** What `Grows` says of a mapping with frames enough, but for frame 0, which may have
      become a table: no table but those there were, frames that were free, and frame 0. */
  ghost predicate GrowsOverZero(m: Machine, m': Machine) {
    && m'.root == m.root && |m'.mem| == |m.mem| && Covers(m'.bits, m.bits)
    && FromFree(m, m')
    && (forall f :: 0 <= f < |m.mem| && !IsTable(m'.mem, m.root, f) ==> m'.mem[f] == m.mem[f])
  }

  ghost predicate FromFree(m: Machine, m': Machine) {
    forall f: nat :: IsTable(m'.mem, m.root, f) ==> f == 0 || IsTable(m.mem, m.root, f) || (f < |m.bits| && !m.bits[f])
  }

  lemma GrowsThenZero(m: Machine, m1: Machine, m2: Machine, d: nat, x: nat)
    requires Grows(m, m1) && AddsZero(m1, m2, d, x)
    ensures GrowsOverZero(m, m2)
  {
    forall f: nat | IsTable(m1.mem, m.root, f)
      ensures IsTable(m2.mem, m.root, f)
    {
      var e: nat, y: nat :| Position(e, y) && TableAt(m1.mem, m.root, e, y) == Some(f);
      assert TableAt(m2.mem, m.root, e, y) == Some(f);
    }
    assert TableAt(m2.mem, m.root, d, x) == Some(0);
  }

  lemma ZeroThenGrows(m: Machine, m1: Machine, m2: Machine)
    requires GrowsOverZero(m, m1) && Grows(m1, m2)
    ensures GrowsOverZero(m, m2)
  {
    forall f: nat | IsTable(m1.mem, m.root, f)
      ensures IsTable(m2.mem, m.root, f)
    {
      var e: nat, y: nat :| Position(e, y) && TableAt(m1.mem, m.root, e, y) == Some(f);
      assert TableAt(m2.mem, m.root, e, y) == Some(f);
    }
  }

  /** One frame too few: the mapping is right and nothing else is mapped differently, but
      what frame 0 held is lost, for it is a table now. */
  lemma ShortByOne(m: Machine, page: nat, frame: uint64)
    requires Sound(m) && page < TWO_36 && ZeroAside(m) && FreeCount(m.bits) + 1 == Missing(m, page)
    ensures var m' := MapAnyway(m, page, frame);
      && Sound(m') && MapsOnly(m, m', page, Mapped(frame % TWO_40, true))
      && IsTable(m'.mem, m.root, 0) && GrowsOverZero(m, m')
  {
    MissingUpToThree(m, page);
    MissingBelow(m, page);
    var s, m1 := ZeroBecomesTable(m, page, 2);
    assert Above(page, 3) == page / 512;
    WriteLeafMaps(m1, page, frame);
    var m' := WriteLeaf(m1, page, frame);
    assert TableAt(m'.mem, m.root, 3, page / 512) == Some(0);
    GrowsThenZero(m, s.0, m1, 3, page / 512);
    ZeroThenGrows(m, m1, m');
  }

  /** The frames a mapping may do without: one, as long as frame 0 can stand in for it. */
  ghost function Spare(m: Machine): nat {
    FreeCount(m.bits) + if ZeroAside(m) then 1 else 0
  }

  /** What every mapping keeps that is no more than one frame short. */
  lemma MapAnywayMaps(m: Machine, page: nat, frame: uint64)
    requires Sound(m) && page < TWO_36 && Missing(m, page) <= Spare(m)
    ensures var m' := MapAnyway(m, page, frame);
      && Sound(m') && MapsOnly(m, m', page, Mapped(frame % TWO_40, true)) && GrowsOverZero(m, m')
      && (Missing(m, page) <= FreeCount(m.bits) ==> Grows(m, m'))
  {
    if Missing(m, page) <= FreeCount(m.bits) {
      EnoughFrames(m, page, frame);
      MapPageMaps(m, page, frame);
    } else {
      ShortByOne(m, page, frame);
    }
  }

  // ----- two frames too few, or more

  /** Nothing but frame 0 was written. */
  predicate OnlyZero(mem: Memory, mem': Memory) {
    |mem'| == |mem| && forall f :: 0 < f < |mem| ==> mem'[f] == mem[f]
  }

  lemma CollapsedStep(m: Machine, i: nat)
    requires Collapsed(m, 0) && i < 512
    ensures var (m', t') := Descend(m, 0, i);
      && Collapsed(m', t') && OnlyZero(m.mem, m'.mem)
      && m'.mem[0][i].Has(Present) && m'.mem[0][i].frame == 0
  {}

  /** Whatever is found on a walk stays where it was when only frame 0 is written, if
      there was nothing below frame 0. */
  lemma {:induction false} OthersStay(mem: Memory, mem': Memory, root: nat, d: nat, x: nat)
    requires 0 < |mem| && mem[0] == Cleared() && OnlyZero(mem, mem')
    requires Position(d, x) && TableAt(mem, root, d, x).Some?
    ensures TableAt(mem', root, d, x) == TableAt(mem, root, d, x)
  {
    if d > 0 {
      ParentPosition(d, x);
      OthersStay(mem, mem', root, d - 1, x / 512);
    }
  }

  lemma TwoPlaces(mem: Memory, root: nat, d: nat, x: nat, e: nat, y: nat)
    requires Position(d, x) && Position(e, y) && (d != e || x != y)
    requires TableAt(mem, root, d, x).Some? && TableAt(mem, root, d, x) == TableAt(mem, root, e, y)
    ensures !Tree(mem, root)
  {}

  /** Entry i of frame 0, a table above the last level, links to frame g. */
  ghost predicate ZeroLinks(mem: Memory, root: nat, d: nat, x: nat, i: nat, g: nat) {
    && Position(d, x) && d < 3 && i < 512 && 0 < |mem| && TableAt(mem, root, d, x) == Some(0)
    && mem[0][i].Has(Present) && mem[0][i].frame == g
  }

  lemma LinkedTable(mem: Memory, root: nat, d: nat, x: nat, i: nat, g: nat)
    requires ZeroLinks(mem, root, d, x, i, g)
    ensures Position(d + 1, x * 512 + i) && TableAt(mem, root, d + 1, x * 512 + i) == Some(g)
  {
    ChildPosition(d, x, i);
  }

  /** A table that was there before frame 0 linked to it is found in two places then, and
      so is frame 0 if it links to itself. */
  lemma LinkIsFatal(mem: Memory, mem': Memory, root: nat, d: nat, x: nat, i: nat, g: nat)
    requires 0 < |mem| && mem[0] == Cleared() && OnlyZero(mem, mem') && TableAt(mem, root, d, x) == Some(0)
    requires ZeroLinks(mem', root, d, x, i, g) && IsTable(mem, root, g)
    ensures !Tree(mem', root)
  {
    LinkedTable(mem', root, d, x, i, g);
    ChildPosition(d, x, i);
    assert TableAt(mem, root, d + 1, x * 512 + i).None?;
    var e: nat, y: nat :| Position(e, y) && TableAt(mem, root, e, y) == Some(g);
    OthersStay(mem, mem', root, e, y);
    TwoPlaces(mem', root, d + 1, x * 512 + i, e, y);
  }

  /** From a frame 0 that was just made a table on, all the code writes is frame 0, and
      whichever entry it follows last links to frame 0 itself. */
  lemma DownInZero(m: Machine, page: nat, k: nat, m1: Machine)
    requires 0 < k < 3 && Down(m, page, k) == (m1, 0) && Collapsed(m1, 0)
    ensures var (m', t) := Down(m, page, 3); var last := Above(page, 3) % 512;
      && Collapsed(m', t) && OnlyZero(m1.mem, m'.mem) && m'.root == m1.root
      && m'.mem[0][last].Has(Present) && m'.mem[0][last].frame == 0
    decreases 3 - k
  {
    CollapsedStep(m1, Above(page, k + 1) % 512);
    var m2 := Descend(m1, 0, Above(page, k + 1) % 512).0;
    assert Down(m, page, k + 1) == (m2, 0);
    if k == 1 {
      DownInZero(m, page, 2, m2);
    }
  }

  /** Then the leaf goes into frame 0 too, and replaces that link just when both use the
      same entry. */
  lemma LeafInZero(m: Machine, page: nat, k: nat, m1: Machine, x: nat, frame: uint64)
    requires 0 < k < 3 && Down(m, page, k) == (m1, 0) && Collapsed(m1, 0) && m1.root == m.root
    requires m1.mem[0] == Cleared() && Position(k, x) && TableAt(m1.mem, m.root, k, x) == Some(0)
    ensures var m', last := MapAnyway(m, page, frame), Above(page, 3) % 512;
      && m'.root == m.root && OnlyZero(m1.mem, m'.mem)
      && ZeroLinks(m'.mem, m.root, k, x, last, if page % 512 == last then frame % TWO_40 else 0)
  {
    DownInZero(m, page, k, m1);
    OthersStay(m1.mem, MapAnyway(m, page, frame).mem, m.root, k, x);
  }

  /** Two frames too few, or more: the tables are a tree no longer, or the very frame that
      was to be mapped is one of them, although it neither was a table nor was free. The
      latter takes a page whose last two indices are the same. */
  lemma ShortByMore(m: Machine, page: nat, frame: uint64)
    requires Sound(m) && page < TWO_36 && ZeroAside(m) && FreeCount(m.bits) + 1 < Missing(m, page)
    ensures var m', g := MapAnyway(m, page, frame), frame % TWO_40;
      && m'.root == m.root
      && (Tree(m'.mem, m.root) ==>
        && page % 512 == Above(page, 3) % 512 && IsTable(m'.mem, m.root, g)
        && 0 < g && !IsTable(m.mem, m.root, g) && (g < |m.bits| ==> m.bits[g]))
  {
    MissingUpToThree(m, page);
    MissingBelow(m, page);
    assert MissingUpTo(m, page, 0) == 0;
    var k := if FreeCount(m.bits) >= MissingUpTo(m, page, 1) then 1 else 0;
    var s, m1 := ZeroBecomesTable(m, page, k);
    var x, last := Above(page, k + 1), Above(page, 3) % 512;
    var g := if page % 512 == last then frame % TWO_40 else 0;
    LeafInZero(m, page, k + 1, m1, x, frame);
    var mem' := MapAnyway(m, page, frame).mem;
    LinkedTable(mem', m.root, k + 1, x, last, g);
    if IsTable(m1.mem, m.root, g) {
      LinkIsFatal(m1.mem, mem', m.root, k + 1, x, last, g);
    } else {
      WasNoTable(m, s.0, m1, k + 1, x, g);
    }
  }

  /** What is no table once the frames have run out was none before, and was not free. */
  lemma WasNoTable(m: Machine, m1: Machine, m2: Machine, d: nat, x: nat, g: nat)
    requires Grows(m, m1) && LowestFree(m1.bits).None? && AddsZero(m1, m2, d, x) && !IsTable(m2.mem, m.root, g)
    ensures 0 < g && !IsTable(m.mem, m.root, g) && (g < |m.bits| ==> m.bits[g])
  {
    assert TableAt(m2.mem, m.root, d, x) == Some(0);
    forall e: nat, y: nat | Position(e, y)
      ensures TableAt(m1.mem, m.root, e, y) != Some(g)
    {
      assert TableAt(m2.mem, m.root, e, y) != Some(g);
    }
    forall e: nat, y: nat | Position(e, y)
      ensures TableAt(m.mem, m.root, e, y) != Some(g)
    {
      assert TableAt(m1.mem, m.root, e, y) != Some(g);
    }
  }

  /** So `MapMemory` leaves a tree, made of the tables there were, of frames that were free
      and of frame 0, if and only if at most one missing table has to do without a frame. */
  lemma TreeIffAtMostOneShort(m: Machine, page: nat, frame: uint64)
    requires Sound(m) && page < TWO_36 && ZeroAside(m)
    ensures var m' := MapAnyway(m, page, frame);
      Tree(m'.mem, m.root) && FromFree(m, m') <==> Missing(m, page) <= FreeCount(m.bits) + 1
  {
    if Missing(m, page) <= Spare(m) {
      MapAnywayMaps(m, page, frame);
    } else {
      ShortByMore(m, page, frame);
    }
  }
}
