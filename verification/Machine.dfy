/** Table tree and frame bits together: what `MapMemory` does to both, as a
    function of the state, and why every reachable state is sound. */
module Machine {
  import opened Words
  import opened Options
  import opened PageEntries
  import opened PageWalk
  import opened FrameBits

  datatype Machine = Machine(mem: Memory, bits: Bits, root: nat)

  /** Table frames are in use as far as the allocator can tell. */
  ghost predicate Sound(m: Machine) {
    && |m.bits| <= |m.mem|
    && Tree(m.mem, m.root)
    && forall d: nat, x: nat :: Position(d, x) && TableAt(m.mem, m.root, d, x).Some? ==>
         var t := TableAt(m.mem, m.root, d, x).value; t < |m.bits| && m.bits[t]
  }

  /** The position of the depth-d table on the way to a page. */
  function Above(page: nat, d: nat): nat {
    if d >= 4 then page
    else if d == 3 then page / 512
    else if d == 2 then page / 512 / 512
    else page / 512 / 512 / 512
  }

  ghost function MissingAt(m: Machine, d: nat, x: nat): nat {
    if TableAt(m.mem, m.root, d, x).None? then 1 else 0
  }

  /** How many tables a mapping of the page would have to create. */
  ghost function Missing(m: Machine, page: nat): nat {
    MissingAt(m, 1, Above(page, 1)) + MissingAt(m, 2, Above(page, 2)) + MissingAt(m, 3, Above(page, 3))
  }

  /** The lowest free frame, cleared, hung from entry i of table t. */
  function WithNewTable(m: Machine, t: nat, i: nat): Machine
    requires |m.bits| <= |m.mem| <= TWO_40 && t < |m.mem| && i < 512 && LowestFree(m.bits).Some?
  {
    var f := LowestFree(m.bits).value;
    Machine(Install(m.mem, t, i, f), m.bits[f := true], m.root)
  }

  /** One level of the walk: follow the entry, or hang a fresh table from it. */
  ghost function EnsureTable(m: Machine, d: nat, x: nat): Machine {
    if CanHang(m, d, x) then WithNewTable(m, TableAt(m.mem, m.root, d - 1, x / 512).value, x % 512) else m
  }

  /** A table is missing, there is a table to hang it from, and a frame for it. */
  ghost predicate CanHang(m: Machine, d: nat, x: nat) {
    && 0 < d && |m.bits| <= |m.mem| <= TWO_40 && TableAt(m.mem, m.root, d, x).None? && LowestFree(m.bits).Some?
    && TableAt(m.mem, m.root, d - 1, x / 512).Some? && TableAt(m.mem, m.root, d - 1, x / 512).value < |m.mem|
  }

  /** Tables stay where they are, frames that are no table keep their contents,
      and the frames newly in use are the new tables. */
  ghost predicate Grows(m: Machine, m': Machine) {
    && m'.root == m.root && |m'.mem| == |m.mem| && Covers(m'.bits, m.bits)
    && (forall d: nat, x: nat :: Position(d, x) && TableAt(m.mem, m.root, d, x).Some? ==>
          TableAt(m'.mem, m.root, d, x) == TableAt(m.mem, m.root, d, x))
    && (forall f :: 0 <= f < |m.mem| && !IsTable(m'.mem, m.root, f) ==> m'.mem[f] == m.mem[f])
    && (forall f :: 0 <= f < |m.bits| && m'.bits[f] && !m.bits[f] ==> IsTable(m'.mem, m.root, f))
    && (forall f: nat :: IsTable(m'.mem, m.root, f) ==> IsTable(m.mem, m.root, f) || (f < |m.bits| && !m.bits[f]))
  }

  lemma GrowsTransitive(a: Machine, b: Machine, c: Machine)
    requires Grows(a, b) && Grows(b, c)
    ensures Grows(a, c)
  {
    forall f: nat | IsTable(b.mem, a.root, f)
      ensures IsTable(c.mem, a.root, f)
    {
      var d: nat, x: nat :| Position(d, x) && TableAt(b.mem, a.root, d, x) == Some(f);
      assert TableAt(c.mem, a.root, d, x) == Some(f);
    }
  }

  ghost predicate SameWalks(m: Machine, m': Machine) {
    m'.root == m.root && forall page :: 0 <= page < TWO_36 ==> Walk(m'.mem, m.root, page) == Walk(m.mem, m.root, page)
  }

  lemma SameWalksTransitive(a: Machine, b: Machine, c: Machine)
    requires SameWalks(a, b) && SameWalks(b, c)
    ensures SameWalks(a, c)
  {}

  /** The only new table is (d, x). */
  ghost predicate AddsOne(m: Machine, m': Machine, d: nat, x: nat) {
    m'.root == m.root && forall e: nat, y: nat :: Position(e, y) ==>
      TableAt(m'.mem, m.root, e, y).Some? == (TableAt(m.mem, m.root, e, y).Some? || (e == d && y == x))
  }

  /** No free frame lies below a table, as long as frames are only ever requested for tables. */
  ghost predicate TablesLowest(m: Machine) {
    forall d: nat, x: nat, g :: Position(d, x) && TableAt(m.mem, m.root, d, x).Some? && 0 <= g < |m.bits| && !m.bits[g]
      ==> TableAt(m.mem, m.root, d, x).value < g
  }

  /** What one level of the walk keeps and adds. */
  ghost predicate Extends(m: Machine, m': Machine, d: nat, x: nat) {
    && Sound(m') && Grows(m, m') && AddsOne(m, m', d, x) && SameWalks(m, m') && (TablesLowest(m) ==> TablesLowest(m'))
    && FreeCount(m'.bits) == FreeCount(m.bits) - MissingAt(m, d, x)
  }

  /** A table is missing at (d, x), and frame f is free for it. */
  ghost predicate Lacks(m: Machine, d: nat, x: nat, f: nat) {
    && Sound(m) && Position(d, x) && 0 < d && Position(d - 1, x / 512)
    && TableAt(m.mem, m.root, d - 1, x / 512).Some? && TableAt(m.mem, m.root, d, x).None?
    && LowestFree(m.bits) == Some(f) && !IsTable(m.mem, m.root, f)
  }

  lemma NewTableAdds(m: Machine, d: nat, x: nat, f: nat)
    requires Lacks(m, d, x, f)
    ensures var m' := WithNewTable(m, TableAt(m.mem, m.root, d - 1, x / 512).value, x % 512);
      && Sound(m') && AddsOne(m, m', d, x) && SameWalks(m, m')
      && (forall e: nat, y: nat :: Position(e, y) ==>
            TableAt(m'.mem, m.root, e, y) == if e == d && y == x then Some(f) else TableAt(m.mem, m.root, e, y))
  {
    InstallKeepsTree(m.mem, m.root, d, x, f);
  }

  lemma NewTableGrows(m: Machine, d: nat, x: nat, f: nat)
    requires Lacks(m, d, x, f)
    ensures Grows(m, WithNewTable(m, TableAt(m.mem, m.root, d - 1, x / 512).value, x % 512))
  {
    NewTableAdds(m, d, x, f);
    var t := TableAt(m.mem, m.root, d - 1, x / 512).value;
    var m' := WithNewTable(m, t, x % 512);
    assert TableAt(m'.mem, m.root, d, x) == Some(f) && TableAt(m'.mem, m.root, d - 1, x / 512) == Some(t);
    assert IsTable(m'.mem, m.root, f) && IsTable(m'.mem, m.root, t);
  }

  lemma NewTableLowest(m: Machine, d: nat, x: nat, f: nat)
    requires Lacks(m, d, x, f) && TablesLowest(m)
    ensures TablesLowest(WithNewTable(m, TableAt(m.mem, m.root, d - 1, x / 512).value, x % 512))
  {
    NewTableAdds(m, d, x, f);
  }

  lemma EnsureTableExtends(m: Machine, d: nat, x: nat)
    requires Sound(m) && Position(d, x) && 0 < d
    requires TableAt(m.mem, m.root, d - 1, x / 512).Some?
    requires FreeCount(m.bits) >= MissingAt(m, d, x)
    ensures Extends(m, EnsureTable(m, d, x), d, x)
  {
    if TableAt(m.mem, m.root, d, x).None? {
      FreeCountZero(m.bits);
      var f := LowestFree(m.bits).value;
      ParentPosition(d, x);
      assert Lacks(m, d, x, f);
      FreeCountUpdate(m.bits, f, true);
      NewTableAdds(m, d, x, f);
      NewTableGrows(m, d, x, f);
      if TablesLowest(m) {
        NewTableLowest(m, d, x, f);
      }
    }
  }

  ghost function WriteLeaf(m: Machine, page: nat, frame: uint64): Machine
    requires Sound(m) && page < TWO_36 && TableAt(m.mem, m.root, 3, page / 512).Some?
  {
    assert Position(3, page / 512);
    var t := TableAt(m.mem, m.root, 3, page / 512).value;
    var e := Linked(m.mem[t][page % 512], frame);
    m.(mem := Store(m.mem, t, page % 512, e))
  }

  lemma WriteLeafMaps(m: Machine, page: nat, frame: uint64)
    requires Sound(m) && page < TWO_36 && TableAt(m.mem, m.root, 3, page / 512).Some?
    ensures var m' := WriteLeaf(m, page, frame);
      && Sound(m') && Grows(m, m') && m'.bits == m.bits
      && (forall d: nat, x: nat :: Position(d, x) ==> TableAt(m'.mem, m.root, d, x) == TableAt(m.mem, m.root, d, x))
      && MapsOnly(m, m', page, Mapped(frame % TWO_40, true))
  {
    assert Position(3, page / 512);
    var t := TableAt(m.mem, m.root, 3, page / 512).value;
    var e := Linked(m.mem[t][page % 512], frame);
    var m' := WriteLeaf(m, page, frame);
    StoreInLastLevel(m.mem, m.root, page / 512, page % 512, e);
    StoreKeepsTree(m.mem, m.root, page / 512, page % 512, e);
    assert IsTable(m'.mem, m.root, t);
    forall other | 0 <= other < TWO_36
      ensures Walk(m'.mem, m.root, other) == if other == page then Mapped(frame % TWO_40, true) else Walk(m.mem, m.root, other)
    {
      StoreAndWalk(m.mem, m.root, page, e, other);
    }
  }

  // ----- the whole of MapMemory

  ghost predicate OnTheWay(page: nat, d: nat, x: nat) {
    0 < d <= 3 && x == Above(page, d)
  }

  /** The tables of m' are those of m and those on the way to the page. */
  ghost predicate AddsTablesTo(m: Machine, m': Machine, page: nat) {
    m'.root == m.root && forall d: nat, x: nat :: Position(d, x) ==>
      TableAt(m'.mem, m.root, d, x).Some? == (TableAt(m.mem, m.root, d, x).Some? || OnTheWay(page, d, x))
  }

  /** The walk of one page gives the translation, and no other walk changed. */
  ghost predicate MapsOnly(m: Machine, m': Machine, page: nat, t: Translation) {
    m'.root == m.root && forall other :: 0 <= other < TWO_36 ==>
      Walk(m'.mem, m.root, other) == if other == page then t else Walk(m.mem, m.root, other)
  }

  /** Tables missing at the first levels on the way to a page. */
  ghost function MissingUpTo(m: Machine, page: nat, k: nat): nat {
    if k == 0 then 0 else MissingUpTo(m, page, k - 1) + MissingAt(m, k, Above(page, k))
  }

  /** The new tables are on the way to the page, no deeper than k. */
  ghost predicate AddsUpTo(m: Machine, m': Machine, page: nat, k: nat) {
    m'.root == m.root && forall d: nat, x: nat :: Position(d, x) ==>
      TableAt(m'.mem, m.root, d, x).Some? == (TableAt(m.mem, m.root, d, x).Some? || (d <= k && OnTheWay(page, d, x)))
  }

  lemma AddsNext(m: Machine, m': Machine, m'': Machine, page: nat, k: nat)
    requires AddsUpTo(m, m', page, k) && k < 3 && page < TWO_36 && AddsOne(m', m'', k + 1, Above(page, k + 1))
    ensures AddsUpTo(m, m'', page, k + 1)
    ensures MissingAt(m', k + 1, Above(page, k + 1)) == MissingAt(m, k + 1, Above(page, k + 1))
  {
    assert Position(k + 1, Above(page, k + 1));
  }

  /** What the first k levels of the walk keep and add. */
  ghost predicate ExtendsTo(m: Machine, m': Machine, page: nat, k: nat) {
    && Sound(m') && Grows(m, m') && AddsUpTo(m, m', page, k) && SameWalks(m, m') && (TablesLowest(m) ==> TablesLowest(m'))
    && FreeCount(m'.bits) == FreeCount(m.bits) - MissingUpTo(m, page, k)
  }

  lemma ExtendsNext(m: Machine, m': Machine, m'': Machine, page: nat, k: nat)
    requires ExtendsTo(m, m', page, k) && k < 3 && page < TWO_36
    requires Extends(m', m'', k + 1, Above(page, k + 1))
    ensures ExtendsTo(m, m'', page, k + 1)
  {
    GrowsTransitive(m, m', m'');
    SameWalksTransitive(m, m', m'');
    AddsNext(m, m', m'', page, k);
  }

  lemma NothingExtends(m: Machine, page: nat)
    requires Sound(m)
    ensures ExtendsTo(m, m, page, 0)
  {}

  /** There is a table to look into at the next level, and a frame for the one it may lack. */
  lemma LevelReady(m: Machine, m': Machine, page: nat, k: nat)
    requires ExtendsTo(m, m', page, k) && k < 3 && page < TWO_36 && FreeCount(m.bits) >= MissingUpTo(m, page, k + 1)
    ensures Position(k + 1, Above(page, k + 1)) && Position(k, Above(page, k + 1) / 512)
    ensures TableAt(m'.mem, m'.root, k, Above(page, k + 1) / 512).Some?
    ensures FreeCount(m'.bits) >= MissingAt(m', k + 1, Above(page, k + 1))
  {
    if k > 0 {
      assert OnTheWay(page, k, Above(page, k)) && Above(page, k + 1) / 512 == Above(page, k);
    }
  }

  lemma LevelExtends(m: Machine, m': Machine, page: nat, k: nat)
    requires ExtendsTo(m, m', page, k) && k < 3 && page < TWO_36 && FreeCount(m.bits) >= MissingUpTo(m, page, k + 1)
    ensures ExtendsTo(m, EnsureTable(m', k + 1, Above(page, k + 1)), page, k + 1)
  {
    LevelReady(m, m', page, k);
    EnsureTableExtends(m', k + 1, Above(page, k + 1));
    ExtendsNext(m, m', EnsureTable(m', k + 1, Above(page, k + 1)), page, k);
  }

  /** The first k levels of the walk. */
  ghost function EnsureUpTo(m: Machine, page: nat, k: nat): Machine {
    if k == 0 then m else EnsureTable(EnsureUpTo(m, page, k - 1), k, Above(page, k))
  }

  lemma {:induction false} EnsureUpToExtends(m: Machine, page: nat, k: nat)
    requires Sound(m) && page < TWO_36 && k <= 3 && FreeCount(m.bits) >= MissingUpTo(m, page, k)
    ensures ExtendsTo(m, EnsureUpTo(m, page, k), page, k)
  {
    if k == 0 {
      NothingExtends(m, page);
    } else {
      EnsureUpToExtends(m, page, k - 1);
      LevelExtends(m, EnsureUpTo(m, page, k - 1), page, k - 1);
    }
  }

  lemma MissingUpToThree(m: Machine, page: nat)
    ensures MissingUpTo(m, page, 1) <= MissingUpTo(m, page, 2) <= MissingUpTo(m, page, 3) == Missing(m, page)
  {
    assert MissingUpTo(m, page, 1) == MissingAt(m, 1, Above(page, 1));
    assert MissingUpTo(m, page, 2) == MissingUpTo(m, page, 1) + MissingAt(m, 2, Above(page, 2));
  }

  /** The three upper levels of the walk. */
  ghost function EnsureTables(m: Machine, page: nat): Machine {
    EnsureUpTo(m, page, 3)
  }

  lemma EnsureTablesExtends(m: Machine, page: nat)
    requires Sound(m) && page < TWO_36 && FreeCount(m.bits) >= Missing(m, page)
    ensures var m' := EnsureTables(m, page);
      && ExtendsTo(m, m', page, 3) && AddsTablesTo(m, m', page)
      && FreeCount(m'.bits) == FreeCount(m.bits) - Missing(m, page)
      && TableAt(m'.mem, m'.root, 3, page / 512).Some?
  {
    MissingUpToThree(m, page);
    EnsureUpToExtends(m, page, 3);
    assert Position(3, page / 512) && OnTheWay(page, 3, page / 512);
  }

  /** `MapMemory(v, p)` as a function of the state, for the page of v and the frame of p. */
  ghost function MapPage(m: Machine, page: nat, frame: uint64): Machine
    requires Sound(m) && page < TWO_36 && FreeCount(m.bits) >= Missing(m, page)
  {
    EnsureTablesExtends(m, page);
    WriteLeaf(EnsureTables(m, page), page, frame)
  }

  /** After `MapMemory` the walk of the page gives its frame, present and
      writable; every other walk is what it was; the tree and the allocator
      still agree; and exactly the missing tables were taken from the allocator. */
  lemma MapPageMaps(m: Machine, page: nat, frame: uint64)
    requires Sound(m) && page < TWO_36 && FreeCount(m.bits) >= Missing(m, page)
    ensures var m' := MapPage(m, page, frame);
      && Sound(m') && Grows(m, m') && AddsTablesTo(m, m', page)
      && MapsOnly(m, m', page, Mapped(frame % TWO_40, true))
      && FreeCount(m'.bits) == FreeCount(m.bits) - Missing(m, page)
  {
    EnsureTablesExtends(m, page);
    var m3 := EnsureTables(m, page);
    WriteLeafMaps(m3, page, frame);
    GrowsTransitive(m, m3, WriteLeaf(m3, page, frame));
  }

  // ----- where the tables lie

  /** Frames are only taken; the new tables are frames that were free; and if the tables
      lay at the bottom, they still do. */
  ghost predicate OnlyTakes(m: Machine, m': Machine) {
    && m'.root == m.root && Covers(m'.bits, m.bits)
    && (forall f: nat :: IsTable(m'.mem, m.root, f) ==> IsTable(m.mem, m.root, f) || (f < |m.bits| && !m.bits[f]))
    && (TablesLowest(m) ==> TablesLowest(m'))
  }

  lemma OnlyTakesTransitive(a: Machine, b: Machine, c: Machine)
    requires OnlyTakes(a, b) && OnlyTakes(b, c)
    ensures OnlyTakes(a, c)
  {}

  lemma MapPageOnlyTakes(m: Machine, page: nat, frame: uint64)
    requires Sound(m) && page < TWO_36 && FreeCount(m.bits) >= Missing(m, page)
    ensures OnlyTakes(m, MapPage(m, page, frame))
  {
    MapPageMaps(m, page, frame);
    if TablesLowest(m) {
      MapPageLowest(m, page, frame);
    }
  }

  lemma FillOnlyTakes(m: Machine, start: nat, count: nat)
    ensures OnlyTakes(m, m.(bits := Fill(m.bits, start, count, true)))
  {}

  /** `MapMemory` keeps the tables at the bottom. */
  lemma MapPageLowest(m: Machine, page: nat, frame: uint64)
    requires Sound(m) && page < TWO_36 && FreeCount(m.bits) >= Missing(m, page) && TablesLowest(m)
    ensures TablesLowest(MapPage(m, page, frame))
  {
    EnsureTablesExtends(m, page);
    WriteLeafMaps(EnsureTables(m, page), page, frame);
  }
}
