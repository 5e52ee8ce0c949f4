/** The four-level table tree as the hardware walks it (Intel SDM Vol. 3A,
    section 4.5), and what the two writes `MapMemory` makes do to it.

    A page is a 36-bit page number. A table is named by where it hangs: depth 0
    is the PML4, and table (d, x) with x < 512^d is the one found in entry
    x % 512 of table (d - 1, x / 512). The page tables proper have depth 3 and
    depth 4 is the mapped frame itself. */
module PageWalk {
  import opened Words
  import opened Options
  import opened PageEntries

  type PageTable = t: seq<PageDirectoryEntry> | |t| == 512
    witness seq(512, _ => NULL_ENTRY)

  /** Physical memory by frame number, each frame read as a table. */
  type Memory = seq<PageTable>

  function Cleared(): PageTable {
    seq(512, _ => NULL_ENTRY)
  }

  datatype Translation = Fault | Mapped(frame: nat, writable: bool)

  /** The number of table positions at a depth: 512^d. */
  function Span(d: nat): nat {
    if d == 0 then 1
    else if d == 1 then 0x200
    else if d == 2 then 0x4_0000
    else if d == 3 then 0x800_0000
    else TWO_36
  }

  predicate Position(d: nat, x: nat) {
    d <= 3 && x < Span(d)
  }

  ghost function TableAt(mem: Memory, root: nat, d: nat, x: nat): Option<nat> {
    if d == 0 then Some(root)
    else match TableAt(mem, root, d - 1, x / 512)
      case None => None
      case Some(t) =>
        if t < |mem| && mem[t][x % 512].GetFlag(Present) then Some(mem[t][x % 512].GetAddress())
        else None
  }

  /** Whether every entry on the way to (d, x) has its write bit set. */
  ghost predicate WritablePath(mem: Memory, root: nat, d: nat, x: nat) {
    d > 0 ==>
      && WritablePath(mem, root, d - 1, x / 512)
      && var t := TableAt(mem, root, d - 1, x / 512);
         t.Some? && t.value < |mem| && mem[t.value][x % 512].Has(ReadWrite)
  }

  ghost function Walk(mem: Memory, root: nat, page: nat): Translation {
    match TableAt(mem, root, 4, page)
    case None => Fault
    case Some(f) => Mapped(f, WritablePath(mem, root, 4, page))
  }

  /** An entry of a table above the last level: a present one is writable and points
      at a table, not at a large page. Its other bits are free, so the processor may
      mark it accessed. */
  predicate InnerEntry(e: PageDirectoryEntry) {
    !e.Has(LargerPages) && (e.Has(Present) ==> e.Has(ReadWrite))
  }

  /** The tables form a tree: each lies in memory, no frame is two of them, so
      each but the root hangs from exactly one present entry and no frame
      serves two levels. */
  ghost predicate Tree(mem: Memory, root: nat) {
    && |mem| <= TWO_40
    && (forall d: nat, x: nat :: Position(d, x) && TableAt(mem, root, d, x).Some? ==> TableAt(mem, root, d, x).value < |mem|)
    && (forall d: nat, x: nat, e: nat, y: nat :: Position(d, x) && Position(e, y)
          && TableAt(mem, root, d, x).Some? && TableAt(mem, root, d, x) == TableAt(mem, root, e, y)
          ==> d == e && x == y)
    && (forall d: nat, x: nat, i :: Position(d, x) && d < 3 && 0 <= i < 512 && TableAt(mem, root, d, x).Some?
          ==> InnerEntry(mem[TableAt(mem, root, d, x).value][i]))
  }

  ghost predicate IsTable(mem: Memory, root: nat, f: nat) {
    exists d: nat, x: nat :: Position(d, x) && TableAt(mem, root, d, x) == Some(f)
  }

  /** A frame is a table in one place only. */
  lemma OnePlace(mem: Memory, root: nat, d: nat, x: nat, e: nat, y: nat)
    requires Tree(mem, root) && Position(d, x) && Position(e, y)
    requires TableAt(mem, root, d, x).Some? && TableAt(mem, root, d, x) == TableAt(mem, root, e, y)
    ensures d == e && x == y
  {}

  lemma ParentPosition(d: nat, x: nat)
    requires 0 < d <= 4 && x < Span(d)
    ensures Position(d - 1, x / 512)
  {}

  lemma ChildPosition(d: nat, x: nat, i: nat)
    requires Position(d, x) && d < 3 && i < 512
    ensures var z := x * 512 + i; z / 512 == x && z % 512 == i && Position(d + 1, z)
  {}

  // ----- a new table

  function Store(mem: Memory, t: nat, i: nat, e: PageDirectoryEntry): Memory
    requires t < |mem| && i < 512
  {
    mem[t := mem[t][i := e]]
  }

  function Install(mem: Memory, t: nat, i: nat, f: nat): Memory
    requires t < |mem| && f < |mem| && f < TWO_40 && i < 512
  {
    Store(mem[f := Cleared()], t, i, Linked(mem[t][i], f))
  }

  /** Of the entries of the tables there are, only the one written changes. */
  lemma EntryAfterInstall(mem: Memory, root: nat, d: nat, x: nat, f: nat, t: nat, e: nat, y: nat, u: nat)
    requires Tree(mem, root) && 0 < d && 0 < e && Position(d - 1, x / 512) && Position(e - 1, y / 512)
    requires TableAt(mem, root, d - 1, x / 512) == Some(t) && TableAt(mem, root, e - 1, y / 512) == Some(u)
    requires f < |mem| && !IsTable(mem, root, f)
    ensures t < |mem| && u < |mem| && f != u && f != t
    ensures Install(mem, t, x % 512, f)[u][y % 512]
         == if e == d && y == x then Linked(mem[t][x % 512], f) else mem[u][y % 512]
  {
    assert IsTable(mem, root, t) && IsTable(mem, root, u);
    if u == t {
      OnePlace(mem, root, d - 1, x / 512, e - 1, y / 512);
    }
  }

  /** Hanging a cleared frame from an empty inner entry adds one table and
      changes no other table position and no mapped page. */
  lemma {:induction false} InstallAt(mem: Memory, root: nat, d: nat, x: nat, f: nat, e: nat, y: nat)
    requires Tree(mem, root) && Position(d, x) && 0 < d
    requires TableAt(mem, root, d - 1, x / 512).Some? && TableAt(mem, root, d, x).None?
    requires f < |mem| && !IsTable(mem, root, f)
    requires e <= 4 && y < Span(e)
    ensures Position(d - 1, x / 512) && TableAt(mem, root, d - 1, x / 512).value < |mem|
    ensures TableAt(Install(mem, TableAt(mem, root, d - 1, x / 512).value, x % 512, f), root, e, y)
         == if e == d && y == x then Some(f) else TableAt(mem, root, e, y)
  {
    ParentPosition(d, x);
    if e > 0 {
      ParentPosition(e, y);
      InstallAt(mem, root, d, x, f, e - 1, y / 512);
      InstallStep(mem, root, d, x, f, TableAt(mem, root, d - 1, x / 512).value, e, y);
    }
  }

  lemma InstallStep(mem: Memory, root: nat, d: nat, x: nat, f: nat, t: nat, e: nat, y: nat)
    requires Tree(mem, root) && 0 < d && 0 < e && Position(d, x) && Position(d - 1, x / 512) && Position(e - 1, y / 512)
    requires TableAt(mem, root, d - 1, x / 512) == Some(t) && TableAt(mem, root, d, x).None?
    requires f < |mem| && t < |mem| && !IsTable(mem, root, f)
    requires TableAt(Install(mem, t, x % 512, f), root, e - 1, y / 512)
          == if e - 1 == d && y / 512 == x then Some(f) else TableAt(mem, root, e - 1, y / 512)
    ensures TableAt(Install(mem, t, x % 512, f), root, e, y)
         == if e == d && y == x then Some(f) else TableAt(mem, root, e, y)
  {
    match TableAt(mem, root, e - 1, y / 512)
    case None =>
      EntryAfterInstall(mem, root, d, x, f, t, d, x, t);
    case Some(u) =>
      EntryAfterInstall(mem, root, d, x, f, t, e, y, u);
  }

  lemma {:induction false} InstallWritable(mem: Memory, root: nat, d: nat, x: nat, f: nat, e: nat, y: nat)
    requires Tree(mem, root) && Position(d, x) && 0 < d
    requires TableAt(mem, root, d - 1, x / 512).Some? && TableAt(mem, root, d, x).None?
    requires f < |mem| && !IsTable(mem, root, f)
    requires e <= 4 && y < Span(e) && TableAt(mem, root, e, y).Some?
    ensures Position(d - 1, x / 512) && TableAt(mem, root, d - 1, x / 512).value < |mem|
    ensures WritablePath(Install(mem, TableAt(mem, root, d - 1, x / 512).value, x % 512, f), root, e, y)
         == WritablePath(mem, root, e, y)
  {
    ParentPosition(d, x);
    if e > 0 {
      ParentPosition(e, y);
      InstallAt(mem, root, d, x, f, e - 1, y / 512);
      InstallWritable(mem, root, d, x, f, e - 1, y / 512);
      var t, u := TableAt(mem, root, d - 1, x / 512).value, TableAt(mem, root, e - 1, y / 512).value;
      assert IsTable(mem, root, u);
      if u == t {
        OnePlace(mem, root, d - 1, x / 512, e - 1, y / 512);
      }
    }
  }

  /** A new table keeps the tree, adds exactly itself, and leaves every walk as it was. */
  lemma InstallKeepsTree(mem: Memory, root: nat, d: nat, x: nat, f: nat)
    requires Tree(mem, root) && Position(d, x) && 0 < d
    requires TableAt(mem, root, d - 1, x / 512).Some? && TableAt(mem, root, d, x).None?
    requires f < |mem| && !IsTable(mem, root, f)
    ensures Position(d - 1, x / 512) && TableAt(mem, root, d - 1, x / 512).value < |mem|
    ensures var mem' := Install(mem, TableAt(mem, root, d - 1, x / 512).value, x % 512, f);
      && Tree(mem', root)
      && (forall e: nat, y: nat :: Position(e, y) ==>
            TableAt(mem', root, e, y) == if e == d && y == x then Some(f) else TableAt(mem, root, e, y))
      && (forall page :: 0 <= page < TWO_36 ==> Walk(mem', root, page) == Walk(mem, root, page))
  {
    ParentPosition(d, x);
    var t := TableAt(mem, root, d - 1, x / 512).value;
    var mem' := Install(mem, t, x % 512, f);
    forall e: nat, y: nat | e <= 4 && 0 <= y < Span(e)
      ensures TableAt(mem', root, e, y) == if e == d && y == x then Some(f) else TableAt(mem, root, e, y)
    {
      InstallAt(mem, root, d, x, f, e, y);
    }
    forall page | 0 <= page < TWO_36
      ensures Walk(mem', root, page) == Walk(mem, root, page)
    {
      assert page < Span(4);
      InstallAt(mem, root, d, x, f, 4, page);
      if TableAt(mem, root, 4, page).Some? {
        InstallWritable(mem, root, d, x, f, 4, page);
      }
    }
    forall e: nat, y: nat, i | Position(e, y) && e < 3 && 0 <= i < 512 && TableAt(mem', root, e, y).Some?
      ensures InnerEntry(mem'[TableAt(mem', root, e, y).value][i])
    {
      if e == d && y == x {
        assert mem'[f] == Cleared();
      } else {
        var u := TableAt(mem, root, e, y).value;
        assert IsTable(mem, root, u);
      }
    }
  }

  // ----- a leaf entry, and frames that are no table

  predicate SameTable(mem: Memory, mem': Memory, t: nat) {
    t < |mem| && t < |mem'| ==> mem[t] == mem'[t]
  }

  /** Walks to a depth depend on the tables above that depth and on nothing else. */
  lemma {:induction false} WalkDependsOnTables(mem: Memory, mem': Memory, root: nat, k: nat, e: nat, y: nat)
    requires |mem| == |mem'| && k <= 4 && e <= k && y < Span(e)
    requires forall d: nat, x: nat :: Position(d, x) && d < k && TableAt(mem, root, d, x).Some?
               ==> SameTable(mem, mem', TableAt(mem, root, d, x).value)
    ensures TableAt(mem', root, e, y) == TableAt(mem, root, e, y)
    ensures WritablePath(mem', root, e, y) == WritablePath(mem, root, e, y)
  {
    if e > 0 {
      ParentPosition(e, y);
      WalkDependsOnTables(mem, mem', root, k, e - 1, y / 512);
    }
  }

  /** Every inner entry is writable, so a walk can only be stopped from writing by its leaf. */
  lemma {:induction false} TablesAreWritable(mem: Memory, root: nat, d: nat, x: nat)
    requires Tree(mem, root) && Position(d, x) && TableAt(mem, root, d, x).Some?
    ensures WritablePath(mem, root, d, x)
  {
    if d > 0 {
      ParentPosition(d, x);
      TablesAreWritable(mem, root, d - 1, x / 512);
      var t := TableAt(mem, root, d - 1, x / 512).value;
      assert InnerEntry(mem[t][x % 512]);
    }
  }

  lemma StoreInLastLevel(mem: Memory, root: nat, n: nat, i: nat, e: PageDirectoryEntry)
    requires Tree(mem, root) && Position(3, n) && TableAt(mem, root, 3, n).Some? && i < 512
    ensures TableAt(mem, root, 3, n).value < |mem|
    ensures var mem' := Store(mem, TableAt(mem, root, 3, n).value, i, e);
      forall d: nat, x: nat :: Position(d, x) ==>
        && TableAt(mem', root, d, x) == TableAt(mem, root, d, x)
        && WritablePath(mem', root, d, x) == WritablePath(mem, root, d, x)
  {
    var t := TableAt(mem, root, 3, n).value;
    var mem' := Store(mem, t, i, e);
    forall d: nat, x: nat | Position(d, x) && d < 3 && TableAt(mem, root, d, x).Some?
      ensures SameTable(mem, mem', TableAt(mem, root, d, x).value)
    {
      assert TableAt(mem, root, d, x) != TableAt(mem, root, 3, n);
    }
    forall d: nat, x: nat | Position(d, x)
      ensures TableAt(mem', root, d, x) == TableAt(mem, root, d, x)
      ensures WritablePath(mem', root, d, x) == WritablePath(mem, root, d, x)
    {
      WalkDependsOnTables(mem, mem', root, 3, d, x);
    }
  }

  lemma StoreKeepsTree(mem: Memory, root: nat, n: nat, i: nat, e: PageDirectoryEntry)
    requires Tree(mem, root) && Position(3, n) && TableAt(mem, root, 3, n).Some? && i < 512
    ensures TableAt(mem, root, 3, n).value < |mem|
    ensures Tree(Store(mem, TableAt(mem, root, 3, n).value, i, e), root)
  {
    StoreInLastLevel(mem, root, n, i, e);
    var t := TableAt(mem, root, 3, n).value;
    forall d: nat, x: nat | Position(d, x) && d < 3 && TableAt(mem, root, d, x).Some?
      ensures TableAt(mem, root, d, x).value != t
    {
      assert TableAt(mem, root, d, x) != TableAt(mem, root, 3, n);
    }
  }

  /** The last step of a walk. */
  function LeafWalk(mem: Memory, table: Option<nat>, i: nat, writable: bool): Translation
    requires i < 512
  {
    match table
    case None => Fault
    case Some(t) =>
      if t < |mem| && mem[t][i].GetFlag(Present) then Mapped(mem[t][i].GetAddress(), writable && mem[t][i].Has(ReadWrite))
      else Fault
  }

  lemma WalkEndsInLeaf(mem: Memory, root: nat, page: nat)
    requires page < TWO_36
    ensures Walk(mem, root, page)
         == LeafWalk(mem, TableAt(mem, root, 3, page / 512), page % 512, WritablePath(mem, root, 3, page / 512))
  {}

  /** Writing a present leaf entry maps its own page and leaves the walk of every other as it was. */
  lemma StoreAndWalk(mem: Memory, root: nat, page: nat, e: PageDirectoryEntry, other: nat)
    requires Tree(mem, root) && page < TWO_36 && TableAt(mem, root, 3, page / 512).Some?
    requires e.Has(Present) && other < TWO_36
    ensures TableAt(mem, root, 3, page / 512).value < |mem|
    ensures var mem' := Store(mem, TableAt(mem, root, 3, page / 512).value, page % 512, e);
      Walk(mem', root, other) == if other == page then Mapped(e.GetAddress(), e.Has(ReadWrite)) else Walk(mem, root, other)
  {
    var n, m := page / 512, other / 512;
    var mem' := LeafStored(mem, root, page, e, m);
    WalkEndsInLeaf(mem, root, other);
    WalkEndsInLeaf(mem', root, other);
    if other == page {
      TablesAreWritable(mem, root, 3, n);
    } else if TableAt(mem, root, 3, m).Some? {
      OtherLeafStays(mem, root, page, e, other);
    }
  }

  lemma LeafStored(mem: Memory, root: nat, page: nat, e: PageDirectoryEntry, m: nat) returns (mem': Memory)
    requires Tree(mem, root) && page < TWO_36 && m < 0x800_0000 && TableAt(mem, root, 3, page / 512).Some?
    ensures Position(3, page / 512) && Position(3, m) && TableAt(mem, root, 3, page / 512).value < |mem|
    ensures mem' == Store(mem, TableAt(mem, root, 3, page / 512).value, page % 512, e)
    ensures TableAt(mem', root, 3, m) == TableAt(mem, root, 3, m)
    ensures WritablePath(mem', root, 3, m) == WritablePath(mem, root, 3, m)
  {
    assert Position(3, page / 512) && Position(3, m);
    StoreInLastLevel(mem, root, page / 512, page % 512, e);
    mem' := Store(mem, TableAt(mem, root, 3, page / 512).value, page % 512, e);
  }

  lemma OtherLeafStays(mem: Memory, root: nat, page: nat, e: PageDirectoryEntry, other: nat)
    requires Tree(mem, root) && page < TWO_36 && other < TWO_36 && other != page
    requires TableAt(mem, root, 3, page / 512).Some? && TableAt(mem, root, 3, other / 512).Some?
    ensures var t, u := TableAt(mem, root, 3, page / 512).value, TableAt(mem, root, 3, other / 512).value;
      t < |mem| && u < |mem| && Store(mem, t, page % 512, e)[u][other % 512] == mem[u][other % 512]
  {
    assert Position(3, page / 512) && Position(3, other / 512);
    if TableAt(mem, root, 3, page / 512) == TableAt(mem, root, 3, other / 512) {
      OnePlace(mem, root, 3, page / 512, 3, other / 512);
    }
  }

  /** What is written to a frame that is no table does not reach the walk. */
  lemma WriteElsewhere(mem: Memory, root: nat, f: nat, contents: PageTable)
    requires Tree(mem, root) && f < |mem| && !IsTable(mem, root, f)
    ensures var mem' := mem[f := contents];
      && Tree(mem', root)
      && (forall d: nat, x: nat :: Position(d, x) ==> TableAt(mem', root, d, x) == TableAt(mem, root, d, x))
      && (forall page :: 0 <= page < TWO_36 ==> Walk(mem', root, page) == Walk(mem, root, page))
  {
    var mem' := mem[f := contents];
    forall d: nat, x: nat | d <= 4 && 0 <= x < Span(d)
      ensures TableAt(mem', root, d, x) == TableAt(mem, root, d, x)
      ensures WritablePath(mem', root, d, x) == WritablePath(mem, root, d, x)
    {
      WalkDependsOnTables(mem, mem', root, 4, d, x);
    }
    forall page | 0 <= page < TWO_36
      ensures Walk(mem', root, page) == Walk(mem, root, page)
    {
      assert page < Span(4);
    }
  }

  // ----- marks of the processor

  /** All that a walk looks at is the same in both entries. */
  predicate SameLink(e: PageDirectoryEntry, e': PageDirectoryEntry) {
    e.frame == e'.frame && e.Has(Present) == e'.Has(Present)
    && e.Has(ReadWrite) == e'.Has(ReadWrite) && e.Has(LargerPages) == e'.Has(LargerPages)
  }

  ghost predicate SameLinks(mem: Memory, mem': Memory) {
    |mem| == |mem'| && forall t, i :: 0 <= t < |mem| && 0 <= i < 512 ==> SameLink(mem[t][i], mem'[t][i])
  }

  lemma {:induction false} WalkDependsOnLinks(mem: Memory, mem': Memory, root: nat, d: nat, x: nat)
    requires SameLinks(mem, mem')
    ensures TableAt(mem', root, d, x) == TableAt(mem, root, d, x)
    ensures WritablePath(mem', root, d, x) == WritablePath(mem, root, d, x)
  {
    if d > 0 {
      WalkDependsOnLinks(mem, mem', root, d - 1, x / 512);
      var t := TableAt(mem, root, d - 1, x / 512);
      assert t.Some? && t.value < |mem| ==> SameLink(mem[t.value][x % 512], mem'[t.value][x % 512]);
    }
  }

  /** The accessed and dirty marks reach neither the tree nor any walk. */
  lemma MarkKeepsTree(mem: Memory, root: nat, t: nat, i: nat, written: bool)
    requires Tree(mem, root) && t < |mem| && i < 512
    ensures var mem' := Store(mem, t, i, Marked(mem[t][i], written));
      && Tree(mem', root)
      && (forall d: nat, x: nat :: TableAt(mem', root, d, x) == TableAt(mem, root, d, x))
      && (forall page :: 0 <= page < TWO_36 ==> Walk(mem', root, page) == Walk(mem, root, page))
  {
    var mem' := Store(mem, t, i, Marked(mem[t][i], written));
    forall u, j | 0 <= u < |mem| && 0 <= j < 512
      ensures SameLink(mem[u][j], mem'[u][j])
    {}
    forall d: nat, x: nat
      ensures TableAt(mem', root, d, x) == TableAt(mem, root, d, x)
      ensures WritablePath(mem', root, d, x) == WritablePath(mem, root, d, x)
    {
      WalkDependsOnLinks(mem, mem', root, d, x);
    }
    forall d: nat, x: nat, j | Position(d, x) && d < 3 && 0 <= j < 512 && TableAt(mem', root, d, x).Some?
      ensures InnerEntry(mem'[TableAt(mem', root, d, x).value][j])
    {
      var u := TableAt(mem, root, d, x).value;
      assert InnerEntry(mem[u][j]) && SameLink(mem[u][j], mem'[u][j]);
    }
  }
}
