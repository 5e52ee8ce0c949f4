/** Arbitrary runs of the kernel against the allocator and the page tables.

    A client maps pages, requests and reserves frames, frees frames it was
    given, and writes whatever it likes into frames it was given. Meanwhile the
    processor marks the table entries it uses as accessed and dirty. A page may be
    mapped with one frame less than it takes, if frame 0 can be had for it; the tables
    do not survive a mapping with fewer (`MapIsSafe`). */
module Runs {
  import opened Words
  import opened Options
  import opened PageEntries
  import opened PageWalk
  import opened FrameBits
  import opened Machine
  import opened OutOfFrames

  datatype World = World(m: Machine, owned: set<nat>)

  datatype Op =
    | Map(virtualAddress: uint64, physicalAddress: uint64)
    | Request
    | Allocate(start: nat, count: nat)
    | Free(frame: nat)
    | Write(target: nat, contents: PageTable)
    | Use(table: nat, index: nat, written: bool)

  function PageOf(virtualAddress: uint64): (page: nat)
    ensures page < TWO_36
  {
    virtualAddress / 0x1000 % TWO_36
  }

  function FrameOf(physicalAddress: uint64): uint64 {
    physicalAddress / 0x1000
  }

  /** The client's frames are in use and are none of the tables. */
  ghost predicate Safe(w: World) {
    && Sound(w.m)
    && forall f :: f in w.owned ==> f < |w.m.bits| && w.m.bits[f] && !IsTable(w.m.mem, w.m.root, f)
  }

  /** How many tables a mapping may add: frame 0 stands in for a missing frame once, as
      long as it is neither the client's nor a table. */
  ghost function FramesFor(w: World): nat {
    if 0 in w.owned then FreeCount(w.m.bits) else Spare(w.m)
  }

  ghost predicate Enabled(w: World, op: Op) {
    match op
    case Map(v, p) => Missing(w.m, PageOf(v)) <= FramesFor(w)
    case Request => true
    case Allocate(_, _) => true
    case Free(f) => f in w.owned && f < |w.m.bits|
    case Write(f, _) => f in w.owned && f < |w.m.mem|
    case Use(t, i, _) => t < |w.m.mem| && IsTable(w.m.mem, w.m.root, t) && i < 512 && w.m.mem[t][i].Has(Present)
  }

  ghost function Step(w: World, op: Op): World
    requires Enabled(w, op)
  {
    match op
    case Map(v, p) => w.(m := MapAnyway(w.m, PageOf(v), FrameOf(p)))
    case Request =>
      (match LowestFree(w.m.bits)
       case None => w
       case Some(f) => World(w.m.(bits := w.m.bits[f := true]), w.owned + {f}))
    case Allocate(start, count) =>
      World(w.m.(bits := Fill(w.m.bits, start, count, true)),
            w.owned + set j | 0 <= j < |w.m.bits| && start <= j < start + count && !w.m.bits[j])
    case Free(f) => World(w.m.(bits := w.m.bits[f := false]), w.owned - {f})
    case Write(f, contents) => w.(m := w.m.(mem := w.m.mem[f := contents]))
    case Use(t, i, written) => w.(m := w.m.(mem := Store(w.m.mem, t, i, Marked(w.m.mem[t][i], written))))
  }

  ghost predicate Allowed(w: World, ops: seq<Op>)
    decreases |ops|
  {
    ops != [] ==> Enabled(w, ops[0]) && Allowed(Step(w, ops[0]), ops[1..])
  }

  ghost function Run(w: World, ops: seq<Op>): World
    requires Allowed(w, ops)
    decreases |ops|
  {
    if ops == [] then w else Run(Step(w, ops[0]), ops[1..])
  }

  function Mapping(op: Op, page: nat, before: Translation): Translation {
    if op.Map? && PageOf(op.virtualAddress) == page then Mapped(FrameOf(op.physicalAddress) % TWO_40, true)
    else before
  }

  /** The translation of a page after some operations: its last `Map` decides. */
  function LastMapping(ops: seq<Op>, page: nat, before: Translation): Translation {
    if ops == [] then before else LastMapping(ops[1..], page, Mapping(ops[0], page, before))
  }

  lemma StepIsSafe(w: World, op: Op)
    requires Safe(w) && Enabled(w, op)
    ensures Safe(Step(w, op)) && Step(w, op).m.root == w.m.root
    ensures forall page :: 0 <= page < TWO_36 ==>
              Walk(Step(w, op).m.mem, w.m.root, page) == Mapping(op, page, Walk(w.m.mem, w.m.root, page))
  {
    var w' := Step(w, op);
    match op
    case Map(v, p) =>
      MapAnywayMaps(w.m, PageOf(v), FrameOf(p));
    case Request =>
    case Allocate(start, count) =>
    case Free(f) =>
    case Write(f, contents) =>
      WriteElsewhere(w.m.mem, w.m.root, f, contents);
    case Use(t, i, written) =>
      MarkKeepsTree(w.m.mem, w.m.root, t, i, written);
  }

  /** A mapping of one of the client's frames keeps the state safe if and only if it is
      no more than one frame short. */
  lemma MapIsSafe(w: World, virtualAddress: uint64, physicalAddress: uint64)
    requires Safe(w) && ZeroAside(w.m) && 0 !in w.owned && FrameOf(physicalAddress) % TWO_40 in w.owned
    ensures Safe(w.(m := MapAnyway(w.m, PageOf(virtualAddress), FrameOf(physicalAddress))))
       <==> Missing(w.m, PageOf(virtualAddress)) <= FreeCount(w.m.bits) + 1
  {
    var page, frame := PageOf(virtualAddress), FrameOf(physicalAddress);
    if Missing(w.m, page) <= FreeCount(w.m.bits) + 1 {
      StepIsSafe(w, Map(virtualAddress, physicalAddress));
    } else {
      ShortByMore(w.m, page, frame);
    }
  }

  /** Whatever a client does, the tables stay a tree of frames it does not own,
      and the walk of a page is decided by the last mapping of that page: neither
      later mappings, nor frames coming and going, nor anything written to the
      client's frames, nor the processor's own marks reach it. */
  lemma {:induction false} RunIsSafe(w: World, ops: seq<Op>)
    requires Safe(w) && Allowed(w, ops)
    ensures Safe(Run(w, ops)) && Run(w, ops).m.root == w.m.root
    ensures forall page :: 0 <= page < TWO_36 ==>
              Walk(Run(w, ops).m.mem, w.m.root, page) == LastMapping(ops, page, Walk(w.m.mem, w.m.root, page))
    decreases |ops|
  {
    if ops != [] {
      StepIsSafe(w, ops[0]);
      RunIsSafe(Step(w, ops[0]), ops[1..]);
    }
  }

  /** Over any run no entry above the last level ever carries the large-page bit, so the
      four-level walk is the one the processor performs. */
  lemma NoLargePages(w: World, ops: seq<Op>, d: nat, x: nat, i: nat)
    requires Safe(w) && Allowed(w, ops) && Position(d, x) && d < 3 && i < 512
    ensures var m := Run(w, ops).m;
      match TableAt(m.mem, m.root, d, x)
      case None => true
      case Some(t) => t < |m.mem| && !m.mem[t][i].Has(LargerPages)
  {
    RunIsSafe(w, ops);
    var m := Run(w, ops).m;
    if TableAt(m.mem, m.root, d, x).Some? {
      assert InnerEntry(m.mem[TableAt(m.mem, m.root, d, x).value][i]);
    }
  }

  /** A frame in use stays in use until it is freed ... */
  lemma {:induction false} InUseUntilFreed(w: World, ops: seq<Op>, f: nat)
    requires Safe(w) && Allowed(w, ops) && f < |w.m.bits| && w.m.bits[f]
    requires Free(f) !in ops
    ensures f < |Run(w, ops).m.bits| && Run(w, ops).m.bits[f]
    decreases |ops|
  {
    if ops != [] {
      StepIsSafe(w, ops[0]);
      if ops[0].Map? {
        MapAnywayMaps(w.m, PageOf(ops[0].virtualAddress), FrameOf(ops[0].physicalAddress));
      }
      InUseUntilFreed(Step(w, ops[0]), ops[1..], f);
    }
  }

  /** ... so no request returns a frame an earlier request returned unless that
      frame was freed in between, and no request ever returns a live table. */
  lemma NeverHandedOutTwice(w: World, ops: seq<Op>, f: nat)
    requires Safe(w) && Allowed(w, [Request] + ops) && LowestFree(w.m.bits) == Some(f)
    requires Free(f) !in ops
    ensures var later := Run(w, [Request] + ops).m;
      && LowestFree(later.bits) != Some(f)
      && forall t: nat :: IsTable(later.mem, later.root, t) ==> LowestFree(later.bits) != Some(t)
  {
    var all := [Request] + ops;
    assert all[0] == Request && all[1..] == ops;
    StepIsSafe(w, Request);
    InUseUntilFreed(Step(w, Request), ops, f);
    RunIsSafe(w, all);
  }

  /** A frame in use, or past all the allocator knows, that is neither the client's nor
      a table. */
  ghost predicate SetAside(w: World, f: nat) {
    f < |w.m.mem| && (f < |w.m.bits| ==> w.m.bits[f]) && f !in w.owned && !IsTable(w.m.mem, w.m.root, f)
  }

  /** No mapping of the run finds too few frames. */
  ghost predicate Supplied(w: World, ops: seq<Op>)
    requires Allowed(w, ops)
    decreases |ops|
  {
    ops != [] ==>
      && (ops[0].Map? ==> Missing(w.m, PageOf(ops[0].virtualAddress)) <= FreeCount(w.m.bits))
      && Supplied(Step(w, ops[0]), ops[1..])
  }

  lemma StepKeepsAside(w: World, op: Op, f: nat)
    requires Safe(w) && Enabled(w, op) && SetAside(w, f)
    requires f > 0 || (op.Map? ==> Missing(w.m, PageOf(op.virtualAddress)) <= FreeCount(w.m.bits))
    ensures SetAside(Step(w, op), f) && |Step(w, op).m.mem| == |w.m.mem|
    ensures Step(w, op).m.mem[f] == w.m.mem[f]
  {
    match op
    case Map(v, p) =>
      MapAnywayMaps(w.m, PageOf(v), FrameOf(p));
    case Request =>
    case Allocate(start, count) =>
    case Free(g) =>
    case Write(g, contents) =>
      WriteElsewhere(w.m.mem, w.m.root, g, contents);
    case Use(t, i, written) =>
      MarkKeepsTree(w.m.mem, w.m.root, t, i, written);
  }

  /** Frames set aside at the start, such as the pages of the bitmap and of the kernel,
      stay so over any run: no request returns them, no table is made of them, and
      nothing is ever written to them. Frame 0 does so as long as frames suffice. */
  lemma {:induction false} SetAsideForGood(w: World, ops: seq<Op>, f: nat)
    requires Safe(w) && Allowed(w, ops) && SetAside(w, f)
    requires f > 0 || Supplied(w, ops)
    ensures var w' := Run(w, ops);
      && SetAside(w', f) && |w'.m.mem| == |w.m.mem| && w'.m.mem[f] == w.m.mem[f]
      && LowestFree(w'.m.bits) != Some(f)
    decreases |ops|
  {
    if ops != [] {
      StepKeepsAside(w, ops[0], f);
      StepIsSafe(w, ops[0]);
      SetAsideForGood(Step(w, ops[0]), ops[1..], f);
    }
  }

  lemma StepKeepsLowest(w: World, op: Op)
    requires Safe(w) && Enabled(w, op) && TablesLowest(w.m) && !op.Free?
    requires op.Map? ==> Missing(w.m, PageOf(op.virtualAddress)) <= FreeCount(w.m.bits)
    ensures TablesLowest(Step(w, op).m)
  {
    match op
    case Map(v, p) =>
      EnoughFrames(w.m, PageOf(v), FrameOf(p));
      MapPageLowest(w.m, PageOf(v), FrameOf(p));
    case Request =>
    case Allocate(start, count) =>
    case Write(g, contents) =>
      WriteElsewhere(w.m.mem, w.m.root, g, contents);
    case Use(t, i, written) =>
      MarkKeepsTree(w.m.mem, w.m.root, t, i, written);
  }

  /** As long as nothing is freed, no free frame lies below a table. */
  lemma {:induction false} RunKeepsLowest(w: World, ops: seq<Op>)
    requires Safe(w) && Allowed(w, ops) && Supplied(w, ops) && TablesLowest(w.m)
    requires forall k :: 0 <= k < |ops| ==> !ops[k].Free?
    ensures TablesLowest(Run(w, ops).m)
    decreases |ops|
  {
    if ops != [] {
      StepKeepsLowest(w, ops[0]);
      StepIsSafe(w, ops[0]);
      assert forall k :: 0 <= k < |ops| - 1 ==> ops[1..][k] == ops[k + 1];
      RunKeepsLowest(Step(w, ops[0]), ops[1..]);
    }
  }

  /** Each table but the root hangs from exactly one present inner entry. */
  lemma OneParent(m: Machine, d: nat, x: nat, t: nat, i: nat)
    requires Sound(m) && Position(d, x) && 0 < d && TableAt(m.mem, m.root, d, x).Some?
    requires t < |m.mem| && i < 512
    requires exists e: nat, y: nat :: Position(e, y) && e < 3 && TableAt(m.mem, m.root, e, y) == Some(t)
    requires m.mem[t][i].GetFlag(Present) && m.mem[t][i].GetAddress() == TableAt(m.mem, m.root, d, x).value
    ensures TableAt(m.mem, m.root, d - 1, x / 512) == Some(t) && i == x % 512
  {
    var e: nat, y: nat :| Position(e, y) && e < 3 && TableAt(m.mem, m.root, e, y) == Some(t);
    var z := y * 512 + i;
    ChildPosition(e, y, i);
    assert TableAt(m.mem, m.root, e + 1, z) == TableAt(m.mem, m.root, d, x);
  }
}
