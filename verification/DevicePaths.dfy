/** Walking, comparing and joining device paths. Memory is a sequence of bytes,
    or an array where the code writes; a pointer is an index into it and NULL is
    `None`. */
module DevicePaths {
  import opened Words
  import opened Options
  import opened DeviceNodes

  /** The last node `DevicePathInstance` is ready to step over: 01000 is octal. */
  const CUT_OFF: nat := 512

  /** Bytes of an instance without its end node. */
  function Size(nodes: Instance): nat {
    |EncodeNodes(nodes)|
  }

  /** All instances are short enough for the cut-off. */
  ghost predicate Countable(p: Path) {
    WellFormed(p) && forall i :: 0 <= i < |p| ==> |p[i]| <= CUT_OFF + 1
  }

  ghost predicate PathAt(mem: seq<byte>, pos: nat, p: Path) {
    WellFormed(p) && Holds(mem, pos, Encode(p))
  }

  /** The end node of an instance. */
  function EndOf(p: Path): Node
    requires p != []
  {
    if |p| == 1 then END_NODE else END_INSTANCE_NODE
  }

  lemma RawSplit(p: Path)
    requires p != []
    ensures Raw(p) == p[0] + [EndOf(p)] + (if |p| == 1 then [] else Raw(p[1..]))
  {
    assert |p| == 1 ==> Raw(p) == p[0] + [END_NODE] + [];
  }

  lemma SizeNext(nodes: Instance, k: nat)
    requires k < |nodes|
    ensures Size(nodes[..k + 1]) == Size(nodes[..k]) + nodes[k].Length()
  {
    assert nodes[..k + 1] == nodes[..k] + [nodes[k]];
    EncodeNodesAppend(nodes[..k], [nodes[k]]);
    EncodeOne(nodes[k]);
  }

  /** Node k of the first instance of a path, or its end node. */
  function NodeOf(p: Path, k: nat): Node
    requires p != [] && k <= |p[0]|
  {
    if k < |p[0]| then p[0][k] else EndOf(p)
  }

  lemma NodeOfRaw(p: Path, k: nat)
    requires WellFormed(p) && k <= |p[0]|
    ensures k < |Raw(p)| && Raw(p)[k..] == [NodeOf(p, k)] + Raw(p)[k + 1..]
    ensures NodeOf(p, k).Length() <= 0xffff && NodeOf(p, k).IsEndType() == (k == |p[0]|)
  {
    RawSplit(p);
  }

  /** A cursor k nodes into the first instance of a path. */
  ghost predicate Inside(mem: seq<byte>, pos: nat, p: Path, k: nat, cur: nat) {
    && PathAt(mem, pos, p) && k <= |p[0]| && cur == pos + Size(p[0][..k])
    && k < |Raw(p)| && Holds(mem, cur, EncodeNodes(Raw(p)[k..]))
  }

  lemma InsideStart(mem: seq<byte>, pos: nat, p: Path)
    requires PathAt(mem, pos, p)
    ensures Inside(mem, pos, p, 0, pos)
  {
    NodeOfRaw(p, 0);
    assert p[0][..0] == [] && Raw(p)[0..] == Raw(p);
  }

  lemma NodeStands(mem: seq<byte>, cur: nat, n: Node, rest: seq<Node>)
    requires Holds(mem, cur, EncodeNodes([n] + rest)) && n.Length() <= 0xffff
    ensures cur + 4 <= |mem| && mem[cur] == n.kind && mem[cur + 1] == n.subType && NodeLength(mem, cur) == n.Length()
    ensures Holds(mem, cur + n.Length(), EncodeNodes(rest))
  {
    assert ([n] + rest)[1..] == rest;
    NodeAt(mem, cur, [n] + rest);
  }

  /** What the cursor shows, and the next one. */
  lemma StepInFirst(mem: seq<byte>, pos: nat, p: Path, k: nat, cur: nat)
    requires Inside(mem, pos, p, k, cur)
    ensures cur + 4 <= |mem| && AtEndType(mem, cur) == (k == |p[0]|)
    ensures mem[cur + 1] == NodeOf(p, k).subType && NodeLength(mem, cur) == NodeOf(p, k).Length()
    ensures k < |p[0]| ==> Inside(mem, pos, p, k + 1, cur + NodeLength(mem, cur))
  {
    NodeOfRaw(p, k);
    NodeStands(mem, cur, NodeOf(p, k), Raw(p)[k + 1..]);
    if k < |p[0]| {
      NodeOfRaw(p, k + 1);
      SizeNext(p[0], k);
    }
  }

  lemma PrefixIsSmaller(nodes: Instance, k: nat)
    requires k < |nodes|
    ensures Size(nodes[..k]) < Size(nodes)
  {
    assert nodes == nodes[..k] + nodes[k..];
    EncodeNodesAppend(nodes[..k], nodes[k..]);
  }

  /** What `DevicePathInstance` takes for the instance. */
  function Taken(nodes: Instance): Instance {
    if |nodes| <= CUT_OFF + 1 then nodes else nodes[..CUT_OFF + 1]
  }

  /** There is something to go on with: another instance, or what was cut off, unless
      the node it was cut at has the subtype of an end. */
  predicate Onward(p: Path)
    requires p != []
  {
    if |p[0]| <= CUT_OFF + 1 then |p| > 1 else p[0][CUT_OFF + 1].subType != END_ENTIRE
  }

  /** What that is. The node an instance is cut at is lost. */
  function Remaining(p: Path): Path
    requires p != [] && Onward(p)
  {
    if |p[0]| <= CUT_OFF + 1 then p[1..] else [p[0][CUT_OFF + 2..]] + p[1..]
  }

  /** Where it goes on. */
  function Following(pos: nat, p: Path): Option<nat>
    requires p != []
  {
    if !Onward(p) then None
    else Some(pos + (if |p[0]| <= CUT_OFF + 1 then Size(p[0]) + 4 else Size(p[0][..CUT_OFF + 2])))
  }

  /** The instances that repeated calls give. */
  function Seen(p: Path): (seen: Path)
    requires p != []
    ensures seen != []
    decreases |p|, |p[0]|
  {
    [Taken(p[0])] + (if Onward(p) then Seen(Remaining(p)) else [])
  }

  /** They are those of the path, if none of these is too long. */
  lemma {:induction false} SeenAll(p: Path)
    requires Countable(p)
    ensures Seen(p) == p
  {
    if |p| > 1 {
      SeenAll(p[1..]);
      assert p == [p[0]] + p[1..];
    } else {
      assert p == [p[0]] + [];
    }
  }

  lemma {:induction false} SeenWellFormed(p: Path)
    requires WellFormed(p)
    ensures WellFormed(Seen(p)) && Seen(p)[0] == Taken(p[0])
    decreases |p|, |p[0]|
  {
    if Onward(p) {
      RemainingWellFormed(p);
      SeenWellFormed(Remaining(p));
    }
  }

  lemma RemainingWellFormed(p: Path)
    requires WellFormed(p) && Onward(p)
    ensures WellFormed(Remaining(p))
  {}

  /** The size is that of the first instance exactly when that is not cut off. */
  lemma TakenIsAll(nodes: Instance)
    ensures Size(Taken(nodes)) == Size(nodes) <==> |nodes| <= 513
  {
    if |nodes| > CUT_OFF + 1 {
      PrefixIsSmaller(nodes, CUT_OFF + 1);
    }
  }

  /** The bytes of a path: its first instance, an end node, and the rest. */
  lemma EncodeSplit(p: Path)
    requires p != []
    ensures Encode(p) == EncodeNodes(p[0]) + EncodeNode(EndOf(p)) + (if |p| == 1 then [] else Encode(p[1..]))
  {
    RawSplit(p);
    var rest := if |p| == 1 then [] else Raw(p[1..]);
    EncodeNodesAppend(p[0] + [EndOf(p)], rest);
    EncodeNodesAppend(p[0], [EndOf(p)]);
    EncodeOne(EndOf(p));
  }

  /** Behind the end node of an instance that is not the last, the rest of the path stands. */
  lemma RestOfPath(mem: seq<byte>, pos: nat, p: Path)
    requires PathAt(mem, pos, p) && |p| > 1
    ensures PathAt(mem, pos + Size(p[0]) + 4, p[1..])
  {
    EncodeSplit(p);
    var first := EncodeNodes(p[0]) + EncodeNode(EndOf(p));
    assert Encode(p) == first + Encode(p[1..]) && |first| == Size(p[0]) + 4;
    HoldsParts(mem, pos, first, Encode(p[1..]));
  }

  /** From a cursor within the first instance on, what is left of the path stands. */
  lemma InsideIsPath(mem: seq<byte>, pos: nat, p: Path, k: nat, cur: nat)
    requires Inside(mem, pos, p, k, cur)
    ensures PathAt(mem, cur, [p[0][k..]] + p[1..])
  {
    var r: Path := [p[0][k..]] + p[1..];
    RawSplit(p);
    RawSplit(r);
    assert r[1..] == p[1..];
    assert Raw(p)[k..] == Raw(r);
  }

  /** The instance a pointer stands at, its size, and the next instance. */
  method DevicePathInstance(mem: seq<byte>, devicePath: Option<nat>, ghost p: Path)
    returns (start: Option<nat>, next: Option<nat>, size: nat)
    requires devicePath.Some? ==> PathAt(mem, devicePath.value, p)
    ensures start == devicePath
    ensures devicePath.Some? ==> size == Size(Taken(p[0])) && next == Following(devicePath.value, p)
    ensures devicePath.None? ==> next == None
  {
    if devicePath.None? {
      return None, None, 0;
    }
    start := devicePath;
    var devPath, after, count := SkipNodes(mem, devicePath.value, p);
    StepInFirst(mem, start.value, p, count, devPath);
    StopAt(mem, start.value, p, count, devPath);
    next := if mem[devPath + 1] == END_ENTIRE then None else Some(after);
    size := devPath - start.value;
  }

  /** The walk over the nodes of an instance. */
  method SkipNodes(mem: seq<byte>, start: nat, ghost p: Path) returns (devPath: nat, after: nat, count: nat)
    requires PathAt(mem, start, p)
    ensures Inside(mem, start, p, count, devPath) && count <= CUT_OFF + 1 && (count == |p[0]| || count == CUT_OFF + 1)
    ensures devPath + 4 <= |mem| && after == devPath + NodeLength(mem, devPath)
  {
    devPath, count := start, 0;
    InsideStart(mem, start, p);
    while true
      invariant count <= CUT_OFF + 1 && Inside(mem, start, p, count, devPath)
      decreases |p[0]| - count
    {
      StepInFirst(mem, start, p, count, devPath);
      after := devPath + NodeLength(mem, devPath);
      if AtEndType(mem, devPath) {
        break;
      }
      if count > CUT_OFF {
        break;
      }
      devPath := after;
      count := count + 1;
    }
  }

  /** Where the walk stops, the instance ends or is cut off. */
  lemma StopAt(mem: seq<byte>, pos: nat, p: Path, k: nat, cur: nat)
    requires Inside(mem, pos, p, k, cur) && k <= CUT_OFF + 1 && (k == |p[0]| || k == CUT_OFF + 1)
    ensures cur - pos == Size(Taken(p[0]))
    ensures Following(pos, p) == if NodeOf(p, k).subType == END_ENTIRE then None else Some(cur + NodeOf(p, k).Length())
  {
    assert p[0][..k] == Taken(p[0]);
    if k < |p[0]| {
      SizeNext(p[0], k);
    }
  }

  lemma {:induction false} InsideAt(mem: seq<byte>, pos: nat, p: Path, k: nat)
    requires PathAt(mem, pos, p) && k <= |p[0]|
    ensures Inside(mem, pos, p, k, pos + Size(p[0][..k]))
  {
    if k == 0 {
      InsideStart(mem, pos, p);
      assert p[0][..0] == [];
    } else {
      InsideAt(mem, pos, p, k - 1);
      StepInFirst(mem, pos, p, k - 1, pos + Size(p[0][..k - 1]));
    }
  }

  /** The bytes of what was taken stand at the pointer, and what remains at the next one. */
  lemma TakenAndRemaining(mem: seq<byte>, pos: nat, p: Path)
    requires PathAt(mem, pos, p)
    ensures Holds(mem, pos, EncodeNodes(Taken(p[0])))
    ensures Onward(p) ==> PathAt(mem, Following(pos, p).value, Remaining(p))
  {
    InstanceBytes(mem, pos, p);
    if |p[0]| <= CUT_OFF + 1 {
      if |p| > 1 {
        RestOfPath(mem, pos, p);
      }
    } else {
      var first := p[0][..CUT_OFF + 1];
      assert p[0] == first + p[0][CUT_OFF + 1..];
      EncodeNodesAppend(first, p[0][CUT_OFF + 1..]);
      HoldsParts(mem, pos, EncodeNodes(first), EncodeNodes(p[0][CUT_OFF + 1..]));
      InsideAt(mem, pos, p, CUT_OFF + 2);
      InsideIsPath(mem, pos, p, CUT_OFF + 2, pos + Size(p[0][..CUT_OFF + 2]));
    }
  }

  /** A loop over the instances that has dealt with some of them. */
  ghost predicate Ahead(mem: seq<byte>, at: Option<nat>, rest: Path, seen: seq<Instance>, done: nat) {
    && done <= |seen|
    && if at.Some? then PathAt(mem, at.value, rest) && seen[done..] == Seen(rest) else done == |seen|
  }

  lemma AheadStart(mem: seq<byte>, pos: nat, p: Path)
    requires PathAt(mem, pos, p)
    ensures Ahead(mem, Some(pos), p, Seen(p), 0)
  {
    assert Seen(p)[0..] == Seen(p);
  }

  ghost function Next(rest: Path): Path {
    if rest != [] && Onward(rest) then Remaining(rest) else []
  }

  lemma AheadNext(mem: seq<byte>, pos: nat, rest: Path, seen: seq<Instance>, done: nat)
    requires Ahead(mem, Some(pos), rest, seen, done)
    ensures done < |seen| && seen[done] == Taken(rest[0]) && Holds(mem, pos, EncodeNodes(seen[done]))
    ensures Ahead(mem, Following(pos, rest), Next(rest), seen, done + 1)
  {
    TakenAndRemaining(mem, pos, rest);
    assert seen[done..][0] == seen[done] && seen[done..][1..] == seen[done + 1..];
    assert Onward(rest) ==> seen[done + 1..] == Seen(Remaining(rest));
  }

  /** A path starts with the bytes of its first instance and an end node. */
  lemma InstanceBytes(mem: seq<byte>, pos: nat, p: Path)
    requires PathAt(mem, pos, p)
    ensures Holds(mem, pos, EncodeNodes(p[0]))
    ensures Holds(mem, pos, EncodeNodes(p[0]) + EncodeNode(EndOf(p)))
  {
    EncodeSplit(p);
    var first, rest := EncodeNodes(p[0]) + EncodeNode(EndOf(p)), if |p| == 1 then [] else Encode(p[1..]);
    HoldsParts(mem, pos, first, rest);
    HoldsParts(mem, pos, EncodeNodes(p[0]), EncodeNode(EndOf(p)));
  }

  /** A place and a size that are those of an instance. */
  ghost predicate Found(mem: seq<byte>, place: (nat, nat), inst: Instance) {
    place.1 == Size(inst) && Holds(mem, place.0, EncodeNodes(inst))
  }

  ghost predicate AllFound(mem: seq<byte>, places: seq<(nat, nat)>, seen: seq<Instance>, count: nat) {
    |places| == count <= |seen| && forall i :: 0 <= i < count ==> Found(mem, places[i], seen[i])
  }

  lemma OneMoreFound(mem: seq<byte>, places: seq<(nat, nat)>, seen: seq<Instance>, count: nat, place: (nat, nat))
    requires AllFound(mem, places, seen, count) && count < |seen| && Found(mem, place, seen[count])
    ensures AllFound(mem, places + [place], seen, count + 1)
  {}

  /** The count of the instances seen, each found with its bytes. */
  method DevicePathInstanceCount(mem: seq<byte>, devicePath: Option<nat>, ghost p: Path)
    returns (count: nat, ghost places: seq<(nat, nat)>)
    requires devicePath.Some? ==> PathAt(mem, devicePath.value, p)
    ensures count == if devicePath.Some? then |Seen(p)| else 0
    ensures devicePath.Some? ==> AllFound(mem, places, Seen(p), count)
  {
    count, places := 0, [];
    var at := devicePath;
    ghost var rest, seen := p, if devicePath.Some? then Seen(p) else [];
    if devicePath.Some? {
      AheadStart(mem, devicePath.value, p);
    }
    while true
      invariant Ahead(mem, at, rest, seen, count) && AllFound(mem, places, seen, count)
      decreases |seen| - count
    {
      var inst, next, size := DevicePathInstance(mem, at, rest);
      if inst.None? {
        break;
      }
      AheadNext(mem, inst.value, rest, seen, count);
      OneMoreFound(mem, places, seen, count, (inst.value, size));
      places := places + [(inst.value, size)];
      count, at, rest := count + 1, next, Next(rest);
    }
  }

  // ----- sizes

  function SumOfSizes(p: Path): nat {
    if p == [] then 0 else Size(p[0]) + 4 + SumOfSizes(p[1..])
  }

  /** A path takes the bytes of its instances and four for each end node. */
  lemma {:induction false} SizeIsSum(p: Path)
    requires p != []
    ensures |Encode(p)| == SumOfSizes(p)
  {
    EncodeSplit(p);
    if |p| > 1 {
      SizeIsSum(p[1..]);
    } else {
      assert SumOfSizes(p[1..]) == 0;
    }
  }

  /** What a cut leaves of an instance, the node it is cut at, and what it goes on with. */
  lemma CutSize(nodes: Instance)
    requires |nodes| > CUT_OFF + 1
    ensures Size(nodes) == Size(Taken(nodes)) + nodes[CUT_OFF + 1].Length() + Size(nodes[CUT_OFF + 2..])
  {
    SizeNext(nodes, CUT_OFF + 1);
    assert nodes == nodes[..CUT_OFF + 2] + nodes[CUT_OFF + 2..];
    EncodeNodesAppend(nodes[..CUT_OFF + 2], nodes[CUT_OFF + 2..]);
  }

  /** The instances seen take no more room than the path, and a single one less unless it
      is all of it. */
  lemma {:induction false} SeenIsSmaller(p: Path)
    requires p != []
    ensures SumOfSizes(Seen(p)) <= SumOfSizes(p)
    ensures |Seen(p)| == 1 ==> (SumOfSizes(Seen(p)) == SumOfSizes(p) <==> Seen(p) == p)
    decreases |p|, |p[0]|
  {
    var rest := if Onward(p) then Seen(Remaining(p)) else [];
    SizeOfSeen(Taken(p[0]), rest);
    if Onward(p) {
      SeenIsSmaller(Remaining(p));
    }
    if |p[0]| > CUT_OFF + 1 {
      CutSize(p[0]);
      assert Seen(p)[0] != p[0];
    } else if |p| == 1 {
      assert Seen(p) == p;
    }
  }

  lemma SizeOfSeen(first: Instance, rest: Path)
    ensures SumOfSizes([first] + rest) == Size(first) + 4 + SumOfSizes(rest)
  {
    assert ([first] + rest)[1..] == rest;
  }

  /** Only the last node of a path ends it. */
  lemma {:induction false} EndIsLast(p: Path, k: nat)
    requires WellFormed(p) && k < |Raw(p)|
    ensures Raw(p)[k].Length() <= 0xffff
    ensures Raw(p)[k].IsEnd() <==> k == |Raw(p)| - 1
    ensures k == |Raw(p)| - 1 ==> Raw(p)[k] == END_NODE
  {
    RawSplit(p);
    if k > |p[0]| {
      EndIsLast(p[1..], k - |p[0]| - 1);
    }
  }

  /** Steps from node to node up to the one that ends the path. */
  method FindEnd(mem: seq<byte>, start: nat, ghost p: Path) returns (devPath: nat)
    requires PathAt(mem, start, p)
    ensures devPath + 4 == start + |Encode(p)| && Holds(mem, devPath, EncodeNode(END_NODE))
  {
    devPath := start;
    ghost var raw, k := Raw(p), 0;
    assert raw[0..] == raw;
    EndIsLast(p, 0);
    NodeAt(mem, devPath, raw);
    while !AtEnd(mem, devPath)
      invariant k < |raw| && Holds(mem, devPath, EncodeNodes(raw[k..]))
      invariant devPath + |EncodeNodes(raw[k..])| == start + |EncodeNodes(raw)|
      invariant devPath + 4 <= |mem| && AtEnd(mem, devPath) == raw[k].IsEnd()
      invariant NodeLength(mem, devPath) == raw[k].Length()
      decreases |raw| - k
    {
      EndIsLast(p, k);
      EndIsLast(p, k + 1);
      NodeAt(mem, devPath, raw[k..]);
      devPath := devPath + NodeLength(mem, devPath);
      assert raw[k..][1..] == raw[k + 1..];
      k := k + 1;
      NodeAt(mem, devPath, raw[k..]);
    }
    EndIsLast(p, k);
    assert raw[k..] == [END_NODE];
    NodeAt(mem, devPath, raw[k..]);
  }

  method DevicePathSize(mem: seq<byte>, devPath: nat, ghost p: Path) returns (size: nat)
    requires PathAt(mem, devPath, p)
    ensures size == |Encode(p)| == SumOfSizes(p)
  {
    SizeIsSum(p);
    var end := FindEnd(mem, devPath, p);
    size := end - devPath + 4;
  }
}
