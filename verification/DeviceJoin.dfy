/** Building new device paths out of old ones. Allocation always succeeds. */
module DeviceJoin {
  import opened Words
  import opened Options
  import opened DeviceNodes
  import opened DevicePaths
  import opened DeviceMatch

  method CopyMem(dest: array<byte>, d: nat, src: seq<byte>, s: nat, n: nat)
    requires d + n <= dest.Length && s + n <= |src|
    modifies dest
    ensures dest[..] == old(dest[..d]) + src[s..s + n] + old(dest[d + n..])
    ensures dest[..d + n] == old(dest[..d]) + src[s..s + n]
  {
    forall i | 0 <= i < n {
      dest[d + i] := src[s + i];
    }
  }

  method DuplicateDevicePath(mem: seq<byte>, devPath: nat, ghost p: Path) returns (copy: array<byte>)
    requires PathAt(mem, devPath, p)
    ensures fresh(copy) && copy[..] == Encode(p)
  {
    var size := DevicePathSize(mem, devPath, p);
    copy := new byte[size];
    CopyMem(copy, 0, mem, devPath, size);
  }

  // ----- one path behind another

  /** The nodes of a path up to its last one. */
  function Init(p: Path): seq<Node>
    requires p != []
  {
    assert Raw(p) != [] by { RawSplit(p); }
    Raw(p)[..|Raw(p)| - 1]
  }

  lemma InitSplit(p: Path)
    requires p != []
    ensures |Raw(p)| > 0 && Init(p) == if |p| == 1 then p[0] else p[0] + [END_INSTANCE_NODE] + Init(p[1..])
    ensures |p| == 1 ==> Raw(p)[|Raw(p)| - 1] == END_NODE
    ensures |p| > 1 ==> |Raw(p[1..])| > 0 && Raw(p)[|Raw(p)| - 1] == Raw(p[1..])[|Raw(p[1..])| - 1]
  {
    RawSplit(p);
    if |p| > 1 {
      RawSplit(p[1..]);
    }
  }

  lemma {:induction false} RawAppend(p: Path, q: Path)
    requires p != [] && q != []
    ensures |Raw(p)| > 0 && Raw(p)[|Raw(p)| - 1] == END_NODE
    ensures Raw(p + q) == Init(p) + [END_INSTANCE_NODE] + Raw(q)
  {
    InitSplit(p);
    RawSplit(p + q);
    assert (p + q)[0] == p[0];
    if |p| == 1 {
      assert (p + q)[1..] == q;
    } else {
      RawAppend(p[1..], q);
      assert (p + q)[1..] == p[1..] + q;
    }
  }

  /** An encoded path up to its last node. */
  function Body(p: Path): seq<byte>
    requires p != []
  {
    EncodeNodes(Init(p))
  }

  lemma EncodeParts(p: Path, q: Path)
    requires p != [] && q != []
    ensures Encode(p) == Body(p) + EncodeNode(END_NODE)
    ensures Encode(p + q) == Body(p) + EncodeNode(END_INSTANCE_NODE) + Encode(q)
  {
    RawAppend(p, q);
    var init := Init(p);
    assert Raw(p) == init + [END_NODE];
    EncodeNodesAppend(init, [END_NODE]);
    EncodeNodesAppend(init + [END_INSTANCE_NODE], Raw(q));
    EncodeNodesAppend(init, [END_INSTANCE_NODE]);
    EncodeOne(END_NODE);
    EncodeOne(END_INSTANCE_NODE);
  }

  /** Turns the end of a path into the end of an instance, in place. */
  method MarkInstanceEnd(ptr: array<byte>, devPath: nat)
    requires Holds(ptr[..], devPath, EncodeNode(END_NODE))
    modifies ptr
    ensures ptr[..] == old(ptr[..devPath]) + EncodeNode(END_INSTANCE_NODE) + old(ptr[devPath + 4..])
  {
    assert ptr[..][devPath..devPath + 4] == ptr[devPath..devPath + 4];
    ptr[devPath + 1] := END_INSTANCE;
    assert ptr[devPath..devPath + 4] == EncodeNode(END_INSTANCE_NODE);
  }

  /** A copy of a path with room behind it. */
  method CopyWithRoom(mem: seq<byte>, devPath: nat, size: nat, room: nat, ghost p: Path) returns (ptr: array<byte>)
    requires PathAt(mem, devPath, p) && size == |Encode(p)|
    ensures fresh(ptr) && ptr.Length == size + room && ptr[..size] == Encode(p)
  {
    ptr := new byte[size + room];
    CopyMem(ptr, 0, mem, devPath, size);
  }

  /** The result holds the instances of both paths and fills its allocation: the
      first path's end node is turned into an instance's end in place. */
  method AppendDevicePathInstance(mem: seq<byte>, src: Option<nat>, instance: nat, ghost p: Path, ghost q: Path)
    returns (ptr: array<byte>)
    requires src.Some? ==> PathAt(mem, src.value, p)
    requires PathAt(mem, instance, q)
    ensures fresh(ptr) && ptr[..] == Encode(if src.Some? then p + q else q)
  {
    if src.None? {
      ptr := DuplicateDevicePath(mem, instance, q);
      return;
    }
    var srcSize := DevicePathSize(mem, src.value, p);
    var instanceSize := DevicePathSize(mem, instance, q);
    ptr := CopyWithRoom(mem, src.value, srcSize, instanceSize, p);
    var devPath := MarkLastEnd(ptr, srcSize, p);
    CopyBehind(ptr, devPath + 4, mem, instance, instanceSize);
    EncodeParts(p, q);
  }

  /** The end node of a path turned into an instance's end. */
  method MarkLastEnd(ptr: array<byte>, srcSize: nat, ghost p: Path) returns (devPath: nat)
    requires WellFormed(p) && srcSize == |Encode(p)| <= ptr.Length && ptr[..srcSize] == Encode(p)
    modifies ptr
    ensures devPath + 4 == srcSize && ptr[..srcSize] == Body(p) + EncodeNode(END_INSTANCE_NODE)
  {
    EncodeParts(p, p);
    assert ptr[..][0..0 + srcSize] == ptr[..srcSize];
    devPath := FindEnd(ptr[..], 0, p);
    ghost var body := ptr[..devPath];
    assert body == ptr[..srcSize][..devPath] == Body(p);
    MarkInstanceEnd(ptr, devPath);
    assert ptr[..][..srcSize] == body + EncodeNode(END_INSTANCE_NODE);
  }

  /** Bytes copied behind those that fill the start of a buffer. */
  method CopyBehind(ptr: array<byte>, size: nat, mem: seq<byte>, src: nat, n: nat)
    requires ptr.Length == size + n && src + n <= |mem|
    modifies ptr
    ensures ptr[..] == old(ptr[..size]) + mem[src..src + n]
  {
    CopyMem(ptr, size, mem, src, n);
    assert ptr[..] == ptr[..size + n];
  }

  // ----- one path behind every instance of another

  /** What the loop of `AppendDevicePath` writes: each instance, all of the second
      path with its own end node, and an instance's end. */
  function Copies(p: Path, q: Path): seq<byte>
    requires q != []
  {
    if p == [] then []
    else Copies(p[..|p| - 1], q) + EncodeNodes(p[|p| - 1]) + Encode(q) + EncodeNode(END_INSTANCE_NODE)
  }

  /** The last end node is then overwritten. */
  function Joined(p: Path, q: Path): seq<byte>
    requires p != [] && q != []
  {
    Copies(p, q)[..|Copies(p, q)| - 4] + EncodeNode(END_NODE)
  }

  lemma {:induction false} CopiesSize(p: Path, q: Path)
    requires q != []
    ensures |Copies(p, q)| == SumOfSizes(p) + |p| * |Encode(q)|
  {
    if p != [] {
      var n := |p| - 1;
      CopiesSize(p[..n], q);
      assert p == p[..n] + [p[n]];
      SumAppend(p[..n], [p[n]]);
      assert SumOfSizes([p[n]]) == Size(p[n]) + 4 + SumOfSizes([]);
      OneMoreTime(n, |Encode(q)|);
    }
  }

  lemma OneMoreTime(n: nat, b: nat)
    ensures (n + 1) * b == n * b + b
  {}

  lemma {:induction false} SumAppend(p: Path, q: Path)
    ensures SumOfSizes(p + q) == SumOfSizes(p) + SumOfSizes(q)
  {
    if p == [] {
      assert p + q == q;
    } else {
      assert (p + q)[1..] == p[1..] + q;
      SumAppend(p[1..], q);
    }
  }

  lemma {:induction false} CopiesOfPrefix(p: Path, q: Path, k: nat)
    requires q != [] && k <= |p|
    ensures |Copies(p[..k], q)| <= |Copies(p, q)|
    decreases |p| - k
  {
    if k < |p| {
      assert p[..k + 1][..k] == p[..k];
      CopiesOfPrefix(p, q, k + 1);
    } else {
      assert p[..k] == p;
    }
  }

  lemma CopiesNext(p: Path, q: Path, k: nat)
    requires q != [] && k < |p|
    ensures Copies(p[..k + 1], q) == Copies(p[..k], q) + EncodeNodes(p[k]) + Encode(q) + EncodeNode(END_INSTANCE_NODE)
  {
    assert p[..k + 1][..k] == p[..k];
  }

  /** The room made is enough for one instance, and then exact if the code sees all of the
      path. For more instances, each copy of the second path takes the room of a copy of
      the first, and what the cut-off loses of the first is to spare. */
  lemma AllocationSuffices(p: Path, q: Path)
    requires WellFormed(p) && q != []
    ensures var seen, a, b := Seen(p), |Encode(p)|, |Encode(q)|;
      && (|Copies(seen, q)| <= Allocated(p, q) <==> (|seen| - 1) * (b - a) <= a - |Encode(seen)|)
      && (|seen| == 1 || b <= a ==> |Copies(seen, q)| <= Allocated(p, q))
      && (|seen| == 1 ==> (|Copies(seen, q)| == Allocated(p, q) <==> seen == p))
      && (seen == p ==> (|Copies(seen, q)| <= Allocated(p, q) <==> |p| == 1 || b <= a))
  {
    var seen := Seen(p);
    CopiesSize(seen, q);
    SizeIsSum(p);
    SizeIsSum(seen);
    SeenIsSmaller(p);
    EnoughRoom(|Encode(p)|, |Encode(q)|, |seen|, |Encode(seen)|);
  }

  lemma EnoughRoom(a: nat, b: nat, n: nat, c: nat)
    requires n > 0 && c <= a
    ensures c + n * b <= a * n + b <==> (n - 1) * (b - a) <= a - c
    ensures n == 1 || b <= a ==> c + n * b <= a * n + b
    ensures n == 1 ==> (c + n * b == a * n + b <==> c == a)
    ensures c == a ==> (c + n * b <= a * n + b <==> n == 1 || b <= a)
  {
    assert n * b == (n - 1) * b + b && a * n == (n - 1) * a + a;
    assert (n - 1) * (b - a) == (n - 1) * b - (n - 1) * a;
    if b <= a {
      MulMonotone(n - 1, b, a);
    } else if n > 1 {
      MulMonotone(n - 1, a + 1, b);
      assert (n - 1) * (a + 1) == (n - 1) * a + (n - 1);
    }
  }

  lemma MulMonotone(k: nat, x: nat, y: nat)
    requires x <= y
    ensures k * x <= k * y
  {}

  /** The room that is made. */
  function Allocated(p: Path, q: Path): nat
    requires p != [] && q != []
  {
    |Encode(p)| * |Seen(p)| + |Encode(q)|
  }

  /** Writes what it should, provided that what it writes fits what it allocates. */
  method AppendDevicePath(mem: seq<byte>, src1: Option<nat>, src2: Option<nat>, ghost p: Path, ghost q: Path)
    returns (dst: array<byte>)
    requires src1.Some? || src2.Some?
    requires src1.Some? ==> PathAt(mem, src1.value, p)
    requires src2.Some? ==> PathAt(mem, src2.value, q)
    requires src1.Some? && src2.Some? ==> |Copies(Seen(p), q)| <= Allocated(p, q)
    ensures fresh(dst)
    ensures src1.None? ==> dst[..] == Encode(q)
    ensures src2.None? ==> dst[..] == Encode(p)
    ensures src1.Some? && src2.Some? ==> Joined(Seen(p), q) <= dst[..]
    ensures src1.Some? && src2.Some? && Allocated(p, q) == |Copies(Seen(p), q)| ==> dst[..] == Joined(Seen(p), q)
  {
    if src1.None? {
      dst := DuplicateDevicePath(mem, src2.value, q);
      return;
    }
    if src2.None? {
      dst := DuplicateDevicePath(mem, src1.value, p);
      return;
    }
    var src1Size := DevicePathSize(mem, src1.value, p);
    var src1Inst, _ := DevicePathInstanceCount(mem, src1, p);
    var src2Size := DevicePathSize(mem, src2.value, q);
    dst := new byte[src1Size * src1Inst + src2Size];
    var dstPos := CopyInstances(dst, mem, src1, src2.value, src2Size, p, q);
    ChangeLastEnd(dst, dstPos, Seen(p), q);
  }

  /** The last end marker changed. */
  method ChangeLastEnd(dst: array<byte>, dstPos: nat, ghost p: Path, ghost q: Path)
    requires p != [] && q != [] && 4 <= dstPos <= dst.Length && dst[..dstPos] == Copies(p, q)
    modifies dst
    ensures Joined(p, q) <= dst[..] && (dstPos == dst.Length ==> dst[..] == Joined(p, q))
  {
    assert dst[..dstPos - 4] == dst[..dstPos][..dstPos - 4];
    CopyMem(dst, dstPos - 4, EncodeNode(END_NODE), 0, 4);
    assert dst[..dstPos] == Joined(p, q);
  }

  /** One instance, all of the second path behind it, and an instance's end. */
  method CopyInstance(dst: array<byte>, pos: nat, mem: seq<byte>, inst: nat, size: nat, src2: nat, src2Size: nat)
    returns (dstPos: nat)
    requires pos + size + src2Size + 4 <= dst.Length && inst + size <= |mem| && src2 + src2Size <= |mem|
    modifies dst
    ensures dstPos == pos + size + src2Size + 4
    ensures dst[..dstPos] == old(dst[..pos]) + mem[inst..inst + size] + mem[src2..src2 + src2Size] + EncodeNode(END_INSTANCE_NODE)
  {
    CopyMem(dst, pos, mem, inst, size);
    CopyMem(dst, pos + size, mem, src2, src2Size);
    CopyMem(dst, pos + size + src2Size, EncodeNode(END_INSTANCE_NODE), 0, 4);
    dstPos := pos + size + src2Size + 4;
  }

  method CopyNext(dst: array<byte>, pos: nat, mem: seq<byte>, inst: nat, size: nat, src2: nat, src2Size: nat,
                  ghost seen: Path, ghost q: Path, ghost done: nat)
    returns (dstPos: nat)
    requires done < |seen| && Holds(mem, inst, EncodeNodes(seen[done])) && size == Size(seen[done])
    requires PathAt(mem, src2, q) && src2Size == |Encode(q)| && |Copies(seen, q)| <= dst.Length
    requires pos <= dst.Length && dst[..pos] == Copies(seen[..done], q)
    modifies dst
    ensures 4 <= dstPos <= dst.Length && dst[..dstPos] == Copies(seen[..done + 1], q)
  {
    CopiesOfPrefix(seen, q, done + 1);
    CopiesNext(seen, q, done);
    dstPos := CopyInstance(dst, pos, mem, inst, size, src2, src2Size);
  }

  /** The loop over the instances of the first path. */
  method CopyInstances(dst: array<byte>, mem: seq<byte>, src1: Option<nat>, src2: nat, src2Size: nat, ghost p: Path, ghost q: Path)
    returns (dstPos: nat)
    requires src1.Some? && PathAt(mem, src1.value, p)
    requires PathAt(mem, src2, q) && src2Size == |Encode(q)| && |Copies(Seen(p), q)| <= dst.Length
    modifies dst
    ensures 4 <= dstPos <= dst.Length && dst[..dstPos] == Copies(Seen(p), q)
  {
    dstPos := 0;
    var at := src1;
    ghost var rest, seen, done := p, Seen(p), 0;
    AheadStart(mem, src1.value, p);
    while true
      invariant Ahead(mem, at, rest, seen, done)
      invariant dstPos <= dst.Length && (done > 0 ==> 4 <= dstPos) && dst[..dstPos] == Copies(seen[..done], q)
      decreases |seen| - done
    {
      var inst, next, size := DevicePathInstance(mem, at, rest);
      if inst.None? {
        break;
      }
      AheadNext(mem, inst.value, rest, seen, done);
      dstPos := CopyNext(dst, dstPos, mem, inst.value, size, src2, src2Size, seen, q, done);
      at, rest, done := next, Next(rest), done + 1;
    }
    assert seen[..done] == seen;
  }

  /** Encoded nodes and an encoded path behind them are one encoded path. */
  lemma NodesBeforePath(nodes: Instance, q: Path)
    requires q != []
    ensures EncodeNodes(nodes) + Encode(q) == Encode([nodes + q[0]] + q[1..])
  {
    var r: Path := [nodes + q[0]] + q[1..];
    RawSplit(q);
    RawSplit(r);
    assert r[1..] == q[1..];
    assert nodes + Raw(q) == Raw(r);
    EncodeNodesAppend(nodes, Raw(q));
  }

  lemma {:induction false} CopiesStart(p: Path, q: Path)
    requires p != [] && q != []
    ensures Copies(p[..1], q) <= Copies(p, q)
  {
    var n := |p| - 1;
    if n == 0 {
      assert p[..1] == p;
    } else {
      assert p[..n][..1] == p[..1];
      CopiesStart(p[..n], q);
    }
  }

  lemma JoinedStart(p: Path, q: Path)
    requires p != [] && q != []
    ensures EncodeNodes(p[0]) + Encode(q) <= Joined(p, q)
  {
    CopiesStart(p, q);
    CopiesNext(p, q, 0);
    assert Copies(p[..0], q) == [];
    var start := EncodeNodes(p[0]) + Encode(q);
    assert [] + EncodeNodes(p[0]) == EncodeNodes(p[0]);
    assert Copies(p[..1], q) == start + EncodeNode(END_INSTANCE_NODE);
  }

  /** What a reader finds: the first instance with the second path behind it, and
      nothing of the other instances, since the copy of the second path brings its
      own end with it. */
  lemma AppendDecodes(p: Path, q: Path, more: seq<byte>)
    requires WellFormed(p) && WellFormed(q)
    ensures Decode(Joined(p, q) + more) == Some([p[0] + q[0]] + q[1..])
  {
    JoinedStart(p, q);
    NodesBeforePath(p[0], q);
    var r: Path := [p[0] + q[0]] + q[1..];
    var bytes := Joined(p, q) + more;
    assert Encode(r) <= bytes;
    assert bytes == Encode(r) + bytes[|Encode(r)|..];
    DecodeEncode(r, bytes[|Encode(r)|..]);
  }

  /** What the join is meant to be: the second path, all its instances, behind every
      instance of the first. */
  function Each(p: Path, q: Path): Path
    requires q != []
  {
    if p == [] then [] else [p[0] + q[0]] + q[1..] + Each(p[1..], q)
  }

  lemma {:induction false} EachSize(p: Path, q: Path)
    requires q != []
    ensures |Each(p, q)| == |q| ==> |p| == 1
    ensures p != [] ==> |Each(p, q)| >= |q|
  {
    if p != [] {
      EachSize(p[1..], q);
    }
  }

  /** What it is meant to be comes out exactly when the first path has a single instance
      and that is not cut off. */
  lemma AppendsToEachOnlyIfOne(p: Path, q: Path, more: seq<byte>)
    requires WellFormed(p) && WellFormed(q)
    ensures Decode(Joined(Seen(p), q) + more) == Some(Each(p, q)) <==> |p| == 1 && |p[0]| <= 513
  {
    SeenWellFormed(p);
    AppendDecodes(Seen(p), q, more);
    EachSize(p, q);
    if |p| == 1 {
      assert Each(p[1..], q) == [];
      assert [p[0] + q[0]] + q[1..] + [] == [p[0] + q[0]] + q[1..];
      assert |Taken(p[0]) + q[0]| == |p[0] + q[0]| <==> Taken(p[0]) == p[0];
    }
  }

  lemma EncodeAlone(n: Node)
    ensures Encode([[n]]) == EncodeNode(n) + EncodeNode(END_NODE)
  {
    assert Raw([[n]]) == [n] + [END_NODE];
    EncodeFirst(n, [END_NODE]);
    EncodeOne(END_NODE);
  }

  /** A copy of one node with a terminator. */
  method WithTerminator(mem: seq<byte>, src2: nat, ghost n: Node) returns (temp: array<byte>)
    requires n.Plain() && Holds(mem, src2, EncodeNode(n))
    ensures fresh(temp) && temp[..] == Encode([[n]])
  {
    EncodeAlone(n);
    EncodeOne(n);
    NodeAt(mem, src2, [n]);
    var length := NodeLength(mem, src2);
    temp := new byte[length + 4];
    CopyMem(temp, 0, mem, src2, length);
    CopyMem(temp, length, EncodeNode(END_NODE), 0, 4);
  }

  lemma PathInLonger(mem: seq<byte>, pos: nat, p: Path, more: seq<byte>)
    requires PathAt(mem, pos, p)
    ensures PathAt(mem + more, pos, p)
  {
    var end := pos + |Encode(p)|;
    assert (mem + more)[pos..end] == mem[pos..end];
  }

  lemma PathBehind(mem: seq<byte>, p: Path)
    requires WellFormed(p)
    ensures PathAt(mem + Encode(p), |mem|, p)
  {
    assert (mem + Encode(p))[|mem|..] == Encode(p);
  }

  /** What `AppendDevicePathNode` leaves, for a reader. */
  lemma NodeAppended(p: Path, n: Node, dst: seq<byte>)
    requires WellFormed(p) && n.Plain() && Joined(p, [[n]]) <= dst
    ensures Decode(dst) == Some([p[0] + [n]])
  {
    var q: Path := [[n]];
    assert q[0] == [n] && q[1..] == [];
    var more := dst[|Joined(p, q)|..];
    assert dst == Joined(p, q) + more;
    AppendDecodes(p, q, more);
    assert [p[0] + q[0]] + q[1..] == [p[0] + [n]];
  }

  lemma NodeAlone(n: Node)
    requires n.Plain()
    ensures Decode(Encode([[n]])) == Some([[n]])
  {
    DecodeEncode([[n]], []);
    assert Encode([[n]]) + [] == Encode([[n]]);
  }

  /** A single node, given a terminator, behind the first instance of a path. */
  method AppendDevicePathNode(mem: seq<byte>, src1: Option<nat>, src2: nat, ghost p: Path, ghost n: Node)
    returns (dst: array<byte>)
    requires src1.Some? ==> PathAt(mem, src1.value, p)
    requires src1.Some? ==> |Copies(Seen(p), [[n]])| <= Allocated(p, [[n]])
    requires n.Plain() && Holds(mem, src2, EncodeNode(n))
    ensures fresh(dst)
    ensures Decode(dst[..]) == Some([(if src1.Some? then Taken(p[0]) else []) + [n]])
  {
    EncodeAlone(n);
    var temp := WithTerminator(mem, src2, n);
    PathBehind(mem, [[n]]);
    if src1.Some? {
      PathInLonger(mem, src1.value, p, temp[..]);
    }
    dst := AppendDevicePath(mem + temp[..], src1, Some(|mem|), p, [[n]]);
    if src1.Some? {
      SeenWellFormed(p);
      NodeAppended(Seen(p), n, dst[..]);
    } else {
      NodeAlone(n);
      assert [] + [n] == [n];
    }
  }
}
