/** Decoding device paths, and matching one against the instances of another. */
module DeviceMatch {
  import opened Words
  import opened Options
  import opened DeviceNodes
  import opened DevicePaths

  // ----- decoding

  /** The path whose encoding a buffer starts with, given the nodes of its first
      instance that were read already. */
  function DecodeFrom(bytes: seq<byte>, current: Instance): Option<Path>
    decreases |bytes|
  {
    if |bytes| < 4 then None
    else
      var length := NodeLength(bytes, 0);
      if length < 4 || length > |bytes| then None
      else if AtEnd(bytes, 0) then Some([current])
      else if AtEndType(bytes, 0) then Before(current, DecodeFrom(bytes[length..], []))
      else DecodeFrom(bytes[length..], current + [Node(bytes[0], bytes[1], bytes[4..length])])
  }

  /** One more instance in front, if the rest was readable. */
  function Before(inst: Instance, rest: Option<Path>): Option<Path> {
    if rest.Some? then Some([inst] + rest.value) else None
  }

  function Decode(bytes: seq<byte>): Option<Path> {
    DecodeFrom(bytes, [])
  }

  /** One node read: an ordinary one, or an end node. */
  lemma DecodeNode(n: Node, more: seq<byte>, current: Instance)
    requires n.Length() <= 0xffff
    ensures n.Plain() ==> DecodeFrom(EncodeNode(n) + more, current) == DecodeFrom(more, current + [n])
    ensures n.IsEnd() ==> DecodeFrom(EncodeNode(n) + more, current) == Some([current])
    ensures n.IsEndType() && !n.IsEnd() ==>
      DecodeFrom(EncodeNode(n) + more, current) == Before(current, Decode(more))
  {
    var bytes := EncodeNode(n) + more;
    EncodeOne(n);
    assert bytes[..n.Length()] == EncodeNode(n);
    NodeAt(bytes, 0, [n]);
    assert bytes[n.Length()..] == more;
    assert bytes[4..n.Length()] == n.data;
  }

  /** One node read off some encoded nodes. */
  lemma DecodeFirst(n: Node, ns: seq<Node>, more: seq<byte>, current: Instance)
    requires n.Plain() || n == END_NODE || n == END_INSTANCE_NODE
    ensures var after := EncodeNodes(ns) + more;
      DecodeFrom(EncodeNodes([n] + ns) + more, current)
      == if n.IsEnd() then Some([current])
         else if n.IsEndType() then Before(current, Decode(after))
         else DecodeFrom(after, current + [n])
  {
    var after := EncodeNodes(ns) + more;
    EncodeFirst(n, ns);
    assert EncodeNodes([n] + ns) + more == EncodeNode(n) + after;
    DecodeNode(n, after, current);
  }

  lemma RawBehind(p: Path)
    requires p != []
    ensures |p| > 1 ==> Raw(p)[|p[0]| + 1..] == Raw(p[1..])
  {
    RawSplit(p);
  }

  /** The end of an instance read. */
  lemma DecodeEnd(p: Path, more: seq<byte>)
    requires WellFormed(p)
    requires |p| > 1 ==> Decode(Encode(p[1..]) + more) == Some(p[1..])
    ensures DecodeFrom(EncodeNodes(Raw(p)[|p[0]|..]) + more, p[0]) == Some(p)
  {
    NodeOfRaw(p, |p[0]|);
    RawBehind(p);
    DecodeFirst(EndOf(p), Raw(p)[|p[0]| + 1..], more, p[0]);
    assert p == [p[0]] + p[1..];
    assert |p| == 1 ==> p == [p[0]];
  }

  lemma {:induction false} DecodeRest(p: Path, k: nat, more: seq<byte>)
    requires WellFormed(p) && k <= |p[0]|
    ensures DecodeFrom(EncodeNodes(Raw(p)[k..]) + more, p[0][..k]) == Some(p)
    decreases |p|, |p[0]| - k
  {
    if k < |p[0]| {
      NodeOfRaw(p, k);
      DecodeFirst(p[0][k], Raw(p)[k + 1..], more, p[0][..k]);
      assert p[0][..k] + [p[0][k]] == p[0][..k + 1];
      DecodeRest(p, k + 1, more);
    } else {
      assert p[0][..k] == p[0];
      if |p| > 1 {
        DecodeEncode(p[1..], more);
      }
      DecodeEnd(p, more);
    }
  }

  /** Decoding undoes encoding, whatever follows in memory. */
  lemma {:induction false} DecodeEncode(p: Path, more: seq<byte>)
    requires WellFormed(p)
    ensures Decode(Encode(p) + more) == Some(p)
    decreases |p|, |p[0]| + 1
  {
    assert Raw(p)[0..] == Raw(p) && p[0][..0] == [];
    DecodeRest(p, 0, more);
  }

  // ----- matching

  /** Bytes and nodes agree on what a prefix is: encoded nodes are a prefix of an
      encoded path's bytes exactly when they are a prefix of its first instance;
      if they are not, a difference shows no later than at the type byte of that
      instance's end node. */
  lemma {:induction false} PrefixOfBytes(inst: Instance, single: Instance, end: Node) returns (i: nat)
    requires PlainInstance(inst) && PlainInstance(single) && end.kind == END_TYPE
    ensures inst <= single ==> EncodeNodes(inst) <= EncodeNodes(single)
    ensures !(inst <= single) ==>
      && i < |EncodeNodes(inst)| && i <= Size(single)
      && EncodeNodes(inst)[i] != (EncodeNodes(single) + EncodeNode(end))[i]
    decreases |inst|
  {
    i := 0;
    if inst != [] {
      assert inst == [inst[0]] + inst[1..];
      if single != [] && inst[0] == single[0] {
        var j := PrefixOfBytes(inst[1..], single[1..], end);
        assert single == [single[0]] + single[1..];
        i := |EncodeNode(inst[0])| + j;
        SameHead(EncodeNode(inst[0]), EncodeNodes(inst[1..]), EncodeNodes(single[1..]), EncodeNode(end), j);
      } else if single != [] {
        i := DifferentNodes(inst[0], single[0]);
        assert EncodeNodes(inst)[i] == EncodeNode(inst[0])[i];
        assert (EncodeNodes(single) + EncodeNode(end))[i] == EncodeNode(single[0])[i];
      }
    }
  }

  lemma SameHead(head: seq<byte>, a: seq<byte>, b: seq<byte>, end: seq<byte>, j: nat)
    ensures a <= b ==> head + a <= head + b
    ensures (j < |a| && j < |b + end| && a[j] != (b + end)[j]) ==>
              (head + a)[|head| + j] != (head + b + end)[|head| + j]
  {
    assert head + b + end == head + (b + end);
  }

  lemma DifferentNodes(a: Node, b: Node) returns (i: nat)
    requires a != b && a.Plain() && b.Plain()
    ensures i < a.Length() && i < b.Length() && EncodeNode(a)[i] != EncodeNode(b)[i]
  {
    if a.kind != b.kind {
      i := 0;
    } else if a.subType != b.subType {
      i := 1;
    } else if a.Length() % 0x100 != b.Length() % 0x100 {
      i := 2;
    } else if a.Length() != b.Length() {
      i := 3;
    } else {
      assert |a.data| == |b.data|;
      var j :| 0 <= j < |a.data| && a.data[j] != b.data[j];
      i := 4 + j;
    }
  }

  predicate Differ(a: seq<byte>, a0: nat, b: seq<byte>, b0: nat, i: nat) {
    a0 + i < |a| && b0 + i < |b| && a[a0 + i] != b[b0 + i]
  }

  /** Compares up to a length, but no further than the first difference; `limit`
      bounds what is read of the first operand. */
  method CompareMem(dest: seq<byte>, d0: nat, src: seq<byte>, s0: nat, len: nat, ghost limit: nat) returns (r: int)
    requires s0 + len <= |src| && d0 + limit <= |dest|
    requires len <= limit || exists i :: 0 <= i < limit && i < len && Differ(dest, d0, src, s0, i)
    ensures r == 0 <==> forall i :: 0 <= i < len ==> !Differ(dest, d0, src, s0, i)
  {
    var i := 0;
    while i < len
      invariant i <= len
      invariant forall j :: 0 <= j < i ==> !Differ(dest, d0, src, s0, j)
    {
      assert i < limit;
      if dest[d0 + i] != src[s0 + i] {
        assert Differ(dest, d0, src, s0, i);
        return dest[d0 + i] as int - src[s0 + i] as int;
      }
      i := i + 1;
    }
    return 0;
  }

  /** TRUE exactly when some instance seen of the one is a prefix, node by node, of the
      first instance of the other. */
  method LibMatchDevicePaths(mem: seq<byte>, multi: Option<nat>, single: Option<nat>, ghost p: Path, ghost q: Path)
    returns (r: bool)
    requires multi.Some? ==> PathAt(mem, multi.value, p)
    requires single.Some? ==> PathAt(mem, single.value, q)
    ensures r == (multi.Some? && single.Some? && exists i :: 0 <= i < |Seen(p)| && Seen(p)[i] <= q[0])
  {
    if multi.None? || single.None? {
      return false;
    }
    var devicePath := multi;
    ghost var rest, seen, done := p, Seen(p), 0;
    AheadStart(mem, multi.value, p);
    while true
      invariant Ahead(mem, devicePath, rest, seen, done)
      invariant forall i :: 0 <= i < done ==> !(seen[i] <= q[0])
      decreases |seen| - done
    {
      var inst, next, size := DevicePathInstance(mem, devicePath, rest);
      if inst.None? {
        return false;
      }
      AheadNext(mem, inst.value, rest, seen, done);
      var same := CompareInstance(mem, single.value, inst.value, size, seen[done], q);
      if same {
        assert Seen(p)[done] <= q[0];
        return true;
      }
      devicePath, rest, done := next, Next(rest), done + 1;
    }
  }

  /** The comparison with an instance never reads past the type byte of the
      end node of Single's first instance. */
  method CompareInstance(mem: seq<byte>, single: nat, inst: nat, size: nat, ghost nodes: Instance, ghost q: Path) returns (same: bool)
    requires Holds(mem, inst, EncodeNodes(nodes)) && size == Size(nodes)
    requires PlainInstance(nodes) && PathAt(mem, single, q)
    ensures same == (nodes <= q[0])
  {
    InstanceBytes(mem, single, q);
    ghost var limit, ours, theirs := Size(q[0]) + 1, EncodeNodes(nodes), EncodeNodes(q[0]) + EncodeNode(EndOf(q));
    ghost var i := PrefixOfBytes(nodes, q[0], EndOf(q));
    forall j: nat | j < size
      ensures mem[inst + j] == ours[j]
    {
      HoldsByte(mem, inst, ours, j);
    }
    forall j: nat | j < limit
      ensures mem[single + j] == theirs[j]
    {
      HoldsByte(mem, single, theirs, j);
    }
    assert !(nodes <= q[0]) ==> Differ(mem, single, mem, inst, i);
    var r := CompareMem(mem, single, mem, inst, size, limit);
    same := r == 0;
  }
}
