/** Unpacking a device path: every node starts at an aligned offset. */
module DeviceUnpack {
  import opened Words
  import opened Options
  import opened DeviceNodes
  import opened DevicePaths
  import opened DeviceMatch
  import opened DeviceJoin

  const EFI_DP_TYPE_UNPACKED: byte := 0x80

  /** `MIN_ALIGNMENT_SIZE`, which depends on the machine. */
  type Alignment = m: nat | m == 4 || m == 8 witness 4

  /** `ALIGN_SIZE` */
  function AlignSize(a: nat, m: Alignment): nat {
    if a % m != 0 then m - a % m else 0
  }

  function Zeros(n: nat): seq<byte> {
    seq(n, i => 0)
  }

  /** A node unpacked: marked so, with zeros behind its payload. */
  function Pad(n: Node, m: Alignment): Node {
    Node(n.kind % 0x80 + EFI_DP_TYPE_UNPACKED, n.subType, n.data + Zeros(AlignSize(n.Length(), m)))
  }

  function PadAll(ns: seq<Node>, m: Alignment): seq<Node> {
    if ns == [] then [] else [Pad(ns[0], m)] + PadAll(ns[1..], m)
  }

  function PadPath(p: Path, m: Alignment): Path {
    if p == [] then [] else [PadAll(p[0], m)] + PadPath(p[1..], m)
  }

  lemma {:induction false} PadAllNext(ns: seq<Node>, n: Node, m: Alignment)
    ensures PadAll(ns + [n], m) == PadAll(ns, m) + [Pad(n, m)]
  {
    if ns != [] {
      assert (ns + [n])[1..] == ns[1..] + [n];
      PadAllNext(ns[1..], n, m);
    } else {
      assert [n][1..] == [];
    }
  }

  /** What the first pass counts for a prefix of the nodes is aligned. */
  lemma {:induction false} SizeIsAligned(ns: seq<Node>, m: Alignment)
    ensures |EncodeNodes(PadAll(ns, m))| % m == 0
  {
    if ns != [] {
      SizeIsAligned(ns[1..], m);
      assert PadAll(ns, m)[1..] == PadAll(ns[1..], m);
      PadKeeps(ns[0], m);
      AlignEither(|EncodeNodes(PadAll(ns[1..], m))|, Pad(ns[0], m).Length(), m);
    }
  }

  /** Every node of an unpacked path starts at a multiple of the alignment. */
  lemma OffsetsAreAligned(ns: seq<Node>, k: nat, m: Alignment)
    requires k <= |ns|
    ensures |PadAll(ns, m)| == |ns|
    ensures |EncodeNodes(PadAll(ns, m)[..k])| % m == 0
  {
    PadAllParts(ns, k, m);
    SizeIsAligned(ns[..k], m);
  }

  lemma {:induction false} PadAllParts(ns: seq<Node>, k: nat, m: Alignment)
    requires k <= |ns|
    ensures |PadAll(ns, m)| == |ns| && PadAll(ns, m)[..k] == PadAll(ns[..k], m)
  {
    if ns != [] {
      if k > 0 {
        PadAllParts(ns[1..], k - 1, m);
        assert ns[..k][1..] == ns[1..][..k - 1];
      } else {
        PadAllParts(ns[1..], 0, m);
      }
    }
  }

  lemma OneMoreSize(ns: seq<Node>, n: Node, m: Alignment)
    ensures EncodeNodes(PadAll(ns + [n], m)) == EncodeNodes(PadAll(ns, m)) + EncodeNode(Pad(n, m))
  {
    PadAllNext(ns, n, m);
    EncodeNodesAppend(PadAll(ns, m), [Pad(n, m)]);
    EncodeOne(Pad(n, m));
  }

  lemma AlignFour(total: nat, length: nat)
    requires total % 4 == 0
    ensures (total + length) % 4 == length % 4
  {
    UniqueQuotient(total + length, 4, total / 4 + length / 4, length % 4);
  }

  lemma AlignEight(total: nat, length: nat)
    requires total % 8 == 0
    ensures (total + length) % 8 == length % 8
  {
    UniqueQuotient(total + length, 8, total / 8 + length / 8, length % 8);
  }

  /** Aligning the running total adds what aligning the node alone would. */
  lemma AlignEither(total: nat, length: nat, m: Alignment)
    requires total % m == 0
    ensures AlignSize(total + length, m) == AlignSize(length, m)
    ensures (total + length) % m == length % m
  {
    if m == 4 {
      AlignFour(total, length);
    } else {
      AlignEight(total, length);
    }
  }

  /** A step of the first pass counts what the second will write for the node. */
  lemma OneMoreCounted(raw: seq<Node>, k: nat, m: Alignment)
    requires k < |raw|
    ensures var total := |EncodeNodes(PadAll(raw[..k], m))| + raw[k].Length();
      |EncodeNodes(PadAll(raw[..k + 1], m))| == total + AlignSize(total, m)
  {
    SizeIsAligned(raw[..k], m);
    AlignEither(|EncodeNodes(PadAll(raw[..k], m))|, raw[k].Length(), m);
    OneMoreSize(raw[..k], raw[k], m);
    assert raw[..k + 1] == raw[..k] + [raw[k]];
  }

  /** A cursor k nodes into a path. */
  ghost predicate NodesAhead(mem: seq<byte>, cur: nat, p: Path, k: nat) {
    WellFormed(p) && k < |Raw(p)| && Holds(mem, cur, EncodeNodes(Raw(p)[k..]))
  }

  /** What the cursor shows, and the next one. */
  lemma AtNode(mem: seq<byte>, cur: nat, p: Path, k: nat)
    requires NodesAhead(mem, cur, p, k)
    ensures cur + 4 <= |mem| && Holds(mem, cur, EncodeNode(Raw(p)[k]))
    ensures NodeLength(mem, cur) == Raw(p)[k].Length()
    ensures AtEnd(mem, cur) <==> k == |Raw(p)| - 1
    ensures k < |Raw(p)| - 1 ==> NodesAhead(mem, cur + NodeLength(mem, cur), p, k + 1)
  {
    EndIsLast(p, k);
    NodeAt(mem, cur, Raw(p)[k..]);
    assert Raw(p)[k..][1..] == Raw(p)[k + 1..];
  }

  /** One turn of the first pass. */
  method CountNext(mem: seq<byte>, src: nat, m: Alignment, total: nat, ghost p: Path, ghost k: nat) returns (size: nat)
    requires NodesAhead(mem, src, p, k) && total == |EncodeNodes(PadAll(Raw(p)[..k], m))|
    ensures size == |EncodeNodes(PadAll(Raw(p)[..k + 1], m))|
  {
    AtNode(mem, src, p, k);
    OneMoreCounted(Raw(p), k, m);
    size := total + NodeLength(mem, src);
    size := size + AlignSize(size, m);
  }

  lemma FirstNode(mem: seq<byte>, pos: nat, p: Path)
    requires PathAt(mem, pos, p)
    ensures NodesAhead(mem, pos, p, 0)
  {
    EndIsLast(p, 0);
    assert Raw(p)[0..] == Raw(p);
  }

  /** First pass. */
  method UnpackedSize(mem: seq<byte>, devPath: nat, m: Alignment, ghost p: Path) returns (size: nat)
    requires PathAt(mem, devPath, p)
    ensures size == |EncodeNodes(PadAll(Raw(p), m))|
  {
    var src: nat := devPath;
    size := 0;
    ghost var k := 0;
    FirstNode(mem, src, p);
    while true
      invariant NodesAhead(mem, src, p, k) && size == |EncodeNodes(PadAll(Raw(p)[..k], m))|
      decreases |Raw(p)| - k
    {
      AtNode(mem, src, p, k);
      size := CountNext(mem, src, m, size, p, k);
      if AtEnd(mem, src) {
        break;
      }
      src, k := src + NodeLength(mem, src), k + 1;
    }
    assert Raw(p)[..k + 1] == Raw(p);
  }

  /** `SetDevicePathNodeLength`, and the mark. */
  method MarkUnpacked(newPath: array<byte>, dest: nat, size: nat)
    requires dest + 4 <= newPath.Length
    modifies newPath
    ensures newPath[..] == old(newPath[..dest])
         + [old(newPath[dest]) % 0x80 + EFI_DP_TYPE_UNPACKED, old(newPath[dest + 1]), size % 0x100, size / 0x100 % 0x100]
         + old(newPath[dest + 4..])
  {
    newPath[dest + 2], newPath[dest + 3] := size % 0x100, size / 0x100 % 0x100;
    newPath[dest] := newPath[dest] % 0x80 + EFI_DP_TYPE_UNPACKED;
  }

  method CopyNode(newPath: array<byte>, dest: nat, mem: seq<byte>, src: nat, ghost n: Node) returns (size: nat)
    requires Holds(mem, src, EncodeNode(n)) && n.Length() <= 0xffff && dest + n.Length() <= newPath.Length
    modifies newPath
    ensures size == n.Length() && newPath[..] == old(newPath[..dest]) + EncodeNode(n) + old(newPath[dest + size..])
  {
    HeaderOf(mem, src, n);
    size := NodeLength(mem, src);
    CopyMem(newPath, dest, mem, src, size);
  }

  /** One node of the second pass, into zeroed memory. */
  method UnpackNode(newPath: array<byte>, dest: nat, mem: seq<byte>, src: nat, m: Alignment, ghost n: Node) returns (size: nat)
    requires Holds(mem, src, EncodeNode(n)) && n.Length() <= 0xffff
    requires dest + Pad(n, m).Length() <= newPath.Length && AllZero(newPath[dest..])
    modifies newPath
    ensures size == Pad(n, m).Length()
    ensures newPath[..dest + size] == old(newPath[..dest]) + EncodeNode(Pad(n, m))
    ensures AllZero(newPath[dest + size..])
  {
    ghost var before := newPath[..];
    size := CopyNode(newPath, dest, mem, src, n);
    ghost var copied := newPath[..];
    size := size + AlignSize(size, m);
    MarkUnpacked(newPath, dest, size);
    NewHeader(before, dest, n, m, copied);
    Unpacked(before, dest, n, m, copied, newPath[..]);
  }

  ghost predicate AllZero(s: seq<byte>) {
    forall i :: 0 <= i < |s| ==> s[i] == 0
  }

  lemma HeaderOf(mem: seq<byte>, src: nat, n: Node)
    requires Holds(mem, src, EncodeNode(n)) && n.Length() <= 0xffff
    ensures src + n.Length() <= |mem| && NodeLength(mem, src) == n.Length()
    ensures mem[src..src + n.Length()] == EncodeNode(n)
  {
    EncodeOne(n);
    NodeAt(mem, src, [n]);
  }

  lemma NewHeader(before: seq<byte>, dest: nat, n: Node, m: Alignment, copied: seq<byte>)
    requires dest + n.Length() <= |before| && copied == before[..dest] + EncodeNode(n) + before[dest + n.Length()..]
    ensures EncodeNode(Pad(n, m))[..4] == [copied[dest] % 0x80 + EFI_DP_TYPE_UNPACKED, copied[dest + 1],
                                           Pad(n, m).Length() % 0x100, Pad(n, m).Length() / 0x100 % 0x100]
  {}

  /** A copied node with the zeros behind it and a new header is the padded node. */
  lemma Unpacked(before: seq<byte>, dest: nat, n: Node, m: Alignment, copied: seq<byte>, after: seq<byte>)
    requires dest + Pad(n, m).Length() <= |before| && AllZero(before[dest..])
    requires copied == before[..dest] + EncodeNode(n) + before[dest + n.Length()..]
    requires |after| == |before|
    requires after == copied[..dest] + EncodeNode(Pad(n, m))[..4] + copied[dest + 4..]
    ensures after[..dest + Pad(n, m).Length()] == before[..dest] + EncodeNode(Pad(n, m))
    ensures AllZero(after[dest + Pad(n, m).Length()..])
  {
    var z := AlignSize(n.Length(), m);
    var start, behind, rest := before[..dest], before[dest + n.Length()..], before[dest + n.Length() + z..];
    var header := EncodeNode(Pad(n, m))[..4];
    assert behind[z..] == rest;
    ZerosAhead(before[dest..], n.Length(), behind, z);
    assert EncodeNode(n) == EncodeNode(n)[..4] + n.data;
    CopiedTail(start, EncodeNode(n)[..4], n.data, behind);
    assert EncodeNode(Pad(n, m)) == header + (n.data + Zeros(z));
    FourParts(start, header, n.data, Zeros(z), rest);
  }

  lemma CopiedTail(start: seq<byte>, header: seq<byte>, data: seq<byte>, behind: seq<byte>)
    ensures (start + (header + data) + behind)[..|start|] == start
    ensures (start + (header + data) + behind)[|start| + |header|..] == data + behind
  {}

  lemma ZerosAhead(bytes: seq<byte>, k: nat, behind: seq<byte>, z: nat)
    requires AllZero(bytes) && k + z <= |bytes| && behind == bytes[k..]
    ensures behind == Zeros(z) + behind[z..] && AllZero(behind[z..])
  {}

  lemma FourParts(start: seq<byte>, header: seq<byte>, data: seq<byte>, zeros: seq<byte>, rest: seq<byte>)
    ensures start + header + (data + (zeros + rest)) == start + (header + (data + zeros)) + rest
  {}

  /** The first k nodes were unpacked, and zeros are left for the others. */
  ghost predicate UnpackedSoFar(bytes: seq<byte>, dest: nat, p: Path, k: nat, m: Alignment) {
    && p != [] && k <= |Raw(p)| && |bytes| == |EncodeNodes(PadAll(Raw(p), m))|
    && dest <= |bytes| && bytes[..dest] == EncodeNodes(PadAll(Raw(p)[..k], m)) && AllZero(bytes[dest..])
  }

  /** One turn of the second pass. */
  method UnpackNext(newPath: array<byte>, dest: nat, mem: seq<byte>, src: nat, m: Alignment, ghost p: Path, ghost k: nat)
    returns (size: nat)
    requires NodesAhead(mem, src, p, k) && UnpackedSoFar(newPath[..], dest, p, k, m)
    modifies newPath
    ensures UnpackedSoFar(newPath[..], dest + size, p, k + 1, m)
  {
    AtNode(mem, src, p, k);
    EndIsLast(p, k);
    RoomForNode(Raw(p), k, m);
    assert newPath[dest..] == newPath[..][dest..];
    size := UnpackNode(newPath, dest, mem, src, m, Raw(p)[k]);
    assert newPath[..][..dest + size] == newPath[..dest + size] && newPath[..][dest + size..] == newPath[dest + size..];
  }

  /** The unpacked path fills what the first pass made room for. */
  method UnpackDevicePath(mem: seq<byte>, devPath: nat, m: Alignment, ghost p: Path) returns (newPath: array<byte>)
    requires PathAt(mem, devPath, p)
    ensures fresh(newPath) && newPath[..] == EncodeNodes(PadAll(Raw(p), m))
  {
    var total := UnpackedSize(mem, devPath, m, p);
    newPath := new byte[total](i => 0);
    UnpackNodes(newPath, mem, devPath, m, p);
  }

  /** The second pass. */
  method UnpackNodes(newPath: array<byte>, mem: seq<byte>, devPath: nat, m: Alignment, ghost p: Path)
    requires PathAt(mem, devPath, p) && newPath.Length == |EncodeNodes(PadAll(Raw(p), m))| && AllZero(newPath[..])
    modifies newPath
    ensures newPath[..] == EncodeNodes(PadAll(Raw(p), m))
  {
    ghost var k := 0;
    FirstNode(mem, devPath, p);
    var src: nat, dest: nat := devPath, 0;
    while true
      invariant NodesAhead(mem, src, p, k) && UnpackedSoFar(newPath[..], dest, p, k, m)
      decreases |Raw(p)| - k
    {
      AtNode(mem, src, p, k);
      var size := UnpackNext(newPath, dest, mem, src, m, p, k);
      dest := dest + size;
      if AtEnd(mem, src) {
        break;
      }
      src, k := src + NodeLength(mem, src), k + 1;
    }
    AllUnpacked(newPath[..], dest, p, m);
  }

  lemma AllUnpacked(bytes: seq<byte>, dest: nat, p: Path, m: Alignment)
    requires p != [] && UnpackedSoFar(bytes, dest, p, |Raw(p)|, m)
    ensures bytes == EncodeNodes(PadAll(Raw(p), m))
  {
    assert Raw(p)[..|Raw(p)|] == Raw(p);
  }

  lemma RoomForNode(raw: seq<Node>, k: nat, m: Alignment)
    requires k < |raw|
    ensures EncodeNodes(PadAll(raw[..k + 1], m)) == EncodeNodes(PadAll(raw[..k], m)) + EncodeNode(Pad(raw[k], m))
    ensures |EncodeNodes(PadAll(raw[..k + 1], m))| <= |EncodeNodes(PadAll(raw, m))|
  {
    assert raw[..k + 1] == raw[..k] + [raw[k]];
    OneMoreSize(raw[..k], raw[k], m);
    PadAllParts(raw, k + 1, m);
    var all := PadAll(raw, m);
    assert all == all[..k + 1] + all[k + 1..];
    EncodeNodesAppend(all[..k + 1], all[k + 1..]);
  }

  // ----- reading an unpacked path

  /** The length field of an unpacked node can hold its padded length. */
  predicate Fits(n: Node, m: Alignment) {
    n.Length() <= 0x1_0000 - m
  }

  ghost predicate AllFit(ns: seq<Node>, m: Alignment) {
    forall k :: 0 <= k < |ns| ==> Fits(ns[k], m)
  }

  lemma FitsFirst(n: Node, ns: seq<Node>, m: Alignment)
    requires Fits(n, m)
    ensures AllFit([n] + ns, m) <==> AllFit(ns, m)
  {
    if AllFit([n] + ns, m) {
      forall k | 0 <= k < |ns| ensures Fits(ns[k], m) {
        assert ([n] + ns)[k + 1] == ns[k];
      }
    }
  }

  lemma DecodePadded(n: Node, m: Alignment, more: seq<byte>, current: Instance)
    requires n.Length() <= 0xffff
    ensures Fits(n, m) <==> Pad(n, m).Length() <= 0xffff
    ensures !Fits(n, m) ==> DecodeFrom(EncodeNode(Pad(n, m)) + more, current) == None
  {
    if !Fits(n, m) {
      var bytes := EncodeNode(Pad(n, m)) + more;
      assert Pad(n, m).Length() == 0x1_0000;
      assert bytes[2] == EncodeNode(Pad(n, m))[2] == 0 && bytes[3] == EncodeNode(Pad(n, m))[3] == 0;
    }
  }

  lemma PadFirst(n: Node, ns: seq<Node>, m: Alignment)
    ensures PadAll([n] + ns, m) == [Pad(n, m)] + PadAll(ns, m)
  {
    assert ([n] + ns)[1..] == ns;
  }

  /** One padded node read. */
  lemma DecodeUnpackedNode(n: Node, ns: seq<Node>, m: Alignment, more: seq<byte>, current: Instance)
    requires n.Length() <= 0xffff
    ensures var after := EncodeNodes(PadAll(ns, m)) + more;
      DecodeFrom(EncodeNodes(PadAll([n] + ns, m)) + more, current)
      == if !Fits(n, m) then None
         else if n.IsEnd() then Some([current])
         else if n.IsEndType() then Before(current, Decode(after))
         else DecodeFrom(after, current + [Pad(n, m)])
  {
    var after := EncodeNodes(PadAll(ns, m)) + more;
    PadFirst(n, ns, m);
    EncodeFirst(Pad(n, m), PadAll(ns, m));
    assert EncodeNodes(PadAll([n] + ns, m)) + more == EncodeNode(Pad(n, m)) + after;
    DecodePadded(n, m, after, current);
    PadKeeps(n, m);
    if Fits(n, m) {
      DecodeNode(Pad(n, m), after, current);
      assert !n.IsEndType() ==> Pad(n, m).Plain();
    }
  }

  /** From node k of the first instance on, the result is read as the path, padded. */
  ghost predicate RestDecodes(p: Path, k: nat, m: Alignment, more: seq<byte>)
    requires WellFormed(p) && k <= |p[0]|
  {
    k < |Raw(p)| && DecodeFrom(EncodeNodes(PadAll(Raw(p)[k..], m)) + more, PadAll(p[0][..k], m))
      == if AllFit(Raw(p)[k..], m) then Some(PadPath(p, m)) else None
  }

  lemma NodeDecodes(p: Path, k: nat, m: Alignment, more: seq<byte>)
    requires WellFormed(p) && k < |p[0]| && RestDecodes(p, k + 1, m, more)
    ensures RestDecodes(p, k, m, more)
  {
    RawSplit(p);
    var n, ns := Raw(p)[k], Raw(p)[k + 1..];
    assert Raw(p)[k..] == [n] + ns;
    DecodeUnpackedNode(n, ns, m, more, PadAll(p[0][..k], m));
    if Fits(n, m) {
      FitsFirst(n, ns, m);
      assert p[0][..k + 1] == p[0][..k] + [n];
      PadAllNext(p[0][..k], n, m);
    } else {
      assert ([n] + ns)[0] == n;
    }
  }

  ghost predicate AllDecodes(p: Path, m: Alignment, more: seq<byte>)
    requires p != []
  {
    Decode(EncodeNodes(PadAll(Raw(p), m)) + more) == if AllFit(Raw(p), m) then Some(PadPath(p, m)) else None
  }

  lemma FromStart(p: Path, m: Alignment, more: seq<byte>)
    requires WellFormed(p) && RestDecodes(p, 0, m, more)
    ensures AllDecodes(p, m, more)
  {
    assert Raw(p)[0..] == Raw(p) && p[0][..0] == [];
  }

  lemma InstanceEndReads(inst: Instance, q: Path, m: Alignment, more: seq<byte>)
    requires q != [] && AllDecodes(q, m, more)
    ensures DecodeFrom(EncodeNodes(PadAll([END_INSTANCE_NODE] + Raw(q), m)) + more, inst)
         == if AllFit([END_INSTANCE_NODE] + Raw(q), m) then Some([inst] + PadPath(q, m)) else None
  {
    DecodeUnpackedNode(END_INSTANCE_NODE, Raw(q), m, more, inst);
    FitsFirst(END_INSTANCE_NODE, Raw(q), m);
  }

  lemma InstanceEndDecodes(p: Path, m: Alignment, more: seq<byte>)
    requires WellFormed(p) && |p| > 1 && AllDecodes(p[1..], m, more)
    ensures RestDecodes(p, |p[0]|, m, more)
  {
    RawSplit(p);
    var k := |p[0]|;
    assert Raw(p)[k..] == [END_INSTANCE_NODE] + Raw(p[1..]) && p[0][..k] == p[0];
    InstanceEndReads(PadAll(p[0], m), p[1..], m, more);
  }

  lemma LastEndDecodes(p: Path, m: Alignment, more: seq<byte>)
    requires WellFormed(p) && |p| == 1
    ensures RestDecodes(p, |p[0]|, m, more)
  {
    RawSplit(p);
    var k := |p[0]|;
    assert Raw(p)[k..] == [END_NODE] + [] && p[0][..k] == p[0] && p[1..] == [];
    DecodeUnpackedNode(END_NODE, [], m, more, PadAll(p[0], m));
    FitsFirst(END_NODE, [], m);
    assert PadPath(p, m) == [PadAll(p[0], m)];
  }

  lemma {:induction false} DecodeUnpackedRest(p: Path, k: nat, m: Alignment, more: seq<byte>)
    requires WellFormed(p) && k <= |p[0]|
    ensures RestDecodes(p, k, m, more)
    decreases |p|, |p[0]| - k
  {
    if k < |p[0]| {
      DecodeUnpackedRest(p, k + 1, m, more);
      NodeDecodes(p, k, m, more);
    } else {
      if |p| > 1 {
        DecodeUnpackedRest(p[1..], 0, m, more);
        FromStart(p[1..], m, more);
        InstanceEndDecodes(p, m, more);
      } else {
        LastEndDecodes(p, m, more);
      }
    }
  }

  /** A reader of the result finds the same instances and nodes, padded, if and
      only if no node is so long that its padded length overflows the field. */
  lemma UnpackedDecodes(p: Path, m: Alignment)
    requires WellFormed(p)
    ensures Decode(EncodeNodes(PadAll(Raw(p), m))) == (if AllFit(Raw(p), m) then Some(PadPath(p, m)) else None)
  {
    DecodeUnpackedRest(p, 0, m, []);
    FromStart(p, m, []);
    var bytes := EncodeNodes(PadAll(Raw(p), m));
    assert bytes + [] == bytes;
  }

  /** Padding changes nothing a reader looks at behind the type mask. */
  lemma PadKeeps(n: Node, m: Alignment)
    ensures var u := Pad(n, m);
      && u.kind == 0x80 + n.kind % 0x80 && u.subType == n.subType
      && u.data[..|n.data|] == n.data && (forall i :: |n.data| <= i < |u.data| ==> u.data[i] == 0)
      && u.Length() % m == 0 && u.Length() < n.Length() + m
      && (u.IsEnd() <==> n.IsEnd()) && (u.IsEndType() <==> n.IsEndType())
  {
    assert Pad(n, m).data[..|n.data|] == n.data;
  }
}
