/** Device path nodes and their encoding (UEFI 2.4, section 9.3): a type byte, a
    subtype byte, the length of the whole node in two bytes, and a payload. */
module DeviceNodes {
  import opened Words

  const END_TYPE: byte := 0x7f
  const END_ENTIRE: byte := 0xff
  const END_INSTANCE: byte := 0x01

  datatype Node = Node(kind: byte, subType: byte, data: seq<byte>) {
    function Length(): nat {
      4 + |data|
    }

    predicate IsEndType() {
      kind % 0x80 == END_TYPE
    }

    /** Marks the end of the whole path. */
    predicate IsEnd() {
      IsEndType() && subType == END_ENTIRE
    }

    /** An ordinary node that fits its length field. */
    predicate Plain() {
      !IsEndType() && Length() <= 0xffff
    }
  }

  type Instance = seq<Node>

  /** A path is one instance or more. */
  type Path = seq<Instance>

  const END_NODE: Node := Node(END_TYPE, END_ENTIRE, [])
  const END_INSTANCE_NODE: Node := Node(END_TYPE, END_INSTANCE, [])

  ghost predicate PlainInstance(nodes: Instance) {
    forall k :: 0 <= k < |nodes| ==> nodes[k].Plain()
  }

  ghost predicate WellFormed(p: Path) {
    p != [] && forall i :: 0 <= i < |p| ==> PlainInstance(p[i])
  }

  /** The nodes of a path in memory order, end nodes included. */
  function Raw(p: Path): seq<Node>
    requires p != []
  {
    if |p| == 1 then p[0] + [END_NODE] else p[0] + [END_INSTANCE_NODE] + Raw(p[1..])
  }

  /** Only the low sixteen bits of a length are stored. */
  function EncodeNode(n: Node): (b: seq<byte>)
    ensures |b| == n.Length()
  {
    [n.kind, n.subType, n.Length() % 0x100, n.Length() / 0x100 % 0x100] + n.data
  }

  function EncodeNodes(ns: seq<Node>): seq<byte> {
    if ns == [] then [] else EncodeNode(ns[0]) + EncodeNodes(ns[1..])
  }

  function Encode(p: Path): seq<byte>
    requires p != []
  {
    EncodeNodes(Raw(p))
  }

  lemma EncodeFirst(n: Node, ns: seq<Node>)
    ensures EncodeNodes([n] + ns) == EncodeNode(n) + EncodeNodes(ns)
  {
    assert ([n] + ns)[1..] == ns;
  }

  lemma EncodeOne(n: Node)
    ensures EncodeNodes([n]) == EncodeNode(n)
  {
    EncodeFirst(n, []);
    assert [n] + [] == [n] && EncodeNode(n) + EncodeNodes([]) == EncodeNode(n);
  }

  lemma {:induction false} EncodeNodesAppend(a: seq<Node>, b: seq<Node>)
    ensures EncodeNodes(a + b) == EncodeNodes(a) + EncodeNodes(b)
  {
    if a == [] {
      assert a + b == b;
    } else {
      assert (a + b)[1..] == a[1..] + b;
      EncodeNodesAppend(a[1..], b);
    }
  }

  // ----- nodes in memory

  ghost predicate Holds(mem: seq<byte>, pos: nat, bytes: seq<byte>) {
    pos + |bytes| <= |mem| && mem[pos..pos + |bytes|] == bytes
  }

  /** `DevicePathNodeLength` */
  function NodeLength(mem: seq<byte>, pos: nat): nat
    requires pos + 4 <= |mem|
  {
    mem[pos + 2] as int + 0x100 * mem[pos + 3] as int
  }

  /** `IsDevicePathEndType` */
  predicate AtEndType(mem: seq<byte>, pos: nat)
    requires pos + 4 <= |mem|
  {
    mem[pos] % 0x80 == END_TYPE
  }

  /** `IsDevicePathEnd` */
  predicate AtEnd(mem: seq<byte>, pos: nat)
    requires pos + 4 <= |mem|
  {
    AtEndType(mem, pos) && mem[pos + 1] == END_ENTIRE
  }

  lemma HoldsByte(mem: seq<byte>, pos: nat, bytes: seq<byte>, i: nat)
    requires Holds(mem, pos, bytes) && i < |bytes|
    ensures mem[pos + i] == bytes[i]
  {
    assert mem[pos..pos + |bytes|][i] == bytes[i];
  }

  lemma HoldsParts(mem: seq<byte>, pos: nat, a: seq<byte>, b: seq<byte>)
    ensures Holds(mem, pos, a + b) <==> Holds(mem, pos, a) && Holds(mem, pos + |a|, b)
  {
    if pos + |a| + |b| <= |mem| {
      var u := mem[pos..pos + |a + b|];
      assert u[..|a|] == mem[pos..pos + |a|] && u[|a|..] == mem[pos + |a|..pos + |a| + |b|];
      assert (a + b)[..|a|] == a && (a + b)[|a|..] == b;
      assert u == u[..|a|] + u[|a|..];
    }
  }

  /** A node is its type, its subtype, its length, low byte first, and its payload ... */
  lemma NodeBytes(n: Node)
    requires n.Length() <= 0xffff
    ensures var b := EncodeNode(n);
      |b| == 4 + |n.data| && b[0] == n.kind && b[1] == n.subType && b[2] as int + 0x100 * b[3] as int == |b| && b[4..] == n.data
  {}

  /** ... and these are the two end nodes. */
  lemma EndBytes()
    ensures EncodeNode(END_NODE) == [0x7f, 0xff, 0x04, 0x00] && EncodeNode(END_INSTANCE_NODE) == [0x7f, 0x01, 0x04, 0x00]
  {}

  /** The header found at the start of some nodes, and where the rest of them are. */
  lemma NodeAt(mem: seq<byte>, pos: nat, ns: seq<Node>)
    requires ns != [] && Holds(mem, pos, EncodeNodes(ns)) && ns[0].Length() <= 0xffff
    ensures pos + 4 <= |mem|
    ensures mem[pos] == ns[0].kind && mem[pos + 1] == ns[0].subType && NodeLength(mem, pos) == ns[0].Length()
    ensures mem[pos + 2] as int + 0x100 * mem[pos + 3] as int == 4 + |ns[0].data|
    ensures Holds(mem, pos + ns[0].Length(), EncodeNodes(ns[1..]))
    ensures Holds(mem, pos, EncodeNode(ns[0]))
  {
    HoldsParts(mem, pos, EncodeNode(ns[0]), EncodeNodes(ns[1..]));
    HeaderAt(mem, pos, ns[0]);
  }

  lemma HeaderAt(mem: seq<byte>, pos: nat, n: Node)
    requires Holds(mem, pos, EncodeNode(n)) && n.Length() <= 0xffff
    ensures pos + 4 <= |mem|
    ensures mem[pos] == n.kind && mem[pos + 1] == n.subType && NodeLength(mem, pos) == n.Length()
  {
    var head := EncodeNode(n);
    HoldsByte(mem, pos, head, 0);
    HoldsByte(mem, pos, head, 1);
    HoldsByte(mem, pos, head, 2);
    HoldsByte(mem, pos, head, 3);
  }
}
