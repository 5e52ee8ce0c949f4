/** How many tables an identity map of a run of pages needs. */
module BootTables {
  import opened PageWalk
  import opened Machine
  import opened Words

  /** Table (d, x) lies above one of the pages a, ..., a + k - 1. */
  predicate Over(d: nat, x: nat, a: nat, k: nat) {
    k > 0 && Above(a, d) <= x <= Above(a + k - 1, d)
  }

  /** The tables there are: those above the first n pages, and above k more from a on. */
  ghost predicate TablesOver(m: Machine, n: nat, a: nat, k: nat) {
    forall d: nat, x: nat :: Position(d, x) && 0 < d ==>
      TableAt(m.mem, m.root, d, x).Some? == (Over(d, x, 0, n) || Over(d, x, a, k))
  }

  /** Tables of depth d above k pages from a on, that are not above the first n pages. */
  ghost function NewTablesAt(d: nat, n: nat, a: nat, k: nat): set<nat> {
    set x: nat | x < Span(d) && Over(d, x, a, k) && !Over(d, x, 0, n)
  }

  ghost function NewTables(n: nat, a: nat, k: nat): nat {
    |NewTablesAt(1, n, a, k)| + |NewTablesAt(2, n, a, k)| + |NewTablesAt(3, n, a, k)|
  }

  lemma AboveNext(page: nat, d: nat)
    requires 0 < d <= 3
    ensures Above(page, d) <= Above(page + 1, d) <= Above(page, d) + 1
  {}

  lemma {:induction false} AboveMonotone(p: nat, q: nat, d: nat)
    requires 0 < d <= 3 && p <= q
    ensures Above(p, d) <= Above(q, d)
  {}

  lemma OverNext(d: nat, x: nat, a: nat, k: nat)
    requires 0 < d <= 3
    ensures Over(d, x, a, k + 1) == (Over(d, x, a, k) || x == Above(a + k, d))
  {
    AboveMonotone(a, a + k, d);
    if k > 0 {
      AboveNext(a + k - 1, d);
      AboveMonotone(a, a + k - 1, d);
    }
  }

  lemma OneMoreAt(m: Machine, d: nat, n: nat, a: nat, k: nat)
    requires TablesOver(m, n, a, k) && 0 < d <= 3 && a + k < TWO_36
    ensures MissingAt(m, d, Above(a + k, d)) == |NewTablesAt(d, n, a, k + 1)| - |NewTablesAt(d, n, a, k)|
  {
    var x := Above(a + k, d);
    assert Position(d, x);
    forall y: nat
      ensures Over(d, y, a, k + 1) == (Over(d, y, a, k) || y == x)
    {
      OverNext(d, y, a, k);
    }
    var added := if TableAt(m.mem, m.root, d, x).None? then {x} else {};
    assert NewTablesAt(d, n, a, k + 1) == NewTablesAt(d, n, a, k) + added;
  }

  /** Mapping the next page creates exactly the tables the count says. */
  lemma MissingNext(m: Machine, n: nat, a: nat, k: nat)
    requires TablesOver(m, n, a, k) && a + k < TWO_36
    ensures Missing(m, a + k) == NewTables(n, a, k + 1) - NewTables(n, a, k)
  {
    OneMoreAt(m, 1, n, a, k);
    OneMoreAt(m, 2, n, a, k);
    OneMoreAt(m, 3, n, a, k);
  }

  /** Mapping the next page moves the run on by one. */
  lemma OneMoreTablesOver(m: Machine, m': Machine, n: nat, a: nat, k: nat)
    requires TablesOver(m, n, a, k) && AddsTablesTo(m, m', a + k)
    ensures TablesOver(m', n, a, k + 1)
  {
    forall d: nat, x: nat | Position(d, x) && 0 < d
      ensures TableAt(m'.mem, m'.root, d, x).Some? == (Over(d, x, 0, n) || Over(d, x, a, k + 1))
    {
      OverNext(d, x, a, k);
    }
  }

  function CeilDiv(n: nat, g: nat): nat
    requires g > 0
  {
    (n + g - 1) / g
  }

  function Below(c: nat): (s: set<nat>)
    ensures |s| == c && forall x: nat :: x in s <==> x < c
  {
    if c == 0 then {} else Below(c - 1) + {c - 1}
  }

  lemma AboveInSpan(page: nat, d: nat)
    requires 0 < d <= 3 && page < TWO_36
    ensures Above(page, d) < Span(d) && Above(0, d) == 0
  {}

  lemma FirstPagesAt(d: nat, n: nat)
    requires 0 < d <= 3 && n <= TWO_36
    ensures |NewTablesAt(d, 0, 0, n)| == if n == 0 then 0 else Above(n - 1, d) + 1
  {
    if n == 0 {
      assert NewTablesAt(d, 0, 0, n) == {};
    } else {
      AboveInSpan(n - 1, d);
      var last := Above(n - 1, d);
      forall x: nat
        ensures x in NewTablesAt(d, 0, 0, n) <==> x < last + 1
      {
        assert Over(d, x, 0, n) <==> x <= last;
      }
      assert NewTablesAt(d, 0, 0, n) == Below(last + 1);
    }
  }

  lemma NestedDivision(k: nat)
    ensures k / 512 / 512 == k / 0x4_0000 && k / 512 / 512 / 512 == k / 0x800_0000
  {}

  lemma CeilOfPositive(n: nat, g: nat)
    requires n > 0 && g > 0
    ensures CeilDiv(n, g) == (n - 1) / g + 1
  {
    var q, r := (n - 1) / g, (n - 1) % g;
    assert n + g - 1 == (q + 1) * g + r;
    UniqueQuotient(n + g - 1, g, q + 1, r);
  }

  /** From an empty map, n pages from 0 on need n/512 page tables, n/512^2 page
      directories and n/512^3 directory pointer tables, all rounded up. */
  lemma TablesOfFirstPages(n: nat)
    requires n <= TWO_36
    ensures NewTables(0, 0, n) == CeilDiv(n, 0x200) + CeilDiv(n, 0x4_0000) + CeilDiv(n, 0x800_0000)
  {
    FirstPagesAt(1, n);
    FirstPagesAt(2, n);
    FirstPagesAt(3, n);
    if n > 0 {
      NestedDivision(n - 1);
      CeilOfPositive(n, 0x200);
      CeilOfPositive(n, 0x4_0000);
      CeilOfPositive(n, 0x800_0000);
    }
  }

  /** A cleared table is a tree by itself, and every walk through it faults. */
  lemma ClearedRoot(mem: Memory, root: nat)
    requires root < |mem| <= TWO_40 && mem[root] == Cleared()
    ensures Tree(mem, root)
    ensures forall d: nat, x: nat :: Position(d, x) && 0 < d ==> TableAt(mem, root, d, x).None?
    ensures forall page :: 0 <= page < TWO_36 ==> Walk(mem, root, page) == Fault
  {
    forall d: nat, x: nat | d <= 4 && x < Span(d) && 0 < d
      ensures TableAt(mem, root, d, x).None?
    {
      NothingBelow(mem, root, d, x);
    }
    forall page | 0 <= page < TWO_36
      ensures Walk(mem, root, page) == Fault
    {
      assert page < Span(4);
    }
  }

  lemma {:induction false} NothingBelow(mem: Memory, root: nat, d: nat, x: nat)
    requires root < |mem| && mem[root] == Cleared() && 0 < d
    ensures TableAt(mem, root, d, x).None?
  {
    if d > 1 {
      NothingBelow(mem, root, d - 1, x / 512);
    }
  }
}
