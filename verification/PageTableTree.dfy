/** The four-level translation tree of kernel/memory/page_tables.c as values: physical memory holds
    512-entry pages, `nodes` says which pages are tables of which root and at which level, and the
    flat map from page number to leaf entry is what a walk from the root finds. */
module PageTableTree {
  import opened MachineInts
  import opened Arith

  const PAGE_SIZE := 4096
  const PAGE_COUNT := 0x10_0000_0000   // 36-bit page numbers

  type Page = s: seq<u64> | |s| == 512 witness seq(512, _ => 0)
  type Memory = map<u64, Page>

  /** A table page: the root of the tree it belongs to and its level, 0 for the root itself. */
  datatype Node = Node(root: u64, level: nat)

  function ZeroPage(): Page { seq(512, _ => 0) }

  /** The bit tests and masks of a 64-bit entry: bit 0 valid, bits 12..47 the address. */
  predicate Present(entry: u64) {
    entry % 2 == 1
  }

  function Target(entry: u64): (a: u64)
    ensures a % PAGE_SIZE == 0 && a < TWO_48
  {
    entry / PAGE_SIZE % PAGE_COUNT * PAGE_SIZE
  }

  function TableEntry(table: u64): (e: u64)
    requires table % PAGE_SIZE == 0 && table < TWO_48
    ensures Present(e) && Target(e) == table
  {
    table + 3
  }

  function PageNumber(va: u64): (v: nat)
    ensures v < PAGE_COUNT
  {
    va / PAGE_SIZE % PAGE_COUNT
  }

  /** The nine-bit index a walk for page `v` uses in a table of the given level. */
  function Index(v: nat, level: nat): (i: nat)
    requires level < 4
    ensures i < 512
  {
    match level
    case 0 => v / 512 / 512 / 512 % 512
    case 1 => v / 512 / 512 % 512
    case 2 => v / 512 % 512
    case _ => v % 512
  }

  /** The shifts and nine-bit masks of the source read the same indices off the full address. */
  lemma IndexOfAddress(va: u64)
    ensures Index(PageNumber(va), 0) == va / 0x80_0000_0000 % 512
    ensures Index(PageNumber(va), 1) == va / 0x4000_0000 % 512
    ensures Index(PageNumber(va), 2) == va / 0x20_0000 % 512
    ensures Index(PageNumber(va), 3) == va / 0x1000 % 512
  {
    var x := va / PAGE_SIZE;
    var y := x % PAGE_COUNT;
    ModDiv(x, 512, 0x800_0000);
    ModDiv(x / 512, 512, 0x4_0000);
    ModDiv(x / 512 / 512, 512, 512);
    DivDiv(va, 0x1000, 512);
    DivDiv(va, 0x20_0000, 512);
    DivDiv(va, 0x4000_0000, 512);
  }

  lemma IndicesDetermine(v: nat, w: nat)
    requires v < PAGE_COUNT && w < PAGE_COUNT
    requires forall l: nat | l < 4 :: Index(v, l) == Index(w, l)
    ensures v == w
  {
    assert Index(v, 0) == Index(w, 0) && Index(v, 1) == Index(w, 1) && Index(v, 2) == Index(w, 2)
      && Index(v, 3) == Index(w, 3);
    IndexSum(v);
    IndexSum(w);
  }

  lemma IndexSum(v: nat)
    requires v < PAGE_COUNT
    ensures v == ((Index(v, 0) * 512 + Index(v, 1)) * 512 + Index(v, 2)) * 512 + Index(v, 3)
  {
    DivDiv(v, 512, 512);
    DivDiv(v, 0x4_0000, 512);
    assert v / 0x800_0000 < 512;
    var a := v / 512;
    var b := a / 512;
    assert b == b / 512 * 512 + b % 512;
    assert a == b * 512 + a % 512;
    assert v == a * 512 + v % 512;
  }

  // ---------------------------------------------------------------- walks and the flat map

  /** The table of level `level` that the walk for page `v` reaches. */
  ghost function TableAt(m: Memory, root: u64, v: nat, level: nat): Option<u64>
    requires level < 4
  {
    if level == 0 then Some(root)
    else
      match TableAt(m, root, v, level - 1)
      case None => None
      case Some(t) =>
        if t in m && Present(m[t][Index(v, level - 1)]) then Some(Target(m[t][Index(v, level - 1)])) else None
  }

  ghost function Leaf(m: Memory, root: u64, v: nat): Option<u64> {
    match TableAt(m, root, v, 3)
    case None => None
    case Some(t) => if t in m && Present(m[t][Index(v, 3)]) then Some(m[t][Index(v, 3)]) else None
  }

  /** The specification: page number to leaf entry. */
  ghost function Flat(m: Memory, root: u64): map<nat, u64> {
    map v: nat | 0 <= v < PAGE_COUNT && Leaf(m, root, v).Some? :: Leaf(m, root, v).value
  }

  /** `Flat` is the only map that agrees with every walk. */
  lemma FlatUnique(m: Memory, root: u64, f: map<nat, u64>)
    requires forall v: nat | v in f :: v < PAGE_COUNT
    requires forall v: nat | v < PAGE_COUNT :: Leaf(m, root, v) == if v in f then Some(f[v]) else None
    ensures Flat(m, root) == f
  {
  }

  // ---------------------------------------------------------------- the tree invariant

  ghost predicate GoodNode(m: Memory, nodes: map<u64, Node>, t: u64)
    requires t in nodes
  {
    && t in m && t % PAGE_SIZE == 0 && t < TWO_48
    && nodes[t].level < 4
    && nodes[t].root in nodes && nodes[nodes[t].root] == Node(nodes[t].root, 0)
    && (nodes[t].level == 0 ==> nodes[t].root == t)
  }

  /** Slot `i` of table `t` links a next-level table. */
  ghost predicate Links(m: Memory, nodes: map<u64, Node>, t: u64, i: nat) {
    t in nodes && t in m && nodes[t].level < 3 && i < 512 && Present(m[t][i])
  }

  ghost predicate GoodLink(m: Memory, nodes: map<u64, Node>, t: u64, i: nat)
    requires Links(m, nodes, t, i)
  {

    m[t][i] == TableEntry(Target(m[t][i])) && Target(m[t][i]) in nodes
      && nodes[Target(m[t][i])] == Node(nodes[t].root, nodes[t].level + 1)
  }

  /** Every table is reached through at most one slot. */
  ghost predicate Tree(m: Memory, nodes: map<u64, Node>) {
    && (forall t | t in nodes :: GoodNode(m, nodes, t))
    && (forall t: u64, i: nat | Links(m, nodes, t, i) :: GoodLink(m, nodes, t, i))
    && (forall t: u64, i: nat, u: u64, j: nat | Links(m, nodes, t, i) && Links(m, nodes, u, j)
      && Target(m[t][i]) == Target(m[u][j])
          :: t == u && i == j)
  }

  ghost predicate IsRoot(nodes: map<u64, Node>, r: u64) {
    r in nodes && nodes[r] == Node(r, 0)
  }

  lemma {:induction false} TableAtIsNode(m: Memory, nodes: map<u64, Node>, r: u64, v: nat, level: nat)
    requires Tree(m, nodes) && IsRoot(nodes, r) && level < 4
    ensures TableAt(m, r, v, level).Some? ==>
              TableAt(m, r, v, level).value in nodes && nodes[TableAt(m, r, v, level).value] == Node(r, level)
  {
    if level > 0 && TableAt(m, r, v, level).Some? {
      TableAtIsNode(m, nodes, r, v, level - 1);
      var t := TableAt(m, r, v, level - 1).value;
      assert Links(m, nodes, t, Index(v, level - 1));
    }
  }

  /** Two walks that meet in one table took the same slots. */
  lemma {:induction false} WalksMeet(m: Memory, nodes: map<u64, Node>, r: u64, v: nat, s: u64, w: nat, level: nat)
    requires Tree(m, nodes) && IsRoot(nodes, r) && IsRoot(nodes, s) && level < 4
    requires TableAt(m, r, v, level).Some? && TableAt(m, r, v, level) == TableAt(m, s, w, level)
    ensures r == s && forall l: nat | l < level :: Index(v, l) == Index(w, l)
  {
    TableAtIsNode(m, nodes, r, v, level);
    TableAtIsNode(m, nodes, s, w, level);
    if level > 0 {
      TableAtIsNode(m, nodes, r, v, level - 1);
      TableAtIsNode(m, nodes, s, w, level - 1);
      var t, u := TableAt(m, r, v, level - 1).value, TableAt(m, s, w, level - 1).value;
      assert Links(m, nodes, t, Index(v, level - 1)) && Links(m, nodes, u, Index(w, level - 1));
      WalksMeet(m, nodes, r, v, s, w, level - 1);
    }
  }

  // ---------------------------------------------------------------- linking an empty table

  function LinkEmpty(m: Memory, t: u64, i: nat, p: u64): (m': Memory)
    requires t in m && i < 512 && t != p && p % PAGE_SIZE == 0 && p < TWO_48
  {
    m[p := ZeroPage()][t := m[t][i := TableEntry(p)]]
  }

  /** Linking a fresh zeroed page into an absent slot keeps the tree and changes no translation. */
  lemma LinkEmptyKeepsTree(m: Memory, nodes: map<u64, Node>, t: u64, i: nat, p: u64)
    requires Tree(m, nodes) && t in nodes && nodes[t].level < 3 && i < 512 && !Present(m[t][i])
    requires p !in nodes && p % PAGE_SIZE == 0 && p < TWO_48
    ensures Tree(LinkEmpty(m, t, i, p), nodes[p := Node(nodes[t].root, nodes[t].level + 1)])
  {
    var m' := LinkEmpty(m, t, i, p);
    var nodes' := nodes[p := Node(nodes[t].root, nodes[t].level + 1)];
    forall u: u64, j: nat | Links(m', nodes', u, j)
      ensures GoodLink(m', nodes', u, j)
      ensures (u == t && j == i) || (Links(m, nodes, u, j) && m'[u][j] == m[u][j] && Target(m'[u][j]) in nodes)
    {
      assert u != p;
      if u != t || j != i {
        assert Links(m, nodes, u, j) && GoodLink(m, nodes, u, j);
      }
    }
  }

  lemma {:induction false} LinkEmptyWalk(m: Memory, nodes: map<u64, Node>, t: u64, i: nat, p: u64, r: u64, v: nat,
    level: nat)
    requires Tree(m, nodes) && t in nodes && nodes[t].level < 3 && i < 512 && !Present(m[t][i])
    requires p !in nodes && p % PAGE_SIZE == 0 && p < TWO_48
    requires IsRoot(nodes, r) && level < 4
    ensures || TableAt(LinkEmpty(m, t, i, p), r, v, level) == TableAt(m, r, v, level)
            || (TableAt(m, r, v, level) == None && TableAt(LinkEmpty(m, t, i, p), r, v, level) == Some(p))
  {
    if level > 0 {
      LinkEmptyWalk(m, nodes, t, i, p, r, v, level - 1);
      TableAtIsNode(m, nodes, r, v, level - 1);
      var m' := LinkEmpty(m, t, i, p);
      match TableAt(m, r, v, level - 1)
      case None =>
        assert m'[p] == ZeroPage();
      case Some(u) =>
        assert u in nodes && u != p;
        assert (u != t || Index(v, level - 1) != i) ==> m'[u][Index(v, level - 1)] == m[u][Index(v, level - 1)];
    }
  }

  lemma LinkEmptyKeepsFlat(m: Memory, nodes: map<u64, Node>, t: u64, i: nat, p: u64, r: u64)
    requires Tree(m, nodes) && t in nodes && nodes[t].level < 3 && i < 512 && !Present(m[t][i])
    requires p !in nodes && p % PAGE_SIZE == 0 && p < TWO_48
    requires IsRoot(nodes, r)
    ensures Flat(LinkEmpty(m, t, i, p), r) == Flat(m, r)
  {
    var m' := LinkEmpty(m, t, i, p);
    forall v: nat | v < PAGE_COUNT
      ensures Leaf(m', r, v) == Leaf(m, r, v)
    {
      LinkEmptyWalk(m, nodes, t, i, p, r, v, 3);
      TableAtIsNode(m, nodes, r, v, 3);
    }
  }

  /** One level of the mapper: the walk now reaches the new table, and nothing else changes. */
  lemma LinkEmptyStep(m: Memory, nodes: map<u64, Node>, r: u64, v: nat, level: nat, t: u64, p: u64)
    requires Tree(m, nodes) && IsRoot(nodes, r) && level < 3 && TableAt(m, r, v, level) == Some(t)
    requires t in m && !Present(m[t][Index(v, level)])
    requires p !in nodes && p % PAGE_SIZE == 0 && p < TWO_48
    ensures t != p && t in nodes
    ensures Tree(LinkEmpty(m, t, Index(v, level), p), nodes[p := Node(r, level + 1)])
    ensures TableAt(LinkEmpty(m, t, Index(v, level), p), r, v, level + 1) == Some(p)
    ensures forall s | IsRoot(nodes, s) :: Flat(LinkEmpty(m, t, Index(v, level), p), s) == Flat(m, s)
  {
    TableAtIsNode(m, nodes, r, v, level);
    LinkEmptyKeepsTree(m, nodes, t, Index(v, level), p);
    LinkEmptyWalk(m, nodes, t, Index(v, level), p, r, v, level);
    forall s | IsRoot(nodes, s)
      ensures Flat(LinkEmpty(m, t, Index(v, level), p), s) == Flat(m, s)
    {
      LinkEmptyKeepsFlat(m, nodes, t, Index(v, level), p, s);
    }
  }

  // ---------------------------------------------------------------- a new root

  /** A zeroed page outside every tree can become a root of its own with no translations. */
  lemma NewRootKeepsTree(m: Memory, nodes: map<u64, Node>, p: u64)
    requires Tree(m, nodes) && p !in nodes && p % PAGE_SIZE == 0 && p < TWO_48
    ensures Tree(m[p := ZeroPage()], nodes[p := Node(p, 0)])
    ensures Flat(m[p := ZeroPage()], p) == map[]
  {
    var m', nodes' := m[p := ZeroPage()], nodes[p := Node(p, 0)];
    forall u: u64, j: nat | Links(m', nodes', u, j)
      ensures Links(m, nodes, u, j) && m'[u] == m[u] && GoodLink(m, nodes, u, j)
    {
      assert u != p;
    }
    forall v: nat
      ensures TableAt(m', p, v, 3) == None
    {
      assert TableAt(m', p, v, 0) == Some(p);
      assert TableAt(m', p, v, 1) == None;
      assert TableAt(m', p, v, 2) == None;
    }
  }

  lemma {:induction false} OutsideWalk(m: Memory, nodes: map<u64, Node>, p: u64, page: Page, r: u64, v: nat, level: nat)
    requires Tree(m, nodes) && p !in nodes && IsRoot(nodes, r) && level < 4
    ensures TableAt(m[p := page], r, v, level) == TableAt(m, r, v, level)
  {
    if level > 0 {
      OutsideWalk(m, nodes, p, page, r, v, level - 1);
      TableAtIsNode(m, nodes, r, v, level - 1);
    }
  }

  /** Pages outside the trees do not influence any translation. */
  lemma OutsideKeepsFlat(m: Memory, nodes: map<u64, Node>, p: u64, page: Page, r: u64)
    requires Tree(m, nodes) && p !in nodes && IsRoot(nodes, r)
    ensures Flat(m[p := page], r) == Flat(m, r)
  {
    forall v: nat | v < PAGE_COUNT
      ensures Leaf(m[p := page], r, v) == Leaf(m, r, v)
    {
      OutsideWalk(m, nodes, p, page, r, v, 3);
      TableAtIsNode(m, nodes, r, v, 3);
    }
  }

  // ---------------------------------------------------------------- writing a leaf entry

  function SetLeaf(m: Memory, t: u64, i: nat, e: u64): (m': Memory)
    requires t in m && i < 512
  {
    m[t := m[t][i := e]]
  }

  lemma SetLeafKeepsTree(m: Memory, nodes: map<u64, Node>, t: u64, i: nat, e: u64)
    requires Tree(m, nodes) && t in nodes && nodes[t].level == 3 && i < 512
    ensures Tree(SetLeaf(m, t, i, e), nodes)
  {
    var m' := SetLeaf(m, t, i, e);
    forall u: u64, j: nat | Links(m', nodes, u, j)
      ensures Links(m, nodes, u, j) && m'[u] == m[u]
    {
    }
  }

  lemma {:induction false} SetLeafWalk(m: Memory, nodes: map<u64, Node>, t: u64, i: nat, e: u64, r: u64, v: nat,
    level: nat)
    requires Tree(m, nodes) && t in nodes && nodes[t].level == 3 && i < 512 && IsRoot(nodes, r) && level < 4
    ensures TableAt(SetLeaf(m, t, i, e), r, v, level) == TableAt(m, r, v, level)
  {
    if level > 0 {
      SetLeafWalk(m, nodes, t, i, e, r, v, level - 1);
      TableAtIsNode(m, nodes, r, v, level - 1);
    }
  }

  lemma SetLeafLeaf(m: Memory, nodes: map<u64, Node>, r: u64, v: nat, t: u64, e: u64, s: u64, w: nat)
    requires Tree(m, nodes) && IsRoot(nodes, r) && IsRoot(nodes, s) && v < PAGE_COUNT && w < PAGE_COUNT
    requires TableAt(m, r, v, 3) == Some(t) && t in m
    ensures Leaf(SetLeaf(m, t, Index(v, 3), e), s, w) ==
            if s == r && w == v then (if Present(e) then Some(e) else None) else Leaf(m, s, w)
  {
    TableAtIsNode(m, nodes, r, v, 3);
    SetLeafWalk(m, nodes, t, Index(v, 3), e, s, w, 3);
    if TableAt(m, s, w, 3) == Some(t) {
      WalksMeet(m, nodes, r, v, s, w, 3);
      if Index(w, 3) == Index(v, 3) {
        IndicesDetermine(v, w);
      }
    }
  }

  /** Writing the level-3 slot a walk ends in changes the translation of that page of that root only. */
  lemma SetLeafFlat(m: Memory, nodes: map<u64, Node>, r: u64, v: nat, t: u64, e: u64, s: u64)
    requires Tree(m, nodes) && IsRoot(nodes, r) && IsRoot(nodes, s) && v < PAGE_COUNT
    requires TableAt(m, r, v, 3) == Some(t) && t in m
    ensures Flat(SetLeaf(m, t, Index(v, 3), e), s) ==
            if s != r then Flat(m, s) else if Present(e) then Flat(m, r)[v := e] else Flat(m, r) - {v}
  {
    var f := if s != r then Flat(m, s) else if Present(e) then Flat(m, r)[v := e] else Flat(m, r) - {v};
    forall w: nat | w < PAGE_COUNT
      ensures Leaf(SetLeaf(m, t, Index(v, 3), e), s, w) == if w in f then Some(f[w]) else None
    {
      SetLeafLeaf(m, nodes, r, v, t, e, s, w);
      assert w in Flat(m, s) <==> Leaf(m, s, w).Some?;
    }
    FlatUnique(SetLeaf(m, t, Index(v, 3), e), s, f);
  }
}
