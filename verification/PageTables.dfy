/** kernel/memory/page_tables.c and virtual_memory.c over physical memory and the frame allocator:
    the in-place four-level mapper refines a flat map from page number to entry. */
module PageTables {
  import opened MachineInts
  import opened Arith
  import opened PageTableTree
  import PhysicalMemory

  const VM_WRITE: bv32 := 2
  const VM_EXEC: bv32 := 4
  const VM_USER: bv32 := 8
  const VM_GUARD: bv32 := 32

  // ---------------------------------------------------------------- entries

  const PTE_VALID: bv64 := 1
  const PTE_PAGE: bv64 := 2
  const PTE_AF: bv64 := 1 << 10
  const PTE_SH_INNER: bv64 := 3 << 8
  const PTE_AP_RW_ALL: bv64 := 1 << 6
  const PTE_AP_RO_EL1: bv64 := 2 << 6
  const PTE_AP_RO_ALL: bv64 := 3 << 6
  const PTE_PXN: bv64 := 1 << 53
  const PTE_UXN: bv64 := 1 << 54

  function PageAttrs(flags: bv32): bv64 {
    var attrs := PTE_VALID | PTE_PAGE | PTE_AF | PTE_SH_INNER;
    if flags & VM_USER != 0 then
      var ap := if flags & VM_WRITE != 0 then PTE_AP_RW_ALL else PTE_AP_RO_ALL;
      attrs | ap | PTE_PXN | (if flags & VM_EXEC == 0 then PTE_UXN else 0)
    else
      var ap := if flags & VM_WRITE != 0 then 0 else PTE_AP_RO_EL1;
      attrs | ap | (if flags & VM_EXEC == 0 then PTE_UXN | PTE_PXN else PTE_UXN)
  }

  /** The attribute word as a number, by the three flags that matter. */
  function AttrBits(user: bool, write: bool, exec: bool): (n: u64) {
    0x703
    + (if user then 0x40 else 0) + (if write then 0 else 0x80)
    + (if user || !exec then 0x20_0000_0000_0000 else 0)
    + (if user && exec then 0 else 0x40_0000_0000_0000)
  }

  lemma PageAttrsAreBits(flags: bv32)
    ensures PageAttrs(flags) as int == AttrBits(flags & VM_USER != 0, flags & VM_WRITE != 0, flags & VM_EXEC != 0)
  {
    var u, w, x := flags & VM_USER != 0, flags & VM_WRITE != 0, flags & VM_EXEC != 0;
    assert PageAttrs(flags) ==
      if u then (if w then (if x then 0x20_0000_0000_0743 else 0x60_0000_0000_0743)
                 else (if x then 0x20_0000_0000_07C3 else 0x60_0000_0000_07C3))
      else (if w then (if x then 0x40_0000_0000_0703 else 0x60_0000_0000_0703)
            else (if x then 0x40_0000_0000_0783 else 0x60_0000_0000_0783));
  }

  function AttrWord(flags: bv32): (n: u64)
    ensures n < 0x80_0000_0000_0000
  {
    PageAttrsAreBits(flags);
    PageAttrs(flags) as int
  }

  /** `(pa & PTE_ADDR_MASK) | attrs`; the attribute bits lie outside the address field. */
  function LeafEntry(pa: u64, flags: bv32): (e: u64) {
    Target(pa) + AttrWord(flags)
  }

  predicate AllowsUser(entry: u64) {
    entry / 0x40 % 4 == 1 || entry / 0x40 % 4 == 3
  }

  predicate AllowsWrite(entry: u64) {
    entry / 0x40 % 4 == 0 || entry / 0x40 % 4 == 1
  }

  predicate AllowsEl0Execute(entry: u64) {
    AllowsUser(entry) && entry / 0x40_0000_0000_0000 % 2 == 0
  }

  predicate IsPrivilegedOnly(entry: u64) {
    Present(entry) && !AllowsUser(entry)
  }

  /** A leaf entry decodes to the requested frame and exactly the requested permissions. */
  lemma LeafEntryDecodes(pa: u64, flags: bv32)
    ensures var e := LeafEntry(pa, flags);
      && Present(e)
      && Target(e) == Target(pa)
      && (AllowsUser(e) <==> flags & VM_USER != 0)
      && (AllowsWrite(e) <==> flags & VM_WRITE != 0)
      && (AllowsEl0Execute(e) <==> flags & VM_USER != 0 && flags & VM_EXEC != 0)
      && (IsPrivilegedOnly(e) <==> flags & VM_USER == 0)
    ensures pa % PAGE_SIZE == 0 ==> (Target(LeafEntry(pa, flags)) == pa <==> pa < TWO_48)
  {
    PageAttrsAreBits(flags);
    var u, w, x := flags & VM_USER != 0, flags & VM_WRITE != 0, flags & VM_EXEC != 0;
    EntryFields(pa / PAGE_SIZE % PAGE_COUNT, u, w, x);
    if pa % PAGE_SIZE == 0 {
      assert pa == pa / PAGE_SIZE * PAGE_SIZE;
    }
  }

  lemma EntryFields(frame: nat, u: bool, w: bool, x: bool)
    requires frame < PAGE_COUNT
    ensures var e := frame * PAGE_SIZE + AttrBits(u, w, x);
      && 0 <= e < TWO_64
      && e % 2 == 1
      && e / PAGE_SIZE % PAGE_COUNT == frame
      && e / 0x40 % 4 == (if u then 1 else 0) + (if w then 0 else 2)
      && e / 0x40_0000_0000_0000 % 2 == (if u && x then 0 else 1)
  {
    var ap := (if u then 1 else 0) + (if w then 0 else 2);
    var pxn, uxn := if u || !x then 1 else 0, if u && x then 0 else 1;
    assert AttrBits(u, w, x) == 0x703 + 0x40 * ap + pxn * 0x20_0000_0000_0000 + uxn * 0x40_0000_0000_0000;
    EntryFrame(frame, ap, pxn, uxn);
    EntryPermissions(frame, ap, pxn, uxn);
  }

  function EntryOf(frame: nat, ap: nat, pxn: nat, uxn: nat): nat {
    frame * PAGE_SIZE + 0x703 + 0x40 * ap + pxn * 0x20_0000_0000_0000 + uxn * 0x40_0000_0000_0000
  }

  lemma EntryFrame(frame: nat, ap: nat, pxn: nat, uxn: nat)
    requires frame < PAGE_COUNT && ap < 4 && pxn <= 1 && uxn <= 1
    ensures EntryOf(frame, ap, pxn, uxn) / PAGE_SIZE % PAGE_COUNT == frame
    ensures EntryOf(frame, ap, pxn, uxn) / 0x40_0000_0000_0000 % 2 == uxn
  {
    var e, low := EntryOf(frame, ap, pxn, uxn), 0x703 + 0x40 * ap;
    DivUnique(e, PAGE_SIZE, frame + pxn * 0x200_0000_0000 + uxn * 0x400_0000_0000, low);
    DivUnique(e / PAGE_SIZE, PAGE_COUNT, pxn * 32 + uxn * 64, frame);
    DivUnique(e, 0x40_0000_0000_0000, uxn, frame * PAGE_SIZE + low + pxn * 0x20_0000_0000_0000);
  }

  lemma EntryPermissions(frame: nat, ap: nat, pxn: nat, uxn: nat)
    requires frame < PAGE_COUNT && ap < 4 && pxn <= 1 && uxn <= 1
    ensures EntryOf(frame, ap, pxn, uxn) / 0x40 % 4 == ap && EntryOf(frame, ap, pxn, uxn) % 2 == 1
  {
    var e := EntryOf(frame, ap, pxn, uxn);
    DivUnique(e, 0x40, frame * 64 + 28 + ap + pxn * 0x8000_0000_0000 + uxn * 0x1_0000_0000_0000, 3);
    DivUnique(e / 0x40, 4, frame * 16 + 7 + pxn * 0x2000_0000_0000 + uxn * 0x4000_0000_0000, ap);
  }

  // ---------------------------------------------------------------- ranges of pages

  function PageCountOf(size: u64): nat {
    (size + PAGE_SIZE - 1) / PAGE_SIZE
  }

  lemma PageCountBounds(size: u64, k: nat)
    ensures k * PAGE_SIZE < size <==> k < PageCountOf(size)
  {
  }

  lemma PagesCovered(size: u64, k: nat)
    requires k * PAGE_SIZE >= size && (k > 0 ==> (k - 1) * PAGE_SIZE < size)
    ensures k == PageCountOf(size)
  {
    PageCountBounds(size, k);
    if k > 0 {
      PageCountBounds(size, k - 1);
    }
  }

  /** The page `k` steps after the one holding `va`, with the 36-bit wrap of the index fields. */
  function NthPage(va: u64, k: nat): (v: nat)
    ensures v < PAGE_COUNT
  {
    (va / PAGE_SIZE + k) % PAGE_COUNT
  }

  lemma NthPageIsWalked(va: u64, k: nat)
    ensures PageNumber((va + k * PAGE_SIZE) % TWO_64) == NthPage(va, k)
  {
    var x := va + k * PAGE_SIZE;
    ModDiv(x, PAGE_SIZE, 0x10_0000_0000_0000);
    DivUnique(x, PAGE_SIZE, va / PAGE_SIZE + k, va % PAGE_SIZE);
    ModDiv(x / PAGE_SIZE, PAGE_COUNT, 0x1_0000);
  }

  lemma NthPageDistinct(va: u64, j: nat, k: nat)
    requires j < k < j + PAGE_COUNT
    ensures NthPage(va, j) != NthPage(va, k)
  {
    var x, y := va / PAGE_SIZE + j, va / PAGE_SIZE + k;
    assert y - x == PAGE_COUNT * (y / PAGE_COUNT - x / PAGE_COUNT) + (y % PAGE_COUNT - x % PAGE_COUNT);
  }

  ghost function PagesOf(va: u64, n: nat): set<nat> {
    set k: nat | 0 <= k < n :: NthPage(va, k)
  }

  function UnmapPages(f: map<nat, u64>, va: u64, n: nat): map<nat, u64> {
    if n == 0 then f else UnmapPages(f, va, n - 1) - {NthPage(va, n - 1)}
  }

  lemma {:induction false} UnmapPagesRemoves(f: map<nat, u64>, va: u64, n: nat)
    ensures UnmapPages(f, va, n) == f - PagesOf(va, n)
  {
    if n > 0 {
      UnmapPagesRemoves(f, va, n - 1);
      assert PagesOf(va, n) == PagesOf(va, n - 1) + {NthPage(va, n - 1)};
    }
  }

  /** The flat map after mapping `n` consecutive pages. */
  function MapPages(f: map<nat, u64>, va: u64, pa: u64, n: nat, flags: bv32): map<nat, u64> {
    if n == 0 then f
    else MapPages(f, va, pa, n - 1, flags)
           [NthPage(va, n - 1) := LeafEntry((pa + (n - 1) * PAGE_SIZE) % TWO_64, flags)]
  }

  /** Every page of the range gets its own frame and every other page keeps its entry. */
  lemma {:induction false} MapPagesAt(f: map<nat, u64>, va: u64, pa: u64, n: nat, flags: bv32, v: nat)
    requires n <= PAGE_COUNT
    ensures var g := MapPages(f, va, pa, n, flags);
      && (forall k: nat | k < n && v == NthPage(va, k) ::
            v in g && g[v] == LeafEntry((pa + k * PAGE_SIZE) % TWO_64, flags))
      && (v !in PagesOf(va, n) ==> (v in g <==> v in f) && (v in f ==> g[v] == f[v]))
  {
    if n > 0 {
      MapPagesAt(f, va, pa, n - 1, flags, v);
      assert NthPage(va, n - 1) in PagesOf(va, n);
      assert v in PagesOf(va, n - 1) ==> v in PagesOf(va, n);
      forall k: nat | k < n - 1
        ensures NthPage(va, k) != NthPage(va, n - 1)
      {
        NthPageDistinct(va, k, n - 1);
      }
    }
  }

  /** Rounding a table entry down to a page gives the linked table, without the 48-bit mask. */
  lemma LinkRounds(m: Memory, nodes: map<u64, Node>, t: u64, i: nat)
    requires Tree(m, nodes) && Links(m, nodes, t, i)
    ensures m[t][i] / PAGE_SIZE * PAGE_SIZE == Target(m[t][i])
  {
    assert GoodLink(m, nodes, t, i);
  }

  // ---------------------------------------------------------------- the mapper

  class Mmu {
    const frames: PhysicalMemory.FrameAllocator
    var mem: Memory
    ghost var nodes: map<u64, Node>

    /** Tables form trees, and the allocator never holds a table page as free. */
    ghost predicate Valid()
      reads this, frames, frames.bitmap
    {
      && frames.Valid()
      && Tree(mem, nodes)
      && 0 !in nodes
      && (forall i | i in frames.Free() :: frames.Frame(i) in mem && frames.Frame(i) !in nodes)
    }

    /** page_table_init: the kernel's root table is cleared and is the only tree. */
    constructor (frames: PhysicalMemory.FrameAllocator, ram: Memory, root: u64)
      requires frames.Valid()
      requires root in ram && root != 0 && root % PAGE_SIZE == 0 && root < TWO_48
      requires forall i | i in frames.Free() :: frames.Frame(i) in ram && frames.Frame(i) != root
      ensures Valid() && this.frames == frames && IsRoot(nodes, root)
      ensures Flat(mem, root) == map[]
    {
      this.frames := frames;
      mem := ram[root := ZeroPage()];
      nodes := map[root := Node(root, 0)];
      new;
      NewRootKeepsTree(ram, map[], root);
    }

    ghost predicate SameTranslations(before: Memory, roots: map<u64, Node>)
      reads this
    {
      forall s | IsRoot(roots, s) :: Flat(mem, s) == Flat(before, s)
    }

    method ClearPage(pa: u64)
      requires pa in mem
      modifies this`mem
      ensures mem == old(mem)[pa := ZeroPage()]
    {
      for i := 0 to 512
        invariant pa in mem && mem == old(mem)[pa := mem[pa]]
        invariant forall j: nat | j < i :: mem[pa][j] == 0
      {
        mem := mem[pa := mem[pa][i := 0]];
      }
      assert mem[pa] == ZeroPage();
    }

    /** A zeroed page that was free, hence no table of any tree; 0 when there is none. */
    method AllocPageTable() returns (pa: u64)
      requires Valid()
      modifies this`mem, frames`freePages, frames.bitmap
      ensures frames.Valid() && frames.Free() <= old(frames.Free())
      ensures pa == 0 ==> mem == old(mem)
      ensures pa == 0 ==> frames.Free() == {} || frames.physBase == 0
      ensures pa != 0 ==> pa % PAGE_SIZE == 0 && pa < TWO_48 && pa !in nodes
      ensures pa != 0 ==> mem == old(mem)[pa := ZeroPage()]
      ensures pa != 0 ==> forall i | i in frames.Free() :: frames.Frame(i) != pa
    {
      ghost var page;
      pa, page := frames.AllocPage();
      if pa == 0 { return; }
      ClearPage(pa);
    }

    /** One step down: the next-level table for page `v`, created when the slot is absent. */
    method NextTable(ghost r: u64, ghost v: nat, ghost level: nat, t: u64, idx: nat) returns (ok: bool, next: u64)
      requires Valid() && IsRoot(nodes, r) && level < 3 && idx == Index(v, level)
      requires TableAt(mem, r, v, level) == Some(t)
      modifies this, frames`freePages, frames.bitmap
      ensures Valid() && SameTranslations(old(mem), old(nodes))
      ensures forall s | IsRoot(old(nodes), s) :: IsRoot(nodes, s)
      ensures ok ==> TableAt(mem, r, v, level + 1) == Some(next)
      ensures !ok ==> frames.Free() == {} || frames.physBase == 0
    {
      TableAtIsNode(mem, nodes, r, v, level);
      if Present(mem[t][idx]) {
        return true, Target(mem[t][idx]);
      }
      ok, next := LinkTable(r, v, level, t, idx);
    }

    /** Puts a fresh table into an empty slot. */
    method LinkTable(ghost r: u64, ghost v: nat, ghost level: nat, t: u64, idx: nat) returns (ok: bool, p: u64)
      requires Valid() && IsRoot(nodes, r) && level < 3 && idx == Index(v, level)
      requires TableAt(mem, r, v, level) == Some(t) && t in nodes && !Present(mem[t][idx])
      modifies this, frames`freePages, frames.bitmap
      ensures Valid() && SameTranslations(old(mem), old(nodes))
      ensures forall s | IsRoot(old(nodes), s) :: IsRoot(nodes, s)
      ensures ok ==> TableAt(mem, r, v, level + 1) == Some(p)
      ensures !ok ==> frames.Free() == {} || frames.physBase == 0
    {
      p := AllocPageTable();
      if p == 0 { return false, 0; }
      mem := mem[t := mem[t][idx := TableEntry(p)]];
      assert mem == LinkEmpty(old(mem), t, idx, p);
      LinkEmptyStep(old(mem), nodes, r, v, level, t, p);
      nodes := nodes[p := Node(r, level + 1)];
      ok := true;
    }
  
    /** A further address space: a fresh page becomes a root that translates nothing. */
    method NewRoot() returns (root: u64)
      requires Valid()
      modifies this, frames`freePages, frames.bitmap
      ensures Valid() && SameTranslations(old(mem), old(nodes))
      ensures forall s | IsRoot(old(nodes), s) :: IsRoot(nodes, s)
      ensures root != 0 ==> root !in old(nodes) && IsRoot(nodes, root) && Flat(mem, root) == map[]
      ensures root == 0 ==> nodes == old(nodes)
    {
      root := AllocPageTable();
      if root != 0 {
        NewRootKeepsTree(old(mem), nodes, root);
        forall s | IsRoot(old(nodes), s)
          ensures Flat(mem, s) == Flat(old(mem), s)
        {
          OutsideKeepsFlat(old(mem), nodes, root, ZeroPage(), s);
        }
        nodes := nodes[root := Node(root, 0)];
      }
    }

    /** The level-3 table for `va`, with any missing table on the way linked in. */
    method Descend(l0: u64, va: u64) returns (ok: bool, l3: u64)
      requires Valid() && IsRoot(nodes, l0)
      modifies this, frames`freePages, frames.bitmap
      ensures Valid() && SameTranslations(old(mem), old(nodes))
      ensures forall s | IsRoot(old(nodes), s) :: IsRoot(nodes, s)
      ensures ok ==> TableAt(mem, l0, PageNumber(va), 3) == Some(l3)
      ensures !ok ==> frames.Free() == {} || frames.physBase == 0
    {
      ghost var v := PageNumber(va);
      IndexOfAddress(va);
      var l1, l2;
      ok, l1 := NextTable(l0, v, 0, l0, va / 0x80_0000_0000 % 512);
      if !ok { return false, 0; }
      ok, l2 := NextTable(l0, v, 1, l1, va / 0x4000_0000 % 512);
      if !ok { return false, 0; }
      ok, l3 := NextTable(l0, v, 2, l2, va / 0x20_0000 % 512);
    }

    method WriteLeaf(ghost r: u64, va: u64, l3: u64, entry: u64)
      requires Valid() && IsRoot(nodes, r) && TableAt(mem, r, PageNumber(va), 3) == Some(l3)
      modifies this`mem
      ensures Valid()
      ensures Flat(mem, r) == if Present(entry) then old(Flat(mem, r))[PageNumber(va) := entry]
                              else old(Flat(mem, r)) - {PageNumber(va)}
      ensures forall s | IsRoot(nodes, s) && s != r :: Flat(mem, s) == Flat(old(mem), s)
    {
      ghost var v := PageNumber(va);
      IndexOfAddress(va);
      TableAtIsNode(mem, nodes, r, v, 3);
      mem := mem[l3 := mem[l3][va / 0x1000 % 512 := entry]];
      assert mem == SetLeaf(old(mem), l3, Index(v, 3), entry);
      SetLeafKeepsTree(old(mem), nodes, l3, Index(v, 3), entry);
      forall s | IsRoot(nodes, s)
        ensures Flat(mem, s) == if s != r then Flat(old(mem), s)
                                else if Present(entry) then Flat(old(mem), r)[v := entry] else Flat(old(mem), r) - {v}
      {
        SetLeafFlat(old(mem), nodes, r, v, l3, entry, s);
      }
    }

    /** On success exactly one page of exactly one address space changes; otherwise nothing does. */
    method Map(l0: u64, va: u64, pa: u64, flags: bv32) returns (rc: Status)
      requires Valid() && (l0 != 0 ==> IsRoot(nodes, l0))
      modifies this, frames`freePages, frames.bitmap
      ensures Valid() && forall s | IsRoot(old(nodes), s) :: IsRoot(nodes, s)
      ensures rc == EInval <==> l0 == 0 || va % PAGE_SIZE != 0 || pa % PAGE_SIZE != 0 || flags & VM_GUARD != 0
      ensures rc == Ok ==> Flat(mem, l0) == Flat(old(mem), l0)[PageNumber(va) := LeafEntry(pa, flags)]
      ensures rc == Ok ==> forall s | IsRoot(old(nodes), s) && s != l0 :: Flat(mem, s) == Flat(old(mem), s)
      ensures rc != Ok ==> SameTranslations(old(mem), old(nodes))
      ensures rc == Ok || rc == EInval || (rc == ENoMem && (frames.Free() == {} || frames.physBase == 0))
    {
      if l0 == 0 { return EInval; }
      if va % PAGE_SIZE != 0 || pa % PAGE_SIZE != 0 { return EInval; }
      if flags & VM_GUARD != 0 { return EInval; }
      var ok, l3 := Descend(l0, va);
      if !ok { return ENoMem; }
      LeafEntryDecodes(pa, flags);
      WriteLeaf(l0, va, l3, LeafEntry(pa, flags));
      return Ok;
    }

    /** The walk agrees with the flat map on every address. */
    method Query(l0: u64, va: u64) returns (rc: Status, pa: u64, entry: u64)
      requires Valid() && (l0 != 0 ==> IsRoot(nodes, l0))
      ensures rc == EInval <==> l0 == 0
      ensures l0 != 0 ==> (rc == Ok <==> PageNumber(va) in Flat(mem, l0))
      ensures l0 != 0 && rc != Ok ==> rc == ENoEnt
      ensures rc == Ok ==> entry == Flat(mem, l0)[PageNumber(va)]
      ensures rc == Ok ==> pa == Target(entry) + va % PAGE_SIZE
    {
      if l0 == 0 { return EInval, 0, 0; }
      ghost var v := PageNumber(va);
      IndexOfAddress(va);
      assert TableAt(mem, l0, v, 0) == Some(l0);
      TableAtIsNode(mem, nodes, l0, v, 1);
      TableAtIsNode(mem, nodes, l0, v, 2);
      TableAtIsNode(mem, nodes, l0, v, 3);
      var i := va / 0x80_0000_0000 % 512;
      if !Present(mem[l0][i]) { return ENoEnt, 0, 0; }
      var l1 := Target(mem[l0][i]);
      i := va / 0x4000_0000 % 512;
      if !Present(mem[l1][i]) { return ENoEnt, 0, 0; }
      var l2 := Target(mem[l1][i]);
      i := va / 0x20_0000 % 512;
      if !Present(mem[l2][i]) { return ENoEnt, 0, 0; }
      var l3 := Target(mem[l2][i]);
      entry := mem[l3][va / 0x1000 % 512];
      if !Present(entry) { return ENoEnt, 0, 0; }
      return Ok, Target(entry) + va % PAGE_SIZE, entry;
    }
  
    ghost predicate OthersSame(before: Memory, roots: map<u64, Node>, root: u64)
      reads this
    {
      forall s | IsRoot(roots, s) :: IsRoot(nodes, s) && (s != root ==> Flat(mem, s) == Flat(before, s))
    }

    method MapNth(root: u64, va: u64, pa: u64, offset: u64, flags: bv32, ghost f: map<nat, u64>, ghost k: nat)
      returns (rc: Status)
      requires Valid() && IsRoot(nodes, root) && offset == k * PAGE_SIZE
      requires Flat(mem, root) == MapPages(f, va, pa, k, flags)
      modifies this, frames`freePages, frames.bitmap
      ensures Valid() && OthersSame(old(mem), old(nodes), root)
      ensures Flat(mem, root) == MapPages(f, va, pa, if rc == Ok then k + 1 else k, flags)
    {
      NthPageIsWalked(va, k);
      rc := Map(root, (va + offset) % TWO_64, (pa + offset) % TWO_64, flags);
    }

    /** Maps pages in order and stops at the first failure, leaving the earlier ones mapped. */
    method VirtMap(root: u64, va: u64, pa: u64, size: u64, flags: bv32) returns (rc: Status, ghost done: nat)
      requires Valid() && IsRoot(nodes, root) && size + PAGE_SIZE <= TWO_64
      modifies this, frames`freePages, frames.bitmap
      ensures Valid() && OthersSame(old(mem), old(nodes), root)
      ensures Flat(mem, root) == MapPages(old(Flat(mem, root)), va, pa, done, flags)
      ensures if rc == Ok then done == PageCountOf(size) else done < PageCountOf(size)
    {
      var offset := 0;
      done := 0;
      while offset < size
        invariant Valid() && OthersSame(old(mem), old(nodes), root)
        invariant offset == done * PAGE_SIZE && done <= PageCountOf(size)
        invariant Flat(mem, root) == MapPages(old(Flat(mem, root)), va, pa, done, flags)
      {
        PageCountBounds(size, done);
        rc := MapNth(root, va, pa, offset, flags, old(Flat(mem, root)), done);
        if rc != Ok { return; }
        offset, done := offset + PAGE_SIZE, done + 1;
      }
      PageCountBounds(size, done);
      rc := Ok;
    }

    /** The body of the unmap loop: clears the leaf slot when every table on the way exists. */
    method ClearLeaf(root: u64, cur: u64)
      requires Valid() && IsRoot(nodes, root)
      modifies this`mem
      ensures Valid() && Flat(mem, root) == old(Flat(mem, root)) - {PageNumber(cur)}
      ensures OthersSame(old(mem), nodes, root)
    {
      ghost var v := PageNumber(cur);
      IndexOfAddress(cur);
      assert TableAt(mem, root, v, 0) == Some(root);
      TableAtIsNode(mem, nodes, root, v, 1);
      TableAtIsNode(mem, nodes, root, v, 2);
      TableAtIsNode(mem, nodes, root, v, 3);
      assert TableAt(mem, root, v, 3) == None ==> v !in Flat(mem, root);
      var i := cur / 0x80_0000_0000 % 512;
      if !Present(mem[root][i]) { return; }
      LinkRounds(mem, nodes, root, i);
      var l1 := mem[root][i] / PAGE_SIZE * PAGE_SIZE;
      i := cur / 0x4000_0000 % 512;
      if !Present(mem[l1][i]) { return; }
      LinkRounds(mem, nodes, l1, i);
      var l2 := mem[l1][i] / PAGE_SIZE * PAGE_SIZE;
      i := cur / 0x20_0000 % 512;
      if !Present(mem[l2][i]) { return; }
      LinkRounds(mem, nodes, l2, i);
      var l3 := mem[l2][i] / PAGE_SIZE * PAGE_SIZE;
      WriteLeaf(root, cur, l3, 0);
    }

    method UnmapNth(root: u64, va: u64, offset: u64, ghost k: nat)
      requires Valid() && IsRoot(nodes, root) && offset == k * PAGE_SIZE
      modifies this`mem
      ensures Valid() && OthersSame(old(mem), nodes, root)
      ensures Flat(mem, root) == old(Flat(mem, root)) - {NthPage(va, k)}
    {
      NthPageIsWalked(va, k);
      ClearLeaf(root, (va + offset) % TWO_64);
    }

    /** Removes exactly the covered pages. */
    method VirtUnmap(root: u64, va: u64, size: u64) returns (rc: Status)
      requires Valid() && IsRoot(nodes, root) && size + PAGE_SIZE <= TWO_64
      modifies this`mem
      ensures Valid() && rc == Ok
      ensures Flat(mem, root) == old(Flat(mem, root)) - PagesOf(va, PageCountOf(size))
      ensures OthersSame(old(mem), nodes, root)
    {
      var offset := 0;
      ghost var done := 0;
      while offset < size
        invariant Valid() && offset == done * PAGE_SIZE
        invariant done > 0 ==> (done - 1) * PAGE_SIZE < size
        invariant Flat(mem, root) == UnmapPages(old(Flat(mem, root)), va, done)
        invariant OthersSame(old(mem), nodes, root)
      {
        UnmapNth(root, va, offset, done);
        offset, done := offset + PAGE_SIZE, done + 1;
      }
      PagesCovered(size, done);
      UnmapPagesRemoves(old(Flat(mem, root)), va, done);
      rc := Ok;
    }
  }
}
