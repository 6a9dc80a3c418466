/** The bitmap page-frame allocator of kernel/memory/physical_memory.c. */
module PhysicalMemory {
  import opened MachineInts

  const PAGE_SIZE := 4096
  const MAX_PAGES := 0x10_0000

  predicate BitTest(b: bv8, k: nat)
    requires k < 8
  {
    (b >> k) & 1 == 1
  }

  function BitSet(b: bv8, k: nat): (r: bv8)
    requires k < 8
    ensures forall j: nat | j < 8 :: BitTest(r, j) == (j == k || BitTest(b, j))
  {
    SetLemma(b, k);
    b | (1 << k)
  }

  function BitClear(b: bv8, k: nat): (r: bv8)
    requires k < 8
    ensures forall j: nat | j < 8 :: BitTest(r, j) == (j != k && BitTest(b, j))
  {
    ClearLemma(b, k);
    b & !(1 << k)
  }

  function Mask(k: nat): bv8
    requires k < 8
  {
    match k
    case 0 => 1
    case 1 => 2
    case 2 => 4
    case 3 => 8
    case 4 => 16
    case 5 => 32
    case 6 => 64
    case _ => 128
  }

  lemma MaskIsShift(b: bv8, k: nat)
    requires k < 8
    ensures 1 << k == Mask(k)
    ensures BitTest(b, k) <==> b & Mask(k) != 0
  {
    assert k == 0 || k == 1 || k == 2 || k == 3 || k == 4 || k == 5 || k == 6 || k == 7;
  }

  lemma MasksDisjoint(b: bv8, k: nat, j: nat)
    requires k < 8 && j < 8
    ensures (b | Mask(k)) & Mask(j) != 0 <==> j == k || b & Mask(j) != 0
    ensures (b & !Mask(k)) & Mask(j) != 0 <==> j != k && b & Mask(j) != 0
  {
    if j != k {
      assert Mask(k) & Mask(j) == 0;
    }
    var m, n := Mask(k), Mask(j);
    assert m & n == 0 ==> (b | m) & n == b & n && (b & !m) & n == b & n;
    assert (b | m) & m == m && (b & !m) & m == 0;
  }

  lemma SetLemma(b: bv8, k: nat)
    requires k < 8
    ensures forall j: nat | j < 8 :: BitTest(b | (1 << k), j) == (j == k || BitTest(b, j))
  {
    forall j: nat | j < 8
      ensures BitTest(b | (1 << k), j) == (j == k || BitTest(b, j))
    {
      MaskIsShift(b, k);
      MaskIsShift(b, j);
      MaskIsShift(b | Mask(k), j);
      MasksDisjoint(b, k, j);
    }
  }

  lemma ClearLemma(b: bv8, k: nat)
    requires k < 8
    ensures forall j: nat | j < 8 :: BitTest(b & !(1 << k), j) == (j != k && BitTest(b, j))
  {
    forall j: nat | j < 8
      ensures BitTest(b & !(1 << k), j) == (j != k && BitTest(b, j))
    {
      MaskIsShift(b, k);
      MaskIsShift(b, j);
      MaskIsShift(b & !Mask(k), j);
      MasksDisjoint(b, k, j);
    }
  }

  class FrameAllocator {
    const bitmap: array<bv8>
    var physBase: u64
    var totalPages: nat
    var freePages: int

    ghost predicate Valid()
      reads this, bitmap
    {
      && bitmap.Length == MAX_PAGES / 8
      && totalPages <= MAX_PAGES
      && physBase % PAGE_SIZE == 0 && physBase + totalPages * PAGE_SIZE <= TWO_48
    }

    predicate Used(page: nat)
      requires bitmap.Length == MAX_PAGES / 8 && page < MAX_PAGES
      reads this, bitmap
    {
      BitTest(bitmap[page / 8], page % 8)
    }

    function Frame(page: nat): int
      reads this`physBase
    {
      physBase + page * PAGE_SIZE
    }

    /** The specification: the set of free pages. */
    ghost function Free(): set<nat>
      requires Valid()
      reads this, bitmap
    {
      set i: nat | 0 <= i < totalPages && !Used(i)
    }

    ghost predicate CountExact()
      requires Valid()
      reads this, bitmap
    {
      freePages == |Free()|
    }

    constructor ()
      ensures Valid() && fresh(bitmap) && CountExact() && totalPages == 0
    {
      bitmap := new bv8[MAX_PAGES / 8](_ => 0);
      physBase, totalPages, freePages := 0, 0, 0;
      new;
      assert Free() == {};
    }

    method MarkUsed(page: nat)
      requires Valid() && page < MAX_PAGES
      modifies bitmap
      ensures Valid() && Free() == old(Free()) - {page}
    {
      bitmap[page / 8] := BitSet(bitmap[page / 8], page % 8);
      forall j: nat | j < MAX_PAGES
        ensures Used(j) == (j == page || old(Used(j)))
      {
        assert j / 8 == page / 8 && j % 8 == page % 8 ==> j == page;
      }
    }

    method MarkFree(page: nat)
      requires Valid() && page < totalPages
      modifies bitmap
      ensures Valid() && Free() == old(Free()) + {page}
    {
      bitmap[page / 8] := BitClear(bitmap[page / 8], page % 8);
      forall j: nat | j < MAX_PAGES
        ensures Used(j) == (j != page && old(Used(j)))
      {
        assert j / 8 == page / 8 && j % 8 == page % 8 ==> j == page;
      }
    }

    /** Whole bytes only are cleared, so the pages of a last partial byte keep their old bits. */
    method Init(base: u64, size: u64) returns (rc: Status)
      requires Valid()
      requires base % PAGE_SIZE == 0 && base + size <= TWO_48 && size / PAGE_SIZE <= MAX_PAGES
      modifies this, bitmap
      ensures Valid() && rc == Ok
      ensures physBase == base && totalPages == size / PAGE_SIZE && freePages == totalPages
      ensures forall i: nat | i < totalPages :: Used(i) == (i >= totalPages / 8 * 8 && old(Used(i)))
      ensures CountExact() <==> forall i: nat | totalPages / 8 * 8 <= i < totalPages :: !old(Used(i))
    {
      physBase, totalPages, freePages := base, size / PAGE_SIZE, size / PAGE_SIZE;
      for i := 0 to totalPages / 8
        invariant Valid()
        invariant physBase == base && totalPages == size / PAGE_SIZE && freePages == totalPages
        invariant forall j: nat | j < bitmap.Length :: bitmap[j] == if j < i then 0 else old(bitmap[j])
      {
        bitmap[i] := 0;
      }
      rc := Ok;
      forall i: nat | i < totalPages
        ensures Used(i) == (i >= totalPages / 8 * 8 && old(Used(i)))
      {
        ZeroByte(i % 8);
        assert i / 8 < totalPages / 8 <==> i < totalPages / 8 * 8;
      }
      FullCount(Free(), totalPages);
      forall i: nat | i < totalPages
        ensures i in Free() <==> !(i >= totalPages / 8 * 8 && old(Used(i)))
      {
      }
    }

    /** First free page in address order; 0 stands for failure. */
    method AllocPage() returns (pa: u64, ghost page: nat)
      requires Valid()
      modifies this`freePages, bitmap
      ensures Valid()
      ensures old(Free()) == {} ==> pa == 0 && Free() == {}
      ensures old(Free()) != {} ==>
        && page in old(Free()) && (forall j | j in old(Free()) :: page <= j)
        && pa == Frame(page) && Free() == old(Free()) - {page}
      ensures old(CountExact()) ==> CountExact()
    {
      var i := 0;
      while i < totalPages && Used(i)
        invariant i <= totalPages
        invariant forall j: nat | j < i :: Used(j)
      {
        i := i + 1;
      }
      if i == totalPages { return 0, 0; }
      assert i in Free();
      MarkUsed(i);
      freePages := freePages - 1;
      return Frame(i), i;
    }

    /** Clears the page's bit; the counter grows even when the page was free already. */
    method FreePage(addr: u64)
      requires Valid()
      modifies this`freePages, bitmap
      ensures Valid()
      ensures var page := (addr - physBase) % TWO_64 / PAGE_SIZE;
        if page < totalPages then
          && Free() == old(Free()) + {page}
          && (old(CountExact()) ==> (CountExact() <==> page !in old(Free())))
        else Free() == old(Free()) && freePages == old(freePages)
    {
      var page := (addr - physBase) % TWO_64 / PAGE_SIZE;
      if page >= totalPages { return; }
      MarkFree(page);
      freePages := freePages + 1;
    }

    method ReservePages(first: nat, last: nat)
      requires Valid() && first <= last < totalPages
      modifies this`freePages, bitmap
      ensures Valid()
      ensures Free() == Outside(old(Free()), first, last + 1)
      ensures old(CountExact()) ==> CountExact()
    {
      for i := first to last + 1
        invariant Valid() && Free() == Outside(old(Free()), first, i)
        invariant old(CountExact()) ==> CountExact()
      {
        ReservePage(i);
        OutsideNext(old(Free()), first, i);
      }
    }

    method ReservePage(i: nat)
      requires Valid() && i < totalPages
      modifies this`freePages, bitmap
      ensures Valid() && Free() == old(Free()) - {i}
      ensures old(CountExact()) ==> CountExact()
    {
      ghost var before := Free();
      if !Used(i) {
        assert i in before;
        MarkUsed(i);
        assert |before| == |before - {i}| + 1;
        if freePages > 0 { freePages := freePages - 1; }
      } else {
        assert before == before - {i};
      }
    }

    /** Page `i` shares a byte with [base, base + size). */
    ghost predicate Meets(i: nat, base: u64, size: u64)
      reads this`physBase
    {
      Frame(i) < base + size && base < Frame(i) + PAGE_SIZE
    }

    /** The pages a range touches, counted from the base, whether managed or not. */
    method PageSpan(base: u64, size: u64) returns (some: bool, first: nat, last: nat)
      requires Valid() && size > 0 && base + size + PAGE_SIZE <= TWO_64
      ensures !some ==> forall i: nat :: !Meets(i, base, size)
      ensures some ==> first <= last && forall i: nat :: Meets(i, base, size) <==> first <= i <= last
    {
      var start := base / PAGE_SIZE * PAGE_SIZE;
      var end := (base + size + PAGE_SIZE - 1) / PAGE_SIZE * PAGE_SIZE;
      if end <= physBase {
        forall i: nat ensures !Meets(i, base, size) { PageRange(physBase, base, size, i); }
        return false, 0, 0;
      }
      forall i: nat
        ensures Meets(i, base, size)
          <==> (Max(start, physBase) - physBase) / PAGE_SIZE <= i <= (end - 1 - physBase) / PAGE_SIZE
      {
        PageRange(physBase, base, size, i);
        PagesBetween(physBase, start, end, i);
      }
      if start < physBase { start := physBase; }
      return true, (start - physBase) / PAGE_SIZE, (end - 1 - physBase) / PAGE_SIZE;
    }

    /** Takes out exactly the free pages that the range touches. */
    method ReserveRange(base: u64, size: u64) returns (rc: Status)
      requires Valid() && base + size + PAGE_SIZE <= TWO_64
      modifies this`freePages, bitmap
      ensures Valid()
      ensures Free() == if size == 0 then old(Free()) else set i | i in old(Free()) && !Meets(i, base, size)
      ensures rc == Ok <==> size == 0 || exists i: nat :: i < totalPages && Meets(i, base, size)
      ensures rc == Ok || rc == EInval
      ensures old(CountExact()) ==> CountExact()
    {
      if size == 0 { return Ok; }
      if totalPages == 0 { return EInval; }
      var some, first, last := PageSpan(base, size);
      if !some || first >= totalPages { return EInval; }
      if last >= totalPages { last := totalPages - 1; }
      ReservePages(first, last);
      assert Meets(first, base, size);
      return Ok;
    }
  }

  /** The numbers of `s` outside [a, b). */
  ghost function Outside(s: set<nat>, a: nat, b: nat): set<nat> {
    set i | i in s && !(a <= i < b)
  }

  lemma OutsideNext(s: set<nat>, a: nat, b: nat)
    requires a <= b
    ensures Outside(s, a, b) - {b} == Outside(s, a, b + 1)
  {
  }

  /** A page frame meets a byte range exactly when it lies inside the range rounded out to pages. */
  lemma PageRange(physBase: nat, base: nat, size: nat, i: nat)
    requires physBase % PAGE_SIZE == 0 && size > 0
    ensures physBase + i * PAGE_SIZE < base + size && base < physBase + i * PAGE_SIZE + PAGE_SIZE
      <==> base / PAGE_SIZE * PAGE_SIZE <= physBase + i * PAGE_SIZE
           < (base + size + PAGE_SIZE - 1) / PAGE_SIZE * PAGE_SIZE
  {
    var k := physBase / PAGE_SIZE + i;
    assert physBase + i * PAGE_SIZE == k * PAGE_SIZE;
  }

  /** The frames in a range of whole pages. */
  lemma PagesBetween(physBase: nat, start: nat, end: nat, i: nat)
    requires physBase % PAGE_SIZE == 0 && start % PAGE_SIZE == 0 && end % PAGE_SIZE == 0 && physBase < end
    ensures start <= physBase + i * PAGE_SIZE < end <==>
      (Max(start, physBase) - physBase) / PAGE_SIZE <= i <= (end - 1 - physBase) / PAGE_SIZE
  {
  }

  lemma ZeroByte(k: nat)
    requires k < 8
    ensures !BitTest(0, k)
  {
    assert k == 0 || k == 1 || k == 2 || k == 3 || k == 4 || k == 5 || k == 6 || k == 7;
  }

  /** A set of numbers below `n` has `n` members exactly when it holds them all. */
  lemma FullCount(s: set<nat>, n: nat)
    requires forall i | i in s :: i < n
    ensures |s| == n <==> forall i: nat | i < n :: i in s
    ensures |s| <= n
  {
    if n > 0 {
      FullCount(s - {n - 1}, n - 1);
    }
  }
}
