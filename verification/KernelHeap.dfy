/** kmalloc, kfree and krealloc of kernel/memory/heap.c on the heap's bytes. The specification is the
    set of live allocations (address, contents). */
module KernelHeap {
  import opened MachineInts
  import opened Bytes
  import opened HeapLayout

  function Align8(size: nat): nat {
    (size + 7) / 8 * 8
  }

  class Heap {
    const base: u64
    var mem: seq<u8>
    var head: u64
    ghost var blocks: seq<Block>

    ghost predicate Listed()
      reads this
    {
      Layout(mem, base, blocks) && head == base
    }

    ghost predicate Valid()
      reads this
    {
      Listed() && NoFreeNeighbours(blocks)
    }

    ghost function Allocations(): set<(nat, seq<u8>)>
      reads this
    {
      Live(mem, base, blocks)
    }

    constructor (base: u64, ram: seq<u8>)
      requires 0 < base && base + |ram| < TWO_64 && |ram| >= HDR
      ensures Valid() && this.base == base && |mem| == |ram|
      ensures blocks == [Block(0, |ram| - HDR, true)] && Allocations() == {}
    {
      this.base, mem, head := base, ram, base;
      blocks := [Block(0, |ram| - HDR, true)];
      new;
      SetSize(0, |ram| - HDR);
      SetFree(0, true);
      SetNext(0, 0);
    }

    // ---- header fields

    method SetSize(off: nat, v: u64)
      requires off + HDR <= |mem|
      modifies this`mem
      ensures SameOutside(old(mem), mem, off, off + HDR)
      ensures HeaderAt(mem, off) == old(HeaderAt(mem, off)).(size := v)
    {
      mem := Splice(mem, off, Le(v, 8));
      PowersOf256();
      LeAtStored(mem, off, v, 8);
      LeAtSame(old(mem), mem, off + 16, 8);
    }

    method SetFree(off: nat, free: bool)
      requires off + HDR <= |mem|
      modifies this`mem
      ensures SameOutside(old(mem), mem, off, off + HDR)
      ensures HeaderAt(mem, off) == old(HeaderAt(mem, off)).(free := free)
    {
      var b := [if free then 1 else 0];
      mem := Splice(mem, off + 8, b);
      LeAtSame(old(mem), mem, off, 8);
      LeAtSame(old(mem), mem, off + 16, 8);
    }

    method SetNext(off: nat, v: u64)
      requires off + HDR <= |mem|
      modifies this`mem
      ensures SameOutside(old(mem), mem, off, off + HDR)
      ensures HeaderAt(mem, off) == old(HeaderAt(mem, off)).(next := v)
    {
      mem := Splice(mem, off + 16, Le(v, 8));
      PowersOf256();
      LeAtStored(mem, off + 16, v, 8);
      LeAtSame(old(mem), mem, off, 8);
    }
  
    method SetHeader(off: nat, size: u64, free: bool, next: u64)
      requires off + HDR <= |mem|
      modifies this`mem
      ensures SameOutside(old(mem), mem, off, off + HDR) && HeaderAt(mem, off) == Header(size, free, next)
    {
      SetSize(off, size);
      SetNext(off, next);
      SetFree(off, free);
    }

    // ---- allocation

    /** Cuts a free block in two: an allocated front part and a free remainder. */
    method Split(off: nat, size: nat, ghost k: nat) returns (ghost s: seq<u8>)
      requires Valid() && k < |blocks| && blocks[k].off == off && blocks[k].free && size + HDR <= blocks[k].size
      modifies this`mem, this`blocks
      ensures Valid() && |s| == size
      ensures Allocations() == old(Allocations()) + {(Addr(base, off), s)}
    {
      NextBound(mem, base, blocks, k);
      assert HeaderGood(mem, base, blocks, k);
      var rest := off + HDR + size;
      var h := HeaderAt(mem, off);
      ghost var m0 := mem;
      SetHeader(rest, h.size - size - HDR, true, h.next);
      ghost var m1 := mem;
      SetHeader(off, size, false, base + rest);
      HeaderElsewhere(m1, mem, off, off + HDR, rest);
      SplitDone(m0, mem, base, blocks, k, size);
      s := Payload(mem, off, size);
      blocks := SplitAt(blocks, k, size);
    }

    /** Hands out a whole free block. */
    method TakeWhole(off: nat, ghost k: nat) returns (ghost s: seq<u8>)
      requires Valid() && k < |blocks| && blocks[k].off == off && blocks[k].free
      modifies this`mem, this`blocks
      ensures Valid() && |s| == old(blocks)[k].size
      ensures Allocations() == old(Allocations()) + {(Addr(base, off), s)}
    {
      ghost var m0 := mem;
      NextBound(m0, base, blocks, k);
      assert HeaderGood(m0, base, blocks, k);
      SetFree(off, false);
      ghost var m1 := mem;
      TakeDone(m0, m1, base, blocks, k);
      s := Payload(m1, off, blocks[k].size);
      blocks := blocks[k := blocks[k].(free := false)];
    }

    ghost predicate Fits(size: nat)
      reads this
    {
      exists i: nat :: i < |blocks| && blocks[i].free && blocks[i].size >= size
    }

    method FindFit(size: nat) returns (cur: u64, ghost k: nat)
      requires Valid()
      ensures cur == 0 <==> !Fits(size)
      ensures cur != 0 ==> k < |blocks| && cur == base + blocks[k].off && blocks[k].free && blocks[k].size >= size
    {
      cur, k := head, 0;
      while cur != 0
        invariant k <= |blocks| && (cur == 0 <==> k == |blocks|)
        invariant cur != 0 ==> cur == base + blocks[k].off
        invariant forall i: nat | i < k :: !(blocks[i].free && blocks[i].size >= size)
        decreases |blocks| - k
      {
        NextBound(mem, base, blocks, k);
        assert HeaderGood(mem, base, blocks, k);
        var h := HeaderAt(mem, cur - base);
        if h.free && h.size >= size { return; }
        cur, k := h.next, k + 1;
      }
    }

    /** First fit. Fails exactly when no free block is large enough; otherwise adds one allocation of at
        least the aligned size and keeps every other. */
    method Kmalloc(request: u64) returns (p: u64, ghost s: seq<u8>)
      requires Valid() && request + 7 < TWO_64
      modifies this`mem, this`blocks
      ensures Valid()
      ensures p == 0 <==> !old(Fits(Align8(request)))
      ensures p == 0 ==> blocks == old(blocks) && mem == old(mem)
      ensures p != 0 ==> Allocations() == old(Allocations()) + {(p as nat, s)}
      ensures p != 0 ==> Align8(request) <= |s| < Align8(request) + HDR + 8 && p >= base + HDR
      ensures p != 0 ==> forall q | q in old(Allocations()) :: q.0 != p
    {
      var size := Align8(request);
      var cur;
      ghost var k;
      cur, k := FindFit(size);
      if cur == 0 { return 0, []; }
      TakenIsNew(mem, base, blocks, k);
      NextBound(mem, base, blocks, k);
      assert HeaderGood(mem, base, blocks, k);
      if HeaderAt(mem, cur - base).size >= size + HDR + 8 {
        s := Split(cur - base, size, k);
      } else {
        s := TakeWhole(cur - base, k);
      }
      p := cur + HDR;
      assert p == Addr(base, cur - base);
    }

    // ---- release

    method MergeNext(off: nat, ghost k: nat)
      requires Listed() && k + 1 < |blocks| && blocks[k].off == off && BothFree(blocks, k)
      modifies this`mem, this`blocks
      ensures Listed() && blocks == MergeAt(old(blocks), k)
      ensures Allocations() == old(Allocations())
    {
      ghost var m0 := mem;
      NextBound(m0, base, blocks, k);
      NextBound(m0, base, blocks, k + 1);
      assert HeaderGood(m0, base, blocks, k) && HeaderGood(m0, base, blocks, k + 1) && Meets(blocks, k);
      var h := HeaderAt(mem, off);
      var n := HeaderAt(mem, h.next - base);
      SetSize(off, h.size + HDR + n.size);
      SetNext(off, n.next);
      ghost var m1 := mem;
      MergeWritten(m0, m1, base, blocks, k);
      MergeKeepsLive(m0, m1, base, blocks, k);
      blocks := MergeAt(blocks, k);
    }

    /** The merging pass: from any block list to one without free neighbours, same allocations. */
    method Coalesce()
      requires Listed()
      modifies this`mem, this`blocks
      ensures Valid() && Allocations() == old(Allocations())
    {
      var cur := head;
      ghost var k := 0;
      assert HeaderGood(mem, base, blocks, 0);
      while HeaderAt(mem, cur - base).next != 0
        invariant Listed() && Allocations() == old(Allocations())
        invariant k < |blocks| && cur == base + blocks[k].off && HeaderGood(mem, base, blocks, k)
        invariant forall i: nat | i < k :: !BothFree(blocks, i)
        decreases |blocks| - k
      {
        NextBound(mem, base, blocks, k);
        NextBound(mem, base, blocks, k + 1);
        assert HeaderGood(mem, base, blocks, k + 1);
        var h := HeaderAt(mem, cur - base);
        if h.free && HeaderAt(mem, h.next - base).free {
          ghost var before := blocks;
          MergeNext(cur - base, k);
          MergeKeepsPrefix(before, k);
          assert HeaderGood(mem, base, blocks, k);
        } else {
          assert !BothFree(blocks, k);
          cur, k := h.next, k + 1;
        }
      }
    }

    /** Takes out exactly the given allocation; a null pointer is ignored. */
    method Kfree(p: u64, ghost s: seq<u8>)
      requires Valid() && (p != 0 ==> (p as nat, s) in Allocations())
      modifies this`mem, this`blocks
      ensures Valid()
      ensures Allocations() == if p == 0 then old(Allocations()) else old(Allocations()) - {(p as nat, s)}
    {
      if p == 0 { return; }
      ghost var m0 := mem;
      ghost var k := LiveBlock(m0, base, blocks, p, s);
      assert HeaderGood(m0, base, blocks, k);
      SetFree(p - HDR - base, true);
      ghost var m1 := mem;
      FlagWritten(m0, m1, base, blocks, k, true);
      FlagReleased(m0, m1, base, blocks, k);
      blocks := blocks[k := blocks[k].(free := true)];
      Coalesce();
    }

    // ---- resizing

    method CopyBytes(dst: nat, src: nat, n: nat, ghost s: seq<u8>)
      requires dst + n <= |mem| && src + n <= |mem| && (dst + n <= src || src + n <= dst)
      requires n == |s| && forall i | 0 <= i < n :: mem[src + i] == s[i]
      modifies this`mem
      ensures mem == Splice(old(mem), dst, s)
    {
      for i := 0 to n
        invariant |mem| == |old(mem)|
        invariant forall j | 0 <= j < |mem| :: mem[j] == if dst <= j < dst + i then s[j - dst] else old(mem)[j]
      {
        mem := mem[dst + i := mem[src + i]];
      }
      assert mem == Splice(old(mem), dst, s);
    }

    /** Copies the contents of allocation `p` into the larger allocation `n` and frees `p`. */
    method Move(p: u64, ghost s: seq<u8>, size: nat, n: u64, ghost t: seq<u8>)
      requires Valid() && (p as nat, s) in Allocations() && (n as nat, t) in Allocations()
      requires p != n && p != 0 && size == |s| <= |t|
      modifies this`mem, this`blocks
      ensures Valid()
      ensures Allocations() == old(Allocations()) - {(n as nat, t)} + {(n as nat, Splice(t, 0, s))} - {(p as nat, s)}
    {
      ghost var m0 := mem;
      ghost var c := LiveBlock(m0, base, blocks, p, s);
      LiveDisjoint(m0, base, blocks, (p as nat, s), (n as nat, t));
      PayloadOverwritten(m0, base, blocks, n, t, s);
      CopyBytes(n - base, p - base, size, s);
      Kfree(p, s);
    }

    /** Keeps the block when it is large enough, otherwise moves the contents to a new one. */
    method Krealloc(p: u64, ghost s: seq<u8>, newSize: u64) returns (r: u64, ghost t: seq<u8>)
      requires Valid() && newSize + 7 < TWO_64 && (p != 0 ==> (p as nat, s) in Allocations())
      modifies this`mem, this`blocks
      ensures Valid()
      ensures r == 0 ==> Allocations() == old(Allocations()) && !old(Fits(Align8(newSize)))
      ensures r != 0 && p == 0 ==> Allocations() == old(Allocations()) + {(r as nat, t)} && |t| >= newSize
      ensures r != 0 && p != 0 ==>
        Allocations() == old(Allocations()) - {(p as nat, s)} + {(r as nat, t)} && |t| >= newSize && s <= t
    {
      if p == 0 {
        r, t := Kmalloc(newSize);
        return;
      }
      ghost var c := LiveBlock(mem, base, blocks, p, s);
      assert HeaderGood(mem, base, blocks, c);
      var size := HeaderAt(mem, p - HDR - base).size;
      if size >= newSize { return p, s; }
      r, t := Kmalloc(newSize);
      if r == 0 { return; }
      Move(p, s, size, r, t);
      t := Splice(t, 0, s);
    }

    /** When nothing is allocated the heap is back to its single initial block. */
    lemma EmptyHeapIsInitial()
      requires Valid() && Allocations() == {}
      ensures |mem| >= HDR && blocks == [Block(0, |mem| - HDR, true)]
    {
      forall i | 0 <= i < |blocks|
        ensures blocks[i].free
      {
        if !blocks[i].free {
          BlockIsLive(mem, base, blocks, i);
        }
      }
      AllFreeIsOneBlock(blocks, |mem|);
    }
  }

  lemma MergeKeepsPrefix(bs: seq<Block>, k: nat)
    requires k + 1 < |bs| && BothFree(bs, k) && forall i: nat | i < k :: !BothFree(bs, i)
    ensures forall i: nat | i < k :: !BothFree(MergeAt(bs, k), i)
    ensures |MergeAt(bs, k)| == |bs| - 1 && MergeAt(bs, k)[k].off == bs[k].off
  {
    var bs' := MergeAt(bs, k);
    forall i: nat | i < k
      ensures !BothFree(bs', i)
    {
      assert !BothFree(bs, i);
    }
  }

  /** No live allocation starts where a free block's payload starts. */
  lemma TakenIsNew(m: seq<u8>, base: nat, bs: seq<Block>, k: nat)
    requires Layout(m, base, bs) && k < |bs| && bs[k].free
    ensures forall q | q in Live(m, base, bs) :: q.0 != Addr(base, bs[k].off)
  {
    forall q | q in Live(m, base, bs)
      ensures q.0 != Addr(base, bs[k].off)
    {
      var i: nat :| i < |bs| && !bs[i].free && q == Allocation(m, base, bs[i]);
      if i < k { TiledOrder(bs, |m|, i, k); } else { TiledOrder(bs, |m|, k, i); }
    }
  }
}
