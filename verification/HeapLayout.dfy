/** The block list of kernel/memory/heap.c as values: 24-byte headers inside the heap's own bytes
    (size at 0, free flag at 8, next pointer at 16), blocks that tile the region, and the
    allocations a client sees. */
module HeapLayout {
  import opened MachineInts
  import opened Bytes

  const HDR := 24

  datatype Header = Header(size: nat, free: bool, next: nat)
  datatype Block = Block(off: nat, size: nat, free: bool)

  function HeaderAt(m: seq<u8>, off: nat): Header
    requires off + HDR <= |m|
  {
    Header(LeAt(m, off, 8), m[off + 8] != 0, LeAt(m, off + 16, 8))
  }

  function End(b: Block): nat {
    b.off + HDR + b.size
  }

  ghost predicate Meets(bs: seq<Block>, i: nat)
    requires i + 1 < |bs|
  {
    End(bs[i]) == bs[i + 1].off
  }

  /** The blocks cover [0, total) in address order without gaps. */
  ghost predicate Tiled(bs: seq<Block>, total: nat) {
    && |bs| > 0 && bs[0].off == 0 && End(bs[|bs| - 1]) == total
    && forall i: nat | i + 1 < |bs| :: Meets(bs, i)
  }

  ghost function NextOf(bs: seq<Block>, base: nat, i: nat): nat {
    if i + 1 < |bs| then base + bs[i + 1].off else 0
  }

  ghost predicate HeaderGood(m: seq<u8>, base: nat, bs: seq<Block>, i: nat)
    requires i < |bs|
  {
    && End(bs[i]) <= |m|
    && HeaderAt(m, bs[i].off) == Header(bs[i].size, bs[i].free, NextOf(bs, base, i))
  }

  ghost predicate Layout(m: seq<u8>, base: nat, bs: seq<Block>) {
    && 0 < base && base + |m| < TWO_64
    && Tiled(bs, |m|)
    && forall i: nat | i < |bs| :: HeaderGood(m, base, bs, i)
  }

  ghost predicate BothFree(bs: seq<Block>, i: nat)
    requires i + 1 < |bs|
  {
    bs[i].free && bs[i + 1].free
  }

  ghost predicate NoFreeNeighbours(bs: seq<Block>) {
    forall i: nat | i + 1 < |bs| :: !BothFree(bs, i)
  }

  function Addr(base: nat, off: nat): nat {
    base + off + HDR
  }

  ghost function Payload(m: seq<u8>, off: nat, size: nat): seq<u8> {
    if off + HDR + size <= |m| then Sub(m, off + HDR, size) else []
  }

  ghost function Allocation(m: seq<u8>, base: nat, b: Block): (nat, seq<u8>) {
    (Addr(base, b.off), Payload(m, b.off, b.size))
  }

  /** What clients hold: the payload address and contents of every allocated block. */
  ghost function Live(m: seq<u8>, base: nat, bs: seq<Block>): set<(nat, seq<u8>)> {
    set i: nat | 0 <= i < |bs| && !bs[i].free :: Allocation(m, base, bs[i])
  }

  lemma BlockIsLive(m: seq<u8>, base: nat, bs: seq<Block>, i: nat)
    requires i < |bs| && !bs[i].free
    ensures Allocation(m, base, bs[i]) in Live(m, base, bs)
  {
  }

  ghost predicate SameOutside(m: seq<u8>, m': seq<u8>, lo: nat, hi: nat) {
    |m'| == |m| && forall i | 0 <= i < |m| && !(lo <= i < hi) :: m'[i] == m[i]
  }

  lemma HeaderElsewhere(m: seq<u8>, m': seq<u8>, lo: nat, hi: nat, off: nat)
    requires SameOutside(m, m', lo, hi) && off + HDR <= |m| && (off + HDR <= lo || hi <= off)
    ensures HeaderAt(m', off) == HeaderAt(m, off)
  {
    LeAtSame(m, m', off, 8);
    LeAtSame(m, m', off + 16, 8);
  }

  lemma {:induction false} TiledOrder(bs: seq<Block>, total: nat, i: nat, j: nat)
    requires Tiled(bs, total) && i < j < |bs|
    ensures End(bs[i]) <= bs[j].off && End(bs[j]) <= total
    decreases |bs| - i
  {
    assert Meets(bs, i);
    if i + 1 < j {
      TiledOrder(bs, total, i + 1, j);
    } else if j + 1 < |bs| {
      TiledOrder(bs, total, j, j + 1);
    }
  }

  lemma TiledInside(bs: seq<Block>, total: nat, i: nat)
    requires Tiled(bs, total) && i < |bs|
    ensures End(bs[i]) <= total
  {
    if i + 1 < |bs| {
      TiledOrder(bs, total, i, i + 1);
    }
  }

  lemma NextBound(m: seq<u8>, base: nat, bs: seq<Block>, i: nat)
    requires Layout(m, base, bs) && i < |bs|
    ensures NextOf(bs, base, i) < TWO_64 && End(bs[i]) <= |m|
  {
    TiledInside(bs, |m|, i);
    if i + 1 < |bs| {
      TiledInside(bs, |m|, i + 1);
    }
  }

  /** Live payloads are pairwise disjoint and inside the heap. */
  lemma LiveDisjoint(m: seq<u8>, base: nat, bs: seq<Block>, p: (nat, seq<u8>), q: (nat, seq<u8>))
    requires Layout(m, base, bs) && p in Live(m, base, bs) && q in Live(m, base, bs) && p != q
    ensures p.0 + |p.1| <= q.0 || q.0 + |q.1| <= p.0
    ensures base <= p.0 && p.0 + |p.1| <= base + |m|
  {
    var i: nat :| i < |bs| && !bs[i].free && p == Allocation(m, base, bs[i]);
    var j: nat :| j < |bs| && !bs[j].free && q == Allocation(m, base, bs[j]);
    TiledInside(bs, |m|, i);
    TiledInside(bs, |m|, j);
    if i < j {
      TiledOrder(bs, |m|, i, j);
    } else if j < i {
      TiledOrder(bs, |m|, j, i);
    }
  }

  /** Writes inside one block's region leave every other block's header and payload as they were. */
  lemma OtherBlock(m: seq<u8>, m': seq<u8>, base: nat, bs: seq<Block>, k: nat, i: nat)
    requires Layout(m, base, bs) && k < |bs| && i < |bs| && i != k
    requires SameOutside(m, m', bs[k].off, End(bs[k]))
    ensures End(bs[i]) <= |m| && HeaderAt(m', bs[i].off) == HeaderAt(m, bs[i].off)
    ensures Payload(m', bs[i].off, bs[i].size) == Payload(m, bs[i].off, bs[i].size)
    ensures End(bs[i]) <= bs[k].off || End(bs[k]) <= bs[i].off
  {
    TiledInside(bs, |m|, i);
    if i < k {
      TiledOrder(bs, |m|, i, k);
    } else {
      TiledOrder(bs, |m|, k, i);
    }
    HeaderElsewhere(m, m', bs[k].off, End(bs[k]), bs[i].off);
  }

  // ---------------------------------------------------------------- one block changes in place

  /** Block `k` keeps its place and size; its flag and payload may change. */
  lemma FlagWritten(m: seq<u8>, m': seq<u8>, base: nat, bs: seq<Block>, k: nat, free: bool)
    requires Layout(m, base, bs) && k < |bs| && SameOutside(m, m', bs[k].off, End(bs[k]))
    requires End(bs[k]) <= |m'|
    requires HeaderAt(m', bs[k].off) == HeaderAt(m, bs[k].off).(free := free)
    ensures Layout(m', base, bs[k := bs[k].(free := free)])
  {
    var bs' := bs[k := bs[k].(free := free)];
    forall i: nat | i + 1 < |bs'|
      ensures Meets(bs', i)
    {
      assert Meets(bs, i);
    }
    forall i: nat | i < |bs'|
      ensures HeaderGood(m', base, bs', i)
    {
      assert HeaderGood(m, base, bs, i);
      if i != k {
        OtherBlock(m, m', base, bs, k, i);
      }
    }
  }

  /** Marking a free block allocated adds its payload to the live ones. */
  lemma FlagTaken(m: seq<u8>, m': seq<u8>, base: nat, bs: seq<Block>, k: nat)
    requires Layout(m, base, bs) && k < |bs| && bs[k].free && SameOutside(m, m', bs[k].off, End(bs[k]))
    ensures Live(m', base, bs[k := bs[k].(free := false)]) ==
      Live(m, base, bs) + {Allocation(m', base, bs[k].(free := false))}
  {
    var bs' := bs[k := bs[k].(free := false)];
    forall i: nat | i < |bs| && i != k
      ensures bs'[i] == bs[i] && Allocation(m', base, bs'[i]) == Allocation(m, base, bs[i])
    {
      OtherBlock(m, m', base, bs, k, i);
    }
    assert !bs'[k].free;
  }

  /** Handing out a whole block in one statement. */
  lemma TakeDone(m: seq<u8>, m': seq<u8>, base: nat, bs: seq<Block>, k: nat)
    requires Layout(m, base, bs) && k < |bs| && bs[k].free && SameOutside(m, m', bs[k].off, End(bs[k]))
    requires End(bs[k]) <= |m| && HeaderAt(m', bs[k].off) == HeaderAt(m, bs[k].off).(free := false)
    ensures Layout(m', base, bs[k := bs[k].(free := false)])
    ensures Live(m', base, bs[k := bs[k].(free := false)]) ==
            Live(m, base, bs) + {(Addr(base, bs[k].off), Payload(m', bs[k].off, bs[k].size))}
    ensures NoFreeNeighbours(bs) ==> NoFreeNeighbours(bs[k := bs[k].(free := false)])
  {
    FlagWritten(m, m', base, bs, k, false);
    FlagTaken(m, m', base, bs, k);
    if NoFreeNeighbours(bs) {
      TakeKeepsNeighbours(bs, k);
    }
  }

  /** Marking a live block free takes out exactly its payload. */
  lemma FlagReleased(m: seq<u8>, m': seq<u8>, base: nat, bs: seq<Block>, k: nat)
    requires Layout(m, base, bs) && k < |bs| && !bs[k].free && SameOutside(m, m', bs[k].off, End(bs[k]))
    ensures Live(m', base, bs[k := bs[k].(free := true)]) == Live(m, base, bs) - {Allocation(m, base, bs[k])}
  {
    var bs' := bs[k := bs[k].(free := true)];
    forall i: nat | i < |bs| && i != k
      ensures bs'[i] == bs[i] && Allocation(m', base, bs'[i]) == Allocation(m, base, bs[i])
      ensures Allocation(m, base, bs[i]) != Allocation(m, base, bs[k])
    {
      OtherBlock(m, m', base, bs, k, i);
    }
  }

  /** Rewriting a live payload changes that allocation's contents only. */
  lemma PayloadWritten(m: seq<u8>, m': seq<u8>, base: nat, bs: seq<Block>, k: nat)
    requires Layout(m, base, bs) && k < |bs| && !bs[k].free && SameOutside(m, m', bs[k].off, End(bs[k]))
    ensures Live(m', base, bs) == Live(m, base, bs) - {Allocation(m, base, bs[k])} + {Allocation(m', base, bs[k])}
  {
    forall i: nat | i < |bs| && i != k
      ensures Allocation(m', base, bs[i]) == Allocation(m, base, bs[i])
      ensures Allocation(m, base, bs[i]) != Allocation(m, base, bs[k])
    {
      OtherBlock(m, m', base, bs, k, i);
    }
  }

  /** Where a live allocation lies. */
  lemma LiveBlock(m: seq<u8>, base: nat, bs: seq<Block>, p: nat, s: seq<u8>) returns (k: nat)
    requires Layout(m, base, bs) && (p, s) in Live(m, base, bs)
    ensures k < |bs| && !bs[k].free && p == Addr(base, bs[k].off) && |s| == bs[k].size
      && s == Payload(m, bs[k].off, bs[k].size)
    ensures End(bs[k]) <= |m|
  {
    k :| k < |bs| && !bs[k].free && (p, s) == Allocation(m, base, bs[k]);
    TiledInside(bs, |m|, k);
  }

  /** Writing `s` to the front of one allocation changes that allocation only. */
  lemma PayloadOverwritten(m: seq<u8>, base: nat, bs: seq<Block>, n: nat, t: seq<u8>, s: seq<u8>)
    requires Layout(m, base, bs) && (n, t) in Live(m, base, bs) && |s| <= |t|
    ensures base <= n && n - base + |s| <= |m|
    ensures Layout(Splice(m, n - base, s), base, bs)
    ensures Live(Splice(m, n - base, s), base, bs) == Live(m, base, bs) - {(n, t)} + {(n, Splice(t, 0, s))}
  {
    var d := LiveBlock(m, base, bs, n, t);
    var m' := Splice(m, n - base, s);
    assert HeaderGood(m, base, bs, d);
    HeaderElsewhere(m, m', n - base, End(bs[d]), bs[d].off);
    FlagWritten(m, m', base, bs, d, false);
    assert bs[d := bs[d].(free := false)] == bs;
    PayloadWritten(m, m', base, bs, d);
    assert Payload(m', bs[d].off, bs[d].size) == Splice(t, 0, s);
    assert Allocation(m, base, bs[d]) == (n, t) && Allocation(m', base, bs[d]) == (n, Splice(t, 0, s));
  }

  lemma TakeKeepsNeighbours(bs: seq<Block>, k: nat)
    requires NoFreeNeighbours(bs) && k < |bs|
    ensures NoFreeNeighbours(bs[k := bs[k].(free := false)])
  {
    var bs' := bs[k := bs[k].(free := false)];
    forall i: nat | i + 1 < |bs'|
      ensures !BothFree(bs', i)
    {
      assert !BothFree(bs, i);
    }
  }

  // ---------------------------------------------------------------- splitting

  function SplitAt(bs: seq<Block>, k: nat, size: nat): seq<Block>
    requires k < |bs| && size + HDR <= bs[k].size
  {
    bs[..k] + [Block(bs[k].off, size, false), Block(bs[k].off + HDR + size, bs[k].size - size - HDR, true)]
      + bs[k + 1..]
  }

  lemma SplitIndex(bs: seq<Block>, k: nat, size: nat)
    requires k < |bs| && size + HDR <= bs[k].size
    ensures |SplitAt(bs, k, size)| == |bs| + 1
    ensures forall i: nat | i < k :: SplitAt(bs, k, size)[i] == bs[i]
    ensures SplitAt(bs, k, size)[k] == Block(bs[k].off, size, false)
    ensures SplitAt(bs, k, size)[k + 1] == Block(bs[k].off + HDR + size, bs[k].size - size - HDR, true)
    ensures forall i: nat | k + 1 < i <= |bs| :: SplitAt(bs, k, size)[i] == bs[i - 1]
  {
  }

  lemma SplitTiled(bs: seq<Block>, k: nat, size: nat, total: nat)
    requires Tiled(bs, total) && k < |bs| && size + HDR <= bs[k].size
    ensures Tiled(SplitAt(bs, k, size), total)
  {
    SplitIndex(bs, k, size);
    var bs' := SplitAt(bs, k, size);
    forall i: nat | i + 1 < |bs'|
      ensures Meets(bs', i)
    {
      if i < k {
        assert Meets(bs, i);
      } else if k < i {
        assert Meets(bs, i - 1);
      }
    }
  }

  lemma SplitHeaderBefore(m: seq<u8>, m': seq<u8>, base: nat, bs: seq<Block>, k: nat, size: nat, i: nat)
    requires Layout(m, base, bs) && i < k < |bs| && size + HDR <= bs[k].size
    requires SameOutside(m, m', bs[k].off, End(bs[k]))
    ensures |SplitAt(bs, k, size)| == |bs| + 1 && HeaderGood(m', base, SplitAt(bs, k, size), i)
  {
    SplitIndex(bs, k, size);
    assert HeaderGood(m, base, bs, i);
    OtherBlock(m, m', base, bs, k, i);
    assert NextOf(SplitAt(bs, k, size), base, i) == NextOf(bs, base, i);
  }

  lemma SplitHeaderAfter(m: seq<u8>, m': seq<u8>, base: nat, bs: seq<Block>, k: nat, size: nat, i: nat)
    requires Layout(m, base, bs) && k < i < |bs| && size + HDR <= bs[k].size
    requires SameOutside(m, m', bs[k].off, End(bs[k]))
    ensures |SplitAt(bs, k, size)| == |bs| + 1 && HeaderGood(m', base, SplitAt(bs, k, size), i + 1)
  {
    SplitIndex(bs, k, size);
    assert HeaderGood(m, base, bs, i);
    OtherBlock(m, m', base, bs, k, i);
    assert NextOf(SplitAt(bs, k, size), base, i + 1) == NextOf(bs, base, i);
  }

  lemma SplitWritten(m: seq<u8>, m': seq<u8>, base: nat, bs: seq<Block>, k: nat, size: nat)
    requires Layout(m, base, bs) && k < |bs| && size + HDR <= bs[k].size
    requires End(bs[k]) <= |m| && SameOutside(m, m', bs[k].off, End(bs[k]))
    requires HeaderAt(m', bs[k].off) == Header(size, false, base + bs[k].off + HDR + size)
    requires HeaderAt(m', bs[k].off + HDR + size) == Header(bs[k].size - size - HDR, true, NextOf(bs, base, k))
    ensures Layout(m', base, SplitAt(bs, k, size))
  {
    SplitTiled(bs, k, size, |m|);
    SplitIndex(bs, k, size);
    forall i: nat | i < |SplitAt(bs, k, size)|
      ensures HeaderGood(m', base, SplitAt(bs, k, size), i)
    {
      if i < k {
        SplitHeaderBefore(m, m', base, bs, k, size, i);
      } else if i > k + 1 {
        SplitHeaderAfter(m, m', base, bs, k, size, i - 1);
      } else if i == k + 1 {
        assert NextOf(SplitAt(bs, k, size), base, i) == NextOf(bs, base, k);
      }
    }
  }

  lemma SplitTaken(m: seq<u8>, m': seq<u8>, base: nat, bs: seq<Block>, k: nat, size: nat)
    requires Layout(m, base, bs) && k < |bs| && bs[k].free && size + HDR <= bs[k].size
    requires SameOutside(m, m', bs[k].off, End(bs[k]))
    ensures Live(m', base, SplitAt(bs, k, size)) ==
            Live(m, base, bs) + {Allocation(m', base, Block(bs[k].off, size, false))}
  {
    var bs' := SplitAt(bs, k, size);
    SplitIndex(bs, k, size);
    forall i: nat | i < |bs| && i != k
      ensures Allocation(m', base, bs[i]) == Allocation(m, base, bs[i])
    {
      OtherBlock(m, m', base, bs, k, i);
    }
    forall x | x in Live(m', base, bs')
      ensures x in Live(m, base, bs) + {Allocation(m', base, bs'[k])}
    {
      var i: nat :| i < |bs'| && !bs'[i].free && x == Allocation(m', base, bs'[i]);
      var j := if i <= k then i else i - 1;
      assert i != k ==> bs'[i] == bs[j] && j != k;
    }
    forall x | x in Live(m, base, bs)
      ensures x in Live(m', base, bs')
    {
      var i: nat :| i < |bs| && !bs[i].free && x == Allocation(m, base, bs[i]);
      assert bs'[if i < k then i else i + 1] == bs[i];
    }
    assert !bs'[k].free;
  }

  lemma SplitKeepsNeighbours(bs: seq<Block>, k: nat, size: nat)
    requires NoFreeNeighbours(bs) && k < |bs| && bs[k].free && size + HDR <= bs[k].size
    ensures NoFreeNeighbours(SplitAt(bs, k, size))
  {
    SplitIndex(bs, k, size);
    var bs' := SplitAt(bs, k, size);
    forall i: nat | i + 1 < |bs'|
      ensures !BothFree(bs', i)
    {
      if i + 1 < k {
        assert !BothFree(bs, i);
      } else if k < i {
        assert !BothFree(bs, i - 1);
      }
    }
  }

  /** A split in one statement: layout kept, one allocation of exactly `size` bytes added. */
  lemma SplitDone(m: seq<u8>, m': seq<u8>, base: nat, bs: seq<Block>, k: nat, size: nat)
    requires Layout(m, base, bs) && k < |bs| && bs[k].free && size + HDR <= bs[k].size
    requires End(bs[k]) <= |m| && SameOutside(m, m', bs[k].off, End(bs[k]))
    requires HeaderAt(m', bs[k].off) == Header(size, false, base + bs[k].off + HDR + size)
    requires HeaderAt(m', bs[k].off + HDR + size) == Header(bs[k].size - size - HDR, true, NextOf(bs, base, k))
    ensures Layout(m', base, SplitAt(bs, k, size))
    ensures Live(m', base, SplitAt(bs, k, size)) ==
            Live(m, base, bs) + {(Addr(base, bs[k].off), Payload(m', bs[k].off, size))}
    ensures NoFreeNeighbours(bs) ==> NoFreeNeighbours(SplitAt(bs, k, size))
  {
    SplitWritten(m, m', base, bs, k, size);
    SplitTaken(m, m', base, bs, k, size);
    if NoFreeNeighbours(bs) {
      SplitKeepsNeighbours(bs, k, size);
    }
  }

  // ---------------------------------------------------------------- merging

  function MergeAt(bs: seq<Block>, k: nat): seq<Block>
    requires k + 1 < |bs|
  {
    bs[..k] + [Block(bs[k].off, bs[k].size + HDR + bs[k + 1].size, bs[k].free)] + bs[k + 2..]
  }

  lemma MergeTiled(bs: seq<Block>, k: nat, total: nat)
    requires Tiled(bs, total) && k + 1 < |bs|
    ensures Tiled(MergeAt(bs, k), total)
    ensures |MergeAt(bs, k)| == |bs| - 1
    ensures forall i: nat | i < k :: MergeAt(bs, k)[i] == bs[i]
    ensures forall i: nat | k < i < |bs| - 1 :: MergeAt(bs, k)[i] == bs[i + 1]
  {
    var bs' := MergeAt(bs, k);
    assert Meets(bs, k);
    forall i: nat | i + 1 < |bs'|
      ensures Meets(bs', i)
    {
      if i < k {
        assert Meets(bs, i);
      } else {
        assert Meets(bs, i + 1);
      }
    }
  }

  lemma MergeWritten(m: seq<u8>, m': seq<u8>, base: nat, bs: seq<Block>, k: nat)
    requires Layout(m, base, bs) && k + 1 < |bs| && bs[k].off + HDR <= |m|
    requires SameOutside(m, m', bs[k].off, End(bs[k]))
    requires HeaderAt(m', bs[k].off) ==
             Header(bs[k].size + HDR + bs[k + 1].size, bs[k].free, NextOf(bs, base, k + 1))
    ensures Layout(m', base, MergeAt(bs, k))
  {
    var bs' := MergeAt(bs, k);
    MergeTiled(bs, k, |m|);
    forall i: nat | i < |bs'|
      ensures HeaderGood(m', base, bs', i)
    {
      if i < k {
        assert HeaderGood(m, base, bs, i);
        OtherBlock(m, m', base, bs, k, i);
      } else if i > k {
        assert HeaderGood(m, base, bs, i + 1);
        OtherBlock(m, m', base, bs, k, i + 1);
      } else {
        assert HeaderGood(m, base, bs, k + 1) && Meets(bs, k);
      }
    }
  }

  lemma MergeKeepsLive(m: seq<u8>, m': seq<u8>, base: nat, bs: seq<Block>, k: nat)
    requires Layout(m, base, bs) && k + 1 < |bs| && bs[k].free && bs[k + 1].free
    requires SameOutside(m, m', bs[k].off, End(bs[k]))
    ensures Live(m', base, MergeAt(bs, k)) == Live(m, base, bs)
  {
    forall i: nat | i < |bs| && i != k
      ensures Allocation(m', base, bs[i]) == Allocation(m, base, bs[i])
    {
      OtherBlock(m, m', base, bs, k, i);
    }
    MergeLive(m, m', base, bs, k);
  }

  lemma MergeLive(m: seq<u8>, m': seq<u8>, base: nat, bs: seq<Block>, k: nat)
    requires k + 1 < |bs| && bs[k].free && bs[k + 1].free
    requires forall i: nat | i < |bs| && i != k :: Allocation(m', base, bs[i]) == Allocation(m, base, bs[i])
    ensures Live(m', base, MergeAt(bs, k)) == Live(m, base, bs)
  {
    var bs' := MergeAt(bs, k);
    forall x | x in Live(m', base, bs')
      ensures x in Live(m, base, bs)
    {
      var i: nat :| i < |bs'| && !bs'[i].free && x == Allocation(m', base, bs'[i]);
      var j := if i < k then i else i + 1;
      assert i != k && bs'[i] == bs[j] && j != k;
    }
    forall x | x in Live(m, base, bs)
      ensures x in Live(m', base, bs')
    {
      var i: nat :| i < |bs| && !bs[i].free && x == Allocation(m, base, bs[i]);
      var j := if i < k then i else i - 1;
      assert i != k && i != k + 1 && bs'[j] == bs[i];
    }
  }

  /** With nothing allocated, no free neighbours means one block spanning the heap. */
  lemma AllFreeIsOneBlock(bs: seq<Block>, total: nat)
    requires Tiled(bs, total) && NoFreeNeighbours(bs) && forall i | 0 <= i < |bs| :: bs[i].free
    ensures total >= HDR && bs == [Block(0, total - HDR, true)]
  {
    if |bs| > 1 {
      assert BothFree(bs, 0);
    }
  }
}
