/** The builder's volume seen by the validator: what the one wrote is what the other reads. */
module Fat32RoundTrip {
  import opened MachineInts
  import opened Bytes
  import opened Fat32Format
  import opened Fat32Builder
  import opened Fat32Validator

  /** The disk holds the finished volume `esp` of `total` sectors from sector `lba` on. */
  predicate OnDisk(disk: seq<u8>, lba: nat, total: nat, esp: seq<u8>) {
    && |esp| == total * SECTOR && lba * SECTOR + |esp| <= |disk|
    && Sub(disk, lba * SECTOR, |esp|) == esp
  }

  function BuiltVolume(disk: seq<u8>, lba: nat, total: nat): Volume {
    Volume(disk, lba * SECTOR, lba * SECTOR + total * SECTOR, 1, RESERVED, 2, FatSize(total), total, 2)
  }

  /** A volume as the builder leaves it. */
  predicate Finished(esp: seq<u8>, lba: u32, total: nat, fat: seq<u32>, es: seq<Extent>) {
    && Roomy(total) && |fat| == FatLength(total) && |esp| == total * SECTOR
    && BootOk(esp, lba, total, FatSize(total)) && FatStored(esp, fat)
    && Holds(esp, fat, DataStart(total), es)
  }

  lemma DiskByte(disk: seq<u8>, lba: nat, total: nat, esp: seq<u8>, i: nat)
    requires OnDisk(disk, lba, total, esp) && i < |esp|
    ensures disk[lba * SECTOR + i] == esp[i]
  {
    assert Sub(disk, lba * SECTOR, |esp|)[i] == esp[i];
  }

  lemma DiskStretch(disk: seq<u8>, lba: nat, total: nat, esp: seq<u8>, off: nat, n: nat)
    requires OnDisk(disk, lba, total, esp) && off + n <= |esp|
    ensures Sub(disk, lba * SECTOR + off, n) == Sub(esp, off, n)
  {
    var a, b := Sub(disk, lba * SECTOR + off, n), Sub(esp, off, n);
    forall i | 0 <= i < n
      ensures a[i] == b[i]
    {
      DiskByte(disk, lba, total, esp, off + i);
    }
  }

  /** The boot sector passes every check of the validator. */
  lemma Opens(disk: seq<u8>, lba: u32, total: nat, esp: seq<u8>, fat: seq<u32>, es: seq<Extent>)
    requires OnDisk(disk, lba, total, esp) && Finished(esp, lba, total, fat, es)
    ensures Open(disk, lba, total) == Some(BuiltVolume(disk, lba, total))
  {
    DiskStretch(disk, lba, total, esp, 0, SECTOR);
    var boot := Sub(disk, lba * SECTOR, SECTOR);
    assert boot == Sub(esp, 0, SECTOR);
    BootPrefix(esp, boot, lba, total, FatSize(total));
  }

  lemma BootPrefix(esp: seq<u8>, boot: seq<u8>, lba: u32, total: nat, fatSectors: nat)
    requires BootOk(esp, lba, total, fatSectors) && boot == Sub(esp, 0, SECTOR)
    ensures BootOk(boot, lba, total, fatSectors)
  {
    assert forall i | 0 <= i < SECTOR :: boot[i] == esp[i];
    assert Sub(boot, 82, 8) == Sub(esp, 82, 8);
  }

  /** Each FAT entry reads back. */
  lemma FatReads(disk: seq<u8>, lba: u32, total: nat, esp: seq<u8>, fat: seq<u32>, es: seq<Extent>, c: nat)
    requires OnDisk(disk, lba, total, esp) && Finished(esp, lba, total, fat, es) && c < |fat|
    ensures fat[c] < 0x1000_0000 ==> BuiltVolume(disk, lba, total).FatValue(c) == Some(fat[c])
  {
    var off := RESERVED * SECTOR + 4 * c;
    DiskStretch(disk, lba, total, esp, off, 4);
    U32Moved(disk, lba * SECTOR + off, esp, off);
    assert U32At(esp, off) == fat[c];
  }

  /** Cluster `c` of a run leads to the next one, or ends the chain. */
  predicate RunEntry(v: Volume, first: nat, count: nat, c: nat)
    requires v.Valid()
  {
    2 <= c < FIRST_RESERVED && v.FatValue(c) == Some(if c == first + count - 1 then END_OF_CHAIN else c + 1)
  }

  lemma ConsecutiveIsChain(v: Volume, first: nat, count: nat)
    requires v.Valid() && 1 <= count
    requires forall c | first <= c < first + count :: RunEntry(v, first, count, c)
    ensures IsChain(v, first, Range(first, count))
  {
    var ch := Range(first, count);
    forall i | 0 <= i < |ch|
      ensures InChain(v, ch[i])
    {
      assert RunEntry(v, first, count, ch[i]);
    }
    forall i: nat | i < |ch| - 1
      ensures Link(v, ch, i)
    {
      assert RunEntry(v, first, count, ch[i]);
    }
    assert RunEntry(v, first, count, ch[|ch| - 1]);
  }

  lemma RunFollows(disk: seq<u8>, lba: u32, total: nat, esp: seq<u8>, fat: seq<u32>, es: seq<Extent>, e: Extent, c: nat)
    requires OnDisk(disk, lba, total, esp) && Finished(esp, lba, total, fat, es)
    requires Chained(fat, e) && e.first <= c < e.first + e.count
    ensures RunEntry(BuiltVolume(disk, lba, total), e.first, e.count, c)
  {
    FatReads(disk, lba, total, esp, fat, es, c);
  }

  /** The chain the validator walks from a run's first cluster is the run. */
  lemma RunIsChain(disk: seq<u8>, lba: u32, total: nat, esp: seq<u8>, fat: seq<u32>, es: seq<Extent>, e: Extent)
    requires OnDisk(disk, lba, total, esp) && Finished(esp, lba, total, fat, es)
    requires Chained(fat, e) && e.count <= MAX_CHAIN
    ensures TheChain(BuiltVolume(disk, lba, total), e.first) == Some(Range(e.first, e.count))
  {
    var v := BuiltVolume(disk, lba, total);
    forall c | e.first <= c < e.first + e.count
      ensures RunEntry(v, e.first, e.count, c)
    {
      RunFollows(disk, lba, total, esp, fat, es, e, c);
    }
    ConsecutiveIsChain(v, e.first, e.count);
    TheChainIs(v, e.first, Range(e.first, e.count));
  }

  lemma {:induction false} RunPayload(disk: seq<u8>, lba: u32, total: nat, esp: seq<u8>, fat: seq<u32>, e: Extent,
    k: nat)
    requires OnDisk(disk, lba, total, esp) && Roomy(total) && |fat| == FatLength(total)
    requires Chained(fat, e) && k <= e.count
    ensures ClusterOff(DataStart(total), e.first) + SECTOR * k <= |esp|
    ensures Payload(BuiltVolume(disk, lba, total), Range(e.first, e.count), k)
      == Some(Sub(esp, ClusterOff(DataStart(total), e.first), SECTOR * k))
  {
    var at := ClusterOff(DataStart(total), e.first);
    if k > 0 {
      RunPayload(disk, lba, total, esp, fat, e, k - 1);
      DiskStretch(disk, lba, total, esp, at + SECTOR * (k - 1), SECTOR);
      var v := BuiltVolume(disk, lba, total);
      assert v.ClusterData(e.first + (k - 1)) == Some(Sub(esp, at + SECTOR * (k - 1), SECTOR));
      assert Sub(esp, at, SECTOR * k) == Sub(esp, at, SECTOR * (k - 1)) + Sub(esp, at + SECTOR * (k - 1), SECTOR);
    } else {
      assert Sub(esp, at, 0) == [];
    }
  }

  /** A run's bytes read back: all of its clusters, or the recorded size. */
  lemma RunReads(disk: seq<u8>, lba: u32, total: nat, esp: seq<u8>, fat: seq<u32>, es: seq<Extent>, k: nat)
    requires OnDisk(disk, lba, total, esp) && Finished(esp, lba, total, fat, es)
    requires k < |es| && es[k].count <= MAX_CHAIN
    ensures var v, e := BuiltVolume(disk, lba, total), es[k];
      && ChainBytes(v, e.first, Some(|e.data|)) == Some(e.data)
      && ChainBytes(v, e.first, None).Some? && e.data <= ChainBytes(v, e.first, None).value
  {
    var e := es[k];
    assert Chained(fat, e) && Placed(esp, DataStart(total), e);
    RunIsChain(disk, lba, total, esp, fat, es, e);
    RunPayload(disk, lba, total, esp, fat, e, e.count);
    var at := ClusterOff(DataStart(total), e.first);
    assert Sub(esp, at, SECTOR * e.count)[..|e.data|] == Sub(esp, at, |e.data|);
  }

  lemma DirBytesRead(data: seq<u8>, items: seq<Item>)
    requires DirBytes(items) <= data && forall i | 0 <= i < |items| :: Readable(items[i])
    ensures ReadDirectory(data) == Some(Listing(items, |items|))
  {
    var d := DirBytes(items);
    assert Sub(data, 0, 32 * |items|) == Sub(d, 0, 32 * |items|) == Joined(items);
    assert data[32 * |items|] == d[32 * |items|] == 0;
    DirectoryRoundTrip(data, items);
  }

  /** A directory's run reads back as the listing of what was written there. */
  lemma DirectoryReads(disk: seq<u8>, lba: u32, total: nat, esp: seq<u8>, fat: seq<u32>, es: seq<Extent>, k: nat,
    items: seq<Item>)
    requires OnDisk(disk, lba, total, esp) && Finished(esp, lba, total, fat, es)
    requires k < |es| && es[k].count == 1 && es[k].data == DirBytes(items)
    requires forall i | 0 <= i < |items| :: Readable(items[i])
    ensures DirectoryAt(BuiltVolume(disk, lba, total), es[k].first) == Some(Listing(items, |items|))
  {
    RunReads(disk, lba, total, esp, fat, es, k);
    DirBytesRead(ChainBytes(BuiltVolume(disk, lba, total), es[k].first, None).value, items);
  }
}
