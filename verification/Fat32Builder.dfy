/** The FAT32 image writer of tools/image/build-pr1-uefi-disk.py (class FAT32): one sector per cluster, two FATs,
    32 reserved sectors, clusters handed out in rising order. */
module Fat32Builder {
  import opened MachineInts
  import opened Bytes
  import opened Fat32Format

  const RESERVED: nat := 32

  /** Sectors of one FAT: __init__'s first guess, with which its loop stops at once (FatSizeConverges). */
  function FatSize(sectors: nat): nat {
    ((sectors + 2) * 4 + 511) / SECTOR
  }

  function DataStart(sectors: nat): nat {
    RESERVED + 2 * FatSize(sectors)
  }

  /** Volumes with at least one cluster, all of whose cluster numbers are below the reserved ones. */
  predicate Roomy(sectors: nat) {
    DataStart(sectors) < sectors < 0x0FFF_FFF0
  }

  function FatLength(sectors: nat): nat
    requires Roomy(sectors)
  {
    sectors - DataStart(sectors) + 2
  }

  /** The FAT the first guess allows for holds an entry for every cluster it leaves. */
  lemma FatSizeConverges(sectors: nat)
    requires Roomy(sectors)
    ensures (FatLength(sectors) * 4 + 511) / SECTOR <= FatSize(sectors)
    ensures FatLength(sectors) * 4 <= FatSize(sectors) * SECTOR
  {
  }

  /** cluster_off. */
  function ClusterOff(dataStart: nat, c: nat): nat
    requires c >= 2
  {
    (dataStart + (c - 2)) * SECTOR
  }

  function Range(first: nat, n: nat): (r: seq<nat>)
    ensures |r| == n && forall i | 0 <= i < n :: r[i] == first + i
  {
    seq(n, i requires 0 <= i < n => first + i)
  }

  /** A run of clusters handed out together, and the bytes written to it. */
  datatype Extent = Extent(first: nat, count: nat, data: seq<u8>)

  /** The FAT chains the run's clusters in order. */
  predicate Chained(fat: seq<u32>, e: Extent) {
    && 2 <= e.first && 1 <= e.count && e.first + e.count <= |fat|
    && (forall i | e.first <= i < e.first + e.count - 1 :: fat[i] == i + 1)
    && fat[e.first + e.count - 1] == END_OF_CHAIN
  }

  /** The image holds the run's bytes from its first cluster on. */
  predicate Placed(image: seq<u8>, dataStart: nat, e: Extent) {
    && 2 <= e.first && |e.data| <= SECTOR * e.count
    && ClusterOff(dataStart, e.first) + |e.data| <= |image|
    && Sub(image, ClusterOff(dataStart, e.first), |e.data|) == e.data
  }

  predicate Before(es: seq<Extent>, i: nat, j: nat)
    requires i < |es| && j < |es|
  {
    es[i].first + es[i].count <= es[j].first
  }

  /** Runs are handed out in rising order below `next`. */
  predicate Rising(es: seq<Extent>, next: nat) {
    && (forall i: nat, j: nat | i < j < |es| :: Before(es, i, j))
    && (forall i | 0 <= i < |es| :: es[i].first + es[i].count <= next)
  }

  predicate Holds(image: seq<u8>, fat: seq<u32>, dataStart: nat, es: seq<Extent>) {
    && (forall i | 0 <= i < |es| :: Chained(fat, es[i]))
    && (forall i | 0 <= i < |es| :: Placed(image, dataStart, es[i]))
  }

  /** Writing inside one run leaves the bytes of the others. */
  lemma PlacedElsewhere(image: seq<u8>, dataStart: nat, es: seq<Extent>, next: nat, k: nat, b: seq<u8>, i: nat)
    requires Rising(es, next) && i < |es| && k < |es| && i != k
    requires Placed(image, dataStart, es[i]) && Placed(image, dataStart, es[k])
    requires |b| <= SECTOR * es[k].count && ClusterOff(dataStart, es[k].first) + |b| <= |image|
    ensures Placed(Splice(image, ClusterOff(dataStart, es[k].first), b), dataStart, es[i])
  {
    assert if i < k then Before(es, i, k) else Before(es, k, i);
    var image' := Splice(image, ClusterOff(dataStart, es[k].first), b);
    assert Sub(image', ClusterOff(dataStart, es[i].first), |es[i].data|) ==
      Sub(image, ClusterOff(dataStart, es[i].first), |es[i].data|);
  }

  /** The part of `data` that `n` clusters take. */
  function Fitting(data: seq<u8>, n: nat): (d: seq<u8>)
    ensures |d| == Min(|data|, SECTOR * n)
  {
    data[..Min(|data|, SECTOR * n)]
  }

  lemma RunInImage(image: seq<u8>, fat: seq<u32>, dataStart: nat, total: nat, e: Extent)
    requires Roomy(total) && dataStart == DataStart(total) && |image| == total * SECTOR && |fat| == FatLength(total)
    requires Chained(fat, e)
    ensures ClusterOff(dataStart, e.first) + SECTOR * e.count <= |image|
  {
  }

  /** Writing the next chunk at the next cluster writes one cluster's worth more of `data`. */
  lemma SpliceOnward(image: seq<u8>, off: nat, data: seq<u8>, i: nat)
    requires off + SECTOR * (i + 1) <= |image|
    ensures var pos: nat := Min(|data|, SECTOR * i);
      Splice(Splice(image, off, Fitting(data, i)), off + SECTOR * i, data[pos..Min(pos + SECTOR, |data|)])
        == Splice(image, off, Fitting(data, i + 1))
  {
  }

  /** Writing `b` to run `k` changes what that run holds and nothing else. */
  lemma RunRewritten(image: seq<u8>, fat: seq<u32>, dataStart: nat, es: seq<Extent>, next: nat, k: nat, b: seq<u8>)
    requires Rising(es, next) && Holds(image, fat, dataStart, es) && k < |es|
    requires |b| <= SECTOR * es[k].count && ClusterOff(dataStart, es[k].first) + |b| <= |image|
    ensures var es' := es[k := es[k].(data := b)];
      Rising(es', next) && Holds(Splice(image, ClusterOff(dataStart, es[k].first), b), fat, dataStart, es')
  {
    var es' := es[k := es[k].(data := b)];
    var off := ClusterOff(dataStart, es[k].first);
    forall i: nat, j: nat | i < j < |es'|
      ensures Before(es', i, j)
    {
      assert Before(es, i, j);
    }
    forall i | 0 <= i < |es'|
      ensures Chained(fat, es'[i]) && Placed(Splice(image, off, b), dataStart, es'[i])
    {
      assert Chained(fat, es[i]);
      if i != k {
        PlacedElsewhere(image, dataStart, es, next, k, b, i);
      } else {
        assert Sub(Splice(image, off, b), off, |b|) == b;
      }
    }
  }

  /** Clusters a file takes; an empty one takes one. */
  function FileClusters(data: seq<u8>): nat {
    Max((|data| + (SECTOR - 1)) / SECTOR, 1)
  }

  function DirBytes(items: seq<Item>): (d: seq<u8>)
    ensures |d| == 32 * |items| + 32
  {
    Joined(items) + Zeros(32)
  }

  /** The boot-sector fields that describe the volume. */
  predicate BootGeometryOk(b: seq<u8>, hidden: u32, total: nat, fatSectors: nat)
    requires |b| >= SECTOR
  {
    && U16At(b, 11) == SECTOR && b[13] == 1 && U16At(b, 14) == RESERVED && b[16] == 2
    && U16At(b, 19) == 0 && U32At(b, 28) == hidden && U32At(b, 32) == total && U32At(b, 36) == fatSectors
    && U32At(b, 44) == 2
  }

  predicate BootOk(b: seq<u8>, hidden: u32, total: nat, fatSectors: nat) {
    && |b| >= SECTOR && BootGeometryOk(b, hidden, total, fatSectors)
    && Sub(b, 82, 8) == [0x46, 0x41, 0x54, 0x33, 0x32, 0x20, 0x20, 0x20]
    && b[510] == 0x55 && b[511] == 0xAA
  }

  predicate FatStored(image: seq<u8>, fat: seq<u32>) {
    && RESERVED * SECTOR + 4 * |fat| <= |image|
    && forall c | 0 <= c < |fat| :: U32At(image, RESERVED * SECTOR + 4 * c) == fat[c]
  }

  lemma BootKept(boot: seq<u8>, image: seq<u8>, hidden: u32, total: nat, fatSectors: nat)
    requires |boot| == SECTOR <= |image| && Sub(image, 0, SECTOR) == boot && BootOk(boot, hidden, total, fatSectors)
    ensures BootOk(image, hidden, total, fatSectors)
  {
    assert forall i | 0 <= i < SECTOR :: image[i] == Sub(image, 0, SECTOR)[i];
    assert Sub(image, 82, 8) == Sub(boot, 82, 8);
  }

  lemma FatKept(raw: seq<u8>, image: seq<u8>, fat: seq<u32>)
    requires 4 * |fat| <= |raw| && RESERVED * SECTOR + |raw| <= |image|
    requires Sub(image, RESERVED * SECTOR, |raw|) == raw
    requires forall c | 0 <= c < |fat| :: U32At(raw, 4 * c) == fat[c]
    ensures FatStored(image, fat)
  {
    forall c | 0 <= c < |fat|
      ensures U32At(image, RESERVED * SECTOR + 4 * c) == fat[c]
    {
      var at := RESERVED * SECTOR;
      assert Sub(image, at + 4 * c, 4) == Sub(Sub(image, at, |raw|), 4 * c, 4);
      U32Moved(image, at + 4 * c, raw, 4 * c);
    }
  }

  lemma HoldsKept(image: seq<u8>, image': seq<u8>, fat: seq<u32>, dataStart: nat, es: seq<Extent>)
    requires Holds(image, fat, dataStart, es) && |image'| == |image|
    requires forall i | dataStart * SECTOR <= i < |image| :: image'[i] == image[i]
    ensures Holds(image', fat, dataStart, es)
  {
    forall i | 0 <= i < |es|
      ensures Placed(image', dataStart, es[i])
    {
      var e := es[i];
      assert Placed(image, dataStart, e);
      assert Sub(image', ClusterOff(dataStart, e.first), |e.data|) ==
        Sub(image, ClusterOff(dataStart, e.first), |e.data|);
    }
  }

  /** m[off:off+len(bytes)] = bytes. */
  method Put(m: seq<u8>, off: nat, bytes: seq<u8>) returns (r: seq<u8>)
    requires off + |bytes| <= |m|
    ensures |r| == |m| && Sub(r, off, |bytes|) == bytes
    ensures forall i {:trigger r[i]} | 0 <= i < |m| && !(off <= i < off + |bytes|) :: r[i] == m[i]
  {
    r := Splice(m, off, bytes);
  }

  /** pack_into('<H', m, off, n). */
  method Put16(m: seq<u8>, off: nat, n: u16) returns (r: seq<u8>)
    requires off + 2 <= |m|
    ensures |r| == |m| && U16At(r, off) == n
    ensures forall i {:trigger r[i]} | 0 <= i < |m| && !(off <= i < off + 2) :: r[i] == m[i]
  {
    var p := Pack16(n);
    r := m[off := p[0]][off + 1 := p[1]];
  }

  /** pack_into('<I', m, off, n). */
  method Put32(m: seq<u8>, off: nat, n: u32) returns (r: seq<u8>)
    requires off + 4 <= |m|
    ensures |r| == |m| && U32At(r, off) == n
    ensures forall i {:trigger r[i]} | 0 <= i < |m| && !(off <= i < off + 4) :: r[i] == m[i]
  {
    var p := Pack32(n);
    r := Splice(m, off, p);
    assert Sub(r, off, 4) == Sub(p, 0, 4);
    U32Moved(r, off, p, 0);
  }

  /** The fields up to the FAT count. */
  predicate HeadOk(b: seq<u8>)
    requires |b| >= SECTOR
  {
    U16At(b, 11) == SECTOR && b[13] == 1 && U16At(b, 14) == RESERVED && b[16] == 2
  }

  method BootHead(b: seq<u8>) returns (r: seq<u8>)
    requires |b| == SECTOR
    ensures |r| == SECTOR && HeadOk(r)
  {
    r := Put(b, 0, [0xEB, 0x58, 0x90]);
    r := Put(r, 3, [0x41, 0x45, 0x47, 0x49, 0x53, 0x4F, 0x53, 0x20]);
    r := Put16(r, 11, SECTOR);
    r := r[13 := 1];
    r := Put16(r, 14, RESERVED);
    r := r[16 := 2];
  }

  method BootMedia(b: seq<u8>) returns (r: seq<u8>)
    requires |b| == SECTOR && HeadOk(b)
    ensures |r| == SECTOR && HeadOk(r) && U16At(r, 19) == 0
  {
    r := Put16(b, 17, 0);
    r := Put16(r, 19, 0);
    r := r[21 := 0xF8];
    r := Put16(r, 22, 0);
    r := Put16(r, 24, 63);
    r := Put16(r, 26, 255);
  }

  method BootSizes(b: seq<u8>, total: u32, fatSectors: u32, hidden: u32) returns (r: seq<u8>)
    requires |b| == SECTOR && HeadOk(b) && U16At(b, 19) == 0
    ensures |r| == SECTOR && BootGeometryOk(r, hidden, total, fatSectors)
  {
    r := Put32(b, 28, hidden);
    r := Put32(r, 32, total);
    r := Put32(r, 36, fatSectors);
    r := Put16(r, 40, 0);
    r := Put16(r, 42, 0);
    r := Put32(r, 44, 2);
  }

  method BootLabels(b: seq<u8>, volumeId: u32) returns (r: seq<u8>)
    requires |b| == SECTOR
    ensures |r| == SECTOR && forall i | 0 <= i < 48 :: r[i] == b[i]
    ensures Sub(r, 82, 8) == [0x46, 0x41, 0x54, 0x33, 0x32, 0x20, 0x20, 0x20] && r[510] == 0x55 && r[511] == 0xAA
  {
    r := Put16(b, 48, 1);
    r := Put16(r, 50, 6);
    r := r[64 := 0x80][66 := 0x29];
    r := Put32(r, 67, volumeId);
    r := Put(r, 71, [0x41, 0x45, 0x47, 0x49, 0x53, 0x4F, 0x53, 0x20, 0x45, 0x53, 0x50]);
    var s := Put(r, 82, [0x46, 0x41, 0x54, 0x33, 0x32, 0x20, 0x20, 0x20]);
    r := s[510 := 0x55][511 := 0xAA];
    assert Sub(r, 82, 8) == Sub(s, 82, 8);
  }

  lemma GeometryKept(b: seq<u8>, r: seq<u8>, hidden: u32, total: nat, fatSectors: nat)
    requires |b| >= SECTOR && |r| >= SECTOR && forall i | 0 <= i < 48 :: r[i] == b[i]
    requires BootGeometryOk(b, hidden, total, fatSectors)
    ensures BootGeometryOk(r, hidden, total, fatSectors)
  {
  }

  /** The whole boot sector. */
  method BootSector(b: seq<u8>, total: u32, fatSectors: u32, hidden: u32, volumeId: u32) returns (r: seq<u8>)
    requires |b| == SECTOR
    ensures |r| == SECTOR && BootOk(r, hidden, total, fatSectors)
  {
    var head := BootHead(b);
    head := BootMedia(head);
    head := BootSizes(head, total, fatSectors, hidden);
    r := BootLabels(head, volumeId);
    GeometryKept(head, r, hidden, total, fatSectors);
  }

  /** The FSInfo sector. */
  method FsInfo(b: seq<u8>, free: u32, next: u32) returns (r: seq<u8>)
    requires |b| == SECTOR
    ensures |r| == SECTOR && U32At(r, 488) == free && U32At(r, 492) == next
  {
    r := Put32(b, 0, 0x4161_5252);
    r := Put32(r, 484, 0x6141_7272);
    r := Put32(r, 488, free);
    r := Put32(r, 492, next);
    r := Put32(r, 508, 0xAA55_0000);
  }

  /** The reserved sectors and both FATs go in front of the data area. */
  method WriteFront(image: seq<u8>, boot: seq<u8>, info: seq<u8>, raw: seq<u8>) returns (r: seq<u8>)
    requires |boot| == |info| == SECTOR && RESERVED * SECTOR + 2 * |raw| <= |image|
    ensures |r| == |image| && Sub(r, 0, SECTOR) == boot && Sub(r, RESERVED * SECTOR, |raw|) == raw
    ensures forall i | RESERVED * SECTOR + 2 * |raw| <= i < |image| :: r[i] == image[i]
  {
    r := Splice(image, 0, boot);
    r := Splice(r, SECTOR, info);
    r := Splice(r, 6 * SECTOR, boot);
    r := Splice(r, 7 * SECTOR, info);
    r := Splice(r, RESERVED * SECTOR, raw);
    r := Splice(r, RESERVED * SECTOR + |raw|, raw);
  }

  /** The FAT as bytes: four per entry. */
  method RawFat(fat: seq<u32>, fatSectors: nat) returns (raw: seq<u8>)
    requires 4 * |fat| <= fatSectors * SECTOR
    ensures |raw| == fatSectors * SECTOR
    ensures forall c | 0 <= c < |fat| :: U32At(raw, 4 * c) == fat[c]
  {
    raw := Zeros(fatSectors * SECTOR);
    for i := 0 to |fat|
      invariant |raw| == fatSectors * SECTOR
      invariant forall c | 0 <= c < i :: U32At(raw, 4 * c) == fat[c]
    {
      raw := Put32(raw, 4 * i, fat[i]);
    }
  }

  class Fat32Image {
    const total: nat
    const fatSectors: nat
    const dataStart: nat
    var image: seq<u8>
    var fat: seq<u32>
    var nextCluster: nat
    ghost var extents: seq<Extent>

    ghost predicate Valid()
      reads this
    {
      && Roomy(total) && fatSectors == FatSize(total) && dataStart == DataStart(total)
      && |image| == total * SECTOR && |fat| == FatLength(total)
      && 2 <= nextCluster < |fat|
      && Rising(extents, nextCluster) && Holds(image, fat, dataStart, extents)
    }

    constructor (sectors: nat)
      requires Roomy(sectors)
      ensures Valid() && extents == [] && total == sectors && nextCluster == 2
    {
      total, fatSectors, dataStart := sectors, FatSize(sectors), DataStart(sectors);
      image := Zeros(sectors * SECTOR);
      fat := seq(FatLength(sectors), i => if i == 0 then 0x0FFF_FFF8 else if i == 1 then 0x0FFF_FFFF else 0);
      nextCluster, extents := 2, [];
    }

    /** alloc: a fresh run of clusters, or nothing when the volume is full. */
    method Alloc(count: nat) returns (r: Option<seq<nat>>)
      requires Valid()
      modifies this
      ensures r.None? <==> old(nextCluster) + Max(count, 1) >= |old(fat)|
      ensures r.Some? ==>
        && Valid() && image == old(image)
        && nextCluster == old(nextCluster) + Max(count, 1)
        && r.value == Range(old(nextCluster), Max(count, 1))
        && extents == old(extents) + [Extent(old(nextCluster), Max(count, 1), [])]
    {
      var n := if count < 1 then 1 else count;
      var first := nextCluster;
      nextCluster := nextCluster + n;
      if nextCluster >= |fat| {
        return None;
      }
      var out := Range(first, n);
      for i := 0 to n - 1
        modifies this`fat
        invariant |fat| == |old(fat)|
        invariant forall c | 0 <= c < |fat| :: fat[c] == if first <= c < first + i then c + 1 else old(fat)[c]
      {
        fat := fat[out[i] := out[i + 1]];
      }
      fat := fat[out[n - 1] := END_OF_CHAIN];
      extents := extents + [Extent(first, n, [])];
      assert Chained(fat, extents[|extents| - 1]);
      assert Placed(image, dataStart, extents[|extents| - 1]);
      forall i: nat, j: nat | i < j < |extents|
        ensures Before(extents, i, j)
      {
        assert j < |extents| - 1 ==> Before(old(extents), i, j);
      }
      forall i | 0 <= i < |extents| - 1
        ensures Chained(fat, extents[i])
      {
        assert Chained(old(fat), old(extents)[i]);
      }
      r := Some(out);
    }

    /** write_chain: the bytes of `data` that fit go to the run's clusters, and to nothing else. */
    method WriteChain(clusters: seq<nat>, data: seq<u8>, ghost k: nat)
      requires Valid() && k < |extents| && clusters == Range(extents[k].first, extents[k].count)
      modifies this`image, this`extents
      ensures Valid()
      ensures extents == old(extents)[k := old(extents)[k].(data := Fitting(data, |clusters|))]
    {
      var pos := 0;
      ghost var first := extents[k].first;
      RunInImage(image, fat, dataStart, total, extents[k]);
      for i := 0 to |clusters|
        modifies this`image
        invariant |image| == total * SECTOR && pos == Min(|data|, SECTOR * i)
        invariant image == Splice(old(image), ClusterOff(dataStart, first), Fitting(data, i))
      {
        var off := ClusterOff(dataStart, clusters[i]);
        var chunk := data[pos..Min(pos + SECTOR, |data|)];
        SpliceOnward(old(image), ClusterOff(dataStart, first), data, i);
        image := Splice(image, off, chunk);
        pos := pos + |chunk|;
      }
      RunRewritten(old(image), fat, dataStart, extents, nextCluster, k, Fitting(data, |clusters|));
      extents := extents[k := extents[k].(data := Fitting(data, |clusters|))];
    }

    /** add_file: a new run holding exactly `data`; None when the volume is full. */
    method AddFile(data: seq<u8>) returns (r: Option<nat>)
      requires Valid()
      modifies this
      ensures r.None? <==> old(nextCluster) + FileClusters(data) >= |old(fat)|
      ensures r.Some? ==>
        && Valid() && r.value == old(nextCluster) && nextCluster == old(nextCluster) + FileClusters(data)
        && extents == old(extents) + [Extent(r.value, FileClusters(data), data)]
    {
      var chain := Alloc((|data| + (SECTOR - 1)) / SECTOR);
      if chain.None? {
        return None;
      }
      assert Fitting(data, FileClusters(data)) == data;
      WriteChain(chain.value, data, |extents| - 1);
      r := Some(chain.value[0]);
    }

    /** write_dir: the entries and a zero entry go to the directory's one cluster. */
    method WriteDir(cluster: nat, items: seq<Item>, ghost k: nat)
      requires Valid() && k < |extents| && extents[k].first == cluster && extents[k].count == 1
      requires |items| < SECTOR / 32
      modifies this`image, this`extents
      ensures Valid()
      ensures extents == old(extents)[k := Extent(cluster, 1, DirBytes(items))]
    {
      assert Fitting(DirBytes(items), 1) == DirBytes(items);
      assert [cluster] == Range(cluster, 1);
      WriteChain([cluster], DirBytes(items), k);
    }

    /** finish: boot sector, FSInfo, their copies and both FATs; the data area keeps every run. */
    method Finish(volumeId: u32, hidden: u32) returns (esp: seq<u8>)
      requires Valid()
      modifies this`image
      ensures Valid() && esp == image && unchanged(`extents)
      ensures BootOk(esp, hidden, total, fatSectors) && FatStored(esp, fat)
    {
      var boot := BootSector(Sub(image, 0, SECTOR), total, fatSectors, hidden, volumeId);
      var info := FsInfo(Sub(image, SECTOR, SECTOR), |fat| - nextCluster, nextCluster);
      var raw := RawFat(fat, fatSectors);
      image := WriteFront(image, boot, info, raw);
      BootKept(boot, image, hidden, total, fatSectors);
      FatKept(raw, image, fat);
      HoldsKept(old(image), image, fat, dataStart, extents);
      esp := image;
    }
  }
}
