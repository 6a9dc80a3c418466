/** The FAT32 reader of tools/image/validate-pr1-uefi-disk.py (class Fat32).  `fail` ends the program, so every
    operation here gives None where the source fails. */
module Fat32Validator {
  import opened MachineInts
  import opened Bytes
  import opened Arith
  import opened Fat32Format

  const MAX_CHAIN: nat := 1_000_000
  const FIRST_RESERVED: nat := 0x0FFF_FFF0
  const FIRST_END: nat := 0x0FFF_FFF8

  /** The fields __init__ keeps. */
  datatype Volume = Volume(image: seq<u8>, base: nat, limit: nat, clusterSectors: nat, reserved: nat,
                           fatCount: nat, fatSectors: nat, totalSectors: nat, root: nat)
  {
    predicate Valid() {
      limit <= |image|
    }

    function DataSector(): nat {
      reserved + fatCount * fatSectors
    }

    function ClusterBytes(): nat {
      clusterSectors * SECTOR
    }

    /** fat_value. */
    function FatValue(cluster: nat): (v: Option<nat>)
      requires Valid()
      ensures v.Some? ==> v.value < 0x1000_0000
    {
      var off: nat := base + reserved * SECTOR + cluster * 4;
      if off + 4 > limit then None else Some(U32At(image, off) % 0x1000_0000)
    }

    /** cluster_offset. */
    function ClusterOffset(cluster: nat): (off: Option<nat>)
      ensures off.Some? ==> off.value + ClusterBytes() <= limit
    {
      if cluster < 2 then None
      else
        var off: nat := base + (DataSector() + (cluster - 2) * clusterSectors) * SECTOR;
        if off + ClusterBytes() > limit then None else Some(off)
    }

    function ClusterData(cluster: nat): (r: Option<seq<u8>>)
      requires Valid()
    {
      var off := ClusterOffset(cluster);
      if off.None? then None else Some(Sub(image, off.value, ClusterBytes()))
    }
  }

  /** __init__: the boot-sector checks. */
  function Open(image: seq<u8>, lba: nat, sectors: nat): (v: Option<Volume>)
    ensures v.Some? ==> v.value.Valid()
  {
    var base, limit := lba * SECTOR, lba * SECTOR + sectors * SECTOR;
    if limit > |image| || base + SECTOR > |image| then None
    else
      var boot := Sub(image, base, SECTOR);
      var total: nat := if U16At(boot, 19) != 0 then U16At(boot, 19) else U32At(boot, 32);
      var v := Volume(image, base, limit, boot[13], U16At(boot, 14), boot[16], U32At(boot, 36), total, U32At(boot, 44));
      if && boot[510] == 0x55 && boot[511] == 0xAA
         && U16At(boot, 11) == SECTOR
         && v.clusterSectors != 0 && v.reserved != 0 && v.fatCount >= 1 && v.fatSectors != 0
         && total <= sectors
         && U32At(boot, 28) == lba
         && Sub(boot, 82, 8) == Fat32Mark()
         && v.root >= 2
         && v.DataSector() < total
      then Some(v) else None
  }

  /** An opened volume: boot sector, FATs and data area lie in this order inside the partition, and that inside the
      image. */
  lemma OpenGeometry(image: seq<u8>, lba: nat, sectors: nat)
    requires Open(image, lba, sectors).Some?
    ensures var v := Open(image, lba, sectors).value;
      && v.image == image && v.base == lba * SECTOR && v.root >= 2 && v.clusterSectors > 0
      && 0 < v.reserved < v.DataSector() < v.totalSectors <= sectors
        && v.base + v.totalSectors * SECTOR <= v.limit <= |image|
  {
    var v := Open(image, lba, sectors).value;
    assert v.fatCount * v.fatSectors >= v.fatSectors by { MulAtLeast(v.fatSectors, v.fatCount); }
  }

  /** The bytes of "FAT32   ". */
  function Fat32Mark(): (s: seq<u8>)
    ensures |s| == 8
  {
    [0x46, 0x41, 0x54, 0x33, 0x32, 0x20, 0x20, 0x20]
  }

  // Cluster chains

  predicate InChain(v: Volume, cluster: nat)
    requires v.Valid()
  {
    2 <= cluster < FIRST_RESERVED && v.FatValue(cluster).Some?
  }

  predicate Link(v: Volume, ch: seq<nat>, i: nat)
    requires v.Valid()
  {
    i + 1 < |ch| && v.FatValue(ch[i]) == Some(ch[i + 1])
  }

  /** `walk` starts at `first` and follows the FAT. */
  predicate IsWalk(v: Volume, first: nat, walk: seq<nat>)
    requires v.Valid()
  {
    && walk != [] && walk[0] == first
    && (forall i | 0 <= i < |walk| :: InChain(v, walk[i]))
    && (forall i: nat | i < |walk| - 1 :: Link(v, walk, i))
  }

  /** A walk whose last cluster carries an end mark. */
  predicate IsChain(v: Volume, first: nat, ch: seq<nat>)
    requires v.Valid()
  {
    IsWalk(v, first, ch) && v.FatValue(ch[|ch| - 1]).value >= FIRST_END
  }

  /** A walk that shares one cluster with a chain shares everything after it. */
  lemma {:induction false} InStep(v: Volume, first: nat, ch: seq<nat>, i: nat, first': nat, ch': seq<nat>, j: nat,
    k: nat)
    requires v.Valid() && IsChain(v, first, ch) && IsChain(v, first', ch')
    requires i + k < |ch| && j < |ch'| && ch[i] == ch'[j]
    ensures j + k < |ch'| && ch[i + k] == ch'[j + k]
  {
    if k > 0 {
      InStep(v, first, ch, i, first', ch', j, k - 1);
      assert Link(v, ch, i + k - 1) && InChain(v, ch[i + k]);
      if j + k < |ch'| {
        assert Link(v, ch', j + k - 1);
      }
    }
  }

  /** At most one chain starts at a cluster. */
  lemma ChainUnique(v: Volume, first: nat, a: seq<nat>, b: seq<nat>)
    requires v.Valid() && IsChain(v, first, a) && IsChain(v, first, b)
    ensures a == b
  {
    InStep(v, first, a, 0, first, b, 0, |a| - 1);
    InStep(v, first, b, 0, first, a, 0, |b| - 1);
    forall i | 0 <= i < |a|
      ensures a[i] == b[i]
    {
      InStep(v, first, a, 0, first, b, 0, i);
    }
  }

  /** A chain that ends never visits a cluster twice, so the loop check refuses no chain. */
  lemma ChainDistinct(v: Volume, first: nat, ch: seq<nat>, i: nat, j: nat)
    requires v.Valid() && IsChain(v, first, ch) && i < j < |ch|
    ensures ch[i] != ch[j]
  {
    if ch[i] == ch[j] {
      InStep(v, first, ch, i, first, ch, j, |ch| - j);
    }
  }

  /** The chain from `first`, if there is one of at most a million clusters. */
  ghost function TheChain(v: Volume, first: nat): (r: Option<seq<nat>>)
    requires v.Valid()
    ensures r.Some? ==> IsChain(v, first, r.value) && |r.value| <= MAX_CHAIN
  {
    if exists ch: seq<nat> :: IsChain(v, first, ch) && |ch| <= MAX_CHAIN then
      var ch: seq<nat> :| IsChain(v, first, ch) && |ch| <= MAX_CHAIN;
      Some(ch)
    else None
  }

  lemma TheChainIs(v: Volume, first: nat, ch: seq<nat>)
    requires v.Valid() && IsChain(v, first, ch) && |ch| <= MAX_CHAIN
    ensures TheChain(v, first) == Some(ch)
  {
    ChainUnique(v, first, ch, TheChain(v, first).value);
  }

  /** A walk so far, with no end mark yet: `cluster` comes next. */
  predicate Walked(v: Volume, first: nat, walk: seq<nat>, cluster: nat)
    requires v.Valid()
  {
    if walk == [] then cluster == first
    else IsWalk(v, first, walk) && v.FatValue(walk[|walk| - 1]) == Some(cluster) && cluster < FIRST_END
  }

  /** Cluster `i` of a walk, the next one included. */
  function WalkAt(walk: seq<nat>, cluster: nat, i: nat): nat {
    if i < |walk| then walk[i] else cluster
  }

  lemma WalkLink(v: Volume, first: nat, walk: seq<nat>, cluster: nat, i: nat)
    requires v.Valid() && Walked(v, first, walk, cluster) && i < |walk|
    ensures v.FatValue(walk[i]) == Some(WalkAt(walk, cluster, i + 1)) && WalkAt(walk, cluster, i + 1) < FIRST_END
  {
    if i + 1 < |walk| {
      assert Link(v, walk, i) && InChain(v, walk[i + 1]);
    }
  }

  lemma {:induction false} WalkAgrees(v: Volume, first: nat, walk: seq<nat>, cluster: nat, ch: seq<nat>, i: nat)
    requires v.Valid() && Walked(v, first, walk, cluster) && IsChain(v, first, ch) && i <= |walk|
    ensures i < |ch| && ch[i] == WalkAt(walk, cluster, i)
  {
    if i > 0 {
      WalkAgrees(v, first, walk, cluster, ch, i - 1);
      WalkLink(v, first, walk, cluster, i - 1);
      assert i < |ch| ==> Link(v, ch, i - 1);
    }
  }

  /** Every chain from `first` goes on from an unfinished walk. */
  lemma WalkIsPrefix(v: Volume, first: nat, walk: seq<nat>, cluster: nat, ch: seq<nat>)
    requires v.Valid() && Walked(v, first, walk, cluster) && IsChain(v, first, ch)
    ensures |walk| < |ch| && walk + [cluster] == ch[..|walk| + 1]
  {
    WalkAgrees(v, first, walk, cluster, ch, |walk|);
    forall i | 0 <= i < |walk|
      ensures ch[i] == walk[i]
    {
      WalkAgrees(v, first, walk, cluster, ch, i);
    }
  }

  lemma NoChain(v: Volume, first: nat, walk: seq<nat>, cluster: nat)
    requires v.Valid() && Walked(v, first, walk, cluster)
    requires cluster in walk || !InChain(v, cluster) || |walk| == MAX_CHAIN
    ensures TheChain(v, first) == None
  {
    var r := TheChain(v, first);
    if r.Some? {
      var ch := r.value;
      WalkIsPrefix(v, first, walk, cluster, ch);
      assert (walk + [cluster])[|walk|] == ch[|walk|];
      if cluster in walk {
        var i :| 0 <= i < |walk| && walk[i] == cluster;
        assert (walk + [cluster])[i] == ch[i];
        ChainDistinct(v, first, ch, i, |walk|);
      }
    }
  }

  lemma WalkExtended(v: Volume, first: nat, walk: seq<nat>, cluster: nat)
    requires v.Valid() && Walked(v, first, walk, cluster) && InChain(v, cluster)
    ensures IsWalk(v, first, walk + [cluster])
  {
    var longer := walk + [cluster];
    forall i: nat | i < |longer| - 1
      ensures Link(v, longer, i)
    {
      if i < |walk| - 1 {
        assert Link(v, walk, i);
      }
    }
  }

  /** chain: ends on every image, and finds the chain exactly when there is one short enough. */
  method Chain(v: Volume, first: nat) returns (r: Option<seq<nat>>)
    requires v.Valid()
    ensures r == TheChain(v, first)
  {
    var chain: seq<nat>, seen: set<nat>, cluster: nat := [], {}, first;
    while true
      invariant Walked(v, first, chain, cluster)
      invariant |chain| <= MAX_CHAIN
      invariant forall c :: c in seen <==> c in chain
      decreases MAX_CHAIN - |chain|
    {
      if cluster in seen || cluster < 2 || cluster >= FIRST_RESERVED || |chain| == MAX_CHAIN
        || v.FatValue(cluster).None? {
        NoChain(v, first, chain, cluster);
        return None;
      }
      var next := v.FatValue(cluster).value;
      WalkExtended(v, first, chain, cluster);
      seen := seen + {cluster};
      chain := chain + [cluster];
      if next >= FIRST_END {
        TheChainIs(v, first, chain);
        return Some(chain);
      }
      if next == 0 || FIRST_RESERVED <= next {
        NoChain(v, first, chain, next);
        return None;
      }
      cluster := next;
    }
  }

  // Reading files

  /** The bytes of the first `k` clusters of `ch`, one after another; None when one lies outside the partition. */
  function Payload(v: Volume, ch: seq<nat>, k: nat): (r: Option<seq<u8>>)
    requires v.Valid() && k <= |ch|
  {
    if k == 0 then Some([])
    else
      var init, data := Payload(v, ch, k - 1), v.ClusterData(ch[k - 1]);
      if init.None? || data.None? then None else Some(init.value + data.value)
  }

  ghost function ChainBytes(v: Volume, first: nat, size: Option<nat>): (r: Option<seq<u8>>)
    requires v.Valid()
  {
    var ch := TheChain(v, first);
    if ch.None? then None
    else
      var p := Payload(v, ch.value, |ch.value|);
      if p.None? || size.None? then p
      else if size.value > |p.value| then None
      else Some(p.value[..size.value])
  }

  lemma {:induction false} PayloadFails(v: Volume, ch: seq<nat>, i: nat, k: nat)
    requires v.Valid() && i < k <= |ch| && v.ClusterData(ch[i]).None?
    ensures Payload(v, ch, k).None?
  {
    if i < k - 1 {
      PayloadFails(v, ch, i, k - 1);
    }
  }

  /** read_chain. */
  method ReadChain(v: Volume, first: nat, size: Option<nat>) returns (r: Option<seq<u8>>)
    requires v.Valid()
    ensures r == ChainBytes(v, first, size)
  {
    var chain := Chain(v, first);
    if chain.None? {
      return None;
    }
    var ch := chain.value;
    var payload: seq<u8> := [];
    for i := 0 to |ch|
      invariant Payload(v, ch, i) == Some(payload)
    {
      var data := v.ClusterData(ch[i]);
      if data.None? {
        PayloadFails(v, ch, i, |ch|);
        return None;
      }
      payload := payload + data.value;
    }
    if size.Some? {
      if size.value > |payload| {
        return None;
      }
      return Some(payload[..size.value]);
    }
    return Some(payload);
  }

  ghost function DirectoryAt(v: Volume, first: nat): (r: Option<map<Name, DirEntry>>)
    requires v.Valid()
  {
    var data := ChainBytes(v, first, None);
    if data.None? then None else ReadDirectory(data.value)
  }

  /** directory. */
  method Directory(v: Volume, first: nat) returns (r: Option<map<Name, DirEntry>>)
    requires v.Valid()
    ensures r == DirectoryAt(v, first)
  {
    var data := ReadChain(v, first, None);
    if data.None? {
      return None;
    }
    var d := data.value;
    ghost var slots := Slots(d);
    var entries: map<Name, DirEntry>, k: nat := map[], 0;
    while 32 * k < |d|
      invariant Scan(slots, |d|, k, entries) == Scan(slots, |d|, 0, map[])
      decreases |d| - k
    {
      var slot := SlotAt(d, k);
      assert slot == slots(k);
      if slot == End {
        break;
      }
      if slot == Bad {
        return None;
      }
      entries := Added(slot, entries);
      k := k + 1;
    }
    assert k < |d| ==> SlotAt(d, k) == slots(k) == End;
    r := Some(entries);
  }

  /** What `directory` gives at each cluster. */
  type Directories = nat -> Option<map<Name, DirEntry>>

  ghost function DirectoriesOf(v: Volume): Directories
    requires v.Valid()
  {
    cluster => DirectoryAt(v, cluster)
  }

  /** The entry that the upper-cased path components from `i` on lead to from the directory at `cluster`. */
  ghost function EntryAt(dirs: Directories, cluster: nat, path: seq<Name>, i: nat): (r: Option<DirEntry>)
    decreases |path| - i
  {
    if i >= |path| then None
    else
      var entries := dirs(cluster);
      if entries.None? || path[i] !in entries.value then None
      else
        var e := entries.value[path[i]];
        if i == |path| - 1 then Some(e)
        else if !Bit(e.attr, ATTR_DIRECTORY) || e.first < 2 then None
        else EntryAt(dirs, e.first, path, i + 1)
  }

  /** find. */
  method Find(v: Volume, path: seq<Name>) returns (r: Option<DirEntry>)
    requires v.Valid()
    ensures r == EntryAt(DirectoriesOf(v), v.root, path, 0)
  {
    if path == [] {
      return None;
    }
    ghost var dirs := DirectoriesOf(v);
    var cluster: nat := v.root;
    for index := 0 to |path|
      invariant EntryAt(dirs, v.root, path, 0) == EntryAt(dirs, cluster, path, index)
    {
      var entries := Directory(v, cluster);
      assert entries == dirs(cluster);
      if entries.None? || path[index] !in entries.value {
        return None;
      }
      var e := entries.value[path[index]];
      if index == |path| - 1 {
        return Some(e);
      }
      if !Bit(e.attr, ATTR_DIRECTORY) || e.first < 2 {
        return None;
      }
      cluster := e.first;
    }
    r := None;
  }

  ghost function EntryBytes(v: Volume, e: Option<DirEntry>): (r: Option<seq<u8>>)
    requires v.Valid()
  {
    if e.None? || Bit(e.value.attr, ATTR_DIRECTORY) || (e.value.first < 2 && e.value.size != 0) then None
    else if e.value.size == 0 then Some([])
    else ChainBytes(v, e.value.first, Some(e.value.size))
  }

  ghost function FileBytes(v: Volume, path: seq<Name>): (r: Option<seq<u8>>)
    requires v.Valid()
  {
    EntryBytes(v, EntryAt(DirectoriesOf(v), v.root, path, 0))
  }

  /** read_file. */
  method ReadFile(v: Volume, path: seq<Name>) returns (r: Option<seq<u8>>)
    requires v.Valid()
    ensures r == FileBytes(v, path)
  {
    var e := Find(v, path);
    if e.None? || Bit(e.value.attr, ATTR_DIRECTORY) || (e.value.first < 2 && e.value.size != 0) {
      return None;
    }
    if e.value.size == 0 {
      return Some([]);
    }
    r := ReadChain(v, e.value.first, Some(e.value.size));
  }
}
