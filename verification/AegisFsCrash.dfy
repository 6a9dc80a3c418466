/** Mounting, and what a crash between any two sector writes of one agfs_write leaves behind. */
module AegisFsCrash {
  import opened MachineInts
  import opened Bytes
  import opened AegisFsFormat
  import opened AegisFsSpec
  import opened AegisFsRefinement

  // ---------------------------------------------------------------- mounting

  datatype MountResult = Mounted(st: State) | Formatted(st: State) | Corrupt

  function FreshState(blocks: u64): (st: State)
    ensures GoodSb(st.sb) && GoodDir(st.entries)
  {
    var es := seq(MAX_FILES, _ => Entry(0, 0, 0, 0, 0, 0, Zeros(80), Zeros(20)));
    State(Superblock(MAGIC, VERSION, 1, 0, DATA_LBA, blocks, Crc(DirBytes(es)), 0, Zeros(472)), es)
  }

  predicate Recognised(sb: Superblock, blocks: nat) {
    sb.magic == MAGIC && sb.version == VERSION && sb.partitionBlocks == blocks
  }

  /** What aegisfs_mount_persistent makes of a partition. */
  function Mount(d: Disk): MountResult
    requires DATA_LBA <= |d| < TWO_64
  {
    var sb := DecodeSb(d[0]);
    if !Recognised(sb, |d|) then Formatted(FreshState(|d|))
    else
      var dir := ReadBytes(d, DIR_LBA, DIR_SECTORS);
      if Crc(dir) != sb.directoryCrc then Corrupt else Mounted(State(sb, ParseDir(dir)))
  }

  /** The superblock describes the directory it is stored with. */
  ghost predicate Persistable(st: State, blocks: nat) {
    GoodSb(st.sb) && GoodDir(st.entries) && Recognised(st.sb, blocks) && st.sb.directoryCrc == Crc(DirBytes(st.entries))
  }

  /** A completed persist followed by a mount restores the same state. */
  lemma PersistThenMount(d: Disk, st: State)
    requires DATA_LBA <= |d| < TWO_64 && Persistable(st, |d|)
    ensures Mount(Apply(d, MetadataWrites(st))) == Mounted(st)
  {
    MetadataComplete(d, st);
    SuperblockRoundTrip(st.sb);
    DirRoundTrip(st.entries);
  }

  lemma FreshStateGood(d: Disk)
    requires DATA_LBA <= |d| < TWO_64
    ensures Persistable(FreshState(|d|), |d|) && Inv(FreshState(|d|), d)
    ensures forall n: Name :: Content(FreshState(|d|).entries, d, n) == None
  {
  }

  lemma FreshCrc(blocks: u64)
    ensures WithCrc(FreshState(blocks).sb, FreshState(blocks).entries) == FreshState(blocks).sb
  {
  }

  /** A freshly formatted partition mounts as an empty file system. */
  lemma FreshMounts(d: Disk)
    requires DATA_LBA <= |d| < TWO_64
    ensures var st := FreshState(|d|); var d' := Apply(d, MetadataWrites(st));
      |d'| == |d| && OnDisk(st, d')
  {
    FreshStateGood(d);
    FreshStateGood(Apply(d, MetadataWrites(FreshState(|d|))));
    PersistThenMount(d, FreshState(|d|));
  }

  // ---------------------------------------------------------------- crashes

  /** The directory on disk after `j` of its sectors were rewritten. */
  ghost function TornDir(d: Disk, es: seq<Entry>, j: nat): seq<u8>
    requires GoodDir(es) && j <= DIR_SECTORS && DATA_LBA <= |d|
  {
    ReadBytes(Apply(d, Writes(DIR_LBA, DirBytes(es))[..j]), DIR_LBA, DIR_SECTORS)
  }

  /** The checksum tells every partly or fully rewritten directory from the one it was taken over. */
  ghost predicate CrcSeparates(d: Disk, es: seq<Entry>)
    requires GoodDir(es) && DATA_LBA <= |d|
  {
    forall j: nat | j <= DIR_SECTORS && TornDir(d, es, j) != ReadBytes(d, DIR_LBA, DIR_SECTORS) ::
      Crc(TornDir(d, es, j)) != Crc(ReadBytes(d, DIR_LBA, DIR_SECTORS))
  }

  ghost predicate SameFiles(es: seq<Entry>, d: Disk, d': Disk) {
    forall n: Name :: Content(es, d', n) == Content(es, d, n)
  }

  lemma FilesKept(was: State, d: Disk, d': Disk)
    requires Inv(was, d) && SameSectors(d, d', DATA_LBA, was.sb.nextFree)
    ensures SameFiles(was.entries, d, d')
  {
    forall n: Name
      ensures Content(was.entries, d', n) == Content(was.entries, d, n)
    {
      match Lookup(was.entries, n)
      case Some(k) => ExtentKept(d, d', was.entries[k], was.sb.nextFree);
      case None =>
    }
  }

  /** The partition mounts as `was`. */
  ghost predicate OnDisk(was: State, d: Disk) {
    DATA_LBA <= |d| < TWO_64 && Mount(d) == Mounted(was) && Inv(was, d)
  }

  /** The state in memory is sound, and a reboot now would mount `was`, whose extents lie below the next free
      sector. `CrashSafe` asks for no more, and every operation keeps it. */
  ghost predicate Sound(st: State, d: Disk, was: State) {
    Inv(st, d) && OnDisk(was, d) && was.sb.nextFree <= st.sb.nextFree
  }

  /** What mounting the disk `d` leaves in memory and on disk, and whether it succeeds. */
  ghost predicate MountsTo(d: Disk, ok: bool, st: State, d': Disk)
    requires DATA_LBA <= |d| < TWO_64
  {
    match Mount(d)
    case Corrupt => !ok && d' == d
    case Mounted(s) => ok && st == s && d' == d
    case Formatted(s) => ok && st == s && d' == Apply(d, MetadataWrites(s))
  }

  /** After it a second mount would give the same, and a formatted partition is sound. */
  lemma MountsToSame(d: Disk, st: State, d': Disk)
    requires DATA_LBA <= |d| < TWO_64 && MountsTo(d, true, st, d')
    ensures |d'| == |d| && Mount(d') == Mounted(st)
    ensures Mount(d).Formatted? || Inv(st, d') ==> Sound(st, d', st)
  {
    if Mount(d).Formatted? {
      FreshMounts(d);
      OnDiskSound(st, d');
    } else if Inv(st, d') {
      OnDiskSound(st, d');
    }
  }

  lemma OnDiskSound(st: State, d: Disk)
    requires OnDisk(st, d)
    ensures Sound(st, d, st)
  {
  }

  /** Every write goes to `limit` or above. */
  ghost predicate Above(ws: seq<SectorWrite>, limit: nat) {
    forall i | 0 <= i < |ws| :: ws[i].lba >= limit
  }

  lemma {:induction false} AboveKeeps(d: Disk, ws: seq<SectorWrite>, limit: nat)
    requires Above(ws, limit)
    ensures SameSectors(d, Apply(d, ws), 0, limit)
  {
    if ws != [] {
      AboveKeeps(d, ws[..|ws| - 1], limit);
    }
  }

  lemma InvKept(was: State, d: Disk, d': Disk)
    requires Inv(was, d) && SameSectors(d, d', DATA_LBA, was.sb.nextFree)
    ensures Inv(was, d')
  {
    forall i | 0 <= i < MAX_FILES && was.entries[i].valid != 0
      ensures GoodExtent(was.entries[i], d', was.sb.nextFree)
    {
      ExtentKept(d, d', was.entries[i], was.sb.nextFree);
    }
  }

  /** Writes above the old file system's extents leave it mountable with the same files. */
  lemma CrashInData(was: State, d: Disk, ws: seq<SectorWrite>)
    requires OnDisk(was, d) && Above(ws, was.sb.nextFree)
    ensures OnDisk(was, Apply(d, ws)) && SameFiles(was.entries, d, Apply(d, ws))
  {
    AboveKeeps(d, ws, was.sb.nextFree);
    SameRead(d, Apply(d, ws), 0, was.sb.nextFree, DIR_LBA, DIR_SECTORS);
    FilesKept(was, d, Apply(d, ws));
    InvKept(was, d, Apply(d, ws));
  }

  /** While the directory is being rewritten the stored checksum decides: old files or a refused mount,
      unless the torn directory has the old checksum. */
  lemma CrashInDirectory(was: State, d: Disk, es: seq<Entry>, j: nat)
    requires OnDisk(was, d) && GoodDir(es) && j <= DIR_SECTORS
    ensures var d' := Apply(d, Writes(DIR_LBA, DirBytes(es))[..j]);
      && (Mount(d') == Corrupt <==> Crc(TornDir(d, es, j)) != Crc(ReadBytes(d, DIR_LBA, DIR_SECTORS)))
      && (TornDir(d, es, j) == ReadBytes(d, DIR_LBA, DIR_SECTORS) ==> Mount(d') == Mounted(was))
      && SameFiles(was.entries, d, d')
  {
    DirectoryPhase(d, es, j);
    FilesKept(was, d, Apply(d, Writes(DIR_LBA, DirBytes(es))[..j]));
  }

  lemma PrefixOfConcat<T>(a: seq<T>, b: seq<T>, c: seq<T>, j: nat)
    requires j <= |a| + |b| + |c|
    ensures (a + (b + c))[..j] ==
            if j <= |a| then a[..j] else if j <= |a| + |b| then a + b[..j - |a|] else a + (b + c[..j - |a| - |b|])
  {
  }

  /** The disk after `j` sector writes, by phase: data `ws`, then the directory, then the superblock. */
  lemma CrashPoint(d: Disk, ws: seq<SectorWrite>, st: State, j: nat)
    requires GoodSb(st.sb) && GoodDir(st.entries) && j <= |ws + MetadataWrites(st)|
    ensures |MetadataWrites(st)| == DIR_SECTORS + 1
    ensures Apply(d, (ws + MetadataWrites(st))[..j]) ==
            if j <= |ws| then Apply(d, ws[..j])
            else if j <= |ws| + DIR_SECTORS then
              Apply(Apply(d, ws), Writes(DIR_LBA, DirBytes(st.entries))[..j - |ws|])
            else Apply(Apply(d, ws), MetadataWrites(st))
  {
    var b, c := Writes(DIR_LBA, DirBytes(st.entries)), Writes(0, EncodeSb(st.sb));
    PrefixOfConcat(ws, b, c, j);
    if |ws| < j <= |ws| + |b| {
      ApplyConcat(d, ws, b[..j - |ws|]);
    } else if j > |ws| + |b| {
      assert (ws + (b + c))[..j] == ws + (b + c);
      ApplyConcat(d, ws, b + c);
    }
  }

  /** A reboot finds the old files or refuses to mount. */
  ghost predicate OldOrRefused(was: State, d: Disk, d': Disk)
    requires DATA_LBA <= |d'| < TWO_64
  {
    Mount(d') == Corrupt || (Mount(d') == Mounted(was) && SameFiles(was.entries, d, d'))
  }

  lemma TornMount(was: State, d0: Disk, d: Disk, es: seq<Entry>, j: nat)
    requires OnDisk(was, d) && SameFiles(was.entries, d0, d) && GoodDir(es) && j <= DIR_SECTORS && CrcSeparates(d, es)
    ensures OldOrRefused(was, d0, Apply(d, Writes(DIR_LBA, DirBytes(es))[..j]))
  {
    CrashInDirectory(was, d, es, j);
  }

  /** A crash anywhere in data-then-directory-then-superblock: before the last sector a mount gives the old
      files or refuses (and cannot refuse before the directory is touched); after it, the new state. */
  lemma CrashSafe(was: State, d: Disk, ws: seq<SectorWrite>, st: State, j: nat)
    requires OnDisk(was, d) && Above(ws, was.sb.nextFree) && Persistable(st, |d|)
    requires CrcSeparates(Apply(d, ws), st.entries)
    requires j <= |ws + MetadataWrites(st)|
    ensures j < |ws + MetadataWrites(st)| ==> OldOrRefused(was, d, Apply(d, (ws + MetadataWrites(st))[..j]))
    ensures j <= |ws| ==> Mount(Apply(d, (ws + MetadataWrites(st))[..j])) == Mounted(was)
    ensures j == |ws + MetadataWrites(st)| ==> Mount(Apply(d, (ws + MetadataWrites(st))[..j])) == Mounted(st)
  {
    CrashPoint(d, ws, st, j);
    if j <= |ws| {
      CrashInData(was, d, ws[..j]);
    } else if j <= |ws| + DIR_SECTORS {
      CrashInData(was, d, ws);
      TornMount(was, d, Apply(d, ws), st.entries, j - |ws|);
    } else {
      PersistThenMount(Apply(d, ws), st);
    }
  }

  // ---------------------------------------------------------------- agfs_write

  lemma CommittedPersistable(st: State, d: Disk, k: nat, off: nat, data: seq<u8>)
    requires Ready(st, d, k, off, data)
    ensures Persistable(Committed(st, d, k, off, data), |d|)
    ensures Above(DataWrites(st, d, k, off, data), st.sb.nextFree)
  {
  }

  /** With every sector written the file system is sound and mounts as the new state. */
  lemma CommittedSound(st: State, d: Disk, k: nat, off: nat, data: seq<u8>)
    requires Ready(st, d, k, off, data) && |d| < TWO_64
    ensures Sound(Committed(st, d, k, off, data), After(st, d, k, off, data), Committed(st, d, k, off, data))
  {
    CommittedInv(st, d, k, off, data);
    CommittedPersistable(st, d, k, off, data);
    AfterIsPhases(st, d, k, off, data);
    PersistThenMount(Apply(d, DataWrites(st, d, k, off, data)), Committed(st, d, k, off, data));
  }

  /** The crash theorem for one write from any sound state. */
  lemma WriteCrashSafe(was: State, st: State, d: Disk, k: nat, off: nat, data: seq<u8>, j: nat)
    requires Sound(st, d, was) && Ready(st, d, k, off, data)
    requires CrcSeparates(Apply(d, DataWrites(st, d, k, off, data)), Committed(st, d, k, off, data).entries)
    requires j <= |WriteTrace(st, d, k, off, data)|
    ensures j < |WriteTrace(st, d, k, off, data)| ==>
              OldOrRefused(was, d, Apply(d, WriteTrace(st, d, k, off, data)[..j]))
    ensures j == |WriteTrace(st, d, k, off, data)| ==>
              Mount(Apply(d, WriteTrace(st, d, k, off, data)[..j])) == Mounted(Committed(st, d, k, off, data))
  {
    CommittedPersistable(st, d, k, off, data);
    CrashSafe(was, d, DataWrites(st, d, k, off, data), Committed(st, d, k, off, data), j);
  }
}
