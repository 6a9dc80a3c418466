/** AegisFS refines a map from names to bytes. */
module AegisFsRefinement {
  import opened MachineInts
  import opened Bytes
  import opened AegisFsFormat
  import opened AegisFsSpec

  // ---------------------------------------------------------------- extents

  /** A disk change outside [DATA_LBA, limit) does not touch an extent below the limit. */
  lemma ExtentKept(d: Disk, d': Disk, e: Entry, limit: nat)
    requires GoodExtent(e, d, limit) && SameSectors(d, d', DATA_LBA, limit) && limit <= |d|
    ensures GoodExtent(e, d', limit) && FileBytes(d', e) == FileBytes(d, e)
  {
    if e.size > 0 {
      forall i | 0 <= i < e.sectors * SECTOR
        ensures FileByte(d', e.start, i) == FileByte(d, e.start, i)
      {
      }
    }
  }

  /** The bounce buffer holds the overlaid file and zeros after it. */
  lemma ImageIsOverlay(d: Disk, e: Entry, off: nat, data: seq<u8>, limit: nat)
    requires GoodExtent(e, d, limit)
    ensures Sub(Image(d, e, off, data), 0, NewSize(e, off, data)) == Overlay(FileBytes(d, e), off, data)
    ensures forall i | NewSize(e, off, data) <= i < |Image(d, e, off, data)| :: Image(d, e, off, data)[i] == 0
  {
  }

  /** A file whose extent holds a buffer reads as the front of that buffer. */
  lemma ExtentHolds(d: Disk, e: Entry, b: seq<u8>)
    requires e.size <= |b| && forall i | 0 <= i < |b| :: FileByte(d, e.start, i) == b[i]
    ensures FileBytes(d, e) == Sub(b, 0, e.size)
  {
  }

  // ---------------------------------------------------------------- slots

  lemma LookupAfter(es: seq<Entry>, k: nat, e: Entry, m: Name)
    requires k < |es| && e.valid != 0 && es[k].valid != 0 && e.name == es[k].name
    ensures Lookup(es[k := e], m) == Lookup(es, m)
  {
    var es' := es[k := e];
    assert forall j | 0 <= j < |es| :: Matches(es'[j], m) == Matches(es[j], m);
    match Lookup(es, m)
    case Some(i) => LookupIs(es', m, i);
    case None =>
  }

  /** Taking the first unused slot makes one new name visible, unless an earlier entry has it. */
  lemma LookupFresh(es: seq<Entry>, n: Name, k: nat, m: Name)
    requires FreeFrom(es, 0) == Some(k)
    requires forall i, j | 0 <= i < j < |es| && es[j].valid != 0 :: es[i].valid != 0
    ensures Lookup(es[k := FreshEntry(n)], m) ==
            if m == Stored(n) && Lookup(es, m) == None then Some(k) else Lookup(es, m)
  {
    var es' := es[k := FreshEntry(n)];
    NameFieldIs(n);
    assert forall j | 0 <= j < |es| && j != k :: es'[j] == es[j];
    if m == Stored(n) {
      match Lookup(es, m)
      case Some(i) => LookupIs(es', m, i);
      case None => LookupIs(es', m, k);
    } else {
      if Matches(es'[k], m) {
        NameUnique(es'[k].name, m, Stored(n));
      }
      match Lookup(es, m)
      case Some(i) => LookupIs(es', m, i);
      case None =>
    }
  }

  /** alloc_entry on its own adds an empty file. */
  lemma PreparedInv(st: State, d: Disk, n: Name, k: nat)
    requires Inv(st, d) && SlotFor(st.entries, n) == Some(k)
    ensures Inv(Prepared(st, n, k), d) && Prepared(st, n, k).entries[k].valid != 0
    ensures Prepared(st, n, k).sb.nextFree == st.sb.nextFree
  {
  }

  /** The file map after alloc_entry alone: one more empty file when the name was new. */
  function AfterAlloc(es: seq<Entry>, d: Disk, n: Name, m: Name): Option<seq<u8>> {
    if m == Stored(n) && Lookup(es, n) == None && Content(es, d, m) == None then Some([]) else Content(es, d, m)
  }

  lemma PreparedContent(st: State, d: Disk, n: Name, k: nat, m: Name)
    requires Inv(st, d) && SlotFor(st.entries, n) == Some(k)
    ensures Content(Prepared(st, n, k).entries, d, m) == AfterAlloc(st.entries, d, n, m)
  {
    if st.entries[k].valid == 0 {
      LookupFresh(st.entries, n, k, m);
      assert FileBytes(d, FreshEntry(n)) == [];
    }
  }

  // ---------------------------------------------------------------- the three phases of a write

  /** The preconditions under which agfs_write reaches the device. */
  ghost predicate Ready(st: State, d: Disk, k: nat, off: nat, data: seq<u8>) {
    && Inv(st, d) && k < MAX_FILES && st.entries[k].valid != 0
    && data != [] && off + |data| <= MAX_FILE_BYTES
    && Fits(st, st.entries[k], off, data)
  }

  function DataWrites(st: State, d: Disk, k: nat, off: nat, data: seq<u8>): (ws: seq<SectorWrite>)
    requires k < |st.entries|
    ensures |ws| == SectorsFor(NewSize(st.entries[k], off, data))
  {
    Writes(st.sb.nextFree, Image(d, st.entries[k], off, data))
  }

  lemma DataComplete(st: State, d: Disk, k: nat, off: nat, data: seq<u8>)
    requires Ready(st, d, k, off, data)
    ensures var d1, b := Apply(d, DataWrites(st, d, k, off, data)), Image(d, st.entries[k], off, data);
      && SameSectors(d, d1, 0, st.sb.nextFree)
      && forall i | 0 <= i < |b| :: FileByte(d1, st.sb.nextFree, i) == b[i]
  {
    var b := Image(d, st.entries[k], off, data);
    ApplyAll(d, st.sb.nextFree, b);
    forall i | 0 <= i < |b|
      ensures FileByte(WriteBytes(d, st.sb.nextFree, b), st.sb.nextFree, i) == b[i]
    {
      WrittenByte(d, st.sb.nextFree, b, i);
    }
  }

  /** Phase 2: any part of the directory leaves the superblock and all data as they were. */
  lemma DirectoryPhase(d: Disk, es: seq<Entry>, j: nat)
    requires GoodDir(es) && j <= DIR_SECTORS && DATA_LBA <= |d|
    ensures var d' := Apply(d, Writes(DIR_LBA, DirBytes(es))[..j]);
      && |d'| == |d| && d'[0] == d[0] && SameSectors(d, d', DATA_LBA, |d|)
      && (j == DIR_SECTORS ==> ReadBytes(d', DIR_LBA, DIR_SECTORS) == DirBytes(es))
  {
    ApplyPrefix(d, DIR_LBA, DirBytes(es), j);
    if j == DIR_SECTORS {
      assert Sub(DirBytes(es), 0, SECTOR * j) == DirBytes(es);
      ReadBack(d, DIR_LBA, DirBytes(es));
    }
  }

  /** Phase 3: the superblock sector. */
  lemma SuperblockPhase(d: Disk, sb: Superblock)
    requires GoodSb(sb) && DATA_LBA <= |d|
    ensures var d' := Apply(d, Writes(0, EncodeSb(sb)));
      && |d'| == |d| && d'[0] == EncodeSb(sb) && SameSectors(d, d', 1, |d|)
      && ReadBytes(d', DIR_LBA, DIR_SECTORS) == ReadBytes(d, DIR_LBA, DIR_SECTORS)
  {
    ApplyAll(d, 0, EncodeSb(sb));
    assert SectorOf(EncodeSb(sb), 0) == EncodeSb(sb);
    SameRead(d, WriteBytes(d, 0, EncodeSb(sb)), 1, |d|, DIR_LBA, DIR_SECTORS);
  }

  lemma MetadataComplete(d: Disk, st: State)
    requires GoodSb(st.sb) && GoodDir(st.entries) && DATA_LBA <= |d|
    ensures var d' := Apply(d, MetadataWrites(st));
      && |d'| == |d| && d'[0] == EncodeSb(st.sb) && SameSectors(d, d', DATA_LBA, |d|)
      && ReadBytes(d', DIR_LBA, DIR_SECTORS) == DirBytes(st.entries)
  {
    var ws := Writes(DIR_LBA, DirBytes(st.entries));
    assert ws[..DIR_SECTORS] == ws;
    DirectoryPhase(d, st.entries, DIR_SECTORS);
    SuperblockPhase(Apply(d, ws), st.sb);
    ApplyConcat(d, ws, Writes(0, EncodeSb(st.sb)));
  }

  // ---------------------------------------------------------------- a completed write

  ghost function After(st: State, d: Disk, k: nat, off: nat, data: seq<u8>): Disk
    requires Ready(st, d, k, off, data)
  {
    Apply(d, WriteTrace(st, d, k, off, data))
  }

  lemma AfterIsPhases(st: State, d: Disk, k: nat, off: nat, data: seq<u8>)
    requires Ready(st, d, k, off, data)
    ensures WriteTrace(st, d, k, off, data) ==
            DataWrites(st, d, k, off, data) + MetadataWrites(Committed(st, d, k, off, data))
    ensures After(st, d, k, off, data) ==
            Apply(Apply(d, DataWrites(st, d, k, off, data)), MetadataWrites(Committed(st, d, k, off, data)))
  {
    ApplyConcat(d, DataWrites(st, d, k, off, data), MetadataWrites(Committed(st, d, k, off, data)));
  }

  lemma WriteEffect(st: State, d: Disk, k: nat, off: nat, data: seq<u8>)
    requires Ready(st, d, k, off, data)
    ensures var d', b := After(st, d, k, off, data), Image(d, st.entries[k], off, data);
      && SameSectors(d, d', DATA_LBA, st.sb.nextFree)
      && d'[0] == EncodeSb(Committed(st, d, k, off, data).sb)
      && ReadBytes(d', DIR_LBA, DIR_SECTORS) == DirBytes(Committed(st, d, k, off, data).entries)
      && forall i | 0 <= i < |b| :: FileByte(d', st.sb.nextFree, i) == b[i]
  {
    var d1 := Apply(d, DataWrites(st, d, k, off, data));
    var d' := After(st, d, k, off, data);
    var b := Image(d, st.entries[k], off, data);
    DataComplete(st, d, k, off, data);
    AfterIsPhases(st, d, k, off, data);
    MetadataComplete(d1, Committed(st, d, k, off, data));
    assert forall j | 0 <= j < |b| :: FileByte(d', st.sb.nextFree, j) == FileByte(d1, st.sb.nextFree, j);
  }

  lemma NewExtentGood(st: State, d: Disk, k: nat, off: nat, data: seq<u8>)
    requires Ready(st, d, k, off, data)
    ensures var e, d' := NewEntry(st, d, k, off, data), After(st, d, k, off, data);
      && GoodExtent(e, d', st.sb.nextFree + e.sectors)
      && FileBytes(d', e) == Overlay(FileBytes(d, st.entries[k]), off, data)
  {
    WriteEffect(st, d, k, off, data);
    ImageIsOverlay(d, st.entries[k], off, data, st.sb.nextFree);
    ExtentHolds(After(st, d, k, off, data), NewEntry(st, d, k, off, data), Image(d, st.entries[k], off, data));
  }

  /** The invariant survives a write: the new extent lies above all others. */
  lemma CommittedInv(st: State, d: Disk, k: nat, off: nat, data: seq<u8>)
    requires Ready(st, d, k, off, data)
    ensures Inv(Committed(st, d, k, off, data), After(st, d, k, off, data))
  {
    var st', d' := Committed(st, d, k, off, data), After(st, d, k, off, data);
    WriteEffect(st, d, k, off, data);
    NewExtentGood(st, d, k, off, data);
    forall i | 0 <= i < MAX_FILES && st'.entries[i].valid != 0
      ensures GoodExtent(st'.entries[i], d', st'.sb.nextFree)
    {
      if i != k {
        ExtentKept(d, d', st.entries[i], st.sb.nextFree);
      }
    }
  }

  lemma CommittedContent(st: State, d: Disk, k: nat, off: nat, data: seq<u8>, m: Name)
    requires Ready(st, d, k, off, data)
    ensures Content(Committed(st, d, k, off, data).entries, After(st, d, k, off, data), m) ==
            if Lookup(st.entries, m) == Some(k) then Some(Overlay(FileBytes(d, st.entries[k]), off, data))
            else Content(st.entries, d, m)
  {
    WriteEffect(st, d, k, off, data);
    NewExtentGood(st, d, k, off, data);
    LookupAfter(st.entries, k, NewEntry(st, d, k, off, data), m);
    match Lookup(st.entries, m)
    case Some(i) =>
      if i != k {
        ExtentKept(d, After(st, d, k, off, data), st.entries[i], st.sb.nextFree);
      }
    case None =>
  }

  function Contents(c: Option<seq<u8>>): seq<u8> {
    match c
    case None => []
    case Some(s) => s
  }

  /** The file map after writing `data` at `off` of `n`: the named file is overlaid and every other file is
      unchanged. A name of 80 bytes or more is stored cut to 79, and only if that name is not taken. */
  function AfterWrite(es: seq<Entry>, d: Disk, n: Name, off: nat, data: seq<u8>, m: Name): Option<seq<u8>> {
    if m == Stored(n) && (|n| < NAME_MAX || Content(es, d, m) == None) then
      Some(Overlay(Contents(Content(es, d, m)), off, data))
    else Content(es, d, m)
  }

  lemma WriteContent(st: State, d: Disk, n: Name, k: nat, off: nat, data: seq<u8>, m: Name)
    requires Inv(st, d) && SlotFor(st.entries, n) == Some(k)
    requires Ready(Prepared(st, n, k), d, k, off, data)
    ensures var p := Prepared(st, n, k);
      Content(Committed(p, d, k, off, data).entries, After(p, d, k, off, data), m)
        == AfterWrite(st.entries, d, n, off, data, m)
  {
    var p := Prepared(st, n, k);
    CommittedContent(p, d, k, off, data, m);
    PreparedContent(st, d, n, k, m);
    if st.entries[k].valid == 0 {
      LookupFresh(st.entries, n, k, m);
      assert FileBytes(d, FreshEntry(n)) == [];
    } else {
      assert Lookup(st.entries, n) == Some(k);
      if Lookup(st.entries, m) == Some(k) {
        NameUnique(st.entries[k].name, n, m);
      }
    }
  }

  /** What was written can be read back under the same name exactly when the name fits the field. */
  lemma ReadBackIffShort(st: State, d: Disk, n: Name, k: nat, off: nat, data: seq<u8>)
    requires Inv(st, d) && SlotFor(st.entries, n) == Some(k)
    requires Ready(Prepared(st, n, k), d, k, off, data)
    ensures var p := Prepared(st, n, k);
      Content(Committed(p, d, k, off, data).entries, After(p, d, k, off, data), n)
        == Some(Overlay(Contents(Content(st.entries, d, n)), off, data))
      <==> |n| < NAME_MAX
  {
    WriteContent(st, d, n, k, off, data, n);
    if |n| >= NAME_MAX {
      CommittedInv(Prepared(st, n, k), d, k, off, data);
      LongNameAbsent(st, n);
    }
  }

  lemma LongNameAbsent(st: State, n: Name)
    requires GoodDir(st.entries) && |n| >= NAME_MAX
    ensures Lookup(st.entries, n) == None
  {
  }
}
