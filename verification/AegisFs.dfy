/** The file system of fs/aegisfs.c over one partition of kernel/core/block_storage.c: the operations in
    place, tied to the file map and to the list of sector writes. */
module AegisFs {
  import opened MachineInts
  import opened Bytes
  import opened AegisFsFormat
  import opened AegisFsSpec
  import opened AegisFsRefinement
  import opened AegisFsCrash

  datatype IoResult = Count(n: nat) | Fail(status: Status)

  /** block_partition_read and block_partition_write; the driver moves one sector at a time. */
  class Partition {
    var sectors: Disk
    ghost var log: seq<SectorWrite>

    constructor (sectors: Disk)
      ensures this.sectors == sectors && log == []
    {
      this.sectors, log := sectors, [];
    }

    method Read(rel: nat, count: nat) returns (rc: Status, buf: seq<u8>)
      ensures rc == Ok <==> 0 < count && rel + count <= |sectors|
      ensures rc == Ok ==> buf == ReadBytes(sectors, rel, count)
      ensures rc != Ok ==> rc == EInval
    {
      if rel >= |sectors| || count > |sectors| - rel { return EInval, []; }
      if count == 0 { return EInval, []; }
      buf := [];
      for i := 0 to count
        invariant buf == ReadBytes(sectors, rel, i)
      {
        ReadNext(sectors, rel, i);
        buf := buf + sectors[rel + i];
      }
      rc := Ok;
    }

    method Write(rel: nat, buf: seq<u8>) returns (rc: Status)
      requires Whole(buf)
      modifies this
      ensures rc == Ok <==> buf != [] && rel + |buf| / SECTOR <= |sectors|
      ensures rc == Ok ==> log == old(log) + Writes(rel, buf)
      ensures rc == Ok ==> sectors == Apply(old(sectors), Writes(rel, buf))
      ensures rc != Ok ==> rc == EInval && sectors == old(sectors) && log == old(log)
    {
      var count := |buf| / SECTOR;
      if rel >= |sectors| || count > |sectors| - rel || count == 0 { return EInval; }
      for i := 0 to count
        invariant log == old(log) + Writes(rel, buf)[..i]
        invariant sectors == Apply(old(sectors), Writes(rel, buf)[..i])
      {
        sectors := sectors[rel + i := SectorOf(buf, i)];
        log := log + [SectorWrite(rel + i, SectorOf(buf, i))];
        assert Writes(rel, buf)[..i + 1][..i] == Writes(rel, buf)[..i];
      }
      assert Writes(rel, buf)[..count] == Writes(rel, buf);
      rc := Ok;
    }
  }

  /** Leading slashes are skipped. */
  function Strip(path: Name): Name {
    if path != [] && path[0] == 0x2F then Strip(path[1..]) else path
  }

  method SkipSlashes(path: Name) returns (name: Name)
    ensures name == Strip(path)
  {
    name := path;
    while name != [] && name[0] == 0x2F
      invariant Strip(name) == Strip(path)
    {
      name := name[1..];
    }
  }

  /** streq of an 80-byte field against a C string. */
  method StrEq(field: seq<u8>, n: Name) returns (eq: bool)
    ensures eq == NameIs(field, n)
  {
    var i := 0;
    while i < |n| && i < |field| && field[i] != 0
      invariant i <= |n| && i <= |field|
      invariant forall j | 0 <= j < i :: field[j] == n[j]
    {
      if field[i] != n[i] {
        assert !NameIs(field, n);
        return false;
      }
      i := i + 1;
    }
    eq := i == |n| && i < |field| && field[i] == 0;
    if i < |n| && i < |field| {
      assert n[i] in n;
    }
  }

  class FileSystem {
    const part: Partition
    var sb: Superblock
    var entries: seq<Entry>
    var mounted: bool
    var writable: bool
    ghost var persisted: State   // what the partition would mount as

    ghost function Files(): State
      reads this
    {
      State(sb, entries)
    }

    ghost predicate Valid()
      reads this, part
    {
      mounted && Sound(Files(), part.sectors, persisted)
    }

    ghost function FileAt(n: Name): Option<seq<u8>>
      reads this, part
    {
      Content(entries, part.sectors, n)
    }

    constructor (part: Partition)
      ensures this.part == part && !mounted && !writable
    {
      this.part := part;
      sb, entries, persisted := FreshState(0).sb, FreshState(0).entries, FreshState(0);
      mounted, writable := false, false;
    }

    method FindEntry(path: Name) returns (r: Option<nat>)
      ensures r == Lookup(entries, Strip(path))
    {
      var name := SkipSlashes(path);
      for i := 0 to |entries|
        invariant Lookup(entries, name) == LookupFrom(entries, name, i)
      {
        var eq := StrEq(entries[i].name, name);
        if entries[i].valid != 0 && eq { return Some(i); }
      }
      r := None;
    }

    /** Directory sectors first, superblock last. */
    method Persist() returns (rc: Status)
      requires GoodSb(sb) && GoodDir(entries) && DATA_LBA <= |part.sectors|
      modifies this`sb, part
      ensures sb == if writable then WithCrc(old(sb), entries) else old(sb)
      ensures rc == if writable then Ok else EShutdown
      ensures writable ==> part.log == old(part.log) + MetadataWrites(Files())
      ensures writable ==> part.sectors == Apply(old(part.sectors), MetadataWrites(Files()))
      ensures !writable ==> part.sectors == old(part.sectors) && part.log == old(part.log)
    {
      if !writable { return EShutdown; }
      var crc := Crc32(DirBytes(entries));
      sb := sb.(directoryCrc := crc);
      var dir, first := DirBytes(entries), EncodeSb(sb);
      rc := part.Write(DIR_LBA, dir);
      rc := part.Write(0, first);
      ApplyConcat(old(part.sectors), Writes(DIR_LBA, dir), Writes(0, first));
    }
  
    /** Takes over a state that carries its checksum, and persists it. */
    method PersistState(st: State) returns (rc: Status)
      requires DATA_LBA <= |part.sectors| && writable && GoodSb(st.sb) && GoodDir(st.entries)
        && WithCrc(st.sb, st.entries) == st.sb
      modifies this`sb, this`entries, part
      ensures rc == Ok && Files() == st && part.sectors == Apply(old(part.sectors), MetadataWrites(st))
    {
      sb, entries := st.sb, st.entries;
      rc := Persist();
    }

    /** An empty directory and a fresh superblock, persisted. */
    method Format() returns (rc: Status)
      requires DATA_LBA <= |part.sectors| < TWO_64 && writable
      modifies this`sb, this`entries, part
      ensures rc == Ok && Files() == FreshState(|old(part.sectors)|)
      ensures part.sectors == Apply(old(part.sectors), MetadataWrites(Files()))
      ensures OnDisk(Files(), part.sectors)
    {
      FreshMounts(part.sectors);
      FreshCrc(|part.sectors|);
      rc := PersistState(FreshState(|part.sectors|));
    }

    /** Reads the superblock, formats an unrecognised partition, refuses a directory whose checksum is off. */
    method MountPersistent(backendReady: bool, partWritable: bool) returns (rc: Status)
      requires DATA_LBA <= |part.sectors| < TWO_64
      modifies this, part
      ensures old(mounted) ==> rc == Ok && Files() == old(Files()) && part.sectors == old(part.sectors)
      ensures !old(mounted) && !(backendReady && partWritable) ==>
        rc == ENoSys && !mounted && part.sectors == old(part.sectors)
      ensures !old(mounted) && backendReady && partWritable ==>
        MountsTo(old(part.sectors), rc == Ok, Files(), part.sectors) && mounted == (rc == Ok) && (rc == Ok || rc == EIo)
      ensures !old(mounted) && rc == Ok ==>
        writable && |part.sectors| == |old(part.sectors)| && Mount(part.sectors) == Mounted(Files())
      ensures !old(mounted) && rc == Ok && (Mount(old(part.sectors)).Formatted? || Inv(Files(), part.sectors)) ==>
        Valid()
    {
      if mounted { return Ok; }
      writable := backendReady && partWritable;
      if !writable { return ENoSys; }
      ghost var d := part.sectors;
      rc := Load();
      if rc != Ok { return; }
      MountsToSame(d, Files(), part.sectors);
      mounted := true;
      persisted := Files();
    }

    /** The superblock and directory of a writable partition. */
    method Load() returns (rc: Status)
      requires DATA_LBA <= |part.sectors| < TWO_64 && writable
      modifies this`sb, this`entries, part
      ensures MountsTo(old(part.sectors), rc == Ok, Files(), part.sectors) && (rc == Ok || rc == EIo)
    {
      var first;
      rc, first := part.Read(0, 1);
      ReadOne(part.sectors);
      sb := DecodeSb(first);
      if sb.magic != MAGIC || sb.version != VERSION || sb.partitionBlocks != |part.sectors| {
        rc := Format();
      } else {
        rc := LoadDirectory();
      }
    }

    /** The directory of a recognised partition. */
    method LoadDirectory() returns (rc: Status)
      requires DATA_LBA <= |part.sectors| < TWO_64 && sb == DecodeSb(part.sectors[0]) && Recognised(sb, |part.sectors|)
      modifies this`entries
      ensures Mount(part.sectors) == if rc == Ok then Mounted(Files()) else Corrupt
      ensures rc == Ok || rc == EIo
    {
      var dir;
      rc, dir := part.Read(DIR_LBA, DIR_SECTORS);
      entries := ParseDir(dir);
      var crc := Crc32(dir);
      rc := if crc != sb.directoryCrc then EIo else Ok;
    }

    /** Returns the exact slice of the file map. A zero-length read inside the file is refused when the
        offset is on a sector boundary, because the block layer refuses a count of zero. */
    method ReadFile(path: Name, off: u64, len: u64) returns (r: IoResult, buf: seq<u8>)
      requires Valid() && off + len + SECTOR < TWO_64
      ensures match FileAt(Strip(path))
        case None => r == Fail(ENoEnt)
        case Some(s) =>
          if off >= |s| then r == Count(0)
          else if len == 0 then r == if off % SECTOR == 0 then Fail(EInval) else Count(0)
          else r == Count(Min(len, |s| - off)) && buf == Sub(s, off, r.n)
    {
      buf := [];
      var k := FindEntry(path);
      if k.None? { return Fail(ENoEnt), []; }
      var e := entries[k.value];
      if off >= e.size { return Count(0), []; }
      var n := if len > e.size - off then e.size - off else len;
      var first, last := off / SECTOR, (off + n + 511) / SECTOR;
      var count := last - first;
      ReadSpan(off, n, e.size);
      if count > 128 { return Fail(EInval), []; }
      var rc, bounce := part.Read(e.start + first, count);
      if rc != Ok { return Fail(rc), []; }
      buf := Sub(bounce, off % SECTOR, n);
      SpanBytes(part.sectors, e, off, n, count);
      r := Count(n);
    }

    /** Takes the first unused slot, if any, for an empty file of that name. */
    method AllocEntry(name: Name) returns (r: Option<nat>)
      requires GoodDir(entries)
      modifies this`sb, this`entries
      ensures r == FreeFrom(old(entries), 0)
      ensures Files() == if r.Some? then Prepared(old(Files()), name, r.value) else old(Files())
    {
      for i := 0 to |entries|
        invariant FreeFrom(entries, 0) == FreeFrom(entries, i)
        invariant sb == old(sb) && entries == old(entries)
      {
        if entries[i].valid == 0 {
          entries := entries[i := FreshEntry(name)];
          sb := sb.(fileCount := (sb.fileCount + 1) % TWO_32);
          return Some(i);
        }
      }
      r := None;
    }

    /** Old sectors, zero extended, with the new bytes on top. */
    method BuildImage(e: Entry, off: nat, data: seq<u8>) returns (image: seq<u8>)
      requires GoodExtent(e, part.sectors, |part.sectors|)
      ensures image == Image(part.sectors, e, off, data)
    {
      var size := NewSize(e, off, data);
      image := Zeros(SectorsFor(size) * SECTOR);
      if e.size != 0 {
        var rc, was := part.Read(e.start, SectorsFor(e.size));
        image := Splice(image, 0, was);
      }
      image := Splice(image, off, data);
    }

    /** The slot a write of `n` would use, when every check before the space check passes. */
    ghost function TargetSlot(n: Name, off: nat, data: seq<u8>): Option<nat>
      reads this
    {
      if !writable || data == [] || off + |data| > MAX_FILE_BYTES || n == [] then None
      else SlotFor(entries, n)
    }

    /** Writes the new extent and points the entry and the superblock at it, in memory. */
    method WriteData(k: nat, off: nat, data: seq<u8>)
      requires Valid() && Ready(Files(), part.sectors, k, off, data)
      modifies this`sb, this`entries, part
      ensures part.sectors == Apply(old(part.sectors), DataWrites(old(Files()), old(part.sectors), k, off, data))
      ensures part.log == old(part.log) + DataWrites(old(Files()), old(part.sectors), k, off, data)
      ensures GoodSb(sb) && GoodDir(entries)
      ensures State(WithCrc(sb, entries), entries) == Committed(old(Files()), old(part.sectors), k, off, data)
    {
      var e := entries[k];
      var size := NewSize(e, off, data);
      var image := BuildImage(e, off, data);
      var lba := sb.nextFree;
      var rc := part.Write(lba, image);
      var crc := Crc32(Sub(image, 0, size));
      entries := entries[k := Relocated(e, lba, size, NextGeneration(sb.generation), crc)];
      sb := Advanced(sb, size);
    }

    /** The three phases in order: data, directory, superblock. */
    method Flush(k: nat, off: nat, data: seq<u8>)
      requires Valid() && writable && Ready(Files(), part.sectors, k, off, data)
      modifies this`sb, this`entries, part
      ensures InPhases(old(Files()), old(part.sectors), old(part.log), k, off, data, Files(), part.sectors, part.log)
    {
      WriteData(k, off, data);
      var rc := Persist();
    }

    /** The copy-on-write update of one entry. */
    method Commit(k: nat, off: nat, data: seq<u8>)
      requires Valid() && writable && Ready(Files(), part.sectors, k, off, data)
      modifies this`sb, this`entries, this`persisted, part
      ensures Valid() && Traced(old(Files()), old(part.sectors), old(part.log), k, off, data, Files(), part.sectors,
        part.log)
    {
      ghost var st, d, log := Files(), part.sectors, part.log;
      Flush(k, off, data);
      persisted := Files();
      PhasesTraced(st, d, log, k, off, data, Files(), part.sectors, part.log);
    }

    /** Success overlays the data on one file and keeps every other file; the sector writes are those of
        `WriteTrace`. A failed write changes no file, except that a write of a new name that fails for lack of
        partition space leaves an empty file of that name behind. */
    method WriteFile(path: Name, off: u64, data: seq<u8>) returns (r: IoResult)
      requires Valid() && off + |data| < TWO_64
      modifies this`sb, this`entries, this`persisted, part
      ensures Valid()
      ensures var n := Strip(path); var k := old(TargetSlot(n, off, data));
        && (r == Count(|data|) || r.Fail?)
        && (r.Count? <==> k.Some? && Fits(old(Files()), Prepared(old(Files()), n, k.value).entries[k.value], off, data))
        && (r.Count? ==>
              && part.log == old(part.log)
                + WriteTrace(Prepared(old(Files()), n, k.value), old(part.sectors), k.value, off, data)
              && part.sectors == Apply(old(part.sectors),
                WriteTrace(Prepared(old(Files()), n, k.value), old(part.sectors), k.value, off, data))
              && Files() == Committed(Prepared(old(Files()), n, k.value), old(part.sectors), k.value, off, data))
        && (r.Fail? ==> part.sectors == old(part.sectors) && part.log == old(part.log))
      ensures r.Count? ==>
        forall m: Name :: FileAt(m) == AfterWrite(old(entries), old(part.sectors), Strip(path), off, data, m)
      ensures r.Fail? && old(TargetSlot(Strip(path), off, data)).Some? ==>
        forall m: Name :: FileAt(m) == AfterAlloc(old(entries), old(part.sectors), Strip(path), m)
      ensures r.Fail? && old(TargetSlot(Strip(path), off, data)).None? ==> Files() == old(Files())
    {
      if !writable || |data| == 0 { return Fail(EInval); }
      if off + |data| > MAX_FILE_BYTES { return Fail(ENoSpc); }
      var name := SkipSlashes(path);
      if name == [] { return Fail(EInval); }
      StripTwice(path);
      var k := FindEntry(name);
      if k.None? {
        k := AllocEntry(name);
      }
      if k.None? { return Fail(ENoSpc); }
      ghost var st, d := old(Files()), part.sectors;
      PreparedInv(st, d, name, k.value);
      forall m: Name
        ensures Content(entries, d, m) == AfterAlloc(st.entries, d, name, m)
      {
        PreparedContent(st, d, name, k.value, m);
      }
      r := WriteSlot(k.value, off, data, st, name);
    }

    /** The write once the slot is known. */
    method WriteSlot(k: nat, off: nat, data: seq<u8>, ghost st: State, ghost name: Name) returns (r: IoResult)
      requires Valid() && writable && data != [] && off + |data| <= MAX_FILE_BYTES
      requires Inv(st, part.sectors) && SlotFor(st.entries, name) == Some(k) && Files() == Prepared(st, name, k)
      modifies this`sb, this`entries, this`persisted, part
      ensures Valid()
      ensures r == if Fits(old(Files()), old(entries)[k], off, data) then Count(|data|) else Fail(ENoSpc)
      ensures r.Fail? ==> Files() == old(Files()) && part.sectors == old(part.sectors) && part.log == old(part.log)
      ensures r.Count? ==>
        Traced(old(Files()), old(part.sectors), old(part.log), k, off, data, Files(), part.sectors, part.log)
      ensures r.Count? ==> forall m: Name :: FileAt(m) == AfterWrite(st.entries, old(part.sectors), name, off, data, m)
    {
      ghost var d := part.sectors;
      if sb.nextFree + SectorsFor(NewSize(entries[k], off, data)) > |part.sectors| { return Fail(ENoSpc); }
      Commit(k, off, data);
      forall m: Name
        ensures FileAt(m) == AfterWrite(st.entries, d, name, off, data, m)
      {
        WriteContent(st, d, name, k, off, data, m);
      }
      r := Count(|data|);
    }
  }

  /** Data, then directory and superblock of the committed state. */
  ghost predicate InPhases(st: State, d: Disk, log: seq<SectorWrite>, k: nat, off: nat, data: seq<u8>,
                           st': State, d': Disk, log': seq<SectorWrite>)
    requires Ready(st, d, k, off, data)
  {
    && st' == Committed(st, d, k, off, data)
    && d' == Apply(Apply(d, DataWrites(st, d, k, off, data)), MetadataWrites(st'))
    && log' == log + DataWrites(st, d, k, off, data) + MetadataWrites(st')
  }

  /** The state, disk and log after one write. */
  ghost predicate Traced(st: State, d: Disk, log: seq<SectorWrite>, k: nat, off: nat, data: seq<u8>,
                         st': State, d': Disk, log': seq<SectorWrite>)
    requires Ready(st, d, k, off, data)
  {
    && st' == Committed(st, d, k, off, data) && d' == After(st, d, k, off, data)
    && log' == log + WriteTrace(st, d, k, off, data)
  }

  /** The three phases are the trace, and end in a sound state. */
  lemma PhasesTraced(st: State, d: Disk, log: seq<SectorWrite>, k: nat, off: nat, data: seq<u8>,
                     st': State, d': Disk, log': seq<SectorWrite>)
    requires Ready(st, d, k, off, data) && |d| < TWO_64 && InPhases(st, d, log, k, off, data, st', d', log')
    ensures Traced(st, d, log, k, off, data, st', d', log') && Sound(st', d', st')
  {
    CommittedSound(st, d, k, off, data);
    AfterIsPhases(st, d, k, off, data);
    LogConcat(log, DataWrites(st, d, k, off, data), MetadataWrites(st'));
  }

  lemma LogConcat(log: seq<SectorWrite>, a: seq<SectorWrite>, b: seq<SectorWrite>)
    ensures log + a + b == log + (a + b)
  {
  }

  lemma {:induction false} StripTwice(path: Name)
    ensures Strip(Strip(path)) == Strip(path)
    decreases |path|
  {
    if path != [] && path[0] == 0x2F {
      StripTwice(path[1..]);
    }
  }

  lemma ReadOne(d: Disk)
    requires |d| > 0
    ensures ReadBytes(d, 0, 1) == d[0]
  {
    ReadNext(d, 0, 0);
    assert ReadBytes(d, 0, 0) == [];
  }

  /** The sectors from off / 512 up to the one holding the last byte. */
  lemma ReadSpan(off: nat, n: nat, size: nat)
    requires off < size <= MAX_FILE_BYTES && off + n <= size
    ensures var first, last := off / SECTOR, (off + n + 511) / SECTOR;
      && first <= last <= SectorsFor(size) <= 128
      && off % SECTOR + n <= (last - first) * SECTOR
      && (last == first <==> n == 0 && off % SECTOR == 0)
  {
  }

  lemma SpanByte(start: nat, off: nat, i: nat)
    ensures start + off / SECTOR + (off % SECTOR + i) / SECTOR == start + (off + i) / SECTOR
    ensures (off % SECTOR + i) % SECTOR == (off + i) % SECTOR
  {
  }

  /** The bytes cut out of the sectors read are those of the file. */
  lemma SpanBytes(d: Disk, e: Entry, off: nat, n: nat, count: nat)
    requires e.start + off / SECTOR + count <= |d| && off % SECTOR + n <= count * SECTOR && off + n <= e.size
    ensures Sub(ReadBytes(d, e.start + off / SECTOR, count), off % SECTOR, n) == Sub(FileBytes(d, e), off, n)
  {
    var read, file := Sub(ReadBytes(d, e.start + off / SECTOR, count), off % SECTOR, n), Sub(FileBytes(d, e), off, n);
    forall i | 0 <= i < n
      ensures read[i] == file[i]
    {
      SpanByte(e.start, off, i);
    }
  }
}
