/** What fs/aegisfs.c keeps in memory and on disk, as values: the file map a client sees, the invariant
    that makes copy-on-write work, and one write as a state change plus a list of sector writes. */
module AegisFsSpec {
  import opened MachineInts
  import opened Bytes
  import opened AegisFsFormat

  /** A C string: no NUL inside. */
  type Name = s: seq<u8> | 0 !in s

  datatype State = State(sb: Superblock, entries: seq<Entry>)

  // ---------------------------------------------------------------- names

  /** The NUL-terminated name in an 80-byte field is `n`. */
  predicate NameIs(field: seq<u8>, n: Name) {
    |n| < |field| && field[|n|] == 0 && forall i | 0 <= i < |n| :: field[i] == n[i]
  }

  lemma NameUnique(field: seq<u8>, n: Name, m: Name)
    requires NameIs(field, n) && NameIs(field, m)
    ensures n == m
  {
    assert forall i | 0 <= i < |n| :: field[i] == n[i] && n[i] in n;
    assert forall i | 0 <= i < |m| :: field[i] == m[i] && m[i] in m;
    assert |n| == |m|;
  }

  /** copy_name: at most 79 bytes and a NUL, into a zeroed field. */
  function NameField(n: Name): (f: seq<u8>)
    ensures |f| == NAME_MAX
  {
    seq(NAME_MAX, i requires 0 <= i < NAME_MAX => if i < |n| && i < NAME_MAX - 1 then n[i] else 0)
  }

  function Stored(n: Name): (t: Name)
    ensures |t| < NAME_MAX && (|n| < NAME_MAX ==> t == n)
  {
    if |n| < NAME_MAX then n else n[..NAME_MAX - 1]
  }

  lemma NameFieldIs(n: Name)
    ensures NameIs(NameField(n), Stored(n))
  {
  }

  predicate Matches(e: Entry, n: Name) {
    e.valid != 0 && NameIs(e.name, n)
  }

  function LookupFrom(es: seq<Entry>, n: Name, i: nat): (r: Option<nat>)
    requires i <= |es|
    ensures r.Some? ==> i <= r.value < |es| && Matches(es[r.value], n)
    ensures r.Some? ==> forall j | i <= j < r.value :: !Matches(es[j], n)
    ensures r.None? ==> forall j | i <= j < |es| :: !Matches(es[j], n)
    decreases |es| - i
  {
    if i == |es| then None else if Matches(es[i], n) then Some(i) else LookupFrom(es, n, i + 1)
  }

  /** find_entry: the first valid entry of that name. */
  function Lookup(es: seq<Entry>, n: Name): Option<nat> {
    LookupFrom(es, n, 0)
  }

  lemma LookupIs(es: seq<Entry>, n: Name, k: nat)
    requires k < |es| && Matches(es[k], n) && forall j | 0 <= j < k :: !Matches(es[j], n)
    ensures Lookup(es, n) == Some(k)
  {
  }

  function FreeFrom(es: seq<Entry>, i: nat): (r: Option<nat>)
    requires i <= |es|
    ensures r.Some? ==> i <= r.value < |es| && es[r.value].valid == 0
    ensures r.Some? ==> forall j | i <= j < r.value :: es[j].valid != 0
    ensures r.None? ==> forall j | i <= j < |es| :: es[j].valid != 0
    decreases |es| - i
  {
    if i == |es| then None else if es[i].valid == 0 then Some(i) else FreeFrom(es, i + 1)
  }

  /** The slot a write uses: the named entry, or else the first unused one. */
  function SlotFor(es: seq<Entry>, n: Name): (r: Option<nat>) {
    match Lookup(es, n)
    case Some(k) => Some(k)
    case None => FreeFrom(es, 0)
  }

  // ---------------------------------------------------------------- the file map

  function FileByte(d: Disk, start: nat, i: nat): u8 {
    if start + i / SECTOR < |d| then ByteAt(d, start, i) else 0
  }

  function FileBytes(d: Disk, e: Entry): (s: seq<u8>)
    ensures |s| == e.size
  {
    seq(e.size, i requires 0 <= i < e.size => FileByte(d, e.start, i))
  }

  /** The specification: a partial map from names to contents. */
  function Content(es: seq<Entry>, d: Disk, n: Name): Option<seq<u8>> {
    match Lookup(es, n)
    case None => None
    case Some(k) => Some(FileBytes(d, es[k]))
  }

  /** `data` laid over `was` at `off`; a gap reads as zeros. */
  function Overlay(was: seq<u8>, off: nat, data: seq<u8>): (s: seq<u8>)
    ensures |s| == Max(|was|, off + |data|)
  {
    seq(Max(|was|, off + |data|), i requires 0 <= i < Max(|was|, off + |data|) =>
      if off <= i < off + |data| then data[i - off] else if i < |was| then was[i] else 0)
  }

  // ---------------------------------------------------------------- the invariant

  function SectorsFor(size: nat): nat {
    (size + 511) / 512
  }

  /** A live extent lies in [DATA_LBA, limit) and is zero after the file's last byte. */
  ghost predicate GoodExtent(e: Entry, d: Disk, limit: nat) {
    && e.size <= MAX_FILE_BYTES
    && (e.size > 0 ==>
          && e.sectors == SectorsFor(e.size)
          && DATA_LBA <= e.start && e.start + e.sectors <= limit
          && forall i | e.size <= i < e.sectors * SECTOR :: FileByte(d, e.start, i) == 0)
  }

  ghost predicate Apart(a: Entry, b: Entry) {
    a.size > 0 && b.size > 0 ==> a.start + a.sectors <= b.start || b.start + b.sectors <= a.start
  }

  ghost predicate Inv(st: State, d: Disk) {
    && GoodSb(st.sb) && GoodDir(st.entries)
    && st.sb.magic == MAGIC && st.sb.version == VERSION
    && st.sb.partitionBlocks == |d| && DATA_LBA <= st.sb.nextFree <= |d|
    && (forall i | 0 <= i < MAX_FILES && st.entries[i].valid != 0 :: GoodExtent(st.entries[i], d, st.sb.nextFree))
    && (forall i, j | 0 <= i < j < MAX_FILES && st.entries[i].valid != 0 && st.entries[j].valid != 0
          :: Apart(st.entries[i], st.entries[j]))
    && (forall i, j | 0 <= i < j < MAX_FILES && st.entries[j].valid != 0 :: st.entries[i].valid != 0)
  }

  // ---------------------------------------------------------------- one write

  function FreshEntry(n: Name): (e: Entry)
    ensures GoodFields(e)
  {
    Entry(1, 0, 0, 0, 0, 0, NameField(n), Zeros(20))
  }

  /** find_entry or alloc_entry: slot `k` now belongs to the file. */
  function Prepared(st: State, n: Name, k: nat): State
    requires k < |st.entries|
  {
    if st.entries[k].valid != 0 then st
    else State(st.sb.(fileCount := (st.sb.fileCount + 1) % TWO_32), st.entries[k := FreshEntry(n)])
  }

  function NewSize(e: Entry, off: nat, data: seq<u8>): nat {
    Max(e.size, off + |data|)
  }

  function ImageByte(d: Disk, e: Entry, off: nat, data: seq<u8>, i: nat): u8 {
    if off <= i < off + |data| then data[i - off]
    else if i < SectorsFor(e.size) * SECTOR then FileByte(d, e.start, i)
    else 0
  }

  /** The bounce buffer: the old sectors, zero extended, with the new bytes copied over. */
  function Image(d: Disk, e: Entry, off: nat, data: seq<u8>): (b: seq<u8>)
    ensures |b| == SectorsFor(NewSize(e, off, data)) * SECTOR && Whole(b)
  {
    seq(SectorsFor(NewSize(e, off, data)) * SECTOR,
        i requires 0 <= i < SectorsFor(NewSize(e, off, data)) * SECTOR => ImageByte(d, e, off, data, i))
  }

  /** There is room on the partition for the new extent. */
  predicate Fits(st: State, e: Entry, off: nat, data: seq<u8>) {
    st.sb.nextFree + SectorsFor(NewSize(e, off, data)) <= st.sb.partitionBlocks
  }

  function NextGeneration(g: u32): u32 {
    (g + 1) % TWO_32
  }

  /** The entry after its file moved to a new extent. */
  function Relocated(e: Entry, lba: u64, size: nat, generation: u32, crc: u32): (e': Entry)
    requires size <= MAX_FILE_BYTES
  {
    e.(start := lba, sectors := SectorsFor(size), size := size, generation := generation, crc := crc)
  }

  /** The superblock after an extent for `size` bytes was taken. */
  function Advanced(sb: Superblock, size: nat): Superblock
    requires sb.nextFree + SectorsFor(size) <= sb.partitionBlocks
  {
    sb.(generation := NextGeneration(sb.generation), nextFree := sb.nextFree + SectorsFor(size))
  }

  /** The superblock with the checksum of the directory it goes with. */
  function WithCrc(sb: Superblock, es: seq<Entry>): Superblock
    requires GoodDir(es)
  {
    sb.(directoryCrc := Crc(DirBytes(es)))
  }

  function NewEntry(st: State, d: Disk, k: nat, off: nat, data: seq<u8>): (e: Entry)
    requires k < |st.entries| && off + |data| <= MAX_FILE_BYTES && st.entries[k].size <= MAX_FILE_BYTES
  {
    var size := NewSize(st.entries[k], off, data);
    Relocated(st.entries[k], st.sb.nextFree, size, NextGeneration(st.sb.generation),
              Crc(Sub(Image(d, st.entries[k], off, data), 0, size)))
  }

  function Committed(st: State, d: Disk, k: nat, off: nat, data: seq<u8>): (st': State)
    requires GoodSb(st.sb) && GoodDir(st.entries)
    requires k < |st.entries| && off + |data| <= MAX_FILE_BYTES && st.entries[k].size <= MAX_FILE_BYTES
    requires Fits(st, st.entries[k], off, data)
    ensures GoodSb(st'.sb) && GoodDir(st'.entries)
  {
    var es := st.entries[k := NewEntry(st, d, k, off, data)];
    State(WithCrc(Advanced(st.sb, NewSize(st.entries[k], off, data)), es), es)
  }

  /** Directory, then superblock. */
  function MetadataWrites(st: State): seq<SectorWrite>
    requires GoodSb(st.sb) && GoodDir(st.entries)
  {
    Writes(DIR_LBA, DirBytes(st.entries)) + Writes(0, EncodeSb(st.sb))
  }

  /** Data, then directory, then superblock. */
  function WriteTrace(st: State, d: Disk, k: nat, off: nat, data: seq<u8>): seq<SectorWrite>
    requires GoodSb(st.sb) && GoodDir(st.entries)
    requires k < |st.entries| && off + |data| <= MAX_FILE_BYTES && st.entries[k].size <= MAX_FILE_BYTES
    requires Fits(st, st.entries[k], off, data)
  {
    Writes(st.sb.nextFree, Image(d, st.entries[k], off, data)) + MetadataWrites(Committed(st, d, k, off, data))
  }
}
