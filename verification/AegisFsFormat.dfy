/** On-disk structures of fs/aegisfs.c: 512-byte sectors, the packed superblock and directory entry,
    and the directory checksum. */
module AegisFsFormat {
  import opened MachineInts
  import opened Bytes
  import opened Arith

  const SECTOR := 512
  const MAGIC := 0x53464741
  const VERSION := 1
  const MAX_FILES := 64
  const NAME_MAX := 80
  const DIR_LBA := 1
  const DIR_SECTORS := 16
  const DATA_LBA := 17
  const MAX_FILE_BYTES := 65536
  const ENTRY_BYTES := 128
  const DIR_BYTES := 8192

  type Sector = s: seq<u8> | |s| == 512 witness seq(512, _ => 0)
  type Disk = seq<Sector>

  datatype Superblock = Superblock(magic: u32, version: u32, generation: u32, fileCount: u32, nextFree: u64,
                                   partitionBlocks: u64, directoryCrc: u32, flags: u32, reserved: seq<u8>)

  datatype Entry = Entry(valid: u32, generation: u32, start: u64, sectors: u32, size: u32, crc: u32,
                         name: seq<u8>, reserved: seq<u8>)

  predicate GoodSb(s: Superblock) {
    |s.reserved| == 472
  }

  predicate GoodFields(e: Entry) {
    |e.name| == NAME_MAX && |e.reserved| == 20
  }

  // ---------------------------------------------------------------- packed structures

  function EncodeSb(s: Superblock): (b: Sector)
    requires GoodSb(s)
    ensures Whole(b)
  {
    Le(s.magic, 4) + Le(s.version, 4) + Le(s.generation, 4) + Le(s.fileCount, 4) + Le(s.nextFree, 8)
    + Le(s.partitionBlocks, 8) + Le(s.directoryCrc, 4) + Le(s.flags, 4) + s.reserved
  }

  function DecodeSb(b: Sector): (s: Superblock)
    ensures GoodSb(s)
  {
    PowersOf256();
    Superblock(LeAt(b, 0, 4), LeAt(b, 4, 4), LeAt(b, 8, 4), LeAt(b, 12, 4), LeAt(b, 16, 8), LeAt(b, 24, 8),
               LeAt(b, 32, 4), LeAt(b, 36, 4), Sub(b, 40, 472))
  }

  lemma SuperblockRoundTrip(s: Superblock)
    requires GoodSb(s)
    ensures DecodeSb(EncodeSb(s)) == s
  {
    PowersOf256();
    var b := EncodeSb(s);
    LeAtStored(b, 0, s.magic, 4);
    LeAtStored(b, 4, s.version, 4);
    LeAtStored(b, 8, s.generation, 4);
    LeAtStored(b, 12, s.fileCount, 4);
    LeAtStored(b, 16, s.nextFree, 8);
    LeAtStored(b, 24, s.partitionBlocks, 8);
    LeAtStored(b, 32, s.directoryCrc, 4);
    LeAtStored(b, 36, s.flags, 4);
    assert Sub(b, 40, 472) == s.reserved;
  }

  function EncodeEntry(e: Entry): (b: seq<u8>)
    requires GoodFields(e)
    ensures |b| == ENTRY_BYTES
  {
    Le(e.valid, 4) + Le(e.generation, 4) + Le(e.start, 8) + Le(e.sectors, 4) + Le(e.size, 4) + Le(e.crc, 4)
    + e.name + e.reserved
  }

  function DecodeEntry(b: seq<u8>): (e: Entry)
    requires |b| == ENTRY_BYTES
    ensures GoodFields(e)
  {
    PowersOf256();
    Entry(LeAt(b, 0, 4), LeAt(b, 4, 4), LeAt(b, 8, 8), LeAt(b, 16, 4), LeAt(b, 20, 4), LeAt(b, 24, 4),
          Sub(b, 28, 80), Sub(b, 108, 20))
  }

  lemma EntryRoundTrip(e: Entry)
    requires GoodFields(e)
    ensures DecodeEntry(EncodeEntry(e)) == e
  {
    PowersOf256();
    var b := EncodeEntry(e);
    LeAtStored(b, 0, e.valid, 4);
    LeAtStored(b, 4, e.generation, 4);
    LeAtStored(b, 8, e.start, 8);
    LeAtStored(b, 16, e.sectors, 4);
    LeAtStored(b, 20, e.size, 4);
    LeAtStored(b, 24, e.crc, 4);
    assert Sub(b, 28, 80) == e.name;
    assert Sub(b, 108, 20) == e.reserved;
  }

  // ---------------------------------------------------------------- sectors

  function ByteAt(d: Disk, lba: nat, i: nat): u8
    requires lba + i / SECTOR < |d|
  {
    d[lba + i / SECTOR][i % SECTOR]
  }

  /** `count` sectors from `lba`, as one buffer. */
  function ReadBytes(d: Disk, lba: nat, count: nat): (b: seq<u8>)
    requires lba + count <= |d|
    ensures |b| == count * SECTOR
  {
    seq(count * SECTOR, i requires 0 <= i < count * SECTOR => ByteAt(d, lba, i))
  }

  lemma ReadNext(d: Disk, lba: nat, i: nat)
    requires lba + i < |d|
    ensures ReadBytes(d, lba, i + 1) == ReadBytes(d, lba, i) + d[lba + i]
  {
    var b := ReadBytes(d, lba, i) + d[lba + i];
    forall j | 0 <= j < (i + 1) * SECTOR
      ensures ByteAt(d, lba, j) == b[j]
    {
      if j >= i * SECTOR {
        assert j / SECTOR == i && j % SECTOR == j - i * SECTOR;
      }
    }
  }

  predicate Whole(buf: seq<u8>) {
    |buf| % SECTOR == 0
  }

  function SectorOf(buf: seq<u8>, k: nat): Sector
    requires SECTOR * k + SECTOR <= |buf|
  {
    Sub(buf, SECTOR * k, SECTOR)
  }

  function SectorAfter(d: Disk, lba: nat, buf: seq<u8>, s: nat): Sector
    requires Whole(buf) && lba + |buf| / SECTOR <= |d| && s < |d|
  {
    if lba <= s < lba + |buf| / SECTOR then SectorOf(buf, s - lba) else d[s]
  }

  /** The buffer written over the sectors from `lba`. */
  function WriteBytes(d: Disk, lba: nat, buf: seq<u8>): (d': Disk)
    requires Whole(buf) && lba + |buf| / SECTOR <= |d|
    ensures |d'| == |d|
  {
    seq(|d|, s requires 0 <= s < |d| => SectorAfter(d, lba, buf, s))
  }

  lemma WrittenByte(d: Disk, lba: nat, buf: seq<u8>, i: nat)
    requires Whole(buf) && lba + |buf| / SECTOR <= |d| && i < |buf|
    ensures lba + i / SECTOR < |d| && ByteAt(WriteBytes(d, lba, buf), lba, i) == buf[i]
  {
    assert i == SECTOR * (i / SECTOR) + i % SECTOR;
  }

  lemma ReadBack(d: Disk, lba: nat, buf: seq<u8>)
    requires Whole(buf) && lba + |buf| / SECTOR <= |d|
    ensures ReadBytes(WriteBytes(d, lba, buf), lba, |buf| / SECTOR) == buf
  {
    var d' := WriteBytes(d, lba, buf);
    forall i | 0 <= i < |buf|
      ensures ReadBytes(d', lba, |buf| / SECTOR)[i] == buf[i]
    {
      WrittenByte(d, lba, buf, i);
    }
  }

  /** The two disks agree on the sectors lo .. hi - 1. */
  ghost predicate SameSectors(d: Disk, d': Disk, lo: nat, hi: nat) {
    |d'| == |d| && forall s | lo <= s < hi && s < |d| :: d'[s] == d[s]
  }

  lemma SameRead(d: Disk, d': Disk, lo: nat, hi: nat, lba: nat, count: nat)
    requires SameSectors(d, d', lo, hi) && lo <= lba && lba + count <= hi && lba + count <= |d|
    ensures ReadBytes(d', lba, count) == ReadBytes(d, lba, count)
  {
    forall i | 0 <= i < count * SECTOR
      ensures ByteAt(d', lba, i) == ByteAt(d, lba, i)
    {
    }
  }

  // ---------------------------------------------------------------- sector-by-sector writes

  datatype SectorWrite = SectorWrite(lba: nat, data: Sector)

  /** The device after the writes, in order. */
  function Apply(d: Disk, ws: seq<SectorWrite>): (d': Disk)
    ensures |d'| == |d|
  {
    if ws == [] then d
    else
      var w, p := ws[|ws| - 1], Apply(d, ws[..|ws| - 1]);
      if w.lba < |d| then p[w.lba := w.data] else p
  }

  /** A buffer goes to the device one sector at a time. */
  function Writes(lba: nat, buf: seq<u8>): (ws: seq<SectorWrite>)
    requires Whole(buf)
    ensures |ws| == |buf| / SECTOR
  {
    seq(|buf| / SECTOR, i requires 0 <= i < |buf| / SECTOR => SectorWrite(lba + i, SectorOf(buf, i)))
  }

  lemma {:induction false} ApplyPrefix(d: Disk, lba: nat, buf: seq<u8>, j: nat)
    requires Whole(buf) && lba + |buf| / SECTOR <= |d| && j <= |buf| / SECTOR
    ensures Whole(Sub(buf, 0, SECTOR * j)) && |Sub(buf, 0, SECTOR * j)| / SECTOR == j
    ensures Apply(d, Writes(lba, buf)[..j]) == WriteBytes(d, lba, Sub(buf, 0, SECTOR * j))
  {
    if j == 0 {
      assert WriteBytes(d, lba, Sub(buf, 0, 0)) == d;
    } else {
      ApplyPrefix(d, lba, buf, j - 1);
      var ws := Writes(lba, buf);
      assert ws[..j][..j - 1] == ws[..j - 1];
      var w := ws[j - 1];
      var a, b := WriteBytes(d, lba, Sub(buf, 0, SECTOR * (j - 1))), WriteBytes(d, lba, Sub(buf, 0, SECTOR * j));
      forall s | 0 <= s < |d|
        ensures a[w.lba := w.data][s] == b[s]
      {
        if lba <= s < lba + j - 1 {
          assert SectorOf(Sub(buf, 0, SECTOR * (j - 1)), s - lba) == SectorOf(Sub(buf, 0, SECTOR * j), s - lba);
        }
      }
    }
  }

  lemma ApplyAll(d: Disk, lba: nat, buf: seq<u8>)
    requires Whole(buf) && lba + |buf| / SECTOR <= |d|
    ensures Apply(d, Writes(lba, buf)) == WriteBytes(d, lba, buf)
  {
    var n := |buf| / SECTOR;
    ApplyPrefix(d, lba, buf, n);
    assert Writes(lba, buf)[..n] == Writes(lba, buf);
    var p := Sub(buf, 0, SECTOR * n);
    assert p == buf;
  }

  lemma {:induction false} ApplyConcat(d: Disk, a: seq<SectorWrite>, b: seq<SectorWrite>)
    ensures Apply(d, a + b) == Apply(Apply(d, a), b)
  {
    if b == [] {
      assert a + b == a;
    } else {
      ApplyConcat(d, a, b[..|b| - 1]);
      assert (a + b)[..|a + b| - 1] == a + b[..|b| - 1];
    }
  }

  // ---------------------------------------------------------------- the directory

  ghost predicate GoodDir(es: seq<Entry>) {
    |es| == MAX_FILES && forall i | 0 <= i < MAX_FILES :: GoodFields(es[i])
  }

  function DirByte(es: seq<Entry>, i: nat): u8
    requires GoodDir(es) && i < DIR_BYTES
  {
    EncodeEntry(es[i / ENTRY_BYTES])[i % ENTRY_BYTES]
  }

  function DirBytes(es: seq<Entry>): (b: seq<u8>)
    requires GoodDir(es)
    ensures |b| == DIR_BYTES && Whole(b)
  {
    seq(DIR_BYTES, i requires 0 <= i < DIR_BYTES => DirByte(es, i))
  }

  function ParseDir(b: seq<u8>): (es: seq<Entry>)
    requires |b| == DIR_BYTES
    ensures GoodDir(es)
  {
    seq(MAX_FILES, k requires 0 <= k < MAX_FILES => DecodeEntry(Sub(b, ENTRY_BYTES * k, ENTRY_BYTES)))
  }

  lemma DirSlice(es: seq<Entry>, k: nat)
    requires GoodDir(es) && k < MAX_FILES
    ensures Sub(DirBytes(es), ENTRY_BYTES * k, ENTRY_BYTES) == EncodeEntry(es[k])
  {
    forall i | 0 <= i < ENTRY_BYTES
      ensures DirByte(es, ENTRY_BYTES * k + i) == EncodeEntry(es[k])[i]
    {
      var x := ENTRY_BYTES * k + i;
      assert x / ENTRY_BYTES == k && x % ENTRY_BYTES == i;
    }
  }

  lemma DirRoundTrip(es: seq<Entry>)
    requires GoodDir(es)
    ensures ParseDir(DirBytes(es)) == es
  {
    forall k | 0 <= k < MAX_FILES
      ensures ParseDir(DirBytes(es))[k] == es[k]
    {
      DirSlice(es, k);
      EntryRoundTrip(es[k]);
    }
  }

  // ---------------------------------------------------------------- CRC-32

  /** One step of division by the reflected polynomial. */
  function CrcRound(c: bv32): bv32 {
    (c >> 1) ^ ((0 - (c & 1)) & 0xedb88320)
  }

  function CrcRounds(c: bv32, n: nat): bv32 {
    if n == 0 then c else CrcRound(CrcRounds(c, n - 1))
  }

  function Bits(): nat { 8 }

  function CrcByte(c: bv32, b: u8): bv32 {
    CrcRounds(c ^ (b as bv32), Bits())
  }

  function CrcState(data: seq<u8>, n: nat): bv32
    requires n <= |data|
  {
    if n == 0 then 0xffff_ffff else CrcByte(CrcState(data, n - 1), data[n - 1])
  }

  function Width(): nat { 32 }

  lemma WordSize()
    ensures PowerOf2(Width()) == TWO_32
  {
    assert PowerOf2(8) == 0x100;
    assert PowerOf2(16) == 0x100 * PowerOf2(8);
    assert PowerOf2(24) == 0x100 * PowerOf2(16);
    assert PowerOf2(32) == 0x100 * PowerOf2(24);
  }

  /** The number in the low `n` bits. */
  function LowBits(c: bv32, n: nat): (r: nat)
    ensures r < PowerOf2(n)
  {
    if n == 0 then 0 else (if c & 1 == 1 then 1 else 0) + 2 * LowBits(c >> 1, n - 1)
  }

  function AsWord(c: bv32): u32 {
    WordSize();
    LowBits(c, Width())
  }

  function Crc(data: seq<u8>): u32 {
    AsWord(!CrcState(data, |data|))
  }

  method CrcFeed(c0: bv32, b: u8) returns (c: bv32)
    ensures c == CrcByte(c0, b)
  {
    c := c0 ^ (b as bv32);
    ghost var start := c;
    var j := 0;
    while j < Bits()
      invariant j <= Bits() && c == CrcRounds(start, j)
    {
      c := CrcRound(c);
      j := j + 1;
    }
  }

  method CrcLoop(data: seq<u8>) returns (c: bv32)
    ensures c == CrcState(data, |data|)
  {
    c := 0xffff_ffff;
    for i := 0 to |data|
      invariant c == CrcState(data, i)
    {
      c := CrcFeed(c, data[i]);
    }
  }

  method Crc32(data: seq<u8>) returns (r: u32)
    ensures r == Crc(data)
  {
    var c := CrcLoop(data);
    r := AsWord(!c);
  }
}
