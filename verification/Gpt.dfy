/** The GUID partition table, as `build` of tools/image/build-pr1-uefi-disk.py writes it and `validate` of
    tools/image/validate-pr1-uefi-disk.py reads it (section 5.3 of the UEFI specification).  CRC-32, the same library
    function on both sides, is the parameter `crc`. */
module Gpt {
  import opened MachineInts
  import opened Bytes
  import opened Fat32Format
  import opened Fat32Builder

  const HEADER_SIZE: nat := 92
  const ENTRY_SIZE: nat := 128
  const ENTRY_COUNT: nat := 128

  type Guid = g: seq<u8> | |g| == 16 witness Zeros(16)
  type Crc = seq<u8> -> u32

  function U64At(m: seq<u8>, off: nat): (n: u64)
    requires off + 8 <= |m|
  {
    U32At(m, off) + TWO_32 * U32At(m, off + 4)
  }

  function Pack64(n: u64): (s: seq<u8>)
    ensures |s| == 8
  {
    Pack32(n % TWO_32) + Pack32(n / TWO_32)
  }

  /** A packed number reads back wherever its bytes stand. */
  lemma Packed64(m: seq<u8>, off: nat, n: u64)
    requires off + 8 <= |m| && Sub(m, off, 8) == Pack64(n)
    ensures U64At(m, off) == n
  {
    var lo, hi := Pack32(n % TWO_32), Pack32(n / TWO_32);
    assert Sub(m, off, 4) == Sub(Sub(m, off, 8), 0, 4) == Sub(lo, 0, 4);
    assert Sub(m, off + 4, 4) == Sub(Sub(m, off, 8), 4, 4) == Sub(hi, 0, 4);
    U32Moved(m, off, lo, 0);
    U32Moved(m, off + 4, hi, 0);
  }

  /** "EFI PART". */
  function GptMark(): (s: seq<u8>)
    ensures |s| == 8
  {
    [0x45, 0x46, 0x49, 0x20, 0x50, 0x41, 0x52, 0x54]
  }

  /** The ESP type GUID as it stands on disk. */
  function EspGuid(): Guid {
    [0x28, 0x73, 0x2A, 0xC1, 0x1F, 0xF8, 0xD2, 0x11, 0xBA, 0x4B, 0x00, 0xA0, 0xC9, 0x3E, 0xC9, 0x3B]
  }

  datatype PartitionEntry = PartitionEntry(kind: Guid, first: nat, last: nat)

  /** The partition search of `validate` over entries `k` to `n`: exactly one ESP, with a non-empty range. */
  function FindEsp(entries: nat -> PartitionEntry, n: nat, k: nat, esp: Option<(nat, nat)>): (r: Option<(nat, nat)>)
    decreases n - k
  {
    if k >= n then esp
    else
      var e := entries(k);
      if e.kind != EspGuid() then FindEsp(entries, n, k + 1, esp)
      else if esp.Some? || e.last < e.first then None
      else FindEsp(entries, n, k + 1, Some((e.first, e.last - e.first + 1)))
  }

  /** Among entries `k` to `n` the only ESP is entry `j`. */
  predicate OnlyEsp(entries: nat -> PartitionEntry, n: nat, k: nat, j: nat) {
    k <= j < n && entries(j).kind == EspGuid() && forall i: nat | k <= i < n && i != j :: entries(i).kind != EspGuid()
  }

  predicate NonEmpty(e: PartitionEntry) {
    e.first <= e.last
  }

  /** First sector and length. */
  function RangeOf(e: PartitionEntry): (nat, nat)
    requires NonEmpty(e)
  {
    (e.first, e.last - e.first + 1)
  }

  lemma {:induction false} OnlyIsFound(entries: nat -> PartitionEntry, n: nat, k: nat, j: nat)
    requires OnlyEsp(entries, n, k, j)
    ensures FindEsp(entries, n, k, None) == if NonEmpty(entries(j)) then Some(RangeOf(entries(j))) else None
    decreases n - k
  {
    if k < j {
      OnlyIsFound(entries, n, k + 1, j);
    } else if NonEmpty(entries(j)) {
      FindsTheEsp(entries, n, k + 1, Some(RangeOf(entries(j))));
    }
  }

  lemma {:induction false} SecondRefused(entries: nat -> PartitionEntry, n: nat, k: nat, esp: (nat, nat), j: nat)
    requires k <= j < n && entries(j).kind == EspGuid()
    ensures FindEsp(entries, n, k, Some(esp)) == None
    decreases n - k
  {
    if entries(k).kind != EspGuid() {
      SecondRefused(entries, n, k + 1, esp, j);
    }
  }

  lemma {:induction false} FoundIsOnly(entries: nat -> PartitionEntry, n: nat, k: nat) returns (j: nat)
    requires FindEsp(entries, n, k, None).Some?
    ensures OnlyEsp(entries, n, k, j) && NonEmpty(entries(j))
    decreases n - k
  {
    if entries(k).kind != EspGuid() {
      j := FoundIsOnly(entries, n, k + 1);
    } else {
      j := k;
      if i: nat :| k + 1 <= i < n && entries(i).kind == EspGuid() {
        SecondRefused(entries, n, k + 1, RangeOf(entries(k)), i);
      }
    }
  }

  /** The search succeeds exactly when one entry alone is an ESP and its range is not empty, and gives that range. */
  lemma FindEspIff(entries: nat -> PartitionEntry, n: nat)
    ensures FindEsp(entries, n, 0, None).Some? <==> exists j: nat :: OnlyEsp(entries, n, 0, j) && NonEmpty(entries(j))
    ensures forall j: nat | OnlyEsp(entries, n, 0, j) && NonEmpty(entries(j)) ::
      FindEsp(entries, n, 0, None) == Some(RangeOf(entries(j)))
  {
    forall j: nat | OnlyEsp(entries, n, 0, j) && NonEmpty(entries(j))
      ensures FindEsp(entries, n, 0, None) == Some(RangeOf(entries(j)))
    {
      OnlyIsFound(entries, n, 0, j);
    }
    if FindEsp(entries, n, 0, None).Some? {
      var j := FoundIsOnly(entries, n, 0);
    }
  }

  /** With no ESP left the search keeps what it has. */
  lemma {:induction false} FindsTheEsp(entries: nat -> PartitionEntry, n: nat, k: nat, esp: Option<(nat, nat)>)
    requires forall i: nat | k <= i < n :: entries(i).kind != EspGuid()
    ensures FindEsp(entries, n, k, esp) == esp
    decreases n - k
  {
    if k < n {
      FindsTheEsp(entries, n, k + 1, esp);
    }
  }

  // Reading

  /** Entry `k` of the partition array; the bytes past its end read as an unused entry. */
  function EntryOf(entries: seq<u8>, size: nat, k: nat): PartitionEntry
    requires size >= ENTRY_SIZE
  {
    if k * size + size > |entries| then PartitionEntry(Zeros(16), 0, 0)
    else PartitionEntry(Sub(entries, k * size, 16), U64At(entries, k * size + 32), U64At(entries, k * size + 40))
  }

  function Table(entries: seq<u8>, size: nat): nat -> PartitionEntry
    requires size >= ENTRY_SIZE
  {
    (k: nat) => EntryOf(entries, size, k)
  }

  /** What the header says about the partition array. */
  datatype Array = Array(lba: nat, count: nat, each: nat, crc: u32)

  /** The header checks of `validate`. */
  function ReadHeader(image: seq<u8>, crc: Crc): (r: Option<Array>)
    ensures r.Some? ==> r.value.each >= ENTRY_SIZE
  {
    if |image| < 4 * SECTOR || |image| % SECTOR != 0 || image[510] != 0x55 || image[511] != 0xAA then None
    else
      var header := Sub(image, SECTOR, SECTOR);
      var size := U32At(header, 12);
      if Sub(header, 0, 8) != GptMark() || size < HEADER_SIZE || size > SECTOR then None
      else if U32At(header, 16) != crc(Sub(Splice(header, 16, Zeros(4)), 0, size)) then None
      else
        var a := Array(U64At(header, 72), U32At(header, 80), U32At(header, 84), U32At(header, 88));
        if a.count == 0 || a.each < ENTRY_SIZE || a.each % 8 != 0 then None else Some(a)
  }

  /** The partition array, if it lies on the disk and its CRC matches. */
  function ReadEntries(image: seq<u8>, a: Array, crc: Crc): (r: Option<seq<u8>>) {
    var off, n := a.lba * SECTOR, a.count * a.each;
    if off + n > |image| || crc(Sub(image, off, n)) != a.crc then None else Some(Sub(image, off, n))
  }

  /** The ESP's first sector and length. */
  function ReadGpt(image: seq<u8>, crc: Crc): (r: Option<(nat, nat)>) {
    var a := ReadHeader(image, crc);
    if a.None? then None
    else
      var entries := ReadEntries(image, a.value, crc);
      if entries.None? then None else FindEsp(Table(entries.value, a.value.each), a.value.count, 0, None)
  }

  /** What the header in sector 1 says about the partition array. */
  function ArrayOf(image: seq<u8>): Array
    requires |image| >= 2 * SECTOR
  {
    var header := Sub(image, SECTOR, SECTOR);
    Array(U64At(header, 72), U32At(header, 80), U32At(header, 84), U32At(header, 88))
  }

  /** The header carries the mark and its own checksum. */
  predicate HeaderSealed(header: seq<u8>, crc: Crc)
    requires |header| == SECTOR
  {
    && Sub(header, 0, 8) == GptMark() && HEADER_SIZE <= U32At(header, 12) <= SECTOR
    && U32At(header, 16) == crc(Sub(Splice(header, 16, Zeros(4)), 0, U32At(header, 12)))
  }

  /** The array lies on the disk and has the checksum the header gives. */
  predicate ArraySealed(image: seq<u8>, a: Array, crc: Crc) {
    && a.count > 0 && a.each >= ENTRY_SIZE && a.each % 8 == 0
    && var off, n := a.lba * SECTOR, a.count * a.each; off + n <= |image| && crc(Sub(image, off, n)) == a.crc
  }

  predicate Sealed(image: seq<u8>, crc: Crc) {
    && |image| >= 4 * SECTOR && |image| % SECTOR == 0 && image[510] == 0x55 && image[511] == 0xAA
    && HeaderSealed(Sub(image, SECTOR, SECTOR), crc) && ArraySealed(image, ArrayOf(image), crc)
  }

  /** Its entries. */
  function EntriesOf(image: seq<u8>, crc: Crc): nat -> PartitionEntry
    requires Sealed(image, crc)
  {
    var a := ArrayOf(image);
    var off, n := a.lba * SECTOR, a.count * a.each;
    Table(Sub(image, off, n), a.each)
  }

  /** `esp` is the range of the only ESP of a sealed disk. */
  ghost predicate IsTheEsp(image: seq<u8>, crc: Crc, esp: (nat, nat)) {
    Sealed(image, crc) &&
    var entries, n := EntriesOf(image, crc), ArrayOf(image).count;
    exists j: nat :: OnlyEsp(entries, n, 0, j) && NonEmpty(entries(j)) && RangeOf(entries(j)) == esp
  }

  /** Reading finds a range exactly when it is that of the only ESP of a sealed disk. */
  lemma ReadGptIff(image: seq<u8>, crc: Crc, esp: (nat, nat))
    ensures ReadGpt(image, crc) == Some(esp) <==> IsTheEsp(image, crc, esp)
  {
    if Sealed(image, crc) {
      FindEspIff(EntriesOf(image, crc), ArrayOf(image).count);
    }
  }

  /** The partition search of `validate`. */
  method Search(entries: seq<u8>, each: nat, count: nat) returns (r: Option<(nat, nat)>)
    requires each >= ENTRY_SIZE
    ensures r == FindEsp(Table(entries, each), count, 0, None)
    ensures r.Some? <==> exists j: nat ::
      OnlyEsp(Table(entries, each), count, 0, j) && NonEmpty(EntryOf(entries, each, j))
  {
    ghost var table := Table(entries, each);
    r := None;
    FindEspIff(table, count);
    for k := 0 to count
      invariant FindEsp(table, count, k, r) == FindEsp(table, count, 0, None)
    {
      var e := EntryOf(entries, each, k);
      assert e == table(k);
      if e.kind == EspGuid() {
        if r.Some? || e.last < e.first {
          return None;
        }
        r := Some((e.first, e.last - e.first + 1));
      }
    }
  }

  /** The GPT part of `validate`. */
  method LocateEsp(image: seq<u8>, crc: Crc) returns (r: Option<(nat, nat)>)
    ensures r == ReadGpt(image, crc)
    ensures forall esp :: r == Some(esp) <==> IsTheEsp(image, crc, esp)
  {
    forall esp
      ensures ReadGpt(image, crc) == Some(esp) <==> IsTheEsp(image, crc, esp)
    {
      ReadGptIff(image, crc, esp);
    }
    var a := ReadHeader(image, crc);
    if a.None? {
      return None;
    }
    var entries := ReadEntries(image, a.value, crc);
    if entries.None? {
      return None;
    }
    r := Search(entries.value, a.value.each, a.value.count);
  }

  // Writing

  datatype Partition = Partition(kind: Guid, unique: Guid, first: u64, last: u64, name: seq<u8>)

  function Fields(kind: seq<u8>, unique: seq<u8>, first: seq<u8>, last: seq<u8>, name: seq<u8>): (e: seq<u8>) {
    kind + unique + first + last + Zeros(8) + name
  }

  /** gpt_entry; the name is 72 bytes of UTF-16. */
  function GptEntry(p: Partition): (e: seq<u8>)
    requires |p.name| == 72
    ensures |e| == ENTRY_SIZE
  {
    Fields(p.kind, p.unique, Pack64(p.first), Pack64(p.last), p.name)
  }

  lemma FieldsRead(entries: seq<u8>, at: nat, kind: seq<u8>, unique: seq<u8>, first: seq<u8>, last: seq<u8>,
    name: seq<u8>)
    requires |kind| == |unique| == 16 && |first| == |last| == 8 && |name| == 72
    requires at + 128 <= |entries| && Sub(entries, at, 128) == Fields(kind, unique, first, last, name)
    ensures Sub(entries, at, 16) == kind && Sub(entries, at + 32, 8) == first && Sub(entries, at + 40, 8) == last
  {
    var e := Fields(kind, unique, first, last, name);
    assert Sub(e, 0, 16) == kind && Sub(e, 32, 8) == first && Sub(e, 40, 8) == last;
    assert Sub(entries, at, 16) == Sub(Sub(entries, at, 128), 0, 16);
    assert Sub(entries, at + 32, 8) == Sub(Sub(entries, at, 128), 32, 8);
    assert Sub(entries, at + 40, 8) == Sub(Sub(entries, at, 128), 40, 8);
  }

  lemma EntryReads(entries: seq<u8>, p: Partition, k: nat)
    requires |p.name| == 72 && 128 * k + 128 <= |entries| && Sub(entries, 128 * k, 128) == GptEntry(p)
    ensures EntryOf(entries, ENTRY_SIZE, k) == PartitionEntry(p.kind, p.first, p.last)
  {
    FieldsRead(entries, 128 * k, p.kind, p.unique, Pack64(p.first), Pack64(p.last), p.name);
    Packed64(entries, 128 * k + 32, p.first);
    Packed64(entries, 128 * k + 40, p.last);
  }

  /** Three entries in front, the rest unused. */
  method LayEntries(a: seq<u8>, b: seq<u8>, c: seq<u8>) returns (entries: seq<u8>)
    requires |a| == |b| == |c| == 128
    ensures |entries| == ENTRY_COUNT * ENTRY_SIZE
    ensures Sub(entries, 0, 128) == a && Sub(entries, 128, 128) == b && Sub(entries, 256, 128) == c
    ensures forall i | 384 <= i < |entries| :: entries[i] == 0
  {
    entries := Zeros(ENTRY_COUNT * ENTRY_SIZE);
    entries := Splice(entries, 0, a);
    entries := Splice(entries, 128, b);
    entries := Splice(entries, 256, c);
  }

  /** An unused entry is not an ESP. */
  lemma UnusedEntry(entries: seq<u8>, k: nat)
    requires forall i | 384 <= i < |entries| :: entries[i] == 0
    requires 3 <= k
    ensures EntryOf(entries, ENTRY_SIZE, k).kind != EspGuid()
  {
    if k * ENTRY_SIZE + ENTRY_SIZE <= |entries| {
      assert Sub(entries, k * ENTRY_SIZE, 16)[0] == 0;
    } else {
      assert Zeros(16)[0] == 0;
    }
  }

  lemma EspFound(entries: seq<u8>, first: nat, last: nat, sectors: nat)
    requires EntryOf(entries, ENTRY_SIZE, 0) == PartitionEntry(EspGuid(), first, last) && first <= last
      && last - first + 1 == sectors
    requires forall k: nat | 1 <= k :: EntryOf(entries, ENTRY_SIZE, k).kind != EspGuid()
    ensures FindEsp(Table(entries, ENTRY_SIZE), ENTRY_COUNT, 0, None) == Some((first, sectors))
  {
    var table := Table(entries, ENTRY_SIZE);
    FindsTheEsp(table, ENTRY_COUNT, 1, Some((first, sectors)));
    assert table(0) == PartitionEntry(EspGuid(), first, last);
  }

  /** The three partitions in the first three entries, the rest unused: the search finds the ESP. */
  method WriteEntries(esp: Partition, sectors: nat, root: Partition, config: Partition) returns (entries: seq<u8>)
    requires |esp.name| == |root.name| == |config.name| == 72
    requires esp.kind == EspGuid() && sectors > 0 && esp.last - esp.first + 1 == sectors
    requires root.kind != EspGuid() && config.kind != EspGuid()
    ensures |entries| == ENTRY_COUNT * ENTRY_SIZE
    ensures FindEsp(Table(entries, ENTRY_SIZE), ENTRY_COUNT, 0, None) == Some((esp.first, sectors))
  {
    entries := LayEntries(GptEntry(esp), GptEntry(root), GptEntry(config));
    EntryReads(entries, esp, 0);
    EntryReads(entries, root, 1);
    EntryReads(entries, config, 2);
    forall k: nat | 1 <= k
      ensures EntryOf(entries, ENTRY_SIZE, k).kind != EspGuid()
    {
      if k >= 3 {
        UnusedEntry(entries, k);
      }
    }
    EspFound(entries, esp.first, esp.last, sectors);
  }

  method Put64(m: seq<u8>, off: nat, n: u64) returns (r: seq<u8>)
    requires off + 8 <= |m|
    ensures |r| == |m| && U64At(r, off) == n
    ensures forall i {:trigger r[i]} | 0 <= i < |m| && !(off <= i < off + 8) :: r[i] == m[i]
  {
    r := Splice(m, off, Pack64(n));
    assert Sub(r, off, 8) == Pack64(n);
    Packed64(r, off, n);
  }

  /** The header fields `validate` reads, apart from the CRC. */
  predicate HeaderFields(h: seq<u8>, entriesLba: nat, entriesCrc: u32) {
    && |h| == SECTOR && Sub(h, 0, 8) == GptMark() && U32At(h, 12) == HEADER_SIZE
    && U64At(h, 72) == entriesLba && U32At(h, 80) == ENTRY_COUNT && U32At(h, 84) == ENTRY_SIZE
      && U32At(h, 88) == entriesCrc
  }

  method HeaderFront(current: u64, backup: u64, lastUsable: u64) returns (h: seq<u8>)
    ensures |h| == SECTOR && Sub(h, 0, 8) == GptMark() && U32At(h, 12) == HEADER_SIZE
    ensures forall i | 16 <= i < 20 :: h[i] == 0
  {
    h := Put(Zeros(SECTOR), 0, GptMark());
    h := Put32(h, 8, 0x0001_0000);
    h := Put32(h, 12, HEADER_SIZE);
    h := Put64(h, 24, current);
    h := Put64(h, 32, backup);
    h := Put64(h, 40, 2048);
    h := Put64(h, 48, lastUsable);
    assert Sub(h, 0, 8) == GptMark();
  }

  /** The header before its CRC goes in. */
  method BareHeader(current: u64, backup: u64, lastUsable: u64, guid: Guid, entriesLba: u64, entriesCrc: u32)
    returns (h: seq<u8>)
    ensures HeaderFields(h, entriesLba, entriesCrc) && forall i | 16 <= i < 20 :: h[i] == 0
  {
    var front := HeaderFront(current, backup, lastUsable);
    h := Put(front, 56, guid);
    h := Put64(h, 72, entriesLba);
    h := Put32(h, 80, ENTRY_COUNT);
    h := Put32(h, 84, ENTRY_SIZE);
    h := Put32(h, 88, entriesCrc);
    assert Sub(h, 0, 8) == Sub(front, 0, 8);
  }

  /** header: its CRC is that of its first 92 bytes with the CRC field zero. */
  method Header(crc: Crc, current: u64, backup: u64, lastUsable: u64, guid: Guid, entriesLba: u64, entriesCrc: u32)
    returns (h: seq<u8>)
    ensures HeaderFields(h, entriesLba, entriesCrc)
    ensures U32At(h, 16) == crc(Sub(Splice(h, 16, Zeros(4)), 0, HEADER_SIZE))
  {
    var bare := BareHeader(current, backup, lastUsable, guid, entriesLba, entriesCrc);
    h := Put32(bare, 16, crc(Sub(bare, 0, HEADER_SIZE)));
    assert Splice(h, 16, Zeros(4)) == bare;
    assert Sub(h, 0, 8) == Sub(bare, 0, 8);
  }

  /** A disk with such a header in sector 1 and the entries from sector 2 on leads to the ESP. */
  lemma GptReads(image: seq<u8>, crc: Crc, h: seq<u8>, entries: seq<u8>)
    requires |image| >= 4 * SECTOR && |image| % SECTOR == 0 && image[510] == 0x55 && image[511] == 0xAA
    requires Sub(image, SECTOR, SECTOR) == h && HeaderFields(h, 2, crc(entries))
    requires U32At(h, 16) == crc(Sub(Splice(h, 16, Zeros(4)), 0, HEADER_SIZE))
    requires |entries| == ENTRY_COUNT * ENTRY_SIZE && 2 * SECTOR + |entries| <= |image|
      && Sub(image, 2 * SECTOR, |entries|) == entries
    ensures ReadGpt(image, crc) == FindEsp(Table(entries, ENTRY_SIZE), ENTRY_COUNT, 0, None)
  {
    var a := Array(2, ENTRY_COUNT, ENTRY_SIZE, crc(entries));
    assert ReadHeader(image, crc) == Some(a);
    assert ReadEntries(image, a, crc) == Some(entries);
  }
}
