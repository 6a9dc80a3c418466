/** The on-disk formats that the image builder writes and the image validator reads: little-endian fields,
    8.3 names and 32-byte directory entries (tools/image/build-pr1-uefi-disk.py,
    tools/image/validate-pr1-uefi-disk.py). */
module Fat32Format {
  import opened MachineInts
  import opened Bytes

  const SECTOR: int := 512
  const END_OF_CHAIN: u32 := 0x0FFF_FFFF
  const ATTR_LABEL: u8 := 0x08
  const ATTR_DIRECTORY: u8 := 0x10
  const ATTR_FILE: u8 := 0x20
  const DOT: u8 := 0x2E
  const SPACE: u8 := 0x20

  /** Names are their ASCII bytes. */
  type Name = seq<u8>

  // Little-endian fields

  function Quad(b0: int, b1: int, b2: int, b3: int): int {
    b0 + 256 * (b1 + 256 * (b2 + 256 * b3))
  }

  function U16At(m: seq<u8>, off: nat): (n: u16)
    requires off + 2 <= |m|
  {
    Quad(m[off], m[off + 1], 0, 0)
  }

  function U32At(m: seq<u8>, off: nat): (n: u32)
    requires off + 4 <= |m|
  {
    Quad(m[off], m[off + 1], m[off + 2], m[off + 3])
  }

  function Pack16(n: u16): (s: seq<u8>)
    ensures |s| == 2 && U16At(s, 0) == n
  {
    [n % 256, n / 256]
  }

  function Pack32(n: u32): (s: seq<u8>)
    ensures |s| == 4 && U32At(s, 0) == n
  {
    var n1 := n / 256;
    var n2 := n1 / 256;
    [n % 256, n1 % 256, n2 % 256, n2 / 256]
  }

  /** The field at `off` of a buffer `m` that agrees with `m'` there. */
  lemma U32Moved(m: seq<u8>, off: nat, m': seq<u8>, off': nat)
    requires off + 4 <= |m| && off' + 4 <= |m'|
    requires Sub(m, off, 4) == Sub(m', off', 4)
    ensures U32At(m, off) == U32At(m', off')
  {
    var a, b := Sub(m, off, 4), Sub(m', off', 4);
    assert a[0] == b[0] && a[1] == b[1] && a[2] == b[2] && a[3] == b[3];
  }

  function Bit(n: u8, mask: u8): bool
    requires mask > 0
  {
    n / mask % 2 == 1
  }

  // 8.3 names

  function UpperByte(c: u8): u8 {
    if 0x61 <= c <= 0x7A then c - 0x20 else c
  }

  function Upper(s: Name): (u: Name)
    ensures |u| == |s| && forall i | 0 <= i < |s| :: u[i] == UpperByte(s[i])
  {
    seq(|s|, i requires 0 <= i < |s| => UpperByte(s[i]))
  }

  /** ljust(n)[:n]. */
  function Padded(s: Name, n: nat): (p: Name)
    ensures |p| == n
  {
    seq(n, i requires 0 <= i < n => if i < |s| then s[i] else SPACE)
  }

  /** How much of the first `n` bytes rstrip(" ") keeps. */
  function Kept(s: Name, n: nat): (k: nat)
    requires n <= |s|
    ensures k <= n && (k == 0 || s[k - 1] != SPACE)
    ensures forall i | k <= i < n :: s[i] == SPACE
  {
    if n == 0 || s[n - 1] != SPACE then n else Kept(s, n - 1)
  }

  function Stripped(s: Name): Name {
    Sub(s, 0, Kept(s, |s|))
  }

  /** A name split at its dot; `ext` is empty when there is none. */
  datatype ShortName = ShortName(stem: Name, ext: Name) {
    /** The names an 8.3 entry can hold: ASCII, no trailing blanks, and not one of the marks for free or deleted
        entries. */
    predicate Fits() {
      && 1 <= |stem| <= 8 && |ext| <= 3
      && (forall i | 0 <= i < |stem| :: stem[i] < 0x80)
      && (forall i | 0 <= i < |ext| :: ext[i] < 0x80)
      && stem[0] != 0 && stem[|stem| - 1] != SPACE
      && (ext != [] ==> ext[|ext| - 1] != SPACE)
    }

    function Text(): Name {
      NameText(stem, ext)
    }
  }

  function NameText(stem: Name, ext: Name): Name {
    if ext == [] then stem else stem + [DOT] + ext
  }

  /** The 11 name bytes of a directory entry; `.` and `..` are kept as they are. */
  function NameField(n: ShortName): (f: seq<u8>)
    ensures |f| == 11
  {
    Padded(Upper(n.stem), 8) + Padded(Upper(n.ext), 3)
  }

  predicate Ascii(s: Name) {
    forall i | 0 <= i < |s| :: s[i] < 0x80
  }

  /** decode_short_name; None when a byte is not ASCII. */
  function DecodeName(f: seq<u8>): (r: Option<Name>)
    requires |f| == 11
  {
    if !Ascii(f) then None
    else
      var stem, ext := Stripped(Sub(f, 0, 8)), Stripped(Sub(f, 8, 3));
      Some(NameText(stem, ext))
  }

  lemma StrippedPadded(s: Name, n: nat)
    requires |s| <= n && (s == [] || s[|s| - 1] != SPACE)
    ensures Stripped(Padded(s, n)) == s
  {
    var p := Padded(s, n);
    var k := Kept(p, n);
    assert s != [] ==> p[|s| - 1] == s[|s| - 1];
    assert forall i | |s| <= i < n :: p[i] == SPACE;
    assert k == |s|;
  }

  lemma UpperText(n: ShortName)
    ensures NameText(Upper(n.stem), Upper(n.ext)) == Upper(n.Text())
  {
    if n.ext != [] {
      assert Upper([DOT]) == [DOT];
    } else {
      assert Upper(n.ext) == [];
    }
  }

  /** Every name that fits reads back as itself in upper case. */
  lemma NameRoundTrip(n: ShortName)
    requires n.Fits()
    ensures DecodeName(NameField(n)) == Some(Upper(n.Text()))
  {
    var f := NameField(n);
    var s, e := Upper(n.stem), Upper(n.ext);
    assert Sub(f, 0, 8) == Padded(s, 8) && Sub(f, 8, 3) == Padded(e, 3);
    forall i | 0 <= i < 11
      ensures f[i] < 0x80
    {
      assert f[i] == if i < 8 then Padded(s, 8)[i] else Padded(e, 3)[i - 8];
    }
    StrippedPadded(s, 8);
    StrippedPadded(e, 3);
    UpperText(n);
  }

  // Directory entries

  datatype Item = Item(name: ShortName, attr: u8, cluster: u32, size: u32)

  datatype DirEntry = DirEntry(name: Name, attr: u8, first: u32, size: u32)

  /** short_entry. */
  function ShortEntry(it: Item): (e: seq<u8>)
    ensures |e| == 32
  {
    NameField(it.name) + [it.attr] + Zeros(8) + Pack16(it.cluster / TWO_16) + Zeros(4)
      + Pack16(it.cluster % TWO_16) + Pack32(it.size)
  }

  lemma ShortEntryFields(it: Item)
    ensures Sub(ShortEntry(it), 0, 11) == NameField(it.name)
    ensures ShortEntry(it)[11] == it.attr
    ensures U16At(ShortEntry(it), 20) == it.cluster / TWO_16 && U16At(ShortEntry(it), 26) == it.cluster % TWO_16
    ensures U32At(ShortEntry(it), 28) == it.size
  {
    var e := ShortEntry(it);
    assert e[20] == Pack16(it.cluster / TWO_16)[0] && e[21] == Pack16(it.cluster / TWO_16)[1];
    assert e[26] == Pack16(it.cluster % TWO_16)[0] && e[27] == Pack16(it.cluster % TWO_16)[1];
    assert Sub(e, 28, 4) == Sub(Pack32(it.size), 0, 4);
    U32Moved(e, 28, Pack32(it.size), 0);
  }

  /** b''.join(entries). */
  function Joined(items: seq<Item>): (s: seq<u8>)
    ensures |s| == 32 * |items|
  {
    JoinedTo(items, |items|)
  }

  function JoinedTo(items: seq<Item>, k: nat): (s: seq<u8>)
    requires k <= |items|
    ensures |s| == 32 * k
  {
    if k == 0 then [] else JoinedTo(items, k - 1) + ShortEntry(items[k - 1])
  }

  lemma {:induction false} JoinedAt(items: seq<Item>, i: nat, k: nat)
    requires i < k <= |items|
    ensures Sub(JoinedTo(items, k), 32 * i, 32) == ShortEntry(items[i])
  {
    if i < k - 1 {
      JoinedAt(items, i, k - 1);
      assert Sub(JoinedTo(items, k), 32 * i, 32) == Sub(JoinedTo(items, k - 1), 32 * i, 32);
    }
  }

  /** The names `.` and `..`, which the reader drops. */
  predicate IsDot(n: Name) {
    n == [DOT] || n == [DOT, DOT]
  }

  /** What the reader makes of one 32-byte entry; End is a zero first byte or the end of the data. */
  datatype Slot = End | Skip | Bad | Entry(entry: DirEntry)

  function SlotAt(data: seq<u8>, k: nat): (r: Slot) {
    if 32 * k + 32 > |data| || data[32 * k] == 0 then End else DecodeEntry(Sub(data, 32 * k, 32))
  }

  function DecodeEntry(e: seq<u8>): (r: Slot)
    requires |e| == 32
  {
    if e[0] == 0xE5 || e[11] == 0x0F || Bit(e[11], ATTR_LABEL) then Skip
    else
      match DecodeName(Sub(e, 0, 11))
      case None => Bad
      case Some(name) =>
        if IsDot(name) then Skip
        else Entry(DirEntry(name, e[11], U16At(e, 20) * TWO_16 + U16At(e, 26), U32At(e, 28)))
  }

  /** A later entry of the same name wins. */
  function Added(slot: Slot, seen: map<Name, DirEntry>): map<Name, DirEntry> {
    if slot.Entry? then seen[Upper(slot.entry.name) := slot.entry] else seen
  }

  /** The entries in slots `k` to `n`, added to `seen`. */
  function Scan(slots: nat -> Slot, n: nat, k: nat, seen: map<Name, DirEntry>): (r: Option<map<Name, DirEntry>>)
    decreases n - k
  {
    if k >= n || slots(k) == End then Some(seen)
    else if slots(k) == Bad then None
    else Scan(slots, n, k + 1, Added(slots(k), seen))
  }

  function Slots(data: seq<u8>): nat -> Slot {
    (k: nat) => SlotAt(data, k)
  }

  /** The directory that the bytes `data` hold. */
  function ReadDirectory(data: seq<u8>): (r: Option<map<Name, DirEntry>>) {
    Scan(Slots(data), |data|, 0, map[])
  }

  /** What an item should read back as. */
  function Wanted(it: Item): Slot {
    var name := Upper(it.name.Text());
    if Bit(it.attr, ATTR_LABEL) || IsDot(name) then Skip else Entry(DirEntry(name, it.attr, it.cluster, it.size))
  }

  /** The directory that the first `k` items describe: labels, `.` and `..` are not listed. */
  function Listing(items: seq<Item>, k: nat): (m: map<Name, DirEntry>)
    requires k <= |items|
  {
    Collected(AllWanted(items), k)
  }

  function AllWanted(items: seq<Item>): (w: seq<Slot>)
    ensures |w| == |items| && forall i | 0 <= i < |w| :: w[i] == Wanted(items[i])
  {
    seq(|items|, i requires 0 <= i < |items| => Wanted(items[i]))
  }

  /** The entries of the first `k` slots. */
  function Collected(w: seq<Slot>, k: nat): (m: map<Name, DirEntry>)
    requires k <= |w|
  {
    if k == 0 then map[] else Added(w[k - 1], Collected(w, k - 1))
  }

  /** Items the reader can take apart: the name fits, or is `.` or `..`; no deleted mark, no long-name attribute. */
  predicate Readable(it: Item) {
    it.name.Fits() && it.name.stem[0] != 0xE5 && it.attr != 0x0F
  }

  lemma UpperTwice(s: Name)
    ensures Upper(Upper(s)) == Upper(s)
  {
  }

  lemma DecodeWritten(it: Item)
    requires Readable(it)
    ensures ShortEntry(it)[0] != 0 && DecodeEntry(ShortEntry(it)) == Wanted(it)
  {
    ShortEntryFields(it);
    NameRoundTrip(it.name);
    var e := ShortEntry(it);
    assert e[0] == NameField(it.name)[0] == Padded(Upper(it.name.stem), 8)[0] == UpperByte(it.name.stem[0]);
  }

  /** Reading over the first `k` of the slots `w`, none of which ends the directory. */
  lemma {:induction false} ScanWritten(slots: nat -> Slot, n: nat, w: seq<Slot>, k: nat)
    requires k <= |w| <= n
    requires forall i: nat | i < |w| :: slots(i) == w[i] != End && w[i] != Bad
    ensures Scan(slots, n, 0, map[]) == Scan(slots, n, k, Collected(w, k))
  {
    if k != 0 {
      ScanWritten(slots, n, w, k - 1);
    }
  }

  lemma SlotWritten(data: seq<u8>, items: seq<Item>, i: nat)
    requires i < |items| && Readable(items[i])
    requires |data| >= 32 * |items| && Sub(data, 0, 32 * |items|) == Joined(items)
    ensures Slots(data)(i) == Wanted(items[i])
  {
    JoinedAt(items, i, |items|);
    assert Sub(data, 32 * i, 32) == Sub(Sub(data, 0, 32 * |items|), 32 * i, 32) == ShortEntry(items[i]);
    assert data[32 * i] == Sub(data, 32 * i, 32)[0];
    DecodeWritten(items[i]);
  }

  /** Directory round trip: entries followed by a zero byte read back as exactly their listing. */
  lemma DirectoryRoundTrip(data: seq<u8>, items: seq<Item>)
    requires forall i | 0 <= i < |items| :: Readable(items[i])
    requires |data| > 32 * |items| && Sub(data, 0, 32 * |items|) == Joined(items) && data[32 * |items|] == 0
    ensures ReadDirectory(data) == Some(Listing(items, |items|))
  {
    var slots, w := Slots(data), AllWanted(items);
    forall i: nat | i < |w|
      ensures slots(i) == w[i] != End && w[i] != Bad
    {
      SlotWritten(data, items, i);
    }
    ScanWritten(slots, |data|, w, |w|);
    assert slots(|items|) == End;
  }
}
