/** The ELF loader of kernel/core/elf_loader.c: validation, copying the PT_LOAD segments into a runtime slot, and the
    range checks on user pointers.  The headers are given as records; overlaying them on the file's bytes is left
    out. */
module ElfLoader {
  import opened MachineInts
  import opened Bytes

  const PAGE: nat := 4096
  const IMAGE_MAX: nat := 0x4_0000
  const STACK_SIZE: nat := 0x1_0000
  const MAX_SEGMENTS: nat := 8
  const MAX_SLOTS: nat := 16
  const NO_ADDRESS: u64 := 0xFFFF_FFFF_FFFF_FFFF

  /** The header fields that validation reads. */
  datatype Ehdr = Ehdr(magic: seq<u8>, bits: u8, data: u8, identVersion: u8, kind: u16, machine: u16, version: u32,
                       entry: u64, phoff: u64, ehsize: u16, phentsize: u16)

  datatype Phdr = Phdr(kind: u32, flags: u32, offset: u64, vaddr: u64, filesz: u64, memsz: u64, align: u64)
  {
    predicate IsLoad() { kind == 1 }
    predicate Executable() { flags % 2 == 1 }
    predicate Writable() { flags / 2 % 2 == 1 }
    predicate Readable() { flags / 4 % 2 == 1 }
    /** The page range the segment covers, in 64-bit arithmetic. */
    function First(): u64 { PageDown(vaddr) }
    function Last(): u64 { PageDown((vaddr + memsz + (PAGE - 1)) % TWO_64) }
    predicate NonWrapping() { vaddr + memsz + PAGE <= TWO_64 }
    predicate Contains(a: nat) { vaddr <= a < vaddr + memsz }
  }

  datatype Image = Image(header: Ehdr, loads: seq<Phdr>, bytes: seq<u8>)

  function PageDown(x: u64): (r: u64)
    ensures r <= x < r + PAGE && r % PAGE == 0
  {
    x - x % PAGE
  }

  predicate PowerOfTwo(n: nat) {
    n == 1 || (n > 1 && n % 2 == 0 && PowerOfTwo(n / 2))
  }

  predicate HeaderOk(img: Image) {
    var h := img.header;
    && |img.bytes| >= 64 && |img.bytes| < TWO_64
    && h.magic == [0x7F, 0x45, 0x4C, 0x46] && h.bits == 2 && h.data == 1 && h.identVersion == 1
    && h.kind == 2 && h.machine == 183 && h.version == 1 && h.ehsize == 64 && h.phentsize == 56
    && 1 <= |img.loads| <= MAX_SEGMENTS && h.phoff < |img.bytes| && h.phoff + 56 * |img.loads| <= |img.bytes|
  }

  /** range_contains. */
  predicate RangeContains(base: u64, size: u64, addr: u64) {
    var end := (base + size) % TWO_64;
    size != 0 && end > base && base <= addr < end
  }

  /** The checks on one PT_LOAD header. */
  function SegmentCheck(p: Phdr, len: nat): (s: Status)
    ensures s == EPerm ==> p.Writable() && p.Executable()
    ensures s == Ok ==>
      p.memsz > 0 && p.filesz <= p.memsz && p.offset + p.filesz <= len && !(p.Writable() && p.Executable())
    ensures s == Ok || s == EPerm || s == EInval
  {
    if p.memsz == 0 || p.filesz > p.memsz then EInval
    else if p.align != 0 && !PowerOfTwo(p.align) then EInval
    else if p.offset + p.filesz > len then EInval
    else if p.Writable() && p.Executable() then EPerm
    else if p.Last() <= p.First() then EInval
    else Ok
  }

  function Low(ps: seq<Phdr>, k: nat): (a: u64)
    requires k <= |ps|
    ensures forall i | 0 <= i < k && ps[i].IsLoad() :: a <= ps[i].First()
  {
    if k == 0 then NO_ADDRESS
    else if ps[k - 1].IsLoad() then Min(Low(ps, k - 1), ps[k - 1].First())
    else Low(ps, k - 1)
  }

  function High(ps: seq<Phdr>, k: nat): (a: u64)
    requires k <= |ps|
    ensures forall i | 0 <= i < k && ps[i].IsLoad() :: ps[i].Last() <= a
  {
    if k == 0 then 0
    else if ps[k - 1].IsLoad() then Max(High(ps, k - 1), ps[k - 1].Last())
    else High(ps, k - 1)
  }

  predicate EntryAt(img: Image, i: nat)
    requires i < |img.loads|
  {
    var p := img.loads[i];
    p.IsLoad() && RangeContains(p.vaddr, p.memsz, img.header.entry) && p.Executable()
  }

  /** What a valid image is. */
  predicate Accepts(img: Image) {
    var n := |img.loads|;
    && HeaderOk(img)
    && (forall i | 0 <= i < n && img.loads[i].IsLoad() :: SegmentCheck(img.loads[i], |img.bytes|) == Ok)
    && (exists i | 0 <= i < n :: EntryAt(img, i))
    && (High(img.loads, n) - Low(img.loads, n)) % TWO_64 <= IMAGE_MAX
  }

  /** The loop of elf_loader_validate_image over the program headers. */
  method Scan(img: Image) returns (st: Status, low: u64, high: u64, loads: nat, entryExec: bool)
    ensures st == Ok <==> forall j | 0 <= j < |img.loads| && img.loads[j].IsLoad() ::
      SegmentCheck(img.loads[j], |img.bytes|) == Ok
    ensures st == Ok ==> low == Low(img.loads, |img.loads|) && high == High(img.loads, |img.loads|)
    ensures st == Ok ==> (entryExec <==> exists j | 0 <= j < |img.loads| :: EntryAt(img, j))
    ensures st == Ok && entryExec ==> loads > 0 && low < NO_ADDRESS
    ensures st == EPerm ==> exists i | 0 <= i < |img.loads| ::
      img.loads[i].IsLoad() && img.loads[i].Writable() && img.loads[i].Executable()
  {
    low, high, loads, entryExec := NO_ADDRESS, 0, 0, false;
    for i := 0 to |img.loads|
      invariant low == Low(img.loads, i) && high == High(img.loads, i)
      invariant forall j | 0 <= j < i && img.loads[j].IsLoad() :: SegmentCheck(img.loads[j], |img.bytes|) == Ok
      invariant entryExec <==> exists j | 0 <= j < i :: EntryAt(img, j)
      invariant entryExec ==> loads > 0
      invariant loads > 0 ==> low < NO_ADDRESS
    {
      var p := img.loads[i];
      if p.IsLoad() {
        loads := loads + 1;
        var check := SegmentCheck(p, |img.bytes|);
        if check != Ok {
          return check, low, high, loads, entryExec;
        }
        low := Min(low, p.First());
        high := Max(high, p.Last());
        if RangeContains(p.vaddr, p.memsz, img.header.entry) && p.Executable() {
          assert EntryAt(img, i);
          entryExec := true;
        }
      }
    }
    st := Ok;
  }

  /** elf_loader_validate_image. */
  method Validate(img: Image) returns (st: Status, low: u64, high: u64)
    ensures st == Ok <==> Accepts(img)
    ensures st == Ok ==> low == Low(img.loads, |img.loads|) && high == High(img.loads, |img.loads|)
    ensures st == EPerm ==> exists i | 0 <= i < |img.loads| ::
      img.loads[i].IsLoad() && img.loads[i].Writable() && img.loads[i].Executable()
  {
    if !HeaderOk(img) {
      return EInval, NO_ADDRESS, 0;
    }
    var loads, entryExec;
    st, low, high, loads, entryExec := Scan(img);
    if st != Ok {
      return;
    }
    if loads == 0 || !entryExec || low == NO_ADDRESS || (high - low) % TWO_64 > IMAGE_MAX {
      st := EInval;
    }
  }

  // Copying into a slot

  /** No address range of a load wraps round. */
  predicate NonWrapping(ps: seq<Phdr>) {
    forall i | 0 <= i < |ps| && ps[i].IsLoad() :: ps[i].NonWrapping()
  }

  predicate Apart(p: Phdr, q: Phdr) {
    p.vaddr + p.memsz <= q.vaddr || q.vaddr + q.memsz <= p.vaddr
  }

  /** No two loads share a byte. */
  predicate Disjoint(ps: seq<Phdr>) {
    forall i, j | 0 <= i < j < |ps| && ps[i].IsLoad() && ps[j].IsLoad() :: Apart(ps[i], ps[j])
  }

  /** The load lies within a backing that stands for the addresses from `low` on, and its bytes within the file. */
  predicate Fits(p: Phdr, low: nat, len: nat) {
    p.filesz <= p.memsz && p.offset + p.filesz <= len && low <= p.vaddr && p.vaddr - low + p.memsz <= IMAGE_MAX
  }

  predicate AllFit(img: Image, low: nat) {
    forall i | 0 <= i < |img.loads| && img.loads[i].IsLoad() :: Fits(img.loads[i], low, |img.bytes|)
  }

  lemma LastCovers(p: Phdr)
    requires p.NonWrapping()
    ensures p.vaddr + p.memsz <= p.Last()
  {
  }

  lemma SpanIsDifference(low: u64, high: u64)
    requires low <= high
    ensures (high - low) % TWO_64 == high - low
  {
  }

  /** Every load of an accepted, non-wrapping image lies within the backing. */
  lemma LoadsFit(img: Image)
    requires Accepts(img) && NonWrapping(img.loads)
    ensures AllFit(img, Low(img.loads, |img.loads|))
  {
    var low, high := Low(img.loads, |img.loads|), High(img.loads, |img.loads|);
    forall i | 0 <= i < |img.loads| && img.loads[i].IsLoad()
      ensures Fits(img.loads[i], low, |img.bytes|)
    {
      LastCovers(img.loads[i]);
      SpanIsDifference(low, high);
    }
  }

  // The copy of a load that may wrap round

  /** The copy guard: offset plus memory size, in 64 bits, is within the backing. */
  predicate CopyGuard(p: Phdr, low: nat)
    requires low <= p.vaddr
  {
    (p.vaddr - low + p.memsz) % TWO_64 <= IMAGE_MAX
  }

  /** Byte `a` of the backing, counted on past its end, is written by the copy of the load. */
  predicate Copied(p: Phdr, low: nat, a: nat)
    requires low <= p.vaddr
  {
    p.vaddr - low <= a < p.vaddr - low + p.filesz
  }

  ghost predicate CopyInside(p: Phdr, low: nat)
    requires low <= p.vaddr
  {
    forall a: nat | Copied(p, low, a) :: a < IMAGE_MAX
  }

  lemma StartInside(vaddr: nat, first: nat, last: nat, low: nat, high: nat)
    requires first % PAGE == 0 && low % PAGE == 0 && vaddr < first + PAGE
    requires low <= first < last <= high <= low + IMAGE_MAX
    ensures vaddr < low + IMAGE_MAX
  {
    assert first + PAGE <= low + IMAGE_MAX;
  }

  lemma {:induction false} LowAligned(ps: seq<Phdr>, k: nat)
    requires k <= |ps|
    ensures Low(ps, k) == NO_ADDRESS || Low(ps, k) % PAGE == 0
  {
    if k > 0 {
      LowAligned(ps, k - 1);
    }
  }

  /** A load of an accepted image starts within the backing. */
  lemma LoadStartsInside(img: Image, i: nat)
    requires Accepts(img) && i < |img.loads| && img.loads[i].IsLoad()
    ensures Low(img.loads, |img.loads|) <= img.loads[i].vaddr < Low(img.loads, |img.loads|) + IMAGE_MAX
  {
    var p, low, high := img.loads[i], Low(img.loads, |img.loads|), High(img.loads, |img.loads|);
    var first, last := p.First(), p.Last();
    assert low <= first && last <= high && SegmentCheck(p, |img.bytes|) == Ok;
    LowAligned(img.loads, |img.loads|);
    SpanIsDifference(low, high);
    StartInside(p.vaddr, first, last, low, high);
  }

  lemma InsideIff(p: Phdr, low: nat)
    requires low <= p.vaddr < low + IMAGE_MAX
    ensures CopyInside(p, low) <==> p.vaddr - low + p.filesz <= IMAGE_MAX
  {
    if p.vaddr - low + p.filesz > IMAGE_MAX {
      assert Copied(p, low, IMAGE_MAX);
    }
  }

  lemma GuardExact(off: nat, memsz: u64)
    requires off < IMAGE_MAX && (off + memsz) % TWO_64 <= IMAGE_MAX && off + memsz < TWO_64
    ensures off + memsz <= IMAGE_MAX
  {
  }

  /** For every load of an accepted image that passes the guard: the copy stays inside the backing exactly when the
      addresses do not wrap round or the file bytes alone fit. */
  lemma CopyInsideIff(img: Image, i: nat)
    requires Accepts(img) && i < |img.loads| && img.loads[i].IsLoad()
    requires Low(img.loads, |img.loads|) <= img.loads[i].vaddr && CopyGuard(img.loads[i], Low(img.loads, |img.loads|))
    ensures var p, low := img.loads[i], Low(img.loads, |img.loads|);
      CopyInside(p, low) <==> p.vaddr - low + p.memsz < TWO_64 || p.vaddr - low + p.filesz <= IMAGE_MAX
  {
    var p, low := img.loads[i], Low(img.loads, |img.loads|);
    LoadStartsInside(img, i);
    InsideIff(p, low);
    assert SegmentCheck(p, |img.bytes|) == Ok;
    if p.vaddr - low + p.memsz < TWO_64 {
      GuardExact(p.vaddr - low, p.memsz);
    }
  }

  /** Without wrapping loads every copy passes the guard and stays inside. */
  lemma NonWrappingInside(img: Image, i: nat)
    requires Accepts(img) && NonWrapping(img.loads) && i < |img.loads| && img.loads[i].IsLoad()
    ensures var p, low := img.loads[i], Low(img.loads, |img.loads|);
      low <= p.vaddr && CopyGuard(p, low) && CopyInside(p, low)
  {
    var p, low := img.loads[i], Low(img.loads, |img.loads|);
    assert Fits(p, low, |img.bytes|) by { LoadsFit(img); }
    FitsInside(p, low, |img.bytes|);
  }

  lemma FitsInside(p: Phdr, low: nat, len: nat)
    requires Fits(p, low, len)
    ensures CopyGuard(p, low) && CopyInside(p, low)
  {
  }

  predicate AllZero(image: seq<u8>, lo: int, hi: int) {
    0 <= lo && hi <= |image| && forall a | lo <= a < hi :: image[a] == 0
  }

  /** The backing with a load's file bytes copied in. */
  function WithLoad(image: seq<u8>, low: nat, p: Phdr, bytes: seq<u8>): (r: seq<u8>)
    requires low <= p.vaddr && p.vaddr - low + p.filesz <= |image| && p.offset + p.filesz <= |bytes|
    ensures |r| == |image|
    ensures forall a {:trigger r[a]} | 0 <= a < |image| && !(p.vaddr - low <= a < p.vaddr - low + p.filesz) ::
      r[a] == image[a]
    ensures Sub(r, p.vaddr - low, p.filesz) == Sub(bytes, p.offset, p.filesz)
  {
    Splice(image, p.vaddr - low, Sub(bytes, p.offset, p.filesz))
  }

  /** The backing holds the segment: its file bytes, then zeros. */
  predicate Loaded(image: seq<u8>, low: nat, p: Phdr, bytes: seq<u8>) {
    && low <= p.vaddr && p.filesz <= p.memsz && p.vaddr - low + p.memsz <= |image| && p.offset + p.filesz <= |bytes|
    && Sub(image, p.vaddr - low, p.filesz) == Sub(bytes, p.offset, p.filesz)
    && AllZero(image, p.vaddr - low + p.filesz, p.vaddr - low + p.memsz)
  }

  datatype Segment = Segment(base: nat, size: nat, read: bool, write: bool, exec: bool)

  function SegmentOf(p: Phdr, base: nat, low: nat): Segment
    requires low <= p.vaddr
  {
    Segment(base + (p.vaddr - low), p.memsz, p.Readable(), p.Writable(), p.Executable())
  }

  /** The loads among the first `k` headers, in order. */
  function Segments(ps: seq<Phdr>, k: nat, base: nat, low: nat): (r: seq<Segment>)
    requires k <= |ps| && forall i | 0 <= i < k && ps[i].IsLoad() :: low <= ps[i].vaddr
    ensures |r| <= k
  {
    if k == 0 then []
    else if ps[k - 1].IsLoad() then Segments(ps, k - 1, base, low) + [SegmentOf(ps[k - 1], base, low)]
    else Segments(ps, k - 1, base, low)
  }

  /** Another load's bytes leave a loaded segment as it is. */
  lemma LoadedKept(image: seq<u8>, low: nat, p: Phdr, q: Phdr, bytes: seq<u8>)
    requires Loaded(image, low, p, bytes) && Apart(p, q) && low <= q.vaddr && q.filesz <= q.memsz
    requires q.vaddr - low + q.memsz <= |image| && q.offset + q.filesz <= |bytes|
    ensures Loaded(WithLoad(image, low, q, bytes), low, p, bytes)
  {
    var image' := WithLoad(image, low, q, bytes);
    assert Sub(image', p.vaddr - low, p.filesz) == Sub(image, p.vaddr - low, p.filesz);
  }

  /** Nothing is in the place of a load that has not been copied yet. */
  predicate Blank(image: seq<u8>, low: nat, p: Phdr) {
    low <= p.vaddr && p.vaddr - low + p.memsz <= |image| && AllZero(image, p.vaddr - low, p.vaddr - low + p.memsz)
  }

  lemma BlankKept(image: seq<u8>, low: nat, p: Phdr, q: Phdr, bytes: seq<u8>)
    requires Blank(image, low, p) && Apart(p, q) && low <= q.vaddr && q.filesz <= q.memsz
    requires q.vaddr - low + q.memsz <= |image| && q.offset + q.filesz <= |bytes|
    ensures Blank(WithLoad(image, low, q, bytes), low, p)
  {
  }

  lemma BlankLoads(image: seq<u8>, low: nat, p: Phdr, bytes: seq<u8>)
    requires Blank(image, low, p) && p.filesz <= p.memsz && p.offset + p.filesz <= |bytes|
    ensures Loaded(WithLoad(image, low, p, bytes), low, p, bytes)
  {
  }

  /** The copying loop of copy_executable_pt_load on a zeroed backing at address `base`. */
  method CopyLoop(img: Image, low: u64, base: nat) returns (image: seq<u8>, segments: seq<Segment>)
    requires AllFit(img, low)
    ensures |image| == IMAGE_MAX && segments == Segments(img.loads, |img.loads|, base, low)
    ensures Disjoint(img.loads) ==> forall i | 0 <= i < |img.loads| && img.loads[i].IsLoad() ::
      Loaded(image, low, img.loads[i], img.bytes)
  {
    image, segments := Zeros(IMAGE_MAX), [];
    for i := 0 to |img.loads|
      invariant |image| == IMAGE_MAX && segments == Segments(img.loads, i, base, low)
      invariant Disjoint(img.loads) ==> Progress(img, image, low, i)
    {
      var p := img.loads[i];
      if p.IsLoad() {
        ghost var before := image;
        image := WithLoad(image, low, p, img.bytes);
        segments := segments + [SegmentOf(p, base, low)];
        if Disjoint(img.loads) {
          CopyKeeps(img, before, low, i);
        }
      } else if Disjoint(img.loads) {
        SkipKeeps(img, image, low, i);
      }
    }
  }

  lemma SkipKeeps(img: Image, image: seq<u8>, low: u64, i: nat)
    requires i < |img.loads| && !img.loads[i].IsLoad() && Progress(img, image, low, i)
    ensures Progress(img, image, low, i + 1)
  {
  }

  /** The first `i` loads are in place, those after them blank. */
  predicate Progress(img: Image, image: seq<u8>, low: nat, i: nat) {
    && (forall j | 0 <= j < i && j < |img.loads| && img.loads[j].IsLoad() ::
      Loaded(image, low, img.loads[j], img.bytes))
    && (forall j | i <= j < |img.loads| && img.loads[j].IsLoad() :: Blank(image, low, img.loads[j]))
  }

  lemma CopyKeeps(img: Image, image: seq<u8>, low: u64, i: nat)
    requires AllFit(img, low) && Disjoint(img.loads) && i < |img.loads| && img.loads[i].IsLoad()
    requires |image| == IMAGE_MAX && Progress(img, image, low, i)
    ensures Progress(img, WithLoad(image, low, img.loads[i], img.bytes), low, i + 1)
  {
    var p := img.loads[i];
    var image' := WithLoad(image, low, p, img.bytes);
    BlankLoads(image, low, p, img.bytes);
    forall j | 0 <= j < i && img.loads[j].IsLoad()
      ensures Loaded(image', low, img.loads[j], img.bytes)
    {
      LoadedKept(image, low, img.loads[j], p, img.bytes);
    }
    forall j | i < j < |img.loads| && img.loads[j].IsLoad()
      ensures Blank(image', low, img.loads[j])
    {
      BlankKept(image, low, img.loads[j], p, img.bytes);
    }
  }

  // The range checks

  datatype Slot = Slot(used: bool, image: seq<u8>, stack: seq<u8>, segments: seq<Segment>, stackBase: nat, entry: nat)

  /** full_range_inside. */
  predicate FullRangeInside(ptr: u64, len: u64, base: u64, size: u64) {
    var end, regionEnd := (ptr + len) % TWO_64, (base + size) % TWO_64;
    && ptr != 0 && len != 0 && size != 0
    && end > ptr && regionEnd > base
    && ptr >= base && end <= regionEnd
  }

  /** On a region that does not wrap the check is exact. */
  lemma FullRangeExact(ptr: u64, len: u64, base: u64, size: u64)
    requires base + size < TWO_64
    ensures FullRangeInside(ptr, len, base, size) <==> ptr != 0 && len != 0 && base <= ptr && ptr + len <= base + size
  {
    if ptr + len >= TWO_64 {
      assert (ptr + len) % TWO_64 == ptr + len - TWO_64;
    }
  }

  predicate InSegment(s: Segment, a: nat) {
    s.base <= a < s.base + s.size
  }

  /** elf_loader_slot_write_range_ok on a slot in use. */
  method WriteRangeOk(slot: Slot, ptr: u64, len: u64) returns (ok: bool)
    requires slot.stackBase + STACK_SIZE < TWO_64 && forall i | 0 <= i < |slot.segments| ::
      slot.segments[i].base + slot.segments[i].size < TWO_64
    ensures ok <==> Writes(slot, ptr, len)
  {
    FullRangeExact(ptr, len, slot.stackBase, STACK_SIZE);
    if FullRangeInside(ptr, len, slot.stackBase, STACK_SIZE) {
      return true;
    }
    for i := 0 to |slot.segments|
      invariant forall j | 0 <= j < i :: !(slot.segments[j].write && Covers(slot.segments[j], ptr, len))
    {
      FullRangeExact(ptr, len, slot.segments[i].base, slot.segments[i].size);
      if slot.segments[i].write && FullRangeInside(ptr, len, slot.segments[i].base, slot.segments[i].size) {
        assert Covers(slot.segments[i], ptr, len);
        return true;
      }
    }
    ok := false;
  }

  predicate Covers(s: Segment, ptr: nat, len: nat) {
    ptr != 0 && len != 0 && s.base <= ptr && ptr + len <= s.base + s.size
  }

  function StackSegment(slot: Slot): Segment {
    Segment(slot.stackBase, STACK_SIZE, true, true, false)
  }

  /** The ranges a slot may write: inside its stack or inside one writable segment. */
  predicate Writes(slot: Slot, ptr: nat, len: nat) {
    Covers(StackSegment(slot), ptr, len) || exists i | 0 <= i < |slot.segments| ::
      slot.segments[i].write && Covers(slot.segments[i], ptr, len)
  }

  /** Where the slots lie: one after another, each an image area and a stack; `base` is the address of the first. */
  function ImageAt(base: nat, k: nat): nat {
    base + k * (IMAGE_MAX + STACK_SIZE)
  }

  function StackAt(base: nat, k: nat): nat {
    ImageAt(base, k) + IMAGE_MAX
  }

  /** A slot in use: its stack and segments lie in its own place, and no segment is both writable and executable. */
  predicate SlotOk(s: Slot, base: nat, k: nat) {
    && s.stackBase == StackAt(base, k)
    && (forall i | 0 <= i < |s.segments| :: InPlace(s.segments[i], base, k))
  }

  predicate InPlace(g: Segment, base: nat, k: nat) {
    ImageAt(base, k) <= g.base && g.base + g.size <= StackAt(base, k) && !(g.write && g.exec)
  }

  /** No writable segment of the slot shares a byte with an executable one. */
  predicate WriteXorExecute(s: Slot) {
    forall i, j | 0 <= i < |s.segments| && 0 <= j < |s.segments| && s.segments[i].write && s.segments[j].exec ::
      s.segments[i].base + s.segments[i].size <= s.segments[j].base
        || s.segments[j].base + s.segments[j].size <= s.segments[i].base
  }

  predicate Meets(g: Segment, ptr: nat, len: nat) {
    g.base < ptr + len && ptr < g.base + g.size
  }

  lemma SlotsApart(base: nat, k: nat, l: nat)
    requires k < l
    ensures ImageAt(base, k) + IMAGE_MAX + STACK_SIZE <= ImageAt(base, l)
  {
  }

  /** A range the write check accepts lies in the slot's own place. */
  lemma WritesOwnSlot(s: Slot, base: nat, k: nat, ptr: nat, len: nat)
    requires SlotOk(s, base, k) && Writes(s, ptr, len)
    ensures ImageAt(base, k) <= ptr && ptr + len <= StackAt(base, k) + STACK_SIZE
  {
    if i :| 0 <= i < |s.segments| && s.segments[i].write && Covers(s.segments[i], ptr, len) {
      assert InPlace(s.segments[i], base, k);
    }
  }

  /** So it never meets the image or stack of another slot. */
  lemma WritesNoOtherSlot(s: Slot, base: nat, k: nat, ptr: nat, len: nat, l: nat)
    requires SlotOk(s, base, k) && Writes(s, ptr, len) && l != k
    ensures ptr + len <= ImageAt(base, l) || StackAt(base, l) + STACK_SIZE <= ptr
  {
    WritesOwnSlot(s, base, k, ptr, len);
    if k < l {
      SlotsApart(base, k, l);
    } else {
      SlotsApart(base, l, k);
    }
  }

  ghost predicate NeverWritesCode(s: Slot) {
    forall ptr: nat, len: nat, i: nat | Writes(s, ptr, len) && i < |s.segments| && s.segments[i].exec ::
      !Meets(s.segments[i], ptr, len)
  }

  /** The write check keeps off executable bytes exactly when no writable segment shares a byte with an executable
      one. */
  lemma NeverWritesCodeIff(s: Slot, base: nat, k: nat)
    requires SlotOk(s, base, k) && base > 0 && forall i | 0 <= i < |s.segments| :: s.segments[i].size > 0
    ensures NeverWritesCode(s) <==> WriteXorExecute(s)
  {
    if WriteXorExecute(s) {
      forall ptr: nat, len: nat, i: nat | Writes(s, ptr, len) && i < |s.segments| && s.segments[i].exec
        ensures !Meets(s.segments[i], ptr, len)
      {
        assert InPlace(s.segments[i], base, k);
      }
    } else {
      var i, j :| 0 <= i < |s.segments| && 0 <= j < |s.segments| && s.segments[i].write && s.segments[j].exec &&
        !(s.segments[i].base + s.segments[i].size <= s.segments[j].base
          || s.segments[j].base + s.segments[j].size <= s.segments[i].base);
      var a := Max(s.segments[i].base, s.segments[j].base);
      assert InPlace(s.segments[i], base, k);
      assert Covers(s.segments[i], a, 1);
      assert Writes(s, a, 1) && Meets(s.segments[j], a, 1);
    }
  }

  // Segments of a loaded image

  /** Each segment is that of some load. */
  lemma {:induction false} SegmentFrom(ps: seq<Phdr>, k: nat, base: nat, low: nat, i: nat) returns (j: nat)
    requires k <= |ps| && (forall q | 0 <= q < k && ps[q].IsLoad() :: low <= ps[q].vaddr)
      && i < |Segments(ps, k, base, low)|
    ensures j < k && ps[j].IsLoad() && Segments(ps, k, base, low)[i] == SegmentOf(ps[j], base, low)
  {
    if ps[k - 1].IsLoad() && i == |Segments(ps, k, base, low)| - 1 {
      j := k - 1;
    } else {
      j := SegmentFrom(ps, k - 1, base, low, i);
    }
  }

  /** Each load has its segment. */
  lemma {:induction false} SegmentFor(ps: seq<Phdr>, k: nat, base: nat, low: nat, j: nat) returns (i: nat)
    requires j < k <= |ps| && (forall q | 0 <= q < k && ps[q].IsLoad() :: low <= ps[q].vaddr) && ps[j].IsLoad()
    ensures i < |Segments(ps, k, base, low)| && Segments(ps, k, base, low)[i] == SegmentOf(ps[j], base, low)
  {
    if j == k - 1 {
      i := |Segments(ps, k, base, low)| - 1;
    } else {
      i := SegmentFor(ps, k - 1, base, low, j);
    }
  }

  predicate AtOrAbove(ps: seq<Phdr>, low: nat) {
    forall q | 0 <= q < |ps| && ps[q].IsLoad() :: low <= ps[q].vaddr
  }

  lemma SegmentsInPlace(img: Image, low: nat, base: nat, k: nat)
    requires Accepts(img) && AllFit(img, low) && AtOrAbove(img.loads, low)
    ensures var gs := Segments(img.loads, |img.loads|, ImageAt(base, k), low);
      forall i | 0 <= i < |gs| :: InPlace(gs[i], base, k) && gs[i].size > 0
  {
    var gs := Segments(img.loads, |img.loads|, ImageAt(base, k), low);
    forall i | 0 <= i < |gs|
      ensures InPlace(gs[i], base, k) && gs[i].size > 0
    {
      var j := SegmentFrom(img.loads, |img.loads|, ImageAt(base, k), low, i);
      assert Fits(img.loads[j], low, |img.bytes|) && SegmentCheck(img.loads[j], |img.bytes|) == Ok;
    }
  }

  /** No writable load shares a byte with an executable one. */
  predicate CodeApart(ps: seq<Phdr>) {
    forall i, j | 0 <= i < |ps| && 0 <= j < |ps| && ps[i].IsLoad() && ps[j].IsLoad() && ps[i].Writable()
      && ps[j].Executable() ::
      Apart(ps[i], ps[j])
  }

  /** The segments keep code apart exactly when the loads do. */
  lemma SegmentsApartIff(img: Image, low: nat, base: nat, s: Slot)
    requires AtOrAbove(img.loads, low) && s.segments == Segments(img.loads, |img.loads|, base, low)
    ensures WriteXorExecute(s) <==> CodeApart(img.loads)
  {
    var ps := img.loads;
    if CodeApart(ps) {
      forall i, j | 0 <= i < |s.segments| && 0 <= j < |s.segments| && s.segments[i].write && s.segments[j].exec
        ensures s.segments[i].base + s.segments[i].size <= s.segments[j].base
          || s.segments[j].base + s.segments[j].size <= s.segments[i].base
      {
        var a := SegmentFrom(ps, |ps|, base, low, i);
        var b := SegmentFrom(ps, |ps|, base, low, j);
        assert Apart(ps[a], ps[b]);
      }
    }
    if WriteXorExecute(s) {
      forall i, j | 0 <= i < |ps| && 0 <= j < |ps| && ps[i].IsLoad() && ps[j].IsLoad() && ps[i].Writable()
        && ps[j].Executable()
        ensures Apart(ps[i], ps[j])
      {
        var a := SegmentFor(ps, |ps|, base, low, i);
        var b := SegmentFor(ps, |ps|, base, low, j);
      }
    }
  }

  /** Which holds in every accepted image whose loads share no byte at all. */
  lemma DisjointLoadsKeepCode(img: Image)
    requires Accepts(img) && Disjoint(img.loads)
    ensures CodeApart(img.loads)
  {
    var ps := img.loads;
    forall i, j | 0 <= i < |ps| && 0 <= j < |ps| && ps[i].IsLoad() && ps[j].IsLoad() && ps[i].Writable()
      && ps[j].Executable()
      ensures Apart(ps[i], ps[j])
    {
      assert SegmentCheck(ps[i], |img.bytes|) == Ok;
      assert i < j ==> Apart(ps[i], ps[j]);
      assert j < i ==> Apart(ps[j], ps[i]);
    }
  }

  lemma SpanOfTwo(p: Phdr, q: Phdr)
    requires p.IsLoad() && q.IsLoad()
    ensures Low([p, q], 2) == Min(p.First(), q.First()) && High([p, q], 2) == Max(p.Last(), q.Last())
  {
    assert Low([p, q], 1) == Min(Low([p, q], 0), p.First());
    assert High([p, q], 1) == Max(High([p, q], 0), p.Last());
  }

  /** An accepted image whose code and data segments are the same page. */
  function SamePage(): Image {
    Image(Ehdr([0x7F, 0x45, 0x4C, 0x46], 2, 1, 1, 2, 183, 1, 0x40_0000, 64, 64, 56),
          [Phdr(1, 5, 0, 0x40_0000, 16, 4096, 0), Phdr(1, 6, 0, 0x40_0000, 16, 4096, 0)], Zeros(256))
  }

  lemma SamePageAccepted()
    ensures Accepts(SamePage()) && NonWrapping(SamePage().loads) && Low(SamePage().loads, 2) == 0x40_0000
  {
    var img := SamePage();
    var code, data := img.loads[0], img.loads[1];
    assert img.loads == [code, data];
    assert code.First() == data.First() == 0x40_0000 && code.Last() == data.Last() == 0x40_1000;
    SpanOfTwo(code, data);
    assert EntryAt(img, 0);
  }

  /** An accepted image with a load whose memory size wraps round. */
  function WrappingLoad(): Image {
    Image(SamePage().header,
          [Phdr(1, 5, 0, 0x40_0000, 16, 4096, 0), Phdr(1, 4, 0, 0x40_0002, 0x5_0000, NO_ADDRESS, 0)], Zeros(0x5_0000))
  }

  /** Its copy passes the guard and runs past the backing. */
  lemma WrapCounterexample()
    ensures Accepts(WrappingLoad()) && Low(WrappingLoad().loads, 2) == 0x40_0000
    ensures CopyGuard(WrappingLoad().loads[1], 0x40_0000) && !CopyInside(WrappingLoad().loads[1], 0x40_0000)
  {
    var img := WrappingLoad();
    var code, data := img.loads[0], img.loads[1];
    assert img.loads == [code, data];
    assert code.First() == data.First() == 0x40_0000 && code.Last() == data.Last() == 0x40_1000;
    SpanOfTwo(code, data);
    assert EntryAt(img, 0);
    InsideIff(data, 0x40_0000);
  }

  /** Without that condition it fails: in the slot made for that image the write check accepts bytes of code. */
  lemma OverlapCounterexample(s: Slot, base: nat, k: nat)
    requires base > 0 && SlotOk(s, base, k) && AtOrAbove(SamePage().loads, Low(SamePage().loads, 2))
    requires s.segments == Segments(SamePage().loads, 2, ImageAt(base, k), Low(SamePage().loads, 2))
    ensures Accepts(SamePage()) && NonWrapping(SamePage().loads) && !NeverWritesCode(s)
  {
    SamePageAccepted();
    var img := SamePage();
    var low := Low(img.loads, 2);
    LoadsFit(img);
    SegmentsInPlace(img, low, base, k);
    assert !Apart(img.loads[1], img.loads[0]);
    SegmentsApartIff(img, low, ImageAt(base, k), s);
    NeverWritesCodeIff(s, base, k);
  }

  predicate EntryIn(s: Slot) {
    exists i | 0 <= i < |s.segments| :: s.segments[i].exec && InSegment(s.segments[i], s.entry)
  }

  lemma ContainsExact(p: Phdr, a: u64)
    requires p.NonWrapping() && RangeContains(p.vaddr, p.memsz, a)
    ensures p.Contains(a)
  {
  }

  /** The entry point lies in an executable segment. */
  lemma EntryIsCode(img: Image, low: nat, base: nat, s: Slot)
    requires Accepts(img) && NonWrapping(img.loads) && AtOrAbove(img.loads, low) && low <= img.header.entry
    requires s.segments == Segments(img.loads, |img.loads|, base, low) && s.entry == base + (img.header.entry - low)
    ensures EntryIn(s)
  {
    var j :| 0 <= j < |img.loads| && EntryAt(img, j);
    ContainsExact(img.loads[j], img.header.entry);
    var i := SegmentFor(img.loads, |img.loads|, base, low, j);
    assert s.segments[i].exec && InSegment(s.segments[i], s.entry);
  }

  lemma EntryAbove(img: Image)
    requires Accepts(img)
    ensures Low(img.loads, |img.loads|) <= img.header.entry
  {
    var j :| 0 <= j < |img.loads| && EntryAt(img, j);
  }

  const FREE_SLOT: Slot := Slot(false, [], [], [], 0, 0)

  class Loader {
    const base: nat
    var slots: seq<Slot>
    var bootSlot: nat

    ghost predicate Valid()
      reads this
    {
      && 0 < base && ImageAt(base, MAX_SLOTS) < TWO_64 && |slots| == MAX_SLOTS
      && forall k | 0 <= k < MAX_SLOTS && slots[k].used :: SlotOk(slots[k], base, k)
    }

    /** elf_loader_init. */
    constructor (base: nat)
      requires 0 < base && ImageAt(base, MAX_SLOTS) < TWO_64
      ensures Valid() && this.base == base && forall k | 0 <= k < MAX_SLOTS :: !slots[k].used
    {
      this.base := base;
      slots, bootSlot := seq(MAX_SLOTS, _ => FREE_SLOT), 0;
    }

    /** runtime_slot_allocate: the first slot in no use. */
    method FirstFree() returns (k: nat)
      requires Valid()
      ensures k <= MAX_SLOTS && (k < MAX_SLOTS ==> !slots[k].used) && forall j | 0 <= j < k :: slots[j].used
    {
      k := 0;
      while k < MAX_SLOTS && slots[k].used
        invariant k <= MAX_SLOTS && forall j | 0 <= j < k :: slots[j].used
      {
        k := k + 1;
      }
    }

    /** load_image_into_runtime. */
    method Load(img: Image) returns (st: Status, id: nat)
      requires Valid() && NonWrapping(img.loads)
      modifies this`slots
      ensures Valid()
      ensures st == Ok <==> Accepts(img) && exists k | 0 <= k < MAX_SLOTS :: !old(slots)[k].used
      ensures st != Ok ==> slots == old(slots)
      ensures st == Ok ==>
        1 <= id <= MAX_SLOTS && !old(slots)[id - 1].used
        && slots == old(slots)[id - 1 := slots[id - 1]] && slots[id - 1].used
      ensures st == Ok ==> forall j | 0 <= j < id - 1 :: old(slots)[j].used
      ensures st == Ok ==>
        slots[id - 1].segments == Segments(img.loads, |img.loads|, ImageAt(base, id - 1), Low(img.loads, |img.loads|))
      ensures st == Ok ==> EntryIn(slots[id - 1])
      ensures st == Ok ==> (NeverWritesCode(slots[id - 1]) <==> CodeApart(img.loads))
      ensures st == Ok && Disjoint(img.loads) ==> Holds(img, slots[id - 1]) && NeverWritesCode(slots[id - 1])
    {
      var low, high;
      st, low, high := Validate(img);
      if st != Ok {
        return st, 0;
      }
      var k := FirstFree();
      if k == MAX_SLOTS {
        return ENoMem, 0;
      }
      LoadsFit(img);
      EntryAbove(img);
      var image, segments := CopyLoop(img, low, ImageAt(base, k));
      var slot := Slot(true, image, Zeros(STACK_SIZE), segments, StackAt(base, k),
        ImageAt(base, k) + (img.header.entry - low));
      SegmentsInPlace(img, low, base, k);
      EntryIsCode(img, low, ImageAt(base, k), slot);
      SegmentsApartIff(img, low, ImageAt(base, k), slot);
      NeverWritesCodeIff(slot, base, k);
      if Disjoint(img.loads) {
        DisjointLoadsKeepCode(img);
      }
      slots := slots[k := slot];
      id := k + 1;
    }

    /** elf_loader_release_runtime_slot: the boot slot is kept; any other is wiped and given back. */
    method Release(id: nat) returns (st: Status)
      requires Valid()
      modifies this`slots
      ensures Valid()
      ensures st == Ok <==> 1 <= id <= MAX_SLOTS && id != bootSlot && old(slots)[id - 1].used
      ensures slots == if st == Ok then old(slots)[id - 1 := FREE_SLOT] else old(slots)
    {
      if id == 0 || id > MAX_SLOTS {
        return EInval;
      }
      if id == bootSlot {
        return EPerm;
      }
      if !slots[id - 1].used {
        return ENoEnt;
      }
      slots := slots[id - 1 := FREE_SLOT];
      st := Ok;
    }

    lemma SlotNonWrapping(k: nat)
      requires Valid() && k < MAX_SLOTS && slots[k].used
      ensures slots[k].stackBase + STACK_SIZE < TWO_64
      ensures forall i | 0 <= i < |slots[k].segments| :: slots[k].segments[i].base + slots[k].segments[i].size < TWO_64
    {
      assert ImageAt(base, k) + IMAGE_MAX + STACK_SIZE <= ImageAt(base, MAX_SLOTS);
      forall i | 0 <= i < |slots[k].segments|
        ensures slots[k].segments[i].base + slots[k].segments[i].size < TWO_64
      {
        assert InPlace(slots[k].segments[i], base, k);
      }
    }

    /** elf_loader_slot_write_range_ok: an accepted range lies in that slot's stack or one of its writable segments, and
        so in no other slot. */
    method SlotWriteOk(id: nat, ptr: u64, len: u64) returns (ok: bool)
      requires Valid()
      ensures ok <==> 1 <= id <= MAX_SLOTS && slots[id - 1].used && Writes(slots[id - 1], ptr, len)
      ensures ok ==> forall l: nat | l < MAX_SLOTS && l != id - 1 ::
        ptr + len <= ImageAt(base, l) || StackAt(base, l) + STACK_SIZE <= ptr
    {
      if id == 0 || id > MAX_SLOTS || !slots[id - 1].used {
        return false;
      }
      SlotNonWrapping(id - 1);
      ok := WriteRangeOk(slots[id - 1], ptr, len);
      if ok {
        forall l: nat | l < MAX_SLOTS && l != id - 1
          ensures ptr + len <= ImageAt(base, l) || StackAt(base, l) + STACK_SIZE <= ptr
        {
          WritesNoOtherSlot(slots[id - 1], base, id - 1, ptr, len, l);
        }
      }
    }

    /** elf_loader_slot_read_range_ok. */
    method SlotReadOk(id: nat, ptr: u64, len: u64) returns (ok: bool)
      requires Valid()
      ensures ok <==> 1 <= id <= MAX_SLOTS && slots[id - 1].used && Reads(slots[id - 1], ptr, len)
    {
      if id == 0 || id > MAX_SLOTS || !slots[id - 1].used {
        return false;
      }
      SlotNonWrapping(id - 1);
      var slot := slots[id - 1];
      FullRangeExact(ptr, len, slot.stackBase, STACK_SIZE);
      if FullRangeInside(ptr, len, slot.stackBase, STACK_SIZE) {
        return true;
      }
      for i := 0 to |slot.segments|
        invariant forall j | 0 <= j < i :: !(slot.segments[j].read && Covers(slot.segments[j], ptr, len))
      {
        FullRangeExact(ptr, len, slot.segments[i].base, slot.segments[i].size);
        if slot.segments[i].read && FullRangeInside(ptr, len, slot.segments[i].base, slot.segments[i].size) {
          assert Covers(slot.segments[i], ptr, len);
          return true;
        }
      }
      ok := false;
    }
  }

  /** The ranges a slot may read: inside its stack or inside one readable segment. */
  predicate Reads(slot: Slot, ptr: nat, len: nat) {
    Covers(StackSegment(slot), ptr, len) || exists i | 0 <= i < |slot.segments| ::
      slot.segments[i].read && Covers(slot.segments[i], ptr, len)
  }

  /** The slot's backing holds every load of the image. */
  predicate Holds(img: Image, s: Slot) {
    forall i | 0 <= i < |img.loads| && img.loads[i].IsLoad() ::
      Loaded(s.image, Low(img.loads, |img.loads|), img.loads[i], img.bytes)
  }
}
