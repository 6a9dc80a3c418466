/** The whole boot disk: `build` of tools/image/build-pr1-uefi-disk.py and `validate` of
    tools/image/validate-pr1-uefi-disk.py. */
module DiskImage {
  import opened MachineInts
  import opened Bytes
  import opened Fat32Format
  import opened Fat32Builder
  import opened Fat32Validator
  import opened Fat32RoundTrip
  import opened Gpt

  const ESP_FIRST: u32 := 2048
  const ESP_SECTORS: nat := 131072
  const MIN_SECTORS: nat := 262144

  // Names on the ESP

  function Efi(): ShortName { ShortName([0x45, 0x46, 0x49], []) }
  function Boot(): ShortName { ShortName([0x42, 0x4F, 0x4F, 0x54], []) }
  function Aegis(): ShortName { ShortName([0x41, 0x45, 0x47, 0x49, 0x53], []) }
  function Label(): ShortName { ShortName([0x41, 0x45, 0x47, 0x49, 0x53, 0x4F, 0x53], []) }
  function Loader(): ShortName { ShortName([0x42, 0x4F, 0x4F, 0x54, 0x41, 0x41, 0x36, 0x34], [0x45, 0x46, 0x49]) }
  function Kernel(): ShortName { ShortName([0x41, 0x45, 0x47, 0x49, 0x53, 0x4F, 0x53], [0x45, 0x4C, 0x46]) }
  function Dot(): ShortName { ShortName([DOT], []) }
  function DotDot(): ShortName { ShortName([DOT, DOT], []) }

  function Part(n: ShortName): Name { Upper(n.Text()) }

  /** EFI/BOOT/BOOTAA64.EFI and EFI/AEGIS/AEGISOS.ELF. */
  function LoaderPath(): seq<Name> { [Part(Efi()), Part(Boot()), Part(Loader())] }
  function KernelPath(): seq<Name> { [Part(Efi()), Part(Aegis()), Part(Kernel())] }

  // The four directories

  function RootItems(efiDir: u32): (items: seq<Item>)
    ensures |items| == 2
  {
    [Item(Label(), ATTR_LABEL, 0, 0), Item(Efi(), ATTR_DIRECTORY, efiDir, 0)]
  }

  function EfiItems(self: u32, root: u32, bootDir: u32, aegisDir: u32): (items: seq<Item>)
    ensures |items| == 4
  {
    [Item(Dot(), ATTR_DIRECTORY, self, 0), Item(DotDot(), ATTR_DIRECTORY, root, 0),
     Item(Boot(), ATTR_DIRECTORY, bootDir, 0), Item(Aegis(), ATTR_DIRECTORY, aegisDir, 0)]
  }

  /** A directory under EFI holding one file. */
  function FileItems(self: u32, parent: u32, name: ShortName, cluster: u32, size: u32): (items: seq<Item>)
    ensures |items| == 3
  {
    [Item(Dot(), ATTR_DIRECTORY, self, 0), Item(DotDot(), ATTR_DIRECTORY, parent, 0),
      Item(name, ATTR_FILE, cluster, size)]
  }

  /** A directory whose every item reads back and which lists `e` under its name. */
  predicate Lists(items: seq<Item>, e: DirEntry) {
    && |items| < 16 && (forall i | 0 <= i < |items| :: Readable(items[i]))
    && e.name in Listing(items, |items|) && Listing(items, |items|)[e.name] == e
  }

  lemma RootLists(efiDir: u32)
    ensures Lists(RootItems(efiDir), DirEntry(Part(Efi()), ATTR_DIRECTORY, efiDir, 0))
  {
    var items := RootItems(efiDir);
    assert Listing(items, 2) == Added(Wanted(items[1]), Listing(items, 1));
    UpperTwice(Efi().Text());
  }

  lemma EfiLists(self: u32, root: u32, bootDir: u32, aegisDir: u32)
    ensures Lists(EfiItems(self, root, bootDir, aegisDir), DirEntry(Part(Boot()), ATTR_DIRECTORY, bootDir, 0))
    ensures Lists(EfiItems(self, root, bootDir, aegisDir), DirEntry(Part(Aegis()), ATTR_DIRECTORY, aegisDir, 0))
  {
    assert |Part(Boot())| == 4 && |Part(Aegis())| == 5;
    var items := EfiItems(self, root, bootDir, aegisDir);
    assert Listing(items, 3) == Added(Wanted(items[2]), Listing(items, 2));
    assert Listing(items, 4) == Added(Wanted(items[3]), Listing(items, 3));
    UpperTwice(Boot().Text());
    UpperTwice(Aegis().Text());
  }

  lemma FileLists(self: u32, parent: u32, name: ShortName, cluster: u32, size: u32)
    requires name.Fits() && name.stem[0] != 0xE5 && |name.Text()| > 2
    ensures Lists(FileItems(self, parent, name, cluster, size), DirEntry(Part(name), ATTR_FILE, cluster, size))
  {
    var items := FileItems(self, parent, name, cluster, size);
    assert Listing(items, 3) == Added(Wanted(items[2]), Listing(items, 2));
    UpperTwice(name.Text());
  }

  // The runs of the ESP

  /** The files fit the ESP. */
  predicate Fits(efi: seq<u8>, kernel: seq<u8>) {
    6 + FileClusters(efi) + FileClusters(kernel) < FatLength(ESP_SECTORS)
  }

  datatype Tree = Tree(root: seq<Item>, efi: seq<Item>, boot: seq<Item>, aegis: seq<Item>)

  /** Four directories, then the two files. */
  function Runs(t: Tree, efi: seq<u8>, kernel: seq<u8>): (es: seq<Extent>)
    ensures |es| == 6
  {
    [Extent(2, 1, DirBytes(t.root)), Extent(3, 1, DirBytes(t.efi)), Extent(4, 1, DirBytes(t.boot)),
      Extent(5, 1, DirBytes(t.aegis)),
     Extent(6, FileClusters(efi), efi), Extent(6 + FileClusters(efi), FileClusters(kernel), kernel)]
  }

  datatype Placement = Placement(cluster: u32, size: u32)

  /** The tree leads from the root to the two files. */
  predicate TreeLists(t: Tree, efi: Placement, kernel: Placement) {
    && |t.root| == 2 && |t.efi| == 4 && |t.boot| == 3 && |t.aegis| == 3
    && Lists(t.root, DirEntry(Part(Efi()), ATTR_DIRECTORY, 3, 0))
    && Lists(t.efi, DirEntry(Part(Boot()), ATTR_DIRECTORY, 4, 0))
      && Lists(t.efi, DirEntry(Part(Aegis()), ATTR_DIRECTORY, 5, 0))
    && Lists(t.boot, DirEntry(Part(Loader()), ATTR_FILE, efi.cluster, efi.size))
    && Lists(t.aegis, DirEntry(Part(Kernel()), ATTR_FILE, kernel.cluster, kernel.size))
  }

  predicate Found(dirs: Directories, cluster: nat, e: DirEntry) {
    dirs(cluster).Some? && e.name in dirs(cluster).value && dirs(cluster).value[e.name] == e
  }

  /** The directory at run `k` lists `e`. */
  lemma DirectoryLists(disk: seq<u8>, esp: seq<u8>, fat: seq<u32>, es: seq<Extent>, k: nat, items: seq<Item>,
    e: DirEntry)
    requires OnDisk(disk, ESP_FIRST, ESP_SECTORS, esp) && Finished(esp, ESP_FIRST, ESP_SECTORS, fat, es)
    requires k < |es| && es[k].count == 1 && es[k].data == DirBytes(items) && Lists(items, e)
    ensures Found(DirectoriesOf(BuiltVolume(disk, ESP_FIRST, ESP_SECTORS)), es[k].first, e)
  {
    DirectoryReads(disk, ESP_FIRST, ESP_SECTORS, esp, fat, es, k, items);
  }

  /** Following a path of two directories and a file. */
  lemma PathLeads(dirs: Directories, root: nat, path: seq<Name>, d1: DirEntry, d2: DirEntry, e: DirEntry)
    requires Found(dirs, root, d1) && Found(dirs, d1.first, d2) && Found(dirs, d2.first, e)
    requires d1.attr == d2.attr == ATTR_DIRECTORY && d1.first >= 2 && d2.first >= 2
    requires |path| == 3 && path[0] == d1.name && path[1] == d2.name && path[2] == e.name
    ensures EntryAt(dirs, root, path, 0) == Some(e)
  {
    assert EntryAt(dirs, d2.first, path, 2) == Some(e);
    assert EntryAt(dirs, d1.first, path, 1) == Some(e);
  }

  lemma EntryReads(v: Volume, e: DirEntry, data: seq<u8>)
    requires v.Valid() && e.attr == ATTR_FILE && e.first >= 2 && e.size == |data|
    requires ChainBytes(v, e.first, Some(|data|)) == Some(data)
    ensures EntryBytes(v, Some(e)) == Some(data)
  {
  }

  /** A file found through run 0, run `i` and run `j`, with its bytes in run `k`. */
  lemma FileReads(disk: seq<u8>, esp: seq<u8>, fat: seq<u32>, es: seq<Extent>, i: nat, j: nat, k: nat,
                  dir: seq<seq<Item>>, d: seq<DirEntry>)
    requires OnDisk(disk, ESP_FIRST, ESP_SECTORS, esp) && Finished(esp, ESP_FIRST, ESP_SECTORS, fat, es)
    requires |es| == 6 && i < 6 && j < 6 && k < 6 && |dir| == 3 && |d| == 3 && es[0].first == 2
    requires es[0].count == es[i].count == es[j].count == 1 && es[k].count <= MAX_CHAIN
    requires es[0].data == DirBytes(dir[0]) && es[i].data == DirBytes(dir[1]) && es[j].data == DirBytes(dir[2])
    requires Lists(dir[0], d[0]) && Lists(dir[1], d[1]) && Lists(dir[2], d[2])
    requires d[0].attr == d[1].attr == ATTR_DIRECTORY && d[2].attr == ATTR_FILE
    requires d[0].first == es[i].first >= 2 && d[1].first == es[j].first >= 2
    requires d[2].first == es[k].first >= 2 && d[2].size == |es[k].data|
    ensures FileBytes(BuiltVolume(disk, ESP_FIRST, ESP_SECTORS), [d[0].name, d[1].name, d[2].name]) == Some(es[k].data)
  {
    var v := BuiltVolume(disk, ESP_FIRST, ESP_SECTORS);
    DirectoryLists(disk, esp, fat, es, 0, dir[0], d[0]);
    DirectoryLists(disk, esp, fat, es, i, dir[1], d[1]);
    DirectoryLists(disk, esp, fat, es, j, dir[2], d[2]);
    var path := [d[0].name, d[1].name, d[2].name];
    PathLeads(DirectoriesOf(v), 2, path, d[0], d[1], d[2]);
    RunReads(disk, ESP_FIRST, ESP_SECTORS, esp, fat, es, k);
    EntryReads(v, d[2], es[k].data);
  }

  /** A finished volume that holds a tree with the two files. */
  predicate EspHolds(esp: seq<u8>, fat: seq<u32>, t: Tree, efi: seq<u8>, kernel: seq<u8>) {
    && Fits(efi, kernel)
    && Finished(esp, ESP_FIRST, ESP_SECTORS, fat, Runs(t, efi, kernel))
    && TreeLists(t, Placement(6, |efi|), Placement(6 + FileClusters(efi), |kernel|))
  }

  lemma LoaderReads(disk: seq<u8>, esp: seq<u8>, fat: seq<u32>, t: Tree, efi: seq<u8>, kernel: seq<u8>)
    requires OnDisk(disk, ESP_FIRST, ESP_SECTORS, esp) && EspHolds(esp, fat, t, efi, kernel)
    ensures FileBytes(BuiltVolume(disk, ESP_FIRST, ESP_SECTORS), LoaderPath()) == Some(efi)
  {
    FileReads(disk, esp, fat, Runs(t, efi, kernel), 1, 2, 4, [t.root, t.efi, t.boot],
              [DirEntry(Part(Efi()), ATTR_DIRECTORY, 3, 0), DirEntry(Part(Boot()), ATTR_DIRECTORY, 4, 0),
               DirEntry(Part(Loader()), ATTR_FILE, 6, |efi|)]);
  }

  lemma KernelReads(disk: seq<u8>, esp: seq<u8>, fat: seq<u32>, t: Tree, efi: seq<u8>, kernel: seq<u8>)
    requires OnDisk(disk, ESP_FIRST, ESP_SECTORS, esp) && EspHolds(esp, fat, t, efi, kernel)
    ensures FileBytes(BuiltVolume(disk, ESP_FIRST, ESP_SECTORS), KernelPath()) == Some(kernel)
  {
    FileReads(disk, esp, fat, Runs(t, efi, kernel), 1, 3, 5, [t.root, t.efi, t.aegis],
              [DirEntry(Part(Efi()), ATTR_DIRECTORY, 3, 0), DirEntry(Part(Aegis()), ATTR_DIRECTORY, 5, 0),
               DirEntry(Part(Kernel()), ATTR_FILE, 6 + FileClusters(efi), |kernel|)]);
  }

  method MakeTree(root: u32, efiDir: u32, bootDir: u32, aegisDir: u32, efi: Placement, kernel: Placement)
    returns (t: Tree)
    requires root == 2 && efiDir == 3 && bootDir == 4 && aegisDir == 5
    ensures TreeLists(t, efi, kernel)
  {
    t := Tree(RootItems(efiDir), EfiItems(efiDir, root, bootDir, aegisDir),
              FileItems(bootDir, efiDir, Loader(), efi.cluster, efi.size),
              FileItems(aegisDir, efiDir, Kernel(), kernel.cluster, kernel.size));
    RootLists(efiDir);
    EfiLists(efiDir, root, bootDir, aegisDir);
    FileLists(bootDir, efiDir, Loader(), efi.cluster, efi.size);
    FileLists(aegisDir, efiDir, Kernel(), kernel.cluster, kernel.size);
  }

  /** The four one-cluster runs of the directories. */
  method AllocDirectories(vol: Fat32Image) returns (root: u32, efiDir: u32, bootDir: u32, aegisDir: u32)
    requires vol.Valid() && vol.extents == [] && vol.nextCluster == 2 && |vol.fat| > 6
    modifies vol
    ensures vol.Valid() && vol.nextCluster == 6
    ensures root == 2 && efiDir == 3 && bootDir == 4 && aegisDir == 5
    ensures vol.extents == [Extent(2, 1, []), Extent(3, 1, []), Extent(4, 1, []), Extent(5, 1, [])]
  {
    var a := vol.Alloc(1);
    var b := vol.Alloc(1);
    var c := vol.Alloc(1);
    var d := vol.Alloc(1);
    return a.value[0], b.value[0], c.value[0], d.value[0];
  }

  /** The four directories of the built tree go to runs 0 to 3. */
  method WriteDirectories(vol: Fat32Image, t: Tree, root: nat, efiDir: nat, bootDir: nat, aegisDir: nat)
    requires vol.Valid() && |vol.extents| == 6
    requires |t.root| == 2 && |t.efi| == 4 && |t.boot| == 3 && |t.aegis| == 3
    requires vol.extents[0] == Extent(root, 1, []) && vol.extents[1] == Extent(efiDir, 1, [])
    requires vol.extents[2] == Extent(bootDir, 1, []) && vol.extents[3] == Extent(aegisDir, 1, [])
    modifies vol
    ensures vol.Valid() && vol.fat == old(vol.fat)
    ensures vol.extents == [Extent(root, 1, DirBytes(t.root)), Extent(efiDir, 1, DirBytes(t.efi)),
                            Extent(bootDir, 1, DirBytes(t.boot)), Extent(aegisDir, 1, DirBytes(t.aegis)),
                            old(vol.extents[4]), old(vol.extents[5])]
  {
    vol.WriteDir(root, t.root, 0);
    vol.WriteDir(efiDir, t.efi, 1);
    vol.WriteDir(bootDir, t.boot, 2);
    vol.WriteDir(aegisDir, t.aegis, 3);
  }

  /** Both files follow the directories; None when they do not fit. */
  method AddFiles(vol: Fat32Image, efi: seq<u8>, kernel: seq<u8>) returns (r: Option<(nat, nat)>)
    requires vol.Valid() && vol.nextCluster == 6 && vol.total == ESP_SECTORS
    modifies vol
    ensures r.Some? <==> Fits(efi, kernel)
    ensures r.Some? ==>
      && vol.Valid() && r.value == (6, 6 + FileClusters(efi))
      && vol.extents == old(vol.extents)
        + [Extent(6, FileClusters(efi), efi), Extent(6 + FileClusters(efi), FileClusters(kernel), kernel)]
  {
    var bootC := vol.AddFile(efi);
    if bootC.None? {
      return None;
    }
    var kernC := vol.AddFile(kernel);
    if kernC.None? {
      return None;
    }
    r := Some((bootC.value, kernC.value));
  }

  /** The ESP part of `build`; None when the files do not fit. */
  method BuildEsp(efi: seq<u8>, kernel: seq<u8>) returns (r: Option<seq<u8>>, ghost fat: seq<u32>, ghost t: Tree)
    ensures r.Some? <==> Fits(efi, kernel)
    ensures r.Some? ==> |r.value| == ESP_SECTORS * SECTOR && EspHolds(r.value, fat, t, efi, kernel)
  {
    var vol := new Fat32Image(ESP_SECTORS);
    var root, efiDir, bootDir, aegisDir := AllocDirectories(vol);
    var files := AddFiles(vol, efi, kernel);
    if files.None? {
      return None, [], Tree([], [], [], []);
    }
    var tree := MakeTree(root, efiDir, bootDir, aegisDir, Placement(files.value.0, |efi|),
      Placement(files.value.1, |kernel|));
    WriteDirectories(vol, tree, root, efiDir, bootDir, aegisDir);
    var esp := vol.Finish(0xAE61_0501, ESP_FIRST);
    r, fat, t := Some(esp), vol.fat, tree;
  }

  // The whole disk

  predicate StartsWith(s: seq<u8>, mark: seq<u8>) {
    |mark| <= |s| && Sub(s, 0, |mark|) == mark
  }

  /** "MZ" and "\x7fELF". */
  predicate Bootable(efi: seq<u8>, kernel: seq<u8>) {
    StartsWith(efi, [0x4D, 0x5A]) && StartsWith(kernel, [0x7F, 0x45, 0x4C, 0x46])
  }

  /** The files `validate` finds on a disk. */
  ghost function FilesOf(image: seq<u8>, crc: Crc): (r: Option<(seq<u8>, seq<u8>)>) {
    var esp := ReadGpt(image, crc);
    if esp.None? then None
    else
      var v := Open(image, esp.value.0, esp.value.1);
      if v.None? then None
      else
        var efi, kernel := FileBytes(v.value, LoaderPath()), FileBytes(v.value, KernelPath());
        if efi.None? || kernel.None? then None else Some((efi.value, kernel.value))
  }

  /** validate: whether the disk is accepted; `efi` and `kernel` are the files to compare with, when given. */
  method Validate(image: seq<u8>, crc: Crc, efi: Option<seq<u8>>, kernel: Option<seq<u8>>) returns (ok: bool)
    ensures var found := FilesOf(image, crc);
      ok <==> found.Some? && Bootable(found.value.0, found.value.1)
              && (efi.Some? ==> found.value.0 == efi.value) && (kernel.Some? ==> found.value.1 == kernel.value)
  {
    var esp := LocateEsp(image, crc);
    if esp.None? {
      return false;
    }
    var v := Open(image, esp.value.0, esp.value.1);
    if v.None? {
      return false;
    }
    var e := ReadFile(v.value, LoaderPath());
    if e.None? {
      return false;
    }
    var k := ReadFile(v.value, KernelPath());
    if k.None? {
      return false;
    }
    ok := Bootable(e.value, k.value) && (efi.None? || e.value == efi.value)
      && (kernel.None? || k.value == kernel.value);
  }

  datatype Guids = Guids(disk: Guid, boot: Guid, root: Guid, config: Guid, rootKind: Guid, configKind: Guid)

  /** build: a disk on which `validate` finds exactly the two files.  None when the disk is under 128 MiB or the files
      do not fit the ESP; the check for a missing config partition never fails. */
  method Build(sizeMib: nat, efi: seq<u8>, kernel: seq<u8>, crc: Crc, g: Guids, names: seq<seq<u8>>)
    returns (r: Option<seq<u8>>)
    requires sizeMib * 2048 < TWO_64 && |names| == 3 && |names[0]| == |names[1]| == |names[2]| == 72
    requires g.rootKind != EspGuid() && g.configKind != EspGuid()
    ensures r.Some? <==> sizeMib >= 128 && Fits(efi, kernel)
    ensures r.Some? ==> |r.value| == sizeMib * 1024 * 1024 && FilesOf(r.value, crc) == Some((efi, kernel))
  {
    var total := sizeMib * 2048;
    if total < MIN_SECTORS {
      return None;
    }
    var backupEntries := total - 33;
    var lastUsable := backupEntries - 1;
    var espLast := ESP_FIRST + ESP_SECTORS - 1;
    var rootFirst := espLast + 1;
    var rootLast := Min(lastUsable, rootFirst + Max(65536, (lastUsable - rootFirst + 1) * 2 / 3) - 1);
    if rootLast + 1 >= lastUsable {
      return None;
    }
    var esp, fat, t := BuildEsp(efi, kernel);
    if esp.None? {
      return None;
    }
    var entries := Entries(total, rootLast, g, names);
    var disk := WithTable(total, entries, esp.value, crc, g.disk);
    DiskRoundTrip(disk, crc, esp.value, fat, t, efi, kernel);
    r := Some(disk);
  }

  /** The partition array of `build`. */
  method Entries(total: nat, rootLast: nat, g: Guids, names: seq<seq<u8>>) returns (entries: seq<u8>)
    requires MIN_SECTORS <= total < TWO_64 && ESP_FIRST + ESP_SECTORS <= rootLast < total - 35
    requires |names| == 3 && |names[0]| == |names[1]| == |names[2]| == 72
    requires g.rootKind != EspGuid() && g.configKind != EspGuid()
    ensures |entries| == ENTRY_COUNT * ENTRY_SIZE
    ensures FindEsp(Table(entries, ENTRY_SIZE), ENTRY_COUNT, 0, None) == Some((ESP_FIRST, ESP_SECTORS))
  {
    var espLast := ESP_FIRST + ESP_SECTORS - 1;
    entries := WriteEntries(Partition(EspGuid(), g.boot, ESP_FIRST, espLast, names[0]), ESP_SECTORS,
                            Partition(g.rootKind, g.root, espLast + 1, rootLast, names[1]),
                            Partition(g.configKind, g.config, rootLast + 1, total - 34, names[2]));
  }

  /** The primary header and its backup. */
  method Headers(total: nat, crc: Crc, guid: Guid, entriesCrc: u32) returns (primary: seq<u8>, backup: seq<u8>)
    requires MIN_SECTORS <= total < TWO_64
    ensures HeaderFields(primary, 2, entriesCrc) && |backup| == SECTOR
    ensures U32At(primary, 16) == crc(Sub(Splice(primary, 16, Zeros(4)), 0, HEADER_SIZE))
  {
    primary := Header(crc, 1, total - 1, total - 34, guid, 2, entriesCrc);
    backup := Header(crc, total - 1, 1, total - 34, guid, total - 33, entriesCrc);
  }

  /** The disk of `build` around the ESP, with its primary and backup headers. */
  method WithTable(total: nat, entries: seq<u8>, esp: seq<u8>, crc: Crc, guid: Guid) returns (disk: seq<u8>)
    requires MIN_SECTORS <= total < TWO_64 && |esp| == ESP_SECTORS * SECTOR && |entries| == ENTRY_COUNT * ENTRY_SIZE
    ensures |disk| == total * SECTOR && OnDisk(disk, ESP_FIRST, ESP_SECTORS, esp)
    ensures ReadGpt(disk, crc) == FindEsp(Table(entries, ENTRY_SIZE), ENTRY_COUNT, 0, None)
  {
    var primary, backup := Headers(total, crc, guid, crc(entries));
    disk := Assemble(total, entries, primary, backup, esp);
    GptReads(disk, crc, primary, entries);
  }

  /** Both files are found on a disk that holds the ESP where its table says. */
  lemma DiskRoundTrip(disk: seq<u8>, crc: Crc, esp: seq<u8>, fat: seq<u32>, t: Tree, efi: seq<u8>, kernel: seq<u8>)
    requires ReadGpt(disk, crc) == Some((ESP_FIRST, ESP_SECTORS))
    requires OnDisk(disk, ESP_FIRST, ESP_SECTORS, esp) && EspHolds(esp, fat, t, efi, kernel)
    ensures FilesOf(disk, crc) == Some((efi, kernel))
  {
    Opens(disk, ESP_FIRST, ESP_SECTORS, esp, fat, Runs(t, efi, kernel));
    LoaderReads(disk, esp, fat, t, efi, kernel);
    KernelReads(disk, esp, fat, t, efi, kernel);
  }

  /** The pieces at their places: protective MBR, both GPT copies, the ESP. */
  method Assemble(total: nat, entries: seq<u8>, primary: seq<u8>, backup: seq<u8>, esp: seq<u8>) returns (disk: seq<u8>)
    requires total >= MIN_SECTORS && |entries| == 32 * SECTOR && |primary| == |backup| == SECTOR
      && |esp| == ESP_SECTORS * SECTOR
    ensures |disk| == total * SECTOR && disk[510] == 0x55 && disk[511] == 0xAA
    ensures Sub(disk, SECTOR, SECTOR) == primary && Sub(disk, 2 * SECTOR, |entries|) == entries
    ensures OnDisk(disk, ESP_FIRST, ESP_SECTORS, esp)
  {
    disk := Zeros(total * SECTOR);
    var mbr: seq<u8> := [0, 0, 2, 0, 0xEE, 0xFF, 0xFF, 0xFF] + Pack32(1) + Pack32(Min(total - 1, 0xFFFF_FFFF));
    disk := Splice(disk, 446, mbr);
    disk := Splice(disk, 510, [0x55, 0xAA]);
    disk := Splice(disk, 2 * SECTOR, entries);
    disk := Splice(disk, SECTOR, primary);
    disk := Splice(disk, (total - 33) * SECTOR, entries);
    disk := Splice(disk, (total - 1) * SECTOR, backup);
    disk := Splice(disk, ESP_FIRST * SECTOR, esp);
  }
}
