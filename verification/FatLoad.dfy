/** Loading a FAT16 volume: fat_load and fat_load_table of kernel/fs/fat.c. */
module FatLoad {
  import opened Bits
  import opened Disk
  import opened Fat

  /** The fields of the boot sector that the reader uses. */
  datatype Header = Header(bytesPerSector: nat, sectorsPerCluster: nat, reservedSectors: nat, fatCopies: nat,
                           rootEntries: nat, smallSectors: nat, sectorsPerFat: nat, largeSectors: nat)

  function Word(low: nat, high: nat): nat { low + 256 * high }

  /** The little-endian 16-bit word at an offset of the disk. */
  function Le16(disk: Sectors, off: nat): nat
    requires ValidDisk(disk) && off + 1 < Size(disk)
  {
    Word(ByteAt(disk, off), ByteAt(disk, off + 1))
  }

  /** The boot sector fields where the Microsoft FAT specification puts them ("Boot Sector and BPB"). */
  function Fields(b: seq<Byte>): Header
    requires |b| == 512
  {
    Header(Word(b[11], b[12]), b[13], Word(b[14], b[15]), b[16], Word(b[17], b[18]), Word(b[19], b[20]),
           Word(b[22], b[23]), Word(b[32], b[33]) + 0x1_0000 * Word(b[34], b[35]))
  }

  function BootSector(disk: Sectors): Header
    requires ValidDisk(disk) && |disk| > 0
  {
    Fields(disk[0])
  }

  function TotalSectors(h: Header): nat {
    if h.smallSectors != 0 then h.smallSectors else h.largeSectors
  }

  function FatOffset(h: Header): nat { h.reservedSectors * h.bytesPerSector }

  function DirectoryOffset(h: Header): nat {
    FatOffset(h) + h.sectorsPerFat * h.fatCopies * h.bytesPerSector
  }

  function DataOffset(h: Header): nat { DirectoryOffset(h) + h.rootEntries * 32 }

  /** The first data sector as the Microsoft FAT specification computes it ("FAT Data Structure"). */
  function SpecFirstDataSector(h: Header): nat
    requires h.bytesPerSector > 0
  {
    h.reservedSectors + h.fatCopies * h.sectorsPerFat
    + (h.rootEntries * 32 + (h.bytesPerSector - 1)) / h.bytesPerSector
  }

  lemma RoundUp(y: nat, b: nat)
    requires b > 0
    ensures (y + (b - 1)) / b * b == y <==> y % b == 0
  {
    var q, r := y / b, y % b;
    if r == 0 {
      QuotientUnique(y + (b - 1), b, q, b - 1);
    } else {
      assert (q + 1) * b == q * b + b;
      QuotientUnique(y + (b - 1), b, q + 1, r - 1);
    }
  }

  /** The kernel does not round the root directory up to sectors, so its data area is the specified
      one exactly when the root directory fills whole sectors. */
  lemma DataOffsetAsSpecified(h: Header)
    requires h.bytesPerSector > 0
    ensures DataOffset(h) == SpecFirstDataSector(h) * h.bytesPerSector <==>
            h.rootEntries * 32 % h.bytesPerSector == 0
  {
    var b, y := h.bytesPerSector, h.rootEntries * 32;
    var s := (y + (b - 1)) / b;
    RoundUp(y, b);
    Regroup(h.reservedSectors, h.sectorsPerFat, h.fatCopies, s, b);
  }

  /** A volume of 100 sectors with one root entry: the kernel's data area starts 480 bytes too early. */
  lemma DataOffsetExample(disk: Sectors)
    requires ValidDisk(disk) && |disk| == 100
    ensures var h := Header(512, 1, 1, 2, 1, 100, 1, 0);
            && Loadable(disk, h)
            && DataOffset(h) == 3 * 512 + 32 && SpecFirstDataSector(h) * h.bytesPerSector == 4 * 512
  {
    var h := Header(512, 1, 1, 2, 1, 100, 1, 0);
    assert SpecFirstDataSector(h) == 4;
  }

  lemma Regroup(r: nat, f: nat, c: nat, s: nat, b: nat)
    ensures (r + c * f + s) * b == r * b + f * c * b + s * b
  {
    assert c * f == f * c;
  }

  /** Reads the table of 16-bit entries: entry i is the little-endian word at its place on the disk. */
  method LoadTable(disk: Sectors, offset: nat, entries: nat) returns (fat: seq<nat>)
    requires ValidDisk(disk) && entries > 0 && offset + 512 * SectorsFor(2 * entries) <= Size(disk)
    ensures |fat| == entries
    ensures forall i :: 0 <= i < entries ==> fat[i] == Le16(disk, offset + 2 * i)
  {
    var bytes := new Byte[512 * SectorsFor(2 * entries)];
    LoadData(disk, bytes, 0, offset, 2 * entries);
    fat := [];
    ghost var loaded := bytes[..];
    for i := 0 to entries
      invariant |fat| == i && bytes[..] == loaded
      invariant forall k :: 0 <= k < i ==> fat[k] == Le16(disk, offset + 2 * k)
    {
      assert loaded[2 * i] == ByteAt(disk, offset + 2 * i) && loaded[2 * i + 1] == ByteAt(disk, offset + 2 * i + 1);
      fat := fat + [Word(bytes[2 * i], bytes[2 * i + 1])];
    }
  }

  /** The table and the root directory fit on the disk, and the two products that the kernel computes as
      ints do not overflow. */
  predicate Loadable(disk: Sectors, h: Header) {
    && DirectoryOffset(h) + 512 * SectorsFor(32 * h.rootEntries) <= Size(disk)
    && TotalSectors(h) > 0 && FatOffset(h) + 512 * SectorsFor(2 * TotalSectors(h)) <= Size(disk)
    && FatOffset(h) < 0x8000_0000
    && h.sectorsPerFat * h.fatCopies * h.bytesPerSector < 0x8000_0000
  }

  /** `v` is the volume that the header `h` describes. */
  ghost predicate Describes(h: Header, disk: Sectors, v: Volume)
    requires ValidDisk(disk) && Loadable(disk, h)
  {
    && v.disk == disk && v.dataOffset == DataOffset(h)
    && v.clusterSize == h.bytesPerSector * h.sectorsPerCluster
    && |v.fat| == TotalSectors(h)
    && forall i :: 0 <= i < |v.fat| ==> v.fat[i] == Le16(disk, FatOffset(h) + 2 * i)
  }

  /** What is loaded, byte by byte: the boot sector fields, the table and the root directory at their
      places, in little-endian order. */
  ghost predicate Layout(disk: Sectors, v: Volume, entries: seq<DirEntry>)
    requires ValidDisk(disk) && |disk| > 0
  {
    var d: seq<int> := disk[0];
    var sectorSize: int := d[11] + 256 * d[12];
    var smallSectors: int := d[19] + 256 * d[20];
    var largeSectors: int := d[32] + 256 * d[33] + 0x1_0000 * d[34] + 0x100_0000 * d[35];
    var table: int := (d[14] + 256 * d[15]) * sectorSize;
    var directory: int := table + (d[22] + 256 * d[23]) * d[16] * sectorSize;
    && v.disk == disk
    && v.clusterSize == sectorSize * d[13]
    && |v.fat| == (if smallSectors != 0 then smallSectors else largeSectors)
    && |entries| == d[17] + 256 * d[18]
    && v.dataOffset == directory + 32 * |entries|
    && (forall i: nat :: i < |v.fat| ==> WordAt(disk, table + 2 * i, v.fat[i]))
    && (forall i: nat :: i < |entries| ==> EntryBytes(disk, directory + 32 * i, entries[i]))
  }

  /** The two bytes at `at` are the word `w`, the lower one first. */
  predicate WordAt(disk: Sectors, at: int, w: nat)
    requires ValidDisk(disk)
  {
    0 <= at && at + 1 < 512 * |disk| && w == ByteAt(disk, at) + 256 * ByteAt(disk, at + 1)
  }

  /** The 32 bytes at `at` are a directory entry with that start and size. */
  predicate EntryBytes(disk: Sectors, at: int, e: DirEntry)
    requires ValidDisk(disk)
  {
    && 0 <= at && at + 32 <= 512 * |disk|
    && e.start == ByteAt(disk, at + 26) + 256 * ByteAt(disk, at + 27)
    && e.size == ByteAt(disk, at + 28) + 256 * ByteAt(disk, at + 29) + 0x1_0000 * ByteAt(disk, at + 30)
                 + 0x100_0000 * ByteAt(disk, at + 31)
  }

  /** The volume and the entries of the boot sector have that layout. */
  lemma DescribedLayout(disk: Sectors, v: Volume, entries: seq<DirEntry>)
    requires ValidDisk(disk) && |disk| > 0 && Loadable(disk, BootSector(disk))
    requires Describes(BootSector(disk), disk, v) && Lists(BootSector(disk), disk, entries)
    ensures Layout(disk, v, entries)
  {
    var h := BootSector(disk);
    forall i: nat | i < |v.fat|
      ensures WordAt(disk, FatOffset(h) + 2 * i, v.fat[i])
    {
      assert v.fat[i] == Le16(disk, FatOffset(h) + 2 * i);
    }
    forall i: nat | i < |entries|
      ensures EntryBytes(disk, DirectoryOffset(h) + 32 * i, entries[i])
    {
      assert entries[i] == EntryAt(disk, DirectoryOffset(h) + 32 * i);
    }
  }

  method LoadAs(disk: Sectors, h: Header) returns (v: Volume)
    requires ValidDisk(disk) && Loadable(disk, h)
    ensures Describes(h, disk, v)
  {
    var sectors := if h.smallSectors != 0 then h.smallSectors else h.largeSectors;
    var fatOffset := h.reservedSectors * h.bytesPerSector;
    var dirOffset := fatOffset + h.sectorsPerFat * h.fatCopies * h.bytesPerSector;
    var fat := LoadTable(disk, fatOffset, sectors);
    v := Volume(disk, dirOffset + h.rootEntries * 32, h.bytesPerSector * h.sectorsPerCluster, fat);
  }

  /** The little-endian 32-bit word at an offset of the disk. */
  function Le32(disk: Sectors, off: nat): nat
    requires ValidDisk(disk) && off + 3 < Size(disk)
  {
    Le16(disk, off) + 0x1_0000 * Le16(disk, off + 2)
  }

  /** The root directory holds exactly these entries, in its order: the first cluster at byte 26 of an
      entry and the size at byte 28, as in the Microsoft FAT specification ("FAT Directory Structure"). */
  ghost predicate Lists(h: Header, disk: Sectors, entries: seq<DirEntry>)
    requires ValidDisk(disk) && Loadable(disk, h)
  {
    && |entries| == h.rootEntries
    && forall i :: 0 <= i < |entries| ==> entries[i] == EntryAt(disk, DirectoryOffset(h) + 32 * i)
  }

  function EntryAt(disk: Sectors, off: nat): DirEntry
    requires ValidDisk(disk) && off + 32 <= Size(disk)
  {
    DirEntry(Le16(disk, off + 26), Le32(disk, off + 28))
  }

  /** The entry at byte `p` of the loaded directory. */
  function EntryIn(b: seq<Byte>, p: nat): DirEntry
    requires p + 32 <= |b|
  {
    DirEntry(Word(b[p + 26], b[p + 27]), Word(b[p + 28], b[p + 29]) + 0x1_0000 * Word(b[p + 30], b[p + 31]))
  }

  lemma EntryLoaded(b: seq<Byte>, disk: Sectors, off: nat, len: nat, p: nat)
    requires ValidDisk(disk) && Holds(b, 0, disk, off, len) && p + 32 <= len
    ensures EntryIn(b, p) == EntryAt(disk, off + p)
  {
  }

  /** Reads the root directory. Without entries there is nothing to allocate, and nothing is read. */
  method LoadEntries(disk: Sectors, h: Header) returns (entries: seq<DirEntry>)
    requires ValidDisk(disk) && Loadable(disk, h)
    ensures Lists(h, disk, entries)
  {
    entries := [];
    var size := 32 * h.rootEntries;
    if size == 0 {
      return;
    }
    var bytes := new Byte[512 * SectorsFor(size)];
    LoadData(disk, bytes, 0, DirectoryOffset(h), size);
    ghost var loaded := bytes[..];
    for i := 0 to h.rootEntries
      invariant |entries| == i && bytes[..] == loaded
      invariant forall k :: 0 <= k < i ==> entries[k] == EntryAt(disk, DirectoryOffset(h) + 32 * k)
    {
      EntryLoaded(loaded, disk, DirectoryOffset(h), 512 * SectorsFor(size), 32 * i);
      entries := entries + [EntryIn(bytes[..], 32 * i)];
    }
  }

  /** Reads the boot sector, the table and the root directory, and works out where the data area starts. */
  method Load(disk: Sectors) returns (v: Volume, entries: seq<DirEntry>)
    requires ValidDisk(disk) && |disk| > 0 && Loadable(disk, BootSector(disk))
    ensures Describes(BootSector(disk), disk, v) && Lists(BootSector(disk), disk, entries)
    ensures Layout(disk, v, entries) && v.clusterSize < 0x8000_0000
  {
    var h := ReadHeader(disk);
    v := LoadAs(disk, h);
    entries := LoadEntries(disk, h);
    DescribedLayout(disk, v, entries);
    ProductGrows(h.bytesPerSector, 0xffff, h.sectorsPerCluster, 0xff);
  }

  method ReadHeader(disk: Sectors) returns (h: Header)
    requires ValidDisk(disk) && |disk| > 0
    ensures h == BootSector(disk)
  {
    var b := new Byte[512];
    LoadData(disk, b, 0, 0, 512);
    assert b[..] == disk[0];
    h := Fields(b[..]);
  }
}
