/**
 A FAT32 volume as a value: its geometry, the links of its allocation table and
 the bytes of the files chained through it.
 */
module FatVolume {
  import Arithmetic
  import opened PhysicalMemory
  import opened Disk

  /** A link at or above this value does not lead to a cluster. */
  const BAD_CLUSTER: int := 0x0FFF_FFF7

  const CLUSTER_MASK: int := 0x1000_0000

  datatype Volume = Volume(extent: Extent, firstFatSector: nat, firstDataSector: nat, sectorsPerCluster: nat) {

    predicate Valid() {
      0 < firstFatSector < 0x1_0000 && 0 < sectorsPerCluster < 0x100
    }

    /** The partition sector holding the link of cluster `c`. */
    function FatSector(c: nat): nat {
      firstFatSector + c * 4 % 0x1_0000_0000 / SECTOR_SIZE
    }

    /** Where in that sector the link is. */
    function FatOffset(c: nat): (o: nat)
      ensures o + 4 <= SECTOR_SIZE
    {
      c * 4 % 0x1_0000_0000 % SECTOR_SIZE
    }

    /** The cluster after `c`; a link that cannot be addressed counts as bad. */
    function Entry(c: nat): (e: nat)
      ensures e < CLUSTER_MASK
    {
      if extent.Reaches(FatSector(c)) then LinkIn(extent.At(FatSector(c)), FatOffset(c)) else BAD_CLUSTER
    }

    /** The `n`-th cluster of the chain that starts at `first`. */
    function Link(first: nat, n: nat): nat {
      if n == 0 then first else Entry(Link(first, n - 1))
    }

    /** The chain from `first` has `n` further clusters. */
    ghost predicate Chained(first: nat, n: nat) {
      n == 0 || (Chained(first, n - 1) && Link(first, n) < BAD_CLUSTER)
    }

    lemma {:induction false} ChainedPrefix(first: nat, m: nat, n: nat)
      requires m <= n && Chained(first, n)
      ensures Chained(first, m)
      decreases n
    {
      if m < n {
        ChainedPrefix(first, m, n - 1);
      }
    }

    /** The partition sector of a sector of cluster `c`. */
    function Lba(c: nat, sector: nat): Word {
      (firstDataSector + (c - 2) * sectorsPerCluster + sector) % 0x1_0000_0000
    }

    /** The partition sector of sector `s` of the file that starts at cluster `first`. */
    function FileLba(first: nat, s: nat): Word
      requires 0 < sectorsPerCluster
    {
      Lba(Link(first, s / sectorsPerCluster), s % sectorsPerCluster)
    }

    /** Sector `s` of the file can be reached. */
    ghost predicate Readable(first: nat, s: nat)
      requires 0 < sectorsPerCluster
    {
      Chained(first, s / sectorsPerCluster) && extent.Reaches(FileLba(first, s))
    }

    function FileSector(first: nat, s: nat): Sector
      requires 0 < sectorsPerCluster
    {
      extent.At(FileLba(first, s))
    }

    /** Byte `i` of the file: its sectors one after the other. */
    function FileByte(first: nat, i: nat): Byte
      requires 0 < sectorsPerCluster
    {
      FileSector(first, i / SECTOR_SIZE)[i % SECTOR_SIZE]
    }

    /** Bytes lo .. hi - 1 of the file. */
    function Bytes(first: nat, lo: nat, hi: nat): (bs: seq<Byte>)
      requires 0 < sectorsPerCluster && lo <= hi
      ensures |bs| == hi - lo && forall k :: 0 <= k < hi - lo ==> bs[k] == FileByte(first, lo + k)
    {
      seq<Byte>(hi - lo, k requires 0 <= k < hi - lo => FileByte(first, lo + k))
    }
  }

  lemma BytesJoin(v: Volume, first: nat, lo: nat, mid: nat, hi: nat)
    requires 0 < v.sectorsPerCluster && lo <= mid <= hi
    ensures v.Bytes(first, lo, mid) + v.Bytes(first, mid, hi) == v.Bytes(first, lo, hi)
  {
  }

  /** Bytes that lie in one sector are a slice of that sector. */
  lemma BytesInSector(v: Volume, first: nat, pos: nat, n: nat)
    requires 0 < v.sectorsPerCluster && pos % SECTOR_SIZE + n <= SECTOR_SIZE
    ensures v.Bytes(first, pos, pos + n) ==
            v.FileSector(first, pos / SECTOR_SIZE)[pos % SECTOR_SIZE..pos % SECTOR_SIZE + n]
  {
    var slice := v.FileSector(first, pos / SECTOR_SIZE)[pos % SECTOR_SIZE..pos % SECTOR_SIZE + n];
    forall k | 0 <= k < n
      ensures v.Bytes(first, pos, pos + n)[k] == slice[k]
    {
      SameSector(pos, k);
    }
  }

  lemma SameSector(pos: nat, k: nat)
    requires pos % SECTOR_SIZE + k < SECTOR_SIZE
    ensures (pos + k) / SECTOR_SIZE == pos / SECTOR_SIZE && (pos + k) % SECTOR_SIZE == pos % SECTOR_SIZE + k
  {
  }

  /** The 28-bit link stored at offset `o` of a table sector. */
  function LinkIn(sector: Sector, o: nat): (e: nat)
    requires o + 4 <= SECTOR_SIZE
    ensures e < CLUSTER_MASK
  {
    LittleEndian(sector[o..o + 4]) % CLUSTER_MASK
  }

  // ----- geometry -----

  /** The fields of the boot record that fix where things are. */
  datatype BootRecord = BootRecord(
    bytesPerSector: nat, sectorsPerCluster: nat, reservedSectorCount: nat, fatCount: nat, rootEntryCount: nat,
    sectorCount16: nat, sectorCount32: nat, sectorsPerFat16: nat, sectorsPerFat32: nat, signature16: nat, signature32: nat)

  datatype Geometry = Geometry(totalSectors: nat, totalClusters: nat, fatSize: nat, firstFatSector: nat, firstDataSector: nat)

  datatype InitResult = Mounted(geometry: Geometry) | ExFat | Invalid

  function TotalSectors(br: BootRecord): nat {
    if br.sectorCount16 == 0 then br.sectorCount32 else br.sectorCount16
  }

  function FatSize(br: BootRecord): nat {
    if br.sectorsPerFat16 == 0 then br.sectorsPerFat32 else br.sectorsPerFat16
  }

  /** Where the layout of the FAT specification puts the first data sector. */
  function DataStart(br: BootRecord): nat
    requires br.bytesPerSector > 0
  {
    br.reservedSectorCount + br.fatCount * FatSize(br)
    + (br.rootEntryCount * 32 + br.bytesPerSector - 1) / br.bytesPerSector
  }

  /** What section "FAT Data Structure" of the FAT specification asks of a volume, as far as the
      layout depends on it. */
  predicate WellFormed(br: BootRecord) {
    && br.bytesPerSector == SECTOR_SIZE && 0 < br.sectorsPerCluster < 0x100
    && 0 < br.reservedSectorCount < 0x1_0000 && 0 < br.fatCount && 0 < FatSize(br)
    && DataStart(br) + br.sectorsPerCluster <= TotalSectors(br) < 0x1_0000_0000
    && (TotalSectors(br) - DataStart(br)) / br.sectorsPerCluster + 2 <= FatSize(br) * 128
  }

  predicate Signed(br: BootRecord) {
    br.signature16 == 0x28 || br.signature16 == 0x29 || br.signature32 == 0x28 || br.signature32 == 0x29
  }

  /** Reads the geometry out of the boot record. The sanity checks are overwritten by the signature
      check that follows them. */
  method InitPartition(br: BootRecord) returns (r: InitResult)
    requires br.bytesPerSector > 0 ==> br.sectorsPerCluster > 0
    ensures r.ExFat? <==> br.bytesPerSector == 0
    ensures r.Mounted? <==> br.bytesPerSector != 0 && Signed(br)
    ensures r.Mounted? && WellFormed(br) ==>
              r.geometry == Geometry(TotalSectors(br), (TotalSectors(br) - DataStart(br)) / br.sectorsPerCluster,
                                     FatSize(br), br.reservedSectorCount, DataStart(br))
    ensures r.Mounted? ==> r.geometry == Wrapped(br)
  {
    if br.bytesPerSector == 0 {
      return ExFat;
    }
    var g := GeometryOf(br);
    var ok := true;
    ok := ok && g.totalSectors > 0;
    ok := ok && g.fatSize > 0;
    ok := ok && g.firstFatSector > 0;
    ok := ok && g.totalClusters > 0;
    ok := ok && br.fatCount > 0;
    ok := ok && br.bytesPerSector == 512;
    ok := br.signature16 == 0x28 || br.signature16 == 0x29 || br.signature32 == 0x28 || br.signature32 == 0x29;
    if !ok {
      return Invalid;
    }
    r := Mounted(g);
  }

  /** The checks that the signature check overwrites. */
  predicate Checked(br: BootRecord)
    requires br.bytesPerSector > 0 && br.sectorsPerCluster > 0
  {
    var g := Wrapped(br);
    g.totalSectors > 0 && g.fatSize > 0 && g.firstFatSector > 0 && g.totalClusters > 0 && br.fatCount > 0 && br.bytesPerSector == 512
  }

  /** A boot record that fails the checks and is mounted all the same. */
  method MountsUnchecked() returns (br: BootRecord, r: InitResult)
    ensures br.bytesPerSector == 1024 && br.sectorsPerCluster > 0 && !Checked(br) && r.Mounted?
  {
    br := BootRecord(1024, 1, 32, 2, 0, 0, 0x1_0000, 0, 0x200, 0x29, 0x29);
    r := InitPartition(br);
  }

  /** The value an unsigned 32-bit variable takes. */
  function Wrap32(x: int): (w: Word)
    ensures 0 <= x < 0x1_0000_0000 ==> w == x
  {
    x % 0x1_0000_0000
  }

  /** The geometry of any boot record, whose sizes wrap around at 32 bits. */
  function Wrapped(br: BootRecord): Geometry
    requires br.bytesPerSector > 0 && br.sectorsPerCluster > 0
  {
    var first := Wrap32(DataStart(br));
    Geometry(TotalSectors(br), Wrap32(TotalSectors(br) - first) / br.sectorsPerCluster, FatSize(br), br.reservedSectorCount, first)
  }

  method GeometryOf(br: BootRecord) returns (g: Geometry)
    requires br.bytesPerSector > 0 && br.sectorsPerCluster > 0
    ensures g == Wrapped(br)
    ensures WellFormed(br) ==>
              g == Geometry(TotalSectors(br), (TotalSectors(br) - DataStart(br)) / br.sectorsPerCluster,
                            FatSize(br), br.reservedSectorCount, DataStart(br))
  {
    var totalSectors := if br.sectorCount16 == 0 then br.sectorCount32 else br.sectorCount16;
    var fatSize := if br.sectorsPerFat16 == 0 then br.sectorsPerFat32 else br.sectorsPerFat16;
    var rootDirSectors := (br.rootEntryCount * 32 + br.bytesPerSector - 1) / br.bytesPerSector;
    var firstFatSector := br.reservedSectorCount;
    var firstDataSector := Wrap32(firstFatSector + br.fatCount * fatSize + rootDirSectors);
    var dataSectors := Wrap32(totalSectors - firstDataSector);
    g := Geometry(totalSectors, dataSectors / br.sectorsPerCluster, fatSize, firstFatSector, firstDataSector);
  }

  /** The data area begins behind the reserved sectors, all copies of the table and the fewest sectors
      that hold the entries of the root directory. */
  lemma DataBehindTables(br: BootRecord, root: nat)
    requires br.bytesPerSector > 0
    ensures DataStart(br) == br.reservedSectorCount + br.fatCount * FatSize(br) + root
            <==> root * br.bytesPerSector >= br.rootEntryCount * 32 > (root - 1) * br.bytesPerSector
  {
    var (n, d) := (br.rootEntryCount * 32, br.bytesPerSector);
    var (q, r) := ((n + d - 1) / d, (n + d - 1) % d);
    DivTimes(n + d - 1, d);
    assert n == q * d + (r + 1 - d) && (q - 1) * d == q * d - d;
    if root < q {
      ProductMonotone(root, q - 1, d);
    } else if root > q {
      ProductMonotone(q, root - 1, d);
      assert (root - 1) * d == root * d - d;
    }
  }

  /** Two volumes mounted: one of FAT32, and one with the 16-bit fields and a root directory of its own. */
  method MountsTwo() returns (r: InitResult, s: InitResult)
    ensures r == Mounted(Geometry(0x10_0000, 0x1FEFC, 0x400, 32, 2080))
    ensures s == Mounted(Geometry(0x8000, 0x1FB7, 0x80, 4, 292))
  {
    var br := BootRecord(512, 8, 32, 2, 0, 0, 0x10_0000, 0, 0x400, 0x29, 0x29);
    assert br.sectorsPerFat16 == 0;
    r := InitPartition(br);
    s := InitPartition(BootRecord(512, 4, 4, 2, 512, 0x8000, 0, 0x80, 7, 0x29, 0));
  }

  /** The volume a boot record describes. */
  function VolumeOf(br: BootRecord, extent: Extent): Volume
    requires br.bytesPerSector > 0
  {
    Volume(extent, br.reservedSectorCount, DataStart(br), br.sectorsPerCluster)
  }

  function ClusterCount(br: BootRecord): nat
    requires WellFormed(br)
  {
    (TotalSectors(br) - DataStart(br)) / br.sectorsPerCluster
  }

  /** Clusters 2 .. count + 1 and their sectors number the data sectors from the first one on,
      without gaps and without 32-bit wrap-around. */
  lemma ClusterSectorLba(br: BootRecord, extent: Extent, c: nat, sector: nat)
    requires WellFormed(br) && 2 <= c < ClusterCount(br) + 2 && sector < br.sectorsPerCluster
    ensures var (v, spc) := (VolumeOf(br, extent), br.sectorsPerCluster);
            && v.Lba(c, sector) == DataStart(br) + (c - 2) * spc + sector
            && DataStart(br) <= v.Lba(c, sector) < DataStart(br) + ClusterCount(br) * spc <= TotalSectors(br)
  {
    var spc := br.sectorsPerCluster;
    var n := ClusterCount(br);
    assert n * spc <= TotalSectors(br) - DataStart(br) by { DivTimes(TotalSectors(br) - DataStart(br), spc); }
    RowBelow(c - 2, n, spc, sector);
    SmallModulus(DataStart(br) + (c - 2) * spc + sector);
  }

  lemma DivTimes(x: nat, d: nat)
    requires 0 < d
    ensures x / d * d <= x && x == x / d * d + x % d
  {
  }

  lemma RowBelow(row: nat, rows: nat, width: nat, column: nat)
    requires row < rows && column < width
    ensures 0 <= row * width && row * width + column < rows * width
  {
    assert (row + 1) * width <= rows * width by { ProductMonotone(row + 1, rows, width); }
    assert (row + 1) * width == row * width + width;
  }

  lemma ProductMonotone(a: nat, b: nat, c: nat)
    requires a <= b
    ensures a * c <= b * c
  {
    assert (b - a) * c >= 0;
    assert b * c == a * c + (b - a) * c;
  }

  lemma SmallModulus(x: nat)
    requires x < 0x1_0000_0000
    ensures x % 0x1_0000_0000 == x
  {
  }

  function Divided(x: nat, d: nat): (qr: (nat, nat))
    requires 0 < d
    ensures x == qr.0 * d + qr.1 && qr.1 < d
  {
    (x / d, x % d)
  }

  /** The cluster and sector a data sector belongs to. */
  function ClusterAt(br: BootRecord, lba: nat): (nat, nat)
    requires 0 < br.bytesPerSector && 0 < br.sectorsPerCluster && DataStart(br) <= lba
  {
    var (row, column) := Divided(lba - DataStart(br), br.sectorsPerCluster);
    (2 + row, column)
  }

  /** One way round: the address computed for a cluster and sector names them and no others. */
  lemma AddressThenCluster(br: BootRecord, extent: Extent, c: nat, sector: nat)
    requires WellFormed(br) && 2 <= c < ClusterCount(br) + 2 && sector < br.sectorsPerCluster
    ensures DataStart(br) <= VolumeOf(br, extent).Lba(c, sector)
    ensures ClusterAt(br, VolumeOf(br, extent).Lba(c, sector)) == (c, sector)
  {
    ClusterSectorLba(br, extent, c, sector);
    Arithmetic.DivisionUnique((c - 2) * br.sectorsPerCluster + sector, br.sectorsPerCluster, c - 2, sector);
  }

  /** The other way round: every sector of the cluster area is some cluster's sector. */
  lemma ClusterThenAddress(br: BootRecord, extent: Extent, lba: nat)
    requires WellFormed(br) && DataStart(br) <= lba < DataStart(br) + ClusterCount(br) * br.sectorsPerCluster
    ensures var (c, sector) := ClusterAt(br, lba);
            && 2 <= c < ClusterCount(br) + 2 && sector < br.sectorsPerCluster
            && VolumeOf(br, extent).Lba(c, sector) == lba
  {
    var (row, column) := Divided(lba - DataStart(br), br.sectorsPerCluster);
    QuotientBelow(row, column, br.sectorsPerCluster, ClusterCount(br));
    ClusterSectorLba(br, extent, 2 + row, column);
  }

  lemma QuotientBelow(q: nat, r: nat, d: nat, n: nat)
    requires q * d + r < n * d
    ensures q < n
  {
    if n <= q {
      ProductMonotone(n, q, d);
    }
  }

  /** The link of every cluster lies in the allocation table, clear of the data area. */
  lemma FatLookupsBelowData(br: BootRecord, extent: Extent, c: nat)
    requires WellFormed(br) && c < ClusterCount(br) + 2
    ensures br.reservedSectorCount <= VolumeOf(br, extent).FatSector(c) < br.reservedSectorCount + FatSize(br) <= DataStart(br)
  {
    var n := ClusterCount(br);
    DivTimes(TotalSectors(br) - DataStart(br), br.sectorsPerCluster);
    ProductMonotone(1, br.sectorsPerCluster, n);
    ProductMonotone(1, br.fatCount, FatSize(br));
  }
}
