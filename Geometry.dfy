/** Boot-sector geometry (`openImage` arithmetic) and cluster addressing
    (`getDataOffset`). Field offsets follow the "Boot Sector and BPB" layout
    of Microsoft's FAT32 File System Specification v1.03; the arithmetic keeps
    fat.c's 32- and 64-bit unsigned wrap-around. */
module Geometry {
  import opened Bytes

  /** The FAT width, chosen once when the image is opened. */
  datatype FATType = FAT12 | FAT16 | FAT32

  const ENTRY_SIZE: int := 32
  const FAT12_16_BORDER: int := 4086
  const FAT16_32_BORDER: int := 65526
  const CLUSTER_START: int := 2

  /** The largest cluster number fat.c treats as "in use" for a width. */
  function ClusterEnd(t: FATType): (e: U32)
  {
    match t
    case FAT12 => 0xFF6
    case FAT16 => 0xFFF6
    case FAT32 => 0x0FFF_FFF6
  }

  /** The immutable volume geometry an opened image carries. */
  datatype Geometry = Geometry(
    sectorSize: U16,
    clusterSize: U32,
    fatOffset: U32,
    rootOffset: U64,
    dataOffset: U64,
    rootCluster: U32,
    maxRootEntryCount: U32,
    maxSubEntryCount: U32,
    fatType: FATType,
    clusterEnd: U32)
  {
    /** What every geometry produced by OpenImage satisfies. */
    predicate Valid()
    {
      clusterSize > 0 && clusterEnd == ClusterEnd(fatType) &&
      maxSubEntryCount == clusterSize / ENTRY_SIZE
    }
  }

  /** The first 64 bytes of the image, as fat.c reads them. */
  function Boot(image: seq<Byte>): (b: seq<Byte>)
    ensures |b| == 64
  {
    ReadBytes(image, 0, 64)
  }

  function BytesPerSector(b: seq<Byte>): U16 requires |b| == 64 { Get16(b, 11) }
  function SectorsPerCluster(b: seq<Byte>): Byte requires |b| == 64 { Get8(b, 13) }
  function ReservedSectorCount(b: seq<Byte>): U16 requires |b| == 64 { Get16(b, 14) }
  function FatCount(b: seq<Byte>): Byte requires |b| == 64 { Get8(b, 16) }
  function RootEntryCount(b: seq<Byte>): U16 requires |b| == 64 { Get16(b, 17) }
  function FatSectorCount16(b: seq<Byte>): U16 requires |b| == 64 { Get16(b, 22) }
  function FatSectorCount32(b: seq<Byte>): U32 requires |b| == 64 { Get32(b, 36) }
  function RootClusterField(b: seq<Byte>): U32 requires |b| == 64 { Get32(b, 44) }

  /** The total sector count: the 16-bit field, or the 32-bit one when it is 0. */
  function TotalSectorCount(b: seq<Byte>): U32
    requires |b| == 64
  {
    if Get16(b, 19) == 0 then Get32(b, 32) else Get16(b, 19)
  }

  /** The divisions of `openImage` are defined only for these boot sectors. */
  predicate Openable(image: seq<Byte>)
  {
    BytesPerSector(Boot(image)) != 0 && SectorsPerCluster(Boot(image)) != 0
  }

  /** FAT region offset: bytes per sector times reserved sectors. */
  function FatOffset(b: seq<Byte>): U32
    requires |b| == 64
  {
    MulLess(BytesPerSector(b), ReservedSectorCount(b), 0x1_0000, 0x1_0000);
    BytesPerSector(b) * ReservedSectorCount(b)
  }

  /** Bytes per cluster: bytes per sector times sectors per cluster. */
  function ClusterSize(b: seq<Byte>): (cs: U32)
    requires |b| == 64
    ensures cs < 0x100_0000
    ensures BytesPerSector(b) != 0 && SectorsPerCluster(b) != 0 ==> cs > 0
  {
    MulLess(BytesPerSector(b), SectorsPerCluster(b), 0x1_0000, 0x100);
    MulPositive(BytesPerSector(b), SectorsPerCluster(b));
    BytesPerSector(b) * SectorsPerCluster(b)
  }

  /** FAT region offset plus the FATs' size, in 32-bit arithmetic. */
  function FatEnd(b: seq<Byte>, fatSectors: U32): U32
    requires |b| == 64
  {
    (FatOffset(b) + BytesPerSector(b) * fatSectors * FatCount(b)) % U32_LIMIT
  }

  /** First byte after the fixed root directory of FAT12/16 (the local
      `dataOffset` of `openImage` before it is rebased). */
  function FixedDataStart(b: seq<Byte>): nat
    requires |b| == 64
  {
    FatEnd(b, FatSectorCount16(b)) + ENTRY_SIZE * RootEntryCount(b)
  }

  /** The number of data clusters that decides the FAT width, with the
      fat.c's unsigned wrap of the sector subtraction. */
  function DataClusterCount(image: seq<Byte>): U32
    requires Openable(image)
  {
    var b := Boot(image);
    var dataSectorCount := (TotalSectorCount(b) - Quotient(FixedDataStart(b), BytesPerSector(b))) % U32_LIMIT;
    Quotient(dataSectorCount, SectorsPerCluster(b))
  }

  /** The width for a data cluster count (`< 4086`, `< 65526`: one above the
      4085 / 65525 limits of the format's FAT type determination). */
  function SelectFATType(dataClusterCount: int): (t: FATType)
  {
    if dataClusterCount < FAT12_16_BORDER then FAT12
    else if dataClusterCount < FAT16_32_BORDER then FAT16
    else FAT32
  }

  function Width(t: FATType): nat
  {
    match t
    case FAT12 => 12
    case FAT16 => 16
    case FAT32 => 32
  }

  /** More data clusters never select a narrower FAT. */
  lemma SelectFATTypeMonotone(c1: int, c2: int)
    requires c1 <= c2
    ensures Width(SelectFATType(c1)) <= Width(SelectFATType(c2))
  {
  }

  /** Data base rebased two clusters back, in 64-bit arithmetic, so that
      cluster 2 starts at `start`. */
  function Rebase(start: int, clusterSize: U32): U64
  {
    (start - 2 * clusterSize) % U64_LIMIT
  }

  /** `openImage`: derives the geometry from the boot sector. */
  function OpenImage(image: seq<Byte>): (g: Geometry)
    requires Openable(image)
    ensures g.Valid()
    ensures g.fatType == FAT12 <==> DataClusterCount(image) < 4086
    ensures g.fatType == FAT16 <==> 4086 <= DataClusterCount(image) < 65526
    ensures g.fatType == FAT32 <==> 65526 <= DataClusterCount(image)
  {
    var b := Boot(image);
    var bps := BytesPerSector(b);
    var clusterSize := ClusterSize(b);
    var fatType := SelectFATType(DataClusterCount(image));
    var maxSub := clusterSize / ENTRY_SIZE;
    if fatType != FAT32 then
      Geometry(bps, clusterSize, FatOffset(b), FatEnd(b, FatSectorCount16(b)),
               Rebase(FixedDataStart(b), clusterSize), 0, RootEntryCount(b), maxSub,
               fatType, ClusterEnd(fatType))
    else
      var dataOffset := Rebase(FatEnd(b, FatSectorCount32(b)), clusterSize);
      var rootCluster := RootClusterField(b);
      var rootOffset := ClusterOffset(dataOffset, clusterSize, rootCluster);
      Geometry(bps, clusterSize, FatOffset(b), rootOffset, dataOffset, rootCluster, maxSub, maxSub,
               fatType, ClusterEnd(fatType))
  }

  /** `getDataOffset`: the byte offset of a cluster; the product is 32-bit,
      the sum 64-bit. */
  function GetDataOffset(g: Geometry, cluster: U32): (off: U64)
  {
    ClusterOffset(g.dataOffset, g.clusterSize, cluster)
  }

  function ClusterOffset(dataOffset: U64, clusterSize: U32, cluster: U32): U64
  {
    (dataOffset + (clusterSize * cluster) % U32_LIMIT) % U64_LIMIT
  }

  lemma RebaseBack(start: int, d: int)
    requires 0 <= start < U64_LIMIT && 0 <= d < U32_LIMIT
    ensures ((start - d) % U64_LIMIT + d) % U64_LIMIT == start
  {
    if start >= d {
      DivMod(start - d, U64_LIMIT, 0, start - d);
      DivMod(start, U64_LIMIT, 0, start);
    } else {
      DivMod(start - d, U64_LIMIT, -1, start - d + U64_LIMIT);
      DivMod(start + U64_LIMIT, U64_LIMIT, 1, start);
    }
  }

  /** Cluster 2 starts at the first byte after the root directory on FAT12/16,
      and right after the FATs on FAT32. */
  lemma DataOffsetOfClusterTwo(image: seq<Byte>)
    requires Openable(image)
    ensures var g, b := OpenImage(image), Boot(image);
      GetDataOffset(g, 2) ==
        if g.fatType == FAT32 then FatEnd(b, FatSectorCount32(b))
        else g.rootOffset + ENTRY_SIZE * RootEntryCount(b)
  {
    var g, b := OpenImage(image), Boot(image);
    var start := if g.fatType == FAT32 then FatEnd(b, FatSectorCount32(b)) else FixedDataStart(b);
    assert g.clusterSize == ClusterSize(b) && g.dataOffset == Rebase(start, g.clusterSize);
    ClusterTwoAfterRebase(g, start);
  }

  lemma ClusterTwoAfterRebase(g: Geometry, start: int)
    requires 0 <= start < U64_LIMIT && g.clusterSize < 0x100_0000
    requires g.dataOffset == Rebase(start, g.clusterSize)
    ensures GetDataOffset(g, 2) == start
  {
    var cs := g.clusterSize;
    DivMod(cs * 2, U32_LIMIT, 0, cs * 2);
    RebaseBack(start, 2 * cs);
  }

  /** On FAT32 the root directory is the cluster the boot sector names, and it
      is scanned a cluster at a time; on FAT12/16 it is the fixed area of
      `rootEntryCount` records and has cluster number 0. */
  lemma RootDirectoryPlacement(image: seq<Byte>)
    requires Openable(image)
    ensures var g, b := OpenImage(image), Boot(image);
      (g.fatType == FAT32 ==>
        g.rootCluster == RootClusterField(b) &&
        g.rootOffset == GetDataOffset(g, g.rootCluster) &&
        g.maxRootEntryCount == g.clusterSize / ENTRY_SIZE) &&
      (g.fatType != FAT32 ==>
        g.rootCluster == 0 && g.maxRootEntryCount == RootEntryCount(b) &&
        g.rootOffset == FatEnd(b, FatSectorCount16(b)))
  {
  }

  /** Neighbouring clusters are one cluster apart while nothing wraps. */
  lemma DataOffsetNext(g: Geometry, cluster: U32)
    requires cluster + 1 < U32_LIMIT
    requires g.clusterSize * (cluster + 1) < U32_LIMIT
    requires g.dataOffset + g.clusterSize * (cluster + 1) < U64_LIMIT
    ensures GetDataOffset(g, cluster + 1) == GetDataOffset(g, cluster) + g.clusterSize
  {
    assert g.clusterSize * (cluster + 1) == g.clusterSize * cluster + g.clusterSize;
    DivMod(g.clusterSize * cluster, U32_LIMIT, 0, g.clusterSize * cluster);
    DivMod(g.clusterSize * (cluster + 1), U32_LIMIT, 0, g.clusterSize * (cluster + 1));
    DivMod(g.dataOffset + g.clusterSize * cluster, U64_LIMIT, 0, g.dataOffset + g.clusterSize * cluster);
    DivMod(g.dataOffset + g.clusterSize * (cluster + 1), U64_LIMIT, 0, g.dataOffset + g.clusterSize * (cluster + 1));
  }

  /** Boundary cases of the width selection: 4085 data clusters are FAT12,
      4086 FAT16, 65525 FAT16 and 65526 FAT32. */
  lemma SelectFATTypeBoundaries()
    ensures SelectFATType(4085) == FAT12 && SelectFATType(4086) == FAT16
    ensures SelectFATType(65525) == FAT16 && SelectFATType(65526) == FAT32
  {
  }
}
