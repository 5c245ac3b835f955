/** Which 32-byte records `getChildren` reads for a directory: a pass over
    consecutive records that stops at a 0x00 first byte or after the
    directory's record limit, for its first cluster and then along the chain,
    one pass per cluster. */
module Records {
  import opened Bytes
  import opened Geometry
  import opened ClusterChain
  import opened Directory

  /** The record at byte `off` of the image. */
  function RecordAt(image: seq<Byte>, off: int): (r: Record)
  {
    ReadBytes(image, off, ENTRY_SIZE)
  }

  /** One pass of the inner loop: the consecutive records from `off` before
      the first one starting with 0x00, at most `max` of them. */
  function PassRecords(image: seq<Byte>, off: int, max: nat): (rs: seq<Record>)
    ensures |rs| <= max
    decreases max
  {
    if max == 0 then []
    else
      var r := RecordAt(image, off);
      if r[0] == SKIPPED then [] else [r] + PassRecords(image, off + ENTRY_SIZE, max - 1)
  }

  /** The `k` consecutive records from `off`. */
  function RecordsFrom(image: seq<Byte>, off: int, k: nat): (rs: seq<Record>)
    decreases k
  {
    if k == 0 then [] else [RecordAt(image, off)] + RecordsFrom(image, off + ENTRY_SIZE, k - 1)
  }

  /** The pass holds the consecutive records from `off`, none starting with
      0x00, and stops at the limit or at a record starting with 0x00. */
  lemma {:induction false} PassRecordsAt(image: seq<Byte>, off: int, max: nat)
    ensures var rs := PassRecords(image, off, max);
      rs == RecordsFrom(image, off, |rs|) &&
      (forall i :: 0 <= i < |rs| ==> rs[i][0] != SKIPPED) &&
      (|rs| < max ==> RecordAt(image, off + ENTRY_SIZE * |rs|)[0] == SKIPPED)
    decreases max
  {
    if max > 0 && RecordAt(image, off)[0] != SKIPPED {
      var rest := PassRecords(image, off + ENTRY_SIZE, max - 1);
      PassRecordsAt(image, off + ENTRY_SIZE, max - 1);
      var rs := PassRecords(image, off, max);
      assert rs == [RecordAt(image, off)] + rest;
      assert off + ENTRY_SIZE * |rs| == off + ENTRY_SIZE + ENTRY_SIZE * |rest|;
    }
  }

  /** The passes from `cluster` on: the cluster is scanned, and the chain is
      followed while the cluster just scanned is in use. At most `fuel`
      further clusters are visited (see `DirectoryRecords`). */
  function ChainRecords(image: seq<Byte>, g: Geometry, cluster: U32, max: nat, fuel: nat): (rs: seq<Record>)
    decreases fuel
  {
    PassRecords(image, GetDataOffset(g, cluster), max) +
    (if InUse(g, cluster) && fuel > 0
     then ChainRecords(image, g, NextCluster(image, g, cluster), max, fuel - 1)
     else [])
  }

  /** Where the scan of a directory starts and how many records each pass may
      read: the root area and its limit for the root, the first cluster and
      the per-cluster limit otherwise. */
  function ScanStart(g: Geometry, dir: Entry): U64
  {
    if IsRoot(g, dir) then g.rootOffset else GetDataOffset(g, dir.cluster)
  }

  function ScanLimit(g: Geometry, dir: Entry): U32
  {
    if IsRoot(g, dir) then g.maxRootEntryCount else g.maxSubEntryCount
  }

  /** The records `getChildren` reads for `dir`, in order. A chain that stays
      in use for more than `clusterEnd` steps revisits a cluster and the
      C code loops forever; the model stops there. */
  function DirectoryRecords(image: seq<Byte>, g: Geometry, dir: Entry): (rs: seq<Record>)
  {
    var max := ScanLimit(g, dir);
    PassRecords(image, ScanStart(g, dir), max) +
    (if InUse(g, dir.cluster)
     then ChainRecords(image, g, NextCluster(image, g, dir.cluster), max, g.clusterEnd)
     else [])
  }

  /** The passes over the clusters `cluster`, its successor, ..., `m` steps on,
      with no test of the chain: what the scan reads when it stops there. */
  function Passes(image: seq<Byte>, g: Geometry, cluster: U32, max: nat, m: nat): seq<Record>
    decreases m
  {
    PassRecords(image, GetDataOffset(g, cluster), max) +
    (if m == 0 then [] else Passes(image, g, NextCluster(image, g, cluster), max, m - 1))
  }

  /** The chain from `cluster` has `m` clusters in use and then one that is
      not. */
  predicate InUseFor(image: seq<Byte>, g: Geometry, cluster: U32, m: nat)
    decreases m
  {
    if m == 0 then !InUse(g, cluster)
    else InUse(g, cluster) && InUseFor(image, g, NextCluster(image, g, cluster), m - 1)
  }

  /** The scan visits the chain up to and including the first cluster that is
      not in use: an end-of-chain mark (or a free or bad cluster) is itself
      scanned as a cluster before the loop stops. */
  lemma {:induction false} ChainRecordsVisits(image: seq<Byte>, g: Geometry, cluster: U32, max: nat, fuel: nat, m: nat)
    requires m <= fuel && InUseFor(image, g, cluster, m)
    ensures ChainRecords(image, g, cluster, max, fuel) == Passes(image, g, cluster, max, m)
    decreases m
  {
    if m > 0 {
      ChainRecordsVisits(image, g, NextCluster(image, g, cluster), max, fuel - 1, m - 1);
    } else {
      assert ChainRecords(image, g, cluster, max, fuel) == PassRecords(image, GetDataOffset(g, cluster), max) + [];
    }
  }

  /** On FAT12/16 the root directory (cluster 0) is the fixed root area,
      scanned once with the boot sector's root entry count. */
  lemma FixedRootScannedOnce(bootImage: seq<Byte>, image: seq<Byte>)
    requires Openable(bootImage) && OpenImage(bootImage).fatType != FAT32
    ensures var g := OpenImage(bootImage);
      DirectoryRecords(image, g, RootEntry(g)) ==
        PassRecords(image, g.rootOffset, RootEntryCount(Boot(bootImage)))
  {
    var g := OpenImage(bootImage);
    RootEntryDecodes(g);
    RootDirectoryPlacement(bootImage);
    assert DirectoryRecords(image, g, RootEntry(g)) + [] == DirectoryRecords(image, g, RootEntry(g));
  }

  /** On FAT32 the root directory is scanned like any directory: from the root
      cluster, along its chain. */
  lemma Fat32RootFollowsChain(bootImage: seq<Byte>, image: seq<Byte>)
    requires Openable(bootImage) && OpenImage(bootImage).fatType == FAT32
    ensures var g := OpenImage(bootImage);
      DirectoryRecords(image, g, RootEntry(g)) ==
        ChainRecords(image, g, g.rootCluster, g.maxSubEntryCount, g.clusterEnd + 1)
  {
    var g := OpenImage(bootImage);
    RootEntryDecodes(g);
    RootDirectoryPlacement(bootImage);
  }
}
