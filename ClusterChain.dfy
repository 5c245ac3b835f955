/** Following cluster chains through the FAT (`getNextCluster12/16/32`),
    with the width dispatched once on the geometry's FAT type. The FAT is read
    straight from the image; FAT offsets are computed in 32-bit arithmetic as
    in fat.c. */
module ClusterChain {
  import opened Bytes
  import opened Geometry

  /** 12-bit FAT: entries are packed two per three bytes; an even cluster takes
      the low 12 bits of the first two bytes, an odd one the high 12 bits of
      the last two. */
  function NextCluster12(image: seq<Byte>, g: Geometry, cluster: U32): (next: U32)
  {
    var offset := (g.fatOffset + (cluster / 2) * 3) % U32_LIMIT;
    var v0, v1, v2 := ByteAt(image, offset), ByteAt(image, offset + 1), ByteAt(image, offset + 2);
    if cluster % 2 == 0 then (v0 + 0x100 * v1) % 0x1000 else (v1 / 0x10 + 0x10 * v2) % 0x1000
  }

  /** 16-bit FAT: the little-endian word at `fatOffset + 2 * cluster`. */
  function NextCluster16(image: seq<Byte>, g: Geometry, cluster: U32): (next: U32)
  {
    var offset := (g.fatOffset + cluster * 2) % U32_LIMIT;
    ByteAt(image, offset) + 0x100 * ByteAt(image, offset + 1)
  }

  /** 32-bit FAT: the little-endian double word at `fatOffset + 4 * cluster`
      with its top four (reserved) bits cleared. */
  function NextCluster32(image: seq<Byte>, g: Geometry, cluster: U32): (next: U32)
  {
    var offset := (g.fatOffset + cluster * 4) % U32_LIMIT;
    Get32(ReadBytes(image, offset, 4), 0) % 0x1000_0000
  }

  /** The `getNextCluster` function pointer, fixed by the FAT type. */
  function NextCluster(image: seq<Byte>, g: Geometry, cluster: U32): (next: U32)
    ensures next <= MaxEntry(g.fatType)
  {
    match g.fatType
    case FAT12 => NextCluster12(image, g, cluster)
    case FAT16 => NextCluster16(image, g, cluster)
    case FAT32 => NextCluster32(image, g, cluster)
  }

  /** The largest value an entry of a FAT of this width can hold. */
  function MaxEntry(t: FATType): U32
  {
    match t
    case FAT12 => 0xFFF
    case FAT16 => 0xFFFF
    case FAT32 => 0x0FFF_FFFF
  }

  /** A cluster the scans continue from: in [2, clusterEnd]. */
  predicate InUse(g: Geometry, cluster: int)
  {
    CLUSTER_START <= cluster <= g.clusterEnd
  }

  /** The cluster reached after `k` steps along the chain. */
  function Chain(image: seq<Byte>, g: Geometry, cluster: U32, k: nat): (c: U32)
    decreases k
  {
    if k == 0 then cluster else NextCluster(image, g, Chain(image, g, cluster, k - 1))
  }

  /** Walking `a` steps and then `b` steps is walking `a + b` steps. */
  lemma {:induction false} ChainAdd(image: seq<Byte>, g: Geometry, cluster: U32, a: nat, b: nat)
    ensures Chain(image, g, Chain(image, g, cluster, a), b) == Chain(image, g, cluster, a + b)
    decreases b
  {
    if b > 0 {
      ChainAdd(image, g, cluster, a, b - 1);
    }
  }

  lemma ChainStep(image: seq<Byte>, g: Geometry, cluster: U32, k: nat)
    ensures Chain(image, g, NextCluster(image, g, cluster), k) == Chain(image, g, cluster, k + 1)
  {
    ChainAdd(image, g, cluster, 1, k);
  }

  /** `ChainAdd` with the total walked named `k`. */
  lemma ChainJoin(image: seq<Byte>, g: Geometry, cluster: U32, a: nat, b: nat, k: nat)
    requires k == a + b
    ensures Chain(image, g, Chain(image, g, cluster, a), b) == Chain(image, g, cluster, k)
  {
    ChainAdd(image, g, cluster, a, b);
  }

  /** One more step along the chain, with the new step count named `k'`. */
  lemma ChainOn(image: seq<Byte>, g: Geometry, cluster: U32, k: nat, k': nat)
    requires k' == k + 1
    ensures NextCluster(image, g, Chain(image, g, cluster, k)) == Chain(image, g, cluster, k')
  {
  }

  /** `ChainStep` with the steps after the first named `k'`. */
  lemma ChainNext(image: seq<Byte>, g: Geometry, cluster: U32, k: nat, k': nat)
    requires k' == k + 1
    ensures Chain(image, g, NextCluster(image, g, cluster), k) == Chain(image, g, cluster, k')
  {
    ChainAdd(image, g, cluster, 1, k);
  }

  /** The three FAT12 bytes that hold the entries `a` (even cluster) and
      `b` (odd cluster), as the format packs them. */
  function PackFat12(a: int, b: int): (bytes: seq<Byte>)
    requires 0 <= a < 0x1000 && 0 <= b < 0x1000
  {
    [a % 0x100, a / 0x100 + 0x10 * (b % 0x10), b / 0x10]
  }

  /** Reading back a packed FAT12 pair gives both entries. */
  lemma Fat12ReadsPacked(image: seq<Byte>, g: Geometry, cluster: U32, a: int, b: int)
    requires cluster % 2 == 0 && cluster + 1 < U32_LIMIT
    requires 0 <= a < 0x1000 && 0 <= b < 0x1000
    requires var off := g.fatOffset + (cluster / 2) * 3;
      off + 3 <= |image| && off + 3 <= U32_LIMIT && image[off..off + 3] == PackFat12(a, b)
    ensures NextCluster12(image, g, cluster) == a
    ensures NextCluster12(image, g, cluster + 1) == b
  {
    var off := g.fatOffset + (cluster / 2) * 3;
    assert (cluster + 1) / 2 == cluster / 2;
    DivMod(off, U32_LIMIT, 0, off);
    assert image[off] == PackFat12(a, b)[0] && image[off + 1] == PackFat12(a, b)[1] && image[off + 2] == PackFat12(a, b)[2];
    DivMod(a % 0x100 + 0x100 * (a / 0x100 + 0x10 * (b % 0x10)), 0x1000, b % 0x10, a);
    DivMod(a / 0x100 + 0x10 * (b % 0x10), 0x10, b % 0x10, a / 0x100);
  }

  /** Any three FAT12 bytes are the packing of the two entries they decode to. */
  lemma Fat12PackRead(image: seq<Byte>, g: Geometry, cluster: U32)
    requires cluster % 2 == 0 && cluster + 1 < U32_LIMIT
    requires var off := g.fatOffset + (cluster / 2) * 3; off + 3 <= |image| && off + 3 <= U32_LIMIT
    ensures var off := g.fatOffset + (cluster / 2) * 3;
      image[off..off + 3] == PackFat12(NextCluster12(image, g, cluster), NextCluster12(image, g, cluster + 1))
  {
    var off := g.fatOffset + (cluster / 2) * 3;
    assert (cluster + 1) / 2 == cluster / 2;
    DivMod(off, U32_LIMIT, 0, off);
    var v0, v1, v2 := image[off] as int, image[off + 1] as int, image[off + 2] as int;
    assert NextCluster12(image, g, cluster) == (v0 + 0x100 * v1) % 0x1000;
    assert NextCluster12(image, g, cluster + 1) == (v1 / 0x10 + 0x10 * v2) % 0x1000;
    Fat12Repack(v0, v1, v2);
  }

  /** The arithmetic of `Fat12PackRead`: splitting three bytes into two
      12-bit halves and packing them again gives the bytes back. */
  lemma Fat12Repack(v0: int, v1: int, v2: int)
    requires 0 <= v0 < 0x100 && 0 <= v1 < 0x100 && 0 <= v2 < 0x100
    ensures PackFat12((v0 + 0x100 * v1) % 0x1000, (v1 / 0x10 + 0x10 * v2) % 0x1000) == [v0, v1, v2]
  {
    var a, b := (v0 + 0x100 * v1) % 0x1000, (v1 / 0x10 + 0x10 * v2) % 0x1000;
    DivMod(v0 + 0x100 * v1, 0x1000, v1 / 0x10, v0 + 0x100 * (v1 % 0x10));
    DivMod(v1 / 0x10 + 0x10 * v2, 0x1000, 0, v1 / 0x10 + 0x10 * v2);
    DivMod(a, 0x100, v1 % 0x10, v0);
    DivMod(b, 0x10, v2, v1 / 0x10);
  }

  /** Bytes 03 40 00 hold 0x003 for cluster 0 and 0x004 for cluster 1. */
  lemma Fat12Example(image: seq<Byte>, g: Geometry)
    requires g.fatOffset + 3 <= |image| && g.fatOffset + 3 <= U32_LIMIT
    requires image[g.fatOffset..g.fatOffset + 3] == [0x03, 0x40, 0x00]
    ensures NextCluster12(image, g, 0) == 0x003 && NextCluster12(image, g, 1) == 0x004
  {
    assert PackFat12(0x003, 0x004) == [0x03, 0x40, 0x00];
    Fat12ReadsPacked(image, g, 0, 0x003, 0x004);
  }

  /** A FAT16 entry holding the little-endian encoding of `v` yields `v`. */
  lemma Fat16ReadsEncoded(image: seq<Byte>, g: Geometry, cluster: U32, v: U16)
    requires var off := g.fatOffset + cluster * 2;
      off + 2 <= |image| && off + 2 <= U32_LIMIT && image[off..off + 2] == Le16(v)
    ensures NextCluster16(image, g, cluster) == v
  {
    var off := g.fatOffset + cluster * 2;
    DivMod(off, U32_LIMIT, 0, off);
    assert image[off] == Le16(v)[0] && image[off + 1] == Le16(v)[1];
  }

  /** A FAT32 entry holding the encoding of `v` yields `v` without its top
      four bits. */
  lemma Fat32ReadsEncoded(image: seq<Byte>, g: Geometry, cluster: U32, v: U32)
    requires var off := g.fatOffset + cluster * 4;
      off + 4 <= |image| && off + 4 <= U32_LIMIT && image[off..off + 4] == Le32(v)
    ensures NextCluster32(image, g, cluster) == v % 0x1000_0000
  {
    var off := g.fatOffset + cluster * 4;
    DivMod(off, U32_LIMIT, 0, off);
    ReadBytesInside(image, off, 4);
    Get32Le32(v);
  }
}
