// Reading an open file along its cluster chain: `readFile`.
// The image is an immutable byte sequence; a seek followed by a read is
// `ReadBytes` at the offset sought.
module Reader {
  import opened Bytes
  import opened Geometry
  import opened ClusterChain
  import opened Directory
  import opened Registry

  /** How many of the `size` bytes asked for at `position` a file of
      `fileSize` bytes can give: the surplus past the end is cut off. */
  function Clamp(position: U32, size: U32, fileSize: U32): (n: U32)
    requires position <= fileSize
    ensures n <= size && n <= fileSize - position
    ensures n == size || n == fileSize - position
  {
    var surplus := position + size - fileSize;
    if surplus > 0 then size - surplus else size
  }

  /** The clamp as `readFile` computes it: `position + size` is a 32-bit sum,
      so a request that reaches past 2^32 wraps round and escapes the cut. */
  function ClampAsWritten(position: U32, size: U32, fileSize: U32): (n: U32)
    requires position <= fileSize
    ensures position + size < U32_LIMIT ==> n == Clamp(position, size, fileSize)
  {
    var surplus := (position + size) % U32_LIMIT - fileSize;
    if surplus > 0 then size - surplus else size
  }

  /** Whenever the 32-bit sum wraps, the as-written clamp gives back the whole
      request, more than is left in the file. */
  lemma ClampAsWrittenOverruns(position: U32, size: U32, fileSize: U32)
    requires position <= fileSize && position + size >= U32_LIMIT
    ensures ClampAsWritten(position, size, fileSize) == size > fileSize - position
  {
    DivMod(position + size, U32_LIMIT, 1, position + size - U32_LIMIT);
  }

  /** Quotient and remainder by a cluster size, as repeated subtraction of
      whole clusters: how many clusters a byte count spans and where in the
      next one it ends. */
  function Quot(x: nat, d: nat): nat
    requires d > 0
    decreases x
  {
    if x < d then 0 else 1 + Quot(x - d, d)
  }

  function Rem(x: nat, d: nat): (r: nat)
    requires d > 0
    ensures r < d && r <= x
    decreases x
  {
    if x < d then x else Rem(x - d, d)
  }

  /** They are Euclidean division and remainder, the `/` and `%` of fat.c. */
  lemma {:induction false} QuotIsDiv(x: nat, d: nat)
    requires d > 0
    ensures Quot(x, d) == x / d && Rem(x, d) == x % d
    decreases x
  {
    if x < d {
      DivMod(x, d, 0, x);
    } else {
      QuotIsDiv(x - d, d);
      DivMod(x, d, (x - d) / d + 1, (x - d) % d);
    }
  }

  /** Spanning `p + i` bytes: first whole clusters of `p`, then the rest of
      `p` together with `i`. */
  lemma {:induction false} QuotSplit(p: nat, i: nat, d: nat)
    requires d > 0
    ensures Quot(p + i, d) == Quot(p, d) + Quot(Rem(p, d) + i, d)
    ensures Rem(p + i, d) == Rem(Rem(p, d) + i, d)
    decreases p
  {
    if p >= d {
      QuotSplit(p - d, i, d);
      assert p + i - d == (p - d) + i;
    }
  }

  /** Byte `j` of the bytes stored from the start of `cluster`'s data on. */
  function ClusterByte(image: seq<Byte>, g: Geometry, cluster: U32, j: nat): Byte
  {
    ByteAt(image, GetDataOffset(g, cluster) + j)
  }

  /** What the cluster loop of `readFile` reads: `n` bytes from byte `po` of
      `cluster` on, the rest of each cluster and then the next one. */
  function ChainRead(image: seq<Byte>, g: Geometry, cluster: U32, po: nat, n: nat): (bs: seq<Byte>)
    requires g.clusterSize > 0 && po < g.clusterSize
    ensures |bs| == n
    decreases n
  {
    if po + n < g.clusterSize then ReadBytes(image, GetDataOffset(g, cluster) + po, n)
    else
      ReadBytes(image, GetDataOffset(g, cluster) + po, g.clusterSize - po) +
      ChainRead(image, g, NextCluster(image, g, cluster), 0, n - (g.clusterSize - po))
  }

  /** A byte of a chain read that lies in its first cluster. */
  lemma ChainReadHead(image: seq<Byte>, g: Geometry, cluster: U32, po: nat, n: nat, i: nat, x: nat)
    requires g.clusterSize > 0 && po < g.clusterSize && i < n
    requires po + n < g.clusterSize || i < g.clusterSize - po
    requires x == po + i
    ensures ChainRead(image, g, cluster, po, n)[i] == ClusterByte(image, g, cluster, x)
    ensures Quot(x, g.clusterSize) == 0 && Rem(x, g.clusterSize) == x
  {
    var d := GetDataOffset(g, cluster);
    if po + n < g.clusterSize {
      assert ChainRead(image, g, cluster, po, n) == ReadBytes(image, d + po, n);
    } else {
      var head := g.clusterSize - po;
      assert ChainRead(image, g, cluster, po, n)[i] == ReadBytes(image, d + po, head)[i];
    }
    assert (d + po) + i == d + x;
  }

  /** A byte of a chain read past its first cluster is a byte of the chain
      read from the start of the next cluster. */
  lemma ChainReadNext(image: seq<Byte>, g: Geometry, cluster: U32, po: nat, n: nat, i: nat, x: nat, j: nat, rest: nat)
    requires g.clusterSize > 0 && po < g.clusterSize && i < n
    requires po + n >= g.clusterSize && i >= g.clusterSize - po
    requires x == po + i && j + g.clusterSize == x && rest + g.clusterSize == po + n
    ensures ChainRead(image, g, cluster, po, n)[i] == ChainRead(image, g, NextCluster(image, g, cluster), 0, rest)[j]
    ensures Quot(x, g.clusterSize) == Quot(j, g.clusterSize) + 1 && Rem(x, g.clusterSize) == Rem(j, g.clusterSize)
  {
    var head := g.clusterSize - po;
    assert rest == n - head;
    assert ChainRead(image, g, cluster, po, n) ==
      ReadBytes(image, GetDataOffset(g, cluster) + po, head) + ChainRead(image, g, NextCluster(image, g, cluster), 0, rest);
  }

  /** Byte `i` of a chain read is byte `Rem(po + i)` of the cluster
      `Quot(po + i)` steps along the chain. */
  lemma {:induction false} ChainReadAt(image: seq<Byte>, g: Geometry, cluster: U32, po: nat, n: nat, i: nat)
    requires g.clusterSize > 0 && po < g.clusterSize && i < n
    ensures ChainRead(image, g, cluster, po, n)[i] ==
      ClusterByte(image, g, Chain(image, g, cluster, Quot(po + i, g.clusterSize)), Rem(po + i, g.clusterSize))
    decreases n
  {
    var cs := g.clusterSize;
    var x := po + i;
    if po + n < cs || i < cs - po {
      ChainReadHead(image, g, cluster, po, n, i, x);
    } else {
      var j, rest := x - cs, po + n - cs;
      ChainReadNext(image, g, cluster, po, n, i, x, j, rest);
      ChainReadAt(image, g, NextCluster(image, g, cluster), 0, rest, j);
      assert 0 + j == j;
      ChainNext(image, g, cluster, Quot(j, cs), Quot(x, cs));
    }
  }

  /** The file's byte `p`: byte `Rem(p)` of the cluster `Quot(p)` steps along
      the chain from the entry's first cluster. */
  function FileByte(image: seq<Byte>, g: Geometry, start: U32, p: nat): Byte
    requires g.clusterSize > 0
  {
    ClusterByte(image, g, Chain(image, g, start, Quot(p, g.clusterSize)), Rem(p, g.clusterSize))
  }

  /** The cluster a chain read of `n` bytes from byte `po` of `cluster` ends in. */
  function ReadEnd(image: seq<Byte>, g: Geometry, cluster: U32, po: nat, n: nat): U32
    requires g.clusterSize > 0
  {
    Chain(image, g, cluster, Quot(po + n, g.clusterSize))
  }

  /** A file's cluster holds its position: it is the cluster
      `Quot(position)` steps along the chain from `start`. */
  predicate Positioned(image: seq<Byte>, g: Geometry, start: U32, st: FileState)
    requires g.clusterSize > 0
  {
    st.cluster == Chain(image, g, start, Quot(st.position, g.clusterSize))
  }

  /** `openFile` leaves the file positioned: position 0 in the first cluster. */
  lemma OpenedPositioned(image: seq<Byte>, g: Geometry, owner: Handle, start: U32)
    requires g.clusterSize > 0
    ensures Positioned(image, g, start, FileState(owner, 0, start))
  {
  }

  /** The read delivers the file's bytes: from a positioned file, byte `i`
      of the chain read is the file's byte `position + i`. */
  lemma ReadDelivers(image: seq<Byte>, g: Geometry, start: U32, st: FileState, n: nat, i: nat)
    requires g.clusterSize > 0 && Positioned(image, g, start, st) && i < n
    ensures ChainRead(image, g, st.cluster, Rem(st.position, g.clusterSize), n)[i] ==
      FileByte(image, g, start, st.position + i)
  {
    var cs, p := g.clusterSize, st.position;
    var po := Rem(p, cs);
    var a, b, k := Quot(p, cs), Quot(po + i, cs), Quot(p + i, cs);
    ChainReadAt(image, g, st.cluster, po, n, i);
    QuotSplit(p, i, cs);
    ChainJoin(image, g, start, a, b, k);
  }

  /** The cluster a read ends in holds the new position. */
  lemma ReadKeepsPositioned(image: seq<Byte>, g: Geometry, start: U32, st: FileState, n: nat, p': U32, c': U32)
    requires g.clusterSize > 0 && Positioned(image, g, start, st)
    requires p' == st.position + n
    requires c' == ReadEnd(image, g, st.cluster, Rem(st.position, g.clusterSize), n)
    ensures Positioned(image, g, start, FileState(st.owner, p', c'))
  {
    var cs, p := g.clusterSize, st.position;
    var a, b, k := Quot(p, cs), Quot(Rem(p, cs) + n, cs), Quot(p', cs);
    assert c' == Chain(image, g, st.cluster, b);
    QuotSplit(p, n, cs);
    ChainJoin(image, g, start, a, b, k);
  }

  /** Where a read of `n` bytes leaves a file that was at `st`: `n` bytes
      further on, in the cluster the chain read ends in. */
  function Advanced(image: seq<Byte>, g: Geometry, st: FileState, n: nat): (st': FileState)
    requires g.clusterSize > 0 && st.position + n < U32_LIMIT
  {
    FileState(st.owner, st.position + n, ReadEnd(image, g, st.cluster, Rem(st.position, g.clusterSize), n))
  }

  /** A read that moved a file from `st` to `st'` delivered the file's
      bytes from `st`'s position on and left the file positioned. */
  ghost predicate Delivered(image: seq<Byte>, g: Geometry, start: U32, st: FileState, st': FileState, bytes: seq<Byte>)
    requires g.clusterSize > 0
  {
    Positioned(image, g, start, st') &&
    forall i :: 0 <= i < |bytes| ==> bytes[i] == FileByte(image, g, start, st.position + i)
  }

  /** A read from a positioned file delivers the file's bytes and leaves it
      positioned. */
  lemma PositionedRead(image: seq<Byte>, g: Geometry, start: U32, st: FileState, n: nat, p': U32, c': U32, bytes: seq<Byte>)
    requires g.clusterSize > 0 && Positioned(image, g, start, st)
    requires p' == st.position + n
    requires c' == ReadEnd(image, g, st.cluster, Rem(st.position, g.clusterSize), n)
    requires bytes == ChainRead(image, g, st.cluster, Rem(st.position, g.clusterSize), n)
    ensures st.position + n < U32_LIMIT
    ensures Delivered(image, g, start, st, Advanced(image, g, st, n), bytes)
  {
    ReadKeepsPositioned(image, g, start, st, n, p', c');
    forall i | 0 <= i < n ensures bytes[i] == FileByte(image, g, start, st.position + i) {
      ReadDelivers(image, g, start, st, n, i);
    }
  }

  /** After the as-written extra step, a read leaves the file positioned only
      if the chain stands still at the cluster the loop ended in. */
  lemma DoubleAdvanceLosesPosition(image: seq<Byte>, g: Geometry, start: U32, st: FileState, n: nat, p': U32, c': U32)
    requires g.clusterSize > 0 && Positioned(image, g, start, st)
    requires p' == st.position + n
    requires c' == ReadEnd(image, g, st.cluster, Rem(st.position, g.clusterSize), n)
    ensures Positioned(image, g, start, FileState(st.owner, p', NextCluster(image, g, c'))) <==>
      NextCluster(image, g, c') == c'
  {
    ReadKeepsPositioned(image, g, start, st, n, p', c');
  }

  /** One whole cluster of a chain read. */
  lemma ReadStep(image: seq<Byte>, g: Geometry, cluster: U32, rem: nat, rem': nat)
    requires g.clusterSize > 0 && rem >= g.clusterSize && rem' == rem - g.clusterSize
    ensures ChainRead(image, g, cluster, 0, rem) ==
      ReadBytes(image, GetDataOffset(g, cluster), g.clusterSize) + ChainRead(image, g, NextCluster(image, g, cluster), 0, rem')
  {
  }

  /** One whole cluster less: the quotient drops by one, the remainder stays. */
  lemma QuotStep(x: nat, x': nat, d: nat)
    requires d > 0 && Quot(x, d) > 0 && x' + d == x
    ensures Quot(x', d) == Quot(x, d) - 1 && Rem(x', d) == Rem(x, d)
  {
  }

  /** A read that leaves the current cluster: the rest of that cluster, then
      `rem` bytes from the start of the next one. */
  lemma ReadFirst(image: seq<Byte>, g: Geometry, cluster: U32, po: nat, n: nat, end: nat, rem: nat)
    requires g.clusterSize > 0 && po < g.clusterSize && end == po + n && Quot(end, g.clusterSize) > 0
    requires rem + g.clusterSize == end
    ensures ChainRead(image, g, cluster, po, n) ==
      ReadBytes(image, GetDataOffset(g, cluster) + po, g.clusterSize - po) +
      ChainRead(image, g, NextCluster(image, g, cluster), 0, rem)
    ensures Quot(rem, g.clusterSize) == Quot(end, g.clusterSize) - 1
    ensures Rem(rem, g.clusterSize) == Rem(end, g.clusterSize)
  {
    var cs := g.clusterSize;
    QuotStep(end, rem, cs);
    assert po + n >= cs;
    var tail := n - (cs - po);
    assert tail == rem;
  }

  /** The last, partial cluster of a read: `rem` is what is left of it, and
      the cluster entered is the one the read ends in. */
  lemma ReadLast(image: seq<Byte>, g: Geometry, cluster: U32, po: nat, n: nat, end: nat,
                 rem: nat, steps: nat, last: U32, next: U32)
    requires g.clusterSize > 0 && Quot(rem, g.clusterSize) == 0
    requires end == po + n && Quot(end, g.clusterSize) == steps + 1
    requires last == Chain(image, g, cluster, steps) && next == NextCluster(image, g, last)
    ensures ChainRead(image, g, next, 0, rem) == ReadBytes(image, GetDataOffset(g, next), Rem(rem, g.clusterSize))
    ensures next == ReadEnd(image, g, cluster, po, n)
  {
  }

  /** The middle of the cluster loop of `readFile`: from `start`, the
      `clusterCount - 1` clusters that the read covers in full, each entered
      through `getNextCluster`; `left` bytes remain for the last one. */
  method ReadWhole(img: Image, start: U32, clusterCount: U32, ghost rem: nat)
    returns (bytes: seq<Byte>, last: U32, ghost left: nat)
    requires img.geometry.clusterSize > 0 && clusterCount >= 1
    requires Quot(rem, img.geometry.clusterSize) == clusterCount - 1
    ensures last == Chain(img.bytes, img.geometry, start, clusterCount - 1)
    ensures Quot(left, img.geometry.clusterSize) == 0
    ensures Rem(left, img.geometry.clusterSize) == Rem(rem, img.geometry.clusterSize)
    ensures ChainRead(img.bytes, img.geometry, NextCluster(img.bytes, img.geometry, start), 0, rem) ==
      bytes + ChainRead(img.bytes, img.geometry, NextCluster(img.bytes, img.geometry, last), 0, left)
  {
    var g := img.geometry;
    var cs := g.clusterSize;
    ghost var whole := ChainRead(img.bytes, g, NextCluster(img.bytes, g, start), 0, rem);
    ghost var r := Rem(rem, cs);
    bytes, last, left := [], start, rem;
    ghost var steps: nat := 0;
    var i := 1;
    while i < clusterCount
      invariant 1 <= i <= clusterCount && steps + 1 == i
      invariant Quot(left, cs) == clusterCount - i && Rem(left, cs) == r
      invariant last == Chain(img.bytes, g, start, steps)
      invariant whole == bytes + ChainRead(img.bytes, g, NextCluster(img.bytes, g, last), 0, left)
    {
      ghost var left0, steps0, bytes0 := left, steps, bytes;
      left := left - cs;
      QuotStep(left0, left, cs);
      last := NextCluster(img.bytes, g, last);
      ReadStep(img.bytes, g, last, left0, left);
      bytes := bytes + ReadBytes(img.bytes, GetDataOffset(g, last), cs);
      assert bytes0 + ChainRead(img.bytes, g, last, 0, left0) ==
        bytes + ChainRead(img.bytes, g, NextCluster(img.bytes, g, last), 0, left);
      i, steps := i + 1, steps + 1;
      ChainOn(img.bytes, g, start, steps0, steps);
    }
  }

  /** The cluster loop of `readFile`: the rest of the current cluster, the
      clusters in full, then the part of the last one. */
  method ReadClusters(img: Image, cluster: U32, po: U32, n: U32) returns (bytes: seq<Byte>, last: U32)
    requires img.geometry.clusterSize > 0 && po < img.geometry.clusterSize && po + n < U32_LIMIT
    ensures bytes == ChainRead(img.bytes, img.geometry, cluster, po, n)
    ensures last == ReadEnd(img.bytes, img.geometry, cluster, po, n)
  {
    var g := img.geometry;
    var cs := g.clusterSize;
    var newOffset: U32 := po + n;
    var clusterCount := newOffset / cs;
    QuotIsDiv(newOffset, cs);
    if clusterCount == 0 {
      // the range lies in the current cluster
      bytes := ReadBytes(img.bytes, GetDataOffset(g, cluster) + po, n);
      last := cluster;
      return;
    }
    ghost var rem: nat := newOffset - cs;
    QuotStep(newOffset, rem, cs);
    var first := ReadBytes(img.bytes, GetDataOffset(g, cluster) + po, cs - po);
    var middle;
    ghost var left;
    middle, last, left := ReadWhole(img, cluster, clusterCount, rem);
    var next := NextCluster(img.bytes, g, last);
    var final := ReadBytes(img.bytes, GetDataOffset(g, next), newOffset % cs);
    ReadJoin(img.bytes, g, cluster, po, n, newOffset, rem, first, middle, last, left, next, final);
    last := next;
    bytes := first + middle + final;
  }

  /** The three pieces of a read that leaves its first cluster make up the
      chain read, and the cluster entered last is the one it ends in. */
  lemma ReadJoin(image: seq<Byte>, g: Geometry, cluster: U32, po: nat, n: nat, end: nat, rem: nat,
                 first: seq<Byte>, middle: seq<Byte>, last: U32, left: nat, next: U32, final: seq<Byte>)
    requires g.clusterSize > 0 && po < g.clusterSize && end == po + n && Quot(end, g.clusterSize) > 0
    requires rem + g.clusterSize == end
    requires first == ReadBytes(image, GetDataOffset(g, cluster) + po, g.clusterSize - po)
    requires last == Chain(image, g, cluster, Quot(end, g.clusterSize) - 1)
    requires Quot(left, g.clusterSize) == 0 && Rem(left, g.clusterSize) == Rem(rem, g.clusterSize)
    requires ChainRead(image, g, NextCluster(image, g, cluster), 0, rem) ==
      middle + ChainRead(image, g, NextCluster(image, g, last), 0, left)
    requires next == NextCluster(image, g, last)
    requires final == ReadBytes(image, GetDataOffset(g, next), Rem(end, g.clusterSize))
    ensures first + middle + final == ChainRead(image, g, cluster, po, n)
    ensures next == ReadEnd(image, g, cluster, po, n)
  {
    ReadFirst(image, g, cluster, po, n, end, rem);
    ReadLast(image, g, cluster, po, n, end, left, Quot(end, g.clusterSize) - 1, last, next);
    Assemble(ChainRead(image, g, cluster, po, n), first,
      ChainRead(image, g, NextCluster(image, g, cluster), 0, rem), middle,
      ChainRead(image, g, next, 0, left), final);
  }

  /** A read put together from its three pieces. */
  lemma Assemble(whole: seq<Byte>, first: seq<Byte>, rest: seq<Byte>, middle: seq<Byte>, tail: seq<Byte>, final: seq<Byte>)
    requires whole == first + rest && rest == middle + tail && tail == final
    ensures whole == first + middle + final
  {
  }

  /** `readFile`, with the end-of-file cut computed without wrap-around and
      without the extra cluster step after a read that ends on a cluster
      boundary (see `ReadFileAsWritten`). Nothing is read when nothing is
      asked for or the file is at its end; otherwise the request is cut to what
      is left of the file, the bytes come from the chain, and the file moves
      past them. */
  method ReadFile(img: Image, f: Handle, size: U32) returns (bytes: seq<Byte>, n: U32)
    requires img.Valid() && img.geometry.Valid() && f in img.fileOf
    modifies img
    ensures img.Valid()
    ensures img.openedEntries == old(img.openedEntries) && img.entryOf == old(img.entryOf) &&
      img.openedFiles == old(img.openedFiles) && img.nextHandle == old(img.nextHandle)
    ensures var st := old(img.fileOf[f]);
      var e, g := old(img.entryOf[img.fileOf[f].owner]), img.geometry;
      if size == 0 || st.position == e.size then
        n == 0 && bytes == [] && img.fileOf == old(img.fileOf)
      else
        n == Clamp(st.position, size, e.size) && 0 < n &&
        bytes == ChainRead(img.bytes, g, st.cluster, Rem(st.position, g.clusterSize), n) &&
        img.fileOf == old(img.fileOf)[f := Advanced(img.bytes, g, st, n)]
    ensures var st := old(img.fileOf[f]);
      var e, g := old(img.entryOf[img.fileOf[f].owner]), img.geometry;
      Positioned(img.bytes, g, e.cluster, st) ==> Delivered(img.bytes, g, e.cluster, st, img.fileOf[f], bytes)
  {
    var g := img.geometry;
    var cs := g.clusterSize;
    var st := img.fileOf[f];
    FileOwned(img.openedEntries, img.entryOf, img.openedFiles, img.fileOf, img.nextHandle, f);
    var e := img.entryOf[st.owner];
    if size == 0 || st.position == e.size {
      return [], 0;
    }
    var positionOffset := st.position % cs;
    QuotIsDiv(st.position, cs);
    n := Clamp(st.position, size, e.size);
    var last;
    bytes, last := ReadClusters(img, st.cluster, positionOffset, n);
    var p' := st.position + n;
    img.MoveFile(f, p', last);
    assert FileState(st.owner, p', last) == Advanced(img.bytes, g, st, n);
    if Positioned(img.bytes, g, e.cluster, st) {
      PositionedRead(img.bytes, g, e.cluster, st, n, p', last, bytes);
    }
  }

  /** `readFile` as written: after the cluster loop, a new position that is a
      multiple of the cluster size steps the cluster once more, although the
      loop's last step has already entered that cluster. Only requests whose
      end stays below 2^32 are followed: beyond it the wrapped cut
      (`ClampAsWrittenOverruns`) reads past the end of the file. */
  method ReadFileAsWritten(img: Image, f: Handle, size: U32) returns (bytes: seq<Byte>, n: U32)
    requires img.Valid() && img.geometry.Valid() && f in img.fileOf
    requires img.fileOf[f].position + size < U32_LIMIT
    modifies img
    ensures img.Valid()
    ensures img.openedEntries == old(img.openedEntries) && img.entryOf == old(img.entryOf) &&
      img.openedFiles == old(img.openedFiles) && img.nextHandle == old(img.nextHandle)
    ensures var st := old(img.fileOf[f]);
      var e, g := old(img.entryOf[img.fileOf[f].owner]), img.geometry;
      if size == 0 || st.position == e.size then
        n == 0 && bytes == [] && img.fileOf == old(img.fileOf)
      else
        n == ClampAsWritten(st.position, size, e.size) &&
        bytes == ChainRead(img.bytes, g, st.cluster, Rem(st.position, g.clusterSize), n) &&
        var a := Advanced(img.bytes, g, st, n);
        img.fileOf == old(img.fileOf)[f :=
          if Rem(a.position, g.clusterSize) == 0 then a.(cluster := NextCluster(img.bytes, g, a.cluster)) else a]
  {
    var g := img.geometry;
    var cs := g.clusterSize;
    var st := img.fileOf[f];
    FileOwned(img.openedEntries, img.entryOf, img.openedFiles, img.fileOf, img.nextHandle, f);
    var fileSize := img.entryOf[st.owner].size;
    ghost var files := img.fileOf;
    bytes, n := ReadFile(img, f, size);
    if size != 0 && st.position != fileSize {
      var moved := img.fileOf[f];
      assert img.fileOf == files[f := moved];
      QuotIsDiv(moved.position, cs);
      if moved.position % cs == 0 {
        // at the end of the cluster: move on to the next one (again)
        img.MoveFile(f, moved.position, NextCluster(img.bytes, g, moved.cluster));
        Overwrite(files, f, moved, moved.(cluster := NextCluster(img.bytes, g, moved.cluster)));
      }
    }
  }

  /** Updating a key twice keeps the second value. */
  lemma Overwrite<K, V>(m: map<K, V>, k: K, a: V, b: V)
    ensures m[k := a][k := b] == m[k := b]
  {
  }
}
