/** `getChildren`: reads a directory's records cluster by cluster, decodes
    them into entries, opens each entry in the image's registry, and returns
    the entries it opened. The loops are proved against the record sequence
    `DirectoryRecords` and the scan `DecodeAll`. */
module Scan {
  import opened Bytes
  import opened Text
  import opened Geometry
  import opened ClusterChain
  import opened Directory
  import opened Records
  import opened Registry

  /** The count of children is a 16-bit counter. */
  const COUNT_LIMIT: int := 0x1_0000

  /** `getChildren` is defined on the records of `dir`: its long names fit
      the name buffer and their first records are terminated. */
  predicate ScanDefined(image: seq<Byte>, g: Geometry, dir: Entry)
  {
    RecordsDefined(DirectoryRecords(image, g, dir))
  }

  /** The entries the scan of `dir` yields, in directory order. */
  function Children(image: seq<Byte>, g: Geometry, dir: Entry): (es: seq<Entry>)
    requires ScanDefined(image, g, dir)
  {
    DecodeAll(ScanState([], []), DirectoryRecords(image, g, dir)).entries
  }

  /** The children `getChildren` hands back: its count is 16-bit, so of the
      entries it opened only the last `|es| % 2^16` are returned. */
  function Returned(es: seq<Entry>): (ls: seq<Entry>)
    ensures |ls| == |es| % COUNT_LIMIT <= |es|
    ensures forall i :: 0 <= i < |ls| ==> ls[i] == es[|es| - |ls| + i]
  {
    CountAtMost(|es|);
    es[|es| - |es| % COUNT_LIMIT..]
  }

  /** Below 2^16 children every opened child is returned. */
  lemma ReturnedAll(es: seq<Entry>)
    requires |es| < COUNT_LIMIT
    ensures Returned(es) == es
  {
  }

  /** The children of a directory are as many as its records that are neither
      deleted nor part of a long name. */
  lemma ChildrenCount(image: seq<Byte>, g: Geometry, dir: Entry)
    requires ScanDefined(image, g, dir)
    ensures |Children(image, g, dir)| == CountEntries(DirectoryRecords(image, g, dir))
  {
    DecodeAllEntries(ScanState([], []), DirectoryRecords(image, g, dir));
  }

  /** What the scan still reads after the pass over `cluster`: the chain from
      its successor, while `cluster` is in use and `fuel` lasts. */
  function ChainTail(image: seq<Byte>, g: Geometry, cluster: U32, max: nat, fuel: nat): seq<Record>
  {
    if InUse(g, cluster) && fuel > 0 then ChainRecords(image, g, NextCluster(image, g, cluster), max, fuel - 1) else []
  }

  /** Scanning `a + b` is scanning `a`, then `b`. */
  lemma ScanSplit(st: ScanState, a: seq<Record>, b: seq<Record>)
    ensures DecodeAll(st, a + b) == DecodeAll(DecodeAll(st, a), b)
  {
    DecodeAllConcat(st, a, b);
  }

  /** The records of a directory: the first pass, then the chain's tail. */
  lemma ScanStarts(image: seq<Byte>, g: Geometry, dir: Entry)
    ensures DirectoryRecords(image, g, dir) ==
      PassRecords(image, ScanStart(g, dir), ScanLimit(g, dir)) + ChainTail(image, g, dir.cluster, ScanLimit(g, dir), g.clusterEnd + 1)
  {
  }

  /** A cluster in use with fuel left: the tail is the pass over its
      successor, then the successor's tail. */
  lemma TailStep(image: seq<Byte>, g: Geometry, cluster: U32, max: nat, fuel: nat, next: U32, fuel': nat)
    requires InUse(g, cluster) && fuel > 0 && next == NextCluster(image, g, cluster) && fuel' == fuel - 1
    ensures ChainTail(image, g, cluster, max, fuel) ==
      PassRecords(image, GetDataOffset(g, next), max) + ChainTail(image, g, next, max, fuel')
  {
  }

  /** The last pass: the chain ends at `cluster`, so what its pass decoded is the result. */
  lemma ScanEnds(image: seq<Byte>, g: Geometry, cluster: U32, max: nat, fuel: nat,
                 st: ScanState, pass: seq<Record>, st': ScanState, target: ScanState)
    requires !InUse(g, cluster) || fuel == 0
    requires DecodeAll(st, pass + ChainTail(image, g, cluster, max, fuel)) == target
    requires st' == DecodeAll(st, pass)
    ensures st' == target
  {
    assert ChainTail(image, g, cluster, max, fuel) == [];
    assert pass + [] == pass;
  }

  /** A scan of the first pass and then the chain's tail finds the directory's children. */
  lemma ScanFinds(image: seq<Byte>, g: Geometry, dir: Entry, fuel: nat, name: seq<WChar>, es: seq<Entry>)
    requires fuel == g.clusterEnd + 1 && ScanDefined(image, g, dir)
    requires ScanState(name, es) == DecodeAll(ScanState([], []),
      PassRecords(image, ScanStart(g, dir), ScanLimit(g, dir)) + ChainTail(image, g, dir.cluster, ScanLimit(g, dir), fuel))
    ensures es == Children(image, g, dir)
  {
    ScanStarts(image, g, dir);
  }

  /** A pass over `cluster` followed by the chain from the next cluster is the
      scan still owed. */
  lemma ScanGoesOn(image: seq<Byte>, g: Geometry, cluster: U32, max: nat, fuel: nat,
                   st: ScanState, pass: seq<Record>, st': ScanState, target: ScanState,
                   next: U32, off: int, fuel': nat)
    requires InUse(g, cluster) && fuel > 0
    requires next == NextCluster(image, g, cluster) && off == GetDataOffset(g, next) && fuel' == fuel - 1
    requires DecodeAll(st, pass + ChainTail(image, g, cluster, max, fuel)) == target
    requires st' == DecodeAll(st, pass)
    ensures DecodeAll(st', PassRecords(image, off, max) + ChainTail(image, g, next, max, fuel')) == target
  {
    TailStep(image, g, cluster, max, fuel, next, fuel');
    ScanSplit(st, pass, ChainTail(image, g, cluster, max, fuel));
  }

  lemma CountAtMost(a: nat)
    ensures a % COUNT_LIMIT <= a
  {
    DivMod(a, COUNT_LIMIT, a / COUNT_LIMIT, a % COUNT_LIMIT);
  }

  lemma ModStep(a: int, k: nat)
    requires 0 <= a
    ensures ((a % COUNT_LIMIT) + k) % COUNT_LIMIT == (a + k) % COUNT_LIMIT
  {
    DivMod(a, COUNT_LIMIT, a / COUNT_LIMIT, a % COUNT_LIMIT);
    var q := (a % COUNT_LIMIT + k) / COUNT_LIMIT;
    var m := (a % COUNT_LIMIT + k) % COUNT_LIMIT;
    assert a + k == (a / COUNT_LIMIT + q) * COUNT_LIMIT + m;
    DivMod(a + k, COUNT_LIMIT, a / COUNT_LIMIT + q, m);
  }

  /** A record of the pass that does not start with 0x00 is scanned and the
      pass goes on after it. */
  lemma PassStep(image: seq<Byte>, st: ScanState, off: int, n: nat, st': ScanState, off': int, n': nat)
    requires n > 0 && RecordAt(image, off)[0] != SKIPPED && st' == Step(st, RecordAt(image, off))
    requires off' == off + ENTRY_SIZE && n' == n - 1
    ensures DecodeAll(st, PassRecords(image, off, n)) == DecodeAll(st', PassRecords(image, off', n'))
  {
    DecodeAllCons(st, RecordAt(image, off), PassRecords(image, off', n'));
  }

  /** The three ways a record steps the scan. */
  lemma StepCases(st: ScanState, r: Record)
    ensures r[0] == DELETED ==> Step(st, r) == st
    ensures r[0] != DELETED && Unescape(r)[11] == LONG_NAME ==>
      Step(st, r) == ScanState(st.name + Fragment(Unescape(r)), st.entries)
    ensures r[0] != DELETED && Unescape(r)[11] != LONG_NAME ==>
      Step(st, r) == ScanState([], st.entries + [DecodeEntry(EntryName(st.name, Unescape(r)), Unescape(r))])
  {
  }

  /** Opening the entry a short record describes under the accumulated name,
      and counting it modulo 2^16. */
  method OpenChild(img: Image, b: Record, name: seq<WChar>, count: nat, ghost t0: Tables, ghost es: seq<Entry>)
    returns (count': nat, ghost es': seq<Entry>)
    requires img.Valid() && img.Snapshot() == Opened(t0, es) && count == |es| % COUNT_LIMIT
    modifies img
    ensures img.Valid() && img.Snapshot() == Opened(t0, es')
    ensures es' == es + [DecodeEntry(EntryName(name, b), b)] && count' == |es'| % COUNT_LIMIT
  {
    var n := EntryName(name, b);
    ghost var e, p := DecodeEntry(n, b), img.Snapshot();
    var h := img.OpenEntry(n, b);
    es' := es + [e];
    OpenedSnoc(t0, es, e);
    assert img.Snapshot() ==
      Tables([p.next] + p.entries, p.entryOf[p.next := e], p.files[p.next := []], p.fileOf, p.next + 1);
    ModStep(|es|, 1);
    count' := (count + 1) % COUNT_LIMIT;
  }

  /** One record of the inner loop, after the stop at 0x00: a deleted record
      is skipped, a long-name record extends the name, and any other record
      opens an entry under the accumulated name (or its short name) and
      resets the name. */
  method ScanRecord(img: Image, r: Record, name: seq<WChar>, count: nat, ghost t0: Tables, ghost es: seq<Entry>)
    returns (name': seq<WChar>, count': nat, ghost es': seq<Entry>)
    requires img.Valid() && img.Snapshot() == Opened(t0, es) && count == |es| % COUNT_LIMIT
    modifies img
    ensures img.Valid() && img.Snapshot() == Opened(t0, es')
    ensures ScanState(name', es') == Step(ScanState(name, es), r)
    ensures count' == |es'| % COUNT_LIMIT
  {
    StepCases(ScanState(name, es), r);
    name', count', es' := name, count, es;
    if r[0] != DELETED {
      var b := Unescape(r);
      if b[11] == LONG_NAME {
        name' := name + Fragment(b);
      } else {
        count', es' := OpenChild(img, b, name, count, t0, es);
        name' := [];
      }
    }
  }

  /** The inner loop of `getChildren`: up to `max` records from `offset`,
      stopping at a record that starts with 0x00. `es` are the entries
      opened since `t0`. */
  method ScanPass(img: Image, offset: int, max: nat, name: seq<WChar>, count: nat, ghost t0: Tables, ghost es: seq<Entry>)
    returns (name': seq<WChar>, count': nat, ghost es': seq<Entry>)
    requires img.Valid() && img.Snapshot() == Opened(t0, es) && count == |es| % COUNT_LIMIT
    modifies img
    ensures img.Valid() && img.Snapshot() == Opened(t0, es')
    ensures ScanState(name', es') == DecodeAll(ScanState(name, es), PassRecords(img.bytes, offset, max))
    ensures count' == |es'| % COUNT_LIMIT
  {
    ghost var target := DecodeAll(ScanState(name, es), PassRecords(img.bytes, offset, max));
    name', count', es' := name, count, es;
    var i: nat := 0;
    var off := offset;
    ghost var n: nat := max;
    while i < max
      invariant i <= max && n == max - i
      invariant img.Valid() && img.Snapshot() == Opened(t0, es')
      invariant DecodeAll(ScanState(name', es'), PassRecords(img.bytes, off, n)) == target
      invariant count' == |es'| % COUNT_LIMIT
      decreases max - i
    {
      var r := RecordAt(img.bytes, off);
      if r[0] == SKIPPED {
        assert PassRecords(img.bytes, off, n) == [];
        break;
      }
      ghost var st, off0, n0 := ScanState(name', es'), off, n;
      name', count', es' := ScanRecord(img, r, name', count', t0, es');
      i, off, n := i + 1, off + ENTRY_SIZE, n - 1;
      PassStep(img.bytes, st, off0, n0, ScanState(name', es'), off, n);
    }
    assert PassRecords(img.bytes, off, n) == [];
  }

  /** Scanning a directory: the passes from where the directory starts,
      with the per-pass limit, and enough fuel for any chain that ends. Opens
      the children of `dir` and counts them modulo 2^16. */
  method ScanDirectory(img: Image, dir: Entry, ghost t0: Tables) returns (count: nat, ghost es: seq<Entry>)
    requires img.Valid() && img.Snapshot() == t0 && ScanDefined(img.bytes, img.geometry, dir)
    modifies img
    ensures img.Valid() && img.Snapshot() == Opened(t0, es)
    ensures es == Children(img.bytes, img.geometry, dir) && count == |es| % COUNT_LIMIT
  {
    var g := img.geometry;
    // a chain still in use after `clusterEnd` steps has revisited a cluster
    var fuel: nat := g.clusterEnd + 1;
    var name;
    name, count, es := ScanClusters(img, dir.cluster, ScanStart(g, dir), ScanLimit(g, dir), fuel, [], 0, t0, []);
    ScanFinds(img.bytes, g, dir, fuel, name, es);
  }

  /** The outer loop of `getChildren`: one pass per cluster, from `cluster`
      along its chain while the cluster just scanned is in use. */
  method ScanClusters(img: Image, cluster: U32, offset: int, max: nat, fuel: nat, name: seq<WChar>, count: nat,
                      ghost t0: Tables, ghost es: seq<Entry>)
    returns (name': seq<WChar>, count': nat, ghost es': seq<Entry>)
    requires img.Valid() && img.Snapshot() == Opened(t0, es) && count == |es| % COUNT_LIMIT
    modifies img
    ensures img.Valid() && img.Snapshot() == Opened(t0, es') && count' == |es'| % COUNT_LIMIT
    ensures ScanState(name', es') ==
      DecodeAll(ScanState(name, es), PassRecords(img.bytes, offset, max) + ChainTail(img.bytes, img.geometry, cluster, max, fuel))
  {
    var g := img.geometry;
    ghost var target :=
      DecodeAll(ScanState(name, es), PassRecords(img.bytes, offset, max) + ChainTail(img.bytes, g, cluster, max, fuel));
    var c, off, f := cluster, offset, fuel;
    name', count', es' := name, count, es;
    while true
      invariant img.Valid() && img.Snapshot() == Opened(t0, es') && count' == |es'| % COUNT_LIMIT
      invariant DecodeAll(ScanState(name', es'), PassRecords(img.bytes, off, max) + ChainTail(img.bytes, g, c, max, f)) == target
      decreases f
    {
      ghost var st := ScanState(name', es');
      ghost var pass := PassRecords(img.bytes, off, max);
      name', count', es' := ScanPass(img, off, max, name', count', t0, es');
      if !InUse(g, c) || f == 0 {
        ScanEnds(img.bytes, g, c, max, f, st, pass, ScanState(name', es'), target);
        break;
      }
      ghost var c0, f0 := c, f;
      var next := NextCluster(img.bytes, g, c);
      c, off, f := next, GetDataOffset(g, next), f - 1;
      ScanGoesOn(img.bytes, g, c0, max, f0, st, pass, ScanState(name', es'), target, c, off, f);
    }
  }

  /** The last loop of `getChildren`: `count` entries from the head of the
      list, the result filled from its end. */
  method CollectChildren(list: seq<Handle>, count: nat) returns (children: seq<Handle>)
    requires count <= |list|
    ensures |children| == count && forall j :: 0 <= j < count ==> children[j] == list[count - 1 - j]
  {
    children := [];
    var k := 0;
    while k < count
      invariant k <= count && |children| == k
      invariant forall j :: 0 <= j < k ==> children[j] == list[k - 1 - j]
    {
      children := [list[k]] + children;
      k := k + 1;
    }
  }

  /** The first `count` handles of the list, reversed, are the last `count`
      entries opened, in the order they were opened. */
  lemma ChildrenHandles(t0: Tables, es: seq<Entry>, children: seq<Handle>)
    requires Allocated(t0.entryOf, t0.fileOf, t0.next) && |children| == |es| % COUNT_LIMIT
    requires |es| <= |Opened(t0, es).entries|
    requires forall j :: 0 <= j < |children| ==> children[j] == Opened(t0, es).entries[|children| - 1 - j]
    ensures |children| == |Returned(es)|
    ensures forall j :: 0 <= j < |children| ==>
      children[j] == FirstReturned(t0, es) + j &&
      children[j] in Opened(t0, es).entryOf && Opened(t0, es).entryOf[children[j]] == Returned(es)[j]
  {
    forall j | 0 <= j < |children|
      ensures children[j] == FirstReturned(t0, es) + j
      ensures children[j] in Opened(t0, es).entryOf && Opened(t0, es).entryOf[children[j]] == Returned(es)[j]
    {
      ChildHandleAt(t0, es, |children|, j, children[j]);
    }
  }

  /** The `j`-th of the `m` handles taken from the head of the list. */
  lemma ChildHandleAt(t0: Tables, es: seq<Entry>, m: nat, j: nat, h: Handle)
    requires Allocated(t0.entryOf, t0.fileOf, t0.next) && m == |es| % COUNT_LIMIT && j < m
    requires |es| <= |Opened(t0, es).entries| && h == Opened(t0, es).entries[m - 1 - j]
    ensures j < |Returned(es)| && h == FirstReturned(t0, es) + j
    ensures h in Opened(t0, es).entryOf && Opened(t0, es).entryOf[h] == Returned(es)[j]
  {
    var ls := Returned(es);
    var i, k := m - 1 - j, |es| - m + j;
    OpenedListAt(t0, es, i);
    ReturnedAt(es, m, j, k);
    OpenedAt(t0, es, k, h);
  }

  lemma ReturnedAt(es: seq<Entry>, m: nat, j: nat, k: nat)
    requires m == |es| % COUNT_LIMIT && j < m && k == |es| - m + j
    ensures j < |Returned(es)| && k < |es| && Returned(es)[j] == es[k]
  {
    CountAtMost(|es|);
    assert Returned(es) == es[|es| - m..];
  }

  /** The handle `getChildren` gives the first returned child of `es` when
      the registries were `t`: the children scanned before it took the
      handles below. */
  ghost function FirstReturned(t: Tables, es: seq<Entry>): nat {
    t.next + |es| - |Returned(es)|
  }

  /** `getChildren`: fails on a non-directory; otherwise opens the children
      in directory order and returns the last `count` entries opened, where
      `count` is their number modulo 2^16. */
  method GetChildren(img: Image, parent: Handle) returns (r: Outcome<seq<Handle>>)
    requires img.Valid() && parent in img.entryOf
    requires img.entryOf[parent].directory ==> ScanDefined(img.bytes, img.geometry, img.entryOf[parent])
    modifies img
    ensures img.Valid()
    ensures !old(img.entryOf[parent]).directory ==> r == Failure(NotDirectory) && unchanged(img)
    ensures old(img.entryOf[parent]).directory ==>
      var es := Children(img.bytes, img.geometry, old(img.entryOf[parent]));
      img.Snapshot() == Opened(old(img.Snapshot()), es) &&
      r.Success? && |r.value| == |es| % COUNT_LIMIT && |r.value| <= |es|
    ensures old(img.entryOf[parent]).directory ==>
      var es := Children(img.bytes, img.geometry, old(img.entryOf[parent]));
      |r.value| == |Returned(es)| &&
      forall j :: 0 <= j < |r.value| ==>
        r.value[j] == FirstReturned(old(img.Snapshot()), es) + j &&
        r.value[j] in img.entryOf && img.entryOf[r.value[j]] == Returned(es)[j]
  {
    var dir := img.entryOf[parent];
    if !dir.directory {
      return Failure(NotDirectory);
    }
    ghost var t0 := img.Snapshot();
    var count;
    ghost var es;
    count, es := ScanDirectory(img, dir, t0);
    CountAtMost(|es|);
    OpenedSize(t0, es);
    var children := CollectChildren(img.openedEntries, count);
    ChildrenHandles(t0, es, children);
    r := Success(children);
  }
}
