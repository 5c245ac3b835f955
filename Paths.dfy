/** Path resolution: `getChildEntry` looks a name up among the children of a
    directory and closes the others, `getDescendantEntry` follows the
    segments of a path from an entry, `openEntry` follows them from a
    freshly opened root, and `getEntry` chooses between the two. */
module Paths {
  import opened Bytes
  import opened Text
  import opened Geometry
  import opened Directory
  import opened Registry
  import opened Scan

  /** The position of the first entry named `name`, or |es| when there is
      none. Names and path segments hold no NUL, so `wcscmp` is equality. */
  function FindName(es: seq<Entry>, name: seq<WChar>): (k: nat)
    ensures k <= |es|
    ensures k < |es| ==> es[k].name == name
    ensures forall j :: 0 <= j < k ==> es[j].name != name
    decreases |es|
  {
    if es == [] || es[0].name == name then 0 else 1 + FindName(es[1..], name)
  }

  /** The handles `hi - 1` down to `lo`: entries opened with handles lo, ...,
      hi - 1, in list order (newest first). */
  function Descending(lo: nat, hi: nat): (s: seq<Handle>)
    ensures |s| == if lo <= hi then hi - lo else 0
    decreases hi
  {
    if hi <= lo then [] else [hi - 1] + Descending(lo, hi - 1)
  }

  lemma {:induction false} DescendingAt(lo: nat, hi: nat)
    ensures forall i :: 0 <= i < |Descending(lo, hi)| ==> Descending(lo, hi)[i] == hi - 1 - i
    decreases hi
  {
    if lo < hi {
      DescendingAt(lo, hi - 1);
      var d := Descending(lo, hi - 1);
      assert Descending(lo, hi) == [hi - 1] + d;
    }
  }

  /** The returned children at positions `j` to `c - 1` other than the match
      at `k`, given the handle `lo` of position 0. */
  function Gone(lo: nat, c: nat, k: nat, j: nat): (s: set<Handle>)
    ensures forall h :: h in s ==> lo + j <= h < lo + c && h != lo + k
    decreases c - j
  {
    if c <= j then {} else (if j == k then {} else {lo + j}) + Gone(lo, c, k, j + 1)
  }

  /** The registries after `closeEntry(x)` on an entry without open files
      (see `Image.CloseEntry`). */
  function Close(t: Tables, x: Handle): Tables
  {
    Tables(Remove(t.entries, x), t.entryOf - {x}, t.files - {x},
           t.fileOf - (if x in t.files then ToSet(t.files[x]) else {}), t.next)
  }

  /** The closing loop of `getChildEntry` from registries `o`, down to
      position `j`: each returned child (position `i` has handle `lo + i`)
      from the last down to `j`, other than the match at `k`, is closed. */
  function Closed(o: Tables, lo: nat, c: nat, k: nat, j: nat): Tables
    decreases c - j
  {
    if c <= j then o
    else
      var t := Closed(o, lo, c, k, j + 1);
      if j == k then t else Close(t, lo + j)
  }

  /** One step of `Closed`, with the neighbouring index and the handle at
      `j` named. */
  lemma ClosedUnfold(o: Tables, lo: nat, c: nat, k: nat, j: nat, n: nat, x: Handle)
    requires j < c && n == j + 1 && x == lo + j
    ensures Closed(o, lo, c, k, j) == if j == k then Closed(o, lo, c, k, n) else Close(Closed(o, lo, c, k, n), x)
  {
  }

  /** The loop has not yet reached the handles below `lo + j`. */
  lemma {:induction false} ClosedKeeps(o: Tables, lo: nat, c: nat, k: nat, j: nat, x: Handle)
    requires x in o.entryOf && x < lo + j
    ensures x in Closed(o, lo, c, k, j).entryOf
    decreases c - j
  {
    if j < c {
      ClosedKeeps(o, lo, c, k, j + 1, x);
    }
  }

  /** `h` is an open entry with no open file. */
  predicate NewAt(o: Tables, h: Handle)
  {
    h in o.entryOf && h in o.files && o.files[h] == []
  }

  /** `o` is `t0` with `n` entries opened: fresh handles at the head of the
      list, newest first, each with no open file. */
  predicate Fresh(t0: Tables, o: Tables, n: nat)
  {
    Extends(t0, o) && o.entries == Descending(t0.next, t0.next + n) + t0.entries && o.next == t0.next + n &&
    forall h :: t0.next <= h < t0.next + n ==> NewAt(o, h)
  }

  lemma OpenedFresh(t0: Tables, es: seq<Entry>)
    requires TablesRegistered(t0)
    ensures Fresh(t0, Opened(t0, es), |es|)
  {
    OpenedExtends(t0, es);
    OpenedList(t0, es);
    OpenedNew(t0, es);
  }

  lemma OpenedList(t0: Tables, es: seq<Entry>)
    requires Allocated(t0.entryOf, t0.fileOf, t0.next)
    ensures Opened(t0, es).entries == Descending(t0.next, t0.next + |es|) + t0.entries
  {
    var hi := t0.next + |es|;
    var s, d := Opened(t0, es).entries, Descending(t0.next, hi);
    OpenedFacts(t0, es);
    DescendingAt(t0.next, hi);
    forall i | 0 <= i < |d| ensures s[i] == d[i] {
      assert s[i] == hi - 1 - i;
    }
    SplitAt(s, d, t0.entries);
  }

  lemma OpenedNew(t0: Tables, es: seq<Entry>)
    requires Allocated(t0.entryOf, t0.fileOf, t0.next)
    ensures Opened(t0, es).next == t0.next + |es|
    ensures forall h :: t0.next <= h < t0.next + |es| ==> NewAt(Opened(t0, es), h)
  {
    OpenedFacts(t0, es);
    OpenedFiles(t0, es);
  }

  lemma SplitAt(s: seq<Handle>, d: seq<Handle>, r: seq<Handle>)
    requires |s| == |d| + |r| && s[|d|..] == r && forall i :: 0 <= i < |d| ==> s[i] == d[i]
    ensures s == d + r
  {
    assert s[..|d|] == d;
    assert s == s[..|d|] + s[|d|..];
  }

  /** The registries of `getChildEntry` once its closing loop is down to
      position `j`: `getChildren` took `t0` to `o` by opening `n` entries and
      returned the last `c` of them, and every returned child from `j` on
      except the match at `k` (none when k == c) is closed again. The
      children opened before the returned ones stay open. */
  function Pruned(t0: Tables, o: Tables, n: nat, c: nat, k: nat, j: nat): Tables
    requires j <= c <= n
  {
    var lo := t0.next + n - c;
    var gone := Gone(lo, c, k, j);
    Tables(PrunedList(t0.next, lo, c, k, j, t0.entries),
           o.entryOf - gone, o.files - gone, o.fileOf, o.next)
  }

  /** The open-entry list of `Pruned`: the match if it is still ahead of the
      loop, then the handles `lo + j - 1` down to `next0`, then `rest`. */
  function PrunedList(next0: nat, lo: nat, c: nat, k: nat, j: nat, rest: seq<Handle>): seq<Handle>
  {
    (if j <= k < c then [lo + k] else []) + (Descending(next0, lo + j) + rest)
  }

  lemma PrunedListStep(next0: nat, lo: nat, c: nat, k: nat, i: nat, j: nat, x: Handle, rest: seq<Handle>)
    requires next0 <= lo && j == i + 1 && j <= c && i != k && x == lo + i
    ensures PrunedList(next0, lo, c, k, i, rest) == Remove<Handle>(PrunedList(next0, lo, c, k, j, rest), x)
  {
    var d := Descending(next0, x);
    DescendingCons(next0, x, lo + j);
    Assoc([x], d, rest);
    RemoveHead(x, d + rest);
    if j <= k < c {
      RemoveOther(lo + k, [x] + (d + rest), x);
    }
  }

  /** Before the closing loop, nothing is closed yet. */
  lemma PrunedStart(t0: Tables, o: Tables, n: nat, c: nat, k: nat)
    requires o.entries == Descending(t0.next, t0.next + n) + t0.entries && c <= n
    ensures Pruned(t0, o, n, c, k, c) == o
  {
    assert Gone(t0.next + n - c, c, k, c) == {};
  }

  /** Closing the child at `i` (not the match) moves the loop on from `j = i + 1`. */
  lemma PrunedStep(t0: Tables, o: Tables, n: nat, c: nat, k: nat, i: nat, j: nat, x: Handle)
    requires j == i + 1 && j <= c <= n && i != k
    requires x == t0.next + n - c + i && NewAt(o, x)
    ensures Pruned(t0, o, n, c, k, i) == Close(Pruned(t0, o, n, c, k, j), x)
  {
    var lo := t0.next + n - c;
    var t, u := Pruned(t0, o, n, c, k, j), Pruned(t0, o, n, c, k, i);
    var gone := Gone(lo, c, k, j);
    assert Gone(lo, c, k, i) == gone + {x};
    MinusStep(o.entryOf, gone, x);
    MinusStep(o.files, gone, x);
    PrunedListStep(t0.next, lo, c, k, i, j, x, t0.entries);
    assert u.entries == Remove(t.entries, x);
    assert u.entryOf == t.entryOf - {x} && u.files == t.files - {x};
    assert x in t.files && ToSet(t.files[x]) == {};
    assert u.fileOf == t.fileOf - ToSet(t.files[x]);
  }

  lemma Assoc(a: seq<Handle>, b: seq<Handle>, c: seq<Handle>)
    ensures (a + b) + c == a + (b + c)
  {
  }

  lemma RemoveHead(x: Handle, s: seq<Handle>)
    ensures Remove([x] + s, x) == s
  {
    assert ([x] + s)[1..] == s;
  }

  lemma RemoveOther(y: Handle, s: seq<Handle>, x: Handle)
    requires y != x
    ensures Remove([y] + s, x) == [y] + Remove(s, x)
  {
    assert ([y] + s)[1..] == s;
  }

  /** One handle more at the top of a descending run. */
  lemma DescendingCons(lo: nat, hi: nat, hi': nat)
    requires lo <= hi && hi' == hi + 1
    ensures Descending(lo, hi') == [hi] + Descending(lo, hi)
  {
  }

  /** The match is never closed. */
  lemma GoneKeep(lo: nat, c: nat, k: nat, j: nat, i: nat)
    requires 0 < j && i == j - 1 && i == k
    ensures Gone(lo, c, k, i) == Gone(lo, c, k, j)
  {
  }

  /** Passing the match leaves the list as it was: the match moves from the
      head to the top of the descending run. */
  lemma PrunedListKeep(next0: nat, lo: nat, c: nat, k: nat, j: nat, i: nat, rest: seq<Handle>)
    requires next0 <= lo && 0 < j <= c && i == j - 1 && i == k
    ensures PrunedList(next0, lo, c, k, i, rest) == PrunedList(next0, lo, c, k, j, rest)
  {
    var x, y := lo + k, lo + j;
    DescendingCons(next0, x, y);
    assert PrunedList(next0, lo, c, k, i, rest) == [x] + (Descending(next0, x) + rest);
    assert PrunedList(next0, lo, c, k, j, rest) == ([x] + Descending(next0, x)) + rest;
    Assoc([x], Descending(next0, x), rest);
  }

  /** The match at `i` stays open. */
  lemma PrunedKeep(t0: Tables, o: Tables, n: nat, c: nat, k: nat, i: nat, j: nat)
    requires j == i + 1 && j <= c <= n && i == k
    ensures Pruned(t0, o, n, c, k, i) == Pruned(t0, o, n, c, k, j)
  {
    var lo := t0.next + n - c;
    GoneKeep(lo, c, k, j, i);
    PrunedListKeep(t0.next, lo, c, k, j, i, t0.entries);
  }

  /** The closing loop reaches the closed form `Pruned`. */
  lemma {:induction false} ClosedForm(t0: Tables, o: Tables, n: nat, c: nat, k: nat, j: nat)
    requires j <= c <= n && o.entries == Descending(t0.next, t0.next + n) + t0.entries
    requires forall h :: t0.next + n - c <= h < t0.next + n ==> NewAt(o, h)
    ensures Closed(o, t0.next + n - c, c, k, j) == Pruned(t0, o, n, c, k, j)
    decreases c - j
  {
    var lo := t0.next + n - c;
    if j == c {
      PrunedStart(t0, o, n, c, k);
      assert Closed(o, lo, c, k, j) == o;
    } else {
      var j', x := j + 1, lo + j;
      ClosedForm(t0, o, n, c, k, j');
      var p := Pruned(t0, o, n, c, k, j');
      ClosedUnfold(o, lo, c, k, j, j', x);
      if j == k {
        PrunedKeep(t0, o, n, c, k, j, j');
      } else {
        PrunedStep(t0, o, n, c, k, j, j', x);
      }
    }
  }

  /** After `getChildEntry`: the registries extend those before it; the
      list is longer by the children opened before the returned ones, plus
      the match if there is one, which heads the list under a new handle. */
  lemma LookupFacts(t0: Tables, o: Tables, n: nat, c: nat, k: nat, lo: nat, h: Handle)
    requires TablesRegistered(t0) && Fresh(t0, o, n) && k <= c <= n && lo == t0.next + n - c && h == lo + k
    ensures var t := Closed(o, lo, c, k, 0);
      Extends(t0, t) &&
      |t.entries| == |t0.entries| + (n - c) + (if k < c then 1 else 0) &&
      (k < c ==>
        t.entries[0] == h && h !in t0.entryOf && h in t.entryOf && NewAt(o, h) && t.entryOf[h] == o.entryOf[h])
  {
    ClosedForm(t0, o, n, c, k, 0);
    assert Closed(o, lo, c, k, 0) == Pruned(t0, o, n, c, k, 0);
    PrunedExtends(t0, o, n, c, k);
    if k < c {
      assert NewAt(o, h);
    }
  }

  /** What `getChildEntry` leaves behind, as the caller needs it: the
      registries only grow, by the children leaked past the count and the
      child found, which is a new handle at the head naming the first
      returned child called `name`. */
  lemma ChildFacts(t0: Tables, t: Tables, es: seq<Entry>, name: seq<WChar>, r: Outcome<Handle>)
    requires TablesRegistered(t0) && ChildLookedUp(t0, t, es, name, r)
    ensures var ls := Returned(es);
      var k := FindName(ls, name);
      Extends(t0, t) &&
      |t.entries| == |t0.entries| + (|es| - |ls|) + (if k < |ls| then 1 else 0) &&
      (k == |ls| ==> r == Failure(NotFound)) &&
      (k < |ls| ==>
        r.Success? && r.value !in t0.entryOf && r.value in t.entryOf &&
        t.entryOf[r.value] == ls[k] && t.entries[0] == r.value)
  {
    var c := |Returned(es)|;
    var k := FindName(Returned(es), name);
    var lo := FirstReturned(t0, es);
    var h := lo + k;
    OpenedFresh(t0, es);
    LookupFacts(t0, Opened(t0, es), |es|, c, k, lo, h);
    if k < c {
      OpenedReturned(t0, es, k, h);
      assert r.value == h;
    }
  }

  /** The `k`-th returned child is opened under `FirstReturned(t0, es) + k`. */
  lemma OpenedReturned(t0: Tables, es: seq<Entry>, k: nat, h: Handle)
    requires Allocated(t0.entryOf, t0.fileOf, t0.next) && k < |Returned(es)| && h == FirstReturned(t0, es) + k
    ensures h in Opened(t0, es).entryOf && Opened(t0, es).entryOf[h] == Returned(es)[k]
  {
    var i := |es| - |Returned(es)| + k;
    OpenedAt(t0, es, i, h);
  }

  lemma PrunedExtends(t0: Tables, o: Tables, n: nat, c: nat, k: nat)
    requires TablesRegistered(t0) && Extends(t0, o) && k <= c <= n
    ensures Extends(t0, Pruned(t0, o, n, c, k, 0))
  {
    var t := Pruned(t0, o, n, c, k, 0);
    PrunedKeepsOld(t0, o, n, c, k);
    PrunedNewEmpty(t0, o, n, c, k);
    assert t.entries[|t.entries| - |t0.entries|..] == t0.entries;
  }

  lemma PrunedKeepsOld(t0: Tables, o: Tables, n: nat, c: nat, k: nat)
    requires TablesRegistered(t0) && Extends(t0, o) && k <= c <= n
    ensures var t := Pruned(t0, o, n, c, k, 0);
      (forall h :: h in t0.entryOf ==> h in t.entryOf && t.entryOf[h] == t0.entryOf[h]) &&
      (forall h :: h in t0.files ==> h in t.files && t.files[h] == t0.files[h])
  {
    var t := Pruned(t0, o, n, c, k, 0);
    var gone := Gone(t0.next + n - c, c, k, 0);
    forall h | h in t0.entryOf ensures h in t.entryOf && t.entryOf[h] == t0.entryOf[h] {
      assert h < t0.next && h !in gone;
    }
    forall h | h in t0.files ensures h in t.files && t.files[h] == t0.files[h] {
      assert h in t0.entryOf && h < t0.next && h !in gone;
    }
  }

  lemma PrunedNewEmpty(t0: Tables, o: Tables, n: nat, c: nat, k: nat)
    requires Extends(t0, o) && k <= c <= n
    ensures var t := Pruned(t0, o, n, c, k, 0);
      forall h :: h in t.entryOf && h !in t0.entryOf ==> t0.next <= h && h in t.files && t.files[h] == []
  {
    var t := Pruned(t0, o, n, c, k, 0);
    var gone := Gone(t0.next + n - c, c, k, 0);
    forall h | h in t.entryOf && h !in t0.entryOf ensures t0.next <= h && h in t.files && t.files[h] == [] {
      assert h in o.entryOf && h !in gone;
    }
  }

  /** The registries `t` and the result `r` that `getChildEntry` leaves
      behind when the registries were `t0` and the parent's children are
      `es`: the returned children are opened, all but the first one named
      `name` are closed again, and that one is the result or, when there is
      none, 127 (`NotFound`). */
  ghost predicate ChildLookedUp(t0: Tables, t: Tables, es: seq<Entry>, name: seq<WChar>, r: Outcome<Handle>) {
    var c := |Returned(es)|;
    var k := FindName(Returned(es), name);
    var lo := FirstReturned(t0, es);
    t == Closed(Opened(t0, es), lo, c, k, 0) &&
    r == if k < c then Success(lo + k) else Failure(NotFound)
  }

  /** `getChildEntry`: opens the children of `parent`, keeps the first one
      named `name` and closes every other returned child, last first; fails
      with 127 (`NotFound`) when no returned child has that name. */
  method GetChildEntry(img: Image, parent: Handle, name: seq<WChar>) returns (r: Outcome<Handle>)
    requires img.Valid() && parent in img.entryOf && img.entryOf[parent].directory
    requires ScanDefined(img.bytes, img.geometry, img.entryOf[parent])
    modifies img
    ensures img.Valid()
    ensures ChildLookedUp(old(img.Snapshot()), img.Snapshot(),
                          Children(img.bytes, img.geometry, old(img.entryOf[parent])), name, r)
  {
    ghost var t0 := img.Snapshot();
    ghost var es := Children(img.bytes, img.geometry, img.entryOf[parent]);
    ghost var ls := Returned(es);
    ghost var lo := FirstReturned(t0, es);
    var children := GetChildren(img, parent);
    ghost var o := img.Snapshot();
    assert o == Opened(t0, es);
    r := SelectChild(img, children.value, name, o, lo, ls);
    LookedUpFold(t0, img.Snapshot(), es, name, r, lo, ls);
  }

  lemma LookedUpFold(t0: Tables, t: Tables, es: seq<Entry>, name: seq<WChar>, r: Outcome<Handle>, lo: nat, ls: seq<Entry>)
    requires lo == FirstReturned(t0, es) && ls == Returned(es)
    requires t == Closed(Opened(t0, es), lo, |ls|, FindName(ls, name), 0)
    requires r == if FindName(ls, name) < |ls| then Success(lo + FindName(ls, name)) else Failure(NotFound)
    ensures ChildLookedUp(t0, t, es, name, r)
  {
  }

  /** The loops of `getChildEntry` once `getChildren` has left the registries
      at `o` and returned `list`, the handles `lo`, `lo + 1`, ... of the
      entries `ls`: the search for the first child named `name`, then the
      closing of every other one from the last down. */
  method SelectChild(img: Image, list: seq<Handle>, name: seq<WChar>, ghost o: Tables, ghost lo: nat,
                     ghost ls: seq<Entry>) returns (r: Outcome<Handle>)
    requires img.Valid() && img.Snapshot() == o && |list| == |ls|
    requires forall m :: 0 <= m < |list| ==> list[m] == lo + m && list[m] in o.entryOf && o.entryOf[list[m]] == ls[m]
    modifies img
    ensures img.Valid()
    ensures var c, k := |ls|, FindName(ls, name);
      img.Snapshot() == Closed(o, lo, c, k, 0) && r == if k < c then Success(lo + k) else Failure(NotFound)
  {
    ghost var c, k := |list|, FindName(ls, name);
    var found, child := FindChild(img, list, name, ls);
    assert found ==> child == lo + k;
    CloseOthers(img, list, found, child, o, lo, k);
    if !found {
      return Failure(NotFound);
    }
    r := Success(child);
  }

  /** The first loop of `getChildEntry`: the first child named `name`. */
  method FindChild(img: Image, list: seq<Handle>, name: seq<WChar>, ghost ls: seq<Entry>)
    returns (found: bool, child: Handle)
    requires |list| == |ls|
    requires forall m :: 0 <= m < |list| ==> list[m] in img.entryOf && img.entryOf[list[m]] == ls[m]
    ensures found <==> FindName(ls, name) < |ls|
    ensures found ==> child == list[FindName(ls, name)]
  {
    found, child := false, 0;
    var i := 0;
    while i < |list|
      invariant i <= |list|
      invariant forall m :: 0 <= m < i ==> ls[m].name != name
    {
      if img.entryOf[list[i]].name == name {
        found, child := true, list[i];
        FirstNamed(ls, name, i);
        return;
      }
      i := i + 1;
    }
    FirstNamed(ls, name, |ls|);
  }

  /** `FindName` is the first position holding `name`, if there is one. */
  lemma FirstNamed(ls: seq<Entry>, name: seq<WChar>, i: nat)
    requires i <= |ls| && (i < |ls| ==> ls[i].name == name) && forall m :: 0 <= m < i ==> ls[m].name != name
    ensures FindName(ls, name) == i
  {
  }

  /** The second loop of `getChildEntry`: closes the children other than the
      one found, from the last one down. */
  method CloseOthers(img: Image, list: seq<Handle>, found: bool, child: Handle, ghost o: Tables, ghost lo: nat,
                     ghost k: nat)
    requires img.Valid() && img.Snapshot() == o
    requires forall m :: 0 <= m < |list| ==> list[m] == lo + m && list[m] in o.entryOf
    requires k <= |list| && (found <==> k < |list|) && (found ==> child == lo + k)
    modifies img
    ensures img.Valid() && img.Snapshot() == Closed(o, lo, |list|, k, 0)
  {
    ghost var c := |list|;
    var j := |list|;
    while j > 0
      invariant 0 <= j <= c && img.Valid() && img.Snapshot() == Closed(o, lo, c, k, j)
    {
      ghost var n := j;
      j := j - 1;
      ghost var x := list[j];
      assert x == lo + j;
      ghost var kept := j == k;
      assert kept <==> found && x == child;
      ClosedUnfold(o, lo, c, k, j, n, x);
      if !found || list[j] != child {
        ClosedKeeps(o, lo, c, k, n, x);
        img.CloseEntry(list[j]);
      }
    }
    assert j == 0;
  }

  /** Every segment is looked up in a directory on which `getChildren` is
      defined: the resolution never asks a non-directory for its children,
      where fat.c would read through a null list. */
  predicate PathDefined(image: seq<Byte>, g: Geometry, dir: Entry, segs: seq<seq<WChar>>)
    decreases |segs|
  {
    segs == [] ||
    (dir.directory && ScanDefined(image, g, dir) &&
     var ls := Returned(Children(image, g, dir));
     var k := FindName(ls, segs[0]);
     k == |ls| || PathDefined(image, g, ls[k], segs[1..]))
  }

  /** The entry the segments lead to from `dir`, each looked up among the
      returned children of the one before; the first missing one fails the
      whole path. */
  function Resolve(image: seq<Byte>, g: Geometry, dir: Entry, segs: seq<seq<WChar>>): (r: Outcome<Entry>)
    requires PathDefined(image, g, dir, segs)
    ensures r.Failure? ==> segs != [] && r.error == NotFound
    ensures segs == [] ==> r == Success(dir)
    ensures r.Success? && segs != [] ==> r.value.name == segs[|segs| - 1]
    decreases |segs|
  {
    if segs == [] then Success(dir)
    else
      var ls := Returned(Children(image, g, dir));
      var k := FindName(ls, segs[0]);
      if k == |ls| then Failure(NotFound)
      else
        var rest := segs[1..];
        var r := Resolve(image, g, ls[k], rest);
        assert rest == [] ==> r == Success(ls[k]) && ls[k].name == segs[0] && |segs| == 1;
        assert rest != [] ==> rest[|rest| - 1] == segs[|segs| - 1];
        r
  }

  /** How many children beyond the 16-bit count the resolution leaves open. */
  function Leaked(image: seq<Byte>, g: Geometry, dir: Entry, segs: seq<seq<WChar>>): nat
    requires PathDefined(image, g, dir, segs)
    decreases |segs|
  {
    if segs == [] then 0
    else
      var es := Children(image, g, dir);
      var ls := Returned(es);
      var k := FindName(ls, segs[0]);
      |es| - |ls| + (if k == |ls| then 0 else Leaked(image, g, ls[k], segs[1..]))
  }

  /** Each directory on the path has fewer than 2^16 children. */
  predicate SmallDirectories(image: seq<Byte>, g: Geometry, dir: Entry, segs: seq<seq<WChar>>)
    requires PathDefined(image, g, dir, segs)
    decreases |segs|
  {
    segs == [] ||
    (var es := Children(image, g, dir);
     var k := FindName(Returned(es), segs[0]);
     |es| < COUNT_LIMIT && (k == |Returned(es)| || SmallDirectories(image, g, Returned(es)[k], segs[1..])))
  }

  /** Along small directories nothing is left open. */
  lemma {:induction false} NoLeakInSmallDirectories(image: seq<Byte>, g: Geometry, dir: Entry, segs: seq<seq<WChar>>)
    requires PathDefined(image, g, dir, segs) && SmallDirectories(image, g, dir, segs)
    ensures Leaked(image, g, dir, segs) == 0
    decreases |segs|
  {
    if segs != [] {
      var es := Children(image, g, dir);
      ReturnedAll(es);
      var k := FindName(es, segs[0]);
      if k < |es| {
        NoLeakInSmallDirectories(image, g, es[k], segs[1..]);
      }
    }
  }

  /** One segment of the resolution. */
  lemma DescendStep(image: seq<Byte>, g: Geometry, dir: Entry, segs: seq<seq<WChar>>, i: nat)
    requires i < |segs| && PathDefined(image, g, dir, segs[i..])
    ensures dir.directory && ScanDefined(image, g, dir)
    ensures var es := Children(image, g, dir);
      var ls := Returned(es);
      var k := FindName(ls, segs[i]);
      (k == |ls| ==>
        Resolve(image, g, dir, segs[i..]) == Failure(NotFound) && Leaked(image, g, dir, segs[i..]) == |es| - |ls|) &&
      (k < |ls| ==>
        PathDefined(image, g, ls[k], segs[i + 1..]) &&
        Resolve(image, g, dir, segs[i..]) == Resolve(image, g, ls[k], segs[i + 1..]) &&
        Leaked(image, g, dir, segs[i..]) == |es| - |ls| + Leaked(image, g, ls[k], segs[i + 1..]))
  {
    assert segs[i..][0] == segs[i] && segs[i..][1..] == segs[i + 1..];
  }

  /** What a resolution leaves behind, from registries `t0` to `t`: they
      extend `t0`, `kept` more entries stay open than the outcome accounts
      for, and on success the result is a newly opened entry holding the
      resolved entry, at the head of the list. A failure returns no entry. */
  predicate Resolved(t0: Tables, t: Tables, r: Outcome<Handle>, res: Outcome<Entry>, kept: nat)
  {
    TablesRegistered(t) && Extends(t0, t) &&
    (res.Failure? ==> r == Failure(res.error)) &&
    (res.Success? ==>
      r.Success? && r.value !in t0.entryOf && r.value in t.entryOf && t.entryOf[r.value] == res.value &&
      t.entries[0] == r.value) &&
    |t.entries| == |t0.entries| + kept + (if r.Success? then 1 else 0)
  }

  /** With nothing left open, a successful resolution adds exactly the
      result to the registries, and a failed one leaves them as they were
      (up to the handle counter). */
  lemma ResolvedExactly(t0: Tables, t: Tables, r: Outcome<Handle>, res: Outcome<Entry>)
    requires TablesRegistered(t0) && Resolved(t0, t, r, res, 0)
    ensures r.Success? ==>
      t.entries == [r.value] + t0.entries && t.entryOf == t0.entryOf[r.value := res.value] &&
      t.files == t0.files[r.value := []] && t.fileOf == t0.fileOf
    ensures r.Failure? ==>
      t.entries == t0.entries && t.entryOf == t0.entryOf && t.files == t0.files && t.fileOf == t0.fileOf
  {
    if r.Success? {
      ExtendsByOne(t0, t);
    } else {
      ExtendsByZero(t0, t);
    }
  }

  lemma ExtendsByZero(t0: Tables, t: Tables)
    requires TablesRegistered(t0) && TablesRegistered(t) && Extends(t0, t)
    requires |t.entries| == |t0.entries|
    ensures t.entries == t0.entries && t.entryOf == t0.entryOf && t.files == t0.files && t.fileOf == t0.fileOf
  {
    assert t.entries == t0.entries;
    ListedKeys(t0.entries, t0.entryOf, t.entryOf);
    assert t.entryOf.Keys == t.files.Keys && t0.entryOf.Keys == t0.files.Keys;
    ExtendsSame(t0, t);
  }

  /** Two entry maps listed by the same open-entry list have the same keys. */
  lemma ListedKeys(es: seq<Handle>, m0: map<Handle, Entry>, m1: map<Handle, Entry>)
    requires EntryList(es, m0) && EntryList(es, m1)
    ensures m0.Keys == m1.Keys
  {
    forall h ensures h in m0 <==> h in m1 {
      assert h in m0 <==> h in es;
    }
  }

  /** Registries that extend others without new keys are the same. */
  lemma ExtendsSame(t0: Tables, t: Tables)
    requires Extends(t0, t) && t.entryOf.Keys == t0.entryOf.Keys && t.files.Keys == t0.files.Keys
    ensures t.entryOf == t0.entryOf && t.files == t0.files
  {
    MapsAgree(t0.entryOf, t.entryOf);
    MapsAgree(t0.files, t.files);
  }

  /** Two maps with the same keys that agree on each are equal. */
  lemma MapsAgree<K, V>(a: map<K, V>, b: map<K, V>)
    requires a.Keys == b.Keys && forall k :: k in a ==> b[k] == a[k]
    ensures a == b
  {
  }

  /** Closing an entry that owns no open file leaves the file registry as
      it was. */
  lemma NothingOwned(fileOf: map<Handle, FileState>, fs: seq<Handle>)
    requires fs == []
    ensures fileOf - ToSet(fs) == fileOf
  {
    assert ToSet(fs) == {};
  }

  /** Opening an entry at the head extends the registries. */
  lemma PushExtends(t0: Tables, h: Handle, e: Entry)
    requires TablesRegistered(t0) && h == t0.next
    ensures Extends(t0, Tables([h] + t0.entries, t0.entryOf[h := e], t0.files[h := []], t0.fileOf, t0.next + 1))
  {
    FreshHandle(t0, h);
    ConsSuffix(h, t0.entries);
  }

  /** The next handle is neither an open entry nor an entry's file list. */
  lemma FreshHandle(t0: Tables, h: Handle)
    requires TablesRegistered(t0) && h == t0.next
    ensures h !in t0.entryOf && h !in t0.files
  {
  }

  lemma ConsSuffix(h: Handle, s: seq<Handle>)
    ensures ([h] + s)[|[h] + s| - |s|..] == s
  {
  }

  /** The state of the walk of `getDescendantEntry` over `segs` from
      `start`, with registries `t0` before it: `i` segments are done, the
      current entry `cur` is open under the new handle `d` at the head of
      the list, what is left of the path resolves to what the whole path
      does, and `leak` children stayed open on the way. */
  ghost predicate Walking(image: seq<Byte>, g: Geometry, t0: Tables, t: Tables, d: Handle, cur: Entry,
                          start: Entry, segs: seq<seq<WChar>>, i: nat, leak: nat)
  {
    i <= |segs| && TablesRegistered(t) && Extends(t0, t) &&
    d in t.entryOf && d !in t0.entryOf && t.entryOf[d] == cur && t.entries[0] == d &&
    PathDefined(image, g, cur, segs[i..]) && PathDefined(image, g, start, segs) &&
    Resolve(image, g, cur, segs[i..]) == Resolve(image, g, start, segs) &&
    leak + Leaked(image, g, cur, segs[i..]) == Leaked(image, g, start, segs) &&
    |t.entries| == |t0.entries| + 1 + leak
  }

  /** What one step of the walk leaves behind, from registries `t1` to `t`,
      when the current entry's children are `es`: the registries still
      extend `t0`; the child named `name` is open at the head under a new
      handle, or there is none and the step fails; the current entry is
      closed and the children leaked past the count stay open. */
  ghost predicate SteppedDown(t0: Tables, t1: Tables, t: Tables, es: seq<Entry>, name: seq<WChar>, child: Outcome<Handle>)
  {
    var ls := Returned(es);
    var k := FindName(ls, name);
    TablesRegistered(t) && Extends(t0, t) &&
    |t.entries| + 1 == |t1.entries| + (|es| - |ls|) + (if k < |ls| then 1 else 0) &&
    (k == |ls| ==> child == Failure(NotFound)) &&
    (k < |ls| ==>
      child.Success? && child.value in t.entryOf && child.value !in t0.entryOf &&
      t.entryOf[child.value] == ls[k] && t.entries[0] == child.value)
  }

  /** A step of the walk either fails, and the walk has then resolved to a
      failure, or moves on to the child it found. */
  lemma WalkOn(image: seq<Byte>, g: Geometry, t0: Tables, t1: Tables, t: Tables, d: Handle, cur: Entry,
               start: Entry, segs: seq<seq<WChar>>, i: nat, leak: nat, child: Outcome<Handle>,
               i': nat, leak': nat, next: Entry)
    requires i < |segs| && Walking(image, g, t0, t1, d, cur, start, segs, i, leak)
    requires SteppedDown(t0, t1, t, Children(image, g, cur), segs[i], child)
    requires var es := Children(image, g, cur);
      var ls := Returned(es);
      var k := FindName(ls, segs[i]);
      i' == i + 1 && leak' == leak + |es| - |ls| && (k < |ls| ==> next == ls[k])
    ensures child.Failure? ==>
      Resolved(t0, t, child, Resolve(image, g, start, segs), Leaked(image, g, start, segs))
    ensures child.Success? ==> Walking(image, g, t0, t, child.value, next, start, segs, i', leak')
  {
    DescendStep(image, g, cur, segs, i);
  }

  /** The walk starts on a copy of `start` opened under the next handle. */
  lemma WalkStart(image: seq<Byte>, g: Geometry, t0: Tables, t: Tables, d: Handle, start: Entry, segs: seq<seq<WChar>>)
    requires TablesRegistered(t0) && TablesRegistered(t) && PathDefined(image, g, start, segs) && d == t0.next
    requires t == Tables([d] + t0.entries, t0.entryOf[d := start], t0.files[d := []], t0.fileOf, t0.next + 1)
    ensures Walking(image, g, t0, t, d, start, start, segs, 0, 0)
  {
    PushExtends(t0, d, start);
    assert segs[0..] == segs;
    forall x | x in t0.entryOf ensures x != d {
    }
  }

  /** A walk with segments left stands on a directory. */
  lemma WalkInDirectory(image: seq<Byte>, g: Geometry, t0: Tables, t: Tables, d: Handle, cur: Entry,
                        start: Entry, segs: seq<seq<WChar>>, i: nat, leak: nat)
    requires i < |segs| && Walking(image, g, t0, t, d, cur, start, segs, i, leak)
    ensures cur.directory && ScanDefined(image, g, cur)
  {
    DescendStep(image, g, cur, segs, i);
  }

  /** A walk over the whole path has resolved it to the current entry. */
  lemma WalkDone(image: seq<Byte>, g: Geometry, t0: Tables, t: Tables, d: Handle, cur: Entry,
                 start: Entry, segs: seq<seq<WChar>>, i: nat, leak: nat)
    requires i == |segs| && Walking(image, g, t0, t, d, cur, start, segs, i, leak)
    ensures Resolved(t0, t, Success(d), Resolve(image, g, start, segs), Leaked(image, g, start, segs))
  {
    assert segs[i..] == [];
  }

  /** `getDescendantEntry`: resolves the segments of `path` from a copy of
      `parent`. Each step looks the segment up among the children of the
      current entry and closes the current entry; the first failure ends the
      walk with no entry returned. */
  method GetDescendantEntry(img: Image, parent: Handle, path: seq<WChar>) returns (r: Outcome<Handle>)
    requires img.Valid() && parent in img.entryOf
    requires PathDefined(img.bytes, img.geometry, img.entryOf[parent], Segments(path))
    modifies img
    ensures img.Valid()
    ensures var dir, segs := old(img.entryOf[parent]), Segments(path);
      Resolved(old(img.Snapshot()), img.Snapshot(), r,
               Resolve(img.bytes, img.geometry, dir, segs), Leaked(img.bytes, img.geometry, dir, segs))
  {
    ghost var t0 := img.Snapshot();
    ghost var start := img.entryOf[parent];
    var segs := Segments(path);
    var g := img.geometry;
    var descendant := img.CopyEntry(parent);
    ghost var cur := start;
    ghost var leak: nat := 0;
    WalkStart(img.bytes, g, t0, img.Snapshot(), descendant, start, segs);
    r := Success(descendant);
    var i := 0;
    while i < |segs|
      invariant img.Valid() && Walking(img.bytes, g, t0, img.Snapshot(), descendant, cur, start, segs, i, leak)
      invariant r == Success(descendant)
      decreases |segs| - i
    {
      ghost var t1 := img.Snapshot();
      WalkInDirectory(img.bytes, g, t0, t1, descendant, cur, start, segs, i, leak);
      var child := StepDown(img, descendant, segs[i], t0, cur);
      ghost var es := Children(img.bytes, g, cur);
      ghost var ls := Returned(es);
      ghost var k := FindName(ls, segs[i]);
      ghost var leak': nat := leak + |es| - |ls|;
      ghost var next := if k < |ls| then ls[k] else cur;
      WalkOn(img.bytes, g, t0, t1, img.Snapshot(), descendant, cur, start, segs, i, leak, child, i + 1, leak', next);
      r := child;
      if child.Failure? {
        return;
      }
      leak := leak';
      descendant, cur := child.value, next;
      i := i + 1;
    }
    WalkDone(img.bytes, g, t0, img.Snapshot(), descendant, cur, start, segs, i, leak);
  }

  /** One step of `getDescendantEntry`: looks `name` up among the children of
      the current entry `descendant`, an entry opened since `t0`, and closes
      `descendant`. */
  method StepDown(img: Image, descendant: Handle, name: seq<WChar>, ghost t0: Tables, ghost cur: Entry)
    returns (child: Outcome<Handle>)
    requires img.Valid() && TablesRegistered(t0) && Extends(t0, img.Snapshot())
    requires descendant in img.entryOf && descendant !in t0.entryOf && img.entryOf[descendant] == cur && cur.directory
    requires ScanDefined(img.bytes, img.geometry, cur)
    modifies img
    ensures img.Valid()
    ensures SteppedDown(t0, old(img.Snapshot()), img.Snapshot(), Children(img.bytes, img.geometry, cur), name, child)
  {
    ghost var t1 := img.Snapshot();
    ghost var es := Children(img.bytes, img.geometry, cur);
    child := GetChildEntry(img, descendant, name);
    ChildFacts(t1, img.Snapshot(), es, name, child);
    ExtendsTrans(t0, t1, img.Snapshot());
    ghost var t2 := img.Snapshot();
    ExtendsClose(t0, t2, descendant);
    NothingOwned(t2.fileOf, t2.files[descendant]);
    img.CloseEntry(descendant);
  }

  /** `openEntry`: opens the root entry (from the record built for the root
      cluster) and resolves `path` from it. The root itself is never closed,
      so one more entry stays open. */
  method OpenEntryByPath(img: Image, path: seq<WChar>) returns (r: Outcome<Handle>)
    requires img.Valid()
    requires PathDefined(img.bytes, img.geometry, RootEntry(img.geometry), Segments(path))
    modifies img
    ensures img.Valid()
    ensures var dir, segs := RootEntry(img.geometry), Segments(path);
      Resolved(old(img.Snapshot()), img.Snapshot(), r,
               Resolve(img.bytes, img.geometry, dir, segs), 1 + Leaked(img.bytes, img.geometry, dir, segs))
  {
    ghost var t0 := img.Snapshot();
    PushExtends(t0, img.nextHandle, RootEntry(img.geometry));
    var root := img.OpenEntry([], RootRecord(img.geometry.rootCluster));
    ghost var t1 := img.Snapshot();
    assert t1.entryOf[root] == RootEntry(img.geometry);
    r := GetDescendantEntry(img, root, path);
    ResolvedWider(t0, t1, img.Snapshot(), r, Resolve(img.bytes, img.geometry, RootEntry(img.geometry), Segments(path)),
                  Leaked(img.bytes, img.geometry, RootEntry(img.geometry), Segments(path)));
  }

  /** One more entry opened before the resolution, and kept open. */
  lemma ResolvedWider(t0: Tables, t1: Tables, t: Tables, r: Outcome<Handle>, res: Outcome<Entry>, kept: nat)
    requires Extends(t0, t1) && |t1.entries| == |t0.entries| + 1 && Resolved(t1, t, r, res, kept)
    ensures Resolved(t0, t, r, res, kept + 1)
  {
    ExtendsTrans(t0, t1, t);
  }

  /** `getEntry`: a path starting with '/' is resolved from the root,
      any other from `base`. */
  method GetEntry(img: Image, base: Handle, path: seq<WChar>) returns (r: Outcome<Handle>)
    requires img.Valid() && base in img.entryOf && NUL !in path
    requires StartsWith(path, [SLASH]) ==> PathDefined(img.bytes, img.geometry, RootEntry(img.geometry), Segments(path))
    requires !StartsWith(path, [SLASH]) ==> PathDefined(img.bytes, img.geometry, img.entryOf[base], Segments(path))
    modifies img
    ensures img.Valid()
    ensures StartsWith(path, [SLASH]) ==>
      var dir, segs := RootEntry(img.geometry), Segments(path);
      Resolved(old(img.Snapshot()), img.Snapshot(), r,
               Resolve(img.bytes, img.geometry, dir, segs), 1 + Leaked(img.bytes, img.geometry, dir, segs))
    ensures !StartsWith(path, [SLASH]) ==>
      var dir, segs := old(img.entryOf[base]), Segments(path);
      Resolved(old(img.Snapshot()), img.Snapshot(), r,
               Resolve(img.bytes, img.geometry, dir, segs), Leaked(img.bytes, img.geometry, dir, segs))
  {
    if StartsWith(path, [SLASH]) {
      r := OpenEntryByPath(img, path);
    } else {
      r := GetDescendantEntry(img, base, path);
    }
  }
}
