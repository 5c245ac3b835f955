/** The image object and what it keeps track of: the list of open entries
    (`openedEntry` / `nextOpenedEntry`), and for each entry the list of its
    open files (`openedFile` / `nextOpenedFile`). Entries and files are named
    by handles standing for their addresses; both lists keep the newest
    element at the head. */
module Registry {
  import opened Bytes
  import opened Geometry
  import opened ClusterChain
  import opened Directory

  type Handle = nat

  /** The failures the core reports: `getChildren` on a non-directory (-1),
      `getChildEntry` without a match (127), `openFile` on a non-file (1). */
  datatype Error = NotDirectory | NotFound | NotFile

  datatype Outcome<T> = Success(value: T) | Failure(error: Error)

  /** The `File` struct without its link: owner entry, position, and the
      cluster the position lies in. */
  datatype FileState = FileState(owner: Handle, position: U32, cluster: U32)

  /** Each element occurs once. */
  predicate NoDup<T(==)>(s: seq<T>)
  {
    s == [] || (s[0] !in s[1..] && NoDup(s[1..]))
  }

  /** `s` without the first occurrence of `x`. */
  function Remove<T(==)>(s: seq<T>, x: T): (r: seq<T>)
  {
    if s == [] then []
    else if s[0] == x then s[1..]
    else [s[0]] + Remove(s[1..], x)
  }

  /** Unlinking the element at `i` of a list without duplicates leaves the
      others, in their order. */
  lemma {:induction false} RemoveAt<T>(s: seq<T>, i: nat)
    requires NoDup(s) && i < |s|
    ensures Remove(s, s[i]) == s[..i] + s[i + 1..]
  {
    if i > 0 {
      assert s[1..][i - 1] == s[i];
      RemoveAt(s[1..], i - 1);
      assert s[1..][..i - 1] == s[1..i] && s[1..][i..] == s[i + 1..];
      assert [s[0]] + s[1..i] == s[..i];
    }
  }

  /** Unlinking keeps a list free of duplicates and removes exactly `x`. */
  lemma {:induction false} RemoveNoDup<T>(s: seq<T>, x: T)
    requires NoDup(s)
    ensures NoDup(Remove(s, x))
    ensures forall y :: y in Remove(s, x) <==> y in s && y != x
    ensures |Remove(s, x)| == if x in s then |s| - 1 else |s|
  {
    if s != [] {
      assert s == [s[0]] + s[1..];
      if s[0] != x {
        RemoveNoDup(s[1..], x);
        var r := Remove(s, x);
        assert r == [s[0]] + Remove(s[1..], x);
        assert r[1..] == Remove(s[1..], x);
      }
    }
  }

  function ToSet<T>(s: seq<T>): set<T>
  {
    set x | x in s
  }

  lemma NoDupCons<T>(x: T, s: seq<T>)
    requires NoDup(s) && x !in s
    ensures NoDup([x] + s)
  {
    assert ([x] + s)[1..] == s;
  }

  /** The open-entry list holds each open entry once. */
  predicate EntryList(entries: seq<Handle>, entryOf: map<Handle, Entry>)
  {
    NoDup(entries) && (forall h :: h in entries ==> h in entryOf) && (forall h :: h in entryOf ==> h in entries)
  }

  /** Each open entry has its list of open files, each open file is listed
      once, by its owner, and its position lies within the owner's size. */
  predicate FileLists(entryOf: map<Handle, Entry>, files: map<Handle, seq<Handle>>, fileOf: map<Handle, FileState>)
  {
    entryOf.Keys == files.Keys && ListsNoDup(files) && ListedOwned(files, fileOf) && OwnedListed(entryOf, files, fileOf)
  }

  predicate ListsNoDup(files: map<Handle, seq<Handle>>)
  {
    forall h :: h in files ==> NoDup(files[h])
  }

  /** Every listed file is open and names the entry listing it. */
  predicate ListedOwned(files: map<Handle, seq<Handle>>, fileOf: map<Handle, FileState>)
  {
    forall h, f :: h in files && f in files[h] ==> f in fileOf && fileOf[f].owner == h
  }

  /** Every open file is listed by its owner and lies within it. */
  predicate OwnedListed(entryOf: map<Handle, Entry>, files: map<Handle, seq<Handle>>, fileOf: map<Handle, FileState>)
    requires entryOf.Keys == files.Keys
  {
    forall f :: f in fileOf ==>
      fileOf[f].owner in files && f in files[fileOf[f].owner] &&
      fileOf[f].position <= entryOf[fileOf[f].owner].size
  }

  /** Entries and files are distinct objects, all allocated before `next`. */
  predicate Allocated(entryOf: map<Handle, Entry>, fileOf: map<Handle, FileState>, next: nat)
  {
    entryOf.Keys !! fileOf.Keys &&
    (forall h :: h in entryOf ==> h < next) &&
    (forall f :: f in fileOf ==> f < next)
  }

  /** The invariant of the image's registries. */
  predicate Registered(entries: seq<Handle>, entryOf: map<Handle, Entry>, files: map<Handle, seq<Handle>>,
                       fileOf: map<Handle, FileState>, next: nat)
  {
    EntryList(entries, entryOf) && FileLists(entryOf, files, fileOf) && Allocated(entryOf, fileOf, next)
  }

  /** Opening an entry at the head of the list keeps the invariant. */
  lemma PushRegistered(entries: seq<Handle>, entryOf: map<Handle, Entry>, files: map<Handle, seq<Handle>>,
                       fileOf: map<Handle, FileState>, next: nat, e: Entry)
    requires Registered(entries, entryOf, files, fileOf, next)
    ensures next !in entryOf && next !in fileOf
    ensures Registered([next] + entries, entryOf[next := e], files[next := []], fileOf, next + 1)
  {
    assert next !in entryOf && next !in fileOf;
    PushEntryList(entries, entryOf, next, e);
    PushFileLists(entryOf, files, fileOf, next, e);
    PushAllocated(entryOf, fileOf, next, e);
  }

  lemma PushEntryList(entries: seq<Handle>, entryOf: map<Handle, Entry>, h: Handle, e: Entry)
    requires EntryList(entries, entryOf) && h !in entryOf
    ensures EntryList([h] + entries, entryOf[h := e])
  {
    NoDupCons(h, entries);
  }

  /** A new entry comes with an empty file list. */
  lemma PushFileLists(entryOf: map<Handle, Entry>, files: map<Handle, seq<Handle>>, fileOf: map<Handle, FileState>,
                      h: Handle, e: Entry)
    requires FileLists(entryOf, files, fileOf) && h !in entryOf
    ensures FileLists(entryOf[h := e], files[h := []], fileOf)
  {
    var files' := files[h := []];
    forall f | f in fileOf
      ensures fileOf[f].owner in files' && f in files'[fileOf[f].owner]
    {
      assert fileOf[f].owner in entryOf;
    }
  }

  lemma PushAllocated(entryOf: map<Handle, Entry>, fileOf: map<Handle, FileState>, next: nat, e: Entry)
    requires Allocated(entryOf, fileOf, next)
    ensures Allocated(entryOf[next := e], fileOf, next + 1)
  {
  }

  /** Opening a file at the head of its entry's list keeps the invariant. */
  lemma OpenFileRegistered(entries: seq<Handle>, entryOf: map<Handle, Entry>, files: map<Handle, seq<Handle>>,
                           fileOf: map<Handle, FileState>, next: nat, e: Handle, cluster: U32)
    requires Registered(entries, entryOf, files, fileOf, next) && e in entryOf
    ensures Registered(entries, entryOf, files[e := [next] + files[e]],
                       fileOf[next := FileState(e, 0, cluster)], next + 1)
  {
    forall g | g in files[e] ensures g < next {
      assert g in fileOf;
    }
    NoDupCons(next, files[e]);
    var files', fileOf' := files[e := [next] + files[e]], fileOf[next := FileState(e, 0, cluster)];
    forall h, f | h in files' && f in files'[h] ensures f in fileOf' && fileOf'[f].owner == h {
      if h == e && f == next {
      } else {
        assert f in files[h];
        assert f in fileOf && f < next;
      }
    }
    forall h | h in files' ensures NoDup(files'[h]) {
    }
  }

  /** Closing a file, wherever it is in its entry's list, keeps the invariant. */
  lemma CloseFileRegistered(entries: seq<Handle>, entryOf: map<Handle, Entry>, files: map<Handle, seq<Handle>>,
                            fileOf: map<Handle, FileState>, next: nat, f: Handle)
    requires Registered(entries, entryOf, files, fileOf, next) && f in fileOf
    ensures var o := fileOf[f].owner;
      Registered(entries, entryOf, files[o := Remove(files[o], f)], fileOf - {f}, next)
  {
    var o := fileOf[f].owner;
    RemoveNoDup(files[o], f);
    CloseFileLists(files, fileOf, f);
    CloseFileOwners(entryOf, files, fileOf, f);
  }

  lemma CloseFileLists(files: map<Handle, seq<Handle>>, fileOf: map<Handle, FileState>, f: Handle)
    requires ListsNoDup(files) && ListedOwned(files, fileOf) && f in fileOf && fileOf[f].owner in files
    ensures var o := fileOf[f].owner;
      ListsNoDup(files[o := Remove(files[o], f)]) && ListedOwned(files[o := Remove(files[o], f)], fileOf - {f})
  {
    var o := fileOf[f].owner;
    RemoveNoDup(files[o], f);
    var files', fileOf' := files[o := Remove(files[o], f)], fileOf - {f};
    forall h, g | h in files' && g in files'[h] ensures g in fileOf' && fileOf'[g].owner == h {
      if h == o {
        assert g in files[o] && g != f;
      } else {
        assert g in files[h];
        assert g != f;
      }
    }
  }

  lemma CloseFileOwners(entryOf: map<Handle, Entry>, files: map<Handle, seq<Handle>>, fileOf: map<Handle, FileState>, f: Handle)
    requires entryOf.Keys == files.Keys && OwnedListed(entryOf, files, fileOf) && f in fileOf
    requires NoDup(files[fileOf[f].owner])
    ensures var o := fileOf[f].owner;
      OwnedListed(entryOf, files[o := Remove(files[o], f)], fileOf - {f})
  {
    var o := fileOf[f].owner;
    RemoveNoDup(files[o], f);
    var files', fileOf' := files[o := Remove(files[o], f)], fileOf - {f};
    forall g | g in fileOf'
      ensures fileOf'[g].owner in files' && g in files'[fileOf'[g].owner]
      ensures fileOf'[g].position <= entryOf[fileOf'[g].owner].size
    {
      var og := fileOf[g].owner;
      assert g != f && g in files[og];
      if og == o {
        assert g in Remove(files[o], f);
      }
    }
  }

  /** Unlinking an entry whose files are all closed keeps the invariant. */
  lemma CloseEntryRegistered(entries: seq<Handle>, entryOf: map<Handle, Entry>, files: map<Handle, seq<Handle>>,
                             fileOf: map<Handle, FileState>, next: nat, h: Handle)
    requires Registered(entries, entryOf, files, fileOf, next) && h in entryOf && files[h] == []
    ensures Registered(Remove(entries, h), entryOf - {h}, files - {h}, fileOf, next)
  {
    RemoveNoDup(entries, h);
    forall f | f in fileOf ensures fileOf[f].owner != h {
      assert f in files[fileOf[f].owner];
    }
  }

  /** Moving a file within its entry keeps the invariant. */
  lemma MoveRegistered(entries: seq<Handle>, entryOf: map<Handle, Entry>, files: map<Handle, seq<Handle>>,
                       fileOf: map<Handle, FileState>, next: nat, f: Handle, position: U32, cluster: U32)
    requires Registered(entries, entryOf, files, fileOf, next) && f in fileOf
    requires position <= entryOf[fileOf[f].owner].size
    ensures Registered(entries, entryOf, files, fileOf[f := FileState(fileOf[f].owner, position, cluster)], next)
  {
  }

  /** An open file's owner is open, and the file's position lies within it. */
  lemma FileOwned(entries: seq<Handle>, entryOf: map<Handle, Entry>, files: map<Handle, seq<Handle>>,
                  fileOf: map<Handle, FileState>, next: nat, f: Handle)
    requires Registered(entries, entryOf, files, fileOf, next) && f in fileOf
    ensures fileOf[f].owner in entryOf && fileOf[f].position <= entryOf[fileOf[f].owner].size
  {
  }

  /** With no entry open, no file is open either. */
  lemma NothingOpen(entryOf: map<Handle, Entry>, files: map<Handle, seq<Handle>>,
                    fileOf: map<Handle, FileState>, next: nat)
    requires Registered([], entryOf, files, fileOf, next)
    ensures entryOf == map[] && files == map[] && fileOf == map[]
  {
    assert entryOf.Keys == {} && files.Keys == {};
    forall f | f in fileOf ensures fileOf[f].owner in files {
    }
    assert fileOf.Keys == {};
  }

  /** The registries as a value. */
  datatype Tables = Tables(entries: seq<Handle>, entryOf: map<Handle, Entry>, files: map<Handle, seq<Handle>>,
                           fileOf: map<Handle, FileState>, next: nat)

  /** The registries after opening the entries `es` in order, each at the
      head of the list, with a fresh handle and no open files. */
  function Opened(t: Tables, es: seq<Entry>): Tables
    decreases |es|
  {
    if es == [] then t
    else
      var p := Opened(t, es[..|es| - 1]);
      Tables([p.next] + p.entries, p.entryOf[p.next := es[|es| - 1]], p.files[p.next := []], p.fileOf, p.next + 1)
  }

  /** Opening `es` takes the next |es| handles, puts them at the head of the
      list newest first, maps them to `es`, and leaves the entries already
      open and all files as they were. */
  lemma {:induction false} OpenedFacts(t: Tables, es: seq<Entry>)
    requires Allocated(t.entryOf, t.fileOf, t.next)
    ensures Opened(t, es).next == t.next + |es| && Opened(t, es).fileOf == t.fileOf
    ensures |Opened(t, es).entries| == |es| + |t.entries| && Opened(t, es).entries[|es|..] == t.entries
    ensures forall i :: 0 <= i < |es| ==> Opened(t, es).entries[i] == t.next + |es| - 1 - i
    ensures forall h :: t.next <= h < t.next + |es| ==> h in Opened(t, es).entryOf && Opened(t, es).entryOf[h] == es[h - t.next]
    ensures forall h :: h in t.entryOf ==> h in Opened(t, es).entryOf && Opened(t, es).entryOf[h] == t.entryOf[h]
    ensures forall h :: h in Opened(t, es).entryOf ==> h in t.entryOf || t.next <= h < t.next + |es|
    decreases |es|
  {
    if es != [] {
      var init := es[..|es| - 1];
      OpenedFacts(t, init);
      var p := Opened(t, init);
      var u := Opened(t, es);
      assert u.entries == [p.next] + p.entries;
      assert u.entryOf == p.entryOf[p.next := es[|es| - 1]];
      assert u.entries[|es|..] == p.entries[|init|..];
      forall h | t.next <= h < t.next + |es|
        ensures h in Opened(t, es).entryOf && Opened(t, es).entryOf[h] == es[h - t.next]
      {
        if h < p.next {
          assert init[h - t.next] == es[h - t.next];
        }
      }
      forall i | 0 <= i < |es| ensures u.entries[i] == t.next + |es| - 1 - i {
        if i > 0 {
          assert u.entries[i] == p.entries[i - 1];
        }
      }
      forall h | h in t.entryOf ensures h in u.entryOf && u.entryOf[h] == t.entryOf[h] {
        assert h < t.next;
      }
    }
  }

  /** The list holds the handles opened for `es` newest first. */
  lemma OpenedListAt(t: Tables, es: seq<Entry>, i: nat)
    requires Allocated(t.entryOf, t.fileOf, t.next) && i < |es|
    ensures i < |Opened(t, es).entries| && Opened(t, es).entries[i] == t.next + |es| - 1 - i
  {
    OpenedFacts(t, es);
  }

  /** The entry opened `i`-th in `es` has handle `t.next + i`. */
  lemma OpenedAt(t0: Tables, es: seq<Entry>, i: nat, h: Handle)
    requires Allocated(t0.entryOf, t0.fileOf, t0.next) && i < |es| && h == t0.next + i
    ensures h in Opened(t0, es).entryOf && Opened(t0, es).entryOf[h] == es[i]
  {
    OpenedFacts(t0, es);
  }

  lemma {:induction false} OpenedSize(t: Tables, es: seq<Entry>)
    ensures |Opened(t, es).entries| == |es| + |t.entries| && Opened(t, es).next == t.next + |es|
    decreases |es|
  {
    if es != [] {
      OpenedSize(t, es[..|es| - 1]);
    }
  }

  /** Opening entries keeps the registries' invariant. */
  lemma {:induction false} OpenedRegistered(t: Tables, es: seq<Entry>)
    requires Registered(t.entries, t.entryOf, t.files, t.fileOf, t.next)
    ensures var u := Opened(t, es); Registered(u.entries, u.entryOf, u.files, u.fileOf, u.next)
    decreases |es|
  {
    if es != [] {
      var p := Opened(t, es[..|es| - 1]);
      OpenedRegistered(t, es[..|es| - 1]);
      PushRegistered(p.entries, p.entryOf, p.files, p.fileOf, p.next, es[|es| - 1]);
    }
  }

  lemma OpenedSnoc(t: Tables, es: seq<Entry>, e: Entry)
    ensures var p := Opened(t, es);
      Opened(t, es + [e]) ==
        Tables([p.next] + p.entries, p.entryOf[p.next := e], p.files[p.next := []], p.fileOf, p.next + 1)
  {
    assert (es + [e])[..|es|] == es;
  }

  /** Opening entries gives each new one an empty file list and keeps the
      file lists already there. */
  lemma {:induction false} OpenedFiles(t: Tables, es: seq<Entry>)
    ensures forall h :: t.next <= h < t.next + |es| ==> h in Opened(t, es).files && Opened(t, es).files[h] == []
    ensures forall h :: h in t.files && h < t.next ==> h in Opened(t, es).files && Opened(t, es).files[h] == t.files[h]
    decreases |es|
  {
    if es != [] {
      OpenedFiles(t, es[..|es| - 1]);
      OpenedSize(t, es[..|es| - 1]);
    }
  }

  /** `t` follows from `t0` by opening entries and closing some of those:
      what was open stays open, unchanged, at the tail of the list; every
      newer entry has a fresh handle and no open file. */
  predicate Extends(t0: Tables, t: Tables)
  {
    |t0.entries| <= |t.entries| && t.entries[|t.entries| - |t0.entries|..] == t0.entries &&
    (forall h :: h in t0.entryOf ==> h in t.entryOf && t.entryOf[h] == t0.entryOf[h]) &&
    (forall h :: h in t0.files ==> h in t.files && t.files[h] == t0.files[h]) &&
    (forall h :: h in t.entryOf && h !in t0.entryOf ==> t0.next <= h && h in t.files && t.files[h] == []) &&
    t.fileOf == t0.fileOf && t0.next <= t.next
  }

  predicate TablesRegistered(t: Tables)
  {
    Registered(t.entries, t.entryOf, t.files, t.fileOf, t.next)
  }

  lemma ExtendsTrans(a: Tables, b: Tables, c: Tables)
    requires Extends(a, b) && Extends(b, c)
    ensures Extends(a, c)
  {
    var ce := c.entries[|c.entries| - |b.entries|..];
    assert c.entries[|c.entries| - |a.entries|..] == ce[|ce| - |a.entries|..];
  }

  /** Opening entries extends the registries. */
  lemma OpenedExtends(t: Tables, es: seq<Entry>)
    requires TablesRegistered(t)
    ensures Extends(t, Opened(t, es))
  {
    OpenedFacts(t, es);
    OpenedFiles(t, es);
    forall h | h in t.files ensures h < t.next {
      assert h in t.entryOf;
    }
  }

  /** Unlinking a list element that sits in the front part leaves the back. */
  lemma {:induction false} RemovePrefix<T>(p: seq<T>, s: seq<T>, x: T)
    requires x in p
    ensures Remove(p + s, x) == Remove(p, x) + s
  {
    assert (p + s)[0] == p[0] && (p + s)[1..] == p[1..] + s;
    if p[0] != x {
      RemovePrefix(p[1..], s, x);
    }
  }

  /** Closing an entry opened since `t0` (it has no files) still extends
      `t0`, and shortens the list by one without moving its head unless that
      is the entry closed. */
  lemma ExtendsClose(t0: Tables, t: Tables, h: Handle)
    requires TablesRegistered(t0) && TablesRegistered(t) && Extends(t0, t)
    requires h in t.entryOf && h !in t0.entryOf
    ensures t.files[h] == [] && h in t.entries
    ensures var u := Tables(Remove(t.entries, h), t.entryOf - {h}, t.files - {h}, t.fileOf, t.next);
      Extends(t0, u) && |u.entries| + 1 == |t.entries| &&
      (t.entries[0] != h ==> u.entries[0] == t.entries[0])
  {
    Listing(t0, h);
    Listing(t, h);
    RemoveFresh(t.entries, t0.entries, h);
    var u := Tables(Remove(t.entries, h), t.entryOf - {h}, t.files - {h}, t.fileOf, t.next);
    ExtendsDrop(t0, t, h, u);
  }

  /** What the invariant says about one handle's place in the lists. */
  lemma Listing(t: Tables, h: Handle)
    requires TablesRegistered(t)
    ensures NoDup(t.entries)
    ensures h in t.entries <==> h in t.entryOf
    ensures h in t.files <==> h in t.entryOf
  {
  }

  /** Dropping a handle that `t0` does not know, from a list whose back part
      is still `t0`'s, keeps the extension. */
  lemma ExtendsDrop(t0: Tables, t: Tables, h: Handle, u: Tables)
    requires Extends(t0, t) && h !in t0.entryOf && h !in t0.files
    requires u.entryOf == t.entryOf - {h} && u.files == t.files - {h} && u.fileOf == t.fileOf && u.next == t.next
    requires |t0.entries| <= |u.entries| && u.entries[|u.entries| - |t0.entries|..] == t0.entries
    ensures Extends(t0, u)
  {
  }

  /** Unlinking from a list an element that is not in its back part `s`
      leaves that back part, and the head unless it is the element. */
  lemma RemoveFresh<T>(es: seq<T>, s: seq<T>, x: T)
    requires NoDup(es) && |s| <= |es| && es[|es| - |s|..] == s && x in es && x !in s
    ensures var r := Remove(es, x);
      |r| + 1 == |es| && |s| <= |r| && r[|r| - |s|..] == s && (es[0] != x ==> r[0] == es[0])
  {
    var p := es[..|es| - |s|];
    assert es == p + s;
    RemovePrefix(p, s, x);
    RemoveNoDup(es, x);
    var r := Remove(es, x);
    assert r[|r| - |s|..] == s;
    if es[0] != x {
      assert r == [es[0]] + Remove(es[1..], x);
    }
  }

  /** An extension that is one entry longer is the old registries with that
      one entry added at the head, with no files. */
  lemma ExtendsByOne(t0: Tables, t: Tables)
    requires TablesRegistered(t0) && TablesRegistered(t) && Extends(t0, t)
    requires |t.entries| == |t0.entries| + 1
    ensures var h := t.entries[0];
      h !in t0.entryOf && t.entries == [h] + t0.entries &&
      t.entryOf == t0.entryOf[h := t.entryOf[h]] && t.files == t0.files[h := []] && t.fileOf == t0.fileOf
  {
    var h := t.entries[0];
    SuffixByOne(t.entries, t0.entries);
    ConsKeys(h, t0.entries, t0.entryOf, t.entryOf);
    FileKeys(t0);
    FileKeys(t);
    MapByOne(t0.entryOf, t.entryOf, h);
    MapByOne(t0.files, t.files, h);
  }

  lemma SuffixByOne<T>(es: seq<T>, s: seq<T>)
    requires |es| == |s| + 1 && es[|es| - |s|..] == s
    ensures es == [es[0]] + s
  {
  }

  /** The keys of an entry map listed by `[h] + es`: those listed by `es`
      and `h`, which is not among them. */
  lemma ConsKeys(h: Handle, es: seq<Handle>, m0: map<Handle, Entry>, m: map<Handle, Entry>)
    requires EntryList(es, m0) && EntryList([h] + es, m)
    ensures h !in m0 && h in m
    ensures forall k :: k in m ==> k == h || k in m0
  {
    assert ([h] + es)[1..] == es;
    forall k | k in m ensures k == h || k in m0 {
      assert k in [h] + es;
    }
  }

  lemma FileKeys(t: Tables)
    requires TablesRegistered(t)
    ensures t.files.Keys == t.entryOf.Keys
  {
  }

  lemma MapByOne<V>(m0: map<Handle, V>, m: map<Handle, V>, h: Handle)
    requires forall k :: k in m0 ==> k in m && m[k] == m0[k]
    requires forall k :: k in m ==> k == h || k in m0
    requires h in m
    ensures m == m0[h := m[h]]
  {
  }

  /** The head of an entry's file list is an open file of that entry, and
      unlinking it leaves the rest of the list. */
  lemma FirstFile(entries: seq<Handle>, entryOf: map<Handle, Entry>, files: map<Handle, seq<Handle>>,
                  fileOf: map<Handle, FileState>, next: nat, h: Handle)
    requires Registered(entries, entryOf, files, fileOf, next) && h in files && files[h] != []
    ensures files[h][0] in fileOf && fileOf[files[h][0]].owner == h
    ensures Remove(files[h], files[h][0]) == files[h][1..]
  {
    assert files[h][0] in files[h];
  }

  lemma MinusStep<K, V>(m: map<K, V>, a: set<K>, x: K)
    ensures (m - a) - {x} == m - (a + {x})
  {
  }

  lemma ToSetStep<T>(s: seq<T>, k: nat, n: nat)
    requires k < |s| && n == k + 1
    ensures ToSet(s[..n]) == ToSet(s[..k]) + {s[k]}
  {
    assert s[..n] == s[..k] + [s[k]];
  }

  /** Forgetting a key forgets any update made to it. */
  lemma MinusUpdated<V>(m: map<Handle, V>, h: Handle, v: V)
    ensures m[h := v] - {h} == m - {h}
  {
  }

  /** The file lists after closing the first remaining file of `h`. */
  lemma FilesAfterClose(m0: map<Handle, seq<Handle>>, files: seq<Handle>, h: Handle, k0: nat, k: nat,
                        before: map<Handle, seq<Handle>>, after: map<Handle, seq<Handle>>, f: Handle)
    requires k0 < |files| && k == k0 + 1
    requires before == m0[h := files[k0..]] && f == before[h][0]
    requires Remove(before[h], f) == before[h][1..] && after == before[h := Remove(before[h], f)]
    ensures after == m0[h := files[k..]]
  {
    assert files[k0..][1..] == files[k..];
  }

  /** The open files after closing the first remaining file of an entry. */
  lemma FileOfAfterClose(m0: map<Handle, FileState>, files: seq<Handle>, k0: nat, k: nat,
                         before: map<Handle, FileState>, after: map<Handle, FileState>, f: Handle)
    requires k0 < |files| && k == k0 + 1 && f == files[k0]
    requires before == m0 - ToSet(files[..k0]) && after == before - {f}
    ensures after == m0 - ToSet(files[..k])
  {
    ToSetStep(files, k0, k);
    MinusStep(m0, ToSet(files[..k0]), f);
  }

  class Image {
    /** The content of the image file. */
    const bytes: seq<Byte>
    /** What `openImage` derived from the boot sector. */
    const geometry: Geometry

    /** Open entries, the most recently opened first. */
    var openedEntries: seq<Handle>
    var entryOf: map<Handle, Entry>
    /** For each open entry its open files, the most recently opened first. */
    var openedFiles: map<Handle, seq<Handle>>
    var fileOf: map<Handle, FileState>
    /** Handles are never reused while the image is open (fresh allocations). */
    var nextHandle: nat

    /** The registries as a value. */
    ghost function Snapshot(): Tables
      reads this
    {
      Tables(openedEntries, entryOf, openedFiles, fileOf, nextHandle)
    }

    /** The registries agree (see `Registered`). */
    ghost predicate Valid()
      reads this
    {
      Registered(openedEntries, entryOf, openedFiles, fileOf, nextHandle)
    }

    /** `openImage`: the geometry comes from the boot sector; nothing is open. */
    constructor (image: seq<Byte>)
      requires Openable(image)
      ensures bytes == image && geometry == OpenImage(image)
      ensures openedEntries == [] && entryOf == map[] && openedFiles == map[] && fileOf == map[]
      ensures Valid()
    {
      bytes := image;
      geometry := OpenImage(image);
      openedEntries := [];
      entryOf := map[];
      openedFiles := map[];
      fileOf := map[];
      nextHandle := 0;
    }

    /** Registers a new entry at the head of the open-entry list, with no
        open files. */
    method Push(e: Entry) returns (h: Handle)
      requires Valid()
      modifies this
      ensures Valid()
      ensures h == old(nextHandle) && h !in old(entryOf) && h !in old(fileOf)
      ensures openedEntries == [h] + old(openedEntries)
      ensures entryOf == old(entryOf)[h := e] && openedFiles == old(openedFiles)[h := []]
      ensures fileOf == old(fileOf) && nextHandle == old(nextHandle) + 1
    {
      h := nextHandle;
      PushRegistered(openedEntries, entryOf, openedFiles, fileOf, nextHandle, e);
      openedEntries, entryOf, openedFiles, nextHandle :=
        [h] + openedEntries, entryOf[h := e], openedFiles[h := []], nextHandle + 1;
    }

    /** `__openEntry`: opens the entry a record describes, under `name`. */
    method OpenEntry(name: seq<Text.WChar>, r: Record) returns (h: Handle)
      requires Valid()
      modifies this
      ensures Valid()
      ensures h == old(nextHandle) && h !in old(entryOf) && h !in old(fileOf)
      ensures openedEntries == [h] + old(openedEntries)
      ensures entryOf == old(entryOf)[h := DecodeEntry(name, r)] && openedFiles == old(openedFiles)[h := []]
      ensures fileOf == old(fileOf) && nextHandle == old(nextHandle) + 1
    {
      h := Push(DecodeEntry(name, r));
    }

    /** `copyEntry`: opens a second entry with the same fields as `base` and no
        open files. */
    method CopyEntry(base: Handle) returns (h: Handle)
      requires Valid() && base in entryOf
      modifies this
      ensures Valid()
      ensures h == old(nextHandle) && h !in old(entryOf) && h !in old(fileOf)
      ensures openedEntries == [h] + old(openedEntries)
      ensures entryOf == old(entryOf)[h := old(entryOf[base])] && openedFiles == old(openedFiles)[h := []]
      ensures fileOf == old(fileOf) && nextHandle == old(nextHandle) + 1
    {
      h := Push(entryOf[base]);
    }

    /** `openFile`: a file at position 0 in the entry's first cluster, at the
        head of the entry's open files; fails unless the entry is a file. */
    method OpenFile(e: Handle) returns (r: Outcome<Handle>)
      requires Valid() && e in entryOf
      modifies this
      ensures Valid()
      ensures !old(entryOf[e].file) ==> r == Failure(NotFile) && unchanged(this)
      ensures old(entryOf[e].file) ==>
        r == Success(old(nextHandle)) && old(nextHandle) !in old(fileOf) &&
        openedEntries == old(openedEntries) && entryOf == old(entryOf) &&
        openedFiles == old(openedFiles)[e := [r.value] + old(openedFiles[e])] &&
        fileOf == old(fileOf)[r.value := FileState(e, 0, old(entryOf[e].cluster))] &&
        nextHandle == old(nextHandle) + 1
    {
      if !entryOf[e].file {
        return Failure(NotFile);
      }
      var f := nextHandle;
      OpenFileRegistered(openedEntries, entryOf, openedFiles, fileOf, nextHandle, e, entryOf[e].cluster);
      openedFiles, fileOf, nextHandle :=
        openedFiles[e := [f] + openedFiles[e]], fileOf[f := FileState(e, 0, entryOf[e].cluster)], nextHandle + 1;
      r := Success(f);
    }

    /** Moves an open file to `position`, in `cluster`: the update that ends
        `readFile`. */
    method MoveFile(f: Handle, position: U32, cluster: U32)
      requires Valid() && f in fileOf && fileOf[f].owner in entryOf && position <= entryOf[fileOf[f].owner].size
      modifies this
      ensures Valid()
      ensures fileOf == old(fileOf)[f := FileState(old(fileOf[f].owner), position, cluster)]
      ensures openedEntries == old(openedEntries) && entryOf == old(entryOf) && openedFiles == old(openedFiles)
      ensures nextHandle == old(nextHandle)
    {
      MoveRegistered(openedEntries, entryOf, openedFiles, fileOf, nextHandle, f, position, cluster);
      fileOf := fileOf[f := FileState(fileOf[f].owner, position, cluster)];
    }

    /** `closeFile`: unlinks the file from its entry's list and forgets it. */
    method CloseFile(f: Handle)
      requires Valid() && f in fileOf
      modifies this
      ensures Valid()
      ensures var o := old(fileOf[f].owner);
        openedFiles == old(openedFiles)[o := Remove(old(openedFiles[o]), f)] &&
        fileOf == old(fileOf) - {f}
      ensures openedEntries == old(openedEntries) && entryOf == old(entryOf) && nextHandle == old(nextHandle)
    {
      var o := fileOf[f].owner;
      var list := openedFiles[o];
      // walk the list to the file (the previous-link search of fat.c)
      var i := 0;
      while list[i] != f
        invariant 0 <= i < |list| && f in list[i..]
        decreases |list| - i
      {
        i := i + 1;
      }
      RemoveAt(list, i);
      CloseFileRegistered(openedEntries, entryOf, openedFiles, fileOf, nextHandle, f);
      openedFiles, fileOf := openedFiles[o := list[..i] + list[i + 1..]], fileOf - {f};
    }

    /** The loop of `closeEntry` over the entry's open files, closing each
        in list order. */
    method CloseFilesOf(h: Handle)
      requires Valid() && h in entryOf
      modifies this
      ensures Valid()
      ensures openedFiles == old(openedFiles)[h := []] && fileOf == old(fileOf) - ToSet(old(openedFiles[h]))
      ensures openedEntries == old(openedEntries) && entryOf == old(entryOf) && nextHandle == old(nextHandle)
    {
      ghost var files := openedFiles[h];
      ghost var k := 0;
      while openedFiles[h] != []
        invariant Valid() && h in entryOf
        invariant openedEntries == old(openedEntries) && entryOf == old(entryOf) && nextHandle == old(nextHandle)
        invariant 0 <= k <= |files| && openedFiles == old(openedFiles)[h := files[k..]]
        invariant fileOf == old(fileOf) - ToSet(files[..k])
        decreases |files| - k
      {
        var f := openedFiles[h][0];
        FirstFile(openedEntries, entryOf, openedFiles, fileOf, nextHandle, h);
        ghost var before, beforeOf := openedFiles, fileOf;
        CloseFile(f);
        ghost var k0 := k;
        k := k + 1;
        FilesAfterClose(old(openedFiles), files, h, k0, k, before, openedFiles, f);
        FileOfAfterClose(old(fileOf), files, k0, k, beforeOf, fileOf, f);
      }
      assert files[..k] == files;
    }

    /** `closeEntry`: closes the entry's files, then unlinks it from the image's
        list and forgets it. (fat.c unlinks first; the resulting state is
        the same.) */
    method CloseEntry(h: Handle)
      requires Valid() && h in entryOf
      modifies this
      ensures Valid()
      ensures openedEntries == Remove(old(openedEntries), h)
      ensures entryOf == old(entryOf) - {h} && openedFiles == old(openedFiles) - {h}
      ensures fileOf == old(fileOf) - ToSet(old(openedFiles[h]))
      ensures nextHandle == old(nextHandle)
    {
      CloseFilesOf(h);
      MinusUpdated(old(openedFiles), h, []);
      var list := openedEntries;
      var i := 0;
      while list[i] != h
        invariant 0 <= i < |list| && h in list[i..]
        decreases |list| - i
      {
        i := i + 1;
      }
      RemoveAt(list, i);
      CloseEntryRegistered(openedEntries, entryOf, openedFiles, fileOf, nextHandle, h);
      openedEntries, entryOf, openedFiles := list[..i] + list[i + 1..], entryOf - {h}, openedFiles - {h};
    }

    /** `closeImage`: closes every open entry, head first; nothing stays open. */
    method CloseImage()
      requires Valid()
      modifies this
      ensures Valid()
      ensures openedEntries == [] && entryOf == map[] && openedFiles == map[] && fileOf == map[]
    {
      while openedEntries != []
        invariant Valid()
        decreases |openedEntries|
      {
        RemoveNoDup(openedEntries, openedEntries[0]);
        CloseEntry(openedEntries[0]);
      }
      NothingOpen(entryOf, openedFiles, fileOf, nextHandle);
    }
  }
}
