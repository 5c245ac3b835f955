/** Directory entries: decoding one 32-byte record (`__openEntry`), building
    names from short-name and long-name records, and the record-by-record
    scan of `getChildren` as a fold over the records it reads. */
module Directory {
  import opened Bytes
  import opened Text
  import opened Datetime
  import opened Geometry

  const SKIPPED: Byte := 0x00
  const DELETED: Byte := 0xE5
  const ESCAPE_DELETED: Byte := 0x05
  const FIRST_ENTRY_OF_LONG_NAME: Byte := 0x40

  const READ_ONLY: Byte := 0x01
  const HIDDEN: Byte := 0x02
  const SYSTEM: Byte := 0x04
  const VOLUME_ID: Byte := 0x08
  const DIRECTORY: Byte := 0x10
  const ARCHIVE: Byte := 0x20
  const LONG_NAME: Byte := 0x0F

  /** Capacity, in wide characters, of the buffer a name is accumulated in. */
  const MAX_NAME_LENGTH: nat := 256
  /** Name characters held by one long-name record. */
  const FRAGMENT_LENGTH: nat := 13

  /** One directory record as read from the image. */
  type Record = r: seq<Byte> | |r| == 32 witness seq(32, _ => 0)

  /** An open entry's decoded fields (the `Entry` struct without its links,
      which the registry keeps). */
  datatype Entry = Entry(
    name: seq<WChar>,
    readonly: bool, hidden: bool, system: bool, volume: bool, directory: bool, file: bool,
    createdAt: Datetime, modifiedAt: Datetime, accessedAt: Datetime,
    size: U32, cluster: U32)

  /** `(attr & flag) != 0` for a single-bit flag. */
  predicate HasAttribute(attr: Byte, flag: Byte)
    requires flag in {READ_ONLY, HIDDEN, SYSTEM, VOLUME_ID, DIRECTORY, ARCHIVE, FIRST_ENTRY_OF_LONG_NAME}
  {
    (attr / flag) % 2 == 1
  }

  function Bit(b: bool, flag: nat): nat
  {
    if b then flag else 0
  }

  /** The six attribute flags together are exactly the attribute byte's low
      six bits. */
  lemma AttributeBits(name: seq<WChar>, r: Record)
    ensures var e := DecodeEntry(name, r);
      r[11] % 0x40 == Bit(e.readonly, 1) + Bit(e.hidden, 2) + Bit(e.system, 4) +
                      Bit(e.volume, 8) + Bit(e.directory, 0x10) + Bit(e.file, 0x20)
  {
    FlagBits(r[11]);
  }

  lemma FlagBits(a: Byte)
    ensures a % 0x40 == Bit(HasAttribute(a, READ_ONLY), 1) + Bit(HasAttribute(a, HIDDEN), 2) +
      Bit(HasAttribute(a, SYSTEM), 4) + Bit(HasAttribute(a, VOLUME_ID), 8) +
      Bit(HasAttribute(a, DIRECTORY), 0x10) + Bit(HasAttribute(a, ARCHIVE), 0x20)
  {
    assert a % 1 == 0;
    ModSplit(a, 1);
    ModSplit(a, 2);
    ModSplit(a, 4);
    ModSplit(a, 8);
    ModSplit(a, 16);
    ModSplit(a, 32);
  }

  /** The remainder modulo `2 * d` adds the bit of weight `d` to the remainder
      modulo `d`. */
  lemma ModSplit(a: nat, d: int)
    requires d > 0
    ensures a % (2 * d) == a % d + Bit((a / d) % 2 == 1, d)
  {
    var q, r := a / d, a % d;
    assert a == (q / 2) * (2 * d) + ((q % 2) * d + r);
    DivMod(a, 2 * d, q / 2, (q % 2) * d + r);
  }

  /** `__openEntry`: the entry a record describes, under the given name. The
      first cluster is the high word at 20 shifted above the low word at 26. */
  function DecodeEntry(name: seq<WChar>, r: Record): (e: Entry)
  {
    var attr := r[11];
    Entry(name,
      HasAttribute(attr, READ_ONLY), HasAttribute(attr, HIDDEN), HasAttribute(attr, SYSTEM),
      HasAttribute(attr, VOLUME_ID), HasAttribute(attr, DIRECTORY), HasAttribute(attr, ARCHIVE),
      CreateDatetime(Get16(r, 16), Get16(r, 14), Get8(r, 13)),
      CreateDatetime(Get16(r, 24), Get16(r, 22), 0),
      CreateDatetime(Get16(r, 18), 0, 0),
      Get32(r, 28),
      Get16(r, 20) * 0x1_0000 + Get16(r, 26))
  }

  /** The record `openEntry` builds for the root: only the directory flag and
      the root cluster, split into its high and low words. */
  function RootRecord(rootCluster: U32): (r: Record)
  {
    var c := rootCluster;
    seq(32, i requires 0 <= i < 32 =>
      if i == 11 then DIRECTORY
      else if i == 20 then (c / 0x1_0000) % 0x100
      else if i == 21 then (c / 0x100_0000) % 0x100
      else if i == 26 then c % 0x100
      else if i == 27 then (c / 0x100) % 0x100
      else 0)
  }

  /** `getIsRoot`: an entry is the root when its cluster is the root cluster. */
  predicate IsRoot(g: Geometry, e: Entry)
  {
    e.cluster == g.rootCluster
  }

  /** The root entry `openEntry` opens. */
  function RootEntry(g: Geometry): Entry
  {
    DecodeEntry([], RootRecord(g.rootCluster))
  }

  /** The root entry carries back the root cluster it was built from: it is an
      (empty-named, zero-sized) directory, not a file, and it is the root. */
  lemma RootEntryDecodes(g: Geometry)
    ensures var e := RootEntry(g);
      e.cluster == g.rootCluster && IsRoot(g, e) && e.name == [] &&
      e.directory && !e.file && !e.readonly && !e.hidden && !e.system && !e.volume &&
      e.size == 0
  {
    var c := g.rootCluster as int;
    var r := RootRecord(g.rootCluster);
    assert r[20] == (c / 0x1_0000) % 0x100 && r[21] == (c / 0x100_0000) % 0x100;
    assert r[26] == c % 0x100 && r[27] == (c / 0x100) % 0x100;
    WordsJoin(c);
    assert r[11] == DIRECTORY;
  }

  /** The bytes 26, 27, 20 and 21 of the root record put back together give
      the cluster. */
  lemma WordsJoin(c: int)
    requires 0 <= c < 0x1_0000_0000
    ensures ((c / 0x1_0000) % 0x100 + 0x100 * ((c / 0x100_0000) % 0x100)) * 0x1_0000 +
      (c % 0x100 + 0x100 * ((c / 0x100) % 0x100)) == c
  {
    var hi, lo := c / 0x1_0000, c % 0x1_0000;
    DivMod(c, 0x1_0000, hi, lo);
    DivMod(hi, 0x100, hi / 0x100, hi % 0x100);
    DivMod(lo, 0x100, lo / 0x100, lo % 0x100);
    DivMod(c, 0x100_0000, hi / 0x100, hi % 0x100 * 0x1_0000 + lo);
    DivMod(c, 0x100, hi * 0x100 + lo / 0x100, lo % 0x100);
    DivMod(c / 0x1_0000, 0x100, hi / 0x100, hi % 0x100);
    DivMod(c / 0x100, 0x100, (c / 0x100) / 0x100, lo / 0x100);
  }

  /** The escape of `getChildren`: a first byte 0x05 stands for 0xE5. Applied
      to every record that is not deleted, long-name records included. */
  function Unescape(r: Record): (b: Record)
  {
    if r[0] == ESCAPE_DELETED then r[0 := DELETED] else r
  }

  /** The 13 characters of a long-name record in the order `subName` holds
      them: the last character first. */
  function FragmentUnits(b: Record): (u: seq<WChar>)
    ensures |u| == FRAGMENT_LENGTH
  {
    [Get16(b, 30), Get16(b, 28),
     Get16(b, 24), Get16(b, 22), Get16(b, 20), Get16(b, 18), Get16(b, 16), Get16(b, 14),
     Get16(b, 9), Get16(b, 7), Get16(b, 5), Get16(b, 3), Get16(b, 1)]
  }

  /** The ordinal byte of the record marks the first record of a long name. */
  predicate IsFirstFragment(b: Record)
  {
    HasAttribute(b[0], FIRST_ENTRY_OF_LONG_NAME)
  }

  /** Padding of the first long-name record, as intended: the units before the
      first NUL of the reversed fragment (the 0xFFFF filler) and the NUL
      itself become spaces; a fragment without a NUL has no filler and is
      kept. */
  function PadFirst(u: seq<WChar>): (p: seq<WChar>)
  {
    if NUL in u then
      var i := |UntilNul(u)|;
      Spaces(i + 1) + u[i + 1..]
    else u
  }

  /** Padding of the first long-name record as fat.c writes it: with no NUL
      among the 13 units, all of them become spaces, and so does the
      terminator after them; what `wcscat` then appends past the 13 units is
      undefined (see `Terminated`). */
  function PadFirstAsWritten(u: seq<WChar>): (p: seq<WChar>)
  {
    if NUL in u then PadFirst(u) else Spaces(|u|)
  }

  /** What one long-name record adds to the accumulated (reversed) name. */
  function Fragment(b: Record): (f: seq<WChar>)
    ensures |f| <= FRAGMENT_LENGTH && NUL !in f
  {
    var u := FragmentUnits(b);
    UntilNul(if IsFirstFragment(b) then PadFirst(u) else u)
  }

  /** The same with fat.c's padding, for comparison. */
  function FragmentAsWritten(b: Record): (f: seq<WChar>)
    ensures |f| <= FRAGMENT_LENGTH && NUL !in f
  {
    var u := FragmentUnits(b);
    UntilNul(if IsFirstFragment(b) then PadFirstAsWritten(u) else u)
  }

  /** The bytes of a short-name field as wide characters. */
  function Widen(bs: seq<Byte>): (w: seq<WChar>)
    ensures |w| == |bs| && forall i :: 0 <= i < |bs| ==> w[i] == bs[i] as int
  {
    seq(|bs|, i requires 0 <= i < |bs| => bs[i] as WChar)
  }

  /** The short name: base name and extension, each without trailing spaces
      and cut at a NUL, joined by a dot when the archive flag is set. */
  function ShortName(b: Record): (n: seq<WChar>)
  {
    UntilNul(TrimEnd(Widen(b[0..8]))) +
    (if HasAttribute(b[11], ARCHIVE) then [DOT] else []) +
    UntilNul(TrimEnd(Widen(b[8..11])))
  }

  /** The name a non-long-name record gets: its short name when no long name
      was accumulated, otherwise the accumulated fragments put back in order
      and trimmed. */
  function EntryName(acc: seq<WChar>, b: Record): (n: seq<WChar>)
  {
    if acc == [] then ShortName(b) else TrimEnd(Reversed(acc))
  }

  /** The scan's state between records: the name accumulated so far and the
      entries opened so far. */
  datatype ScanState = ScanState(name: seq<WChar>, entries: seq<Entry>)

  /** Appending the fragment of `r` keeps the accumulated name inside
      fat.c's 256-unit buffer (one unit is the terminator). Only a long-name
      record appends. */
  predicate Fits(st: ScanState, r: Record)
  {
    var b := Unescape(r);
    r[0] == DELETED || b[11] != LONG_NAME || |st.name| + |Fragment(b)| < MAX_NAME_LENGTH
  }

  /** One iteration of the record loop (after the stop at a 0x00 record). */
  function Step(st: ScanState, r: Record): (st': ScanState)
  {
    if r[0] == DELETED then st
    else
      var b := Unescape(r);
      if b[11] == LONG_NAME then ScanState(st.name + Fragment(b), st.entries)
      else ScanState([], st.entries + [DecodeEntry(EntryName(st.name, b), b)])
  }

  /** A long-name record only extends the accumulated name. */
  lemma StepLongName(st: ScanState, r: Record)
    requires r[0] != DELETED && Unescape(r)[11] == LONG_NAME
    ensures Step(st, r) == ScanState(st.name + Fragment(Unescape(r)), st.entries)
    ensures Fits(st, r) <==> |st.name| + |Fragment(Unescape(r))| < MAX_NAME_LENGTH
  {
  }

  /** Every long-name record of the scan finds room in the name buffer. */
  predicate NameFits(st: ScanState, rs: seq<Record>)
    decreases |rs|
  {
    rs == [] || (Fits(st, rs[0]) && NameFits(Step(st, rs[0]), rs[1..]))
  }

  /** fat.c's padding loop for a first long-name record stops at the first
      NUL unit. A record the scan takes for the first of a name (bit 0x40 of
      its ordinal, after the 0x05 escape) with no NUL among its 13 units runs
      the loop onto the terminator of `subName` and overwrites it, so the
      `wcscat` that follows reads past the array: behaviour fat.c leaves
      undefined. */
  predicate Terminated(r: Record)
  {
    var b := Unescape(r);
    r[0] == DELETED || b[11] != LONG_NAME || !IsFirstFragment(b) || NUL in FragmentUnits(b)
  }

  /** The records on which `getChildren` is defined: every long-name fragment
      finds room in the name buffer and every first fragment is terminated. */
  predicate RecordsDefined(rs: seq<Record>)
  {
    NameFits(ScanState([], []), rs) && AllTerminated(rs)
  }

  predicate AllTerminated(rs: seq<Record>)
  {
    forall i :: 0 <= i < |rs| ==> Terminated(rs[i])
  }

  lemma AllTerminatedConcat(a: seq<Record>, b: seq<Record>)
    ensures AllTerminated(a + b) <==> AllTerminated(a) && AllTerminated(b)
  {
    if AllTerminated(a) && AllTerminated(b) {
      forall i | 0 <= i < |a + b| ensures Terminated((a + b)[i]) {
        if i >= |a| {
          assert (a + b)[i] == b[i - |a|];
        }
      }
    }
    if AllTerminated(a + b) {
      forall i | 0 <= i < |a| ensures Terminated(a[i]) {
        assert (a + b)[i] == a[i];
      }
      forall i | 0 <= i < |b| ensures Terminated(b[i]) {
        assert (a + b)[|a| + i] == b[i];
      }
    }
  }

  /** On a terminated record the intended padding is fat.c's. */
  lemma TerminatedPadding(r: Record)
    requires Terminated(r) && r[0] != DELETED && Unescape(r)[11] == LONG_NAME
    ensures Fragment(Unescape(r)) == FragmentAsWritten(Unescape(r))
  {
  }

  /** The scan over a sequence of records. */
  function DecodeAll(st: ScanState, rs: seq<Record>): (st': ScanState)
    decreases |rs|
  {
    if rs == [] then st else DecodeAll(Step(st, rs[0]), rs[1..])
  }

  /** Scanning a record and then the rest. */
  lemma DecodeAllCons(st: ScanState, r: Record, rest: seq<Record>)
    ensures NameFits(st, [r] + rest) <==> Fits(st, r) && NameFits(Step(st, r), rest)
    ensures DecodeAll(st, [r] + rest) == DecodeAll(Step(st, r), rest)
  {
    assert ([r] + rest)[0] == r && ([r] + rest)[1..] == rest;
  }

  /** A record makes an entry when it is neither deleted nor a long-name record. */
  predicate MakesEntry(r: Record)
  {
    r[0] != DELETED && Unescape(r)[11] != LONG_NAME
  }

  function CountEntries(rs: seq<Record>): nat
  {
    if rs == [] then 0 else (if MakesEntry(rs[0]) then 1 else 0) + CountEntries(rs[1..])
  }

  /** The scan keeps the entries opened before it and adds one entry per
      record that is neither deleted nor part of a long name. */
  lemma {:induction false} DecodeAllEntries(st: ScanState, rs: seq<Record>)
    ensures var st' := DecodeAll(st, rs);
      |st'.entries| == |st.entries| + CountEntries(rs) && st'.entries[..|st.entries|] == st.entries
    decreases |rs|
  {
    if rs != [] {
      var s1 := Step(st, rs[0]);
      DecodeAllEntries(s1, rs[1..]);
      assert s1.entries[..|st.entries|] == st.entries;
    }
  }

  /** Scanning a concatenation is scanning the first part and continuing from
      its state: the name buffer carries over, as it does between clusters. */
  lemma {:induction false} DecodeAllConcat(st: ScanState, a: seq<Record>, b: seq<Record>)
    ensures NameFits(st, a + b) <==> NameFits(st, a) && NameFits(DecodeAll(st, a), b)
    ensures DecodeAll(st, a + b) == DecodeAll(DecodeAll(st, a), b)
    decreases |a|
  {
    if a == [] {
      assert a + b == b;
    } else {
      assert (a + b)[0] == a[0] && (a + b)[1..] == a[1..] + b;
      DecodeAllConcat(Step(st, a[0]), a[1..], b);
    }
  }

  /** Deleted records are skipped without a trace: removing them changes
      neither what the scan yields nor whether its names fit. */
  lemma {:induction false} DeletedRecordsIgnored(st: ScanState, a: seq<Record>, r: Record, b: seq<Record>)
    requires r[0] == DELETED
    ensures NameFits(st, a + [r] + b) <==> NameFits(st, a + b)
    ensures DecodeAll(st, a + [r] + b) == DecodeAll(st, a + b)
  {
    DecodeAllConcat(st, a, [r] + b);
    DecodeAllConcat(st, a, b);
    assert a + [r] + b == a + ([r] + b);
    assert ([r] + b)[0] == r && ([r] + b)[1..] == b;
  }

  /** A run of live long-name records: each one only extends the name. */
  predicate LongRun(rs: seq<Record>)
  {
    forall i :: 0 <= i < |rs| ==> rs[i][0] != DELETED && Unescape(rs[i])[11] == LONG_NAME
  }

  /** The units the fragments of `rs` add to the name, in record order. */
  function Fragments(rs: seq<Record>): seq<WChar>
    decreases |rs|
  {
    if rs == [] then [] else Fragment(Unescape(rs[0])) + Fragments(rs[1..])
  }

  /** The tail of a long-name run is a long-name run. */
  lemma LongRunTail(run: seq<Record>)
    requires run != [] && LongRun(run)
    ensures LongRun(run[1..])
  {
    forall i | 0 <= i < |run| - 1
      ensures run[1..][i][0] != DELETED && Unescape(run[1..][i])[11] == LONG_NAME
    {
      assert run[1..][i] == run[i + 1];
    }
  }

  /** One long-name record at the head of a run. */
  lemma LongRunHead(st: ScanState, r: Record, rest: seq<Record>)
    requires r[0] != DELETED && Unescape(r)[11] == LONG_NAME
    ensures DecodeAll(st, [r] + rest) == DecodeAll(ScanState(st.name + Fragment(Unescape(r)), st.entries), rest)
    ensures Fragments([r] + rest) == Fragment(Unescape(r)) + Fragments(rest)
  {
    DecodeAllCons(st, r, rest);
    StepLongName(st, r);
    assert ([r] + rest)[1..] == rest;
  }

  /** A run of long-name records only accumulates: the name grows by the
      run's fragments and nothing is opened. */
  lemma {:induction false} LongRunScan(st: ScanState, run: seq<Record>)
    requires LongRun(run)
    ensures DecodeAll(st, run) == ScanState(st.name + Fragments(run), st.entries)
    decreases |run|
  {
    if run == [] {
      assert st.name + [] == st.name;
    } else {
      var r, rest := run[0], run[1..];
      assert run == [r] + rest;
      var f := Fragment(Unescape(r));
      LongRunHead(st, r, rest);
      LongRunTail(run);
      LongRunScan(ScanState(st.name + f, st.entries), rest);
    }
  }

  /** Since the name only grows along a long-name run, the run fits the
      buffer exactly when its last fragment does. */
  lemma {:induction false} LongRunFits(st: ScanState, run: seq<Record>)
    requires LongRun(run)
    ensures NameFits(st, run) <==> run == [] || |st.name| + |Fragments(run)| < MAX_NAME_LENGTH
    decreases |run|
  {
    if run != [] {
      var r, rest := run[0], run[1..];
      var f := Fragment(Unescape(r));
      assert run == [r] + rest;
      DecodeAllCons(st, r, rest);
      StepLongName(st, r);
      LongRunTail(run);
      var st1 := ScanState(st.name + f, st.entries);
      LongRunFits(st1, rest);
      assert |Fragments(run)| == |f| + |Fragments(rest)|;
      assert |st1.name| == |st.name| + |f|;
    }
  }

  /** A run of long-name records and the record that ends it open one entry,
      named by everything accumulated put back in order and trimmed (or by
      the short name when nothing was accumulated). */
  lemma LongRunThenShort(st: ScanState, run: seq<Record>, sfn: Record)
    requires LongRun(run) && MakesEntry(sfn)
    ensures var acc, b := st.name + Fragments(run), Unescape(sfn);
      DecodeAll(st, run + [sfn]) ==
        ScanState([], st.entries + [DecodeEntry(if acc == [] then ShortName(b) else TrimEnd(Reversed(acc)), b)])
    ensures NameFits(st, run + [sfn]) <==> run == [] || |st.name| + |Fragments(run)| < MAX_NAME_LENGTH
  {
    DecodeAllConcat(st, run, [sfn]);
    LongRunScan(st, run);
    LongRunFits(st, run);
    DecodeAllCons(ScanState(st.name + Fragments(run), st.entries), sfn, []);
    assert [sfn] + [] == [sfn];
  }

  /** A short-name record read with nothing accumulated opens one entry named
      by its short name, with the fields it holds. */
  lemma ShortNameRecord(es: seq<Entry>, r: Record)
    requires MakesEntry(r)
    ensures Step(ScanState([], es), r) == ScanState([], es + [DecodeEntry(ShortName(Unescape(r)), Unescape(r))])
  {
  }

  /** "HELLO   TXT" with the archive flag is named "HELLO.TXT"; without it,
      "HELLOTXT". */
  lemma ShortNameExample(r: Record)
    requires r[..11] == [0x48, 0x45, 0x4C, 0x4C, 0x4F, 0x20, 0x20, 0x20, 0x54, 0x58, 0x54]
    ensures HasAttribute(r[11], ARCHIVE) ==> ShortName(r) == [0x48, 0x45, 0x4C, 0x4C, 0x4F, DOT, 0x54, 0x58, 0x54]
    ensures !HasAttribute(r[11], ARCHIVE) ==> ShortName(r) == [0x48, 0x45, 0x4C, 0x4C, 0x4F, 0x54, 0x58, 0x54]
  {
    assert r[0..8] == r[..11][0..8] && r[8..11] == r[..11][8..11];
    ExampleBase(r[0..8]);
    ExampleExtension(r[8..11]);
  }

  lemma ExampleBase(b: seq<Byte>)
    requires b == [0x48, 0x45, 0x4C, 0x4C, 0x4F, 0x20, 0x20, 0x20]
    ensures UntilNul(TrimEnd(Widen(b))) == [0x48, 0x45, 0x4C, 0x4C, 0x4F]
  {
    var hello: seq<WChar> := [0x48, 0x45, 0x4C, 0x4C, 0x4F];
    assert Widen(b) == hello + Spaces(3);
    TrimEndSpaces(hello, 3);
    assert TrimEnd(hello) == hello;
    UntilNulNoNul(hello);
  }

  lemma ExampleExtension(b: seq<Byte>)
    requires b == [0x54, 0x58, 0x54]
    ensures UntilNul(TrimEnd(Widen(b))) == [0x54, 0x58, 0x54]
  {
    var txt: seq<WChar> := [0x54, 0x58, 0x54];
    assert Widen(b) == txt;
    assert TrimEnd(txt) == txt;
    UntilNulNoNul(txt);
  }

  /** The escape turns a leading 0x05 into 0xE5 in the short name, and on a
      long-name record its ordinal 5 reads as the first-record mark (0xE5
      has bit 0x40 set). */
  lemma EscapeOnRecords(r: Record)
    requires r[0] == ESCAPE_DELETED
    ensures Unescape(r)[0] == DELETED && Unescape(r)[1..] == r[1..]
    ensures IsFirstFragment(Unescape(r)) && !IsFirstFragment(r)
  {
  }

  /** With the intended padding, mistaking a full middle record for the first
      one (the escaped ordinal 5) is harmless: it carries no NUL, so it is
      kept as it is. */
  lemma PadFirstKeepsFullFragment(u: seq<WChar>)
    requires NUL !in u
    ensures UntilNul(PadFirst(u)) == u
  {
    UntilNulNoNul(u);
  }
}
