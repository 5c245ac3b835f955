/** Long file names as the FAT format stores them (13 UCS-2 characters per
    record, the records in reverse order before the short-name record, the
    last one marked with 0x40 and padded with a NUL and 0xFFFF filler), and the
    theorem that the scan of `getChildren` recovers the name from them. */
module LongNames {
  import opened Bytes
  import opened Text
  import opened Directory

  /** Every unit fits one 16-bit long-name character. */
  predicate Ucs2(u: seq<WChar>)
  {
    forall i :: 0 <= i < |u| ==> 0 <= u[i] < 0x1_0000
  }

  function Lo(x: WChar): Byte requires 0 <= x < 0x1_0000 { x % 0x100 }
  function Hi(x: WChar): Byte requires 0 <= x < 0x1_0000 { x / 0x100 }

  /** The long-name record with the given ordinal byte holding the characters
      `c` (in name order): 5 at bytes 1-10, 6 at 14-25 and 2 at 28-31. */
  function LfnRecord(ordinal: Byte, c: seq<WChar>, checksum: Byte): (r: Record)
    requires |c| == FRAGMENT_LENGTH && Ucs2(c)
  {
    [ordinal,
     Lo(c[0]), Hi(c[0]), Lo(c[1]), Hi(c[1]), Lo(c[2]), Hi(c[2]), Lo(c[3]), Hi(c[3]), Lo(c[4]), Hi(c[4]),
     LONG_NAME, 0, checksum,
     Lo(c[5]), Hi(c[5]), Lo(c[6]), Hi(c[6]), Lo(c[7]), Hi(c[7]),
     Lo(c[8]), Hi(c[8]), Lo(c[9]), Hi(c[9]), Lo(c[10]), Hi(c[10]),
     0, 0,
     Lo(c[11]), Hi(c[11]), Lo(c[12]), Hi(c[12])]
  }

  /** The characters of a long-name record are read back last first. */
  lemma LfnRecordUnits(ordinal: Byte, c: seq<WChar>, checksum: Byte)
    requires |c| == FRAGMENT_LENGTH && Ucs2(c)
    ensures var r := LfnRecord(ordinal, c, checksum);
      r[0] == ordinal && r[11] == LONG_NAME &&
      FragmentUnits(r) == Reversed(c) && FragmentUnits(Unescape(r)) == Reversed(c)
  {
    var r := LfnRecord(ordinal, c, checksum);
    UnitAt(r, 1, c[0]); UnitAt(r, 3, c[1]); UnitAt(r, 5, c[2]); UnitAt(r, 7, c[3]);
    UnitAt(r, 9, c[4]); UnitAt(r, 14, c[5]); UnitAt(r, 16, c[6]); UnitAt(r, 18, c[7]);
    UnitAt(r, 20, c[8]); UnitAt(r, 22, c[9]); UnitAt(r, 24, c[10]); UnitAt(r, 28, c[11]);
    UnitAt(r, 30, c[12]);
    var rc := [c[12], c[11], c[10], c[9], c[8], c[7], c[6], c[5], c[4], c[3], c[2], c[1], c[0]];
    assert FragmentUnits(r) == rc;
    assert Reversed(c) == rc;
    UnescapeUnits(r);
  }

  /** The escape touches only the ordinal byte, not the characters. */
  lemma UnescapeUnits(r: Record)
    ensures FragmentUnits(Unescape(r)) == FragmentUnits(r)
  {
    var b := Unescape(r);
    assert b[1..] == r[1..];
  }

  /** A character stored as its two bytes at `k` reads back whole. */
  lemma UnitAt(r: Record, k: nat, x: WChar)
    requires k + 2 <= |r| && 0 <= x < 0x1_0000 && r[k] == Lo(x) && r[k + 1] == Hi(x)
    ensures Get16(r, k) == x
  {
  }

  /** The filler after a name that does not fill its last record: a NUL and
      then 0xFFFF units. */
  function Filler(f: nat): (s: seq<WChar>)
    ensures |s| == f
  {
    if f == 0 then [] else [NUL] + seq(f - 1, _ => 0xFFFF)
  }

  /** The characters a long name occupies in its records. */
  function Padded(n: seq<WChar>): (p: seq<WChar>)
  {
    n + Filler(FillLength(n))
  }

  function FillLength(n: seq<WChar>): (f: nat)
    ensures f < FRAGMENT_LENGTH && (|n| + f) % FRAGMENT_LENGTH == 0
  {
    if |n| % FRAGMENT_LENGTH == 0 then 0 else FRAGMENT_LENGTH - |n| % FRAGMENT_LENGTH
  }

  /** The `j`-th group of 13 characters. */
  function Chunk(p: seq<WChar>, j: nat): (c: seq<WChar>)
    requires FRAGMENT_LENGTH * (j + 1) <= |p|
    ensures |c| == FRAGMENT_LENGTH
  {
    p[FRAGMENT_LENGTH * j..FRAGMENT_LENGTH * (j + 1)]
  }

  /** The records with ordinals `j`, ..., 1, in the order they are stored. */
  function LfnTail(p: seq<WChar>, j: nat, checksum: Byte): (rs: seq<Record>)
    requires FRAGMENT_LENGTH * j <= |p| && j < 0x100 && Ucs2(p)
    decreases j
  {
    if j == 0 then []
    else
      UcsChunk(p, j - 1);
      [LfnRecord(j, Chunk(p, j - 1), checksum)] + LfnTail(p, j - 1, checksum)
  }

  lemma UcsChunk(p: seq<WChar>, j: nat)
    requires FRAGMENT_LENGTH * (j + 1) <= |p| && Ucs2(p)
    ensures Ucs2(Chunk(p, j))
  {
  }

  /** What a long name may be for the scan to handle it: non-empty UCS-2
      without NUL, not ending in a space (the scan trims trailing spaces), and
      short enough that its 13-unit groups fit the 256-unit name buffer. */
  predicate StorableName(n: seq<WChar>)
  {
    n != [] && NUL !in n && Ucs2(n) && n[|n| - 1] != SPACE && |n| <= 247
  }

  function RecordCount(n: seq<WChar>): (k: nat)
  {
    (|n| + FillLength(n)) / FRAGMENT_LENGTH
  }

  /** The long-name records of `n`: the last group first, marked 0x40. */
  function LongNameRecords(n: seq<WChar>, checksum: Byte): (rs: seq<Record>)
    requires StorableName(n)
  {
    var p, k := Padded(n), RecordCount(n);
    CountBounds(n);
    UcsChunk(p, k - 1);
    [LfnRecord(FIRST_ENTRY_OF_LONG_NAME + k, Chunk(p, k - 1), checksum)] + LfnTail(p, k - 1, checksum)
  }

  lemma CountBounds(n: seq<WChar>)
    requires StorableName(n)
    ensures var p, k := Padded(n), RecordCount(n);
      1 <= k <= 19 && |p| == FRAGMENT_LENGTH * k && Ucs2(p) &&
      FRAGMENT_LENGTH * (k - 1) < |n| && p[..|n|] == n
  {
    var p, k, f := Padded(n), RecordCount(n), FillLength(n);
    DivMod(|n| + f, FRAGMENT_LENGTH, k, 0);
    assert |p| == |n| + f;
    forall i | 0 <= i < |p| ensures p[i] < 0x1_0000 {
      if i >= |n| {
        assert p[i] == Filler(f)[i - |n|];
      }
    }
  }

  /** Padding the last group: the filler turns into spaces. */
  lemma PadFiller(t: seq<WChar>, f: nat)
    requires NUL !in t
    ensures PadFirst(Reversed(t + Filler(f))) == Reversed(t + Spaces(f))
  {
    if f == 0 {
      assert t + Filler(f) == t && t + Spaces(f) == t;
      assert NUL !in Reversed(t);
    } else {
      var ff := seq(f - 1, _ => 0xFFFF);
      var rt := Reversed(t);
      FillerReversed(t, f, ff);
      PadAfterNul(ff, rt);
      ReversedConcat(t, Spaces(f));
      assert Reversed(Spaces(f)) == Spaces(f);
    }
  }

  /** The filler read backwards: the 0xFFFF units, then the NUL. */
  lemma FillerReversed(t: seq<WChar>, f: nat, ff: seq<WChar>)
    requires f > 0 && ff == seq(f - 1, _ => 0xFFFF)
    ensures Reversed(t + Filler(f)) == ff + [NUL] + Reversed(t)
  {
    ReversedConcat(t, Filler(f));
    ReversedConcat([NUL], ff);
    assert Reversed(ff) == ff;
  }

  /** Padding turns everything up to the first NUL, and the NUL, into spaces. */
  lemma PadAfterNul(ff: seq<WChar>, rt: seq<WChar>)
    requires NUL !in ff
    ensures PadFirst(ff + [NUL] + rt) == Spaces(|ff| + 1) + rt
  {
    var u := ff + [NUL] + rt;
    UntilNulConcat(ff, [NUL] + rt);
    assert UntilNul(u) == ff by {
      assert u == ff + ([NUL] + rt);
    }
    assert u[|ff| + 1..] == rt;
    assert NUL in u by {
      assert u[|ff|] == NUL;
    }
  }

  /** A record after the first adds its group reversed; the escaped ordinal 5
      reads as a first record, but a full group is kept. */
  lemma TailRecordStep(r: Record, j: nat, c: seq<WChar>, acc: seq<WChar>, es: seq<Entry>)
    requires 1 <= j < 0x40 && |c| == FRAGMENT_LENGTH && NUL !in c
    requires r[0] == j && r[11] == LONG_NAME && FragmentUnits(Unescape(r)) == Reversed(c)
    requires |acc| + FRAGMENT_LENGTH < MAX_NAME_LENGTH
    ensures Fits(ScanState(acc, es), r)
    ensures Step(ScanState(acc, es), r) == ScanState(acc + Reversed(c), es)
  {
    var b := Unescape(r);
    assert NUL !in Reversed(c);
    if IsFirstFragment(b) {
      PadFirstKeepsFullFragment(Reversed(c));
    } else {
      UntilNulNoNul(Reversed(c));
    }
    assert Fragment(b) == Reversed(c);
    StepLongName(ScanState(acc, es), r);
  }

  /** The first record of a name adds its group reversed, filler as spaces. */
  lemma FirstRecordStep(r: Record, t: seq<WChar>, f: nat, k: nat, es: seq<Entry>)
    requires |t| + f == FRAGMENT_LENGTH && NUL !in t
    requires 1 <= k <= 19
    requires r[0] == FIRST_ENTRY_OF_LONG_NAME + k && r[11] == LONG_NAME
    requires FragmentUnits(r) == Reversed(t + Filler(f))
    ensures Fits(ScanState([], es), r)
    ensures Step(ScanState([], es), r) == ScanState(Reversed(t + Spaces(f)), es)
  {
    assert Unescape(r) == r;
    assert IsFirstFragment(r);
    PadFiller(t, f);
    var first := Reversed(t + Spaces(f));
    assert NUL !in t + Spaces(f);
    ReversedHas(t + Spaces(f), NUL);
    UntilNulNoNul(first);
    assert Fragment(r) == first;
    StepLongName(ScanState([], es), r);
  }

  /** What the scan needs to know of the records after the first: the first
      of them has ordinal `j` and holds group `j - 1`, and so on down to 1. */
  predicate TailFacts(rs: seq<Record>, p: seq<WChar>, j: nat)
    requires FRAGMENT_LENGTH * j <= |p|
    decreases j
  {
    |rs| == j &&
    (j > 0 ==>
      rs[0][0] == j && rs[0][11] == LONG_NAME &&
      FragmentUnits(Unescape(rs[0])) == Reversed(Chunk(p, j - 1)) &&
      TailFacts(rs[1..], p, j - 1))
  }

  lemma {:induction false} LfnTailFacts(p: seq<WChar>, j: nat, checksum: Byte)
    requires FRAGMENT_LENGTH * j <= |p| && j < 0x100 && Ucs2(p)
    ensures TailFacts(LfnTail(p, j, checksum), p, j)
    decreases j
  {
    if j > 0 {
      var rs := LfnTail(p, j, checksum);
      UcsChunk(p, j - 1);
      LfnRecordUnits(j, Chunk(p, j - 1), checksum);
      LfnTailFacts(p, j - 1, checksum);
      assert rs[1..] == LfnTail(p, j - 1, checksum);
    }
  }

  /** The records after the first add their groups in name order, reversed. */
  lemma {:induction false} TailScan(rs: seq<Record>, p: seq<WChar>, j: nat, acc: seq<WChar>, es: seq<Entry>)
    requires FRAGMENT_LENGTH * j <= |p| && j < 0x40 && TailFacts(rs, p, j)
    requires NUL !in p[..FRAGMENT_LENGTH * j]
    requires |acc| + FRAGMENT_LENGTH * j < MAX_NAME_LENGTH
    ensures NameFits(ScanState(acc, es), rs)
    ensures DecodeAll(ScanState(acc, es), rs) == ScanState(acc + Reversed(p[..FRAGMENT_LENGTH * j]), es)
    decreases j
  {
    if j == 0 {
      assert p[..0] == [];
      assert acc + Reversed([]) == acc;
    } else {
      TailSplit(p, j, acc);
      TailRecordStep(rs[0], j, Chunk(p, j - 1), acc, es);
      TailScan(rs[1..], p, j - 1, acc + Reversed(Chunk(p, j - 1)), es);
      DecodeAllCons(ScanState(acc, es), rs[0], rs[1..]);
      assert rs == [rs[0]] + rs[1..];
    }
  }

  /** The first `j` groups are the first `j - 1` and then group `j - 1`. */
  lemma TailSplit(p: seq<WChar>, j: nat, acc: seq<WChar>)
    requires 0 < j && FRAGMENT_LENGTH * j <= |p| && NUL !in p[..FRAGMENT_LENGTH * j]
    ensures NUL !in Chunk(p, j - 1) && NUL !in p[..FRAGMENT_LENGTH * (j - 1)]
    ensures acc + Reversed(Chunk(p, j - 1)) + Reversed(p[..FRAGMENT_LENGTH * (j - 1)]) ==
      acc + Reversed(p[..FRAGMENT_LENGTH * j])
  {
    var c := Chunk(p, j - 1);
    var head := p[..FRAGMENT_LENGTH * (j - 1)];
    assert p[..FRAGMENT_LENGTH * j] == head + c;
    ReversedConcat(head, c);
  }

  /** The characters of the name held by its first (marked) record. */
  function LastGroup(n: seq<WChar>): (t: seq<WChar>)
    requires StorableName(n)
  {
    CountBounds(n);
    n[FRAGMENT_LENGTH * (RecordCount(n) - 1)..]
  }

  /** The marked record of a name adds its last group, filler as spaces. */
  lemma FirstOfName(n: seq<WChar>, checksum: Byte, es: seq<Entry>)
    requires StorableName(n)
    ensures var rs := LongNameRecords(n, checksum);
      Fits(ScanState([], es), rs[0]) &&
      Step(ScanState([], es), rs[0]) == ScanState(Reversed(LastGroup(n) + Spaces(FillLength(n))), es)
  {
    CountBounds(n);
    FirstRecord(n, checksum);
    LfnRecordUnits(FIRST_ENTRY_OF_LONG_NAME + RecordCount(n), LastGroup(n) + Filler(FillLength(n)), checksum);
    FirstRecordStep(LongNameRecords(n, checksum)[0], LastGroup(n), FillLength(n), RecordCount(n), es);
  }

  /** The marked record holds the last group and the filler. */
  lemma FirstRecord(n: seq<WChar>, checksum: Byte)
    requires StorableName(n)
    ensures var t, f := LastGroup(n), FillLength(n);
      |t + Filler(f)| == FRAGMENT_LENGTH && Ucs2(t + Filler(f)) && NUL !in t &&
      LongNameRecords(n, checksum)[0] == LfnRecord(FIRST_ENTRY_OF_LONG_NAME + RecordCount(n), t + Filler(f), checksum)
  {
    var p, k, f := Padded(n), RecordCount(n), FillLength(n);
    var t := LastGroup(n);
    LastChunk(n, p, k, f, t);
    UcsChunk(p, k - 1);
  }

  /** The last group of 13 characters is the name's last group and its filler. */
  lemma LastChunk(n: seq<WChar>, p: seq<WChar>, k: nat, f: nat, t: seq<WChar>)
    requires StorableName(n) && p == Padded(n) && k == RecordCount(n) && f == FillLength(n) && t == LastGroup(n)
    ensures 1 <= k && FRAGMENT_LENGTH * k == |p| && Ucs2(p) && NUL !in t
    ensures Chunk(p, k - 1) == t + Filler(f)
  {
    CountBounds(n);
  }

  /** The other records of a name add the groups before the last one. */
  lemma RestOfName(n: seq<WChar>, checksum: Byte, acc: seq<WChar>, es: seq<Entry>)
    requires StorableName(n) && |acc| == FRAGMENT_LENGTH
    ensures var rs := LongNameRecords(n, checksum);
      var head := n[..FRAGMENT_LENGTH * (RecordCount(n) - 1)];
      NameFits(ScanState(acc, es), rs[1..]) &&
      DecodeAll(ScanState(acc, es), rs[1..]) == ScanState(acc + Reversed(head), es)
  {
    var p, k := Padded(n), RecordCount(n);
    CountBounds(n);
    var tail := LfnTail(p, k - 1, checksum);
    assert LongNameRecords(n, checksum)[1..] == tail;
    assert p[..FRAGMENT_LENGTH * (k - 1)] == n[..FRAGMENT_LENGTH * (k - 1)];
    LfnTailFacts(p, k - 1, checksum);
    TailScan(tail, p, k - 1, acc, es);
  }

  /** The long-name theorem: the records of a storable name followed by its
      short-name record open exactly one entry, named by the long name and
      described by the short-name record. */
  lemma LongNameRoundTrip(n: seq<WChar>, checksum: Byte, sfn: Record, es: seq<Entry>)
    requires StorableName(n) && MakesEntry(sfn)
    ensures NameFits(ScanState([], es), LongNameRecords(n, checksum) + [sfn])
    ensures DecodeAll(ScanState([], es), LongNameRecords(n, checksum) + [sfn]) ==
      ScanState([], es + [DecodeEntry(n, Unescape(sfn))])
  {
    var rs := LongNameRecords(n, checksum);
    var k, f := RecordCount(n), FillLength(n);
    CountBounds(n);
    var t := LastGroup(n);
    var head := n[..FRAGMENT_LENGTH * (k - 1)];
    var first := Reversed(t + Spaces(f));
    FirstOfName(n, checksum, es);
    RestOfName(n, checksum, first, es);
    assert n == head + t;
    NameFromGroups(n, head, t, f);
    ClosingRecord(n, f, sfn, es);
    ScanThree(ScanState([], es), rs[0], rs[1..], sfn, ScanState(first, es),
      ScanState(Reversed(n + Spaces(f)), es), ScanState([], es + [DecodeEntry(n, Unescape(sfn))]));
    assert rs == [rs[0]] + rs[1..];
  }

  /** fat.c is defined on the records of a long name exactly when the name
      does not fill its last record (which then holds the NUL that stops the
      padding) and has at most five records (a sixth brings the record with
      ordinal 5, which the 0x05 escape turns into a first record without a
      NUL). On those names the round trip above is fat.c's own. */
  lemma LongNameDefined(n: seq<WChar>, checksum: Byte, sfn: Record)
    requires StorableName(n) && MakesEntry(sfn)
    ensures RecordsDefined(LongNameRecords(n, checksum) + [sfn]) <==> |n| % FRAGMENT_LENGTH != 0 && |n| <= 65
  {
    var rs := LongNameRecords(n, checksum);
    LongNameRoundTrip(n, checksum, sfn, []);
    LongNameTerminated(n, checksum);
    AllTerminatedConcat(rs, [sfn]);
    assert Terminated([sfn][0]);
  }

  /** Which records of a long name are terminated. */
  lemma LongNameTerminated(n: seq<WChar>, checksum: Byte)
    requires StorableName(n)
    ensures AllTerminated(LongNameRecords(n, checksum)) <==> |n| % FRAGMENT_LENGTH != 0 && |n| <= 65
  {
    var rs := LongNameRecords(n, checksum);
    var p, k := Padded(n), RecordCount(n);
    CountBounds(n);
    FirstTerminated(n, checksum);
    var tail := LfnTail(p, k - 1, checksum);
    assert rs == [rs[0]] + tail;
    assert p[..FRAGMENT_LENGTH * (k - 1)] == n[..FRAGMENT_LENGTH * (k - 1)];
    LfnTailFacts(p, k - 1, checksum);
    TailTerminated(tail, p, k - 1);
    AllTerminatedConcat([rs[0]], tail);
  }

  /** The marked record is terminated exactly when the name leaves room for
      the filler in it. */
  lemma FirstTerminated(n: seq<WChar>, checksum: Byte)
    requires StorableName(n)
    ensures Terminated(LongNameRecords(n, checksum)[0]) <==> |n| % FRAGMENT_LENGTH != 0
  {
    CountBounds(n);
    FirstRecord(n, checksum);
    LfnRecordUnits(FIRST_ENTRY_OF_LONG_NAME + RecordCount(n), LastGroup(n) + Filler(FillLength(n)), checksum);
    var r := LongNameRecords(n, checksum)[0];
    assert Unescape(r) == r;
    FirstOrdinalOf(r, RecordCount(n));
    ReversedHas(LastGroup(n) + Filler(FillLength(n)), NUL);
    FillerHasNul(LastGroup(n), FillLength(n));
  }

  lemma FirstOrdinalOf(r: Record, k: nat)
    requires 1 <= k <= 19 && r[0] == FIRST_ENTRY_OF_LONG_NAME + k
    ensures IsFirstFragment(r)
  {
  }

  lemma FillerHasNul(t: seq<WChar>, f: nat)
    requires NUL !in t
    ensures NUL in t + Filler(f) <==> f > 0
  {
    if f > 0 {
      assert (t + Filler(f))[|t|] == NUL;
    } else {
      assert t + Filler(f) == t;
    }
  }

  /** A record after the first is terminated unless its ordinal is 5. */
  lemma RecordTerminated(r: Record, j: nat, c: seq<WChar>)
    requires 1 <= j < 0x40 && NUL !in c
    requires r[0] == j && r[11] == LONG_NAME && FragmentUnits(Unescape(r)) == Reversed(c)
    ensures Terminated(r) <==> j != ESCAPE_DELETED as int
  {
    ReversedHas(c, NUL);
    if j == ESCAPE_DELETED as int {
      EscapeOnRecords(r);
    } else {
      assert Unescape(r) == r;
    }
  }

  /** The records with ordinals `j`, ..., 1 are all terminated exactly when
      5 is not among them. */
  lemma {:induction false} TailTerminated(rs: seq<Record>, p: seq<WChar>, j: nat)
    requires FRAGMENT_LENGTH * j <= |p| && j < 0x40 && TailFacts(rs, p, j)
    requires NUL !in p[..FRAGMENT_LENGTH * j]
    ensures AllTerminated(rs) <==> j < ESCAPE_DELETED as int
    decreases j
  {
    if j > 0 {
      TailSplit(p, j, []);
      RecordTerminated(rs[0], j, Chunk(p, j - 1));
      TailTerminated(rs[1..], p, j - 1);
      assert rs == [rs[0]] + rs[1..];
      AllTerminatedConcat([rs[0]], rs[1..]);
    }
  }

  /** A first record, then more records, then a closing record. */
  lemma ScanThree(st: ScanState, r: Record, tail: seq<Record>, sfn: Record, s1: ScanState, s2: ScanState, s3: ScanState)
    requires Fits(st, r) && Step(st, r) == s1
    requires NameFits(s1, tail) && DecodeAll(s1, tail) == s2
    requires NameFits(s2, [sfn]) && DecodeAll(s2, [sfn]) == s3
    ensures NameFits(st, [r] + tail + [sfn]) && DecodeAll(st, [r] + tail + [sfn]) == s3
  {
    DecodeAllConcat(s1, tail, [sfn]);
    DecodeAllCons(st, r, tail + [sfn]);
    assert [r] + tail + [sfn] == [r] + (tail + [sfn]);
  }

  lemma NameFromGroups(n: seq<WChar>, head: seq<WChar>, t: seq<WChar>, f: nat)
    requires n == head + t
    ensures Reversed(t + Spaces(f)) + Reversed(head) == Reversed(n + Spaces(f))
  {
    ReversedConcat(head, t + Spaces(f));
    assert head + (t + Spaces(f)) == n + Spaces(f);
  }

  /** The short-name record after the long-name records closes the name. */
  lemma ClosingRecord(n: seq<WChar>, f: nat, sfn: Record, es: seq<Entry>)
    requires n != [] && n[|n| - 1] != SPACE && MakesEntry(sfn)
    ensures NameFits(ScanState(Reversed(n + Spaces(f)), es), [sfn])
    ensures DecodeAll(ScanState(Reversed(n + Spaces(f)), es), [sfn]) ==
      ScanState([], es + [DecodeEntry(n, Unescape(sfn))])
  {
    var acc := Reversed(n + Spaces(f));
    ReversedInvolution(n + Spaces(f));
    TrimEndSpaces(n, f);
    assert acc != [] && TrimEnd(Reversed(acc)) == n;
    LongRunThenShort(ScanState(acc, es), [], sfn);
    assert [] + [sfn] == [sfn] && acc + Fragments([]) == acc;
  }

  /** As written, the marked record of a name that fills its last record
      exactly (here: one of 13 characters) has no NUL, so the first-record
      padding blanks its 13 units and overwrites the terminator after them,
      after which fat.c's `wcscat` is undefined; the intended padding keeps
      the characters. */
  lemma FullLastRecordAsWritten(c: seq<WChar>, checksum: Byte)
    requires |c| == FRAGMENT_LENGTH && StorableName(c)
    ensures !Terminated(LfnRecord(FIRST_ENTRY_OF_LONG_NAME + 1, c, checksum))
    ensures FragmentAsWritten(LfnRecord(FIRST_ENTRY_OF_LONG_NAME + 1, c, checksum)) == Spaces(FRAGMENT_LENGTH)
    ensures Fragment(LfnRecord(FIRST_ENTRY_OF_LONG_NAME + 1, c, checksum)) == Reversed(c)
  {
    var r := LfnRecord(FIRST_ENTRY_OF_LONG_NAME + 1, c, checksum);
    LfnRecordUnits(FIRST_ENTRY_OF_LONG_NAME + 1, c, checksum);
    FirstOrdinal(r);
    ReversedHas(c, NUL);
    assert Unescape(r) == r;
    FirstFragments(r, Reversed(c));
    PadsOfFullFragment(Reversed(c));
  }

  /** As written, the record with ordinal 5 of a name of six or more records
      holds 13 characters of the name and no NUL, but the 0x05 escape turns
      its ordinal into 0xE5, which carries the first-record mark: fat.c blanks
      its characters and overwrites the terminator, where the intended padding
      keeps them. */
  lemma OrdinalFiveAsWritten(c: seq<WChar>, checksum: Byte)
    requires |c| == FRAGMENT_LENGTH && Ucs2(c) && NUL !in c
    ensures !Terminated(LfnRecord(ESCAPE_DELETED, c, checksum))
    ensures FragmentAsWritten(Unescape(LfnRecord(ESCAPE_DELETED, c, checksum))) == Spaces(FRAGMENT_LENGTH)
    ensures Fragment(Unescape(LfnRecord(ESCAPE_DELETED, c, checksum))) == Reversed(c)
  {
    var r := LfnRecord(ESCAPE_DELETED, c, checksum);
    LfnRecordUnits(ESCAPE_DELETED, c, checksum);
    EscapeOnRecords(r);
    ReversedHas(c, NUL);
    FirstFragments(Unescape(r), Reversed(c));
    PadsOfFullFragment(Reversed(c));
  }

  lemma FirstOrdinal(r: Record)
    requires r[0] == FIRST_ENTRY_OF_LONG_NAME + 1
    ensures IsFirstFragment(r)
  {
  }

  /** Both paddings of a first long-name record, in terms of its units. */
  lemma FirstFragments(r: Record, u: seq<WChar>)
    requires IsFirstFragment(r) && FragmentUnits(r) == u
    ensures Fragment(r) == UntilNul(PadFirst(u))
    ensures FragmentAsWritten(r) == UntilNul(PadFirstAsWritten(u))
  {
  }

  /** A first fragment without a NUL: fat.c's padding blanks it, the
      intended one keeps it. */
  lemma PadsOfFullFragment(u: seq<WChar>)
    requires |u| == FRAGMENT_LENGTH && NUL !in u
    ensures UntilNul(PadFirstAsWritten(u)) == Spaces(FRAGMENT_LENGTH)
    ensures UntilNul(PadFirst(u)) == u
  {
    UntilNulNoNul(Spaces(FRAGMENT_LENGTH));
    UntilNulNoNul(u);
  }
}
