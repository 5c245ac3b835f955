# fat.c in Dafny

A model of `fat.c`, a read-only interpreter of FAT12, FAT16 and FAT32 disk
images, with proofs about it. The image is an immutable sequence of bytes, and
reading the image becomes indexing into it. The model covers these parts of
fat.c:

- **Boot-sector geometry** (`Geometry`). `openImage` computes the sector,
  cluster, FAT, root-directory and data-area offsets. Its u16, u32 and u64
  arithmetic wraps as in C. It then picks the FAT width from the number of data
  clusters.
- **Cluster chains** (`ClusterChain`). `getNextCluster12/16/32` become a single
  function that matches on the FAT type.
- **Directory records** (`Directory`, `LongNames`, `Records`):
  - `__openEntry` decodes one 32-byte record, with `createDatetime` (`Datetime`)
    decoding its timestamps.
  - The record loop of `getChildren` becomes a fold, `DecodeAll`, over the
    records it reads. The fold follows the 0x00, 0xE5 and 0x05 markers, builds
    short names, and reassembles long names from reversed 13-unit fragments.
  - The records a directory scan reads are a function of the image: the fixed
    root area, or the passes along the cluster chain.
- **The registries** (`Registry`). The `openedEntry` and `openedFile` intrusive
  lists become a class, `Image`. It holds:
  - the open-entry list, as handles with the newest first;
  - each entry's list of open files;
  - the decoded entry and file state of each handle;
  - a counter that hands out fresh handles, standing in for `malloc`.

  Every method keeps the invariant `Valid()`: the lists have no duplicates,
  the maps have exactly the listed handles, each file belongs to an open entry,
  and no handle is ever reused.
- **`getChildren`, the path functions and `readFile`** (`Scan`, `Paths`,
  `Reader`). These are imperative methods on an `Image`, proved against the
  specification functions:
  - `Children` and `Returned` for `getChildren`;
  - `FindName` and `Resolve` for `getChildEntry`, `getDescendantEntry`,
    `openEntry` and `getEntry`;
  - `Clamp`, `ChainRead` and `FileByte` for `readFile`.
- **String helpers** (`Text`). `reverseString` and `trimEnd` work in place on an
  `array`. `startsWith` and `wcstok` splitting are functions on sequences.

Where fat.c departs from the FAT format, the model follows fat.c:

- The width thresholds are `< 4086` and `< 65526`, one above the format's.
- The seconds are `(time & 0x1F) << (1 + tenth / 100)`, not
  `2 * count + tenth / 100`.
- The 0x05 escape is applied before the long-name test, so a long-name record
  with ordinal 5 passes the first-record test.
- A 0x00 record ends only the current cluster's pass.
- The scan also reads the out-of-range "cluster" that ends a chain.
- A short name gets a dot only when the archive flag is set. Without it, base
  and extension run together: "HELLO   TXT" becomes "HELLOTXT".

## Model

| member | source | states |
|---|---|---|
| Bytes.Get16Le16 | fat.c:412-417 | `get16` reads back any 16-bit value from its little-endian encoding |
| Bytes.Le16Get16 | fat.c:412-417 | any two bytes are the little-endian encoding of the value `get16` reads from them, so no bit is lost |
| Bytes.Get32Le32 | fat.c:420-427 | `get32` reads back any 32-bit value from its little-endian encoding |
| Bytes.Le32Get32 | fat.c:420-427 | any four bytes are the encoding of the value `get32` reads from them |
| Bytes.ReadBytes | fat.c:458 | `fread` of n bytes at an offset gives n bytes, byte i being the image byte at offset + i |
| Geometry.ClusterSize | fat.c:467-468 | the u16-by-u8 product stays below 2^24 and is positive when both boot-sector fields are |
| Geometry.OpenImage | fat.c:464-525 | the geometry is consistent (a positive cluster size, the FAT type's cluster end, clusterSize / 32 records per subdirectory pass); FAT12 iff the data cluster count is below 4086, FAT16 iff it is in [4086, 65526), FAT32 iff it is at least 65526 |
| Geometry.SelectFATTypeBoundaries | fat.c:495-512 | 4085 clusters select FAT12, 4086 select FAT16, 65525 select FAT16 and 65526 select FAT32 |
| Geometry.SelectFATTypeMonotone | fat.c:495-512 | more data clusters never select a narrower FAT |
| Geometry.DataOffsetOfClusterTwo | fat.c:474-518 | cluster 2 starts right after the root area on FAT12/16 (rootOffset + 32 * rootEntryCount) and right after the FATs on FAT32 (fatOffset + bps * fatSectors32 * fatCount), despite the u64 rebasing by two clusters |
| Geometry.RootDirectoryPlacement | fat.c:475-525 | on FAT32 the root is the boot sector's root cluster, rootOffset is that cluster's data offset and the root holds clusterSize / 32 records; on FAT12/16 the root cluster is 0, rootOffset is the end of the FATs and the root holds rootEntryCount records |
| Geometry.DataOffsetNext | fat.c:552-555 | while nothing wraps, neighbouring clusters start one cluster size apart |
| ClusterChain.NextCluster | fat.c:568-612 | the next cluster never exceeds 0xFFF on FAT12, 0xFFFF on FAT16 and 0x0FFFFFFF on FAT32 |
| ClusterChain.Fat12ReadsPacked | fat.c:568-589 | when the three bytes at fatOffset + (c/2)*3 pack two 12-bit entries, even c reads the first and c + 1 reads the second |
| ClusterChain.Fat12PackRead | fat.c:568-589 | any three FAT12 bytes are the packing of the two entries read from them, so FAT12 decoding loses nothing |
| ClusterChain.Fat12Example | fat.c:568-589 | bytes 03 40 00 hold 0x003 for cluster 0 and 0x004 for cluster 1 |
| ClusterChain.Fat16ReadsEncoded | fat.c:592-599 | a FAT16 entry holding the little-endian encoding of v yields v |
| ClusterChain.Fat32ReadsEncoded | fat.c:602-612 | a FAT32 entry holding the encoding of v yields v without its top four bits |
| Datetime.CreateDatetime | fat.c:240-257 | year in [1980, 2107], month below 16, day below 32, hour below 32, minute below 64, seconds at most 31 * 8, milliseconds below 10000 |
| Datetime.DecodeEncode | fat.c:248-254 | decoding an encoded date and time gives back year, month, day, hour and minute; the seconds are the two-second count shifted by 1 + tenth / 100; the milliseconds are tenth * 100 mod 10000 |
| Datetime.EncodeDecode | fat.c:248-252 | re-encoding the decoded fields gives the date word and the time word back, so no bit is lost |
| Datetime.SecondsMatchFormatIff | fat.c:253 | fat.c's seconds equal the format's 2 * count + tenth / 100 exactly when tenth is below 100 |
| Directory.AttributeBits | fat.c:640-645 | the six attribute flags of a decoded entry are exactly the low six bits of byte 11 |
| Directory.RootEntryDecodes | fat.c:797-807 | the record `openEntry` builds for the root decodes to an empty-named, zero-sized directory (not a file, no other flag) whose cluster is the root cluster, so `getIsRoot` holds for it (fat.c:852-855) |
| Directory.Fragment | fat.c:918-945 | a long-name record adds at most 13 units to the name, none of them NUL |
| Directory.FragmentAsWritten | fat.c:937-945 | the same bound for fat.c's own padding |
| Directory.TerminatedPadding | fat.c:937-945 | on a record the scan is defined on (a first fragment with a NUL), the model's padding is fat.c's |
| Directory.ShortNameExample | fat.c:956-978 | "HELLO   TXT" is named "HELLO.TXT" with the archive flag and "HELLOTXT" without it |
| Directory.DecodeAllEntries | fat.c:1003-1013 | the scan keeps the entries opened before it and adds exactly one per record that is neither deleted nor a long-name record |
| Directory.DecodeAllConcat | fat.c:888-1025 | scanning a concatenation is scanning the first part and continuing from its state, with the name buffer carried over, as between clusters; the buffer bound splits the same way |
| Directory.LongRunScan | fat.c:915-948 | a run of live long-name records opens no entry and leaves the accumulated name extended by all the run's fragments in order |
| Directory.LongRunFits | fat.c:915-948 | a run of live long-name records fits the 256-unit buffer exactly when the whole accumulated name, with all the run's fragments, stays below 256 units |
| Directory.LongRunThenShort | fat.c:915-1013 | a run of live long-name records followed by the record that ends it opens exactly one entry. The entry is named by all the accumulated fragments, reversed and trimmed, or by the short name when nothing was accumulated. The name buffer is emptied, and the run fits exactly when its total does |
| Directory.DeletedRecordsIgnored | fat.c:905-908 | removing a deleted record changes neither the scan's result nor whether its names fit |
| Directory.EscapeOnRecords | fat.c:910-913 | the escape turns a leading 0x05 into 0xE5 and changes nothing else; on a long-name record it adds the first-record mark |
| Directory.PadFirstKeepsFullFragment | fat.c:937-945 | with the corrected padding, a NUL-free fragment mistaken for the first one keeps all its units |
| LongNames.LongNameRoundTrip | fat.c:915-1001 | the long-name records of a storable name, followed by its short record, fit the name buffer and open exactly one entry, named by the long name and described by the short record |
| LongNames.LongNameDefined | fat.c:910-947 | fat.c is defined on the records of a storable long name exactly when the name's length is not a multiple of 13 and at most 65, and on those names the round trip is fat.c's own |
| LongNames.LongNameTerminated | fat.c:937-945 | every first-flagged record of a long name carries a NUL exactly when the length is not a multiple of 13 and at most 65 |
| LongNames.RecordTerminated | fat.c:910-945 | a non-first long-name record with NUL-free units is taken for an unterminated first record exactly when its ordinal is 5 |
| LongNames.FullLastRecordAsWritten | fat.c:937-947 | a 13-unit name's marked record is unterminated. fat.c's padding blanks its 13 units and overwrites the terminator, after which fat.c's `wcscat` is undefined; the corrected padding keeps the name's units |
| LongNames.OrdinalFiveAsWritten | fat.c:910-947 | the record with ordinal 5 of a name of six or more records is unterminated after the escape; fat.c blanks its 13 units, where the corrected padding keeps them |
| Records.PassRecords | fat.c:895-903 | one pass reads at most the per-pass maximum of records |
| Records.PassRecordsAt | fat.c:895-903 | a pass is the consecutive records from its offset, none starting with 0x00, and it stops short of the maximum only at a record starting with 0x00 |
| Records.ChainRecordsVisits | fat.c:1017-1024 | the scan visits the chain up to and including the first cluster that is out of range, which is scanned before the loop stops |
| Records.FixedRootScannedOnce | fat.c:873-1021 | on FAT12/16 the root (cluster 0) is the fixed root area, scanned once with the boot sector's root entry count |
| Records.Fat32RootFollowsChain | fat.c:873-1024 | on FAT32 the root is scanned from the root cluster along its chain, like any directory |
| Scan.Returned | fat.c:1029-1036 | of the entries opened, the u16 count hands back the last \|es\| mod 2^16, in the order they were opened |
| Scan.ReturnedAll | fat.c:1029-1036 | below 2^16 children every opened child is returned |
| Scan.ChildrenCount | fat.c:1003-1010 | a directory has as many children as it has records that are neither deleted nor part of a long name |
| Scan.OpenChild | fat.c:1003-1013 | opening a child adds the decoded entry under the accumulated name to the registries and counts it modulo 2^16 |
| Scan.ScanRecord | fat.c:898-1014 | one record of the loop moves the scan state and the registries exactly as one `Step` of the fold |
| Scan.ScanPass | fat.c:895-1015 | the record loop leaves name, opened entries and registries as the fold over the pass's records |
| Scan.ScanClusters | fat.c:893-1025 | the cluster loop leaves them as the fold over the first pass and the passes along the chain |
| Scan.ScanDirectory | fat.c:870-1025 | scanning a directory opens exactly its `Children`, in directory order, and counts them modulo 2^16 |
| Scan.CollectChildren | fat.c:1030-1036 | the result holds the first `count` handles of the open list reversed |
| Scan.ChildrenHandles | fat.c:1029-1036 | those handles are the last `count` entries opened, in the order they were opened |
| Scan.GetChildren | fat.c:861-1039 | a non-directory fails (NotDirectory) and changes nothing; a directory registers exactly its `Children` and returns the last \|Children\| mod 2^16 of them as fresh handles in directory order |
| Registry.Image.constructor | fat.c:440-528 | the geometry is `openImage`'s, nothing is open, and the registries are valid |
| Registry.Image.Push | fat.c:632-636 | a fresh handle heads the open-entry list, with the entry recorded and no open files; nothing else changes |
| Registry.Image.OpenEntry | fat.c:622-658 | the record's decoded entry is registered under a fresh handle at the head of the list, with no open files |
| Registry.Image.CopyEntry | fat.c:664-687 | a fresh handle at the head holds the same fields as the base entry and has no open files |
| Registry.Image.OpenFile | fat.c:1047-1072 | fails (NotFile) and changes nothing unless the entry is a file; otherwise a fresh file at position 0 in the entry's first cluster heads the entry's file list |
| Registry.Image.MoveFile | fat.c:1162-1168 | only the file's position and cluster change |
| Registry.Image.CloseFile | fat.c:1075-1093 | unlinks exactly that file from its entry's list (the others keep their order) and forgets it |
| Registry.Image.CloseFilesOf | fat.c:834-841 | closes every open file of the entry and nothing else |
| Registry.Image.CloseEntry | fat.c:817-849 | unlinks exactly that entry (the others keep their order), forgets it and closes all its files |
| Registry.Image.CloseImage | fat.c:534-549 | nothing stays open |
| Registry.PushRegistered | fat.c:632-636 | opening an entry at the head keeps the registry invariant, with a handle not in use |
| Registry.OpenFileRegistered | fat.c:1064-1069 | opening a file at the head of its entry's list keeps the invariant |
| Registry.CloseFileRegistered | fat.c:1077-1090 | unlinking a file from anywhere in its entry's list keeps the invariant |
| Registry.CloseEntryRegistered | fat.c:819-832 | unlinking an entry whose files are all closed keeps the invariant |
| Registry.NothingOpen | fat.c:534-549 | with no entry open, no file is open either |
| Paths.FindName | fat.c:706-714 | the position found holds the name and no earlier child has it; with no such child it is the count |
| Paths.FindChild | fat.c:706-714 | a child is found exactly when one has the name, and it is the first |
| Paths.CloseOthers | fat.c:716-723 | closes every returned child except the one found, from the last down |
| Paths.SelectChild | fat.c:704-734 | leaves the registries with only the match kept and returns it, or NotFound (127) when no child has the name |
| Paths.GetChildEntry | fat.c:693-735 | opens the children, keeps the first whose name equals `name` under a new handle at the head of the list and closes the others; fails with NotFound (127) when none matches |
| Paths.ChildFacts | fat.c:693-735 | after `getChildEntry` the registries only grow, by the children left past the u16 count and the match, which is a fresh handle naming the first returned child called `name` |
| Paths.LookupFacts | fat.c:704-734 | the same, stated for the registries the two loops of `getChildEntry` leave behind |
| Paths.Resolve | fat.c:761-786 | an empty path resolves to the start; a failure is NotFound on a non-empty path; a success is named by the last segment |
| Paths.NoLeakInSmallDirectories | fat.c:693-735 | along directories of fewer than 2^16 children nothing is left open |
| Paths.StepDown | fat.c:767-777 | one step looks the segment up among the current entry's children and closes the current entry |
| Paths.WalkOn | fat.c:765-778 | a step of the walk either fails, and then the walk has resolved to that failure, or moves on to the child found |
| Paths.GetDescendantEntry | fat.c:741-787 | the result is `Resolve` of the `wcstok` segments from a copy of the parent; each step closes the entry before it and the first failure returns no entry |
| Paths.ResolvedExactly | fat.c:741-787 | with nothing left open, success adds exactly the resolved entry under a fresh handle and failure leaves the registries as they were |
| Paths.OpenEntryByPath | fat.c:793-814 | resolves the path from the root entry built for the root cluster; the root itself stays open |
| Paths.GetEntry | fat.c:1192-1209 | a path starting with "/" is resolved from the root, any other from the base entry |
| Reader.Clamp | fat.c:1122-1126 | the request cut to the file: never more than asked for or than remains, and equal to one of the two |
| Reader.ClampAsWritten | fat.c:1122-1126 | fat.c's cut with the u32 sum agrees with the corrected one while position + size stays below 2^32 |
| Reader.ClampAsWrittenOverruns | fat.c:1122-1126 | when position + size wraps, fat.c's cut gives back the whole request, more than remains in the file |
| Reader.QuotIsDiv | fat.c:1129-1130 | the quotient and remainder the model computes are the `/` and `%` of fat.c |
| Reader.ChainRead | fat.c:1129-1160 | the cluster loop reads exactly n bytes |
| Reader.ChainReadAt | fat.c:1129-1160 | byte i of a read is byte (po + i) mod clusterSize of the cluster (po + i) / clusterSize steps along the chain |
| Reader.OpenedPositioned | fat.c:1068-1069 | `openFile` leaves the file's cluster holding its position |
| Reader.ReadDelivers | fat.c:1113-1160 | from a positioned file, byte i of the read is the file's byte position + i, found along the chain from its first cluster |
| Reader.ReadKeepsPositioned | fat.c:1147-1162 | the cluster the read ends in holds the new position |
| Reader.PositionedRead | fat.c:1099-1162 | a read from a positioned file delivers the file's bytes and leaves the file positioned |
| Reader.DoubleAdvanceLosesPosition | fat.c:1164-1168 | after fat.c's extra step the file is positioned only if the chain stands still at the cluster the loop ended in |
| Reader.ReadWhole | fat.c:1145-1153 | the full clusters of a read, entered one step along the chain each, are the middle of the chain read |
| Reader.ReadClusters | fat.c:1128-1160 | the cluster loop yields the chain read of n bytes from the current cluster and ends in the cluster that read ends in |
| Reader.ReadFile | fat.c:1099-1171 | nothing is read when nothing is asked for or the file is at its end; otherwise n is the request cut to the file (positive), the bytes are the chain read and the file moves past them; from a positioned file the bytes are the file's bytes and the file stays positioned |
| Reader.ReadFileAsWritten | fat.c:1099-1171 | the same with fat.c's cut and fat.c's extra `getNextCluster` when the new position is a multiple of the cluster size |
| Text.Reversed | fat.c:143-152 | the reversal has the same length and puts unit i at position \|s\| - 1 - i |
| Text.ReversedInvolution | fat.c:143-152 | reversing twice gives the string back |
| Text.ReversedConcat | fat.c:143-152 | reversing a concatenation reverses and swaps its parts |
| Text.ReversedHas | fat.c:143-152 | reversal keeps exactly the units the string holds |
| Text.TrimEnd | fat.c:155-177 | the result is a prefix that does not end in a space, and everything cut off is spaces |
| Text.TrimEndIdempotent | fat.c:155-177 | trimming twice is trimming once |
| Text.TrimEndSpaces | fat.c:155-177 | appending spaces does not change the trimmed form |
| Text.UntilNul | fat.c:947 | the C string a buffer holds is the prefix before its first NUL |
| Text.ReverseString | fat.c:143-152 | the first `length` units of the buffer are reversed in place and the rest are unchanged |
| Text.TrimEndInPlace | fat.c:155-177 | the buffer gets a NUL right after the last non-space of its first `length` units, when that is inside them, and is otherwise unchanged |
| Text.StartsWith | fat.c:180-183 | true exactly when the prefix is a prefix of the string |
| Text.Segments | fat.c:763-776 | every token is non-empty and holds no "/" |
| Text.SegmentsJoinPath | fat.c:763-776 | splitting a path joined from non-empty, slash-free segments gives those segments back |
| Text.SegmentsIgnoreSlash | fat.c:763-776 | a leading "/", a trailing "/" and a "/" doubled anywhere in a path each leave its list of components unchanged |
| Text.SegmentsTrailingSlash | fat.c:763-776 | appending "/" to any path leaves its components unchanged |
| Text.SegmentsDoubledSlash | fat.c:763-776 | doubling a "/" anywhere in a path leaves its components unchanged |

## Left out

- `ByteAt` and `ReadBytes` read zero past the end of the image. In fat.c, `fgetc` returns EOF there, so `getNextCluster12/16/32` (fat.c:568-612) yield 0xFFF, 0xFFFFFFFF or 0x0FFFFFFF, and a short `fread` (fat.c:898, 1130-1162) leaves stale bytes in the buffer. The model does not follow reads past the image.
- NextCluster: its bound of 0xFFFF on FAT16 holds because of that zero fill. With EOF, fat.c's FAT16 step would be 0xFFFFFFFF.
- `DirectoryRecords` follows a chain for at most `clusterEnd` clusters. A chain that stays in range that long has a cycle. A 0x00 record ends only the pass over the current cluster (fat.c:900-903), and the exit test of fat.c:1018-1020 looks only at the cluster number. So on any in-range cycle the loop of fat.c:893-1025 never ends. The fuel cut stands in for that non-termination, which the model does not capture.
- Allocation failures are not modelled (`malloc`, `calloc` and `fopen` returning NULL, and the error codes of fat.c:443-454, 888, 980-996 and 1003-1008). Copies of names and timestamps are value copies.
- `Openable`: `openImage` divides by `bytePerSector` and `sectorPerCluster` (fat.c:492-493). The constructor and `OpenImage` require both to be non-zero.
- `PathDefined`: the path functions require every entry looked up along a path to be a directory. On a non-directory, `getChildren` returns `(u16)-1` with a NULL list, the `count < 0` test at fat.c:699 can never fire, and fat.c:707-723 reads through the NULL list. `GetChildren` itself models the NotDirectory failure.
- `ScanDefined` and `RecordsDefined`: the scan requires the directory not to hit either case in which fat.c's behaviour is undefined:
  - a long name growing past the 256-unit buffer (fat.c:888, 947);
  - a first-flagged long-name record with no NUL, whose padding overwrites the terminator (fat.c:937-947).
  `LongNameDefined` says which long names meet this requirement.
- Wide characters are unbounded integers (`WChar = int`). Every unit comes from a byte or a 16-bit field. `toWide` (fat.c:81-108) is locale-dependent and is not modelled; `GetEntry` takes the wide path.
- The shared file cursor is not modelled (`fseek`, `ftell`, `SEEK_SET`), and neither are files larger than 2^32 bytes.
- `wcscmp` becomes sequence equality. Names and path segments hold no NUL.
- `Registry.Image.CloseEntry` closes the entry's files before unlinking the entry, where fat.c unlinks first (fat.c:819-841). The final state is the same.
- The presentation layer (`printHelp`, `printChildren`, `printTree`, `printDatetime`, `printInfo`, `printData`, `printMeta`) and the `main` loop (fat.c:1176-1529) are not modelled.
- `getBasenameAndExtension` (fat.c:186-207) is used only for display and is not modelled.
- Entries that `getChildren` opens beyond the 2^16 it can count stay open. The model counts them (`Leaked`) but does not return them.
- `Reader.ReadFile` and `Reader.ReadFileAsWritten` require a consistent geometry (`geometry.Valid()` with a non-zero cluster size), because `readFile` divides by the cluster size.
- ReadFileAsWritten: requires position + size < 2^32. Beyond that, fat.c's cut wraps (`ClampAsWrittenOverruns`), the read runs past the end of the file and `file->position` wraps. This method does not follow that case; the wrap is shown at the level of the cut.

## Findings

| source | as written | input that shows it | evidently intended | confidence | as-written member | corrected member |
|---|---|---|---|---|---|---|
| fat.c:1122 | the surplus is computed from the u32 sum `file->position + size`, which wraps past 2^32 | position 1, size 0xFFFFFFFF, file size 10: the sum wraps to 0, there is no surplus, and the whole request is read | cut the request to what is left of the file, file size - position, computed without wrap-around | not executed | Reader.ClampAsWritten, Reader.ClampAsWrittenOverruns | Reader.Clamp, Reader.ReadFile |
| fat.c:1164-1168 | after a read that ends on a cluster boundary, `file->cluster` is stepped again, although the loop (fat.c:1156) has already entered the cluster that holds the new position | a file of 512-byte clusters longer than 512 bytes, read 512 bytes from position 0: fat.c:1156 enters the second cluster, which holds byte 512, and fat.c:1167 steps on to the third | step the cluster only when the loop has not already entered the cluster of the new position | not executed | Reader.ReadFileAsWritten, Reader.DoubleAdvanceLosesPosition | Reader.ReadFile, Reader.PositionedRead |
| fat.c:937-947 | a first-flagged long-name record with no NUL has all 13 units blanked and its terminator overwritten, so the following `wcscat` reads past `subName` (undefined behaviour) | a 13-unit name; or a name of 66 or more units, whose ordinal-5 record the 0x05 escape turns into a first record | keep the units of a fragment that has no NUL filler | not executed | LongNames.FullLastRecordAsWritten, LongNames.OrdinalFiveAsWritten, Directory.FragmentAsWritten | Directory.Fragment, LongNames.LongNameRoundTrip, LongNames.LongNameDefined |
