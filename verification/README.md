# Verified model of the VMDK reader

This project models a library that presents VMware virtual disk images as flat byte streams,
repairs reads through a redundant index, overlays snapshot layers, joins multi-file disks, and
audits the same on-disk structure with a second, independent parser. Every component is proved
against one object, the abstract disk of `Image.dfy`:

- `Lookup(img, fb, off)` resolves a virtual offset through the grain directory and grain tables
  (section 4.1 of Virtual Disk Format 1.1), with (`fb`) or without the redundant directory;
- `Slice(img, fb, off)` is everything one read at `off` can return;
- `Disk(img, fb)` is the flat byte stream of an image on which no read fails or stalls (`Sound`).

`Reference.dfy` writes the same meaning down once more, in plain arithmetic on the bytes of the
file, and proves the two equal in every format.

None of these knows about caches, cursors, short reads or what was read before. The readers are
classes whose methods move a cursor, fill buffers in place and update a grain-table cache; each
method's contract ties its effect to the abstract disk. A file is an immutable byte sequence
behind a cursor (`Source`), and one `read` of it may be short: at least one byte when any remain.

| file | what it holds |
|---|---|
| `Wrappers.dfy`, `Arith.dfy`, `Bytes.dfy`, `Text.dfy`, `Source.dfy` | results, machine integers, little-endian decoding, string operations, the byte source |
| `Header.dfy`, `Descriptor.dfy`, `Open.dfy` | header and descriptor parsers, opening the three binary formats |
| `Reference.dfy`, `OpenForm.dfy`, `DescriptorForm.dfy` | the formats once more in plain arithmetic on bytes and text: which byte an offset stands for, which files open, what a written descriptor parses to |
| `Image.dfy`, `Reader.dfy`, `Session.dfy` | the abstract disk, the reader over it, whole runs of the reader |
| `Recovery.dfy`, `DamagedFile.dfy`, `RecoverDump.dfy`, `LostHole.dfy` | what the redundant directory restores, on images, on files and in a dump, and what it does not |
| `Scan.dfy`, `Copy.dfy` | the allocation scan, positioned reads, full and sparse dumps |
| `Forensic.dfy`, `Audit.dfy`, `SeSparseAudit.dfy`, `Analyse.dfy`, `EmptyDisk.dfy`, `PackedAudit.dfy`, `SeFailure.dfy`, `BuiltAudit.dfy` | the second parser, its verdicts, what each verdict means for the reader, and files it misses |
| `ChainOpen.dfy`, `Chain.dfy`, `ChainSession.dfy` | parent hints and chains of paths, the chain reader and its overlay, whole runs over a chain |
| `ChainExact.dfy`, `ChainMask.dfy`, `ChainFile.dfy` | for which grain sizes the overlay holds, a chain for which it does not, opening a chain from its files |
| `Extents.dfy`, `Flat.dfy`, `MultiSparse.dfy` | extents laid end to end, flat and sparse multi-file readers |
| `Builder.dfy`, `ExtentBuilder.dfy` | the image builders, and reading back what they wrote |

## Where the code and its promises part

Five properties the documentation or the code's intent suggests do not hold on all inputs. Each
is proved with the condition under which it does, and with files that open and fail it.

- **Recovery of a hole.** A directory slot that was a hole (0) and is overwritten by a pointer is
  not restored: the redundant slot is 0 too, so the dangling primary pointer is used and the read
  fails. `Recovery.RecoveryIsExact` shows that fallback restores every byte if and only if the
  damaged image has no primary pointer where its redundant directory has a hole, which can be
  checked without the undamaged image. `LostHoles.HoleDamageIsNotRecovered` is a validated file
  and its damaged copies.
- **Two parsers.** An empty VMDK4 disk whose directory offset lies past the end of the file opens
  but has no audit layout (`Audits.TwoParsersAgree` is the equivalence,
  `EmptyDisks.EmptyDiskHasNoLayout` a file). A seSparse directory address that wraps around 64
  bits is followed by the reader and not read by the audit, which reports the image clean
  (`SeSparseAudits.SeParsersAgree`, `SeFailures.WrappedDirectoryPassesAudit`).
- **Overlay of unequal grains.** The chain clamps each read to the smallest grain size.
  `ChainExactness.OverlayIffMultiples`: for all grain sizes a file can open with, every chain of
  files with these sizes reads as the overlay of its layers if and only if the smallest size
  divides all the others, apart from 2^32 - 1 sectors, a size of which no disk has two grains.
  `ChainMasks.ChainHidesData` is, for any VMDK4 size and any smaller one that does not divide it,
  a delta and its base that open as a chain and hide data.
- **Clean seSparse audit.** The audit does not look at entry types the reader refuses.
  `SeSparseAudits.CleanSeAudit`: after a clean audit every read succeeds if and only if no in-range
  entry has such a type; `SeFailures.UnknownTypePassesAudit` is a clean file for every such entry.
- **Clean audit of a compressed image.** The audit stops at the markers and does not look at what
  is behind them. `PackedAudits.CleanPackedAudit`: after a clean audit no table and no marker
  access fails, and every read makes progress if and only if every payload behind a marker has a
  size the reader admits, lies in the file and decodes past the read's offset;
  `PackedAudits.OversizedMarkerPassesAudit` is a clean file that does not read for every
  inadmissible marker size.

Smaller observations: a chain whose 65th layer names a parent is refused even when that layer has
no parent hint and would have ended a shorter chain (the depth is checked before the hint,
core/src/chain.rs:60-76); the second bounds check of `rgd_gte` (core/src/recovery.rs:119-122)
cannot fire, since the whole table has been checked before.

## Model

| member | source | states |
|---|---|---|
| Bytes.Le32RoundTrip | core/src/bytes.rs:10-13 | decoding a little-endian word recovers every 32-bit value that was encoded |
| Bytes.LeTable32 | core/src/bytes.rs:16-19 | every whole entry decodes in place and a trailing partial entry is dropped |
| Bytes.TableRoundTrip | core/src/bytes.rs:16-19 | decoding a packed table recovers every table that was encoded |
| Texts.TrimCharIs | core/src/chain.rs:164-171 | `trim_matches`: a text is the trimmed one between two runs of the character, which starts and ends with another |
| Texts.TrimCharOf | core/src/chain.rs:164-171 | quoting is undone: what does not hold the character comes back from between any runs of it |
| Texts.LinesOfText | core/src/descriptor.rs:86-91 | splitting into lines undoes ending each line |
| Texts.NumeralValue | core/src/descriptor.rs:95-101 | reading a numeral gives its number, in every radix up to 16, leading zeros or not |
| Sources.Source.ReadExactAt | core/src/lib.rs:325-328 | repeated short reads yield exactly the requested bytes, or an end-of-file error when the file does not hold them all |
| Builders.SparseRange | core/src/header.rs:49-133 | the headers the parser can return are exactly those with version 1 to 3, compression exactly in version 3, 8 to 65536 sectors a grain and 1 to 512 entries a table |
| Builders.SparseParses | core/src/header.rs:49-133 | which 512 bytes parse and as what, byte by byte: exactly those that hold the magic and the fields of an acceptable header in their places; flags and the other bytes are free |
| ExtentBuilders.CowdHeaderParses | core/src/cowd.rs:41-70 | parsing inverts encoding for every COWD header with a non-zero grain size |
| ExtentBuilders.CowdRange | core/src/cowd.rs:41-70 | the COWD headers the parser can return are exactly those with a non-zero grain size |
| ExtentBuilders.CowdParses | core/src/cowd.rs:41-70 | the same for COWD: magic, version 1, capacity and a non-zero grain size, the rest free |
| ExtentBuilders.SeHeaderParses | core/src/sesparse.rs:64-105 | parsing inverts encoding for every seSparse header with 8-sector grains |
| ExtentBuilders.SeRange | core/src/sesparse.rs:64-105 | the seSparse headers the parser can return are exactly those with 8-sector grains |
| ExtentBuilders.SeParses | core/src/sesparse.rs:64-105 | the same for seSparse: magic, version, 8-sector grains, 64-sector tables, capacity and the three offsets, the rest free |
| Descriptors.ParseTextDescriptor | core/src/descriptor.rs:71-128 | the one-pass parser with checked running sums returns the kept extents in order with their exact sector sums, and an overflow error exactly when one of the two sums does not fit 64 bits |
| Descriptors.FlatSumGrows | core/src/descriptor.rs:86-116 | a running sum over a prefix of the lines never exceeds the final sum, so the checked add fails early only if the whole sum overflows |
| DescriptorForms.IndentFree | core/src/descriptor.rs:86-91 | blanks before and after a line do not matter |
| DescriptorForms.HexCapitals | core/src/descriptor.rs:95-101 | a content identifier reads alike in capitals |
| DescriptorForms.NoHex | core/src/descriptor.rs:95-101 | one that is no number reads as 0xffffffff |
| DescriptorForms.FlatLineReads | core/src/descriptor.rs:137-194 | a file-backed extent line, in any spacing, parses to its size, its quoted or bare name, and 512 times its offset, saturated, 0 when absent |
| DescriptorForms.HoleLineReads | core/src/descriptor.rs:164-172 | a ZERO or NOACCESS line parses to a hole of its size |
| DescriptorForms.SparseLineReads | core/src/descriptor.rs:199-233 | a sparse extent line parses to its size and name, and to no flat extent |
| DescriptorForms.DescriptorRoundTrip | core/src/descriptor.rs:71-128 | a descriptor written out line by line parses to exactly what was written, sums included, or to the overflow error when a sum does not fit |
| DescriptorForms.NulEndsText | core/src/descriptor.rs:71-86 | whatever follows a NUL is not part of the descriptor |
| DescriptorForms.HintReads | core/src/chain.rs:164-171 | the parent hint is what stands between the quotes of the first hint line, whatever other lines there are |
| DescriptorForms.HintRoundTrip | core/src/chain.rs:164-171 | the parent of a written descriptor is the name written, and there is none when none was |
| DescriptorForms.DescribedDisk | core/src/lib.rs:854-876 | a flat descriptor, written, parsed and opened over its files, is the stated bytes of those files and the stated holes, end to end |
| DescriptorForms.SpanMissing | core/src/flat.rs:28-55 | an extent whose file is missing is a not-found error |
| Opening.NumTablesIsCeil | core/src/lib.rs:245-255 | checked add-then-divide computes the rounded-up table count |
| Opening.OpenedIsValid | core/src/lib.rs:213-316 | every opened image gives each in-range offset a directory slot (so the absent-entry default is never taken) and has no slot beyond the disk |
| Opening.ReadDescriptor | core/src/lib.rs:181-205 | reads and parses at most 64 KiB of embedded descriptor, or none, with parse failures reported as invalid data |
| Opening.ReadGdOffset | core/src/lib.rs:268-277 | the directory offset comes from the footer exactly when the header holds the sentinel |
| Opening.OpenSparse | core/src/lib.rs:230-316 | the VMDK4 branch yields the image, metadata or error its checked geometry prescribes, with every overflow, cap and short read an error |
| Opening.OpenCowd | core/src/lib.rs:466-501 | the COWD branch does the same for COWD geometry |
| Opening.OpenSe | core/src/lib.rs:429-461 | the seSparse branch does the same, under the directory size cap |
| Opening.Open | core/src/lib.rs:213-316 | opening dispatches on the magic and gives a valid reader at position 0 with an empty cache, no recovery and a zero counter, or the prescribed error |
| OpenForms.SparseOpensIff | core/src/lib.rs:230-316 | for every file with the fields of a VMDK4 header: it opens exactly when size, table count, descriptor and directory (from the header or the footer) are as stated on its bytes, and as the stated image |
| OpenForms.CowdOpensIff | core/src/cowd.rs:77-108 | the same for COWD: 512 times the capacity, the directory at byte 2048, tables of 4096 |
| OpenForms.SeOpensIff | core/src/lib.rs:429-470 | the same for seSparse: the wrapped directory address, at most 16 MiB of directory, 512 times the capacity |
| OpenForms.OpensIff | core/src/lib.rs:213-230 | a file opens exactly when it is one of the three forms, whole |
| References.ReadsReference | core/src/read.rs:44-298 | in every format, every mode and on every image, the first byte of a read, or its error, is what plain arithmetic on the bytes of the file gives, and so is every further byte |
| References.DiskIsReference | core/src/read.rs:44-298 | a sound image's disk is the reference bytes |
| References.PackedReads | core/src/read.rs:187-250 | the byte of a compressed grain is the byte of its decoded payload at the offset in the grain |
| References.SeNamedGrain | core/src/read.rs:82-91 | a seSparse entry that names grain k reads as the file's bytes 8 k sectors after the grain area starts |
| References.AllocatedIsReference | core/src/lib.rs:508-556 | the allocation query answers by the reference arithmetic, errors included, in all formats |
| References.ScanIsReference | core/src/lib.rs:590-724 | after a successful scan a grain is listed at its own sectors exactly when the reference tables name data for it |
| References.ScanSucceedsIff | core/src/lib.rs:590-724 | the scan succeeds exactly when every table it has to read lies in the file, in all formats and both modes; hole slots never matter |
| Images.SliceShift | core/src/read.rs:254-298 | a read resumed k bytes later sees the rest of the same slice, so chunking does not matter |
| Images.SliceHolds | core/src/read.rs:254-298 | every byte of a slice is the disk byte at its own offset |
| Images.LookupShift | core/src/read.rs:53-214 | moving inside a grain moves the file location by the same amount, for holes, stored, packed and wrapped seSparse addresses |
| Images.HoldsIsDisk | core/src/read.rs:254-298 | on a sound image the bytes read are a slice of the flat disk |
| Readers.VmdkReader.constructor | core/src/lib.rs:295-315 | a wrapped image starts at 0, with an empty cache and recovery off |
| Readers.VmdkReader.EnableRgdFallback | core/src/recovery.rs:15-17 | sets the flag and nothing else |
| Readers.VmdkReader.RgdDirEntry | core/src/recovery.rs:59-76 | the redundant slot, or 0 when there is no redundant directory or the slot is outside it or the file |
| Readers.VmdkReader.ResilientGtSector | core/src/recovery.rs:31-55 | the primary pointer unless only the redundant one names a table inside the file |
| Readers.VmdkReader.ReadRedundantGt | core/src/recovery.rs:80-98 | the redundant table's bytes exactly when the whole table lies in the file |
| Readers.VmdkReader.RgdGteAt | core/src/recovery.rs:103-126 | one entry of the redundant table, 0 when it is out of reach |
| Readers.VmdkReader.CachedTable | core/src/read.rs:147-161 | cache hit or miss, the table is the file's table at the resolved sector, and the cache stays in agreement with the file |
| Readers.VmdkReader.ResolveEntry | core/src/read.rs:134-186 | pointer-level then entry-level recovery gives the abstract entry, and the counter rises by one exactly when the redundant directory answered |
| Readers.VmdkReader.LocateEntry | core/src/read.rs:187-214 | a non-hole entry is a file offset, or a compression marker with its size cap checked |
| Readers.VmdkReader.SeReadGte | core/src/lib.rs:562-583 | absent for a zero directory entry, an error for a malformed one, else the entry at the computed address |
| Readers.VmdkReader.GrainLocationSe | core/src/read.rs:53-97 | the seSparse lookup is the abstract one, unknown entry types being errors |
| Readers.VmdkReader.GrainLocation | core/src/read.rs:44-50 | the cached, counting lookup is the abstract lookup, whatever was looked up before |
| Readers.VmdkReader.ReadCompressedGrain | core/src/read.rs:217-250 | delivers the requested part of the decoded grain; more than a grain of output is refused |
| Readers.VmdkReader.Read | core/src/read.rs:254-298 | a read delivers a non-empty prefix of the slice at the cursor and advances by it, returns 0 only at the end of the disk or file, and on error changes neither cursor nor buffer |
| Readers.VmdkReader.Seek | core/src/read.rs:302-316 | moves to the signed target, or refuses a negative one and moves nothing |
| Readers.SeekArithmetic | core/src/read.rs:302-316 | where nothing wraps a seek goes to the start, the cursor or the end plus its distance; a start past the signed range is negative |
| Readers.VmdkReader.IsAllocated | core/src/lib.rs:508-556 | primary-only allocation of the grain under a sector, in recovery mode too |
| Readers.VmdkReader.IterAllocatedGrains | core/src/lib.rs:590-724 | the nested scan loops return exactly the abstract listing or the first unreadable table's error, and the counter rises by the recovered entries of the tables read, failed scans included |
| Readers.VmdkReader.ScanTable | core/src/lib.rs:684-721 | one table's loop extends the listing and the counter by that table's grains |
| Readers.ListStep | core/src/lib.rs:708-720 | one entry extends the listing and the recovered set by at most itself |
| Readers.ScanEntry | core/src/lib.rs:687-711 | the scan's whole-table view of an entry and of its recovery is the lookup's view |
| Sessions.Perform | core/src/read.rs:254-316 | each operation of the reader is a step of a machine whose state is cursor, flag and counter only |
| Sessions.PerformAll | core/src/read.rs:147-161 | after any sequence of operations the cache agrees with the file and every answer was the cache-free machine's |
| Sessions.HistoryIndependent | core/src/read.rs:254-298 | two reads at equal position and flag, in any two runs, agree on their common length or fail alike |
| Sessions.AnswersDetermined | core/src/lib.rs:508-724 | seeks, allocation queries and scans are functions of position and flag |
| Sessions.FlagHistory | core/src/recovery.rs:15-17 | at any point of a run the flag is on exactly when it was on at the start or some operation enabled it |
| Sessions.CountIsExact | core/src/read.rs:181-183 | over any run the counter is exactly the lookups and scanned entries the redundant directory answered |
| Sessions.ReadsAreContiguous | core/src/read.rs:254-298 | a run of reads in any chunking is one contiguous stretch of the disk |
| Sessions.ValidRun | README.md:167 | on an image with a valid redundant directory, a run in recovery mode answers as a run without it and its counter never moves |
| Recovery.FallbackMeaning | core/src/recovery.rs:31-126 | with fallback a lookup finds the primary grain, else the redundant one, else a hole, failing only when both tables are out of reach and the primary slot is not a hole |
| Recovery.FallbackIsConservative | core/src/read.rs:134-186 | on every image, a grain found without fallback is found with it, and the redundant directory is credited exactly when it supplies a grain the primary does not |
| Recovery.EntryRecovered | core/src/read.rs:163-186 | after damage, an entry under a kept slot is the undamaged entry, or both are sparse |
| Recovery.SliceRecovered | core/src/read.rs:254-298 | where the directory slot kept its hole, a fallback read of the damaged image is the undamaged read |
| Recovery.LostHoleFails | core/src/recovery.rs:31-55 | a hole turned into a dangling pointer makes reads of its range fail |
| Recovery.HolesKeptIsVisible | core/src/recovery.rs:31-55 | whether a hole was lost can be told from the damaged image alone |
| Recovery.RecoveryIsExact | core/src/recovery.rs:31-126 | after any loss of primary pointers and entries, fallback reads the undamaged bytes everywhere if and only if the damaged image has no primary pointer where its redundant directory has a hole |
| Recovery.RecoveredDisk | core/src/recovery.rs:31-126 | under that condition a sound image's disk is recovered whole |
| Recovery.ScanIsRecovered | core/src/lib.rs:656-723 | the fallback scan succeeds under the same condition, lists what the undamaged scan lists, and counts exactly the grains the primary tables lost |
| LostHoles.HoleDamageIsNotRecovered | core/src/recovery.rs:31-55 | a file that opens and validates, and for every pointer its hole can be overwritten with a damaged copy that opens and does not read |
| Recovery.ValidRgdLookup | core/src/recovery.rs:31-126 | with a valid redundant directory every lookup is the same in both modes and none is credited to it |
| Recovery.ValidRgdScan | core/src/lib.rs:590-724 | with a valid redundant directory the scan succeeds, is the same in both modes and recovers nothing |
| DamagedFiles.DamagedStillOpens | core/src/lib.rs:213-316 | a file damaged outside header, descriptor and footer still opens, changing nothing but directory entries |
| DamagedFiles.RecoverDamagedFile | docs/validation.md:196-201 | end to end on files: a validated file, damaged in its primary tables, reads and scans as the original with fallback if and only if the damaged file has no primary pointer over a redundant hole |
| Scans.ListedMembers | core/src/lib.rs:590-724 | the listing holds exactly the reported grains |
| Scans.ListedShape | core/src/lib.rs:708-718 | each record is a whole grain at a multiple of the grain size below the end of the disk |
| Scans.ListedOrder | core/src/lib.rs:590-724 | starts are strictly increasing |
| Scans.ListedVolume | core/src/lib.rs:708-718 | the listed sectors exceed the disk by less than one grain |
| Scans.ScanExact | core/src/lib.rs:590-724 | after a successful scan a grain is listed exactly when a lookup in it finds stored data, in both modes |
| Scans.ScanAgreesWithIsAllocated | core/src/lib.rs:508-556 | without fallback the listing and the sector query agree on every sector, although one reads whole tables and the other single entries |
| Copying.VmdkSource.ReadAt | core/src/vfs.rs:47-69 | wherever the cursor was, fills from the offset with disk bytes; on a sound image exactly the smaller of the buffer and what is left |
| Copying.CopyN | cli/src/main.rs:430-443 | appends the disk's bytes to the output, short only where the stream ends, and leaves the cursor after them |
| Copying.CopiedIsDisk | cli/src/main.rs:430-443 | on a sound image a bounded copy moves exactly the disk slice at the cursor |
| Copying.Dump | cli/src/main.rs:320-354 | on any image and also when it fails, the raw dump has written what the disk holds from the offset on, at most to the clamped end, short only at a stall or at the read whose error it reports; on a sound image it is the requested disk slice |
| Copying.DumpLengthIs | cli/src/main.rs:320-326 | a dump below the end is of the smaller of the length and what is left, of all that is left without a length, and of nothing from the end on |
| Copying.UncoveredIsZero | cli/src/main.rs:391-394 | a byte no listed grain covers reads as zero |
| Copying.DumpAllocatedOnly | cli/src/main.rs:378-427 | on any image each byte of the output is the disk byte where copying its listed grain reaches it and zero elsewhere, and a failure is the scan's or a read's; on a sound image that is the whole disk, in both modes, including a partial last grain |
| RecoverDumps.DumpCommand | cli/src/main.rs:298-427 | the whole command, in either mode and for either dump: a file that does not open is its open error; success means the dump's bytes have been written; on a sound image it succeeds and writes the part of the disk asked for |
| RecoverDumps.RecoverDump | docs/validation.md:196-201 | end to end: dumping a damaged copy of a validated, sound file in recovery mode, raw or allocated-only, succeeds and writes the original's disk if and only if the copy has no primary pointer over a redundant hole, and then every range dumped is the original's |
| Copying.RebuiltIsDisk | cli/src/main.rs:395-413 | on a sound image what the listed grains rebuild is the disk |
| Copying.SoundScans | core/src/lib.rs:590-724 | a sound VMDK4 or COWD disk always scans, so its reconstruction never fails |
| Forensics.InBoundsExact | forensic/src/lib.rs:462-468 | saturation never decides a bounds check on a real file |
| Forensics.VmdkIntegrity.Layout | forensic/src/lib.rs:295-345 | the second parser returns its layout or nothing, for every byte sequence |
| Forensics.VmdkIntegrity.ReadRgd | forensic/src/lib.rs:361-377 | the redundant directory, bounds-checked as a whole |
| Forensics.VmdkIntegrity.ValidateRgd | forensic/src/lib.rs:383-408 | true exactly when there is a readable redundant directory and every slot pair is two holes or two tables of equal contents |
| Forensics.VmdkIntegrity.GrainDirectoryRecovery | forensic/src/lib.rs:412-460 | the triage counters are the cardinalities of the damaged, recoverable and intact slot sets |
| Forensics.VmdkIntegrity.CheckIntegrity | forensic/src/lib.rs:473-512 | the report counts exactly the dangling tables, the walked grains and those of them past the end of the file |
| Forensics.VmdkIntegrity.CheckIntegritySe | forensic/src/lib.rs:514-573 | the same for seSparse, on saturating addresses |
| Audits.TwoParsersAgree | forensic/src/lib.rs:295-345 | for an opened VMDK4 image the audit has a layout exactly when the directory is non-empty or its offset is in the file, and it is then the reader's directory, geometry and redundant offset |
| OpenForms.SparseLayoutIff | forensic/src/lib.rs:295-345 | on every file with the fields of a VMDK4 header, whether it opens or not, the audit has a layout exactly when the directory is small and in the file, and which |
| OpenForms.LayoutHasForm | forensic/src/lib.rs:295-345 | the audit has no other layouts |
| Audits.NonEmptyHasLayout | forensic/src/lib.rs:295-345 | every opened disk of non-zero size has a layout |
| EmptyDisks.EmptyDiskHasNoLayout | forensic/src/lib.rs:484-486 | a concrete file that opens, has no layout, and is reported clean |
| Audits.CleanMeansInside | forensic/src/lib.rs:488-511 | the report is clean if and only if every table and grain pointer stays inside the file |
| Audits.ReportMeans | forensic/src/lib.rs:473-512 | the whole report in the reader's terms: the grains its readable tables name, those of them not wholly in the file, and the pointers without a readable table |
| Audits.CleanAuditIsSound | forensic/src/lib.rs:473-512 | if an uncompressed VMDK4 image opens and is reported clean, every in-range read succeeds and reaches the end of its grain or disk |
| PackedAudits.CleanPackedAudit | core/src/read.rs:187-250 | if a compressed VMDK4 image opens and is reported clean, no table or marker access of an in-range read fails, and every in-range read makes progress if and only if every payload behind a marker has an admissible size, lies in the file and decodes past the read's offset |
| PackedAudits.OversizedMarkerPassesAudit | core/src/read.rs:187-214 | for every inadmissible marker size, a compressed file that opens, is reported clean and cannot be read |
| Audits.TableBytesDecide | forensic/src/lib.rs:395-406 | two tables have equal bytes exactly when they decode equally |
| Audits.ValidateIsRgdValid | forensic/src/lib.rs:383-408 | given a layout, the verdict is true if and only if every slot agrees in the reader's sense |
| Audits.ValidatedRecoveryIsNoOp | README.md:167 | a true verdict makes every read and the whole scan identical with fallback on and off, crediting nothing to the redundant directory |
| Audits.RecoverableIsResolved | forensic/src/lib.rs:436-457 | a slot counts as recoverable exactly when the resolver answers it with the redundant pointer |
| Audits.TriageTotals | forensic/src/lib.rs:412-460 | on every file intact and damaged make the total, recoverable and lost make the damaged |
| Audits.TriageAgreesWithResolver | forensic/src/lib.rs:412-460 | the recoverable count is the number of slots fallback resolves; damaged minus dangling is the slots lost to zero; a true verdict leaves none damaged |
| Audits.TriageMeans | forensic/src/lib.rs:412-460 | all six counters in the reader's terms: nothing without a redundant directory; the dangling slots, all lost, when it is not in the file; dangling and zeroed slots, minus those fallback resolves, when it is |
| SeSparseAudits.DecodeEncode | core/src/sesparse.rs:49-51 | every 60-bit grain index is named by an allocated entry |
| SeSparseAudits.EncodeDecode | core/src/sesparse.rs:49-51 | an allocated entry is determined by its grain index |
| SeSparseAudits.DistinctEntriesDisjoint | core/src/sesparse.rs:49-51 | distinct allocated entries name disjoint file ranges |
| SeSparseAudits.SeParsersAgree | forensic/src/lib.rs:514-534 | on an opened seSparse image the audit finds a layout exactly when the directory address does not wrap, and it is then the reader's directory |
| OpenForms.SeLayoutIff | forensic/src/lib.rs:514-534 | on every file with the fields of a seSparse header, the audit has a layout exactly when the exact directory address is in the file |
| SeSparseAudits.SeReportMeans | forensic/src/lib.rs:514-573 | the whole seSparse report in the reader's exact addresses: the grains the readable tables name, those not wholly in the file, and the non-zero directory entries without a readable table |
| SeSparseAudits.SeCleanMeansInside | forensic/src/lib.rs:514-573 | the seSparse report is clean if and only if every directory entry is 0 or names a table in the file and every allocated entry a grain in the file |
| SeSparseAudits.WrappedIsClean | forensic/src/lib.rs:524-529 | an image whose directory address wraps is reported clean unread |
| SeSparseAudits.TableAddressExact | forensic/src/lib.rs:538-555 | for a readable table the saturating, wrapping and exact addresses coincide and the table is inside the file |
| SeSparseAudits.GrainAddressExact | forensic/src/lib.rs:556-569 | for an accepted entry the same holds of its grain |
| SeSparseAudits.CleanSeSlice | core/src/read.rs:53-97 | after a clean audit a read fails exactly on entry types the reader does not know, and otherwise reaches the end of its grain |
| SeSparseAudits.CleanSeAudit | forensic/src/lib.rs:514-573 | after a clean audit with an unwrapped directory the disk is sound if and only if every in-range entry has a known type |
| SeSparseAudits.CleanSeScans | core/src/lib.rs:590-655 | after a clean audit the seSparse scan succeeds |
| SeFailures.UnknownTypePassesAudit | forensic/src/lib.rs:556-560 | for every unknown entry, a file that opens, is reported clean and cannot be read |
| SeFailures.WrappedDirectoryPassesAudit | core/src/sesparse.rs:112-148 | a file whose wrapped directory leads the reader to a dangling table while the audit reports it clean |
| Analyses.Analyse | forensic/src/lib.rs:599-652 | the findings are the report of `FindingsAre`: those of the separate analyses, none lost or invented, severities never increasing |
| Analyses.FindingsAre | forensic/src/lib.rs:576-652 | the sorted findings one by one: each of the seven is present exactly on its own condition, high before medium before low |
| Analyses.SortOrders | forensic/src/lib.rs:599-652 | sorting puts the most severe findings first |
| Analyses.SortKeepsFindings | forensic/src/lib.rs:599-652 | sorting by severity is a permutation |
| Analyses.QuietImageIsHealthy | forensic/src/lib.rs:599-652 | no findings on an uncompressed VMDK4 image that opens means every read succeeds and fallback changes none |
| BuiltAudits.BuiltSparseIsQuiet | core/src/testutil.rs:80-122 | for every input the built VMDK4 file, whose grain ends with the file, has a clean report of one grain, a validated redundant directory, one intact slot and no finding |
| BuiltAudits.BuiltSeIsClean | core/src/testutil.rs:137-199 | for every input the built seSparse file, whose grain ends with the file, has a clean report of one grain |
| ChainOpening.ResolvedInside | core/src/descriptor.rs:13-30 | a resolved extent or parent name stays below its base directory |
| DescriptorForms.ResolvesBelow | core/src/descriptor.rs:13-30 | a relative name resolves to its components below the base |
| DescriptorForms.DotsVanish | core/src/descriptor.rs:13-30 | empty and `.` components do not matter |
| DescriptorForms.RefusesEscape | core/src/descriptor.rs:13-30 | an absolute name, or one with a parent component, is refused |
| ChainFiles.OpenChain | core/src/chain.rs:42-98 | for every parent graph the walk ends; it succeeds exactly when a chain within the limit exists, and the chain reader is built on readers of that chain's 1 to 65 layers, newest first; a failure is the error of the path the walk stops at, or the depth error |
| ChainOpening.FailedHasNoChain | core/src/chain.rs:42-98 | a walk that stops in an error refutes every accepted chain |
| ChainFiles.OpenFiles | core/src/chain.rs:42-142 | walk, clamp and overlay together: over a directory of binary files, a chain whose grain sizes are multiples of the smallest (with the same exemption) reads as its overlay |
| ChainOpening.CycleHasNoChain | core/src/chain.rs:42-98 | a parent cycle has no chain, so opening it fails |
| ChainOpening.ChainUnique | core/src/chain.rs:42-98 | the chain from a path is unique |
| ChainOpening.DepthLimit | core/src/chain.rs:18-98 | of a chain that ends, up to 64 layers are accepted, and 65 when the last has no parent |
| DescriptorForms.ParentIsBeside | core/src/chain.rs:68-98 | a layer whose written parent is not 0xffffffff goes on to the written name, below the directory the layer is in |
| Chains.MinGrainIsMin | core/src/chain.rs:86-91 | the clamp is one of the layers' grain sizes and no larger than any |
| Chains.VmdkChainReader.FindLayer | core/src/chain.rs:126-136 | the loop stops at the first layer that does not answer no |
| Chains.VmdkChainReader.Read | core/src/chain.rs:112-142 | whatever the grain sizes and the past, a read delivers a non-empty prefix of what the first answering layer holds in the clamp block, or of zeros when none answers, or that layer's error |
| Chains.AnsweringMeans | core/src/chain.rs:126-136 | the layer that answers is the newest allocated one |
| Chains.ChainSliceIsOverlay | core/src/chain.rs:112-142 | when the clamp divides every grain size, each byte a read can return is the newest allocated layer's byte or zero |
| Chains.SoundChainNeverStalls | core/src/chain.rs:112-142 | over sound layers every chain read below the end succeeds and makes progress |
| Chains.VmdkChainReader.Seek | core/src/chain.rs:146-160 | moves to the signed target, or refuses a negative one and moves nothing |
| ChainExactness.OverlayIffMultiples | core/src/chain.rs:86-91 | every chain of files that open with given grain sizes reads as its overlay, at every position, if and only if the smallest size divides all the others, apart from 2^32 - 1 sectors, of which no disk has two grains |
| ChainExactness.OpenedInGrains | core/src/cowd.rs:41-107 | every file opens with one of the sizes that theorem ranges over, and a disk with the largest has one grain at most |
| Chains.BlockUniform | core/src/chain.rs:86-91 | inside a clamp block no layer's allocation changes before the layer ends |
| Chains.LayerBytesAreOverlay | core/src/chain.rs:112-142 | bytes from the layer chosen by the first sector are the merged bytes |
| Chains.ZerosAreOverlay | core/src/chain.rs:112-142 | zeros filled because the first sector is unallocated everywhere are the merged bytes |
| Chains.OverlayUnique | core/src/chain.rs:112-142 | the merged byte is unique |
| Chains.SoundLayersNeverFail | core/src/chain.rs:112-142 | over sound layers no chain read fails or stalls below the end |
| ChainMasks.ChainHidesData | core/src/chain.rs:42-142 | for any VMDK4 grain size and any smaller size, VMDK4 or COWD, that does not divide it, two files linked by a parent hint that open as a chain and do not read as its overlay |
| ChainMasks.ChainFollows | core/src/chain.rs:164-171 | the delta's embedded descriptor leads the walk to its base |
| ChainSessions.PerformAll | core/src/chain.rs:112-160 | over any sequence of seeks and reads every answer is the image-level one, and with a dividing clamp every byte returned is the merged byte at its position |
| ChainSessions.RunsAgree | core/src/chain.rs:112-142 | two chain runs with different pasts agree on every byte both return |
| Extents.FindTile | core/src/sparse_multi.rs:126-130 | the linear search returns the first covering extent, or that there is none |
| Extents.FindIsTotal | core/src/sparse_multi.rs:126-130 | the search succeeds exactly below the end, and finds the only covering extent |
| Extents.WrappedIsExact | core/src/flat.rs:28-55 | wrapping positions are exact as long as the whole sum fits 64 bits |
| Extents.NoOverlap | core/src/sparse_multi.rs:126-130 | no two extents overlap |
| Extents.TileSlice | core/src/flat.rs:59-83 | from a position in an extent to its end, the concatenation is the rest of that extent |
| Flats.OpenExtents | core/src/flat.rs:28-55 | the extents in order or the first one's error, at positions and with a total that are the sums modulo 64 bits; without overflow the parts tile the range and the total is the sector sum |
| Flats.MultiExtentReader.Read | core/src/flat.rs:59-83 | a read delivers a non-empty prefix of what the covering extent holds, or the covering error |
| Flats.MultiExtentReader.Seek | core/src/flat.rs:86-101 | moves to the signed target, or refuses a negative one and moves nothing |
| Flats.FlatReadsConcat | core/src/flat.rs:59-83 | over in-bounds extents a read anywhere sees the concatenation of file slices and zeros |
| Flats.NeverDryIffInBounds | core/src/flat.rs:59-83 | reads never run dry before the end if and only if every extent lies inside its file |
| Flats.SpansTotal | core/src/flat.rs:28-55 | the reader's total is the descriptor's sector sum in bytes |
| Flats.OpenFlat | core/src/lib.rs:854-876 | success means parser sum, reader total and virtual size are one number; failure is the parser's, the first extent's, or the overflow of that number |
| Flats.FlatServes | core/src/flat.rs:59-83 | what one read over in-bounds extents delivers, a read of a plain file holding their concatenation could deliver, and it runs dry exactly when that file does |
| Flats.FlatDisk | core/src/lib.rs:858-876 | the flat image over a multi-extent reader is sound, its disk is the concatenation, and each disk byte is the first the reader delivers there |
| MultiSparses.OpenExtent | core/src/sparse_multi.rs:38-117 | one extent's own header code yields its directory and geometry or the prescribed error |
| MultiSparses.OpenEntries | core/src/sparse_multi.rs:30-124 | all extents in order or the first error, at positions that are the sums modulo 64 bits; without overflow the chunks tile the range |
| MultiSparses.MultiSparseReader.Read | core/src/sparse_multi.rs:134-199 | a read delivers a non-empty prefix of what one grain of the covering chunk holds, or the entry's error |
| MultiSparses.MultiSparseReader.Seek | core/src/sparse_multi.rs:202-216 | moves to the signed target, or refuses a negative one and moves nothing |
| MultiSparses.OpensAlike | core/src/sparse_multi.rs:30-124 | on a file the single-file reader opens, this header code succeeds exactly when the directory is not in the footer, and finds the same directory and geometry |
| MultiSparses.SameSlice | core/src/sparse_multi.rs:134-199 | wherever the table-caching reader can read, the single-entry reader sees the same bytes |
| MultiSparses.MultiReadsConcat | core/src/sparse_multi.rs:134-199 | reads equal the concatenation of the single-file readers' disks over the same extents |
| MultiSparses.MultiServes | core/src/lib.rs:877-885 | what one read over such extents delivers, a read of a plain file holding the concatenated disks could deliver, and it runs dry exactly when that file does |
| MultiSparses.EntriesOpenAlike | core/src/sparse_multi.rs:30-124 | extents that each open alone open together, into the same images |
| Builders.ParseEncoded | core/src/header.rs:49-133 | parsing inverts encoding for every header a writer may choose |
| Builders.BuildHeader | core/src/testutil.rs:30-53 | the in-place field writes produce that encoding |
| Builders.BuildSparse | core/src/testutil.rs:80-122 | the builder produces header, descriptor, both directories, table and grain in their places |
| Builders.HeaderOpens | core/src/lib.rs:213-316 | a file with the fields of any acceptable header, whatever its other bytes, opens, as that header's image, when its descriptor parses and its directory lies in it |
| Builders.SparseOpens | core/src/testutil.rs:205-247 | a built file opens exactly when its descriptor parses |
| Builders.SparseReadsBack | core/src/testutil.rs:80-122 | reading a built file gives its hole grains as zeros and then the data, zero-padded or cut to a grain, in both modes |
| Builders.TestSparseVmdk | core/src/testutil.rs:24-74 | for every input the built sparse image opens and its disk is the input, zero-padded or cut to a grain |
| Builders.NoAccessParses | core/src/descriptor.rs:136-227 | a descriptor without the letters every access keyword needs names no extent and always parses |
| Builders.DecodePadded | core/src/descriptor.rs:246-255 | a zero-filled ASCII descriptor decodes to its text |
| ExtentBuilders.TestCowdVmdk | core/src/testutil.rs:294-337 | for every input the built COWD image opens and its disk is the input, zero-padded or cut to a grain |
| ExtentBuilders.CowdReadsBack | core/src/testutil.rs:294-337 | the COWD image's disk, in both modes |
| ExtentBuilders.TestSeSparseVmdk | core/src/testutil.rs:137-199 | for every input the built seSparse image opens and its disk is the input, zero-padded or cut to a grain |
| ExtentBuilders.SeReadsBack | core/src/testutil.rs:137-199 | the seSparse image's disk, in both modes |

## Left out

- I/O errors of the device itself: a `Source` fails only at the end of its file or on a negative seek.
- zlib (RFC 1950), the descriptor encodings other than ASCII, and hashing: inflate and the text decoder are arbitrary functions, hashing is absent.
- Audits.CleanAuditIsSound: covers uncompressed images; `PackedAudits.CleanPackedAudit` says what a clean report leaves open for compressed ones.
- ChainFiles.OpenFiles: covers directories of binary files; `ChainFiles.OpenChain` takes any outcome of `open_path` per path, so a text-descriptor layer enters it as an image.
- MultiSparses.EntriesOpenAlike: a descriptor size other than the header's capacity is modelled but not related to the single-file reader.
- The remaining branches of `open_path` (custom types, `into_file_reader`): routing only. Multi-file sparse disks are wrapped as flat streams and report every sector allocated.
- Mutexes, buffering, real paths and symbolic links: a file is a byte sequence, a directory a map from paths to files.
- seSparse bit operations are written as division and remainder; its plain 64-bit sums and products wrap explicitly.
- `cmd_diff`, information and hash commands, text and JSON rendering, progress output and exit codes of the command line.
- The stream-optimised, oversized-marker and decompression-bomb image builders.
- Damage that leaves a wrong pointer inside the file, or a wrong entry above 1: the recovery code does not claim to notice it.
- Finding notes, codes and evidence strings: `Analyse.dfy` keeps only which findings are raised and their severity.
