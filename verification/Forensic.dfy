/**
 The forensic audit (forensic/src/lib.rs): a second parser of the same structure, and the
 verdicts computed from it. Every read is bounds-checked first, so no analysis can fail: the
 methods return plain values for every byte sequence.
 */
module Forensics {
  import opened Wrappers
  import opened Arith
  import opened Bytes
  import opened Headers
  import opened Images
  import opened Sources
  import opened Opening

  /** The reparsed VMDK4 layout. */
  datatype SparseLayout = SparseLayout(
    grainDir: seq<u32>,
    rgdOffset: u64,
    ngte: nat,
    grain: nat,
    gdCount: nat,
    fileLen: nat)

  datatype IntegrityReport = IntegrityReport(grainsChecked: nat, outOfBoundsGrains: nat, outOfBoundsTables: nat)
  {
    predicate IsOk() {
      outOfBoundsGrains == 0 && outOfBoundsTables == 0
    }
  }

  const CLEAN_REPORT := IntegrityReport(0, 0, 0)

  datatype GdRecoveryReport = GdRecoveryReport(
    hasRgd: bool,
    totalEntries: nat,
    primaryIntact: nat,
    primaryDamaged: nat,
    recoverableViaRgd: nat,
    unrecoverable: nat)

  const NO_RECOVERY := GdRecoveryReport(false, 0, 0, 0, 0, 0)

  // ── the second parser ─────────────────────────────────────────────────────

  function LayoutTables(hdr: SparseHeader): nat
    requires hdr.grainSize > 0 && hdr.numGtes > 0
  {
    DivCeil(DivCeil(hdr.capacity, hdr.grainSize), hdr.numGtes)
  }

  /** The directory offset, from the footer of a streamed image. */
  function LayoutGdOffset(file: File, hdr: SparseHeader): Option<u64> {
    if hdr.gdOffset != GD_AT_END then Some(hdr.gdOffset) else
    if |file| < 1024 then None else
    var footer := ParseSparse(file[|file| - 1024..|file| - 512]);
    if footer.Err? then None else Some(footer.value.gdOffset)
  }

  /** The layout a parsed header leads to, by saturating arithmetic. */
  function LayoutFrom(file: File, hdr: SparseHeader): Option<SparseLayout>
    requires hdr.grainSize > 0 && hdr.numGtes > 0
  {
    var numGts := LayoutTables(hdr);
    var gdLen := SatMul(numGts, 4);
    if gdLen > MAX_GD_BYTES then None else
    var gdOffset := LayoutGdOffset(file, hdr);
    if gdOffset.None? then None else
    var gdByte := SatMul(gdOffset.value, SECTOR);
    if SatAdd(gdByte, gdLen) > |file| then None else
    Some(SparseLayout(LeTable32(file[gdByte..gdByte + gdLen]), hdr.rgdOffset, hdr.numGtes,
                      SatMul(hdr.grainSize, SECTOR), numGts, |file|))
  }

  function LayoutOf(file: File): Option<SparseLayout> {
    if |file| < SECTOR then None else
    var hdr := ParseSparse(file[..512]);
    if hdr.Err? then None else LayoutFrom(file, hdr.value)
  }

  /** The layout read back from `file`: its directory length and file length are consistent. */
  ghost predicate LayoutFits(l: SparseLayout, file: File) {
    |l.grainDir| == l.gdCount && l.fileLen == |file| && 1 <= l.ngte <= 512
  }

  lemma LayoutOfFits(file: File)
    requires LayoutOf(file).Some?
    ensures LayoutFits(LayoutOf(file).value, file)
  {
    hide DivCeil;
  }

  predicate InBounds(ptr: u32, ngte: nat, fileLen: nat) {
    ptr != 0 && SatAdd(SatMul(ptr, SECTOR), ngte * 4) <= fileLen
  }

  /** Saturation never decides a bounds check on a real file. */
  lemma InBoundsExact(ptr: u32, ngte: nat, fileLen: nat)
    requires fileLen <= I64_MAX && ngte <= 4096
    ensures InBounds(ptr, ngte, fileLen) <==> ptr != 0 && ptr * SECTOR + ngte * 4 <= fileLen
  {
  }

  /** The grain table at `ptr`, when it lies in the file. */
  function TableAt(file: File, ptr: u32, ngte: nat): Option<seq<byte>> {
    if SatAdd(ptr * SECTOR, ngte * 4) > |file| then None
    else if ngte == 0 then Some([]) else Some(file[ptr * SECTOR..ptr * SECTOR + ngte * 4])
  }

  predicate LayoutHasRgd(l: SparseLayout) {
    l.rgdOffset != 0 && l.rgdOffset != GD_AT_END
  }

  /** `read_rgd`: the redundant directory, bounds-checked as a whole. */
  function RgdOf(l: SparseLayout, file: File): (r: Option<seq<u32>>)
    ensures r.Some? ==> |r.value| == l.gdCount
  {
    if !LayoutHasRgd(l) then None else
    var at := SatMul(l.rgdOffset, SECTOR);
    var len := SatMul(l.gdCount, 4);
    if SatAdd(at, len) > |file| || len != 4 * l.gdCount then None else Some(LeTable32(file[at..at + len]))
  }

  // ── verdicts, declaratively ───────────────────────────────────────────────

  /** One slot of `validate_rgd`: both empty, or both tables readable with equal bytes. */
  ghost predicate SlotMatches(l: SparseLayout, rgd: seq<u32>, file: File, i: nat)
    requires i < |l.grainDir| && i < |rgd|
  {
    var p, r := l.grainDir[i], rgd[i];
    || (p == 0 && r == 0)
    || (p != 0 && r != 0 && TableAt(file, p, l.ngte).Some? && TableAt(file, p, l.ngte) == TableAt(file, r, l.ngte))
  }

  ghost predicate RgdMatches(l: SparseLayout, rgd: seq<u32>, file: File)
    requires |l.grainDir| == |rgd| == l.gdCount
  {
    forall i :: 0 <= i < l.gdCount ==> SlotMatches(l, rgd, file, i)
  }

  /** What `validate_rgd` answers. */
  ghost predicate ValidatesRgd(file: File) {
    var l := LayoutOf(file);
    l.Some? && LayoutFits(l.value, file) && var rgd := RgdOf(l.value, file); rgd.Some? && RgdMatches(l.value, rgd.value, file)
  }

  /** A damaged primary entry: unusable, and not a hole in both directories. */
  predicate EntryDamaged(l: SparseLayout, rgd: seq<u32>, i: nat)
    requires i < |l.grainDir| && i < |rgd|
  {
    !InBounds(l.grainDir[i], l.ngte, l.fileLen) && !(l.grainDir[i] == 0 && rgd[i] == 0)
  }

  predicate EntryRecoverable(l: SparseLayout, rgd: seq<u32>, i: nat)
    requires i < |l.grainDir| && i < |rgd|
  {
    EntryDamaged(l, rgd, i) && InBounds(rgd[i], l.ngte, l.fileLen)
  }

  ghost function DamagedSet(l: SparseLayout, rgd: seq<u32>, n: nat): set<nat>
    requires n <= |l.grainDir| && n <= |rgd|
  {
    set i: nat | i < n && EntryDamaged(l, rgd, i)
  }

  ghost function RecoverableSet(l: SparseLayout, rgd: seq<u32>, n: nat): set<nat>
    requires n <= |l.grainDir| && n <= |rgd|
  {
    set i: nat | i < n && EntryRecoverable(l, rgd, i)
  }

  ghost function IntactSet(l: SparseLayout, rgd: seq<u32>, n: nat): set<nat>
    requires n <= |l.grainDir| && n <= |rgd|
  {
    set i: nat | i < n && !EntryDamaged(l, rgd, i)
  }

  ghost function LostSet(l: SparseLayout, rgd: seq<u32>, n: nat): set<nat>
    requires n <= |l.grainDir| && n <= |rgd|
  {
    set i: nat | i < n && EntryDamaged(l, rgd, i) && !EntryRecoverable(l, rgd, i)
  }

  /** A directory entry whose table lies beyond the end of the file. */
  predicate Dangling(l: SparseLayout, i: nat)
    requires i < |l.grainDir|
  {
    l.grainDir[i] != 0 && !InBounds(l.grainDir[i], l.ngte, l.fileLen)
  }

  ghost function DanglingSet(l: SparseLayout, n: nat): set<nat>
    requires n <= |l.grainDir|
  {
    set i: nat | i < n && Dangling(l, i)
  }

  ghost function NotDanglingSet(l: SparseLayout, n: nat): set<nat>
    requires n <= |l.grainDir|
  {
    set i: nat | i < n && !Dangling(l, i)
  }

  /** `grain_directory_recovery`, by cardinalities. */
  ghost function TriageOf(file: File): GdRecoveryReport {
    var l := LayoutOf(file);
    if l.None? || !LayoutFits(l.value, file) then NO_RECOVERY else
    var rgd := RgdOf(l.value, file);
    if rgd.Some? then TriageWith(l.value, rgd.value)
    else if !LayoutHasRgd(l.value) then NO_RECOVERY
    else TriageWithout(l.value)
  }

  ghost function TriageWith(l: SparseLayout, rgd: seq<u32>): GdRecoveryReport
    requires l.gdCount <= |l.grainDir| && l.gdCount <= |rgd|
  {
    var n := l.gdCount;
    GdRecoveryReport(true, n, |IntactSet(l, rgd, n)|, |DamagedSet(l, rgd, n)|, |RecoverableSet(l, rgd, n)|, |LostSet(l, rgd, n)|)
  }

  /** A header names a redundant directory that does not lie in the file. */
  ghost function TriageWithout(l: SparseLayout): GdRecoveryReport
    requires l.gdCount <= |l.grainDir|
  {
    var n := l.gdCount;
    GdRecoveryReport(true, n, |NotDanglingSet(l, n)|, |DanglingSet(l, n)|, 0, |DanglingSet(l, n)|)
  }

  /** Entry `j` of primary slot `i`; 0 where there is no readable table. */
  function WalkEntry(l: SparseLayout, file: File, i: nat, j: nat): u32 {
    if i < |l.grainDir| && j < l.ngte && l.fileLen == |file| && InBounds(l.grainDir[i], l.ngte, l.fileLen)
       && l.grainDir[i] * SECTOR + l.ngte * 4 <= |file|
    then LeU32(file, l.grainDir[i] * SECTOR + 4 * j) else 0
  }

  /** The walked entry at flat index `g`. */
  function WalkAt(l: SparseLayout, file: File, g: nat): u32
    requires l.ngte > 0
  {
    WalkEntry(l, file, g / l.ngte, g % l.ngte)
  }

  /** The walked entries below flat index `n` that name a grain. */
  ghost function GrainSet(l: SparseLayout, file: File, n: nat): set<nat>
    requires l.ngte > 0
  {
    set g: nat | g < n && WalkAt(l, file, g) > 1
  }

  predicate GrainOutside(l: SparseLayout, gte: u32) {
    SatAdd(gte * SECTOR, l.grain) > l.fileLen
  }

  /** Those whose grain does not lie wholly in the file. */
  ghost function OutsideSet(l: SparseLayout, file: File, n: nat): set<nat>
    requires l.ngte > 0
  {
    set g: nat | g < n && WalkAt(l, file, g) > 1 && GrainOutside(l, WalkAt(l, file, g))
  }

  /** `check_integrity` on a VMDK4 layout, by cardinalities. */
  ghost function SparseReport(l: SparseLayout, file: File): IntegrityReport
    requires l.ngte > 0
  {
    var n := |l.grainDir| * l.ngte;
    IntegrityReport(|GrainSet(l, file, n)|, |OutsideSet(l, file, n)|, |DanglingSet(l, |l.grainDir|)|)
  }

  // ── seSparse audit ────────────────────────────────────────────────────────

  datatype SeLayout = SeLayout(grainDir: seq<u64>, hdr: SeHeader, fileLen: nat)

  /** The seSparse directory, when its header parses and the directory lies in the file. */
  function SeLayoutOf(file: File): Option<SeLayout> {
    if |file| < SECTOR then None else
    var hdr := ParseSe(file[..512]);
    if hdr.Err? then None else
    var gdLen := SatMul(SeTables(hdr.value), 8);
    var gdByte := SatMul(hdr.value.gdOffset, SECTOR);
    if gdLen > MAX_GD_BYTES || SatAdd(gdByte, gdLen) > |file| then None else
    Some(SeLayout(LeTable64(file[gdByte..gdByte + gdLen]), hdr.value, |file|))
  }

  function SeAuditTableByte(l: SeLayout, e: u64): u64 {
    SatMul(SatAdd(l.hdr.gtOffset, SatMul(e % 0x1_0000_0000, SE_GT_SECTORS)), SECTOR)
  }

  function SeAuditGrainByte(l: SeLayout, gte: u64): u64 {
    SatMul(SatAdd(l.hdr.grainsOffset, SatMul(SeGrainIndex(gte), SE_GRAIN_SECTORS)), SECTOR)
  }

  predicate SeTableReadable(l: SeLayout, e: u64) {
    SeDirAllocated(e) && SatAdd(SeAuditTableByte(l, e), SE_GTES_PER_GT * 8) <= l.fileLen
  }

  function SeWalkEntry(l: SeLayout, file: File, i: nat, j: nat): u64 {
    if i < |l.grainDir| && j < SE_GTES_PER_GT && l.fileLen == |file| && SeTableReadable(l, l.grainDir[i])
       && SeAuditTableByte(l, l.grainDir[i]) + SE_GTES_PER_GT * 8 <= |file|
    then LeU64(file, SeAuditTableByte(l, l.grainDir[i]) + 8 * j) else 0
  }

  /** The walked entry at flat index `g`. */
  function SeWalkAt(l: SeLayout, file: File, g: nat): u64 {
    SeWalkEntry(l, file, g / SE_GTES_PER_GT, g % SE_GTES_PER_GT)
  }

  predicate SeGrainOutside(l: SeLayout, gte: u64) {
    SatAdd(SeAuditGrainByte(l, gte), SE_GRAIN_SECTORS * SECTOR) > l.fileLen
  }

  ghost function SeDanglingSet(l: SeLayout, n: nat): set<nat>
    requires n <= |l.grainDir|
  {
    set i: nat | i < n && l.grainDir[i] != 0 && !SeTableReadable(l, l.grainDir[i])
  }

  ghost function SeGrainSet(l: SeLayout, file: File, n: nat): set<nat> {
    set g: nat | g < n && SeType(SeWalkAt(l, file, g)) == SE_ALLOCATED
  }

  ghost function SeOutsideSet(l: SeLayout, file: File, n: nat): set<nat> {
    set g: nat | g < n && SeType(SeWalkAt(l, file, g)) == SE_ALLOCATED && SeGrainOutside(l, SeWalkAt(l, file, g))
  }

  ghost function SeReport(l: SeLayout, file: File): IntegrityReport {
    var n := |l.grainDir| * SE_GTES_PER_GT;
    IntegrityReport(|SeGrainSet(l, file, n)|, |SeOutsideSet(l, file, n)|, |SeDanglingSet(l, |l.grainDir|)|)
  }

  /** `check_integrity`: clean when nothing parses. */
  ghost function ReportOf(file: File): IntegrityReport {
    if |file| < SECTOR then CLEAN_REPORT else
    if LeU64(file, 0) == SE_CONST_MAGIC then
      var se := SeLayoutOf(file);
      if se.None? then CLEAN_REPORT else SeReport(se.value, file)
    else
      var l := LayoutOf(file);
      if l.None? || l.value.ngte == 0 then CLEAN_REPORT else SparseReport(l.value, file)
  }

  // ── counting steps ────────────────────────────────────────────────────────

  lemma DamagedStep(l: SparseLayout, rgd: seq<u32>, n: nat)
    requires n < |l.grainDir| && n < |rgd|
    ensures |DamagedSet(l, rgd, n + 1)| == |DamagedSet(l, rgd, n)| + (if EntryDamaged(l, rgd, n) then 1 else 0)
    ensures |IntactSet(l, rgd, n + 1)| == |IntactSet(l, rgd, n)| + (if EntryDamaged(l, rgd, n) then 0 else 1)
  {
    hide EntryDamaged;
    assert DamagedSet(l, rgd, n + 1) == DamagedSet(l, rgd, n) + (if EntryDamaged(l, rgd, n) then {n} else {});
    assert IntactSet(l, rgd, n + 1) == IntactSet(l, rgd, n) + (if EntryDamaged(l, rgd, n) then {} else {n});
  }

  lemma RecoverableStep(l: SparseLayout, rgd: seq<u32>, n: nat)
    requires n < |l.grainDir| && n < |rgd|
    ensures |RecoverableSet(l, rgd, n + 1)| == |RecoverableSet(l, rgd, n)| + (if EntryRecoverable(l, rgd, n) then 1 else 0)
    ensures |LostSet(l, rgd, n + 1)| ==
            |LostSet(l, rgd, n)| + (if EntryDamaged(l, rgd, n) && !EntryRecoverable(l, rgd, n) then 1 else 0)
  {
    hide EntryDamaged, EntryRecoverable;
    assert RecoverableSet(l, rgd, n + 1) == RecoverableSet(l, rgd, n) + (if EntryRecoverable(l, rgd, n) then {n} else {});
    assert LostSet(l, rgd, n + 1) ==
           LostSet(l, rgd, n) + (if EntryDamaged(l, rgd, n) && !EntryRecoverable(l, rgd, n) then {n} else {});
  }

  lemma DanglingStep(l: SparseLayout, n: nat)
    requires n < |l.grainDir|
    ensures |DanglingSet(l, n + 1)| == |DanglingSet(l, n)| + (if Dangling(l, n) then 1 else 0)
    ensures |NotDanglingSet(l, n + 1)| == |NotDanglingSet(l, n)| + (if Dangling(l, n) then 0 else 1)
  {
    hide Dangling;
    assert DanglingSet(l, n + 1) == DanglingSet(l, n) + (if Dangling(l, n) then {n} else {});
    assert NotDanglingSet(l, n + 1) == NotDanglingSet(l, n) + (if Dangling(l, n) then {} else {n});
  }

  lemma EmptyCounts(l: SparseLayout, rgd: seq<u32>)
    ensures DamagedSet(l, rgd, 0) == {} && RecoverableSet(l, rgd, 0) == {} && DanglingSet(l, 0) == {}
    ensures IntactSet(l, rgd, 0) == {} && LostSet(l, rgd, 0) == {} && NotDanglingSet(l, 0) == {}
  {
  }

  lemma EmptyWalk(l: SparseLayout, file: File)
    requires l.ngte > 0
    ensures GrainSet(l, file, 0) == {} && OutsideSet(l, file, 0) == {}
  {
  }

  lemma WalkStep(l: SparseLayout, file: File, i: nat, j: nat)
    requires j < l.ngte
    ensures var g, e := i * l.ngte + j, WalkEntry(l, file, i, j);
            && |GrainSet(l, file, g + 1)| == |GrainSet(l, file, g)| + (if e > 1 then 1 else 0)
            && |OutsideSet(l, file, g + 1)| == |OutsideSet(l, file, g)| + (if e > 1 && GrainOutside(l, e) then 1 else 0)
  {
    hide WalkEntry, GrainOutside, GrainSet, OutsideSet;
    var g, e := i * l.ngte + j, WalkEntry(l, file, i, j);
    DivModUnique(i, j, l.ngte);
    GrainGrow(l, file, g, e);
  }

  lemma GrainGrow(l: SparseLayout, file: File, g: nat, e: u32)
    requires l.ngte > 0 && e == WalkAt(l, file, g)
    ensures |GrainSet(l, file, g + 1)| == |GrainSet(l, file, g)| + (if e > 1 then 1 else 0)
    ensures |OutsideSet(l, file, g + 1)| == |OutsideSet(l, file, g)| + (if e > 1 && GrainOutside(l, e) then 1 else 0)
  {
    hide WalkAt, GrainOutside;
    assert GrainSet(l, file, g + 1) == GrainSet(l, file, g) + (if e > 1 then {g} else {});
    assert OutsideSet(l, file, g + 1) == OutsideSet(l, file, g) + (if e > 1 && GrainOutside(l, e) then {g} else {});
  }

  /** An unreadable slot contributes no grain. */
  lemma WalkSkip(l: SparseLayout, file: File, i: nat)
    requires l.ngte > 0 && (i < |l.grainDir| ==> !InBounds(l.grainDir[i], l.ngte, l.fileLen))
    ensures |GrainSet(l, file, (i + 1) * l.ngte)| == |GrainSet(l, file, i * l.ngte)|
    ensures |OutsideSet(l, file, (i + 1) * l.ngte)| == |OutsideSet(l, file, i * l.ngte)|
  {
    hide GrainSet, OutsideSet, InBounds;
    for j := 0 to l.ngte
      invariant |GrainSet(l, file, i * l.ngte + j)| == |GrainSet(l, file, i * l.ngte)|
      invariant |OutsideSet(l, file, i * l.ngte + j)| == |OutsideSet(l, file, i * l.ngte)|
    {
      WalkStep(l, file, i, j);
    }
    assert (i + 1) * l.ngte == i * l.ngte + l.ngte;
  }

  lemma SeWalkStep(l: SeLayout, file: File, i: nat, j: nat)
    requires j < SE_GTES_PER_GT
    ensures var g, e := i * SE_GTES_PER_GT + j, SeWalkEntry(l, file, i, j);
            && |SeGrainSet(l, file, g + 1)| == |SeGrainSet(l, file, g)| + (if SeType(e) == SE_ALLOCATED then 1 else 0)
            && |SeOutsideSet(l, file, g + 1)| ==
               |SeOutsideSet(l, file, g)| + (if SeType(e) == SE_ALLOCATED && SeGrainOutside(l, e) then 1 else 0)
  {
    hide SeWalkEntry, SeGrainOutside, SeType, SeGrainSet, SeOutsideSet;
    var g, e := i * SE_GTES_PER_GT + j, SeWalkEntry(l, file, i, j);
    DivModUnique(i, j, SE_GTES_PER_GT);
    SeGrainGrow(l, file, g, e);
  }

  lemma SeGrainGrow(l: SeLayout, file: File, g: nat, e: u64)
    requires e == SeWalkAt(l, file, g)
    ensures |SeGrainSet(l, file, g + 1)| == |SeGrainSet(l, file, g)| + (if SeType(e) == SE_ALLOCATED then 1 else 0)
    ensures |SeOutsideSet(l, file, g + 1)| ==
            |SeOutsideSet(l, file, g)| + (if SeType(e) == SE_ALLOCATED && SeGrainOutside(l, e) then 1 else 0)
  {
    hide SeWalkAt, SeGrainOutside, SeType;
    assert SeGrainSet(l, file, g + 1) == SeGrainSet(l, file, g) + (if SeType(e) == SE_ALLOCATED then {g} else {});
    assert SeOutsideSet(l, file, g + 1) ==
           SeOutsideSet(l, file, g) + (if SeType(e) == SE_ALLOCATED && SeGrainOutside(l, e) then {g} else {});
  }

  lemma SeWalkSkip(l: SeLayout, file: File, i: nat)
    requires i < |l.grainDir| ==> !SeTableReadable(l, l.grainDir[i])
    ensures |SeGrainSet(l, file, (i + 1) * SE_GTES_PER_GT)| == |SeGrainSet(l, file, i * SE_GTES_PER_GT)|
    ensures |SeOutsideSet(l, file, (i + 1) * SE_GTES_PER_GT)| == |SeOutsideSet(l, file, i * SE_GTES_PER_GT)|
  {
    hide SeGrainSet, SeOutsideSet, SeTableReadable;
    for j := 0 to SE_GTES_PER_GT
      invariant |SeGrainSet(l, file, i * SE_GTES_PER_GT + j)| == |SeGrainSet(l, file, i * SE_GTES_PER_GT)|
      invariant |SeOutsideSet(l, file, i * SE_GTES_PER_GT + j)| == |SeOutsideSet(l, file, i * SE_GTES_PER_GT)|
    {
      SeWalkStep(l, file, i, j);
    }
  }

  lemma SeDanglingStep(l: SeLayout, n: nat)
    requires n < |l.grainDir|
    ensures |SeDanglingSet(l, n + 1)| ==
            |SeDanglingSet(l, n)| + (if l.grainDir[n] != 0 && !SeTableReadable(l, l.grainDir[n]) then 1 else 0)
  {
    hide SeTableReadable;
    assert SeDanglingSet(l, n + 1) ==
           SeDanglingSet(l, n) + (if l.grainDir[n] != 0 && !SeTableReadable(l, l.grainDir[n]) then {n} else {});
  }

  // ── the analyzer ──────────────────────────────────────────────────────────

  class VmdkIntegrity {
    const inner: Source

    constructor (inner: Source)
      ensures this.inner == inner
    {
      this.inner := inner;
    }

    /** `sparse_layout`. */
    method Layout() returns (r: Option<SparseLayout>)
      modifies inner
      ensures r == LayoutOf(inner.data)
    {
      hide ParseSparse, DivCeil, LeTable32;
      var fileLen := inner.SeekEnd();
      if fileLen < SECTOR {
        return None;
      }
      var hdrBytes := inner.ReadExactAt(0, 512);
      assert hdrBytes.value == inner.data[..512];
      var parsed := ParseSparse(hdrBytes.value);
      if parsed.Err? {
        return None;
      }
      var hdr := parsed.value;
      var numGrains := DivCeil(hdr.capacity, hdr.grainSize);
      var numGts := DivCeil(numGrains, hdr.numGtes);
      var gdLen := SatMul(numGts, 4);
      if gdLen > MAX_GD_BYTES {
        return None;
      }
      var gdOffset := hdr.gdOffset;
      if hdr.gdOffset == GD_AT_END {
        if fileLen < 1024 {
          return None;
        }
        var footerBytes := inner.ReadExactAt(fileLen - 1024, 512);
        assert footerBytes.value == inner.data[fileLen - 1024..fileLen - 512];
        var footer := ParseSparse(footerBytes.value);
        if footer.Err? {
          return None;
        }
        gdOffset := footer.value.gdOffset;
      }
      var gdByte := SatMul(gdOffset, SECTOR);
      if SatAdd(gdByte, gdLen) > fileLen {
        return None;
      }
      var gd := inner.ReadExactAt(gdByte, gdLen);
      assert gd.value == inner.data[gdByte..gdByte + gdLen];
      return Some(SparseLayout(LeTable32(gd.value), hdr.rgdOffset, hdr.numGtes, SatMul(hdr.grainSize, SECTOR), numGts, fileLen));
    }

    /** `read_grain_table_bytes`. */
    method GrainTableBytes(ptr: u32, ngte: nat) returns (r: Option<seq<byte>>)
      modifies inner
      ensures r == TableAt(inner.data, ptr, ngte)
    {
      if SatAdd(ptr * SECTOR, ngte * 4) > |inner.data| {
        return None;
      }
      var b := inner.ReadExactAt(ptr * SECTOR, ngte * 4);
      return Some(b.value);
    }

    /** `read_rgd`. */
    method ReadRgd(l: SparseLayout) returns (r: Option<seq<u32>>)
      requires LayoutFits(l, inner.data) && l.gdCount * 4 <= U64_MAX
      modifies inner
      ensures r == RgdOf(l, inner.data)
    {
      hide LeTable32;
      if l.rgdOffset == 0 || l.rgdOffset == GD_AT_END {
        return None;
      }
      var rgdByte := SatMul(l.rgdOffset, SECTOR);
      var len := SatMul(l.gdCount, 4);
      if SatAdd(rgdByte, len) > l.fileLen {
        return None;
      }
      var b := inner.ReadExactAt(rgdByte, len);
      assert b.value == inner.data[rgdByte..rgdByte + len];
      return Some(LeTable32(b.value));
    }

    /** `validate_rgd`: compares table contents, not pointers. */
    method ValidateRgd() returns (r: bool)
      modifies inner
      ensures r <==> ValidatesRgd(inner.data)
    {
      hide LayoutOf, RgdOf, TableAt;
      var layout := Layout();
      if layout.None? {
        return false;
      }
      var l := layout.value;
      LayoutOfFits(inner.data);
      LayoutCountSmall(inner.data);
      var directory := ReadRgd(l);
      if directory.None? {
        return false;
      }
      var rgd := directory.value;
      var i := 0;
      while i < l.gdCount
        invariant i <= l.gdCount
        invariant forall k :: 0 <= k < i ==> SlotMatches(l, rgd, inner.data, k)
      {
        var p := l.grainDir[i];
        var r := rgd[i];
        if p == 0 && r == 0 {
          i := i + 1;
          continue;
        }
        if (p == 0) != (r == 0) {
          assert !SlotMatches(l, rgd, inner.data, i);
          return false;
        }
        var pgt := GrainTableBytes(p, l.ngte);
        var rgt := GrainTableBytes(r, l.ngte);
        if !(pgt.Some? && rgt.Some? && pgt.value == rgt.value) {
          assert !SlotMatches(l, rgd, inner.data, i);
          return false;
        }
        i := i + 1;
      }
      return true;
    }

    /** `grain_directory_recovery`. */
    method GrainDirectoryRecovery() returns (r: GdRecoveryReport)
      modifies inner
      ensures r == TriageOf(inner.data)
    {
      hide LayoutOf, RgdOf, InBounds, DamagedSet, RecoverableSet, DanglingSet, IntactSet, LostSet, NotDanglingSet;
      var layout := Layout();
      if layout.None? {
        return NO_RECOVERY;
      }
      var l := layout.value;
      LayoutOfFits(inner.data);
      LayoutCountSmall(inner.data);
      var directory := ReadRgd(l);
      if directory.None? {
        if l.rgdOffset == 0 || l.rgdOffset == GD_AT_END {
          return NO_RECOVERY;
        }
        var intact, damaged := 0, 0;
        EmptyCounts(l, []);
        var i := 0;
        while i < |l.grainDir|
          invariant i <= |l.grainDir|
          invariant damaged == |DanglingSet(l, i)| && intact == |NotDanglingSet(l, i)|
        {
          DanglingStep(l, i);
          if InBounds(l.grainDir[i], l.ngte, l.fileLen) || l.grainDir[i] == 0 {
            intact := intact + 1;
          } else {
            damaged := damaged + 1;
          }
          i := i + 1;
        }
        return GdRecoveryReport(true, l.gdCount, intact, damaged, 0, damaged);
      }
      var rgd := directory.value;
      var intact, damaged, recoverable, lost := 0, 0, 0, 0;
      EmptyCounts(l, rgd);
      var i := 0;
      while i < l.gdCount
        invariant i <= l.gdCount
        invariant damaged == |DamagedSet(l, rgd, i)| && intact == |IntactSet(l, rgd, i)|
        invariant recoverable == |RecoverableSet(l, rgd, i)| && lost == |LostSet(l, rgd, i)|
      {
        DamagedStep(l, rgd, i);
        RecoverableStep(l, rgd, i);
        var p := l.grainDir[i];
        var r := rgd[i];
        if InBounds(p, l.ngte, l.fileLen) || (p == 0 && r == 0) {
          intact := intact + 1;
        } else {
          damaged := damaged + 1;
          if InBounds(r, l.ngte, l.fileLen) {
            recoverable := recoverable + 1;
          } else {
            lost := lost + 1;
          }
        }
        i := i + 1;
      }
      return GdRecoveryReport(true, l.gdCount, intact, damaged, recoverable, lost);
    }

    /** The inner loop of `check_integrity` over one readable grain table. */
    method CheckTable(l: SparseLayout, i: nat, gt: seq<byte>, checked: nat, outside: nat)
      returns (checked': nat, outside': nat)
      requires LayoutFits(l, inner.data) && i < |l.grainDir| && InBounds(l.grainDir[i], l.ngte, l.fileLen)
      requires TableAt(inner.data, l.grainDir[i], l.ngte) == Some(gt)
      requires checked == |GrainSet(l, inner.data, i * l.ngte)| && outside == |OutsideSet(l, inner.data, i * l.ngte)|
      ensures checked' == |GrainSet(l, inner.data, (i + 1) * l.ngte)|
      ensures outside' == |OutsideSet(l, inner.data, (i + 1) * l.ngte)|
    {
      hide LeU32, WalkEntry, GrainSet, OutsideSet, InBounds, TableAt;
      checked', outside' := checked, outside;
      TableWalk(l, inner.data, i, 0, gt);
      var j := 0;
      while j < l.ngte
        invariant j <= l.ngte && |gt| == l.ngte * 4
        invariant checked' == |GrainSet(l, inner.data, i * l.ngte + j)|
        invariant outside' == |OutsideSet(l, inner.data, i * l.ngte + j)|
      {
        TableWalk(l, inner.data, i, j, gt);
        WalkStep(l, inner.data, i, j);
        var gte := LeU32(gt, 4 * j);
        if gte > 1 {
          checked' := checked' + 1;
          var grainByte := gte * SECTOR;
          if SatAdd(grainByte, l.grain) > l.fileLen {
            outside' := outside' + 1;
          }
        }
        j := j + 1;
      }
      assert (i + 1) * l.ngte == i * l.ngte + l.ngte;
    }

    /** `check_integrity`. */
    method CheckIntegrity() returns (r: IntegrityReport)
      modifies inner
      ensures r == ReportOf(inner.data)
    {
      hide LayoutOf, SeLayoutOf, GrainSet, OutsideSet, DanglingSet, InBounds, SeReport, LeU64;
      var fileLen := inner.SeekEnd();
      if fileLen < SECTOR {
        return CLEAN_REPORT;
      }
      var head := inner.ReadExactAt(0, 8);
      LeU64Slice(inner.data, 0, 8, 0);
      if LeU64(head.value, 0) == SE_CONST_MAGIC {
        r := CheckIntegritySe();
        return;
      }
      var layout := Layout();
      if layout.None? {
        return CLEAN_REPORT;
      }
      var l := layout.value;
      LayoutOfFits(inner.data);
      var checked, outside, dangling := 0, 0, 0;
      EmptyWalk(l, inner.data);
      EmptyCounts(l, []);
      var i := 0;
      while i < |l.grainDir|
        invariant i <= |l.grainDir|
        invariant checked == |GrainSet(l, inner.data, i * l.ngte)| && outside == |OutsideSet(l, inner.data, i * l.ngte)|
        invariant dangling == |DanglingSet(l, i)|
      {
        DanglingStep(l, i);
        var gtSector := l.grainDir[i];
        InBoundsExact(gtSector, l.ngte, l.fileLen);
        if gtSector == 0 {
          WalkSkip(l, inner.data, i);
          i := i + 1;
          continue;
        }
        var gt := GrainTableBytes(gtSector, l.ngte);
        if gt.None? {
          dangling := dangling + 1;
          WalkSkip(l, inner.data, i);
          i := i + 1;
          continue;
        }
        checked, outside := CheckTable(l, i, gt.value, checked, outside);
        i := i + 1;
      }
      return IntegrityReport(checked, outside, dangling);
    }

    /** The inner loop of `check_integrity_sesparse`. */
    method CheckSeTable(l: SeLayout, i: nat, gt: seq<byte>, checked: nat, outside: nat)
      returns (checked': nat, outside': nat)
      requires l.fileLen == |inner.data| && i < |l.grainDir| && SeTableReadable(l, l.grainDir[i])
      requires SeAuditTableByte(l, l.grainDir[i]) + SE_GTES_PER_GT * 8 <= |inner.data|
      requires gt == inner.data[SeAuditTableByte(l, l.grainDir[i])..SeAuditTableByte(l, l.grainDir[i]) + SE_GTES_PER_GT * 8]
      requires checked == |SeGrainSet(l, inner.data, i * SE_GTES_PER_GT)|
      requires outside == |SeOutsideSet(l, inner.data, i * SE_GTES_PER_GT)|
      ensures checked' == |SeGrainSet(l, inner.data, (i + 1) * SE_GTES_PER_GT)|
      ensures outside' == |SeOutsideSet(l, inner.data, (i + 1) * SE_GTES_PER_GT)|
    {
      hide LeU64, SeGrainSet, SeOutsideSet, SeTableReadable, SeAuditTableByte, SeAuditGrainByte;
      checked', outside' := checked, outside;
      ghost var at: nat := SeAuditTableByte(l, l.grainDir[i]);
      var j := 0;
      while j < SE_GTES_PER_GT
        invariant j <= SE_GTES_PER_GT
        invariant checked' == |SeGrainSet(l, inner.data, i * SE_GTES_PER_GT + j)|
        invariant outside' == |SeOutsideSet(l, inner.data, i * SE_GTES_PER_GT + j)|
      {
        LeU64Slice(inner.data, at, at + SE_GTES_PER_GT * 8, 8 * j);
        SeWalkStep(l, inner.data, i, j);
        var gte := LeU64(gt, 8 * j);
        if SeType(gte) == SE_ALLOCATED {
          checked' := checked' + 1;
          var grainByte := SeAuditGrainByte(l, gte);
          if SatAdd(grainByte, SE_GRAIN_SECTORS * SECTOR) > l.fileLen {
            outside' := outside' + 1;
          }
        }
        j := j + 1;
      }
    }

    /** `check_integrity_sesparse`. */
    method CheckIntegritySe() returns (r: IntegrityReport)
      requires |inner.data| >= SECTOR
      modifies inner
      ensures var se := SeLayoutOf(inner.data); r == if se.None? then CLEAN_REPORT else SeReport(se.value, inner.data)
    {
      hide ParseSe, SeTables, LeTable64, SeGrainSet, SeOutsideSet, SeDanglingSet, SeAuditTableByte;
      var fileLen := |inner.data|;
      var hdrBytes := inner.ReadExactAt(0, 512);
      assert hdrBytes.value == inner.data[..512];
      var hdr := ParseSe(hdrBytes.value);
      if hdr.Err? {
        return CLEAN_REPORT;
      }
      var gdLen := SatMul(SeTables(hdr.value), 8);
      var gdByte := SatMul(hdr.value.gdOffset, SECTOR);
      if gdLen > MAX_GD_BYTES || SatAdd(gdByte, gdLen) > fileLen {
        return CLEAN_REPORT;
      }
      var gd := inner.ReadExactAt(gdByte, gdLen);
      assert gd.value == inner.data[gdByte..gdByte + gdLen];
      var l := SeLayout(LeTable64(gd.value), hdr.value, fileLen);
      assert SeLayoutOf(inner.data) == Some(l);
      r := CheckSeDirectory(l);
    }

    /** The outer loop of `check_integrity_sesparse`. */
    method CheckSeDirectory(l: SeLayout) returns (r: IntegrityReport)
      requires l.fileLen == |inner.data|
      modifies inner
      ensures r == SeReport(l, inner.data)
    {
      hide SeGrainSet, SeOutsideSet, SeDanglingSet, SeAuditTableByte;
      var checked, outside, dangling := 0, 0, 0;
      SeEmptyWalk(l, inner.data);
      var i := 0;
      while i < |l.grainDir|
        invariant i <= |l.grainDir|
        invariant checked == |SeGrainSet(l, inner.data, i * SE_GTES_PER_GT)|
        invariant outside == |SeOutsideSet(l, inner.data, i * SE_GTES_PER_GT)|
        invariant dangling == |SeDanglingSet(l, i)|
      {
        var e := l.grainDir[i];
        SeDanglingStep(l, i);
        if e == 0 {
          SeWalkSkip(l, inner.data, i);
          i := i + 1;
          continue;
        }
        if !SeDirAllocated(e) {
          dangling := dangling + 1;
          SeWalkSkip(l, inner.data, i);
          i := i + 1;
          continue;
        }
        var gtByte := SeAuditTableByte(l, e);
        if SatAdd(gtByte, SE_GTES_PER_GT * 8) > l.fileLen {
          dangling := dangling + 1;
          SeWalkSkip(l, inner.data, i);
          i := i + 1;
          continue;
        }
        var gt := inner.ReadExactAt(gtByte, SE_GTES_PER_GT * 8);
        checked, outside := CheckSeTable(l, i, gt.value, checked, outside);
        i := i + 1;
      }
      return IntegrityReport(checked, outside, dangling);
    }
  }

  lemma SeEmptyWalk(l: SeLayout, file: File)
    ensures SeGrainSet(l, file, 0) == {} && SeOutsideSet(l, file, 0) == {} && SeDanglingSet(l, 0) == {}
  {
  }

  lemma LayoutCountSmall(file: File)
    requires LayoutOf(file).Some?
    ensures LayoutOf(file).value.gdCount * 4 <= MAX_GD_BYTES
  {
    hide ParseSparse, DivCeil, LeTable32;
  }

  lemma TableWalk(l: SparseLayout, file: File, i: nat, j: nat, gt: seq<byte>)
    requires LayoutFits(l, file) && i < |l.grainDir| && InBounds(l.grainDir[i], l.ngte, l.fileLen)
    requires TableAt(file, l.grainDir[i], l.ngte) == Some(gt) && j < l.ngte
    ensures |gt| == l.ngte * 4
    ensures LeU32(gt, 4 * j) == WalkEntry(l, file, i, j)
  {
    hide LeU32;
    InBoundsExact(l.grainDir[i], l.ngte, l.fileLen);
    var at := l.grainDir[i] * SECTOR;
    LeU32Slice(file, at, at + l.ngte * 4, 4 * j);
  }
}
