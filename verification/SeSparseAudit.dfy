/**
 seSparse addressing (core/src/sesparse.rs, forensic/src/lib.rs): the bit-rotated entry decode
 is a bijection, and on a cleanly audited image the audit's saturating addresses, the reader's
 wrapping ones and the exact ones coincide.
 */
module SeSparseAudits {
  import opened Wrappers
  import opened Arith
  import opened Bytes
  import opened Headers
  import opened Images
  import opened Scans
  import opened Opening
  import opened Forensics

  const GRAIN_INDEX_LIMIT := 0x1000_0000_0000_0000

  // ── the rotated entry ─────────────────────────────────────────────────────

  /** The allocated entry that names grain index `k`. */
  function SeEncode(k: nat): (gte: u64)
    requires k < GRAIN_INDEX_LIMIT
  {
    SE_ALLOCATED * 0x1000_0000_0000_0000 + k % 0x1000 * 0x1_0000_0000_0000 + k / 0x1000
  }

  /** Decoding undoes encoding: every 60-bit index has an allocated entry. */
  lemma DecodeEncode(k: nat)
    requires k < GRAIN_INDEX_LIMIT
    ensures SeType(SeEncode(k)) == SE_ALLOCATED
    ensures SeGrainIndex(SeEncode(k)) == k
  {
    var hi, lo := k / 0x1000, k % 0x1000;
    assert hi < 0x1_0000_0000_0000;
    var gte := SeEncode(k);
    assert gte == (SE_ALLOCATED * 0x1000 + lo) * 0x1_0000_0000_0000 + hi;
    DivModUnique(SE_ALLOCATED * 0x1000 + lo, hi, 0x1_0000_0000_0000);
    DivModUnique(SE_ALLOCATED, lo * 0x1_0000_0000_0000 + hi, 0x1000_0000_0000_0000);
    DivModUnique(SE_ALLOCATED, lo, 0x1000);
  }

  /** Encoding undoes decoding: an allocated entry is determined by its index. */
  lemma EncodeDecode(gte: u64)
    requires SeType(gte) == SE_ALLOCATED
    ensures SeGrainIndex(gte) < GRAIN_INDEX_LIMIT
    ensures SeEncode(SeGrainIndex(gte)) == gte
  {
    var top, lo := gte / 0x1_0000_0000_0000, gte % 0x1_0000_0000_0000;
    var mid := top % 0x1000;
    DivDiv(gte, 0x1_0000_0000_0000, 0x1000);
    assert top / 0x1000 == SE_ALLOCATED;
    assert gte == (SE_ALLOCATED * 0x1000 + mid) * 0x1_0000_0000_0000 + lo;
    DivModUnique(lo, mid, 0x1000);
  }

  /** Distinct allocated entries name disjoint stretches of the address space. */
  lemma DistinctEntriesDisjoint(img: Image, a: u64, b: u64)
    requires img.fmt.SeSparse? && a != b
    requires SeType(a) == SE_ALLOCATED && SeType(b) == SE_ALLOCATED
    ensures var x, y := SeGrainByte(img, a), SeGrainByte(img, b);
            x + SE_GRAIN_SECTORS * SECTOR <= y || y + SE_GRAIN_SECTORS * SECTOR <= x
  {
    hide SeGrainIndex;
    EncodeDecode(a);
    EncodeDecode(b);
  }

  // ── exact addresses ───────────────────────────────────────────────────────

  /** A saturating address that stays in the file did not saturate. */
  lemma SaturationExact(base: nat, index: nat, scale: nat)
    requires base <= U64_MAX && scale <= 64
    requires SatMul(SatAdd(base, SatMul(index, scale)), SECTOR) <= I64_MAX
    ensures SatMul(SatAdd(base, SatMul(index, scale)), SECTOR) == (base + index * scale) * SECTOR
  {
  }

  /** The audit's layout is the reader's image. */
  ghost predicate SeLayoutAgrees(l: SeLayout, img: Image) {
    && img.fmt.SeSparse?
    && l.grainDir == img.fmt.seGd && l.fileLen == |img.file|
    && l.hdr.gtOffset == img.fmt.gtOffset && l.hdr.grainsOffset == img.fmt.grainsOffset
  }

  predicate IsSeSparse(file: File) {
    |file| >= 512 && LeU64(file, 0) == SE_CONST_MAGIC
  }

  /** The seSparse magic excludes the other two. */
  lemma SeDispatch(file: File, tools: Tools)
    requires IsSeSparse(file)
    ensures OpenStream(file, tools) == OpenSeImage(file, file[..512], tools)
  {
    hide OpenVmdk4, OpenCowdImage, OpenSeImage;
    var hdr := file[..512];
    LeU64Slice(file, 0, 512, 0);
    assert LeU32(hdr, 0) == SE_CONST_MAGIC;
    var top: int := hdr[3];
    assert top == SE_CONST_MAGIC / 0x100_0000;
  }

  /** The directory address the header gives does not fit 64 bits. */
  predicate DirectoryWraps(file: File) {
    |file| >= 512 && ParseSe(file[..512]).Ok? && ParseSe(file[..512]).value.gdOffset * SECTOR > U64_MAX
  }

  /**
   Two seSparse parsers, one layout: on an image the reader opens, the audit finds a layout
   exactly when the directory address does not wrap, and it is then the reader's directory.
   */
  lemma SeParsersAgree(file: File, tools: Tools)
    requires IsSeSparse(file) && OpenStream(file, tools).Ok?
    ensures SeLayoutOf(file).Some? <==> !DirectoryWraps(file)
    ensures SeLayoutOf(file).Some? ==> SeLayoutAgrees(SeLayoutOf(file).value, OpenStream(file, tools).value.img)
  {
    hide ParseSe, SeTables, LeTable64, OpenStream;
    SeDispatch(file, tools);
    var hdr := ParseSe(file[..512]).value;
    var at, len := hdr.gdOffset * SECTOR, 8 * SeTables(hdr);
    assert SatMul(SeTables(hdr), 8) == len;
    SomeTable(hdr);
    if at <= U64_MAX {
      assert SatMul(hdr.gdOffset, SECTOR) == at == Wrap64(at);
    }
  }

  lemma SomeTable(hdr: SeHeader)
    requires hdr.grainSize > 0
    ensures SeTables(hdr) >= 1
  {
  }

  /** A directory whose address wraps is never audited. */
  lemma WrappedIsClean(file: File)
    requires IsSeSparse(file) && DirectoryWraps(file)
    ensures ReportOf(file) == CLEAN_REPORT
  {
    hide ParseSe, SeTables, SeReport, SparseReport;
  }

  /** A readable table: three address computations, one address. */
  lemma TableAddressExact(l: SeLayout, img: Image, e: u64, j: nat)
    requires SeLayoutAgrees(l, img) && SeTableReadable(l, e) && j < SE_GTES_PER_GT
    ensures SeAuditTableByte(l, e) == SeTableByte(img, e) == Wrap64(SeTableByte(img, e))
    ensures Wrap64(SeTableByte(img, e) + j * 8) == SeTableByte(img, e) + j * 8
    ensures SeTableByte(img, e) + SE_GTES_PER_GT * 8 <= |img.file|
  {
    hide SeDirAllocated;
    SaturationExact(l.hdr.gtOffset, e % 0x1_0000_0000, SE_GT_SECTORS);
  }

  /** An entry the audit accepts: the same for its grain. */
  lemma GrainAddressExact(l: SeLayout, img: Image, gte: u64, r: nat)
    requires SeLayoutAgrees(l, img) && !SeGrainOutside(l, gte) && r < SE_GRAIN_SECTORS * SECTOR
    ensures SeAuditGrainByte(l, gte) == SeGrainByte(img, gte)
    ensures Wrap64(SeGrainByte(img, gte) + r) == SeGrainByte(img, gte) + r
    ensures SeGrainByte(img, gte) + SE_GRAIN_SECTORS * SECTOR <= |img.file|
  {
    hide SeGrainIndex;
    SaturationExact(l.hdr.grainsOffset, SeGrainIndex(gte), SE_GRAIN_SECTORS);
  }

  /** On a readable table the audit's entry is the reader's. */
  lemma WalkIsSlotGte(l: SeLayout, img: Image, i: nat, j: nat)
    requires SeLayoutAgrees(l, img) && i < |l.grainDir| && SeTableReadable(l, l.grainDir[i]) && j < SE_GTES_PER_GT
    ensures SeSlotGte(img, SePrimary(img, i), j) == Ok(Some(SeWalkEntry(l, img.file, i, j)))
  {
    hide LeU64, SeTableByte, SeAuditTableByte;
    TableAddressExact(l, img, l.grainDir[i], j);
  }

  // ── the report in the reader's terms ──────────────────────────────────────

  /** A saturating address is the exact one, cut at the largest 64-bit value. */
  lemma SaturationIsMin(base: nat, index: nat, scale: nat)
    ensures SatMul(SatAdd(base, SatMul(index, scale)), SECTOR) == Min((base + index * scale) * SECTOR, U64_MAX)
  {
    var p: nat := index * scale;
  }

  /** The whole grain table a directory entry names lies in the file. */
  predicate SeTableInside(img: Image, e: u64)
    requires img.fmt.SeSparse?
  {
    SeDirAllocated(e) && SeTableByte(img, e) + SE_GTES_PER_GT * 8 <= |img.file|
  }

  /** The whole grain an entry names lies in the file. */
  predicate SeGrainInside(img: Image, gte: u64)
    requires img.fmt.SeSparse?
  {
    SeGrainByte(img, gte) + SE_GRAIN_SECTORS * SECTOR <= |img.file|
  }

  lemma InsideIsReadable(l: SeLayout, img: Image, e: u64)
    requires SeLayoutAgrees(l, img)
    ensures SeTableReadable(l, e) <==> SeTableInside(img, e)
  {
    hide SeDirAllocated;
    SaturationIsMin(l.hdr.gtOffset, e % 0x1_0000_0000, SE_GT_SECTORS);
  }

  lemma InsideIsNotOutside(l: SeLayout, img: Image, gte: u64)
    requires SeLayoutAgrees(l, img)
    ensures SeGrainOutside(l, gte) <==> !SeGrainInside(img, gte)
  {
    hide SeGrainIndex;
    SaturationIsMin(l.hdr.grainsOffset, SeGrainIndex(gte), SE_GRAIN_SECTORS);
  }

  /** Entry `j` of the table of slot `i`; 0 where no whole table is in the file. */
  function SeTableWord(img: Image, i: nat, j: nat): u64
    requires img.fmt.SeSparse? && i < |img.fmt.seGd| && j < SE_GTES_PER_GT
  {
    if SeTableInside(img, img.fmt.seGd[i]) then LeU64(img.file, SeTableByte(img, img.fmt.seGd[i]) + 8 * j) else 0
  }

  /** The entry of grain `g`, past the end of the disk too. */
  function SeWordAt(img: Image, g: nat): u64
    requires img.fmt.SeSparse?
  {
    if g / SE_GTES_PER_GT < |img.fmt.seGd| then SeTableWord(img, g / SE_GTES_PER_GT, g % SE_GTES_PER_GT) else 0
  }

  lemma WalkIsWord(l: SeLayout, img: Image, g: nat)
    requires SeLayoutAgrees(l, img)
    ensures SeWalkAt(l, img.file, g) == SeWordAt(img, g)
  {
    hide LeU64, SeTableReadable, SeTableInside, SeAuditTableByte, SeTableByte;
    var i := g / SE_GTES_PER_GT;
    if i < |l.grainDir| {
      InsideIsReadable(l, img, l.grainDir[i]);
      if SeTableReadable(l, l.grainDir[i]) {
        TableAddressExact(l, img, l.grainDir[i], 0);
      }
    }
  }

  /** The grains the readable tables name. */
  ghost function SeNamed(img: Image): set<nat>
    requires img.fmt.SeSparse?
  {
    set g: nat | g < |img.fmt.seGd| * SE_GTES_PER_GT && SeType(SeWordAt(img, g)) == SE_ALLOCATED
  }

  /**
   The whole report, in the reader's exact addresses: the grains the readable tables name, those
   of them not wholly in the file, and the non-zero directory entries without a readable table.
   */
  lemma SeReportMeans(l: SeLayout, img: Image)
    requires SeLayoutAgrees(l, img)
    ensures SeReport(l, img.file) == IntegrityReport(
              |SeNamed(img)|,
              |set g: nat | g in SeNamed(img) && !SeGrainInside(img, SeWordAt(img, g))|,
              |set i: nat | i < |img.fmt.seGd| && img.fmt.seGd[i] != 0 && !SeTableInside(img, img.fmt.seGd[i])|)
  {
    hide SeWalkAt, SeWordAt, SeType, SeGrainOutside, SeGrainInside, SeTableReadable, SeTableInside;
    var n := |l.grainDir| * SE_GTES_PER_GT;
    forall g: nat | g < n
      ensures SeWalkAt(l, img.file, g) == SeWordAt(img, g)
      ensures SeGrainOutside(l, SeWordAt(img, g)) <==> !SeGrainInside(img, SeWordAt(img, g))
    {
      WalkIsWord(l, img, g);
      InsideIsNotOutside(l, img, SeWordAt(img, g));
    }
    forall i: nat | i < |l.grainDir|
      ensures SeTableReadable(l, l.grainDir[i]) <==> SeTableInside(img, l.grainDir[i])
    {
      InsideIsReadable(l, img, l.grainDir[i]);
    }
    assert SeGrainSet(l, img.file, n) == SeNamed(img);
    assert SeOutsideSet(l, img.file, n) == set g: nat | g in SeNamed(img) && !SeGrainInside(img, SeWordAt(img, g));
    assert SeDanglingSet(l, |l.grainDir|) ==
           set i: nat | i < |img.fmt.seGd| && img.fmt.seGd[i] != 0 && !SeTableInside(img, img.fmt.seGd[i]);
  }

  /** Every directory entry is 0 or names a table in the file, and every allocated entry of those tables a grain in it. */
  ghost predicate SePointersInside(img: Image)
    requires img.fmt.SeSparse?
  {
    && (forall i: nat :: i < |img.fmt.seGd| ==> img.fmt.seGd[i] == 0 || SeTableInside(img, img.fmt.seGd[i]))
    && (forall i: nat, j: nat :: i < |img.fmt.seGd| && j < SE_GTES_PER_GT ==>
          SeType(SeTableWord(img, i, j)) == SE_ALLOCATED ==> SeGrainInside(img, SeTableWord(img, i, j)))
  }

  lemma WordAtIs(img: Image, i: nat, j: nat)
    requires img.fmt.SeSparse? && i < |img.fmt.seGd| && j < SE_GTES_PER_GT
    ensures SeWordAt(img, i * SE_GTES_PER_GT + j) == SeTableWord(img, i, j)
    ensures i * SE_GTES_PER_GT + j < |img.fmt.seGd| * SE_GTES_PER_GT
  {
    DivModUnique(i, j, SE_GTES_PER_GT);
  }

  /** The report is clean exactly when every pointer stays inside the file, in the reader's exact addresses. */
  lemma SeCleanMeansInside(l: SeLayout, img: Image)
    requires SeLayoutAgrees(l, img)
    ensures SeReport(l, img.file).IsOk() <==> SePointersInside(img)
  {
    hide SeReport, SeWordAt, SeTableWord, SeType, SeGrainInside, SeTableInside;
    SeReportMeans(l, img);
    var outside := set g: nat | g in SeNamed(img) && !SeGrainInside(img, SeWordAt(img, g));
    var dangling := set i: nat | i < |img.fmt.seGd| && img.fmt.seGd[i] != 0 && !SeTableInside(img, img.fmt.seGd[i]);
    if SeReport(l, img.file).IsOk() {
      EmptyIsEmpty(outside);
      EmptyIsEmpty(dangling);
      forall i: nat | i < |img.fmt.seGd|
        ensures img.fmt.seGd[i] == 0 || SeTableInside(img, img.fmt.seGd[i])
      {
        assert i !in dangling;
      }
      forall i: nat, j: nat | i < |img.fmt.seGd| && j < SE_GTES_PER_GT
        ensures SeType(SeTableWord(img, i, j)) == SE_ALLOCATED ==> SeGrainInside(img, SeTableWord(img, i, j))
      {
        WordAtIs(img, i, j);
        assert i * SE_GTES_PER_GT + j !in outside;
      }
    }
    if SePointersInside(img) {
      assert dangling == {};
      forall g: nat | g < |img.fmt.seGd| * SE_GTES_PER_GT
        ensures g !in outside
      {
        DivMod(g, SE_GTES_PER_GT);
        WordAtIs(img, g / SE_GTES_PER_GT, g % SE_GTES_PER_GT);
      }
      assert outside == {};
    }
  }

  // ── what a clean seSparse audit means ─────────────────────────────────────

  lemma CleanSeTables(l: SeLayout, i: nat)
    requires SeDanglingSet(l, |l.grainDir|) == {} && i < |l.grainDir|
    ensures l.grainDir[i] == 0 || SeTableReadable(l, l.grainDir[i])
  {
    hide SeTableReadable;
    assert i !in SeDanglingSet(l, |l.grainDir|);
  }

  lemma CleanSeEntry(l: SeLayout, file: File, i: nat, j: nat)
    requires SeOutsideSet(l, file, |l.grainDir| * SE_GTES_PER_GT) == {}
    requires i < |l.grainDir| && j < SE_GTES_PER_GT
    ensures SeType(SeWalkEntry(l, file, i, j)) == SE_ALLOCATED ==> !SeGrainOutside(l, SeWalkEntry(l, file, i, j))
  {
    hide SeType, SeWalkEntry, SeGrainOutside;
    var g := i * SE_GTES_PER_GT + j;
    DivModUnique(i, j, SE_GTES_PER_GT);
    assert g !in SeOutsideSet(l, file, |l.grainDir| * SE_GTES_PER_GT);
  }

  /** The entry types the reader understands. */
  predicate SeSupported(gte: u64) {
    gte == 0 || SeType(gte) == SE_UNMAPPED || SeType(gte) == SE_ZERO || SeType(gte) == SE_ALLOCATED
  }

  /** The entry covering `off` has a type the reader understands, if it is reached at all. */
  predicate SeSupportedAt(img: Image, off: nat)
    requires img.Valid() && img.fmt.SeSparse?
  {
    var slot := SeGte(img, GrainIdx(img, off));
    slot.Ok? && slot.value.Some? ==> SeSupported(slot.value.value)
  }

  lemma CleanSeLookup(l: SeLayout, img: Image, i: nat, j: nat)
    requires SeLayoutAgrees(l, img) && i < |l.grainDir| && j < SE_GTES_PER_GT
    requires SeDanglingSet(l, |l.grainDir|) == {} && SeOutsideSet(l, img.file, |l.grainDir| * SE_GTES_PER_GT) == {}
    ensures var s := SeSlotGte(img, SePrimary(img, i), j);
            s.Ok? && (s.value.Some? && SeType(s.value.value) == SE_ALLOCATED ==> !SeGrainOutside(l, s.value.value))
  {
    hide SeWalkEntry, SeGrainOutside, SeTableReadable, SeType;
    CleanSeTables(l, i);
    if l.grainDir[i] != 0 {
      WalkIsSlotGte(l, img, i, j);
      CleanSeEntry(l, img.file, i, j);
    }
  }

  /** After a clean audit a read fails only on an entry type the reader does not know. */
  lemma CleanSeSlice(l: SeLayout, img: Image, off: nat)
    requires img.Valid() && SeLayoutAgrees(l, img) && SeReport(l, img.file).IsOk() && off < img.size
    ensures SeSupportedAt(img, off) ==>
              Slice(img, false, off).Ok? && |Slice(img, false, off).value| == Reach(img, off) > 0
    ensures !SeSupportedAt(img, off) ==> Slice(img, false, off) == Err(InvalidData)
  {
    hide SeSlotGte, SeGrainByte, SeGrainOutside, SeType, SeDanglingSet, SeOutsideSet, GrainIdx, InGrain, SlotIdx, EntryIdx, Image.Valid;
    Shape(img);
    SlotInRange(img, off);
    SeGrainSize(img);
    EmptyIsEmpty(SeDanglingSet(l, |l.grainDir|));
    EmptyIsEmpty(SeOutsideSet(l, img.file, |l.grainDir| * SE_GTES_PER_GT));
    var g, r := GrainIdx(img, off), InGrain(img, off);
    CleanSeLookup(l, img, SlotIdx(img, g), EntryIdx(img, g));
    var slot := SeGte(img, g).value;
    SeZeroType();
    if slot.Some? && SeType(slot.value) == SE_ALLOCATED {
      GrainAddressExact(l, img, slot.value, r);
      WindowLength(img.file, SeGrainByte(img, slot.value) + r, Reach(img, off));
    }
  }

  lemma SeZeroType()
    ensures SeType(0) == 0
  {
  }

  lemma SeGrainSize(img: Image)
    requires img.Valid() && img.fmt.SeSparse?
    ensures img.fmt.grain == SE_GRAIN_SECTORS * SECTOR && img.GtesPerTable() == SE_GTES_PER_GT
  {
  }

  lemma EmptyIsEmpty(s: set<nat>)
    requires |s| == 0
    ensures s == {}
  {
  }

  /**
   A clean audit of a seSparse image whose directory address does not wrap: every in-range read
   succeeds if and only if every in-range entry has a type the reader knows. The audit itself
   does not look at unknown types.
   */
  lemma CleanSeAudit(file: File, tools: Tools)
    requires IsSeSparse(file) && OpenStream(file, tools).Ok? && !DirectoryWraps(file)
    requires ReportOf(file).IsOk()
    ensures var img := OpenStream(file, tools).value.img;
            && img.Valid() && img.fmt.SeSparse?
            && (Sound(img, false) <==> forall off: nat :: off < img.size ==> SeSupportedAt(img, off))
  {
    hide OpenStream, OpenSeImage, SeLayoutOf, SeReport, DirectoryWraps, Image.Valid, Slice, Reach, SeSupportedAt;
    SeDispatch(file, tools);
    SeValid(file, file[..512], tools);
    SeParsersAgree(file, tools);
    var img := OpenStream(file, tools).value.img;
    OpenedFile(file, file[..512], tools);
    forall off: nat | off < img.size
      ensures SeSupportedAt(img, off) <==> ByteAt(img, false, off).Some?
    {
      CleanSeSlice(SeLayoutOf(file).value, img, off);
    }
  }

  lemma InsideScans(img: Image, fb: bool)
    requires img.fmt.SeSparse? && SePointersInside(img)
    ensures ScanOk(img, fb)
  {
    hide SeGrainInside, SeTableWord, SeType, SeTableByte, SeDirAllocated;
    forall i: nat | i < |img.fmt.seGd|
      ensures SlotReadable(img, fb, i)
    {
      assert img.fmt.seGd[i] == 0 || SeTableInside(img, img.fmt.seGd[i]);
      assert !SeDirAllocated(0) by { ZeroNotAllocated(); }
    }
  }

  lemma ZeroNotAllocated()
    ensures !SeDirAllocated(0)
  {
  }

  /** After a clean audit the scan succeeds, unknown entry types or not. */
  lemma CleanSeScans(file: File, tools: Tools, fb: bool)
    requires IsSeSparse(file) && OpenStream(file, tools).Ok? && !DirectoryWraps(file)
    requires ReportOf(file).IsOk()
    ensures ScanOk(OpenStream(file, tools).value.img, fb)
  {
    hide OpenStream, SeLayoutOf, SeReport, DirectoryWraps, SePointersInside, ScanOk, Image.Valid;
    OpenedIsValid(file, tools);
    SeParsersAgree(file, tools);
    SeCleanMeansInside(SeLayoutOf(file).value, OpenStream(file, tools).value.img);
    InsideScans(OpenStream(file, tools).value.img, fb);
  }
}
