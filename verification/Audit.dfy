/**
 What the audit's verdicts mean for the reader: the two parsers agree, a clean report makes
 every read succeed, a validated redundant directory makes fallback a no-op, and triage counts
 exactly what the resolver can recover.
 */
module Audits {
  import opened Wrappers
  import opened Arith
  import opened Bytes
  import opened Headers
  import opened Images
  import opened Scans
  import opened Opening
  import opened Recovery
  import opened Forensics

  // ── the two parsers ───────────────────────────────────────────────────────

  /** The file starts with the VMDK4 magic. */
  predicate IsVmdk4(file: File) {
    |file| >= 512 && LeU32(file, 0) == MAGIC
  }

  /** The VMDK4 magic excludes the other two. */
  lemma Vmdk4Dispatch(file: File, tools: Tools)
    requires IsVmdk4(file)
    ensures LeU64(file, 0) != SE_CONST_MAGIC
    ensures OpenStream(file, tools) == OpenVmdk4(file, file[..512], tools)
  {
    hide OpenVmdk4, OpenCowdImage, OpenSeImage;
    var hdr := file[..512];
    assert ExactBytes(file, 0, 512) == Ok(hdr);
    assert hdr[0] == file[0] && hdr[1] == file[1] && hdr[2] == file[2] && hdr[3] == file[3];
    assert file[0] == 0x4b;
    assert BeU32(hdr, 0) != COWD_MAGIC;
    LeU64Slice(file, 0, 512, 0);
  }

  /** The audit's layout carries the reader's directory and geometry. */
  ghost predicate LayoutAgrees(l: SparseLayout, img: Image) {
    && img.IsSparse()
    && l.grainDir == img.fmt.gd && l.ngte == img.fmt.ngte && l.grain == img.fmt.grain
    && l.rgdOffset == img.rgdOffset && l.gdCount == img.gdCount == |img.fmt.gd|
    && l.fileLen == |img.file|
    && LayoutFits(l, img.file)
  }

  lemma GdOffsetsAgree(file: File, hdr: SparseHeader)
    requires GdOffset(file, hdr).Ok?
    ensures LayoutGdOffset(file, hdr) == Some(GdOffset(file, hdr).value)
  {
    hide ParseSparse;
  }

  /** What opening fixes about the directory, without the rest of the header. */
  lemma OpenedDirectory(file: File, tools: Tools)
    requires IsVmdk4(file) && OpenStream(file, tools).Ok?
    ensures ParseSparse(file[..512]).Ok?
    ensures var hdr, img := ParseSparse(file[..512]).value, OpenStream(file, tools).value.img;
            && NumTables(hdr).Ok? && GdOffset(file, hdr).Ok?
            && GdOffset(file, hdr).value * SECTOR <= U64_MAX
            && ExactBytes(file, GdOffset(file, hdr).value * SECTOR, 4 * NumTables(hdr).value).Ok?
            && img.fmt == Sparse(LeTable32(ExactBytes(file, GdOffset(file, hdr).value * SECTOR, 4 * NumTables(hdr).value).value),
                                 hdr.grainSize * SECTOR, hdr.numGtes, hdr.compressed)
            && img.rgdOffset == hdr.rgdOffset && img.gdCount == NumTables(hdr).value && img.file == file
            && img.size == hdr.capacity * SECTOR
  {
    hide ParseSparse, NumTables, GdOffset, ReadDescriptorOf, LeTable32, OpenStream, ExactBytes;
    Vmdk4Dispatch(file, tools);
  }

  /** The directory of an opened image can be located by the audit. */
  predicate DirectoryVisible(file: File)
    requires IsVmdk4(file) && ParseSparse(file[..512]).Ok? && GdOffset(file, ParseSparse(file[..512]).value).Ok?
  {
    GdOffset(file, ParseSparse(file[..512]).value).value * SECTOR <= |file|
  }

  lemma LayoutFromAgrees(file: File, hdr: SparseHeader)
    requires 0 < hdr.grainSize <= MAX_GRAIN_SIZE_SECTORS && 0 < hdr.numGtes <= MAX_NUM_GTES_PER_GT
    requires NumTables(hdr).Ok? && GdOffset(file, hdr).Ok? && GdOffset(file, hdr).value * SECTOR <= U64_MAX
    requires ExactBytes(file, GdOffset(file, hdr).value * SECTOR, 4 * NumTables(hdr).value).Ok?
    ensures LayoutFrom(file, hdr).Some? <==> NumTables(hdr).value > 0 || GdOffset(file, hdr).value * SECTOR <= |file|
    ensures LayoutFrom(file, hdr).Some? ==>
              LayoutFrom(file, hdr).value ==
              SparseLayout(LeTable32(ExactBytes(file, GdOffset(file, hdr).value * SECTOR, 4 * NumTables(hdr).value).value),
                           hdr.rgdOffset, hdr.numGtes, hdr.grainSize * SECTOR, NumTables(hdr).value, |file|)
  {
    hide NumTables, GdOffset, LayoutGdOffset, DivCeil, LeTable32;
    NumTablesIsCeil(hdr);
    GdOffsetsAgree(file, hdr);
    TablesUnderCap(hdr);
    var n, at := NumTables(hdr).value, GdOffset(file, hdr).value * SECTOR;
    assert SatMul(n, 4) == 4 * n && SatMul(GdOffset(file, hdr).value, SECTOR) == at;
    if n == 0 && at <= |file| {
      assert file[at..at + 0] == [];
    }
  }

  /**
   Two parsers, one layout: whenever the reader opens a VMDK4 image, the audit finds a layout
   exactly when the directory is non-empty or its offset lies in the file, and it is then the
   reader's directory, geometry and redundant offset.
   */
  lemma TwoParsersAgree(file: File, tools: Tools)
    requires IsVmdk4(file) && OpenStream(file, tools).Ok?
    ensures ParseSparse(file[..512]).Ok? && GdOffset(file, ParseSparse(file[..512]).value).Ok?
    ensures LayoutOf(file).Some? <==> OpenStream(file, tools).value.img.gdCount > 0 || DirectoryVisible(file)
    ensures LayoutOf(file).Some? ==> LayoutAgrees(LayoutOf(file).value, OpenStream(file, tools).value.img)
  {
    hide OpenStream, NumTables, GdOffset, LeTable32, LayoutFrom, ExactBytes, LayoutFits, ParseSparse;
    OpenedDirectory(file, tools);
    var hdr := ParseSparse(file[..512]).value;
    LayoutFromAgrees(file, hdr);
    if LayoutOf(file).Some? {
      LayoutOfFits(file);
      assert LeTableCount(ExactBytes(file, GdOffset(file, hdr).value * SECTOR, 4 * NumTables(hdr).value).value);
    }
  }

  predicate LeTableCount(b: seq<byte>) {
    |LeTable32(b)| == |b| / 4
  }

  /** An opened disk of non-zero size always has a layout. */
  lemma NonEmptyHasLayout(file: File, tools: Tools)
    requires IsVmdk4(file) && OpenStream(file, tools).Ok? && OpenStream(file, tools).value.img.size > 0
    ensures LayoutOf(file).Some?
  {
    hide OpenStream, LayoutOf, Image.Valid, DirectoryVisible, ParseSparse, GdOffset;
    OpenedIsValid(file, tools);
    TwoParsersAgree(file, tools);
    DirectoryNotEmpty(OpenStream(file, tools).value.img);
    OpenedCount(file, tools);
  }

  lemma OpenedCount(file: File, tools: Tools)
    requires IsVmdk4(file) && OpenStream(file, tools).Ok?
    ensures var img := OpenStream(file, tools).value.img; img.IsSparse() && img.gdCount == |img.fmt.gd|
  {
    hide OpenStream, NumTables, GdOffset, ParseSparse;
    OpenedDirectory(file, tools);
  }

  lemma DirectoryNotEmpty(img: Image)
    requires img.Valid() && img.size > 0
    ensures img.IsSparse() ==> |img.fmt.gd| > 0
  {
    if img.IsSparse() {
      SlotInRange(img, 0);
    }
  }

  // ── a clean audit makes every read succeed ────────────────────────────────

  /** Every directory pointer and every grain pointer stays inside the file. */
  ghost predicate PointersInside(img: Image)
    requires img.IsSparse()
  {
    && (forall i: nat :: i < |img.fmt.gd| ==> Primary(img, i) == 0 || Usable(img, Primary(img, i)))
    && (forall i: nat, j: nat :: i < |img.fmt.gd| && j < img.fmt.ngte ==> GrainInside(img, i, j))
  }

  /** The grain entry `j` of slot `i` names, if any, lies wholly in the file. */
  predicate GrainInside(img: Image, i: nat, j: nat)
    requires img.IsSparse() && j < img.fmt.ngte
  {
    Usable(img, Primary(img, i)) && TableEntry(img, Primary(img, i), j) > 1 ==>
      TableEntry(img, Primary(img, i), j) * SECTOR + img.fmt.grain <= |img.file|
  }

  lemma WalkIsTable(l: SparseLayout, img: Image, i: nat, j: nat)
    requires img.Valid() && LayoutAgrees(l, img) && i < |img.fmt.gd| && j < img.fmt.ngte
    ensures InBounds(l.grainDir[i], l.ngte, l.fileLen) <==> Usable(img, Primary(img, i))
    ensures WalkEntry(l, img.file, i, j) == if Usable(img, Primary(img, i)) then TableEntry(img, Primary(img, i), j) else 0
  {
    hide LeU32, InBounds, Image.Valid;
    InBoundsExact(l.grainDir[i], l.ngte, l.fileLen);
  }

  lemma OutsideIsExact(l: SparseLayout, img: Image, gte: u32)
    requires img.Valid() && LayoutAgrees(l, img)
    ensures GrainOutside(l, gte) <==> gte * SECTOR + img.fmt.grain > |img.file|
  {
    Shape(img);
    hide Image.Valid;
  }

  lemma EmptySet<T>(s: set<T>)
    ensures |s| == 0 <==> s == {}
  {
  }

  /** A clean report says exactly that all pointers stay inside the file. */
  lemma CleanMeansInside(l: SparseLayout, img: Image)
    requires img.Valid() && LayoutAgrees(l, img)
    ensures SparseReport(l, img.file).IsOk() <==> PointersInside(img)
  {
    hide Image.Valid, WalkEntry, InBounds, GrainOutside, Usable, TableEntry;
    var n := |l.grainDir| * l.ngte;
    EmptySet(OutsideSet(l, img.file, n));
    EmptySet(DanglingSet(l, |l.grainDir|));
    if SparseReport(l, img.file).IsOk() {
      CleanDirectory(l, img);
      forall i: nat, j: nat | i < |img.fmt.gd| && j < img.fmt.ngte
        ensures GrainInside(img, i, j)
      {
        CleanEntry(l, img, i, j);
      }
    }
    if PointersInside(img) {
      forall i: nat | i < |l.grainDir|
        ensures i !in DanglingSet(l, |l.grainDir|)
      {
        WalkIsTable(l, img, i, 0);
      }
      forall g: nat | g < n
        ensures g !in OutsideSet(l, img.file, n)
      {
        var i, j := SplitIndex(g, l.ngte, |l.grainDir|);
        InsideEntry(l, img, i, j);
      }
    }
  }

  /** The entry of grain `g` in the primary tables, past the end of the disk too; 0 where no whole table is in the file. */
  function PrimaryWord(img: Image, g: nat): u32
    requires img.IsSparse() && img.fmt.ngte > 0
  {
    var p := Primary(img, g / img.fmt.ngte);
    if Usable(img, p) then TableEntry(img, p, g % img.fmt.ngte) else 0
  }

  /** The grains the readable primary tables name. */
  ghost function Named(img: Image): set<nat>
    requires img.IsSparse() && img.fmt.ngte > 0
  {
    set g: nat | g < |img.fmt.gd| * img.fmt.ngte && PrimaryWord(img, g) > 1
  }

  lemma WalkIsPrimary(l: SparseLayout, img: Image, g: nat)
    requires img.Valid() && LayoutAgrees(l, img) && g < |img.fmt.gd| * img.fmt.ngte
    ensures l.ngte > 0 && WalkAt(l, img.file, g) == PrimaryWord(img, g)
    ensures GrainOutside(l, PrimaryWord(img, g)) <==> |img.file| < PrimaryWord(img, g) * SECTOR + img.fmt.grain
  {
    hide WalkEntry, Usable, TableEntry, InBounds, GrainOutside, Image.Valid;
    Shape(img);
    var i, j := SplitIndex(g, img.fmt.ngte, |img.fmt.gd|);
    WalkIsTable(l, img, i, j);
    OutsideIsExact(l, img, PrimaryWord(img, g));
  }

  /**
   The whole report in the reader's terms: the grains its readable primary tables name, those of
   them not wholly in the file, and the pointers without a readable table.
   */
  lemma ReportMeans(l: SparseLayout, img: Image)
    requires img.Valid() && LayoutAgrees(l, img)
    ensures l.ngte == img.fmt.ngte > 0
    ensures SparseReport(l, img.file) == IntegrityReport(
              |Named(img)|,
              |set g: nat | g in Named(img) && |img.file| < PrimaryWord(img, g) * SECTOR + img.fmt.grain|,
              |set i: nat | i < |img.fmt.gd| && img.fmt.gd[i] != 0 && !Usable(img, img.fmt.gd[i])|)
  {
    hide WalkAt, PrimaryWord, GrainOutside, InBounds, Usable, Image.Valid;
    Shape(img);
    var n := |l.grainDir| * l.ngte;
    forall g: nat | g < n
      ensures WalkAt(l, img.file, g) == PrimaryWord(img, g)
      ensures GrainOutside(l, PrimaryWord(img, g)) <==> |img.file| < PrimaryWord(img, g) * SECTOR + img.fmt.grain
    {
      WalkIsPrimary(l, img, g);
    }
    forall i: nat | i < |img.fmt.gd|
      ensures InBounds(l.grainDir[i], l.ngte, l.fileLen) <==> Usable(img, img.fmt.gd[i])
    {
      WalkIsTable(l, img, i, 0);
    }
    assert GrainSet(l, img.file, n) == Named(img);
    assert OutsideSet(l, img.file, n) ==
           set g: nat | g in Named(img) && |img.file| < PrimaryWord(img, g) * SECTOR + img.fmt.grain;
    assert DanglingSet(l, |l.grainDir|) == set i: nat | i < |img.fmt.gd| && img.fmt.gd[i] != 0 && !Usable(img, img.fmt.gd[i]);
  }

  lemma CleanDirectory(l: SparseLayout, img: Image)
    requires img.Valid() && LayoutAgrees(l, img) && DanglingSet(l, |l.grainDir|) == {}
    ensures forall i: nat :: i < |img.fmt.gd| ==> Primary(img, i) == 0 || Usable(img, Primary(img, i))
  {
    hide InBounds, Usable, WalkEntry;
    forall i: nat | i < |img.fmt.gd|
      ensures Primary(img, i) == 0 || Usable(img, Primary(img, i))
    {
      Shape(img);
      WalkIsTable(l, img, i, 0);
      assert i !in DanglingSet(l, |l.grainDir|);
    }
  }

  lemma CleanEntry(l: SparseLayout, img: Image, i: nat, j: nat)
    requires img.Valid() && LayoutAgrees(l, img) && i < |img.fmt.gd| && j < img.fmt.ngte
    requires OutsideSet(l, img.file, |l.grainDir| * l.ngte) == {}
    ensures GrainInside(img, i, j)
  {
    hide Image.Valid, WalkEntry, InBounds, GrainOutside, Usable, TableEntry;
    var g := i * l.ngte + j;
    DivModUnique(i, j, l.ngte);
    DivLess(g, l.ngte, |l.grainDir|);
    assert g !in OutsideSet(l, img.file, |l.grainDir| * l.ngte);
    WalkIsTable(l, img, i, j);
    OutsideIsExact(l, img, WalkEntry(l, img.file, i, j));
  }

  /** A flat index as slot and entry. */
  lemma SplitIndex(g: nat, per: nat, count: nat) returns (i: nat, j: nat)
    requires per > 0 && g < count * per
    ensures i == g / per < count && j == g % per < per
  {
    DivLess(g, per, count);
    i, j := g / per, g % per;
  }

  lemma InsideEntry(l: SparseLayout, img: Image, i: nat, j: nat)
    requires img.Valid() && LayoutAgrees(l, img) && PointersInside(img) && i < |l.grainDir| && j < l.ngte
    ensures var e := WalkEntry(l, img.file, i, j); e > 1 ==> !GrainOutside(l, e)
  {
    hide Image.Valid, WalkEntry, InBounds, GrainOutside, Usable, TableEntry;
    WalkIsTable(l, img, i, j);
    OutsideIsExact(l, img, WalkEntry(l, img.file, i, j));
    assert GrainInside(img, i, j);
  }

  /** With all pointers inside, every read of an uncompressed image delivers all it can reach. */
  lemma InsideReads(img: Image, off: nat)
    requires img.Valid() && img.IsSparse() && !img.fmt.compressed && PointersInside(img) && off < img.size
    ensures Slice(img, false, off).Ok? && |Slice(img, false, off).value| == Reach(img, off) > 0
  {
    hide Image.Valid, Usable, TableEntry, GrainIdx, InGrain, SlotIdx, EntryIdx;
    SlotInRange(img, off);
    ReachInGrain(img, off);
    var g, r := GrainIdx(img, off), InGrain(img, off);
    var i, j := SlotIdx(img, g), EntryIdx(img, g);
    assert GrainInside(img, i, j);
    if Primary(img, i) != 0 && TableEntry(img, Primary(img, i), j) > 1 {
      WindowLength(img.file, TableEntry(img, Primary(img, i), j) * SECTOR + r, Reach(img, off));
    }
  }

  /**
   Audit soundness: if an uncompressed VMDK4 image opens and the integrity check is clean, every
   in-range read succeeds and covers everything up to the end of its grain or of the disk, so no
   read hits the end of the file.
   */
  lemma CleanAuditIsSound(file: File, tools: Tools)
    requires IsVmdk4(file) && OpenStream(file, tools).Ok?
    requires !OpenStream(file, tools).value.img.fmt.Sparse? || !OpenStream(file, tools).value.img.fmt.compressed
    requires ReportOf(file).IsOk()
    ensures OpenStream(file, tools).value.img.Valid()
    ensures Sound(OpenStream(file, tools).value.img, false)
    ensures var img := OpenStream(file, tools).value.img;
            forall off: nat :: off < img.size ==>
              Slice(img, false, off).Ok? && |Slice(img, false, off).value| == Reach(img, off)
  {
    hide OpenStream, LayoutOf, SparseReport, Image.Valid, Slice, Reach, ParseSparse, GdOffset, DirectoryVisible, PointersInside;
    OpenedIsValid(file, tools);
    var img := OpenStream(file, tools).value.img;
    OpenedCount(file, tools);
    forall off: nat | off < img.size
      ensures Slice(img, false, off).Ok? && |Slice(img, false, off).value| == Reach(img, off) > 0
    {
      NonEmptyHasLayout(file, tools);
      TwoParsersAgree(file, tools);
      Vmdk4Dispatch(file, tools);
      CleanMeansInside(LayoutOf(file).value, img);
      InsideReads(img, off);
    }
  }

  // ── a validated redundant directory ───────────────────────────────────────

  /** The lowest base-256 digit is determined. */
  lemma LowByte(a: byte, x: int, b: byte, y: int)
    requires a as int + 0x100 * x == b as int + 0x100 * y
    ensures a == b && x == y
  {
  }

  lemma LeU32Injective(s: seq<byte>, o: nat, t: seq<byte>, p: nat)
    requires o + 4 <= |s| && p + 4 <= |t| && LeU32(s, o) == LeU32(t, p)
    ensures s[o] == t[p] && s[o + 1] == t[p + 1] && s[o + 2] == t[p + 2] && s[o + 3] == t[p + 3]
  {
    var a1, a2, a3 := s[o + 1] as int, s[o + 2] as int, s[o + 3] as int;
    var b1, b2, b3 := t[p + 1] as int, t[p + 2] as int, t[p + 3] as int;
    LowByte(s[o], a1 + 0x100 * (a2 + 0x100 * a3), t[p], b1 + 0x100 * (b2 + 0x100 * b3));
    LowByte(s[o + 1], a2 + 0x100 * a3, t[p + 1], b2 + 0x100 * b3);
    LowByte(s[o + 2], a3, t[p + 2], b3);
  }

  lemma BytesFromTables(img: Image, p: u32, r: u32, k: nat)
    requires img.IsSparse() && Usable(img, p) && Usable(img, r) && Table(img, p) == Table(img, r)
    requires k < img.fmt.ngte * 4
    ensures img.file[p * SECTOR + k] == img.file[r * SECTOR + k]
  {
    hide LeU32;
    var j := k / 4;
    assert k == 4 * j + k % 4;
    assert Table(img, p)[j] == TableEntry(img, p, j) && Table(img, r)[j] == TableEntry(img, r, j);
    LeU32Injective(img.file, p * SECTOR + 4 * j, img.file, r * SECTOR + 4 * j);
  }

  lemma TablesFromBytes(img: Image, p: u32, r: u32, j: nat)
    requires img.IsSparse() && Usable(img, p) && Usable(img, r) && j < img.fmt.ngte
    requires img.file[p * SECTOR..p * SECTOR + img.fmt.ngte * 4] == img.file[r * SECTOR..r * SECTOR + img.fmt.ngte * 4]
    ensures TableEntry(img, p, j) == TableEntry(img, r, j)
  {
    hide LeU32;
    LeU32Slice(img.file, p * SECTOR, p * SECTOR + img.fmt.ngte * 4, 4 * j);
    LeU32Slice(img.file, r * SECTOR, r * SECTOR + img.fmt.ngte * 4, 4 * j);
  }

  /** Equal table bytes and equal decoded tables are the same thing. */
  lemma TableBytesDecide(img: Image, p: u32, r: u32)
    requires img.IsSparse() && img.fmt.ngte > 0 && Usable(img, p) && Usable(img, r)
    ensures TableAt(img.file, p, img.fmt.ngte).Some? && TableAt(img.file, r, img.fmt.ngte).Some?
    ensures TableAt(img.file, p, img.fmt.ngte) == TableAt(img.file, r, img.fmt.ngte) <==> Table(img, p) == Table(img, r)
  {
    hide TableEntry;
    var n := img.fmt.ngte;
    var a, b := p * SECTOR, r * SECTOR;
    if img.file[a..a + n * 4] == img.file[b..b + n * 4] {
      forall j | 0 <= j < n
        ensures Table(img, p)[j] == Table(img, r)[j]
      {
        TablesFromBytes(img, p, r, j);
      }
    }
    if Table(img, p) == Table(img, r) {
      var x, y := img.file[a..a + n * 4], img.file[b..b + n * 4];
      forall k | 0 <= k < |x|
        ensures x[k] == y[k]
      {
        BytesFromTables(img, p, r, k);
      }
      assert x == y;
    }
  }

  /** The audit's redundant directory is the reader's, entry by entry. */
  lemma RgdAgrees(l: SparseLayout, img: Image)
    requires img.Valid() && LayoutAgrees(l, img) && l.gdCount * 4 <= U64_MAX
    ensures RgdOf(l, img.file).Some? <==> RgdInFile(img)
    ensures RgdOf(l, img.file).Some? ==>
              forall i: nat :: i < l.gdCount ==> RgdOf(l, img.file).value[i] == RgdEntry(img, i)
  {
    hide Image.Valid, LeU32;
    if RgdOf(l, img.file).Some? {
      var at := SatMul(l.rgdOffset, SECTOR);
      var len := 4 * l.gdCount;
      forall i: nat | i < l.gdCount
        ensures RgdOf(l, img.file).value[i] == RgdEntry(img, i)
      {
        LeU32Slice(img.file, at, at + len, 4 * i);
      }
    }
  }

  lemma SlotVerdicts(l: SparseLayout, img: Image, rgd: seq<u32>, i: nat)
    requires img.Valid() && LayoutAgrees(l, img) && i < l.gdCount && |rgd| == l.gdCount
    requires rgd[i] == RgdEntry(img, i)
    ensures SlotMatches(l, rgd, img.file, i) <==> SlotAgrees(img, i)
  {
    hide RgdEntry, Table, TableEntry, LeU32;
    Shape(img);
    hide Image.Valid;
    var p, r := l.grainDir[i], rgd[i];
    TableAtUsable(img, p);
    TableAtUsable(img, r);
    if Usable(img, p) && Usable(img, r) {
      TableBytesDecide(img, p, r);
    }
  }

  lemma TableAtUsable(img: Image, p: u32)
    requires img.IsSparse() && 0 < img.fmt.ngte <= 4096 && |img.file| <= I64_MAX
    ensures p != 0 ==> (TableAt(img.file, p, img.fmt.ngte).Some? <==> Usable(img, p))
  {
  }

  /** `validate_rgd` answers yes exactly when every slot agrees in the reader's sense. */
  lemma ValidateIsRgdValid(file: File, tools: Tools)
    requires IsVmdk4(file) && OpenStream(file, tools).Ok?
    ensures ValidatesRgd(file) ==> RgdValid(OpenStream(file, tools).value.img)
    ensures LayoutOf(file).Some? ==> (ValidatesRgd(file) <==> RgdValid(OpenStream(file, tools).value.img))
  {
    hide OpenStream, LayoutOf, RgdOf, Image.Valid, SlotMatches, SlotAgrees, ParseSparse, GdOffset, DirectoryVisible, RgdInFile;
    OpenedIsValid(file, tools);
    OpenedCount(file, tools);
    var img := OpenStream(file, tools).value.img;
    if LayoutOf(file).Some? {
      TwoParsersAgree(file, tools);
      var l := LayoutOf(file).value;
      LayoutCountSmall(file);
      RgdAgrees(l, img);
      if RgdOf(l, file).Some? {
        var rgd := RgdOf(l, file).value;
        forall i: nat | i < l.gdCount
          ensures SlotMatches(l, rgd, file, i) <==> SlotAgrees(img, i)
        {
          SlotVerdicts(l, img, rgd, i);
        }
      }
    }
  }

  /**
   A true `validate_rgd` makes recovery a no-op: reads at every offset and the whole scan are
   the same with fallback on and off, no lookup is answered by the redundant directory, and a
   scan recovers nothing.
   */
  lemma ValidatedRecoveryIsNoOp(file: File, tools: Tools)
    requires IsVmdk4(file) && OpenStream(file, tools).Ok? && ValidatesRgd(file)
    ensures OpenStream(file, tools).value.img.Valid() && OpenStream(file, tools).value.img.IsSparse()
    ensures var img := OpenStream(file, tools).value.img;
            && (forall off: nat :: Slice(img, true, off) == Slice(img, false, off))
            && (forall off: nat :: off < img.size ==> !AnsweredByRgd(img, true, off))
            && ScanOk(img, true) && ScanOk(img, false) && Listing(img, true) == Listing(img, false)
            && RecoveredByScan(img, true) == 0
  {
    hide OpenStream, ValidatesRgd, Image.Valid, Slice, AnsweredByRgd, ScanOk, Listing, RecoveredByScan, RgdValid;
    OpenedIsValid(file, tools);
    OpenedCount(file, tools);
    ValidateIsRgdValid(file, tools);
    var img := OpenStream(file, tools).value.img;
    ValidRgdScan(img);
    forall off: nat
      ensures Slice(img, true, off) == Slice(img, false, off)
      ensures off < img.size ==> !AnsweredByRgd(img, true, off)
    {
      ValidRgdSlice(img, off);
      if off < img.size {
        ValidRgdLookup(img, off);
      }
    }
  }

  // ── triage ────────────────────────────────────────────────────────────────

  /** An entry counts as recoverable exactly when the resolver answers with the RGD pointer. */
  lemma RecoverableIsResolved(l: SparseLayout, img: Image, rgd: seq<u32>, i: nat)
    requires img.Valid() && LayoutAgrees(l, img) && i < l.gdCount && |rgd| == l.gdCount
    requires rgd[i] == RgdEntry(img, i)
    ensures EntryRecoverable(l, rgd, i) <==>
            Resolve(img, true, i) == RgdEntry(img, i) && Resolve(img, true, i) != Primary(img, i)
  {
    hide RgdEntry;
    Shape(img);
    hide Image.Valid;
    InBoundsExact(l.grainDir[i], l.ngte, l.fileLen);
    InBoundsExact(rgd[i], l.ngte, l.fileLen);
  }

  /** Entries zeroed in the primary directory while the redundant one still holds a pointer. */
  ghost function ZeroedSet(l: SparseLayout, rgd: seq<u32>, n: nat): set<nat>
    requires n <= |l.grainDir| && n <= |rgd|
  {
    set i: nat | i < n && l.grainDir[i] == 0 && rgd[i] != 0
  }

  lemma SplitCount(a: set<nat>, b: set<nat>, whole: set<nat>)
    requires a !! b && a + b == whole
    ensures |a| + |b| == |whole|
  {
  }

  /** The indices below `n`. */
  ghost function Below(n: nat): (s: set<nat>)
    ensures |s| == n
    ensures forall i: nat :: i in s <==> i < n
  {
    if n == 0 then {} else Below(n - 1) + {n - 1}
  }

  /**
   The triage counts add up: intact and damaged entries partition the directory, recoverable
   and lost ones partition the damaged, and the damaged are the dangling pointers together with
   the entries lost to zero.
   */
  lemma TriageAddsUp(l: SparseLayout, rgd: seq<u32>)
    requires l.gdCount == |l.grainDir| == |rgd|
    ensures var t := TriageWith(l, rgd);
            && t.primaryIntact + t.primaryDamaged == t.totalEntries == l.gdCount
            && t.recoverableViaRgd + t.unrecoverable == t.primaryDamaged
            && t.primaryDamaged == |DanglingSet(l, l.gdCount)| + |ZeroedSet(l, rgd, l.gdCount)|
  {
    hide IntactSet, DamagedSet, RecoverableSet, LostSet, DanglingSet, ZeroedSet;
    IntactOrDamaged(l, rgd, l.gdCount);
    RecoverableOrLost(l, rgd, l.gdCount);
    DanglingOrZeroed(l, rgd, l.gdCount);
  }

  lemma IntactOrDamaged(l: SparseLayout, rgd: seq<u32>, n: nat)
    requires n <= |l.grainDir| && n <= |rgd|
    ensures |IntactSet(l, rgd, n)| + |DamagedSet(l, rgd, n)| == n
  {
    hide EntryDamaged, EntryRecoverable;
    SplitCount(IntactSet(l, rgd, n), DamagedSet(l, rgd, n), Below(n));
  }

  lemma RecoverableOrLost(l: SparseLayout, rgd: seq<u32>, n: nat)
    requires n <= |l.grainDir| && n <= |rgd|
    ensures |RecoverableSet(l, rgd, n)| + |LostSet(l, rgd, n)| == |DamagedSet(l, rgd, n)|
  {
    hide InBounds;
    SplitCount(RecoverableSet(l, rgd, n), LostSet(l, rgd, n), DamagedSet(l, rgd, n));
  }

  lemma DanglingOrZeroed(l: SparseLayout, rgd: seq<u32>, n: nat)
    requires n <= |l.grainDir| && n <= |rgd|
    ensures |DanglingSet(l, n)| + |ZeroedSet(l, rgd, n)| == |DamagedSet(l, rgd, n)|
  {
    hide InBounds;
    ZeroOutOfBounds(l);
    SplitCount(DanglingSet(l, n), ZeroedSet(l, rgd, n), DamagedSet(l, rgd, n));
  }

  lemma ZeroOutOfBounds(l: SparseLayout)
    ensures !InBounds(0, l.ngte, l.fileLen)
  {
  }

  /** Without a readable redundant directory the damaged entries are the dangling ones. */
  lemma TriageWithoutAddsUp(l: SparseLayout)
    requires l.gdCount == |l.grainDir|
    ensures var t := TriageWithout(l);
            && t.primaryIntact + t.primaryDamaged == t.totalEntries == l.gdCount
            && t.recoverableViaRgd + t.unrecoverable == t.primaryDamaged
  {
    hide InBounds;
    var n := l.gdCount;
    SplitCount(NotDanglingSet(l, n), DanglingSet(l, n), Below(n));
  }

  /** The report's totals, on every file. */
  lemma TriageTotals(file: File)
    ensures var t := TriageOf(file);
            && t.primaryIntact + t.primaryDamaged == t.totalEntries
            && t.recoverableViaRgd + t.unrecoverable == t.primaryDamaged
  {
    hide LayoutOf, TriageWith, TriageWithout, RgdOf;
    if LayoutOf(file).Some? && LayoutFits(LayoutOf(file).value, file) {
      var l := LayoutOf(file).value;
      TriageWithoutAddsUp(l);
      if RgdOf(l, file).Some? {
        TriageAddsUp(l, RgdOf(l, file).value);
      }
    }
  }

  /** Triage counts exactly the slots the reader's resolver answers from the RGD. */
  ghost function ResolvedByRgd(img: Image): set<nat>
    requires img.IsSparse()
  {
    set i: nat | i < |img.fmt.gd| && Resolve(img, true, i) == RgdEntry(img, i) && Resolve(img, true, i) != Primary(img, i)
  }

  /**
   Triage agrees with the resolver: when the whole redundant directory lies in the file, the
   recoverable count is the number of slots fallback resolves through it, damage beyond the
   dangling tables of the integrity check is loss to zero, and a true `validate_rgd` leaves
   nothing damaged.
   */
  lemma TriageAgreesWithResolver(file: File, tools: Tools)
    requires IsVmdk4(file) && OpenStream(file, tools).Ok? && LayoutOf(file).Some?
    requires RgdInFile(OpenStream(file, tools).value.img)
    ensures var img := OpenStream(file, tools).value.img;
            && img.IsSparse()
            && TriageOf(file).recoverableViaRgd == |ResolvedByRgd(img)|
            && TriageOf(file).primaryDamaged >= ReportOf(file).outOfBoundsTables
            && TriageOf(file).primaryDamaged - ReportOf(file).outOfBoundsTables == |LostToZero(img)|
    ensures ValidatesRgd(file) ==> TriageOf(file).primaryDamaged == 0
  {
    hide OpenStream, LayoutOf, RgdOf, Image.Valid, InBounds, ParseSparse, GdOffset, DirectoryVisible, RgdInFile, RgdEntry,
         Resolve, EntryRecoverable, ValidatesRgd, RgdValid, GrainSet, OutsideSet, EntryDamaged, Dangling;
    OpenedIsValid(file, tools);
    OpenedCount(file, tools);
    TwoParsersAgree(file, tools);
    Vmdk4Dispatch(file, tools);
    var img := OpenStream(file, tools).value.img;
    var l := LayoutOf(file).value;
    LayoutCountSmall(file);
    RgdAgrees(l, img);
    var rgd := RgdOf(l, file).value;
    var n := l.gdCount;
    TriageAddsUp(l, rgd);
    assert RecoverableSet(l, rgd, n) == ResolvedByRgd(img) by {
      forall i: nat | i < n
        ensures i in RecoverableSet(l, rgd, n) <==> i in ResolvedByRgd(img)
      {
        RecoverableIsResolved(l, img, rgd, i);
      }
    }
    assert ZeroedSet(l, rgd, n) == LostToZero(img);
    if ValidatesRgd(file) {
      ValidatedNothingDamaged(file, tools, rgd);
    }
  }

  /** Slots zeroed in the primary directory while the redundant one still holds a pointer. */
  ghost function LostToZero(img: Image): set<nat>
    requires img.IsSparse()
  {
    set i: nat | i < |img.fmt.gd| && img.fmt.gd[i] == 0 && RgdEntry(img, i) != 0
  }

  /** A triage of `n` slots: `d` damaged, `r` of them recoverable. */
  function Triage(n: nat, d: nat, r: nat): GdRecoveryReport
    requires r <= d <= n
  {
    GdRecoveryReport(true, n, n - d, d, r, d - r)
  }

  /**
   The whole triage in the reader's terms. No redundant directory: nothing to report. One that does
   not lie in the file: the damaged slots are the dangling ones, all lost. One that does: the
   damaged are the dangling and the zeroed, the recoverable those fallback resolves through it.
   */
  lemma TriageMeans(file: File, tools: Tools)
    requires IsVmdk4(file) && OpenStream(file, tools).Ok? && LayoutOf(file).Some?
    ensures var img, dangling, t := OpenStream(file, tools).value.img, ReportOf(file).outOfBoundsTables, TriageOf(file);
            && img.IsSparse()
            && (!HasRgd(img) ==> t == GdRecoveryReport(false, 0, 0, 0, 0, 0))
            && (HasRgd(img) && !RgdInFile(img) ==> dangling <= |img.fmt.gd| && t == Triage(|img.fmt.gd|, dangling, 0))
            && (RgdInFile(img) ==>
                  var damaged, resolved := dangling + |LostToZero(img)|, |ResolvedByRgd(img)|;
                  resolved <= damaged <= |img.fmt.gd| && t == Triage(|img.fmt.gd|, damaged, resolved))
  {
    hide OpenStream, LayoutOf, Image.Valid, RgdEntry, RgdInFile, HasRgd, TriageOf, ReportOf, ResolvedByRgd, LostToZero;
    hide ParseSparse, GdOffset, DirectoryVisible;
    OpenedCount(file, tools);
    TwoParsersAgree(file, tools);
    RgdInFileHas(OpenStream(file, tools).value.img);
    TriageTotals(file);
    TriageSize(file, tools);
    if RgdInFile(OpenStream(file, tools).value.img) {
      TriageAgreesWithResolver(file, tools);
    }
  }

  lemma RgdInFileHas(img: Image)
    ensures RgdInFile(img) ==> HasRgd(img)
  {
  }

  /** The triage of a file by what its redundant directory allows. */
  lemma TriageSize(file: File, tools: Tools)
    requires IsVmdk4(file) && OpenStream(file, tools).Ok? && LayoutOf(file).Some?
    ensures var img, t := OpenStream(file, tools).value.img, TriageOf(file);
            && img.IsSparse()
            && (!HasRgd(img) ==> t == NO_RECOVERY)
            && (HasRgd(img) ==> t.hasRgd && t.totalEntries == |img.fmt.gd|)
            && (HasRgd(img) && !RgdInFile(img) ==> t.primaryDamaged == ReportOf(file).outOfBoundsTables && t.recoverableViaRgd == 0)
  {
    hide OpenStream, LayoutOf, RgdOf, Image.Valid, ParseSparse, GdOffset, DirectoryVisible, RgdInFile;
    hide GrainSet, OutsideSet, DanglingSet, NotDanglingSet, DamagedSet, IntactSet, LostSet, RecoverableSet;
    OpenedIsValid(file, tools);
    OpenedCount(file, tools);
    TwoParsersAgree(file, tools);
    Vmdk4Dispatch(file, tools);
    LayoutCountSmall(file);
    RgdAgrees(LayoutOf(file).value, OpenStream(file, tools).value.img);
    RgdInFileHas(OpenStream(file, tools).value.img);
  }

  lemma ValidatedNothingDamaged(file: File, tools: Tools, rgd: seq<u32>)
    requires IsVmdk4(file) && OpenStream(file, tools).Ok? && ValidatesRgd(file)
    requires RgdOf(LayoutOf(file).value, file) == Some(rgd)
    ensures |DamagedSet(LayoutOf(file).value, rgd, LayoutOf(file).value.gdCount)| == 0
  {
    hide OpenStream, LayoutOf, RgdOf, InBounds;
    var l := LayoutOf(file).value;
    forall i: nat | i < l.gdCount
      ensures !EntryDamaged(l, rgd, i)
    {
      assert SlotMatches(l, rgd, file, i);
      InBoundsExact(l.grainDir[i], l.ngte, l.fileLen);
    }
    assert DamagedSet(l, rgd, l.gdCount) == {};
  }
}
