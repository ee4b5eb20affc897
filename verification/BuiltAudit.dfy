/**
 What the audit says of the files the builders write (core/src/testutil.rs, forensic/src/lib.rs):
 one grain, ending exactly at the end of the file, and nothing to report.
 */
module BuiltAudits {
  import opened Arith
  import opened Bytes
  import opened Headers
  import opened Images
  import opened Opening
  import opened Recovery
  import opened Forensics
  import opened Audits
  import opened Analyses
  import opened SeSparseAudits
  import opened Builders
  import opened ExtentBuilders
  import opened SeFailures

  // ── seSparse ──────────────────────────────────────────────────────────────

  lemma LastGrainInside(l: SeLayout)
    requires l.hdr == SeHeaderAt(SE_GD_SECTOR) && l.fileLen == SE_GRAIN_SECTOR * SECTOR + GRAIN_BYTES
    ensures SeType(SE_GT_ENTRY) == SE_ALLOCATED && SeType(0) != SE_ALLOCATED && !SeGrainOutside(l, SE_GT_ENTRY)
  {
  }

  /** The seSparse file of every input has one grain, up to the last byte of the file, and is reported clean. */
  lemma BuiltSeIsClean(data: seq<byte>)
    ensures var f := SeFileWith(SE_GD_SECTOR, SE_GD_ENTRY, SE_GT_ENTRY, data);
            IsSeSparse(f) && ReportOf(f) == IntegrityReport(1, 0, 0)
  {
    hide SeFileWith, SeWalkEntry, SeTableReadable, SeLayoutOf, SeType, SeGrainOutside, LeU64, SparseReport, LayoutOf;
    var f := SeFileWith(SE_GD_SECTOR, SE_GD_ENTRY, SE_GT_ENTRY, data);
    BuiltWalk(SE_GT_ENTRY, data);
    BuiltMagic(SE_GD_SECTOR, SE_GD_ENTRY, SE_GT_ENTRY, data);
    var l := SeLayoutOf(f).value;
    LastGrainInside(l);
    assert SeDanglingSet(l, 1) == {};
    assert SeGrainSet(l, f, SE_GTES_PER_GT) == {0};
    assert SeOutsideSet(l, f, SE_GTES_PER_GT) == {};
  }

  // ── VMDK4 ─────────────────────────────────────────────────────────────────

  /** The entries of a one-entry table other than the one. */
  lemma OtherEntry(s: seq<byte>, at: nat, e: nat, v: u32, n: nat, j: nat)
    requires at + n <= |s| && s[at..at + n] == OneEntry(e, v, n) && j != e && 4 * j + 4 <= n && 4 * e + 4 <= n
    ensures LeU32(s, at + 4 * j) == 0
  {
    hide LeBytes32;
    LeU32Slice(s, at, at + n, 4 * j);
    var t := s[at..at + n];
    assert t[4 * j] == 0 && t[4 * j + 1] == 0 && t[4 * j + 2] == 0 && t[4 * j + 3] == 0;
  }

  lemma BuiltTable(desc: seq<byte>, e: nat, data: seq<byte>, j: nat)
    requires e < 2 && j < 512
    ensures LeU32(SparseFile(desc, e, data), SPARSE_GT_SECTOR * SECTOR + 4 * j) == if j == e then SPARSE_GRAIN_SECTOR else 0
  {
    hide LeU32, EncodeHeader, Padded, OneEntry;
    var f, at := SparseFile(desc, e, data), SPARSE_GT_SECTOR * SECTOR;
    assert f[at..at + 4 * SECTOR] == OneEntry(e, SPARSE_GRAIN_SECTOR, 4 * SECTOR);
    if j == e {
      TableIn(f, at, e, SPARSE_GRAIN_SECTOR, 4 * SECTOR, j);
    } else {
      OtherEntry(f, at, e, SPARSE_GRAIN_SECTOR, 4 * SECTOR, j);
    }
  }

  /** One slot, usable in both directories alike, whose table names one grain that ends with the file. */
  lemma BuiltPointers(desc: seq<byte>, e: nat, data: seq<byte>, tools: Tools)
    requires e < 2
    ensures var img := BuiltImage(desc, e, data, tools);
            && img.Valid() && RgdValid(img) && RgdEntry(img, 0) == img.fmt.gd[0] != 0 && Usable(img, img.fmt.gd[0])
            && Named(img) == {e} && PrimaryWord(img, e) * SECTOR + img.fmt.grain == |img.file|
  {
    hide SparseFile, LeU32;
    var img := BuiltImage(desc, e, data, tools);
    BuiltImageValid(desc, e, data, tools);
    SparseRegions(desc, e, data);
    forall j: nat | j < 512
      ensures PrimaryWord(img, j) == if j == e then SPARSE_GRAIN_SECTOR else 0
    {
      BuiltTable(desc, e, data, j);
    }
    assert SlotAgrees(img, 0);
  }

  lemma BuiltFrame(desc: seq<byte>, e: nat, data: seq<byte>)
    requires e < 2
    ensures var f := SparseFile(desc, e, data);
            |f| >= 512 && IsVmdk4(f) && f[72] == 0 && f[73..77] == [0x0A, 0x20, 0x0D, 0x0A]
  {
    hide EncodeHeader, LeU32, Padded, OneEntry;
    var f, h := SparseFile(desc, e, data), EncodeHeader(BuiltHeader(e), SPARSE_GRAIN_SECTOR);
    assert f[..512] == h;
    assert f[72..77] == h[72..77];
    LineCheck(BuiltHeader(e), SPARSE_GRAIN_SECTOR);
    assert f[72] == f[72..77][0] && f[73..77] == f[72..77][1..];
    EncodedHasFields(BuiltHeader(e), SPARSE_GRAIN_SECTOR);
    assert f[..4] == h[..4];
    MagicWord(f);
  }

  lemma LineCheck(h: SparseHeader, overHead: u64)
    ensures EncodeHeader(h, overHead)[72..77] == [0, 10, 32, 13, 10]
  {
    hide HeaderFront, LeBytes64, LeBytes16;
    var front := HeaderFront(h) + LeBytes64(h.rgdOffset) + LeBytes64(h.gdOffset) + LeBytes64(overHead);
    assert |front| == 72;
  }

  lemma NothingLost(img: Image)
    requires img.IsSparse() && |img.fmt.gd| == 1 && img.fmt.ngte > 0
    requires RgdEntry(img, 0) == img.fmt.gd[0] != 0 && Usable(img, img.fmt.gd[0])
    ensures LostToZero(img) == {} && ResolvedByRgd(img) == {}
    ensures (set i: nat | i < |img.fmt.gd| && img.fmt.gd[i] != 0 && !Usable(img, img.fmt.gd[i])) == {}
  {
    hide RgdEntry, Usable;
  }

  /**
   The VMDK4 file of every input whose descriptor parses: one grain, up to the last byte of the
   file, nothing out of bounds, a redundant directory that validates, one intact slot, no finding.
   */
  lemma BuiltSparseIsQuiet(desc: seq<byte>, e: nat, data: seq<byte>, tools: Tools)
    requires e < 2 && OpenStream(SparseFile(desc, e, data), tools).Ok?
    ensures var f := SparseFile(desc, e, data);
            && ReportOf(f) == IntegrityReport(1, 0, 0) && ValidatesRgd(f)
            && TriageOf(f) == GdRecoveryReport(true, 1, 1, 0, 0, 0)
            && Findings(f) == []
  {
    hide SparseFile, OpenStream, Named, PrimaryWord, RgdValid, LayoutOf, SparseReport, TriageOf, ValidatesRgd, Image.Valid, RgdEntry;
    hide LostToZero, ResolvedByRgd, DirectoryVisible, ParseSparse, GdOffset, Usable, RgdInFile;
    var f, img := SparseFile(desc, e, data), BuiltImage(desc, e, data, tools);
    SparseOpens(desc, e, data, tools);
    BuiltFrame(desc, e, data);
    BuiltPointers(desc, e, data, tools);
    NothingLost(img);
    NonEmptyHasLayout(f, tools);
    TwoParsersAgree(f, tools);
    Vmdk4Dispatch(f, tools);
    ReportMeans(LayoutOf(f).value, img);
    ValidateIsRgdValid(f, tools);
    TriageMeans(f, tools);
    BuiltRgdInFile(desc, e, data, tools);
    assert (set g: nat | g in Named(img) && |img.file| < PrimaryWord(img, g) * SECTOR + img.fmt.grain) == {};
  }

  lemma BuiltRgdInFile(desc: seq<byte>, e: nat, data: seq<byte>, tools: Tools)
    requires e < 2
    ensures RgdInFile(BuiltImage(desc, e, data, tools))
  {
    hide SparseFile;
  }
}
