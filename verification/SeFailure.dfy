/**
 What a clean seSparse audit does not promise: extents that open and are reported clean, and
 cannot be read.
 */
module SeFailures {
  import opened Wrappers
  import opened Arith
  import opened Bytes
  import opened Headers
  import opened Images
  import opened Opening
  import opened Forensics
  import opened SeSparseAudits
  import opened Builders
  import opened ExtentBuilders

  /** Entries of a one-entry table. */
  lemma PaddedEntry(s: seq<byte>, at: nat, v: u64, n: nat, j: nat)
    requires at + n <= |s| && s[at..at + n] == Padded(LeBytes64(v), n) && 8 * j + 8 <= n
    ensures LeU64(s, at + 8 * j) == if j == 0 then v else 0
  {
    hide LeBytes64;
    if j == 0 {
      Entry64In(s, at, v, n);
    } else {
      var t := s[at..at + n];
      LeU64Slice(s, at, at + n, 8 * j);
      assert forall k :: 8 <= k < n ==> t[k] == 0;
    }
  }

  lemma UnknownIsNotAllocated(gte: u64)
    requires !SeSupported(gte)
    ensures SeType(gte) != SE_ALLOCATED && SeType(0) != SE_ALLOCATED
  {
  }

  /** The audit's walk over a built extent: the entry written, then zeros. */
  lemma BuiltWalk(gte: u64, data: seq<byte>)
    ensures var f := SeFileWith(SE_GD_SECTOR, SE_GD_ENTRY, gte, data);
            && SeLayoutOf(f).Some?
            && var l := SeLayoutOf(f).value;
            && l.grainDir == [SE_GD_ENTRY] && SeTableReadable(l, SE_GD_ENTRY)
            && l.hdr == SeHeaderAt(SE_GD_SECTOR) && l.fileLen == |f|
            && forall j: nat :: j < SE_GTES_PER_GT ==> SeWalkEntry(l, f, 0, j) == if j == 0 then gte else 0
  {
    hide SeFileWith, LeU64, ParseSe, SeFields, Padded;
    var f := SeFileWith(SE_GD_SECTOR, SE_GD_ENTRY, gte, data);
    SeRegions(SE_GD_SECTOR, SE_GD_ENTRY, gte, data);
    SeHeaderParses(SeHeaderAt(SE_GD_SECTOR));
    assert SeTables(SeHeaderAt(SE_GD_SECTOR)) == 1;
    var gd := SE_GD_SECTOR * SECTOR;
    LeU64Slice(f, gd, gd + 8, 0);
    assert LeTable64(f[gd..gd + 8]) == [SE_GD_ENTRY];
    forall j: nat | j < SE_GTES_PER_GT
      ensures SeWalkEntry(SeLayoutOf(f).value, f, 0, j) == if j == 0 then gte else 0
    {
      PaddedEntry(f, SE_GT_OFFSET * SECTOR, gte, SE_TABLE_BYTES, j);
    }
  }

  lemma BuiltIsClean(gte: u64, data: seq<byte>)
    requires !SeSupported(gte)
    ensures ReportOf(SeFileWith(SE_GD_SECTOR, SE_GD_ENTRY, gte, data)).IsOk()
  {
    hide SeFileWith, SeWalkEntry, SeTableReadable, SeLayoutOf, SeType, SeSupported, SeGrainOutside, LeU64, SparseReport, LayoutOf;
    var f := SeFileWith(SE_GD_SECTOR, SE_GD_ENTRY, gte, data);
    BuiltWalk(gte, data);
    BuiltMagic(SE_GD_SECTOR, SE_GD_ENTRY, gte, data);
    UnknownIsNotAllocated(gte);
    var l := SeLayoutOf(f).value;
    assert SeDanglingSet(l, 1) == {};
    assert SeOutsideSet(l, f, SE_GTES_PER_GT) == {};
  }

  lemma BuiltMagic(gdOffset: u64, e: u64, gte: u64, data: seq<byte>)
    ensures IsSeSparse(SeFileWith(gdOffset, e, gte, data))
  {
    hide SeFileWith, LeU64, SeFields;
    SeRegions(gdOffset, e, gte, data);
    SeHeaderParses(SeHeaderAt(gdOffset));
    LeU64Slice(SeFileWith(gdOffset, e, gte, data), 0, 512, 0);
  }

  /** Whatever unknown entry grain 0 has, the extent opens, is reported clean, and fails to read. */
  lemma UnknownTypePassesAudit(gte: u64, data: seq<byte>, tools: Tools)
    requires !SeSupported(gte)
    ensures var f := SeFileWith(SE_GD_SECTOR, SE_GD_ENTRY, gte, data);
            && IsSeSparse(f) && OpenStream(f, tools).Ok? && !DirectoryWraps(f) && ReportOf(f).IsOk()
            && OpenStream(f, tools).value.img.Valid()
            && Slice(OpenStream(f, tools).value.img, false, 0) == Err(InvalidData)
  {
    hide OpenStream, SeFileWith, Image.Valid, SeGte, ReportOf, DirectoryWraps, SeLayoutOf;
    BuiltIsClean(gte, data);
    BuiltMagic(SE_GD_SECTOR, SE_GD_ENTRY, gte, data);
    SeOpens(SE_GD_SECTOR, SE_GD_ENTRY, gte, data, tools);
    BuiltWalk(gte, data);
    SeParsersAgree(SeFileWith(SE_GD_SECTOR, SE_GD_ENTRY, gte, data), tools);
    SeImageValid(SE_GD_SECTOR, SE_GD_ENTRY, gte, data, tools);
    SeBuiltGte(SE_GD_SECTOR, gte, data, tools);
  }

  /** A directory sector whose byte address wraps around to sector 2. */
  const WRAPPED_SECTOR: u64 := 0x80_0000_0000_0002

  /** A directory entry for a table far past the end of the file. */
  const DANGLING_ENTRY: u64 := 0x1000_0000_FFFF_FFFF

  /** The reader follows a wrapped directory address to a dangling table; the audit reads nothing. */
  lemma WrappedDirectoryPassesAudit(gte: u64, data: seq<byte>, tools: Tools)
    ensures var f := SeFileWith(WRAPPED_SECTOR, DANGLING_ENTRY, gte, data);
            && IsSeSparse(f) && DirectoryWraps(f) && ReportOf(f) == CLEAN_REPORT
            && OpenStream(f, tools).Ok? && OpenStream(f, tools).value.img.Valid()
            && Slice(OpenStream(f, tools).value.img, false, 0) == Err(UnexpectedEof)
  {
    hide OpenStream, SeFileWith, Image.Valid, ReportOf, LeU64, SeFields, ParseSe;
    var f := SeFileWith(WRAPPED_SECTOR, DANGLING_ENTRY, gte, data);
    BuiltMagic(WRAPPED_SECTOR, DANGLING_ENTRY, gte, data);
    SeRegions(WRAPPED_SECTOR, DANGLING_ENTRY, gte, data);
    SeHeaderParses(SeHeaderAt(WRAPPED_SECTOR));
    WrappedIsClean(f);
    SeOpens(WRAPPED_SECTOR, DANGLING_ENTRY, gte, data, tools);
    SeImageValid(WRAPPED_SECTOR, DANGLING_ENTRY, gte, data, tools);
    assert SeDirAllocated(DANGLING_ENTRY);
    assert SeGte(SeImageWith(WRAPPED_SECTOR, DANGLING_ENTRY, gte, data, tools), 0) == Err(UnexpectedEof);
  }
}
