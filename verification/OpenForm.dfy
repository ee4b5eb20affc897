/**
 Which files open, and as what disk (core/src/lib.rs `open`, core/src/cowd.rs, core/src/sesparse.rs):
 for each format the exact condition on the bytes of the file, and the image that results.
 */
module OpenForms {
  import opened Wrappers
  import opened Arith
  import opened Bytes
  import opened Headers
  import opened Descriptors
  import opened Images
  import opened Opening
  import opened Builders
  import opened ExtentBuilders
  import opened Forensics

  /** The words of the directory at byte `at`. */
  function DirectoryBytes(file: File, at: nat, n: nat): seq<byte>
    requires n == 0 || at + n <= |file|
  {
    if n == 0 then [] else file[at..at + n]
  }

  // ── VMDK4 ─────────────────────────────────────────────────────────────────

  /** Tables of `per` grains each for a disk of `capacity` sectors. */
  function TablesFor(capacity: nat, grainSize: nat, per: nat): nat
    requires grainSize > 0 && per > 0
  {
    DivCeil(DivCeil(capacity, grainSize), per)
  }

  /** The descriptor a header places: none, or at most 64 KiB of it, decoded. */
  function PlacedText(file: File, h: SparseHeader, decoder: TextDecoder): Option<string> {
    if h.descriptorOffset == 0 || h.descriptorSize == 0 then Some("") else
    var at, n := 512 * h.descriptorOffset, Min(512 * h.descriptorSize, 65536);
    if at + n > |file| then None else Some(Decode(file[at..at + n], decoder))
  }

  /** The directory is at `sector`: by the header, or by the footer 1024 bytes before the end. */
  ghost predicate DirectorySector(file: File, h: SparseHeader, sector: u64) {
    if h.gdOffset != 0xffff_ffff_ffff_ffff then sector == h.gdOffset else
    |file| >= 1024 && exists f :: Writable(f) && HasFields(file[|file| - 1024..|file| - 512], f) && f.gdOffset == sector
  }

  /** The bytes of a VMDK4 file that opens. */
  ghost predicate OpensAsSparse(file: File, h: SparseHeader, sector: u64, tools: Tools) {
    && |file| >= 512 && Writable(h) && HasFields(file[..512], h)
    && 512 * h.capacity <= U64_MAX
    && PlacedText(file, h, tools.decoder).Some? && DescriptorOf(PlacedText(file, h, tools.decoder).value).Ok?
    && DirectorySector(file, h, sector) && 512 * sector <= U64_MAX
    && var n := 4 * TablesFor(h.capacity, h.grainSize, h.numGtes);
    n <= 0x100_0000 && (n == 0 || 512 * sector + n <= |file|)
  }

  /** What it opens as. */
  ghost function SparseOpened(file: File, h: SparseHeader, sector: u64, tools: Tools): Opened
    requires OpensAsSparse(file, h, sector, tools)
  {
    var n := TablesFor(h.capacity, h.grainSize, h.numGtes);
    var desc := DescriptorOf(PlacedText(file, h, tools.decoder).value).value;
    Opened(Image(file, Sparse(LeTable32(DirectoryBytes(file, 512 * sector, 4 * n)), 512 * h.grainSize, h.numGtes, h.version == 3),
                 512 * h.capacity, h.rgdOffset, n, tools.inflate),
           Meta(desc.createType, h.version, desc.cid, desc.parentCid, desc.rawText))
  }

  lemma FirstBlock(file: File)
    requires |file| >= 512
    ensures ExactBytes(file, 0, 512) == Ok(file[..512])
  {
  }

  lemma PlacedIsRead(file: File, h: SparseHeader, decoder: TextDecoder)
    ensures var text, r := PlacedText(file, h, decoder), ReadDescriptorOf(file, h, decoder);
            if text.Some? && DescriptorOf(text.value).Ok? then r == DescriptorOf(text.value) else r.Err?
  {
    hide DescriptorOf, Decode;
  }

  lemma FooterIs(file: File, h: SparseHeader, sector: u64)
    ensures GdOffset(file, h) == Ok(sector) <==> DirectorySector(file, h, sector)
  {
    hide ParseSparse, Writable, HasFields;
    if |file| >= 1024 {
      var d := file[|file| - 1024..|file| - 512];
      forall f: SparseHeader
        ensures ParseSparse(d) == Ok(f) <==> Writable(f) && HasFields(d, f)
      {
        SparseParses(d, f);
      }
    }
  }

  /** Below the size overflow, the table count is accepted exactly under the directory cap. */
  lemma TablesAccepted(h: SparseHeader)
    requires Writable(h) && 512 * h.capacity <= U64_MAX
    ensures NumTables(h).Ok? <==> 4 * TablesFor(h.capacity, h.grainSize, h.numGtes) <= 0x100_0000
    ensures NumTables(h).Ok? ==> NumTables(h).value == TablesFor(h.capacity, h.grainSize, h.numGtes)
  {
    hide DivCeil;
    DivCeilAsFloor(h.capacity, h.grainSize);
    DivCeilAsFloor(DivCeil(h.capacity, h.grainSize), h.numGtes);
    CeilBelow(h.capacity, h.grainSize);
  }

  /** A VMDK4 file with these header fields and this directory opens exactly under the stated condition. */
  lemma SparseOpensIff(file: File, h: SparseHeader, sector: u64, tools: Tools)
    requires |file| >= 512 && Writable(h) && HasFields(file[..512], h) && DirectorySector(file, h, sector)
    ensures OpenStream(file, tools).Ok? <==> OpensAsSparse(file, h, sector, tools)
    ensures OpenStream(file, tools).Ok? ==> OpenStream(file, tools).value == SparseOpened(file, h, sector, tools)
  {
    hide ParseSparse, ReadDescriptorOf, GdOffset, NumTables, HasFields, DescriptorOf, PlacedText, DirectorySector, DirectoryBytes;
    hide TablesFor, LeTable32, BeU32, LeU64, LeU32, ExactBytes;
    SparseParses(file[..512], h);
    DispatchesToVmdk4(file[..512]);
    FirstBlock(file);
    PlacedIsRead(file, h, tools.decoder);
    FooterIs(file, h, sector);
    if 512 * h.capacity <= U64_MAX {
      TablesAccepted(h);
      DirectoryCases(file, 512 * sector, 4 * TablesFor(h.capacity, h.grainSize, h.numGtes));
    }
  }

  lemma DirectoryCases(file: File, at: nat, n: nat)
    ensures ExactBytes(file, at, n).Ok? <==> n == 0 || at + n <= |file|
    ensures n == 0 || at + n <= |file| ==> ExactBytes(file, at, n) == Ok(DirectoryBytes(file, at, n))
  {
  }

  // ── COWD ──────────────────────────────────────────────────────────────────

  /** The bytes of a COWD file that opens: the directory is at sector 4, tables have 4096 entries. */
  predicate OpensAsCowd(file: File, h: CowdHeader) {
    && |file| >= 512 && h.grainSize > 0 && CowdHasFields(file[..512], h)
    && var n := 4 * TablesFor(h.capacity, h.grainSize, 4096);
    n == 0 || 2048 + n <= |file|
  }

  function CowdOpened(file: File, h: CowdHeader, tools: Tools): Opened
    requires OpensAsCowd(file, h)
  {
    var n := 4 * TablesFor(h.capacity, h.grainSize, 4096);
    Opened(Image(file, Sparse(LeTable32(DirectoryBytes(file, 2048, n)), 512 * h.grainSize, 4096, false), 512 * h.capacity, 0, 0, tools.inflate),
           Meta("vmfsSparse", 1, 0xffff_ffff, 0xffff_ffff, ""))
  }

  lemma CowdOpensIff(file: File, h: CowdHeader, tools: Tools)
    requires |file| >= 512 && h.grainSize > 0 && CowdHasFields(file[..512], h)
    ensures OpenStream(file, tools).Ok? <==> OpensAsCowd(file, h)
    ensures OpenStream(file, tools).Ok? ==> OpenStream(file, tools).value == CowdOpened(file, h, tools)
  {
    hide ParseCowd, CowdHasFields, DirectoryBytes, TablesFor, LeTable32, BeU32, LeU64, ExactBytes, OpenSeImage, OpenVmdk4;
    CowdParses(file[..512], h);
    FirstBlock(file);
    assert CowdTables(h) == TablesFor(h.capacity, h.grainSize, 4096) by { CowdTablesAre(h); }
    DirectoryCases(file, 2048, 4 * TablesFor(h.capacity, h.grainSize, 4096));
  }

  lemma CowdTablesAre(h: CowdHeader)
    requires h.grainSize > 0
    ensures CowdTables(h) == TablesFor(h.capacity, h.grainSize, 4096)
  {
  }

  // ── seSparse ──────────────────────────────────────────────────────────────

  /** Grain tables of 4096 entries, at least one. */
  function SeTablesFor(capacity: nat): nat {
    if capacity == 0 then 1 else TablesFor(capacity, 8, 4096)
  }

  /** The bytes of a seSparse file that opens; the directory's byte address wraps at 64 bits. */
  predicate OpensAsSe(file: File, h: SeHeader) {
    && |file| >= 512 && h.grainSize == 8 && SeHasFields(file[..512], h)
    && var n := 8 * SeTablesFor(h.capacity);
    n <= 0x100_0000 && 512 * h.gdOffset % 0x1_0000_0000_0000_0000 + n <= |file|
  }

  function SeOpened(file: File, h: SeHeader, tools: Tools): Opened
    requires OpensAsSe(file, h) && 512 * h.capacity <= U64_MAX
  {
    var at := 512 * h.gdOffset % 0x1_0000_0000_0000_0000;
    Opened(Image(file, SeSparse(LeTable64(DirectoryBytes(file, at, 8 * SeTablesFor(h.capacity))), 4096, h.gtOffset, h.grainsOffset),
                 512 * h.capacity, 0, 0, tools.inflate),
           Meta("seSparse", 0, 0xffff_ffff, 0xffff_ffff, ""))
  }

  lemma SeTablesAre(h: SeHeader)
    requires h.grainSize == 8
    ensures SeTables(h) == SeTablesFor(h.capacity) > 0
    ensures 8 * SeTables(h) <= MAX_GD_BYTES ==> 512 * h.capacity <= U64_MAX
  {
    hide DivCeil;
    DivCeilBounds(h.capacity, 8, 0);
    DivCeilBounds(DivCeil(h.capacity, 8), 4096, 0);
    if 8 * SeTables(h) <= MAX_GD_BYTES {
      SeSize(h);
    }
  }

  lemma SeOpensIff(file: File, h: SeHeader, tools: Tools)
    requires |file| >= 512 && h.grainSize == 8 && SeHasFields(file[..512], h)
    ensures OpenStream(file, tools).Ok? <==> OpensAsSe(file, h)
    ensures OpenStream(file, tools).Ok? ==> 512 * h.capacity <= U64_MAX && OpenStream(file, tools).value == SeOpened(file, h, tools)
  {
    hide ParseSe, SeHasFields, DirectoryBytes, SeTablesFor, SeTables, LeTable64, BeU32, LeU64, ExactBytes, OpenCowdImage, OpenVmdk4;
    SeParses(file[..512], h);
    NotCowd(file[..512]);
    FirstBlock(file);
    SeTablesAre(h);
    DirectoryCases(file, 512 * h.gdOffset % 0x1_0000_0000_0000_0000, 8 * SeTablesFor(h.capacity));
  }

  // ── every file ────────────────────────────────────────────────────────────

  /** A file opens exactly when it is one of the three, whole. */
  lemma OpensIff(file: File, tools: Tools)
    ensures OpenStream(file, tools).Ok? <==>
            || (exists h: SparseHeader, sector: u64 :: OpensAsSparse(file, h, sector, tools))
            || (exists h: CowdHeader :: OpensAsCowd(file, h))
            || (exists h: SeHeader :: OpensAsSe(file, h))
  {
    hide OpensAsSparse, OpensAsCowd, OpensAsSe, OpenStream;
    if h: SparseHeader, sector: u64 :| OpensAsSparse(file, h, sector, tools) {
      SparseFacts(file, h, sector, tools);
      SparseOpensIff(file, h, sector, tools);
    }
    if h: CowdHeader :| OpensAsCowd(file, h) {
      CowdFacts(file, h);
      CowdOpensIff(file, h, tools);
    }
    if h: SeHeader :| OpensAsSe(file, h) {
      SeFacts(file, h);
      SeOpensIff(file, h, tools);
    }
    if OpenStream(file, tools).Ok? {
      OpenedHasForm(file, tools);
    }
  }

  lemma SparseFacts(file: File, h: SparseHeader, sector: u64, tools: Tools)
    requires OpensAsSparse(file, h, sector, tools)
    ensures |file| >= 512 && Writable(h) && HasFields(file[..512], h) && DirectorySector(file, h, sector)
  {
  }

  lemma CowdFacts(file: File, h: CowdHeader)
    requires OpensAsCowd(file, h)
    ensures |file| >= 512 && h.grainSize > 0 && CowdHasFields(file[..512], h)
  {
  }

  lemma SeFacts(file: File, h: SeHeader)
    requires OpensAsSe(file, h)
    ensures |file| >= 512 && h.grainSize == 8 && SeHasFields(file[..512], h)
  {
  }

  lemma OpenedHasForm(file: File, tools: Tools)
    requires OpenStream(file, tools).Ok?
    ensures || (exists h: SparseHeader, sector: u64 :: OpensAsSparse(file, h, sector, tools))
            || (exists h: CowdHeader :: OpensAsCowd(file, h))
            || (exists h: SeHeader :: OpensAsSe(file, h))
  {
    hide OpensAsSparse, OpensAsCowd, OpensAsSe, ParseSparse, ParseCowd, ParseSe, HasFields, CowdHasFields, SeHasFields;
    hide NumTables, GdOffset, ReadDescriptorOf, CowdTables, SeTables, LeTable32, LeTable64, BeU32, LeU64, DirectorySector, Writable;
    FirstBlock(file);
    var d := file[..512];
    if BeU32(d, 0) == COWD_MAGIC {
      var h := ParseCowd(d).value;
      CowdParses(d, h);
      CowdOpensIff(file, h, tools);
    } else if LeU64(d, 0) == SE_CONST_MAGIC {
      var h := ParseSe(d).value;
      SeParses(d, h);
      SeOpensIff(file, h, tools);
    } else {
      var h := ParseSparse(d).value;
      var sector := GdOffset(file, h).value;
      SparseParses(d, h);
      FooterIs(file, h, sector);
      SparseOpensIff(file, h, sector, tools);
    }
  }

  // ── the second parser ─────────────────────────────────────────────────────

  /** The bytes of a file the audit finds a VMDK4 layout in. */
  ghost predicate HasSparseLayout(file: File, h: SparseHeader, sector: u64) {
    && |file| >= 512 && Writable(h) && HasFields(file[..512], h) && DirectorySector(file, h, sector)
    && var n := 4 * TablesFor(h.capacity, h.grainSize, h.numGtes);
    n <= 0x100_0000 && 512 * sector + n <= |file|
  }

  lemma AuditFooterIs(file: File, h: SparseHeader, sector: u64)
    ensures LayoutGdOffset(file, h) == Some(sector) <==> DirectorySector(file, h, sector)
  {
    hide ParseSparse, Writable, HasFields;
    if |file| >= 1024 {
      var d := file[|file| - 1024..|file| - 512];
      forall f: SparseHeader
        ensures ParseSparse(d) == Ok(f) <==> Writable(f) && HasFields(d, f)
      {
        SparseParses(d, f);
      }
    }
  }

  /** With these fields and this directory, the audit finds a layout exactly when the directory is small and in the file. */
  lemma SparseLayoutIff(file: File, h: SparseHeader, sector: u64)
    requires |file| >= 512 && Writable(h) && HasFields(file[..512], h) && DirectorySector(file, h, sector)
    ensures LayoutOf(file).Some? <==> HasSparseLayout(file, h, sector)
    ensures HasSparseLayout(file, h, sector) ==>
              var n := TablesFor(h.capacity, h.grainSize, h.numGtes);
              LayoutOf(file) == Some(SparseLayout(LeTable32(file[512 * sector..512 * sector + 4 * n]), h.rgdOffset, h.numGtes,
                                                  512 * h.grainSize, n, |file|))
  {
    hide ParseSparse, HasFields, LayoutGdOffset, DirectorySector, DivCeil, LeTable32;
    SparseParses(file[..512], h);
    AuditFooterIs(file, h, sector);
  }

  /** Every VMDK4 layout the audit finds is of this kind. */
  lemma LayoutHasForm(file: File)
    requires LayoutOf(file).Some?
    ensures exists h: SparseHeader, sector: u64 :: HasSparseLayout(file, h, sector)
  {
    hide ParseSparse, HasFields, LayoutGdOffset, DirectorySector, DivCeil, LeTable32, HasSparseLayout, Writable;
    var h := ParseSparse(file[..512]).value;
    SparseParses(file[..512], h);
    var sector := LayoutGdOffset(file, h).value;
    AuditFooterIs(file, h, sector);
    SparseLayoutIff(file, h, sector);
  }

  /** The same for seSparse: the address does not wrap, it has to be exact. */
  lemma SeLayoutIff(file: File, h: SeHeader)
    requires |file| >= 512 && h.grainSize == 8 && SeHasFields(file[..512], h)
    ensures var n := 8 * SeTablesFor(h.capacity);
            && (SeLayoutOf(file).Some? <==> n <= 0x100_0000 && 512 * h.gdOffset + n <= |file|)
            && (n <= 0x100_0000 && 512 * h.gdOffset + n <= |file| ==>
                  SeLayoutOf(file) == Some(SeLayout(LeTable64(file[512 * h.gdOffset..512 * h.gdOffset + n]), h, |file|)))
  {
    hide ParseSe, SeHasFields, SeTables, SeTablesFor, LeTable64;
    SeParses(file[..512], h);
    SeTablesAre(h);
  }

  lemma SeLayoutHasForm(file: File)
    requires SeLayoutOf(file).Some?
    ensures exists h: SeHeader :: h.grainSize == 8 && SeHasFields(file[..512], h)
  {
    hide ParseSe, SeHasFields, SeTables, LeTable64;
    SeParses(file[..512], ParseSe(file[..512]).value);
  }
}
