/**
 What a clean audit says of a compressed image (forensic/src/lib.rs, `check_integrity`): every
 table and every compression marker can be read, and what lies behind the markers decides.
 */
module PackedAudits {
  import opened Wrappers
  import opened Arith
  import opened Bytes
  import opened Headers
  import opened Images
  import opened Scans
  import opened Recovery
  import opened Opening
  import opened Forensics
  import opened Audits
  import opened Builders

  /** The 12-byte marker of the grain at `gte` lies in the file. */
  predicate MarkerInside(img: Image, gte: u32) {
    gte * SECTOR + 12 <= |img.file|
  }

  /** Behind the marker is a payload of admissible size, in the file, that decodes past offset `r` of the grain. */
  predicate DecodesPast(img: Image, gte: u32, r: nat)
    requires img.IsSparse() && MarkerInside(img, gte)
  {
    var at, n := gte * SECTOR + 12, LeU32(img.file, gte * SECTOR + 8);
    && n <= img.fmt.grain + 65536
    && (n == 0 || at + n <= |img.file|)
    && var d := img.inflate(Window(img.file, at, n), img.fmt.grain + 1);
    d.Ok? && r < |d.value| <= img.fmt.grain
  }

  /** The entry of the grain covering `off` is reached, and so is its marker if it has one. */
  predicate ReachedAt(img: Image, off: nat)
    requires img.Valid() && img.IsSparse()
  {
    var e := EntryAt(img, false, GrainIdx(img, off));
    e.Ok? && (e.value.gte > 1 ==> MarkerInside(img, e.value.gte))
  }

  /** The payload of the grain covering `off`, if its marker is reached at all, decodes past `off`. */
  predicate PayloadAt(img: Image, off: nat)
    requires img.Valid() && img.IsSparse()
  {
    var e := EntryAt(img, false, GrainIdx(img, off));
    e.Ok? && e.value.gte > 1 && MarkerInside(img, e.value.gte) ==> DecodesPast(img, e.value.gte, InGrain(img, off))
  }

  /** One grain: it yields bytes at `r` exactly when it decodes past `r`. */
  lemma PackedFetch(img: Image, gte: u32, r: nat, n: nat)
    requires img.IsSparse() && img.fmt.compressed && img.fmt.grain < U32_LIMIT * SECTOR && gte > 1 && MarkerInside(img, gte) && n > 0
    ensures var loc := Locate(img, gte, r);
            (loc.Ok? && Fetch(img, loc.value, n).Ok? && Fetch(img, loc.value, n).value != []) <==> DecodesPast(img, gte, r)
  {
    hide LeU32, Window;
    var at, len := gte * SECTOR + 12, LeU32(img.file, gte * SECTOR + 8);
    if len <= img.fmt.grain + 65536 {
      var d := Unpack(img, at, len);
      if d.Ok? {
        WindowLength(d.value, r, n);
      }
    }
  }

  /** With all pointers inside, entries and markers are always reached. */
  lemma InsideReached(img: Image, off: nat)
    requires img.Valid() && img.IsSparse() && PointersInside(img) && off < img.size && 12 <= img.fmt.grain
    ensures ReachedAt(img, off)
  {
    hide Image.Valid, Usable, TableEntry, GrainIdx, SlotIdx, EntryIdx;
    SlotInRange(img, off);
    var g := GrainIdx(img, off);
    assert GrainInside(img, SlotIdx(img, g), EntryIdx(img, g));
  }

  /** Once entry and marker are reached, a read makes progress exactly when the payload decodes past its offset. */
  lemma PayloadDecides(img: Image, off: nat)
    requires img.Valid() && img.IsSparse() && img.fmt.compressed && off < img.size && ReachedAt(img, off)
    ensures ByteAt(img, false, off).Some? <==> PayloadAt(img, off)
  {
    hide Image.Valid, EntryAt, Locate, Fetch, DecodesPast, MarkerInside, GrainIdx, InGrain;
    Shape(img);
    ReachPositive(img, off);
    var e := EntryAt(img, false, GrainIdx(img, off)).value;
    LocateHole(img, e.gte, InGrain(img, off));
    HoleFetch(img, Reach(img, off));
    if e.gte > 1 {
      PackedFetch(img, e.gte, InGrain(img, off), Reach(img, off));
    }
  }

  /** A VMDK4 grain is larger than a marker. */
  lemma OpenedGrain(file: File, tools: Tools)
    requires IsVmdk4(file) && OpenStream(file, tools).Ok?
    ensures OpenStream(file, tools).value.img.IsSparse() && OpenStream(file, tools).value.img.fmt.grain >= 4096
  {
    hide OpenStream, NumTables, GdOffset, ReadDescriptorOf, LeTable32;
    Vmdk4Dispatch(file, tools);
  }

  /**
   What a clean audit of a compressed VMDK4 image that opens settles, and what it leaves open. No
   table and no marker access of an in-range read can fail. Every in-range read then succeeds and
   makes progress if and only if every payload behind a marker has an admissible size, lies in the
   file and decodes past the read's offset, none of which the audit looks at.
   */
  lemma CleanPackedAudit(file: File, tools: Tools)
    requires IsVmdk4(file) && OpenStream(file, tools).Ok? && ReportOf(file).IsOk()
    requires var img := OpenStream(file, tools).value.img; img.IsSparse() && img.fmt.compressed
    ensures var img := OpenStream(file, tools).value.img;
            && img.Valid()
            && (forall off: nat :: off < img.size ==> ReachedAt(img, off))
            && (Sound(img, false) <==> forall off: nat :: off < img.size ==> PayloadAt(img, off))
  {
    hide OpenStream, LayoutOf, SparseReport, Image.Valid, ByteAt, ReachedAt, PayloadAt, ParseSparse, GdOffset;
    hide DirectoryVisible, PointersInside;
    OpenedIsValid(file, tools);
    OpenedGrain(file, tools);
    OpenedCount(file, tools);
    var img := OpenStream(file, tools).value.img;
    forall off: nat | off < img.size
      ensures ReachedAt(img, off) && (ByteAt(img, false, off).Some? <==> PayloadAt(img, off))
    {
      NonEmptyHasLayout(file, tools);
      TwoParsersAgree(file, tools);
      Vmdk4Dispatch(file, tools);
      CleanMeansInside(LayoutOf(file).value, img);
      InsideReached(img, off);
      PayloadDecides(img, off);
    }
  }

  // ── a marker the audit does not look behind ───────────────────────────────

  /** One compressed grain: directory in sector 1, table in sectors 2 to 5, marker in sector 6. */
  const PACKED_HEADER := SparseHeader(3, 8, 8, 0, 0, 512, 0, 1, true)

  /** A grain area whose marker announces `n` bytes of payload. */
  function MarkerFile(n: u32): (f: File)
    ensures |f| == 6 * SECTOR + GRAIN_BYTES
  {
    EncodeHeader(PACKED_HEADER, 6) + Padded(LeBytes32(2), SECTOR) + OneEntry(0, 6, 4 * SECTOR) + OneEntry(2, n, GRAIN_BYTES)
  }

  function MarkerImage(n: u32, tools: Tools): Image {
    Image(MarkerFile(n), Sparse([2], GRAIN_BYTES, 512, true), GRAIN_BYTES, 0, 1, tools.inflate)
  }

  /** Entries after the only one are zero. */
  lemma AfterOneEntry(s: seq<byte>, at: nat, v: u32, n: nat, j: nat)
    requires at + n <= |s| && s[at..at + n] == OneEntry(0, v, n) && 0 < j && 4 * j + 4 <= n
    ensures LeU32(s, at + 4 * j) == 0
  {
    hide LeBytes32;
    LeU32Slice(s, at, at + n, 4 * j);
    var t := s[at..at + n];
    assert t[4 * j] == 0 && t[4 * j + 1] == 0 && t[4 * j + 2] == 0 && t[4 * j + 3] == 0;
  }

  lemma MarkerRegions(n: u32)
    ensures var f := MarkerFile(n);
            && f[..512] == EncodeHeader(PACKED_HEADER, 6) && LeTable32(f[512..516]) == [2]
            && LeU32(f, 1024) == 6 && LeU32(f, 6 * SECTOR + 8) == n
            && forall j: nat :: 0 < j < 512 ==> LeU32(f, 1024 + 4 * j) == 0
  {
    hide EncodeHeader, LeBytes32, LeU32, OneEntry;
    var f := MarkerFile(n);
    assert f[512..512 + 512] == Padded(LeBytes32(2), SECTOR);
    assert f[512..516] == LeBytes32(2);
    Le32RoundTrip(2);
    assert f[1024..1024 + 4 * SECTOR] == OneEntry(0, 6, 4 * SECTOR);
    assert f[6 * SECTOR..6 * SECTOR + GRAIN_BYTES] == OneEntry(2, n, GRAIN_BYTES);
    TableIn(f, 1024, 0, 6, 4 * SECTOR, 0);
    TableIn(f, 6 * SECTOR, 2, n, GRAIN_BYTES, 2);
    forall j: nat | 0 < j < 512
      ensures LeU32(f, 1024 + 4 * j) == 0
    {
      AfterOneEntry(f, 1024, 6, 4 * SECTOR, j);
    }
  }

  lemma MarkerOpens(n: u32, tools: Tools)
    ensures IsVmdk4(MarkerFile(n)) && OpenStream(MarkerFile(n), tools).Ok?
    ensures OpenStream(MarkerFile(n), tools).value.img == MarkerImage(n, tools) && MarkerImage(n, tools).Valid()
  {
    hide MarkerFile, EncodeHeader, LeU32, LeTable32, ParseSparse, OpenStream;
    var f := MarkerFile(n);
    MarkerRegions(n);
    ParseEncoded(PACKED_HEADER, 6);
    LeU32Slice(f, 0, 512, 0);
    NoDescriptor(f, PACKED_HEADER, tools.decoder);
    assert NumTables(PACKED_HEADER) == Ok(1);
    EncodedHasFields(PACKED_HEADER, 6);
    HeaderOpens(f, PACKED_HEADER, 1, tools);
    OpenedIsValid(f, tools);
  }

  lemma MarkerPointers(n: u32, tools: Tools)
    ensures PointersInside(MarkerImage(n, tools))
  {
    hide MarkerFile, LeU32;
    MarkerRegions(n);
  }

  lemma MarkerRead(n: u32, tools: Tools)
    requires MarkerImage(n, tools).Valid() && n > GRAIN_BYTES + 65536
    ensures Slice(MarkerImage(n, tools), false, 0) == Err(InvalidData)
  {
    hide MarkerFile, LeU32, Image.Valid;
    MarkerRegions(n);
    assert EntryAt(MarkerImage(n, tools), false, 0) == Ok(Entry(6, false));
  }

  /** Whatever inadmissible size a marker announces, the file opens, is reported clean, and does not read. */
  lemma OversizedMarkerPassesAudit(n: u32, tools: Tools)
    requires n > GRAIN_BYTES + 65536
    ensures var f := MarkerFile(n);
            && IsVmdk4(f) && ReportOf(f).IsOk() && OpenStream(f, tools).Ok?
            && OpenStream(f, tools).value.img.Valid()
            && Slice(OpenStream(f, tools).value.img, false, 0) == Err(InvalidData)
  {
    hide OpenStream, MarkerFile, LayoutOf, SparseReport, PointersInside, Image.Valid, Slice;
    var f := MarkerFile(n);
    MarkerOpens(n, tools);
    MarkerPointers(n, tools);
    MarkerRead(n, tools);
    NonEmptyHasLayout(f, tools);
    TwoParsersAgree(f, tools);
    Vmdk4Dispatch(f, tools);
    CleanMeansInside(LayoutOf(f).value, MarkerImage(n, tools));
  }
}
