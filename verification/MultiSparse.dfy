/**
 Multi-file sparse extents (core/src/sparse_multi.rs): several binary images laid end to end,
 read entry by entry without the grain-table cache of the single-file reader.
 */
module MultiSparses {
  import opened Wrappers
  import opened Arith
  import opened Bytes
  import opened Headers
  import opened Descriptors
  import opened Images
  import opened Sources
  import opened Readers
  import opened Opening
  import opened ChainOpening
  import opened Extents

  /** What opening one extent file fixes; `size` is the range it will cover. */
  datatype Extent = Extent(size: u64, gd: seq<u32>, grain: nat, ngte: nat, data: File)
  {
    predicate Shaped() {
      0 < grain < U32_LIMIT * SECTOR && 0 < ngte <= 4096
    }

    /** The directory slot of grain `g`. */
    function Slot(g: nat): (i: nat)
      requires Shaped()
    {
      g / ngte
    }

    /** The table entry of grain `g`. */
    function Index(g: nat): (j: nat)
      requires Shaped()
      ensures j < ngte
    {
      g % ngte
    }

    function Pointer(i: nat): u32 {
      if i < |gd| then gd[i] else 0
    }
  }

  // ── opening one extent file ───────────────────────────────────────────────

  function CowdExtent(data: File, hdrBytes: seq<byte>): (r: Result<Extent>)
    ensures r.Ok? ==> r.value.Shaped() && r.value.data == data
  {
    var hdr :- MapErr(ParseCowd(hdrBytes), InvalidData);
    var gd :- MapErr(CowdDirectory(data, hdr), InvalidData);
    Ok(Extent(hdr.capacity * SECTOR, gd, hdr.grainSize * SECTOR, COWD_GTES_PER_GT, data))
  }

  /** A VMDK4 extent; the footer sentinel is not followed and overflows the address instead. */
  function Vmdk4Extent(data: File, hdrBytes: seq<byte>, sectors: u64): (r: Result<Extent>)
    ensures r.Ok? ==> r.value.Shaped() && r.value.data == data
  {
    var hdr :- MapErr(ParseSparse(hdrBytes), InvalidData);
    var numGts :- MapErr(NumTables(hdr), InvalidData);
    var gdByte :- OkOr(CheckedMul(hdr.gdOffset, SECTOR), InvalidData);
    var gdBytes :- ExactBytes(data, gdByte, 4 * numGts);
    Ok(Extent(Wrap64(sectors * SECTOR), LeTable32(gdBytes), hdr.grainSize * SECTOR, hdr.numGtes, data))
  }

  function ExtentFor(data: File, sectors: u64): (r: Result<Extent>)
    ensures r.Ok? ==> r.value.Shaped() && r.value.data == data
  {
    var hdr :- ExactBytes(data, 0, 512);
    if BeU32(hdr, 0) == COWD_MAGIC then CowdExtent(data, hdr) else Vmdk4Extent(data, hdr, sectors)
  }

  function EntryExtent(base: Path, dir: Directory, e: SparseEntry): (r: Result<Extent>)
    ensures r.Ok? ==> r.value.Shaped()
  {
    var data :- FileAt(base, dir, e.filename);
    ExtentFor(data, e.sizeSectors)
  }

  function Outcomes(base: Path, dir: Directory, entries: seq<SparseEntry>): (o: seq<Result<Extent>>)
    ensures |o| == |entries|
  {
    seq(|entries|, k requires 0 <= k < |entries| => EntryExtent(base, dir, entries[k]))
  }

  /** The extents of all entries, or the error of the first that cannot be opened. */
  function ExtentsOf(base: Path, dir: Directory, entries: seq<SparseEntry>): Result<seq<Extent>> {
    Collect(Outcomes(base, dir, entries))
  }

  // ── what one read can return ──────────────────────────────────────────────

  /** Entry of grain `g`: one directory step, then that entry alone from the file. */
  function GteOf(x: Extent, g: nat): Result<u32>
    requires x.Shaped()
  {
    var gt := x.Pointer(x.Slot(g));
    if gt == 0 then Ok(0) else
    var at := gt * SECTOR + x.Index(g) * 4;
    if at + 4 > |x.data| then Err(UnexpectedEof) else Ok(LeU32(x.data, at))
  }

  /** The bytes of extent `x` from its own offset `off` on, at most `n` of them, inside one grain. */
  function ExtentBytes(x: Extent, off: nat, n: nat): Result<seq<byte>>
    requires x.Shaped()
  {
    var gte :- GteOf(x, off / x.grain);
    Ok(if gte <= 1 then Zeros(n) else Window(x.data, gte * SECTOR + off % x.grain, n))
  }

  datatype SparseChunk = SparseChunk(tile: Tile, extent: Extent, file: Source)
  {
    predicate Valid() {
      extent.Shaped() && file.data == extent.data
    }
  }

  function Tiles(chunks: seq<SparseChunk>): (t: seq<Tile>)
    ensures |t| == |chunks|
  {
    seq(|chunks|, k requires 0 <= k < |chunks| => chunks[k].tile)
  }

  /** How far one read at `pos` may go in chunk `c`: grain, chunk and whole all clamp it. */
  function ChunkReach(c: SparseChunk, total: nat, pos: nat): (n: nat)
    requires c.Valid() && c.tile.Covers(pos) && pos < total
    ensures 0 < n <= c.tile.end - pos && n <= total - pos
  {
    Min(Min(total - pos, c.extent.grain - (pos - c.tile.start) % c.extent.grain), c.tile.end - pos)
  }

  /** Everything one read at `pos` can return. */
  function MultiSlice(chunks: seq<SparseChunk>, total: nat, pos: nat): Result<seq<byte>>
    requires forall c :: c in chunks ==> c.Valid()
  {
    if pos >= total then Ok([]) else
    var k := FirstCovering(Tiles(chunks), pos);
    if k == |chunks| then Err(InvalidInput) else
    ExtentBytes(chunks[k].extent, pos - chunks[k].tile.start, ChunkReach(chunks[k], total, pos))
  }

  class MultiSparseReader {
    const chunks: seq<SparseChunk>
    const total: u64
    var pos: u64

    ghost predicate Valid() {
      forall c :: c in chunks ==> c.Valid()
    }

    constructor (chunks: seq<SparseChunk>, total: u64)
      requires forall c :: c in chunks ==> c.Valid()
      ensures Valid() && this.chunks == chunks && this.total == total && pos == 0
    {
      this.chunks := chunks;
      this.total := total;
      pos := 0;
    }

    /** `Seek::seek`. */
    method Seek(from: SeekFrom) returns (r: Result<u64>)
      modifies `pos
      ensures var t := SeekTarget(from, old(pos), total);
              if t < 0 then r == Err(InvalidInput) && pos == old(pos) else r == Ok(t) && pos == t
    {
      var target := SeekTarget(from, pos, total);
      if target < 0 {
        return Err(InvalidInput);
      }
      pos := target;
      return Ok(pos);
    }

    /** `Read::read`. */
    method Read(buf: array<byte>, lo: nat, hi: nat) returns (r: Result<nat>)
      requires Valid() && lo <= hi <= buf.Length
      modifies `pos, (set c | c in chunks :: c.file), buf
      ensures Delivers(MultiSlice(chunks, total, old(pos)), lo, hi, old(pos), old(buf[..]), pos, buf[..], r)
    {
      hide Patch, Window, FirstCovering, GteOf;
      ghost var was := buf[..];
      if pos >= total || lo == hi {
        PatchNothing(was, lo);
        return Ok(0);
      }
      var k := FindTile(Tiles(chunks), pos);
      if k == |chunks| {
        return Err(InvalidInput);
      }
      var c := chunks[k];
      var localPos := pos - c.tile.start;
      ghost var reach := ChunkReach(c, total, pos);
      var toRead := Min(Min(Min(hi - lo, total - pos), c.extent.grain - localPos % c.extent.grain), c.tile.end - pos);
      var got := ReadChunk(c, localPos, buf, lo, lo + toRead, reach);
      var n :- got;
      pos := pos + n;
      return Ok(n);
    }

    /** The lookup and transfer of `read`, clamped to `buf[lo..hi]`. */
    method ReadChunk(c: SparseChunk, localPos: nat, buf: array<byte>, lo: nat, hi: nat, ghost reach: nat) returns (r: Result<nat>)
      requires c.Valid() && lo < hi <= buf.Length && hi - lo <= reach
      modifies c.file, buf
      ensures match ExtentBytes(c.extent, localPos, reach)
              case Err(e) => r == Err(e) && buf[..] == old(buf[..])
              case Ok(s) =>
                && r.Ok? && r.value <= |s| && r.value <= hi - lo && (r.value == 0 <==> s == [])
                && buf[..] == Patch(old(buf[..]), lo, s[..r.value])
    {
      hide Patch, Window, GteOf;
      ghost var was := buf[..];
      var x := c.extent;
      var gte :- ReadGte(c, localPos / x.grain);
      if gte <= 1 {
        forall j | lo <= j < hi {
          buf[j] := 0;
        }
        ZeroPatch(was, buf[..], lo, hi - lo);
        assert Zeros(reach)[..hi - lo] == Zeros(hi - lo);
        return Ok(hi - lo);
      }
      var at := gte * SECTOR + localPos % x.grain;
      c.file.SeekStart(at);
      WindowLength(x.data, at, hi - lo);
      var n := c.file.Read(buf, lo, hi);
      WindowPrefix(x.data, at, hi - lo, reach, n);
      return Ok(n);
    }

    /** One directory step and one four-byte read. */
    method ReadGte(c: SparseChunk, g: nat) returns (r: Result<u32>)
      requires c.Valid()
      modifies c.file
      ensures r == GteOf(c.extent, g)
    {
      var x := c.extent;
      var gt := x.Pointer(x.Slot(g));
      if gt == 0 {
        return Ok(0);
      }
      var at := gt * SECTOR + x.Index(g) * 4;
      var b :- c.file.ReadExactAt(at, 4);
      LeU32Slice(x.data, at, at + 4, 0);
      return Ok(LeU32(b, 0));
    }
  }

  // ── opening ───────────────────────────────────────────────────────────────

  function Sizes(extents: seq<Extent>): (z: seq<nat>)
    ensures |z| == |extents|
  {
    seq(|extents|, k requires 0 <= k < |extents| => extents[k].size)
  }

  ghost predicate AllExtents(chunks: seq<SparseChunk>, extents: seq<Extent>) {
    |chunks| == |extents| && forall k :: 0 <= k < |chunks| ==> chunks[k].extent == extents[k]
  }

  /** The chunks are the extents, laid end to end. */
  ghost predicate Laid(chunks: seq<SparseChunk>, extents: seq<Extent>) {
    Tiling(Tiles(chunks), Sizes(extents)) && AllExtents(chunks, extents)
  }

  /** The same with wrapping positions: what opening builds whatever the sizes. */
  ghost predicate LaidOut(chunks: seq<SparseChunk>, extents: seq<Extent>) {
    WrappedTiling(Tiles(chunks), Sizes(extents)) && AllExtents(chunks, extents)
  }

  /** The header and directory of one extent file. */
  method OpenExtent(src: Source, sectors: u64) returns (r: Result<Extent>)
    requires src.cursor == 0
    modifies src
    ensures r == ExtentFor(src.data, sectors)
  {
    hide ParseCowd, ParseSparse, NumTables, LeTable32, CowdTables;
    var hdrBytes :- src.ReadExactHere(512);
    if BeU32(hdrBytes, 0) == COWD_MAGIC {
      src.SeekStart(0);
      var again := src.ReadExactHere(512);
      var hdr :- MapErr(ParseCowd(again.value), InvalidData);
      var b := src.ReadExactAt(COWD_GD_SECTOR * SECTOR, 4 * CowdTables(hdr));
      var gdBytes :- MapErr(b, InvalidData);
      return Ok(Extent(hdr.capacity * SECTOR, LeTable32(gdBytes), hdr.grainSize * SECTOR, COWD_GTES_PER_GT, src.data));
    }
    var hdr :- MapErr(ParseSparse(hdrBytes), InvalidData);
    var numGts :- MapErr(NumTables(hdr), InvalidData);
    var gdByte :- OkOr(CheckedMul(hdr.gdOffset, SECTOR), InvalidData);
    var gdBytes :- src.ReadExactAt(gdByte, 4 * numGts);
    return Ok(Extent(Wrap64(sectors * SECTOR), LeTable32(gdBytes), hdr.grainSize * SECTOR, hdr.numGtes, src.data));
  }

  /**
   `MultiSparseReader::open`: all extents in order, or the first error. Byte positions are plain
   64-bit sums, exact as long as the whole does not overflow.
   */
  method OpenEntries(base: Path, dir: Directory, entries: seq<SparseEntry>) returns (r: Result<MultiSparseReader>)
    ensures r.Ok? <==> ExtentsOf(base, dir, entries).Ok?
    ensures r.Err? ==> r.error == ExtentsOf(base, dir, entries).error
    ensures r.Ok? ==>
              && fresh(r.value) && r.value.Valid() && r.value.pos == 0
              && LaidOut(r.value.chunks, ExtentsOf(base, dir, entries).value)
              && r.value.total == Wrap64(Sum(Sizes(ExtentsOf(base, dir, entries).value)))
    ensures r.Ok? && Sum(Sizes(ExtentsOf(base, dir, entries).value)) <= U64_MAX ==>
              && Laid(r.value.chunks, ExtentsOf(base, dir, entries).value)
              && r.value.total == Sum(Sizes(ExtentsOf(base, dir, entries).value))
  {
    hide Sum, Sizes, Collect, FileAt, ExtentFor, Laid, LaidOut;
    var chunks: seq<SparseChunk> := [];
    var byteOffset: u64 := 0;
    ghost var extents: seq<Extent> := [];
    var k := 0;
    LaidStart();
    while k < |entries|
      invariant k <= |entries| && |extents| == k
      invariant forall j :: 0 <= j < k ==> EntryExtent(base, dir, entries[j]) == Ok(extents[j])
      invariant forall c :: c in chunks ==> c.Valid()
      invariant LaidOut(chunks, extents) && byteOffset == Wrap64(Sum(Sizes(extents)))
    {
      var e := entries[k];
      var found := FileAt(base, dir, e.filename);
      if found.Err? {
        CollectFirstError(Outcomes(base, dir, entries), k);
        return Err(found.error);
      }
      var file := new Source(found.value);
      var extent := OpenExtent(file, e.sizeSectors);
      if extent.Err? {
        CollectFirstError(Outcomes(base, dir, entries), k);
        return Err(extent.error);
      }
      var x := extent.value;
      var chunk := SparseChunk(Tile(byteOffset, Wrap64(byteOffset + x.size)), x, file);
      LaidGrow(chunks, extents, chunk, byteOffset);
      chunks := chunks + [chunk];
      byteOffset := Wrap64(byteOffset + x.size);
      extents := extents + [x];
      k := k + 1;
    }
    CollectAll(Outcomes(base, dir, entries), extents);
    LaidIsTiled(chunks, extents);
    var reader := new MultiSparseReader(chunks, byteOffset);
    return Ok(reader);
  }

  lemma LaidStart()
    ensures LaidOut([], []) && Sum(Sizes([])) == 0
  {
  }

  lemma LaidGrow(chunks: seq<SparseChunk>, extents: seq<Extent>, c: SparseChunk, at: u64)
    requires c.tile == Tile(at, Wrap64(at + c.extent.size))
    requires LaidOut(chunks, extents) && at == Wrap64(Sum(Sizes(extents)))
    ensures LaidOut(chunks + [c], extents + [c.extent])
    ensures c.tile.end == Wrap64(Sum(Sizes(extents + [c.extent])))
  {
    hide Sum, WrappedTiling, Wrap64;
    WrapAdd(Sum(Sizes(extents)), c.extent.size);
    WrappedStep(Tiles(chunks), Sizes(extents), c.tile, c.extent.size);
    assert Tiles(chunks + [c]) == Tiles(chunks) + [c.tile];
    assert Sizes(extents + [c.extent]) == Sizes(extents) + [c.extent.size];
  }

  lemma LaidIsTiled(chunks: seq<SparseChunk>, extents: seq<Extent>)
    requires LaidOut(chunks, extents)
    ensures Sum(Sizes(extents)) <= U64_MAX ==> Laid(chunks, extents)
  {
    hide Sum, WrappedTiling, Tiling, AllExtents;
    if Sum(Sizes(extents)) <= U64_MAX {
      WrappedIsExact(Tiles(chunks), Sizes(extents));
    }
  }

  // ── the single-file reader agrees ─────────────────────────────────────────

  /** Extent `x` and image `img` describe one uncompressed binary image. */
  ghost predicate SameImage(x: Extent, img: Image) {
    && img.Valid() && img.IsSparse() && !img.fmt.compressed
    && x.Shaped()
    && img.file == x.data && img.size == x.size
    && img.fmt.gd == x.gd && img.fmt.grain == x.grain && img.fmt.ngte == x.ngte
  }

  /** The extent's header leaves its directory offset to the footer. */
  predicate DirectoryInFooter(data: File) {
    var hdr := ExactBytes(data, 0, 512);
    && hdr.Ok? && BeU32(hdr.value, 0) != COWD_MAGIC
    && ParseSparse(hdr.value).Ok? && ParseSparse(hdr.value).value.gdOffset == GD_AT_END
  }

  lemma Vmdk4OpensAlike(data: File, hdr: seq<byte>, sectors: u64, tools: Tools)
    requires OpenVmdk4(data, hdr, tools).Ok?
    ensures Vmdk4Extent(data, hdr, sectors).Ok? <==> ParseSparse(hdr).value.gdOffset != GD_AT_END
    ensures var img := OpenVmdk4(data, hdr, tools).value.img;
            Vmdk4Extent(data, hdr, sectors).Ok? && !img.fmt.compressed && sectors * SECTOR == img.size ==>
              SameImage(Vmdk4Extent(data, hdr, sectors).value, img)
  {
    hide ParseSparse, ReadDescriptorOf, NumTables, LeTable32, Image.Valid;
    Vmdk4Valid(data, hdr, tools);
  }

  lemma CowdOpensAlike(data: File, hdr: seq<byte>, tools: Tools)
    requires OpenCowdImage(data, hdr, tools).Ok?
    ensures CowdExtent(data, hdr).Ok?
    ensures SameImage(CowdExtent(data, hdr).value, OpenCowdImage(data, hdr, tools).value.img)
  {
    hide ParseCowd, CowdDirectory, Image.Valid;
    CowdValid(data, hdr, tools);
  }

  /**
   On a file the single-file reader opens as VMDK4 or COWD, the multi-file reader's own header
   code succeeds exactly when the directory offset is not in the footer, and when the
   descriptor's size is the header's capacity it finds the same directory and geometry.
   */
  lemma OpensAlike(data: File, sectors: u64, tools: Tools)
    requires OpenStream(data, tools).Ok? && OpenStream(data, tools).value.img.IsSparse()
    ensures ExtentFor(data, sectors).Ok? <==> !DirectoryInFooter(data)
    ensures var img := OpenStream(data, tools).value.img;
            ExtentFor(data, sectors).Ok? && !img.fmt.compressed && sectors * SECTOR == img.size ==>
              SameImage(ExtentFor(data, sectors).value, img)
  {
    hide OpenVmdk4, OpenCowdImage, OpenSeImage, SameImage, Vmdk4Extent, CowdExtent, ParseSparse;
    var hdr := ExactBytes(data, 0, 512).value;
    OpenedFile(data, hdr, tools);
    if BeU32(hdr, 0) == COWD_MAGIC {
      CowdOpensAlike(data, hdr, tools);
    } else {
      Vmdk4OpensAlike(data, hdr, sectors, tools);
      ParsedByVmdk4(data, hdr, tools);
    }
  }

  lemma ParsedByVmdk4(data: File, hdr: seq<byte>, tools: Tools)
    requires OpenVmdk4(data, hdr, tools).Ok?
    ensures ParseSparse(hdr).Ok?
  {
    hide ParseSparse, ReadDescriptorOf, NumTables, GdOffset;
  }

  /** Where the whole-table lookup succeeds, the single-entry lookup finds the same entry. */
  lemma SameEntry(x: Extent, img: Image, g: nat)
    requires SameImage(x, img) && EntryAt(img, false, g).Ok?
    ensures GteOf(x, g) == Ok(EntryAt(img, false, g).value.gte)
  {
    hide Image.Valid;
  }

  /** Where the single-file reader can read, the multi-file reader sees the same bytes. */
  lemma SameSlice(x: Extent, img: Image, off: nat)
    requires SameImage(x, img) && off < img.size && Slice(img, false, off).Ok?
    ensures ExtentBytes(x, off, Reach(img, off)) == Slice(img, false, off)
  {
    hide Image.Valid, GteOf, EntryAt;
    SameEntry(x, img, off / x.grain);
  }

  ghost predicate SameImages(extents: seq<Extent>, imgs: seq<Image>) {
    && |extents| == |imgs|
    && forall k :: 0 <= k < |imgs| ==> SameImage(extents[k], imgs[k]) && Sound(imgs[k], false)
  }

  /** The disks the single-file reader gives for the same files. */
  ghost function Disks(extents: seq<Extent>, imgs: seq<Image>): (d: seq<seq<byte>>)
    requires SameImages(extents, imgs)
    ensures Lengths(d) == Sizes(extents)
  {
    seq(|imgs|, k requires 0 <= k < |imgs| => Disk(imgs[k], false))
  }

  /** A sound slice is a non-empty run of the disk. */
  lemma SoundSlice(img: Image, off: nat)
    requires img.Valid() && Sound(img, false) && off < img.size
    ensures Slice(img, false, off).Ok?
    ensures var s := Slice(img, false, off).value;
            && s != [] && off + |s| <= img.size && |s| <= Reach(img, off)
            && s == Disk(img, false)[off..off + |s|]
  {
    hide Slice, Disk, Image.Valid, Reach;
    assert ByteAt(img, false, off).Some?;
    var s := Slice(img, false, off).value;
    assert s[..|s|] == s;
    SliceHolds(img, false, off, |s|);
    HeldBelowEnd(img, false, off, s);
    HoldsIsDisk(img, false, off, s);
    SliceReach(img, off);
  }

  lemma SliceReach(img: Image, off: nat)
    requires img.Valid() && off < img.size && Slice(img, false, off).Ok?
    ensures |Slice(img, false, off).value| <= Reach(img, off)
  {
    hide Image.Valid, Lookup, Unpack, GrainIdx, InGrain;
  }

  /**
   Reading refines concatenation: over in-bounds, uncompressed extents whose descriptor sizes
   are their header capacities, a read anywhere below the end sees the concatenation of the
   disks the single-file reader gives for the same files.
   */
  lemma MultiReadsConcat(chunks: seq<SparseChunk>, total: nat, extents: seq<Extent>, imgs: seq<Image>, pos: nat)
    requires (forall c :: c in chunks ==> c.Valid()) && Laid(chunks, extents)
    requires SameImages(extents, imgs) && total == Sum(Sizes(extents)) && pos < total
    ensures exists end: nat ::
              pos < end <= |Joined(Disks(extents, imgs))| && MultiSlice(chunks, total, pos) == Ok(Joined(Disks(extents, imgs))[pos..end])
  {
    hide Joined, Sum, SameImage, ExtentBytes, Slice, Sound, Disk, Image.Valid;
    var tiles := Tiles(chunks);
    FindIsTotal(tiles, Sizes(extents), pos);
    var k := FirstCovering(tiles, pos);
    TileInside(tiles, Sizes(extents), k);
    var x, img := extents[k], imgs[k];
    var off := pos - tiles[k].start;
    SameGeometry(x, img);
    SoundSlice(img, off);
    SameSlice(x, img, off);
    var s := Slice(img, false, off).value;
    ReachAgrees(chunks[k], img, total, pos);
    TileSlice(tiles, Disks(extents, imgs), k, pos, |s|);
    assert Disk(img, false)[off..][..|s|] == Disk(img, false)[off..off + |s|];
    assert MultiSlice(chunks, total, pos) == Ok(Joined(Disks(extents, imgs))[pos..pos + |s|]);
  }

  /**
   A reader over such extents is a byte source over their concatenation: what one read of it
   delivers, a read of a plain file holding the concatenation could deliver, and it runs dry
   exactly when that file does.
   */
  lemma MultiServes(chunks: seq<SparseChunk>, total: nat, extents: seq<Extent>, imgs: seq<Image>, pos: nat, n: nat)
    requires (forall c :: c in chunks ==> c.Valid()) && Laid(chunks, extents)
    requires SameImages(extents, imgs) && total == Sum(Sizes(extents)) && n > 0
    ensures MultiSlice(chunks, total, pos).Ok?
    ensures var s, w := MultiSlice(chunks, total, pos).value, Window(Joined(Disks(extents, imgs)), pos, n);
            (s == [] <==> w == []) && forall m: nat :: m <= |s| && m <= n ==> m <= |w| && s[..m] == w[..m]
  {
    hide Laid, SameImages, Sizes, Sum, Joined, Window, ExtentBytes, FirstCovering, Disks;
    var d := Joined(Disks(extents, imgs));
    JoinedLength(Disks(extents, imgs));
    WindowLength(d, pos, n);
    if pos < total {
      MultiReadsConcat(chunks, total, extents, imgs, pos);
      hide MultiSlice;
      var end: nat :| pos < end <= |d| && MultiSlice(chunks, total, pos) == Ok(d[pos..end]);
      forall m: nat | m <= end - pos && m <= n
        ensures m <= |Window(d, pos, n)| && d[pos..end][..m] == Window(d, pos, n)[..m]
      {
        StretchPrefix(d, pos, end, n, m);
      }
    }
  }

  lemma SameGeometry(x: Extent, img: Image)
    requires SameImage(x, img)
    ensures img.Valid() && img.size == x.size && x.Shaped()
  {
  }

  lemma ReachAgrees(c: SparseChunk, img: Image, total: nat, pos: nat)
    requires c.Valid() && SameImage(c.extent, img) && c.tile.Covers(pos) && c.tile.end <= total
    requires c.tile.end - c.tile.start == img.size
    ensures ChunkReach(c, total, pos) == Reach(img, pos - c.tile.start)
  {
    hide Image.Valid;
  }

  /** Entry `e` names a file the single-file reader opens as the in-bounds, uncompressed image `img`. */
  ghost predicate StandsAlone(base: Path, dir: Directory, e: SparseEntry, tools: Tools, img: Image) {
    && FileAt(base, dir, e.filename).Ok?
    && var data := FileAt(base, dir, e.filename).value;
    && OpenStream(data, tools).Ok? && OpenStream(data, tools).value.img == img
    && !DirectoryInFooter(data)
    && img.IsSparse() && !img.fmt.compressed && e.sizeSectors * SECTOR == img.size
    && img.Valid() && Sound(img, false)
  }

  lemma EntryStandsAlone(base: Path, dir: Directory, e: SparseEntry, tools: Tools, img: Image)
    requires StandsAlone(base, dir, e, tools, img)
    ensures EntryExtent(base, dir, e).Ok? && SameImage(EntryExtent(base, dir, e).value, img)
    ensures img.Valid() && Sound(img, false)
  {
    hide FileAt, ExtentFor, OpenStream, DirectoryInFooter, SameImage, Sound, Image.Valid;
    OpensAlike(FileAt(base, dir, e.filename).value, e.sizeSectors, tools);
  }

  /** Opening extents that each stand alone succeeds, so `MultiReadsConcat` applies to the result. */
  lemma EntriesOpenAlike(base: Path, dir: Directory, entries: seq<SparseEntry>, tools: Tools, imgs: seq<Image>)
    requires |imgs| == |entries|
    requires forall k :: 0 <= k < |entries| ==> StandsAlone(base, dir, entries[k], tools, imgs[k])
    ensures ExtentsOf(base, dir, entries).Ok?
    ensures SameImages(ExtentsOf(base, dir, entries).value, imgs)
  {
    hide StandsAlone, EntryExtent, SameImage, Sound, Image.Valid, Collect;
    forall k | 0 <= k < |entries|
      ensures EntryExtent(base, dir, entries[k]).Ok? && SameImage(EntryExtent(base, dir, entries[k]).value, imgs[k])
      ensures imgs[k].Valid() && Sound(imgs[k], false)
    {
      EntryStandsAlone(base, dir, entries[k], tools, imgs[k]);
    }
    var extents := seq(|entries|, k requires 0 <= k < |entries| => EntryExtent(base, dir, entries[k]).value);
    CollectAll(Outcomes(base, dir, entries), extents);
  }
}
