/** The COWD and seSparse image builders (core/src/testutil.rs), and what reading them back gives. */
module ExtentBuilders {
  import opened Wrappers
  import opened Arith
  import opened Bytes
  import opened Headers
  import opened Descriptors
  import opened Images
  import opened Opening
  import opened Builders

  // ── COWD ──────────────────────────────────────────────────────────────────

  const COWD_GT_SECTOR := 5
  const COWD_GRAIN_SECTOR := 37
  const COWD_TABLE_BYTES := 4 * COWD_GTES_PER_GT

  /** The big-endian magic. */
  const COWD_MAGIC_BYTES: seq<byte> := [0x43, 0x4F, 0x57, 0x44]

  /** Bytes 0 to 31: version, flags, capacity, grain size, directory sector and length, next free sector. */
  function CowdFields(h: CowdHeader): (b: seq<byte>)
    ensures |b| == 32
  {
    COWD_MAGIC_BYTES + LeBytes32(1) + LeBytes32(3) + LeBytes32(h.capacity) + LeBytes32(h.grainSize)
    + LeBytes32(COWD_GD_SECTOR) + LeBytes32(1) + LeBytes32(COWD_GRAIN_SECTOR + 8)
  }

  function CowdFile(data: seq<byte>): (f: File)
    ensures |f| == COWD_GRAIN_SECTOR * SECTOR + GRAIN_BYTES
  {
    Padded(CowdFields(COWD_HEADER), 512) + Zeros(3 * SECTOR) + OneEntry(0, COWD_GT_SECTOR, SECTOR)
    + OneEntry(0, COWD_GRAIN_SECTOR, COWD_TABLE_BYTES) + Padded(data, GRAIN_BYTES)
  }

  /** The one-grain header of the builder. */
  const COWD_HEADER := CowdHeader(8, 8)

  /** Parsing inverts encoding, for every COWD header with a non-zero grain size. */
  lemma CowdHeaderParses(h: CowdHeader)
    requires h.grainSize > 0
    ensures ParseCowd(Padded(CowdFields(h), 512)) == Ok(h)
    ensures BeU32(Padded(CowdFields(h), 512), 0) == COWD_MAGIC
  {
    hide LeU32, LeBytes32;
    var s := Padded(CowdFields(h), 512);
    var p1 := COWD_MAGIC_BYTES;
    var p2 := p1 + LeBytes32(1);
    var p3 := p2 + LeBytes32(3);
    var p4 := p3 + LeBytes32(h.capacity);
    assert CowdFields(h) <= s;
    assert p4 + LeBytes32(h.grainSize) <= s && p4 <= s && p3 <= s && p2 <= s && p1 <= s;
    Field32(s, p1, 1);
    Field32(s, p3, h.capacity);
    Field32(s, p4, h.grainSize);
    assert s[0] == 0x43 && s[1] == 0x4F && s[2] == 0x57 && s[3] == 0x44;
  }

  /** The bytes of a COWD header with these fields; flags and everything from byte 20 on are free. */
  predicate CowdHasFields(d: seq<byte>, h: CowdHeader) {
    && |d| >= 32 && d[..4] == [0x43, 0x4f, 0x57, 0x44] && Word32(d, 4, 1)
    && Word32(d, 12, h.capacity) && Word32(d, 16, h.grainSize)
  }

  lemma CowdMagicWord(d: seq<byte>)
    requires |d| >= 4
    ensures BeU32(d, 0) == COWD_MAGIC <==> d[..4] == [0x43, 0x4f, 0x57, 0x44]
  {
    assert d[..4] == [d[0], d[1], d[2], d[3]];
    if BeU32(d, 0) == COWD_MAGIC {
      var q: int := d[0];
      assert q == COWD_MAGIC / 0x100_0000;
    }
  }

  /** Which bytes parse, and as what. */
  lemma CowdParses(d: seq<byte>, h: CowdHeader)
    ensures ParseCowd(d) == Ok(h) <==> h.grainSize > 0 && CowdHasFields(d, h)
    ensures CowdHasFields(d, h) ==> BeU32(d, 0) == COWD_MAGIC
  {
    hide BeU32, LeU32, Word32;
    if |d| >= 32 {
      CowdMagicWord(d);
      Word32Is(d, 4, 1);
      Word32Is(d, 12, h.capacity);
      Word32Is(d, 16, h.grainSize);
    }
  }

  lemma CowdRange(h: CowdHeader)
    ensures (exists d: seq<byte> :: ParseCowd(d) == Ok(h)) <==> h.grainSize > 0
  {
    hide BeU32, LeU32, CowdFields;
    if h.grainSize > 0 {
      CowdHeaderParses(h);
    }
  }

  lemma CowdRegions(data: seq<byte>)
    ensures var f := CowdFile(data);
            && f[..512] == Padded(CowdFields(COWD_HEADER), 512)
            && LeU32(f, COWD_GD_SECTOR * SECTOR) == COWD_GT_SECTOR
            && LeU32(f, COWD_GT_SECTOR * SECTOR) == COWD_GRAIN_SECTOR
            && f[COWD_GRAIN_SECTOR * SECTOR..] == Padded(data, GRAIN_BYTES)
  {
    hide LeU32, CowdFields, Padded, OneEntry;
    var f := CowdFile(data);
    var gd, gt := COWD_GD_SECTOR * SECTOR, COWD_GT_SECTOR * SECTOR;
    assert f[gd..gd + SECTOR] == OneEntry(0, COWD_GT_SECTOR, SECTOR);
    assert f[gt..gt + COWD_TABLE_BYTES] == OneEntry(0, COWD_GRAIN_SECTOR, COWD_TABLE_BYTES);
    TableIn(f, gd, 0, COWD_GT_SECTOR, SECTOR, 0);
    TableIn(f, gt, 0, COWD_GRAIN_SECTOR, COWD_TABLE_BYTES, 0);
  }

  function CowdImage(data: seq<byte>, tools: Tools): Image {
    Image(CowdFile(data), Sparse([COWD_GT_SECTOR], GRAIN_BYTES, COWD_GTES_PER_GT, false), GRAIN_BYTES, 0, 0, tools.inflate)
  }

  lemma EncodedHasCowdFields(h: CowdHeader)
    requires h.grainSize > 0
    ensures CowdHasFields(Padded(CowdFields(h), 512), h)
  {
    hide ParseCowd, CowdFields, CowdHasFields, Padded;
    CowdHeaderParses(h);
    CowdParses(Padded(CowdFields(h), 512), h);
  }

  /** A file with the fields of a COWD header, that holds the directory the header implies, opens. */
  lemma CowdHeaderOpens(file: File, h: CowdHeader, tools: Tools)
    requires h.grainSize > 0 && |file| >= 512 && CowdHasFields(file[..512], h)
    requires COWD_GD_SECTOR * SECTOR + 4 * CowdTables(h) <= |file|
    ensures OpenStream(file, tools).Ok?
    ensures var at := COWD_GD_SECTOR * SECTOR;
            OpenStream(file, tools).value.img ==
            Image(file, Sparse(LeTable32(file[at..at + 4 * CowdTables(h)]), h.grainSize * SECTOR, COWD_GTES_PER_GT, false),
                  h.capacity * SECTOR, 0, 0, tools.inflate)
    ensures OpenStream(file, tools).value.meta.parentCid == NO_PARENT
  {
    hide ParseCowd, CowdFields, BeU32, LeU64, LeTable32, Padded, OpenVmdk4, OpenSeImage, CowdTables;
    CowdParses(file[..512], h);
    assert ExactBytes(file, 0, 512) == Ok(file[..512]);
  }

  lemma CowdOpens(data: seq<byte>, tools: Tools)
    ensures OpenStream(CowdFile(data), tools).Ok?
    ensures OpenStream(CowdFile(data), tools).value.img == CowdImage(data, tools)
  {
    hide OpenStream, CowdFile, CowdFields, LeU32, Padded;
    var f := CowdFile(data);
    CowdRegions(data);
    assert CowdTables(COWD_HEADER) == 1;
    EncodedHasCowdFields(COWD_HEADER);
    CowdHeaderOpens(f, COWD_HEADER, tools);
    var gd := COWD_GD_SECTOR * SECTOR;
    LeU32Slice(f, gd, gd + 4, 0);
    assert LeTable32(f[gd..gd + 4]) == [COWD_GT_SECTOR];
  }

  lemma CowdImageValid(data: seq<byte>, tools: Tools)
    ensures CowdImage(data, tools).Valid()
  {
    hide CowdFile;
  }

  /** `test_cowd_vmdk` and the reader: the data, zero-padded or cut to a grain. */
  lemma CowdReadsBack(data: seq<byte>, tools: Tools, fb: bool)
    ensures var img := CowdImage(data, tools);
            img.Valid() && Sound(img, fb) && Disk(img, fb) == Padded(data, GRAIN_BYTES)
  {
    hide CowdFile, CowdFields, Padded, LeU32, Image.Valid, Lookup, ByteAt;
    var img := CowdImage(data, tools);
    var d := Padded(data, GRAIN_BYTES);
    CowdImageValid(data, tools);
    CowdRegions(data);
    forall off: nat | off < img.size
      ensures ByteAt(img, fb, off) == Some(d[off])
    {
      BuiltLookup(img, fb, off);
      var at := COWD_GRAIN_SECTOR * SECTOR + off;
      StoredByte(img, fb, off, at);
      assert img.file[at] == img.file[COWD_GRAIN_SECTOR * SECTOR..][off];
    }
    DiskFromBytes(img, fb, d);
  }

  /** `test_cowd_vmdk`. */
  method TestCowdVmdk(data: seq<byte>, ghost tools: Tools, ghost fb: bool) returns (cowd: seq<byte>)
    ensures |cowd| <= I64_MAX && OpenStream(cowd, tools).Ok?
    ensures var img := OpenStream(cowd, tools).value.img;
            img.Valid() && Sound(img, fb) && Disk(img, fb) == Padded(data, GRAIN_BYTES)
  {
    hide OpenStream, Padded, Image.Valid, Sound, Disk, LeBytes32, OneEntry;
    var grain := BuildPadded(data, GRAIN_BYTES);
    var hdr := BuildCowdHeader();
    var padding := Blank(3 * SECTOR);
    var gd := BuildTable(0, COWD_GT_SECTOR, SECTOR);
    var gt := BuildTable(0, COWD_GRAIN_SECTOR, COWD_TABLE_BYTES);
    PaddedNothing(3 * SECTOR);
    cowd := hdr;
    cowd := cowd + padding[..];
    cowd := cowd + gd;
    cowd := cowd + gt;
    cowd := cowd + grain;
    CowdOpens(data, tools);
    CowdReadsBack(data, tools, fb);
  }

  lemma PaddedNothing(n: nat)
    ensures Padded([], n) == Zeros(n)
  {
  }

  method BuildCowdHeader() returns (out: seq<byte>)
    ensures out == Padded(CowdFields(COWD_HEADER), 512)
  {
    hide LeBytes32, Padded;
    var hdr := Blank(512);
    ghost var p := COWD_MAGIC_BYTES;
    assert [] + p == p;
    Put(hdr, 0, COWD_MAGIC_BYTES, []);
    Put(hdr, 4, LeBytes32(1), p);
    p := p + LeBytes32(1);
    Put(hdr, 8, LeBytes32(3), p);
    p := p + LeBytes32(3);
    Put(hdr, 12, LeBytes32(8), p);
    p := p + LeBytes32(8);
    Put(hdr, 16, LeBytes32(8), p);
    p := p + LeBytes32(8);
    Put(hdr, 20, LeBytes32(COWD_GD_SECTOR), p);
    p := p + LeBytes32(COWD_GD_SECTOR);
    Put(hdr, 24, LeBytes32(1), p);
    p := p + LeBytes32(1);
    Put(hdr, 28, LeBytes32(COWD_GRAIN_SECTOR + 8), p);
    return hdr[..];
  }

  // ── seSparse ──────────────────────────────────────────────────────────────

  const SE_GD_SECTOR := 2
  const SE_GT_OFFSET := 3
  const SE_GRAIN_SECTOR := 67
  const SE_TABLE_BYTES := 8 * SE_GTES_PER_GT
  const SE_GD_ENTRY: u64 := 0x1000_0000_0000_0000
  const SE_GT_ENTRY: u64 := 0x3000_0000_0000_0000

  /** Bytes 0 to 95 of the constant header. */
  function SeFront(h: SeHeader): (b: seq<byte>)
    ensures |b| == 96
  {
    LeBytes64(SE_CONST_MAGIC) + LeBytes64(SE_VERSION) + LeBytes64(h.capacity) + LeBytes64(h.grainSize) + LeBytes64(SE_GT_SECTORS)
    + Zeros(40) + LeBytes64(1) + LeBytes64(1)
  }

  /** Bytes 0 to 207 of the constant header. */
  function SeFields(h: SeHeader): (b: seq<byte>)
    ensures |b| == 208
  {
    SeFront(h) + Zeros(32) + LeBytes64(h.gdOffset) + LeBytes64(1) + LeBytes64(h.gtOffset) + LeBytes64(SE_GT_SECTORS)
    + Zeros(32) + LeBytes64(h.grainsOffset) + LeBytes64(8)
  }

  /** The one-grain header of the builder, with the directory at sector `gdOffset`. */
  function SeHeaderAt(gdOffset: u64): SeHeader {
    SeHeader(8, 8, gdOffset, SE_GT_OFFSET, SE_GRAIN_SECTOR)
  }

  /** A one-grain extent with the given header offset, directory entry and table entry. */
  function SeFileWith(gdOffset: u64, e: u64, gte: u64, data: seq<byte>): (f: File)
    ensures |f| == SE_GRAIN_SECTOR * SECTOR + GRAIN_BYTES
  {
    Padded(SeFields(SeHeaderAt(gdOffset)), 512) + Padded(LeBytes64(0xCAFE_CAFE), 512) + Padded(LeBytes64(e), SECTOR)
    + Padded(LeBytes64(gte), SE_TABLE_BYTES) + Padded(data, GRAIN_BYTES)
  }

  /** Parsing inverts encoding, for every seSparse header with 8-sector grains. */
  lemma SeHeaderParses(h: SeHeader)
    requires h.grainSize == SE_GRAIN_SECTORS
    ensures ParseSe(Padded(SeFields(h), 512)) == Ok(h)
    ensures LeU64(Padded(SeFields(h), 512), 0) == SE_CONST_MAGIC
  {
    hide LeU64, LeBytes64, SeFront;
    var s := Padded(SeFields(h), 512);
    assert SeFields(h) <= s;
    SeFrontFields(s, h);
    var p1 := SeFront(h) + Zeros(32);
    var p2 := p1 + LeBytes64(h.gdOffset);
    var p3 := p2 + LeBytes64(1);
    var p4 := p3 + LeBytes64(h.gtOffset);
    var p5 := p4 + LeBytes64(SE_GT_SECTORS) + Zeros(32);
    var p6 := p5 + LeBytes64(h.grainsOffset);
    assert p6 <= s && p5 <= s && p4 <= s && p3 <= s && p2 <= s;
    Field64(s, p1, h.gdOffset);
    Field64(s, p3, h.gtOffset);
    Field64(s, p5, h.grainsOffset);
  }

  /** The bytes of a seSparse constant header with these fields; the other regions' places are free. */
  predicate SeHasFields(d: seq<byte>, h: SeHeader) {
    && |d| >= 208 && Word64(d, 0, 0xCAFE_BABE) && Word64(d, 8, 0x2_0000_0001)
    && Word64(d, 16, h.capacity) && Word64(d, 24, h.grainSize) && Word64(d, 32, 64)
    && Word64(d, 128, h.gdOffset) && Word64(d, 144, h.gtOffset) && Word64(d, 192, h.grainsOffset)
  }

  /** Which bytes parse, and as what. */
  lemma SeParses(d: seq<byte>, h: SeHeader)
    ensures ParseSe(d) == Ok(h) <==> h.grainSize == SE_GRAIN_SECTORS && SeHasFields(d, h)
    ensures SeHasFields(d, h) ==> LeU64(d, 0) == SE_CONST_MAGIC
  {
    hide LeU64, Word64;
    if |d| >= 208 {
      Word64Is(d, 0, 0xCAFE_BABE);
      Word64Is(d, 8, 0x2_0000_0001);
      Word64Is(d, 16, h.capacity);
      Word64Is(d, 24, h.grainSize);
      Word64Is(d, 32, 64);
      Word64Is(d, 128, h.gdOffset);
      Word64Is(d, 144, h.gtOffset);
      Word64Is(d, 192, h.grainsOffset);
    }
  }

  lemma SeRange(h: SeHeader)
    ensures (exists d: seq<byte> :: ParseSe(d) == Ok(h)) <==> h.grainSize == SE_GRAIN_SECTORS
  {
    hide LeU64, SeFields;
    if h.grainSize == SE_GRAIN_SECTORS {
      SeHeaderParses(h);
    }
  }

  lemma SeFrontFields(s: seq<byte>, h: SeHeader)
    requires SeFront(h) <= s
    ensures LeU64(s, 0) == SE_CONST_MAGIC && LeU64(s, 8) == SE_VERSION
    ensures LeU64(s, 16) == h.capacity && LeU64(s, 24) == h.grainSize && LeU64(s, 32) == SE_GT_SECTORS
  {
    hide LeU64, LeBytes64;
    var p1 := LeBytes64(SE_CONST_MAGIC);
    var p2 := p1 + LeBytes64(SE_VERSION);
    var p3 := p2 + LeBytes64(h.capacity);
    var p4 := p3 + LeBytes64(h.grainSize);
    var p5 := p4 + LeBytes64(SE_GT_SECTORS);
    assert p5 <= s && p4 <= s && p3 <= s && p2 <= s && p1 <= s;
    assert [] + p1 == p1;
    Field64(s, [], SE_CONST_MAGIC);
    Field64(s, p1, SE_VERSION);
    Field64(s, p2, h.capacity);
    Field64(s, p3, h.grainSize);
    Field64(s, p4, SE_GT_SECTORS);
  }

  lemma Entry64In(s: seq<byte>, at: nat, v: u64, n: nat)
    requires 8 <= n && at + n <= |s| && s[at..at + n] == Padded(LeBytes64(v), n)
    ensures LeU64(s, at) == v
  {
    hide LeU64, LeBytes64;
    LeU64Slice(s, at, at + n, 0);
    assert [] + LeBytes64(v) == LeBytes64(v);
    Field64(s[at..at + n], [], v);
  }

  lemma SeRegions(gdOffset: u64, e: u64, gte: u64, data: seq<byte>)
    ensures var f := SeFileWith(gdOffset, e, gte, data);
            && f[..512] == Padded(SeFields(SeHeaderAt(gdOffset)), 512)
            && LeU64(f, SE_GD_SECTOR * SECTOR) == e
            && LeU64(f, SE_GT_OFFSET * SECTOR) == gte
            && f[SE_GT_OFFSET * SECTOR..SE_GT_OFFSET * SECTOR + SE_TABLE_BYTES] == Padded(LeBytes64(gte), SE_TABLE_BYTES)
            && f[SE_GRAIN_SECTOR * SECTOR..] == Padded(data, GRAIN_BYTES)
  {
    hide LeU64, LeBytes64, SeFields, Padded;
    var f := SeFileWith(gdOffset, e, gte, data);
    var gd, gt := SE_GD_SECTOR * SECTOR, SE_GT_OFFSET * SECTOR;
    assert f[gd..gd + SECTOR] == Padded(LeBytes64(e), SECTOR);
    assert f[gt..gt + SE_TABLE_BYTES] == Padded(LeBytes64(gte), SE_TABLE_BYTES);
    Entry64In(f, gd, e, SECTOR);
    Entry64In(f, gt, gte, SE_TABLE_BYTES);
  }

  function SeImageWith(gdOffset: u64, e: u64, gte: u64, data: seq<byte>, tools: Tools): Image {
    Image(SeFileWith(gdOffset, e, gte, data), SeSparse([e], GRAIN_BYTES, SE_GT_OFFSET, SE_GRAIN_SECTOR),
          GRAIN_BYTES, 0, 0, tools.inflate)
  }

  function SeImage(data: seq<byte>, tools: Tools): Image {
    SeImageWith(SE_GD_SECTOR, SE_GD_ENTRY, SE_GT_ENTRY, data, tools)
  }

  /** Such an extent opens whenever its directory address is sector 2, after wrap-around. */
  lemma SeOpens(gdOffset: u64, e: u64, gte: u64, data: seq<byte>, tools: Tools)
    requires Wrap64(gdOffset * SECTOR) == SE_GD_SECTOR * SECTOR
    ensures OpenStream(SeFileWith(gdOffset, e, gte, data), tools).Ok?
    ensures OpenStream(SeFileWith(gdOffset, e, gte, data), tools).value.img == SeImageWith(gdOffset, e, gte, data, tools)
    ensures OpenSeImage(SeFileWith(gdOffset, e, gte, data), SeFileWith(gdOffset, e, gte, data)[..512], tools) ==
            OpenStream(SeFileWith(gdOffset, e, gte, data), tools)
  {
    hide ParseSe, SeFileWith, SeFields, BeU32, LeU64, Padded, OpenVmdk4, OpenCowdImage;
    var f := SeFileWith(gdOffset, e, gte, data);
    SeRegions(gdOffset, e, gte, data);
    SeHeaderParses(SeHeaderAt(gdOffset));
    NotCowd(f[..512]);
    assert ExactBytes(f, 0, 512) == Ok(f[..512]);
    assert SeTables(SeHeaderAt(gdOffset)) == 1;
    var gd := SE_GD_SECTOR * SECTOR;
    LeU64Slice(f, gd, gd + 8, 0);
    assert LeTable64(f[gd..gd + 8]) == [e];
  }

  lemma NotCowd(s: seq<byte>)
    requires |s| >= 8 && LeU64(s, 0) == SE_CONST_MAGIC
    ensures BeU32(s, 0) != COWD_MAGIC
  {
    assert LeU32(s, 0) == SE_CONST_MAGIC;
    var q: int := s[3];
    assert q == SE_CONST_MAGIC / 0x100_0000;
  }

  lemma SeImageValid(gdOffset: u64, e: u64, gte: u64, data: seq<byte>, tools: Tools)
    ensures SeImageWith(gdOffset, e, gte, data, tools).Valid()
  {
    hide SeFileWith;
  }

  /** Behind an allocated directory entry for table 0, grain 0 has the entry written. */
  lemma SeBuiltGte(gdOffset: u64, gte: u64, data: seq<byte>, tools: Tools)
    requires SeImageWith(gdOffset, SE_GD_ENTRY, gte, data, tools).Valid()
    ensures SeGte(SeImageWith(gdOffset, SE_GD_ENTRY, gte, data, tools), 0) == Ok(Some(gte))
  {
    hide SeFileWith, LeU64, Image.Valid;
    SeRegions(gdOffset, SE_GD_ENTRY, gte, data);
  }

  lemma SeBuiltLookup(data: seq<byte>, tools: Tools, fb: bool, off: nat)
    requires SeImage(data, tools).Valid() && off < GRAIN_BYTES
    ensures Lookup(SeImage(data, tools), fb, off) == Ok(At(SE_GRAIN_SECTOR * SECTOR + off))
  {
    hide SeFileWith, SeGte, Image.Valid;
    SeBuiltGte(SE_GD_SECTOR, SE_GT_ENTRY, data, tools);
  }

  /** `test_sesparse_vmdk` and the reader: the data, zero-padded or cut to a grain. */
  lemma SeReadsBack(data: seq<byte>, tools: Tools, fb: bool)
    ensures var img := SeImage(data, tools);
            img.Valid() && Sound(img, fb) && Disk(img, fb) == Padded(data, GRAIN_BYTES)
  {
    hide SeFileWith, SeFields, Padded, LeU64, Image.Valid, Lookup, ByteAt;
    var img := SeImage(data, tools);
    var d := Padded(data, GRAIN_BYTES);
    SeImageValid(SE_GD_SECTOR, SE_GD_ENTRY, SE_GT_ENTRY, data, tools);
    SeRegions(SE_GD_SECTOR, SE_GD_ENTRY, SE_GT_ENTRY, data);
    forall off: nat | off < img.size
      ensures ByteAt(img, fb, off) == Some(d[off])
    {
      SeBuiltLookup(data, tools, fb, off);
      var at := SE_GRAIN_SECTOR * SECTOR + off;
      StoredByte(img, fb, off, at);
      assert img.file[at] == img.file[SE_GRAIN_SECTOR * SECTOR..][off];
    }
    DiskFromBytes(img, fb, d);
  }

  method BuildEntry64(v: u64, n: nat) returns (out: seq<byte>)
    requires 8 <= n
    ensures out == Padded(LeBytes64(v), n)
  {
    var buf := Blank(n);
    Put(buf, 0, LeBytes64(v), []);
    assert [] + LeBytes64(v) == LeBytes64(v);
    return buf[..];
  }

  /** The constant header; the gaps between its fields stay zero. */
  method BuildSeHeader() returns (out: seq<byte>)
    ensures out == Padded(SeFields(SeHeaderAt(SE_GD_SECTOR)), 512)
  {
    hide LeBytes64, Padded;
    var hdr := Blank(512);
    ghost var p := LeBytes64(SE_CONST_MAGIC);
    assert [] + p == p;
    Put(hdr, 0, LeBytes64(SE_CONST_MAGIC), []);
    Put(hdr, 8, LeBytes64(SE_VERSION), p);
    p := p + LeBytes64(SE_VERSION);
    Put(hdr, 16, LeBytes64(8), p);
    p := p + LeBytes64(8);
    Put(hdr, 24, LeBytes64(8), p);
    p := p + LeBytes64(8);
    Put(hdr, 32, LeBytes64(SE_GT_SECTORS), p);
    p := p + LeBytes64(SE_GT_SECTORS);
    Put(hdr, 80, LeBytes64(1), p);
    p := p + Zeros(40) + LeBytes64(1);
    Put(hdr, 88, LeBytes64(1), p);
    p := p + LeBytes64(1);
    Put(hdr, 128, LeBytes64(SE_GD_SECTOR), p);
    p := p + Zeros(32) + LeBytes64(SE_GD_SECTOR);
    Put(hdr, 136, LeBytes64(1), p);
    p := p + LeBytes64(1);
    Put(hdr, 144, LeBytes64(SE_GT_OFFSET), p);
    p := p + LeBytes64(SE_GT_OFFSET);
    Put(hdr, 152, LeBytes64(SE_GT_SECTORS), p);
    p := p + LeBytes64(SE_GT_SECTORS);
    Put(hdr, 192, LeBytes64(SE_GRAIN_SECTOR), p);
    p := p + Zeros(32) + LeBytes64(SE_GRAIN_SECTOR);
    Put(hdr, 200, LeBytes64(8), p);
    return hdr[..];
  }

  /** `test_sesparse_vmdk`. */
  method TestSeSparseVmdk(data: seq<byte>, ghost tools: Tools, ghost fb: bool) returns (vmdk: seq<byte>)
    ensures |vmdk| <= I64_MAX && OpenStream(vmdk, tools).Ok?
    ensures var img := OpenStream(vmdk, tools).value.img;
            img.Valid() && Sound(img, fb) && Disk(img, fb) == Padded(data, GRAIN_BYTES)
  {
    hide OpenStream, Padded, Image.Valid, Sound, Disk, LeBytes64;
    var grain := BuildPadded(data, GRAIN_BYTES);
    var constHdr := BuildSeHeader();
    var volHdr := BuildEntry64(0xCAFE_CAFE, 512);
    var gd := BuildEntry64(SE_GD_ENTRY, SECTOR);
    var gt := BuildEntry64(SE_GT_ENTRY, SE_TABLE_BYTES);
    vmdk := constHdr;
    vmdk := vmdk + volHdr;
    vmdk := vmdk + gd;
    vmdk := vmdk + gt;
    vmdk := vmdk + grain;
    SeOpens(SE_GD_SECTOR, SE_GD_ENTRY, SE_GT_ENTRY, data, tools);
    SeReadsBack(data, tools, fb);
  }
}
