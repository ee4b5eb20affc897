/**
 The minimal image builders (core/src/testutil.rs): files that hold one grain of given data.
 Opening what a builder wrote and reading it to the end gives the data back.
 */
module Builders {
  import opened Wrappers
  import opened Arith
  import opened Bytes
  import opened Headers
  import opened Texts
  import opened Descriptors
  import opened Images
  import opened Opening

  const GRAIN_BYTES := 4096

  /** `b` cut or zero-filled to exactly `n` bytes. */
  function Padded(b: seq<byte>, n: nat): (p: seq<byte>)
    ensures |p| == n
  {
    if |b| >= n then b[..n] else b + Zeros(n - |b|)
  }

  // ── decoding what was encoded ─────────────────────────────────────────────

  /** A prefix of `s` that ends in an encoded integer decodes to it. */
  lemma Field32(s: seq<byte>, p: seq<byte>, v: u32)
    requires p + LeBytes32(v) <= s
    ensures LeU32(s, |p|) == v
  {
    hide LeU32, LeBytes32;
    Le32RoundTrip(v);
    assert s[|p|..|p| + 4] == LeBytes32(v)[0..4];
    LeU32Cong(s, |p|, LeBytes32(v), 0);
  }

  lemma Field64(s: seq<byte>, p: seq<byte>, v: u64)
    requires p + LeBytes64(v) <= s
    ensures LeU64(s, |p|) == v
  {
    hide LeU64, LeBytes64;
    Le64RoundTrip(v);
    LeU64Slice(s, |p|, |p| + 8, 0);
    assert s[|p|..|p| + 8] == LeBytes64(v);
  }

  // ── the VMDK4 header ──────────────────────────────────────────────────────

  function LeBytes16(v: nat): (b: seq<byte>)
    requires v < 0x1_0000
    ensures |b| == 2
  {
    [v % 0x100, v / 0x100]
  }

  /** Fields a writer may choose: what the parser accepts. */
  predicate Writable(h: SparseHeader) {
    && 1 <= h.version <= 3 && (h.compressed <==> h.version == 3)
    && 8 <= h.grainSize <= MAX_GRAIN_SIZE_SECTORS
    && 1 <= h.numGtes <= MAX_NUM_GTES_PER_GT
  }

  /** Bytes 0 to 47: magic through the table size. */
  function HeaderFront(h: SparseHeader): (b: seq<byte>)
    ensures |b| == 48
  {
    LeBytes32(MAGIC) + LeBytes32(h.version) + LeBytes32(0) + LeBytes64(h.capacity) + LeBytes64(h.grainSize)
    + LeBytes64(h.descriptorOffset) + LeBytes64(h.descriptorSize) + LeBytes32(h.numGtes)
  }

  /** Bytes 0 to 78: the offsets, the line-ending check and the compression algorithm. */
  function HeaderFields(h: SparseHeader, overHead: u64): (b: seq<byte>)
    ensures |b| == 79
  {
    HeaderFront(h) + LeBytes64(h.rgdOffset) + LeBytes64(h.gdOffset) + LeBytes64(overHead)
    + [0, 10, 32, 13, 10] + LeBytes16(if h.compressed then 1 else 0)
  }

  function EncodeHeader(h: SparseHeader, overHead: u64): (b: seq<byte>)
    ensures |b| == 512
  {
    Padded(HeaderFields(h, overHead), 512)
  }

  lemma FrontFields(s: seq<byte>, h: SparseHeader)
    requires HeaderFront(h) <= s
    ensures LeU32(s, 0) == MAGIC && LeU32(s, 4) == h.version
    ensures LeU64(s, 12) == h.capacity && LeU64(s, 20) == h.grainSize
    ensures LeU64(s, 28) == h.descriptorOffset && LeU64(s, 36) == h.descriptorSize && LeU32(s, 44) == h.numGtes
  {
    hide LeU32, LeU64, LeBytes32, LeBytes64;
    var p1 := LeBytes32(MAGIC);
    var p2 := p1 + LeBytes32(h.version);
    var p3 := p2 + LeBytes32(0);
    var p4 := p3 + LeBytes64(h.capacity);
    var p5 := p4 + LeBytes64(h.grainSize);
    var p6 := p5 + LeBytes64(h.descriptorOffset);
    var p7 := p6 + LeBytes64(h.descriptorSize);
    var p8 := p7 + LeBytes32(h.numGtes);
    assert p8 <= s && p7 <= s && p6 <= s && p5 <= s && p4 <= s && p3 <= s && p2 <= s;
    assert [] + p1 == p1;
    Field32(s, [], MAGIC);
    Field32(s, p1, h.version);
    Field64(s, p3, h.capacity);
    Field64(s, p4, h.grainSize);
    Field64(s, p5, h.descriptorOffset);
    Field64(s, p6, h.descriptorSize);
    Field32(s, p7, h.numGtes);
  }

  lemma BackFields(s: seq<byte>, h: SparseHeader, overHead: u64)
    requires HeaderFields(h, overHead) <= s
    ensures HeaderFront(h) <= s
    ensures LeU64(s, 48) == h.rgdOffset && LeU64(s, 56) == h.gdOffset
    ensures LeU16(s, 77) == if h.compressed then 1 else 0
  {
    hide LeU64, LeBytes64, HeaderFront;
    var p1 := HeaderFront(h);
    var p2 := p1 + LeBytes64(h.rgdOffset);
    var p3 := p2 + LeBytes64(h.gdOffset);
    assert p3 <= s && p2 <= s;
    Field64(s, p1, h.rgdOffset);
    Field64(s, p2, h.gdOffset);
    var alg := LeBytes16(if h.compressed then 1 else 0);
    assert s[77] == HeaderFields(h, overHead)[77] == alg[0];
    assert s[78] == HeaderFields(h, overHead)[78] == alg[1];
  }

  /** Parsing inverts encoding, for every header a writer may choose. */
  lemma ParseEncoded(h: SparseHeader, overHead: u64)
    requires Writable(h)
    ensures ParseSparse(EncodeHeader(h, overHead)) == Ok(h)
  {
    hide LeU32, LeU64, LeU16, HeaderFront, HeaderFields;
    var s := EncodeHeader(h, overHead);
    assert HeaderFields(h, overHead) <= s;
    BackFields(s, h, overHead);
    FrontFields(s, h);
  }

  /**
   The 512 bytes of a header with these fields: section 4.1 of Virtual Disk Format 1.1, byte by
   byte. Flags (8 to 11), overhead, line-ending check and padding are free.
   */
  predicate HasFields(d: seq<byte>, h: SparseHeader) {
    && |d| >= 512 && d[..4] == [0x4b, 0x44, 0x4d, 0x56] && Word32(d, 4, h.version)
    && Word64(d, 12, h.capacity) && Word64(d, 20, h.grainSize)
    && Word64(d, 28, h.descriptorOffset) && Word64(d, 36, h.descriptorSize) && Word32(d, 44, h.numGtes)
    && Word64(d, 48, h.rgdOffset) && Word64(d, 56, h.gdOffset)
    && d[77..79] == [if h.compressed then 1 else 0, 0]
  }

  lemma MagicWord(d: seq<byte>)
    requires |d| >= 4
    ensures LeU32(d, 0) == MAGIC <==> d[..4] == [0x4b, 0x44, 0x4d, 0x56]
  {
    Word32Is(d, 0, MAGIC);
    assert LeBytes32(MAGIC) == [0x4b, 0x44, 0x4d, 0x56];
    assert d[0..0 + 4] == d[..4];
  }

  lemma AlgorithmWord(d: seq<byte>, v: byte)
    requires |d| >= 79
    ensures LeU16(d, 77) == v <==> d[77..79] == [v, 0]
  {
    assert d[77..79] == [d[77], d[78]];
  }

  /** Which bytes parse, and as what: exactly those with the fields of a writable header. */
  lemma SparseParses(d: seq<byte>, h: SparseHeader)
    ensures ParseSparse(d) == Ok(h) <==> Writable(h) && HasFields(d, h)
  {
    hide LeU32, LeU64, LeU16, Word32, Word64;
    if |d| >= 512 {
      MagicWord(d);
      Word32Is(d, 4, h.version);
      Word64Is(d, 12, h.capacity);
      Word64Is(d, 20, h.grainSize);
      Word64Is(d, 28, h.descriptorOffset);
      Word64Is(d, 36, h.descriptorSize);
      Word32Is(d, 44, h.numGtes);
      Word64Is(d, 48, h.rgdOffset);
      Word64Is(d, 56, h.gdOffset);
      AlgorithmWord(d, if h.compressed then 1 else 0);
    }
  }

  lemma EncodedHasFields(h: SparseHeader, overHead: u64)
    requires Writable(h)
    ensures HasFields(EncodeHeader(h, overHead), h)
  {
    hide ParseSparse, EncodeHeader, HasFields;
    ParseEncoded(h, overHead);
    SparseParses(EncodeHeader(h, overHead), h);
  }

  /** The headers the parser can return are exactly the writable ones. */
  lemma SparseRange(h: SparseHeader)
    ensures (exists d: seq<byte> :: ParseSparse(d) == Ok(h)) <==> Writable(h)
  {
    hide LeU64, LeU16, LeU32, EncodeHeader;
    if Writable(h) {
      ParseEncoded(h, 0);
    }
  }

  /** A VMDK4 header is not mistaken for another format. */
  lemma DispatchesToVmdk4(s: seq<byte>)
    requires |s| >= 8 && LeU32(s, 0) == MAGIC
    ensures BeU32(s, 0) != COWD_MAGIC
    ensures LeU64(s, 0) != SE_CONST_MAGIC
  {
    var q: int := s[3];
    assert q == MAGIC / 0x100_0000;
  }

  // ── the VMDK4 file ────────────────────────────────────────────────────────

  const DESCRIPTOR_BYTES := 20 * SECTOR
  const SPARSE_GD_SECTOR := 21
  const SPARSE_RGD_SECTOR := 22
  const SPARSE_GT_SECTOR := 23
  const SPARSE_GRAIN_SECTOR := 27

  /** The header of an image of `e + 1` grains. */
  function BuiltHeader(e: nat): SparseHeader
    requires e < 2
  {
    SparseHeader(1, 8 * (e + 1), 8, 1, 20, 512, SPARSE_RGD_SECTOR, SPARSE_GD_SECTOR, false)
  }

  /** A table of zeros but for entry `e`. */
  function OneEntry(e: nat, v: u32, n: nat): (b: seq<byte>)
    ensures |b| == n
  {
    Padded(Zeros(4 * e) + LeBytes32(v), n)
  }

  /** Header, descriptor, both directories and the table. */
  function SparseMetadata(desc: seq<byte>, e: nat): (b: seq<byte>)
    requires e < 2
    ensures |b| == SPARSE_GRAIN_SECTOR * SECTOR
  {
    EncodeHeader(BuiltHeader(e), SPARSE_GRAIN_SECTOR) + Padded(desc, DESCRIPTOR_BYTES)
    + OneEntry(0, SPARSE_GT_SECTOR, SECTOR) + OneEntry(0, SPARSE_GT_SECTOR, SECTOR)
    + OneEntry(e, SPARSE_GRAIN_SECTOR, 4 * SECTOR)
  }

  /** A sparse image whose grain `e` holds `data` and whose earlier grains are holes. */
  function SparseFile(desc: seq<byte>, e: nat, data: seq<byte>): (f: File)
    requires e < 2
    ensures |f| == SPARSE_GRAIN_SECTOR * SECTOR + GRAIN_BYTES
  {
    SparseMetadata(desc, e) + Padded(data, GRAIN_BYTES)
  }

  /** Entry `e` of a one-entry table, found anywhere inside a larger sequence. */
  lemma TableIn(s: seq<byte>, at: nat, e: nat, v: u32, n: nat, j: nat)
    requires 4 * (e + 1) <= n && at + n <= |s| && s[at..at + n] == OneEntry(e, v, n)
    requires j <= e
    ensures LeU32(s, at + 4 * j) == if j == e then v else 0
  {
    hide LeBytes32;
    LeU32Slice(s, at, at + n, 4 * j);
    var t := OneEntry(e, v, n);
    if j == e {
      assert |Zeros(4 * e)| == 4 * e;
      Field32(t, Zeros(4 * e), v);
    } else {
      assert t[4 * j] == 0 && t[4 * j + 1] == 0 && t[4 * j + 2] == 0 && t[4 * j + 3] == 0;
    }
  }

  /** What the reader finds where in a built file. */
  lemma SparseRegions(desc: seq<byte>, e: nat, data: seq<byte>)
    requires e < 2
    ensures var f := SparseFile(desc, e, data);
            && f[..512] == EncodeHeader(BuiltHeader(e), SPARSE_GRAIN_SECTOR)
            && f[512..512 + DESCRIPTOR_BYTES] == Padded(desc, DESCRIPTOR_BYTES)
            && LeU32(f, SPARSE_GD_SECTOR * SECTOR) == SPARSE_GT_SECTOR
            && LeU32(f, SPARSE_RGD_SECTOR * SECTOR) == SPARSE_GT_SECTOR
            && LeU32(f, SPARSE_GT_SECTOR * SECTOR + 4 * e) == SPARSE_GRAIN_SECTOR
            && (e == 1 ==> LeU32(f, SPARSE_GT_SECTOR * SECTOR) == 0)
            && f[SPARSE_GRAIN_SECTOR * SECTOR..] == Padded(data, GRAIN_BYTES)
  {
    hide LeU32, EncodeHeader, Padded, OneEntry;
    var f := SparseFile(desc, e, data);
    assert f[SPARSE_GD_SECTOR * SECTOR..SPARSE_GD_SECTOR * SECTOR + SECTOR] == OneEntry(0, SPARSE_GT_SECTOR, SECTOR);
    assert f[SPARSE_RGD_SECTOR * SECTOR..SPARSE_RGD_SECTOR * SECTOR + SECTOR] == OneEntry(0, SPARSE_GT_SECTOR, SECTOR);
    assert f[SPARSE_GT_SECTOR * SECTOR..SPARSE_GT_SECTOR * SECTOR + 4 * SECTOR] == OneEntry(e, SPARSE_GRAIN_SECTOR, 4 * SECTOR);
    TableIn(f, SPARSE_GD_SECTOR * SECTOR, 0, SPARSE_GT_SECTOR, SECTOR, 0);
    TableIn(f, SPARSE_RGD_SECTOR * SECTOR, 0, SPARSE_GT_SECTOR, SECTOR, 0);
    TableIn(f, SPARSE_GT_SECTOR * SECTOR, e, SPARSE_GRAIN_SECTOR, 4 * SECTOR, e);
    TableIn(f, SPARSE_GT_SECTOR * SECTOR, e, SPARSE_GRAIN_SECTOR, 4 * SECTOR, 0);
  }

  /** The image a built file opens as. */
  function BuiltImage(desc: seq<byte>, e: nat, data: seq<byte>, tools: Tools): Image
    requires e < 2
  {
    Image(SparseFile(desc, e, data), Sparse([SPARSE_GT_SECTOR], GRAIN_BYTES, 512, false),
          GRAIN_BYTES * (e + 1), SPARSE_RGD_SECTOR, 1, tools.inflate)
  }

  /** A built file opens exactly when its descriptor parses. */
  lemma SparseOpens(desc: seq<byte>, e: nat, data: seq<byte>, tools: Tools)
    requires e < 2
    ensures var r := OpenStream(SparseFile(desc, e, data), tools);
            if DescriptorOf(Decode(Padded(desc, DESCRIPTOR_BYTES), tools.decoder)).Ok?
            then r.Ok? && r.value.img == BuiltImage(desc, e, data, tools)
            else r == Err(InvalidData)
  {
    hide ParseSparse, SparseFile, DescriptorOf, Decode, EncodeHeader, BeU32, LeU64, LeU32, Padded;
    var f := SparseFile(desc, e, data);
    var h := BuiltHeader(e);
    SparseRegions(desc, e, data);
    ParseEncoded(h, SPARSE_GRAIN_SECTOR);
    DispatchesToVmdk4(f[..512]);
    assert ExactBytes(f, 0, 512) == Ok(f[..512]);
    assert ExactBytes(f, 512, DESCRIPTOR_BYTES) == Ok(Padded(desc, DESCRIPTOR_BYTES));
    assert NumTables(h) == Ok(1);
    var gdByte := SPARSE_GD_SECTOR * SECTOR;
    LeU32Slice(f, gdByte, gdByte + 4, 0);
    assert LeTable32(f[gdByte..gdByte + 4]) == [SPARSE_GT_SECTOR];
  }

  /** A file with the fields of a writable header opens when its descriptor parses and its directory lies in it. */
  lemma HeaderOpens(file: File, h: SparseHeader, n: nat, tools: Tools)
    requires Writable(h) && |file| >= 512 && HasFields(file[..512], h)
    requires h.gdOffset != GD_AT_END && h.capacity * SECTOR <= U64_MAX && NumTables(h) == Ok(n)
    requires h.gdOffset * SECTOR + 4 * n <= |file|
    requires ReadDescriptorOf(file, h, tools.decoder).Ok?
    ensures OpenStream(file, tools).Ok?
    ensures var at := h.gdOffset * SECTOR;
            OpenStream(file, tools).value.img ==
            Image(file, Sparse(LeTable32(file[at..at + 4 * n]), h.grainSize * SECTOR, h.numGtes, h.compressed),
                  h.capacity * SECTOR, h.rgdOffset, n, tools.inflate)
    ensures var desc := ReadDescriptorOf(file, h, tools.decoder).value;
            OpenStream(file, tools).value.meta == Meta(desc.createType, h.version, desc.cid, desc.parentCid, desc.rawText)
  {
    hide ParseSparse, ReadDescriptorOf, EncodeHeader, BeU32, LeU64, LeU32, LeTable32, NumTables;
    SparseParses(file[..512], h);
    DispatchesToVmdk4(file[..512]);
    assert ExactBytes(file, 0, 512) == Ok(file[..512]);
    var at := h.gdOffset * SECTOR;
    assert n == 0 ==> file[at..at + 4 * n] == [];
    assert ExactBytes(file, at, 4 * n) == Ok(file[at..at + 4 * n]);
  }

  /** Without a descriptor the metadata are the defaults. */
  lemma NoDescriptor(file: File, h: SparseHeader, decoder: TextDecoder)
    requires h.descriptorOffset == 0
    ensures ReadDescriptorOf(file, h, decoder).Ok?
    ensures ReadDescriptorOf(file, h, decoder).value.parentCid == NO_PARENT
  {
    NoAccessParses("");
    assert Lines(Clean("")) == [];
  }

  // ── reading a built file back ─────────────────────────────────────────────

  /** A disk known byte by byte. */
  lemma DiskFromBytes(img: Image, fb: bool, d: seq<byte>)
    requires img.Valid() && |d| == img.size
    requires forall off: nat :: off < img.size ==> ByteAt(img, fb, off) == Some(d[off])
    ensures Sound(img, fb) && Disk(img, fb) == d
  {
    hide ByteAt, Image.Valid;
  }

  /** A grain stored at a sector of the file reads as the file's bytes there. */
  lemma StoredByte(img: Image, fb: bool, off: nat, at: nat)
    requires img.Valid() && !img.fmt.Flat? && off < img.size && at < |img.file|
    requires Lookup(img, fb, off) == Ok(At(at))
    ensures ByteAt(img, fb, off) == Some(img.file[at])
  {
    hide Lookup, Image.Valid, GrainIdx;
  }

  lemma HoleByte(img: Image, fb: bool, off: nat)
    requires img.Valid() && !img.fmt.Flat? && off < img.size && Lookup(img, fb, off) == Ok(Hole)
    ensures ByteAt(img, fb, off) == Some(0)
  {
    hide Lookup, Image.Valid, GrainIdx;
  }

  /** The one-table lookup of a built VMDK4 or COWD image. */
  lemma BuiltLookup(img: Image, fb: bool, off: nat)
    requires img.Valid() && img.IsSparse() && !img.fmt.compressed && img.fmt.grain == GRAIN_BYTES
    requires off < img.size && off / GRAIN_BYTES < img.fmt.ngte && |img.fmt.gd| > 0 && Usable(img, img.fmt.gd[0])
    requires fb && HasRgd(img) ==> RgdEntry(img, 0) in [0, img.fmt.gd[0]]
    ensures var gte := TableEntry(img, img.fmt.gd[0], off / GRAIN_BYTES);
            Lookup(img, fb, off) == Ok(if gte <= 1 then Hole else At(gte * SECTOR + off % GRAIN_BYTES))
  {
    hide Image.Valid, TableEntry;
    SplitIdx(img, 0, off / GRAIN_BYTES);
  }

  lemma BuiltImageValid(desc: seq<byte>, e: nat, data: seq<byte>, tools: Tools)
    requires e < 2
    ensures BuiltImage(desc, e, data, tools).Valid()
  {
    hide SparseFile;
  }

  /** Reader undoes builder: every byte of the data, after `e` grains of zeros, in both modes. */
  lemma SparseReadsBack(desc: seq<byte>, e: nat, data: seq<byte>, tools: Tools, fb: bool)
    requires e < 2
    ensures var img := BuiltImage(desc, e, data, tools);
            img.Valid() && Sound(img, fb) && Disk(img, fb) == Zeros(GRAIN_BYTES * e) + Padded(data, GRAIN_BYTES)
  {
    hide SparseFile, Padded, LeU32, Image.Valid, Lookup, ByteAt, EncodeHeader;
    var img := BuiltImage(desc, e, data, tools);
    var f := img.file;
    var d := Zeros(GRAIN_BYTES * e) + Padded(data, GRAIN_BYTES);
    BuiltImageValid(desc, e, data, tools);
    SparseRegions(desc, e, data);
    forall off: nat | off < img.size
      ensures ByteAt(img, fb, off) == Some(d[off])
    {
      BuiltLookup(img, fb, off);
      if off / GRAIN_BYTES == e {
        var at := SPARSE_GRAIN_SECTOR * SECTOR + off % GRAIN_BYTES;
        StoredByte(img, fb, off, at);
        assert f[at] == f[SPARSE_GRAIN_SECTOR * SECTOR..][off % GRAIN_BYTES];
      } else {
        HoleByte(img, fb, off);
      }
    }
    DiskFromBytes(img, fb, d);
  }

  // ── the descriptor text ───────────────────────────────────────────────────

  /** Characters a built descriptor uses: non-NUL ASCII. */
  predicate PlainAscii(s: string) {
    forall k :: 0 <= k < |s| ==> 0 < s[k] as int < 0x80
  }

  /** `as_bytes` of an ASCII string. */
  function AsciiBytes(s: string): (b: seq<byte>)
    requires PlainAscii(s)
    ensures |b| == |s|
  {
    seq(|s|, k requires 0 <= k < |s| => s[k] as int)
  }

  lemma {:induction false} NulEndAt(b: seq<byte>, n: nat)
    requires n <= |b| && (n < |b| ==> b[n] == 0) && forall k :: 0 <= k < n ==> b[k] != 0
    ensures NulEnd(b) == n
  {
    if n > 0 {
      NulEndAt(b[1..], n - 1);
    }
  }

  /** A zero-filled ASCII descriptor decodes to its text. */
  lemma DecodePadded(s: string, n: nat, decoder: TextDecoder)
    requires PlainAscii(s) && |s| <= n
    ensures Decode(Padded(AsciiBytes(s), n), decoder) == s
  {
    var b := Padded(AsciiBytes(s), n);
    NulEndAt(b, |s|);
    assert b[..|s|] == AsciiBytes(s);
    assert AsciiText(AsciiBytes(s)) == s;
  }

  /** No character an access keyword of an extent line must contain. */
  predicate NoAccessLetters(s: string) {
    'R' !in s && 'N' !in s
  }

  lemma {:induction false} LinesKeepLetters(s: string)
    requires NoAccessLetters(s)
    ensures forall k :: 0 <= k < |Lines(s)| ==> NoAccessLetters(Lines(s)[k])
    decreases |s|
  {
    var n := UpTo(s, '\n');
    if n < |s| {
      LinesKeepLetters(s[n + 1..]);
    }
  }

  lemma TrimLetters(line: string)
    requires NoAccessLetters(line)
    ensures NoAccessLetters(Trim(line))
  {
    hide TrimStart, TrimEnd;
  }

  lemma NotAnExtent(line: string)
    requires NoAccessLetters(line)
    ensures !Contributes(line).FlatLine? && !Contributes(line).SparseLine?
  {
    hide StripPrefix, HexOr, TrimChar, Trim, FlatExtent, SparseExtent, NoAccessLetters;
    TrimLetters(line);
    NoAccessToken(Trim(line));
  }

  lemma NotAKeyword(access: string)
    requires NoAccessLetters(access)
    ensures access != "RW" && access != "RDONLY" && access != "NOACCESS"
  {
    assert "RW"[0] == 'R' && "RDONLY"[0] == 'R' && "NOACCESS"[0] == 'N';
  }

  lemma TokenLetters(line: string)
    requires NoAccessLetters(line) && SplitToken(line).Some?
    ensures NoAccessLetters(SplitToken(line).value.0)
  {
    hide TrimStart, UpToSpace;
  }

  lemma NoAccessToken(line: string)
    requires NoAccessLetters(line)
    ensures FlatExtent(line).None? && SparseExtent(line).None?
  {
    hide SplitToken, ParseU64, SplitName, TrimStart, NoAccessLetters, Trim;
    if SplitToken(line).Some? {
      TokenLetters(line);
      NotAKeyword(SplitToken(line).value.0);
    }
  }

  lemma {:induction false} NoExtents(lines: seq<string>)
    requires forall k :: 0 <= k < |lines| ==> NoAccessLetters(lines[k])
    ensures FlatExtents(lines) == [] && SparseExtents(lines) == []
  {
    hide Contributes;
    if lines != [] {
      NotAnExtent(lines[|lines| - 1]);
      NoExtents(lines[..|lines| - 1]);
    }
  }

  /** A descriptor that names no extents always parses. */
  lemma NoAccessParses(text: string)
    requires NoAccessLetters(text)
    ensures DescriptorOf(text).Ok?
  {
    LinesKeepLetters(Clean(text));
    NoExtents(Lines(Clean(text)));
  }

  /** The text both VMDK4 builders embed. */
  const DESCRIPTOR_TEXT :=
    "# Disk DescriptorFile\n" + "version=1\n" + "CID=fffffffe\n" + "parentCID=ffffffff\n"
    + "createType=\"" + "monolithicSparse\"\n"

  predicate PlainLine(s: string) {
    PlainAscii(s) && NoAccessLetters(s)
  }

  lemma DescriptorTextPlain()
    ensures PlainAscii(DESCRIPTOR_TEXT) && NoAccessLetters(DESCRIPTOR_TEXT) && |DESCRIPTOR_TEXT| <= DESCRIPTOR_BYTES
  {
    PlainFirst();
    PlainParent();
    PlainKind();
  }

  lemma PlainFirst()
    ensures PlainLine("# Disk DescriptorFile\n") && PlainLine("version=1\n")
  {
  }

  lemma PlainParent()
    ensures PlainLine("CID=fffffffe\n") && PlainLine("parentCID=ffffffff\n")
  {
  }

  lemma PlainKind()
    ensures PlainLine("createType=\"") && PlainLine("monolithicSparse\"\n")
  {
  }

  // ── the builders themselves ───────────────────────────────────────────────

  /** `copy_from_slice` at or after the part of the buffer written so far. */
  method Put(buf: array<byte>, at: nat, b: seq<byte>, ghost p: seq<byte>)
    requires |p| <= at && at + |b| <= buf.Length && buf[..] == Padded(p, buf.Length)
    modifies buf
    ensures buf[..] == Padded(p + Zeros(at - |p|) + b, buf.Length)
    ensures at == |p| ==> buf[..] == Padded(p + b, buf.Length)
  {
    forall k | 0 <= k < |b| {
      buf[at + k] := b[k];
    }
    assert at == |p| ==> p + Zeros(0) + b == p + b;
    assert buf[..] == Padded(p + Zeros(at - |p|) + b, buf.Length);
  }

  /** `vec![0u8; n]`. */
  method Blank(n: nat) returns (buf: array<byte>)
    ensures fresh(buf) && buf.Length == n && buf[..] == Padded([], n)
  {
    buf := new byte[n](_ => 0);
    assert buf[..] == Padded([], n);
  }

  lemma PaddedPrefix(b: seq<byte>, n: nat)
    ensures Padded([] + b[..Min(|b|, n)], n) == Padded(b, n)
  {
  }

  /** A buffer of `n` bytes that starts with as much of `b` as fits. */
  method BuildPadded(b: seq<byte>, n: nat) returns (out: seq<byte>)
    ensures out == Padded(b, n)
  {
    var buf := Blank(n);
    var copyLen := Min(|b|, n);
    Put(buf, 0, b[..copyLen], []);
    PaddedPrefix(b, n);
    return buf[..];
  }

  method BuildTable(e: nat, v: u32, n: nat) returns (out: seq<byte>)
    requires 4 * (e + 1) <= n
    ensures out == OneEntry(e, v, n)
  {
    var buf := Blank(n);
    Put(buf, 4 * e, LeBytes32(v), []);
    assert [] + Zeros(4 * e) == Zeros(4 * e);
    return buf[..];
  }

  /** The header, field by field in place. */
  method BuildHeader(h: SparseHeader, overHead: u64) returns (out: seq<byte>)
    ensures out == EncodeHeader(h, overHead)
  {
    hide LeBytes32, LeBytes64, LeBytes16, Padded;
    var hdr := Blank(512);
    ghost var p := LeBytes32(MAGIC);
    assert [] + p == p;
    Put(hdr, 0, LeBytes32(MAGIC), []);
    Put(hdr, 4, LeBytes32(h.version), p);
    p := p + LeBytes32(h.version);
    Put(hdr, 8, LeBytes32(0), p);
    p := p + LeBytes32(0);
    Put(hdr, 12, LeBytes64(h.capacity), p);
    p := p + LeBytes64(h.capacity);
    Put(hdr, 20, LeBytes64(h.grainSize), p);
    p := p + LeBytes64(h.grainSize);
    Put(hdr, 28, LeBytes64(h.descriptorOffset), p);
    p := p + LeBytes64(h.descriptorOffset);
    Put(hdr, 36, LeBytes64(h.descriptorSize), p);
    p := p + LeBytes64(h.descriptorSize);
    Put(hdr, 44, LeBytes32(h.numGtes), p);
    p := p + LeBytes32(h.numGtes);
    Put(hdr, 48, LeBytes64(h.rgdOffset), p);
    p := p + LeBytes64(h.rgdOffset);
    Put(hdr, 56, LeBytes64(h.gdOffset), p);
    p := p + LeBytes64(h.gdOffset);
    Put(hdr, 64, LeBytes64(overHead), p);
    p := p + LeBytes64(overHead);
    Put(hdr, 72, [0, 10, 32, 13, 10], p);
    p := p + [0, 10, 32, 13, 10];
    Put(hdr, 77, LeBytes16(if h.compressed then 1 else 0), p);
    p := p + LeBytes16(if h.compressed then 1 else 0);
    return hdr[..];
  }

  /** `test_sparse_vmdk_with_descriptor` (`e == 0`) and `test_sparse_vmdk_sparse_then_allocated` (`e == 1`). */
  method BuildSparse(desc: seq<byte>, e: nat, data: seq<byte>) returns (vmdk: seq<byte>)
    requires e < 2
    ensures vmdk == SparseFile(desc, e, data)
  {
    hide Padded, OneEntry, EncodeHeader;
    var grain := BuildPadded(data, GRAIN_BYTES);
    var hdr := BuildHeader(BuiltHeader(e), SPARSE_GRAIN_SECTOR);
    var text := BuildPadded(desc, DESCRIPTOR_BYTES);
    var gd := BuildTable(0, SPARSE_GT_SECTOR, SECTOR);
    var rgd := gd;
    var gt := BuildTable(e, SPARSE_GRAIN_SECTOR, 4 * SECTOR);
    vmdk := hdr;
    vmdk := vmdk + text;
    vmdk := vmdk + gd;
    vmdk := vmdk + rgd;
    vmdk := vmdk + gt;
    vmdk := vmdk + grain;
  }

  /** `test_sparse_vmdk`: what it writes opens, and reads back as the data, zero-padded or cut. */
  method TestSparseVmdk(data: seq<byte>, ghost tools: Tools, ghost fb: bool) returns (vmdk: seq<byte>)
    ensures |vmdk| <= I64_MAX && OpenStream(vmdk, tools).Ok?
    ensures var img := OpenStream(vmdk, tools).value.img;
            img.Valid() && Sound(img, fb) && Disk(img, fb) == Padded(data, GRAIN_BYTES)
  {
    hide SparseFile, OpenStream, Padded, DescriptorOf, Decode, Image.Valid, Sound, Disk;
    DescriptorTextPlain();
    NoAccessParses(DESCRIPTOR_TEXT);
    DecodePadded(DESCRIPTOR_TEXT, DESCRIPTOR_BYTES, tools.decoder);
    var desc := AsciiBytes(DESCRIPTOR_TEXT);
    vmdk := BuildSparse(desc, 0, data);
    SparseOpens(desc, 0, data, tools);
    SparseReadsBack(desc, 0, data, tools, fb);
    assert Zeros(0) + Padded(data, GRAIN_BYTES) == Padded(data, GRAIN_BYTES);
  }
}
