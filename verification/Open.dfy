/**
 Opening a binary image (core/src/lib.rs `open`, `open_cowd`, `open_sesparse`): magic
 dispatch, checked geometry, and the grain directory.
 */
module Opening {
  import opened Wrappers
  import opened Arith
  import opened Bytes
  import opened Headers
  import opened Descriptors
  import opened Images
  import opened Sources
  import opened Readers

  const MAX_GD_BYTES := 16 * 1024 * 1024
  const MAX_DESCRIPTOR_BYTES := 64 * 1024

  /** Foreign code: the zlib decoder and the decoder of non-ASCII descriptors. */
  datatype Tools = Tools(inflate: Inflate, decoder: TextDecoder)

  datatype Opened = Opened(img: Image, meta: Meta)

  // ── VMDK4 ─────────────────────────────────────────────────────────────────

  /** `num_gts`, by checked add-then-divide, under the directory size cap. */
  function NumTables(hdr: SparseHeader): Result<nat>
    requires hdr.grainSize > 0 && hdr.numGtes > 0
  {
    var a :- OkOr(CheckedAdd(hdr.capacity, hdr.grainSize - 1), GeometryOverflow);
    var numGrains: nat := a / hdr.grainSize;
    var b :- OkOr(CheckedAdd(numGrains, hdr.numGtes - 1), GeometryOverflow);
    var numGts: nat := b / hdr.numGtes;
    var len :- OkOr(CheckedMul(numGts, 4), GeometryOverflow);
    if len > MAX_GD_BYTES then Err(FieldOutOfRange) else Ok(numGts)
  }

  /** Section 4.6: the footer header sits 1024 bytes before the end of a streamed file. */
  function GdOffset(file: File, hdr: SparseHeader): Result<u64> {
    if hdr.gdOffset != GD_AT_END then Ok(hdr.gdOffset) else
    if |file| < 1024 then Err(InvalidInput) else
    var footer :- ParseSparse(file[|file| - 1024..|file| - 512]);
    Ok(footer.gdOffset)
  }

  /** Where the embedded descriptor lies; nothing when the header names none. */
  function DescriptorBytes(file: File, hdr: SparseHeader): Result<seq<byte>> {
    if hdr.descriptorOffset == 0 || hdr.descriptorSize == 0 then Ok([]) else
    var off :- OkOr(CheckedMul(hdr.descriptorOffset, SECTOR), InvalidData);
    var len := CheckedMul(hdr.descriptorSize, SECTOR);
    ExactBytes(file, off, Min(if len.Some? then len.value else MAX_DESCRIPTOR_BYTES, MAX_DESCRIPTOR_BYTES))
  }

  /** `read_descriptor`. */
  function ReadDescriptorOf(file: File, hdr: SparseHeader, decoder: TextDecoder): Result<TextDescriptor> {
    var b :- DescriptorBytes(file, hdr);
    var d := DescriptorOf(if hdr.descriptorOffset == 0 || hdr.descriptorSize == 0 then "" else Decode(b, decoder));
    if d.Err? then Err(InvalidData) else d
  }

  function OpenVmdk4(file: File, hdrBytes: seq<byte>, tools: Tools): Result<Opened> {
    var hdr :- ParseSparse(hdrBytes);
    var grain :- OkOr(CheckedMul(hdr.grainSize, SECTOR), GeometryOverflow);
    var size :- OkOr(CheckedMul(hdr.capacity, SECTOR), GeometryOverflow);
    var desc :- ReadDescriptorOf(file, hdr, tools.decoder);
    var numGts :- NumTables(hdr);
    var gdOffset :- GdOffset(file, hdr);
    var gdByte :- OkOr(CheckedMul(gdOffset, SECTOR), GeometryOverflow);
    var gdBytes :- ExactBytes(file, gdByte, 4 * numGts);
    Ok(Opened(Image(file, Sparse(LeTable32(gdBytes), grain, hdr.numGtes, hdr.compressed),
                    size, hdr.rgdOffset, numGts, tools.inflate),
              Meta(desc.createType, hdr.version, desc.cid, desc.parentCid, desc.rawText)))
  }

  // ── COWD ──────────────────────────────────────────────────────────────────

  function CowdTables(hdr: CowdHeader): nat
    requires hdr.grainSize > 0
  {
    DivCeil(DivCeil(hdr.capacity, hdr.grainSize), COWD_GTES_PER_GT)
  }

  /** The grain directory `cowd::open_cowd` loads. */
  function CowdDirectory(file: File, hdr: CowdHeader): Result<seq<u32>>
    requires hdr.grainSize > 0
  {
    var b :- ExactBytes(file, COWD_GD_SECTOR * SECTOR, 4 * CowdTables(hdr));
    Ok(LeTable32(b))
  }

  function OpenCowdImage(file: File, hdrBytes: seq<byte>, tools: Tools): Result<Opened> {
    var hdr :- ParseCowd(hdrBytes);
    var gd :- CowdDirectory(file, hdr);
    Ok(Opened(Image(file, Sparse(gd, hdr.grainSize * SECTOR, COWD_GTES_PER_GT, false),
                    hdr.capacity * SECTOR, 0, 0, tools.inflate),
              Meta("vmfsSparse", 1, NO_PARENT, NO_PARENT, "")))
  }

  // ── seSparse ──────────────────────────────────────────────────────────────

  function SeTables(hdr: SeHeader): nat
    requires hdr.grainSize > 0
  {
    var n := DivCeil(DivCeil(hdr.capacity, hdr.grainSize), SE_GTES_PER_GT);
    if n < 1 then 1 else n
  }

  function OpenSeImage(file: File, hdrBytes: seq<byte>, tools: Tools): Result<Opened> {
    var hdr :- ParseSe(hdrBytes);
    var gdLen := 8 * SeTables(hdr);
    if gdLen > MAX_GD_BYTES then Err(FieldOutOfRange) else
    var gdBytes :- ExactBytes(file, Wrap64(hdr.gdOffset * SECTOR), gdLen);
    var size :- OkOr(CheckedMul(hdr.capacity, SECTOR), GeometryOverflow);
    Ok(Opened(Image(file, SeSparse(LeTable64(gdBytes), hdr.grainSize * SECTOR, hdr.gtOffset, hdr.grainsOffset),
                    size, 0, 0, tools.inflate),
              Meta("seSparse", 0, NO_PARENT, NO_PARENT, "")))
  }

  /** `VmdkReader::open`: dispatch on the magic. */
  function OpenStream(file: File, tools: Tools): Result<Opened> {
    var hdr :- ExactBytes(file, 0, 512);
    if BeU32(hdr, 0) == COWD_MAGIC then OpenCowdImage(file, hdr, tools) else
    if LeU64(hdr, 0) == SE_CONST_MAGIC then OpenSeImage(file, hdr, tools) else
    OpenVmdk4(file, hdr, tools)
  }

  // ── every opened image is well formed ─────────────────────────────────────

  /** The directory length of a geometry covers the disk and is no longer than needed. */
  lemma DirectoryFits(capacity: nat, grainSize: nat, per: nat, g: nat)
    requires grainSize > 0 && per > 0
    ensures var n := DivCeil(DivCeil(capacity, grainSize), per);
            && (g * (grainSize * SECTOR) < capacity * SECTOR ==> g / per < n)
            && (g < n ==> g * per * (grainSize * SECTOR) < capacity * SECTOR)
  {
    hide DivCeil;
    var grains := DivCeil(capacity, grainSize);
    if g * (grainSize * SECTOR) < capacity * SECTOR {
      assert g * (grainSize * SECTOR) == g * grainSize * SECTOR;
      DivCeilBounds(capacity, grainSize, g);
      DivMod(g, per);
      DivCeilBounds(grains, per, g / per);
    }
    if g < DivCeil(grains, per) {
      DivCeilBounds(grains, per, g);
      DivCeilBounds(capacity, grainSize, g * per);
      assert g * per * (grainSize * SECTOR) == g * per * grainSize * SECTOR;
    }
  }

  lemma NumTablesIsCeil(hdr: SparseHeader)
    requires hdr.grainSize > 0 && hdr.numGtes > 0 && NumTables(hdr).Ok?
    ensures NumTables(hdr).value == DivCeil(DivCeil(hdr.capacity, hdr.grainSize), hdr.numGtes)
  {
    hide DivCeil;
    DivCeilAsFloor(hdr.capacity, hdr.grainSize);
    DivCeilAsFloor(DivCeil(hdr.capacity, hdr.grainSize), hdr.numGtes);
  }

  /** A directory of `n` tables maps at most `n * per` grains. */
  lemma CapacityBound(capacity: nat, grainSize: nat, per: nat, n: nat, maxTables: nat, maxPer: nat)
    requires grainSize > 0 && per > 0 && n == DivCeil(DivCeil(capacity, grainSize), per)
    requires n <= maxTables && per <= maxPer
    ensures capacity <= maxTables * maxPer * grainSize
  {
    DivCeilBounds(DivCeil(capacity, grainSize), per, n);
    DivCeilBounds(capacity, grainSize, n * per);
    hide DivCeil;
    MulMono(n, maxTables, per);
    MulMono(per, maxPer, maxTables);
    assert n * per <= maxTables * maxPer;
    MulMono(n * per, maxTables * maxPer, grainSize);
  }

  /** The size cap on the directory bounds the disk, so positions never leave the signed range. */
  lemma Vmdk4Size(hdr: SparseHeader)
    requires 0 < hdr.grainSize <= MAX_GRAIN_SIZE_SECTORS && 0 < hdr.numGtes <= MAX_NUM_GTES_PER_GT
    requires NumTables(hdr).Ok?
    ensures hdr.capacity * SECTOR <= 0x100_0000_0000_0000
  {
    NumTablesIsCeil(hdr);
    TablesUnderCap(hdr);
    hide NumTables, DivCeil;
    CapacityBound(hdr.capacity, hdr.grainSize, hdr.numGtes, NumTables(hdr).value, MAX_GD_BYTES / 4, MAX_NUM_GTES_PER_GT);
    GrainsUnderCap(hdr.capacity, hdr.grainSize);
  }

  lemma GrainsUnderCap(capacity: nat, grainSize: nat)
    requires capacity <= 0x8000_0000 * grainSize && grainSize <= MAX_GRAIN_SIZE_SECTORS
    ensures capacity * SECTOR <= 0x100_0000_0000_0000
  {
  }

  lemma TablesUnderCap(hdr: SparseHeader)
    requires hdr.grainSize > 0 && hdr.numGtes > 0 && NumTables(hdr).Ok?
    ensures NumTables(hdr).value <= MAX_GD_BYTES / 4
  {
  }

  lemma SeSize(hdr: SeHeader)
    requires hdr.grainSize == SE_GRAIN_SECTORS && 8 * SeTables(hdr) <= MAX_GD_BYTES
    ensures hdr.capacity * SECTOR <= 0x100_0000_0000_0000
  {
    CapacityBound(hdr.capacity, hdr.grainSize, SE_GTES_PER_GT,
                  DivCeil(DivCeil(hdr.capacity, hdr.grainSize), SE_GTES_PER_GT), MAX_GD_BYTES / 8, 4096);
  }

  lemma SparseGeometryValid(img: Image, capacity: nat, grainSize: nat)
    requires img.IsSparse() && 0 < grainSize < U32_LIMIT && 0 < img.fmt.ngte <= 4096
    requires img.size == capacity * SECTOR && img.fmt.grain == grainSize * SECTOR
    requires |img.fmt.gd| == DivCeil(DivCeil(capacity, grainSize), img.fmt.ngte)
    requires img.gdCount == |img.fmt.gd| || img.rgdOffset == 0
    requires img.size <= I64_MAX
    ensures img.Valid()
  {
    hide DivCeil;
    forall g: nat | img.GrainInDisk(g)
      ensures g / img.fmt.ngte < |img.fmt.gd|
    {
      DirectoryFits(capacity, grainSize, img.fmt.ngte, g);
    }
    forall i: nat | i < |img.fmt.gd|
      ensures img.SlotInDisk(i)
    {
      DirectoryFits(capacity, grainSize, img.fmt.ngte, i);
    }
  }

  lemma SeGeometryValid(img: Image, hdr: SeHeader)
    requires img.fmt.SeSparse? && hdr.grainSize == SE_GRAIN_SECTORS
    requires img.size == hdr.capacity * SECTOR && img.fmt.grain == hdr.grainSize * SECTOR
    requires |img.fmt.seGd| == SeTables(hdr) && img.size <= I64_MAX
    ensures img.Valid()
  {
    hide DivCeil;
    forall g: nat | img.GrainInDisk(g)
      ensures g / SE_GTES_PER_GT < |img.fmt.seGd|
    {
      DirectoryFits(hdr.capacity, hdr.grainSize, SE_GTES_PER_GT, g);
    }
  }

  lemma Vmdk4Valid(file: File, hdrBytes: seq<byte>, tools: Tools)
    requires OpenVmdk4(file, hdrBytes, tools).Ok?
    ensures OpenVmdk4(file, hdrBytes, tools).value.img.Valid()
    ensures OpenVmdk4(file, hdrBytes, tools).value.img.IsSparse()
  {
    hide ParseSparse, ReadDescriptorOf, NumTables, GdOffset, DivCeil, LeTable32, Image.Valid;
    var hdr := ParseSparse(hdrBytes).value;
    NumTablesIsCeil(hdr);
    Vmdk4Size(hdr);
    SparseGeometryValid(OpenVmdk4(file, hdrBytes, tools).value.img, hdr.capacity, hdr.grainSize);
  }

  lemma CowdValid(file: File, hdrBytes: seq<byte>, tools: Tools)
    requires OpenCowdImage(file, hdrBytes, tools).Ok?
    ensures OpenCowdImage(file, hdrBytes, tools).value.img.Valid()
  {
    hide ParseCowd, DivCeil, LeTable32, Image.Valid;
    var hdr := ParseCowd(hdrBytes).value;
    SparseGeometryValid(OpenCowdImage(file, hdrBytes, tools).value.img, hdr.capacity, hdr.grainSize);
  }

  lemma SeValid(file: File, hdrBytes: seq<byte>, tools: Tools)
    requires OpenSeImage(file, hdrBytes, tools).Ok?
    ensures OpenSeImage(file, hdrBytes, tools).value.img.Valid()
  {
    hide ParseSe, SeTables, LeTable64, Image.Valid;
    SeSize(ParseSe(hdrBytes).value);
    SeGeometryValid(OpenSeImage(file, hdrBytes, tools).value.img, ParseSe(hdrBytes).value);
  }

  /**
   Every opened image is well formed: each in-range offset has a directory slot, so the lookup
   never falls back on the absent-entry default, and each slot maps in-range offsets.
   */
  lemma OpenedIsValid(file: File, tools: Tools)
    requires OpenStream(file, tools).Ok?
    ensures OpenStream(file, tools).value.img.Valid()
    ensures OpenStream(file, tools).value.img.file == file
    ensures !OpenStream(file, tools).value.img.fmt.Flat?
  {
    hide OpenVmdk4, OpenCowdImage, OpenSeImage, Image.Valid;
    var hdr := ExactBytes(file, 0, 512).value;
    if BeU32(hdr, 0) == COWD_MAGIC {
      CowdValid(file, hdr, tools);
      OpenedFile(file, hdr, tools);
    } else if LeU64(hdr, 0) == SE_CONST_MAGIC {
      SeValid(file, hdr, tools);
      OpenedFile(file, hdr, tools);
    } else {
      Vmdk4Valid(file, hdr, tools);
      OpenedFile(file, hdr, tools);
    }
  }

  lemma OpenedFile(file: File, hdr: seq<byte>, tools: Tools)
    ensures var o := OpenVmdk4(file, hdr, tools); o.Ok? ==> o.value.img.file == file && o.value.img.fmt.Sparse?
    ensures var o := OpenCowdImage(file, hdr, tools); o.Ok? ==> o.value.img.file == file && o.value.img.fmt.Sparse?
    ensures var o := OpenSeImage(file, hdr, tools); o.Ok? ==> o.value.img.file == file && o.value.img.fmt.SeSparse?
  {
    hide ParseSparse, ReadDescriptorOf, NumTables, GdOffset, ParseCowd, ParseSe;
  }

  // ── the opening method ────────────────────────────────────────────────────

  /** `read_descriptor`. */
  method ReadDescriptor(src: Source, hdr: SparseHeader, decoder: TextDecoder) returns (r: Result<TextDescriptor>)
    modifies src
    ensures r == ReadDescriptorOf(src.data, hdr, decoder)
  {
    hide DescriptorOf, Decode;
    if hdr.descriptorOffset == 0 || hdr.descriptorSize == 0 {
      var empty := ParseTextDescriptor("");
      return if empty.Err? then Err(InvalidData) else empty;
    }
    var byteOffset :- OkOr(CheckedMul(hdr.descriptorOffset, SECTOR), InvalidData);
    var checked := CheckedMul(hdr.descriptorSize, SECTOR);
    var byteLen := Min(if checked.Some? then checked.value else MAX_DESCRIPTOR_BYTES, MAX_DESCRIPTOR_BYTES);
    var buf :- src.ReadExactAt(byteOffset, byteLen);
    var desc := ParseTextDescriptor(Decode(buf, decoder));
    return if desc.Err? then Err(InvalidData) else desc;
  }

  /** The footer lookup of a streamed image, or the header's own offset. */
  method ReadGdOffset(src: Source, hdr: SparseHeader) returns (r: Result<u64>)
    modifies src
    ensures r == GdOffset(src.data, hdr)
  {
    hide ParseSparse;
    if hdr.gdOffset == GD_AT_END {
      var at :- src.SeekBack(1024);
      var footer := src.ReadExactHere(512);
      var parsed :- ParseSparse(footer.value);
      return Ok(parsed.gdOffset);
    }
    return Ok(hdr.gdOffset);
  }

  /** The VMDK4 branch of `open`. */
  method OpenSparse(src: Source, hdrBytes: seq<byte>, tools: Tools) returns (r: Result<Opened>)
    modifies src
    ensures r == OpenVmdk4(src.data, hdrBytes, tools)
  {
    hide ParseSparse, ReadDescriptorOf, GdOffset, LeTable32;
    var hdr :- ParseSparse(hdrBytes);
    var grain :- OkOr(CheckedMul(hdr.grainSize, SECTOR), GeometryOverflow);
    var size :- OkOr(CheckedMul(hdr.capacity, SECTOR), GeometryOverflow);
    var desc :- ReadDescriptor(src, hdr, tools.decoder);
    var numGts :- NumTables(hdr);
    var gdOffset :- ReadGdOffset(src, hdr);
    var gdByte :- OkOr(CheckedMul(gdOffset, SECTOR), GeometryOverflow);
    var gdBytes :- src.ReadExactAt(gdByte, 4 * numGts);
    return Ok(Opened(Image(src.data, Sparse(LeTable32(gdBytes), grain, hdr.numGtes, hdr.compressed),
                           size, hdr.rgdOffset, numGts, tools.inflate),
                     Meta(desc.createType, hdr.version, desc.cid, desc.parentCid, desc.rawText)));
  }

  /** `open_cowd`. */
  method OpenCowd(src: Source, hdrBytes: seq<byte>, tools: Tools) returns (r: Result<Opened>)
    modifies src
    ensures r == OpenCowdImage(src.data, hdrBytes, tools)
  {
    hide ParseCowd, CowdTables, LeTable32;
    var hdr :- ParseCowd(hdrBytes);
    var b :- src.ReadExactAt(COWD_GD_SECTOR * SECTOR, 4 * CowdTables(hdr));
    return Ok(Opened(Image(src.data, Sparse(LeTable32(b), hdr.grainSize * SECTOR, COWD_GTES_PER_GT, false),
                           hdr.capacity * SECTOR, 0, 0, tools.inflate),
                     Meta("vmfsSparse", 1, NO_PARENT, NO_PARENT, "")));
  }

  /** `open_sesparse`. */
  method OpenSe(src: Source, hdrBytes: seq<byte>, tools: Tools) returns (r: Result<Opened>)
    modifies src
    ensures r == OpenSeImage(src.data, hdrBytes, tools)
  {
    hide ParseSe, SeTables, LeTable64;
    var hdr :- ParseSe(hdrBytes);
    var gdLen := 8 * SeTables(hdr);
    if gdLen > MAX_GD_BYTES {
      return Err(FieldOutOfRange);
    }
    var b :- src.ReadExactAt(Wrap64(hdr.gdOffset * SECTOR), gdLen);
    var size :- OkOr(CheckedMul(hdr.capacity, SECTOR), GeometryOverflow);
    return Ok(Opened(Image(src.data, SeSparse(LeTable64(b), hdr.grainSize * SECTOR, hdr.gtOffset, hdr.grainsOffset),
                           size, 0, 0, tools.inflate),
                     Meta("seSparse", 0, NO_PARENT, NO_PARENT, "")));
  }

  /** `VmdkReader::open` on a freshly opened stream. */
  method Open(src: Source, tools: Tools) returns (r: Result<VmdkReader>)
    requires src.cursor == 0
    modifies src
    ensures r.Ok? <==> OpenStream(src.data, tools).Ok?
    ensures r.Err? ==> r.error == OpenStream(src.data, tools).error
    ensures r.Ok? ==>
              && fresh(r.value) && r.value.Valid()
              && r.value.inner == src
              && r.value.img == OpenStream(src.data, tools).value.img
              && r.value.meta == OpenStream(src.data, tools).value.meta
              && r.value.pos == 0 && r.value.gtCache == map[]
              && !r.value.rgdFallback && r.value.rgdRecoveryCount == 0
  {
    hide OpenVmdk4, OpenCowdImage, OpenSeImage, Image.Valid;
    var hdr :- src.ReadExactHere(512);
    var outcome: Result<Opened>;
    if BeU32(hdr, 0) == COWD_MAGIC {
      outcome := OpenCowd(src, hdr, tools);
    } else if LeU64(hdr, 0) == SE_CONST_MAGIC {
      outcome := OpenSe(src, hdr, tools);
    } else {
      outcome := OpenSparse(src, hdr, tools);
    }
    assert outcome == OpenStream(src.data, tools);
    var o :- outcome;
    OpenedIsValid(src.data, tools);
    var reader := new VmdkReader(src, o.img, o.meta);
    return Ok(reader);
  }
}
