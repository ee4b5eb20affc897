/** Extent headers of the three sparse formats (core/src/header.rs, cowd.rs, sesparse.rs). */
module Headers {
  import opened Wrappers
  import opened Arith
  import opened Bytes

  const MAGIC := 0x564D_444B
  const GD_AT_END: u64 := 0xffff_ffff_ffff_ffff
  const MAX_NUM_GTES_PER_GT := 512
  const MAX_GRAIN_SIZE_SECTORS := 0x10000

  /** Virtual Disk Format 1.1, section 4.1: the fields that drive addressing, in sectors. */
  datatype SparseHeader = SparseHeader(
    version: u32,
    capacity: u64,
    grainSize: u64,
    descriptorOffset: u64,
    descriptorSize: u64,
    numGtes: u32,
    rgdOffset: u64,
    gdOffset: u64,
    compressed: bool)

  /** `SparseExtentHeader::parse`. */
  function ParseSparse(d: seq<byte>): (r: Result<SparseHeader>)
    ensures r.Ok? ==>
              && 8 <= r.value.grainSize <= MAX_GRAIN_SIZE_SECTORS
              && 1 <= r.value.numGtes <= MAX_NUM_GTES_PER_GT
              && (r.value.compressed <==> r.value.version == 3)
              && |d| >= 512 && LeU32(d, 0) == MAGIC
  {
    if |d| < 512 then Err(FileTooSmall) else
    if LeU32(d, 0) != MAGIC then Err(BadMagic) else
    var version := LeU32(d, 4);
    if version != 1 && version != 2 && version != 3 then Err(UnsupportedVersion) else
    var grainSize := LeU64(d, 20);
    var numGtes := LeU32(d, 44);
    var algorithm := LeU16(d, 77);
    if !(((version == 1 || version == 2) && algorithm == 0) || (version == 3 && algorithm == 1))
    then Err(CompressedNotSupported) else
    if grainSize < 8 then Err(FieldOutOfRange) else
    if grainSize > MAX_GRAIN_SIZE_SECTORS then Err(FieldOutOfRange) else
    if numGtes == 0 then Err(FieldOutOfRange) else
    if numGtes > MAX_NUM_GTES_PER_GT then Err(FieldOutOfRange) else
    Ok(SparseHeader(version, LeU64(d, 12), grainSize, LeU64(d, 28), LeU64(d, 36), numGtes,
                    LeU64(d, 48), LeU64(d, 56), algorithm != 0))
  }

  // ── COWD (vmfsSparse / vmfsThin) ──────────────────────────────────────────

  const COWD_MAGIC := 0x434F_5744
  const COWD_GD_SECTOR := 4
  const COWD_GTES_PER_GT := 4096

  datatype CowdHeader = CowdHeader(capacity: u32, grainSize: u32)

  /** `CowdHeader::parse`. */
  function ParseCowd(d: seq<byte>): (r: Result<CowdHeader>)
    ensures r.Ok? ==> r.value.grainSize > 0
  {
    if |d| < 32 then Err(FileTooSmall) else
    if BeU32(d, 0) != COWD_MAGIC then Err(BadMagic) else
    if LeU32(d, 4) != 1 then Err(UnsupportedVersion) else
    if LeU32(d, 16) == 0 then Err(FieldOutOfRange) else
    Ok(CowdHeader(LeU32(d, 12), LeU32(d, 16)))
  }

  // ── seSparse ──────────────────────────────────────────────────────────────

  const SE_CONST_MAGIC := 0xCAFE_BABE
  const SE_VERSION := 0x0000_0002_0000_0001
  const SE_GRAIN_SECTORS := 8
  const SE_GT_SECTORS := 64
  const SE_GTES_PER_GT := 4096

  datatype SeHeader = SeHeader(capacity: u64, grainSize: u64, gdOffset: u64, gtOffset: u64, grainsOffset: u64)

  /** `SeConstHeader::parse`. */
  function ParseSe(d: seq<byte>): (r: Result<SeHeader>)
    ensures r.Ok? ==> r.value.grainSize == SE_GRAIN_SECTORS
  {
    if |d| < 208 then Err(FileTooSmall) else
    if LeU64(d, 0) != SE_CONST_MAGIC then Err(BadMagic) else
    if LeU64(d, 8) != SE_VERSION then Err(UnsupportedVersion) else
    if LeU64(d, 24) != SE_GRAIN_SECTORS then Err(FieldOutOfRange) else
    if LeU64(d, 32) != SE_GT_SECTORS then Err(FieldOutOfRange) else
    Ok(SeHeader(LeU64(d, 16), LeU64(d, 24), LeU64(d, 128), LeU64(d, 144), LeU64(d, 192)))
  }
}
