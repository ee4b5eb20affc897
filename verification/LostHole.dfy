/**
 The damage that fallback does not undo: a one-grain disk whose only directory slot is a hole,
 validated by the audit, becomes unreadable once that slot points past the end of the file.
 */
module LostHoles {
  import opened Wrappers
  import opened Arith
  import opened Bytes
  import opened Headers
  import opened Images
  import opened Opening
  import opened Recovery
  import opened Forensics
  import opened Audits
  import opened DamagedFiles
  import opened Builders

  /** One grain, the redundant directory in sector 1, the primary one in sector 2. */
  const HOLE_HEADER := SparseHeader(1, 8, 8, 0, 0, 512, 1, 2, false)

  /** A file whose redundant slot is a hole and whose primary slot holds `p`. */
  function HoleFile(p: u32): (f: File)
    ensures |f| == 3 * SECTOR
  {
    EncodeHeader(HOLE_HEADER, 3) + Zeros(SECTOR) + Padded(LeBytes32(p), SECTOR)
  }

  function HoleImage(p: u32, tools: Tools): Image {
    Image(HoleFile(p), Sparse([p], GRAIN_BYTES, 512, false), GRAIN_BYTES, 1, 1, tools.inflate)
  }

  lemma HoleRegions(p: u32)
    ensures var f := HoleFile(p);
            && f[..512] == EncodeHeader(HOLE_HEADER, 3) && f[512..1024] == Zeros(SECTOR)
            && LeU32(f, 512) == 0 && LeTable32(f[1024..1028]) == [p]
  {
    hide EncodeHeader, LeBytes32;
    var f := HoleFile(p);
    assert f[512..1024] == Zeros(SECTOR);
    assert f[512] == f[512..1024][0] && f[513] == f[512..1024][1] && f[514] == f[512..1024][2] && f[515] == f[512..1024][3];
    assert f[1024..1028] == LeBytes32(p);
    Le32RoundTrip(p);
  }

  lemma HoleOpens(p: u32, tools: Tools)
    ensures OpenStream(HoleFile(p), tools).Ok? && OpenStream(HoleFile(p), tools).value.img == HoleImage(p, tools)
    ensures IsVmdk4(HoleFile(p)) && HoleImage(p, tools).Valid()
  {
    hide HoleFile, EncodeHeader, LeU32, LeTable32, ParseSparse;
    var f := HoleFile(p);
    HoleRegions(p);
    ParseEncoded(HOLE_HEADER, 3);
    LeU32Slice(f, 0, 512, 0);
    NoDescriptor(f, HOLE_HEADER, tools.decoder);
    EncodedHasFields(HOLE_HEADER, 3);
    HeaderOpens(f, HOLE_HEADER, 1, tools);
    OpenedIsValid(f, tools);
  }

  lemma HolesAgree(p: u32, tools: Tools)
    ensures RgdEntry(HoleImage(p, tools), 0) == 0
    ensures RgdInFile(HoleImage(p, tools))
    ensures p == 0 ==> RgdValid(HoleImage(p, tools))
  {
    hide HoleFile, LeU32;
    HoleRegions(p);
    assert p == 0 ==> SlotAgrees(HoleImage(p, tools), 0);
  }

  /** The redundant directory is the same and names nothing that could be damaged. */
  lemma HoleCopy(p: u32, tools: Tools)
    ensures CopyUntouched(HoleImage(0, tools), HoleImage(p, tools))
  {
    hide HoleFile, LeU32, TableEntry;
    var u, d := HoleImage(0, tools), HoleImage(p, tools);
    HolesAgree(0, tools);
    HoleRegions(0);
    HoleRegions(p);
    assert Window(u.file, 512, 4) == u.file[512..1024][..4] && Window(d.file, 512, 4) == d.file[512..1024][..4];
    assert forall j: nat :: j < 512 ==> RgdGte(u, 0, j) == 0;
  }

  /** Only the primary slot differs. */
  lemma HoleDamaged(p: u32, tools: Tools)
    requires p != 0
    ensures Damaged(HoleImage(0, tools), HoleImage(p, tools))
    ensures !NoDanglingHole(HoleImage(p, tools))
  {
    hide HoleFile, LeU32, TableEntry, CopyUntouched, RgdEntry;
    var u, d := HoleImage(0, tools), HoleImage(p, tools);
    HolesAgree(p, tools);
    HoleCopy(p, tools);
    assert PointerLoss(u, d, 0) && EntryLoss(u, d, 0);
    assert Primary(d, 0) != 0;
  }

  lemma HoleFrame(p: u32)
    requires IsVmdk4(HoleFile(0))
    ensures FrameUntouched(HoleFile(0), HoleFile(p))
  {
    hide HoleFile, EncodeHeader, ParseSparse;
    HoleRegions(0);
    HoleRegions(p);
    ParseEncoded(HOLE_HEADER, 3);
  }

  lemma HoleReads(tools: Tools)
    requires HoleImage(0, tools).Valid()
    ensures Slice(HoleImage(0, tools), false, 0) == Ok(Zeros(GRAIN_BYTES))
  {
    hide HoleFile;
    assert Lookup(HoleImage(0, tools), false, 0) == Ok(Hole);
  }

  /**
   The exception is real, for every pointer the hole can be overwritten with: both files open,
   the original validates, only its primary slot is lost, and the read fails.
   */
  lemma HoleDamageIsNotRecovered(p: u32, tools: Tools)
    requires p != 0
    ensures IsVmdk4(HoleFile(0)) && FrameUntouched(HoleFile(0), HoleFile(p)) && ValidatesRgd(HoleFile(0))
    ensures OpenStream(HoleFile(0), tools).Ok? && OpenStream(HoleFile(p), tools).Ok?
    ensures var u, d := OpenStream(HoleFile(0), tools).value.img, OpenStream(HoleFile(p), tools).value.img;
            && Damaged(u, d) && u.Valid() && d.Valid()
            && Slice(u, false, 0) == Ok(Zeros(GRAIN_BYTES)) && Slice(d, true, 0) == Err(UnexpectedEof)
  {
    hide OpenStream, HoleFile, RgdValid, Damaged, NoDanglingHole, Slice, Image.Valid, ValidatesRgd, FrameUntouched, LayoutOf;
    HoleOpens(0, tools);
    HoleOpens(p, tools);
    HoleFrame(p);
    HolesAgree(0, tools);
    HolesAgree(p, tools);
    NonEmptyHasLayout(HoleFile(0), tools);
    ValidateIsRgdValid(HoleFile(0), tools);
    HoleDamaged(p, tools);
    HoleReads(tools);
    LostHoleFails(HoleImage(0, tools), HoleImage(p, tools), 0);
  }
}
