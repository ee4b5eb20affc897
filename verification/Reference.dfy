/**
 The three formats written down once more, in plain arithmetic on the bytes of the file: which
 byte a virtual offset stands for, and which error meets a reader on the way to it. The reader's
 abstract disk is proved equal to it.
 */
module References {
  import opened Wrappers
  import opened Arith
  import opened Bytes
  import opened Images
  import opened Scans
  import opened SeSparseAudits

  /** A byte, nothing where the bytes run out, or the error of the access that fails. */
  type Outcome = Result<Option<byte>>

  /** What the first byte of a read is. */
  function FirstByte(s: Result<seq<byte>>): Outcome {
    if s.Err? then Err(s.error) else if s.value == [] then Ok(None) else Ok(Some(s.value[0]))
  }

  function Element(s: seq<byte>, at: nat): Outcome {
    Ok(if at < |s| then Some(s[at]) else None)
  }

  // ── VMDK4 and COWD ────────────────────────────────────────────────────────

  /** Entry `j` of the table of `n` entries at sector `ptr`, if the whole table is there. */
  function TableWord(file: File, ptr: u32, n: nat, j: nat): Option<u32>
    requires j < n
  {
    if ptr == 0 || 512 * ptr + 4 * n > |file| then None else Some(LeU32(file, 512 * ptr + 4 * j))
  }

  /** Word `i` of the redundant directory, 0 where there is none. */
  function RedundantPointer(img: Image, i: nat): u32 {
    if img.rgdOffset == 0 || img.rgdOffset == 0xffff_ffff_ffff_ffff || i >= img.gdCount then 0 else
    if 512 * img.rgdOffset + 4 * i + 4 > |img.file| then 0 else LeU32(img.file, 512 * img.rgdOffset + 4 * i)
  }

  /** The sector entry `j` of slot `i` names, 0 for a hole: the primary's if it names one, else the copy's. */
  function StoredSector(img: Image, fb: bool, i: nat, j: nat): Result<u32>
    requires img.IsSparse() && i < |img.fmt.gd| && j < img.fmt.ngte
  {
    var primary := TableWord(img.file, img.fmt.gd[i], img.fmt.ngte, j);
    var copy := if fb then TableWord(img.file, RedundantPointer(img, i), img.fmt.ngte, j) else None;
    if primary.Some? && primary.value > 1 then Ok(primary.value)
    else if copy.Some? && copy.value > 1 then Ok(copy.value)
    else if primary.None? && copy.None? && img.fmt.gd[i] != 0 then Err(UnexpectedEof)
    else Ok(0)
  }

  /** Byte `r` of the grain compressed at sector `gte`: a 12-byte marker, its payload, at most a grain of output. */
  function PackedByte(img: Image, gte: u32, r: nat): Outcome
    requires img.IsSparse()
  {
    var marker := 512 * gte;
    if marker + 12 > |img.file| then Err(UnexpectedEof) else
    var n := LeU32(img.file, marker + 8);
    if n > img.fmt.grain + 65536 then Err(InvalidData) else
    if n > 0 && marker + 12 + n > |img.file| then Err(UnexpectedEof) else
    var d :- img.inflate(if n == 0 then [] else img.file[marker + 12..marker + 12 + n], img.fmt.grain + 1);
    if |d| > img.fmt.grain then Err(InvalidData) else Element(d, r)
  }

  /** Byte `r` of the grain that entry `j` of slot `i` names. */
  function GrainByte(img: Image, fb: bool, i: nat, j: nat, r: nat): Outcome
    requires img.IsSparse() && i < |img.fmt.gd| && j < img.fmt.ngte
  {
    var gte :- StoredSector(img, fb, i, j);
    if gte == 0 then Ok(Some(0)) else
    if img.fmt.compressed then PackedByte(img, gte, r) else Element(img.file, 512 * gte + r)
  }

  function SparseByte(img: Image, fb: bool, off: nat): Outcome
    requires img.IsSparse() && img.fmt.grain > 0 && img.fmt.ngte > 0
  {
    var g := off / img.fmt.grain;
    var i, j := g / img.fmt.ngte, g % img.fmt.ngte;
    if i < |img.fmt.gd| then GrainByte(img, fb, i, j, off % img.fmt.grain) else Ok(Some(0))
  }

  // ── seSparse ──────────────────────────────────────────────────────────────

  /** Grain-table entry `j` under directory entry `e`; 0 when the directory entry is 0. */
  function SeWord(img: Image, e: u64, j: nat): Result<u64>
    requires img.fmt.SeSparse?
  {
    if e == 0 then Ok(0) else
    if e / 0x1_0000_0000 != 0x1000_0000 then Err(InvalidData) else
    var at := (512 * (img.fmt.gtOffset + 64 * (e % 0x1_0000_0000)) + 8 * j) % 0x1_0000_0000_0000_0000;
    if at + 8 > |img.file| then Err(UnexpectedEof) else Ok(LeU64(img.file, at))
  }

  /** Byte `r` of the 8-sector grain an entry names by its rotated index. */
  function SeEntryByte(img: Image, gte: u64, r: nat): Outcome
    requires img.fmt.SeSparse?
  {
    var kind := gte / 0x1000_0000_0000_0000;
    if gte == 0 || kind == 1 || kind == 2 then Ok(Some(0)) else
    if kind != 3 then Err(InvalidData) else
    var index := gte / 0x1_0000_0000_0000 % 4096 + gte % 0x1_0000_0000_0000 * 4096;
    Element(img.file, (512 * (img.fmt.grainsOffset + 8 * index) + r) % 0x1_0000_0000_0000_0000)
  }

  function SeByte(img: Image, off: nat): Outcome
    requires img.fmt.SeSparse?
  {
    var g := off / 4096;
    var e := if g / 4096 < |img.fmt.seGd| then img.fmt.seGd[g / 4096] else 0;
    var gte :- SeWord(img, e, g % 4096);
    SeEntryByte(img, gte, off % 4096)
  }

  /** The byte at `off`, in every format; nothing from the end of the disk on. */
  function ReferenceByte(img: Image, fb: bool, off: nat): Outcome
    requires img.Valid()
  {
    if off >= img.size then Ok(None) else
    match img.fmt
    case Flat => Element(img.file, off)
    case SeSparse(_, _, _, _) => SeByte(img, off)
    case Sparse(_, _, _, _) => SparseByte(img, fb, off)
  }

  // ── the reader reads it ───────────────────────────────────────────────────

  lemma EntryIsWord(img: Image, fb: bool, i: nat, j: nat)
    requires img.IsSparse() && i < |img.fmt.gd| && j < img.fmt.ngte
    ensures var e, w := SlotEntry(img, fb, i, j), StoredSector(img, fb, i, j);
            && (e.Err? <==> w.Err?) && (e.Err? ==> e.error == w.error)
            && (e.Ok? ==> if e.value.gte <= 1 then w.value == 0 else w.value == e.value.gte > 1)
  {
    hide RgdEntry;
    assert RgdEntry(img, i) == RedundantPointer(img, i) by { PointerIsEntry(img, i); }
    hide RedundantPointer;
  }

  lemma PointerIsEntry(img: Image, i: nat)
    ensures RgdEntry(img, i) == RedundantPointer(img, i)
  {
  }

  lemma FetchedByte(img: Image, loc: Loc, n: nat)
    requires (loc.Packed? ==> img.IsSparse()) && n > 0
    ensures FirstByte(Fetch(img, loc, n)) ==
            match loc
            case Hole => Ok(Some(0))
            case At(o) => Element(img.file, o)
            case Packed(o, size, r) =>
              var d := Unpack(img, o, size);
              if d.Err? then Err(d.error) else Element(d.value, r)
  {
    hide Unpack;
  }

  lemma UnpackedIs(img: Image, at: nat, n: nat)
    requires img.IsSparse()
    ensures var d := img.inflate(if n == 0 || at >= |img.file| then [] else img.file[at..Min(at + n, |img.file|)], img.fmt.grain + 1);
            Unpack(img, at, n) ==
            if n > 0 && at + n > |img.file| then Err(UnexpectedEof)
            else if d.Err? then Err(d.error)
            else if |d.value| > img.fmt.grain then Err(InvalidData) else Ok(d.value)
  {
    assert n == 0 ==> Window(img.file, at, n) == [];
  }

  lemma LocatedByte(img: Image, gte: u32, r: nat, n: nat)
    requires img.IsSparse() && img.fmt.grain < U32_LIMIT * SECTOR && n > 0
    ensures var loc := Locate(img, gte, r);
            FirstByte(if loc.Err? then Err(loc.error) else Fetch(img, loc.value, n)) ==
            if gte <= 1 then Ok(Some(0))
            else if img.fmt.compressed then PackedByte(img, gte, r) else Element(img.file, 512 * gte + r)
  {
    hide Fetch, Unpack, LeU32, Element;
    var loc := Locate(img, gte, r);
    if loc.Ok? {
      FetchedByte(img, loc.value, n);
      if gte > 1 && img.fmt.compressed {
        UnpackedIs(img, 512 * gte + 12, LeU32(img.file, 512 * gte + 8));
      }
    }
  }

  lemma GrainReads(img: Image, fb: bool, i: nat, j: nat, r: nat, n: nat)
    requires img.IsSparse() && img.fmt.grain < U32_LIMIT * SECTOR && i < |img.fmt.gd| && j < img.fmt.ngte && n > 0
    ensures var e := SlotEntry(img, fb, i, j);
            var loc := if e.Err? then Err(e.error) else Locate(img, e.value.gte, r);
            FirstByte(if loc.Err? then Err(loc.error) else Fetch(img, loc.value, n)) == GrainByte(img, fb, i, j, r)
  {
    hide SlotEntry, StoredSector, Locate, Fetch, Element, PackedByte;
    EntryIsWord(img, fb, i, j);
    var e := SlotEntry(img, fb, i, j);
    if e.Ok? {
      LocatedByte(img, e.value.gte, r, n);
    }
  }

  lemma SparseReads(img: Image, fb: bool, off: nat)
    requires img.Valid() && img.IsSparse() && off < img.size
    ensures img.fmt.grain > 0 && img.fmt.ngte > 0
    ensures FirstByte(Slice(img, fb, off)) == SparseByte(img, fb, off)
  {
    hide SlotEntry, Locate, Fetch, FirstByte, GrainByte, Image.Valid;
    Shape(img);
    SlotInRange(img, off);
    ReachPositive(img, off);
    var g := GrainIdx(img, off);
    GrainReads(img, fb, SlotIdx(img, g), EntryIdx(img, g), InGrain(img, off), Reach(img, off));
  }

  lemma SeEntryIsWord(img: Image, e: u64, j: nat)
    requires img.fmt.SeSparse?
    ensures var slot, w := SeSlotGte(img, e, j), SeWord(img, e, j);
            && (slot.Err? <==> w.Err?) && (slot.Err? ==> slot.error == w.error)
            && (slot.Ok? ==> w.value == if slot.value.Some? then slot.value.value else 0)
  {
    hide LeU64, Wrap64;
    assert SeTableByte(img, e) + j * 8 == 512 * (img.fmt.gtOffset + 64 * (e % 0x1_0000_0000)) + 8 * j;
    WrapIs(SeTableByte(img, e) + j * 8);
  }

  lemma WrapIs(a: nat)
    ensures Wrap64(a) == a % 0x1_0000_0000_0000_0000
  {
  }

  lemma SeEntryReads(img: Image, gte: u64, r: nat, n: nat)
    requires img.fmt.SeSparse? && n > 0
    ensures var kind := SeType(gte);
            SeEntryByte(img, gte, r) ==
            if gte == 0 || kind == SE_UNMAPPED || kind == SE_ZERO then Ok(Some(0))
            else if kind == SE_ALLOCATED then FirstByte(Fetch(img, At(Wrap64(SeGrainByte(img, gte) + r)), n))
            else Err(InvalidData)
  {
    hide Element, Fetch, FirstByte, Wrap64;
    FetchedByte(img, At(Wrap64(SeGrainByte(img, gte) + r)), n);
    WrapIs(SeGrainByte(img, gte) + r);
    GrainAddress(img, gte, r);
  }

  lemma GrainAddress(img: Image, gte: u64, r: nat)
    requires img.fmt.SeSparse?
    ensures var index := gte / 0x1_0000_0000_0000 % 4096 + gte % 0x1_0000_0000_0000 * 4096;
            SeGrainByte(img, gte) + r == 512 * (img.fmt.grainsOffset + 8 * index) + r
  {
  }

  lemma SeReads(img: Image, fb: bool, off: nat)
    requires img.Valid() && img.fmt.SeSparse? && off < img.size
    ensures FirstByte(Slice(img, fb, off)) == SeByte(img, off)
  {
    hide SeSlotGte, SeWord, SeEntryByte, Fetch, SeGrainByte, SeType, Wrap64;
    ReachPositive(img, off);
    hide Reach;
    var g := off / 4096;
    assert img.fmt.grain == 4096 && GrainIdx(img, off) == g && InGrain(img, off) == off % 4096;
    var e := SePrimary(img, g / 4096);
    SeEntryIsWord(img, e, g % 4096);
    var slot := SeSlotGte(img, e, g % 4096);
    HoleIs(img, Reach(img, off));
    if slot.Ok? && slot.value.Some? {
      SeEntryReads(img, slot.value.value, off % 4096, Reach(img, off));
    } else if slot.Ok? {
      SeEntryReads(img, 0, off % 4096, Reach(img, off));
    }
  }

  lemma HoleIs(img: Image, n: nat)
    requires n > 0
    ensures FirstByte(Fetch(img, Hole, n)) == Ok(Some(0))
  {
  }

  /** `s` is the reference bytes from `off` on. */
  ghost predicate AllReference(img: Image, fb: bool, off: nat, s: seq<byte>)
    requires img.Valid()
  {
    forall k: nat :: k < |s| ==> ReferenceByte(img, fb, off + k) == Ok(Some(s[k]))
  }

  /**
   Every read anywhere in every format, healthy or not and in either mode, starts with the byte the
   format's reference arithmetic gives, runs dry where that runs off the file, and fails where
   that fails with the same error; and every further byte of it is the reference byte there.
   */
  lemma ReadsReference(img: Image, fb: bool, off: nat)
    requires img.Valid()
    ensures FirstByte(Slice(img, fb, off)) == ReferenceByte(img, fb, off)
    ensures Slice(img, fb, off).Ok? ==> AllReference(img, fb, off, Slice(img, fb, off).value)
  {
    hide Slice, FirstByte, ReferenceByte, Image.Valid;
    FirstIsReference(img, fb, off);
    if Slice(img, fb, off).Ok? {
      var s := Slice(img, fb, off).value;
      forall k: nat | k < |s|
        ensures ReferenceByte(img, fb, off + k) == Ok(Some(s[k]))
      {
        SliceShift(img, fb, off, k);
        FirstIsReference(img, fb, off + k);
        FirstOf(s[k..]);
      }
    }
  }

  lemma FirstIsReference(img: Image, fb: bool, off: nat)
    requires img.Valid()
    ensures FirstByte(Slice(img, fb, off)) == ReferenceByte(img, fb, off)
  {
    hide SeByte, SparseByte, Lookup, Fetch;
    if off < img.size && img.fmt.SeSparse? {
      SeReads(img, fb, off);
    } else if off < img.size && img.IsSparse() {
      SparseReads(img, fb, off);
    }
  }

  lemma FirstOf(s: seq<byte>)
    requires s != []
    ensures FirstByte(Ok(s)) == Ok(Some(s[0]))
  {
  }

  /** The same for the disk: on a sound image it is the reference bytes. */
  lemma DiskIsReference(img: Image, fb: bool)
    requires img.Valid() && Sound(img, fb)
    ensures forall off: nat :: off < img.size ==> ReferenceByte(img, fb, off) == Ok(Some(Disk(img, fb)[off]))
  {
    hide Slice, ReferenceByte, Image.Valid;
    forall off: nat | off < img.size
      ensures ReferenceByte(img, fb, off) == Ok(Some(Disk(img, fb)[off]))
    {
      FirstIsReference(img, fb, off);
      assert ByteAt(img, fb, off).Some?;
    }
  }

  // ── two kinds of grain, in particular ─────────────────────────────────────

  /**
   A compressed grain reads as what its payload decodes to: with the marker and the payload in the
   file and at most a grain of output, the byte at `off` is the decoded byte there.
   */
  lemma PackedReads(img: Image, fb: bool, off: nat, gte: u32, n: nat, d: seq<byte>)
    requires img.Valid() && img.IsSparse() && img.fmt.compressed && off < img.size && gte > 1
    requires EntryAt(img, fb, GrainIdx(img, off)).Ok? && EntryAt(img, fb, GrainIdx(img, off)).value.gte == gte
    requires gte * SECTOR + 12 + n <= |img.file| && LeU32(img.file, gte * SECTOR + 8) == n <= img.fmt.grain + 65536
    requires img.inflate(img.file[gte * SECTOR + 12..gte * SECTOR + 12 + n], img.fmt.grain + 1) == Ok(d) && |d| <= img.fmt.grain
    ensures InGrain(img, off) < |d| ==> ByteAt(img, fb, off) == Some(d[InGrain(img, off)])
  {
    hide EntryAt, Image.Valid, Locate, Fetch, LeU32, GrainIdx, InGrain, Reach;
    Shape(img);
    ReachPositive(img, off);
    LocatedByte(img, gte, InGrain(img, off), Reach(img, off));
    assert n == 0 ==> img.file[gte * SECTOR + 12..gte * SECTOR + 12 + n] == [];
  }

  /** A seSparse entry that names grain `k` reads as the bytes of the file's `k`-th grain. */
  lemma SeNamedGrain(img: Image, fb: bool, off: nat, k: nat)
    requires img.Valid() && img.fmt.SeSparse? && off < img.size && k < GRAIN_INDEX_LIMIT
    requires SeGte(img, GrainIdx(img, off)) == Ok(Some(SeEncode(k)))
    requires (img.fmt.grainsOffset + k * 8) * 512 + 4096 <= |img.file|
    ensures ByteAt(img, fb, off) == Some(img.file[(img.fmt.grainsOffset + k * 8) * 512 + off % 4096])
  {
    hide SeSlotGte, SeEncode, SeWord, SeType, SeGrainIndex, ByteAt, Slice, SeEntryByte, FirstByte;
    SeReads(img, fb, off);
    var g := off / 4096;
    SeEntryIsWord(img, SePrimary(img, g / 4096), g % 4096);
    SeEncodedByte(img, k, off % 4096);
    FirstIsByteAt(img, fb, off);
  }

  lemma FirstIsByteAt(img: Image, fb: bool, off: nat)
    requires img.Valid()
    ensures FirstByte(Slice(img, fb, off)) == if Slice(img, fb, off).Ok? then Ok(ByteAt(img, fb, off)) else Err(Slice(img, fb, off).error)
  {
    hide Slice;
  }

  lemma SeEncodedByte(img: Image, k: nat, r: nat)
    requires img.fmt.SeSparse? && k < GRAIN_INDEX_LIMIT && r < 4096
    requires (img.fmt.grainsOffset + k * 8) * 512 + 4096 <= |img.file|
    ensures SeEntryByte(img, SeEncode(k), r) == Ok(Some(img.file[(img.fmt.grainsOffset + k * 8) * 512 + r]))
  {
    hide SeEncode, SeGrainIndex, Element, Wrap64, Fetch, FirstByte;
    DecodeEncode(k);
    SeEntryReads(img, SeEncode(k), r, 1);
    SeZeroType();
    var at := (img.fmt.grainsOffset + k * 8) * 512 + r;
    assert SeGrainByte(img, SeEncode(k)) + r == at;
    WrapIs(at);
    FetchedByte(img, At(at), 1);
    assert Element(img.file, at) == Ok(Some(img.file[at])) by { ElementInside(img.file, at); }
  }

  lemma ElementInside(s: seq<byte>, at: nat)
    requires at < |s|
    ensures Element(s, at) == Ok(Some(s[at]))
  {
  }

  // ── allocation and the scan ───────────────────────────────────────────────

  /** Whether the primary tables name data for sector `lba`; only the one entry is read. */
  function ReferenceAllocated(img: Image, lba: nat): Result<bool>
    requires img.Valid()
  {
    if 512 * lba >= img.size then Ok(false) else
    match img.fmt
    case Flat => Ok(true)
    case Sparse(gd, grain, ngte, _) =>
      var g := 512 * lba / grain;
      var ptr := if g / ngte < |gd| then gd[g / ngte] else 0;
      if ptr == 0 then Ok(false) else
      if 512 * ptr + 4 * (g % ngte) + 4 > |img.file| then Err(UnexpectedEof)
      else Ok(LeU32(img.file, 512 * ptr + 4 * (g % ngte)) > 1)
    case SeSparse(seGd, _, _, _) =>
      var g := 512 * lba / 4096;
      var gte :- SeWord(img, if g / 4096 < |seGd| then seGd[g / 4096] else 0, g % 4096);
      Ok(gte / 0x1000_0000_0000_0000 == 3)
  }

  lemma SectorBelow(size: nat, lba: nat)
    requires size % 512 == 0
    ensures lba >= size / SECTOR <==> 512 * lba >= size
  {
  }

  /** `is_allocated` answers by the reference arithmetic, in every format. */
  lemma AllocatedIsReference(img: Image, lba: nat)
    requires img.Valid()
    ensures AllocatedAt(img, lba) == ReferenceAllocated(img, lba)
  {
    hide SeSlotGte, SeWord, LeU32;
    assert img.size % 512 == 0;
    SectorBelow(img.size, lba);
    if img.fmt.SeSparse? {
      var g := 512 * lba / 4096;
      SeEntryIsWord(img, SePrimary(img, g / 4096), g % 4096);
    }
  }

  /** The grain covering `off` has data of its own, by the primary tables or the copy. */
  predicate HasData(img: Image, fb: bool, off: nat)
    requires img.Valid() && !img.fmt.Flat?
  {
    match img.fmt
    case Flat => false
    case Sparse(gd, grain, ngte, _) =>
      var g := off / grain;
      g / ngte < |gd| && var s := StoredSector(img, fb, g / ngte, g % ngte); s.Ok? && s.value > 0
    case SeSparse(seGd, _, _, _) =>
      var g := off / 4096;
      var w := SeWord(img, if g / 4096 < |seGd| then seGd[g / 4096] else 0, g % 4096);
      w.Ok? && w.value / 0x1000_0000_0000_0000 == 3
  }

  /** The record of grain `g`, in sectors. */
  function RecordOf(grain: nat, g: nat): AllocatedGrain {
    AllocatedGrain(g * (grain / 512), grain / 512)
  }

  /** After a successful scan a grain is listed, at its own sectors, exactly when it has data. */
  lemma ScanIsReference(img: Image, fb: bool, off: nat)
    requires img.Valid() && !img.fmt.Flat? && off < img.size && ScanOk(img, fb)
    ensures RecordOf(img.fmt.grain, GrainIdx(img, off)) in Listing(img, fb) <==> HasData(img, fb, off)
  {
    hide StoredSector, SeWord, SlotEntry, SeSlotGte, Listing, ScanOk;
    ListsIsPresent(img, fb, off);
    var g := GrainIdx(img, off);
    SlotInRange(img, off);
    assert GrainRecord(img, g) == RecordOf(img.fmt.grain, g);
    if img.IsSparse() {
      EntryIsWord(img, fb, SlotIdx(img, g), EntryIdx(img, g));
    } else {
      SeEntryIsWord(img, SePrimary(img, g / 4096), g % 4096);
    }
  }

  /** The table of slot `i` lies in the file, or there is none to read. */
  predicate TableReached(img: Image, fb: bool, i: nat)
    requires !img.fmt.Flat? && i < img.DirLength()
  {
    match img.fmt
    case Flat => true
    case Sparse(gd, _, ngte, _) =>
      var copy := RedundantPointer(img, i);
      || gd[i] == 0 || 512 * gd[i] + 4 * ngte <= |img.file|
      || (fb && copy != 0 && 512 * copy + 4 * ngte <= |img.file|)
    case SeSparse(seGd, _, gtOffset, _) =>
      seGd[i] / 0x1_0000_0000 == 0x1000_0000 ==>
        512 * (gtOffset + 64 * (seGd[i] % 0x1_0000_0000)) % 0x1_0000_0000_0000_0000 + 32768 <= |img.file|
  }

  lemma SlotIsReached(img: Image, fb: bool, i: nat)
    requires !img.fmt.Flat? && i < img.DirLength()
    ensures SlotReadable(img, fb, i) <==> TableReached(img, fb, i)
  {
    hide RgdEntry, RedundantPointer, Wrap64;
    if img.fmt.SeSparse? {
      var e := img.fmt.seGd[i];
      assert SeTableByte(img, e) == 512 * (img.fmt.gtOffset + 64 * (e % 0x1_0000_0000));
      WrapIs(SeTableByte(img, e));
    } else {
      PointerIsEntry(img, i);
    }
  }

  /** The scan succeeds exactly when every table it has to read lies in the file. */
  lemma ScanSucceedsIff(img: Image, fb: bool)
    requires !img.fmt.Flat?
    ensures ScanOk(img, fb) <==> forall i: nat :: i < img.DirLength() ==> TableReached(img, fb, i)
  {
    hide SlotReadable, TableReached;
    forall i: nat | i < img.DirLength()
      ensures SlotReadable(img, fb, i) <==> TableReached(img, fb, i)
    {
      SlotIsReached(img, fb, i);
    }
  }
}
