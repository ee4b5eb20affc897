/**
 The abstract disk: what an opened image means, with no cache, no cursor and no loop.

 `Lookup` resolves a virtual offset through the grain directory and grain tables, with or
 without the redundant directory; `Slice` is everything one read at an offset can return;
 `Disk` is the flat byte stream the image stands for.
 */
module Images {
  import opened Wrappers
  import opened Arith
  import opened Bytes
  import opened Headers

  /** A bounded zlib decode (RFC 1950): payload and output limit to decoded bytes. */
  type Inflate = (seq<byte>, nat) -> Result<seq<byte>>

  /** `FormatState`: grain sizes are in bytes. */
  datatype Format =
    | Sparse(gd: seq<u32>, grain: nat, ngte: nat, compressed: bool)
    | SeSparse(seGd: seq<u64>, grain: nat, gtOffset: u64, grainsOffset: u64)
    | Flat

  /** Everything a reader fixes when it opens a file. */
  datatype Image = Image(file: File, fmt: Format, size: u64, rgdOffset: u64, gdCount: nat, inflate: Inflate)
  {
    function GtesPerTable(): nat
      requires !fmt.Flat?
    {
      if fmt.Sparse? then fmt.ngte else SE_GTES_PER_GT
    }

    function DirLength(): nat
      requires !fmt.Flat?
    {
      if fmt.Sparse? then |fmt.gd| else |fmt.seGd|
    }

    /** Grain `g` starts before the end of the disk. */
    predicate GrainInDisk(g: nat)
      requires !fmt.Flat?
    {
      g * fmt.grain < size
    }

    /** The first disk byte directory slot `i` maps. */
    function SlotStart(i: nat): nat
      requires fmt.Sparse?
    {
      i * fmt.ngte * fmt.grain
    }

    /** Directory slot `i` starts before the end of the disk. */
    predicate SlotInDisk(i: nat)
      requires fmt.Sparse?
    {
      SlotStart(i) < size
    }

    /** What opening establishes; for VMDK4 and COWD the directory is exactly as long as needed. */
    ghost predicate Valid() {
      && size % SECTOR == 0 && size <= I64_MAX
      && match fmt {
           case Flat => true
           case Sparse(gd, grain, ngte, _) =>
             && 0 < grain < U32_LIMIT * SECTOR && grain % SECTOR == 0 && 0 < ngte <= 4096
             && (forall g: nat :: GrainInDisk(g) ==> g / ngte < |gd|)
             && (forall i: nat :: i < |gd| ==> SlotInDisk(i))
             && (gdCount == |gd| || rgdOffset == 0)
           case SeSparse(gd, grain, _, _) =>
             && grain == SE_GRAIN_SECTORS * SECTOR
             && (forall g: nat :: GrainInDisk(g) ==> g / SE_GTES_PER_GT < |gd|)
         }
    }

    predicate IsSparse() {
      fmt.Sparse?
    }
  }

  /** The descriptive fields a reader keeps beside the image. */
  datatype Meta = Meta(diskType: string, version: u32, cid: u32, parentCid: u32, descriptorText: string)

  /** `GrainLookup`: where the bytes of a virtual offset live. */
  datatype Loc =
    | Hole
    | At(fileOff: nat)
    | Packed(dataOff: nat, dataSize: nat, inGrain: nat)

  /** A resolved grain-table entry, and whether the redundant directory supplied it. */
  datatype Entry = Entry(gte: u32, viaRgd: bool)

  // ── addressing: offset → grain → slot and entry ───────────────────────────

  function GrainIdx(img: Image, off: nat): (g: nat)
    requires img.Valid() && !img.fmt.Flat?
  {
    off / img.fmt.grain
  }

  function InGrain(img: Image, off: nat): (r: nat)
    requires img.Valid() && !img.fmt.Flat?
    ensures r < img.fmt.grain
  {
    off % img.fmt.grain
  }

  function SlotIdx(img: Image, g: nat): (i: nat)
    requires img.Valid() && !img.fmt.Flat?
  {
    g / img.GtesPerTable()
  }

  function EntryIdx(img: Image, g: nat): (j: nat)
    requires img.Valid() && !img.fmt.Flat?
    ensures j < img.GtesPerTable()
  {
    g % img.GtesPerTable()
  }

  // ── VMDK4 / COWD tables ───────────────────────────────────────────────────

  /** The whole grain table at `sec` lies in the file (and `sec` is not the hole marker). */
  predicate Usable(img: Image, sec: u32)
    requires img.IsSparse()
  {
    sec != 0 && sec * SECTOR + img.fmt.ngte * 4 <= |img.file|
  }

  /** Entry `j` of the grain table at `sec`. */
  function TableEntry(img: Image, sec: u32, j: nat): u32
    requires img.IsSparse() && Usable(img, sec) && j < img.fmt.ngte
  {
    LeU32(img.file, sec * SECTOR + 4 * j)
  }

  /** The decoded grain table at `sec`. */
  function Table(img: Image, sec: u32): seq<u32>
    requires img.IsSparse() && Usable(img, sec)
  {
    seq(img.fmt.ngte, j requires 0 <= j < img.fmt.ngte => TableEntry(img, sec, j))
  }

  /** Primary directory entry `i`; absent entries read as holes. */
  function Primary(img: Image, i: nat): u32
    requires img.IsSparse()
  {
    if i < |img.fmt.gd| then img.fmt.gd[i] else 0
  }

  predicate HasRgd(img: Image) {
    img.rgdOffset != 0 && img.rgdOffset != GD_AT_END
  }

  /** Redundant directory entry `i`, or 0 when there is none inside the file. */
  function RgdEntry(img: Image, i: nat): u32 {
    if !HasRgd(img) || i >= img.gdCount then 0 else
    var at := SatAdd(SatMul(img.rgdOffset, SECTOR), 4 * i);
    if SatAdd(at, 4) > |img.file| then 0 else LeU32(img.file, at)
  }

  /** Entry `j` of the redundant table for directory slot `i`, or 0 when out of reach. */
  function RgdGte(img: Image, i: nat, j: nat): u32
    requires img.IsSparse() && j < img.fmt.ngte
  {
    var r := RgdEntry(img, i);
    if Usable(img, r) then TableEntry(img, r, j) else 0
  }

  /** The table sector used for slot `i`: the primary unless only the redundant one is usable. */
  function Resolve(img: Image, fb: bool, i: nat): u32
    requires img.IsSparse()
  {
    var p := Primary(img, i);
    var r := RgdEntry(img, i);
    if fb && !Usable(img, p) && Usable(img, r) then r else p
  }

  /** Entry `j` of directory slot `i`, with pointer-level then entry-level recovery when `fb`. */
  function SlotEntry(img: Image, fb: bool, i: nat, j: nat): Result<Entry>
    requires img.IsSparse() && j < img.fmt.ngte
  {
    var s := Resolve(img, fb, i);
    if s == 0 then Ok(Entry(0, false)) else
    if !Usable(img, s) then Err(UnexpectedEof) else
    var gte := TableEntry(img, s, j);
    var redundant := if fb && gte <= 1 then RgdGte(img, i, j) else 0;
    if redundant > 1 then Ok(Entry(redundant, true))
    else Ok(Entry(gte, gte > 1 && s != Primary(img, i)))
  }

  /** The entry of grain `g`. */
  function EntryAt(img: Image, fb: bool, g: nat): Result<Entry>
    requires img.Valid() && img.IsSparse()
  {
    SlotEntry(img, fb, SlotIdx(img, g), EntryIdx(img, g))
  }

  /** Where offset `r` inside the grain named by `gte` lives. */
  function Locate(img: Image, gte: u32, r: nat): Result<Loc>
    requires img.IsSparse()
  {
    if gte <= 1 then Ok(Hole) else
    if !img.fmt.compressed then Ok(At(gte * SECTOR + r)) else
    var marker := gte * SECTOR;
    if marker + 12 > |img.file| then Err(UnexpectedEof) else
    var n := LeU32(img.file, marker + 8);
    if n > SatAdd(img.fmt.grain, 65536) then Err(InvalidData) else
    Ok(Packed(marker + 12, n, r))
  }

  // ── seSparse tables ───────────────────────────────────────────────────────

  const SE_ALLOCATED := 3
  const SE_UNMAPPED := 1
  const SE_ZERO := 2

  function SeType(gte: u64): nat {
    gte / 0x1000_0000_0000_0000
  }

  /** The directory marker: high 32 bits exactly `0x1000_0000`. */
  predicate SeDirAllocated(e: u64) {
    e / 0x1_0000_0000 == 0x1000_0000
  }

  /** `se_gte_grain_index`: bits 48..59 become the low 12, bits 0..47 move up by 12. */
  function SeGrainIndex(gte: u64): nat {
    gte / 0x1_0000_0000_0000 % 0x1000 + gte % 0x1_0000_0000_0000 * 0x1000
  }

  /** First byte of the grain table a directory entry names. */
  function SeTableByte(img: Image, e: u64): nat
    requires img.fmt.SeSparse?
  {
    (img.fmt.gtOffset + e % 0x1_0000_0000 * SE_GT_SECTORS) * SECTOR
  }

  /** Directory entry `i`; absent entries read as zero. */
  function SePrimary(img: Image, i: nat): u64
    requires img.fmt.SeSparse?
  {
    if i < |img.fmt.seGd| then img.fmt.seGd[i] else 0
  }

  /** `se_read_gte`: absent for a zero directory entry, an error for a malformed one. */
  function SeSlotGte(img: Image, e: u64, j: nat): Result<Option<u64>>
    requires img.fmt.SeSparse?
  {
    if e == 0 then Ok(None) else
    if !SeDirAllocated(e) then Err(InvalidData) else
    var at := Wrap64(SeTableByte(img, e) + j * 8);
    if at + 8 > |img.file| then Err(UnexpectedEof) else Ok(Some(LeU64(img.file, at)))
  }

  /** The grain-table entry of grain `g`. */
  function SeGte(img: Image, g: nat): Result<Option<u64>>
    requires img.Valid() && img.fmt.SeSparse?
  {
    SeSlotGte(img, SePrimary(img, SlotIdx(img, g)), EntryIdx(img, g))
  }

  /** First byte of the grain an allocated entry names, before wrap-around. */
  function SeGrainByte(img: Image, gte: u64): nat
    requires img.fmt.SeSparse?
  {
    (img.fmt.grainsOffset + SeGrainIndex(gte) * SE_GRAIN_SECTORS) * SECTOR
  }

  function SeLocate(img: Image, g: nat, r: nat): Result<Loc>
    requires img.Valid() && img.fmt.SeSparse?
  {
    var slot :- SeGte(img, g);
    if slot.None? || slot.value == 0 then Ok(Hole) else
    var gte := slot.value;
    if SeType(gte) == SE_UNMAPPED || SeType(gte) == SE_ZERO then Ok(Hole) else
    if SeType(gte) == SE_ALLOCATED then Ok(At(Wrap64(SeGrainByte(img, gte) + r))) else
    Err(InvalidData)
  }

  // ── the abstract disk ─────────────────────────────────────────────────────

  function Lookup(img: Image, fb: bool, off: nat): (r: Result<Loc>)
    requires img.Valid() && !img.fmt.Flat?
    ensures r.Ok? && r.value.Packed? ==> img.IsSparse() && img.fmt.compressed
  {
    if img.fmt.SeSparse? then SeLocate(img, GrainIdx(img, off), InGrain(img, off)) else
    var e :- EntryAt(img, fb, GrainIdx(img, off));
    Locate(img, e.gte, InGrain(img, off))
  }

  /** Does the redundant directory answer the lookup at `off`? */
  predicate AnsweredByRgd(img: Image, fb: bool, off: nat)
    requires img.Valid() && img.IsSparse()
  {
    var e := EntryAt(img, fb, GrainIdx(img, off));
    e.Ok? && e.value.viaRgd
  }

  /** The decoded grain of a compressed payload; more than a grain of output is refused. */
  function Unpack(img: Image, dataOff: nat, n: nat): Result<seq<byte>>
    requires img.IsSparse()
  {
    if n > 0 && dataOff + n > |img.file| then Err(UnexpectedEof) else
    var d :- img.inflate(Window(img.file, dataOff, n), img.fmt.grain + 1);
    if |d| > img.fmt.grain then Err(InvalidData) else Ok(d)
  }

  /** Bytes a read at `off` may cover: to the end of the disk and of the grain. */
  function Reach(img: Image, off: nat): nat
    requires img.Valid() && off < img.size
  {
    if img.fmt.Flat? then img.size - off else Min(img.size - off, img.fmt.grain - InGrain(img, off))
  }

  /** The bytes found at a location, at most `n` of them. */
  function Fetch(img: Image, loc: Loc, n: nat): Result<seq<byte>>
    requires loc.Packed? ==> img.IsSparse()
  {
    match loc
    case Hole => Ok(Zeros(n))
    case At(o) => Ok(Window(img.file, o, n))
    case Packed(o, size, start) =>
      var d :- Unpack(img, o, size);
      Ok(Window(d, start, n))
  }

  /** Everything one read at `off` can return; empty at the end of the disk or of the file. */
  function Slice(img: Image, fb: bool, off: nat): Result<seq<byte>>
    requires img.Valid()
  {
    if off >= img.size then Ok([]) else
    if img.fmt.Flat? then Ok(Window(img.file, off, Reach(img, off))) else
    var loc :- Lookup(img, fb, off);
    Fetch(img, loc, Reach(img, off))
  }

  function ByteAt(img: Image, fb: bool, off: nat): Option<byte>
    requires img.Valid()
  {
    var s := Slice(img, fb, off);
    if s.Ok? && s.value != [] then Some(s.value[0]) else None
  }

  /** Every in-range read succeeds and makes progress. */
  ghost predicate Sound(img: Image, fb: bool)
    requires img.Valid()
  {
    forall off :: 0 <= off < img.size ==> ByteAt(img, fb, off).Some?
  }

  /** The flat byte stream a sound image stands for. */
  ghost function Disk(img: Image, fb: bool): (d: seq<byte>)
    requires img.Valid() && Sound(img, fb)
    ensures |d| == img.size
  {
    seq(img.size, off requires 0 <= off < img.size => ByteAt(img, fb, off).value)
  }

  /** `bytes` is what the disk holds from `off` on. */
  ghost predicate Holds(img: Image, fb: bool, off: nat, bytes: seq<byte>)
    requires img.Valid()
  {
    forall k :: 0 <= k < |bytes| ==> ByteAt(img, fb, off + k) == Some(bytes[k])
  }

  /** Entry `j` of slot `i` by the primary directory only, reading that one entry. */
  function SlotAllocated(img: Image, i: nat, j: nat): Result<bool>
    requires !img.fmt.Flat?
  {
    if img.fmt.SeSparse? then
      var slot :- SeSlotGte(img, SePrimary(img, i), j);
      Ok(slot.Some? && SeType(slot.value) == SE_ALLOCATED)
    else
      var gt := Primary(img, i);
      if gt == 0 then Ok(false) else
      var at := gt * SECTOR + j * 4;
      if at + 4 > |img.file| then Err(UnexpectedEof) else Ok(LeU32(img.file, at) > 1)
  }

  /** `is_allocated`. */
  function AllocatedAt(img: Image, lba: nat): Result<bool>
    requires img.Valid()
  {
    if lba >= img.size / SECTOR then Ok(false) else
    if img.fmt.Flat? then Ok(true) else
    GrainAllocated(img, GrainIdx(img, lba * SECTOR))
  }

  function GrainAllocated(img: Image, g: nat): Result<bool>
    requires img.Valid() && !img.fmt.Flat?
  {
    SlotAllocated(img, SlotIdx(img, g), EntryIdx(img, g))
  }

  /** One `read` of the image at `pos` into `buf[lo..hi]`. */
  ghost predicate ReadStep(img: Image, fb: bool, lo: nat, hi: nat,
                           pos: nat, before: seq<byte>, pos': nat, after: seq<byte>, r: Result<nat>)
    requires img.Valid() && lo <= hi <= |before|
  {
    Delivers(Slice(img, fb, pos), lo, hi, pos, before, pos', after, r)
  }

  lemma Shape(img: Image)
    requires img.Valid() && !img.fmt.Flat?
    ensures 0 < img.fmt.grain < U32_LIMIT * SECTOR && img.fmt.grain % SECTOR == 0
    ensures 0 < img.GtesPerTable() <= 4096
  {
  }

  lemma ReachPositive(img: Image, off: nat)
    requires img.Valid() && off < img.size
    ensures Reach(img, off) > 0
  {
    hide Image.Valid, InGrain;
  }

  // ── reads chunk freely ────────────────────────────────────────────────────

  /** A step inside a grain keeps the grain and moves the in-grain offset. */
  lemma SameGrain(img: Image, off: nat, k: nat)
    requires img.Valid() && !img.fmt.Flat? && k < img.fmt.grain - InGrain(img, off)
    ensures GrainIdx(img, off + k) == GrainIdx(img, off)
    ensures InGrain(img, off + k) == InGrain(img, off) + k
  {
    Shape(img);
    hide Image.Valid;
    DivMod(off, img.fmt.grain);
    DivModUnique(off / img.fmt.grain, off % img.fmt.grain + k, img.fmt.grain);
  }

  lemma IdxBounds(img: Image, off: nat)
    requires img.Valid() && !img.fmt.Flat?
    ensures off == GrainIdx(img, off) * img.fmt.grain + InGrain(img, off)
  {
    Shape(img);
    hide Image.Valid;
    DivMod(off, img.fmt.grain);
  }

  /** The index functions invert the flat numbering of table entries. */
  lemma SplitIdx(img: Image, i: nat, j: nat)
    requires img.Valid() && !img.fmt.Flat? && j < img.GtesPerTable()
    ensures SlotIdx(img, i * img.GtesPerTable() + j) == i && EntryIdx(img, i * img.GtesPerTable() + j) == j
  {
    hide Image.Valid;
    DivModUnique(i, j, img.GtesPerTable());
  }

  /** No address wraps inside a grain whose first byte is in the file. */
  lemma SeNoWrapInside(a: nat, k: nat, len: nat)
    requires len <= I64_MAX && Wrap64(a) + k < len
    ensures Wrap64(a + k) == Wrap64(a) + k
  {
  }

  lemma SeLocateShift(img: Image, g: nat, r: nat, k: nat)
    requires img.Valid() && img.fmt.SeSparse? && SeLocate(img, g, r).Ok?
    ensures match SeLocate(img, g, r).value
            case Hole => SeLocate(img, g, r + k) == Ok(Hole)
            case Packed(_, _, _) => false
            case At(o) => o + k < |img.file| ==> SeLocate(img, g, r + k) == Ok(At(o + k))
  {
    hide SeSlotGte, SeGrainByte, Image.Valid;
    var slot := SeGte(img, g);
    if slot.value.Some? && SeType(slot.value.value) == SE_ALLOCATED {
      var a := SeGrainByte(img, slot.value.value) + r;
      if Wrap64(a) + k < |img.file| {
        SeNoWrapInside(a, k, |img.file|);
      }
    }
  }

  lemma LookupShift(img: Image, fb: bool, off: nat, k: nat)
    requires img.Valid() && !img.fmt.Flat? && off < img.size && k < Reach(img, off)
    requires Lookup(img, fb, off).Ok?
    ensures match Lookup(img, fb, off).value
            case Hole => Lookup(img, fb, off + k) == Ok(Hole)
            case Packed(o, n, r) => Lookup(img, fb, off + k) == Ok(Packed(o, n, r + k))
            case At(o) => img.fmt.Sparse? || o + k < |img.file| ==> Lookup(img, fb, off + k) == Ok(At(o + k))
  {
    hide SlotEntry, SeLocate, GrainIdx, InGrain, Image.Valid;
    SameGrain(img, off, k);
    if img.fmt.SeSparse? {
      SeLocateShift(img, GrainIdx(img, off), InGrain(img, off), k);
    }
  }

  function Advance(loc: Loc, k: nat): Loc {
    match loc
    case Hole => Hole
    case At(o) => At(o + k)
    case Packed(o, n, r) => Packed(o, n, r + k)
  }

  lemma FetchShift(img: Image, loc: Loc, n: nat, k: nat)
    requires loc.Packed? ==> img.IsSparse()
    requires Fetch(img, loc, n).Ok? && k < |Fetch(img, loc, n).value|
    ensures k < n && |Fetch(img, loc, n).value| <= n
    ensures loc.At? ==> loc.fileOff + k < |img.file|
    ensures Fetch(img, Advance(loc, k), n - k) == Ok(Fetch(img, loc, n).value[k..])
  {
    match loc
    case Hole => assert Zeros(n)[k..] == Zeros(n - k);
    case At(o) => WindowSplit(img.file, o, n, k);
    case Packed(o, size, r) => WindowSplit(Unpack(img, o, size).value, r, n, k);
  }

  /** A read resumed `k` bytes later sees the rest of the same slice. */
  lemma SliceShift(img: Image, fb: bool, off: nat, k: nat)
    requires img.Valid()
    requires Slice(img, fb, off).Ok? && k < |Slice(img, fb, off).value|
    ensures Slice(img, fb, off + k) == Ok(Slice(img, fb, off).value[k..])
  {
    hide Lookup, Fetch, Window, GrainIdx, InGrain, Image.Valid;
    var reach := Reach(img, off);
    if img.fmt.Flat? {
      WindowLength(img.file, off, reach);
      WindowSplit(img.file, off, reach, k);
    } else {
      FetchShift(img, Lookup(img, fb, off).value, reach, k);
      LookupShift(img, fb, off, k);
      SameGrain(img, off, k);
    }
  }

  /** Every byte of a slice is the disk byte at its own offset. */
  lemma SliceHolds(img: Image, fb: bool, off: nat, n: nat)
    requires img.Valid()
    requires Slice(img, fb, off).Ok? && n <= |Slice(img, fb, off).value|
    ensures Holds(img, fb, off, Slice(img, fb, off).value[..n])
  {
    forall k | 0 <= k < n
      ensures ByteAt(img, fb, off + k) == Some(Slice(img, fb, off).value[k])
    {
      SliceShift(img, fb, off, k);
    }
  }

  lemma HoldsNothing(img: Image, fb: bool, off: nat)
    requires img.Valid()
    ensures Holds(img, fb, off, [])
  {
  }

  lemma HoldsAppend(img: Image, fb: bool, off: nat, a: seq<byte>, b: seq<byte>)
    requires img.Valid()
    requires Holds(img, fb, off, a) && Holds(img, fb, off + |a|, b)
    ensures Holds(img, fb, off, a + b)
  {
    forall k | 0 <= k < |a + b|
      ensures ByteAt(img, fb, off + k) == Some((a + b)[k])
    {
      if k >= |a| {
        assert off + k == off + |a| + (k - |a|);
      }
    }
  }

  /** On a sound image, held bytes are a slice of the disk. */
  lemma HoldsIsDisk(img: Image, fb: bool, off: nat, bytes: seq<byte>)
    requires img.Valid() && Sound(img, fb)
    requires Holds(img, fb, off, bytes) && off + |bytes| <= img.size
    ensures bytes == Disk(img, fb)[off..off + |bytes|]
  {
    forall k | 0 <= k < |bytes|
      ensures bytes[k] == Disk(img, fb)[off + k]
    {
      assert ByteAt(img, fb, off + k) == Some(bytes[k]);
    }
  }

  /** Bytes are held only below the end of the disk. */
  lemma HeldBelowEnd(img: Image, fb: bool, off: nat, bytes: seq<byte>)
    requires img.Valid() && Holds(img, fb, off, bytes) && bytes != []
    ensures off + |bytes| <= img.size
  {
    assert ByteAt(img, fb, off + (|bytes| - 1)) == Some(bytes[|bytes| - 1]);
  }
}
