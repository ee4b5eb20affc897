/** The allocation scan as a listing of grains (core/src/lib.rs, `iter_allocated_grains`). */
module Scans {
  import opened Wrappers
  import opened Arith
  import opened Bytes
  import opened Headers
  import opened Images

  /** One allocated grain; `sectorCount` is a whole grain even where the disk ends inside it. */
  datatype AllocatedGrain = AllocatedGrain(startLba: nat, sectorCount: nat)

  function GrainSectors(img: Image): nat
    requires !img.fmt.Flat?
  {
    img.fmt.grain / SECTOR
  }

  /** Entry `j` of slot `i` names stored data; malformed seSparse slots are skipped. */
  predicate SlotPresent(img: Image, fb: bool, i: nat, j: nat)
    requires !img.fmt.Flat? && j < img.GtesPerTable()
  {
    if img.fmt.Sparse? then
      var e := SlotEntry(img, fb, i, j);
      e.Ok? && e.value.gte > 1
    else
      var e := SeSlotGte(img, SePrimary(img, i), j);
      e.Ok? && e.value.Some? && SeType(e.value.value) == SE_ALLOCATED
  }

  /** Grain `g` holds stored data. */
  predicate Present(img: Image, fb: bool, g: nat)
    requires img.Valid() && !img.fmt.Flat?
  {
    SlotPresent(img, fb, SlotIdx(img, g), EntryIdx(img, g))
  }

  /** Grain `g` is reported: it holds data and starts before the end of the disk. */
  predicate Reported(img: Image, fb: bool, g: nat)
    requires img.Valid() && !img.fmt.Flat?
  {
    Present(img, fb, g) && g * GrainSectors(img) < img.size / SECTOR
  }

  /** The record of grain `g`. */
  function GrainRecord(img: Image, g: nat): AllocatedGrain
    requires !img.fmt.Flat?
  {
    AllocatedGrain(g * GrainSectors(img), GrainSectors(img))
  }

  /** The reported grains below index `n`, in order. */
  function Listed(img: Image, fb: bool, n: nat): seq<AllocatedGrain>
    requires img.Valid() && !img.fmt.Flat?
  {
    if n == 0 then [] else
    Listed(img, fb, n - 1) +
    if Reported(img, fb, n - 1) then [GrainRecord(img, n - 1)] else []
  }

  /** The whole result of a successful scan. */
  function Listing(img: Image, fb: bool): seq<AllocatedGrain>
    requires img.Valid()
  {
    if img.fmt.Flat? then
      if img.size / SECTOR == 0 then [] else [AllocatedGrain(0, img.size / SECTOR)]
    else
      Listed(img, fb, img.DirLength() * img.GtesPerTable())
  }

  /** The table of slot `i` can be read whole, or there is none to read. */
  predicate SlotReadable(img: Image, fb: bool, i: nat)
    requires !img.fmt.Flat?
  {
    if img.fmt.Sparse? then
      Resolve(img, fb, i) == 0 || Usable(img, Resolve(img, fb, i))
    else
      var e := SePrimary(img, i);
      SeDirAllocated(e) ==> Wrap64(SeTableByte(img, e)) + SE_GTES_PER_GT * 8 <= |img.file|
  }

  ghost predicate ScanOk(img: Image, fb: bool) {
    img.fmt.Flat? || forall i :: 0 <= i < img.DirLength() ==> SlotReadable(img, fb, i)
  }

  /** The grains below `n` answered by the redundant directory. */
  ghost function RecoveredSet(img: Image, fb: bool, n: nat): set<nat>
    requires img.Valid() && img.IsSparse()
  {
    set g: nat | g < n && EntryAt(img, fb, g).Ok? && EntryAt(img, fb, g).value.viaRgd
  }

  /** How many of the first `n` directory slots a scan reads before the first unreadable one. */
  ghost function ReadableSlots(img: Image, fb: bool, n: nat): (m: nat)
    requires !img.fmt.Flat?
    ensures m <= n
  {
    if n == 0 then 0 else
    var m := ReadableSlots(img, fb, n - 1);
    if m == n - 1 && SlotReadable(img, fb, n - 1) then n else m
  }

  lemma {:induction false} ReadableIs(img: Image, fb: bool, n: nat, k: nat)
    requires !img.fmt.Flat? && k <= n
    requires forall j :: 0 <= j < k ==> SlotReadable(img, fb, j)
    requires k < n ==> !SlotReadable(img, fb, k)
    ensures ReadableSlots(img, fb, n) == k
  {
    hide SlotReadable;
    if k < n {
      ReadableIs(img, fb, n - 1, k);
    } else if n > 0 {
      ReadableIs(img, fb, n - 1, n - 1);
    }
  }

  /** The recoveries one scan counts, up to the table it fails on if any: entries past the disk end too. */
  ghost function RecoveredByScan(img: Image, fb: bool): nat
    requires img.Valid()
  {
    if img.IsSparse() then |RecoveredSet(img, fb, ReadableSlots(img, fb, |img.fmt.gd|) * img.fmt.ngte)| else 0
  }

  lemma WholeScanCounts(img: Image, fb: bool)
    requires img.Valid() && img.IsSparse() && ScanOk(img, fb)
    ensures RecoveredByScan(img, fb) == |RecoveredSet(img, fb, |img.fmt.gd| * img.fmt.ngte)|
  {
    hide SlotReadable, RecoveredSet, Image.Valid;
    ReadableIs(img, fb, |img.fmt.gd|, |img.fmt.gd|);
  }

  // ── what the listing means ────────────────────────────────────────────────

  ghost function SectorSum(l: seq<AllocatedGrain>): nat {
    if l == [] then 0 else SectorSum(l[..|l| - 1]) + l[|l| - 1].sectorCount
  }

  /** Membership: exactly the reported grains. */
  lemma {:induction false} ListedMembers(img: Image, fb: bool, n: nat, a: AllocatedGrain)
    requires img.Valid() && !img.fmt.Flat?
    ensures a in Listed(img, fb, n) <==> exists g: nat :: g < n && Reported(img, fb, g) && a == GrainRecord(img, g)
  {
    if n > 0 {
      hide Reported, GrainRecord;
      ListedMembers(img, fb, n - 1, a);
      if a in Listed(img, fb, n) && a !in Listed(img, fb, n - 1) {
        assert Reported(img, fb, n - 1);
      }
    }
  }

  /** Records of different grains start apart. */
  lemma RecordsOrdered(img: Image, g: nat, h: nat)
    requires img.Valid() && !img.fmt.Flat? && g < h
    ensures GrainRecord(img, g).startLba + GrainSectors(img) <= GrainRecord(img, h).startLba
    ensures GrainSectors(img) > 0
  {
    MulMono(g + 1, h, GrainSectors(img));
  }

  lemma RecordInjective(img: Image, g: nat, h: nat)
    requires img.Valid() && !img.fmt.Flat? && GrainRecord(img, g) == GrainRecord(img, h)
    ensures g == h
  {
    if g < h { RecordsOrdered(img, g, h); } else if h < g { RecordsOrdered(img, h, g); }
  }

  /** Each record is a whole grain starting at a multiple of the grain size below the disk end. */
  lemma ListedShape(img: Image, fb: bool, n: nat, a: AllocatedGrain)
    requires img.Valid() && !img.fmt.Flat? && a in Listed(img, fb, n)
    ensures a.sectorCount == GrainSectors(img) > 0
    ensures a.startLba % GrainSectors(img) == 0
    ensures a.startLba < img.size / SECTOR
    ensures a.startLba + a.sectorCount <= n * GrainSectors(img)
  {
    ListedMembers(img, fb, n, a);
    var g: nat :| g < n && Reported(img, fb, g) && a == GrainRecord(img, g);
    hide Present;
    DivModUnique(g, 0, GrainSectors(img));
    MulMono(g + 1, n, GrainSectors(img));
  }

  /** Order: starts are strictly increasing, so no grain is listed twice. */
  lemma {:induction false} ListedOrder(img: Image, fb: bool, n: nat, k: nat, m: nat)
    requires img.Valid() && !img.fmt.Flat? && k < m < |Listed(img, fb, n)|
    ensures Listed(img, fb, n)[k].startLba < Listed(img, fb, n)[m].startLba
  {
    hide Reported, GrainRecord;
    var prev := Listed(img, fb, n - 1);
    if m < |prev| {
      ListedOrder(img, fb, n - 1, k, m);
    } else {
      ListedShape(img, fb, n - 1, prev[k]);
      assert GrainRecord(img, n - 1).startLba == (n - 1) * GrainSectors(img) by { LastStart(img, n - 1); }
    }
  }

  lemma LastStart(img: Image, g: nat)
    requires !img.fmt.Flat?
    ensures GrainRecord(img, g).startLba == g * GrainSectors(img)
  {
  }

  /** Volume: the listed sectors exceed the disk by less than one grain. */
  lemma {:induction false} ListedVolume(img: Image, fb: bool, n: nat)
    requires img.Valid() && !img.fmt.Flat?
    ensures SectorSum(Listed(img, fb, n)) <= n * GrainSectors(img)
    ensures SectorSum(Listed(img, fb, n)) < img.size / SECTOR + GrainSectors(img)
  {
    hide Present, GrainSectors, SectorSum, Image.Valid;
    SomeSectors(img);
    if n == 0 {
      NoVolume();
    } else {
      ListedVolume(img, fb, n - 1);
      OneMore(n, GrainSectors(img));
      if Reported(img, fb, n - 1) {
        VolumeStep(Listed(img, fb, n - 1), GrainRecord(img, n - 1));
      } else {
        assert Listed(img, fb, n) == Listed(img, fb, n - 1);
      }
    }
  }

  lemma SomeSectors(img: Image)
    requires img.Valid() && !img.fmt.Flat?
    ensures GrainSectors(img) > 0
  {
  }

  lemma NoVolume()
    ensures SectorSum([]) == 0
  {
  }

  lemma OneMore(n: nat, k: nat)
    requires n > 0
    ensures n * k == (n - 1) * k + k
  {
  }

  lemma VolumeStep(l: seq<AllocatedGrain>, a: AllocatedGrain)
    ensures SectorSum(l + [a]) == SectorSum(l) + a.sectorCount
  {
    assert (l + [a])[..|l|] == l;
  }

  // ── lookups see what the scan lists ───────────────────────────────────────

  /** The grain covering an in-range offset has a directory slot. */
  lemma SlotInRange(img: Image, off: nat)
    requires img.Valid() && !img.fmt.Flat? && off < img.size
    ensures SlotIdx(img, GrainIdx(img, off)) < img.DirLength()
    ensures GrainIdx(img, off) < img.DirLength() * img.GtesPerTable()
    ensures GrainIdx(img, off) * img.fmt.grain < img.size
  {
    var g := GrainIdx(img, off);
    IdxBounds(img, off);
    assert img.GrainInDisk(g);
    DivLess(g, img.GtesPerTable(), img.DirLength());
  }

  /** Grain starts below the disk end are the in-range grain indices. */
  lemma StartInRange(img: Image, g: nat)
    requires img.Valid() && !img.fmt.Flat?
    ensures g * GrainSectors(img) < img.size / SECTOR <==> g * img.fmt.grain < img.size
  {
    assert img.fmt.grain == GrainSectors(img) * SECTOR;
    assert g * img.fmt.grain == g * GrainSectors(img) * SECTOR;
  }

  /** On a readable seSparse table, entry addresses do not wrap. */
  lemma SeEntryInside(img: Image, e: u64, j: nat)
    requires img.fmt.SeSparse? && j < SE_GTES_PER_GT
    requires Wrap64(SeTableByte(img, e)) + SE_GTES_PER_GT * 8 <= |img.file|
    ensures Wrap64(SeTableByte(img, e) + j * 8) == Wrap64(SeTableByte(img, e)) + j * 8
  {
    SeNoWrapInside(SeTableByte(img, e), j * 8, |img.file|);
  }

  /** The listing reports the grain that covers `off`. */
  predicate ListsOffset(img: Image, fb: bool, off: nat)
    requires img.Valid() && !img.fmt.Flat?
  {
    GrainRecord(img, GrainIdx(img, off)) in Listing(img, fb)
  }

  lemma ListsIsPresent(img: Image, fb: bool, off: nat)
    requires img.Valid() && !img.fmt.Flat? && off < img.size
    ensures ListsOffset(img, fb, off) <==> Present(img, fb, GrainIdx(img, off))
  {
    hide Present, Image.Valid, GrainRecord, GrainIdx;
    var g := GrainIdx(img, off);
    var n := img.DirLength() * img.GtesPerTable();
    SlotInRange(img, off);
    StartInRange(img, g);
    ListedMembers(img, fb, n, GrainRecord(img, g));
    assert Present(img, fb, g) <==> Reported(img, fb, g);
    if GrainRecord(img, g) in Listed(img, fb, n) {
      var h: nat :| h < n && Reported(img, fb, h) && GrainRecord(img, g) == GrainRecord(img, h);
      RecordInjective(img, g, h);
    }
  }

  /** In a readable VMDK4 or COWD slot, an entry is present exactly when it names a grain. */
  lemma PresentSparse(img: Image, fb: bool, i: nat, j: nat)
    requires img.IsSparse() && j < img.fmt.ngte && SlotReadable(img, fb, i)
    ensures SlotEntry(img, fb, i, j).Ok?
    ensures SlotPresent(img, fb, i, j) <==> SlotEntry(img, fb, i, j).value.gte > 1
  {
    hide Usable;
  }

  lemma LocateHole(img: Image, gte: u32, r: nat)
    requires img.IsSparse()
    ensures Locate(img, gte, r) == Ok(Hole) <==> gte <= 1
  {
  }

  lemma SeLocateHole(img: Image, fb: bool, g: nat, r: nat)
    requires img.Valid() && img.fmt.SeSparse? && SeLocate(img, g, r).Ok?
    ensures Present(img, fb, g) <==> SeLocate(img, g, r).value != Hole
  {
    hide SeSlotGte, SlotIdx, EntryIdx, Image.Valid;
  }

  lemma ScanOkSlot(img: Image, fb: bool, i: nat)
    requires ScanOk(img, fb) && !img.fmt.Flat? && i < img.DirLength()
    ensures SlotReadable(img, fb, i)
  {
  }

  /** A grain is present exactly when a successful lookup in it is not a hole. */
  lemma PresentIsLookup(img: Image, fb: bool, off: nat)
    requires img.Valid() && !img.fmt.Flat? && off < img.size
    requires ScanOk(img, fb)
    ensures img.fmt.Sparse? ==> (Present(img, fb, GrainIdx(img, off)) <==> Lookup(img, fb, off) != Ok(Hole))
    ensures Lookup(img, fb, off).Ok? ==> (Present(img, fb, GrainIdx(img, off)) <==> Lookup(img, fb, off).value != Hole)
  {
    hide SlotEntry, SlotPresent, SlotReadable, ScanOk, Locate, SeLocate, Image.Valid, GrainIdx, InGrain, SlotIdx, EntryIdx;
    var g, r := GrainIdx(img, off), InGrain(img, off);
    SlotInRange(img, off);
    ScanOkSlot(img, fb, SlotIdx(img, g));
    if img.fmt.Sparse? {
      PresentSparse(img, fb, SlotIdx(img, g), EntryIdx(img, g));
      LocateHole(img, EntryAt(img, fb, g).value.gte, r);
    } else if Lookup(img, fb, off).Ok? {
      SeLocateHole(img, fb, g, r);
    }
  }

  /**
   The scan is exact: the grain covering an in-range offset is listed exactly when a lookup
   there finds stored data. VMDK4 and COWD lookups always reach their entry after a successful
   scan; a seSparse lookup can fail, on a malformed entry the scan passes over.
   */
  lemma ScanExact(img: Image, fb: bool, off: nat)
    requires img.Valid() && !img.fmt.Flat? && off < img.size && ScanOk(img, fb)
    ensures img.fmt.Sparse? ==> (ListsOffset(img, fb, off) <==> Lookup(img, fb, off) != Ok(Hole))
    ensures Lookup(img, fb, off).Ok? ==> (ListsOffset(img, fb, off) <==> Lookup(img, fb, off).value != Hole)
  {
    hide *;
    PresentIsLookup(img, fb, off);
    ListsIsPresent(img, fb, off);
  }

  /** In a readable slot the single-entry read of `is_allocated` sees the scan's entry. */
  lemma AllocatedIsPresent(img: Image, i: nat, j: nat)
    requires !img.fmt.Flat? && j < img.GtesPerTable() && SlotReadable(img, false, i)
    ensures img.fmt.Sparse? ==> SlotAllocated(img, i, j).Ok?
    ensures SlotAllocated(img, i, j).Ok? ==> (SlotAllocated(img, i, j).value <==> SlotPresent(img, false, i, j))
  {
    if img.fmt.SeSparse? {
      hide SeSlotGte;
    }
  }

  lemma SectorInside(size: nat, lba: nat)
    requires lba < size / SECTOR
    ensures lba * SECTOR < size
  {
  }

  lemma AllocatedAtGrain(img: Image, lba: nat)
    requires img.Valid() && !img.fmt.Flat? && lba < img.size / SECTOR
    ensures AllocatedAt(img, lba) == GrainAllocated(img, GrainIdx(img, lba * SECTOR))
  {
    hide GrainAllocated, Image.Valid, GrainIdx;
  }

  /**
   Without fallback the scan agrees with `is_allocated`, sector by sector, although one reads
   whole tables and the other single entries.
   */
  lemma ScanAgreesWithIsAllocated(img: Image, lba: nat)
    requires img.Valid() && !img.fmt.Flat? && lba < img.size / SECTOR && ScanOk(img, false)
    ensures img.fmt.Sparse? ==> AllocatedAt(img, lba).Ok?
    ensures AllocatedAt(img, lba).Ok? ==> (AllocatedAt(img, lba).value <==> ListsOffset(img, false, lba * SECTOR))
  {
    hide SlotAllocated, SlotPresent, SlotReadable, ScanOk, ListsOffset, Image.Valid, AllocatedAt, GrainIdx, SlotIdx, EntryIdx;
    SectorInside(img.size, lba);
    var off := lba * SECTOR;
    var g := GrainIdx(img, off);
    SlotInRange(img, off);
    AllocatedAtGrain(img, lba);
    ListsIsPresent(img, false, off);
    ScanOkSlot(img, false, SlotIdx(img, g));
    AllocatedIsPresent(img, SlotIdx(img, g), EntryIdx(img, g));
  }
}
