/**
 What redundant-directory fallback does to the disk (core/src/recovery.rs, core/src/read.rs):
 it never changes a grain the primary tables reach, it does nothing on an image whose two
 copies agree, and it undoes pointer loss exactly when no hole was turned into a dangling
 pointer.
 */
module Recovery {
  import opened Wrappers
  import opened Arith
  import opened Bytes
  import opened Images
  import opened Scans

  /** The entry, when it names a stored grain. */
  function GrainOf(e: Result<Entry>): Option<u32> {
    if e.Ok? && e.value.gte > 1 then Some(e.value.gte) else None
  }

  // ── fallback is a conservative extension ──────────────────────────────────

  /**
   Fallback in one sentence: a grain the primary tables reach, else one the redundant table
   holds, else a hole; an error only when both tables are out of reach and the primary pointer
   is not the hole marker. The redundant directory is credited in the second case alone.
   */
  lemma FallbackMeaning(img: Image, i: nat, j: nat)
    requires img.IsSparse() && j < img.fmt.ngte
    ensures var primary := GrainOf(SlotEntry(img, false, i, j));
            var redundant := RgdGte(img, i, j);
            var e := SlotEntry(img, true, i, j);
            if primary.Some? then e == Ok(Entry(primary.value, false))
            else if redundant > 1 then e == Ok(Entry(redundant, true))
            else if Primary(img, i) == 0 || Usable(img, Primary(img, i)) || Usable(img, RgdEntry(img, i))
            then e.Ok? && e.value.gte <= 1 && !e.value.viaRgd
            else e == Err(UnexpectedEof)
  {
    hide RgdEntry, TableEntry;
  }

  /** Without fallback the redundant directory is never credited. */
  lemma NoCreditWithoutFallback(img: Image, i: nat, j: nat)
    requires img.IsSparse() && j < img.fmt.ngte
    ensures SlotEntry(img, false, i, j).Ok? ==> !SlotEntry(img, false, i, j).value.viaRgd
  {
    hide TableEntry;
  }

  /**
   On every image, healthy or not: a lookup that finds a grain without fallback finds the same
   one with it, a lookup changes only where the primary entry is sparse or unreachable, and the
   redundant directory is credited exactly when it supplies a grain the primary tables do not.
   */
  lemma FallbackIsConservative(img: Image, off: nat)
    requires img.Valid() && img.IsSparse()
    ensures var g := GrainIdx(img, off);
            var without := GrainOf(EntryAt(img, false, g));
            && (without.Some? ==> Lookup(img, true, off) == Lookup(img, false, off))
            && (AnsweredByRgd(img, true, off) <==> without.None? && GrainOf(EntryAt(img, true, g)).Some?)
            && !AnsweredByRgd(img, false, off)
  {
    hide SlotEntry, Locate, RgdGte, RgdEntry, Usable, Image.Valid, GrainIdx, SlotIdx, EntryIdx;
    var g := GrainIdx(img, off);
    FallbackMeaning(img, SlotIdx(img, g), EntryIdx(img, g));
    NoCreditWithoutFallback(img, SlotIdx(img, g), EntryIdx(img, g));
  }

  // ── agreeing copies make fallback a no-op ─────────────────────────────────

  /** Slot `i` is a hole in both directories, or both tables are readable and equal. */
  ghost predicate SlotAgrees(img: Image, i: nat)
    requires img.IsSparse()
  {
    var p, r := Primary(img, i), RgdEntry(img, i);
    (p == 0 && r == 0) || (Usable(img, p) && Usable(img, r) && Table(img, p) == Table(img, r))
  }

  /** The whole redundant directory lies in the file. */
  predicate RgdInFile(img: Image) {
    HasRgd(img) && SatAdd(SatMul(img.rgdOffset, SECTOR), 4 * img.gdCount) <= |img.file|
  }

  /** What a true `validate_rgd` verdict establishes. */
  ghost predicate RgdValid(img: Image) {
    && img.IsSparse() && RgdInFile(img) && img.gdCount == |img.fmt.gd|
    && forall i: nat :: i < |img.fmt.gd| ==> SlotAgrees(img, i)
  }

  lemma AgreeingEntries(img: Image, i: nat, j: nat)
    requires img.IsSparse() && SlotAgrees(img, i) && j < img.fmt.ngte
    ensures SlotEntry(img, true, i, j) == SlotEntry(img, false, i, j)
    ensures SlotEntry(img, false, i, j).Ok? && !SlotEntry(img, false, i, j).value.viaRgd
    ensures SlotReadable(img, true, i) && SlotReadable(img, false, i)
    ensures SlotPresent(img, true, i, j) == SlotPresent(img, false, i, j)
  {
    hide RgdEntry, TableEntry;
    var p, r := Primary(img, i), RgdEntry(img, i);
    if p != 0 {
      assert Table(img, p)[j] == TableEntry(img, p, j) && Table(img, r)[j] == TableEntry(img, r, j);
    }
  }

  /** A true verdict makes every lookup ignore fallback and credit nothing. */
  lemma ValidRgdLookup(img: Image, off: nat)
    requires img.Valid() && RgdValid(img) && off < img.size
    ensures Lookup(img, true, off) == Lookup(img, false, off)
    ensures !AnsweredByRgd(img, true, off)
  {
    hide SlotEntry, Locate, RgdValid, Image.Valid, SlotPresent, SlotReadable, GrainIdx, SlotIdx, EntryIdx, InGrain;
    SparseFromValid(img);
    SlotInRange(img, off);
    var g := GrainIdx(img, off);
    ValidSlotAgrees(img, SlotIdx(img, g));
    AgreeingEntries(img, SlotIdx(img, g), EntryIdx(img, g));
  }

  lemma ValidSlotAgrees(img: Image, i: nat)
    requires RgdValid(img) && i < |img.fmt.gd|
    ensures SlotAgrees(img, i)
  {
  }

  lemma ValidRgdSlice(img: Image, off: nat)
    requires img.Valid() && RgdValid(img)
    ensures Slice(img, true, off) == Slice(img, false, off)
  {
    hide Lookup, Fetch, RgdValid, AnsweredByRgd;
    assert img.IsSparse() by { SparseFromValid(img); }
    if off < img.size {
      ValidRgdLookup(img, off);
    }
  }

  lemma SparseFromValid(img: Image)
    requires RgdValid(img)
    ensures img.IsSparse()
  {
  }

  lemma ValidRgdScanOk(img: Image)
    requires img.Valid() && RgdValid(img)
    ensures ScanOk(img, true) && ScanOk(img, false)
  {
    hide SlotAgrees, SlotReadable;
    forall i | 0 <= i < |img.fmt.gd|
      ensures SlotReadable(img, true, i) && SlotReadable(img, false, i)
    {
      assert SlotAgrees(img, i);
      AgreeingEntries(img, i, 0);
    }
  }

  lemma ValidRgdPresent(img: Image, g: nat)
    requires img.Valid() && RgdValid(img) && g < |img.fmt.gd| * img.fmt.ngte
    ensures Present(img, true, g) == Present(img, false, g)
    ensures EntryAt(img, true, g).Ok? && !EntryAt(img, true, g).value.viaRgd
  {
    hide SlotAgrees, SlotPresent, SlotEntry, SlotReadable, RgdValid, Image.Valid, EntryIdx;
    SparseFromValid(img);
    Shape(img);
    DivLess(g, img.fmt.ngte, |img.fmt.gd|);
    ValidSlotAgrees(img, SlotIdx(img, g));
    AgreeingEntries(img, SlotIdx(img, g), EntryIdx(img, g));
  }

  lemma {:induction false} ValidRgdListed(img: Image, n: nat)
    requires img.Valid() && RgdValid(img) && n <= |img.fmt.gd| * img.fmt.ngte
    ensures Listed(img, true, n) == Listed(img, false, n)
  {
    hide Present, Image.Valid;
    SparseFromValid(img);
    if n > 0 {
      ValidRgdPresent(img, n - 1);
      hide RgdValid;
      ValidRgdListed(img, n - 1);
    }
  }

  /** A true verdict makes the whole scan identical in both modes, with nothing recovered. */
  lemma ValidRgdScan(img: Image)
    requires img.Valid() && RgdValid(img)
    ensures ScanOk(img, true) && ScanOk(img, false)
    ensures Listing(img, true) == Listing(img, false)
    ensures RecoveredByScan(img, true) == 0
  {
    hide Listed, SlotReadable, SlotAgrees;
    ValidRgdScanOk(img);
    var n := |img.fmt.gd| * img.fmt.ngte;
    ValidRgdListed(img, n);
    forall g: nat | g < n
      ensures EntryAt(img, true, g).Ok? && !EntryAt(img, true, g).value.viaRgd
    {
      ValidRgdPresent(img, g);
    }
    WholeScanCounts(img, true);
    assert RecoveredSet(img, true, n) == {};
  }

  // ── recovery from pointer loss ────────────────────────────────────────────

  /** The files agree on `n` bytes from `lo` (as far as they reach). */
  ghost predicate Untouched(a: seq<byte>, b: seq<byte>, lo: nat, n: nat) {
    |a| == |b| && Window(a, lo, n) == Window(b, lo, n)
  }

  lemma UntouchedPart(a: seq<byte>, b: seq<byte>, lo: nat, n: nat, at: nat, m: nat)
    requires Untouched(a, b, lo, n) && lo <= at && at + m <= lo + n
    ensures Untouched(a, b, at, m)
  {
    forall k | 0 <= k < |Window(a, at, m)|
      ensures Window(a, at, m)[k] == Window(b, at, m)[k]
    {
      var p := at - lo + k;
      assert Window(a, lo, n)[p] == a[at + k];
      assert Window(b, lo, n)[p] == b[at + k];
    }
  }

  lemma UntouchedU32(a: seq<byte>, b: seq<byte>, at: nat)
    requires Untouched(a, b, at, 4) && at + 4 <= |a|
    ensures LeU32(a, at) == LeU32(b, at)
  {
    LeU32Cong(a, at, b, at);
  }

  /** Directory loss: unchanged, zeroed, or pointing to a table that does not fit the file. */
  predicate PointerLoss(u: Image, d: Image, i: nat)
    requires u.IsSparse() && d.IsSparse()
  {
    || Primary(d, i) == Primary(u, i)
    || Primary(d, i) == 0
    || Primary(d, i) * SECTOR + u.fmt.ngte * 4 > |u.file|
  }

  /** Entry loss in the table of slot `i`: unchanged, or set to one of the two sparse values. */
  ghost predicate EntryLoss(u: Image, d: Image, i: nat)
    requires u.IsSparse() && d.IsSparse() && d.fmt.ngte == u.fmt.ngte && |d.file| == |u.file|
  {
    Usable(u, Primary(u, i)) ==>
      forall j: nat :: j < u.fmt.ngte ==>
        TableEntry(d, Primary(u, i), j) == TableEntry(u, Primary(u, i), j) || TableEntry(d, Primary(u, i), j) <= 1
  }

  /** The stored bytes of the grain at `gte`, marker included when compressed. */
  ghost predicate GrainUntouched(u: Image, d: Image, gte: u32)
    requires u.IsSparse()
  {
    if u.fmt.compressed then
      && Untouched(u.file, d.file, gte * SECTOR, 12)
      && (gte * SECTOR + 12 <= |u.file| ==>
            Untouched(u.file, d.file, gte * SECTOR + 12, LeU32(u.file, gte * SECTOR + 8)))
    else
      Untouched(u.file, d.file, gte * SECTOR, u.fmt.grain)
  }

  /** Every byte recovery needs survives: redundant directory, redundant tables, grains. */
  ghost predicate CopyUntouched(u: Image, d: Image)
    requires u.IsSparse()
  {
    && Untouched(u.file, d.file, SatMul(u.rgdOffset, SECTOR), 4 * u.gdCount)
    && (forall i: nat :: i < |u.fmt.gd| && RgdEntry(u, i) != 0 ==>
          Untouched(u.file, d.file, RgdEntry(u, i) * SECTOR, 4 * u.fmt.ngte))
    && (forall i: nat, j: nat :: i < |u.fmt.gd| && j < u.fmt.ngte && RgdGte(u, i, j) > 1 ==>
          GrainUntouched(u, d, RgdGte(u, i, j)))
  }

  /** `d` is `u` after losing primary directory and table entries, and nothing else it needs. */
  ghost predicate Damaged(u: Image, d: Image) {
    && u.IsSparse() && d.IsSparse()
    && d.fmt == u.fmt.(gd := d.fmt.gd) && |d.fmt.gd| == |u.fmt.gd|
    && |d.file| == |u.file| && d.size == u.size
    && d.rgdOffset == u.rgdOffset && d.gdCount == u.gdCount && d.inflate == u.inflate
    && (forall i: nat :: i < |u.fmt.gd| ==> PointerLoss(u, d, i) && EntryLoss(u, d, i))
    && CopyUntouched(u, d)
  }

  /** No hole of the primary directory was turned into a dangling pointer. */
  ghost predicate HolesKept(u: Image, d: Image)
    requires u.IsSparse() && d.IsSparse()
  {
    forall i: nat :: i < |u.fmt.gd| ==> HoleKept(u, d, i)
  }

  /** The same, told from the damaged image alone: a redundant hole is a primary hole. */
  ghost predicate NoDanglingHole(d: Image)
    requires d.IsSparse()
  {
    forall i: nat :: i < |d.fmt.gd| && RgdEntry(d, i) == 0 ==> Primary(d, i) == 0
  }

  lemma RgdEntrySurvives(u: Image, d: Image, i: nat)
    requires RgdValid(u) && Damaged(u, d) && i < |u.fmt.gd|
    ensures RgdEntry(d, i) == RgdEntry(u, i)
  {
    var lo := SatMul(u.rgdOffset, SECTOR);
    var at := lo + 4 * i;
    UntouchedPart(u.file, d.file, lo, 4 * u.gdCount, at, 4);
    UntouchedU32(u.file, d.file, at);
  }

  lemma RgdGteSurvives(u: Image, d: Image, i: nat, j: nat)
    requires RgdValid(u) && Damaged(u, d) && i < |u.fmt.gd| && j < u.fmt.ngte
    ensures RgdGte(d, i, j) == RgdGte(u, i, j)
  {
    hide RgdValid, RgdEntry;
    RgdEntrySurvives(u, d, i);
    var r := RgdEntry(u, i);
    if Usable(u, r) {
      UntouchedPart(u.file, d.file, r * SECTOR, 4 * u.fmt.ngte, r * SECTOR + 4 * j, 4);
      UntouchedU32(u.file, d.file, r * SECTOR + 4 * j);
    }
  }

  /** In an agreeing image the redundant entry is the primary one. */
  lemma RgdGteIsPrimary(u: Image, i: nat, j: nat)
    requires u.IsSparse() && SlotAgrees(u, i) && j < u.fmt.ngte
    ensures SlotEntry(u, false, i, j) == Ok(Entry(RgdGte(u, i, j), false))
  {
    hide RgdEntry, TableEntry;
    var p, r := Primary(u, i), RgdEntry(u, i);
    if p != 0 {
      assert Table(u, p)[j] == TableEntry(u, p, j) && Table(u, r)[j] == TableEntry(u, r, j);
    }
  }

  /** A surviving entry with fallback is the undamaged one, or both are sparse. */
  lemma EntryRecovered(u: Image, d: Image, i: nat, j: nat)
    requires RgdValid(u) && Damaged(u, d) && i < |u.fmt.gd| && j < u.fmt.ngte
    requires HoleKept(u, d, i)
    ensures SlotEntry(d, true, i, j).Ok?
    ensures var x, y := RgdGte(u, i, j), SlotEntry(d, true, i, j).value.gte;
            y == x || (x <= 1 && y <= 1)
  {
    hide RgdEntry, TableEntry, CopyUntouched, Table;
    RgdEntrySurvives(u, d, i);
    RgdGteSurvives(u, d, i, j);
    FallbackMeaning(d, i, j);
    RgdGteIsPrimary(u, i, j);
    var p := Primary(d, i);
    assert PointerLoss(u, d, i) && EntryLoss(u, d, i);
    if GrainOf(SlotEntry(d, false, i, j)).Some? {
      assert p == Primary(u, i) && Usable(u, p);
      assert TableEntry(d, p, j) == TableEntry(u, p, j);
    }
  }

  lemma PlainGrainSurvives(u: Image, d: Image, gte: u32, r: nat, n: nat)
    requires u.IsSparse() && d.IsSparse() && !u.fmt.compressed && d.fmt == u.fmt.(gd := d.fmt.gd)
    requires |d.file| == |u.file| && gte > 1 && GrainUntouched(u, d, gte)
    requires r + n <= u.fmt.grain
    ensures Locate(d, gte, r) == Locate(u, gte, r) == Ok(At(gte * SECTOR + r))
    ensures Window(d.file, gte * SECTOR + r, n) == Window(u.file, gte * SECTOR + r, n)
  {
    hide Window;
    UntouchedPart(u.file, d.file, gte * SECTOR, u.fmt.grain, gte * SECTOR + r, n);
  }

  lemma PackedGrainSurvives(u: Image, d: Image, gte: u32, r: nat)
    requires u.IsSparse() && d.IsSparse() && u.fmt.compressed && d.fmt == u.fmt.(gd := d.fmt.gd) && d.inflate == u.inflate
    requires |d.file| == |u.file| && gte > 1 && GrainUntouched(u, d, gte)
    ensures Locate(d, gte, r) == Locate(u, gte, r)
    ensures Locate(u, gte, r).Ok? ==>
              && Locate(u, gte, r).value.Packed?
              && var loc := Locate(u, gte, r).value; Unpack(d, loc.dataOff, loc.dataSize) == Unpack(u, loc.dataOff, loc.dataSize)
  {
    hide Window, LeU32;
    var at := gte * SECTOR;
    if at + 12 <= |u.file| {
      UntouchedPart(u.file, d.file, at, 12, at + 8, 4);
      UntouchedU32(u.file, d.file, at + 8);
    }
  }

  /** An intact grain reads the same from both files. */
  lemma GrainSurvives(u: Image, d: Image, gte: u32, r: nat, n: nat)
    requires u.IsSparse() && d.IsSparse() && d.fmt == u.fmt.(gd := d.fmt.gd) && d.inflate == u.inflate
    requires |d.file| == |u.file| && gte > 1 && GrainUntouched(u, d, gte)
    requires r + n <= u.fmt.grain
    ensures Locate(d, gte, r) == Locate(u, gte, r)
    ensures Locate(u, gte, r).Ok? ==> Fetch(d, Locate(u, gte, r).value, n) == Fetch(u, Locate(u, gte, r).value, n)
  {
    hide Locate, Window, Unpack, GrainUntouched;
    if u.fmt.compressed {
      PackedGrainSurvives(u, d, gte, r);
    } else {
      PlainGrainSurvives(u, d, gte, r, n);
    }
  }

  lemma DamagedValid(u: Image, d: Image)
    requires u.Valid() && Damaged(u, d)
    ensures d.Valid()
  {
    hide CopyUntouched, PointerLoss, EntryLoss;
    forall g: nat | d.GrainInDisk(g)
      ensures g / d.fmt.ngte < |d.fmt.gd|
    {
      assert u.GrainInDisk(g);
    }
    forall i: nat | i < |d.fmt.gd|
      ensures d.SlotInDisk(i)
    {
      assert u.SlotInDisk(i);
    }
  }

  /** Slot `i` did not lose a hole. */
  predicate HoleKept(u: Image, d: Image, i: nat)
    requires u.IsSparse() && d.IsSparse()
  {
    Primary(u, i) == 0 ==> Primary(d, i) == 0
  }

  /** Where the slot of an offset kept its hole, the lookup finds the same data. */
  lemma LookupRecovered(u: Image, d: Image, i: nat, j: nat, r: nat, n: nat)
    requires RgdValid(u) && Damaged(u, d) && i < |u.fmt.gd| && j < u.fmt.ngte && r + n <= u.fmt.grain
    requires HoleKept(u, d, i)
    ensures SlotEntry(u, false, i, j).Ok? && SlotEntry(d, true, i, j).Ok?
    ensures var a := Locate(u, SlotEntry(u, false, i, j).value.gte, r);
            var b := Locate(d, SlotEntry(d, true, i, j).value.gte, r);
            a == b && (a.Ok? ==> Fetch(d, a.value, n) == Fetch(u, a.value, n))
  {
    hide SlotEntry, Locate, Fetch, RgdEntry, RgdGte, PointerLoss, EntryLoss, SlotAgrees, GrainUntouched, Untouched;
    assert SlotAgrees(u, i);
    RgdGteIsPrimary(u, i, j);
    EntryRecovered(u, d, i, j);
    var x, y := RgdGte(u, i, j), SlotEntry(d, true, i, j).value.gte;
    LocateHole(u, x, r);
    LocateHole(d, y, r);
    if x > 1 {
      GrainSurvives(u, d, x, r, n);
    } else {
      HoleFetch(u, n);
      HoleFetch(d, n);
    }
  }

  /** Where the directory slot of `off` kept its hole, the read is the undamaged one. */
  lemma SliceRecovered(u: Image, d: Image, off: nat)
    requires u.Valid() && d.Valid() && RgdValid(u) && Damaged(u, d) && off < u.size
    requires HoleKept(u, d, SlotIdx(u, GrainIdx(u, off)))
    ensures Slice(d, true, off) == Slice(u, false, off)
  {
    hide SlotEntry, Locate, Fetch, RgdValid, CopyUntouched, PointerLoss, EntryLoss, HoleKept, Image.Valid;
    var g := GrainIdx(u, off);
    SlotInRange(u, off);
    ReachInGrain(u, off);
    LookupRecovered(u, d, SlotIdx(u, g), EntryIdx(u, g), InGrain(u, off), Reach(u, off));
  }

  lemma ReachInGrain(img: Image, off: nat)
    requires img.Valid() && !img.fmt.Flat? && off < img.size
    ensures InGrain(img, off) + Reach(img, off) <= img.fmt.grain
  {
    hide Image.Valid, InGrain;
  }

  lemma HoleFetch(img: Image, n: nat)
    ensures Fetch(img, Hole, n) == Ok(Zeros(n))
  {
  }

  /** A hole turned into a dangling pointer is not recovered: the read fails. */
  lemma LostHoleFails(u: Image, d: Image, i: nat)
    requires u.Valid() && d.Valid() && RgdValid(u) && Damaged(u, d) && i < |u.fmt.gd|
    requires Primary(u, i) == 0 && Primary(d, i) != 0
    ensures u.SlotStart(i) < u.size
    ensures Slice(u, false, u.SlotStart(i)).Ok?
    ensures Slice(d, true, u.SlotStart(i)) == Err(UnexpectedEof)
  {
    hide CopyUntouched, Table, TableEntry, RgdEntry, Fetch, Locate;
    assert u.SlotInDisk(i);
    var g := i * u.fmt.ngte;
    var off := g * u.fmt.grain;
    DivModUnique(g, 0, u.fmt.grain);
    DivModUnique(i, 0, u.fmt.ngte);
    RgdEntrySurvives(u, d, i);
    assert SlotAgrees(u, i);
    assert PointerLoss(u, d, i);
    LocateHole(u, 0, 0);
    HoleFetch(u, Reach(u, off));
  }

  /** The damaged image shows whether a hole was lost, because the redundant directory kept it. */
  lemma HolesKeptIsVisible(u: Image, d: Image)
    requires RgdValid(u) && Damaged(u, d)
    ensures HolesKept(u, d) <==> NoDanglingHole(d)
  {
    hide RgdEntry, Table, CopyUntouched, PointerLoss, EntryLoss;
    forall i: nat | i < |u.fmt.gd|
      ensures HoleKept(u, d, i) <==> (RgdEntry(d, i) == 0 ==> Primary(d, i) == 0)
    {
      assert SlotAgrees(u, i);
      RgdEntrySurvives(u, d, i);
    }
    if NoDanglingHole(d) {
      forall i: nat | i < |u.fmt.gd|
        ensures HoleKept(u, d, i)
      {
        assert RgdEntry(d, i) == 0 ==> Primary(d, i) == 0;
      }
    }
  }

  /**
   Recovery is exact. After any loss of primary directory and table entries, fallback reads the
   undamaged image's bytes at every offset if and only if, in the damaged image, no primary
   pointer stands where the redundant directory has a hole.
   */
  lemma RecoveryIsExact(u: Image, d: Image)
    requires u.Valid() && RgdValid(u) && Damaged(u, d)
    ensures d.Valid()
    ensures (forall off: nat :: off < u.size ==> Slice(d, true, off) == Slice(u, false, off)) <==> NoDanglingHole(d)
  {
    hide CopyUntouched, EntryLoss, PointerLoss, Slice, SlotAgrees, RgdInFile, NoDanglingHole;
    hide Image.Valid, Image.SlotStart, GrainIdx, SlotIdx;
    DamagedValid(u, d);
    HolesKeptIsVisible(u, d);
    if HolesKept(u, d) {
      forall off: nat | off < u.size
        ensures Slice(d, true, off) == Slice(u, false, off)
      {
        SlotInRange(u, off);
        SliceRecovered(u, d, off);
      }
    } else {
      var i: nat :| i < |u.fmt.gd| && !HoleKept(u, d, i);
      LostHoleFails(u, d, i);
      var off := u.SlotStart(i);
      assert Slice(d, true, off) != Slice(u, false, off);
    }
  }

  /** The disk itself: what a sound undamaged image holds is what recovery reads back. */
  lemma RecoveredDisk(u: Image, d: Image)
    requires u.Valid() && RgdValid(u) && Damaged(u, d) && d.IsSparse() && NoDanglingHole(d) && Sound(u, false)
    ensures d.Valid() && Sound(d, true) && Disk(d, true) == Disk(u, false)
  {
    hide RgdValid, Damaged, NoDanglingHole, Slice;
    RecoveryIsExact(u, d);
    assert d.size == u.size by { SameSize(u, d); }
    forall off: nat | off < u.size
      ensures ByteAt(d, true, off) == ByteAt(u, false, off)
    {
      assert Slice(d, true, off) == Slice(u, false, off);
    }
    assert forall off :: 0 <= off < u.size ==> Disk(d, true)[off] == Disk(u, false)[off];
  }

  // ── the scan is recovered with the reads ──────────────────────────────────

  /** A damaged slot's table can be scanned exactly when the slot did not lose a hole. */
  lemma SlotScannable(u: Image, d: Image, i: nat)
    requires RgdValid(u) && Damaged(u, d) && i < |u.fmt.gd|
    ensures SlotReadable(d, true, i) <==> HoleKept(u, d, i)
  {
    hide RgdEntry, Table, CopyUntouched, EntryLoss;
    assert SlotAgrees(u, i) && PointerLoss(u, d, i);
    RgdEntrySurvives(u, d, i);
  }

  /** Entry by entry: presence is the undamaged one, and a lost grain is one the redundant table answers. */
  lemma EntryScanned(u: Image, d: Image, i: nat, j: nat)
    requires RgdValid(u) && Damaged(u, d) && i < |u.fmt.gd| && j < u.fmt.ngte && HoleKept(u, d, i)
    ensures SlotPresent(d, true, i, j) == SlotPresent(u, false, i, j)
    ensures SlotEntry(d, true, i, j).Ok?
    ensures SlotEntry(d, true, i, j).value.viaRgd <==>
            GrainOf(SlotEntry(u, false, i, j)).Some? && GrainOf(SlotEntry(d, false, i, j)).None?
  {
    hide SlotEntry, RgdGte, CopyUntouched, EntryLoss, PointerLoss, SlotAgrees, HoleKept;
    assert SlotAgrees(u, i);
    EntryRecovered(u, d, i, j);
    RgdGteIsPrimary(u, i, j);
    FallbackMeaning(d, i, j);
  }

  /** The grains below `n` that the damaged primary tables lost. */
  ghost function LostGrains(u: Image, d: Image, n: nat): set<nat>
    requires u.Valid() && d.Valid() && u.IsSparse() && d.IsSparse()
  {
    set g: nat | g < n && GrainOf(EntryAt(u, false, g)).Some? && GrainOf(EntryAt(d, false, g)).None?
  }

  lemma GrainScanned(u: Image, d: Image, g: nat)
    requires u.Valid() && d.Valid() && RgdValid(u) && Damaged(u, d) && HolesKept(u, d) && g < |u.fmt.gd| * u.fmt.ngte
    ensures Present(d, true, g) == Present(u, false, g)
    ensures EntryAt(d, true, g).Ok?
    ensures EntryAt(d, true, g).value.viaRgd <==>
            GrainOf(EntryAt(u, false, g)).Some? && GrainOf(EntryAt(d, false, g)).None?
  {
    hide SlotEntry, SlotPresent, RgdValid, CopyUntouched, PointerLoss, EntryLoss, HoleKept, Image.Valid;
    Shape(u);
    DivLess(g, u.fmt.ngte, |u.fmt.gd|);
    EntryScanned(u, d, SlotIdx(u, g), EntryIdx(u, g));
  }

  lemma {:induction false} ListedRecovered(u: Image, d: Image, n: nat)
    requires u.Valid() && d.Valid() && RgdValid(u) && Damaged(u, d) && HolesKept(u, d) && n <= |u.fmt.gd| * u.fmt.ngte
    ensures Listed(d, true, n) == Listed(u, false, n)
  {
    hide Present, Image.Valid, RgdValid, HolesKept, CopyUntouched, PointerLoss, EntryLoss;
    if n > 0 {
      GrainScanned(u, d, n - 1);
      ListedRecovered(u, d, n - 1);
    }
  }

  /**
   The scan with fallback succeeds under the same condition as the reads; it then lists what the
   undamaged scan lists, and counts as recovered exactly the grains the primary tables lost.
   */
  lemma ScanIsRecovered(u: Image, d: Image)
    requires u.Valid() && RgdValid(u) && Damaged(u, d)
    ensures d.Valid() && u.IsSparse() && d.IsSparse()
    ensures ScanOk(d, true) <==> NoDanglingHole(d)
    ensures ScanOk(d, true) ==>
              && Listing(d, true) == Listing(u, false)
              && RecoveredByScan(d, true) == |LostGrains(u, d, |u.fmt.gd| * u.fmt.ngte)|
  {
    hide RgdValid, CopyUntouched, PointerLoss, EntryLoss, NoDanglingHole, SlotReadable, HoleKept, Listed, Image.Valid;
    SparseFromValid(u);
    DamagedValid(u, d);
    HolesKeptIsVisible(u, d);
    forall i: nat | i < |u.fmt.gd|
      ensures SlotReadable(d, true, i) <==> HoleKept(u, d, i)
    {
      SlotScannable(u, d, i);
    }
    if HolesKept(u, d) {
      var n := |u.fmt.gd| * u.fmt.ngte;
      ListedRecovered(u, d, n);
      WholeScanCounts(d, true);
      RecoveredAreLost(u, d, n);
    }
  }

  lemma RecoveredAreLost(u: Image, d: Image, n: nat)
    requires u.Valid() && d.Valid() && RgdValid(u) && Damaged(u, d) && HolesKept(u, d) && n <= |u.fmt.gd| * u.fmt.ngte
    ensures RecoveredSet(d, true, n) == LostGrains(u, d, n)
  {
    hide RgdValid, HolesKept, CopyUntouched, PointerLoss, EntryLoss, Image.Valid, EntryAt, Present;
    forall g: nat | g < n
      ensures g in RecoveredSet(d, true, n) <==> g in LostGrains(u, d, n)
    {
      GrainScanned(u, d, g);
    }
  }

  lemma SameSize(u: Image, d: Image)
    requires Damaged(u, d)
    ensures d.size == u.size
  {
  }
}
