/**
 When the overlay holds (core/src/chain.rs, the clamp of `open` and `read`): chains of files with
 given grain sizes always read as the overlay of their layers exactly when the smallest grain
 size divides all the others.
 */
module ChainExactness {
  import opened Wrappers
  import opened Arith
  import opened Bytes
  import opened Headers
  import opened Descriptors
  import opened Images
  import opened Opening
  import opened Chains
  import opened Builders
  import opened ExtentBuilders

  /** Every read of the chain, from any position, returns merged bytes. */
  ghost predicate ReadsOverlay(imgs: seq<Image>)
    requires imgs != [] && forall i :: i in imgs ==> i.Valid()
  {
    forall pos: nat :: var s := ChainSlice(imgs, imgs[0].size, MinGrain(imgs), pos); s.Ok? ==> OverlayBytes(imgs, pos, s.value)
  }

  /** The largest grain size a header can carry. No disk that has it is larger than one grain. */
  const LARGEST_GRAIN := (U32_LIMIT - 1) * SECTOR

  /** A grain size in bytes that some file opens with. */
  predicate FileGrain(g: nat) {
    g % SECTOR == 0 && SECTOR <= g <= LARGEST_GRAIN
  }

  /** The smallest size divides every other, apart from the one no disk has a second grain of. */
  predicate AllMultiples(grains: seq<nat>) {
    forall k :: 0 <= k < |grains| ==>
      Least(grains) > 0 && (grains[k] % Least(grains) == 0 || grains[k] == LARGEST_GRAIN)
  }

  /** What every file opens as: a well-formed image in grains, of one grain at most when that is the largest. */
  ghost predicate InGrains(img: Image) {
    img.Valid() && !img.fmt.Flat? && FileGrain(img.fmt.grain) && (img.fmt.grain == LARGEST_GRAIN ==> img.size <= LARGEST_GRAIN)
  }

  lemma OpenedInGrains(file: File, tools: Tools)
    requires OpenStream(file, tools).Ok?
    ensures InGrains(OpenStream(file, tools).value.img)
  {
    hide ParseSparse, ParseCowd, ParseSe, ReadDescriptorOf, NumTables, GdOffset, CowdTables, SeTables, LeTable32, LeTable64, Image.Valid;
    OpenedIsValid(file, tools);
    Shape(OpenStream(file, tools).value.img);
  }

  /** The files open as images with these grain sizes. */
  ghost predicate OpenAs(files: seq<File>, grains: seq<nat>, tools: Tools) {
    && |files| == |grains|
    && forall k :: 0 <= k < |files| ==>
         && OpenStream(files[k], tools).Ok?
         && GrainSize(OpenStream(files[k], tools).value.img) == grains[k]
  }

  /** The layers a list of files opens as. */
  function Layers(files: seq<File>, tools: Tools): (imgs: seq<Image>)
    requires forall k :: 0 <= k < |files| ==> OpenStream(files[k], tools).Ok?
    ensures |imgs| == |files|
    ensures forall k :: 0 <= k < |files| ==> imgs[k] == OpenStream(files[k], tools).value.img
    ensures forall i :: i in imgs ==> i.Valid()
  {
    var imgs := seq(|files|, k requires 0 <= k < |files| => OpenStream(files[k], tools).value.img);
    assert forall i :: i in imgs ==> i.Valid() by { LayersValid(files, tools, imgs); }
    imgs
  }

  lemma LayersValid(files: seq<File>, tools: Tools, imgs: seq<Image>)
    requires |imgs| == |files|
    requires forall k :: 0 <= k < |files| ==> OpenStream(files[k], tools).Ok? && imgs[k] == OpenStream(files[k], tools).value.img
    ensures forall i :: i in imgs ==> i.Valid() && InGrains(i)
  {
    hide OpenStream, Image.Valid;
    forall i | i in imgs
      ensures i.Valid() && InGrains(i)
    {
      var k :| 0 <= k < |imgs| && imgs[k] == i;
      OpenedInGrains(files[k], tools);
    }
  }

  lemma LayerGrains(files: seq<File>, grains: seq<nat>, tools: Tools)
    requires OpenAs(files, grains, tools)
    ensures GrainSizes(Layers(files, tools)) == grains
  {
    hide OpenStream;
  }

  // ── divisible sizes: every chain of files is an overlay ───────────────────

  /** Layers whose grain sizes are multiples of the smallest read as their overlay. */
  lemma ReadsAreOverlay(imgs: seq<Image>)
    requires imgs != [] && forall i :: i in imgs ==> i.Valid() && InGrains(i)
    requires AllMultiples(GrainSizes(imgs))
    ensures ReadsOverlay(imgs)
  {
    hide Image.Valid, InGrains, Least, ChainSlice, OverlayBytes;
    MultiplesDivide(imgs, GrainSizes(imgs));
    forall pos: nat | ChainSlice(imgs, imgs[0].size, MinGrain(imgs), pos).Ok?
      ensures OverlayBytes(imgs, pos, ChainSlice(imgs, imgs[0].size, MinGrain(imgs), pos).value)
    {
      ChainSliceIsOverlay(imgs, MinGrain(imgs), pos);
    }
  }

  lemma MultiplesDivide(imgs: seq<Image>, grains: seq<nat>)
    requires (forall i :: i in imgs ==> i.Valid() && InGrains(i)) && GrainSizes(imgs) == grains && grains != []
    requires AllMultiples(grains)
    ensures ClampDivides(imgs, MinGrain(imgs))
  {
    hide Least, Image.Valid;
    MinGrainIsMin(imgs);
    forall l | l in imgs
      ensures MinGrain(imgs) > 0 && MinGrain(imgs) % SECTOR == 0
      ensures l.fmt.grain % MinGrain(imgs) == 0 || l.size <= l.fmt.grain
    {
      var k :| 0 <= k < |imgs| && imgs[k] == l;
      assert grains[k] == l.fmt.grain;
      var least :| least in imgs && !least.fmt.Flat? && least.fmt.grain == MinGrain(imgs);
    }
  }

  // ── any other sizes: a chain of files that masks data ─────────────────────

  // Both kinds of layer are COWD files, whose header holds every grain size.

  /** The header of a layer of `size` bytes. */
  function LayerHeader(size: nat, g: nat): (h: CowdHeader)
    requires FileGrain(g) && size <= LARGEST_GRAIN
    ensures h.grainSize > 0 && h.grainSize * SECTOR == g
    ensures size % SECTOR == 0 ==> h.capacity * SECTOR == size
  {
    CowdHeader(size / SECTOR, g / SECTOR)
  }

  lemma FewTables(h: CowdHeader)
    requires h.grainSize > 0
    ensures CowdTables(h) <= h.capacity
  {
    hide DivCeil;
    CeilBelow(h.capacity, h.grainSize);
    CeilBelow(DivCeil(h.capacity, h.grainSize), COWD_GTES_PER_GT);
  }

  /** A layer of `size` bytes that stores nothing. */
  function HolesFile(size: nat, g: nat): (f: File)
    requires FileGrain(g) && size <= LARGEST_GRAIN
    ensures |f| == COWD_GD_SECTOR * SECTOR + 4 * CowdTables(LayerHeader(size, g))
  {
    var h := LayerHeader(size, g);
    FewTables(h);
    Padded(CowdFields(h), 512) + Zeros(3 * SECTOR + 4 * CowdTables(h))
  }

  lemma ZeroTable(b: seq<byte>)
    requires forall k :: 0 <= k < |b| ==> b[k] == 0
    ensures forall j :: 0 <= j < |LeTable32(b)| ==> LeTable32(b)[j] == 0
  {
  }

  /** No entry of the directory names a table. */
  predicate EmptyDirectory(img: Image) {
    img.IsSparse() && forall i :: 0 <= i < |img.fmt.gd| ==> img.fmt.gd[i] == 0
  }

  lemma HolesOpen(size: nat, g: nat, tools: Tools)
    requires FileGrain(g) && size % SECTOR == 0 && size <= LARGEST_GRAIN
    ensures OpenStream(HolesFile(size, g), tools).Ok?
    ensures var img := OpenStream(HolesFile(size, g), tools).value.img;
            img.IsSparse() && img.fmt.grain == g && img.size == size && EmptyDirectory(img)
    ensures OpenStream(HolesFile(size, g), tools).value.meta.parentCid == NO_PARENT
  {
    hide OpenStream, CowdFields, CowdTables, LeTable32, LayerHeader, Padded;
    var f, h := HolesFile(size, g), LayerHeader(size, g);
    var at := COWD_GD_SECTOR * SECTOR;
    assert f[..512] == Padded(CowdFields(h), 512);
    EncodedHasCowdFields(h);
    CowdHeaderOpens(f, h, tools);
    ZeroTable(f[at..at + 4 * CowdTables(h)]);
  }

  /** A layer of one grain and one sector: the grain is a hole, and the sector, stored, starts with a 7. */
  function StoredFile(g: nat): (f: File)
    requires FileGrain(g) && g < LARGEST_GRAIN
    ensures |f| == (COWD_GRAIN_SECTOR + 1) * SECTOR
  {
    Padded(CowdFields(LayerHeader(g + SECTOR, g)), 512) + Zeros(3 * SECTOR) + OneEntry(0, COWD_GT_SECTOR, SECTOR)
    + OneEntry(1, COWD_GRAIN_SECTOR, COWD_TABLE_BYTES) + Padded([7], SECTOR)
  }

  lemma StoredRegions(g: nat)
    requires FileGrain(g) && g < LARGEST_GRAIN
    ensures var f := StoredFile(g);
            && f[..512] == Padded(CowdFields(LayerHeader(g + SECTOR, g)), 512)
            && LeU32(f, COWD_GD_SECTOR * SECTOR) == COWD_GT_SECTOR
            && LeU32(f, COWD_GT_SECTOR * SECTOR) == 0 && LeU32(f, COWD_GT_SECTOR * SECTOR + 4) == COWD_GRAIN_SECTOR
            && f[COWD_GRAIN_SECTOR * SECTOR] == 7
  {
    hide LeU32, CowdFields, OneEntry, LayerHeader;
    var f := StoredFile(g);
    var gd, gt := COWD_GD_SECTOR * SECTOR, COWD_GT_SECTOR * SECTOR;
    assert f[gd..gd + SECTOR] == OneEntry(0, COWD_GT_SECTOR, SECTOR);
    assert f[gt..gt + COWD_TABLE_BYTES] == OneEntry(1, COWD_GRAIN_SECTOR, COWD_TABLE_BYTES);
    TableIn(f, gd, 0, COWD_GT_SECTOR, SECTOR, 0);
    TableIn(f, gt, 1, COWD_GRAIN_SECTOR, COWD_TABLE_BYTES, 0);
    TableIn(f, gt, 1, COWD_GRAIN_SECTOR, COWD_TABLE_BYTES, 1);
    assert f[COWD_GRAIN_SECTOR * SECTOR] == Padded([7], SECTOR)[0];
  }

  lemma TwoGrainsOneTable(g: nat)
    requires FileGrain(g) && g < LARGEST_GRAIN
    ensures CowdTables(LayerHeader(g + SECTOR, g)) == 1
  {
    hide DivCeil;
    var s := g / SECTOR;
    DivCeilBounds(s + 1, s, 1);
    DivCeilBounds(s + 1, s, 2);
    var n := DivCeil(s + 1, s);
    DivCeilBounds(n, COWD_GTES_PER_GT, 0);
    DivCeilBounds(n, COWD_GTES_PER_GT, 1);
  }

  /** What `StoredFile` opens as. */
  function StoredImage(g: nat, tools: Tools): Image
    requires FileGrain(g) && g < LARGEST_GRAIN
  {
    Image(StoredFile(g), Sparse([COWD_GT_SECTOR], g, COWD_GTES_PER_GT, false), g + SECTOR, 0, 0, tools.inflate)
  }

  lemma StoredDirectory(g: nat)
    requires FileGrain(g) && g < LARGEST_GRAIN
    ensures var gd := COWD_GD_SECTOR * SECTOR; LeTable32(StoredFile(g)[gd..gd + 4]) == [COWD_GT_SECTOR]
  {
    hide LeU32, StoredFile;
    StoredRegions(g);
    var gd := COWD_GD_SECTOR * SECTOR;
    LeU32Slice(StoredFile(g), gd, gd + 4, 0);
  }

  lemma StoredOpens(g: nat, tools: Tools)
    requires FileGrain(g) && g < LARGEST_GRAIN
    ensures OpenStream(StoredFile(g), tools).Ok?
    ensures OpenStream(StoredFile(g), tools).value.img == StoredImage(g, tools)
  {
    hide OpenStream, CowdFields, CowdTables, LeU32, LeTable32, Padded, StoredFile, CowdHasFields, LayerHeader;
    var h := LayerHeader(g + SECTOR, g);
    StoredRegions(g);
    StoredDirectory(g);
    TwoGrainsOneTable(g);
    EncodedHasCowdFields(h);
    CowdHeaderOpens(StoredFile(g), h, tools);
  }

  /** The stored layer: nothing before its second grain, a 7 at its start. */
  lemma StoredHolds(g: nat, tools: Tools, off: nat)
    requires FileGrain(g) && g < LARGEST_GRAIN && StoredImage(g, tools).Valid() && off < g
    ensures AllocatedAt(StoredImage(g, tools), off / SECTOR) == Ok(false)
    ensures AllocatedAt(StoredImage(g, tools), g / SECTOR) == Ok(true)
    ensures ByteAt(StoredImage(g, tools), false, g) == Some(7)
  {
    hide StoredFile, LeU32, Image.Valid, AllocatedAt, Lookup, ByteAt;
    var img := StoredImage(g, tools);
    StoredRegions(g);
    DivModUnique(0, off, g);
    DivModUnique(1, 0, g);
    AllocatedFrom(img, off);
    AllocatedFrom(img, g);
    assert Lookup(img, false, g) == Ok(At(COWD_GRAIN_SECTOR * SECTOR)) by { StoredLookup(g, tools); }
    StoredByte(img, false, g, COWD_GRAIN_SECTOR * SECTOR);
  }

  lemma StoredLookup(g: nat, tools: Tools)
    requires FileGrain(g) && g < LARGEST_GRAIN && StoredImage(g, tools).Valid()
    ensures Lookup(StoredImage(g, tools), false, g) == Ok(At(COWD_GRAIN_SECTOR * SECTOR))
  {
    hide StoredFile, LeU32, Image.Valid;
    StoredRegions(g);
    DivModUnique(1, 0, g);
  }

  lemma EmptyStoresNothing(img: Image, lba: nat)
    requires img.Valid() && EmptyDirectory(img)
    ensures AllocatedAt(img, lba) == Ok(false)
  {
    hide Image.Valid, GrainIdx, SlotIdx, EntryIdx;
  }

  /** A block that starts before the stored grain and ends inside it reads as zeros throughout. */
  lemma BlockMasked(imgs: seq<Image>, m: nat, g: nat, c: nat)
    requires (forall i :: i in imgs ==> i.Valid()) && m < |imgs|
    requires 0 < c == MinGrain(imgs) < g && g % c != 0 && imgs[0].size > g
    requires forall k: nat :: k < |imgs| ==> AllocatedAt(imgs[k], g / c * c / SECTOR) == Ok(false)
    requires forall k: nat :: k < |imgs| && k != m ==> AllocatedAt(imgs[k], g / SECTOR) == Ok(false)
    requires AllocatedAt(imgs[m], g / SECTOR) == Ok(true) && ByteAt(imgs[m], false, g) == Some(7)
    ensures !ReadsOverlay(imgs)
  {
    hide AllocatedAt, ByteAt, Image.Valid, MinGrain, Answering;
    var pos := g / c * c;
    DivMod(g, c);
    DivModUnique(g / c, 0, c);
    AnsweringIs(imgs, pos / SECTOR, |imgs|);
    var n := Min(imgs[0].size - pos, c);
    assert ChainSlice(imgs, imgs[0].size, c, pos) == Ok(Zeros(n));
    if OverlayBytes(imgs, pos, Zeros(n)) {
      assert OverlayByte(imgs, pos + (g - pos), Zeros(n)[g - pos]);
      assert Newest(imgs, g / SECTOR, m);
      assert OverlayByte(imgs, g, 7);
      OverlayUnique(imgs, g, 0, 7);
    }
  }

  /** Sizes of which the `m`-th leaves room for a second grain. */
  predicate Maskable(grains: seq<nat>, m: nat) {
    m < |grains| && grains[m] < LARGEST_GRAIN && forall k :: 0 <= k < |grains| ==> FileGrain(grains[k])
  }

  function MaskingFile(g: nat, stored: bool, grain: nat): File
    requires FileGrain(g) && g < LARGEST_GRAIN && FileGrain(grain)
  {
    if stored then StoredFile(g) else HolesFile(g + SECTOR, grain)
  }

  /** For sizes that are not multiples of the smallest: files that open with them and mask data. */
  function MaskingFiles(grains: seq<nat>, m: nat): (files: seq<File>)
    requires Maskable(grains, m)
    ensures |files| == |grains|
  {
    var g := grains[m];
    seq(|grains|, k requires 0 <= k < |grains| => MaskingFile(g, k == m, grains[k]))
  }

  lemma MaskingOpens(grains: seq<nat>, m: nat, k: nat, tools: Tools)
    requires Maskable(grains, m) && k < |grains|
    ensures OpenStream(MaskingFiles(grains, m)[k], tools).Ok?
    ensures var img := OpenStream(MaskingFiles(grains, m)[k], tools).value.img;
            && img.IsSparse() && img.fmt.grain == grains[k] && img.size == grains[m] + SECTOR
            && (if k == m then img == StoredImage(grains[m], tools) else EmptyDirectory(img))
  {
    hide OpenStream, StoredFile, HolesFile;
    if k == m {
      StoredOpens(grains[m], tools);
    } else {
      HolesOpen(grains[m] + SECTOR, grains[k], tools);
    }
  }

  /** Layer by layer: only layer `m` stores anything, from offset `grains[m]` on. */
  lemma MaskingLayer(grains: seq<nat>, m: nat, k: nat, off: nat, tools: Tools)
    requires Maskable(grains, m) && k < |grains| && off < grains[m]
    ensures OpenStream(MaskingFiles(grains, m)[k], tools).Ok?
    ensures var img := OpenStream(MaskingFiles(grains, m)[k], tools).value.img;
            && img.Valid() && img.size > grains[m]
            && AllocatedAt(img, off / SECTOR) == Ok(false)
            && (if k == m then AllocatedAt(img, grains[m] / SECTOR) == Ok(true) && ByteAt(img, false, grains[m]) == Some(7)
                else AllocatedAt(img, grains[m] / SECTOR) == Ok(false))
  {
    hide OpenStream, StoredImage, MaskingFiles, EmptyDirectory, AllocatedAt, ByteAt, Image.Valid;
    MaskingOpens(grains, m, k, tools);
    OpenedIsValid(MaskingFiles(grains, m)[k], tools);
    var img := OpenStream(MaskingFiles(grains, m)[k], tools).value.img;
    if k == m {
      StoredHolds(grains[m], tools, off);
    } else {
      EmptyStoresNothing(img, off / SECTOR);
      EmptyStoresNothing(img, grains[m] / SECTOR);
    }
  }

  lemma MaskingOpensAs(grains: seq<nat>, m: nat, tools: Tools)
    requires Maskable(grains, m)
    ensures OpenAs(MaskingFiles(grains, m), grains, tools)
  {
    hide OpenStream, MaskingFiles, StoredImage, EmptyDirectory;
    forall k: nat | k < |grains|
      ensures OpenStream(MaskingFiles(grains, m)[k], tools).Ok?
      ensures GrainSize(OpenStream(MaskingFiles(grains, m)[k], tools).value.img) == grains[k]
    {
      MaskingOpens(grains, m, k, tools);
    }
  }

  lemma MaskingMasks(grains: seq<nat>, m: nat, tools: Tools)
    requires Maskable(grains, m)
    requires Least(grains) > 0 && grains[m] % Least(grains) != 0
    ensures OpenAs(MaskingFiles(grains, m), grains, tools)
    ensures !ReadsOverlay(Layers(MaskingFiles(grains, m), tools))
  {
    hide OpenStream, MaskingFiles, Least, AllocatedAt, ByteAt, ReadsOverlay, Image.Valid, GrainSizes;
    var files, g, c := MaskingFiles(grains, m), grains[m], Least(grains);
    MaskingOpensAs(grains, m, tools);
    var imgs := Layers(files, tools);
    LayerGrains(files, grains, tools);
    LeastBelow(grains, m);
    DivMod(g, c);
    var before := g / c * c;
    forall k: nat | k < |imgs|
      ensures imgs[k].Valid() && imgs[k].size > g
      ensures AllocatedAt(imgs[k], before / SECTOR) == Ok(false)
      ensures k != m ==> AllocatedAt(imgs[k], g / SECTOR) == Ok(false)
      ensures k == m ==> AllocatedAt(imgs[k], g / SECTOR) == Ok(true) && ByteAt(imgs[k], false, g) == Some(7)
    {
      MaskingLayer(grains, m, k, before, tools);
    }
    BlockMasked(imgs, m, g, c);
  }

  lemma LeastBelow(grains: seq<nat>, m: nat)
    requires m < |grains| && grains[m] > 0 && Least(grains) > 0 && grains[m] % Least(grains) != 0
    ensures Least(grains) < grains[m]
  {
    hide Least;
    LeastIsLeast(grains);
    if grains[m] == Least(grains) {
      DivModUnique(1, 0, grains[m]);
    }
  }

  /**
   The overlay is exact in the grain sizes: every chain of files that open with these sizes reads
   as the overlay of its layers, at every position, if and only if the smallest size divides all
   the others (`AllMultiples`, which exempts the one size of which no disk has two grains).
   */
  lemma OverlayIffMultiples(grains: seq<nat>, tools: Tools)
    requires grains != [] && forall k :: 0 <= k < |grains| ==> FileGrain(grains[k])
    ensures (forall files: seq<File> :: OpenAs(files, grains, tools) ==> ReadsOverlay(Layers(files, tools)))
            <==> AllMultiples(grains)
  {
    hide OpenStream, Least, ReadsOverlay, Layers, MaskingFiles, Image.Valid, InGrains;
    if AllMultiples(grains) {
      forall files: seq<File> | OpenAs(files, grains, tools)
        ensures ReadsOverlay(Layers(files, tools))
      {
        LayerGrains(files, grains, tools);
        LayersValid(files, tools, Layers(files, tools));
        ReadsAreOverlay(Layers(files, tools));
      }
    } else {
      LeastIsLeast(grains);
      assert grains[0] > 0;
      var m :| 0 <= m < |grains| && !(Least(grains) > 0 && (grains[m] % Least(grains) == 0 || grains[m] == LARGEST_GRAIN));
      MaskingMasks(grains, m, tools);
    }
  }
}
