/**
 A snapshot chain that hides data: a VMDK4 delta over a COWD base of a smaller grain size that
 does not divide the delta's, opened by following the delta's parent hint.
 */
module ChainMasks {
  import opened Wrappers
  import opened Arith
  import opened Bytes
  import opened Headers
  import opened Texts
  import opened Descriptors
  import opened Images
  import opened Opening
  import opened ChainOpening
  import opened Extents
  import opened Chains
  import opened Builders
  import opened ChainExactness
  import opened ChainFiles
  import opened DescriptorForms

  /** What the delta's descriptor says: content 2 over content 1, in the file `b`. */
  const CHILD := Described("monolithicSparse", 2, 1, Some("b"), [], [])

  function ChildText(): string {
    TextOf(CHILD)
  }

  // ── the delta's descriptor ────────────────────────────────────────────────

  lemma {:induction false} PlainText(lines: seq<string>)
    requires forall k :: 0 <= k < |lines| ==> PlainAscii(lines[k])
    ensures PlainAscii(Text(lines))
  {
    if lines != [] {
      PlainText(lines[1..]);
      assert PlainAscii(lines[0]) && PlainAscii("\n");
    }
  }

  function TextSize(lines: seq<string>): nat {
    if lines == [] then 0 else |lines[0]| + 1 + TextSize(lines[1..])
  }

  lemma {:induction false} TextLength(lines: seq<string>)
    ensures |Text(lines)| == TextSize(lines)
  {
    if lines != [] {
      TextLength(lines[1..]);
    }
  }

  lemma PlainLiterals()
    ensures PlainAscii("# Disk DescriptorFile") && |"# Disk DescriptorFile"| == 21
    ensures PlainAscii("version=1") && |"version=1"| == 9
  {
  }

  lemma PlainKeys()
    ensures PlainAscii("CID=") && PlainAscii("parentCID=") && PlainAscii("createType=") && PlainAscii("\"")
    ensures |"CID="| == 4 && |"parentCID="| == 10 && |"createType="| == 11 && |"parentFileNameHint="| == 19
  {
  }

  lemma PlainValues()
    ensures PlainAscii("parentFileNameHint=") && PlainAscii("monolithicSparse") && PlainAscii("b")
    ensures |"monolithicSparse"| == 16 && |"b"| == 1 && Quotable("b")
  {
  }

  lemma TypeQuotable()
    ensures Quotable("monolithicSparse")
  {
  }

  lemma PlainJoin(a: string, b: string)
    requires PlainAscii(a) && PlainAscii(b)
    ensures PlainAscii(a + b)
  {
  }

  lemma PlainDigit(n: nat)
    requires n < 16
    ensures PlainAscii(Numeral(n, 16)) && |Numeral(n, 16)| == 1
  {
    hide Numeral;
    NumeralPlain(n, 16);
    NumeralSteps(n, 16);
  }

  lemma ChildLines()
    ensures Describable(CHILD)
    ensures PlainAscii(ChildText()) && |ChildText()| <= SECTOR
  {
    hide PlainAscii, Numeral, Text, Quotable;
    PlainLiterals();
    PlainKeys();
    PlainValues();
    TypeQuotable();
    PlainDigit(1);
    PlainDigit(2);
    PlainJoin("CID=", Numeral(2, 16));
    PlainJoin("parentCID=", Numeral(1, 16));
    PlainJoin("\"" + "monolithicSparse", "\"");
    PlainJoin("\"", "monolithicSparse");
    PlainJoin("createType=", Quoted("monolithicSparse"));
    PlainJoin("\"", "b");
    PlainJoin("\"" + "b", "\"");
    PlainJoin("parentFileNameHint=", Quoted("b"));
    var lines := LinesFor(CHILD);
    assert lines == ["# Disk DescriptorFile", "version=1", "CID=" + Numeral(2, 16), "parentCID=" + Numeral(1, 16),
                     "createType=" + Quoted("monolithicSparse"), "parentFileNameHint=" + Quoted("b")];
    PlainText(lines);
    TextLength(lines);
    SixLines(lines);
  }

  lemma SixLines(lines: seq<string>)
    requires |lines| == 6
    ensures TextSize(lines) == 6 + |lines[0]| + |lines[1]| + |lines[2]| + |lines[3]| + |lines[4]| + |lines[5]|
  {
    var l1 := lines[1..];
    var l2 := l1[1..];
    var l3 := l2[1..];
    var l4 := l3[1..];
    var l5 := l4[1..];
    assert TextSize(l5[1..]) == 0;
    assert TextSize(l4) == |l4[0]| + 1 + TextSize(l5);
    assert TextSize(l3) == |l3[0]| + 1 + TextSize(l4);
    assert TextSize(l2) == |l2[0]| + 1 + TextSize(l3);
    assert TextSize(l1) == |l1[0]| + 1 + TextSize(l2);
  }

  lemma ChildDescriptor()
    ensures DescriptorOf(ChildText()).Ok?
    ensures DescriptorOf(ChildText()).value.parentCid == 1
    ensures DescriptorOf(ChildText()).value.rawText == ChildText()
  {
    hide TextOf, DescriptorOf, Describable;
    ChildLines();
    DescriptorRoundTrip(CHILD);
  }

  // ── the delta ─────────────────────────────────────────────────────────────

  /** A grain size in bytes that a VMDK4 header can carry: 8 to 65536 sectors. */
  predicate HeaderGrain(g: nat) {
    g % SECTOR == 0 && 8 * SECTOR <= g <= MAX_GRAIN_SIZE_SECTORS * SECTOR
  }

  /** The sector after the delta's one stored grain. */
  function DescSector(g: nat): u64
    requires HeaderGrain(g)
  {
    6 + g / SECTOR
  }

  /** Two grains, and a descriptor after them. */
  function DeltaHeader(g: nat): SparseHeader
    requires HeaderGrain(g)
  {
    SparseHeader(1, 2 * (g / SECTOR), g / SECTOR, DescSector(g), 1, 512, 0, 1, false)
  }

  lemma DeltaFields(g: nat)
    requires HeaderGrain(g)
    ensures var h := DeltaHeader(g);
            && Writable(h) && h.capacity * SECTOR == 2 * g && h.grainSize * SECTOR == g
            && h.descriptorOffset == DescSector(g) && h.descriptorSize == 1
            && h.gdOffset == 1 && h.rgdOffset == 0 && h.numGtes == 512 && !h.compressed
  {
  }

  lemma DeltaTables(g: nat)
    requires HeaderGrain(g)
    ensures NumTables(DeltaHeader(g)) == Ok(1)
  {
    var s := g / SECTOR;
    DivModUnique(2, s - 1, s);
    assert 2 * s + (s - 1) == 3 * s - 1;
    assert (2 + 511) / 512 == 1;
  }

  /** Header, directory and table of the delta. */
  function DeltaFront(g: nat): (b: seq<byte>)
    requires HeaderGrain(g)
    ensures |b| == 6 * SECTOR
  {
    EncodeHeader(DeltaHeader(g), 1) + Padded(LeBytes32(2), SECTOR) + OneEntry(1, 6, 4 * SECTOR)
  }

  function ChildBytes(): seq<byte> {
    ChildLines();
    AsciiBytes(ChildText())
  }

  /** A delta of two grains, the second stored and starting with a 7, with its descriptor. */
  function DeltaFile(g: nat): (f: File)
    requires HeaderGrain(g)
    ensures |f| == 7 * SECTOR + g
  {
    DeltaFront(g) + Padded([7], g) + Padded(ChildBytes(), SECTOR)
  }

  lemma FrontRegions(g: nat)
    requires HeaderGrain(g)
    ensures var f := DeltaFront(g);
            && f[..512] == EncodeHeader(DeltaHeader(g), 1) && LeTable32(f[512..516]) == [2]
            && LeU32(f, 1024) == 0 && LeU32(f, 1028) == 6
  {
    hide EncodeHeader, LeBytes32, LeU32, OneEntry, DeltaHeader;
    var f := DeltaFront(g);
    assert f[512..512 + 512] == Padded(LeBytes32(2), SECTOR);
    assert f[512..516] == LeBytes32(2);
    Le32RoundTrip(2);
    assert f[1024..1024 + 4 * SECTOR] == OneEntry(1, 6, 4 * SECTOR);
    TableIn(f, 1024, 1, 6, 4 * SECTOR, 0);
    TableIn(f, 1024, 1, 6, 4 * SECTOR, 1);
  }

  lemma DeltaRegions(g: nat)
    requires HeaderGrain(g)
    ensures var f := DeltaFile(g);
            && f[..512] == EncodeHeader(DeltaHeader(g), 1) && LeTable32(f[512..516]) == [2]
            && LeU32(f, 1024) == 0 && LeU32(f, 1028) == 6 && f[6 * SECTOR] == 7
            && f[6 * SECTOR + g..] == Padded(ChildBytes(), SECTOR)
  {
    hide EncodeHeader, LeU32, LeTable32, DeltaHeader, DeltaFront, ChildBytes;
    FrontRegions(g);
    var f := DeltaFile(g);
    assert f[..6 * SECTOR] == DeltaFront(g);
    assert f[..512] == DeltaFront(g)[..512] && f[512..516] == DeltaFront(g)[512..516];
    LeU32Slice(f, 0, 6 * SECTOR, 1024);
    LeU32Slice(f, 0, 6 * SECTOR, 1028);
    assert f[6 * SECTOR] == Padded([7], g)[0];
  }

  /** What the delta opens as. */
  function DeltaImage(g: nat, tools: Tools): Image
    requires HeaderGrain(g)
  {
    Image(DeltaFile(g), Sparse([2], g, 512, false), 2 * g, 0, 1, tools.inflate)
  }

  /** The descriptor the reader finds is the text written. */
  lemma DeltaDescriptor(g: nat, tools: Tools)
    requires HeaderGrain(g)
    ensures ReadDescriptorOf(DeltaFile(g), DeltaHeader(g), tools.decoder) == DescriptorOf(ChildText())
  {
    hide DeltaFile, DescriptorOf, Decode, Padded, EncodeHeader, LeU32, DeltaHeader, Writable, AsciiBytes, ChildText;
    ChildLines();
    ChildDescriptor();
    DeltaFields(g);
    DeltaRegions(g);
    DecodePadded(ChildText(), SECTOR, tools.decoder);
    var f, at := DeltaFile(g), 6 * SECTOR + g;
    assert DescSector(g) * SECTOR == at;
    assert f[at..at + SECTOR] == f[at..];
  }

  lemma DeltaOpens(g: nat, tools: Tools)
    requires HeaderGrain(g)
    ensures OpenStream(DeltaFile(g), tools).Ok?
    ensures var o := OpenStream(DeltaFile(g), tools).value;
            o.img == DeltaImage(g, tools) && o.meta.parentCid == 1 && o.meta.descriptorText == ChildText()
  {
    hide ChildText, EncodeHeader, OpenStream, DeltaFile, NumTables, LeTable32, Writable, ReadDescriptorOf, DescriptorOf, DeltaHeader;
    ChildDescriptor();
    DeltaFields(g);
    DeltaTables(g);
    DeltaRegions(g);
    DeltaDescriptor(g, tools);
    EncodedHasFields(DeltaHeader(g), 1);
    HeaderOpens(DeltaFile(g), DeltaHeader(g), 1, tools);
  }

  /** The delta: nothing before its second grain, a 7 at its start. */
  lemma DeltaHolds(g: nat, tools: Tools, off: nat)
    requires HeaderGrain(g) && DeltaImage(g, tools).Valid() && off < g
    ensures AllocatedAt(DeltaImage(g, tools), off / SECTOR) == Ok(false)
    ensures AllocatedAt(DeltaImage(g, tools), g / SECTOR) == Ok(true)
    ensures ByteAt(DeltaImage(g, tools), false, g) == Some(7)
  {
    hide ChildText, DeltaFile, LeU32, Image.Valid, AllocatedAt, Lookup, ByteAt;
    var img := DeltaImage(g, tools);
    DeltaRegions(g);
    DivModUnique(0, off, g);
    DivModUnique(1, 0, g);
    AllocatedFrom(img, off);
    AllocatedFrom(img, g);
    assert Lookup(img, false, g) == Ok(At(6 * SECTOR)) by { DeltaLookup(g, tools); }
    StoredByte(img, false, g, 6 * SECTOR);
  }

  lemma DeltaLookup(g: nat, tools: Tools)
    requires HeaderGrain(g) && DeltaImage(g, tools).Valid()
    ensures Lookup(DeltaImage(g, tools), false, g) == Ok(At(6 * SECTOR))
  {
    hide ChildText, DeltaFile, LeU32, Image.Valid;
    DeltaRegions(g);
    DivModUnique(1, 0, g);
  }

  // ── the chain ─────────────────────────────────────────────────────────────

  const DELTA: Path := ["d"]
  const BASE: Path := ["b"]

  /** The delta over a base of the same size that stores nothing and has grains of `c` bytes. */
  function TwoLayers(g: nat, c: nat): Directory
    requires HeaderGrain(g) && FileGrain(c)
  {
    map[DELTA := DeltaFile(g), BASE := HolesFile(2 * g, c)]
  }

  lemma NameB()
    ensures Component("b") && Slashed(["b"]) == "b" && "b" != "" && [] + ["b"] == ["b"]
  {
  }

  lemma DeltaMeta(m: Meta)
    requires m.parentCid == 1 && m.descriptorText == ChildText()
    ensures !Terminal(m) && ParentPath(DELTA, m) == Ok(BASE)
  {
    hide TextOf, ResolvePath, Terminal, ParentPath, ParentHint, Describable;
    ChildLines();
    HintRoundTrip(CHILD, m);
    NameB();
    ResolvesBelow([], ["b"]);
    TerminalCases(m);
    ParentPathIs(DELTA, m);
    assert DELTA[..0] == [];
  }

  /** The delta's parent is the base, and the base has none. */
  lemma ChainFollows(g: nat, c: nat, tools: Tools)
    requires HeaderGrain(g) && FileGrain(c)
    ensures Accepted(MetasOf(FilesAt(TwoLayers(g, c), tools)), DELTA, [DELTA, BASE])
  {
    hide ChildText, OpenStream, HolesFile, DeltaFile, Terminal, ParentPath, HasParent, Accepted, IsWalk;
    DeltaOpens(g, tools);
    HolesOpen(2 * g, c, tools);
    var fs := MetasOf(FilesAt(TwoLayers(g, c), tools));
    var delta, base := OpenStream(DeltaFile(g), tools).value.meta, OpenStream(HolesFile(2 * g, c), tools).value.meta;
    assert fs(DELTA) == Ok(delta) && fs(BASE) == Ok(base);
    DeltaMeta(delta);
    TerminalCases(base);
    OnePathWalks(fs, DELTA);
    WalkStep(fs, DELTA, [DELTA], BASE);
    assert [DELTA] + [BASE] == [DELTA, BASE];
    WalkAccepted(fs, DELTA, [DELTA, BASE]);
  }

  lemma OnePathWalks(fs: FileSystem, p: Path)
    ensures IsWalk(fs, p, [p])
  {
    hide Terminal, ParentPath;
  }

  lemma LeastOfTwo(g: nat, c: nat)
    requires 0 < c < g
    ensures Least([g, c]) == c
  {
    assert [g, c][..1] == [g] && [g][..0] == [];
    assert Least([g]) == g;
  }

  function TwoFiles(g: nat, c: nat): seq<File>
    requires HeaderGrain(g) && FileGrain(c)
  {
    [DeltaFile(g), HolesFile(2 * g, c)]
  }

  lemma TwoFilesOpen(g: nat, c: nat, tools: Tools)
    requires HeaderGrain(g) && FileGrain(c)
    ensures OpenAs(TwoFiles(g, c), [g, c], tools)
    ensures OpenStream(DeltaFile(g), tools).Ok? && OpenStream(HolesFile(2 * g, c), tools).Ok?
    ensures OpenStream(DeltaFile(g), tools).value.img == DeltaImage(g, tools) && DeltaImage(g, tools).size == 2 * g
    ensures EmptyDirectory(OpenStream(HolesFile(2 * g, c), tools).value.img)
  {
    hide ChildText, OpenStream, HolesFile, DeltaFile, EmptyDirectory;
    DeltaOpens(g, tools);
    HolesOpen(2 * g, c, tools);
  }

  /** The start of the clamp block that `g` falls into lies below `g`. */
  lemma BlockBelow(g: nat, c: nat)
    requires c > 0 && g % c != 0
    ensures 0 <= g / c * c < g
  {
    DivMod(g, c);
  }

  lemma TwoFilesMask(g: nat, c: nat, tools: Tools)
    requires HeaderGrain(g) && FileGrain(c) && c < g && g % c != 0
    requires OpenAs(TwoFiles(g, c), [g, c], tools)
    ensures !ReadsOverlay(Layers(TwoFiles(g, c), tools))
  {
    hide ChildText, OpenStream, HolesFile, DeltaFile, DeltaImage, EmptyDirectory, AllocatedAt, ByteAt, Image.Valid;
    hide ReadsOverlay, Least, OpenAs, GrainSizes;
    TwoFilesOpen(g, c, tools);
    BlockBelow(g, c);
    var imgs := Layers(TwoFiles(g, c), tools);
    LayerGrains(TwoFiles(g, c), [g, c], tools);
    LeastOfTwo(g, c);
    assert imgs[0] in imgs && imgs[1] in imgs;
    TwoLayersStore(imgs[0], imgs[1], g, g / c * c, tools);
    BlockMasked(imgs, 0, g, c);
  }

  /**
   Whenever the base's smaller grain size does not divide the delta's, there is a chain of two
   files, linked by the delta's parent hint, that opens and does not read as its overlay.
   */
  lemma ChainHidesData(g: nat, c: nat, tools: Tools)
    requires HeaderGrain(g) && FileGrain(c) && c < g && g % c != 0
    ensures Accepted(MetasOf(FilesAt(TwoLayers(g, c), tools)), DELTA, [DELTA, BASE])
    ensures OpenAs(TwoFiles(g, c), [g, c], tools)
    ensures !ReadsOverlay(Layers(TwoFiles(g, c), tools))
  {
    hide OpenStream, TwoFiles, TwoLayers, ReadsOverlay, MetasOf, FilesAt, Accepted, Layers;
    ChainFollows(g, c, tools);
    TwoFilesOpen(g, c, tools);
    TwoFilesMask(g, c, tools);
  }

  /** Of the two layers only the delta stores anything, from its second grain on. */
  lemma TwoLayersStore(delta: Image, base: Image, g: nat, off: nat, tools: Tools)
    requires HeaderGrain(g) && off < g && delta == DeltaImage(g, tools)
    requires delta.Valid() && base.Valid() && EmptyDirectory(base)
    ensures AllocatedAt(delta, off / SECTOR) == Ok(false) && AllocatedAt(base, off / SECTOR) == Ok(false)
    ensures AllocatedAt(delta, g / SECTOR) == Ok(true) && AllocatedAt(base, g / SECTOR) == Ok(false)
    ensures ByteAt(delta, false, g) == Some(7)
  {
    hide ChildText, DeltaImage, EmptyDirectory, AllocatedAt, ByteAt, Image.Valid;
    DeltaHolds(g, tools, off);
    EmptyStoresNothing(base, off / SECTOR);
    EmptyStoresNothing(base, g / SECTOR);
  }
}
