/**
 Flat extents (core/src/flat.rs and the flat branch of `open_path` in core/src/lib.rs): raw
 files and zero-filled holes laid end to end.
 */
module Flats {
  import opened Wrappers
  import opened Arith
  import opened Bytes
  import opened Texts
  import opened Descriptors
  import opened Images
  import opened Sources
  import opened Readers
  import opened ChainOpening
  import opened Extents

  /** What one extent contributes: `size` bytes of a file from `offset`, or zeros. */
  datatype Span = Span(size: nat, offset: nat, data: Option<File>)
  {
    predicate InBounds() {
      data.None? || size == 0 || offset + size <= |data.value|
    }

    function Bytes(): (b: seq<byte>)
      requires InBounds()
      ensures |b| == size
    {
      if data.None? then Zeros(size) else Window(data.value, offset, size)
    }
  }

  predicate AllInBounds(spans: seq<Span>) {
    forall k :: 0 <= k < |spans| ==> spans[k].InBounds()
  }

  function Pieces(spans: seq<Span>): (p: seq<seq<byte>>)
    requires AllInBounds(spans)
    ensures Lengths(p) == Sizes(spans)
  {
    seq(|spans|, k requires 0 <= k < |spans| => spans[k].Bytes())
  }

  function Sizes(spans: seq<Span>): seq<nat> {
    seq(|spans|, k requires 0 <= k < |spans| => spans[k].size)
  }

  /** The flat disk: the extents' bytes, concatenated. */
  function Concat(spans: seq<Span>): (d: seq<byte>)
    requires AllInBounds(spans)
    ensures |d| == Sum(Sizes(spans))
  {
    JoinedLength(Pieces(spans));
    Joined(Pieces(spans))
  }

  /** The span of one extent; a missing or refused file is the error of opening it. */
  function SpanFor(base: Path, dir: Directory, e: ExtentEntry): Result<Span> {
    if e.isZero then Ok(Span(e.sizeSectors * SECTOR, 0, None)) else
    var data :- FileAt(base, dir, e.filename);
    Ok(Span(e.sizeSectors * SECTOR, e.fileByteOffset, Some(data)))
  }

  function Outcomes(base: Path, dir: Directory, extents: seq<ExtentEntry>): (o: seq<Result<Span>>)
    ensures |o| == |extents|
  {
    seq(|extents|, k requires 0 <= k < |extents| => SpanFor(base, dir, extents[k]))
  }

  /** The spans of all extents, or the error of the first that cannot be opened. */
  function SpansOf(base: Path, dir: Directory, extents: seq<ExtentEntry>): Result<seq<Span>> {
    Collect(Outcomes(base, dir, extents))
  }

  /** The spans' total is the descriptor's sector sum. */
  lemma {:induction false} SpansTotal(extents: seq<ExtentEntry>, spans: seq<Span>)
    requires |spans| == |extents| && forall k :: 0 <= k < |spans| ==> spans[k].size == extents[k].sizeSectors * SECTOR
    ensures Sum(Sizes(spans)) == FlatSectors(extents) * SECTOR
  {
    if extents != [] {
      var last := |extents| - 1;
      SpansTotal(extents[..last], spans[..last]);
      assert Sizes(spans)[..last] == Sizes(spans[..last]);
    }
  }

  // ── the reader ────────────────────────────────────────────────────────────

  datatype FlatPart = FlatPart(tile: Tile, fileOffset: u64, file: Option<Source>)

  function Tiles(parts: seq<FlatPart>): (t: seq<Tile>)
    ensures |t| == |parts|
  {
    seq(|parts|, k requires 0 <= k < |parts| => parts[k].tile)
  }

  /** Part `p` reads the file of span `s`, from its offset. */
  predicate Backs(p: FlatPart, s: Span) {
    if s.data.None? then p.file.None?
    else p.file.Some? && p.file.value.data == s.data.value && p.fileOffset == s.offset
  }

  ghost predicate AllBack(parts: seq<FlatPart>, spans: seq<Span>) {
    |parts| == |spans| && forall k :: 0 <= k < |parts| ==> Backs(parts[k], spans[k])
  }

  /** The parts are the spans, laid end to end. */
  ghost predicate Tiled(parts: seq<FlatPart>, spans: seq<Span>) {
    Tiling(Tiles(parts), Sizes(spans)) && AllBack(parts, spans)
  }

  /** The same with wrapping positions: what opening builds whatever the sizes. */
  ghost predicate LaidOut(parts: seq<FlatPart>, spans: seq<Span>) {
    WrappedTiling(Tiles(parts), Sizes(spans)) && AllBack(parts, spans)
  }

  /** The bytes of part `p` from `pos` on, at most `n` of them. */
  function PartBytes(p: FlatPart, pos: nat, n: nat): seq<byte>
    requires p.tile.start <= pos
  {
    if p.file.None? then Zeros(n) else Window(p.file.value.data, Wrap64(p.fileOffset + (pos - p.tile.start)), n)
  }

  /** Everything one read at `pos` can return. */
  function FlatSlice(parts: seq<FlatPart>, total: nat, pos: nat): Result<seq<byte>> {
    if pos >= total then Ok([]) else
    var k := FirstCovering(Tiles(parts), pos);
    if k == |parts| then Err(UnexpectedEof) else
    Ok(PartBytes(parts[k], pos, Min(parts[k].tile.end - pos, total - pos)))
  }

  class MultiExtentReader {
    const parts: seq<FlatPart>
    const total: u64
    var pos: u64

    constructor (parts: seq<FlatPart>, total: u64)
      ensures this.parts == parts && this.total == total && pos == 0
    {
      this.parts := parts;
      this.total := total;
      pos := 0;
    }

    /** `Seek::seek`. */
    method Seek(from: SeekFrom) returns (r: Result<u64>)
      modifies `pos
      ensures var t := SeekTarget(from, old(pos), total);
              if t < 0 then r == Err(InvalidInput) && pos == old(pos) else r == Ok(t) && pos == t
    {
      var target := SeekTarget(from, pos, total);
      if target < 0 {
        return Err(InvalidInput);
      }
      pos := target;
      return Ok(pos);
    }

    /** `Read::read`: at most to the end of the covering extent. */
    method Read(buf: array<byte>, lo: nat, hi: nat) returns (r: Result<nat>)
      requires lo <= hi <= buf.Length
      modifies `pos, (set p | p in parts && p.file.Some? :: p.file.value), buf
      ensures Delivers(FlatSlice(parts, total, old(pos)), lo, hi, old(pos), old(buf[..]), pos, buf[..], r)
    {
      hide Patch, Window, FirstCovering;
      ghost var was := buf[..];
      if pos >= total || lo == hi {
        PatchNothing(was, lo);
        return Ok(0);
      }
      var k := FindTile(Tiles(parts), pos);
      if k == |parts| {
        return Err(UnexpectedEof);
      }
      var part := parts[k];
      var offset := pos - part.tile.start;
      var toRead := Min(Min(hi - lo, part.tile.end - pos), total - pos);
      ghost var reach := Min(part.tile.end - pos, total - pos);
      var n := toRead;
      if part.file.Some? {
        var file := part.file.value;
        file.SeekStart(Wrap64(part.fileOffset + offset));
        ghost var at := file.cursor;
        WindowLength(file.data, at, toRead);
        n := file.Read(buf, lo, lo + toRead);
        WindowPrefix(file.data, at, toRead, reach, n);
      } else {
        forall j | lo <= j < lo + toRead {
          buf[j] := 0;
        }
        ZeroPatch(was, buf[..], lo, toRead);
        assert Zeros(reach)[..toRead] == Zeros(toRead);
      }
      pos := pos + n;
      return Ok(n);
    }
  }

  // ── reads are the concatenation ───────────────────────────────────────────

  /** Inside a span in bounds, a part's bytes are the rest of the span, at an exact address. */
  lemma SpanRest(p: FlatPart, s: Span, pos: nat)
    requires s.InBounds() && p.tile.Covers(pos) && p.tile.end == p.tile.start + s.size && Backs(p, s)
    ensures PartBytes(p, pos, p.tile.end - pos) == s.Bytes()[pos - p.tile.start..]
  {
    hide Window, Wrap64;
    var done := pos - p.tile.start;
    if s.data.None? {
      assert Zeros(s.size)[done..] == Zeros(s.size - done);
    } else {
      WindowLength(s.data.value, s.offset, s.size);
      WindowSplit(s.data.value, s.offset, s.size, done);
      WrapSmall(s.offset + done);
    }
  }

  /**
   Reading refines concatenation: a read anywhere below the end sees the concatenation up to
   the end of the extent it falls in, so repeated reads deliver it whole.
   */
  lemma FlatReadsConcat(parts: seq<FlatPart>, total: nat, spans: seq<Span>, pos: nat)
    requires Tiled(parts, spans) && AllInBounds(spans) && total == Sum(Sizes(spans)) && pos < total
    ensures exists end: nat :: pos < end <= total && FlatSlice(parts, total, pos) == Ok(Concat(spans)[pos..end])
  {
    hide Joined, PartBytes, Sum, FirstCovering, Tiling;
    var tiles := Tiles(parts);
    FindIsTotal(tiles, Sizes(spans), pos);
    var k := FirstCovering(tiles, pos);
    TileInside(tiles, Sizes(spans), k);
    var end: nat := tiles[k].end;
    assert spans[k].InBounds();
    SpanRest(parts[k], spans[k], pos);
    TileSlice(tiles, Pieces(spans), k, pos, end - pos);
    assert spans[k].Bytes()[pos - tiles[k].start..][..end - pos] == spans[k].Bytes()[pos - tiles[k].start..];
    assert FlatSlice(parts, total, pos) == Ok(Concat(spans)[pos..end]);
  }

  /** Reads never run dry before the end exactly when every extent lies inside its file. */
  lemma NeverDryIffInBounds(parts: seq<FlatPart>, total: nat, spans: seq<Span>)
    requires Tiled(parts, spans) && total == Sum(Sizes(spans))
    ensures (forall pos: nat :: pos < total ==> FlatSlice(parts, total, pos).Ok? && FlatSlice(parts, total, pos).value != [])
            <==> AllInBounds(spans)
  {
    hide Tiled, FlatSlice, Sizes, Sum, AllInBounds, Concat;
    if AllInBounds(spans) {
      forall pos: nat | pos < total
        ensures FlatSlice(parts, total, pos).Ok? && FlatSlice(parts, total, pos).value != []
      {
        FlatReadsConcat(parts, total, spans, pos);
      }
    } else {
      var k := OutOfBounds(spans);
      var pos := RunsDry(parts, total, spans, k);
    }
  }

  lemma OutOfBounds(spans: seq<Span>) returns (k: nat)
    requires !AllInBounds(spans)
    ensures k < |spans| && !spans[k].InBounds()
  {
    k :| k < |spans| && !spans[k].InBounds();
  }

  /** The first byte an extent claims past the end of its file reads as nothing. */
  lemma RunsDry(parts: seq<FlatPart>, total: nat, spans: seq<Span>, k: nat) returns (pos: nat)
    requires Tiled(parts, spans) && total == Sum(Sizes(spans))
    requires k < |spans| && !spans[k].InBounds()
    ensures pos < total && FlatSlice(parts, total, pos) == Ok([])
  {
    hide Sum, FirstCovering;
    var tiles := Tiles(parts);
    TileInside(tiles, Sizes(spans), k);
    var s := spans[k];
    var len := |s.data.value|;
    pos := tiles[k].start + if s.offset < len then len - s.offset else 0;
    assert Backs(parts[k], s);
    assert tiles[k].Covers(pos);
    FindIsTotal(tiles, Sizes(spans), pos);
  }

  /**
   A reader over in-bounds extents is a byte source over their concatenation: what one read of it
   delivers, a read of a plain file holding the concatenation could deliver, and it runs dry
   exactly when that file does.
   */
  lemma FlatServes(parts: seq<FlatPart>, total: nat, spans: seq<Span>, pos: nat, n: nat)
    requires Tiled(parts, spans) && AllInBounds(spans) && total == Sum(Sizes(spans)) && n > 0
    ensures FlatSlice(parts, total, pos).Ok?
    ensures var s, w := FlatSlice(parts, total, pos).value, Window(Concat(spans), pos, n);
            (s == [] <==> w == []) && forall m: nat :: m <= |s| && m <= n ==> m <= |w| && s[..m] == w[..m]
  {
    hide Tiled, AllInBounds, Sizes, Sum, FirstCovering, PartBytes, Window, Concat;
    WindowLength(Concat(spans), pos, n);
    if pos < total {
      FlatReadsConcat(parts, total, spans, pos);
      hide FlatSlice;
      var d := Concat(spans);
      var end: nat :| pos < end <= total && FlatSlice(parts, total, pos) == Ok(d[pos..end]);
      WindowLength(d, pos, n);
      forall m: nat | m <= end - pos && m <= n
        ensures m <= |Window(d, pos, n)| && d[pos..end][..m] == Window(d, pos, n)[..m]
      {
        StretchPrefix(d, pos, end, n, m);
      }
    }
  }

  /**
   Behind a `VmdkReader`: the flat image over a reader's concatenation is sound, its disk is the
   concatenation, and each disk byte is the first byte the reader delivers there.
   */
  lemma FlatDisk(parts: seq<FlatPart>, total: nat, spans: seq<Span>, img: Image, fb: bool)
    requires Tiled(parts, spans) && AllInBounds(spans) && total == Sum(Sizes(spans))
    requires img.Valid() && img.fmt.Flat? && img.file == Concat(spans) && img.size == total
    ensures Sound(img, fb) && Disk(img, fb) == Concat(spans)
    ensures forall pos: nat :: pos < total ==>
              && FlatSlice(parts, total, pos).Ok? && FlatSlice(parts, total, pos).value != []
              && FlatSlice(parts, total, pos).value[0] == Disk(img, fb)[pos]
  {
    hide Tiled, AllInBounds, Sizes, Sum, Concat, FlatSlice;
    assert forall off: nat :: off < img.size ==> ByteAt(img, fb, off) == Some(img.file[off]);
    forall pos: nat | pos < total
      ensures FlatSlice(parts, total, pos).Ok? && FlatSlice(parts, total, pos).value != []
      ensures FlatSlice(parts, total, pos).value[0] == Concat(spans)[pos]
    {
      FlatReadsConcat(parts, total, spans, pos);
    }
  }

  // ── opening ───────────────────────────────────────────────────────────────

  /**
   `MultiExtentReader::open`: the extents in order, or the error of the first that cannot be
   opened. Byte positions are plain 64-bit sums, exact as long as the whole does not overflow.
   */
  method OpenExtents(base: Path, dir: Directory, extents: seq<ExtentEntry>) returns (r: Result<MultiExtentReader>)
    ensures r.Ok? <==> SpansOf(base, dir, extents).Ok?
    ensures r.Err? ==> r.error == SpansOf(base, dir, extents).error
    ensures r.Ok? ==>
              && fresh(r.value) && r.value.pos == 0
              && LaidOut(r.value.parts, SpansOf(base, dir, extents).value)
              && r.value.total == Wrap64(FlatSectors(extents) * SECTOR)
    ensures r.Ok? && FlatSectors(extents) * SECTOR <= U64_MAX ==>
              && Tiled(r.value.parts, SpansOf(base, dir, extents).value)
              && r.value.total == Sum(Sizes(SpansOf(base, dir, extents).value)) == FlatSectors(extents) * SECTOR
  {
    hide LaidOut, Tiled, Sum, Sizes, FlatSectors, Collect, FileAt, Backs;
    var parts: seq<FlatPart> := [];
    var virt: u64 := 0;
    ghost var spans: seq<Span> := [];
    ghost var outcomes := Outcomes(base, dir, extents);
    var k := 0;
    LaidStart();
    while k < |extents|
      invariant k <= |extents| && |spans| == k
      invariant forall j :: 0 <= j < k ==> SpanFor(base, dir, extents[j]) == Ok(spans[j])
      invariant LaidOut(parts, spans) && virt == Wrap64(Sum(Sizes(spans)))
    {
      var e := extents[k];
      var file: Option<Source> := None;
      if !e.isZero {
        var found := FileAt(base, dir, e.filename);
        if found.Err? {
          CollectFirstError(outcomes, k);
          return Err(found.error);
        }
        var src := new Source(found.value);
        file := Some(src);
      }
      ghost var span := SpanFor(base, dir, e).value;
      var sizeBytes := Wrap64(e.sizeSectors * SECTOR);
      var part := FlatPart(Tile(virt, Wrap64(virt + sizeBytes)), e.fileByteOffset, file);
      BacksNew(part, span);
      LaidGrow(parts, spans, part, span);
      parts := parts + [part];
      virt := Wrap64(virt + sizeBytes);
      spans := spans + [span];
      k := k + 1;
    }
    CollectAll(outcomes, spans);
    SpansTotal(extents, spans);
    LaidIsTiled(parts, spans);
    var reader := new MultiExtentReader(parts, virt);
    return Ok(reader);
  }

  lemma LaidStart()
    ensures LaidOut([], []) && Sum(Sizes([])) == 0
  {
  }

  lemma BacksNew(p: FlatPart, s: Span)
    requires s.data.Some? <==> p.file.Some?
    requires s.data.Some? ==> p.file.value.data == s.data.value && p.fileOffset == s.offset
    ensures Backs(p, s)
  {
  }

  lemma LaidGrow(parts: seq<FlatPart>, spans: seq<Span>, p: FlatPart, s: Span)
    requires LaidOut(parts, spans) && Backs(p, s)
    requires p.tile.start == Wrap64(Sum(Sizes(spans))) && p.tile.end == Wrap64(p.tile.start + Wrap64(s.size))
    ensures LaidOut(parts + [p], spans + [s])
    ensures p.tile.end == Wrap64(Sum(Sizes(spans + [s])))
  {
    hide Sum, WrappedTiling, Backs, Wrap64;
    WrapAdd(Sum(Sizes(spans)), s.size);
    WrapAdd(p.tile.start, s.size);
    WrappedStep(Tiles(parts), Sizes(spans), p.tile, s.size);
    assert Tiles(parts + [p]) == Tiles(parts) + [p.tile];
    assert Sizes(spans + [s]) == Sizes(spans) + [s.size];
  }

  lemma LaidIsTiled(parts: seq<FlatPart>, spans: seq<Span>)
    requires LaidOut(parts, spans)
    ensures Sum(Sizes(spans)) <= U64_MAX ==> Tiled(parts, spans)
  {
    hide Sum, WrappedTiling, Tiling, Backs, AllBack;
    if Sum(Sizes(spans)) <= U64_MAX {
      WrappedIsExact(Tiles(parts), Sizes(spans));
    }
  }

  /**
   The flat branch of `open_path`: parse, open the extents, then check the byte size. When it
   succeeds nothing has overflowed: the parser's sector sum, the reader's total and the virtual
   size are one number, and the reader's parts tile the extents.
   */
  method OpenFlat(base: Path, dir: Directory, text: string) returns (r: Result<(MultiExtentReader, u64)>)
    ensures r.Ok? ==>
              && DescriptorOf(text).Ok?
              && var extents := DescriptorOf(text).value.extents;
              && SpansOf(base, dir, extents).Ok?
              && r.value.1 == FlatSectors(extents) * SECTOR == r.value.0.total
              && fresh(r.value.0) && r.value.0.pos == 0
              && Tiled(r.value.0.parts, SpansOf(base, dir, extents).value)
    ensures r.Err? ==>
              || DescriptorOf(text) == Err(r.error)
              || (DescriptorOf(text).Ok? &&
                  var d := DescriptorOf(text).value;
                  SpansOf(base, dir, d.extents) == Err(r.error) || (r.error == GeometryOverflow && FlatSectors(d.extents) * SECTOR > U64_MAX))
  {
    hide Tiled, FlatSectors, SparseSectors, SpansOf, Contributes, Lines, Sum, Sizes;
    var desc :- ParseTextDescriptor(text);
    assert desc.capacitySectors == FlatSectors(desc.extents);
    var multi :- OpenExtents(base, dir, desc.extents);
    var size :- OkOr(CheckedMul(desc.capacitySectors, SECTOR), GeometryOverflow);
    return Ok((multi, size));
  }
}
