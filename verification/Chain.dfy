/**
 The snapshot overlay (core/src/chain.rs): reads clamped to the smallest grain, answered by the
 newest layer allocated at the first sector. Layers may differ in grain size and length; the
 overlay is exact as long as every grain size is a multiple of the smallest.
 */
module Chains {
  import opened Wrappers
  import opened Arith
  import opened Bytes
  import opened Images
  import opened Scans
  import opened Readers
  import opened Copying

  // ── the overlay, byte by byte ─────────────────────────────────────────────

  /** Layer `k` is the newest one allocated at sector `lba`. */
  ghost predicate Newest(layers: seq<Image>, lba: nat, k: nat)
    requires forall l :: l in layers ==> l.Valid()
  {
    && k < |layers| && AllocatedAt(layers[k], lba) == Ok(true)
    && forall m: nat :: m < k ==> AllocatedAt(layers[m], lba) == Ok(false)
  }

  /** No layer is allocated at sector `lba`. */
  ghost predicate Unallocated(layers: seq<Image>, lba: nat)
    requires forall l :: l in layers ==> l.Valid()
  {
    forall m: nat :: m < |layers| ==> AllocatedAt(layers[m], lba) == Ok(false)
  }

  /** `b` is the merged byte at `off`: the newest allocated layer's, or zero when there is none. */
  ghost predicate OverlayByte(layers: seq<Image>, off: nat, b: byte)
    requires forall l :: l in layers ==> l.Valid()
  {
    || (exists k: nat :: Newest(layers, off / SECTOR, k) && ByteAt(layers[k], false, off) == Some(b))
    || (Unallocated(layers, off / SECTOR) && b == 0)
  }

  /** The merged byte is unique. */
  lemma OverlayUnique(layers: seq<Image>, off: nat, a: byte, b: byte)
    requires forall l :: l in layers ==> l.Valid()
    requires OverlayByte(layers, off, a) && OverlayByte(layers, off, b)
    ensures a == b
  {
    hide AllocatedAt, ByteAt, Image.Valid;
    var lba := off / SECTOR;
    if exists k: nat :: Newest(layers, lba, k) && ByteAt(layers[k], false, off) == Some(a) {
      var k: nat :| Newest(layers, lba, k) && ByteAt(layers[k], false, off) == Some(a);
      if exists m: nat :: Newest(layers, lba, m) && ByteAt(layers[m], false, off) == Some(b) {
        var m: nat :| Newest(layers, lba, m) && ByteAt(layers[m], false, off) == Some(b);
        NewestUnique(layers, lba, k, m);
      }
    }
  }

  lemma NewestUnique(layers: seq<Image>, lba: nat, k: nat, m: nat)
    requires forall l :: l in layers ==> l.Valid()
    requires Newest(layers, lba, k) && Newest(layers, lba, m)
    ensures k == m
  {
    hide AllocatedAt, Image.Valid;
  }

  ghost predicate OverlayBytes(layers: seq<Image>, off: nat, bytes: seq<byte>)
    requires forall l :: l in layers ==> l.Valid()
  {
    forall k: nat :: k < |bytes| ==> OverlayByte(layers, off + k, bytes[k])
  }

  // ── the clamp ─────────────────────────────────────────────────────────────

  /** `clamp` is a grain size that divides every sparse layer's, apart from layers of a single grain. */
  ghost predicate ClampDivides(layers: seq<Image>, clamp: nat)
    requires forall l :: l in layers ==> l.Valid()
  {
    forall l :: l in layers ==> !l.fmt.Flat? ==>
      clamp > 0 && clamp % SECTOR == 0 && (l.fmt.grain % clamp == 0 || l.size <= l.fmt.grain)
  }

  /** The grain size a layer reports; 0 when it is flat. */
  function GrainSize(img: Image): nat {
    if img.fmt.Flat? then 0 else img.fmt.grain
  }

  function GrainSizes(layers: seq<Image>): (g: seq<nat>)
    ensures |g| == |layers|
  {
    seq(|layers|, k requires 0 <= k < |layers| => GrainSize(layers[k]))
  }

  /** The smallest positive size, or 0 when there is none. */
  function Least(sizes: seq<nat>): nat {
    if sizes == [] then 0 else
    var rest := Least(sizes[..|sizes| - 1]);
    var s := sizes[|sizes| - 1];
    if s == 0 then rest else if rest == 0 || s < rest then s else rest
  }

  lemma {:induction false} LeastIsLeast(sizes: seq<nat>)
    ensures forall k :: 0 <= k < |sizes| && sizes[k] > 0 ==> 0 < Least(sizes) <= sizes[k]
    ensures Least(sizes) > 0 ==> Least(sizes) in sizes
  {
    if sizes != [] {
      LeastIsLeast(sizes[..|sizes| - 1]);
    }
  }

  /** The clamp of a chain: the smallest grain size of its sparse layers. */
  function MinGrain(layers: seq<Image>): nat {
    Least(GrainSizes(layers))
  }

  /** The clamp is one of the grain sizes and no larger than any. */
  lemma MinGrainIsMin(layers: seq<Image>)
    requires forall l :: l in layers ==> l.Valid()
    ensures forall l :: l in layers && !l.fmt.Flat? ==> 0 < MinGrain(layers) <= l.fmt.grain
    ensures MinGrain(layers) > 0 ==> exists l :: l in layers && !l.fmt.Flat? && l.fmt.grain == MinGrain(layers)
  {
    hide Least, Image.Valid;
    var sizes := GrainSizes(layers);
    LeastIsLeast(sizes);
    forall l | l in layers && !l.fmt.Flat?
      ensures 0 < MinGrain(layers) <= l.fmt.grain
    {
      Shape(l);
      var k :| 0 <= k < |layers| && layers[k] == l;
      assert sizes[k] == l.fmt.grain;
    }
    if MinGrain(layers) > 0 {
      var k :| 0 <= k < |sizes| && sizes[k] == MinGrain(layers);
      assert layers[k] in layers;
    }
  }

  /** Rounding an offset down to its sector keeps its grain. */
  lemma SectorKeepsGrain(off: nat, grain: nat)
    requires grain > 0 && grain % SECTOR == 0
    ensures off / SECTOR * SECTOR / grain == off / grain
  {
    var gs := grain / SECTOR;
    assert grain == SECTOR * gs;
    DivDiv(off, SECTOR, gs);
    DivDiv(off / SECTOR * SECTOR, SECTOR, gs);
  }

  /** A step inside a clamp block keeps the grain of every multiple of the clamp. */
  lemma BlockKeepsGrain(off: nat, k: nat, clamp: nat, grain: nat)
    requires clamp > 0 && grain > 0 && grain % clamp == 0 && k < clamp - off % clamp
    ensures (off + k) / grain == off / grain
  {
    var q := grain / clamp;
    DivMod(grain, clamp);
    DivMod(off, clamp);
    assert grain == clamp * q;
    DivModUnique(off / clamp, off % clamp + k, clamp);
    DivDiv(off, clamp, q);
    DivDiv(off + k, clamp, q);
  }

  lemma AllocatedFrom(img: Image, off: nat)
    requires img.Valid()
    ensures off >= img.size ==> AllocatedAt(img, off / SECTOR) == Ok(false)
    ensures off < img.size && img.fmt.Flat? ==> AllocatedAt(img, off / SECTOR) == Ok(true)
    ensures off < img.size && !img.fmt.Flat? ==> AllocatedAt(img, off / SECTOR) == GrainAllocated(img, GrainIdx(img, off))
  {
    hide GrainAllocated, Image.Valid;
    SizeAligned(img);
    if off < img.size && !img.fmt.Flat? {
      Shape(img);
      SectorKeepsGrain(off, img.fmt.grain);
    }
  }

  lemma SizeAligned(img: Image)
    requires img.Valid()
    ensures img.size % SECTOR == 0
  {
  }

  /** Inside a clamp block a layer's allocation does not change before the layer ends. */
  lemma BlockUniform(layers: seq<Image>, clamp: nat, m: nat, off: nat, k: nat)
    requires forall l :: l in layers ==> l.Valid()
    requires ClampDivides(layers, clamp) && m < |layers|
    requires clamp > 0 ==> k < clamp - off % clamp
    ensures off + k < layers[m].size ==> AllocatedAt(layers[m], (off + k) / SECTOR) == AllocatedAt(layers[m], off / SECTOR)
    ensures AllocatedAt(layers[m], off / SECTOR) == Ok(false) ==> AllocatedAt(layers[m], (off + k) / SECTOR) == Ok(false)
  {
    hide AllocatedAt, GrainAllocated, Image.Valid;
    var img := layers[m];
    AllocatedFrom(img, off);
    AllocatedFrom(img, off + k);
    if !img.fmt.Flat? && off + k < img.size {
      Shape(img);
      if img.fmt.grain % clamp == 0 {
        BlockKeepsGrain(off, k, clamp, img.fmt.grain);
      } else {
        DivModUnique(0, off, img.fmt.grain);
        DivModUnique(0, off + k, img.fmt.grain);
      }
    }
  }

  /** Bytes read from the newest layer at `off`, within the block, are merged bytes. */
  lemma LayerBytesAreOverlay(layers: seq<Image>, clamp: nat, off: nat, n: nat, m: nat, bytes: seq<byte>)
    requires forall l :: l in layers ==> l.Valid()
    requires ClampDivides(layers, clamp) && Newest(layers, off / SECTOR, m)
    requires |bytes| <= n && (clamp > 0 ==> n <= clamp - off % clamp)
    requires Holds(layers[m], false, off, bytes)
    ensures OverlayBytes(layers, off, bytes)
  {
    hide AllocatedAt, ByteAt, Image.Valid, ClampDivides;
    forall k: nat | k < |bytes|
      ensures OverlayByte(layers, off + k, bytes[k])
    {
      assert ByteAt(layers[m], false, off + k) == Some(bytes[k]);
      HeldInDisk(layers[m], off + k);
      BlockUniform(layers, clamp, m, off, k);
      forall j: nat | j < m
        ensures AllocatedAt(layers[j], (off + k) / SECTOR) == Ok(false)
      {
        BlockUniform(layers, clamp, j, off, k);
      }
      assert Newest(layers, (off + k) / SECTOR, m);
    }
  }

  lemma HeldInDisk(img: Image, off: nat)
    requires img.Valid() && ByteAt(img, false, off).Some?
    ensures off < img.size
  {
  }

  /** Zeros filled where no layer is allocated at `off`, within the block, are merged bytes. */
  lemma ZerosAreOverlay(layers: seq<Image>, clamp: nat, off: nat, n: nat)
    requires forall l :: l in layers ==> l.Valid()
    requires ClampDivides(layers, clamp) && Unallocated(layers, off / SECTOR)
    requires clamp > 0 ==> n <= clamp - off % clamp
    requires clamp == 0 ==> n == 0 || forall l :: l in layers ==> off >= l.size
    ensures OverlayBytes(layers, off, Zeros(n))
  {
    hide AllocatedAt, ByteAt, Image.Valid;
    forall k: nat | k < n
      ensures OverlayByte(layers, off + k, Zeros(n)[k])
    {
      forall m: nat | m < |layers|
        ensures AllocatedAt(layers[m], (off + k) / SECTOR) == Ok(false)
      {
        BlockUniform(layers, clamp, m, off, k);
      }
    }
  }

  // ── what one chain read can return ────────────────────────────────────────

  /** The first layer allocated at sector `lba`, if any; an allocation query that fails ends the search. */
  function Answering(layers: seq<Image>, lba: nat): (r: Result<Option<nat>>)
    requires forall l :: l in layers ==> l.Valid()
    ensures r.Ok? && r.value.Some? ==> r.value.value < |layers|
  {
    if layers == [] then Ok(None) else
    var hit :- AllocatedAt(layers[0], lba);
    if hit then Ok(Some(0)) else
    var rest :- Answering(layers[1..], lba);
    Ok(if rest.None? then None else Some(rest.value + 1))
  }

  /** The search is decided by the first layer that does not answer `false`. */
  lemma {:induction false} AnsweringIs(layers: seq<Image>, lba: nat, k: nat)
    requires forall l :: l in layers ==> l.Valid()
    requires k <= |layers| && forall m: nat :: m < k ==> AllocatedAt(layers[m], lba) == Ok(false)
    ensures k == |layers| ==> Answering(layers, lba) == Ok(None)
    ensures k < |layers| && AllocatedAt(layers[k], lba) == Ok(true) ==> Answering(layers, lba) == Ok(Some(k))
    ensures k < |layers| && AllocatedAt(layers[k], lba).Err? ==> Answering(layers, lba) == Err(AllocatedAt(layers[k], lba).error)
  {
    hide AllocatedAt, Image.Valid;
    if k > 0 {
      assert layers[0] in layers;
      AnsweringIs(layers[1..], lba, k - 1);
    }
  }

  /** The search finds the newest allocated layer, or that there is none. */
  lemma {:induction false} AnsweringMeans(layers: seq<Image>, lba: nat)
    requires forall l :: l in layers ==> l.Valid()
    ensures Answering(layers, lba).Ok? ==>
              match Answering(layers, lba).value
              case Some(k) => Newest(layers, lba, k)
              case None => Unallocated(layers, lba)
    ensures Answering(layers, lba).Err? ==> exists k: nat :: k < |layers| && AllocatedAt(layers[k], lba).Err?
  {
    hide AllocatedAt, Image.Valid;
    if layers != [] && AllocatedAt(layers[0], lba) == Ok(false) {
      AnsweringMeans(layers[1..], lba);
      if Answering(layers, lba).Err? {
        var k: nat :| k < |layers[1..]| && AllocatedAt(layers[1..][k], lba).Err?;
        assert AllocatedAt(layers[k + 1], lba).Err?;
      }
    }
  }

  /** How far one read at `pos` may go: to the end of the disk and of the clamp block. */
  function ChainReach(size: nat, clamp: nat, pos: nat): (n: nat)
    requires pos < size
    ensures 0 < n <= size - pos
  {
    if clamp > 0 then Min(size - pos, clamp - pos % clamp) else size - pos
  }

  /** What the layers hold from `pos` on, at most `reach` bytes of it. */
  function BlockBytes(layers: seq<Image>, pos: nat, reach: nat): Result<seq<byte>>
    requires forall l :: l in layers ==> l.Valid()
  {
    var found :- Answering(layers, pos / SECTOR);
    if found.None? then Ok(Zeros(reach)) else
    var s :- Slice(layers[found.value], false, pos);
    Ok(s[..Min(|s|, reach)])
  }

  /** Everything one chain read at `pos` can return. */
  function ChainSlice(layers: seq<Image>, size: nat, clamp: nat, pos: nat): Result<seq<byte>>
    requires forall l :: l in layers ==> l.Valid()
  {
    if pos >= size then Ok([]) else BlockBytes(layers, pos, ChainReach(size, clamp, pos))
  }

  /** With a clamp that divides every grain size, a chain read returns merged bytes, from any position. */
  lemma ChainSliceIsOverlay(layers: seq<Image>, clamp: nat, pos: nat)
    requires layers != [] && forall l :: l in layers ==> l.Valid()
    requires clamp == MinGrain(layers) && ClampDivides(layers, clamp)
    requires ChainSlice(layers, layers[0].size, clamp, pos).Ok?
    ensures OverlayBytes(layers, pos, ChainSlice(layers, layers[0].size, clamp, pos).value)
  {
    hide AllocatedAt, Slice, Image.Valid, Answering, Newest, Unallocated, Holds, MinGrain, ClampDivides, OverlayBytes;
    var size := layers[0].size;
    if pos >= size {
      NoOverlay(layers, pos, []);
    } else {
      var reach := ChainReach(size, clamp, pos);
      AnsweringMeans(layers, pos / SECTOR);
      var found := Answering(layers, pos / SECTOR).value;
      if found.None? {
        TopIsSparse(layers, clamp, pos);
        ZerosAreOverlay(layers, clamp, pos, reach);
      } else {
        var s := Slice(layers[found.value], false, pos).value;
        SliceHolds(layers[found.value], false, pos, Min(|s|, reach));
        NewestInside(layers, pos / SECTOR, found.value);
        LayerBytesAreOverlay(layers, clamp, pos, reach, found.value, s[..Min(|s|, reach)]);
      }
    }
  }

  lemma NewestInside(layers: seq<Image>, lba: nat, k: nat)
    requires (forall l :: l in layers ==> l.Valid()) && Newest(layers, lba, k)
    ensures k < |layers| && layers[k] in layers
  {
    hide AllocatedAt, Image.Valid;
  }

  // ── the reader ────────────────────────────────────────────────────────────

  function LayerImages(layers: seq<VmdkReader>): (imgs: seq<Image>)
    ensures |imgs| == |layers|
    ensures forall k :: 0 <= k < |layers| ==> imgs[k] == layers[k].img
  {
    seq(|layers|, k requires 0 <= k < |layers| => layers[k].img)
  }

  class VmdkChainReader {
    /** Newest first. */
    const layers: seq<VmdkReader>
    const size: u64
    const clamp: nat
    var pos: u64

    ghost predicate Valid()
      reads this, layers
    {
      && |layers| > 0 && size == layers[0].img.size
      && (forall l :: l in layers ==> l.Valid() && !l.rgdFallback)
      && (forall i :: i in LayerImages(layers) ==> i.Valid())
      && clamp == MinGrain(LayerImages(layers))
    }

    /** The layers as images, newest first. */
    ghost function Images(): (imgs: seq<Image>)
    {
      LayerImages(layers)
    }

    constructor (layers: seq<VmdkReader>)
      requires |layers| > 0 && forall l :: l in layers ==> l.Valid() && !l.rgdFallback
      ensures Valid() && this.layers == layers && pos == 0
    {
      this.layers := layers;
      size := layers[0].img.size;
      clamp := MinGrain(LayerImages(layers));
      pos := 0;
      new;
      forall i | i in LayerImages(layers)
        ensures i.Valid()
      {
        var k :| 0 <= k < |layers| && LayerImages(layers)[k] == i;
        assert layers[k] in layers;
      }
    }

    /** The loop over the layers: the first one allocated at sector `lba`, if any. */
    method FindLayer(lba: nat) returns (r: Result<Option<nat>>)
      requires Valid()
      modifies layers, set l | l in layers :: l.inner
      ensures Valid()
      ensures r == Answering(Images(), lba)
    {
      hide Image.Valid, AllocatedAt, CacheOk, MinGrain, Answering;
      ghost var imgs := Images();
      var k := 0;
      while k < |layers|
        invariant k <= |layers|
        invariant Valid()
        invariant forall m: nat :: m < k ==> AllocatedAt(imgs[m], lba) == Ok(false)
      {
        var layer := layers[k];
        assert layer in layers && imgs[k] == layer.img;
        var hit := layer.IsAllocated(lba);
        AnsweringIs(imgs, lba, k);
        if hit.Err? {
          return Err(hit.error);
        }
        if hit.value {
          return Ok(Some(k));
        }
        k := k + 1;
      }
      AnsweringIs(imgs, lba, k);
      return Ok(None);
    }

    /** `Seek::seek`. */
    method Seek(from: SeekFrom) returns (r: Result<u64>)
      requires Valid()
      modifies `pos
      ensures Valid()
      ensures var t := SeekTarget(from, old(pos), size);
              if t < 0 then r == Err(InvalidInput) && pos == old(pos) else r == Ok(t) && pos == t
    {
      var target := SeekTarget(from, pos, size);
      if target < 0 {
        return Err(InvalidInput);
      }
      pos := target;
      return Ok(pos);
    }

    /** `Read::read`: clamp to the block, ask the layers newest first, fill zeros when none answers. */
    method Read(buf: array<byte>, lo: nat, hi: nat) returns (r: Result<nat>)
      requires Valid() && lo <= hi <= buf.Length
      modifies `pos, layers, set l | l in layers :: l.inner, buf
      ensures Valid()
      ensures Delivers(ChainSlice(Images(), size, clamp, old(pos)), lo, hi, old(pos), old(buf[..]), pos, buf[..], r)
    {
      hide Image.Valid, CacheOk, BlockBytes, MinGrain, Patch, SeekTarget;
      ghost var was := buf[..];
      if lo == hi || pos >= size {
        PatchNothing(was, lo);
        return Ok(0);
      }
      var toRead := Min(hi - lo, size - pos);
      if clamp > 0 {
        toRead := Min(toRead, clamp - pos % clamp);
      }
      TopSize(layers[0].img);
      var n :- ReadBlock(buf, lo, lo + toRead, ChainReach(size, clamp, pos));
      pos := pos + n;
      return Ok(n);
    }

    /** Ask the layers newest first; fill zeros when none answers. */
    method ReadBlock(buf: array<byte>, lo: nat, hi: nat, ghost reach: nat) returns (r: Result<nat>)
      requires Valid() && lo < hi <= buf.Length && hi - lo <= reach && pos <= I64_MAX
      modifies layers, set l | l in layers :: l.inner, buf
      ensures Valid()
      ensures match BlockBytes(Images(), pos, reach)
              case Err(e) => r == Err(e) && buf[..] == old(buf[..])
              case Ok(s) =>
                && r.Ok? && r.value <= |s| && r.value <= hi - lo && (r.value == 0 <==> s == [])
                && buf[..] == Patch(old(buf[..]), lo, s[..r.value])
    {
      hide Image.Valid, CacheOk, Slice, Answering, MinGrain, Patch, SeekTarget;
      ghost var imgs := Images();
      var found :- FindLayer(pos / SECTOR);
      if found.Some? {
        var k := found.value;
        assert layers[k] in layers && imgs[k] == layers[k].img;
        r := ReadLayer(layers[k], buf, lo, hi, reach);
        return;
      }
      ZeroFill(buf, lo, hi);
      assert Zeros(reach)[..hi - lo] == Zeros(hi - lo);
      return Ok(hi - lo);
    }

    /** Seek the answering layer to the cursor and read it. */
    method ReadLayer(layer: VmdkReader, buf: array<byte>, lo: nat, hi: nat, ghost reach: nat) returns (r: Result<nat>)
      requires Valid() && layer in layers && lo < hi <= buf.Length && hi - lo <= reach && pos <= I64_MAX
      modifies layer, layer.inner, buf
      ensures Valid()
      ensures match Slice(layer.img, false, pos)
              case Err(e) => r == Err(e) && buf[..] == old(buf[..])
              case Ok(s) =>
                && r.Ok? && r.value <= Min(|s|, reach) && r.value <= hi - lo
                && (r.value == 0 <==> s[..Min(|s|, reach)] == [])
                && buf[..] == Patch(old(buf[..]), lo, s[..Min(|s|, reach)][..r.value])
    {
      hide Image.Valid, CacheOk, Slice, MinGrain, Patch, SeekTarget;
      ghost var was := buf[..];
      SeekExact(pos);
      var at := layer.Seek(Start(pos));
      r := layer.Read(buf, lo, hi);
      if r.Ok? {
        ghost var s := Slice(layer.img, false, pos).value;
        assert s[..Min(|s|, reach)][..r.value] == s[..r.value];
      }
    }

    method ZeroFill(buf: array<byte>, lo: nat, hi: nat)
      requires lo <= hi <= buf.Length
      modifies buf
      ensures buf[..] == Patch(old(buf[..]), lo, Zeros(hi - lo))
    {
      ghost var was := buf[..];
      forall k | lo <= k < hi {
        buf[k] := 0;
      }
      ZeroPatch(was, buf[..], lo, hi - lo);
    }
  }

  lemma SeekExact(offset: u64)
    requires offset <= I64_MAX
    ensures forall pos: u64, size: u64 :: SeekTarget(Start(offset), pos, size) == offset
  {
  }

  lemma NoOverlay(imgs: seq<Image>, off: nat, none: seq<byte>)
    requires (forall i :: i in imgs ==> i.Valid()) && none == []
    ensures OverlayBytes(imgs, off, none)
  {
  }

  lemma TopSize(img: Image)
    requires img.Valid()
    ensures img.size <= I64_MAX
  {
  }

  /** Where nothing is allocated below the end of the top layer, the top layer is sparse. */
  lemma TopIsSparse(imgs: seq<Image>, clamp: nat, off: nat)
    requires (forall i :: i in imgs ==> i.Valid()) && |imgs| > 0
    requires Unallocated(imgs, off / SECTOR) && off < imgs[0].size && clamp == MinGrain(imgs)
    ensures clamp > 0
  {
    hide AllocatedAt, Image.Valid, MinGrain;
    AllocatedFrom(imgs[0], off);
    assert AllocatedAt(imgs[0], off / SECTOR) == Ok(false);
    MinGrainIsMin(imgs);
  }

  // ── sound layers never fail ───────────────────────────────────────────────

  lemma SoundAllocated(img: Image, lba: nat)
    requires img.Valid() && Sound(img, false)
    ensures AllocatedAt(img, lba).Ok?
    ensures AllocatedAt(img, lba) == Ok(true) ==> lba * SECTOR < img.size
  {
    hide Image.Valid, Sound, Slice, GrainAllocated, GrainIdx;
    if lba < img.size / SECTOR && !img.fmt.Flat? {
      SectorInside(img.size, lba);
      SoundNeverFails(img, false, lba * SECTOR);
      ReadableEntry(img, lba * SECTOR);
    }
  }

  lemma ReadableEntry(img: Image, off: nat)
    requires img.Valid() && !img.fmt.Flat? && off < img.size && Slice(img, false, off).Ok?
    ensures GrainAllocated(img, GrainIdx(img, off)).Ok?
  {
    hide Image.Valid, GrainIdx, InGrain, SlotIdx, EntryIdx, Fetch, Locate, SeSlotGte;
  }

  /** With sound layers, no read below the end of the disk fails or stalls. */
  lemma SoundLayersNeverFail(imgs: seq<Image>, off: nat)
    requires forall i :: i in imgs ==> i.Valid() && Sound(i, false)
    ensures forall k: nat :: k < |imgs| ==> AllocatedAt(imgs[k], off / SECTOR).Ok? && Slice(imgs[k], false, off).Ok?
    ensures forall k: nat :: Newest(imgs, off / SECTOR, k) ==> Slice(imgs[k], false, off) != Ok([])
  {
    hide Image.Valid, Sound, Slice, AllocatedAt;
    forall k: nat | k < |imgs|
      ensures AllocatedAt(imgs[k], off / SECTOR).Ok? && Slice(imgs[k], false, off).Ok?
      ensures AllocatedAt(imgs[k], off / SECTOR) == Ok(true) ==> Slice(imgs[k], false, off) != Ok([])
    {
      SoundAllocated(imgs[k], off / SECTOR);
      AllocatedFrom(imgs[k], off);
      if off < imgs[k].size {
        SoundNeverFails(imgs[k], false, off);
      } else {
        PastEnd(imgs[k], off);
      }
    }
  }

  /** Over sound layers every chain read below the end succeeds and makes progress. */
  lemma SoundChainNeverStalls(imgs: seq<Image>, clamp: nat, pos: nat)
    requires imgs != [] && forall i :: i in imgs ==> i.Valid() && Sound(i, false)
    requires pos < imgs[0].size
    ensures ChainSlice(imgs, imgs[0].size, clamp, pos).Ok? && ChainSlice(imgs, imgs[0].size, clamp, pos).value != []
  {
    hide Image.Valid, Sound, Slice, AllocatedAt, Answering;
    SoundLayersNeverFail(imgs, pos);
    AnsweringMeans(imgs, pos / SECTOR);
  }

  lemma PastEnd(img: Image, off: nat)
    requires img.Valid() && off >= img.size
    ensures Slice(img, false, off) == Ok([])
  {
  }
}
