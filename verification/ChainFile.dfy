/**
 Opening a snapshot chain from its files (core/src/chain.rs, `open`): the parent walk, the layers
 it opens, and the overlay they read as.
 */
module ChainFiles {
  import opened Wrappers
  import opened Descriptors
  import opened Images
  import opened Sources
  import opened Readers
  import opened Opening
  import opened ChainOpening
  import opened Extents
  import opened Chains
  import opened ChainExactness

  /** What opening the file at a path yields. */
  type DiskSystem = Path -> Result<Opened>

  /** The descriptive half of a disk system: all the walk looks at. */
  function MetasOf(fs: DiskSystem): FileSystem {
    p => if fs(p).Ok? then Ok(fs(p).value.meta) else Err(fs(p).error)
  }

  ghost predicate OpensValid(fs: DiskSystem) {
    forall p :: fs(p).Ok? ==> fs(p).value.img.Valid()
  }

  /** `layers` are fresh readers of the images at `walked`. */
  ghost predicate LayersOf(layers: seq<VmdkReader>, fs: DiskSystem, walked: seq<Path>)
    reads layers
  {
    && |layers| <= |walked|
    && forall k :: 0 <= k < |layers| ==>
         && fs(walked[k]).Ok?
         && layers[k].img == fs(walked[k]).value.img && layers[k].meta == fs(walked[k]).value.meta
         && layers[k].Valid() && !layers[k].rgdFallback && layers[k].pos == 0
  }

  /** One more layer opened at the end of the walk. */
  lemma LayersGrow(layers: seq<VmdkReader>, fs: DiskSystem, walked: seq<Path>, l: VmdkReader)
    requires LayersOf(layers, fs, walked) && |walked| == |layers| + 1
    requires var o := fs(walked[|layers|]); o.Ok? && l.img == o.value.img && l.meta == o.value.meta
    requires l.Valid() && !l.rgdFallback && l.pos == 0
    ensures LayersOf(layers + [l], fs, walked)
  {
    hide Image.Valid, CacheOk;
  }

  lemma LayersStay(layers: seq<VmdkReader>, fs: DiskSystem, walked: seq<Path>, next: Path)
    requires LayersOf(layers, fs, walked)
    ensures LayersOf(layers, fs, walked + [next])
  {
    hide Image.Valid, CacheOk;
  }

  /**
   `VmdkChainReader::open`, for every parent graph: the walk ends; it succeeds exactly when a
   chain within the depth limit exists, and the chain reader is then built on readers of that
   chain's 1 to 65 files, newest first. A failure is that of the path the walk stops at.
   */
  method OpenChain(fs: DiskSystem, start: Path) returns (r: Result<VmdkChainReader>, ghost walked: seq<Path>)
    requires OpensValid(fs)
    ensures r.Ok? ==>
              && fresh(r.value) && r.value.Valid() && r.value.pos == 0
              && Accepted(MetasOf(fs), start, walked)
              && 1 <= |r.value.layers| == |walked| <= MAX_CHAIN_DEPTH + 1
              && LayersOf(r.value.layers, fs, walked)
    ensures r.Err? ==> FailsAt(MetasOf(fs), start, walked, r.error)
    ensures r.Err? ==> !exists ps :: Accepted(MetasOf(fs), start, ps)
  {
    hide Terminal, ParentPath, ParentHint, HasParent, Accepted, IsWalk, FailsAt, LayersOf, Image.Valid, CacheOk, MinGrain;
    ghost var metas := MetasOf(fs);
    var layers: seq<VmdkReader> := [];
    var current := start;
    walked := [start];
    StartWalk(fs, start);
    var depth := 0;
    while depth <= MAX_CHAIN_DEPTH
      invariant 0 <= depth <= MAX_CHAIN_DEPTH
      invariant |layers| == depth && |walked| == depth + 1 && current == walked[depth]
      invariant LayersOf(layers, fs, walked) && IsWalk(metas, start, walked)
    {
      var outcome := fs(current);
      if outcome.Err? {
        Failed(metas, start, walked, outcome.error);
        return Err(outcome.error), walked;
      }
      var o := outcome.value;
      var src := new Source(o.img.file);
      var reader := new VmdkReader(src, o.img, o.meta);
      var m := reader.meta;
      TerminalCases(m);
      LayersGrow(layers, fs, walked, reader);
      layers := layers + [reader];
      if m.parentCid == NO_PARENT {
        WalkAccepted(metas, start, walked);
        r := Assemble(layers, fs, walked);
        return;
      }
      if depth == MAX_CHAIN_DEPTH {
        Failed(metas, start, walked, FieldOutOfRange);
        return Err(FieldOutOfRange), walked;
      }
      var hint := ParentHint(m);
      if hint == "" {
        WalkAccepted(metas, start, walked);
        r := Assemble(layers, fs, walked);
        return;
      }
      var next := ResolvePath(ParentDir(current), hint);
      ParentPathIs(current, m);
      if next.Err? {
        Failed(metas, start, walked, next.error);
        return Err(next.error), walked;
      }
      WalkStep(metas, start, walked, next.value);
      LayersStay(layers, fs, walked, next.value);
      walked := walked + [next.value];
      current := next.value;
      depth := depth + 1;
    }
    assert false;
  }

  lemma StartWalk(fs: DiskSystem, start: Path)
    ensures LayersOf([], fs, [start]) && IsWalk(MetasOf(fs), start, [start])
  {
    hide Terminal, ParentPath;
  }

  /** The walk stops at its last path with error `e`. */
  lemma Failed(fs: FileSystem, start: Path, walked: seq<Path>, e: Error)
    requires IsWalk(fs, start, walked) && |walked| <= MAX_CHAIN_DEPTH + 1
    requires var p := walked[|walked| - 1];
             if fs(p).Err? then e == fs(p).error
             else if |walked| == MAX_CHAIN_DEPTH + 1 then HasParent(fs(p).value) && e == FieldOutOfRange
             else !Terminal(fs(p).value) && ParentPath(p, fs(p).value) == Err(e)
    ensures FailsAt(fs, start, walked, e)
    ensures !exists ps :: Accepted(fs, start, ps)
  {
    hide Terminal, ParentPath, HasParent, IsWalk, Accepted;
    LastOfWalk(fs, start, walked);
    forall ps
      ensures !Accepted(fs, start, ps)
    {
      FailedHasNoChain(fs, start, walked, e, ps);
    }
  }

  /** The chain reader over the opened layers. */
  method Assemble(layers: seq<VmdkReader>, fs: DiskSystem, ghost walked: seq<Path>) returns (r: Result<VmdkChainReader>)
    requires layers != [] && LayersOf(layers, fs, walked)
    ensures r.Ok? && fresh(r.value) && r.value.Valid() && r.value.pos == 0 && r.value.layers == layers
    ensures LayersOf(layers, fs, walked)
  {
    hide Image.Valid, CacheOk, MinGrain;
    var c := new VmdkChainReader(layers);
    return Ok(c);
  }

  // ── chains of binary files ────────────────────────────────────────────────

  /** `open_path` over a directory of binary files. */
  function FilesAt(dir: Directory, tools: Tools): DiskSystem {
    p => if p in dir then OpenStream(dir[p], tools) else Err(NotFound)
  }

  lemma FilesOpenValid(dir: Directory, tools: Tools)
    ensures OpensValid(FilesAt(dir, tools))
  {
    hide OpenStream, Image.Valid;
    forall p | FilesAt(dir, tools)(p).Ok?
      ensures FilesAt(dir, tools)(p).value.img.Valid()
    {
      OpenedIsValid(dir[p], tools);
    }
  }

  /**
   Walk, clamp and overlay together: opening a chain from its newest file succeeds exactly when an
   accepted chain of files exists, and when the smallest grain size of its layers divides the
   others (`AllMultiples`), every read from any position returns merged bytes.
   */
  method OpenFiles(dir: Directory, tools: Tools, start: Path) returns (r: Result<VmdkChainReader>, ghost walked: seq<Path>)
    ensures r.Ok? <==> exists ps :: Accepted(MetasOf(FilesAt(dir, tools)), start, ps)
    ensures r.Err? ==> FailsAt(MetasOf(FilesAt(dir, tools)), start, walked, r.error)
    ensures r.Ok? ==>
              && fresh(r.value) && r.value.Valid() && r.value.pos == 0
              && 1 <= |r.value.layers| == |walked| <= MAX_CHAIN_DEPTH + 1
              && LayersOf(r.value.layers, FilesAt(dir, tools), walked)
              && (AllMultiples(GrainSizes(r.value.Images())) ==> ReadsOverlay(r.value.Images()))
  {
    hide OpenStream, Accepted, FailsAt, Image.Valid, CacheOk, MinGrain, LayersOf, OpensValid, AllMultiples, ReadsOverlay, GrainSizes, InGrains;
    FilesOpenValid(dir, tools);
    r, walked := OpenChain(FilesAt(dir, tools), start);
    if r.Ok? {
      var c := r.value;
      if AllMultiples(GrainSizes(c.Images())) {
        FilesInGrains(c.layers, dir, tools, walked);
        ReadsAreOverlay(c.Images());
      }
    }
  }

  lemma FilesInGrains(layers: seq<VmdkReader>, dir: Directory, tools: Tools, walked: seq<Path>)
    requires LayersOf(layers, FilesAt(dir, tools), walked)
    ensures forall i :: i in LayerImages(layers) ==> i.Valid() && InGrains(i)
  {
    hide OpenStream, Image.Valid, CacheOk;
    forall i | i in LayerImages(layers)
      ensures i.Valid() && InGrains(i)
    {
      var k :| 0 <= k < |layers| && LayerImages(layers)[k] == i;
      OpenedInGrains(dir[walked[k]], tools);
    }
  }
}
