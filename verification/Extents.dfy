/** Extents laid end to end: the tiling and concatenation shared by both multi-file readers. */
module Extents {
  import opened Wrappers
  import opened Arith
  import opened Bytes
  import opened ChainOpening

  /** The files a descriptor can refer to. */
  type Directory = map<Path, File>

  /** Open an extent file by the name its descriptor gives. */
  function FileAt(base: Path, dir: Directory, name: string): Result<File> {
    var path :- ResolvePath(base, name);
    if path in dir then Ok(dir[path]) else Err(NotFound)
  }

  /** A half-open range of virtual bytes. */
  datatype Tile = Tile(start: u64, end: u64)
  {
    predicate Covers(pos: nat) {
      start <= pos < end
    }
  }

  function Sum(sizes: seq<nat>): nat {
    if sizes == [] then 0 else Sum(sizes[..|sizes| - 1]) + sizes[|sizes| - 1]
  }

  /** Tile `k` has size `sizes[k]` and starts where the tiles before it end. */
  ghost predicate Tiling(tiles: seq<Tile>, sizes: seq<nat>) {
    && |tiles| == |sizes|
    && forall k :: 0 <= k < |tiles| ==> tiles[k].start == Sum(sizes[..k]) && tiles[k].end == tiles[k].start + sizes[k]
  }

  /** The first tile covering `pos`, or the number of tiles. */
  function FirstCovering(tiles: seq<Tile>, pos: nat): (k: nat)
    ensures k <= |tiles|
    ensures k < |tiles| ==> tiles[k].Covers(pos)
    ensures forall m :: 0 <= m < k ==> !tiles[m].Covers(pos)
  {
    if tiles == [] || tiles[0].Covers(pos) then 0 else 1 + FirstCovering(tiles[1..], pos)
  }

  /** The linear search of both readers. */
  method FindTile(tiles: seq<Tile>, pos: nat) returns (k: nat)
    ensures k == FirstCovering(tiles, pos)
  {
    k := 0;
    while k < |tiles|
      invariant k <= |tiles|
      invariant forall m: nat :: m < k ==> !tiles[m].Covers(pos)
    {
      if tiles[k].Covers(pos) {
        break;
      }
      k := k + 1;
    }
  }

  lemma {:induction false} SumGrows(sizes: seq<nat>, k: nat, m: nat)
    requires k <= m <= |sizes|
    ensures Sum(sizes[..k]) <= Sum(sizes[..m])
  {
    if k < m {
      SumGrows(sizes, k, m - 1);
      assert sizes[..m][..m - 1] == sizes[..m - 1];
    }
  }

  /** Tiles end inside the total. */
  lemma TileInside(tiles: seq<Tile>, sizes: seq<nat>, k: nat)
    requires Tiling(tiles, sizes) && k < |tiles|
    ensures tiles[k].end == tiles[k].start + sizes[k] == Sum(sizes[..k + 1]) <= Sum(sizes)
  {
    SumGrows(sizes, k + 1, |sizes|);
    assert sizes[..k + 1][..k] == sizes[..k] && sizes[..|sizes|] == sizes;
  }

  /** No overlap: a position in one tile is before every later tile. */
  lemma NoOverlap(tiles: seq<Tile>, sizes: seq<nat>, k: nat, m: nat, pos: nat)
    requires Tiling(tiles, sizes) && k < m < |tiles| && tiles[k].Covers(pos)
    ensures pos < tiles[m].start
  {
    TileInside(tiles, sizes, k);
    SumGrows(sizes, k + 1, m);
  }

  lemma {:induction false} CoveringBelow(tiles: seq<Tile>, sizes: seq<nat>, n: nat, pos: nat)
    requires Tiling(tiles, sizes) && n <= |sizes| && pos < Sum(sizes[..n])
    ensures exists k: nat :: k < n && tiles[k].Covers(pos)
  {
    var last := n - 1;
    assert sizes[..n][..last] == sizes[..last];
    if pos < Sum(sizes[..last]) {
      CoveringBelow(tiles, sizes, last, pos);
    } else {
      assert tiles[last].Covers(pos);
    }
  }

  /** The search is total below the end, and finds the one covering tile. */
  lemma FindIsTotal(tiles: seq<Tile>, sizes: seq<nat>, pos: nat)
    requires Tiling(tiles, sizes)
    ensures FirstCovering(tiles, pos) < |tiles| <==> pos < Sum(sizes)
    ensures forall k: nat :: k < |tiles| && tiles[k].Covers(pos) ==> k == FirstCovering(tiles, pos)
  {
    hide Sum;
    assert sizes[..|sizes|] == sizes;
    if pos < Sum(sizes) {
      CoveringBelow(tiles, sizes, |sizes|, pos);
    }
    var f := FirstCovering(tiles, pos);
    if f < |tiles| {
      TileInside(tiles, sizes, f);
      forall k: nat | f < k < |tiles|
        ensures !tiles[k].Covers(pos)
      {
        NoOverlap(tiles, sizes, f, k, pos);
      }
    }
  }

  /** Tiles laid out by wrapping 64-bit sums: exact only while the sums fit. */
  ghost predicate WrappedTiling(tiles: seq<Tile>, sizes: seq<nat>) {
    && |tiles| == |sizes|
    && forall k :: 0 <= k < |tiles| ==>
         tiles[k].start == Wrap64(Sum(sizes[..k])) && tiles[k].end == Wrap64(Sum(sizes[..k]) + sizes[k])
  }

  lemma WrapLeft(a: nat, n: nat)
    ensures Wrap64(Wrap64(a) + n) == Wrap64(a + n)
  {
    var m := 0x1_0000_0000_0000_0000;
    var r: nat := Wrap64(a) + n;
    assert a + n == m * (a / m + r / m) + r % m;
    DivModUnique(a / m + r / m, r % m, m);
  }

  lemma WrapAdd(a: nat, n: nat)
    ensures Wrap64(Wrap64(a) + n) == Wrap64(a + n) == Wrap64(Wrap64(a) + Wrap64(n))
  {
    hide Wrap64;
    WrapLeft(a, n);
    WrapLeft(n, Wrap64(a));
  }

  /** One more tile at the end. */
  lemma WrappedStep(tiles: seq<Tile>, sizes: seq<nat>, t: Tile, n: nat)
    requires WrappedTiling(tiles, sizes) && t.start == Wrap64(Sum(sizes)) && t.end == Wrap64(t.start + n)
    ensures WrappedTiling(tiles + [t], sizes + [n])
    ensures Sum(sizes + [n]) == Sum(sizes) + n
  {
    hide Wrap64, Sum;
    var more := sizes + [n];
    assert more[..|sizes|] == sizes;
    WrapAdd(Sum(sizes), n);
    PrefixSum(more, |sizes|);
    assert more[..|more|] == more;
    forall k | 0 <= k < |sizes|
      ensures more[..k] == sizes[..k]
    {
    }
  }

  /** While the whole fits 64 bits, nothing has wrapped. */
  lemma WrappedIsExact(tiles: seq<Tile>, sizes: seq<nat>)
    requires WrappedTiling(tiles, sizes) && Sum(sizes) <= U64_MAX
    ensures Tiling(tiles, sizes)
  {
    hide Sum, Wrap64;
    forall k | 0 <= k < |sizes|
      ensures tiles[k].start == Sum(sizes[..k]) && tiles[k].end == tiles[k].start + sizes[k]
    {
      assert sizes[..|sizes|] == sizes;
      SumGrows(sizes, k, |sizes|);
      SumGrows(sizes, k + 1, |sizes|);
      PrefixSum(sizes, k);
      WrapSmall(Sum(sizes[..k]));
      WrapSmall(Sum(sizes[..k]) + sizes[k]);
    }
  }

  lemma PrefixSum(sizes: seq<nat>, k: nat)
    requires k < |sizes|
    ensures Sum(sizes[..k + 1]) == Sum(sizes[..k]) + sizes[k]
  {
    assert sizes[..k + 1][..k] == sizes[..k];
  }

  // ── concatenation ─────────────────────────────────────────────────────────

  function Joined(pieces: seq<seq<byte>>): seq<byte> {
    if pieces == [] then [] else Joined(pieces[..|pieces| - 1]) + pieces[|pieces| - 1]
  }

  function Lengths(pieces: seq<seq<byte>>): (l: seq<nat>)
    ensures |l| == |pieces|
  {
    seq(|pieces|, k requires 0 <= k < |pieces| => |pieces[k]|)
  }

  lemma {:induction false} JoinedLength(pieces: seq<seq<byte>>)
    ensures |Joined(pieces)| == Sum(Lengths(pieces))
  {
    if pieces != [] {
      var init := pieces[..|pieces| - 1];
      JoinedLength(init);
      assert Lengths(pieces)[..|init|] == Lengths(init);
    }
  }

  /** Where piece `k` lies in the concatenation. */
  lemma {:induction false} JoinedPart(pieces: seq<seq<byte>>, k: nat)
    requires k < |pieces|
    ensures var at := Sum(Lengths(pieces)[..k]);
            at + |pieces[k]| <= |Joined(pieces)| && Joined(pieces)[at..at + |pieces[k]|] == pieces[k]
  {
    var init := pieces[..|pieces| - 1];
    JoinedLength(init);
    assert Lengths(pieces)[..|init|] == Lengths(init);
    if k < |init| {
      JoinedPart(init, k);
      assert Lengths(init)[..k] == Lengths(pieces)[..k] && init[k] == pieces[k];
    }
  }

  /** From a position in a tile to the tile's end, the concatenation is the rest of its piece. */
  lemma TileSlice(tiles: seq<Tile>, pieces: seq<seq<byte>>, k: nat, pos: nat, n: nat)
    requires Tiling(tiles, Lengths(pieces)) && k < |tiles| && tiles[k].Covers(pos) && pos + n <= tiles[k].end
    ensures pos + n <= |Joined(pieces)|
    ensures Joined(pieces)[pos..pos + n] == pieces[k][pos - tiles[k].start..][..n]
  {
    hide Sum, Joined;
    JoinedPart(pieces, k);
    var start: nat, end: nat := tiles[k].start, tiles[k].end;
    assert Joined(pieces)[start..end][pos - start..][..n] == Joined(pieces)[pos..pos + n];
  }
}
