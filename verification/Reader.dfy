/**
 The reader state machine (core/src/read.rs, core/src/recovery.rs and the queries of
 core/src/lib.rs): a cursor, a grain-table cache and a recovery counter over a byte source.

 Every method's result is tied to the abstract disk of `Images`, which knows nothing of the
 cache, of short reads or of what was read before.
 */
module Readers {
  import opened Wrappers
  import opened Arith
  import opened Bytes
  import opened Headers
  import opened Images
  import opened Scans
  import opened Sources

  /** `std::io::SeekFrom`. */
  datatype SeekFrom = Start(n: u64) | Current(d: i64) | End(d: i64)

  /** The target of a seek, in the signed 64-bit arithmetic of the source. */
  function SeekTarget(from: SeekFrom, pos: u64, size: u64): i64 {
    match from
    case Start(n) => WrapI64(n)
    case Current(d) => WrapI64(WrapI64(pos) + d)
    case End(d) => WrapI64(WrapI64(size) + d)
  }

  lemma WrapSigned(x: int)
    ensures -0x8000_0000_0000_0000 <= x <= I64_MAX ==> WrapI64(x) == x
    ensures I64_MAX < x <= U64_MAX ==> WrapI64(x) == x - 0x1_0000_0000_0000_0000 < 0
  {
    var y := x + 0x8000_0000_0000_0000;
    if 0 <= y < 0x1_0000_0000_0000_0000 {
      assert y % 0x1_0000_0000_0000_0000 == y;
    } else if 0x1_0000_0000_0000_0000 <= y < 0x2_0000_0000_0000_0000 {
      assert y % 0x1_0000_0000_0000_0000 == y - 0x1_0000_0000_0000_0000;
    }
  }

  /** Where nothing wraps, a seek is relative to the start, the cursor or the end; a start past the signed range is negative. */
  lemma SeekArithmetic(pos: u64, size: u64, n: u64, d: i64)
    ensures n <= I64_MAX ==> SeekTarget(Start(n), pos, size) == n
    ensures n > I64_MAX ==> SeekTarget(Start(n), pos, size) < 0
    ensures pos <= I64_MAX && pos + d <= I64_MAX ==> SeekTarget(Current(d), pos, size) == pos + d
    ensures size <= I64_MAX && size + d <= I64_MAX ==> SeekTarget(End(d), pos, size) == size + d
  {
    hide WrapI64;
    WrapSigned(n);
    WrapSigned(pos);
    WrapSigned(pos + d);
    WrapSigned(size);
    WrapSigned(size + d);
  }

  /** `k` is a table sector named by the primary or the redundant directory. */
  ghost predicate KnownSector(img: Image, k: u32)
    requires img.IsSparse()
  {
    exists i: nat :: i < |img.fmt.gd| && (Primary(img, i) == k || RgdEntry(img, i) == k)
  }

  /** Every cached table is the file's table at a sector some directory names. */
  ghost predicate CacheOk(img: Image, cache: map<u32, seq<u32>>) {
    cache != map[] ==>
      && img.IsSparse()
      && forall k :: k in cache ==> Usable(img, k) && cache[k] == Table(img, k) && KnownSector(img, k)
  }

  lemma CacheHit(img: Image, cache: map<u32, seq<u32>>, k: u32)
    requires CacheOk(img, cache) && k in cache && k != 0
    ensures img.IsSparse() && Usable(img, k) && cache[k] == Table(img, k)
  {
  }

  lemma CacheInsert(img: Image, cache: map<u32, seq<u32>>, fb: bool, i: nat)
    requires img.IsSparse() && CacheOk(img, cache) && i < |img.fmt.gd|
    requires Usable(img, Resolve(img, fb, i))
    ensures CacheOk(img, cache[Resolve(img, fb, i) := Table(img, Resolve(img, fb, i))])
  {
    hide Usable, Table;
    var k := Resolve(img, fb, i);
    assert Primary(img, i) == k || RgdEntry(img, i) == k;
    assert KnownSector(img, k);
  }

  /** The bytes of a readable table decode to it. */
  lemma TableBytes(img: Image, sec: u32)
    requires img.IsSparse() && Usable(img, sec)
    ensures LeTable32(img.file[sec * SECTOR..sec * SECTOR + img.fmt.ngte * 4]) == Table(img, sec)
  {
    var b := img.file[sec * SECTOR..sec * SECTOR + img.fmt.ngte * 4];
    forall j | 0 <= j < img.fmt.ngte
      ensures LeTable32(b)[j] == Table(img, sec)[j]
    {
      LeU32Slice(img.file, sec * SECTOR, sec * SECTOR + img.fmt.ngte * 4, 4 * j);
    }
  }

  class VmdkReader {
    const inner: Source
    const img: Image
    const meta: Meta
    var pos: u64
    var gtCache: map<u32, seq<u32>>
    var rgdFallback: bool
    var rgdRecoveryCount: nat

    ghost predicate Valid()
      reads this
    {
      img.Valid() && inner.data == img.file && CacheOk(img, gtCache)
    }

    /** Wrap an opened image: cursor at 0, empty cache, recovery off. */
    constructor (inner: Source, img: Image, meta: Meta)
      requires img.Valid() && inner.data == img.file
      ensures Valid() && this.inner == inner && this.img == img && this.meta == meta
      ensures pos == 0 && gtCache == map[] && !rgdFallback && rgdRecoveryCount == 0
    {
      this.inner := inner;
      this.img := img;
      this.meta := meta;
      pos := 0;
      gtCache := map[];
      rgdFallback := false;
      rgdRecoveryCount := 0;
    }

    method EnableRgdFallback()
      requires Valid()
      modifies `rgdFallback
      ensures Valid() && rgdFallback
    {
      rgdFallback := true;
    }

    /** `Seek::seek`: a negative target is refused and moves nothing. */
    method Seek(from: SeekFrom) returns (r: Result<u64>)
      requires Valid()
      modifies `pos
      ensures Valid()
      ensures var t := SeekTarget(from, old(pos), img.size);
              if t < 0 then r == Err(InvalidInput) && pos == old(pos) else r == Ok(t) && pos == t
    {
      var target := SeekTarget(from, pos, img.size);
      if target < 0 {
        return Err(InvalidInput);
      }
      pos := target;
      return Ok(pos);
    }

    // ── recovery resolvers ──────────────────────────────────────────────────

    // Each resolver checks bounds before it reads, so it cannot fail and returns a plain value.

    /** `rgd_dir_entry`. */
    method RgdDirEntry(i: nat, fileLen: u64) returns (r: u32)
      requires Valid() && fileLen == |img.file|
      modifies inner
      ensures r == RgdEntry(img, i)
    {
      if img.rgdOffset == 0 || img.rgdOffset == GD_AT_END {
        return 0;
      }
      if i >= img.gdCount {
        return 0;
      }
      var entryByte := SatAdd(SatMul(img.rgdOffset, SECTOR), 4 * i);
      if SatAdd(entryByte, 4) > fileLen {
        return 0;
      }
      var b := inner.ReadExactAt(entryByte, 4);
      LeU32Slice(img.file, entryByte, entryByte + 4, 0);
      return LeU32(b.value, 0);
    }

    /** `resilient_gt_sector`. */
    method ResilientGtSector(i: nat, primary: u32) returns (r: u32)
      requires Valid() && img.IsSparse() && primary == Primary(img, i)
      modifies inner
      ensures r == Resolve(img, true, i)
    {
      var fileLen := inner.SeekEnd();
      var gtByteLen := img.fmt.ngte * 4;
      if primary != 0 && primary * SECTOR + gtByteLen <= fileLen {
        return primary;
      }
      var rgd := RgdDirEntry(i, fileLen);
      if rgd != 0 && rgd * SECTOR + gtByteLen <= fileLen {
        return rgd;
      }
      return primary;
    }

    /** `read_redundant_gt`: the redundant table's bytes, when the whole table is in the file. */
    method ReadRedundantGt(i: nat) returns (r: Option<seq<byte>>)
      requires Valid() && img.IsSparse()
      modifies inner
      ensures r.Some? <==> Usable(img, RgdEntry(img, i))
      ensures r.Some? ==> |r.value| == img.fmt.ngte * 4 && LeTable32(r.value) == Table(img, RgdEntry(img, i))
    {
      hide Table, TableEntry, RgdEntry, LeTable32;
      var fileLen := inner.SeekEnd();
      var sector := RgdDirEntry(i, fileLen);
      if sector == 0 {
        return None;
      }
      var gtByte := sector * SECTOR;
      var gtByteLen := img.fmt.ngte * 4;
      if SatAdd(gtByte, gtByteLen) > fileLen {
        return None;
      }
      var b := inner.ReadExactAt(gtByte, gtByteLen);
      TableBytes(img, sector);
      return Some(b.value);
    }

    /**
     `rgd_gte`: one entry of the redundant table, 0 when it is out of reach. Once the whole
     table is known to lie in the file, the source's second check on the entry cannot fire.
     */
    method RgdGteAt(i: nat, j: nat) returns (r: u32)
      requires Valid() && img.IsSparse() && j < img.fmt.ngte
      modifies inner
      ensures r == RgdGte(img, i, j)
    {
      hide RgdEntry;
      var fileLen := inner.SeekEnd();
      var sector := RgdDirEntry(i, fileLen);
      if sector == 0 {
        return 0;
      }
      var gtByte := sector * SECTOR;
      if SatAdd(gtByte, img.fmt.ngte * 4) > fileLen {
        return 0;
      }
      var entryByte := gtByte + j * 4;
      var b := inner.ReadExactAt(entryByte, 4);
      LeU32Slice(img.file, entryByte, entryByte + 4, 0);
      return LeU32(b.value, 0);
    }

    // ── grain lookup ────────────────────────────────────────────────────────

    /** The decoded table at the resolved sector of slot `i`, from the cache or the file. */
    method CachedTable(i: nat, sec: u32) returns (r: Result<seq<u32>>)
      requires Valid() && img.IsSparse() && i < |img.fmt.gd| && sec == Resolve(img, rgdFallback, i) && sec != 0
      modifies `gtCache, inner
      ensures Valid()
      ensures r == if Usable(img, sec) then Ok(Table(img, sec)) else Err(UnexpectedEof)
    {
      hide Table, Resolve, Image.Valid, CacheOk, LeTable32;
      if sec in gtCache {
        CacheHit(img, gtCache, sec);
        return Ok(gtCache[sec]);
      }
      Shape(img);
      var gtBytes :- inner.ReadExactAt(sec * SECTOR, img.fmt.ngte * 4);
      TableBytes(img, sec);
      var gt := LeTable32(gtBytes);
      CacheInsert(img, gtCache, rgdFallback, i);
      gtCache := gtCache[sec := gt];
      return Ok(gt);
    }

    /** The entry lookup of `grain_location_sparse`, counting entries the RGD answers. */
    method ResolveEntry(i: nat, j: nat) returns (r: Result<u32>)
      requires Valid() && img.IsSparse() && i < |img.fmt.gd| && j < img.fmt.ngte
      modifies `gtCache, `rgdRecoveryCount, inner
      ensures Valid()
      ensures var e := SlotEntry(img, rgdFallback, i, j);
              && (if e.Err? then r == Err(e.error) else r == Ok(e.value.gte))
              && rgdRecoveryCount == old(rgdRecoveryCount) + (if e.Ok? && e.value.viaRgd then 1 else 0)
    {
      hide TableEntry, RgdEntry, RgdGte, Image.Valid, CacheOk;
      var primary := Primary(img, i);
      var gtSector := primary;
      if rgdFallback {
        gtSector := ResilientGtSector(i, primary);
      }
      var fromRgd := rgdFallback && gtSector != primary && gtSector != 0;
      if gtSector == 0 {
        return Ok(0);
      }
      var gt :- CachedTable(i, gtSector);
      var gte := gt[j];
      if rgdFallback && gte <= 1 {
        var redundant := RgdGteAt(i, j);
        if redundant > 1 {
          fromRgd := true;
          gte := redundant;
        }
      }
      if gte <= 1 {
        return Ok(gte);
      }
      if fromRgd {
        rgdRecoveryCount := rgdRecoveryCount + 1;
      }
      return Ok(gte);
    }

    /** Where a non-hole entry's data lives: in place, or behind a compression marker. */
    method LocateEntry(gte: u32, inGrain: nat) returns (r: Result<Loc>)
      requires Valid() && img.IsSparse()
      modifies inner
      ensures r == Locate(img, gte, inGrain)
    {
      if gte <= 1 {
        return Ok(Hole);
      }
      if img.fmt.compressed {
        var marker := gte * SECTOR;
        var hdr :- inner.ReadExactAt(marker, 12);
        LeU32Slice(img.file, marker, marker + 12, 8);
        var dataSize := LeU32(hdr, 8);
        var maxData := SatAdd(img.fmt.grain, 65536);
        if dataSize > maxData {
          return Err(InvalidData);
        }
        return Ok(Packed(marker + 12, dataSize, inGrain));
      }
      return Ok(At(gte * SECTOR + inGrain));
    }

    /** `se_read_gte`. */
    method SeReadGte(e: u64, j: nat) returns (r: Result<Option<u64>>)
      requires Valid() && img.fmt.SeSparse?
      modifies inner
      ensures r == SeSlotGte(img, e, j)
    {
      hide CacheOk, Image.Valid, LeU64;
      if e == 0 {
        return Ok(None);
      }
      if e / 0x1_0000_0000 != 0x1000_0000 {
        return Err(InvalidData);
      }
      var gtTableIdx := e % 0x1_0000_0000;
      var gtSector := img.fmt.gtOffset + gtTableIdx * SE_GT_SECTORS;
      var gtePos := Wrap64(gtSector * SECTOR + j * 8);
      var b :- inner.ReadExactAt(gtePos, 8);
      LeU64Slice(img.file, gtePos, gtePos + 8, 0);
      return Ok(Some(LeU64(b, 0)));
    }

    /** `grain_location_sesparse`. */
    method GrainLocationSe(off: nat) returns (r: Result<Loc>)
      requires Valid() && img.fmt.SeSparse?
      modifies inner
      ensures r == Lookup(img, rgdFallback, off)
    {
      hide SeSlotGte;
      var grainSectors := img.fmt.grain / SECTOR;
      var grainIdx := GrainIdx(img, off);
      var inGrain := InGrain(img, off);
      var gdIdx := SlotIdx(img, grainIdx);
      var gteIdx := EntryIdx(img, grainIdx);
      var gdEntry := SePrimary(img, gdIdx);
      var slot :- SeReadGte(gdEntry, gteIdx);
      if slot.None? {
        return Ok(Hole);
      }
      var gte := slot.value;
      if gte == 0 {
        return Ok(Hole);
      }
      if SeType(gte) == SE_UNMAPPED || SeType(gte) == SE_ZERO {
        return Ok(Hole);
      }
      if SeType(gte) == SE_ALLOCATED {
        var clusterSector := img.fmt.grainsOffset + SeGrainIndex(gte) * grainSectors;
        return Ok(At(Wrap64(clusterSector * SECTOR + inGrain)));
      }
      return Err(InvalidData);
    }

    /** `grain_location`: the cached, counting lookup is the abstract one. */
    method GrainLocation(off: nat) returns (r: Result<Loc>)
      requires Valid() && !img.fmt.Flat? && off < img.size
      modifies `gtCache, `rgdRecoveryCount, inner
      ensures Valid()
      ensures r == Lookup(img, rgdFallback, off)
      ensures rgdRecoveryCount == old(rgdRecoveryCount) +
                                  (if img.IsSparse() && AnsweredByRgd(img, rgdFallback, off) then 1 else 0)
    {
      hide SlotEntry, Locate, SeLocate, CacheOk, Image.Valid, GrainIdx, InGrain, SlotIdx, EntryIdx;
      if img.fmt.SeSparse? {
        r := GrainLocationSe(off);
        return;
      }
      SlotInRange(img, off);
      var grainIdx := GrainIdx(img, off);
      var inGrain := InGrain(img, off);
      var gdIdx := SlotIdx(img, grainIdx);
      var gteIdx := EntryIdx(img, grainIdx);
      var gte :- ResolveEntry(gdIdx, gteIdx);
      r := LocateEntry(gte, inGrain);
    }

    // ── reads ───────────────────────────────────────────────────────────────

    /** `read_compressed_grain`: decode at most one grain and copy the requested part. */
    method ReadCompressedGrain(buf: array<byte>, lo: nat, hi: nat, dataOff: u64, dataSize: nat, start: nat)
      returns (r: Result<nat>)
      requires Valid() && img.IsSparse() && lo <= hi <= buf.Length
      modifies inner, buf
      ensures var d := Unpack(img, dataOff, dataSize);
              if d.Err? then r == Err(d.error) && buf[..] == old(buf[..])
              else r == Ok(|Window(d.value, start, hi - lo)|)
                   && buf[..] == Patch(old(buf[..]), lo, Window(d.value, start, hi - lo))
    {
      ghost var was := buf[..];
      var payload :- inner.ReadExactAt(dataOff, dataSize);
      PayloadWindow(img.file, dataOff, dataSize);
      assert payload == Window(img.file, dataOff, dataSize);
      var grainData :- img.inflate(payload, img.fmt.grain + 1);
      if |grainData| > img.fmt.grain {
        return Err(InvalidData);
      }
      var end := Min(start + (hi - lo), |grainData|);
      if end <= start {
        assert Window(grainData, start, hi - lo) == [];
        PatchNothing(was, lo);
        return Ok(0);
      }
      var n := end - start;
      CopyIn(buf, lo, grainData[start..end]);
      return Ok(n);
    }

    /** `buf[..to].fill(0)`. */
    method FillZero(buf: array<byte>, lo: nat, hi: nat)
      requires lo <= hi <= buf.Length
      modifies buf
      ensures buf[..] == Patch(old(buf[..]), lo, Zeros(hi - lo))
    {
      forall k | lo <= k < hi {
        buf[k] := 0;
      }
    }

    /** `copy_from_slice`. */
    method CopyIn(buf: array<byte>, lo: nat, b: seq<byte>)
      requires lo + |b| <= buf.Length
      modifies buf
      ensures buf[..] == Patch(old(buf[..]), lo, b)
    {
      forall k | 0 <= k < |b| {
        buf[lo + k] := b[k];
      }
    }

    /** Deliver the bytes found at a location into `buf[lo..hi]`. */
    method Deliver(loc: Loc, buf: array<byte>, lo: nat, hi: nat) returns (r: Result<nat>)
      requires Valid() && lo < hi <= buf.Length
      requires loc.Packed? ==> img.IsSparse() && loc.dataOff <= U64_MAX
      requires loc.At? ==> loc.fileOff <= U64_MAX
      modifies inner, buf
      ensures match Fetch(img, loc, hi - lo)
              case Err(e) => r == Err(e) && buf[..] == old(buf[..])
              case Ok(s) =>
                && r.Ok? && r.value <= |s| && (r.value == 0 <==> s == [])
                && |s| <= hi - lo
                && buf[..] == Patch(old(buf[..]), lo, s[..r.value])
    {
      hide Patch, Window, Unpack, Image.Valid, CacheOk;
      match loc
      case Hole =>
        FillZero(buf, lo, hi);
        assert Zeros(hi - lo)[..hi - lo] == Zeros(hi - lo);
        return Ok(hi - lo);
      case At(o) =>
        inner.SeekStart(o);
        WindowLength(img.file, o, hi - lo);
        var n := inner.Read(buf, lo, hi);
        return Ok(n);
      case Packed(o, size, start) =>
        r := ReadCompressedGrain(buf, lo, hi, o, size, start);
        if r.Ok? {
          ghost var s := Window(Unpack(img, o, size).value, start, hi - lo);
          WindowLength(Unpack(img, o, size).value, start, hi - lo);
          assert s[..|s|] == s;
        }
        return;
    }

    /** `Read::read`: clamp to the grain and the disk, resolve, deliver, advance. */
    method Read(buf: array<byte>, lo: nat, hi: nat) returns (r: Result<nat>)
      requires Valid() && lo <= hi <= buf.Length
      modifies `pos, `gtCache, `rgdRecoveryCount, inner, buf
      ensures Valid()
      ensures ReadStep(img, rgdFallback, lo, hi, old(pos), old(buf[..]), pos, buf[..], r)
      ensures rgdRecoveryCount == old(rgdRecoveryCount) +
        (if lo < hi && old(pos) < img.size && img.IsSparse() && AnsweredByRgd(img, rgdFallback, old(pos)) then 1 else 0)
    {
      hide Patch, Window, Lookup, Fetch, AnsweredByRgd, CacheOk, InGrain, Image.Valid;
      ghost var was := buf[..];
      if pos >= img.size || lo == hi {
        PatchNothing(was, lo);
        return Ok(0);
      }
      ghost var reach := Reach(img, pos);
      var remaining := img.size - pos;
      if img.fmt.Flat? {
        var toRead := Min(hi - lo, remaining);
        inner.SeekStart(pos);
        WindowLength(img.file, pos, toRead);
        var n := inner.Read(buf, lo, lo + toRead);
        WindowPrefix(img.file, pos, toRead, reach, n);
        pos := pos + n;
        return Ok(n);
      }
      var remainingInGrain := img.fmt.grain - InGrain(img, pos);
      var toRead := Min(Min(hi - lo, remaining), remainingInGrain);
      var loc :- GrainLocation(pos);
      LookupBounds(img, rgdFallback, pos);
      var got := Deliver(loc, buf, lo, lo + toRead);
      FetchPrefix(img, loc, toRead, reach, if got.Ok? then got.value else 0);
      var n :- got;
      pos := pos + n;
      return Ok(n);
    }

    // ── queries ─────────────────────────────────────────────────────────────

    /** `is_allocated`: never consults the redundant directory, even in recovery mode. */
    method IsAllocated(lba: nat) returns (r: Result<bool>)
      requires Valid()
      modifies inner
      ensures r == AllocatedAt(img, lba)
    {
      hide GrainAllocated, CacheOk, Image.Valid, GrainIdx;
      if lba >= img.size / SECTOR {
        return Ok(false);
      }
      if img.fmt.Flat? {
        return Ok(true);
      }
      r := GrainAllocatedHere(GrainIdx(img, lba * SECTOR));
    }

    /** The table walk of `is_allocated` for one grain. */
    method GrainAllocatedHere(grainIdx: nat) returns (r: Result<bool>)
      requires Valid() && !img.fmt.Flat?
      modifies inner
      ensures r == GrainAllocated(img, grainIdx)
    {
      hide SeSlotGte, CacheOk, Image.Valid, SlotIdx, EntryIdx;
      if img.fmt.SeSparse? {
        var slot :- SeReadGte(SePrimary(img, SlotIdx(img, grainIdx)), EntryIdx(img, grainIdx));
        return Ok(slot.Some? && SeType(slot.value) == SE_ALLOCATED);
      }
      r := SlotAllocatedHere(SlotIdx(img, grainIdx), EntryIdx(img, grainIdx));
    }

    /** The primary-only entry test of `is_allocated`. */
    method SlotAllocatedHere(i: nat, j: nat) returns (r: Result<bool>)
      requires Valid() && img.IsSparse() && j < img.fmt.ngte
      modifies inner
      ensures r == SlotAllocated(img, i, j)
    {
      var gtSector := Primary(img, i);
      if gtSector == 0 {
        return Ok(false);
      }
      var gtePos := gtSector * SECTOR + j * 4;
      EntryAddress(img, gtSector, j);
      var b :- inner.ReadExactAt(gtePos, 4);
      LeU32Slice(img.file, gtePos, gtePos + 4, 0);
      return Ok(LeU32(b, 0) > 1);
    }

    // ── the allocation scan ─────────────────────────────────────────────────

    /** The inner loop of `iter_allocated_grains` over one VMDK4 or COWD grain table. */
    method ScanTable(i: nat, gtBytes: seq<byte>, pointerRecovered: bool, redundant: Option<seq<byte>>,
                     listed: seq<AllocatedGrain>) returns (result: seq<AllocatedGrain>)
      requires Valid() && img.IsSparse()
      requires Usable(img, Resolve(img, rgdFallback, i))
      requires |gtBytes| == img.fmt.ngte * 4 && LeTable32(gtBytes) == Table(img, Resolve(img, rgdFallback, i))
      requires pointerRecovered <==> Resolve(img, rgdFallback, i) != Primary(img, i)
      requires redundant.Some? <==> rgdFallback && Usable(img, RgdEntry(img, i))
      requires redundant.Some? ==> |redundant.value| == img.fmt.ngte * 4 && LeTable32(redundant.value) == Table(img, RgdEntry(img, i))
      requires listed == Listed(img, rgdFallback, i * img.fmt.ngte)
      modifies `rgdRecoveryCount
      ensures Valid()
      ensures result == Listed(img, rgdFallback, (i + 1) * img.fmt.ngte)
      ensures rgdRecoveryCount == old(rgdRecoveryCount)
                - |RecoveredSet(img, rgdFallback, i * img.fmt.ngte)| + |RecoveredSet(img, rgdFallback, (i + 1) * img.fmt.ngte)|
    {
      hide LeTable32, LeU32, Table, SlotEntry, Listed, RecoveredSet, SlotPresent, CacheOk, Resolve, RgdEntry, Image.Valid;
      Shape(img);
      var grainSectors := img.fmt.grain / SECTOR;
      result := listed;
      var j := 0;
      while j < img.fmt.ngte
        invariant j <= img.fmt.ngte
        invariant Valid()
        invariant result == Listed(img, rgdFallback, i * img.fmt.ngte + j)
        invariant rgdRecoveryCount == old(rgdRecoveryCount)
                    - |RecoveredSet(img, rgdFallback, i * img.fmt.ngte)| + |RecoveredSet(img, rgdFallback, i * img.fmt.ngte + j)|
      {
        var gte := LeU32(gtBytes, j * 4);
        var entryRecovered := false;
        if gte <= 1 {
          if redundant.Some? {
            var rgte := LeU32(redundant.value, j * 4);
            if rgte > 1 {
              gte := rgte;
              entryRecovered := true;
            }
          }
        }
        ScanEntry(img, rgdFallback, i, j, gtBytes, redundant);
        ListStep(img, rgdFallback, i, j);
        if gte > 1 {
          if pointerRecovered || entryRecovered {
            rgdRecoveryCount := rgdRecoveryCount + 1;
          }
          var grainIdx := i * img.fmt.ngte + j;
          var startLba := grainIdx * grainSectors;
          if startLba < img.size / SECTOR {
            result := result + [AllocatedGrain(startLba, grainSectors)];
          }
        }
        j := j + 1;
      }
      assert (i + 1) * img.fmt.ngte == i * img.fmt.ngte + img.fmt.ngte;
    }

    /** `iter_allocated_grains` for VMDK4 and COWD. */
    method ScanSparse() returns (r: Result<seq<AllocatedGrain>>)
      requires Valid() && img.IsSparse()
      modifies `rgdRecoveryCount, inner
      ensures Valid()
      ensures r == if ScanOk(img, rgdFallback) then Ok(Listing(img, rgdFallback)) else Err(UnexpectedEof)
      ensures rgdRecoveryCount == old(rgdRecoveryCount) + RecoveredByScan(img, rgdFallback)
    {
      hide LeTable32, Table, Listed, RecoveredSet, ReadableSlots, CacheOk, Image.Valid, RgdEntry, Usable, Resolve, SlotReadable;
      Shape(img);
      ListedZero(img, rgdFallback);
      var result: seq<AllocatedGrain> := [];
      var i := 0;
      while i < |img.fmt.gd|
        invariant i <= |img.fmt.gd|
        invariant Valid()
        invariant forall k :: 0 <= k < i ==> SlotReadable(img, rgdFallback, k)
        invariant result == Listed(img, rgdFallback, i * img.fmt.ngte)
        invariant rgdRecoveryCount == old(rgdRecoveryCount) + |RecoveredSet(img, rgdFallback, i * img.fmt.ngte)|
      {
        var primary := img.fmt.gd[i];
        var gtSector := primary;
        var redundant := None;
        if rgdFallback {
          gtSector := ResilientGtSector(i, primary);
          redundant := ReadRedundantGt(i);
        }
        SlotSector(img, rgdFallback, i, gtSector);
        if gtSector == 0 {
          ListSkip(img, rgdFallback, i);
          i := i + 1;
          continue;
        }
        var e := inner.ReadExactAt(gtSector * SECTOR, img.fmt.ngte * 4);
        if e.Err? {
          ReadableIs(img, rgdFallback, |img.fmt.gd|, i);
          return Err(e.error);
        }
        TableBytes(img, gtSector);
        var pointerRecovered := rgdFallback && gtSector != primary && gtSector != 0;
        result := ScanTable(i, e.value, pointerRecovered, redundant, result);
        i := i + 1;
      }
      ReadableIs(img, rgdFallback, |img.fmt.gd|, |img.fmt.gd|);
      return Ok(result);
    }

    /** The inner loop of `iter_allocated_grains` over one seSparse grain table. */
    method ScanSeTable(i: nat, gtBytes: seq<byte>, listed: seq<AllocatedGrain>) returns (result: seq<AllocatedGrain>)
      requires Valid() && img.fmt.SeSparse? && SeDirAllocated(SePrimary(img, i))
      requires |gtBytes| == SE_GTES_PER_GT * 8 && SeTableInFile(img, SePrimary(img, i))
      requires gtBytes == SeTableBytes(img, SePrimary(img, i))
      requires listed == Listed(img, rgdFallback, i * SE_GTES_PER_GT)
      ensures result == Listed(img, rgdFallback, (i + 1) * SE_GTES_PER_GT)
    {
      hide LeU64, Listed, SeSlotGte, SlotPresent, CacheOk, SeTableInFile, SeTableBytes, Image.Valid;
      var grainSectors := img.fmt.grain / SECTOR;
      result := listed;
      var j := 0;
      while j < SE_GTES_PER_GT
        invariant j <= SE_GTES_PER_GT
        invariant result == Listed(img, rgdFallback, i * SE_GTES_PER_GT + j)
      {
        var gte := LeU64(gtBytes, j * 8);
        SeScanEntry(img, rgdFallback, i, j);
        ListStep(img, rgdFallback, i, j);
        if SeType(gte) == SE_ALLOCATED {
          var grainIdx := i * SE_GTES_PER_GT + j;
          var startLba := grainIdx * grainSectors;
          if startLba < img.size / SECTOR {
            result := result + [AllocatedGrain(startLba, grainSectors)];
          }
        }
        j := j + 1;
      }
    }

    /** `iter_allocated_grains` for seSparse: a malformed directory entry is skipped, not an error. */
    method ScanSe() returns (r: Result<seq<AllocatedGrain>>)
      requires Valid() && img.fmt.SeSparse?
      modifies inner
      ensures r == if ScanOk(img, rgdFallback) then Ok(Listing(img, rgdFallback)) else Err(UnexpectedEof)
    {
      hide Listed, CacheOk, Image.Valid;
      ListedZero(img, rgdFallback);
      var result: seq<AllocatedGrain> := [];
      var i := 0;
      while i < |img.fmt.seGd|
        invariant i <= |img.fmt.seGd|
        invariant forall k :: 0 <= k < i ==> SlotReadable(img, rgdFallback, k)
        invariant result == Listed(img, rgdFallback, i * SE_GTES_PER_GT)
      {
        var gdEntry := img.fmt.seGd[i];
        if gdEntry == 0 || !SeDirAllocated(gdEntry) {
          ListSkip(img, rgdFallback, i);
          i := i + 1;
          continue;
        }
        var gtTableIdx := gdEntry % 0x1_0000_0000;
        var gtSector := img.fmt.gtOffset + gtTableIdx * SE_GT_SECTORS;
        var e := inner.ReadExactAt(Wrap64(gtSector * SECTOR), SE_GTES_PER_GT * 8);
        if e.Err? {
          assert !SlotReadable(img, rgdFallback, i);
          return Err(e.error);
        }
        result := ScanSeTable(i, e.value, result);
        i := i + 1;
      }
      return Ok(result);
    }

    /** `iter_allocated_grains`: every allocated grain in disk order, or the first read error. */
    method IterAllocatedGrains() returns (r: Result<seq<AllocatedGrain>>)
      requires Valid()
      modifies `rgdRecoveryCount, inner
      ensures Valid()
      ensures r == if ScanOk(img, rgdFallback) then Ok(Listing(img, rgdFallback)) else Err(UnexpectedEof)
      ensures rgdRecoveryCount == old(rgdRecoveryCount) + RecoveredByScan(img, rgdFallback)
    {
      hide Listed, CacheOk, Image.Valid, RecoveredSet, ReadableSlots, SlotReadable;
      match img.fmt
      case Flat =>
        var sectorCount := img.size / SECTOR;
        return Ok(if sectorCount == 0 then [] else [AllocatedGrain(0, sectorCount)]);
      case Sparse(_, _, _, _) =>
        r := ScanSparse();
      case SeSparse(_, _, _, _) =>
        r := ScanSe();
    }
  }

  lemma EntryAddress(img: Image, sec: u32, j: nat)
    requires img.Valid() && img.IsSparse() && j < img.fmt.ngte
    ensures sec * SECTOR + j * 4 <= U64_MAX
  {
  }

  lemma PayloadWindow(s: seq<byte>, off: nat, n: nat)
    requires n > 0 ==> off + n <= |s|
    ensures Window(s, off, n) == if n == 0 then [] else s[off..off + n]
  {
  }

  ghost predicate FileAddress(loc: Loc) {
    match loc
    case Hole => true
    case At(o) => o <= U64_MAX
    case Packed(o, _, _) => o <= U64_MAX
  }

  lemma LocateBounds(img: Image, gte: u32, r: nat)
    requires img.IsSparse() && r < img.fmt.grain < U32_LIMIT * SECTOR && Locate(img, gte, r).Ok?
    ensures FileAddress(Locate(img, gte, r).value)
  {
  }

  lemma SeLocateBounds(img: Image, g: nat, r: nat)
    requires img.Valid() && img.fmt.SeSparse? && SeLocate(img, g, r).Ok?
    ensures FileAddress(SeLocate(img, g, r).value)
  {
    hide SeSlotGte, SlotIdx, EntryIdx, Image.Valid;
  }

  /** Locations are 64-bit file offsets. */
  lemma LookupBounds(img: Image, fb: bool, off: nat)
    requires img.Valid() && !img.fmt.Flat? && Lookup(img, fb, off).Ok?
    ensures FileAddress(Lookup(img, fb, off).value)
  {
    hide SlotEntry, Locate, SeLocate, FileAddress, Image.Valid, GrainIdx, InGrain;
    Shape(img);
    var g, r := GrainIdx(img, off), InGrain(img, off);
    if img.fmt.SeSparse? {
      SeLocateBounds(img, g, r);
    } else {
      LocateBounds(img, EntryAt(img, fb, g).value.gte, r);
    }
  }

  /** A clamped fetch is a prefix of the unclamped one, and empty with it. */
  lemma FetchPrefix(img: Image, loc: Loc, short: nat, long: nat, n: nat)
    requires 0 < short <= long
    requires loc.Packed? ==> img.IsSparse()
    ensures Fetch(img, loc, short).Err? ==> Fetch(img, loc, long) == Fetch(img, loc, short)
    ensures Fetch(img, loc, short).Ok? ==>
              && Fetch(img, loc, long).Ok?
              && (Fetch(img, loc, short).value == [] <==> Fetch(img, loc, long).value == [])
              && |Fetch(img, loc, short).value| <= |Fetch(img, loc, long).value|
              && (n <= |Fetch(img, loc, short).value| ==> Fetch(img, loc, short).value[..n] == Fetch(img, loc, long).value[..n])
  {
    match loc
    case Hole =>
    case At(o) =>
      WindowPrefix(img.file, o, short, long, 0);
      if n <= |Window(img.file, o, short)| { WindowPrefix(img.file, o, short, long, n); }
    case Packed(o, size, start) =>
      var d := Unpack(img, o, size);
      if d.Ok? {
        WindowPrefix(d.value, start, short, long, 0);
        if n <= |Window(d.value, start, short)| { WindowPrefix(d.value, start, short, long, n); }
      }
  }

  // ── scan steps ────────────────────────────────────────────────────────────

  lemma ListedZero(img: Image, fb: bool)
    requires img.Valid() && !img.fmt.Flat?
    ensures Listed(img, fb, 0) == []
    ensures img.IsSparse() ==> RecoveredSet(img, fb, 0) == {}
  {
  }

  /** Entry `j` of slot `i` extends the listing and the recovered set by at most itself. */
  lemma ListStep(img: Image, fb: bool, i: nat, j: nat)
    requires img.Valid() && !img.fmt.Flat? && j < img.GtesPerTable()
    ensures var g := i * img.GtesPerTable() + j;
            && Listed(img, fb, g + 1) == Listed(img, fb, g) +
               (if SlotPresent(img, fb, i, j) && g * GrainSectors(img) < img.size / SECTOR
                then [AllocatedGrain(g * GrainSectors(img), GrainSectors(img))] else [])
            && (img.IsSparse() ==>
                  |RecoveredSet(img, fb, g + 1)| ==
                  |RecoveredSet(img, fb, g)| + (if SlotEntry(img, fb, i, j).Ok? && SlotEntry(img, fb, i, j).value.viaRgd then 1 else 0))
  {
    hide SlotPresent, SlotEntry, SlotIdx, EntryIdx, Image.Valid;
    var g := i * img.GtesPerTable() + j;
    SplitIdx(img, i, j);
    assert Reported(img, fb, g) == (SlotPresent(img, fb, i, j) && g * GrainSectors(img) < img.size / SECTOR);
    if img.IsSparse() {
      assert EntryAt(img, fb, g) == SlotEntry(img, fb, i, j);
      var before, after := RecoveredSet(img, fb, g), RecoveredSet(img, fb, g + 1);
      if SlotEntry(img, fb, i, j).Ok? && SlotEntry(img, fb, i, j).value.viaRgd {
        assert after == before + {g};
      } else {
        assert after == before;
      }
    }
  }

  /** The sector a scan goes to for slot `i`, and what that says of the slot. */
  lemma SlotSector(img: Image, fb: bool, i: nat, sec: u32)
    requires img.IsSparse() && i < |img.fmt.gd|
    requires sec == if fb then Resolve(img, true, i) else img.fmt.gd[i]
    ensures img.fmt.gd[i] == Primary(img, i) && sec == Resolve(img, fb, i)
    ensures SlotReadable(img, fb, i) <==> sec == 0 || Usable(img, sec)
    ensures sec != 0 ==> (Usable(img, sec) <==> sec * SECTOR + img.fmt.ngte * 4 <= |img.file|)
  {
    hide RgdEntry;
  }

  /** A slot with no table contributes nothing. */
  lemma ListSkip(img: Image, fb: bool, i: nat)
    requires img.Valid() && !img.fmt.Flat?
    requires img.IsSparse() ==> Resolve(img, fb, i) == 0
    requires img.fmt.SeSparse? ==> SePrimary(img, i) == 0 || !SeDirAllocated(SePrimary(img, i))
    ensures Listed(img, fb, (i + 1) * img.GtesPerTable()) == Listed(img, fb, i * img.GtesPerTable())
    ensures img.IsSparse() ==>
              |RecoveredSet(img, fb, (i + 1) * img.GtesPerTable())| == |RecoveredSet(img, fb, i * img.GtesPerTable())|
  {
    hide Listed, RecoveredSet, Resolve, Image.Valid;
    var per := img.GtesPerTable();
    for j := 0 to per
      invariant Listed(img, fb, i * per + j) == Listed(img, fb, i * per)
      invariant img.IsSparse() ==> |RecoveredSet(img, fb, i * per + j)| == |RecoveredSet(img, fb, i * per)|
    {
      ListStep(img, fb, i, j);
    }
    assert (i + 1) * per == i * per + per;
  }

  /** The scan's view of an entry, from whole-table bytes, is the lookup's view. */
  lemma ScanEntry(img: Image, fb: bool, i: nat, j: nat, gtBytes: seq<byte>, redundant: Option<seq<byte>>)
    requires img.IsSparse() && j < img.fmt.ngte && Usable(img, Resolve(img, fb, i))
    requires |gtBytes| == img.fmt.ngte * 4 && LeTable32(gtBytes) == Table(img, Resolve(img, fb, i))
    requires redundant.Some? <==> fb && Usable(img, RgdEntry(img, i))
    requires redundant.Some? ==> |redundant.value| == img.fmt.ngte * 4 && LeTable32(redundant.value) == Table(img, RgdEntry(img, i))
    ensures var gte0 := LeU32(gtBytes, j * 4);
            var rgte := if gte0 <= 1 && redundant.Some? then LeU32(redundant.value, j * 4) else 0;
            var gte := if rgte > 1 then rgte else gte0;
            && (SlotPresent(img, fb, i, j) <==> gte > 1)
            && SlotEntry(img, fb, i, j).Ok?
            && (SlotEntry(img, fb, i, j).value.viaRgd <==> gte > 1 && (Resolve(img, fb, i) != Primary(img, i) || rgte > 1))
  {
    hide Resolve, RgdEntry;
    assert LeTable32(gtBytes)[j] == LeU32(gtBytes, j * 4);
    if redundant.Some? {
      assert LeTable32(redundant.value)[j] == LeU32(redundant.value, j * 4);
    }
  }

  ghost predicate SeTableInFile(img: Image, e: u64)
    requires img.fmt.SeSparse?
  {
    Wrap64(SeTableByte(img, e)) + SE_GTES_PER_GT * 8 <= |img.file|
  }

  ghost function SeTableBytes(img: Image, e: u64): (b: seq<byte>)
    requires img.fmt.SeSparse? && SeTableInFile(img, e)
    ensures |b| == SE_GTES_PER_GT * 8
  {
    img.file[Wrap64(SeTableByte(img, e))..Wrap64(SeTableByte(img, e)) + SE_GTES_PER_GT * 8]
  }

  lemma SeScanEntry(img: Image, fb: bool, i: nat, j: nat)
    requires img.fmt.SeSparse? && j < SE_GTES_PER_GT
    requires SeDirAllocated(SePrimary(img, i)) && SeTableInFile(img, SePrimary(img, i))
    ensures SlotPresent(img, fb, i, j) <==> SeType(LeU64(SeTableBytes(img, SePrimary(img, i)), j * 8)) == SE_ALLOCATED
  {
    hide LeU64;
    var e := SePrimary(img, i);
    var at := Wrap64(SeTableByte(img, e));
    SeEntryInside(img, e, j);
    LeU64Slice(img.file, at, at + SE_GTES_PER_GT * 8, j * 8);
  }
}
