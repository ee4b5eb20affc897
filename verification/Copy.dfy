/**
 Consumers of the byte stream: positioned reads (core/src/vfs.rs), bounded copies, the full
 dump and the allocated-only reconstruction (cli/src/main.rs).
 */
module Copying {
  import opened Wrappers
  import opened Arith
  import opened Bytes
  import opened Images
  import opened Scans
  import opened Readers

  /** What a successful read step leaves in the buffer. */
  lemma StepHolds(img: Image, fb: bool, lo: nat, hi: nat, pos: nat, before: seq<byte>, pos': nat, after: seq<byte>, r: Result<nat>)
    requires img.Valid() && lo < hi <= |before|
    requires ReadStep(img, fb, lo, hi, pos, before, pos', after, r) && r.Ok?
    ensures |after| == |before| && r.value <= hi - lo && pos' == pos + r.value
    ensures Holds(img, fb, pos, after[lo..lo + r.value])
    ensures after[..lo] == before[..lo] && after[lo + r.value..] == before[lo + r.value..]
    ensures Slice(img, fb, pos).Ok? && (r.value == 0 <==> Slice(img, fb, pos).value == [])
  {
    hide Slice, Holds;
    var s := Slice(img, fb, pos).value;
    SliceHolds(img, fb, pos, r.value);
    assert after[lo..lo + r.value] == s[..r.value];
  }

  /** `total` bytes of the disk from `offset` sit at the front of an otherwise unchanged buffer. */
  ghost predicate Filled(img: Image, fb: bool, offset: nat, was: seq<byte>, buf: seq<byte>, total: nat)
    requires img.Valid() && total <= |was|
  {
    |buf| == |was| && Holds(img, fb, offset, buf[..total]) && buf[total..] == was[total..]
  }

  lemma FilledNone(img: Image, fb: bool, offset: nat, was: seq<byte>)
    requires img.Valid()
    ensures Filled(img, fb, offset, was, was, 0)
  {
  }

  lemma FilledMeans(img: Image, fb: bool, offset: nat, was: seq<byte>, buf: seq<byte>, total: nat)
    requires img.Valid() && total <= |was| && Filled(img, fb, offset, was, buf, total)
    ensures |buf| == |was| && Holds(img, fb, offset, buf[..total]) && buf[total..] == was[total..]
  {
  }

  lemma FilledStep(img: Image, fb: bool, offset: nat, was: seq<byte>, before: seq<byte>, after: seq<byte>, total: nat, n: nat)
    requires img.Valid() && total + n <= |was| && |after| == |was| && Filled(img, fb, offset, was, before, total)
    requires Holds(img, fb, offset + total, after[total..total + n])
    requires after[..total] == before[..total] && after[total + n..] == before[total + n..]
    ensures Filled(img, fb, offset, was, after, total + n)
  {
    hide Holds, Image.Valid;
    HoldsAppend(img, fb, offset, before[..total], after[total..total + n]);
    assert after[..total + n] == before[..total] + after[total..total + n];
    assert before[total + n..] == before[total..][n..] && was[total + n..] == was[total..][n..];
  }

  // ── positioned reads ──────────────────────────────────────────────────────

  /** `VmdkSource` without its lock: reads at one offset do not depend on earlier reads. */
  class VmdkSource {
    const inner: VmdkReader
    const len: u64

    constructor (inner: VmdkReader)
      requires inner.Valid()
      ensures this.inner == inner && len == inner.img.size
    {
      this.inner := inner;
      len := inner.img.size;
    }

    /**
     `read_at`: wherever the cursor was, fill from `offset` until the buffer is full, the disk
     ends or the file runs out under a grain.
     */
    method ReadAt(offset: u64, buf: array<byte>) returns (r: Result<nat>)
      requires inner.Valid() && len == inner.img.size
      modifies inner`pos, inner`gtCache, inner`rgdRecoveryCount, inner.inner, buf
      ensures inner.Valid()
      ensures var img, fb := inner.img, inner.rgdFallback;
              var want := if offset >= len then 0 else Min(buf.Length, len - offset);
              && (r.Ok? ==>
                    && r.value <= want
                    && Holds(img, fb, offset, buf[..r.value])
                    && buf[r.value..] == old(buf[..])[r.value..]
                    && (r.value < want ==> Slice(img, fb, offset + r.value) == Ok([])))
              && (r.Err? ==> exists m: nat :: m < want && Holds(img, fb, offset, buf[..m]) && Slice(img, fb, offset + m) == Err(r.error))
      ensures Sound(inner.img, inner.rgdFallback) ==>
                var want := if offset >= len then 0 else Min(buf.Length, len - offset);
                r == Ok(want) && (want > 0 ==> buf[..want] == Disk(inner.img, inner.rgdFallback)[offset..offset + want])
    {
      hide ReadStep, Slice, Holds, Image.Valid, CacheOk, Disk, Sound, Filled;
      ghost var was := buf[..];
      ghost var img := inner.img;
      ghost var fb := inner.rgdFallback;
      HoldsNothing(img, fb, offset);
      var avail := if offset >= len then 0 else len - offset;
      if avail == 0 {
        assert buf[..0] == [];
        return Ok(0);
      }
      var want := Min(buf.Length, avail);
      SeekInside(offset, img);
      var at := inner.Seek(Start(offset));
      var total := 0;
      FilledNone(img, fb, offset, was);
      while total < want
        invariant total <= want
        invariant inner.Valid() && inner.rgdFallback == fb && inner.pos == offset + total
        invariant Filled(img, fb, offset, was, buf[..], total)
        decreases want - total
      {
        ghost var before := buf[..];
        ghost var pos := inner.pos;
        var got := inner.Read(buf, total, want);
        if got.Err? {
          StepFails(img, fb, total, want, pos, before, inner.pos, buf[..], got);
          FilledMeans(img, fb, offset, was, buf[..], total);
          SoundNeverFails(img, fb, pos);
          return Err(got.error);
        }
        StepHolds(img, fb, total, want, pos, before, inner.pos, buf[..], got);
        var n := got.value;
        FilledStep(img, fb, offset, was, before, buf[..], total, n);
        if n == 0 {
          SoundNeverFails(img, fb, pos);
          break;
        }
        total := total + n;
      }
      FilledMeans(img, fb, offset, was, buf[..], total);
      if Sound(img, fb) {
        HoldsIsDisk(img, fb, offset, buf[..total]);
      }
      return Ok(total);
    }
  }

  lemma SeekInside(offset: u64, img: Image)
    requires img.Valid() && offset <= img.size
    ensures forall pos: u64 :: SeekTarget(Start(offset), pos, img.size) == offset
  {
  }

  lemma StepFails(img: Image, fb: bool, lo: nat, hi: nat, pos: nat, before: seq<byte>, pos': nat, after: seq<byte>, r: Result<nat>)
    requires img.Valid() && lo < hi <= |before|
    requires ReadStep(img, fb, lo, hi, pos, before, pos', after, r) && r.Err?
    ensures Slice(img, fb, pos) == Err(r.error) && pos' == pos && after == before
  {
    hide Slice;
  }

  lemma SoundNeverFails(img: Image, fb: bool, off: nat)
    requires img.Valid() && off < img.size
    ensures Sound(img, fb) ==> Slice(img, fb, off).Ok? && Slice(img, fb, off).value != []
  {
    hide Slice;
    if Sound(img, fb) {
      assert ByteAt(img, fb, off).Some?;
    }
  }

  // ── output files ──────────────────────────────────────────────────────────

  /** A file with `w` written at `at`: holes before it read as zeros. */
  function Written(data: seq<byte>, at: nat, w: seq<byte>): seq<byte> {
    if w == [] then data else
    (if at <= |data| then data[..at] else data + Zeros(at - |data|))
    + w + (if at + |w| < |data| then data[at + |w|..] else [])
  }

  class OutFile {
    var data: seq<byte>
    var cursor: nat

    /** `File::create`. */
    constructor ()
      ensures data == [] && cursor == 0
    {
      data := [];
      cursor := 0;
    }

    /** `set_len`: truncate, or extend with zeros. */
    method SetLen(n: nat)
      modifies `data
      ensures data == if n <= |old(data)| then old(data)[..n] else old(data) + Zeros(n - |old(data)|)
    {
      data := if n <= |data| then data[..n] else data + Zeros(n - |data|);
    }

    method SeekStart(off: nat)
      modifies `cursor
      ensures cursor == off
    {
      cursor := off;
    }

    /** `write_all(&buf[..n])`. */
    method WriteAll(buf: array<byte>, n: nat)
      requires n <= buf.Length
      modifies this
      ensures data == Written(old(data), old(cursor), buf[..n])
      ensures cursor == old(cursor) + n
    {
      data := Written(data, cursor, buf[..n]);
      cursor := cursor + n;
    }
  }

  /** Two consecutive writes are one. */
  lemma WrittenTwice(data: seq<byte>, at: nat, a: seq<byte>, b: seq<byte>)
    ensures Written(Written(data, at, a), at + |a|, b) == Written(data, at, a + b)
  {
    if a == [] {
      assert a + b == b;
    } else if b == [] {
      assert a + b == a;
    } else {
      var first := Written(data, at, a);
      var head := if at <= |data| then data[..at] else data + Zeros(at - |data|);
      assert |head| == at;
      assert first[..at + |a|] == head + a;
    }
  }

  // ── copies ────────────────────────────────────────────────────────────────

  /**
   `copy_n`: append up to `n` bytes of the stream to the output. `copied` is what was moved; on
   success it is short only where the stream ends or the file runs out.
   */
  method CopyN(reader: VmdkReader, out: OutFile, n: nat) returns (r: Result<()>, ghost copied: seq<byte>)
    requires reader.Valid()
    modifies reader`pos, reader`gtCache, reader`rgdRecoveryCount, reader.inner, out
    ensures reader.Valid()
    ensures |copied| <= n && reader.pos == old(reader.pos) + |copied|
    ensures Holds(reader.img, reader.rgdFallback, old(reader.pos), copied)
    ensures out.data == Written(old(out.data), old(out.cursor), copied)
    ensures out.cursor == old(out.cursor) + |copied|
    ensures r.Ok? ==> |copied| == n || Slice(reader.img, reader.rgdFallback, reader.pos) == Ok([])
    ensures r.Err? ==> Slice(reader.img, reader.rgdFallback, reader.pos) == Err(r.error)
  {
    hide ReadStep, Slice, Holds, Image.Valid, CacheOk, Written;
    ghost var img := reader.img;
    ghost var fb := reader.rgdFallback;
    ghost var start: nat := reader.pos;
    var remaining := n;
    var buf := new byte[65536];
    copied := [];
    HoldsNothing(img, fb, start);
    WrittenNothing(out.data, out.cursor);
    while remaining > 0
      invariant 0 <= remaining <= n && |copied| == n - remaining
      invariant reader.Valid() && reader.rgdFallback == fb && reader.pos == start + |copied|
      invariant Holds(img, fb, start, copied)
      invariant out.data == Written(old(out.data), old(out.cursor), copied)
      invariant out.cursor == old(out.cursor) + |copied|
    {
      var want := Min(buf.Length, remaining);
      ghost var before := buf[..];
      ghost var pos := reader.pos;
      var got := reader.Read(buf, 0, want);
      if got.Err? {
        StepFails(img, fb, 0, want, pos, before, reader.pos, buf[..], got);
        return Err(got.error), copied;
      }
      StepHolds(img, fb, 0, want, pos, before, reader.pos, buf[..], got);
      if got.value == 0 {
        break;
      }
      out.WriteAll(buf, got.value);
      assert buf[..][0..got.value] == buf[..got.value];
      HoldsAppend(img, fb, start, copied, buf[..got.value]);
      WrittenTwice(old(out.data), old(out.cursor), copied, buf[..got.value]);
      copied := copied + buf[..got.value];
      remaining := remaining - got.value;
    }
    return Ok(()), copied;
  }

  lemma WrittenNothing(data: seq<byte>, at: nat)
    ensures Written(data, at, []) == data
  {
  }

  /** On a sound image a bounded copy moves exactly the disk slice at the cursor. */
  lemma CopiedIsDisk(img: Image, fb: bool, pos: nat, n: nat, copied: seq<byte>)
    requires img.Valid() && Sound(img, fb) && pos <= img.size
    requires Holds(img, fb, pos, copied) && |copied| <= n
    requires |copied| == n || Slice(img, fb, pos + |copied|) == Ok([])
    ensures |copied| == Min(n, img.size - pos)
    ensures copied == Disk(img, fb)[pos..pos + |copied|]
  {
    hide Slice, Holds, Sound, Disk, Image.Valid;
    if copied != [] {
      HeldBelowEnd(img, fb, pos, copied);
    }
    if |copied| < n && pos + |copied| < img.size {
      SoundNeverFails(img, fb, pos + |copied|);
    }
    HoldsIsDisk(img, fb, pos, copied);
  }

  /** Where a dump of `length` bytes from `offset` ends, and how many bytes that is. */
  function DumpLength(size: u64, offset: u64, length: Option<u64>): nat {
    var end := if length.Some? then Min(SatAdd(offset, length.value), size) else size;
    if end < offset then 0 else end - offset
  }

  /** A dump starts at its offset and takes what is asked for, or all, of what is left of the disk. */
  lemma DumpLengthIs(size: u64, offset: u64, n: u64)
    ensures DumpLength(size, offset, None) == if offset < size then size - offset else 0
    ensures DumpLength(size, offset, Some(n)) == if offset < size then Min(n, size - offset) else 0
  {
  }

  lemma StartTarget(offset: u64)
    ensures forall pos: u64, size: u64 ::
              if offset > I64_MAX then SeekTarget(Start(offset), pos, size) < 0 else SeekTarget(Start(offset), pos, size) == offset
  {
  }

  /**
   The raw dump of `length` bytes from `offset` (to the end of the disk by default). An offset no
   seek accepts writes nothing at all. Otherwise, on any image and also when it fails, what is
   written is what the disk holds from `offset` on; it is short only where the file runs out or a
   read fails, and that read's error is the dump's. On a sound image it is the whole disk slice.
   */
  method Dump(reader: VmdkReader, offset: u64, length: Option<u64>) returns (r: Result<()>, out: Option<OutFile>)
    requires reader.Valid()
    modifies reader`pos, reader`gtCache, reader`rgdRecoveryCount, reader.inner
    ensures reader.Valid()
    ensures out.None? <==> offset > I64_MAX
    ensures out.None? ==> r == Err(InvalidInput)
    ensures out.Some? ==>
              && fresh(out.value)
              && var img, fb, data := reader.img, reader.rgdFallback, out.value.data;
              && Holds(img, fb, offset, data) && |data| <= DumpLength(img.size, offset, length)
              && (r.Ok? ==> |data| == DumpLength(img.size, offset, length) || Slice(img, fb, offset + |data|) == Ok([]))
              && (r.Err? ==> Slice(img, fb, offset + |data|) == Err(r.error))
    ensures Sound(reader.img, reader.rgdFallback) && offset <= reader.img.size ==>
              && r.Ok? && out.Some?
              && out.value.data ==
                 Disk(reader.img, reader.rgdFallback)[offset..offset + DumpLength(reader.img.size, offset, length)]
  {
    hide Slice, Holds, Image.Valid, CacheOk, Sound, Disk, SeekTarget;
    ghost var img, fb := reader.img, reader.rgdFallback;
    var toOutput := DumpLength(reader.img.size, offset, length);
    StartTarget(offset);
    SizeFits(img);
    var at := reader.Seek(Start(offset));
    if at.Err? {
      return Err(at.error), None;
    }
    var file := new OutFile();
    var done, copied := CopyN(reader, file, toOutput);
    assert file.data == copied;
    if offset <= img.size && Sound(img, fb) {
      CopySucceeds(img, fb, offset, toOutput, copied, reader.pos, done);
      CopiedIsDisk(img, fb, offset, toOutput, copied);
    }
    return done, Some(file);
  }

  lemma CopySucceeds(img: Image, fb: bool, pos: nat, n: nat, copied: seq<byte>, pos': nat, r: Result<()>)
    requires img.Valid() && Sound(img, fb) && pos <= img.size
    requires Holds(img, fb, pos, copied) && |copied| <= n && pos' == pos + |copied|
    requires r.Err? ==> Slice(img, fb, pos') == Err(r.error)
    ensures r.Ok?
  {
    hide Holds;
    if copied != [] {
      HeldBelowEnd(img, fb, pos, copied);
    }
    if pos' < img.size {
      SoundNeverFails(img, fb, pos');
    }
  }

  // ── allocated-only reconstruction ─────────────────────────────────────────

  /** Some listed record covers byte `off`. */
  predicate Covered(l: seq<AllocatedGrain>, off: nat) {
    exists k :: 0 <= k < |l| && l[k].startLba * SECTOR <= off < (l[k].startLba + l[k].sectorCount) * SECTOR
  }

  /** Byte `off` is covered by record `a` and every byte of the record up to it can be read. */
  ghost predicate ReachedBy(img: Image, fb: bool, a: AllocatedGrain, off: nat)
    requires img.Valid()
  {
    && a.startLba * SECTOR <= off < (a.startLba + a.sectorCount) * SECTOR
    && forall p: nat :: a.startLba * SECTOR <= p <= off ==> ByteAt(img, fb, p).Some?
  }

  ghost predicate Reached(img: Image, fb: bool, l: seq<AllocatedGrain>, off: nat)
    requires img.Valid()
  {
    exists k :: 0 <= k < |l| && ReachedBy(img, fb, l[k], off)
  }

  /** What the reconstruction holds at `off`: the disk byte where copying a record reaches it, else zero. */
  ghost function RebuiltByte(img: Image, fb: bool, l: seq<AllocatedGrain>, off: nat): byte
    requires img.Valid()
  {
    if Reached(img, fb, l, off) && ByteAt(img, fb, off).Some? then ByteAt(img, fb, off).value else 0
  }

  /** The file rebuilt from the first `k` records. */
  ghost predicate Rebuilt(img: Image, fb: bool, l: seq<AllocatedGrain>, k: nat, data: seq<byte>)
    requires img.Valid() && k <= |l|
  {
    |data| == img.size && forall off :: 0 <= off < img.size ==> data[off] == RebuiltByte(img, fb, l[..k], off)
  }

  /** Copying a record delivers exactly the bytes it reaches. */
  lemma CopiedIsReached(img: Image, fb: bool, a: AllocatedGrain, copied: seq<byte>, off: nat)
    requires img.Valid() && Holds(img, fb, a.startLba * SECTOR, copied) && |copied| <= a.sectorCount * SECTOR
    requires |copied| == a.sectorCount * SECTOR || Slice(img, fb, a.startLba * SECTOR + |copied|) == Ok([])
    ensures ReachedBy(img, fb, a, off) <==> a.startLba * SECTOR <= off < a.startLba * SECTOR + |copied|
  {
    hide Slice, Image.Valid;
    var start := a.startLba * SECTOR;
    if start <= off < start + |copied| {
      forall p: nat | start <= p <= off
        ensures ByteAt(img, fb, p).Some?
      {
        assert ByteAt(img, fb, start + (p - start)) == Some(copied[p - start]);
      }
    }
    if |copied| < a.sectorCount * SECTOR {
      assert ByteAt(img, fb, start + |copied|).None?;
    }
  }

  lemma RebuiltStep(img: Image, fb: bool, l: seq<AllocatedGrain>, k: nat, data: seq<byte>, copied: seq<byte>)
    requires img.Valid() && k < |l| && Rebuilt(img, fb, l, k, data)
    requires l[k].startLba * SECTOR <= img.size
    requires Holds(img, fb, l[k].startLba * SECTOR, copied) && |copied| <= l[k].sectorCount * SECTOR
    requires |copied| == l[k].sectorCount * SECTOR || Slice(img, fb, l[k].startLba * SECTOR + |copied|) == Ok([])
    ensures Rebuilt(img, fb, l, k + 1, Written(data, l[k].startLba * SECTOR, copied))
  {
    hide ByteAt, Image.Valid, ReachedBy, Slice, Holds, Reached;
    var at := l[k].startLba * SECTOR;
    var after := Written(data, at, copied);
    if copied != [] {
      HeldBelowEnd(img, fb, at, copied);
    }
    assert |after| == img.size;
    forall off | 0 <= off < img.size
      ensures after[off] == RebuiltByte(img, fb, l[..k + 1], off)
    {
      ReachedStep(img, fb, l, k, off);
      CopiedIsReached(img, fb, l[k], copied, off);
      assert after[off] == if at <= off < at + |copied| then copied[off - at] else data[off];
      if at <= off < at + |copied| {
        HeldByte(img, fb, at, copied, off);
      }
    }
  }

  lemma HeldByte(img: Image, fb: bool, at: nat, bytes: seq<byte>, off: nat)
    requires img.Valid() && Holds(img, fb, at, bytes) && at <= off < at + |bytes|
    ensures ByteAt(img, fb, off) == Some(bytes[off - at])
  {
    hide ByteAt, Image.Valid;
    assert ByteAt(img, fb, at + (off - at)) == Some(bytes[off - at]);
  }

  lemma ReachedStep(img: Image, fb: bool, l: seq<AllocatedGrain>, k: nat, off: nat)
    requires img.Valid() && k < |l|
    ensures Reached(img, fb, l[..k + 1], off) <==> Reached(img, fb, l[..k], off) || ReachedBy(img, fb, l[k], off)
  {
    hide ReachedBy, Image.Valid;
    if Reached(img, fb, l[..k], off) {
      var m :| 0 <= m < k && ReachedBy(img, fb, l[..k][m], off);
      assert l[..k + 1][m] == l[..k][m];
    }
    assert l[..k + 1][k] == l[k];
    if Reached(img, fb, l[..k + 1], off) {
      var m :| 0 <= m < k + 1 && ReachedBy(img, fb, l[..k + 1][m], off);
      if m < k {
        assert l[..k][m] == l[..k + 1][m];
      }
    }
  }

  /** A byte no listed grain covers reads as zero. */
  lemma UncoveredIsZero(img: Image, fb: bool, off: nat)
    requires img.Valid() && Sound(img, fb) && ScanOk(img, fb) && off < img.size
    requires !Covered(Listing(img, fb), off)
    ensures Disk(img, fb)[off] == 0
  {
    hide Listed, GrainIdx, InGrain, Lookup, Image.Valid, SlotReadable;
    if img.fmt.Flat? {
      FlatCovered(img, fb, off);
    } else {
      if ListsOffset(img, fb, off) {
        var k :| 0 <= k < |Listing(img, fb)| && Listing(img, fb)[k] == GrainRecord(img, GrainIdx(img, off));
        RecordCovers(img, off);
      }
      ScanExact(img, fb, off);
      SoundNeverFails(img, fb, off);
      HoleSlice(img, fb, off);
    }
  }

  lemma FlatCovered(img: Image, fb: bool, off: nat)
    requires img.Valid() && img.fmt.Flat? && off < img.size
    ensures Covered(Listing(img, fb), off)
  {
    assert Listing(img, fb)[0] == AllocatedGrain(0, img.size / SECTOR);
  }

  lemma RecordCovers(img: Image, off: nat)
    requires img.Valid() && !img.fmt.Flat?
    ensures var a := GrainRecord(img, GrainIdx(img, off));
            a.startLba * SECTOR <= off < (a.startLba + a.sectorCount) * SECTOR
  {
    hide Image.Valid, GrainIdx, InGrain;
    Shape(img);
    IdxBounds(img, off);
    var g, gs := GrainIdx(img, off), GrainSectors(img);
    assert img.fmt.grain == gs * SECTOR;
    assert g * img.fmt.grain == g * gs * SECTOR;
  }

  lemma HoleSlice(img: Image, fb: bool, off: nat)
    requires img.Valid() && !img.fmt.Flat? && off < img.size && Lookup(img, fb, off) == Ok(Hole)
    ensures Slice(img, fb, off) == Ok(Zeros(Reach(img, off)))
  {
    hide Lookup, Image.Valid, InGrain;
  }

  lemma ListedStart(img: Image, fb: bool, k: nat)
    requires img.Valid() && k < |Listing(img, fb)|
    ensures Listing(img, fb)[k].startLba * SECTOR < img.size
  {
    if !img.fmt.Flat? {
      ListedShape(img, fb, img.DirLength() * img.GtesPerTable(), Listing(img, fb)[k]);
    }
  }

  lemma RebuiltStart(img: Image, fb: bool)
    requires img.Valid()
    ensures Rebuilt(img, fb, Listing(img, fb), 0, Zeros(img.size))
  {
    hide ByteAt, ReachedBy, Image.Valid, Listing;
  }

  /** On a sound image the reconstruction is the disk. */
  lemma RebuiltIsDisk(img: Image, fb: bool, data: seq<byte>)
    requires img.Valid() && Sound(img, fb) && ScanOk(img, fb)
    requires Rebuilt(img, fb, Listing(img, fb), |Listing(img, fb)|, data)
    ensures data == Disk(img, fb)
  {
    hide ByteAt, Image.Valid, Listing, Covered, ScanOk, ReachedBy;
    var l := Listing(img, fb);
    assert l[..|l|] == l;
    forall off | 0 <= off < img.size
      ensures data[off] == Disk(img, fb)[off]
    {
      CoveredIsReached(img, fb, l, off);
      if !Covered(l, off) {
        UncoveredIsZero(img, fb, off);
      }
    }
  }

  lemma CoveredIsReached(img: Image, fb: bool, l: seq<AllocatedGrain>, off: nat)
    requires img.Valid() && Sound(img, fb) && off < img.size
    ensures Reached(img, fb, l, off) <==> Covered(l, off)
  {
    hide ByteAt, Image.Valid;
    if Covered(l, off) {
      var k :| 0 <= k < |l| && l[k].startLba * SECTOR <= off < (l[k].startLba + l[k].sectorCount) * SECTOR;
      assert ReachedBy(img, fb, l[k], off);
    }
  }

  /** One pass of the reconstruction loop: copy a listed grain to its own offset. */
  method CopyGrain(reader: VmdkReader, out: OutFile, g: AllocatedGrain, ghost k: nat) returns (r: Result<()>)
    requires reader.Valid()
    requires k < |Listing(reader.img, reader.rgdFallback)| && g == Listing(reader.img, reader.rgdFallback)[k]
    requires Rebuilt(reader.img, reader.rgdFallback, Listing(reader.img, reader.rgdFallback), k, out.data)
    modifies reader`pos, reader`gtCache, reader`rgdRecoveryCount, reader.inner, out
    ensures reader.Valid()
    ensures r.Ok? ==> Rebuilt(reader.img, reader.rgdFallback, Listing(reader.img, reader.rgdFallback), k + 1, out.data)
    ensures r.Err? ==> exists off: nat :: Slice(reader.img, reader.rgdFallback, off) == Err(r.error)
  {
    hide Slice, Holds, Image.Valid, CacheOk, SeekTarget, Listing, Rebuilt, Written;
    ghost var img := reader.img;
    ghost var fb := reader.rgdFallback;
    ghost var l := Listing(img, fb);
    var off := g.startLba * SECTOR;
    var len := g.sectorCount * SECTOR;
    ListedStart(img, fb, k);
    SizeFits(img);
    SeekInside(off, img);
    var at := reader.Seek(Start(off));
    out.SeekStart(off);
    ghost var before := out.data;
    var done, copied := CopyN(reader, out, len);
    if done.Ok? {
      RebuiltStep(img, fb, l, k, before, copied);
    }
    return done;
  }

  /**
   `dump_allocated_only`: writing just the listed grains into a zero-filled file of disk size.
   On any image, each byte is the disk byte where the copy of its grain reaches it, and zero
   elsewhere; a failure is the scan's or some read's. On a sound image that is the whole disk, in
   either mode, including a last grain the disk ends inside.
   */
  method DumpAllocatedOnly(reader: VmdkReader) returns (r: Result<OutFile>)
    requires reader.Valid()
    modifies reader`pos, reader`gtCache, reader`rgdRecoveryCount, reader.inner
    ensures reader.Valid()
    ensures var img, fb := reader.img, reader.rgdFallback;
            && (r.Ok? ==> fresh(r.value) && ScanOk(img, fb) && Rebuilt(img, fb, Listing(img, fb), |Listing(img, fb)|, r.value.data))
            && (r.Err? ==> !ScanOk(img, fb) || exists off: nat :: Slice(img, fb, off) == Err(r.error))
    ensures Sound(reader.img, reader.rgdFallback) ==>
              && (r.Ok? <==> ScanOk(reader.img, reader.rgdFallback))
              && (r.Ok? ==> r.value.data == Disk(reader.img, reader.rgdFallback))
  {
    hide Image.Valid, CacheOk, Sound, Disk, Listing, Rebuilt, ScanOk, RecoveredByScan, Slice;
    ghost var img := reader.img;
    ghost var fb := reader.rgdFallback;
    var grains :- reader.IterAllocatedGrains();
    var out := new OutFile();
    out.SetLen(reader.img.size);
    assert out.data == Zeros(img.size);
    RebuiltStart(img, fb);
    var k := 0;
    while k < |grains|
      invariant k <= |grains| && grains == Listing(img, fb) && fresh(out)
      invariant reader.Valid() && reader.rgdFallback == fb
      invariant Rebuilt(img, fb, grains, k, out.data)
    {
      var copied := CopyGrain(reader, out, grains[k], k);
      if copied.Err? {
        ghost var off: nat :| Slice(img, fb, off) == Err(copied.error);
        SoundNeverErrs(img, fb, off);
        return Err(copied.error);
      }
      k := k + 1;
    }
    if Sound(img, fb) {
      RebuiltIsDisk(img, fb, out.data);
    }
    return Ok(out);
  }

  lemma SoundNeverErrs(img: Image, fb: bool, off: nat)
    requires img.Valid() && Slice(img, fb, off).Err?
    ensures !Sound(img, fb)
  {
    hide Image.Valid, Lookup, Unpack, GrainIdx;
    assert off < img.size && ByteAt(img, fb, off).None?;
  }

  lemma SizeFits(img: Image)
    requires img.Valid()
    ensures img.size <= I64_MAX
  {
  }

  /** For VMDK4 and COWD a sound disk always scans, so the reconstruction always succeeds. */
  lemma SoundScans(img: Image, fb: bool)
    requires img.Valid() && img.IsSparse() && Sound(img, fb)
    ensures ScanOk(img, fb)
  {
    hide Slice, Sound;
    forall i | 0 <= i < img.DirLength()
      ensures SlotReadable(img, fb, i)
    {
      assert img.SlotInDisk(i);
      SoundNeverFails(img, fb, img.SlotStart(i));
      SlotStartReadable(img, fb, i);
    }
  }

  lemma SlotStartReadable(img: Image, fb: bool, i: nat)
    requires img.Valid() && img.IsSparse() && img.SlotStart(i) < img.size && Slice(img, fb, img.SlotStart(i)).Ok?
    ensures SlotReadable(img, fb, i)
  {
    hide Image.Valid, Locate, Fetch, GrainIdx, SlotIdx, EntryIdx, InGrain;
    SlotStartIdx(img, i);
  }

  lemma SlotStartIdx(img: Image, i: nat)
    requires img.Valid() && img.IsSparse()
    ensures SlotIdx(img, GrainIdx(img, img.SlotStart(i))) == i
  {
    Shape(img);
    hide Image.Valid;
    DivModUnique(i * img.fmt.ngte, 0, img.fmt.grain);
    DivModUnique(i, 0, img.fmt.ngte);
  }
}
