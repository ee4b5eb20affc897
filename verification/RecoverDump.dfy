/**
 The dump command (cli/src/main.rs, `cmd_dump`): opening, recovery mode and both dumps in one,
 and what dumping a damaged file in recovery mode restores.
 */
module RecoverDumps {
  import opened Wrappers
  import opened Arith
  import opened Bytes
  import opened Sources
  import opened Images
  import opened Scans
  import opened Readers
  import opened Opening
  import opened Copying
  import opened Recovery
  import opened Forensics
  import opened Audits
  import opened DamagedFiles

  /** What is dumped: a byte range, or the disk rebuilt from its allocated grains. */
  datatype Request =
    | ByteRange(offset: u64, length: Option<u64>)
    | AllocatedOnly
  {
    /** The range starts within the disk. */
    predicate Starts(size: u64) {
      ByteRange? ==> offset <= size
    }

    /** The whole disk is asked for. */
    predicate Whole() {
      ByteRange? ==> offset == 0 && length.None?
    }
  }

  /** The part of a disk that is asked for. */
  function Asked(what: Request, disk: seq<byte>): seq<byte>
    requires |disk| <= I64_MAX && what.Starts(|disk|)
  {
    if what.AllocatedOnly? then disk else
    disk[what.offset..what.offset + DumpLength(|disk|, what.offset, what.length)]
  }

  /** What a dump that reports success has written, on any image. */
  ghost predicate Wrote(img: Image, fb: bool, what: Request, data: seq<byte>)
    requires img.Valid()
  {
    match what
    case ByteRange(offset, length) =>
      && Holds(img, fb, offset, data)
      && (|data| == DumpLength(img.size, offset, length) || Slice(img, fb, offset + |data|) == Ok([]))
    case AllocatedOnly => ScanOk(img, fb) && Rebuilt(img, fb, Listing(img, fb), |Listing(img, fb)|, data)
  }

  /** `cmd_dump` to a file, in either mode. */
  method DumpCommand(src: Source, tools: Tools, what: Request, recover: bool) returns (done: Result<()>, out: Option<OutFile>)
    requires src.cursor == 0
    modifies src
    ensures out.Some? ==> fresh(out.value)
    ensures var o := OpenStream(src.data, tools); o.Err? ==> done == Err(o.error) && out == None
    ensures var o := OpenStream(src.data, tools); o.Ok? ==>
              var img := o.value.img;
              && img.Valid()
              && (done.Ok? ==> out.Some? && Wrote(img, recover, what, out.value.data))
              && (Sound(img, recover) && what.Starts(img.size) && (what.AllocatedOnly? ==> ScanOk(img, recover)) ==>
                    done.Ok? && out.Some? && out.value.data == Asked(what, Disk(img, recover)))
  {
    hide OpenStream, Image.Valid, CacheOk, Sound, Disk, Holds, Slice, ScanOk, Listing, Rebuilt;
    var r := Open(src, tools);
    if r.Err? {
      return Err(r.error), None;
    }
    var reader := r.value;
    SizeFits(reader.img);
    if recover {
      reader.EnableRgdFallback();
    }
    if what.AllocatedOnly? {
      var rebuilt := DumpAllocatedOnly(reader);
      if rebuilt.Err? {
        return Err(rebuilt.error), None;
      }
      return Ok(()), Some(rebuilt.value);
    }
    done, out := Dump(reader, what.offset, what.length);
  }

  // ── dumping a damaged file ────────────────────────────────────────────────

  /** A lost hole leaves a byte of the disk that nothing can deliver. */
  lemma LostHoleByte(u: Image, d: Image) returns (off: nat)
    requires u.Valid() && d.Valid() && u.IsSparse() && d.IsSparse()
    requires RgdValid(u) && Damaged(u, d) && !NoDanglingHole(d)
    ensures off < u.size && ByteAt(d, true, off) == None
  {
    hide RgdValid, Damaged, NoDanglingHole, Slice, Image.Valid, Image.SlotStart;
    HolesKeptIsVisible(u, d);
    var i: nat :| i < |u.fmt.gd| && !HoleKept(u, d, i);
    LostHoleFails(u, d, i);
    off := u.SlotStart(i);
  }

  lemma HeldByte(img: Image, data: seq<byte>, off: nat)
    requires img.Valid() && Holds(img, true, 0, data) && off < |data|
    ensures ByteAt(img, true, off).Some?
  {
    hide ByteAt, Image.Valid;
    assert ByteAt(img, true, 0 + off) == Some(data[off]);
  }

  /** What is written of a disk that lost a hole is not the disk. */
  lemma LostHoleSpoils(u: Image, d: Image, what: Request, data: seq<byte>)
    requires u.Valid() && d.Valid() && RgdValid(u) && Damaged(u, d) && !NoDanglingHole(d)
    requires Sound(u, false) && what.Whole() && Wrote(d, true, what, data)
    ensures what.ByteRange? && data != Disk(u, false)
  {
    hide RgdValid, Damaged, NoDanglingHole, Slice, Image.Valid, ScanOk, Listing, Rebuilt, ByteAt, Holds;
    ScanIsRecovered(u, d);
    if what.ByteRange? {
      var off := LostHoleByte(u, d);
      if off < |data| {
        HeldByte(d, data, off);
      }
    }
  }

  /**
   Recovery as a user meets it: take a sound VMDK4 file the audit validated, and a file damaged
   from it as `Damaged` allows that opens. With fallback on, dumping the whole disk either way
   succeeds and writes the original's disk if and only if the damaged file has no primary pointer
   where its redundant directory has a hole; then every range dumped is the original's too.
   */
  method RecoverDump(src: Source, tools: Tools, what: Request, ghost fu: File) returns (done: Result<()>, out: Option<OutFile>)
    requires src.cursor == 0 && OpenStream(src.data, tools).Ok?
    requires IsVmdk4(fu) && OpenStream(fu, tools).Ok? && ValidatesRgd(fu)
    requires Damaged(OpenStream(fu, tools).value.img, OpenStream(src.data, tools).value.img)
    requires OpenStream(fu, tools).value.img.Valid() && Sound(OpenStream(fu, tools).value.img, false)
    modifies src
    ensures out.Some? ==> fresh(out.value)
    ensures var u, d := OpenStream(fu, tools).value.img, OpenStream(src.data, tools).value.img;
            && (what.Whole() ==>
                  ((done.Ok? && out.Some? && out.value.data == Disk(u, false)) <==> NoDanglingHole(d)))
            && (NoDanglingHole(d) && what.Starts(u.size) ==>
                  done.Ok? && out.Some? && out.value.data == Asked(what, Disk(u, false)))
  {
    hide OpenStream, Image.Valid, Sound, Disk, Wrote, ScanOk, Damaged, NoDanglingHole, RgdValid, ValidatesRgd;
    ghost var u, d := OpenStream(fu, tools).value.img, OpenStream(src.data, tools).value.img;
    done, out := DumpCommand(src, tools, what, true);
    ValidateIsRgdValid(fu, tools);
    OpenedCount(fu, tools);
    SameFormat(u, d);
    ScanIsRecovered(u, d);
    if NoDanglingHole(d) {
      RecoveredDisk(u, d);
    } else if what.Whole() && done.Ok? {
      LostHoleSpoils(u, d, what, out.value.data);
    }
  }
}
