/**
 Recovery at the level of files: a VMDK4 file whose redundant copy validated, then lost primary
 pointers, still opens, and reading it with fallback is reading the original.
 */
module DamagedFiles {
  import opened Bytes
  import opened Headers
  import opened Images
  import opened Scans
  import opened Descriptors
  import opened Opening
  import opened Recovery
  import opened Forensics
  import opened Audits

  /** The bytes opening reads outside the grain directory: header, descriptor, footer. */
  ghost predicate FrameUntouched(fu: File, fd: File)
    requires IsVmdk4(fu)
  {
    && |fd| == |fu| && fd[..512] == fu[..512]
    && (ParseSparse(fu[..512]).Ok? ==>
          var hdr := ParseSparse(fu[..512]).value;
          DescriptorBytes(fd, hdr) == DescriptorBytes(fu, hdr) && GdOffset(fd, hdr) == GdOffset(fu, hdr))
  }

  lemma FrameKeepsMagic(fu: File, fd: File)
    requires IsVmdk4(fu) && FrameUntouched(fu, fd)
    ensures IsVmdk4(fd)
  {
    LeU32Slice(fu, 0, 512, 0);
    LeU32Slice(fd, 0, 512, 0);
  }

  /** Damage to the directory does not stop a file from opening, and changes only the directory. */
  lemma DamagedStillOpens(fu: File, fd: File, tools: Tools)
    requires IsVmdk4(fu) && OpenStream(fu, tools).Ok? && FrameUntouched(fu, fd)
    ensures OpenStream(fd, tools).Ok?
    ensures var u, d := OpenStream(fu, tools).value.img, OpenStream(fd, tools).value.img;
            && u.IsSparse() && d.IsSparse()
            && d.fmt == u.fmt.(gd := d.fmt.gd) && |d.fmt.gd| == |u.fmt.gd|
            && d.file == fd && u.file == fu && d.size == u.size
            && d.rgdOffset == u.rgdOffset && d.gdCount == u.gdCount && d.inflate == u.inflate
    ensures OpenStream(fd, tools).value.meta == OpenStream(fu, tools).value.meta
  {
    hide ParseSparse, NumTables, GdOffset, DescriptorBytes, OpenStream, DescriptorOf, Decode;
    FrameKeepsMagic(fu, fd);
    Vmdk4Dispatch(fu, tools);
    Vmdk4Dispatch(fd, tools);
  }

  /**
   Recovery end to end: take a VMDK4 file the audit validated, and another that opens (as it
   does when header, descriptor and footer are kept, by `DamagedStillOpens`), lost primary
   directory and table entries as `Damaged` allows, and kept the redundant copy and the grains.
   With fallback on
   every read at every offset returns the original's bytes, if and only if the damaged file has
   no primary pointer where its redundant directory has a hole; the scan succeeds under the same
   condition and lists what the original's scan lists.
   */
  lemma RecoverDamagedFile(fu: File, fd: File, tools: Tools)
    requires IsVmdk4(fu) && OpenStream(fu, tools).Ok? && ValidatesRgd(fu)
    requires OpenStream(fd, tools).Ok?
    requires Damaged(OpenStream(fu, tools).value.img, OpenStream(fd, tools).value.img)
    ensures var u, d := OpenStream(fu, tools).value.img, OpenStream(fd, tools).value.img;
            && u.Valid() && d.Valid() && u.IsSparse() && d.IsSparse()
            && ((forall off: nat :: off < u.size ==> Slice(d, true, off) == Slice(u, false, off)) <==> NoDanglingHole(d))
            && (ScanOk(d, true) <==> NoDanglingHole(d))
            && (ScanOk(d, true) ==> Listing(d, true) == Listing(u, false))
  {
    hide OpenStream, ValidatesRgd, Damaged, RgdValid, Slice, NoDanglingHole, ScanOk, Listing, Image.Valid;
    OpenedIsValid(fu, tools);
    OpenedCount(fu, tools);
    SameFormat(OpenStream(fu, tools).value.img, OpenStream(fd, tools).value.img);
    ValidateIsRgdValid(fu, tools);
    RecoveryIsExact(OpenStream(fu, tools).value.img, OpenStream(fd, tools).value.img);
    ScanIsRecovered(OpenStream(fu, tools).value.img, OpenStream(fd, tools).value.img);
  }

  lemma SameFormat(u: Image, d: Image)
    requires Damaged(u, d)
    ensures u.IsSparse() && d.IsSparse()
  {
  }
}
