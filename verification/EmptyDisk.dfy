/**
 The one family of images on which the reader and the audit disagree: an empty disk whose
 directory offset lies past the end of the file.
 */
module EmptyDisks {
  import opened Wrappers
  import opened Bytes
  import opened Headers
  import opened Descriptors
  import opened Opening
  import opened Forensics
  import opened Builders

  /** A header alone: no sectors, no descriptor, a directory at sector 1000. */
  const EMPTY_HEADER := SparseHeader(1, 0, 8, 0, 0, 512, 0, 1000, false)

  /** The reader opens it, because it asks for no directory bytes; the audit finds no layout. */
  lemma EmptyDiskHasNoLayout(tools: Tools)
    ensures var file := EncodeHeader(EMPTY_HEADER, 0);
            && OpenStream(file, tools).Ok? && OpenStream(file, tools).value.img.size == 0
            && LayoutOf(file) == None && ReportOf(file) == CLEAN_REPORT
  {
    hide ParseSparse, EncodeHeader, DescriptorOf, BeU32, LeU64, LeU32, LeTable32;
    var file := EncodeHeader(EMPTY_HEADER, 0);
    ParseEncoded(EMPTY_HEADER, 0);
    DispatchesToVmdk4(file);
    NoAccessParses("");
    assert file[..512] == file;
    assert NumTables(EMPTY_HEADER) == Ok(0);
  }
}
