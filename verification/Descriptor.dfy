/** The text descriptor (core/src/descriptor.rs; Virtual Disk Format 1.1, section 4.3). */
module Descriptors {
  import opened Wrappers
  import opened Arith
  import opened Bytes
  import opened Texts

  const NO_PARENT: u32 := 0xffff_ffff

  /** One flat extent: a piece of a file, or a hole when `isZero`. */
  datatype ExtentEntry = ExtentEntry(sizeSectors: u64, filename: string, fileByteOffset: u64, isZero: bool)

  /** One sparse extent: a binary image of its own. */
  datatype SparseEntry = SparseEntry(sizeSectors: u64, filename: string)

  datatype TextDescriptor = TextDescriptor(
    createType: string,
    cid: u32,
    parentCid: u32,
    rawText: string,
    extents: seq<ExtentEntry>,
    sparseExtents: seq<SparseEntry>,
    capacitySectors: u64,
    sparseCapacitySectors: u64)

  /** A bare word or a double-quoted name, and the text after it; nothing for an open quote. */
  function SplitName(s: string): Option<(string, string)> {
    if s != [] && s[0] == '"' then
      var inner := s[1..];
      var close := UpTo(inner, '"');
      if close == |inner| then None else Some((inner[..close], inner[close + 1..]))
    else
      var n := UpToSpace(s);
      Some((s[..n], s[n..]))
  }

  /** `try_parse_flat_extent`. */
  function FlatExtent(line: string): Option<ExtentEntry> {
    match SplitToken(line)
    case None => None
    case Some((access, afterAccess)) =>
      if access !in ["RW", "RDONLY", "NOACCESS"] then None else
      match SplitToken(afterAccess)
      case None => None
      case Some((sectors, afterSectors)) =>
        match ParseU64(sectors)
        case None => None
        case Some(size) =>
          match SplitToken(afterSectors)
          case None => None
          case Some((kind, afterKind)) =>
            if kind !in ["FLAT", "VMFS", "VMFSRAW", "VMFSRDM", "ZERO"] then None else
            if kind == "ZERO" || access == "NOACCESS" then Some(ExtentEntry(size, "", 0, true)) else
            match SplitName(TrimStart(afterKind))
            case None => None
            case Some((name, tail)) =>
              var offset := ParseU64(Trim(tail));
              Some(ExtentEntry(size, name, SatMul(if offset.Some? then offset.value else 0, SECTOR), false))
  }

  /** `try_parse_sparse_extent`. */
  function SparseExtent(line: string): Option<SparseEntry> {
    match SplitToken(line)
    case None => None
    case Some((access, afterAccess)) =>
      if access !in ["RW", "RDONLY"] then None else
      match SplitToken(afterAccess)
      case None => None
      case Some((sectors, afterSectors)) =>
        match ParseU64(sectors)
        case None => None
        case Some(size) =>
          match SplitToken(afterSectors)
          case None => None
          case Some((kind, afterKind)) =>
            if kind !in ["SPARSE", "VMFSSPARSE", "SESPARSE"] then None else
            match SplitName(TrimStart(afterKind))
            case None => None
            case Some((name, _)) => Some(SparseEntry(size, name))
  }

  /** What one line of a descriptor contributes, in the parser's order of preference. */
  datatype Contribution =
    | Nothing
    | CreateType(value: string)
    | Cid(id: u32)
    | ParentCid(id: u32)
    | FlatLine(flat: ExtentEntry)
    | SparseLine(sparse: SparseEntry)

  function HexOr(s: string): u32 {
    var v := ParseHex32(Trim(s));
    if v.Some? then v.value else 0xffff_ffff
  }

  function Contributes(raw: string): Contribution {
    var line := Trim(raw);
    if line == [] || line[0] == '#' then Nothing else
    var create := StripPrefix(line, "createType=");
    if create.Some? then CreateType(TrimChar(create.value, '"')) else
    var cid := StripPrefix(line, "CID=");
    if cid.Some? then Cid(HexOr(cid.value)) else
    var parent := StripPrefix(line, "parentCID=");
    if parent.Some? then ParentCid(HexOr(parent.value)) else
    var flat := FlatExtent(line);
    if flat.Some? then FlatLine(flat.value) else
    var sparse := SparseExtent(line);
    if sparse.Some? then SparseLine(sparse.value) else Nothing
  }

  // ── the meaning of a whole descriptor ─────────────────────────────────────

  function FlatExtents(lines: seq<string>): seq<ExtentEntry> {
    if lines == [] then [] else
    var c := Contributes(lines[|lines| - 1]);
    FlatExtents(lines[..|lines| - 1]) + if c.FlatLine? then [c.flat] else []
  }

  function SparseExtents(lines: seq<string>): seq<SparseEntry> {
    if lines == [] then [] else
    var c := Contributes(lines[|lines| - 1]);
    SparseExtents(lines[..|lines| - 1]) + if c.SparseLine? then [c.sparse] else []
  }

  function FlatSectors(l: seq<ExtentEntry>): nat {
    if l == [] then 0 else FlatSectors(l[..|l| - 1]) + l[|l| - 1].sizeSectors
  }

  function SparseSectors(l: seq<SparseEntry>): nat {
    if l == [] then 0 else SparseSectors(l[..|l| - 1]) + l[|l| - 1].sizeSectors
  }

  /** The last line of each kind wins. */
  function LastCreateType(lines: seq<string>): string {
    if lines == [] then "" else
    var c := Contributes(lines[|lines| - 1]);
    if c.CreateType? then c.value else LastCreateType(lines[..|lines| - 1])
  }

  function LastCid(lines: seq<string>): u32 {
    if lines == [] then 0xffff_ffff else
    var c := Contributes(lines[|lines| - 1]);
    if c.Cid? then c.id else LastCid(lines[..|lines| - 1])
  }

  function LastParentCid(lines: seq<string>): u32 {
    if lines == [] then 0xffff_ffff else
    var c := Contributes(lines[|lines| - 1]);
    if c.ParentCid? then c.id else LastParentCid(lines[..|lines| - 1])
  }

  /** Text before the first NUL. */
  function Clean(text: string): string {
    text[..UpTo(text, '\0')]
  }

  /**
   The declarative reading: the kept extents in order, their exact sums, and an overflow error
   exactly when one of the two sums does not fit 64 bits.
   */
  function DescriptorOf(text: string): (r: Result<TextDescriptor>) {
    var lines := Lines(Clean(text));
    var flat, sparse := FlatExtents(lines), SparseExtents(lines);
    if FlatSectors(flat) > U64_MAX || SparseSectors(sparse) > U64_MAX then Err(GeometryOverflow) else
    Ok(TextDescriptor(LastCreateType(lines), LastCid(lines), LastParentCid(lines), Clean(text),
                      flat, sparse, FlatSectors(flat), SparseSectors(sparse)))
  }

  lemma {:induction false} FlatSumGrows(lines: seq<string>, k: nat)
    requires k <= |lines|
    ensures FlatSectors(FlatExtents(lines[..k])) <= FlatSectors(FlatExtents(lines))
    ensures SparseSectors(SparseExtents(lines[..k])) <= SparseSectors(SparseExtents(lines))
  {
    hide Contributes;
    if k == |lines| {
      assert lines[..k] == lines;
    } else {
      var last := |lines| - 1;
      assert lines[..last][..k] == lines[..k];
      FlatSumGrows(lines[..last], k);
      LineStep(lines, last);
      assert lines[..last + 1] == lines;
    }
  }

  /** Taking one more line into account. */
  lemma LineStep(lines: seq<string>, k: nat)
    requires k < |lines|
    ensures var c := Contributes(lines[k]);
            var before, after := lines[..k], lines[..k + 1];
            && FlatExtents(after) == FlatExtents(before) + (if c.FlatLine? then [c.flat] else [])
            && SparseExtents(after) == SparseExtents(before) + (if c.SparseLine? then [c.sparse] else [])
            && FlatSectors(FlatExtents(after)) == FlatSectors(FlatExtents(before)) + (if c.FlatLine? then c.flat.sizeSectors else 0)
            && SparseSectors(SparseExtents(after)) == SparseSectors(SparseExtents(before)) + (if c.SparseLine? then c.sparse.sizeSectors else 0)
            && LastCreateType(after) == (if c.CreateType? then c.value else LastCreateType(before))
            && LastCid(after) == (if c.Cid? then c.id else LastCid(before))
            && LastParentCid(after) == (if c.ParentCid? then c.id else LastParentCid(before))
  {
    hide Contributes;
    var c := Contributes(lines[k]);
    var before, after := lines[..k], lines[..k + 1];
    assert after[..k] == before;
    if c.FlatLine? {
      assert (FlatExtents(before) + [c.flat])[..|FlatExtents(before)|] == FlatExtents(before);
    } else {
      assert FlatExtents(after) == FlatExtents(before);
    }
    if c.SparseLine? {
      assert (SparseExtents(before) + [c.sparse])[..|SparseExtents(before)|] == SparseExtents(before);
    } else {
      assert SparseExtents(after) == SparseExtents(before);
    }
  }

  /** `parse_text_descriptor`: one pass with checked running sums. */
  method ParseTextDescriptor(text: string) returns (r: Result<TextDescriptor>)
    ensures r == DescriptorOf(text)
  {
    hide Contributes, FlatExtents, SparseExtents, FlatSectors, SparseSectors, Lines, UpTo;
    var createType := "";
    var cid: u32 := 0xffff_ffff;
    var parentCid: u32 := 0xffff_ffff;
    var extents: seq<ExtentEntry> := [];
    var sparseExtents: seq<SparseEntry> := [];
    var capacity: u64 := 0;
    var sparseCapacity: u64 := 0;
    var clean := Clean(text);
    var lines := Lines(clean);
    EmptySums();
    var k := 0;
    while k < |lines|
      invariant k <= |lines|
      invariant createType == LastCreateType(lines[..k])
      invariant cid == LastCid(lines[..k]) && parentCid == LastParentCid(lines[..k])
      invariant extents == FlatExtents(lines[..k]) && sparseExtents == SparseExtents(lines[..k])
      invariant capacity == FlatSectors(extents) && sparseCapacity == SparseSectors(sparseExtents)
    {
      LineStep(lines, k);
      FlatSumGrows(lines, k + 1);
      match Contributes(lines[k]) {
        case Nothing =>
        case CreateType(v) => createType := v;
        case Cid(id) => cid := id;
        case ParentCid(id) => parentCid := id;
        case FlatLine(ext) =>
          capacity :- OkOr(CheckedAdd(capacity, ext.sizeSectors), GeometryOverflow);
          extents := extents + [ext];
        case SparseLine(ext) =>
          sparseCapacity :- OkOr(CheckedAdd(sparseCapacity, ext.sizeSectors), GeometryOverflow);
          sparseExtents := sparseExtents + [ext];
      }
      k := k + 1;
    }
    assert lines[..k] == lines;
    return Ok(TextDescriptor(createType, cid, parentCid, clean, extents, sparseExtents, capacity, sparseCapacity));
  }

  lemma EmptySums()
    ensures FlatExtents([]) == [] && SparseExtents([]) == [] && FlatSectors([]) == 0 && SparseSectors([]) == 0
  {
  }

  // ── decoding ──────────────────────────────────────────────────────────────

  /** A decoder for descriptors that are not plain ASCII. */
  type TextDecoder = seq<byte> -> string

  function NulEnd(b: seq<byte>): (n: nat)
    ensures n <= |b|
  {
    if b == [] || b[0] == 0 then 0 else 1 + NulEnd(b[1..])
  }

  predicate IsAscii(b: seq<byte>) {
    forall k :: 0 <= k < |b| ==> b[k] < 0x80
  }

  function AsciiText(b: seq<byte>): string
    requires IsAscii(b)
  {
    seq(|b|, k requires 0 <= k < |b| => b[k] as char)
  }

  /**
   `decode_descriptor` with the default decoder: cut at NUL; ASCII stands for itself, anything
   else is foreign. (A `full-encoding` build can also read plain ASCII bytes as UTF-16 or
   ISO-2022-JP when the text declares so.)
   */
  function Decode(b: seq<byte>, decoder: TextDecoder): string {
    var t := b[..NulEnd(b)];
    if IsAscii(t) then AsciiText(t) else decoder(t)
  }
}
