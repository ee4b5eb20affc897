/**
 What the text descriptor is for (core/src/descriptor.rs, core/src/chain.rs): a descriptor written
 line by line parses back to what was written, its parent hint is the name between the quotes, and
 its flat extents are the stated bytes of the named files.
 */
module DescriptorForms {
  import opened Wrappers
  import opened Arith
  import opened Bytes
  import opened Texts
  import opened Descriptors
  import opened Images
  import opened ChainOpening
  import opened Extents
  import opened Flats

  // ── one line ──────────────────────────────────────────────────────────────

  /** Indentation and trailing blanks do not matter. */
  lemma IndentFree(a: string, line: string, b: string)
    requires Blanks(a) && Blanks(b) && Trimmed(line)
    ensures Contributes(a + line + b) == Contributes(line)
  {
    hide Trim, FlatExtent, SparseExtent, TrimChar, HexOr, StripPrefix;
    TrimOf(a, line, b);
    Untrimmed(line);
  }

  lemma NotPrefix(s: string, p: string, k: nat)
    requires k < |s| && k < |p| && s[k] != p[k]
    ensures StripPrefix(s, p) == None
  {
  }

  lemma AfterKey(key: string, tail: string)
    ensures StripPrefix(key + tail, key) == Some(tail)
  {
    assert (key + tail)[|key|..] == tail;
  }

  lemma KeyLetters()
    ensures "createType="[0] == 'c' && "CID="[0] == 'C'
    ensures "parentCID="[0] == 'p' == "parentFileNameHint="[0] && "parentCID="[6] == 'C' && "parentFileNameHint="[6] == 'F'
    ensures !IsSpace('c') && !IsSpace('C') && !IsSpace('p')
    ensures |"createType="| == 11 && |"CID="| == 4 && |"parentCID="| == 10 && |"parentFileNameHint="| == 19
  {
  }

  lemma HexValue(n: u32)
    ensures HexOr(Numeral(n, 16)) == n
  {
    hide Trim, Numeral, Run, ParseUnsigned, TrimStart;
    NumeralPlain(n, 16);
    Untrimmed(Numeral(n, 16));
    ParseNumeral(false, 0, n, 16, 0x1_0000_0000);
    assert "" + Run('0', 0) + Numeral(n, 16) == Numeral(n, 16) by { NoRun(Numeral(n, 16)); }
  }

  /** Capitals do as well. */
  lemma HexCapitals(n: u32)
    ensures HexOr(Capitals(Numeral(n, 16))) == n
  {
    hide Trim, Numeral, Run, TrimStart, DigitsValue, IsSpace;
    NumeralPlain(n, 16);
    var s, t := Numeral(n, 16), Capitals(Numeral(n, 16));
    CapitalsPlain(s);
    Untrimmed(t);
    CapitalsValue(s, 16);
    NumeralValue(0, n, 16);
    NoRun(s);
    assert Run('0', 0) + s == s by { assert "" + Run('0', 0) + s == Run('0', 0) + s; }
  }

  lemma CapitalsPlain(s: string)
    requires s != [] && Trimmed(s) && s[0] != '+'
    ensures Trimmed(Capitals(s)) && Capitals(s) != [] && Capitals(s)[0] != '+'
  {
  }

  /** Anything that is not a number in the range stands for no content at all. */
  lemma NoHex(s: string, k: nat)
    requires k < |Trim(s)| && Digit(Trim(s)[k]) >= 16 && (k > 0 || Trim(s)[0] != '+')
    ensures HexOr(s) == 0xffff_ffff
  {
    hide Trim, Digit;
    var t := Trim(s);
    var digits := if t[0] == '+' then t[1..] else t;
    assert digits[if t[0] == '+' then k - 1 else k] == t[k];
    OnlyDigits(digits, 16);
  }

  lemma NoRun(s: string)
    ensures "" + Run('0', 0) + s == s
  {
  }

  lemma DecimalValue(n: u64)
    ensures ParseU64(Numeral(n, 10)) == Some(n)
  {
    hide Numeral, Run, ParseUnsigned;
    ParseNumeral(false, 0, n, 10, 0x1_0000_0000_0000_0000);
    NoRun(Numeral(n, 10));
  }

  /** A text between quotes. */
  function Quoted(s: string): string {
    "\"" + s + "\""
  }

  lemma Unquoted(s: string)
    requires '"' !in s
    ensures TrimChar(Quoted(s), '"') == s
  {
    hide TrimChar;
    TrimCharOf(1, s, 1, '"');
    assert Run('"', 1) == "\"";
  }

  lemma QuotedEnds(s: string)
    ensures Trimmed(Quoted(s)) && Quoted(s) != [] && Quoted(s)[|Quoted(s)| - 1] == '"'
  {
  }

  /** A key and a value without a blank at its end stay together. */
  lemma KeyedTrimmed(key: string, value: string)
    requires key != [] && !IsSpace(key[0]) && value != [] && Trimmed(value)
    ensures Trim(key + value) == key + value && key + value != [] && (key + value)[0] == key[0]
    ensures StripPrefix(key + value, key) == Some(value)
  {
    hide Trim, IsSpace, StripPrefix;
    assert (key + value)[|key + value| - 1] == value[|value| - 1];
    Untrimmed(key + value);
    AfterKey(key, value);
  }

  /** The value of a `createType` line is what stands between the quotes. */
  lemma CreateTypeLine(value: string)
    requires '"' !in value
    ensures Contributes("createType=" + Quoted(value)) == CreateType(value)
  {
    hide Trim, StripPrefix, TrimChar, FlatExtent, SparseExtent, HexOr, Quoted, IsSpace;
    QuotedEnds(value);
    KeyLetters();
    KeyedTrimmed("createType=", Quoted(value));
    Unquoted(value);
  }

  lemma CidLine(n: u32)
    ensures Contributes("CID=" + Numeral(n, 16)) == Cid(n)
  {
    hide Trim, StripPrefix, TrimChar, FlatExtent, SparseExtent, HexOr, Numeral, IsSpace;
    NumeralPlain(n, 16);
    KeyLetters();
    KeyedTrimmed("CID=", Numeral(n, 16));
    NotPrefix("CID=" + Numeral(n, 16), "createType=", 0);
    HexValue(n);
  }

  lemma ParentCidLine(n: u32)
    ensures Contributes("parentCID=" + Numeral(n, 16)) == ParentCid(n)
    ensures StripPrefix(Trim("parentCID=" + Numeral(n, 16)), "parentFileNameHint=") == None
  {
    hide Trim, StripPrefix, TrimChar, FlatExtent, SparseExtent, HexOr, Numeral, IsSpace;
    NumeralPlain(n, 16);
    KeyLetters();
    var line := "parentCID=" + Numeral(n, 16);
    KeyedTrimmed("parentCID=", Numeral(n, 16));
    NotPrefix(line, "createType=", 0);
    NotPrefix(line, "CID=", 0);
    NotPrefix(line, "parentFileNameHint=", 6);
    HexValue(n);
  }

  lemma OtherWord(word: string)
    requires word != [] && word[0] != 'R' && word[0] != 'N'
    ensures word != "RW" && word != "RDONLY" && word != "NOACCESS"
  {
    assert "RW"[0] == 'R' && "RDONLY"[0] == 'R' && "NOACCESS"[0] == 'N';
  }

  lemma FirstWord(line: string)
    requires line != [] && !IsSpace(line[0])
    ensures SplitToken(line).Some? && SplitToken(line).value.0 != [] && SplitToken(line).value.0[0] == line[0]
  {
  }

  /** A line whose first word is no access keyword names no extent. */
  lemma NamesNoExtent(line: string)
    requires line != [] && !IsSpace(line[0]) && line[0] != 'R' && line[0] != 'N'
    ensures FlatExtent(line).None? && SparseExtent(line).None?
  {
    hide SplitToken, ParseU64, SplitName, TrimStart, Trim;
    FirstWord(line);
    OtherWord(SplitToken(line).value.0);
  }

  /** A hint line contributes nothing but the hint, which is what stands between the quotes. */
  lemma HintLine(name: string)
    requires '"' !in name
    ensures var line := "parentFileNameHint=" + Quoted(name);
            && Contributes(line) == Nothing
            && StripPrefix(Trim(line), "parentFileNameHint=") == Some(Quoted(name))
            && TrimChar(Trim(Quoted(name)), '"') == name
  {
    hide Trim, StripPrefix, TrimChar, FlatExtent, SparseExtent, HexOr, Quoted, IsSpace;
    KeyLetters();
    QuotedEnds(name);
    var line := "parentFileNameHint=" + Quoted(name);
    KeyedTrimmed("parentFileNameHint=", Quoted(name));
    NotPrefix(line, "createType=", 0);
    NotPrefix(line, "CID=", 0);
    NotPrefix(line, "parentCID=", 6);
    NamesNoExtent(line);
    Untrimmed(Quoted(name));
    Unquoted(name);
  }

  lemma LetterP()
    ensures !IsSpace('p') && !IsSpace('R') && !IsSpace('N') && !IsSpace('"') && !IsSpace('#')
  {
  }

  // ── extent lines ──────────────────────────────────────────────────────────

  predicate Gap(s: string) {
    s != [] && Blanks(s)
  }

  /** Access, size and kind of an extent, separated by blanks, and the rest of the line. */
  function ExtentLine(access: string, g1: string, size: nat, g2: string, kind: string, rest: string): string {
    "" + access + (g1 + Numeral(size, 10) + (g2 + kind + rest))
  }

  predicate Access(s: string) {
    s in ["RW", "RDONLY", "NOACCESS"]
  }

  predicate Kind(s: string) {
    s in ["FLAT", "VMFS", "VMFSRAW", "VMFSRDM", "ZERO", "SPARSE", "VMFSSPARSE", "SESPARSE"]
  }

  lemma AccessWords(s: string)
    requires Access(s)
    ensures s != [] && NoBlanks(s) && (s[0] == 'R' || s[0] == 'N')
  {
  }

  lemma KindWords(s: string)
    requires Kind(s)
    ensures s != [] && NoBlanks(s)
  {
  }

  /** The three words of an extent line. */
  lemma ThreeWords(access: string, g1: string, size: u64, g2: string, kind: string, rest: string)
    requires Access(access) && Gap(g1) && Gap(g2) && Kind(kind) && (rest != [] ==> IsSpace(rest[0]))
    ensures var r1 := g1 + Numeral(size, 10) + (g2 + kind + rest);
            && SplitToken(ExtentLine(access, g1, size, g2, kind, rest)) == Some((access, r1))
            && SplitToken(r1) == Some((Numeral(size, 10), g2 + kind + rest))
            && SplitToken(g2 + kind + rest) == Some((kind, rest))
            && ParseU64(Numeral(size, 10)) == Some(size)
  {
    hide SplitToken, IsSpace, Numeral, ParseU64, Access, Kind, NoBlanks;
    AccessWords(access);
    KindWords(kind);
    NumeralPlain(size, 10);
    DecimalValue(size);
    TokenOf("", access, g1 + Numeral(size, 10) + (g2 + kind + rest));
    TokenOf(g1, Numeral(size, 10), g2 + kind + rest);
    TokenOf(g2, kind, rest);
  }

  /** A quoted or a bare file name. */
  datatype Name = InQuotes(text: string) | Bare(text: string)
  {
    predicate Readable() {
      if InQuotes? then '"' !in text else NoBlanks(text) && text != [] && text[0] != '"'
    }

    function Written(): string {
      if InQuotes? then Quoted(text) else text
    }
  }

  lemma QuotedReads(text: string, tail: string)
    requires '"' !in text
    ensures SplitName(Quoted(text) + tail) == Some((text, tail))
  {
    hide UpTo, UpToSpace;
    var s := Quoted(text) + tail;
    var rest := "\"" + tail;
    assert s[1..] == text + rest;
    UpToFirst(text, rest, '"');
    assert (text + rest)[..|text|] == text && (text + rest)[|text| + 1..] == tail;
  }

  lemma BareReads(text: string, tail: string)
    requires NoBlanks(text) && text != [] && text[0] != '"' && (tail != [] ==> IsSpace(tail[0]))
    ensures SplitName(text + tail) == Some((text, tail))
  {
    hide UpTo, UpToSpace, IsSpace;
    UpToSpaceOf(text, tail);
    assert (text + tail)[..|text|] == text && (text + tail)[|text|..] == tail;
  }

  /** A name after blanks is read as its text, whatever follows it. */
  lemma NameReads(gap: string, name: Name, tail: string)
    requires Blanks(gap) && name.Readable() && (name.Bare? && tail != [] ==> IsSpace(tail[0]))
    ensures SplitName(TrimStart(gap + (name.Written() + tail))) == Some((name.text, tail))
  {
    hide SplitName, IsSpace, TrimStart;
    LetterP();
    TrimStartOf(gap, name.Written() + tail);
    if name.InQuotes? {
      QuotedReads(name.text, tail);
    } else {
      BareReads(name.text, tail);
    }
  }

  /** What may follow a name: blanks, and the sector the extent starts at in its file. */
  function OffsetText(gap: string, offset: Option<u64>): string {
    gap + if offset.Some? then Numeral(offset.value, 10) else ""
  }

  lemma OffsetReads(gap: string, offset: Option<u64>)
    requires Blanks(gap)
    ensures ParseU64(Trim(OffsetText(gap, offset))) == offset
  {
    hide Trim, ParseU64, Numeral, IsSpace;
    if offset.Some? {
      NumeralPlain(offset.value, 10);
      DecimalValue(offset.value);
      TrimOf(gap, Numeral(offset.value, 10), "");
      assert gap + Numeral(offset.value, 10) + "" == OffsetText(gap, offset);
    } else {
      TrimOf(gap, "", "");
      assert gap + "" + "" == OffsetText(gap, offset);
      assert ParseU64("") == None by { NoDigits(); }
    }
  }

  lemma NoDigits()
    ensures ParseU64("") == None
  {
  }

  /** The kinds of extent backed by a flat file. */
  predicate FileKind(s: string) {
    s in ["FLAT", "VMFS", "VMFSRAW", "VMFSRDM"]
  }

  predicate ReadAccess(s: string) {
    s in ["RW", "RDONLY"]
  }

  lemma FileKinds(kind: string)
    requires FileKind(kind)
    ensures Kind(kind) && kind != "ZERO" && kind in ["FLAT", "VMFS", "VMFSRAW", "VMFSRDM", "ZERO"]
  {
    assert "FLAT"[0] == 'F' && "VMFS"[0] == 'V' && "VMFSRAW"[0] == 'V' && "VMFSRDM"[0] == 'V' && "ZERO"[0] == 'Z';
  }

  lemma FileAccess(access: string)
    requires ReadAccess(access)
    ensures Access(access) && access != "NOACCESS" && access in ["RW", "RDONLY", "NOACCESS"]
  {
    assert "RW"[0] == 'R' && "RDONLY"[0] == 'R' && "NOACCESS"[0] == 'N';
  }

  /**
   An extent backed by a file: its size in sectors, the name quoted or bare, and the byte its
   sector offset gives, the largest 64-bit value when that does not fit and 0 when there is none.
   */
  lemma FlatLineReads(access: string, g1: string, size: u64, g2: string, kind: string, g3: string, name: Name, g4: string, offset: Option<u64>)
    requires ReadAccess(access) && FileKind(kind)
    requires Gap(g1) && Gap(g2) && Gap(g3) && Gap(g4) && name.Readable()
    ensures FlatExtent(ExtentLine(access, g1, size, g2, kind, g3 + (name.Written() + OffsetText(g4, offset)))) ==
            Some(ExtentEntry(size, name.text, if offset.Some? then Min(512 * offset.value, U64_MAX) else 0, false))
  {
    hide FlatExtent, SplitToken, SplitName, ParseU64, Trim, TrimStart, Numeral, ExtentLine, OffsetText, IsSpace, Gap, Blanks;
    GapFirst(g1);
    GapFirst(g2);
    GapFirst(g3);
    GapFirst(g4);
    var tail := OffsetText(g4, offset);
    var rest := g3 + (name.Written() + tail);
    OffsetStarts(g4, offset);
    GapStarts(g3, name.Written() + tail);
    FileKinds(kind);
    FileAccess(access);
    ThreeWords(access, g1, size, g2, kind, rest);
    NameReads(g3, name, tail);
    OffsetReads(g4, offset);
    var r2 := g2 + kind + rest;
    FlatFromWords(ExtentLine(access, g1, size, g2, kind, rest), access, g1 + Numeral(size, 10) + r2, Numeral(size, 10), r2,
                  kind, rest, size, name.text, tail, offset, if offset.Some? then Min(512 * offset.value, U64_MAX) else 0);
  }

  /** The words of a file-backed extent line, put together. */
  lemma FlatFromWords(line: string, access: string, r1: string, sectors: string, r2: string, kind: string, r3: string,
                      size: u64, name: string, tail: string, offset: Option<u64>, at: u64)
    requires at == if offset.Some? then Min(512 * offset.value, U64_MAX) else 0
    requires ReadAccess(access) && FileKind(kind)
    requires SplitToken(line) == Some((access, r1)) && SplitToken(r1) == Some((sectors, r2)) && SplitToken(r2) == Some((kind, r3))
    requires ParseU64(sectors) == Some(size) && SplitName(TrimStart(r3)) == Some((name, tail)) && ParseU64(Trim(tail)) == offset
    ensures FlatExtent(line) == Some(ExtentEntry(size, name, at, false))
  {
    hide SplitToken, SplitName, ParseU64, Trim, TrimStart, FileKind, ReadAccess, Kind, Access;
    FileKinds(kind);
    FileAccess(access);
  }

  lemma GapFirst(gap: string)
    requires Gap(gap)
    ensures gap != [] && IsSpace(gap[0]) && Blanks(gap)
  {
  }

  lemma GapStarts(gap: string, s: string)
    requires Gap(gap)
    ensures gap + s != [] && IsSpace((gap + s)[0])
  {
  }

  lemma OffsetStarts(gap: string, offset: Option<u64>)
    requires gap != []
    ensures OffsetText(gap, offset) != [] && OffsetText(gap, offset)[0] == gap[0]
  {
  }

  /** An extent without access or of kind ZERO is a hole of its size, whatever else the line holds. */
  lemma HoleLineReads(access: string, g1: string, size: u64, g2: string, kind: string, rest: string)
    requires Access(access) && Gap(g1) && Gap(g2) && (rest != [] ==> IsSpace(rest[0]))
    requires kind == "ZERO" || (access == "NOACCESS" && FileKind(kind))
    ensures FlatExtent(ExtentLine(access, g1, size, g2, kind, rest)) == Some(ExtentEntry(size, "", 0, true))
  {
    hide SplitToken, SplitName, ParseU64, Trim, TrimStart, Numeral, ExtentLine, IsSpace;
    ThreeWords(access, g1, size, g2, kind, rest);
  }

  lemma SparseKinds(kind: string)
    requires kind in ["SPARSE", "VMFSSPARSE", "SESPARSE"]
    ensures Kind(kind) && kind !in ["FLAT", "VMFS", "VMFSRAW", "VMFSRDM", "ZERO"]
  {
    assert "SPARSE"[0] == "SESPARSE"[0] == 'S' && "VMFSSPARSE"[4] == 'S' && |"VMFSSPARSE"| == 10;
    assert "FLAT"[0] == 'F' && "ZERO"[0] == 'Z' && "VMFS"[0] == "VMFSRAW"[0] == "VMFSRDM"[0] == 'V';
    assert |"VMFS"| == 4 && |"VMFSRAW"| == 7 && |"VMFSRDM"| == 7;
  }

  /** A sparse extent: its size and its name, and no flat extent. */
  lemma SparseLineReads(access: string, g1: string, size: u64, g2: string, kind: string, g3: string, name: Name, tail: string)
    requires ReadAccess(access) && kind in ["SPARSE", "VMFSSPARSE", "SESPARSE"]
    requires Gap(g1) && Gap(g2) && Gap(g3) && name.Readable() && (name.Bare? && tail != [] ==> IsSpace(tail[0]))
    ensures var line := ExtentLine(access, g1, size, g2, kind, g3 + (name.Written() + tail));
            FlatExtent(line) == None && SparseExtent(line) == Some(SparseEntry(size, name.text))
  {
    hide SplitToken, SplitName, ParseU64, Trim, TrimStart, Numeral, ExtentLine, IsSpace, Kind, Access;
    var rest := g3 + (name.Written() + tail);
    assert rest[0] == g3[0];
    SparseKinds(kind);
    FileAccess(access);
    ThreeWords(access, g1, size, g2, kind, rest);
    NameReads(g3, name, tail);
  }

  /** An extent line contributes its extent. */
  lemma ExtentContributes(access: string, g1: string, size: u64, g2: string, kind: string, rest: string)
    requires Access(access) && Trimmed(ExtentLine(access, g1, size, g2, kind, rest))
    ensures var line := ExtentLine(access, g1, size, g2, kind, rest);
            Contributes(line) ==
            if FlatExtent(line).Some? then FlatLine(FlatExtent(line).value)
            else if SparseExtent(line).Some? then SparseLine(SparseExtent(line).value) else Nothing
  {
    hide Trim, TrimStart, TrimChar, FlatExtent, SparseExtent, HexOr, Numeral, Access, StripPrefix, IsSpace;
    var line := ExtentLine(access, g1, size, g2, kind, rest);
    AccessWords(access);
    KeyLetters();
    assert line[0] == access[0];
    Untrimmed(line);
    NotPrefix(line, "createType=", 0);
    NotPrefix(line, "CID=", 0);
    NotPrefix(line, "parentCID=", 0);
  }

  // ── a whole descriptor ────────────────────────────────────────────────────

  /** What a descriptor says. */
  datatype Described = Described(
    createType: string,
    cid: u32,
    parentCid: u32,
    hint: Option<string>,
    flats: seq<ExtentEntry>,
    sparses: seq<SparseEntry>)

  /** Text that can stand between the quotes of a line. */
  predicate Quotable(s: string) {
    '"' !in s && '\n' !in s && '\0' !in s
  }

  /** A flat extent a line can state: a hole, or whole sectors into a named file. */
  predicate Statable(e: ExtentEntry) {
    if e.isZero then e.filename == "" && e.fileByteOffset == 0 else Quotable(e.filename) && e.fileByteOffset % 512 == 0
  }

  predicate Describable(d: Described) {
    && Quotable(d.createType) && (d.hint.Some? ==> Quotable(d.hint.value))
    && (forall k :: 0 <= k < |d.flats| ==> Statable(d.flats[k]))
    && (forall k :: 0 <= k < |d.sparses| ==> Quotable(d.sparses[k].filename))
  }

  function HintLines(hint: Option<string>): seq<string> {
    if hint.None? then [] else ["parentFileNameHint=" + Quoted(hint.value)]
  }

  const FIRST_LINES := ["# Disk DescriptorFile", "version=1"]

  function HeadLines(d: Described): seq<string> {
    FIRST_LINES
    + ["CID=" + Numeral(d.cid, 16), "parentCID=" + Numeral(d.parentCid, 16), "createType=" + Quoted(d.createType)]
    + HintLines(d.hint)
  }

  function FlatText(e: ExtentEntry): string {
    if e.isZero then ExtentLine("RW", " ", e.sizeSectors, " ", "ZERO", "") else
    ExtentLine("RW", " ", e.sizeSectors, " ", "FLAT", " " + (Quoted(e.filename) + OffsetText(" ", Some(e.fileByteOffset / 512))))
  }

  function SparseText(e: SparseEntry): string {
    ExtentLine("RW", " ", e.sizeSectors, " ", "SPARSE", " " + (Quoted(e.filename) + ""))
  }

  function FlatTexts(l: seq<ExtentEntry>): (t: seq<string>)
    ensures |t| == |l|
  {
    seq(|l|, k requires 0 <= k < |l| => FlatText(l[k]))
  }

  function SparseTexts(l: seq<SparseEntry>): (t: seq<string>)
    ensures |t| == |l|
  {
    seq(|l|, k requires 0 <= k < |l| => SparseText(l[k]))
  }

  function LinesFor(d: Described): seq<string> {
    HeadLines(d) + (FlatTexts(d.flats) + SparseTexts(d.sparses))
  }

  /** The descriptor written out. */
  function TextOf(d: Described): string {
    Text(LinesFor(d))
  }

  /** A line that survives splitting and the cut at NUL. */
  predicate GoodLine(s: string) {
    IsLine(s) && '\0' !in s
  }

  lemma HasSpace()
    ensures Gap(" ") && Blanks(" ") && " "[0] == ' ' && IsSpace(' ')
  {
  }

  lemma FlatTextReads(e: ExtentEntry)
    requires Statable(e)
    ensures Contributes(FlatText(e)) == FlatLine(e)
  {
    hide Contributes, FlatExtent, SparseExtent, Numeral, ExtentLine, OffsetText, IsSpace, Gap, Quoted;
    HasSpace();
    var name := InQuotes(e.filename);
    if e.isZero {
      HoleLineReads("RW", " ", e.sizeSectors, " ", "ZERO", "");
      EndsTrimmed("RW", " ", e.sizeSectors, " ", "ZERO", "");
      ExtentContributes("RW", " ", e.sizeSectors, " ", "ZERO", "");
    } else {
      var k: u64 := e.fileByteOffset / 512;
      var rest := " " + (Quoted(e.filename) + OffsetText(" ", Some(k)));
      FlatLineReads("RW", " ", e.sizeSectors, " ", "FLAT", " ", name, " ", Some(k));
      OffsetEnds(" ", k);
      EndsTrimmed("RW", " ", e.sizeSectors, " ", "FLAT", rest);
      ExtentContributes("RW", " ", e.sizeSectors, " ", "FLAT", rest);
    }
  }

  lemma SparseTextReads(e: SparseEntry)
    requires Quotable(e.filename)
    ensures Contributes(SparseText(e)) == SparseLine(e)
  {
    hide Contributes, FlatExtent, SparseExtent, Numeral, ExtentLine, IsSpace, Gap, Quoted;
    HasSpace();
    QuotedEnds(e.filename);
    assert Quoted(e.filename) + "" == Quoted(e.filename);
    var rest := " " + (Quoted(e.filename) + "");
    assert !IsSpace('"') by { LetterP(); }
    SparseLineReads("RW", " ", e.sizeSectors, " ", "SPARSE", " ", InQuotes(e.filename), "");
    EndsTrimmed("RW", " ", e.sizeSectors, " ", "SPARSE", rest);
    ExtentContributes("RW", " ", e.sizeSectors, " ", "SPARSE", rest);
  }

  lemma OffsetEnds(gap: string, k: nat)
    ensures var t := gap + Numeral(k, 10); t != [] && !IsSpace(t[|t| - 1])
    ensures k <= U64_MAX ==> OffsetText(gap, Some(k)) == gap + Numeral(k, 10)
  {
    hide Numeral, IsSpace;
    NumeralPlain(k, 10);
  }

  /** An extent line starts with a letter, and ends as its kind or its rest does. */
  lemma EndsTrimmed(access: string, g1: string, size: nat, g2: string, kind: string, rest: string)
    requires Access(access) && Kind(kind) && (rest != [] ==> !IsSpace(rest[|rest| - 1]))
    ensures Trimmed(ExtentLine(access, g1, size, g2, kind, rest))
  {
    hide Numeral, IsSpace, Access, Kind;
    AccessWords(access);
    KindWords(kind);
    var tail := g2 + kind + rest;
    assert tail != [] && !IsSpace(tail[|tail| - 1]);
    var line := ExtentLine(access, g1, size, g2, kind, rest);
    assert line[|line| - 1] == tail[|tail| - 1] && line[0] == access[0];
  }

  // ── the lines of the text are the lines written ───────────────────────────

  /** Neither a line break nor a NUL nor a final carriage return comes out of these parts. */
  predicate Inner(s: string) {
    '\n' !in s && '\0' !in s
  }

  lemma NumeralInner(n: nat, radix: nat)
    requires 2 <= radix <= 16
    ensures Inner(Numeral(n, radix)) && Numeral(n, radix)[|Numeral(n, radix)| - 1] != '\r'
  {
    hide Numeral;
    NumeralPlain(n, radix);
    var t := Numeral(n, radix);
    assert t[|t| - 1] in t;
  }

  lemma ExtentLineGood(access: string, size: nat, kind: string, rest: string)
    requires access in ["RW", "RDONLY", "NOACCESS"] && kind in ["ZERO", "FLAT", "SPARSE"]
    requires Inner(rest) && (rest != [] ==> rest[|rest| - 1] != '\r')
    ensures GoodLine(ExtentLine(access, " ", size, " ", kind, rest))
  {
    hide Numeral;
    NumeralInner(size, 10);
    assert Inner("RW") && Inner("RDONLY") && Inner("NOACCESS") && Inner(" ");
    assert Inner("ZERO") && Inner("FLAT") && Inner("SPARSE");
    assert "ZERO"[3] == 'O' && "FLAT"[3] == 'T' && "SPARSE"[5] == 'E' && |"ZERO"| == |"FLAT"| == 4 && |"SPARSE"| == 6;
    var line := ExtentLine(access, " ", size, " ", kind, rest);
    assert line[|line| - 1] == if rest == [] then kind[|kind| - 1] else rest[|rest| - 1];
  }

  lemma FlatTextGood(e: ExtentEntry)
    requires Statable(e)
    ensures GoodLine(FlatText(e))
  {
    hide Numeral, GoodLine, ExtentLine, OffsetText;
    if e.isZero {
      ExtentLineGood("RW", e.sizeSectors, "ZERO", "");
    } else {
      var k: u64 := e.fileByteOffset / 512;
      var n := " " + Numeral(k, 10);
      OffsetEnds(" ", k);
      NumeralInner(k, 10);
      assert n[|n| - 1] == Numeral(k, 10)[|Numeral(k, 10)| - 1];
      ExtentLineGood("RW", e.sizeSectors, "FLAT", " " + (Quoted(e.filename) + n));
    }
  }

  lemma SparseTextGood(e: SparseEntry)
    requires Quotable(e.filename)
    ensures GoodLine(SparseText(e))
  {
    hide Numeral, GoodLine, ExtentLine;
    var rest := " " + (Quoted(e.filename) + "");
    assert rest[|rest| - 1] == '"';
    ExtentLineGood("RW", e.sizeSectors, "SPARSE", rest);
  }

  lemma KeyedGood(key: string, value: string)
    requires Inner(key) && key != [] && Inner(value) && value != [] && value[|value| - 1] != '\r'
    ensures GoodLine(key + value)
  {
  }

  lemma CommentGood()
    ensures GoodLine("# Disk DescriptorFile")
  {
  }

  lemma VersionGood()
    ensures GoodLine("version=1")
  {
  }

  lemma CidKeysInner()
    ensures Inner("CID=") && Inner("parentCID=") && Inner("createType=")
  {
  }

  lemma HintKeyInner()
    ensures Inner("parentFileNameHint=")
  {
  }

  lemma QuotedGood(s: string)
    requires Quotable(s)
    ensures Inner(Quoted(s)) && Quoted(s)[|Quoted(s)| - 1] != '\r'
  {
  }

  predicate AllGood(lines: seq<string>) {
    forall k :: 0 <= k < |lines| ==> GoodLine(lines[k])
  }

  lemma HeadGood(d: Described)
    requires Describable(d)
    ensures AllGood(HeadLines(d))
  {
    hide Numeral, GoodLine, Inner, Quoted, Statable, Quotable;
    CommentGood();
    VersionGood();
    CidKeysInner();
    HintKeyInner();
    NumeralInner(d.cid, 16);
    NumeralInner(d.parentCid, 16);
    QuotedGood(d.createType);
    KeyedGood("CID=", Numeral(d.cid, 16));
    KeyedGood("parentCID=", Numeral(d.parentCid, 16));
    QuotedEnds(d.createType);
    KeyedGood("createType=", Quoted(d.createType));
    if d.hint.Some? {
      QuotedGood(d.hint.value);
      QuotedEnds(d.hint.value);
      KeyedGood("parentFileNameHint=", Quoted(d.hint.value));
    }
  }

  lemma LinesGood(d: Described)
    requires Describable(d)
    ensures AllGood(LinesFor(d))
  {
    hide GoodLine, Statable, Quotable, HeadLines, FlatText, SparseText;
    HeadGood(d);
    forall k | 0 <= k < |d.flats|
      ensures GoodLine(FlatTexts(d.flats)[k])
    {
      FlatTextGood(d.flats[k]);
    }
    forall k | 0 <= k < |d.sparses|
      ensures GoodLine(SparseTexts(d.sparses)[k])
    {
      SparseTextGood(d.sparses[k]);
    }
  }

  lemma {:induction false} TextKeepsNul(lines: seq<string>)
    requires AllGood(lines)
    ensures '\0' !in Text(lines)
  {
    if lines != [] {
      TextKeepsNul(lines[1..]);
      assert GoodLine(lines[0]);
    }
  }

  /** A text of good lines is all there, line by line. */
  lemma TextReads(lines: seq<string>)
    requires AllGood(lines)
    ensures Clean(Text(lines)) == Text(lines) && Lines(Clean(Text(lines))) == lines
  {
    hide Lines, UpTo, Text;
    TextKeepsNul(lines);
    UpToNone(Text(lines), '\0');
    assert forall k :: 0 <= k < |lines| ==> GoodLine(lines[k]) && IsLine(lines[k]);
    LinesOfText(lines);
  }

  // ── what the lines add up to ──────────────────────────────────────────────

  lemma {:induction false} ExtentsOfAppend(a: seq<string>, b: seq<string>)
    ensures FlatExtents(a + b) == FlatExtents(a) + FlatExtents(b)
    ensures SparseExtents(a + b) == SparseExtents(a) + SparseExtents(b)
  {
    hide Contributes;
    if b == [] {
      assert a + b == a;
    } else {
      var init := b[..|b| - 1];
      assert (a + b)[..|a + b| - 1] == a + init;
      ExtentsOfAppend(a, init);
    }
  }

  lemma {:induction false} LastOfAppend(a: seq<string>, b: seq<string>)
    requires forall k :: 0 <= k < |b| ==> Contributes(b[k]).FlatLine? || Contributes(b[k]).SparseLine?
    ensures LastCreateType(a + b) == LastCreateType(a)
    ensures LastCid(a + b) == LastCid(a) && LastParentCid(a + b) == LastParentCid(a)
  {
    hide Contributes;
    if b == [] {
      assert a + b == a;
    } else {
      var init := b[..|b| - 1];
      assert (a + b)[..|a + b| - 1] == a + init;
      assert Contributes(b[|b| - 1]).FlatLine? || Contributes(b[|b| - 1]).SparseLine?;
      LastOfAppend(a, init);
    }
  }

  lemma {:induction false} FlatTextsRead(l: seq<ExtentEntry>)
    requires forall k :: 0 <= k < |l| ==> Statable(l[k])
    ensures FlatExtents(FlatTexts(l)) == l && SparseExtents(FlatTexts(l)) == []
    ensures forall k :: 0 <= k < |l| ==> Contributes(FlatTexts(l)[k]) == FlatLine(l[k])
  {
    hide Contributes, FlatText, Statable;
    if l != [] {
      var init, last := l[..|l| - 1], l[|l| - 1];
      FlatTextsRead(init);
      FlatTextReads(last);
      assert FlatTexts(l)[..|l| - 1] == FlatTexts(init);
      assert init + [last] == l;
      forall k | 0 <= k < |l|
        ensures Contributes(FlatTexts(l)[k]) == FlatLine(l[k])
      {
        FlatTextReads(l[k]);
      }
    }
  }

  lemma {:induction false} SparseTextsRead(l: seq<SparseEntry>)
    requires forall k :: 0 <= k < |l| ==> Quotable(l[k].filename)
    ensures SparseExtents(SparseTexts(l)) == l && FlatExtents(SparseTexts(l)) == []
    ensures forall k :: 0 <= k < |l| ==> Contributes(SparseTexts(l)[k]) == SparseLine(l[k])
  {
    hide Contributes, SparseText, Quotable;
    if l != [] {
      var init, last := l[..|l| - 1], l[|l| - 1];
      SparseTextsRead(init);
      SparseTextReads(last);
      assert SparseTexts(l)[..|l| - 1] == SparseTexts(init);
      assert init + [last] == l;
      forall k | 0 <= k < |l|
        ensures Contributes(SparseTexts(l)[k]) == SparseLine(l[k])
      {
        SparseTextReads(l[k]);
      }
    }
  }

  lemma FirstLinesSayNothing()
    ensures Contributes("# Disk DescriptorFile") == Contributes("version=1") == Nothing
    ensures StripPrefix(Trim("# Disk DescriptorFile"), "parentFileNameHint=") == None
    ensures StripPrefix(Trim("version=1"), "parentFileNameHint=") == None
  {
    hide Trim, TrimChar, FlatExtent, SparseExtent, HexOr, StripPrefix, TrimStart;
    FirstLetters();
    KeyLetters();
    Untrimmed("# Disk DescriptorFile");
    Untrimmed("version=1");
    NotPrefix("# Disk DescriptorFile", "parentFileNameHint=", 0);
    NotPrefix("version=1", "parentFileNameHint=", 0);
    NotPrefix("version=1", "createType=", 0);
    NotPrefix("version=1", "CID=", 0);
    NotPrefix("version=1", "parentCID=", 0);
    NamesNoExtent("version=1");
  }

  lemma FirstLetters()
    ensures Trimmed("# Disk DescriptorFile") && "# Disk DescriptorFile"[0] == '#'
    ensures Trimmed("version=1") && "version=1"[0] == 'v' && !IsSpace('v')
    ensures |"# Disk DescriptorFile"| == 21 && |"version=1"| == 9
  {
  }

  /** What the lines so far amount to. */
  predicate Amounts(lines: seq<string>, createType: string, cid: u32, parentCid: u32) {
    && FlatExtents(lines) == [] && SparseExtents(lines) == [] && LastCreateType(lines) == createType
    && LastCid(lines) == cid && LastParentCid(lines) == parentCid
  }

  lemma OneMoreLine(lines: seq<string>, k: nat, createType: string, cid: u32, parentCid: u32)
    requires k < |lines| && Amounts(lines[..k], createType, cid, parentCid)
    ensures match Contributes(lines[k])
            case Nothing => Amounts(lines[..k + 1], createType, cid, parentCid)
            case CreateType(v) => Amounts(lines[..k + 1], v, cid, parentCid)
            case Cid(id) => Amounts(lines[..k + 1], createType, id, parentCid)
            case ParentCid(id) => Amounts(lines[..k + 1], createType, cid, id)
            case _ => true
  {
    hide Contributes, FlatExtents, SparseExtents, LastCreateType, LastCid, LastParentCid;
    LineStep(lines, k);
    var c := Contributes(lines[k]);
    if !c.FlatLine? && !c.SparseLine? {
      assert [] + [] == FlatExtents(lines[..k]) && SparseExtents(lines[..k]) == [];
    }
  }

  lemma HeadReads(d: Described)
    requires Describable(d)
    ensures Amounts(HeadLines(d), d.createType, d.cid, d.parentCid)
  {
    hide Contributes, Numeral, Quoted, Amounts, Trim, StripPrefix, TrimChar;
    FirstLinesSayNothing();
    CidLine(d.cid);
    ParentCidLine(d.parentCid);
    CreateTypeLine(d.createType);
    var lines := HeadLines(d);
    NothingYet(lines);
    OneMoreLine(lines, 0, "", 0xffff_ffff, 0xffff_ffff);
    OneMoreLine(lines, 1, "", 0xffff_ffff, 0xffff_ffff);
    OneMoreLine(lines, 2, "", 0xffff_ffff, 0xffff_ffff);
    OneMoreLine(lines, 3, "", d.cid, 0xffff_ffff);
    OneMoreLine(lines, 4, "", d.cid, d.parentCid);
    if d.hint.Some? {
      HintLine(d.hint.value);
      OneMoreLine(lines, 5, d.createType, d.cid, d.parentCid);
      assert lines[..6] == lines;
    } else {
      assert lines[..5] == lines;
    }
  }

  lemma NothingYet(lines: seq<string>)
    ensures Amounts(lines[..0], "", 0xffff_ffff, 0xffff_ffff)
  {
  }

  /**
   The round trip: a descriptor written out parses to exactly what was written, with the exact
   sector sums, whenever those fit 64 bits.
   */
  lemma DescriptorRoundTrip(d: Described)
    requires Describable(d)
    ensures DescriptorOf(TextOf(d)) ==
            if FlatSectors(d.flats) > U64_MAX || SparseSectors(d.sparses) > U64_MAX then Err(GeometryOverflow) else
            Ok(TextDescriptor(d.createType, d.cid, d.parentCid, TextOf(d), d.flats, d.sparses,
                              FlatSectors(d.flats), SparseSectors(d.sparses)))
  {
    hide Contributes, HeadLines, FlatExtents, SparseExtents, LastCreateType, LastCid, LastParentCid, FlatSectors, SparseSectors;
    hide FlatTexts, SparseTexts, Text, Lines, Clean, AllGood, Statable, Quotable;
    LinesGood(d);
    TextReads(LinesFor(d));
    HeadReads(d);
    FlatTextsRead(d.flats);
    SparseTextsRead(d.sparses);
    var flats, sparses := FlatTexts(d.flats), SparseTexts(d.sparses);
    ExtentsOfAppend(flats, sparses);
    ExtentsOfAppend(HeadLines(d), flats + sparses);
    ExtentsOnly(flats + sparses, d);
    LastOfAppend(HeadLines(d), flats + sparses);
    assert d.flats + [] == d.flats && [] + d.sparses == d.sparses && [] + d.flats == d.flats;
  }

  lemma ExtentsOnly(lines: seq<string>, d: Described)
    requires lines == FlatTexts(d.flats) + SparseTexts(d.sparses)
    requires forall k :: 0 <= k < |d.flats| ==> Contributes(FlatTexts(d.flats)[k]) == FlatLine(d.flats[k])
    requires forall k :: 0 <= k < |d.sparses| ==> Contributes(SparseTexts(d.sparses)[k]) == SparseLine(d.sparses[k])
    ensures forall k :: 0 <= k < |lines| ==> Contributes(lines[k]).FlatLine? || Contributes(lines[k]).SparseLine?
  {
    hide Contributes, FlatTexts, SparseTexts;
    var n := |d.flats|;
    forall k | 0 <= k < |lines|
      ensures Contributes(lines[k]).FlatLine? || Contributes(lines[k]).SparseLine?
    {
      assert lines[k] == if k < n then FlatTexts(d.flats)[k] else SparseTexts(d.sparses)[k - n];
    }
  }

  // ── the parent hint ───────────────────────────────────────────────────────

  predicate IsHint(line: string) {
    StripPrefix(Trim(line), "parentFileNameHint=").Some?
  }

  /** The hint is what stands between the quotes of the first hint line, whatever surrounds it. */
  lemma {:induction false} HintReads(lines: seq<string>, k: nat, name: string)
    requires k < |lines| && lines[k] == "parentFileNameHint=" + Quoted(name) && '"' !in name
    requires forall j :: 0 <= j < k ==> !IsHint(lines[j])
    ensures HintIn(lines) == name
  {
    hide StripPrefix, Trim, TrimChar;
    if k == 0 {
      HintLine(name);
    } else {
      assert !IsHint(lines[0]);
      forall j | 0 <= j < k - 1
        ensures !IsHint(lines[1..][j])
      {
        assert !IsHint(lines[j + 1]);
      }
      HintReads(lines[1..], k - 1, name);
    }
  }

  lemma {:induction false} NoHintReads(lines: seq<string>)
    requires forall j :: 0 <= j < |lines| ==> !IsHint(lines[j])
    ensures HintIn(lines) == ""
  {
    hide StripPrefix, Trim, TrimChar;
    if lines != [] {
      assert !IsHint(lines[0]);
      forall j | 0 <= j < |lines| - 1
        ensures !IsHint(lines[1..][j])
      {
        assert !IsHint(lines[j + 1]);
      }
      NoHintReads(lines[1..]);
    }
  }

  lemma HeadHints(d: Described)
    requires Describable(d)
    ensures forall k :: 0 <= k < |HeadLines(d)| && k != 5 ==> !IsHint(HeadLines(d)[k])
  {
    hide Numeral, Quoted, Trim, StripPrefix, TrimChar, Contributes, IsSpace;
    FirstLinesSayNothing();
    ParentCidLine(d.parentCid);
    KeyLetters();
    NumeralPlain(d.cid, 16);
    QuotedEnds(d.createType);
    KeyedTrimmed("CID=", Numeral(d.cid, 16));
    KeyedTrimmed("createType=", Quoted(d.createType));
    NotPrefix("CID=" + Numeral(d.cid, 16), "parentFileNameHint=", 0);
    NotPrefix("createType=" + Quoted(d.createType), "parentFileNameHint=", 0);
  }

  lemma ExtentNoHint(kind: string, size: nat, rest: string)
    requires Kind(kind) && (rest != [] ==> !IsSpace(rest[|rest| - 1]))
    ensures !IsHint(ExtentLine("RW", " ", size, " ", kind, rest))
  {
    hide Numeral, Trim, StripPrefix, Kind, IsSpace, TrimStart;
    KeyLetters();
    var line := ExtentLine("RW", " ", size, " ", kind, rest);
    EndsTrimmed("RW", " ", size, " ", kind, rest);
    Untrimmed(line);
    assert line[0] == 'R';
    NotPrefix(line, "parentFileNameHint=", 0);
  }

  lemma ExtentsNoHint(d: Described)
    requires Describable(d)
    ensures forall k :: 0 <= k < |d.flats| ==> !IsHint(FlatTexts(d.flats)[k])
    ensures forall k :: 0 <= k < |d.sparses| ==> !IsHint(SparseTexts(d.sparses)[k])
  {
    hide Numeral, ExtentLine, OffsetText, IsSpace, Quoted, IsHint, Statable, Quotable;
    forall k | 0 <= k < |d.flats|
      ensures !IsHint(FlatTexts(d.flats)[k])
    {
      var e := d.flats[k];
      OffsetEnds(" ", e.fileByteOffset / 512);
      ExtentNoHint("ZERO", e.sizeSectors, "");
      ExtentNoHint("FLAT", e.sizeSectors, " " + (Quoted(e.filename) + OffsetText(" ", Some(e.fileByteOffset / 512))));
    }
    forall k | 0 <= k < |d.sparses|
      ensures !IsHint(SparseTexts(d.sparses)[k])
    {
      QuotedEnds(d.sparses[k].filename);
      LetterP();
      var rest := " " + (Quoted(d.sparses[k].filename) + "");
      assert rest[|rest| - 1] == '"';
      ExtentNoHint("SPARSE", d.sparses[k].sizeSectors, rest);
    }
  }

  lemma HintPlace(d: Described)
    ensures |HeadLines(d)| == if d.hint.Some? then 6 else 5
    ensures d.hint.Some? ==> HeadLines(d)[5] == "parentFileNameHint=" + Quoted(d.hint.value)
  {
  }

  /** The parent a chain looks for is the name written between the quotes; without a hint line there is none. */
  lemma HintRoundTrip(d: Described, m: Meta)
    requires Describable(d) && m.descriptorText == TextOf(d)
    ensures ParentHint(m) == if d.hint.Some? then d.hint.value else ""
  {
    hide HeadLines, FlatTexts, SparseTexts, Text, Lines, Clean, AllGood, Statable, IsHint, HintIn;
    LinesGood(d);
    TextReads(LinesFor(d));
    HeadHints(d);
    ExtentsNoHint(d);
    HintPlace(d);
    var lines, h, n := LinesFor(d), |HeadLines(d)|, |d.flats|;
    forall k | 0 <= k < |lines| && (k != 5 || d.hint.None?)
      ensures !IsHint(lines[k])
    {
      assert lines[k] ==
        if k < h then HeadLines(d)[k] else if k < h + n then FlatTexts(d.flats)[k - h] else SparseTexts(d.sparses)[k - h - n];
    }
    if d.hint.Some? {
      HintReads(lines, 5, d.hint.value);
    } else {
      NoHintReads(lines);
    }
  }

  // ── file names ────────────────────────────────────────────────────────────

  /** A component of a path: not empty, not `.` or `..`, without a slash. */
  predicate Component(s: string) {
    s != "" && s != "." && s != ".." && '/' !in s
  }

  function Slashed(parts: seq<string>): string
    requires parts != []
  {
    if |parts| == 1 then parts[0] else parts[0] + "/" + Slashed(parts[1..])
  }

  lemma FirstComponent(a: string, rest: string)
    requires '/' !in a
    ensures SplitSlash(a + "/" + rest) == [a] + SplitSlash(rest)
  {
    hide UpTo;
    var s := a + "/" + rest;
    assert s == a + ("/" + rest);
    UpToFirst(a, "/" + rest, '/');
    assert s[..|a|] == a && s[|a| + 1..] == rest;
  }

  lemma {:induction false} SplitSlashed(parts: seq<string>)
    requires parts != [] && forall k :: 0 <= k < |parts| ==> '/' !in parts[k]
    ensures SplitSlash(Slashed(parts)) == parts
  {
    hide SplitSlash;
    if |parts| == 1 {
      OneComponent(parts[0]);
      assert parts == [parts[0]];
    } else {
      SplitSlashed(parts[1..]);
      FirstComponent(parts[0], Slashed(parts[1..]));
      assert parts == [parts[0]] + parts[1..];
    }
  }

  lemma OneComponent(s: string)
    requires '/' !in s
    ensures SplitSlash(s) == [s]
  {
    UpToNone(s, '/');
  }

  lemma {:induction false} NormalComponents(parts: seq<string>)
    requires forall k :: 0 <= k < |parts| ==> Component(parts[k])
    ensures NormalParts(parts) == parts && ".." !in parts
  {
    if parts != [] {
      assert Component(parts[0]);
      NormalComponents(parts[1..]);
      assert parts == [parts[0]] + parts[1..];
    }
  }

  /** A relative name resolves to its components below the base. */
  lemma ResolvesBelow(base: Path, parts: seq<string>)
    requires parts != [] && forall k :: 0 <= k < |parts| ==> Component(parts[k])
    ensures ResolvePath(base, Slashed(parts)) == Ok(base + parts)
  {
    hide NormalParts, SplitSlash;
    assert Component(parts[0]);
    assert Slashed(parts)[0] == parts[0][0];
    assert parts[0][0] in parts[0];
    SplitSlashed(parts);
    NormalComponents(parts);
  }

  lemma {:induction false} DotsDropped(a: seq<string>, dot: string, b: seq<string>)
    requires dot == "" || dot == "."
    ensures NormalParts(a + [dot] + b) == NormalParts(a + b)
  {
    if a == [] {
      assert (a + [dot] + b)[1..] == b && a + b == b;
    } else {
      assert (a + [dot] + b)[1..] == a[1..] + [dot] + b && (a + b)[1..] == a[1..] + b;
      DotsDropped(a[1..], dot, b);
    }
  }

  lemma WithDot(a: seq<string>, dot: string, b: seq<string>)
    requires (dot == "" || dot == ".") && forall k :: 0 <= k < |a + b| ==> '/' !in (a + b)[k]
    ensures forall k :: 0 <= k < |a + [dot] + b| ==> '/' !in (a + [dot] + b)[k]
    ensures ".." in a + [dot] + b <==> ".." in a + b
  {
    assert '/' !in dot && dot != "..";
    forall k | 0 <= k < |a + [dot] + b|
      ensures '/' !in (a + [dot] + b)[k]
    {
      assert (a + [dot] + b)[k] == if k < |a| then (a + b)[k] else if k == |a| then dot else (a + b)[k - 1];
    }
  }

  lemma ResolveIs(base: Path, parts: seq<string>)
    requires parts != [] && parts[0] != "" && forall k :: 0 <= k < |parts| ==> '/' !in parts[k]
    ensures ResolvePath(base, Slashed(parts)) == if ".." in parts then Err(PermissionDenied) else Ok(base + NormalParts(parts))
  {
    hide NormalParts, SplitSlash;
    SplitSlashed(parts);
    NotAbsolute(parts);
  }

  /** Empty and `.` components after the first do not matter. */
  lemma DotsVanish(base: Path, a: seq<string>, dot: string, b: seq<string>)
    requires dot == "" || dot == "."
    requires a != [] && a[0] != "" && forall k :: 0 <= k < |a + b| ==> '/' !in (a + b)[k]
    ensures ResolvePath(base, Slashed(a + [dot] + b)) == ResolvePath(base, Slashed(a + b))
  {
    hide NormalParts, ResolvePath, Slashed;
    WithDot(a, dot, b);
    ResolveIs(base, a + [dot] + b);
    ResolveIs(base, a + b);
    DotsDropped(a, dot, b);
  }

  lemma NotAbsolute(parts: seq<string>)
    requires parts != [] && parts[0] != "" && '/' !in parts[0]
    ensures Slashed(parts) != [] && Slashed(parts)[0] == parts[0][0] != '/'
  {
    assert parts[0][0] in parts[0];
  }

  /** A name with a parent component, or an absolute one, is refused. */
  lemma RefusesEscape(base: Path, parts: seq<string>)
    requires parts != [] && forall k :: 0 <= k < |parts| ==> '/' !in parts[k]
    requires ".." in parts || (|parts| > 1 && parts[0] == "")
    ensures ResolvePath(base, Slashed(parts)) == Err(PermissionDenied)
  {
    hide NormalParts, SplitSlash;
    SplitSlashed(parts);
  }

  /** The parent of a layer is found beside it: the written name, below the directory the layer is in. */
  lemma ParentIsBeside(d: Described, m: Meta, dir: Path, name: string, parts: seq<string>)
    requires Describable(d) && m.descriptorText == TextOf(d) && m.parentCid == d.parentCid
    requires parts != [] && forall k :: 0 <= k < |parts| ==> Component(parts[k])
    requires d.hint == Some(Slashed(parts))
    ensures ParentPath(dir + [name], m) == Ok(dir + parts)
    ensures Terminal(m) <==> d.parentCid == 0xffff_ffff
  {
    hide TextOf, ResolvePath, ParentHint, Describable, Slashed;
    HintRoundTrip(d, m);
    ResolvesBelow(dir, parts);
    assert (dir + [name])[..|dir|] == dir;
    SlashedSome(parts);
  }

  lemma SlashedSome(parts: seq<string>)
    requires parts != [] && Component(parts[0])
    ensures Slashed(parts) != ""
  {
  }

  /** Whatever follows a NUL is not part of the descriptor. */
  lemma NulEndsText(d: Described, rest: string)
    requires Describable(d)
    ensures DescriptorOf(TextOf(d) + "\0" + rest) == DescriptorOf(TextOf(d))
  {
    hide Lines, FlatExtents, SparseExtents, LastCid, LastParentCid, LastCreateType, FlatSectors, SparseSectors, Text, UpTo, LinesFor;
    LinesGood(d);
    TextReads(LinesFor(d));
    TextKeepsNul(LinesFor(d));
    var t := TextOf(d);
    UpToFirst(t, "\0" + rest, '\0');
    assert t + "\0" + rest == t + ("\0" + rest);
    assert (t + ("\0" + rest))[..|t|] == t;
    assert Clean(t + "\0" + rest) == Clean(t);
  }

  // ── the flat disk a descriptor describes ──────────────────────────────────

  /** The extent's file is there and holds all the extent claims of it. */
  predicate Backed(base: Path, dir: Directory, e: ExtentEntry) {
    e.isZero ||
    (Component(e.filename) && base + [e.filename] in dir &&
     e.fileByteOffset + 512 * e.sizeSectors <= |dir[base + [e.filename]]|)
  }

  /** The bytes an extent stands for: zeros, or those of its file from its offset on. */
  function ExtentBytes(base: Path, dir: Directory, e: ExtentEntry): (b: seq<byte>)
    requires Backed(base, dir, e)
    ensures |b| == 512 * e.sizeSectors
  {
    if e.isZero then Zeros(512 * e.sizeSectors)
    else dir[base + [e.filename]][e.fileByteOffset..e.fileByteOffset + 512 * e.sizeSectors]
  }

  lemma SpanReads(base: Path, dir: Directory, e: ExtentEntry)
    requires Backed(base, dir, e)
    ensures SpanFor(base, dir, e).Ok? && SpanFor(base, dir, e).value.InBounds()
    ensures SpanFor(base, dir, e).value.Bytes() == ExtentBytes(base, dir, e)
  {
    hide ResolvePath;
    if !e.isZero {
      ResolvesBelow(base, [e.filename]);
      assert Slashed([e.filename]) == e.filename;
      var f := dir[base + [e.filename]];
      assert e.sizeSectors == 0 ==> Window(f, e.fileByteOffset, 0) == [];
    }
  }

  /** An extent whose file is missing is the error of opening the disk. */
  lemma SpanMissing(base: Path, dir: Directory, e: ExtentEntry)
    requires !e.isZero && Component(e.filename) && base + [e.filename] !in dir
    ensures SpanFor(base, dir, e) == Err(NotFound)
  {
    hide ResolvePath;
    ResolvesBelow(base, [e.filename]);
    assert Slashed([e.filename]) == e.filename;
  }

  function ExtentPieces(base: Path, dir: Directory, l: seq<ExtentEntry>): (p: seq<seq<byte>>)
    requires forall k :: 0 <= k < |l| ==> Backed(base, dir, l[k])
    ensures |p| == |l|
  {
    seq(|l|, k requires 0 <= k < |l| => ExtentBytes(base, dir, l[k]))
  }

  /**
   The disk of a flat descriptor: written out, parsed and opened over a directory that holds its
   files, it is the stated bytes of those files and the stated holes, end to end.
   */
  lemma DescribedDisk(d: Described, base: Path, dir: Directory)
    requires Describable(d) && FlatSectors(d.flats) <= U64_MAX && SparseSectors(d.sparses) <= U64_MAX
    requires forall k :: 0 <= k < |d.flats| ==> Backed(base, dir, d.flats[k])
    ensures DescriptorOf(TextOf(d)).Ok?
    ensures var spans := SpansOf(base, dir, DescriptorOf(TextOf(d)).value.extents);
            && spans.Ok? && AllInBounds(spans.value)
            && Concat(spans.value) == Joined(ExtentPieces(base, dir, d.flats))
  {
    hide TextOf, DescriptorOf, Collect, SpanFor, Backed, ExtentBytes, Joined, Describable, FlatSectors, SparseSectors;
    DescriptorRoundTrip(d);
    var l := d.flats;
    var spans := seq(|l|, k requires 0 <= k < |l| => SpanOk(base, dir, l[k]));
    forall k | 0 <= k < |l|
      ensures SpanFor(base, dir, l[k]) == Ok(spans[k]) && spans[k].InBounds() && spans[k].Bytes() == ExtentBytes(base, dir, l[k])
    {
      SpanReads(base, dir, l[k]);
    }
    CollectAll(Outcomes(base, dir, l), spans);
    assert Pieces(spans) == ExtentPieces(base, dir, l);
  }

  function SpanOk(base: Path, dir: Directory, e: ExtentEntry): Span
    requires Backed(base, dir, e)
  {
    SpanReads(base, dir, e);
    SpanFor(base, dir, e).value
  }
}
