/** The aggregated analysis (forensic/src/lib.rs, `analyse`) and what a quiet image guarantees. */
module Analyses {
  import opened Wrappers
  import opened Bytes
  import opened Headers
  import opened Images
  import opened Opening
  import opened Recovery
  import opened Forensics
  import opened Audits

  datatype Severity = Low | Medium | High

  datatype AnomalyKind =
    | UncleanShutdown
    | FtpAsciiMangled
    | RedundantGdMismatch
    | PrimaryGdRecoverableViaRgd(damaged: nat, total: nat, recoverable: nat)
    | PrimaryGdUnrecoverable(unrecoverable: nat)
    | DanglingGrainTable(tables: nat)
    | DanglingGrain(grains: nat)
  {
    function SeverityOf(): Severity {
      match this
      case UncleanShutdown => Low
      case PrimaryGdRecoverableViaRgd(_, _, _) => Medium
      case _ => High
    }
  }

  /** The two header checks that can raise a finding. */
  datatype Provenance = Provenance(uncleanShutdown: bool, newlineIntact: bool)

  /** `header_provenance`: nothing unless the file carries the VMDK4 magic. */
  function ProvenanceOf(file: File): Option<Provenance> {
    if |file| < SECTOR then None else
    if LeU32(file, 0) != MAGIC then None else
    Some(Provenance(file[72] != 0, file[73..77] == [0x0A, 0x20, 0x0D, 0x0A]))
  }

  function Add(l: seq<AnomalyKind>, c: bool, k: AnomalyKind): seq<AnomalyKind> {
    if c then l + [k] else l
  }

  function HeaderKinds(p: Option<Provenance>): seq<AnomalyKind> {
    if p.None? then [] else
    Add(Add([], p.value.uncleanShutdown, UncleanShutdown), !p.value.newlineIntact, FtpAsciiMangled)
  }

  function RecoveryKinds(before: seq<AnomalyKind>, t: GdRecoveryReport, validated: bool): seq<AnomalyKind> {
    var mismatch := Add(before, t.hasRgd && !validated, RedundantGdMismatch);
    var recoverable := Add(mismatch, t.recoverableViaRgd > 0,
                           PrimaryGdRecoverableViaRgd(t.primaryDamaged, t.totalEntries, t.recoverableViaRgd));
    Add(recoverable, t.unrecoverable > 0, PrimaryGdUnrecoverable(t.unrecoverable))
  }

  function IntegrityKinds(before: seq<AnomalyKind>, r: IntegrityReport): seq<AnomalyKind> {
    var tables := Add(before, r.outOfBoundsTables > 0, DanglingGrainTable(r.outOfBoundsTables));
    Add(tables, r.outOfBoundsGrains > 0, DanglingGrain(r.outOfBoundsGrains))
  }

  /** The findings in the order the analyses run. */
  ghost function KindsOf(file: File): seq<AnomalyKind> {
    IntegrityKinds(RecoveryKinds(HeaderKinds(ProvenanceOf(file)), TriageOf(file), ValidatesRgd(file)), ReportOf(file))
  }

  function OfSeverity(l: seq<AnomalyKind>, s: Severity): seq<AnomalyKind> {
    if l == [] then [] else Add(OfSeverity(l[..|l| - 1], s), l[|l| - 1].SeverityOf() == s, l[|l| - 1])
  }

  /** A stable sort, most severe first. */
  function BySeverity(l: seq<AnomalyKind>): seq<AnomalyKind> {
    OfSeverity(l, High) + OfSeverity(l, Medium) + OfSeverity(l, Low)
  }

  function One(k: AnomalyKind, s: Severity): multiset<AnomalyKind> {
    if k.SeverityOf() == s then multiset{k} else multiset{}
  }

  lemma OfSeverityStep(l: seq<AnomalyKind>, s: Severity)
    requires l != []
    ensures multiset(OfSeverity(l, s)) == multiset(OfSeverity(l[..|l| - 1], s)) + One(l[|l| - 1], s)
  {
  }

  lemma OneEach(k: AnomalyKind)
    ensures One(k, High) + One(k, Medium) + One(k, Low) == multiset{k}
  {
  }

  lemma {:induction false} OfSeverityCounts(l: seq<AnomalyKind>)
    ensures multiset(OfSeverity(l, High)) + multiset(OfSeverity(l, Medium)) + multiset(OfSeverity(l, Low)) == multiset(l)
  {
    hide OfSeverity, One;
    if l == [] {
      NoneOfSeverity();
    } else {
      var init, last := l[..|l| - 1], l[|l| - 1];
      OfSeverityCounts(init);
      OfSeverityStep(l, High);
      OfSeverityStep(l, Medium);
      OfSeverityStep(l, Low);
      OneEach(last);
      assert multiset(l) == multiset(init) + multiset{last} by { assert l == init + [last]; }
    }
  }

  lemma NoneOfSeverity()
    ensures OfSeverity([], High) == OfSeverity([], Medium) == OfSeverity([], Low) == []
  {
  }

  /** Sorting loses and invents nothing. */
  lemma SortKeepsFindings(l: seq<AnomalyKind>)
    ensures multiset(BySeverity(l)) == multiset(l)
  {
    hide OfSeverity;
    OfSeverityCounts(l);
  }

  function Rank(k: AnomalyKind): nat {
    match k.SeverityOf()
    case High => 2
    case Medium => 1
    case Low => 0
  }

  lemma {:induction false} OfSeverityIs(l: seq<AnomalyKind>, s: Severity)
    ensures forall k :: k in OfSeverity(l, s) ==> k.SeverityOf() == s
  {
    if l != [] {
      OfSeverityIs(l[..|l| - 1], s);
    }
  }

  /** Sorting puts the most severe findings first. */
  lemma SortOrders(l: seq<AnomalyKind>)
    ensures forall i, j :: 0 <= i < j < |BySeverity(l)| ==> Rank(BySeverity(l)[i]) >= Rank(BySeverity(l)[j])
  {
    hide OfSeverity;
    OfSeverityIs(l, High);
    OfSeverityIs(l, Medium);
    OfSeverityIs(l, Low);
    var h, m, w := OfSeverity(l, High), OfSeverity(l, Medium), OfSeverity(l, Low);
    forall i | 0 <= i < |BySeverity(l)|
      ensures Rank(BySeverity(l)[i]) == if i < |h| then 2 else if i < |h| + |m| then 1 else 0
    {
      var k := BySeverity(l)[i];
      assert if i < |h| then k in h else if i < |h| + |m| then k in m else k in w;
    }
  }

  // ── the findings, one by one ──────────────────────────────────────────────

  function When(c: bool, k: AnomalyKind): seq<AnomalyKind> {
    if c then [k] else []
  }

  /** The file starts with the four magic bytes and a whole header. */
  predicate HasHeader(file: File) {
    |file| >= 512 && file[..4] == [0x4b, 0x44, 0x4d, 0x56]
  }

  /** The report of a file: each finding exactly on its own condition, the most severe first. */
  ghost function Findings(file: File): seq<AnomalyKind> {
    var t, r := TriageOf(file), ReportOf(file);
    When(HasHeader(file) && file[73..77] != [0x0A, 0x20, 0x0D, 0x0A], FtpAsciiMangled)
    + When(t.hasRgd && !ValidatesRgd(file), RedundantGdMismatch)
    + When(t.unrecoverable > 0, PrimaryGdUnrecoverable(t.unrecoverable))
    + When(r.outOfBoundsTables > 0, DanglingGrainTable(r.outOfBoundsTables))
    + When(r.outOfBoundsGrains > 0, DanglingGrain(r.outOfBoundsGrains))
    + When(t.recoverableViaRgd > 0, PrimaryGdRecoverableViaRgd(t.primaryDamaged, t.totalEntries, t.recoverableViaRgd))
    + When(HasHeader(file) && file[72] != 0, UncleanShutdown)
  }

  /** A finding of severity `s` is kept, after whatever was kept before. */
  lemma AddKept(l: seq<AnomalyKind>, c: bool, k: AnomalyKind, s: Severity)
    requires k.SeverityOf() == s
    ensures OfSeverity(Add(l, c, k), s) == OfSeverity(l, s) + When(c, k)
    ensures OfSeverity(l, s) == [] ==> OfSeverity(Add(l, c, k), s) == When(c, k)
  {
    if c {
      assert (l + [k])[..|l|] == l;
    }
  }

  lemma AddPassed(l: seq<AnomalyKind>, c: bool, k: AnomalyKind, s: Severity)
    requires k.SeverityOf() != s
    ensures OfSeverity(Add(l, c, k), s) == OfSeverity(l, s)
  {
    if c {
      assert (l + [k])[..|l|] == l;
    }
  }

  lemma MagicBytes(file: File)
    requires |file| >= 512
    ensures LeU32(file, 0) == MAGIC <==> file[..4] == [0x4b, 0x44, 0x4d, 0x56]
  {
    var b := file[..4];
    assert b == [file[0], file[1], file[2], file[3]];
    if LeU32(file, 0) == MAGIC {
      var q: int := file[3];
      assert q == MAGIC / 0x100_0000;
    }
  }

  lemma HeaderKindsAre(file: File)
    ensures HeaderKinds(ProvenanceOf(file)) ==
            Add(Add([], HasHeader(file) && file[72] != 0, UncleanShutdown),
                HasHeader(file) && file[73..77] != [0x0A, 0x20, 0x0D, 0x0A], FtpAsciiMangled)
  {
    if |file| >= 512 {
      MagicBytes(file);
    }
  }

  /** What the analyses push, by the condition and the finding of each. */
  function Pushed(c: seq<bool>, k: seq<AnomalyKind>): seq<AnomalyKind>
    requires |c| == |k| == 7
  {
    Add(Add(Add(Add(Add(Add(Add([], c[0], k[0]), c[1], k[1]), c[2], k[2]), c[3], k[3]), c[4], k[4]), c[5], k[5]), c[6], k[6])
  }

  /** One low finding first, one medium in fourth place, the rest high. */
  predicate Ranked(k: seq<AnomalyKind>) {
    && |k| == 7 && k[0].SeverityOf() == Low && k[3].SeverityOf() == Medium
    && forall i :: 0 <= i < 7 && i != 0 && i != 3 ==> k[i].SeverityOf() == High
  }

  lemma OneKept(c: seq<bool>, k: seq<AnomalyKind>)
    requires |c| == 7 && Ranked(k)
    ensures OfSeverity(Pushed(c, k), Low) == When(c[0], k[0])
    ensures OfSeverity(Pushed(c, k), Medium) == When(c[3], k[3])
  {
    hide OfSeverity, When, Add, AnomalyKind.SeverityOf;
    NoneOfSeverity();
    forall s | s != High
      ensures OfSeverity(Pushed(c, k), s) == When(if s == Low then c[0] else c[3], if s == Low then k[0] else k[3])
    {
      var a1 := Add([], c[0], k[0]);
      var a2 := Add(a1, c[1], k[1]);
      var a3 := Add(a2, c[2], k[2]);
      var a4 := Add(a3, c[3], k[3]);
      var a5 := Add(a4, c[4], k[4]);
      AddPassed(a1, c[1], k[1], s);
      AddPassed(a2, c[2], k[2], s);
      AddPassed(a4, c[4], k[4], s);
      AddPassed(a5, c[5], k[5], s);
      AddPassed(Add(a5, c[5], k[5]), c[6], k[6], s);
      if s == Low {
        AddKept([], c[0], k[0], s);
        AddPassed(a3, c[3], k[3], s);
      } else {
        AddPassed([], c[0], k[0], s);
        AddKept(a3, c[3], k[3], s);
      }
    }
  }

  lemma HighKept(c: seq<bool>, k: seq<AnomalyKind>)
    requires |c| == 7 && Ranked(k)
    ensures OfSeverity(Pushed(c, k), High) ==
            When(c[1], k[1]) + When(c[2], k[2]) + When(c[4], k[4]) + When(c[5], k[5]) + When(c[6], k[6])
  {
    hide OfSeverity, When, Add, AnomalyKind.SeverityOf;
    NoneOfSeverity();
    var a1 := Add([], c[0], k[0]);
    var a2 := Add(a1, c[1], k[1]);
    var a3 := Add(a2, c[2], k[2]);
    var a4 := Add(a3, c[3], k[3]);
    var a5 := Add(a4, c[4], k[4]);
    AddPassed([], c[0], k[0], High);
    AddKept(a1, c[1], k[1], High);
    AddKept(a2, c[2], k[2], High);
    AddPassed(a3, c[3], k[3], High);
    AddKept(a4, c[4], k[4], High);
    AddKept(a5, c[5], k[5], High);
    AddKept(Add(a5, c[5], k[5]), c[6], k[6], High);
  }

  /** The sorted findings are the report. */
  lemma FindingsAre(file: File)
    ensures BySeverity(KindsOf(file)) == Findings(file)
  {
    hide TriageOf, ReportOf, ValidatesRgd, OfSeverity, ProvenanceOf, HeaderKinds, Add, When;
    var t, r := TriageOf(file), ReportOf(file);
    HeaderKindsAre(file);
    var unclean := HasHeader(file) && file[72] != 0;
    var mangled := HasHeader(file) && file[73..77] != [0x0A, 0x20, 0x0D, 0x0A];
    var c := [unclean, mangled, t.hasRgd && !ValidatesRgd(file), t.recoverableViaRgd > 0,
              t.unrecoverable > 0, r.outOfBoundsTables > 0, r.outOfBoundsGrains > 0];
    var k := [UncleanShutdown, FtpAsciiMangled, RedundantGdMismatch,
              PrimaryGdRecoverableViaRgd(t.primaryDamaged, t.totalEntries, t.recoverableViaRgd), PrimaryGdUnrecoverable(t.unrecoverable),
              DanglingGrainTable(r.outOfBoundsTables), DanglingGrain(r.outOfBoundsGrains)];
    assert KindsOf(file) == Pushed(c, k);
    HighKept(c, k);
    OneKept(c, k);
  }

  /** `analyse`: run every analysis, push its findings, sort. */
  method Analyse(a: VmdkIntegrity) returns (findings: seq<AnomalyKind>)
    modifies a.inner
    ensures findings == Findings(a.inner.data) == BySeverity(KindsOf(a.inner.data))
    ensures multiset(findings) == multiset(KindsOf(a.inner.data))
    ensures forall i, j :: 0 <= i < j < |findings| ==> Rank(findings[i]) >= Rank(findings[j])
  {
    hide TriageOf, ReportOf, ValidatesRgd, ProvenanceOf, BySeverity, HeaderKinds, RecoveryKinds, IntegrityKinds, Findings;
    var kinds := PushHeader(a);
    kinds := PushRecovery(a, kinds);
    kinds := PushIntegrity(a, kinds);
    SortKeepsFindings(kinds);
    SortOrders(kinds);
    FindingsAre(a.inner.data);
    return BySeverity(kinds);
  }

  method PushHeader(a: VmdkIntegrity) returns (kinds: seq<AnomalyKind>)
    modifies a.inner
    ensures kinds == HeaderKinds(ProvenanceOf(a.inner.data))
  {
    hide ProvenanceOf;
    kinds := [];
    var p := Header(a);
    if p.Some? {
      if p.value.uncleanShutdown {
        kinds := kinds + [UncleanShutdown];
      }
      if !p.value.newlineIntact {
        kinds := kinds + [FtpAsciiMangled];
      }
    }
  }

  method PushRecovery(a: VmdkIntegrity, before: seq<AnomalyKind>) returns (kinds: seq<AnomalyKind>)
    modifies a.inner
    ensures kinds == RecoveryKinds(before, TriageOf(a.inner.data), ValidatesRgd(a.inner.data))
  {
    hide TriageOf, ValidatesRgd;
    kinds := before;
    var recovery := a.GrainDirectoryRecovery();
    if recovery.hasRgd {
      var valid := a.ValidateRgd();
      if !valid {
        kinds := kinds + [RedundantGdMismatch];
      }
    }
    if recovery.recoverableViaRgd > 0 {
      kinds := kinds + [PrimaryGdRecoverableViaRgd(recovery.primaryDamaged, recovery.totalEntries, recovery.recoverableViaRgd)];
    }
    if recovery.unrecoverable > 0 {
      kinds := kinds + [PrimaryGdUnrecoverable(recovery.unrecoverable)];
    }
  }

  method PushIntegrity(a: VmdkIntegrity, before: seq<AnomalyKind>) returns (kinds: seq<AnomalyKind>)
    modifies a.inner
    ensures kinds == IntegrityKinds(before, ReportOf(a.inner.data))
  {
    hide ReportOf;
    kinds := before;
    var integrity := a.CheckIntegrity();
    if integrity.outOfBoundsTables > 0 {
      kinds := kinds + [DanglingGrainTable(integrity.outOfBoundsTables)];
    }
    if integrity.outOfBoundsGrains > 0 {
      kinds := kinds + [DanglingGrain(integrity.outOfBoundsGrains)];
    }
  }

  /** `header_provenance`. */
  method Header(a: VmdkIntegrity) returns (p: Option<Provenance>)
    modifies a.inner
    ensures p == ProvenanceOf(a.inner.data)
  {
    var fileLen := a.inner.SeekEnd();
    if fileLen < SECTOR {
      return None;
    }
    var hdr := a.inner.ReadExactAt(0, 512);
    assert hdr.value == a.inner.data[..512];
    LeU32Slice(a.inner.data, 0, 512, 0);
    if LeU32(hdr.value, 0) != MAGIC {
      return None;
    }
    assert hdr.value[73..77] == a.inner.data[73..77];
    return Some(Provenance(hdr.value[72] != 0, hdr.value[73..77] == [0x0A, 0x20, 0x0D, 0x0A]));
  }

  /** No findings means every one of the seven conditions is absent. */
  lemma QuietMeans(file: File)
    requires KindsOf(file) == []
    ensures ReportOf(file).IsOk()
    ensures TriageOf(file).hasRgd ==> ValidatesRgd(file)
    ensures TriageOf(file).primaryDamaged == 0
  {
    hide TriageOf, ReportOf, ValidatesRgd, ProvenanceOf;
    TriageTotals(file);
  }

  lemma NoRgdSlot(img: Image, i: nat, j: nat)
    requires img.IsSparse() && j < img.fmt.ngte && !HasRgd(img)
    ensures SlotEntry(img, true, i, j) == SlotEntry(img, false, i, j)
  {
    hide TableEntry;
  }

  /** Without a redundant directory fallback changes nothing. */
  lemma NoRgdSlice(img: Image, off: nat)
    requires img.Valid() && img.IsSparse() && !HasRgd(img)
    ensures Slice(img, true, off) == Slice(img, false, off)
  {
    hide SlotEntry, Locate, Fetch, Image.Valid, GrainIdx, InGrain, SlotIdx, EntryIdx, Reach;
    var g := GrainIdx(img, off);
    NoRgdSlot(img, SlotIdx(img, g), EntryIdx(img, g));
  }

  lemma TriageHasRgd(file: File)
    requires LayoutOf(file).Some?
    ensures TriageOf(file).hasRgd <==> LayoutHasRgd(LayoutOf(file).value)
  {
    hide LayoutOf, DamagedSet, IntactSet, RecoverableSet, LostSet, DanglingSet, NotDanglingSet;
    LayoutOfFits(file);
  }

  /**
   A quiet image is a healthy one: when the analysis of an uncompressed VMDK4 image that opens
   finds nothing, every read succeeds and fallback would change none of them.
   */
  lemma QuietImageIsHealthy(file: File, tools: Tools)
    requires IsVmdk4(file) && OpenStream(file, tools).Ok? && KindsOf(file) == []
    requires !OpenStream(file, tools).value.img.fmt.Sparse? || !OpenStream(file, tools).value.img.fmt.compressed
    ensures OpenStream(file, tools).value.img.Valid()
    ensures var img := OpenStream(file, tools).value.img;
            Sound(img, false) && forall off: nat :: off < img.size ==> Slice(img, true, off) == Slice(img, false, off)
  {
    hide OpenStream, LayoutOf, ReportOf, TriageOf, ValidatesRgd, Image.Valid, Sound, Slice, KindsOf, DirectoryVisible, ParseSparse, GdOffset;
    QuietMeans(file);
    CleanAuditIsSound(file, tools);
    OpenedCount(file, tools);
    var img := OpenStream(file, tools).value.img;
    if ValidatesRgd(file) {
      ValidateIsRgdValid(file, tools);
      hide RgdValid;
    }
    forall off: nat | off < img.size
      ensures Slice(img, true, off) == Slice(img, false, off)
    {
      if ValidatesRgd(file) {
        ValidRgdSlice(img, off);
      } else {
        NonEmptyHasLayout(file, tools);
        TriageHasRgd(file);
        TwoParsersAgree(file, tools);
        NoRgdSlice(img, off);
      }
    }
  }
}
