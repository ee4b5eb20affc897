/**
 Whole runs of a reader: any sequence of seeks, reads, allocation queries, scans and the switch
 to recovery, seen as steps of a machine whose state is only the cursor, the recovery flag and
 the recovery counter. The grain-table cache and the inner cursor do not appear in it.
 */
module Sessions {
  import opened Wrappers
  import opened Arith
  import opened Images
  import opened Scans
  import opened Readers
  import opened Recovery

  datatype Op =
    | MoveTo(target: SeekFrom)
    | Fetching(n: nat)
    | AskAllocated(lba: nat)
    | ScanAll
    | EnableFallback

  datatype Outcome =
    | Moved(at: Result<u64>)
    | Got(bytes: Result<seq<byte>>)
    | Answered(answer: Result<bool>)
    | Scanned(grains: Result<seq<AllocatedGrain>>)
    | Done

  /** All a run can observe of a reader's past. */
  datatype View = View(pos: u64, fb: bool, count: nat)

  function ViewOf(r: VmdkReader): View
    reads r
  {
    View(r.pos, r.rgdFallback, r.rgdRecoveryCount)
  }

  /** What operation `op` adds to the recovery counter. */
  ghost function Gain(img: Image, s: View, op: Op): nat
    requires img.Valid()
  {
    match op
    case Fetching(n) => if n > 0 && s.pos < img.size && img.IsSparse() && AnsweredByRgd(img, s.fb, s.pos) then 1 else 0
    case ScanAll => RecoveredByScan(img, s.fb)
    case _ => 0
  }

  /** The bytes a read of `n` returns: a prefix of the slice, empty only when the slice is. */
  ghost predicate ReadOutcome(slice: Result<seq<byte>>, n: nat, got: Result<seq<byte>>) {
    if n == 0 then got == Ok([]) else
    match slice
    case Err(e) => got == Err(e)
    case Ok(s) => got.Ok? && got.value <= s && |got.value| <= n && (got.value == [] <==> s == [])
  }

  /** One operation: what it answers and where it leaves the machine. */
  ghost predicate Step(img: Image, s: View, op: Op, o: Outcome, t: View)
    requires img.Valid()
  {
    && t.count == s.count + Gain(img, s, op)
    && match op
       case MoveTo(from) =>
         var target := SeekTarget(from, s.pos, img.size);
         && o == Moved(if target < 0 then Err(InvalidInput) else Ok(target))
         && t.pos == (if target < 0 then s.pos else target) && t.fb == s.fb
       case Fetching(n) =>
         && o.Got? && ReadOutcome(Slice(img, s.fb, s.pos), n, o.bytes)
         && t.pos == s.pos + (if o.bytes.Ok? then |o.bytes.value| else 0) && t.fb == s.fb
       case AskAllocated(lba) =>
         o == Answered(AllocatedAt(img, lba)) && t.pos == s.pos && t.fb == s.fb
       case ScanAll =>
         && o == Scanned(if ScanOk(img, s.fb) then Ok(Listing(img, s.fb)) else Err(UnexpectedEof))
         && t.pos == s.pos && t.fb == s.fb
       case EnableFallback =>
         o == Done && t.pos == s.pos && t.fb
  }

  /** `ops` took the machine through `states`, answering `outs`. */
  ghost predicate Run(img: Image, ops: seq<Op>, outs: seq<Outcome>, states: seq<View>)
    requires img.Valid()
  {
    && |outs| == |ops| && |states| == |ops| + 1
    && forall k :: 0 <= k < |ops| ==> Step(img, states[k], ops[k], outs[k], states[k + 1])
  }

  // ── every run of the real reader is a run of the machine ──────────────────

  /** Do one operation on a reader. */
  method Perform(r: VmdkReader, op: Op) returns (o: Outcome)
    requires r.Valid()
    modifies r, r.inner
    ensures r.Valid() && Step(r.img, old(ViewOf(r)), op, o, ViewOf(r))
  {
    hide Slice, CacheOk, Image.Valid, AnsweredByRgd, RecoveredByScan, ScanOk, Listing, AllocatedAt, SeekTarget;
    match op
    case MoveTo(from) =>
      var at := r.Seek(from);
      return Moved(at);
    case Fetching(n) =>
      var buf := new byte[n];
      var got := r.Read(buf, 0, n);
      return Got(if got.Ok? then Ok(buf[..got.value]) else Err(got.error));
    case AskAllocated(lba) =>
      var a := r.IsAllocated(lba);
      return Answered(a);
    case ScanAll =>
      var grains := r.IterAllocatedGrains();
      return Scanned(grains);
    case EnableFallback =>
      r.EnableRgdFallback();
      return Done;
  }

  /**
   Cache agreement and history independence: after any run the cache still agrees with the file
   (`Valid`), and every answer was the machine's, which has never heard of the cache.
   */
  method PerformAll(r: VmdkReader, ops: seq<Op>) returns (outs: seq<Outcome>, ghost states: seq<View>)
    requires r.Valid()
    modifies r, r.inner
    ensures r.Valid()
    ensures Run(r.img, ops, outs, states)
    ensures states[0] == old(ViewOf(r)) && states[|ops|] == ViewOf(r)
  {
    hide Step, CacheOk, Image.Valid;
    outs := [];
    states := [ViewOf(r)];
    while |outs| < |ops|
      invariant r.Valid()
      invariant |outs| <= |ops| && |states| == |outs| + 1
      invariant states[0] == old(ViewOf(r)) && states[|outs|] == ViewOf(r)
      invariant forall k :: 0 <= k < |outs| ==> Step(r.img, states[k], ops[k], outs[k], states[k + 1])
    {
      var o := Perform(r, ops[|outs|]);
      outs := outs + [o];
      states := states + [ViewOf(r)];
    }
  }

  // ── what holds of every run ───────────────────────────────────────────────

  ghost predicate SameRead(a: Result<seq<byte>>, b: Result<seq<byte>>) {
    if a.Err? || b.Err? then a == b else a.value <= b.value || b.value <= a.value
  }

  /**
   History independence: two reads at the same position and flag, in any two runs with any two
   pasts, return the same bytes as far as both go, or the same error.
   */
  lemma HistoryIndependent(img: Image, ops1: seq<Op>, outs1: seq<Outcome>, states1: seq<View>, j: nat,
                           ops2: seq<Op>, outs2: seq<Outcome>, states2: seq<View>, k: nat)
    requires img.Valid() && Run(img, ops1, outs1, states1) && Run(img, ops2, outs2, states2)
    requires j < |ops1| && k < |ops2|
    requires ops1[j].Fetching? && ops2[k].Fetching? && ops1[j].n > 0 && ops2[k].n > 0
    requires states1[j].pos == states2[k].pos && states1[j].fb == states2[k].fb
    ensures outs1[j].Got? && outs2[k].Got? && SameRead(outs1[j].bytes, outs2[k].bytes)
  {
    hide Slice, Image.Valid, Gain;
    assert Step(img, states1[j], ops1[j], outs1[j], states1[j + 1]);
    assert Step(img, states2[k], ops2[k], outs2[k], states2[k + 1]);
  }

  /** Everything but a read is a function of the position and the flag. */
  lemma AnswersDetermined(img: Image, s1: View, s2: View, op: Op, o1: Outcome, t1: View, o2: Outcome, t2: View)
    requires img.Valid() && !op.Fetching? && s1.pos == s2.pos && s1.fb == s2.fb
    requires Step(img, s1, op, o1, t1) && Step(img, s2, op, o2, t2)
    ensures o1 == o2 && t1.pos == t2.pos && t1.fb == t2.fb
  {
    hide Image.Valid, AllocatedAt, ScanOk, Listing, SeekTarget, Gain;
  }

  /** The flag is set exactly when it was at the start or some operation since enabled it. */
  lemma {:induction false} FlagHistory(img: Image, ops: seq<Op>, outs: seq<Outcome>, states: seq<View>, k: nat)
    requires img.Valid() && Run(img, ops, outs, states) && k <= |ops|
    ensures states[k].fb <==> states[0].fb || EnableFallback in ops[..k]
  {
    hide Image.Valid, Gain, AllocatedAt, ScanOk, Listing, SeekTarget, Slice;
    if k > 0 {
      FlagHistory(img, ops, outs, states, k - 1);
      assert Step(img, states[k - 1], ops[k - 1], outs[k - 1], states[k]);
      assert ops[..k] == ops[..k - 1] + [ops[k - 1]];
    }
  }

  ghost function TotalGain(img: Image, ops: seq<Op>, states: seq<View>, k: nat): nat
    requires img.Valid() && k <= |ops| < |states|
  {
    if k == 0 then 0 else TotalGain(img, ops, states, k - 1) + Gain(img, states[k - 1], ops[k - 1])
  }

  /** The counter is exactly the answers the redundant directory gave, failed scans included. */
  lemma {:induction false} CountIsExact(img: Image, ops: seq<Op>, outs: seq<Outcome>, states: seq<View>, k: nat)
    requires img.Valid() && Run(img, ops, outs, states) && k <= |ops|
    ensures states[k].count == states[0].count + TotalGain(img, ops, states, k)
  {
    hide Image.Valid, Gain;
    if k > 0 {
      CountIsExact(img, ops, outs, states, k - 1);
      assert Step(img, states[k - 1], ops[k - 1], outs[k - 1], states[k]);
    }
  }

  function BytesOf(o: Outcome): seq<byte> {
    if o.Got? && o.bytes.Ok? then o.bytes.value else []
  }

  /** The bytes of the first `k` answers, in order. */
  function Stream(outs: seq<Outcome>, k: nat): seq<byte>
    requires k <= |outs|
  {
    if k == 0 then [] else Stream(outs, k - 1) + BytesOf(outs[k - 1])
  }

  /** A run of reads, however chunked, is one contiguous stretch of the disk. */
  lemma {:induction false} ReadsAreContiguous(img: Image, ops: seq<Op>, outs: seq<Outcome>, states: seq<View>, k: nat)
    requires img.Valid() && Run(img, ops, outs, states) && k <= |ops|
    requires forall i :: 0 <= i < |ops| ==> ops[i].Fetching?
    ensures states[k].fb == states[0].fb && states[k].pos == states[0].pos + |Stream(outs, k)|
    ensures Holds(img, states[0].fb, states[0].pos, Stream(outs, k))
  {
    hide Image.Valid, Gain, Holds, Slice;
    var fb, start := states[0].fb, states[0].pos;
    if k == 0 {
      HoldsNothing(img, fb, start);
    } else {
      ReadsAreContiguous(img, ops, outs, states, k - 1);
      var s, op, o, t := states[k - 1], ops[k - 1], outs[k - 1], states[k];
      assert Step(img, s, op, o, t);
      ReadHolds(img, s, op, o, t);
      HoldsAppend(img, fb, start, Stream(outs, k - 1), BytesOf(o));
    }
  }

  /** What one read returned is what the disk holds there. */
  lemma ReadHolds(img: Image, s: View, op: Op, o: Outcome, t: View)
    requires img.Valid() && op.Fetching? && Step(img, s, op, o, t)
    ensures Holds(img, s.fb, s.pos, BytesOf(o))
  {
    hide Image.Valid, Gain, Holds, Slice;
    HoldsNothing(img, s.fb, s.pos);
    if o.bytes.Ok? && op.n > 0 {
      var whole := Slice(img, s.fb, s.pos).value;
      SliceHolds(img, s.fb, s.pos, |o.bytes.value|);
      assert o.bytes.value == whole[..|o.bytes.value|];
    }
  }

  // ── runs on an image whose redundant directory validates ──────────────────

  /** Forget the recovery flag and counter. */
  function Plain(s: View): View {
    View(s.pos, false, 0)
  }

  /** One step in recovery mode is, answer for answer, a step without it. */
  lemma ValidStep(img: Image, s: View, op: Op, o: Outcome, t: View)
    requires img.Valid() && RgdValid(img) && Step(img, s, op, o, t) && !op.EnableFallback?
    ensures Step(img, Plain(s), op, o, Plain(t)) && t.count == s.count
  {
    hide Image.Valid, RgdValid, Slice, ScanOk, Listing, AnsweredByRgd, RecoveredByScan, AllocatedAt, SeekTarget;
    ValidRgdSlice(img, s.pos);
    ValidRgdScan(img);
    NoPlainRecovery(img);
    if s.pos < img.size {
      ValidRgdLookup(img, s.pos);
      NotAnsweredPlain(img, s.pos);
    }
  }

  lemma NotAnsweredPlain(img: Image, off: nat)
    requires img.Valid()
    ensures img.IsSparse() ==> !AnsweredByRgd(img, false, off)
  {
    hide Image.Valid, GrainIdx, SlotIdx, EntryIdx;
  }

  lemma NoPlainRecovery(img: Image)
    requires img.Valid()
    ensures RecoveredByScan(img, false) == 0
  {
    hide Image.Valid, SlotIdx, EntryIdx;
    if img.IsSparse() {
      assert RecoveredSet(img, false, |img.fmt.gd| * img.fmt.ngte) == {};
    }
  }

  /**
   On such an image recovery mode is invisible over whole runs: every run answers as the run of
   a reader that never enabled it, and its counter never moves.
   */
  lemma {:induction false} ValidRun(img: Image, ops: seq<Op>, outs: seq<Outcome>, states: seq<View>, k: nat)
    requires img.Valid() && RgdValid(img) && Run(img, ops, outs, states) && k <= |ops|
    ensures states[k].count == states[0].count
    ensures forall i :: 0 <= i < k && !ops[i].EnableFallback? ==>
              Step(img, Plain(states[i]), ops[i], outs[i], Plain(states[i + 1]))
  {
    hide Image.Valid, RgdValid, Step;
    if k > 0 {
      ValidRun(img, ops, outs, states, k - 1);
      var s, op, o, t := states[k - 1], ops[k - 1], outs[k - 1], states[k];
      assert Step(img, s, op, o, t);
      if op.EnableFallback? {
        EnableGainsNothing(img, s, o, t);
      } else {
        ValidStep(img, s, op, o, t);
      }
    }
  }

  lemma EnableGainsNothing(img: Image, s: View, o: Outcome, t: View)
    requires img.Valid() && Step(img, s, EnableFallback, o, t)
    ensures t.count == s.count && t.pos == s.pos
  {
    hide Image.Valid;
  }
}
