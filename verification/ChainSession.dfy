/** Whole runs of a chain reader: any sequence of seeks and reads over a snapshot chain. */
module ChainSessions {
  import opened Wrappers
  import opened Arith
  import opened Images
  import opened Readers
  import opened Chains
  import Sessions

  datatype ChainOp = MoveTo(target: SeekFrom) | Fetching(n: nat)

  /** The bytes an operation returned; a seek returns none. */
  type Answer = Result<seq<byte>>

  /** One operation at `pos`: what it returned and where it left the cursor. */
  ghost predicate ChainStep(imgs: seq<Image>, op: ChainOp, pos: u64, o: Answer, pos': u64)
    requires imgs != [] && forall i :: i in imgs ==> i.Valid()
  {
    match op
    case MoveTo(from) =>
      var t := SeekTarget(from, pos, imgs[0].size);
      if t < 0 then o == Err(InvalidInput) && pos' == pos else o == Ok([]) && pos' == t
    case Fetching(n) =>
      && Sessions.ReadOutcome(ChainSlice(imgs, imgs[0].size, MinGrain(imgs), pos), n, o)
      && pos' == pos + (if o.Ok? then |o.value| else 0)
  }

  /** `ops` moved the cursor through `at`, answering `outs`. */
  ghost predicate ChainRun(imgs: seq<Image>, ops: seq<ChainOp>, outs: seq<Answer>, at: seq<u64>)
    requires imgs != [] && forall i :: i in imgs ==> i.Valid()
  {
    && |outs| == |ops| && |at| == |ops| + 1
    && forall k :: 0 <= k < |ops| ==> ChainStep(imgs, ops[k], at[k], outs[k], at[k + 1])
  }

  /** Do one operation. */
  method Perform(c: VmdkChainReader, op: ChainOp) returns (o: Answer)
    requires c.Valid()
    modifies c`pos, c.layers, set l | l in c.layers :: l.inner
    ensures c.Valid()
    ensures ChainStep(c.Images(), op, old(c.pos), o, c.pos)
  {
    hide Image.Valid, MinGrain, CacheOk, SeekTarget, ChainSlice;
    match op
    case MoveTo(from) =>
      var at := c.Seek(from);
      return if at.Err? then Err(at.error) else Ok([]);
    case Fetching(n) =>
      var buf := new byte[n];
      var got := c.Read(buf, 0, n);
      return if got.Err? then Err(got.error) else Ok(buf[..got.value]);
  }

  /** Every run of the real reader is a run over the layers' images, whatever sizes their grains have. */
  method PerformAll(c: VmdkChainReader, ops: seq<ChainOp>) returns (outs: seq<Answer>, ghost at: seq<u64>)
    requires c.Valid()
    modifies c`pos, c.layers, set l | l in c.layers :: l.inner
    ensures c.Valid()
    ensures ChainRun(c.Images(), ops, outs, at) && at[0] == old(c.pos) && at[|ops|] == c.pos
    ensures ClampDivides(c.Images(), MinGrain(c.Images())) ==>
              forall k :: 0 <= k < |ops| && ops[k].Fetching? && outs[k].Ok? ==> OverlayBytes(c.Images(), at[k], outs[k].value)
  {
    hide ChainStep, Image.Valid, ClampDivides, MinGrain, CacheOk, OverlayBytes;
    outs := [];
    at := [c.pos];
    while |outs| < |ops|
      invariant c.Valid()
      invariant |outs| <= |ops| && |at| == |outs| + 1
      invariant at[0] == old(c.pos) && at[|outs|] == c.pos
      invariant forall k :: 0 <= k < |outs| ==> ChainStep(c.Images(), ops[k], at[k], outs[k], at[k + 1])
    {
      var o := Perform(c, ops[|outs|]);
      outs := outs + [o];
      at := at + [c.pos];
    }
    if ClampDivides(c.Images(), MinGrain(c.Images())) {
      RunIsOverlay(c.Images(), ops, outs, at);
    }
  }

  /**
   Overlay over whole runs: when the clamp divides every grain size, every byte returned by any
   sequence of seeks and reads is the merged byte at its own position.
   */
  lemma RunIsOverlay(imgs: seq<Image>, ops: seq<ChainOp>, outs: seq<Answer>, at: seq<u64>)
    requires imgs != [] && forall i :: i in imgs ==> i.Valid()
    requires ChainRun(imgs, ops, outs, at) && ClampDivides(imgs, MinGrain(imgs))
    ensures forall k :: 0 <= k < |ops| && ops[k].Fetching? && outs[k].Ok? ==> OverlayBytes(imgs, at[k], outs[k].value)
  {
    hide Image.Valid, ClampDivides, MinGrain, ChainSlice, OverlayBytes;
    forall k | 0 <= k < |ops| && ops[k].Fetching? && outs[k].Ok?
      ensures OverlayBytes(imgs, at[k], outs[k].value)
    {
      assert ChainStep(imgs, ops[k], at[k], outs[k], at[k + 1]);
      var slice := ChainSlice(imgs, imgs[0].size, MinGrain(imgs), at[k]);
      if ops[k].n == 0 {
        NoOverlay(imgs, at[k], outs[k].value);
      } else {
        ChainSliceIsOverlay(imgs, MinGrain(imgs), at[k]);
        OverlayPrefix(imgs, at[k], outs[k].value, slice.value);
      }
    }
  }

  lemma OverlayPrefix(imgs: seq<Image>, off: nat, part: seq<byte>, whole: seq<byte>)
    requires (forall i :: i in imgs ==> i.Valid()) && part <= whole && OverlayBytes(imgs, off, whole)
    ensures OverlayBytes(imgs, off, part)
  {
    hide Image.Valid, OverlayByte;
  }

  /** Two runs over the same layers, with any pasts, agree on every byte both return. */
  lemma RunsAgree(imgs: seq<Image>, ops1: seq<ChainOp>, outs1: seq<Answer>, at1: seq<u64>, j: nat,
                  ops2: seq<ChainOp>, outs2: seq<Answer>, at2: seq<u64>, k: nat, off: nat)
    requires imgs != [] && forall i :: i in imgs ==> i.Valid()
    requires ClampDivides(imgs, MinGrain(imgs))
    requires ChainRun(imgs, ops1, outs1, at1) && j < |ops1| && ops1[j].Fetching? && outs1[j].Ok?
    requires ChainRun(imgs, ops2, outs2, at2) && k < |ops2| && ops2[k].Fetching? && outs2[k].Ok?
    requires at1[j] <= off < at1[j] + |outs1[j].value| && at2[k] <= off < at2[k] + |outs2[k].value|
    ensures outs1[j].value[off - at1[j]] == outs2[k].value[off - at2[k]]
  {
    hide Image.Valid, OverlayByte, ClampDivides, MinGrain, ChainStep;
    RunIsOverlay(imgs, ops1, outs1, at1);
    RunIsOverlay(imgs, ops2, outs2, at2);
    var x, y := outs1[j].value, outs2[k].value;
    var a: nat, b: nat := at1[j], at2[k];
    assert OverlayByte(imgs, a + (off - a), x[off - a]);
    assert OverlayByte(imgs, b + (off - b), y[off - b]);
    OverlayUnique(imgs, off, x[off - a], y[off - b]);
  }
}
