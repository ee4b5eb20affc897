/** Little-endian decoding and the byte-sequence vocabulary of the readers (core/src/bytes.rs). */
module Bytes {
  import opened Wrappers
  import opened Arith

  /** A file is an immutable byte sequence whose length fits a seek offset. */
  type File = s: seq<byte> | |s| <= I64_MAX witness []

  const SECTOR := 512

  /** The bytes of `s` from `off` on, at most `n` of them: what one large enough read sees. */
  function Window(s: seq<byte>, off: nat, n: nat): seq<byte> {
    if off >= |s| then [] else s[off..Min(off + n, |s|)]
  }

  /** What `read_exact` at `off` for `n` bytes yields. */
  function ExactBytes(s: seq<byte>, off: nat, n: nat): (r: Result<seq<byte>>)
    ensures r.Ok? ==> |r.value| == n
  {
    if n == 0 then Ok([]) else if off + n <= |s| then Ok(s[off..off + n]) else Err(UnexpectedEof)
  }

  function Zeros(n: nat): (z: seq<byte>)
    ensures |z| == n
    ensures forall k :: 0 <= k < n ==> z[k] == 0
  {
    seq(n, _ => 0)
  }

  /** `s` with the bytes from `lo` on overwritten by `b`. */
  function Patch(s: seq<byte>, lo: nat, b: seq<byte>): (p: seq<byte>)
    requires lo + |b| <= |s|
    ensures |p| == |s|
  {
    s[..lo] + b + s[lo + |b|..]
  }

  /**
   One `read` into `buf[lo..hi]` that can return at most `slice`: a failed read touches
   nothing, a successful one delivers a prefix, empty only when the slice is.
   */
  ghost predicate Delivers(slice: Result<seq<byte>>, lo: nat, hi: nat,
                           pos: nat, before: seq<byte>, pos': nat, after: seq<byte>, r: Result<nat>)
    requires lo <= hi <= |before|
  {
    if lo == hi then
      r == Ok(0) && pos' == pos && after == before
    else
      match slice
      case Err(e) => r == Err(e) && pos' == pos && after == before
      case Ok(s) =>
        && r.Ok?
        && r.value <= |s| && r.value <= hi - lo
        && (r.value == 0 <==> s == [])
        && pos' == pos + r.value
        && after == Patch(before, lo, s[..r.value])
  }

  lemma PatchPatch(s: seq<byte>, lo: nat, a: seq<byte>, b: seq<byte>)
    requires lo + |a| + |b| <= |s|
    ensures Patch(Patch(s, lo, a), lo + |a|, b) == Patch(s, lo, a + b)
  {
  }

  lemma WindowLength(s: seq<byte>, off: nat, n: nat)
    ensures |Window(s, off, n)| == if off >= |s| then 0 else if n < |s| - off then n else |s| - off
  {
  }

  lemma PatchNothing(s: seq<byte>, lo: nat)
    requires lo <= |s|
    ensures Patch(s, lo, []) == s
  {
  }

  /** A range filled with zeros. */
  lemma ZeroPatch(before: seq<byte>, after: seq<byte>, lo: nat, n: nat)
    requires lo + n <= |before| == |after|
    requires forall j :: 0 <= j < |after| ==> after[j] == (if lo <= j < lo + n then 0 else before[j])
    ensures after == Patch(before, lo, Zeros(n))
  {
  }

  /** A prefix of a stretch of `d` is a prefix of the window at its start. */
  lemma StretchPrefix(d: seq<byte>, pos: nat, end: nat, n: nat, m: nat)
    requires pos < end <= |d| && m <= end - pos && m <= n
    ensures m <= |Window(d, pos, n)| && d[pos..end][..m] == Window(d, pos, n)[..m]
  {
    var stop := Min(pos + n, |d|);
    assert Window(d, pos, n) == d[pos..stop];
    assert d[pos..stop][..m] == d[pos..pos + m];
    assert d[pos..end][..m] == d[pos..pos + m];
  }

  /** A range filled from a file. */
  lemma CopyPatch(before: seq<byte>, after: seq<byte>, lo: nat, data: seq<byte>, off: nat, n: nat, len: nat)
    requires off + n <= |data| && n <= len && lo + n <= |before| == |after|
    requires forall k :: 0 <= k < |after| ==> after[k] == (if lo <= k < lo + n then data[off + (k - lo)] else before[k])
    ensures n <= |Window(data, off, len)| && after == Patch(before, lo, Window(data, off, len)[..n])
  {
    if n == 0 {
      PatchNothing(before, lo);
    }
  }

  /** A window read in two pieces. */
  lemma WindowSplit(s: seq<byte>, off: nat, n: nat, done: nat)
    requires done <= |Window(s, off, n)| && done <= n
    ensures Window(s, off + done, n - done) == Window(s, off, n)[done..]
  {
  }

  /** Appending the next `n` bytes of a window to the part already patched in. */
  lemma PatchGrow(s: seq<byte>, lo: nat, whole: seq<byte>, done: nat, n: nat)
    requires done + n <= |whole| && lo + |whole| <= |s|
    ensures Patch(Patch(s, lo, whole[..done]), lo + done, whole[done..][..n]) == Patch(s, lo, whole[..done + n])
  {
    PatchPatch(s, lo, whole[..done], whole[done..][..n]);
    assert whole[..done] + whole[done..][..n] == whole[..done + n];
  }

  /** A shorter window is a prefix of a longer one, and empty with it. */
  lemma WindowPrefix(s: seq<byte>, off: nat, short: nat, long: nat, n: nat)
    requires 0 < short <= long && n <= |Window(s, off, short)|
    ensures n <= |Window(s, off, long)| && n <= short
    ensures Window(s, off, short)[..n] == Window(s, off, long)[..n]
    ensures Window(s, off, short) == [] <==> Window(s, off, long) == []
  {
  }

  /** One more short read extends the part of a window already in the buffer. */
  lemma FillStep(was: seq<byte>, lo: nat, data: seq<byte>, off: nat, len: nat, done: nat, n: nat,
                 before: seq<byte>, after: seq<byte>)
    requires done <= |Window(data, off, len)| && done <= len && lo + len <= |was|
    requires before == Patch(was, lo, Window(data, off, len)[..done])
    requires n <= |Window(data, off + done, len - done)|
    requires after == Patch(before, lo + done, Window(data, off + done, len - done)[..n])
    ensures done + n <= |Window(data, off, len)|
    ensures after == Patch(was, lo, Window(data, off, len)[..done + n])
  {
    WindowSplit(data, off, len, done);
    PatchGrow(was, lo, Window(data, off, len), done, n);
  }

  // ── little-endian integers ────────────────────────────────────────────────

  function LeU16(s: seq<byte>, o: nat): nat
    requires o + 2 <= |s|
  {
    s[o] as int + 0x100 * (s[o + 1] as int)
  }

  function LeU32(s: seq<byte>, o: nat): u32
    requires o + 4 <= |s|
  {
    s[o] as int + 0x100 * (s[o + 1] as int) + 0x1_0000 * (s[o + 2] as int) + 0x100_0000 * (s[o + 3] as int)
  }

  function BeU32(s: seq<byte>, o: nat): u32
    requires o + 4 <= |s|
  {
    s[o + 3] as int + 0x100 * (s[o + 2] as int) + 0x1_0000 * (s[o + 1] as int) + 0x100_0000 * (s[o] as int)
  }

  function LeU64(s: seq<byte>, o: nat): u64
    requires o + 8 <= |s|
  {
    LeU32(s, o) as int + 0x1_0000_0000 * (LeU32(s, o + 4) as int)
  }

  function LeBytes32(v: u32): (b: seq<byte>)
    ensures |b| == 4
  {
    [v % 0x100, v / 0x100 % 0x100, v / 0x1_0000 % 0x100, v / 0x100_0000]
  }

  function LeBytes64(v: u64): (b: seq<byte>)
    ensures |b| == 8
  {
    LeBytes32(v % 0x1_0000_0000) + LeBytes32(v / 0x1_0000_0000)
  }

  /** Decode a packed table of little-endian entries; a trailing partial entry is dropped. */
  function LeTable32(b: seq<byte>): (t: seq<u32>)
    ensures |t| == |b| / 4
    ensures forall j :: 0 <= j < |t| ==> t[j] == LeU32(b, 4 * j)
  {
    seq(|b| / 4, j requires 0 <= j < |b| / 4 => LeU32(b, 4 * j))
  }

  function LeTable64(b: seq<byte>): (t: seq<u64>)
    ensures |t| == |b| / 8
    ensures forall j :: 0 <= j < |t| ==> t[j] == LeU64(b, 8 * j)
  {
    seq(|b| / 8, j requires 0 <= j < |b| / 8 => LeU64(b, 8 * j))
  }

  /** Decoding a slice is decoding in place. */
  lemma LeU32Slice(s: seq<byte>, lo: nat, hi: nat, o: nat)
    requires o + 4 <= hi - lo && hi <= |s|
    ensures LeU32(s[lo..hi], o) == LeU32(s, lo + o)
  {
  }

  lemma LeU64Slice(s: seq<byte>, lo: nat, hi: nat, o: nat)
    requires o + 8 <= hi - lo && hi <= |s|
    ensures LeU64(s[lo..hi], o) == LeU64(s, lo + o)
  {
    LeU32Slice(s, lo, hi, o);
    LeU32Slice(s, lo, hi, o + 4);
  }

  lemma Le32RoundTrip(v: u32)
    ensures LeU32(LeBytes32(v), 0) == v
  {
    var q1: int := v / 0x100;
    var q2: int := v / 0x1_0000;
    var q3: int := v / 0x100_0000;
    assert q2 == q1 / 0x100 && q3 == q2 / 0x100;
    assert v == 0x100 * q1 + v % 0x100 && q1 == 0x100 * q2 + q1 % 0x100 && q2 == 0x100 * q3 + q2 % 0x100;
  }

  lemma Le64RoundTrip(v: u64)
    ensures LeU64(LeBytes64(v), 0) == v
  {
    var b := LeBytes64(v);
    var lo: u32 := v % 0x1_0000_0000;
    var hi: u32 := v / 0x1_0000_0000;
    assert b[..4] == LeBytes32(lo) && b[4..] == LeBytes32(hi);
    Le32RoundTrip(lo);
    Le32RoundTrip(hi);
    LeU32Slice(b, 0, 4, 0);
    LeU32Slice(b, 4, 8, 0);
  }

  /** Equal bytes decode equally, wherever they sit. */
  lemma LeU32Cong(s: seq<byte>, o: nat, t: seq<byte>, p: nat)
    requires o + 4 <= |s| && p + 4 <= |t| && s[o..o + 4] == t[p..p + 4]
    ensures LeU32(s, o) == LeU32(t, p)
  {
    LeU32Slice(s, o, o + 4, 0);
    LeU32Slice(t, p, p + 4, 0);
  }

  /** Integers decode equally exactly when their bytes are equal. */
  lemma Le32Iff(s: seq<byte>, o: nat, t: seq<byte>, p: nat)
    requires o + 4 <= |s| && p + 4 <= |t|
    ensures LeU32(s, o) == LeU32(t, p) <==> s[o..o + 4] == t[p..p + 4]
  {
    if LeU32(s, o) == LeU32(t, p) {
      var a2, b2 := s[o + 1] as int + 0x100 * (s[o + 2] as int + 0x100 * s[o + 3] as int),
                    t[p + 1] as int + 0x100 * (t[p + 2] as int + 0x100 * t[p + 3] as int);
      LowByte(s[o], a2, t[p], b2);
      LowByte(s[o + 1], s[o + 2] as int + 0x100 * s[o + 3] as int, t[p + 1], t[p + 2] as int + 0x100 * t[p + 3] as int);
      LowByte(s[o + 2], s[o + 3], t[p + 2], t[p + 3]);
      SameFour(s, o, t, p);
    }
    if s[o..o + 4] == t[p..p + 4] {
      LeU32Cong(s, o, t, p);
    }
  }

  /** The low byte of a sum is determined. */
  lemma LowByte(a: byte, x: int, b: byte, y: int)
    requires a as int + 0x100 * x == b as int + 0x100 * y
    ensures a == b && x == y
  {
  }

  lemma SameFour(s: seq<byte>, o: nat, t: seq<byte>, p: nat)
    requires o + 4 <= |s| && p + 4 <= |t|
    requires s[o] == t[p] && s[o + 1] == t[p + 1] && s[o + 2] == t[p + 2] && s[o + 3] == t[p + 3]
    ensures s[o..o + 4] == t[p..p + 4]
  {
  }

  /** Two stretches are equal when both their parts are. */
  lemma BothHalves(s: seq<byte>, o: nat, t: seq<byte>, p: nat, m: nat, n: nat)
    requires m <= n && o + n <= |s| && p + n <= |t|
    ensures s[o..o + n] == t[p..p + n] <==> s[o..o + m] == t[p..p + m] && s[o + m..o + n] == t[p + m..p + n]
  {
    assert s[o..o + n] == s[o..o + m] + s[o + m..o + n];
    assert t[p..p + n] == t[p..p + m] + t[p + m..p + n];
    assert s[o..o + n][..m] == s[o..o + m] && s[o..o + n][m..] == s[o + m..o + n];
    assert t[p..p + n][..m] == t[p..p + m] && t[p..p + n][m..] == t[p + m..p + n];
  }

  lemma Le64Iff(s: seq<byte>, o: nat, t: seq<byte>, p: nat)
    requires o + 8 <= |s| && p + 8 <= |t|
    ensures LeU64(s, o) == LeU64(t, p) <==> s[o..o + 8] == t[p..p + 8]
  {
    hide LeU32;
    Le32Iff(s, o, t, p);
    Le32Iff(s, o + 4, t, p + 4);
    BothHalves(s, o, t, p, 4, 8);
  }

  /** `d` holds the little-endian word `v` at `o`. */
  predicate Word32(d: seq<byte>, o: nat, v: u32) {
    o + 4 <= |d| && d[o..o + 4] == LeBytes32(v)
  }

  predicate Word64(d: seq<byte>, o: nat, v: u64) {
    o + 8 <= |d| && d[o..o + 8] == LeBytes64(v)
  }

  lemma Word32Is(d: seq<byte>, o: nat, v: u32)
    requires o + 4 <= |d|
    ensures LeU32(d, o) == v <==> Word32(d, o, v)
  {
    hide LeU32, LeBytes32;
    Le32RoundTrip(v);
    Le32Iff(d, o, LeBytes32(v), 0);
    assert LeBytes32(v)[0..0 + 4] == LeBytes32(v);
  }

  lemma Word64Is(d: seq<byte>, o: nat, v: u64)
    requires o + 8 <= |d|
    ensures LeU64(d, o) == v <==> Word64(d, o, v)
  {
    hide LeU64, LeBytes64;
    Le64RoundTrip(v);
    Le64Iff(d, o, LeBytes64(v), 0);
    assert LeBytes64(v)[0..0 + 8] == LeBytes64(v);
  }

  function EncodeTable32(t: seq<u32>): (b: seq<byte>)
    ensures |b| == 4 * |t|
  {
    if t == [] then [] else EncodeTable32(t[..|t| - 1]) + LeBytes32(t[|t| - 1])
  }

  lemma {:induction false} EncodedEntry(t: seq<u32>, j: nat)
    requires j < |t|
    ensures EncodeTable32(t)[4 * j..4 * j + 4] == LeBytes32(t[j])
  {
    hide LeBytes32;
    if j < |t| - 1 {
      EncodedEntry(t[..|t| - 1], j);
    }
  }

  /** Decoding a packed table recovers every table that was encoded. */
  lemma TableRoundTrip(t: seq<u32>)
    ensures LeTable32(EncodeTable32(t)) == t
  {
    hide LeBytes32, EncodeTable32, LeU32;
    var b := EncodeTable32(t);
    forall j | 0 <= j < |t|
      ensures LeTable32(b)[j] == t[j]
    {
      EncodedEntry(t, j);
      Le32RoundTrip(t[j]);
      assert b[4 * j..4 * j + 4] == LeBytes32(t[j])[0..4];
      LeU32Cong(b, 4 * j, LeBytes32(t[j]), 0);
    }
  }
}
