/** Following parent hints from a snapshot to its base (core/src/chain.rs, `open`). */
module ChainOpening {
  import opened Wrappers
  import opened Texts
  import opened Descriptors
  import opened Images

  /** Maximum number of delta layers. */
  const MAX_CHAIN_DEPTH := 64

  /** A path as its components; the last one is the file. */
  type Path = seq<string>

  /** What opening the file at a path yields. */
  type FileSystem = Path -> Result<Meta>

  /** Split at `/`. */
  function SplitSlash(s: string): seq<string>
    decreases |s|
  {
    var n := UpTo(s, '/');
    if n < |s| then [s[..n]] + SplitSlash(s[n + 1..]) else [s]
  }

  function NormalParts(parts: seq<string>): Path {
    if parts == [] then [] else
    (if parts[0] == "" || parts[0] == "." then [] else [parts[0]]) + NormalParts(parts[1..])
  }

  /** `resolve_extent_path`: absolute names and `..` components are refused. */
  function ResolvePath(base: Path, name: string): Result<Path> {
    var parts := SplitSlash(name);
    if (name != [] && name[0] == '/') || ".." in parts then Err(PermissionDenied) else Ok(base + NormalParts(parts))
  }

  /** `Path::parent`. */
  function ParentDir(p: Path): Path {
    if p == [] then [] else p[..|p| - 1]
  }

  lemma {:induction false} NormalPartsStay(parts: seq<string>)
    requires ".." !in parts
    ensures ".." !in NormalParts(parts)
  {
    if parts != [] {
      NormalPartsStay(parts[1..]);
    }
  }

  /** A resolved name stays below its base directory. */
  lemma ResolvedInside(base: Path, name: string)
    requires ResolvePath(base, name).Ok?
    ensures base <= ResolvePath(base, name).value
    ensures ".." !in ResolvePath(base, name).value[|base|..]
  {
    NormalPartsStay(SplitSlash(name));
    assert ResolvePath(base, name).value[|base|..] == NormalParts(SplitSlash(name));
  }

  /** The first `parentFileNameHint` line. */
  function HintIn(lines: seq<string>): string {
    if lines == [] then "" else
    var hint := StripPrefix(Trim(lines[0]), "parentFileNameHint=");
    if hint.Some? then TrimChar(Trim(hint.value), '"') else HintIn(lines[1..])
  }

  /** `extract_parent_file_name`. */
  function ParentHint(m: Meta): string {
    HintIn(Lines(m.descriptorText))
  }

  predicate HasParent(m: Meta) {
    m.parentCid != NO_PARENT
  }

  /** A layer at which the walk stops: no parent, or no way to find it. */
  predicate Terminal(m: Meta) {
    !HasParent(m) || ParentHint(m) == ""
  }

  /** The path of the parent of layer `m` at `p`. */
  function ParentPath(p: Path, m: Meta): Result<Path> {
    ResolvePath(ParentDir(p), ParentHint(m))
  }

  /** `ps` walks from `start` through openable parents to a terminal layer. */
  ghost predicate IsChain(fs: FileSystem, start: Path, ps: seq<Path>) {
    && ps != [] && ps[0] == start
    && (forall k :: 0 <= k < |ps| ==> fs(ps[k]).Ok?)
    && (forall k :: 0 <= k < |ps| - 1 ==> !Terminal(fs(ps[k]).value) && ParentPath(ps[k], fs(ps[k]).value) == Ok(ps[k + 1]))
    && Terminal(fs(ps[|ps| - 1]).value)
  }

  /** A chain within the depth limit; at the limit itself only a true base is accepted. */
  ghost predicate Accepted(fs: FileSystem, start: Path, ps: seq<Path>) {
    IsChain(fs, start, ps) &&
    (|ps| <= MAX_CHAIN_DEPTH || (|ps| == MAX_CHAIN_DEPTH + 1 && !HasParent(fs(ps[|ps| - 1]).value)))
  }

  /** `ps` follows openable, non-terminal layers from `start`; its last path has not been opened yet. */
  ghost predicate IsWalk(fs: FileSystem, start: Path, ps: seq<Path>) {
    && ps != [] && ps[0] == start
    && forall k :: 0 <= k < |ps| - 1 ==>
         fs(ps[k]).Ok? && !Terminal(fs(ps[k]).value) && ParentPath(ps[k], fs(ps[k]).value) == Ok(ps[k + 1])
  }

  /**
   The walk ends in error `e` at the last path of `ps`: it does not open, or it is one layer too
   many and still has a parent, or its parent's name does not resolve.
   */
  ghost predicate FailsAt(fs: FileSystem, start: Path, ps: seq<Path>, e: Error) {
    && IsWalk(fs, start, ps) && |ps| <= MAX_CHAIN_DEPTH + 1
    && var p := ps[|ps| - 1];
    match fs(p)
    case Err(e') => e == e'
    case Ok(m) =>
      if |ps| == MAX_CHAIN_DEPTH + 1 then HasParent(m) && e == FieldOutOfRange
      else !Terminal(m) && ParentPath(p, m) == Err(e)
  }

  /** Every chain from `start` begins with the paths walked so far. */
  ghost predicate Forced(fs: FileSystem, start: Path, walked: seq<Path>) {
    forall ps :: IsChain(fs, start, ps) ==> walked <= ps
  }

  lemma ForcedStep(fs: FileSystem, start: Path, walked: seq<Path>, next: Path)
    requires walked != [] && Forced(fs, start, walked)
    requires var p := walked[|walked| - 1]; fs(p).Ok? && !Terminal(fs(p).value) && ParentPath(p, fs(p).value) == Ok(next)
    ensures Forced(fs, start, walked + [next])
  {
    hide Terminal, ParentPath;
    forall ps | IsChain(fs, start, ps)
      ensures walked + [next] <= ps
    {
      var last := |walked| - 1;
      assert ps[last] == walked[last];
      assert |ps| > |walked|;
      assert ps[..|walked| + 1] == walked + [next];
    }
  }

  lemma ChainContinues(fs: FileSystem, start: Path, ps: seq<Path>, k: nat)
    requires IsChain(fs, start, ps) && k < |ps|
    ensures fs(ps[k]).Ok? && (Terminal(fs(ps[k]).value) || ParentPath(ps[k], fs(ps[k]).value).Ok?)
  {
    hide Terminal, ParentPath;
    if k < |ps| - 1 {
      assert ParentPath(ps[k], fs(ps[k]).value) == Ok(ps[k + 1]);
    }
  }

  /** A walk that cannot continue from its last path refutes every chain. */
  lemma ForcedDeadEnd(fs: FileSystem, start: Path, walked: seq<Path>, ps: seq<Path>)
    requires walked != [] && Forced(fs, start, walked)
    requires var p := walked[|walked| - 1]; fs(p).Err? || (!Terminal(fs(p).value) && ParentPath(p, fs(p).value).Err?)
    ensures !IsChain(fs, start, ps)
  {
    hide Terminal, ParentPath, IsChain;
    var last := |walked| - 1;
    assert IsChain(fs, start, ps) ==> walked <= ps;
    assert walked <= ps ==> |ps| > last && ps[last] == walked[last];
    if IsChain(fs, start, ps) {
      ChainContinues(fs, start, ps, last);
    }
  }

  /** A walk of full length that still has a parent refutes every accepted chain. */
  lemma ForcedTooDeep(fs: FileSystem, start: Path, walked: seq<Path>, ps: seq<Path>)
    requires |walked| == MAX_CHAIN_DEPTH + 1 && Forced(fs, start, walked)
    requires fs(walked[MAX_CHAIN_DEPTH]).Ok? && HasParent(fs(walked[MAX_CHAIN_DEPTH]).value)
    ensures !Accepted(fs, start, ps)
  {
    hide Terminal, ParentPath;
    assert IsChain(fs, start, ps) ==> walked <= ps;
    assert walked <= ps ==> |ps| > MAX_CHAIN_DEPTH && ps[MAX_CHAIN_DEPTH] == walked[MAX_CHAIN_DEPTH];
  }

  /** Every chain continues every walk. */
  lemma {:induction false} WalkIsForced(fs: FileSystem, start: Path, walked: seq<Path>)
    requires IsWalk(fs, start, walked)
    ensures Forced(fs, start, walked)
  {
    hide Terminal, ParentPath;
    if |walked| == 1 {
      assert walked == [start];
    } else {
      var init, last := walked[..|walked| - 1], walked[|walked| - 1];
      WalkIsForced(fs, start, init);
      assert ParentPath(walked[|walked| - 2], fs(walked[|walked| - 2]).value) == Ok(walked[|walked| - 2 + 1]);
      ForcedStep(fs, start, init, last);
      assert init + [last] == walked;
    }
  }

  /** A walk that fails leaves no accepted chain. */
  lemma FailedHasNoChain(fs: FileSystem, start: Path, walked: seq<Path>, e: Error, ps: seq<Path>)
    requires FailsAt(fs, start, walked, e)
    ensures !Accepted(fs, start, ps)
  {
    hide Terminal, ParentPath, IsChain, IsWalk, HasParent, Forced;
    WalkIsForced(fs, start, walked);
    LastOfWalk(fs, start, walked);
    if |walked| == MAX_CHAIN_DEPTH + 1 && fs(walked[MAX_CHAIN_DEPTH]).Ok? {
      ForcedTooDeep(fs, start, walked, ps);
    } else {
      ForcedDeadEnd(fs, start, walked, ps);
    }
  }

  lemma LastOfWalk(fs: FileSystem, start: Path, ps: seq<Path>)
    requires IsWalk(fs, start, ps)
    ensures ps != []
  {
  }

  /** A walk that reaches a terminal layer in time is an accepted chain. */
  lemma WalkAccepted(fs: FileSystem, start: Path, walked: seq<Path>)
    requires IsWalk(fs, start, walked) && |walked| <= MAX_CHAIN_DEPTH + 1
    requires var p := walked[|walked| - 1];
             fs(p).Ok? && Terminal(fs(p).value) && (|walked| == MAX_CHAIN_DEPTH + 1 ==> !HasParent(fs(p).value))
    ensures Accepted(fs, start, walked)
  {
    hide Terminal, ParentPath, HasParent;
  }

  /** One more step. */
  lemma WalkStep(fs: FileSystem, start: Path, walked: seq<Path>, next: Path)
    requires IsWalk(fs, start, walked)
    requires var p := walked[|walked| - 1]; fs(p).Ok? && !Terminal(fs(p).value) && ParentPath(p, fs(p).value) == Ok(next)
    ensures IsWalk(fs, start, walked + [next])
  {
    hide Terminal, ParentPath;
  }

  lemma TerminalCases(m: Meta)
    ensures HasParent(m) <==> m.parentCid != NO_PARENT
    ensures Terminal(m) <==> m.parentCid == NO_PARENT || ParentHint(m) == ""
  {
  }

  lemma ParentPathIs(p: Path, m: Meta)
    ensures ParentPath(p, m) == ResolvePath(ParentDir(p), ParentHint(m))
  {
  }

  /** A parent graph closed around the start never reaches a terminal layer, so no chain exists. */
  lemma CycleHasNoChain(fs: FileSystem, start: Path, loop: set<Path>, ps: seq<Path>)
    requires start in loop
    requires forall p :: p in loop ==>
               fs(p).Ok? && !Terminal(fs(p).value) && ParentPath(p, fs(p).value).Ok? && ParentPath(p, fs(p).value).value in loop
    ensures !IsChain(fs, start, ps)
  {
    hide Terminal, ParentPath;
    if IsChain(fs, start, ps) {
      for k := 1 to |ps|
        invariant forall m :: 0 <= m < k ==> ps[m] in loop
      {
        assert ps[k - 1] in loop;
        assert 0 <= k - 1 < |ps| - 1;
        assert ParentPath(ps[k - 1], fs(ps[k - 1]).value) == Ok(ps[k - 1 + 1]);
      }
    }
  }

  /** The chain from a path is unique, so a successful walk has found the only one. */
  lemma ChainUnique(fs: FileSystem, start: Path, ps: seq<Path>, qs: seq<Path>)
    requires IsChain(fs, start, ps) && IsChain(fs, start, qs) && |ps| <= |qs|
    ensures ps == qs
  {
    hide Terminal, ParentPath;
    for k := 1 to |ps|
      invariant forall m :: 0 <= m < k ==> ps[m] == qs[m]
    {
      assert 0 <= k - 1 < |ps| - 1;
      assert ParentPath(ps[k - 1], fs(ps[k - 1]).value) == Ok(ps[k - 1 + 1]);
      assert ParentPath(qs[k - 1], fs(qs[k - 1]).value) == Ok(qs[k - 1 + 1]);
    }
    var last := |ps| - 1;
    assert ps[last] == qs[last];
    if |qs| > |ps| {
      assert false;
    }
    assert ps == qs;
  }

  /** The depth limit in numbers: of a chain that ends, 64 layers are accepted, and a 65th that is a true base. */
  lemma DepthLimit(fs: FileSystem, start: Path, ps: seq<Path>)
    requires IsChain(fs, start, ps)
    ensures (exists qs :: Accepted(fs, start, qs)) <==>
            |ps| <= 64 || (|ps| == 65 && fs(ps[64]).value.parentCid == 0xffff_ffff)
  {
    hide Terminal, ParentPath;
    if qs :| Accepted(fs, start, qs) {
      if |ps| <= |qs| {
        ChainUnique(fs, start, ps, qs);
      } else {
        ChainUnique(fs, start, qs, ps);
      }
    }
    if |ps| <= 64 || (|ps| == 65 && fs(ps[64]).value.parentCid == 0xffff_ffff) {
      assert Accepted(fs, start, ps);
    }
  }
}
