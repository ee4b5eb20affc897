/** Failure-compatible results, shared by every component. */
module Wrappers {

  datatype Option<+T> = None | Some(value: T)

  /** The error kinds the reader, the parsers and the readers' I/O distinguish. */
  datatype Error =
    | UnexpectedEof
    | InvalidData
    | InvalidInput
    | PermissionDenied
    | NotFound
    | FileTooSmall
    | BadMagic
    | UnsupportedVersion
    | CompressedNotSupported
    | FieldOutOfRange
    | GeometryOverflow
    | UnsupportedDiskType

  datatype Result<+T> = Ok(value: T) | Err(error: Error) {
    predicate IsFailure() {
      Err?
    }

    function PropagateFailure<U>(): Result<U>
      requires Err?
    {
      Err(error)
    }

    function Extract(): T
      requires Ok?
    {
      value
    }
  }

  /** Rust's `Option::ok_or`. */
  function OkOr<T>(o: Option<T>, e: Error): Result<T> {
    match o
    case Some(v) => Ok(v)
    case None => Err(e)
  }

  /** Rust's `Result::map_err` to a fixed error. */
  function MapErr<T>(r: Result<T>, e: Error): Result<T> {
    if r.Ok? then r else Err(e)
  }

  /** Every value in order, or the first error. */
  function Collect<T>(rs: seq<Result<T>>): (r: Result<seq<T>>)
    ensures r.Ok? ==> |r.value| == |rs| && forall k :: 0 <= k < |rs| ==> rs[k] == Ok(r.value[k])
  {
    if rs == [] then Ok([]) else
    var head :- rs[0];
    var tail :- Collect(rs[1..]);
    Ok([head] + tail)
  }

  lemma {:induction false} CollectAll<T>(rs: seq<Result<T>>, vs: seq<T>)
    requires |rs| == |vs| && forall k :: 0 <= k < |rs| ==> rs[k] == Ok(vs[k])
    ensures Collect(rs) == Ok(vs)
  {
    if rs == [] {
      assert vs == [];
    } else {
      CollectAll(rs[1..], vs[1..]);
      assert [vs[0]] + vs[1..] == vs;
    }
  }

  lemma {:induction false} CollectFirstError<T>(rs: seq<Result<T>>, k: nat)
    requires k < |rs| && rs[k].Err? && forall j :: 0 <= j < k ==> rs[j].Ok?
    ensures Collect(rs) == Err(rs[k].error)
  {
    if k > 0 {
      CollectFirstError(rs[1..], k - 1);
    }
  }
}
