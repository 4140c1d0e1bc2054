/** Failure-compatible result type shared by every module of the model,
    the element set of a sequence and the absence of repetitions in one.
    The error side mirrors the server's `ereport(ERROR, ...)`: an error code
    and the message text the server raises. */
module Wrappers {

  /** The error codes the modelled code raises. */
  datatype ErrorCode =
    | BadValue             // malformed or disallowed request content
    | TypeMismatch         // a top-level field of the wrong BSON type
    | Internal             // inconsistent store data or an exhausted capacity
    | CommandNotSupported  // feature switched off or not implemented

  datatype Error = Error(code: ErrorCode, message: string)

  datatype Option<+T> = None | Some(value: T)

  datatype Result<+T> = Success(value: T) | Failure(error: Error) {

    predicate IsFailure() {
      Failure?
    }

    function PropagateFailure<U>(): Result<U>
      requires Failure?
    {
      Failure(error)
    }

    function Extract(): T
      requires Success?
    {
      value
    }
  }

  /** A failure with the given code and message. */
  function Fail<T>(code: ErrorCode, message: string): (r: Result<T>)
    ensures r.Failure? && r.error.code == code
  {
    Failure(Error(code, message))
  }

  /** The set of the elements of a sequence. */
  function Elements<T>(s: seq<T>): set<T> {
    set x | x in s
  }

  /** True when no element of `s` occurs twice. */
  predicate NoDuplicates<T(==)>(s: seq<T>) {
    forall i, j :: 0 <= i < j < |s| ==> s[i] != s[j]
  }

  lemma NoDuplicatesCons<T>(c: T, t: seq<T>)
    ensures NoDuplicates([c] + t) <==> c !in t && NoDuplicates(t)
  {
    var s := [c] + t;
    assert forall k :: 0 <= k < |t| ==> s[k + 1] == t[k];
    if NoDuplicates(s) {
      forall i, j | 0 <= i < j < |t|
        ensures t[i] != t[j]
      {
        assert s[i + 1] != s[j + 1];
      }
      forall k | 0 <= k < |t|
        ensures t[k] != c
      {
        assert s[0] != s[k + 1];
      }
    }
  }

  lemma ElementsAppend<T>(a: seq<T>, b: seq<T>)
    ensures Elements(a + b) == Elements(a) + Elements(b)
  {
  }
}
