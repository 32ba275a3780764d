/** Failure-compatible wrappers standing in for Java's null, Optional and thrown exceptions. */
module Wrappers {

  /** A value that may be absent: Java's `null` or `Optional.empty()`. */
  datatype Option<+T> = None | Some(value: T) {

    /** The wrapped value, or `default` when absent (Java's `x != null ? x : default`). */
    function GetOr(default: T): T {
      match this
      case Some(v) => v
      case None => default
    }
  }

  /** The outcome of an operation that either returns a value or throws a named error. */
  datatype Result<+T, +E> = Success(value: T) | Failure(error: E)

  /** An outcome together with the state of the file store afterwards: files written or
      deleted before a later failure stay written or deleted, because the file system
      takes no part in the database transaction. */
  datatype Effect<+T, +E> = Effect(files: set<string>, result: Result<T, E>)
}

/** Identifiers. */
module Ids {

  /** A UUID or an IDENTITY key, abstracted to a natural number. */
  type Uuid = nat

  /** A key above every key in use: the model of UUID generation and IDENTITY columns,
      which never hand out an identifier that is already taken. */
  function Fresh<T>(s: seq<T>, key: T -> nat): (r: nat)
    ensures forall i :: 0 <= i < |s| ==> key(s[i]) < r
  {
    if |s| == 0 then 0
    else
      var rest := Fresh(s[1..], key);
      assert forall i :: 1 <= i < |s| ==> key(s[i]) == key(s[1..][i - 1]);
      if key(s[0]) < rest then rest else key(s[0]) + 1
  }
}
