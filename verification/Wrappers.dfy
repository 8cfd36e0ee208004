/** The optional value and the fallible result used by every other module. */
module Wrappers {

  datatype Option<+T> = None | Some(value: T)

  /** Why a store call or a command failed. */
  datatype Error = NotFound | Invalid | Unparseable

  datatype Result<+T> = Ok(value: T) | Err(error: Error)

  /** No element twice. */
  ghost predicate Distinct<T>(s: seq<T>) {
    forall i, j :: 0 <= i < j < |s| ==> s[i] != s[j]
  }

  /** Each member once, and nothing else. */
  ghost predicate Orders<T(!new)>(order: seq<T>, members: set<T>) {
    (forall x :: x in order <==> x in members) && Distinct(order)
  }
}
