/** Result and Option, used for the contracts' panics and the services' thrown errors. */
module Wrappers {

  datatype Option<+T> = None | Some(value: T)

  /** A panicking call reports an error; the host undoes everything the call did. */
  datatype Result<+T, +E> = Ok(value: T) | Err(error: E)

  /** A fault, and whether it is there. */
  datatype Check<E> = Check(there: bool, fault: E)

  /** The outcome of a call that makes its checks in this order: the first fault that is there, or success. */
  ghost predicate Decided<T, E>(checks: seq<Check<E>>, r: Result<T, E>) {
    match r
    case Ok(_) => forall i :: 0 <= i < |checks| ==> !checks[i].there
    case Err(e) =>
      exists i :: 0 <= i < |checks| && checks[i] == Check(true, e) && forall j :: 0 <= j < i ==> !checks[j].there
  }

  /** There is at most one outcome: if the first fault at `i` is there, it is the error. */
  lemma DecidedBy<T, E>(checks: seq<Check<E>>, r: Result<T, E>, i: nat)
    requires Decided(checks, r) && i < |checks| && checks[i].there && forall j :: 0 <= j < i ==> !checks[j].there
    ensures r == Err(checks[i].fault)
  {
  }
}
