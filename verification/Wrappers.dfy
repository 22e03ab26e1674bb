/** Failure-compatible results shared by every module of the model. */
module Wrappers {

  datatype Option<+T> = None | Some(value: T)

  datatype Result<+T, +E> = Ok(value: T) | Err(error: E)

  /** Puts what a loop has produced so far in front of what is still to come. */
  function Resume<T, E>(done: seq<T>, rest: Result<seq<T>, E>): (r: Result<seq<T>, E>)
    ensures done == [] ==> r == rest
    ensures rest == Ok([]) ==> r == Ok(done)
    ensures rest.Err? ==> r == rest
  {
    match rest
    case Ok(more) =>
      assert [] + more == more && done + [] == done;
      Ok(done + more)
    case Err(e) => Err(e)
  }

  lemma ResumeTwice<T, E>(a: seq<T>, b: seq<T>, rest: Result<seq<T>, E>)
    ensures Resume(a, Resume(b, rest)) == Resume(a + b, rest)
  {
    if rest.Ok? {
      assert a + (b + rest.value) == (a + b) + rest.value;
    }
  }
}
