/** Failure-compatible wrappers. Every Python exception of the modelled
    code (IndexError, struct.error, AssertionError, ...) is a `Fail`. */
module Wrappers {

  datatype Option<+T> = None | Some(value: T)

  datatype Result<+T> = Ok(value: T) | Fail {

    predicate IsFailure() {
      Fail?
    }

    function PropagateFailure<U>(): Result<U>
      requires Fail?
    {
      Fail
    }

    function Extract(): T
      requires Ok?
    {
      value
    }
  }

  /** A sequence put in front of the value of an Option, None staying None. */
  function Prepend<T>(a: seq<T>, o: Option<seq<T>>): Option<seq<T>>
  {
    match o
    case None => None
    case Some(v) => Some(a + v)
  }

  lemma {:induction false} PrependPrepend<T>(a: seq<T>, b: seq<T>, o: Option<seq<T>>)
    ensures Prepend(a, Prepend(b, o)) == Prepend(a + b, o)
  {
    if o.Some? {
      assert (a + b) + o.value == a + (b + o.value);
    }
  }
}
