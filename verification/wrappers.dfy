/** Failure-compatible result types shared by every module of the model,
    and the kinds of run-time fault the scrapers can raise. */
module Wrappers {

  /** An optional value; Python's `None` is `None` here. */
  datatype Option<+T> = None | Some(value: T)

  /** Either a value or the fault that aborted the computation. */
  datatype Result<+R, +E> = Success(value: R) | Failure(error: E) {

    predicate IsFailure() {
      Failure?
    }

    function PropagateFailure<U>(): Result<U, E>
      requires Failure?
    {
      Failure(error)
    }

    function Extract(): R
      requires Success?
    {
      value
    }
  }

  /** The Python exceptions the scrapers let escape: indexing past the end
      of a list (`IndexError`) and `int()` of a non-numeric string (`ValueError`). */
  datatype Fault = IndexError | ValueError

  /** Two computations in a row that each yield a list: both lists in order,
      or the first fault. */
  function Concat<T>(x: Result<seq<T>, Fault>, y: Result<seq<T>, Fault>): (r: Result<seq<T>, Fault>)
    ensures r.Success? <==> x.Success? && y.Success?
    ensures r.Failure? ==> r == (if x.Failure? then x else y)
    ensures r.Success? ==> r.value == x.value + y.value
  {
    if x.Failure? then x
    else if y.Failure? then y
    else Success(x.value + y.value)
  }

  /** Grouping does not matter when three computations run in a row. */
  lemma ConcatAssoc<T>(x: Result<seq<T>, Fault>, y: Result<seq<T>, Fault>, z: Result<seq<T>, Fault>)
    ensures Concat(x, Concat(y, z)) == Concat(Concat(x, y), z)
  {
    if x.Success? && y.Success? && z.Success? {
      assert x.value + (y.value + z.value) == (x.value + y.value) + z.value;
    }
  }
}
