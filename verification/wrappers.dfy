/** Failure-compatible Option and Result types used throughout the model.
    A thrown JavaScript `Error` becomes a `Failure`; an `undefined` return
    becomes `None`. */
module Wrappers {

  datatype Option<+T> = None | Some(value: T) {

    predicate IsFailure() {
      None?
    }

    function PropagateFailure<U>(): Option<U>
      requires None?
    {
      None
    }

    function Extract(): T
      requires Some?
    {
      value
    }
  }

  datatype Result<+R, +E> = Success(value: R) | Failure(error: E) {

    predicate IsFailure() {
      Failure?
    }

    function PropagateFailure<U>(): Result<U, E>
      requires Failure?
    {
      Failure(error)
    }

    function Extract(): R
      requires Success?
    {
      value
    }
  }

  /** The first position from `from` on whose element satisfies `p`, or
      `None` when there is none (`Array.prototype.findIndex` returning
      -1). */
  function FindIndex<T>(xs: seq<T>, p: T -> bool, from: nat): (r: Option<nat>)
    requires from <= |xs|
    ensures r.Some? ==> from <= r.value < |xs| && p(xs[r.value])
    ensures forall j :: from <= j < (if r.Some? then r.value else |xs|) ==> !p(xs[j])
    decreases |xs| - from
  {
    if from == |xs| then None
    else if p(xs[from]) then Some(from)
    else FindIndex(xs, p, from + 1)
  }

  /** Any answer meeting `FindIndex`'s contract is the one it returns. */
  lemma FindIndexIs<T>(xs: seq<T>, p: T -> bool, r: Option<nat>)
    requires r.Some? ==> r.value < |xs| && p(xs[r.value])
    requires forall j :: 0 <= j < (if r.Some? then r.value else |xs|) ==> !p(xs[j])
    ensures FindIndex(xs, p, 0) == r
  {
    var f := FindIndex(xs, p, 0);
    if f.Some? && r.Some? {
      assert !(f.value < r.value) && !(r.value < f.value);
    }
  }
}
