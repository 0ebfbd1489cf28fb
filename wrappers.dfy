/** Failure-compatible result types shared by both readers. */
module Wrappers {

  /** A value that may be missing: the readers' "null" for a value that
      could not be decoded. */
  datatype Option<+T> = None | Some(value: T)

  /** The outcome of an operation that can raise. */
  datatype Result<+R, +E> = Success(value: R) | Failure(error: E)

  /** What a full iteration over a generator produces: the items it yielded,
      then either a clean end (`stop == None`) or the exception it raised. */
  datatype Scan<+T, +E> = Scan(items: seq<T>, stop: Option<E>)

  /** The items of `sc`, preceded by `prefix`. */
  function Prepend<T, E>(prefix: seq<T>, sc: Scan<T, E>): (r: Scan<T, E>)
    ensures r.items == prefix + sc.items && r.stop == sc.stop
  {
    Scan(prefix + sc.items, sc.stop)
  }

  /** Yielding one more item moves it from the rest of the run to the
      items already yielded. */
  lemma PrependSnoc<T, E>(prefix: seq<T>, x: T, sc: Scan<T, E>)
    ensures Prepend(prefix, Prepend([x], sc)) == Prepend(prefix + [x], sc)
  {
    assert prefix + ([x] + sc.items) == (prefix + [x]) + sc.items;
  }

  /** Past the first item, the items of a run with one item in front are
      the items of the run.
      Stated apart, with an empty body, so that the proofs that use it
      unfold the definitions only here. */
  lemma PrependOneAt<T, E>(x: T, sc: Scan<T, E>, k: nat)
    requires 0 < k <= |sc.items|
    ensures |Prepend([x], sc).items| == |sc.items| + 1
    ensures Prepend([x], sc).items[k] == sc.items[k - 1]
  {
  }

  /** A run that yields nothing more ends with what was yielded so far. */
  lemma PrependNothing<T, E>(prefix: seq<T>, stop: Option<E>)
    ensures Prepend(prefix, Scan([], stop)) == Scan(prefix, stop)
  {
    assert prefix + [] == prefix;
  }
}
