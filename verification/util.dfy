/** Helpers every module of the model uses: an optional value, integer
    bounds, and a regrouping step for sequence concatenation. */
module Util {

  /** A value that may be missing: `None` models the source's `null`. */
  datatype Option<+T> = None | Some(value: T)

  function Max(a: int, b: int): int
  {
    if a < b then b else a
  }

  function Min(a: int, b: int): int
  {
    if a < b then a else b
  }

  /** Concatenation regrouped, for a middle-and-end part already known. */
  lemma Regroup<T>(x: seq<T>, y: seq<T>, z: seq<T>, rest: seq<T>)
    requires rest == y + z
    ensures (x + y) + z == x + rest
  {
  }
}
