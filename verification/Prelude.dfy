/** The `T | undefined` and error-or-value shapes that every other module uses. */
module Prelude {

  datatype Option<+T> = None | Some(value: T) {
    /** The source's `??` operator. */
    function GetOr(default: T): T {
      match this
      case Some(v) => v
      case None => default
    }
  }

  datatype Result<+T, +E> = Ok(value: T) | Err(error: E)

  /** No two positions hold the same element. */
  ghost predicate NoDuplicates<T>(s: seq<T>) {
    forall i, j :: 0 <= i < j < |s| ==> s[i] != s[j]
  }

  lemma Regroup<T>(a: seq<T>, b: seq<T>, c: seq<T>)
    ensures a + b + c == a + (b + c)
  {
  }

  /** `kept` is what stands in `xs` at the positions `at`, in order. */
  ghost predicate Picks<T>(at: seq<nat>, kept: seq<T>, xs: seq<T>) {
    && |at| == |kept|
    && (forall i, k :: 0 <= i < k < |at| ==> at[i] < at[k])
    && (forall i :: 0 <= i < |at| ==> at[i] < |xs| && kept[i] == xs[at[i]])
  }

  /** One more element at the end, picked or not. */
  lemma PicksOneMore<T>(at: seq<nat>, kept: seq<T>, xs: seq<T>, x: T)
    requires Picks(at, kept, xs)
    ensures Picks(at, kept, xs + [x]) && Picks(at + [|xs|], kept + [x], xs + [x])
    ensures |xs| !in at
  {
  }
}
