module Prelude {
  datatype Option<+T> = None | Some(value: T)

  datatype Result<+T, +E> = Ok(value: T) | Err(error: E)

  predicate Distinct<T(==)>(s: seq<T>) {
    forall j, k :: 0 <= j < k < |s| ==> s[j] != s[k]
  }

  function Sum(ns: seq<nat>): nat {
    if ns == [] then 0 else ns[0] + Sum(ns[1..])
  }
}
