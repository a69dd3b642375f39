/** What every part uses: optional values, and lists without repetitions. */
module Basics {
  datatype Option<+T> = None | Some(value: T)

  ghost predicate NoRepeats<T>(l: seq<T>) {
    forall i, j :: 0 <= i < j < |l| ==> l[i] != l[j]
  }

  /** The list has every element of the set once. */
  ghost predicate Enumerates<K(!new)>(l: seq<K>, keys: set<K>) {
    NoRepeats(l) && forall k :: k in l <==> k in keys
  }
}
