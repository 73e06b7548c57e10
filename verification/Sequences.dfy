/** The members of a list, and lists without repetition. */
module Sequences {

  function Elems<T(==)>(s: seq<T>): set<T> {
    set x | x in s
  }

  /** No member stands twice. */
  ghost predicate Distinct<T>(s: seq<T>) {
    forall i, j :: 0 <= i < j < |s| ==> s[i] != s[j]
  }
}
