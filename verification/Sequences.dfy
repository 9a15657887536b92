/** Facts about sequences that several files use. */
module Sequences {
  predicate Distinct(s: seq<nat>) {
    forall i, j :: 0 <= i < j < |s| ==> s[i] != s[j]
  }

  function Zeros(n: nat): seq<nat> {
    seq(n, _ => 0)
  }
}
