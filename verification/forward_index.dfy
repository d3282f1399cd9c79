/** The forward index as the bisection sees it: for every document id, the ids of
    the terms it contains, and the size of the term vocabulary. */
module Forward {

  /** Every id in `s` is below `n`: it can index a vector of `n` entries. */
  predicate AllBelow(s: seq<nat>, n: nat)
  {
    forall i :: 0 <= i < |s| ==> s[i] < n
  }

  datatype ForwardIndex = ForwardIndex(docs: seq<seq<nat>>, termCount: nat) {

    /** Every term id is below `termCount`, so per-term degree arrays of length
        `termCount` can be indexed by it. */
    predicate Valid()
    {
      forall d, j :: 0 <= d < |docs| && 0 <= j < |docs[d]| ==> docs[d][j] < termCount
    }

    /** Each document lists each of its terms once. */
    predicate DistinctTerms()
    {
      forall d, i, j :: 0 <= d < |docs| && 0 <= i < j < |docs[d]| ==> docs[d][i] != docs[d][j]
    }

    function Size(): nat
    {
      |docs|
    }

    function Terms(doc: nat): seq<nat>
      requires doc < |docs|
    {
      docs[doc]
    }

    /** Every document of `range` is a document of this index. */
    predicate Covers(range: seq<nat>)
    {
      AllBelow(range, |docs|)
    }
  }
}
