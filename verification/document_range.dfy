/** Document ranges and their bisection.

    A range is the window of document ids between two iterators of one shared
    vector; here it is the sequence of ids in that window. A partition is the pair
    of sibling windows produced by cutting a range at its midpoint by position. */
module Ranges {

  datatype Partition = Partition(left: seq<nat>, right: seq<nat>)

  /** `document_range::split`: the left side takes the first `size / 2` documents,
      the right side the rest. */
  function Split(range: seq<nat>): (p: Partition)
    ensures p.left + p.right == range
    ensures |p.left| == |range| / 2
    ensures |p.right| - |p.left| == |range| % 2
  {
    Partition(range[..|range| / 2], range[|range| / 2..])
  }

  /** The two sides together hold exactly the documents of `range`, in that order:
      the right side is never shorter than the left, and at most one longer. */
  lemma SplitHalves(range: seq<nat>)
    ensures var p := Split(range);
      && multiset(p.left) + multiset(p.right) == multiset(range)
      && 0 <= |p.right| - |p.left| <= 1
      && (|range| >= 2 ==> |p.left| >= 1)
  {
    var p := Split(range);
    assert range == p.left + p.right;
  }
}
