/** Term degrees of a document range: for every term, how many times it occurs
    in the documents of the range. */
module Degrees {
  import opened Forward
  import opened Ranges

  /** Occurrences of term `t` summed over the documents of `range`, counted from
      the last document backwards. */
  function Occurrences(fwd: ForwardIndex, range: seq<nat>, t: nat): nat
    requires fwd.Covers(range)
  {
    if range == [] then 0
    else Occurrences(fwd, range[..|range| - 1], t) + multiset(fwd.Terms(range[|range| - 1]))[t]
  }

  /** Number of documents of `range` that contain term `t`. */
  function DocsContaining(fwd: ForwardIndex, range: seq<nat>, t: nat): nat
    requires fwd.Covers(range)
  {
    if range == [] then 0
    else DocsContaining(fwd, range[..|range| - 1], t) + (if t in fwd.Terms(range[|range| - 1]) then 1 else 0)
  }

  /** `deg` holds, for every term of the vocabulary, its occurrences in `range`. */
  predicate IsDegreeMap(fwd: ForwardIndex, range: seq<nat>, deg: seq<int>)
    requires fwd.Covers(range)
  {
    |deg| == fwd.termCount && forall t :: 0 <= t < |deg| ==> deg[t] == Occurrences(fwd, range, t)
  }

  /** `degree_map_pair`: the degrees of the two sides of a partition. */
  datatype DegreePair = DegreePair(left: seq<int>, right: seq<int>)

  /** `for (auto &term : terms) deg[term]++`. */
  method AddTerms(terms: seq<nat>, deg: seq<int>) returns (deg': seq<int>)
    requires AllBelow(terms, |deg|)
    ensures |deg'| == |deg|
    ensures forall t :: 0 <= t < |deg| ==> deg'[t] == deg[t] + multiset(terms)[t]
  {
    deg' := deg;
    var j := 0;
    while j < |terms|
      invariant 0 <= j <= |terms|
      invariant |deg'| == |deg|
      invariant forall t :: 0 <= t < |deg| ==> deg'[t] == deg[t] + multiset(terms[..j])[t]
    {
      assert terms[..j + 1] == terms[..j] + [terms[j]];
      deg' := deg'[terms[j] := deg'[terms[j]] + 1];
      j := j + 1;
    }
    assert terms[..j] == terms;
  }

  /** Moving one document from one side to the other: every term of the document
      loses one unit on the side it leaves and gains one on the side it joins. */
  method MoveTerms(terms: seq<nat>, from: seq<int>, to: seq<int>) returns (from': seq<int>, to': seq<int>)
    requires |from| == |to|
    requires AllBelow(terms, |from|)
    ensures |from'| == |from| && |to'| == |to|
    ensures forall t :: 0 <= t < |from| ==> from'[t] == from[t] - multiset(terms)[t]
    ensures forall t :: 0 <= t < |to| ==> to'[t] == to[t] + multiset(terms)[t]
  {
    from', to' := from, to;
    var j := 0;
    while j < |terms|
      invariant 0 <= j <= |terms|
      invariant |from'| == |from| && |to'| == |to|
      invariant forall t :: 0 <= t < |from| ==> from'[t] == from[t] - multiset(terms[..j])[t]
      invariant forall t :: 0 <= t < |to| ==> to'[t] == to[t] + multiset(terms[..j])[t]
    {
      assert terms[..j + 1] == terms[..j] + [terms[j]];
      from' := from'[terms[j] := from'[terms[j]] - 1];
      to' := to'[terms[j] := to'[terms[j]] + 1];
      j := j + 1;
    }
    assert terms[..j] == terms;
  }

  /** `compute_degrees(range)`: one counter per term, incremented for every
      occurrence in every document of the range. */
  method ComputeDegrees(fwd: ForwardIndex, range: seq<nat>) returns (deg: seq<int>)
    requires fwd.Valid() && fwd.Covers(range)
    ensures IsDegreeMap(fwd, range, deg)
  {
    deg := seq(fwd.termCount, _ => 0);
    var i := 0;
    while i < |range|
      invariant 0 <= i <= |range|
      invariant |deg| == fwd.termCount
      invariant forall t :: 0 <= t < |deg| ==> deg[t] == Occurrences(fwd, range[..i], t)
    {
      assert range[..i + 1][..i] == range[..i];
      deg := AddTerms(fwd.Terms(range[i]), deg);
      i := i + 1;
    }
    assert range[..i] == range;
  }

  /** `compute_degrees(partition)`: the degrees of both sides. */
  method ComputeDegreePair(fwd: ForwardIndex, p: Partition) returns (deg: DegreePair)
    requires fwd.Valid() && fwd.Covers(p.left) && fwd.Covers(p.right)
    ensures IsDegreeMap(fwd, p.left, deg.left)
    ensures IsDegreeMap(fwd, p.right, deg.right)
  {
    var l := ComputeDegrees(fwd, p.left);
    var r := ComputeDegrees(fwd, p.right);
    deg := DegreePair(l, r);
  }

  /** Extending a prefix of a range by one document adds that document's
      occurrences. */
  lemma OccurrencesPrefixStep(fwd: ForwardIndex, s: seq<nat>, k: nat, t: nat)
    requires fwd.Covers(s) && k < |s|
    ensures fwd.Covers(s[..k]) && fwd.Covers(s[..k + 1])
    ensures Occurrences(fwd, s[..k + 1], t) == Occurrences(fwd, s[..k], t) + multiset(fwd.Terms(s[k]))[t]
  {
    assert s[..k + 1][..k] == s[..k];
  }

  /** Occurrences are additive over concatenated ranges. */
  lemma {:induction false} OccurrencesAppend(fwd: ForwardIndex, a: seq<nat>, b: seq<nat>, t: nat)
    requires fwd.Covers(a) && fwd.Covers(b)
    ensures fwd.Covers(a + b)
    ensures Occurrences(fwd, a + b, t) == Occurrences(fwd, a, t) + Occurrences(fwd, b, t)
    decreases |b|
  {
    if b == [] {
      assert a + b == a;
    } else {
      var b' := b[..|b| - 1];
      OccurrencesAppend(fwd, a, b', t);
      assert (a + b)[..|a + b| - 1] == a + b';
    }
  }

  /** Dropping the document at position `i` removes exactly its occurrences. */
  lemma {:induction false} OccurrencesRemove(fwd: ForwardIndex, s: seq<nat>, i: nat, t: nat)
    requires fwd.Covers(s) && i < |s|
    ensures fwd.Covers(s[..i] + s[i + 1..])
    ensures Occurrences(fwd, s, t) == Occurrences(fwd, s[..i] + s[i + 1..], t) + multiset(fwd.Terms(s[i]))[t]
  {
    var x := s[i];
    assert s == s[..i] + [x] + s[i + 1..];
    OccurrencesAppend(fwd, s[..i], s[i + 1..], t);
    OccurrencesAppend(fwd, s[..i], [x], t);
    OccurrencesAppend(fwd, s[..i] + [x], s[i + 1..], t);
    assert Occurrences(fwd, [x], t) == multiset(fwd.Terms(x))[t] by {
      assert [x][..0] == [];
    }
  }

  /** Removing one element from each of two equal multisets of positions. */
  lemma MultisetRemove(a: seq<nat>, b: seq<nat>, i: nat)
    requires multiset(a) == multiset(b) && |a| > 0 && i < |b| && b[i] == a[|a| - 1]
    ensures multiset(a[..|a| - 1]) == multiset(b[..i] + b[i + 1..])
  {
    var x := b[i];
    assert a == a[..|a| - 1] + [x];
    assert b == b[..i] + [x] + b[i + 1..];
    assert multiset(a[..|a| - 1]) == multiset(a) - multiset{x};
    assert multiset(b[..i] + b[i + 1..]) == multiset(b) - multiset{x};
  }

  /** A reordering of a covered range is covered. */
  lemma CoversPermutation(fwd: ForwardIndex, a: seq<nat>, b: seq<nat>)
    requires fwd.Covers(a) && multiset(a) == multiset(b)
    ensures fwd.Covers(b)
  {
    forall i | 0 <= i < |b| ensures b[i] < |fwd.docs| {
      assert b[i] in multiset(a);
    }
  }

  /** Occurrences depend only on which documents a range holds, not on their
      order: reordering a side keeps its degrees correct. */
  lemma {:induction false} OccurrencesPermutation(fwd: ForwardIndex, a: seq<nat>, b: seq<nat>, t: nat)
    requires fwd.Covers(a) && multiset(a) == multiset(b)
    ensures fwd.Covers(b)
    ensures Occurrences(fwd, a, t) == Occurrences(fwd, b, t)
    decreases |a|
  {
    CoversPermutation(fwd, a, b);
    if a != [] {
      var x := a[|a| - 1];
      assert x in multiset(b);
      var i :| 0 <= i < |b| && b[i] == x;
      MultisetRemove(a, b, i);
      OccurrencesPermutation(fwd, a[..|a| - 1], b[..i] + b[i + 1..], t);
      OccurrencesRemove(fwd, b, i, t);
    } else {
      assert b == [];
    }
  }

  /** A document of the range contributes all of its occurrences to the
      range's degree, so decrementing by them cannot go below zero. */
  lemma {:induction false} MemberBoundsOccurrences(fwd: ForwardIndex, range: seq<nat>, j: nat, t: nat)
    requires fwd.Covers(range) && j < |range|
    ensures Occurrences(fwd, range, t) >= multiset(fwd.Terms(range[j]))[t]
    decreases |range|
  {
    var last := |range| - 1;
    if j < last {
      assert range[..last][j] == range[j];
      MemberBoundsOccurrences(fwd, range[..last], j, t);
    }
  }

  /** A sequence without repeated elements holds each element once. */
  lemma {:induction false} DistinctCount(s: seq<nat>, t: nat)
    requires forall i, j :: 0 <= i < j < |s| ==> s[i] != s[j]
    ensures multiset(s)[t] == if t in s then 1 else 0
  {
    if s != [] {
      DistinctCount(s[1..], t);
      assert s == [s[0]] + s[1..];
      assert s[0] !in s[1..];
    }
  }

  /** When every document lists a term at most once, the degree of a term is the
      number of documents containing it. */
  lemma {:induction false} DistinctOccurrences(fwd: ForwardIndex, range: seq<nat>, t: nat)
    requires fwd.Covers(range) && fwd.DistinctTerms()
    ensures Occurrences(fwd, range, t) == DocsContaining(fwd, range, t)
    decreases |range|
  {
    if range != [] {
      DistinctOccurrences(fwd, range[..|range| - 1], t);
      var doc := range[|range| - 1];
      DistinctCount(fwd.Terms(doc), t);
    }
  }
}
