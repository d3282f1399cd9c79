/** `get_mapping`: turns the reordered document sequence into the map from each
    original document id to its new position. */
module Mapping {
  import opened Forward

  /** The identity order `0, 1, ..., n - 1`. */
  function Iota(n: nat): seq<nat>
  {
    seq(n, (i: nat) => i)
  }

  /** `c` holds each id `0 .. |c| - 1` exactly once. */
  predicate IsPermutation(c: seq<nat>)
  {
    multiset(c) == multiset(Iota(|c|))
  }

  /** Every id of `c` can index a vector of `|c|` entries. */
  predicate IdsInRange(c: seq<nat>)
  {
    AllBelow(c, |c|)
  }

  /** `p` is the last position of `c` holding `id`. */
  predicate LastOccurrence(c: seq<nat>, id: nat, p: nat)
  {
    p < |c| && c[p] == id && forall q :: p < q < |c| ==> c[q] != id
  }

  lemma {:induction false} IotaCount(n: nat, x: nat)
    ensures multiset(Iota(n))[x] == if x < n then 1 else 0
  {
    if n > 0 {
      IotaCount(n - 1, x);
      assert Iota(n) == Iota(n - 1) + [n - 1];
    }
  }

  /** Two equal ids at different positions occur at least twice. */
  lemma RepeatedId(c: seq<nat>, i: nat, j: nat)
    requires i < j < |c| && c[i] == c[j]
    ensures multiset(c)[c[i]] >= 2
  {
    assert c == c[..j] + c[j..];
    assert c[..j][i] == c[i];
    assert c[j..][0] == c[j];
    assert multiset(c[..j])[c[i]] >= 1;
    assert multiset(c[j..])[c[i]] >= 1;
  }

  /** A permutation of the ids holds each id once, and holds all of them. */
  lemma PermutationFacts(c: seq<nat>)
    requires IsPermutation(c)
    ensures IdsInRange(c)
    ensures forall i, j :: 0 <= i < j < |c| ==> c[i] != c[j]
    ensures forall id :: 0 <= id < |c| ==> id in c
  {
    forall i | 0 <= i < |c| ensures c[i] < |c| {
      assert c[i] in multiset(c);
      IotaCount(|c|, c[i]);
    }
    forall i, j | 0 <= i < j < |c| ensures c[i] != c[j] {
      if c[i] == c[j] {
        RepeatedId(c, i, j);
        IotaCount(|c|, c[i]);
      }
    }
    forall id | 0 <= id < |c| ensures id in c {
      IotaCount(|c|, id);
      assert id in multiset(c);
    }
  }

  /** `get_mapping`: `mapping[c[p]] = p` for every position in order, so each id
      ends up mapped to the last position holding it; ids that never occur keep
      the initial 0. On a permutation the result is its inverse. */
  method GetMapping(c: seq<nat>) returns (m: seq<nat>)
    requires IdsInRange(c)
    ensures |m| == |c|
    ensures forall id :: 0 <= id < |c| && id in c ==> LastOccurrence(c, id, m[id])
    ensures forall id :: 0 <= id < |c| && id !in c ==> m[id] == 0
    ensures IsPermutation(c) ==> forall p :: 0 <= p < |c| ==> m[c[p]] == p
  {
    m := seq(|c|, _ => 0);
    var i := 0;
    while i < |c|
      invariant 0 <= i <= |c|
      invariant |m| == |c|
      invariant forall id :: 0 <= id < |c| && id in c[..i] ==> LastOccurrence(c[..i], id, m[id])
      invariant forall id :: 0 <= id < |c| && id !in c[..i] ==> m[id] == 0
    {
      assert c[..i + 1] == c[..i] + [c[i]];
      m := m[c[i] := i];
      i := i + 1;
    }
    assert c[..i] == c;
    if IsPermutation(c) {
      MappingInvertsPermutation(c, m);
    }
  }

  /** The mapping `get_mapping` builds from a permutation is a bijection of the
      ids onto the positions, and undoes the permutation in both directions. */
  lemma {:induction false} MappingInvertsPermutation(c: seq<nat>, m: seq<nat>)
    requires IsPermutation(c) && |m| == |c|
    requires forall id :: 0 <= id < |c| && id in c ==> LastOccurrence(c, id, m[id])
    ensures forall p :: 0 <= p < |c| ==> c[p] < |m| && m[c[p]] == p
    ensures forall id :: 0 <= id < |m| ==> m[id] < |m| && c[m[id]] == id
    ensures forall i, j :: 0 <= i < j < |m| ==> m[i] != m[j]
  {
    PermutationFacts(c);
    forall p | 0 <= p < |c| ensures m[c[p]] == p {
      assert c[p] in c;
      assert LastOccurrence(c, c[p], m[c[p]]);
    }
    forall id | 0 <= id < |m| ensures m[id] < |m| && c[m[id]] == id {
      assert id in c;
    }
    forall i, j | 0 <= i < j < |m| ensures m[i] != m[j] {
      assert i in c && j in c;
      assert c[m[i]] == i && c[m[j]] == j;
    }
  }
}
