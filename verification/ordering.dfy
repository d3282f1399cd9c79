/** The two orders the bisection sorts by: descending move gain (`by_gain`) inside
    an iteration, and ascending document id at the leaves. Both sorts are modelled
    by insertion sort, which yields one of the orders `std::sort` may produce. */
module Ordering {
  import opened Forward

  /** Every document of `s` has a gain entry. */
  predicate HasGains(s: seq<nat>, gains: seq<int>)
  {
    AllBelow(s, |gains|)
  }

  /** The `by_gain` comparator: `lhs` goes first when its gain is strictly larger. */
  predicate ByGain(gains: seq<int>, lhs: nat, rhs: nat)
    requires lhs < |gains| && rhs < |gains|
  {
    gains[lhs] > gains[rhs]
  }

  /** `by_gain` meets what `std::sort` demands of its comparator: it is a strict
      weak order, so incomparability (equal gains) is an equivalence that the
      order respects. */
  lemma ByGainStrictWeakOrder(gains: seq<int>, a: nat, b: nat, c: nat)
    requires a < |gains| && b < |gains| && c < |gains|
    ensures !ByGain(gains, a, a)
    ensures ByGain(gains, a, b) ==> !ByGain(gains, b, a)
    ensures ByGain(gains, a, b) && ByGain(gains, b, c) ==> ByGain(gains, a, c)
    ensures !ByGain(gains, a, b) && !ByGain(gains, b, a) && !ByGain(gains, b, c) && !ByGain(gains, c, b)
            ==> !ByGain(gains, a, c) && !ByGain(gains, c, a)
    ensures ByGain(gains, a, c) ==> ByGain(gains, a, b) || ByGain(gains, b, c)
  {
  }

  /** No document is ordered after one it goes before under `by_gain`: gains are
      non-increasing along `s`. */
  predicate SortedByGain(s: seq<nat>, gains: seq<int>)
    requires HasGains(s, gains)
  {
    forall i, j :: 0 <= i < j < |s| ==> !ByGain(gains, s[j], s[i])
  }

  /** Ids are non-decreasing along `s`. */
  predicate SortedById(s: seq<nat>)
  {
    forall i, j :: 0 <= i < j < |s| ==> s[i] <= s[j]
  }

  /** Putting a document in front of a gain-sorted sequence keeps it sorted when
      its gain is at least that of the current head. */
  lemma ConsSortedByGain(h: nat, s: seq<nat>, gains: seq<int>)
    requires h < |gains| && HasGains(s, gains) && SortedByGain(s, gains)
    requires s != [] ==> gains[h] >= gains[s[0]]
    ensures HasGains([h] + s, gains) && SortedByGain([h] + s, gains)
  {
    var r := [h] + s;
    forall i, j | 0 <= i < j < |r| ensures gains[r[i]] >= gains[r[j]] {
      if i == 0 && j > 1 {
        assert gains[s[0]] >= gains[s[j - 1]];
      }
    }
  }

  function InsertByGain(x: nat, s: seq<nat>, gains: seq<int>): (r: seq<nat>)
    requires x < |gains| && HasGains(s, gains) && SortedByGain(s, gains)
    ensures multiset(r) == multiset(s) + multiset{x}
    ensures |r| == |s| + 1
    ensures r[0] == x || (s != [] && r[0] == s[0])
    ensures HasGains(r, gains) && SortedByGain(r, gains)
  {
    if s == [] || gains[x] >= gains[s[0]] then
      ConsSortedByGain(x, s, gains);
      [x] + s
    else
      var tail := InsertByGain(x, s[1..], gains);
      assert s == [s[0]] + s[1..];
      ConsSortedByGain(s[0], tail, gains);
      [s[0]] + tail
  }

  /** `std::sort(begin, end, by_gain)` on one side of a partition. */
  function SortByGain(s: seq<nat>, gains: seq<int>): (r: seq<nat>)
    requires HasGains(s, gains)
    ensures multiset(r) == multiset(s)
    ensures |r| == |s|
    ensures HasGains(r, gains) && SortedByGain(r, gains)
  {
    if s == [] then []
    else
      assert s == [s[0]] + s[1..];
      InsertByGain(s[0], SortByGain(s[1..], gains), gains)
  }

  /** Putting an id in front of an ascending sequence keeps it ascending when it
      is at most the current head. */
  lemma ConsSortedById(h: nat, s: seq<nat>)
    requires SortedById(s)
    requires s != [] ==> h <= s[0]
    ensures SortedById([h] + s)
  {
    var r := [h] + s;
    forall i, j | 0 <= i < j < |r| ensures r[i] <= r[j] {
      if i == 0 && j > 1 {
        assert s[0] <= s[j - 1];
      }
    }
  }

  function InsertById(x: nat, s: seq<nat>): (r: seq<nat>)
    requires SortedById(s)
    ensures multiset(r) == multiset(s) + multiset{x}
    ensures |r| == |s| + 1
    ensures r[0] == x || (s != [] && r[0] == s[0])
    ensures SortedById(r)
  {
    if s == [] || x <= s[0] then
      ConsSortedById(x, s);
      [x] + s
    else
      var tail := InsertById(x, s[1..]);
      assert s == [s[0]] + s[1..];
      ConsSortedById(s[0], tail);
      [s[0]] + tail
  }

  /** `std::sort(begin, end)` on document ids, used at the leaves. */
  function SortById(s: seq<nat>): (r: seq<nat>)
    ensures multiset(r) == multiset(s)
    ensures |r| == |s|
    ensures SortedById(r)
  {
    if s == [] then []
    else
      assert s == [s[0]] + s[1..];
      InsertById(s[0], SortById(s[1..]))
  }

  /** An ascending order of a multiset of ids is unique, so every correct
      `std::sort` by id produces exactly `SortById`. */
  lemma {:induction false} SortedPermutationUnique(a: seq<nat>, b: seq<nat>)
    requires SortedById(a) && SortedById(b) && multiset(a) == multiset(b)
    ensures a == b
    decreases |a|
  {
    assert |a| == |multiset(a)| == |multiset(b)| == |b|;
    if a != [] {
      SortedHeads(a, b);
      SortedTails(a, b);
      SortedPermutationUnique(a[1..], b[1..]);
      assert a == [a[0]] + a[1..] && b == [b[0]] + b[1..];
    }
  }

  /** Two ascending sequences with the same elements start with the same one: the
      least element. */
  lemma SortedHeads(a: seq<nat>, b: seq<nat>)
    requires SortedById(a) && SortedById(b) && multiset(a) == multiset(b) && a != [] && b != []
    ensures a[0] == b[0]
  {
    assert a[0] in multiset(b);
    assert b[0] in multiset(a);
    var i :| 0 <= i < |b| && b[i] == a[0];
    var j :| 0 <= j < |a| && a[j] == b[0];
    assert b[0] <= b[i] && a[0] <= a[j];
  }

  /** Removing equal heads leaves ascending tails with the same elements. */
  lemma SortedTails(a: seq<nat>, b: seq<nat>)
    requires SortedById(a) && SortedById(b) && multiset(a) == multiset(b) && a != [] && b != []
    requires a[0] == b[0]
    ensures SortedById(a[1..]) && SortedById(b[1..]) && multiset(a[1..]) == multiset(b[1..])
  {
    assert a == [a[0]] + a[1..];
    assert b == [b[0]] + b[1..];
    assert multiset(a[1..]) == multiset(a) - multiset{a[0]};
    assert multiset(b[1..]) == multiset(b) - multiset{b[0]};
  }

  /** The leaf sort is exactly the ascending order of the leaf's documents. */
  lemma SortByIdIsTheSortedOrder(s: seq<nat>, sorted: seq<nat>)
    requires SortedById(sorted) && multiset(sorted) == multiset(s)
    ensures SortById(s) == sorted
  {
    SortedPermutationUnique(SortById(s), sorted);
  }
}
