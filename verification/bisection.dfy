/** Recursive graph bisection (the sequential path): split a document range in
    two, refine the cut for a fixed number of iterations by exchanging the
    documents whose move gains favour it, then recurse on both halves or, at the
    bottom, sort each half by id. */
module Bisection {
  import opened Forward
  import opened Ranges
  import opened Degrees
  import opened Ordering
  import opened Mapping

  /** Refinement iterations per partition. */
  const ITERATIONS: nat := 20

  /** Depth the reordering driver asks for. */
  const DRIVER_DEPTH: nat := 9

  /** The gain one term contributes when a document moves from a side of `n1`
      documents to a side of `n2` documents, given the term's degree on the side it
      leaves and on the side it joins. The source computes it in floating point as
      `expb(n1, n2, from, to) - expb(n1, n2, from - 1, to + 1)`; the model keeps it
      as an arbitrary integer-valued function of the same four arguments. */
  type TermGain = (nat, nat, int, int) -> int

  /** A document's move gain: the sum of its terms' gains, in term order. A move
      none of whose terms gains anything gains nothing, and one none of whose
      terms loses anything loses nothing. */
  function DocGain(terms: seq<nat>, fromN: nat, toN: nat, fromDeg: seq<int>, toDeg: seq<int>, tg: TermGain): (r: int)
    requires AllBelow(terms, |fromDeg|) && AllBelow(terms, |toDeg|)
    ensures (forall j :: 0 <= j < |terms| ==> tg(fromN, toN, fromDeg[terms[j]], toDeg[terms[j]]) <= 0) ==> r <= 0
    ensures (forall j :: 0 <= j < |terms| ==> tg(fromN, toN, fromDeg[terms[j]], toDeg[terms[j]]) >= 0) ==> r >= 0
  {
    if terms == [] then 0
    else
      var t := terms[|terms| - 1];
      DocGain(terms[..|terms| - 1], fromN, toN, fromDeg, toDeg, tg) + tg(fromN, toN, fromDeg[t], toDeg[t])
  }

  /** The gain of a document is additive over its term list: the terms of `a`
      contribute their sum and those of `b` theirs. */
  lemma {:induction false} DocGainAppend(a: seq<nat>, b: seq<nat>, fromN: nat, toN: nat, fromDeg: seq<int>, toDeg: seq<int>, tg: TermGain)
    requires AllBelow(a, |fromDeg|) && AllBelow(a, |toDeg|)
    requires AllBelow(b, |fromDeg|) && AllBelow(b, |toDeg|)
    ensures AllBelow(a + b, |fromDeg|) && AllBelow(a + b, |toDeg|)
    ensures DocGain(a + b, fromN, toN, fromDeg, toDeg, tg)
         == DocGain(a, fromN, toN, fromDeg, toDeg, tg) + DocGain(b, fromN, toN, fromDeg, toDeg, tg)
    decreases |b|
  {
    if b != [] {
      var b' := b[..|b| - 1];
      assert (a + b)[..|a + b| - 1] == a + b';
      assert (a + b)[|a + b| - 1] == b[|b| - 1];
      DocGainAppend(a, b', fromN, toN, fromDeg, toDeg, tg);
    } else {
      assert a + b == a;
    }
  }

  /** The inputs every step of the refinement works on: a valid index, sides made
      of its documents, degree vectors over its vocabulary, a gain per document. */
  predicate Shaped(fwd: ForwardIndex, p: Partition, deg: DegreePair, gains: seq<int>)
  {
    && fwd.Valid() && fwd.Covers(p.left) && fwd.Covers(p.right)
    && |deg.left| == fwd.termCount && |deg.right| == fwd.termCount
    && |gains| == fwd.Size()
  }

  /** The degree vectors hold the true degrees of the two sides. */
  predicate DegreesCorrect(fwd: ForwardIndex, p: Partition, deg: DegreePair)
    requires fwd.Covers(p.left) && fwd.Covers(p.right)
  {
    IsDegreeMap(fwd, p.left, deg.left) && IsDegreeMap(fwd, p.right, deg.right)
  }

  /** `compute_move_gains` on one side: each document of `side` gets its move gain
      towards the other side; the gain of every other document is untouched. */
  function MoveGains(fwd: ForwardIndex, side: seq<nat>, fromN: nat, toN: nat,
                     fromDeg: seq<int>, toDeg: seq<int>, gains: seq<int>, tg: TermGain): (r: seq<int>)
    requires fwd.Valid() && fwd.Covers(side)
    requires |fromDeg| == fwd.termCount && |toDeg| == fwd.termCount && |gains| == fwd.Size()
    ensures |r| == |gains|
    ensures forall d :: 0 <= d < |r| && d in side ==> r[d] == DocGain(fwd.Terms(d), fromN, toN, fromDeg, toDeg, tg)
    ensures forall d :: 0 <= d < |r| && d !in side ==> r[d] == gains[d]
  {
    if side == [] then gains
    else
      var d := side[|side| - 1];
      var init := side[..|side| - 1];
      assert side == init + [d];
      MoveGains(fwd, init, fromN, toN, fromDeg, toDeg, gains, tg)[d := DocGain(fwd.Terms(d), fromN, toN, fromDeg, toDeg, tg)]
  }

  /** `compute_gains`: left documents are scored for a move to the right (sizes
      `n1, n2`, degrees `left, right`), then right documents for a move to the
      left with every argument mirrored. */
  function ComputeGains(fwd: ForwardIndex, p: Partition, deg: DegreePair, gains: seq<int>, tg: TermGain): (r: seq<int>)
    requires Shaped(fwd, p, deg, gains)
    ensures |r| == |gains|
    ensures forall d :: 0 <= d < |r| && d in p.left && d !in p.right ==>
      r[d] == DocGain(fwd.Terms(d), |p.left|, |p.right|, deg.left, deg.right, tg)
    ensures forall d :: 0 <= d < |r| && d in p.right ==>
      r[d] == DocGain(fwd.Terms(d), |p.right|, |p.left|, deg.right, deg.left, tg)
    ensures forall d :: 0 <= d < |r| && d !in p.left && d !in p.right ==> r[d] == gains[d]
  {
    var g := MoveGains(fwd, p.left, |p.left|, |p.right|, deg.left, deg.right, gains, tg);
    MoveGains(fwd, p.right, |p.right|, |p.left|, deg.right, deg.left, g, tg)
  }

  /** The combined gain of the documents at position `j` of both sides. */
  function PairGain(p: Partition, gains: seq<int>, j: nat): int
    requires j < |p.left| && j < |p.right| && HasGains(p.left, gains) && HasGains(p.right, gains)
  {
    gains[p.left[j]] + gains[p.right[j]]
  }

  /** The partition after exchanging the first `k` pairs of positions. */
  function SwapPrefix(p: Partition, k: nat): (q: Partition)
    requires k <= |p.left| && k <= |p.right|
  {
    Partition(p.right[..k] + p.left[k..], p.left[..k] + p.right[k..])
  }

  /** The degrees of a side after the exchange of the first `k` pairs: it loses the
      occurrences of its own first `k` documents and gains those of the other
      side's first `k`. */
  lemma {:induction false} SwapPrefixOccurrences(fwd: ForwardIndex, p: Partition, k: nat, t: nat)
    requires fwd.Covers(p.left) && fwd.Covers(p.right) && k <= |p.left| && k <= |p.right|
    ensures fwd.Covers(SwapPrefix(p, k).left) && fwd.Covers(SwapPrefix(p, k).right)
    ensures Occurrences(fwd, SwapPrefix(p, k).left, t)
      == Occurrences(fwd, p.left, t) - Occurrences(fwd, p.left[..k], t) + Occurrences(fwd, p.right[..k], t)
    ensures Occurrences(fwd, SwapPrefix(p, k).right, t)
      == Occurrences(fwd, p.right, t) - Occurrences(fwd, p.right[..k], t) + Occurrences(fwd, p.left[..k], t)
  {
    assert p.left == p.left[..k] + p.left[k..];
    assert p.right == p.right[..k] + p.right[k..];
    OccurrencesAppend(fwd, p.left[..k], p.left[k..], t);
    OccurrencesAppend(fwd, p.right[..k], p.right[k..], t);
    OccurrencesAppend(fwd, p.right[..k], p.left[k..], t);
    OccurrencesAppend(fwd, p.left[..k], p.right[k..], t);
  }

  /** The degrees `deg` after the first `k` pairs have been exchanged: each side
      loses the occurrences of its own first `k` documents and gains those of
      the other side's first `k`. */
  function Moved(fwd: ForwardIndex, p: Partition, deg: DegreePair, k: nat): (r: DegreePair)
    requires fwd.Covers(p.left) && fwd.Covers(p.right) && k <= |p.left| && k <= |p.right|
    requires |deg.left| == fwd.termCount && |deg.right| == fwd.termCount
  {
    assert fwd.Covers(p.left[..k]) && fwd.Covers(p.right[..k]);
    DegreePair(
      seq(fwd.termCount, t requires 0 <= t < fwd.termCount =>
        deg.left[t] - Occurrences(fwd, p.left[..k], t) + Occurrences(fwd, p.right[..k], t)),
      seq(fwd.termCount, t requires 0 <= t < fwd.termCount =>
        deg.right[t] - Occurrences(fwd, p.right[..k], t) + Occurrences(fwd, p.left[..k], t)))
  }

  /** The two inner loops of `swap` for pair `k`: the left document's terms move
      from the left degrees to the right ones, the right document's the other way. */
  method ExchangeDegrees(fwd: ForwardIndex, p: Partition, deg: DegreePair, k: nat, dl: seq<int>, dr: seq<int>)
    returns (dl': seq<int>, dr': seq<int>)
    requires fwd.Valid() && fwd.Covers(p.left) && fwd.Covers(p.right)
    requires |deg.left| == fwd.termCount && |deg.right| == fwd.termCount
    requires k < |p.left| && k < |p.right|
    requires DegreePair(dl, dr) == Moved(fwd, p, deg, k)
    ensures DegreePair(dl', dr') == Moved(fwd, p, deg, k + 1)
  {
    dl', dr' := MoveTerms(fwd.Terms(p.left[k]), dl, dr);
    dr', dl' := MoveTerms(fwd.Terms(p.right[k]), dr', dl');
    var next := Moved(fwd, p, deg, k + 1);
    forall t: nat | t < fwd.termCount
      ensures dl'[t] == next.left[t] && dr'[t] == next.right[t]
    {
      OccurrencesPrefixStep(fwd, p.left, k, t);
      OccurrencesPrefixStep(fwd, p.right, k, t);
    }
    assert dl' == next.left && dr' == next.right;
  }

  /** Degrees that were correct before exchanging the first `k` pairs and were
      moved along with them are correct afterwards. */
  lemma MovedDegreesCorrect(fwd: ForwardIndex, p: Partition, deg: DegreePair, k: nat, dl: seq<int>, dr: seq<int>)
    requires fwd.Covers(p.left) && fwd.Covers(p.right) && k <= |p.left| && k <= |p.right|
    requires |deg.left| == fwd.termCount && |deg.right| == fwd.termCount
    requires DegreePair(dl, dr) == Moved(fwd, p, deg, k) && DegreesCorrect(fwd, p, deg)
    ensures fwd.Covers(SwapPrefix(p, k).left) && fwd.Covers(SwapPrefix(p, k).right)
    ensures DegreesCorrect(fwd, SwapPrefix(p, k), DegreePair(dl, dr))
  {
    forall t: nat | t < fwd.termCount
      ensures dl[t] == Occurrences(fwd, SwapPrefix(p, k).left, t)
      ensures dr[t] == Occurrences(fwd, SwapPrefix(p, k).right, t)
    {
      SwapPrefixOccurrences(fwd, p, k, t);
    }
    SwapPrefixOccurrences(fwd, p, k, 0);
  }

  /** What `swap` leaves behind: every document is still in the partition and
      each side keeps its size; for every term the two degrees still add up to
      the same total; and degrees that were correct stay correct. */
  lemma SwapPreservesDegrees(fwd: ForwardIndex, p: Partition, deg: DegreePair, k: nat, dl: seq<int>, dr: seq<int>)
    requires fwd.Valid() && fwd.Covers(p.left) && fwd.Covers(p.right) && k <= |p.left| && k <= |p.right|
    requires |deg.left| == fwd.termCount && |deg.right| == fwd.termCount
    requires DegreePair(dl, dr) == Moved(fwd, p, deg, k)
    ensures fwd.Covers(SwapPrefix(p, k).left) && fwd.Covers(SwapPrefix(p, k).right)
    ensures |dl| == fwd.termCount && |dr| == fwd.termCount
    ensures forall t :: 0 <= t < fwd.termCount ==> dl[t] + dr[t] == deg.left[t] + deg.right[t]
    ensures DegreesCorrect(fwd, p, deg) ==> DegreesCorrect(fwd, SwapPrefix(p, k), DegreePair(dl, dr))
    ensures |SwapPrefix(p, k).left| == |p.left| && |SwapPrefix(p, k).right| == |p.right|
    ensures multiset(SwapPrefix(p, k).left) + multiset(SwapPrefix(p, k).right) == multiset(p.left) + multiset(p.right)
  {
    SwapPrefixKeepsDocuments(p, k);
    SwapPrefixOccurrences(fwd, p, k, 0);
    if DegreesCorrect(fwd, p, deg) {
      MovedDegreesCorrect(fwd, p, deg, k, dl, dr);
    }
  }

  /** `swap`: walks both sides in step and exchanges each pair whose combined gain
      is positive, stopping at the first pair that is not, or at the end of the
      shorter side; every term of an exchanged document moves its degree unit to
      the side the document joins. Returns the partition, the degrees and the
      number `k` of exchanged pairs. */
  method Swap(fwd: ForwardIndex, p: Partition, deg: DegreePair, gains: seq<int>) returns (q: Partition, d: DegreePair, k: nat)
    requires Shaped(fwd, p, deg, gains)
    ensures k <= |p.left| && k <= |p.right|
    ensures forall j :: 0 <= j < k ==> PairGain(p, gains, j) > 0
    ensures k < |p.left| && k < |p.right| ==> PairGain(p, gains, k) <= 0
    ensures q == SwapPrefix(p, k)
    ensures d == Moved(fwd, p, deg, k)
  {
    var left, right := p.left, p.right;
    var dl, dr := deg.left, deg.right;
    k := 0;
    SwapStart(fwd, p, deg, gains);
    while k < |left| && k < |right|
      invariant SwapState(fwd, p, deg, gains, k, left, right, dl, dr)
    {
      var stop;
      stop, left, right, dl, dr := SwapStep(fwd, p, deg, gains, k, left, right, dl, dr);
      if stop {
        break;
      }
      k := k + 1;
    }
    SwapStopped(fwd, p, deg, gains, k, left, right, dl, dr);
    q := Partition(left, right);
    d := DegreePair(dl, dr);
  }

  /** Before the walk nothing is exchanged and nothing moved. */
  lemma SwapStart(fwd: ForwardIndex, p: Partition, deg: DegreePair, gains: seq<int>)
    requires Shaped(fwd, p, deg, gains)
    ensures SwapState(fwd, p, deg, gains, 0, p.left, p.right, deg.left, deg.right)
  {
    assert HasGains(p.left, gains) && HasGains(p.right, gains);
    assert p.right[..0] + p.left[0..] == p.left && p.left[..0] + p.right[0..] == p.right;
    var m := Moved(fwd, p, deg, 0);
    assert p.left[..0] == [] && p.right[..0] == [];
    assert m.left == deg.left && m.right == deg.right;
  }

  /** Once the walk has stopped, at the end of a side or at a pair whose gain is
      not positive, every pair before it had a positive gain. */
  lemma SwapStopped(fwd: ForwardIndex, p: Partition, deg: DegreePair, gains: seq<int>, k: nat,
                    left: seq<nat>, right: seq<nat>, dl: seq<int>, dr: seq<int>)
    requires SwapState(fwd, p, deg, gains, k, left, right, dl, dr)
    requires k == |left| || k == |right| || (k < |p.left| && k < |p.right| && PairGain(p, gains, k) <= 0)
    ensures k <= |p.left| && k <= |p.right|
    ensures forall j :: 0 <= j < k ==> PairGain(p, gains, j) > 0
    ensures k < |p.left| && k < |p.right| ==> PairGain(p, gains, k) <= 0
    ensures Partition(left, right) == SwapPrefix(p, k)
    ensures DegreePair(dl, dr) == Moved(fwd, p, deg, k)
  {
    if k < |p.left| && k < |p.right| {
      SwapPrefixStep(p, k);
    }
    StopIsFirstNonPositive(p, gains, 0);
  }

  /** Where the lock-step walk from position `j` stops: the first position from
      `j` on whose pair gain is not positive, or the end of the shorter side. */
  function Stop(p: Partition, gains: seq<int>, j: nat): nat
    requires HasGains(p.left, gains) && HasGains(p.right, gains)
    requires j <= |p.left| && j <= |p.right|
    decreases |p.left| - j
  {
    if j == |p.left| || j == |p.right| || PairGain(p, gains, j) <= 0 then j
    else Stop(p, gains, j + 1)
  }

  /** `Stop` is the first position from `j` on that the walk does not pass: all
      pairs from `j` up to it have a positive gain, and it is the end of a side
      or a pair whose gain is not positive. */
  lemma {:induction false} StopIsFirstNonPositive(p: Partition, gains: seq<int>, j: nat)
    requires HasGains(p.left, gains) && HasGains(p.right, gains)
    requires j <= |p.left| && j <= |p.right|
    ensures j <= Stop(p, gains, j) <= |p.left| && Stop(p, gains, j) <= |p.right|
    ensures forall i :: j <= i < Stop(p, gains, j) ==> PairGain(p, gains, i) > 0
    ensures Stop(p, gains, j) < |p.left| && Stop(p, gains, j) < |p.right| ==> PairGain(p, gains, Stop(p, gains, j)) <= 0
    decreases |p.left| - j
  {
    if !(j == |p.left| || j == |p.right| || PairGain(p, gains, j) <= 0) {
      StopIsFirstNonPositive(p, gains, j + 1);
    }
  }

  /** The state of `swap` after the first `k` pairs were exchanged: the sides and
      the degrees are those of the exchange, and the walk has not yet passed the
      place where it stops. */
  predicate SwapState(fwd: ForwardIndex, p: Partition, deg: DegreePair, gains: seq<int>, k: nat,
                      left: seq<nat>, right: seq<nat>, dl: seq<int>, dr: seq<int>)
  {
    && Shaped(fwd, p, deg, gains) && HasGains(p.left, gains) && HasGains(p.right, gains)
    && k <= |p.left| && k <= |p.right| && |left| == |p.left| && |right| == |p.right|
    && Partition(left, right) == SwapPrefix(p, k)
    && k <= Stop(p, gains, 0)
    && DegreePair(dl, dr) == Moved(fwd, p, deg, k)
  }

  /** The body of the loop of `swap` at position `k`: it stops at a pair whose
      combined gain is not positive and leaves everything as it is; otherwise the
      two documents change sides and their terms' degrees move with them. */
  method SwapStep(fwd: ForwardIndex, p: Partition, deg: DegreePair, gains: seq<int>, k: nat,
                  left: seq<nat>, right: seq<nat>, dl: seq<int>, dr: seq<int>)
    returns (stop: bool, left': seq<nat>, right': seq<nat>, dl': seq<int>, dr': seq<int>)
    requires SwapState(fwd, p, deg, gains, k, left, right, dl, dr)
    requires k < |left| && k < |right|
    ensures k < |p.left| && k < |p.right|
    ensures stop <==> PairGain(p, gains, k) <= 0
    ensures stop ==> left' == left && right' == right && dl' == dl && dr' == dr
    ensures !stop ==> SwapState(fwd, p, deg, gains, k + 1, left', right', dl', dr')
  {
    SwapPrefixStep(p, k);
    left', right', dl', dr' := left, right, dl, dr;
    stop := gains[left[k]] + gains[right[k]] <= 0;
    if !stop {
      StopIsFirstNonPositive(p, gains, 0);
      dl', dr' := ExchangeDegrees(fwd, p, deg, k, dl, dr);
      left', right' := left[k := right[k]], right[k := left[k]];
    }
  }

  /** Exchanging pair `k` after the first `k`: position `k` still holds the
      original pair, and exchanging it gives the first `k + 1` pairs exchanged. */
  lemma SwapPrefixStep(p: Partition, k: nat)
    requires k < |p.left| && k < |p.right|
    ensures |SwapPrefix(p, k).left| == |p.left| && |SwapPrefix(p, k).right| == |p.right|
    ensures SwapPrefix(p, k).left[k] == p.left[k] && SwapPrefix(p, k).right[k] == p.right[k]
    ensures SwapPrefix(p, k + 1)
         == Partition(SwapPrefix(p, k).left[k := p.right[k]], SwapPrefix(p, k).right[k := p.left[k]])
  {
    var q := SwapPrefix(p, k);
    assert q.left[k..] == p.left[k..];
    assert q.right[k..] == p.right[k..];
    assert p.right[..k + 1] == p.right[..k] + [p.right[k]];
    assert p.left[..k + 1] == p.left[..k] + [p.left[k]];
  }

  /** Exchanging pairs keeps the sizes of both sides and the documents of the
      partition. */
  lemma SwapPrefixKeepsDocuments(p: Partition, k: nat)
    requires k <= |p.left| && k <= |p.right|
    ensures |SwapPrefix(p, k).left| == |p.left| && |SwapPrefix(p, k).right| == |p.right|
    ensures multiset(SwapPrefix(p, k).left) + multiset(SwapPrefix(p, k).right) == multiset(p.left) + multiset(p.right)
  {
    assert p.left == p.left[..k] + p.left[k..];
    assert p.right == p.right[..k] + p.right[k..];
  }

  /** Two partitions holding the same documents agree on which documents they
      hold. */
  lemma SameDocuments(a: seq<nat>, b: seq<nat>, c: seq<nat>, d: seq<nat>, x: nat)
    requires multiset(a) + multiset(b) == multiset(c) + multiset(d)
    ensures (x in a || x in b) <==> (x in c || x in d)
  {
    assert x in a <==> x in multiset(a);
    assert x in b <==> x in multiset(b);
    assert x in c <==> x in multiset(c);
    assert x in d <==> x in multiset(d);
    assert x in multiset(a) + multiset(b) <==> x in multiset(c) + multiset(d);
  }

  /** No counter `swap` decrements can wrap around: with correct degrees before the
      exchange of pair `i`, the leaving left document's occurrences are covered by
      the left degree, and the leaving right document's by the right degree plus
      what the left document has just brought in. */
  lemma SwapNeverUnderflows(fwd: ForwardIndex, p: Partition, i: nat, t: nat)
    requires fwd.Covers(p.left) && fwd.Covers(p.right) && i < |p.left| && i < |p.right|
    ensures fwd.Covers(SwapPrefix(p, i).left) && fwd.Covers(SwapPrefix(p, i).right)
    ensures Occurrences(fwd, SwapPrefix(p, i).left, t) >= multiset(fwd.Terms(p.left[i]))[t]
    ensures Occurrences(fwd, SwapPrefix(p, i).right, t) + multiset(fwd.Terms(p.left[i]))[t]
      >= multiset(fwd.Terms(p.right[i]))[t]
  {
    var cur := SwapPrefix(p, i);
    SwapPrefixOccurrences(fwd, p, i, t);
    assert cur.left[i] == p.left[i] && cur.right[i] == p.right[i];
    MemberBoundsOccurrences(fwd, cur.left, i, t);
    MemberBoundsOccurrences(fwd, cur.right, i, t);
  }

  /** The degree `compute_move_gains` decrements (`from_deg - 1`) is at least one
      for every term of every document on the side being scored, when degrees are
      correct, so the subtraction cannot wrap around. */
  lemma MoveGainDegreePositive(fwd: ForwardIndex, side: seq<nat>, deg: seq<int>, j: nat, t: nat)
    requires fwd.Covers(side) && IsDegreeMap(fwd, side, deg) && j < |side|
    requires t in fwd.Terms(side[j]) && t < |deg|
    ensures deg[t] >= 1
  {
    MemberBoundsOccurrences(fwd, side, j, t);
    assert t in multiset(fwd.Terms(side[j]));
  }

  /** What the refinement carries from one round to the next: the partition, its
      degrees and the gain vector. */
  datatype State = State(part: Partition, deg: DegreePair, gains: seq<int>)

  /** A record of the rounds of one `process_partition` call: the state before each
      round and after the last, each round's gain-sorted partition, and the number of
      pairs each round exchanged. */
  datatype Run = Run(states: seq<State>, sorted: seq<Partition>, swaps: seq<nat>)

  /** State `t` is what one round makes of state `s`: the gains are recomputed from
      `s`; `sorted` holds the same documents as `s` on each side, ordered by
      descending new gain; the first `k` pairs of `sorted`, exactly those before the
      first pair whose combined gain is not positive, are exchanged; and the degrees
      move along with the exchanged documents. */
  predicate RoundStep(fwd: ForwardIndex, tg: TermGain, s: State, sorted: Partition, k: nat, t: State)
  {
    Shaped(fwd, s.part, s.deg, s.gains) &&
    var g := ComputeGains(fwd, s.part, s.deg, s.gains, tg);
    && t.gains == g
    && multiset(sorted.left) == multiset(s.part.left)
    && multiset(sorted.right) == multiset(s.part.right)
    && HasGains(sorted.left, g) && SortedByGain(sorted.left, g)
    && HasGains(sorted.right, g) && SortedByGain(sorted.right, g)
    && fwd.Covers(sorted.left) && fwd.Covers(sorted.right)
    && k <= |sorted.left| && k <= |sorted.right|
    && (forall j :: 0 <= j < k ==> PairGain(sorted, g, j) > 0)
    && (k < |sorted.left| && k < |sorted.right| ==> PairGain(sorted, g, k) <= 0)
    && t.part == SwapPrefix(sorted, k)
    && t.deg == Moved(fwd, sorted, s.deg, k)
  }

  /** `run` is `process_partition` on `p`: it starts from `p`, the degrees of `p` and
      the incoming gains, and takes exactly `ITERATIONS` rounds. */
  predicate IsRun(fwd: ForwardIndex, tg: TermGain, p: Partition, gains: seq<int>, run: Run)
  {
    && |run.states| == ITERATIONS + 1 && |run.sorted| == ITERATIONS && |run.swaps| == ITERATIONS
    && run.states[0].part == p && run.states[0].gains == gains
    && fwd.Covers(p.left) && fwd.Covers(p.right)
    && DegreesCorrect(fwd, p, run.states[0].deg)
    && forall i :: 0 <= i < ITERATIONS ==>
         RoundStep(fwd, tg, run.states[i], run.sorted[i], run.swaps[i], run.states[i + 1])
  }

  /** One iteration of `process_partition`: compute the gains, sort each side by
      descending gain, then swap. */
  method Round(fwd: ForwardIndex, p: Partition, deg: DegreePair, gains: seq<int>, tg: TermGain)
    returns (sorted: Partition, q: Partition, d: DegreePair, g: seq<int>, k: nat)
    requires Shaped(fwd, p, deg, gains)
    ensures g == ComputeGains(fwd, p, deg, gains, tg)
    ensures multiset(sorted.left) == multiset(p.left) && multiset(sorted.right) == multiset(p.right)
    ensures |sorted.left| == |p.left| && |sorted.right| == |p.right|
    ensures HasGains(sorted.left, g) && SortedByGain(sorted.left, g)
    ensures HasGains(sorted.right, g) && SortedByGain(sorted.right, g)
    ensures k <= |p.left| && k <= |p.right| && q == SwapPrefix(sorted, k)
    ensures |q.left| == |p.left| && |q.right| == |p.right|
    ensures multiset(q.left) + multiset(q.right) == multiset(p.left) + multiset(p.right)
    ensures forall x :: 0 <= x < |g| && x !in p.left && x !in p.right ==> g[x] == gains[x]
    ensures forall j :: 0 <= j < |p.left| && j < |p.right| ==> (j < k <==> PairGain(sorted, g, j) > 0)
    ensures Shaped(fwd, q, d, g)
    ensures DegreesCorrect(fwd, p, deg) ==> DegreesCorrect(fwd, q, d)
    ensures RoundStep(fwd, tg, State(p, deg, gains), sorted, k, State(q, d, g))
  {
    g := ComputeGains(fwd, p, deg, gains, tg);
    sorted := Partition(SortByGain(p.left, g), SortByGain(p.right, g));
    ReorderedDegreesCorrect(fwd, p, sorted, deg);
    q, d, k := Swap(fwd, sorted, deg, g);
    SwapPreservesDegrees(fwd, sorted, deg, k, d.left, d.right);
    forall j | 0 <= j < |p.left| && j < |p.right| && k <= j ensures PairGain(sorted, g, j) <= 0 {
      PairGainNonIncreasing(sorted, g, k, j);
    }
  }

  /** Reordering each side of a partition keeps its degrees correct. */
  lemma ReorderedDegreesCorrect(fwd: ForwardIndex, p: Partition, sorted: Partition, deg: DegreePair)
    requires fwd.Covers(p.left) && fwd.Covers(p.right)
    requires multiset(sorted.left) == multiset(p.left) && multiset(sorted.right) == multiset(p.right)
    ensures fwd.Covers(sorted.left) && fwd.Covers(sorted.right)
    ensures DegreesCorrect(fwd, p, deg) ==> DegreesCorrect(fwd, sorted, deg)
  {
    CoversPermutation(fwd, p.left, sorted.left);
    CoversPermutation(fwd, p.right, sorted.right);
    if DegreesCorrect(fwd, p, deg) {
      forall t | 0 <= t < fwd.termCount
        ensures deg.left[t] == Occurrences(fwd, sorted.left, t)
        ensures deg.right[t] == Occurrences(fwd, sorted.right, t)
      {
        OccurrencesPermutation(fwd, p.left, sorted.left, t);
        OccurrencesPermutation(fwd, p.right, sorted.right, t);
      }
    }
  }

  /** With both sides sorted by descending gain, the combined gain of the pair at
      a position never exceeds that of an earlier pair. */
  lemma PairGainNonIncreasing(p: Partition, gains: seq<int>, i: nat, j: nat)
    requires HasGains(p.left, gains) && HasGains(p.right, gains)
    requires SortedByGain(p.left, gains) && SortedByGain(p.right, gains)
    requires i <= j < |p.left| && j < |p.right|
    ensures PairGain(p, gains, j) <= PairGain(p, gains, i)
  {
    if i < j {
      assert !ByGain(gains, p.left[j], p.left[i]);
      assert !ByGain(gains, p.right[j], p.right[i]);
    }
  }

  /** `process_partition`: compute the degrees once, then run exactly
      `ITERATIONS` rounds. Returns the refined partition, its degrees, the gains
      and the number of pairs each round exchanged. */
  method ProcessPartition(fwd: ForwardIndex, p: Partition, gains: seq<int>, tg: TermGain)
    returns (q: Partition, d: DegreePair, g: seq<int>, swaps: seq<nat>, ghost run: Run)
    requires fwd.Valid() && fwd.Covers(p.left) && fwd.Covers(p.right) && |gains| == fwd.Size()
    ensures |swaps| == ITERATIONS
    ensures forall i :: 0 <= i < |swaps| ==> swaps[i] <= |p.left| && swaps[i] <= |p.right|
    ensures |q.left| == |p.left| && |q.right| == |p.right|
    ensures multiset(q.left) + multiset(q.right) == multiset(p.left) + multiset(p.right)
    ensures Shaped(fwd, q, d, g)
    ensures DegreesCorrect(fwd, q, d)
    ensures forall x :: 0 <= x < |g| && x !in p.left && x !in p.right ==> g[x] == gains[x]
    ensures IsRun(fwd, tg, p, gains, run)
    ensures run.states[ITERATIONS] == State(q, d, g) && run.swaps == swaps
  {
    d := ComputeDegreePair(fwd, p);
    q, g := p, gains;
    swaps := [];
    ghost var states := [State(p, d, gains)];
    ghost var sorts: seq<Partition> := [];
    var iteration := 0;
    while iteration < ITERATIONS
      invariant 0 <= iteration <= ITERATIONS && |swaps| == iteration
      invariant |states| == iteration + 1 && |sorts| == iteration
      invariant states[0].part == p && states[0].gains == gains && DegreesCorrect(fwd, p, states[0].deg)
      invariant states[iteration] == State(q, d, g)
      invariant forall i :: 0 <= i < iteration ==> RoundStep(fwd, tg, states[i], sorts[i], swaps[i], states[i + 1])
      invariant forall i :: 0 <= i < |swaps| ==> swaps[i] <= |p.left| && swaps[i] <= |p.right|
      invariant |q.left| == |p.left| && |q.right| == |p.right|
      invariant multiset(q.left) + multiset(q.right) == multiset(p.left) + multiset(p.right)
      invariant Shaped(fwd, q, d, g)
      invariant DegreesCorrect(fwd, q, d)
      invariant forall x :: 0 <= x < |g| && x !in p.left && x !in p.right ==> g[x] == gains[x]
    {
      var sorted, q', d', g', k := Round(fwd, q, d, g, tg);
      forall x | 0 <= x < |g'| && x !in p.left && x !in p.right
        ensures g'[x] == gains[x]
      {
        SameDocuments(q.left, q.right, p.left, p.right, x);
      }
      ExtendRun(fwd, tg, states, sorts, swaps, sorted, k, State(q', d', g'));
      states, sorts := states + [State(q', d', g')], sorts + [sorted];
      q, d, g := q', d', g';
      swaps := swaps + [k];
      iteration := iteration + 1;
    }
    run := Run(states, sorts, swaps);
  }

  /** Appending one more round to a record of rounds. */
  lemma ExtendRun(fwd: ForwardIndex, tg: TermGain, states: seq<State>, sorts: seq<Partition>, swaps: seq<nat>,
                  sorted: Partition, k: nat, t: State)
    requires |states| == |sorts| + 1 && |swaps| == |sorts|
    requires forall i :: 0 <= i < |sorts| ==> RoundStep(fwd, tg, states[i], sorts[i], swaps[i], states[i + 1])
    requires RoundStep(fwd, tg, states[|sorts|], sorted, k, t)
    ensures forall i :: 0 <= i < |sorts| + 1 ==>
      RoundStep(fwd, tg, (states + [t])[i], (sorts + [sorted])[i], (swaps + [k])[i], (states + [t])[i + 1])
  {
    forall i | 0 <= i < |sorts| + 1
      ensures RoundStep(fwd, tg, (states + [t])[i], (sorts + [sorted])[i], (swaps + [k])[i], (states + [t])[i + 1])
    {
      assert (states + [t])[i] == states[i];
      if i < |sorts| {
        assert (states + [t])[i + 1] == states[i + 1];
      }
    }
  }

  /** Sizes of the leaf ranges, left to right, that the recursion sorts by id. */
  function LeafSizes(n: nat, depth: nat): seq<nat>
    decreases depth
  {
    if depth > 1 && n > 2 then LeafSizes(n / 2, depth - 1) + LeafSizes(n - n / 2, depth - 1)
    else [n / 2, n - n / 2]
  }

  function Total(sizes: seq<nat>): nat
  {
    if sizes == [] then 0 else sizes[0] + Total(sizes[1..])
  }

  /** `r` is a concatenation of blocks of the given sizes, each ascending by id. */
  predicate BlocksSorted(r: seq<nat>, sizes: seq<nat>)
    decreases |sizes|
  {
    if sizes == [] then r == []
    else sizes[0] <= |r| && SortedById(r[..sizes[0]]) && BlocksSorted(r[sizes[0]..], sizes[1..])
  }

  lemma {:induction false} BlocksSortedAppend(a: seq<nat>, s1: seq<nat>, b: seq<nat>, s2: seq<nat>)
    requires BlocksSorted(a, s1) && BlocksSorted(b, s2)
    ensures BlocksSorted(a + b, s1 + s2)
    decreases |s1|
  {
    if s1 == [] {
      assert a + b == b && s1 + s2 == s2;
    } else {
      var n := s1[0];
      BlocksSortedAppend(a[n..], s1[1..], b, s2);
      assert (a + b)[..n] == a[..n];
      assert (a + b)[n..] == a[n..] + b;
      assert (s1 + s2)[1..] == s1[1..] + s2;
    }
  }

  lemma {:induction false} TotalAppend(s1: seq<nat>, s2: seq<nat>)
    ensures Total(s1 + s2) == Total(s1) + Total(s2)
    decreases |s1|
  {
    if s1 == [] {
      assert s1 + s2 == s2;
    } else {
      TotalAppend(s1[1..], s2);
      assert (s1 + s2)[1..] == s1[1..] + s2;
    }
  }

  /** The leaves tile the whole range: their sizes add up to it, and a block
      layout over the leaves covers exactly the documents laid out. */
  lemma {:induction false} LeafSizesTotal(n: nat, depth: nat)
    ensures Total(LeafSizes(n, depth)) == n
    decreases depth
  {
    if depth > 1 && n > 2 {
      LeafSizesTotal(n / 2, depth - 1);
      LeafSizesTotal(n - n / 2, depth - 1);
      TotalAppend(LeafSizes(n / 2, depth - 1), LeafSizes(n - n / 2, depth - 1));
    } else {
      assert Total([n / 2, n - n / 2]) == n / 2 + Total([n - n / 2]);
    }
  }

  lemma {:induction false} BlocksSortedLength(r: seq<nat>, sizes: seq<nat>)
    requires BlocksSorted(r, sizes)
    ensures |r| == Total(sizes)
    decreases |sizes|
  {
    if sizes != [] {
      BlocksSortedLength(r[sizes[0]..], sizes[1..]);
    }
  }

  /** Total size passed to `progress::update` by a call on `n` documents. */
  function Work(n: nat, depth: nat): nat
    decreases depth
  {
    n + if depth > 1 && n > 2 then Work(n / 2, depth - 1) + Work(n - n / 2, depth - 1) else 0
  }

  /** Every level of the recursion reports each document at most once, so the
      progress total never exceeds `n` per level. */
  lemma {:induction false} WorkBound(n: nat, depth: nat)
    ensures Work(n, depth) <= n * (if depth == 0 then 1 else depth)
    ensures Work(n, depth) >= n
    decreases depth
  {
    if depth > 1 && n > 2 {
      var a, b, e := n / 2, n - n / 2, depth - 1;
      WorkBound(a, e);
      WorkBound(b, e);
      assert Work(n, depth) == n + Work(a, e) + Work(b, e);
      SumOfShares(a, b, e);
    }
  }

  lemma SumOfShares(a: nat, b: nat, e: nat)
    ensures a * e + b * e + (a + b) == (a + b) * (e + 1)
  {
  }

  /** A record of one `recursive_graph_bisection` call: the refinement run of its
      range and, where it recursed, the gains the left call handed to the right
      call and the records of both calls. */
  datatype Trace = Leaf(run: Run) | Node(run: Run, mid: seq<int>, l: Trace, r: Trace)

  /** `r` and `g` are what `recursive_graph_bisection` makes of the range `docs`
      at `depth` from the gains `gains`, as recorded by `tr`: a bisection of the
      split of `docs`. */
  predicate IsBisection(fwd: ForwardIndex, tg: TermGain, docs: seq<nat>, depth: nat, gains: seq<int>,
                        tr: Trace, r: seq<nat>, g: seq<int>)
    decreases depth, 2
  {
    BisectionOf(fwd, tg, Split(docs), depth, gains, tr, r, g)
  }

  /** The partition `p` is refined by a run of `ITERATIONS` rounds from `gains`,
      and `r` and `g` are what the run's final partition and gains are `Arranged`
      into. */
  predicate BisectionOf(fwd: ForwardIndex, tg: TermGain, p: Partition, depth: nat, gains: seq<int>,
                        tr: Trace, r: seq<nat>, g: seq<int>)
    decreases depth, 1
  {
    && IsRun(fwd, tg, p, gains, tr.run)
    && Arranged(fwd, tg, tr.run.states[ITERATIONS].part, depth, tr.run.states[ITERATIONS].gains, tr, r, g)
  }

  /** What follows the refinement of a range into `q` with gains `g1`: while
      `depth > 1` and the range holds more than two documents, the left half of
      `r` is a bisection of `q.left` one level down from `g1`, and the right half
      a bisection of `q.right` one level down from the gains the left call left
      behind; otherwise each half of `r` is its side sorted by id and the gains
      are those of the run. */
  predicate Arranged(fwd: ForwardIndex, tg: TermGain, q: Partition, depth: nat, g1: seq<int>,
                     tr: Trace, r: seq<nat>, g: seq<int>)
    decreases depth, 0
  {
    && |r| == |q.left| + |q.right|
    && if depth > 1 && |q.left| + |q.right| > 2 then
         && tr.Node?
         && IsBisection(fwd, tg, q.left, depth - 1, g1, tr.l, r[..|q.left|], tr.mid)
         && IsBisection(fwd, tg, q.right, depth - 1, tr.mid, tr.r, r[|q.left|..], g)
       else
         && r[..|q.left|] == SortById(q.left) && r[|q.left|..] == SortById(q.right)
         && g == g1
  }

  /** One level of the recursion before it branches: split the range and refine
      the cut. */
  method Bisect(fwd: ForwardIndex, docs: seq<nat>, gains: seq<int>, tg: TermGain)
    returns (q: Partition, g: seq<int>, ghost run: Run)
    requires fwd.Valid() && fwd.Covers(docs) && |gains| == fwd.Size()
    ensures |q.left| == |docs| / 2 && |q.right| == |docs| - |docs| / 2
    ensures multiset(q.left) + multiset(q.right) == multiset(docs)
    ensures fwd.Covers(q.left) && fwd.Covers(q.right)
    ensures |g| == |gains|
    ensures forall x :: 0 <= x < |g| && x !in docs ==> g[x] == gains[x]
    ensures IsRun(fwd, tg, Split(docs), gains, run)
    ensures run.states[ITERATIONS].part == q && run.states[ITERATIONS].gains == g
  {
    var p := Split(docs);
    SplitHalves(docs);
    var d, swaps;
    q, d, g, swaps, run := ProcessPartition(fwd, p, gains, tg);
    forall x | 0 <= x < |g| && x !in docs ensures g[x] == gains[x] {
      assert docs == p.left + p.right;
    }
  }

  /** `recursive_graph_bisection` on the sequential path: the input range comes
      back reordered, every document kept, the leaf ranges sorted by id; `work`
      is the total reported to the progress counter. `tr` records the whole
      recursion: the result is the bisection it describes, level by level. */
  method RecursiveGraphBisection(fwd: ForwardIndex, docs: seq<nat>, depth: nat, gains: seq<int>, tg: TermGain)
    returns (r: seq<nat>, g: seq<int>, work: nat, ghost tr: Trace)
    requires fwd.Valid() && fwd.Covers(docs) && |gains| == fwd.Size()
    ensures |r| == |docs| && multiset(r) == multiset(docs)
    ensures fwd.Covers(r)
    ensures BlocksSorted(r, LeafSizes(|docs|, depth))
    ensures !(depth > 1 && |docs| > 2) ==> SortedById(r[..|docs| / 2]) && SortedById(r[|docs| / 2..])
    ensures work == Work(|docs|, depth)
    ensures |g| == |gains|
    ensures forall x :: 0 <= x < |g| && x !in docs ==> g[x] == gains[x]
    ensures IsBisection(fwd, tg, docs, depth, gains, tr, r, g)
    ensures |tr.run.states| == ITERATIONS + 1
    ensures multiset(r[..|docs| / 2]) == multiset(tr.run.states[ITERATIONS].part.left)
    ensures multiset(r[|docs| / 2..]) == multiset(tr.run.states[ITERATIONS].part.right)
    decreases depth, 2
  {
    var q, g1;
    ghost var run;
    q, g1, run := Bisect(fwd, docs, gains, tg);
    r, g, work, tr := Arrange(fwd, docs, q, depth, g1, gains, tg, run);
  }

  /** What `recursive_graph_bisection` does after bisecting `docs` into `q`:
      recurse into both halves, or sort each half by id at the bottom. The record
      returned extends `run`, the record of the bisection. */
  method Arrange(fwd: ForwardIndex, docs: seq<nat>, q: Partition, depth: nat, g1: seq<int>, gains: seq<int>,
                 tg: TermGain, ghost run: Run)
    returns (r: seq<nat>, g: seq<int>, work: nat, ghost tr: Trace)
    requires fwd.Valid() && fwd.Covers(q.left) && fwd.Covers(q.right) && |g1| == |gains| == fwd.Size()
    requires |q.left| == |docs| / 2 && |q.right| == |docs| - |docs| / 2
    requires multiset(q.left) + multiset(q.right) == multiset(docs)
    requires forall x :: 0 <= x < |g1| && x !in docs ==> g1[x] == gains[x]
    ensures |r| == |docs| && multiset(r) == multiset(docs)
    ensures fwd.Covers(r)
    ensures BlocksSorted(r, LeafSizes(|docs|, depth))
    ensures work == Work(|docs|, depth)
    ensures |g| == |gains|
    ensures forall x :: 0 <= x < |g| && x !in docs ==> g[x] == gains[x]
    ensures multiset(r[..|docs| / 2]) == multiset(q.left) && multiset(r[|docs| / 2..]) == multiset(q.right)
    ensures tr.run == run && Arranged(fwd, tg, q, depth, g1, tr, r, g)
    decreases depth, 1
  {
    if depth > 1 && |docs| > 2 {
      var w;
      r, g, w, tr := Descend(fwd, q, depth, g1, tg, run);
      work := |docs| + w;
      NodeLayout(|docs|, depth, r, w);
      UntouchedOutside(docs, q, gains, g1, g);
      JoinHalves(r, q.left, q.right);
    } else {
      r, g, work, tr := Bottom(fwd, docs, q, depth, g1, gains, tg, run);
      ArrangedLeaf(fwd, tg, q, depth, g1, tr, r);
    }
  }

  /** At the bottom of the recursion, each side of `q` is sorted by id, left side
      first, and the gains are left as the bisection made them; the record is the
      bisection's `run` alone. */
  method Bottom(fwd: ForwardIndex, docs: seq<nat>, q: Partition, depth: nat, g1: seq<int>, gains: seq<int>,
                tg: TermGain, ghost run: Run)
    returns (r: seq<nat>, g: seq<int>, work: nat, ghost tr: Trace)
    requires !(depth > 1 && |docs| > 2)
    requires fwd.Covers(q.left) && fwd.Covers(q.right) && |g1| == |gains|
    requires |q.left| == |docs| / 2 && |q.right| == |docs| - |docs| / 2
    requires multiset(q.left) + multiset(q.right) == multiset(docs)
    requires forall x :: 0 <= x < |g1| && x !in docs ==> g1[x] == gains[x]
    ensures |r| == |docs| && multiset(r) == multiset(docs)
    ensures fwd.Covers(r)
    ensures BlocksSorted(r, LeafSizes(|docs|, depth))
    ensures work == Work(|docs|, depth)
    ensures |g| == |gains|
    ensures forall x :: 0 <= x < |g| && x !in docs ==> g[x] == gains[x]
    ensures multiset(r[..|docs| / 2]) == multiset(q.left) && multiset(r[|docs| / 2..]) == multiset(q.right)
    ensures r[..|q.left|] == SortById(q.left) && r[|q.left|..] == SortById(q.right) && g == g1
    ensures tr == Leaf(run)
  {
    r := SortHalves(fwd, q);
    g, work, tr := g1, |docs|, Leaf(run);
    LeafLayout(|docs|, depth, r);
    JoinHalves(r, q.left, q.right);
  }

  /** Bisections of both sides, the right one starting from the gains the left
      one leaves, are what a range arranges into above the bottom. */
  lemma ArrangedNode(fwd: ForwardIndex, tg: TermGain, q: Partition, depth: nat, g1: seq<int>,
                     tr: Trace, r: seq<nat>, g: seq<int>)
    requires depth > 1 && |q.left| + |q.right| > 2 && tr.Node? && |r| == |q.left| + |q.right|
    requires IsBisection(fwd, tg, q.left, depth - 1, g1, tr.l, r[..|q.left|], tr.mid)
    requires IsBisection(fwd, tg, q.right, depth - 1, tr.mid, tr.r, r[|q.left|..], g)
    ensures Arranged(fwd, tg, q, depth, g1, tr, r, g)
  {
  }

  /** Each side sorted by id, with the gains left as they are, is what a range
      arranges into at the bottom. */
  lemma ArrangedLeaf(fwd: ForwardIndex, tg: TermGain, q: Partition, depth: nat, g1: seq<int>,
                     tr: Trace, r: seq<nat>)
    requires !(depth > 1 && |q.left| + |q.right| > 2) && |r| == |q.left| + |q.right|
    requires r[..|q.left|] == SortById(q.left) && r[|q.left|..] == SortById(q.right)
    ensures Arranged(fwd, tg, q, depth, g1, tr, r, g1)
  {
  }

  /** Above the bottom, the leaf blocks and the progress total of a range of `n`
      documents are those of its two halves, plus `n` for the range itself. */
  lemma NodeLayout(n: nat, depth: nat, r: seq<nat>, w: nat)
    requires depth > 1 && n > 2
    requires BlocksSorted(r, LeafSizes(n / 2, depth - 1) + LeafSizes(n - n / 2, depth - 1))
    requires w == Work(n / 2, depth - 1) + Work(n - n / 2, depth - 1)
    ensures BlocksSorted(r, LeafSizes(n, depth)) && n + w == Work(n, depth)
  {
  }

  /** At the bottom, a range of `n` documents is one block per half, and only `n`
      itself is reported. */
  lemma LeafLayout(n: nat, depth: nat, r: seq<nat>)
    requires !(depth > 1 && n > 2)
    requires BlocksSorted(r, [n / 2, n - n / 2])
    ensures BlocksSorted(r, LeafSizes(n, depth)) && n == Work(n, depth)
  {
  }

  /** A sequence whose two halves hold the documents of `a` and of `b` holds
      the documents of both. */
  lemma JoinHalves(r: seq<nat>, a: seq<nat>, b: seq<nat>)
    requires |r| == |a| + |b|
    requires multiset(r[..|a|]) == multiset(a) && multiset(r[|a|..]) == multiset(b)
    ensures multiset(r) == multiset(a) + multiset(b)
  {
    assert r == r[..|a|] + r[|a|..];
  }

  /** Gains kept outside a partition of `docs` by a step that kept those outside
      `docs` stay kept outside `docs` over both steps. */
  lemma UntouchedOutside(docs: seq<nat>, q: Partition, gains: seq<int>, g1: seq<int>, g: seq<int>)
    requires multiset(q.left) + multiset(q.right) == multiset(docs)
    requires |g1| == |gains| && |g| == |gains|
    requires forall x :: 0 <= x < |g1| && x !in docs ==> g1[x] == gains[x]
    requires forall x :: 0 <= x < |g| && x !in q.left && x !in q.right ==> g[x] == g1[x]
    ensures forall x :: 0 <= x < |g| && x !in docs ==> g[x] == gains[x]
  {
    forall x | 0 <= x < |g| && x !in docs ensures g[x] == gains[x] {
      SameDocuments(q.left, q.right, docs, [], x);
    }
  }

  /** The leaf case: each half sorted by id on its own, left half first. */
  method SortHalves(fwd: ForwardIndex, q: Partition) returns (r: seq<nat>)
    requires fwd.Covers(q.left) && fwd.Covers(q.right)
    ensures |r| == |q.left| + |q.right|
    ensures r[..|q.left|] == SortById(q.left) && r[|q.left|..] == SortById(q.right)
    ensures multiset(r[..|q.left|]) == multiset(q.left) && multiset(r[|q.left|..]) == multiset(q.right)
    ensures fwd.Covers(r)
    ensures BlocksSorted(r, [|q.left|, |q.right|])
  {
    var sl, sr := SortById(q.left), SortById(q.right);
    r := sl + sr;
    TwoLeaves(sl, sr);
    CoversPermutation(fwd, q.left, sl);
    CoversPermutation(fwd, q.right, sr);
  }

  /** The two recursive calls, one level down, on the halves of a range bisected
      into `q`, left half first, with the gains the left call leaves behind passed
      on to the right call. The record returned extends `run`, the record of the
      bisection. */
  method Descend(fwd: ForwardIndex, q: Partition, depth: nat, gains: seq<int>, tg: TermGain, ghost run: Run)
    returns (r: seq<nat>, g: seq<int>, work: nat, ghost tr: Trace)
    requires depth > 1 && |q.left| + |q.right| > 2
    requires fwd.Valid() && fwd.Covers(q.left) && fwd.Covers(q.right) && |gains| == fwd.Size()
    ensures |r| == |q.left| + |q.right|
    ensures multiset(r[..|q.left|]) == multiset(q.left) && multiset(r[|q.left|..]) == multiset(q.right)
    ensures fwd.Covers(r)
    ensures BlocksSorted(r, LeafSizes(|q.left|, depth - 1) + LeafSizes(|q.right|, depth - 1))
    ensures work == Work(|q.left|, depth - 1) + Work(|q.right|, depth - 1)
    ensures |g| == |gains|
    ensures forall x :: 0 <= x < |g| && x !in q.left && x !in q.right ==> g[x] == gains[x]
    ensures tr.Node? && tr.run == run && Arranged(fwd, tg, q, depth, gains, tr, r, g)
    decreases depth, 0
  {
    var l, g2, w1, lt := RecursiveGraphBisection(fwd, q.left, depth - 1, gains, tg);
    var rr, g3, w2, rt := RecursiveGraphBisection(fwd, q.right, depth - 1, g2, tg);
    r, g, work := l + rr, g3, w1 + w2;
    tr := Node(run, g2, lt, rt);
    assert r[..|q.left|] == l && r[|q.left|..] == rr;
    ArrangedNode(fwd, tg, q, depth, gains, tr, r, g);
    BlocksSortedAppend(l, LeafSizes(|q.left|, depth - 1), rr, LeafSizes(|q.right|, depth - 1));
  }

  /** Two ascending halves form a block layout with one block per half. */
  lemma TwoLeaves(sl: seq<nat>, sr: seq<nat>)
    requires SortedById(sl) && SortedById(sr)
    ensures BlocksSorted(sl + sr, [|sl|, |sr|])
    ensures (sl + sr)[..|sl|] == sl && (sl + sr)[|sl|..] == sr
  {
    var r := sl + sr;
    assert r[..|sl|] == sl && r[|sl|..] == sr;
    assert r[|sl|..][..|sr|] == sr && r[|sl|..][|sr|..] == [];
    assert [|sl|, |sr|][1..] == [|sr|];
    assert BlocksSorted(r[|sl|..][|sr|..], []);
  }

  /** The reordering driver: bisect all documents of the index, starting from the
      identity order with every gain at zero, to `DRIVER_DEPTH`, and turn the
      resulting order into the id-to-position mapping. `tr` records that
      bisection and `finalGains` the gains it leaves. The mapping is a bijection
      that sends each document to its place in the new order. The driver makes no
      gain vector; zero is arbitrary, as every round's `ComputeGains` overwrites the
      gain of every document before it is read. */
  method Reorder(fwd: ForwardIndex, tg: TermGain)
    returns (order: seq<nat>, mapping: seq<nat>, ghost finalGains: seq<int>, ghost tr: Trace)
    requires fwd.Valid()
    ensures IsBisection(fwd, tg, Iota(fwd.Size()), DRIVER_DEPTH, seq(fwd.Size(), _ => 0), tr, order, finalGains)
    ensures IsPermutation(order) && |order| == fwd.Size()
    ensures BlocksSorted(order, LeafSizes(fwd.Size(), DRIVER_DEPTH))
    ensures |mapping| == fwd.Size()
    ensures forall p :: 0 <= p < |order| ==> order[p] < |mapping| && mapping[order[p]] == p
    ensures forall id :: 0 <= id < |mapping| ==> mapping[id] < |order| && order[mapping[id]] == id
    ensures forall i, j :: 0 <= i < j < |mapping| ==> mapping[i] != mapping[j]
  {
    var documents := Iota(fwd.Size());
    var gains := seq(fwd.Size(), _ => 0);
    var g, work;
    order, g, work, tr := RecursiveGraphBisection(fwd, documents, DRIVER_DEPTH, gains, tg);
    finalGains := g;
    PermutationFacts(order);
    mapping := GetMapping(order);
    MappingInvertsPermutation(order, mapping);
  }
}
