# Index reordering core: VByte codec and recursive graph bisection

This project models two sequential pieces of a document-reordering tool for
inverted indexes, and proves properties of the models in Dafny.

1. **The VByte codec** (`Varint`). It writes 32-bit integers as little-endian
   7-bit groups, one group per byte and 1 to 5 bytes per value. Unlike
   LEB128, bit 7 marks the *last* byte of a value. The decoder adds the groups
   back together and emits a value at every byte that has bit 7 set.
2. **The discrete skeleton of recursive graph bisection**, on its sequential
   path. It covers these steps:
   - a range of document ids is cut at `size / 2`;
   - each term gets its degree on both sides;
   - for 20 iterations:
     - each document gets a move gain;
     - each side is sorted by descending gain;
     - a greedy lock-step pass exchanges pairs of documents while the pair's
       combined gain is positive, and updates both degree vectors as it goes;
   - the two halves are bisected again while `depth > 1 && size > 2`;
     otherwise each half is sorted by id;
   - the driver turns the final order into the old-id to new-id mapping
     (`get_mapping`).

   The floating-point gain formula is abstracted. A `TermGain` is any
   integer-valued function of the four arguments the source passes to its
   per-term gain: the two side sizes, the degree on the side the document
   leaves, and the degree on the side it joins. A document's gain is the sum of
   that function over its terms, stored in one gain vector indexed by document
   id and shared by the whole recursion, as in the source.

Modules and files:

| file | module | contents |
|---|---|---|
| `varint.dfy` | `Varint` | the encoder, `encode_single`, the decoder, a reference encoding `Groups` and decoding `DecodeAll`, and the round trip |
| `forward_index.dfy` | `Forward` | the forward index as a sequence of term lists plus the vocabulary size |
| `document_range.dfy` | `Ranges` | ranges as sequences of ids, partitions, `split` |
| `degrees.dfy` | `Degrees` | per-term occurrence counts and both `compute_degrees` overloads |
| `ordering.dfy` | `Ordering` | the `by_gain` order, the id order, and the two sorts |
| `mapping.dfy` | `Mapping` | permutations of `0 .. n-1` and `get_mapping` |
| `bisection.dfy` | `Bisection` | gains, `swap`, one refinement round, `process_partition`, the recursion, and the driver |

Behaviour of the code that the model follows:

- **Recursion stop.** The code recurses only when `depth > 1 && size > 2`,
  so a range at depth 1, or of at most 2 documents, is already a leaf. The
  model stops under the same condition.
- **Iterations.** The code always runs exactly 20 iterations per bisection,
  with no early exit after a pass that swaps nothing. So does the model.
- **Degrees.** The code adds 1 to a term's counter for every entry of a
  document's term list, with the entries of one document visited under
  `std::execution::par_unseq` or `unseq`. When every document lists each of
  its terms once, this is the number of documents containing the term. The
  model counts occurrences, which is that number in that case
  (`Degrees.DistinctOccurrences`); a term listed twice by one document is
  discussed under "Left out".
- **The driver.** `src/recursive_graph_bisection.cpp:22-33` calls
  interfaces that do not match the header:
  - a `document_range` built from `0, begin, end, fwd.term_count()`, where
    the header's constructor takes `first, last, fwdidx, gains`;
  - a two-argument `recursive_graph_bisection(initial_range, 9)`;
  - `get_mapping` over a vector of `doc_ref` values.

  The bisection header also calls `terms(doc)` and `term_count()` on the
  forward index, and the class in `include/forward_index.hpp` declares neither.

  `Bisection.Reorder` models what the driver evidently does, with the
  header's interfaces. It bisects every document of the index, starting from
  the identity order, to depth 9. It then builds the mapping from the
  resulting order. The driver creates no gain vector, so starting with every
  gain at zero is the model's own choice. The choice cannot change the result:
  every round begins with `compute_gains`, which writes the gain of every
  document of the range before `by_gain` or the swap loop reads one
  (`Bisection.ComputeGains`), and the range holds every document.

## Model

| member | source | states |
|---|---|---|
| Varint.Extract7Bits | include/codec/varint.hpp:10-13 | the masked byte is a 7-bit group (below 128); its exact value is stated by `Varint.ExtractIsDigit` |
| Varint.Extract7BitsMaskless | include/codec/varint.hpp:15-18 | without the mask, the byte is the whole shifted value whenever that value fits in 7 bits |
| Varint.ExtractIsDigit | include/codec/varint.hpp:10-18 | `extract7bits<i>` is base-128 digit `i` of the value; the unmasked cast is the quotient by `128^i` modulo 256, agrees with `extract7bits` below bit 7, and equals the whole quotient when the value is below `128^(i+1)` |
| Varint.SetHighBit | include/codec/varint.hpp:29 | `b \| 0x80` on a byte: the result has bit 7 set and keeps the low 7 bits of `b` |
| Varint.EncodeValue | include/codec/varint.hpp:28-63 | the bytes written for one value number 1 to 5; every byte but the last is below 128 and the last has bit 7 set |
| Varint.SmallValue | include/codec/varint.hpp:28-30 | a value below 128 encodes to the single byte `val + 128` (`val \| 0x80`) |
| Varint.EncodeValueIsGroups | include/codec/varint.hpp:28-63 | the five unrolled branches of `encode` produce exactly the reference encoding: 7-bit groups from the low end, the last one marked with bit 7 |
| Varint.EncodeValueLayout | include/codec/varint.hpp:28-63 | a value takes 1 to 5 bytes, the fewest 7-bit groups that hold it (`val < 128^len`, and `128^(len-1) <= val` when `len > 1`); byte `i` carries bits `7i .. 7i+6`; every byte but the last is below 128 and the last has bit 7 set |
| Varint.EncodeAllAppend | include/codec/varint.hpp:22-64 | the encoding of a concatenation is the concatenation of the encodings |
| Varint.EncodeAllLength | include/codec/varint.hpp:65 | the encoded length is the sum of the per-value lengths, between `n` and `5n` for `n` values |
| Varint.Encode | include/codec/varint.hpp:20-66 | the bytes written are the values' encodings in input order, and `nvalue` is their total length, between `length` and `5 * length` |
| Varint.EncodeSingle | include/codec/varint.hpp:68-73 | the existing bytes of `out` are untouched; 1 to 5 bytes are appended, exactly the value's encoding, and they decode to that one value; after a complete group, decoding the whole buffer gives the old values followed by `val` |
| Varint.DecodeFrom | include/codec/varint.hpp:75-91 | decoding emits exactly one value per byte with bit 7 set, whatever group is in progress |
| Varint.DecodeAllAppend | include/codec/varint.hpp:75-91 | decoding a buffer that ends on a complete group, followed by more bytes, decodes the two parts independently |
| Varint.RoundTrip | include/codec/varint.hpp:20-91 | the encoding of any sequence is well formed and decodes back to that sequence, and it holds exactly one terminator byte per value |
| Varint.AccumulateStep | include/codec/varint.hpp:80-82 | accumulating `(c & 127) << shift` into a `uint32_t` agrees, modulo 2^32, with accumulating into an unbounded integer |
| Varint.DecodeGroup | include/codec/varint.hpp:79-88 | reads 1 to 5 bytes and stops at the first byte with bit 7 set; the value it returns is the first value of the decoding, and the rest of the input decodes to the rest |
| Varint.WellFormedIsTerminated | include/codec/varint.hpp:77-87 | a well-formed buffer is empty or ends on a byte with bit 7 set, so the inner loop of `decode`, which does not check `len`, finds a terminator inside the buffer |
| Varint.Decode | include/codec/varint.hpp:75-91 | on well-formed input, the values written are the decoding of the input, and the return value is their number, which is the number of terminator bytes |
| Varint.EncodeThenDecode | include/codec/varint.hpp:20-91 | decoding the bytes `encode` wrote returns the input values, and the returned count is the number of input values |
| Ranges.Split | include/recursive_graph_bisection.hpp:114-119 | the left side is the first `size / 2` documents, and left followed by right is the original range; the right side is longer by `size % 2` |
| Ranges.SplitHalves | include/recursive_graph_bisection.hpp:114-119 | the two sides hold exactly the range's documents; the right side is 0 or 1 longer than the left; a range of two or more documents leaves neither side empty |
| Degrees.AddTerms | include/recursive_graph_bisection.hpp:158-166 | after the inner loop over one document's terms, entry `t` has grown by the number of times the document lists `t`, and the vector keeps its length |
| Degrees.MoveTerms | include/recursive_graph_bisection.hpp:316-323 | one inner loop of `swap`: entry `t` of the side the document leaves drops by the number of times it lists `t`, and entry `t` of the side it joins grows by the same number |
| Degrees.ComputeDegrees | include/recursive_graph_bisection.hpp:155-168 | the result has one entry per term of the vocabulary, and entry `t` is the number of occurrences of `t` in the range's documents |
| Degrees.ComputeDegreePair | include/recursive_graph_bisection.hpp:170-183 | both vectors are the degree maps of their sides |
| Degrees.DistinctOccurrences | include/recursive_graph_bisection.hpp:155-168 | when every document lists each term once, the degree of `t` is the number of documents of the range that contain `t` |
| Degrees.OccurrencesPermutation | include/recursive_graph_bisection.hpp:331-351 | degrees depend only on which documents a side holds, so sorting a side keeps the degrees computed before the loop correct |
| Degrees.MemberBoundsOccurrences | include/recursive_graph_bisection.hpp:316-323 | a range's degree of `t` is at least the count of `t` in any one of its documents |
| Ordering.ByGainStrictWeakOrder | include/recursive_graph_bisection.hpp:126-130 | `by_gain` is irreflexive, asymmetric and transitive, and equal gains (incomparability) are an equivalence it respects, which is what `std::sort` requires of a comparator |
| Ordering.SortByGain | include/recursive_graph_bisection.hpp:126-130 | the result is a permutation of the side in which no document comes after one that `by_gain` puts before it (gains never increase along the side) |
| Ordering.SortById | include/recursive_graph_bisection.hpp:400-401 | the result is a permutation of the half in ascending id order |
| Ordering.SortedPermutationUnique | include/recursive_graph_bisection.hpp:400-401 | two ascending sequences holding the same ids are equal |
| Ordering.SortByIdIsTheSortedOrder | include/recursive_graph_bisection.hpp:400-401 | whatever ascending permutation `std::sort` produces is the one the model produces |
| Mapping.PermutationFacts | include/recursive_graph_bisection.hpp:146-153 | a permutation of `0 .. n-1` has every id in range, has no repeats, and contains every id |
| Mapping.GetMapping | include/recursive_graph_bisection.hpp:146-153 | the mapping has one entry per position; each id that occurs maps to the last position holding it, and each id that does not occur keeps 0; on a permutation, `mapping[c[p]] == p` for every position `p` |
| Mapping.MappingInvertsPermutation | include/recursive_graph_bisection.hpp:146-153 | on a permutation, the mapping is a bijection of ids onto positions and inverts the order in both directions |
| Bisection.DocGain | include/recursive_graph_bisection.hpp:267-278 | a document's gain is the sum of its term gains: it is not positive when no term gains, and not negative when no term loses |
| Bisection.DocGainAppend | include/recursive_graph_bisection.hpp:267-276 | the gain of a concatenated term list is the sum of the gains of the two parts, so the order of accumulation only groups the sum |
| Bisection.MoveGains | include/recursive_graph_bisection.hpp:258-284 | every document of the side gets its move gain, the sum of the term gains over its terms computed from the side sizes and both degrees; every other document's gain is untouched |
| Bisection.ComputeGains | include/recursive_graph_bisection.hpp:286-304 | left documents are scored for a move right with arguments `(n1, n2, left, right)`; right documents are scored for a move left with every argument mirrored, and that second write wins; documents outside the partition keep their gain |
| Bisection.MoveGainDegreePositive | include/recursive_graph_bisection.hpp:270-274 | with correct degrees, the degree decremented in `from_deg - 1` is at least 1 for every term of the side's documents, so the unsigned subtraction cannot wrap |
| Bisection.SwapPrefixOccurrences | include/recursive_graph_bisection.hpp:316-324 | after the first `k` pairs are exchanged, each side's occurrences lose those of its own first `k` documents and gain those of the other side's first `k` |
| Bisection.ExchangeDegrees | include/recursive_graph_bisection.hpp:316-323 | the two inner loops for pair `k` move the left document's term occurrences from the left degrees to the right degrees, and the right document's the other way |
| Bisection.SwapStep | include/recursive_graph_bisection.hpp:313-324 | one pass of the loop body: it breaks exactly when the pair's combined gain is not positive, changing nothing; otherwise the pair is exchanged and the degrees are moved with it, giving the state after `k + 1` exchanges |
| Bisection.StopIsFirstNonPositive | include/recursive_graph_bisection.hpp:312-315 | the place where the walk stops (`Stop`, defined position by position) is the first pair from the start whose combined gain is not positive, or the end of the shorter side; every pair before it has a positive gain |
| Bisection.Swap | include/recursive_graph_bisection.hpp:306-326 | exactly the first `k` position pairs are exchanged and everything after is unchanged; every exchanged pair has a positive combined gain; `k` stops at the first pair whose gain is not positive, or at the end of the shorter side; `k` is at most both sizes; the degrees are the input degrees moved along with the exchanged documents |
| Bisection.SwapPreservesDegrees | include/recursive_graph_bisection.hpp:316-324 | after the pass, `left[t] + right[t]` is unchanged for every term; degrees that were correct stay correct; both sides keep their size, and together they hold the same documents |
| Bisection.SwapPrefixKeepsDocuments | include/recursive_graph_bisection.hpp:324 | exchanging pairs in place keeps both sizes and the multiset of documents of the partition |
| Bisection.SwapNeverUnderflows | include/recursive_graph_bisection.hpp:316-323 | when pair `i` is exchanged with correct degrees, the left decrements never exceed the left degree, and the right decrements never exceed the right degree plus what the left document just brought in, so no `size_t` counter wraps |
| Bisection.PairGainNonIncreasing | include/recursive_graph_bisection.hpp:312-315 | with both sides sorted by descending gain, the combined gain of a later position pair never exceeds that of an earlier one |
| Bisection.Round | include/recursive_graph_bisection.hpp:349-353 | one iteration: the gains are `compute_gains` of the current partition; each side is re-sorted into a gain-sorted permutation; exactly the leading pairs with positive combined gain are exchanged; sizes and documents are kept; correct degrees stay correct; the step from input to output is a `RoundStep` (the one-round relation the runs are made of) |
| Bisection.ProcessPartition | include/recursive_graph_bisection.hpp:328-355 | the result is the last of 21 states (a run) that starts from the partition, its computed degrees and the incoming gains, each next state being one `RoundStep` (gains recomputed, sides sorted by descending gain, the leading positive pairs exchanged, degrees moved) from the one before; each round exchanges at most `min(\|left\|, \|right\|)` pairs; both sides keep their sizes and together hold the initial documents; the degrees returned are correct for the final sides; gains of documents outside the partition are untouched |
| Bisection.Bisect | include/recursive_graph_bisection.hpp:363-381 | the result is the end of a 20-round run from `split` of the range: halves of `size / 2` and `size - size / 2` that together hold its documents; gains outside the range are untouched |
| Bisection.RecursiveGraphBisection | include/recursive_graph_bisection.hpp:357-403 | the result and the final gains are the bisection that the returned record describes level by level (`IsBisection`): the range is split and refined by a 20-round run from the incoming gains; while `depth > 1 && size > 2`, the first half of the result is the bisection of the run's final left side one level down from the run's gains, and the second half that of the final right side from the gains the left call leaves; otherwise each half is the run's final side sorted by id and the gains are the run's. In addition the result is a permutation of the range laid out in leaf blocks ascending by id, its halves hold the run's final sides, the progress total equals the sizes of all ranges visited, and gains outside the range are untouched |
| Bisection.Arrange | include/recursive_graph_bisection.hpp:382-402 | after the bisection into `q`, the result is `Arranged`: either bisections of both sides one level down, the right one starting from the gains the left one leaves, or both sides sorted by id at the bottom; its halves hold the two sides' documents; the layout is the range's leaf blocks; the progress total counts this range plus the recursion; gains outside the range are untouched |
| Bisection.Descend | include/recursive_graph_bisection.hpp:395-398 | the first half of the result is the bisection (`IsBisection`) of the left side one level down from the incoming gains, and the second half that of the right side from the gains the left call leaves (the `mid` of the `Node` record); each half holds its side's documents; the blocks of both halves form the layout; the progress totals add up; gains outside both sides are untouched |
| Bisection.SortHalves | include/recursive_graph_bisection.hpp:399-402 | at a leaf, each side is replaced by its ascending order by id, left first |
| Bisection.Bottom | include/recursive_graph_bisection.hpp:399-402 | at the bottom, the first half of the result is the left side sorted by id and the second half the right side sorted by id; the gains are those the bisection left; the layout is one block per half and only the range itself is reported |
| Bisection.LeafSizesTotal | include/recursive_graph_bisection.hpp:383-402 | the leaf ranges of the recursion tile the whole range: their sizes add up to its size |
| Bisection.BlocksSortedLength | include/recursive_graph_bisection.hpp:383-402 | a layout in leaf blocks covers exactly the total of the block sizes |
| Bisection.WorkBound | include/recursive_graph_bisection.hpp:382-397 | the total reported to `progress::update` is at least `n` and at most `n` per level of depth |
| Bisection.Reorder | src/recursive_graph_bisection.cpp:22-30 | the final order is the depth-9 bisection (`IsBisection`) of all documents in id order with every gain at zero; it is a permutation of all documents laid out in depth-9 leaf blocks sorted by id; the mapping is a bijection on the ids and sends each document to its position in the order, and back |

## Left out

- Floating-point gain arithmetic is abstracted to the integer-valued `TermGain`:
  - `bp::expb` (SSE single precision) and the `Log2` table;
  - `log2` of the side sizes;
  - `compute_move_gains_precompute` and `precomputed_moves_t`, whose use is
    commented out in the source.

  Rounding and summation order of doubles are therefore not modelled.
- `compute_move_gains_caching` and the `cache_entry` / `thread_local
  generation` cache are left out. The cache only memoises the per-term gain
  within one call. With a term gain that depends only on its arguments, the
  result equals `compute_move_gains`, which `Bisection.MoveGains` models.
- Parallelism is left out: `tbb::parallel_invoke`, `std::execution::par_unseq`,
  and the `parallel_depth` / `cache_depth` parameters. Apart from the degree
  count below, they change only scheduling or the choice between the two
  equal gain variants. The model is the sequential path.
- Repeated terms within one document: `compute_degrees` increments
  `deg_map[t]` from `std::for_each` under `par_unseq` or `unseq`, and
  `process_partition` uses that overload on both of its paths. Two entries
  for the same term in one document are then unsequenced increments of one
  counter, which the source leaves undefined (the count may come out low).
  The model counts every occurrence, a choice of its own for that case; it
  agrees with every execution of the source when each document lists each
  term once (`Degrees.DistinctOccurrences`).
- `include/forward_index.hpp` is left out: reading the binary collection and
  checking its header are I/O. The forward index is modelled as each
  document's term list plus the vocabulary size.
- `include/util/progress.hpp` is left out (a mutex-guarded counter that prints
  to stderr). `Bisection.RecursiveGraphBisection` returns the total it would
  report, as `work`.
- From `src/recursive_graph_bisection.cpp`, command-line parsing and
  `reorder_inverted_index` (a call into code outside these files) are left
  out.
- `test/test_forward_index.cpp` exercises the forward index's file format,
  which is not part of this model.
- Varint.Decode: requires a well-formed buffer (`Varint.WellFormed`). Every
  group ends within five bytes, a fifth byte carries at most four value bits
  (below 16 after masking), and the buffer ends on a terminator. On any other
  buffer the source reads past `len`, or shifts by 35 or more from a sixth byte on, or
  shifts a set bit past bit 31 of the signed `int` in `(c & 127) << 28`. The
  first two are undefined in every C++ version; only the last becomes defined
  from C++20 on.
- Ordering.SortByGain: `std::sort` is unstable and leaves the order of equal
  gains unspecified. The model is one admissible outcome: a stable insertion
  sort. The properties proved about it (permutation, non-increasing gains)
  hold for every admissible outcome. Later rounds depend on the tie order,
  and the model fixes one choice.
- Mapping.GetMapping: requires every id of the collection to be below its
  size. For a larger id the source writes `mapping[id]` out of bounds, which
  is undefined; the driver only passes permutations of `0 .. n-1`. The source
  also stores positions in `uint32_t`, which truncates beyond 2^32 documents;
  the model uses unbounded positions.
- Degree counters are `size_t` in the source and unbounded integers here.
  Correct degrees are never decremented below zero
  (`Bisection.SwapNeverUnderflows`, `Bisection.MoveGainDegreePositive`), so
  the two agree on every run from `compute_degrees`.
