# Bucket sort, modelled in Dafny

This project models a small teaching library of integer-keyed sorts: counting
sort and bucket sort. It has four implementations of the same machinery:

- a Python reference (`count_keys`, `count_sort`, `cumsum`, `bucket_sort`);
- a stable C index sort (`bsort_order`), which writes the sorting
  permutation of the keys into an output buffer;
- an in-place C bucket sort (`inplace_bsort`), which works by swaps;
- a Rust histogram (`count_keys`).

All four begin by counting the keys into a histogram. The Rust
`count_keys` stops there. The Python `count_sort` writes each key as many
times as it was counted. The bucket sorts (`bucket_sort`, `bsort_order` and
`inplace_bsort`) go on in two more steps:

1. They turn the counts into exclusive prefix sums, which are the start
   offsets of the key blocks.
2. They move every element to its key's cursor and advance that cursor.

The model keeps the form of the code. Python lists and the Rust vector are
`seq` variables that the loops update by index. C buffers are `array`s.
Every loop becomes a `while`/`for` loop with its invariants. Keys are `nat`.
A `(key, value)` pair or a C `struct data` is an `Entry<V>` with an opaque
payload `V`.

Modules:

- `Counting` (counting.dfy) holds the specification functions shared by all
  four implementations:
  - `Max` and `BucketCount`;
  - the histogram `Histogram`;
  - `CountLess(keys, c)`, the number of keys below `c`, which is the start
    of the block of `c`;
  - `Expand`, the sorted sequence a histogram stands for;
  - the lemmas connecting them.
- `Ordering` (ordering.dfy) defines `StableOrder(keys, m)`, the indices of
  the keys bucket by bucket and in input order within a bucket. It proves
  that this order is a permutation, sorts by key, is stable, and is the
  only order with all three properties. It also states, in `Placed`, the
  state of a placement loop driven by per-key cursors, and proves it step
  by step.
- `PythonBsort`, `CBsort`, `CInplace` and `RustBsort` hold the four
  implementations.

Proofs about loops follow one pattern. The method's `ensures` connects its
result or its new state to a specification function. The properties the
library promises are then proved about that function as lemmas.

The C `inplace_bsort` has a nested loop. Its inner loop,
`while (i >= BUCKET(i)) SWAP_TO_BUCKET(i);`, is modelled as the method
`SwapToBucket`, which the outer loop calls once per position. The code has
a single in-place variant with the inclusive test `i >= BUCKET(i)`, under
which a cursor equal to `i` swaps the element with itself. The model
follows the code.

## Model

| member | source | states |
|---|---|---|
| Counting.Max | C/bsort.c:5-11 | the maximum of a non-empty key sequence is at least every key and equals one of them |
| Counting.BucketCount | python/bsort.py:33 | the table length is 0 exactly for no keys; otherwise every key is below it and some key is exactly one less |
| Counting.HistogramPrefixSum | python/bsort.py:62-74 | the exclusive prefix sum of the histogram up to c is the number of keys below c, i.e. the start of the block of c |
| Counting.HistogramSum | python/bsort.py:35-36 | when every key indexes the histogram, the counts add up to the number of keys |
| Counting.ExpandSorted | python/bsort.py:55-58 | writing each key k counts[k] times, k increasing, gives a sorted sequence of keys below the histogram's length |
| Counting.ExpandHistogram | python/bsort.py:52-59 | expanding the histogram of the keys gives back exactly the keys' multiset |
| Counting.SortedUnique | python/test_bsort.py:25-31 | two sorted sequences with the same multiset are equal, so any sorted rearrangement is the sorted input |
| Ordering.StableOrderStablySorts | python/bsort.py:89-94 | the stable order lists every index once, reads the keys in non-decreasing order, and keeps equal keys in input order |
| Ordering.StablySortsUnique | python/test_bsort.py:34-43 | two orders that both stably sort the same keys are equal |
| Ordering.StableOrderIsTheStableSort | python/test_bsort.py:41-43 | every order that stably sorts the keys is the stable order, which is the order a stable library sort by key produces |
| Ordering.SortedKeysIdentity | C/bsort.c:45-46 | on keys that are already sorted the stable order is the identity |
| Ordering.GatherPermutation | python/bsort.py:89-94 | reading a sequence through a permutation of its indices keeps its multiset |
| Ordering.GatherSortedKeys | python/bsort.py:89-94 | reading entries through an order that sorts their keys gives entries with non-decreasing keys |
| Ordering.PlacedStart | C/bsort.c:44 | cursors at the block starts, with nothing placed yet, are a valid placement state |
| Ordering.PlaceStep | python/bsort.py:91-93 | before a write, the key's cursor lies in [start, end) of its block, so every write stays inside the output; writing the entry there and advancing the cursor keeps the placement state |
| Ordering.PlacedComplete | python/bsort.py:89-94 | once every entry is placed, the output is the input read in the stable order: every slot is written exactly once and no placeholder survives |
| Ordering.PlacedCursorsAtEnds | C/bsort.c:45-46 | after the placement loop, every cursor equals its block's start plus its key's count |
| PythonBsort.CountKeys | python/bsort.py:6-37 | the list has length max+1, or 0 for no keys; entry k is the number of occurrences of k; the entries add up to the number of keys |
| PythonBsort.CountSort | python/bsort.py:40-59 | the output is the expanded histogram; it is sorted and is a rearrangement of the input |
| PythonBsort.Cumsum | python/bsort.py:62-74 | for any list of integers, negative ones included: same length as the input; entry i is the sum of the entries before i; out[0] is 0 and out[i+1] = out[i] + x[i], so the last input is ignored; non-negative inputs give non-negative sums |
| PythonBsort.BucketSort | python/bsort.py:77-94 | the output is the input read in the stable order of its keys; it is a rearrangement of the input with sorted keys, and equal keys keep their input order |
| PythonBsort.PlacedFromPrefixSums | python/bsort.py:89 | cursors at the cumulative sums of the histogram are the block starts, which is where placement begins |
| PythonBsort.PlacedEntries | python/bsort.py:89-94 | after the loop, the output is the stable reading of the input, sorted by key and a rearrangement of the input |
| PythonBsort.CountKeysExample | python/bsort.py:27-28 | the counts of [1, 2, 2, 1, 4] are [0, 2, 2, 0, 1] |
| PythonBsort.CountSortExample | python/bsort.py:49-50 | count sort of [1, 2, 1, 2, 4] is [1, 1, 2, 2, 4] |
| PythonBsort.CumsumExample | python/bsort.py:66-69 | cumsum([1, 2, 3]) is [0, 1, 3] and cumsum([0, 2, 2, 0, 1]) is [0, 0, 2, 4, 4] |
| PythonBsort.ExampleOrder | python/bsort.py:86-87 | [0, 2, 1, 3, 4] stably sorts the keys [1, 2, 1, 2, 4] |
| PythonBsort.BucketSortExample | python/bsort.py:86-87 | bucket sort of the documented pairs is [(1,a), (1,c), (2,b), (2,d), (4,e)], because [0, 2, 1, 3, 4] is the only stable order of their keys |
| CBsort.MaxKey | C/bsort.c:5-11 | the result is at least every key and equals one of them; it is 0 for no keys |
| CBsort.NoBuckets | C/bsort.c:13-16 | 0 exactly for no keys, otherwise max key + 1, so every key is a valid bucket index |
| CBsort.ComputeBuckets | C/bsort.c:18-34 | after counting and the in-place prefix pass, buckets[j] is the number of keys below j (so buckets[0] is 0) |
| CBsort.BsortOrder | C/bsort.c:36-49 | keys are unchanged; order becomes the stable order: a permutation of the indices that reads the keys in non-decreasing order, equal keys in increasing index order |
| CBsort.BsortOrderComplete | C/bsort.c:45-46 | after the loop, order is the stable order, and each cursor is its block's start plus its key's count |
| CInplace.MaxKey | C/inplace.c:7-13 | the result is at least every key and equals one of them; it is 0 for an empty array |
| CInplace.NoBuckets | C/inplace.c:15-18 | 0 exactly for an empty array, otherwise max key + 1 |
| CInplace.ComputeBuckets | C/inplace.c:20-36 | buckets[j] becomes the number of elements whose key is below j, the start of the block of j |
| CInplace.Swap | C/inplace.c:41-46 | exchanges the elements at the two positions; nothing else changes |
| CInplace.SwapMultiset | C/inplace.c:41-46 | a swap keeps the multiset of the elements |
| CInplace.InplaceBsort | C/inplace.c:54-65 | the array ends as a rearrangement of itself with non-decreasing keys, after exactly n swaps (self-swaps included) |
| CInplace.SwapToBucket | C/inplace.c:51-62 | the inner while loop terminates, keeps the multiset and the scan invariant, and leaves position i before its key's cursor; the cursors only grow, the records in the filled block fronts at entry stay where they are, and the cursors' sum grows by the number of swaps |
| CInplace.SwapKeepsFronts | C/inplace.c:51-52 | one swap moves no record out of a filled block front (neither i, under the loop guard, nor the cursor's slot lies in one), and the cursors only grow |
| CInplace.InplaceStart | C/inplace.c:59 | cursors at the block starts are a valid scan state at position 0 |
| CInplace.SwapTarget | C/inplace.c:61-62 | when i >= BUCKET(i), the cursor lies in [start, end) of its block, so the swap index stays within [0, n) |
| CInplace.SwapRecords | C/inplace.c:41-46 | swapping two records keeps their multiset and swaps their keys |
| CInplace.SwapStep | C/inplace.c:51-52 | one swap and post-increment keep the scan state: the cursor only grows and stays in its block, the filled front of every block holds its key, and scanned positions stay before their cursors |
| CInplace.SwapFills | C/inplace.c:51-52 | the element swapped to the cursor extends its block's filled front, and neither swapped slot lies in another block's filled front |
| CInplace.SwapScans | C/inplace.c:51-52 | after the swap every position before i still lies before its key's cursor |
| CInplace.CursorAdvance | C/inplace.c:52 | the post-increment adds one to the cursors' sum, which stays at most the sum of the block ends, so the inner loop terminates |
| CInplace.SwapAdvance | C/inplace.c:51-52 | one `SWAP_TO_BUCKET(i)` on the records keeps their multiset and the scan state, and advances the cursors' sum by one within its bound |
| CInplace.ScanNext | C/inplace.c:60-61 | once BUCKET(i) > i, position i counts as scanned |
| CInplace.BlocksFull | C/inplace.c:60-62 | after the scan every cursor is at the end of its block |
| CInplace.InplaceSorted | C/inplace.c:54-65 | after the scan the keys are non-decreasing |
| CInplace.SwapCount | C/inplace.c:60-62 | the number of swaps equals the number of elements |
| RustBsort.CountKeys | Rust/bsort/src/lib.rs:1-8 | with no upper bound it panics; otherwise it succeeds exactly when every key is below the bound, with one counter per slot of the bound, counter k holding the occurrences of k and the counters summing to the number of keys; otherwise it fails at the first out-of-range key |
| RustBsort.CountKeysOfVec | Rust/bsort/src/lib.rs:2-3 | a vector's bound is its length: success exactly when every key is below the number of keys, with the histogram of that length |
| RustBsort.CountKeysOfVecExample | Rust/bsort/src/lib.rs:14-17 | [1, 2, 2, 1, 4] passes the bound, and its histogram over five counters is [0, 2, 2, 0, 1] |

The doctests `count_sort([]) == []` and `bucket_sort([]) == []` follow
directly from the `ensures` of `CountSort` and `BucketSort`: an output with
the multiset of the empty input is empty.

## Left out

- Machine integers: `unsigned int`, `size_t` and `usize` are modelled as
  `nat`. The model therefore does not capture wrap-around of the C
  accumulator `acc`, of the cursors, of `max + 1`, or of the Rust counters.
  The counts, `acc` and the cursors are `unsigned int` while `n` is
  `size_t`, and each of them can reach `n`. So the model matches the C code
  only for `n <= UINT_MAX`. `max_key` returns a `size_t`, so
  `max + 1` wraps only where `size_t` is 32 bits and a key equals
  `UINT_MAX`; there, every key must also be below `UINT_MAX`. The Rust
  counters are `usize` and never exceed the number of keys, so they cannot
  wrap.
- Negative keys are excluded by the library's own documentation, and the C
  and Rust key types cannot represent them.
- `malloc` and `free` are modelled as allocating a fresh array of length k.
  The code does not handle allocation failure either.
- The test drivers (random inputs) are not modelled. Their assertions appear
  as properties in the table above.
- The tests call `reorder`, which is not defined in any file of the
  library, so it is not modelled.
- C/bsort.h only declares `bsort_order`. `struct data` is not defined in
  any file of the library; it is modelled as `Entry<V>` with a `key` and an
  opaque payload.
- Python's placeholder `(0, None)` is modelled as `Entry(0, d)`, where `d`
  is the default value of the payload type. This works because every slot
  is overwritten.
- Rust iterators are modelled as the sequence of keys they yield together
  with the upper bound of their `size_hint`. The lower bound is unused by
  the code and is not modelled.
- The stability of `inplace_bsort` is not claimed: the code does not
  provide it, and its tests do not check it.
- CInplace.Swap: exchanges two slots of one array. The C `swap` takes two
  pointers into any arrays, but its only caller passes two slots of `x`.
- CBsort.ComputeBuckets: requires `buckets != keys`. In `bsort_order` the
  table is freshly allocated, so it never aliases the keys.
- CBsort.BsortOrder: requires `keys != order`. In C the two buffers have
  different element types (`unsigned int` and `size_t`).
- CInplace.InplaceBsort: the swap count is a ghost result. The model proves
  that there is exactly one swap per element, but says nothing about running
  time beyond that.
