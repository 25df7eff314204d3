/** The stable order of a key sequence, written as a sequence of input
    indices, and the facts about it that every bucket sort relies on: it is a
    permutation of the indices, the keys read through it are sorted, equal
    keys keep their input order, and no other order has all three
    properties. */
module Ordering {
  import opened Counting

  /** A key with an opaque payload: a Python (key, value) pair, or a C
      `struct data`. */
  datatype Entry<V> = Entry(key: nat, value: V)

  function Keys<V>(x: seq<Entry<V>>): seq<nat> {
    seq(|x|, i requires 0 <= i < |x| => x[i].key)
  }

  function Range(n: nat): seq<nat> {
    seq(n, i => i)
  }

  predicate IndicesBelow(o: seq<nat>, n: nat) {
    forall p :: 0 <= p < |o| ==> o[p] < n
  }

  predicate Distinct(o: seq<nat>) {
    forall p, q :: 0 <= p < q < |o| ==> o[p] != o[q]
  }

  /** The elements of x read in the order o. */
  function Gather<T>(x: seq<T>, o: seq<nat>): seq<T>
    requires IndicesBelow(o, |x|)
  {
    seq(|o|, p requires 0 <= p < |o| => x[o[p]])
  }

  /** The indices below n that hold key k, in increasing order. */
  function Bucket(keys: seq<nat>, k: nat, n: nat): seq<nat>
    requires n <= |keys|
  {
    if n == 0 then []
    else Bucket(keys, k, n - 1) + (if keys[n - 1] == k then [n - 1] else [])
  }

  /** The buckets of the keys below m, one after the other. */
  function StableOrder(keys: seq<nat>, m: nat): seq<nat> {
    if m == 0 then [] else StableOrder(keys, m - 1) + Bucket(keys, m - 1, |keys|)
  }

  predicate IsPermutation(o: seq<nat>, n: nat) {
    multiset(o) == multiset(Range(n))
  }

  predicate SortedThrough(keys: seq<nat>, o: seq<nat>) {
    forall p, q :: 0 <= p < q < |o| && o[p] < |keys| && o[q] < |keys| ==> keys[o[p]] <= keys[o[q]]
  }

  predicate StableThrough(keys: seq<nat>, o: seq<nat>) {
    forall p, q :: 0 <= p < q < |o| && o[p] < |keys| && o[q] < |keys| && keys[o[p]] == keys[o[q]] ==> o[p] < o[q]
  }

  /** o lists every index once, by non-decreasing key, equal keys in input order. */
  predicate StablySorts(keys: seq<nat>, o: seq<nat>) {
    IndicesBelow(o, |keys|) && IsPermutation(o, |keys|) &&
    SortedThrough(keys, o) && StableThrough(keys, o)
  }

  // ---------------------------------------------------------------------
  // Buckets

  /** The bucket of key k below n has one entry per occurrence of k there. */
  lemma {:induction false} BucketLength(keys: seq<nat>, k: nat, n: nat)
    requires n <= |keys|
    ensures |Bucket(keys, k, n)| == multiset(keys[..n])[k]
  {
    if n > 0 {
      BucketLength(keys, k, n - 1);
      assert keys[..n] == keys[..n - 1] + [keys[n - 1]];
    }
  }

  /** A prefix holds no more occurrences of k than the whole sequence. */
  lemma BucketAtMost(keys: seq<nat>, k: nat, n: nat)
    requires n <= |keys|
    ensures |Bucket(keys, k, n)| <= multiset(keys)[k]
  {
    BucketLength(keys, k, n);
    assert keys == keys[..n] + keys[n..];
  }

  /** The whole bucket of k counts every occurrence of k. */
  lemma BucketAll(keys: seq<nat>, k: nat)
    ensures |Bucket(keys, k, |keys|)| == multiset(keys)[k]
  {
    BucketLength(keys, k, |keys|);
    assert keys[..|keys|] == keys;
  }

  /** Every index in the bucket of k holds key k. */
  lemma {:induction false} BucketKeys(keys: seq<nat>, k: nat, n: nat)
    requires n <= |keys|
    ensures forall p :: 0 <= p < |Bucket(keys, k, n)| ==> Bucket(keys, k, n)[p] < n && keys[Bucket(keys, k, n)[p]] == k
  {
    if n > 0 {
      BucketKeys(keys, k, n - 1);
    }
  }

  /** The bucket lists its indices in increasing order, hence each once. */
  lemma {:induction false} BucketIncreasing(keys: seq<nat>, k: nat, n: nat)
    requires n <= |keys|
    ensures forall p, q :: 0 <= p < q < |Bucket(keys, k, n)| ==> Bucket(keys, k, n)[p] < Bucket(keys, k, n)[q]
  {
    if n > 0 {
      BucketIncreasing(keys, k, n - 1);
      BucketKeys(keys, k, n - 1);
    }
  }

  // ---------------------------------------------------------------------
  // The stable order

  /** The stable order has one entry per key below m. */
  lemma {:induction false} StableOrderLength(keys: seq<nat>, m: nat)
    ensures |StableOrder(keys, m)| == CountLess(keys, m)
  {
    if m > 0 {
      var a, b := StableOrder(keys, m - 1), Bucket(keys, m - 1, |keys|);
      assert |a| == CountLess(keys, m - 1) by {
        StableOrderLength(keys, m - 1);
      }
      assert |b| == multiset(keys)[m - 1] by {
        BucketAll(keys, m - 1);
      }
      assert StableOrder(keys, m) == a + b;
    }
  }

  /** Every index in the stable order below m holds a key below m. */
  lemma {:induction false} StableOrderKeys(keys: seq<nat>, m: nat)
    ensures forall p :: 0 <= p < |StableOrder(keys, m)| ==>
              StableOrder(keys, m)[p] < |keys| && keys[StableOrder(keys, m)[p]] < m
  {
    if m > 0 {
      StableOrderKeys(keys, m - 1);
      BucketKeys(keys, m - 1, |keys|);
    }
  }

  /** Appending the bucket of key c to a sorted, stable order of smaller
      keys keeps it sorted and stable. */
  lemma AppendBucket(keys: seq<nat>, a: seq<nat>, c: nat)
    requires forall p :: 0 <= p < |a| ==> a[p] < |keys| && keys[a[p]] < c
    requires SortedThrough(keys, a) && StableThrough(keys, a)
    ensures SortedThrough(keys, a + Bucket(keys, c, |keys|))
    ensures StableThrough(keys, a + Bucket(keys, c, |keys|))
  {
    var b := Bucket(keys, c, |keys|);
    var o := a + b;
    BucketKeys(keys, c, |keys|);
    BucketIncreasing(keys, c, |keys|);
    forall p, q | 0 <= p < q < |o| && o[p] < |keys| && o[q] < |keys|
      ensures keys[o[p]] <= keys[o[q]]
      ensures keys[o[p]] == keys[o[q]] ==> o[p] < o[q]
    {
      if q < |a| {
        assert o[p] == a[p] && o[q] == a[q];
      } else if p < |a| {
        assert o[p] == a[p] && o[q] == b[q - |a|];
      } else {
        assert o[p] == b[p - |a|] && o[q] == b[q - |a|];
      }
    }
  }

  /** The order is sorted by key and stable. */
  lemma {:induction false} StableOrderSortedStable(keys: seq<nat>, m: nat)
    ensures SortedThrough(keys, StableOrder(keys, m))
    ensures StableThrough(keys, StableOrder(keys, m))
  {
    if m > 0 {
      var a, b := StableOrder(keys, m - 1), Bucket(keys, m - 1, |keys|);
      assert SortedThrough(keys, a + b) && StableThrough(keys, a + b) by {
        StableOrderSortedStable(keys, m - 1);
        StableOrderKeys(keys, m - 1);
        AppendBucket(keys, a, m - 1);
      }
      assert StableOrder(keys, m) == a + b;
    }
  }

  /** Position r of the bucket of c sits at offset CountLess(keys, c) + r of
      the stable order: the block of each key starts after all smaller keys. */
  lemma {:induction false} StableOrderBlock(keys: seq<nat>, m: nat, c: nat, r: nat)
    requires c < m && r < |Bucket(keys, c, |keys|)|
    ensures CountLess(keys, c) + r < |StableOrder(keys, m)|
    ensures StableOrder(keys, m)[CountLess(keys, c) + r] == Bucket(keys, c, |keys|)[r]
  {
    var a, b := StableOrder(keys, m - 1), Bucket(keys, m - 1, |keys|);
    assert StableOrder(keys, m) == a + b;
    assert |a| == CountLess(keys, m - 1) by {
      StableOrderLength(keys, m - 1);
    }
    if c < m - 1 {
      assert CountLess(keys, c) + r < |a| && a[CountLess(keys, c) + r] == Bucket(keys, c, |keys|)[r] by {
        StableOrderBlock(keys, m - 1, c, r);
      }
    } else {
      assert |b| == multiset(keys)[c] by {
        BucketAll(keys, c);
      }
    }
  }

  /** The block containing a position of the stable order. */
  lemma {:induction false} BlockOf(keys: seq<nat>, m: nat, p: nat) returns (c: nat)
    requires p < CountLess(keys, m)
    ensures c < m && CountLess(keys, c) <= p < CountLess(keys, c + 1)
  {
    if p < CountLess(keys, m - 1) {
      c := BlockOf(keys, m - 1, p);
    } else {
      c := m - 1;
    }
  }

  // ---------------------------------------------------------------------
  // Permutations

  lemma {:induction false} DistinctCounts(o: seq<nat>)
    requires Distinct(o)
    ensures forall v :: multiset(o)[v] <= 1
  {
    if o != [] {
      var init, last := o[..|o| - 1], o[|o| - 1];
      assert forall p :: 0 <= p < |init| ==> init[p] == o[p];
      DistinctCounts(init);
      assert o == init + [last];
      assert last !in init;
    }
  }

  lemma {:induction false} RangeCounts(n: nat)
    ensures forall v :: multiset(Range(n))[v] == if 0 <= v < n then 1 else 0
  {
    if n > 0 {
      RangeCounts(n - 1);
      assert Range(n) == Range(n - 1) + [n - 1];
    }
  }

  /** A sub-multiset with as many elements is the whole multiset. */
  lemma SubMultisetFull(a: multiset<nat>, b: multiset<nat>)
    requires a <= b && |a| == |b|
    ensures a == b
  {
    var d := b - a;
    assert b == a + d;
    assert |d| == 0;
  }

  /** n distinct indices below n are a permutation of the indices. */
  lemma DistinctPermutation(o: seq<nat>, n: nat)
    requires |o| == n && IndicesBelow(o, n) && Distinct(o)
    ensures IsPermutation(o, n)
  {
    DistinctCounts(o);
    RangeCounts(n);
    forall v ensures multiset(o)[v] <= multiset(Range(n))[v] {
      if !(0 <= v < n) {
        assert v !in o;
      }
    }
    SubMultisetFull(multiset(o), multiset(Range(n)));
  }

  /** Every index of the keys appears exactly once in the stable order. */
  lemma StableOrderPermutation(keys: seq<nat>, m: nat)
    requires forall i :: 0 <= i < |keys| ==> keys[i] < m
    ensures IsPermutation(StableOrder(keys, m), |keys|)
  {
    var o := StableOrder(keys, m);
    StableOrderLength(keys, m);
    CountLessAll(keys, m);
    StableOrderKeys(keys, m);
    StableOrderSortedStable(keys, m);
    forall p, q | 0 <= p < q < |o| ensures o[p] != o[q] {
      assert keys[o[p]] == keys[o[q]] ==> o[p] < o[q];
    }
    DistinctPermutation(o, |keys|);
  }

  /** The stable order of keys below m stably sorts them. */
  lemma StableOrderStablySorts(keys: seq<nat>, m: nat)
    requires forall i :: 0 <= i < |keys| ==> keys[i] < m
    ensures StablySorts(keys, StableOrder(keys, m))
  {
    StableOrderKeys(keys, m);
    StableOrderSortedStable(keys, m);
    StableOrderPermutation(keys, m);
  }

  // ---------------------------------------------------------------------
  // Gathering

  lemma GatherConcat<T>(x: seq<T>, a: seq<nat>, b: seq<nat>)
    requires IndicesBelow(a, |x|) && IndicesBelow(b, |x|)
    ensures IndicesBelow(a + b, |x|)
    ensures Gather(x, a + b) == Gather(x, a) + Gather(x, b)
  {
  }

  lemma GatherRange<T>(x: seq<T>)
    ensures IndicesBelow(Range(|x|), |x|)
    ensures Gather(x, Range(|x|)) == x
  {
  }

  /** Reading the index sequence through o gives o back. */
  lemma GatherIndices(o: seq<nat>, n: nat)
    requires IndicesBelow(o, n)
    ensures Gather(Range(n), o) == o
  {
  }

  /** Removing one index from the order removes its element from the gathered sequence. */
  lemma GatherRemove<T>(x: seq<T>, o: seq<nat>, j: nat)
    requires IndicesBelow(o, |x|) && j < |o|
    ensures IndicesBelow(o[..j] + o[j + 1..], |x|)
    ensures multiset(Gather(x, o)) == multiset{x[o[j]]} + multiset(Gather(x, o[..j] + o[j + 1..]))
  {
    var front, back := o[..j], o[j + 1..];
    assert o == front + [o[j]] + back;
    GatherConcat(x, front, back);
    GatherConcat(x, front, [o[j]]);
    GatherConcat(x, front + [o[j]], back);
  }

  lemma MultisetRemove(o: seq<nat>, j: nat)
    requires j < |o|
    ensures multiset(o[..j] + o[j + 1..]) == multiset(o) - multiset{o[j]}
  {
    assert o == o[..j] + [o[j]] + o[j + 1..];
  }

  /** Gathering through index sequences with the same elements gives
      sequences with the same elements. */
  lemma {:induction false} GatherOfMultiset<T>(x: seq<T>, o1: seq<nat>, o2: seq<nat>)
    requires IndicesBelow(o1, |x|) && IndicesBelow(o2, |x|)
    requires multiset(o1) == multiset(o2)
    ensures multiset(Gather(x, o1)) == multiset(Gather(x, o2))
  {
    if o1 == [] {
      assert |o2| == |multiset(o2)| == 0;
    } else {
      var a := o1[0];
      assert a in multiset(o2);
      var j :| 0 <= j < |o2| && o2[j] == a;
      var rest1, rest2 := o1[..0] + o1[1..], o2[..j] + o2[j + 1..];
      MultisetRemove(o1, 0);
      MultisetRemove(o2, j);
      GatherRemove(x, o1, 0);
      GatherRemove(x, o2, j);
      GatherOfMultiset(x, rest1, rest2);
      calc {
        multiset(Gather(x, o1));
        multiset{x[a]} + multiset(Gather(x, rest1));
        multiset{x[a]} + multiset(Gather(x, rest2));
        multiset(Gather(x, o2));
      }
    }
  }

  lemma PermutationIndicesBelow(o: seq<nat>, n: nat)
    requires IsPermutation(o, n)
    ensures |o| == n && IndicesBelow(o, n)
  {
    assert |o| == |multiset(o)| == |multiset(Range(n))| == n;
    forall p | 0 <= p < |o| ensures o[p] < n {
      assert o[p] in multiset(Range(n));
    }
  }

  /** Reading a sequence through a permutation of its indices rearranges it. */
  lemma GatherPermutation<T>(x: seq<T>, o: seq<nat>)
    requires IsPermutation(o, |x|)
    ensures IndicesBelow(o, |x|)
    ensures multiset(Gather(x, o)) == multiset(x)
  {
    PermutationIndicesBelow(o, |x|);
    GatherRange(x);
    GatherOfMultiset(x, o, Range(|x|));
  }

  /** Reading entries through an order that sorts their keys gives entries
      with sorted keys. */
  lemma GatherSortedKeys<V>(x: seq<Entry<V>>, o: seq<nat>)
    requires IndicesBelow(o, |x|) && SortedThrough(Keys(x), o)
    ensures Sorted(Keys(Gather(x, o)))
  {
  }

  // ---------------------------------------------------------------------
  // Uniqueness of the stable order

  /** Keys first, then indices: a rank that orders indices lexicographically. */
  function Rank(keys: seq<nat>, j: nat): nat {
    if j < |keys| then keys[j] * |keys| + j else 0
  }

  lemma RankOrder(keys: seq<nat>, a: nat, b: nat)
    requires a < |keys| && b < |keys|
    requires keys[a] < keys[b] || (keys[a] == keys[b] && a < b)
    ensures Rank(keys, a) < Rank(keys, b)
  {
    var n := |keys|;
    if keys[a] < keys[b] {
      MulStep(keys[a], keys[b], n);
    }
  }

  lemma {:induction false} MulStep(u: nat, v: nat, n: nat)
    requires u < v
    ensures u * n + n <= v * n
  {
    if v > u + 1 {
      MulStep(u, v - 1, n);
    }
  }

  /** At most one order stably sorts the keys. */
  lemma StablySortsUnique(keys: seq<nat>, o1: seq<nat>, o2: seq<nat>)
    requires StablySorts(keys, o1) && StablySorts(keys, o2)
    ensures o1 == o2
  {
    var n := |keys|;
    var ranks := seq(n, j requires 0 <= j < n => Rank(keys, j));
    PermutationIndicesBelow(o1, n);
    PermutationIndicesBelow(o2, n);
    var g1, g2 := Gather(ranks, o1), Gather(ranks, o2);
    forall o, p, q | o in {o1, o2} && 0 <= p < q < n
      ensures Gather(ranks, o)[p] < Gather(ranks, o)[q]
    {
      RankOrder(keys, o[p], o[q]);
    }
    assert Sorted(g1) && Sorted(g2);
    GatherPermutation(ranks, o1);
    GatherPermutation(ranks, o2);
    SortedUnique(g1, g2);
    forall p | 0 <= p < n ensures o1[p] == o2[p] {
      assert g1[p] == g2[p];
      if o1[p] != o2[p] {
        if keys[o1[p]] < keys[o2[p]] || (keys[o1[p]] == keys[o2[p]] && o1[p] < o2[p]) {
          RankOrder(keys, o1[p], o2[p]);
        } else {
          RankOrder(keys, o2[p], o1[p]);
        }
      }
    }
  }

  /** Sorting by buckets is the stable sort: any stably sorting order is the
      stable order. */
  lemma StableOrderIsTheStableSort(keys: seq<nat>, m: nat, o: seq<nat>)
    requires forall i :: 0 <= i < |keys| ==> keys[i] < m
    requires StablySorts(keys, o)
    ensures o == StableOrder(keys, m)
  {
    StableOrderStablySorts(keys, m);
    StablySortsUnique(keys, o, StableOrder(keys, m));
  }

  /** Keys that are already sorted keep their order. */
  lemma SortedKeysIdentity(keys: seq<nat>, m: nat)
    requires forall i :: 0 <= i < |keys| ==> keys[i] < m
    requires Sorted(keys)
    ensures StableOrder(keys, m) == Range(|keys|)
  {
    assert Distinct(Range(|keys|));
    DistinctPermutation(Range(|keys|), |keys|);
    StableOrderIsTheStableSort(keys, m, Range(|keys|));
  }

  // ---------------------------------------------------------------------
  // Placing entries with per-key cursors

  /** The state of the cursor of key k after the first i entries: it has
      moved from the start of the key's block by the number of k's seen so
      far, and the filled part of the block holds those entries in input
      order. */
  ghost predicate PlacedKey<T>(keys: seq<nat>, x: seq<T>, i: nat, out: seq<T>, cursors: seq<nat>, k: nat)
    requires |x| == |keys| && i <= |keys| && k < |cursors|
  {
    cursors[k] == CountLess(keys, k) + |Bucket(keys, k, i)| &&
    cursors[k] <= |out| &&
    forall r :: 0 <= r < |Bucket(keys, k, i)| ==>
      Bucket(keys, k, i)[r] < |x| && out[CountLess(keys, k) + r] == x[Bucket(keys, k, i)[r]]
  }

  /** The state of a placement loop after the first i entries. */
  ghost predicate Placed<T>(keys: seq<nat>, x: seq<T>, m: nat, i: nat, out: seq<T>, cursors: seq<nat>)
    requires |x| == |keys| && i <= |keys|
  {
    |cursors| == m && forall k :: 0 <= k < m ==> PlacedKey(keys, x, i, out, cursors, k)
  }

  lemma PlacedStart<T>(keys: seq<nat>, x: seq<T>, m: nat, out: seq<T>, cursors: seq<nat>)
    requires |x| == |keys| == |out|
    requires |cursors| == m && forall k :: 0 <= k < m ==> cursors[k] == CountLess(keys, k)
    ensures Placed(keys, x, m, 0, out, cursors)
  {
    forall k | 0 <= k < m ensures PlacedKey(keys, x, 0, out, cursors, k) {
      CountLessAtMost(keys, k);
    }
  }

  /** A cursor never passes the end of its key's block. */
  lemma CursorBound(keys: seq<nat>, i: nat, k: nat)
    requires i <= |keys|
    ensures CountLess(keys, k) + |Bucket(keys, k, i)| <= CountLess(keys, k + 1) <= |keys|
  {
    BucketAtMost(keys, k, i);
    CountLessAtMost(keys, k + 1);
  }

  lemma PlaceSame<T>(keys: seq<nat>, x: seq<T>, i: nat, out: seq<T>, cursors: seq<nat>)
    requires |x| == |keys| == |out| && i < |keys| && keys[i] < |cursors|
    requires PlacedKey(keys, x, i, out, cursors, keys[i])
    requires cursors[keys[i]] < |out|
    ensures PlacedKey(keys, x, i + 1, out[cursors[keys[i]] := x[i]],
                      cursors[keys[i] := cursors[keys[i]] + 1], keys[i])
  {
    var k, w := keys[i], cursors[keys[i]];
    var lo := CountLess(keys, k);
    var b, b' := Bucket(keys, k, i), Bucket(keys, k, i + 1);
    assert b' == b + [i];
    var out' := out[w := x[i]];
    forall r | 0 <= r < |b'| ensures out'[lo + r] == x[b'[r]] {
      if r < |b| {
        assert b'[r] == b[r];
      }
    }
  }

  lemma PlaceOther<T>(keys: seq<nat>, x: seq<T>, i: nat, out: seq<T>, cursors: seq<nat>,
                      k: nat, w: nat, v: T, cursors': seq<nat>)
    requires |x| == |keys| == |out| && i < |keys| && k < |cursors| && k < |cursors'|
    requires PlacedKey(keys, x, i, out, cursors, k)
    requires k != keys[i] && cursors'[k] == cursors[k]
    requires w < |out| && (w < CountLess(keys, k) || cursors[k] <= w)
    ensures PlacedKey(keys, x, i + 1, out[w := v], cursors', k)
  {
    assert Bucket(keys, k, i + 1) == Bucket(keys, k, i);
  }

  /** Writing entry i at its key's cursor and advancing that cursor keeps the
      placement state, and the cursor stays inside its key's block. */
  lemma PlaceStep<T>(keys: seq<nat>, x: seq<T>, m: nat, i: nat, out: seq<T>, cursors: seq<nat>)
    requires |x| == |keys| == |out| && i < |keys| && keys[i] < m
    requires Placed(keys, x, m, i, out, cursors)
    ensures CountLess(keys, keys[i]) <= cursors[keys[i]] < CountLess(keys, keys[i] + 1) <= |out|
    ensures Placed(keys, x, m, i + 1, out[cursors[keys[i]] := x[i]],
                   cursors[keys[i] := cursors[keys[i]] + 1])
  {
    var k := keys[i];
    var w := cursors[k];
    assert PlacedKey(keys, x, i, out, cursors, k);
    assert |Bucket(keys, k, i + 1)| == |Bucket(keys, k, i)| + 1;
    CursorBound(keys, i + 1, k);
    var i', out', cursors' := i + 1, out[w := x[i]], cursors[k := w + 1];
    forall k' | 0 <= k' < m
      ensures PlacedKey(keys, x, i', out', cursors', k')
    {
      assert PlacedKey(keys, x, i, out, cursors, k');
      if k' == k {
        PlaceSame(keys, x, i, out, cursors);
      } else {
        if k' < k {
          CursorBound(keys, i, k');
          CountLessMonotone(keys, k' + 1, k);
        } else {
          CountLessMonotone(keys, k + 1, k');
        }
        PlaceOther(keys, x, i, out, cursors, k', w, x[i], cursors');
      }
    }
  }

  /** After all entries are placed, the output is the input read in the
      stable order. */
  lemma PlacedComplete<T>(keys: seq<nat>, x: seq<T>, m: nat, out: seq<T>, cursors: seq<nat>)
    requires |x| == |keys| == |out|
    requires forall i :: 0 <= i < |keys| ==> keys[i] < m
    requires Placed(keys, x, m, |keys|, out, cursors)
    ensures IndicesBelow(StableOrder(keys, m), |x|) && out == Gather(x, StableOrder(keys, m))
  {
    StableOrderKeys(keys, m);
    var n := |keys|;
    var o := StableOrder(keys, m);
    CountLessAll(keys, m);
    StableOrderLength(keys, m);
    forall p | 0 <= p < n ensures out[p] == x[o[p]] {
      var c := BlockOf(keys, m, p);
      var r := p - CountLess(keys, c);
      assert PlacedKey(keys, x, n, out, cursors, c);
      BucketAll(keys, c);
      StableOrderBlock(keys, m, c, r);
    }
  }

  /** After all entries are placed, every cursor sits at the end of its
      key's block: its start plus the number of occurrences of the key. */
  lemma PlacedCursorsAtEnds<T>(keys: seq<nat>, x: seq<T>, m: nat, out: seq<T>, cursors: seq<nat>)
    requires |x| == |keys|
    requires Placed(keys, x, m, |keys|, out, cursors)
    ensures forall c {:trigger cursors[c]} :: 0 <= c < m ==> cursors[c] == CountLess(keys, c) + multiset(keys)[c]
  {
    forall c | 0 <= c < m ensures cursors[c] == CountLess(keys, c) + multiset(keys)[c] {
      assert PlacedKey(keys, x, |keys|, out, cursors, c);
      BucketAll(keys, c);
    }
  }
}
