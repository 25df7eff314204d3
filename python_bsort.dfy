/** The Python reference implementation: a histogram of the keys, counting
    sort by expanding the histogram, an exclusive cumulative sum, and the
    stable bucket sort of (key, value) pairs that places every pair at its
    key's cursor. Python lists are sequences that the loops update by index. */
module PythonBsort {
  import opened Counting
  import opened Ordering

  /** `count_keys`: a list of length max(keys) + 1 (0 for no keys) whose
      entry k is the number of occurrences of k. */
  method CountKeys(keys: seq<nat>) returns (counts: seq<nat>)
    ensures |counts| == if |keys| == 0 then 0 else Max(keys) + 1
    ensures forall k {:trigger counts[k]} :: 0 <= k < |counts| ==> counts[k] == multiset(keys)[k]
    ensures Sum(counts) == |keys|
    ensures counts == Histogram(keys, BucketCount(keys))
  {
    var noKeys := if |keys| > 0 then Max(keys) + 1 else 0;
    counts := seq(noKeys, _ => 0);
    for i := 0 to |keys|
      invariant counts == Histogram(keys[..i], noKeys)
    {
      var k := keys[i];
      assert multiset(keys[..i + 1]) == multiset(keys[..i]) + multiset{k} by {
        assert keys[..i + 1] == keys[..i] + [k];
      }
      counts := counts[k := counts[k] + 1];
    }
    assert keys[..|keys|] == keys;
    HistogramSum(keys, noKeys);
  }

  /** `count_sort`: writes every key k counts[k] times, k increasing. The
      result is sorted and has the same elements as the input. */
  method CountSort(x: seq<nat>) returns (out: seq<nat>)
    ensures out == Expand(Histogram(x, BucketCount(x)))
    ensures Sorted(out)
    ensures multiset(out) == multiset(x)
  {
    var counts := CountKeys(x);
    out := seq(|x|, _ => 0);
    var i := 0;
    for k := 0 to |counts|
      invariant i == Sum(counts[..k]) <= |x| == |out|
      invariant out[..i] == Expand(counts[..k])
    {
      assert counts[..k + 1][..k] == counts[..k];
      SumSnoc(counts, k);
      SumPrefixLe(counts, k + 1);
      for j := 0 to counts[k]
        invariant i == Sum(counts[..k]) + j <= |x| == |out|
        invariant out[..i] == Expand(counts[..k]) + Repeat(k, j)
      {
        assert Repeat(k, j + 1) == Repeat(k, j) + [k];
        out := out[i := k];
        i := i + 1;
        assert out[..i] == out[..i - 1] + [k];
      }
    }
    assert counts[..|counts|] == counts;
    assert out[..i] == out;
    ExpandSorted(counts);
    ExpandHistogram(x, BucketCount(x));
  }

  /** `cumsum`: the exclusive prefix sums of x, same length, the last input
      element not used. */
  method Cumsum(x: seq<int>) returns (out: seq<int>)
    ensures |out| == |x|
    ensures forall i {:trigger out[i]} :: 0 <= i < |x| ==> out[i] == Sum(x[..i])
    ensures |x| > 0 ==> out[0] == 0
    ensures forall i {:trigger out[i + 1]} :: 0 <= i < |x| - 1 ==> out[i + 1] == out[i] + x[i]
    ensures (forall i :: 0 <= i < |x| ==> 0 <= x[i]) ==> forall i :: 0 <= i < |out| ==> 0 <= out[i]
  {
    out := seq(|x|, _ => 0);
    // enumerate(x[:-1])
    var init := if |x| == 0 then [] else x[..|x| - 1];
    for i := 0 to |init|
      invariant |out| == |x|
      invariant forall j :: 0 <= j <= i && j < |x| ==> out[j] == Sum(x[..j])
      invariant forall j :: i < j < |x| ==> out[j] == 0
    {
      SumSnoc(x, i);
      out := out[i + 1 := out[i] + init[i]];
    }
    forall i | 0 <= i < |x| - 1 ensures out[i + 1] == out[i] + x[i] {
      SumSnoc(x, i);
    }
    if forall i :: 0 <= i < |x| ==> 0 <= x[i] {
      forall i | 0 <= i < |out| ensures 0 <= out[i] {
        SumNonNegative(x[..i]);
      }
    }
  }

  /** `bucket_sort`: the cursors start at the cumulative sums of the counts;
      every pair is written at its key's cursor, which then advances. The
      result is the input read in the stable order of its keys: sorted by
      key, pairs with equal keys in input order, every pair exactly once. */
  method BucketSort<V(0)>(x: seq<Entry<V>>) returns (out: seq<Entry<V>>)
    ensures IndicesBelow(StableOrder(Keys(x), BucketCount(Keys(x))), |x|)
    ensures out == Gather(x, StableOrder(Keys(x), BucketCount(Keys(x))))
    ensures StablySorts(Keys(x), StableOrder(Keys(x), BucketCount(Keys(x))))
    ensures Sorted(Keys(out))
    ensures multiset(out) == multiset(x)
  {
    var keys := Keys(x);
    var counts := CountKeys(keys);
    var sums := Cumsum(counts);
    var buckets: seq<nat> := sums;
    var m := |counts|;
    // the placeholder (0, None)
    var none: V := *;
    out := seq(|x|, _ => Entry(0, none));
    PlacedFromPrefixSums(keys, x, m, out, buckets);
    for i := 0 to |x|
      invariant |out| == |x|
      invariant Placed(keys, x, m, i, out, buckets)
    {
      var k := keys[i];
      PlaceStep(keys, x, m, i, out, buckets);
      out := out[buckets[k] := x[i]];
      buckets := buckets[k := buckets[k] + 1];
    }
    PlacedEntries(x, m, out, buckets);
  }

  /** Cursors at the cumulative sums of the histogram start the placement. */
  lemma PlacedFromPrefixSums<T>(keys: seq<nat>, x: seq<T>, m: nat, out: seq<T>, cursors: seq<nat>)
    requires |x| == |keys| == |out|
    requires |cursors| == m && forall k :: 0 <= k < m ==> cursors[k] == Sum(Histogram(keys, m)[..k])
    ensures Placed(keys, x, m, 0, out, cursors)
  {
    forall k | 0 <= k < m ensures cursors[k] == CountLess(keys, k) {
      HistogramPrefixSum(keys, m, k);
    }
    PlacedStart(keys, x, m, out, cursors);
  }

  /** Once every pair is placed, the output is the input in the stable order
      of its keys, a sorted rearrangement of the input. */
  lemma PlacedEntries<V>(x: seq<Entry<V>>, m: nat, out: seq<Entry<V>>, cursors: seq<nat>)
    requires |out| == |x| && m == BucketCount(Keys(x))
    requires Placed(Keys(x), x, m, |x|, out, cursors)
    ensures IndicesBelow(StableOrder(Keys(x), m), |x|)
    ensures out == Gather(x, StableOrder(Keys(x), m))
    ensures StablySorts(Keys(x), StableOrder(Keys(x), m))
    ensures Sorted(Keys(out))
    ensures multiset(out) == multiset(x)
  {
    var keys := Keys(x);
    var o := StableOrder(keys, m);
    assert IndicesBelow(o, |x|) && out == Gather(x, o) by {
      PlacedComplete(keys, x, m, out, cursors);
    }
    assert StablySorts(keys, o) by {
      StableOrderStablySorts(keys, m);
    }
    assert Sorted(Keys(out)) by {
      GatherSortedKeys(x, o);
    }
    assert multiset(out) == multiset(x) by {
      GatherPermutation(x, o);
    }
  }

  // ---------------------------------------------------------------------
  // The documented examples

  /** count_keys([1, 2, 2, 1, 4]) is [0, 2, 2, 0, 1]. */
  lemma CountKeysExample(counts: seq<nat>)
    requires |counts| == Max([1, 2, 2, 1, 4]) + 1
    requires forall k :: 0 <= k < |counts| ==> counts[k] == multiset([1, 2, 2, 1, 4])[k]
    ensures counts == [0, 2, 2, 0, 1]
  {
    var keys: seq<nat> := [1, 2, 2, 1, 4];
    var m := multiset(keys);
    assert m == multiset{1, 2, 2, 1, 4};
    assert Max(keys) == 4 by {
      assert keys[4] == 4;
      assert forall i :: 0 <= i < 5 ==> keys[i] <= 4;
    }
    assert m[0] == 0 && m[1] == 2 && m[2] == 2 && m[3] == 0 && m[4] == 1;
  }

  /** Only one sorted sequence has the elements of [1, 2, 1, 2, 4]. */
  lemma CountSortExample(out: seq<nat>)
    requires Sorted(out) && multiset(out) == multiset([1, 2, 1, 2, 4])
    ensures out == [1, 1, 2, 2, 4]
  {
    var expected: seq<nat> := [1, 1, 2, 2, 4];
    assert multiset(expected) == multiset([1, 2, 1, 2, 4]);
    SortedUnique(out, expected);
  }

  /** cumsum([1, 2, 3]) is [0, 1, 3] and cumsum([0, 2, 2, 0, 1]) is
      [0, 0, 2, 4, 4]: the recurrence of Cumsum fixes every entry. */
  lemma CumsumExample(a: seq<int>, b: seq<int>)
    requires |a| == 3 && a[0] == 0 && forall i :: 0 <= i < 2 ==> a[i + 1] == a[i] + [1, 2, 3][i]
    requires |b| == 5 && b[0] == 0 && forall i :: 0 <= i < 4 ==> b[i + 1] == b[i] + [0, 2, 2, 0, 1][i]
    ensures a == [0, 1, 3]
    ensures b == [0, 0, 2, 4, 4]
  {
    assert a[1] == 0 + 1 && a[2] == a[1] + 2;
    assert b[1] == 0 && b[2] == b[1] + 2 && b[3] == b[2] + 2 && b[4] == b[3];
  }

  lemma ExamplePermutation()
    ensures IsPermutation([0, 2, 1, 3, 4], 5)
  {
    var order: seq<nat> := [0, 2, 1, 3, 4];
    assert Distinct(order);
    DistinctPermutation(order, 5);
  }

  lemma ExampleSortedStable()
    ensures SortedThrough([1, 2, 1, 2, 4], [0, 2, 1, 3, 4])
    ensures StableThrough([1, 2, 1, 2, 4], [0, 2, 1, 3, 4])
  {
    var keys: seq<nat> := [1, 2, 1, 2, 4];
    var order: seq<nat> := [0, 2, 1, 3, 4];
    var sortedKeys: seq<nat> := [1, 1, 2, 2, 4];
    assert keys[order[0]] == sortedKeys[0] && keys[order[1]] == sortedKeys[1] &&
           keys[order[2]] == sortedKeys[2] && keys[order[3]] == sortedKeys[3] &&
           keys[order[4]] == sortedKeys[4];
    forall p, q | 0 <= p < q < 5
      ensures keys[order[p]] <= keys[order[q]]
      ensures keys[order[p]] == keys[order[q]] ==> order[p] < order[q]
    {
      assert sortedKeys[p] <= sortedKeys[q];
    }
  }

  /** [0, 2, 1, 3, 4] stably sorts the keys [1, 2, 1, 2, 4]. */
  lemma ExampleOrder()
    ensures StablySorts([1, 2, 1, 2, 4], [0, 2, 1, 3, 4])
  {
    ExamplePermutation();
    ExampleSortedStable();
  }

  /** Reading the documented pairs in the order [0, 2, 1, 3, 4]. */
  lemma ExampleGather<V>(a: V, b: V, c: V, d: V, e: V)
    ensures IndicesBelow([0, 2, 1, 3, 4], 5)
    ensures Gather([Entry(1, a), Entry(2, b), Entry(1, c), Entry(2, d), Entry(4, e)], [0, 2, 1, 3, 4]) ==
            [Entry(1, a), Entry(1, c), Entry(2, b), Entry(2, d), Entry(4, e)]
  {
    var x := [Entry(1, a), Entry(2, b), Entry(1, c), Entry(2, d), Entry(4, e)];
    var g := Gather(x, [0, 2, 1, 3, 4]);
    assert g[0] == x[0] && g[1] == x[2] && g[2] == x[1] && g[3] == x[3] && g[4] == x[4];
  }

  /** bucket_sort on the documented pairs keeps "a" before "c" and "b"
      before "d": the only order that stably sorts the keys [1, 2, 1, 2, 4]
      is [0, 2, 1, 3, 4]. */
  lemma BucketSortExample<V>(a: V, b: V, c: V, d: V, e: V, o: seq<nat>)
    requires StablySorts([1, 2, 1, 2, 4], o)
    ensures o == [0, 2, 1, 3, 4]
    ensures Gather([Entry(1, a), Entry(2, b), Entry(1, c), Entry(2, d), Entry(4, e)], o) ==
            [Entry(1, a), Entry(1, c), Entry(2, b), Entry(2, d), Entry(4, e)]
  {
    ExampleOrder();
    StablySortsUnique([1, 2, 1, 2, 4], o, [0, 2, 1, 3, 4]);
    ExampleGather(a, b, c, d, e);
  }
}
