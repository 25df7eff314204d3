/** The Rust histogram: `count_keys` sizes its counters by the upper bound
    of the iterator's size hint rather than by the largest key, and panics
    when the iterator has no upper bound or a key is not a valid index. */
module RustBsort {
  import opened Counting

  datatype Option<T> = None | Some(value: T)

  /** The outcome of `count_keys`: the counters, or one of its two panics. */
  datatype CountResult =
    | Counts(counts: seq<nat>)
    | NoUpperBound
    | IndexOutOfBounds(index: nat, len: nat)

  /** `count_keys` over the keys the iterator yields, in order, and the upper
      bound its `size_hint` reports. It succeeds exactly when there is an
      upper bound and every key is below it; then counter k holds the
      number of occurrences of k and the counters add up to the number of
      keys. Otherwise it stops at the first key that is out of range. */
  method CountKeys(keys: seq<nat>, upperBound: Option<nat>) returns (r: CountResult)
    ensures r.NoUpperBound? <==> upperBound.None?
    ensures upperBound.Some? ==> (r.Counts? <==> forall i :: 0 <= i < |keys| ==> keys[i] < upperBound.value)
    ensures r.Counts? ==> |r.counts| == upperBound.value
    ensures r.Counts? ==> forall k {:trigger r.counts[k]} :: 0 <= k < |r.counts| ==> r.counts[k] == multiset(keys)[k]
    ensures r.Counts? ==> Sum(r.counts) == |keys|
    ensures r.IndexOutOfBounds? ==>
      upperBound.Some? && r.len == upperBound.value && r.len <= r.index &&
      exists j :: 0 <= j < |keys| && keys[j] == r.index && forall l :: 0 <= l < j ==> keys[l] < r.len
  {
    if upperBound.None? {
      return NoUpperBound;
    }
    var bound := upperBound.value;
    var counts := seq(bound, _ => 0);
    for i := 0 to |keys|
      invariant forall l :: 0 <= l < i ==> keys[l] < bound
      invariant counts == Histogram(keys[..i], bound)
    {
      var k := keys[i];
      if k >= bound {
        return IndexOutOfBounds(k, bound);
      }
      assert multiset(keys[..i + 1]) == multiset(keys[..i]) + multiset{k} by {
        assert keys[..i + 1] == keys[..i] + [k];
      }
      counts := counts[k := counts[k] + 1];
    }
    assert keys[..|keys|] == keys;
    HistogramSum(keys, bound);
    return Counts(counts);
  }

  /** The iterator of a vector reports its length as the upper bound, so
      `count_keys` on a vector succeeds exactly when every key is smaller
      than the number of keys, and then has one counter per key. */
  method CountKeysOfVec(keys: seq<nat>) returns (r: CountResult)
    ensures r.Counts? <==> forall i :: 0 <= i < |keys| ==> keys[i] < |keys|
    ensures !r.NoUpperBound?
    ensures r.Counts? ==> r.counts == Histogram(keys, |keys|)
    ensures r.IndexOutOfBounds? ==> r.len == |keys| <= r.index && r.index in keys
  {
    r := CountKeys(keys, Some(|keys|));
    if r.Counts? {
      assert r.counts == Histogram(keys, |keys|);
    }
  }

  /** The unit test: the histogram of [1, 2, 2, 1, 4] over five counters is
      [0, 2, 2, 0, 1]. */
  lemma CountKeysOfVecExample()
    ensures forall i :: 0 <= i < 5 ==> [1, 2, 2, 1, 4][i] < |[1, 2, 2, 1, 4]|
    ensures Histogram([1, 2, 2, 1, 4], 5) == [0, 2, 2, 0, 1]
  {
    var keys := [1, 2, 2, 1, 4];
    var m := multiset(keys);
    assert m == multiset{1, 2, 2, 1, 4};
    assert m[0] == 0 && m[1] == 2 && m[2] == 2 && m[3] == 0 && m[4] == 1;
  }
}
