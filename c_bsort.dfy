/** The C index sort: `bsort_order` writes into `order` the permutation of
    indices that stably sorts `keys`, using a bucket table of length
    max key + 1 whose entries are first counts and then, overwritten in
    place, the start offsets of the keys' blocks. */
module CBsort {
  import opened Counting
  import opened Ordering

  /** `max_key`: the largest key, and 0 when there are no keys. */
  method MaxKey(keys: array<nat>) returns (max: nat)
    ensures forall i :: 0 <= i < keys.Length ==> keys[i] <= max
    ensures keys.Length > 0 ==> exists i :: 0 <= i < keys.Length && keys[i] == max
    ensures keys.Length == 0 ==> max == 0
  {
    max := 0;
    for i := 0 to keys.Length
      invariant forall j :: 0 <= j < i ==> keys[j] <= max
      invariant i == 0 ==> max == 0
      invariant i > 0 ==> exists j :: 0 <= j < i && keys[j] == max
    {
      max := if max < keys[i] then keys[i] else max;
    }
  }

  /** `no_buckets`: 0 for no keys, otherwise one more than the largest key,
      so that every key indexes the bucket table. */
  method NoBuckets(keys: array<nat>) returns (k: nat)
    ensures forall i :: 0 <= i < keys.Length ==> keys[i] < k
    ensures k == 0 <==> keys.Length == 0
    ensures keys.Length > 0 ==> exists i :: 0 <= i < keys.Length && keys[i] + 1 == k
    ensures k == BucketCount(keys[..])
  {
    if keys.Length == 0 {
      k := 0;
    } else {
      var max := MaxKey(keys);
      k := max + 1;
      assert Max(keys[..]) == max by {
        var i :| 0 <= i < keys.Length && keys[i] == max;
        assert keys[..][i] == max;
      }
    }
  }

  /** `compute_buckets`: clears the table, counts every key, then replaces
      the counts in place by their exclusive prefix sums, so that entry j is
      the number of keys smaller than j. */
  method ComputeBuckets(buckets: array<nat>, keys: array<nat>)
    requires buckets != keys
    requires forall i :: 0 <= i < keys.Length ==> keys[i] < buckets.Length
    modifies buckets
    ensures forall j {:trigger buckets[j]} :: 0 <= j < buckets.Length ==> buckets[j] == CountLess(keys[..], j)
  {
    ghost var ks := keys[..];
    // memset(buckets, 0, ...)
    for j := 0 to buckets.Length
      invariant forall l :: 0 <= l < j ==> buckets[l] == 0
    {
      buckets[j] := 0;
    }
    for i := 0 to keys.Length
      invariant forall j {:trigger buckets[j]} :: 0 <= j < buckets.Length ==> buckets[j] == multiset(ks[..i])[j]
    {
      assert ks[..i + 1] == ks[..i] + [keys[i]];
      buckets[keys[i]] := buckets[keys[i]] + 1;
    }
    assert ks[..|ks|] == ks;
    var acc := 0;
    for i := 0 to buckets.Length
      invariant acc == CountLess(ks, i)
      invariant forall j {:trigger buckets[j]} :: 0 <= j < i ==> buckets[j] == CountLess(ks, j)
      invariant forall j {:trigger buckets[j]} :: i <= j < buckets.Length ==> buckets[j] == multiset(ks)[j]
    {
      var b := buckets[i];
      buckets[i] := acc;
      acc := acc + b;
    }
    assert keys[..] == ks;
  }

  /** `bsort_order`: index i is written at its key's cursor, which then
      advances. The result is the stable order of the keys: every index once,
      keys non-decreasing along it, equal keys in increasing index order. */
  method BsortOrder(keys: array<nat>, order: array<nat>)
    requires order.Length == keys.Length
    requires keys != order
    modifies order
    ensures keys[..] == old(keys[..])
    ensures order[..] == StableOrder(keys[..], BucketCount(keys[..]))
    ensures StablySorts(keys[..], order[..])
  {
    var k := NoBuckets(keys);
    var buckets := new nat[k];
    ComputeBuckets(buckets, keys);
    ghost var ks, indices := keys[..], Range(keys.Length);
    PlacedStart(ks, indices, k, order[..], buckets[..]);
    for i := 0 to keys.Length
      invariant Placed(ks, indices, k, i, order[..], buckets[..])
    {
      PlaceStep(ks, indices, k, i, order[..], buckets[..]);
      order[buckets[keys[i]]] := i;
      buckets[keys[i]] := buckets[keys[i]] + 1;
    }
    BsortOrderComplete(ks, k, order[..], buckets[..]);
  }

  /** Once every index is placed, the order is the stable order, and every
      cursor has advanced from its block's start by the key's count. */
  lemma BsortOrderComplete(keys: seq<nat>, k: nat, order: seq<nat>, cursors: seq<nat>)
    requires |order| == |keys| && k == BucketCount(keys)
    requires Placed(keys, Range(|keys|), k, |keys|, order, cursors)
    ensures order == StableOrder(keys, k)
    ensures StablySorts(keys, order)
    ensures forall c {:trigger cursors[c]} :: 0 <= c < k ==> cursors[c] == CountLess(keys, c) + multiset(keys)[c]
  {
    PlacedCursorsAtEnds(keys, Range(|keys|), k, order, cursors);
    var o := StableOrder(keys, k);
    assert IndicesBelow(o, |keys|) && order == Gather(Range(|keys|), o) by {
      PlacedComplete(keys, Range(|keys|), k, order, cursors);
    }
    GatherIndices(o, |keys|);
    StableOrderStablySorts(keys, k);
  }
}
