/** Specification functions shared by every implementation of the counting
    machinery: the maximum key, the histogram of keys, the exclusive prefix
    sums that give the start offset of every key's block, and the sorted
    sequence a histogram expands into. */
module Counting {

  /** Non-decreasing order. */
  predicate Sorted(s: seq<nat>) {
    forall p, q :: 0 <= p < q < |s| ==> s[p] <= s[q]
  }

  /** The largest key, scanned left to right as the C loops do. */
  function Max(s: seq<nat>): (r: nat)
    requires |s| > 0
    ensures forall i :: 0 <= i < |s| ==> s[i] <= r
    ensures exists i :: 0 <= i < |s| && s[i] == r
  {
    if |s| == 1 then s[0]
    else
      var m := Max(s[..|s| - 1]);
      assert forall i :: 0 <= i < |s| - 1 ==> s[..|s| - 1][i] == s[i];
      if m < s[|s| - 1] then s[|s| - 1] else m
  }

  /** Length of the bucket table: 0 for no keys, otherwise one more than the
      largest key, so that every key indexes it and none is wasted at the top. */
  function BucketCount(keys: seq<nat>): (r: nat)
    ensures forall i :: 0 <= i < |keys| ==> keys[i] < r
    ensures r == 0 <==> |keys| == 0
    ensures |keys| > 0 ==> exists i :: 0 <= i < |keys| && keys[i] + 1 == r
  {
    if |keys| == 0 then 0 else Max(keys) + 1
  }

  /** The sum of the entries. */
  function Sum(s: seq<int>): int {
    if s == [] then 0 else Sum(s[..|s| - 1]) + s[|s| - 1]
  }

  /** counts[k] is the number of occurrences of key k, for k < m. */
  function Histogram(keys: seq<nat>, m: nat): seq<nat> {
    seq(m, k => multiset(keys)[k])
  }

  /** The number of keys strictly smaller than c: the start offset of the
      block of key c in the sorted output. */
  function CountLess(keys: seq<nat>, c: nat): nat {
    if c == 0 then 0 else CountLess(keys, c - 1) + multiset(keys)[c - 1]
  }

  function Repeat(v: nat, n: nat): seq<nat> {
    seq(n, _ => v)
  }

  /** Every key k written counts[k] times, keys in increasing order. */
  function Expand(counts: seq<nat>): seq<nat> {
    if counts == [] then []
    else Expand(counts[..|counts| - 1]) + Repeat(|counts| - 1, counts[|counts| - 1])
  }

  // ---------------------------------------------------------------------
  // Sums

  lemma SumSnoc(s: seq<int>, i: nat)
    requires i < |s|
    ensures Sum(s[..i + 1]) == Sum(s[..i]) + s[i]
  {
    assert s[..i + 1][..i] == s[..i];
  }

  /** A sum of non-negative entries is non-negative. */
  lemma {:induction false} SumNonNegative(s: seq<int>)
    requires forall i :: 0 <= i < |s| ==> 0 <= s[i]
    ensures 0 <= Sum(s)
  {
    if s != [] {
      SumNonNegative(s[..|s| - 1]);
    }
  }

  lemma {:induction false} SumPrefixLe(s: seq<nat>, i: nat)
    requires i <= |s|
    ensures Sum(s[..i]) <= Sum(s)
  {
    if i < |s| {
      SumPrefixLe(s[..|s| - 1], i);
      assert s[..|s| - 1][..i] == s[..i];
      assert s[..|s|] == s;
    } else {
      assert s[..i] == s;
    }
  }

  /** Adding one to a single entry adds one to the sum. */
  lemma {:induction false} SumIncrement(s: seq<nat>, j: nat)
    requires j < |s|
    ensures Sum(s[j := s[j] + 1]) == Sum(s) + 1
  {
    var t := s[j := s[j] + 1];
    if j == |s| - 1 {
      assert t[..|t| - 1] == s[..|s| - 1];
    } else {
      SumIncrement(s[..|s| - 1], j);
      assert t[..|t| - 1] == s[..|s| - 1][j := s[j] + 1];
    }
  }

  /** A pointwise bound on the entries bounds the sums. */
  lemma {:induction false} SumMonotone(a: seq<nat>, b: seq<nat>)
    requires |a| == |b|
    requires forall k :: 0 <= k < |a| ==> a[k] <= b[k]
    ensures Sum(a) <= Sum(b)
  {
    if a != [] {
      SumMonotone(a[..|a| - 1], b[..|b| - 1]);
    }
  }

  // ---------------------------------------------------------------------
  // Counting keys below a bound

  /** Appending one key counts it exactly when it lies below the bound. */
  lemma {:induction false} CountLessSnoc(keys: seq<nat>, x: nat, c: nat)
    ensures CountLess(keys + [x], c) == CountLess(keys, c) + (if x < c then 1 else 0)
  {
    if c > 0 {
      CountLessSnoc(keys, x, c - 1);
      assert multiset(keys + [x]) == multiset(keys) + multiset{x};
    }
  }

  lemma {:induction false} CountLessEmpty(c: nat)
    ensures CountLess([], c) == 0
  {
    if c > 0 {
      CountLessEmpty(c - 1);
    }
  }

  lemma {:induction false} CountLessAtMost(keys: seq<nat>, c: nat)
    ensures CountLess(keys, c) <= |keys|
  {
    if keys == [] {
      CountLessEmpty(c);
    } else {
      var init := keys[..|keys| - 1];
      CountLessAtMost(init, c);
      assert keys == init + [keys[|keys| - 1]];
      CountLessSnoc(init, keys[|keys| - 1], c);
    }
  }

  lemma {:induction false} CountLessMonotone(keys: seq<nat>, a: nat, b: nat)
    requires a <= b
    ensures CountLess(keys, a) <= CountLess(keys, b)
  {
    if a < b {
      CountLessMonotone(keys, a, b - 1);
    }
  }

  /** When every key is below c, all keys are counted. */
  lemma {:induction false} CountLessAll(keys: seq<nat>, c: nat)
    requires forall i :: 0 <= i < |keys| ==> keys[i] < c
    ensures CountLess(keys, c) == |keys|
  {
    if keys == [] {
      CountLessEmpty(c);
    } else {
      var init := keys[..|keys| - 1];
      assert forall i :: 0 <= i < |init| ==> init[i] == keys[i];
      CountLessAll(init, c);
      assert keys == init + [keys[|keys| - 1]];
      CountLessSnoc(init, keys[|keys| - 1], c);
    }
  }

  // ---------------------------------------------------------------------
  // Histograms and their prefix sums

  /** The exclusive prefix sum of the histogram at c is the number of keys
      below c: the cumulative sum locates the start of each key's block. */
  lemma {:induction false} HistogramPrefixSum(keys: seq<nat>, m: nat, c: nat)
    requires c <= m
    ensures Sum(Histogram(keys, m)[..c]) == CountLess(keys, c)
  {
    if c > 0 {
      HistogramPrefixSum(keys, m, c - 1);
      SumSnoc(Histogram(keys, m), c - 1);
    }
  }

  /** The counts add up to the number of keys. */
  lemma HistogramSum(keys: seq<nat>, m: nat)
    requires forall i :: 0 <= i < |keys| ==> keys[i] < m
    ensures Sum(Histogram(keys, m)) == |keys|
  {
    HistogramPrefixSum(keys, m, m);
    CountLessAll(keys, m);
    assert Histogram(keys, m)[..m] == Histogram(keys, m);
  }

  // ---------------------------------------------------------------------
  // Expanding a histogram

  lemma {:induction false} ExpandLength(counts: seq<nat>)
    ensures |Expand(counts)| == Sum(counts)
  {
    if counts != [] {
      ExpandLength(counts[..|counts| - 1]);
    }
  }

  /** The expansion is sorted and only holds keys that index the histogram. */
  lemma {:induction false} ExpandSorted(counts: seq<nat>)
    ensures Sorted(Expand(counts))
    ensures forall p :: 0 <= p < |Expand(counts)| ==> Expand(counts)[p] < |counts|
  {
    if counts != [] {
      ExpandSorted(counts[..|counts| - 1]);
    }
  }

  lemma RepeatMultiset(v: nat, n: nat, w: nat)
    ensures multiset(Repeat(v, n))[w] == if w == v then n else 0
  {
    if n > 0 {
      RepeatMultiset(v, n - 1, w);
      assert Repeat(v, n) == Repeat(v, n - 1) + [v];
    }
  }

  /** Key w occurs counts[w] times in the expansion. */
  lemma {:induction false} ExpandMultiset(counts: seq<nat>, w: nat)
    ensures multiset(Expand(counts))[w] == if w < |counts| then counts[w] else 0
  {
    if counts != [] {
      var init := counts[..|counts| - 1];
      ExpandMultiset(init, w);
      RepeatMultiset(|counts| - 1, counts[|counts| - 1], w);
    }
  }

  /** Expanding the histogram of the keys gives back the keys' multiset. */
  lemma ExpandHistogram(keys: seq<nat>, m: nat)
    requires forall i :: 0 <= i < |keys| ==> keys[i] < m
    ensures multiset(Expand(Histogram(keys, m))) == multiset(keys)
  {
    var e := Expand(Histogram(keys, m));
    forall w: nat
      ensures multiset(Expand(Histogram(keys, m)))[w] == multiset(keys)[w]
    {
      ExpandMultiset(Histogram(keys, m), w);
      if w >= m {
        assert w !in multiset(keys);
      }
    }
  }

  lemma SortedTail(s: seq<nat>)
    requires Sorted(s) && s != []
    ensures Sorted(s[1..])
  {
    forall p, q | 0 <= p < q < |s| - 1 ensures s[1..][p] <= s[1..][q] {
      assert s[1..][p] == s[p + 1] && s[1..][q] == s[q + 1];
    }
  }

  /** The first element of a sorted sequence is a lower bound of its elements. */
  lemma SortedHead(s: seq<nat>, v: nat)
    requires Sorted(s) && v in multiset(s)
    ensures s[0] <= v
  {
    var i :| 0 <= i < |s| && s[i] == v;
  }

  /** A sorted arrangement of a multiset is unique: any two sorted sequences
      with the same elements are equal. */
  lemma {:induction false} SortedUnique(a: seq<nat>, b: seq<nat>)
    requires Sorted(a) && Sorted(b)
    requires multiset(a) == multiset(b)
    ensures a == b
  {
    if a == [] {
      assert |b| == |multiset(b)| == 0;
    } else {
      assert |b| == |multiset(b)| == |multiset(a)| == |a|;
      SortedHead(a, b[0]);
      SortedHead(b, a[0]);
      assert a[0] == b[0];
      assert a == [a[0]] + a[1..];
      assert b == [b[0]] + b[1..];
      assert multiset(a) == multiset{a[0]} + multiset(a[1..]);
      assert multiset(b) == multiset{b[0]} + multiset(b[1..]);
      assert multiset(a[1..]) == multiset(a) - multiset{a[0]};
      assert multiset(b[1..]) == multiset(b) - multiset{b[0]};
      SortedTail(a);
      SortedTail(b);
      SortedUnique(a[1..], b[1..]);
    }
  }
}
