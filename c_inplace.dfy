/** The C in-place bucket sort over `struct data` records: the same counting
    and prefix machinery as the index sort, then a scan that swaps every
    element whose key's cursor has not yet passed it into that cursor's slot.
    Only swaps change the array, and at the end the keys are non-decreasing;
    the order of equal keys is not preserved. */
module CInplace {
  import opened Counting
  import opened Ordering

  /** `max_key`: the largest key, and 0 for an empty array. */
  method MaxKey<V>(x: array<Entry<V>>) returns (max: nat)
    ensures forall i :: 0 <= i < x.Length ==> x[i].key <= max
    ensures x.Length > 0 ==> exists i :: 0 <= i < x.Length && x[i].key == max
    ensures x.Length == 0 ==> max == 0
  {
    max := 0;
    for i := 0 to x.Length
      invariant forall j :: 0 <= j < i ==> x[j].key <= max
      invariant i == 0 ==> max == 0
      invariant i > 0 ==> exists j :: 0 <= j < i && x[j].key == max
    {
      max := if max < x[i].key then x[i].key else max;
    }
  }

  /** `no_buckets`: 0 for an empty array, otherwise the largest key plus one. */
  method NoBuckets<V>(x: array<Entry<V>>) returns (k: nat)
    ensures forall i :: 0 <= i < x.Length ==> x[i].key < k
    ensures k == 0 <==> x.Length == 0
    ensures x.Length > 0 ==> exists i :: 0 <= i < x.Length && x[i].key + 1 == k
    ensures k == BucketCount(Keys(x[..]))
  {
    if x.Length == 0 {
      k := 0;
    } else {
      var max := MaxKey(x);
      k := max + 1;
      assert Max(Keys(x[..])) == max by {
        var i :| 0 <= i < x.Length && x[i].key == max;
        assert Keys(x[..])[i] == max;
      }
    }
  }

  /** `compute_buckets`: counts the keys, then overwrites the counts in place
      with their exclusive prefix sums: entry j becomes the start offset of
      the block of key j. */
  method ComputeBuckets<V>(buckets: array<nat>, x: array<Entry<V>>)
    requires forall i :: 0 <= i < x.Length ==> x[i].key < buckets.Length
    modifies buckets
    ensures forall j {:trigger buckets[j]} :: 0 <= j < buckets.Length ==> buckets[j] == CountLess(Keys(x[..]), j)
  {
    ghost var ks := Keys(x[..]);
    // memset(buckets, 0, ...)
    for j := 0 to buckets.Length
      invariant forall l :: 0 <= l < j ==> buckets[l] == 0
    {
      buckets[j] := 0;
    }
    for i := 0 to x.Length
      invariant forall j {:trigger buckets[j]} :: 0 <= j < buckets.Length ==> buckets[j] == multiset(ks[..i])[j]
    {
      assert ks[..i + 1] == ks[..i] + [x[i].key];
      buckets[x[i].key] := buckets[x[i].key] + 1;
    }
    assert ks[..|ks|] == ks;
    var acc := 0;
    for i := 0 to buckets.Length
      invariant acc == CountLess(ks, i)
      invariant forall j {:trigger buckets[j]} :: 0 <= j < i ==> buckets[j] == CountLess(ks, j)
      invariant forall j {:trigger buckets[j]} :: i <= j < buckets.Length ==> buckets[j] == multiset(ks)[j]
    {
      var b := buckets[i];
      buckets[i] := acc;
      acc := acc + b;
    }
  }

  /** `swap`: exchanges the records at i and j; nothing else changes. */
  method Swap<V>(x: array<Entry<V>>, i: nat, j: nat)
    requires i < x.Length && j < x.Length
    modifies x
    ensures x[..] == old(x[..])[i := old(x[j])][j := old(x[i])]
  {
    var tmp := x[i];
    x[i] := x[j];
    x[j] := tmp;
  }

  /** `inplace_bsort`: for every position i in turn, swaps elements into
      their keys' blocks until the cursor of the key at i has passed i. The
      array ends as a rearrangement of itself with non-decreasing keys, and
      the swaps, self-swaps included, number exactly the length of the array. */
  method InplaceBsort<V>(x: array<Entry<V>>) returns (ghost swaps: nat)
    modifies x
    ensures multiset(x[..]) == multiset(old(x[..]))
    ensures Sorted(Keys(x[..]))
    ensures swaps == x.Length
  {
    var k := NoBuckets(x);
    var buckets := new nat[k];
    ComputeBuckets(buckets, x);
    ghost var keys := Keys(x[..]);
    assert buckets[..] == Starts(keys, k);
    InplaceStart(keys, k, buckets[..]);
    swaps := 0;
    for i := 0 to x.Length
      invariant multiset(x[..]) == multiset(old(x[..]))
      invariant InplaceState(keys, k, Keys(x[..]), buckets[..], i)
      invariant Sum(buckets[..]) == Sum(Starts(keys, k)) + swaps
    {
      var s := SwapToBucket(x, buckets, i, keys, k);
      swaps := swaps + s;
    }
    InplaceSorted(keys, k, Keys(x[..]), buckets[..]);
    SwapCount(keys, k, Keys(x[..]), buckets[..], swaps);
  }

  /** The inner loop of `inplace_bsort`, `while (i >= BUCKET(i))
      SWAP_TO_BUCKET(i)`: `BUCKET(i)` is the cursor of the key at i, and
      `SWAP_TO_BUCKET(i)` post-increments that cursor and swaps its old slot
      with position i. Each swap sends an element to the filled front of its
      block, so the loop ends, and it leaves position i scanned. */
  method SwapToBucket<V>(x: array<Entry<V>>, buckets: array<nat>, i: nat, ghost keys: seq<nat>, ghost k: nat)
    returns (ghost swaps: nat)
    requires i < x.Length
    requires InplaceState(keys, k, Keys(x[..]), buckets[..], i)
    modifies x, buckets
    ensures multiset(x[..]) == multiset(old(x[..]))
    ensures InplaceState(keys, k, Keys(x[..]), buckets[..], i + 1)
    ensures Sum(buckets[..]) == Sum(old(buckets[..])) + swaps
    ensures CursorsGrow(old(buckets[..]), buckets[..])
    ensures FrontsKept(keys, old(buckets[..]), old(x[..]), x[..])
  {
    ghost var ends, start := Ends(keys, k), Sum(buckets[..]);
    ghost var cursors0, xs0 := buckets[..], x[..];
    swaps := 0;
    assert Keys(x[..])[i] == x[i].key;
    while i >= buckets[x[i].key]
      invariant multiset(x[..]) == multiset(old(x[..]))
      invariant InplaceState(keys, k, Keys(x[..]), buckets[..], i)
      invariant x[i].key < buckets.Length
      invariant Sum(buckets[..]) == start + swaps
      invariant CursorsInBlocks(keys, cursors0) && CursorsGrow(cursors0, buckets[..])
      invariant FrontsKept(keys, cursors0, xs0, x[..])
      decreases Sum(ends) - Sum(buckets[..])
    {
      var c := x[i].key;
      var b := buckets[c];
      ghost var xs, cursors := x[..], buckets[..];
      assert Keys(xs)[i] == c;
      SwapTarget(keys, k, Keys(xs), cursors, i);
      buckets[c] := b + 1;
      Swap(x, i, b);
      SwapKeepsFronts(keys, xs, cursors, i, b, cursors0, xs0, x[..], buckets[..]);
      SwapAdvance(keys, k, xs, cursors, i, b, ends, x[..], buckets[..]);
      swaps := swaps + 1;
      assert Keys(x[..])[i] == x[i].key;
    }
    assert Keys(x[..])[i] == x[i].key;
    ScanNext(keys, k, Keys(x[..]), buckets[..], i);
  }

  // ---------------------------------------------------------------------
  // The invariant of the scan

  /** The state of the scan before position i, over the original keys: the
      current keys are a rearrangement of them, each cursor lies inside its
      key's block, the front of every block up to its cursor holds that key,
      and every scanned position lies before its key's cursor. */
  ghost predicate InplaceState(keys: seq<nat>, k: nat, cur: seq<nat>, cursors: seq<nat>, i: nat) {
    |cur| == |keys| && |cursors| == k && i <= |cur| &&
    multiset(cur) == multiset(keys) &&
    (forall p :: 0 <= p < |cur| ==> cur[p] < k) &&
    CursorsInBlocks(keys, cursors) &&
    BlocksFilled(keys, cur, cursors) &&
    Scanned(cur, cursors, i)
  }

  /** Each cursor lies between the start and the end of its key's block. */
  ghost predicate CursorsInBlocks(keys: seq<nat>, cursors: seq<nat>) {
    forall c {:trigger cursors[c]} :: 0 <= c < |cursors| ==>
      CountLess(keys, c) <= cursors[c] <= CountLess(keys, c + 1)
  }

  /** The front of each block, up to its cursor, holds the block's key. */
  ghost predicate BlocksFilled(keys: seq<nat>, cur: seq<nat>, cursors: seq<nat>) {
    forall c :: 0 <= c < |cursors| ==> BlockFront(keys, cur, cursors, c)
  }

  /** The front of the block of key c, up to its cursor, holds c. */
  ghost predicate BlockFront(keys: seq<nat>, cur: seq<nat>, cursors: seq<nat>, c: nat)
    requires c < |cursors|
  {
    forall p :: CountLess(keys, c) <= p < cursors[c] && p < |cur| ==> cur[p] == c
  }

  /** Every position before i lies before the cursor of its key. */
  ghost predicate Scanned(cur: seq<nat>, cursors: seq<nat>, i: nat) {
    forall p {:trigger cursors[cur[p]]} :: 0 <= p < i && p < |cur| && cur[p] < |cursors| ==> p < cursors[cur[p]]
  }

  /** Two positions inside the blocks of two different keys differ. */
  lemma BlocksDisjoint(keys: seq<nat>, c: nat, b: nat, d: nat, p: nat)
    requires c != d
    requires CountLess(keys, c) <= b < CountLess(keys, c + 1)
    requires CountLess(keys, d) <= p < CountLess(keys, d + 1)
    ensures b != p
  {
    if c < d {
      CountLessMonotone(keys, c + 1, d);
    } else {
      CountLessMonotone(keys, d + 1, c);
    }
  }

  lemma InplaceStart(keys: seq<nat>, k: nat, cursors: seq<nat>)
    requires forall i :: 0 <= i < |keys| ==> keys[i] < k
    requires |cursors| == k && forall c {:trigger cursors[c]} :: 0 <= c < k ==> cursors[c] == CountLess(keys, c)
    ensures InplaceState(keys, k, keys, cursors, 0)
  {
    forall c | 0 <= c < k ensures CountLess(keys, c) <= CountLess(keys, c + 1) {
      CountLessMonotone(keys, c, c + 1);
    }
  }

  /** Swapping two elements keeps the multiset. */
  lemma SwapMultiset<T>(s: seq<T>, i: nat, j: nat)
    requires i < |s| && j < |s|
    ensures multiset(s[i := s[j]][j := s[i]]) == multiset(s)
  {
    if i != j {
      var t := s[i := s[j]];
      assert multiset(t) == multiset(s) - multiset{s[i]} + multiset{s[j]};
      assert multiset(t[j := s[i]]) == multiset(t) - multiset{t[j]} + multiset{s[i]};
    } else {
      assert s[i := s[j]][j := s[i]] == s;
    }
  }

  /** Swapping two records keeps their multiset and swaps their keys. */
  lemma SwapRecords<V>(xs: seq<Entry<V>>, i: nat, j: nat, xs': seq<Entry<V>>)
    requires i < |xs| && j < |xs|
    requires xs' == xs[i := xs[j]][j := xs[i]]
    ensures multiset(xs') == multiset(xs)
    ensures Keys(xs') == Keys(xs)[i := xs[j].key][j := xs[i].key]
  {
    SwapMultiset(xs, i, j);
  }

  /** The number of occurrences of v is at most the length. */
  lemma {:induction false} CountAtMostLength(s: seq<nat>, v: nat)
    ensures multiset(s)[v] <= |s|
  {
    if s != [] {
      CountAtMostLength(s[..|s| - 1], v);
      assert s == s[..|s| - 1] + [s[|s| - 1]];
    }
  }

  /** A stretch holding only v contributes its length to the count of v. */
  lemma CountConstantStretch(s: seq<nat>, lo: nat, hi: nat, v: nat)
    requires lo <= hi <= |s|
    requires forall p :: lo <= p < hi ==> s[p] == v
    ensures multiset(s[lo..hi])[v] == hi - lo
  {
    assert s[lo..hi] == Repeat(v, hi - lo);
    RepeatMultiset(v, hi - lo, v);
  }

  /** If [lo, b) holds only v and a later position i holds v too, v occurs
      more than b - lo times. */
  lemma CountAtLeast(s: seq<nat>, lo: nat, b: nat, i: nat, v: nat)
    requires lo <= b <= i < |s|
    requires forall p :: lo <= p < b ==> s[p] == v
    requires s[i] == v
    ensures multiset(s)[v] >= b - lo + 1
  {
    assert s == s[..lo] + s[lo..b] + s[b..];
    CountConstantStretch(s, lo, b, v);
    assert s[b..][i - b] == v;
  }

  /** If every occurrence of v lies in [lo, hi), v occurs at most hi - lo times. */
  lemma CountAtMost(s: seq<nat>, lo: nat, hi: nat, v: nat)
    requires lo <= hi <= |s|
    requires forall p :: 0 <= p < |s| && s[p] == v ==> lo <= p < hi
    ensures multiset(s)[v] <= hi - lo
  {
    assert s == s[..lo] + s[lo..hi] + s[hi..];
    assert v !in s[..lo];
    assert v !in s[hi..];
    CountAtMostLength(s[lo..hi], v);
  }

  /** The block of key c holds exactly its occurrences. */
  lemma BlockSize(keys: seq<nat>, c: nat)
    ensures CountLess(keys, c + 1) - CountLess(keys, c) == multiset(keys)[c]
  {
  }

  /** A swap target is always inside its key's block: the block's front up
      to the cursor and position i all hold its key, and the block has room
      for every occurrence. */
  lemma SwapTarget(keys: seq<nat>, k: nat, cur: seq<nat>, cursors: seq<nat>, i: nat)
    requires InplaceState(keys, k, cur, cursors, i) && i < |cur|
    requires cursors[cur[i]] <= i
    ensures CountLess(keys, cur[i]) <= cursors[cur[i]] < CountLess(keys, cur[i] + 1) <= |cur|
  {
    var c := cur[i];
    var lo := CountLess(keys, c);
    assert BlockFront(keys, cur, cursors, c);
    CountAtLeast(cur, lo, cursors[c], i, c);
    BlockSize(keys, c);
    CountLessAtMost(keys, c + 1);
  }

  /** One swap keeps the state: the cursor of the key at i advances inside
      its block, the filled fronts stay filled and the scanned positions
      stay scanned. */
  lemma SwapStep(keys: seq<nat>, k: nat, cur: seq<nat>, cursors: seq<nat>, i: nat, b: nat,
                 cur': seq<nat>, cursors': seq<nat>)
    requires InplaceState(keys, k, cur, cursors, i) && i < |cur|
    requires b == cursors[cur[i]] <= i
    requires cur' == cur[i := cur[b]][b := cur[i]]
    requires cursors' == cursors[cur[i] := b + 1]
    ensures InplaceState(keys, k, cur', cursors', i)
  {
    SwapTarget(keys, k, cur, cursors, i);
    SwapMultiset(cur, i, b);
    SwapFills(keys, cur, cursors, i, b, cur', cursors');
    SwapScans(cur, cursors, i, b, cur', cursors');
    assert CursorsInBlocks(keys, cursors');
    assert forall p :: 0 <= p < |cur'| ==> cur'[p] < k;
  }

  /** The swapped-in element extends the filled front of its block, and
      neither swapped position lies in the filled front of another block. */
  lemma SwapFills(keys: seq<nat>, cur: seq<nat>, cursors: seq<nat>, i: nat, b: nat,
                  cur': seq<nat>, cursors': seq<nat>)
    requires i < |cur| && cur[i] < |cursors|
    requires CursorsInBlocks(keys, cursors) && BlocksFilled(keys, cur, cursors)
    requires b == cursors[cur[i]] <= i && b < CountLess(keys, cur[i] + 1)
    requires cur' == cur[i := cur[b]][b := cur[i]]
    requires cursors' == cursors[cur[i] := b + 1]
    ensures BlocksFilled(keys, cur', cursors')
  {
    var c := cur[i];
    forall c' | 0 <= c' < |cursors'| ensures BlockFront(keys, cur', cursors', c') {
      assert BlockFront(keys, cur, cursors, c');
      forall p | CountLess(keys, c') <= p < cursors'[c'] && p < |cur'| ensures cur'[p] == c' {
        if c' == c {
          if p < b {
            assert cur[p] == c;
          }
        } else {
          assert cursors'[c'] == cursors[c'] <= CountLess(keys, c' + 1);
          assert cur[p] == c';
          BlocksDisjoint(keys, c, b, c', p);
        }
      }
    }
  }

  /** Positions before i keep their keys' cursors ahead of them: the
      cursors only grow, and an element swapped back to a scanned slot b
      has its cursor at b + 1. */
  lemma SwapScans(cur: seq<nat>, cursors: seq<nat>, i: nat, b: nat, cur': seq<nat>, cursors': seq<nat>)
    requires i < |cur| && cur[i] < |cursors| && Scanned(cur, cursors, i)
    requires b == cursors[cur[i]] <= i
    requires cur' == cur[i := cur[b]][b := cur[i]]
    requires cursors' == cursors[cur[i] := b + 1]
    ensures Scanned(cur', cursors', i)
  {
    forall p | 0 <= p < i && cur'[p] < |cursors'| ensures p < cursors'[cur'[p]] {
      if p != b {
        assert cur'[p] == cur[p];
      }
    }
  }

  /** One `SWAP_TO_BUCKET(i)` on the records: the swap keeps their multiset
      and the scan state, and the cursors' sum grows by one without passing
      the sum of the block ends. */
  lemma SwapAdvance<V>(keys: seq<nat>, k: nat, xs: seq<Entry<V>>, cursors: seq<nat>, i: nat, b: nat,
                       ends: seq<nat>, xs': seq<Entry<V>>, cursors': seq<nat>)
    requires InplaceState(keys, k, Keys(xs), cursors, i) && i < |xs|
    requires xs[i].key < |cursors| && b == cursors[xs[i].key] <= i
    requires ends == Ends(keys, k)
    requires xs' == xs[i := xs[b]][b := xs[i]]
    requires cursors' == cursors[xs[i].key := b + 1]
    ensures multiset(xs') == multiset(xs)
    ensures InplaceState(keys, k, Keys(xs'), cursors', i)
    ensures Sum(cursors') == Sum(cursors) + 1 <= Sum(ends)
  {
    var cur, c := Keys(xs), xs[i].key;
    assert cur[i] == c;
    SwapRecords(xs, i, b, xs');
    var cur' := Keys(xs');
    assert cur' == cur[i := cur[b]][b := c];
    SwapStep(keys, k, cur, cursors, i, b, cur', cursors');
    CursorAdvance(keys, k, cursors, c, ends, cursors');
  }

  /** Each cursor is at least where it was. */
  ghost predicate CursorsGrow(before: seq<nat>, after: seq<nat>) {
    |before| == |after| && forall c :: 0 <= c < |after| ==> before[c] <= after[c]
  }

  /** The records that were in the filled front of some block, as given by
      the cursors `cursors0`, are still in place. */
  ghost predicate FrontsKept<V>(keys: seq<nat>, cursors0: seq<nat>, xs0: seq<Entry<V>>, xs: seq<Entry<V>>) {
    |xs| == |xs0| && forall c :: 0 <= c < |cursors0| ==> FrontKept(keys, cursors0, xs0, xs, c)
  }

  /** The records in the filled front of the block of c are still in place. */
  ghost predicate FrontKept<V>(keys: seq<nat>, cursors0: seq<nat>, xs0: seq<Entry<V>>, xs: seq<Entry<V>>, c: nat)
    requires c < |cursors0|
  {
    forall p :: CountLess(keys, c) <= p < cursors0[c] && p < |xs| && p < |xs0| ==> xs[p] == xs0[p]
  }

  /** A swap never touches a filled front: position i is not in one while
      the loop guard holds, and the cursor's old slot b is past the filled
      front of its own block and outside every other block. The cursors
      only grow. */
  lemma SwapKeepsFronts<V>(keys: seq<nat>, xs: seq<Entry<V>>, cursors: seq<nat>, i: nat, b: nat,
                           cursors0: seq<nat>, xs0: seq<Entry<V>>, xs': seq<Entry<V>>, cursors': seq<nat>)
    requires i < |xs| && xs[i].key < |cursors|
    requires b == cursors[xs[i].key] <= i
    requires CountLess(keys, xs[i].key) <= b < CountLess(keys, xs[i].key + 1)
    requires BlocksFilled(keys, Keys(xs), cursors)
    requires CursorsInBlocks(keys, cursors0) && CursorsGrow(cursors0, cursors)
    requires FrontsKept(keys, cursors0, xs0, xs)
    requires xs' == xs[i := xs[b]][b := xs[i]]
    requires cursors' == cursors[xs[i].key := b + 1]
    ensures CursorsGrow(cursors0, cursors')
    ensures FrontsKept(keys, cursors0, xs0, xs')
  {
    var c := xs[i].key;
    assert Keys(xs)[i] == c;
    forall c' | 0 <= c' < |cursors0| ensures FrontKept(keys, cursors0, xs0, xs', c') {
      assert FrontKept(keys, cursors0, xs0, xs, c');
      assert BlockFront(keys, Keys(xs), cursors, c');
      forall p | CountLess(keys, c') <= p < cursors0[c'] && p < |xs'| && p < |xs0| ensures xs'[p] == xs0[p] {
        assert Keys(xs)[p] == c';
        if c' != c {
          BlocksDisjoint(keys, c, b, c', p);
        }
      }
    }
  }

  /** Once the cursor of the key at i has passed i, position i is scanned. */
  lemma ScanNext(keys: seq<nat>, k: nat, cur: seq<nat>, cursors: seq<nat>, i: nat)
    requires InplaceState(keys, k, cur, cursors, i) && i < |cur|
    requires i < cursors[cur[i]]
    ensures InplaceState(keys, k, cur, cursors, i + 1)
  {
  }

  /** The start offsets of the blocks of keys 0 .. k - 1. */
  ghost function Starts(keys: seq<nat>, k: nat): seq<nat> {
    seq(k, c requires 0 <= c => CountLess(keys, c))
  }

  /** The end offsets of the blocks of keys 0 .. k - 1. */
  ghost function Ends(keys: seq<nat>, k: nat): seq<nat> {
    seq(k, c requires 0 <= c => CountLess(keys, c + 1))
  }

  /** Advancing one cursor inside its block adds one to the cursors' sum,
      which stays at most the sum of the block ends. */
  lemma CursorAdvance(keys: seq<nat>, k: nat, cursors: seq<nat>, c: nat, ends: seq<nat>, cursors': seq<nat>)
    requires c < |cursors| == k && ends == Ends(keys, k)
    requires cursors' == cursors[c := cursors[c] + 1]
    requires CursorsInBlocks(keys, cursors')
    ensures Sum(cursors') == Sum(cursors) + 1 <= Sum(ends)
  {
    SumIncrement(cursors, c);
    CursorsBelowEnds(keys, k, cursors', ends);
  }

  /** The cursors sum to less than the block ends while a swap is due. */
  lemma CursorsBelowEnds(keys: seq<nat>, k: nat, cursors: seq<nat>, ends: seq<nat>)
    requires |cursors| == k && ends == Ends(keys, k)
    requires forall c {:trigger cursors[c]} :: 0 <= c < k ==> cursors[c] <= CountLess(keys, c + 1)
    ensures Sum(cursors) <= Sum(ends)
  {
    SumMonotone(cursors, ends);
  }

  // ---------------------------------------------------------------------
  // After the scan

  /** When every position has been scanned, every block is full: by
      induction on the key, the occurrences of key c can only sit in the
      filled front of its block, because the blocks of smaller keys are full
      and the cursor of c has passed them all. */
  lemma {:induction false} BlocksFull(keys: seq<nat>, k: nat, cur: seq<nat>, cursors: seq<nat>, c: nat)
    requires InplaceState(keys, k, cur, cursors, |cur|)
    requires c <= k
    ensures forall c' {:trigger cursors[c']} :: 0 <= c' < c ==> cursors[c'] == CountLess(keys, c' + 1)
  {
    if c > 0 {
      BlocksFull(keys, k, cur, cursors, c - 1);
      var d := c - 1;
      var lo := CountLess(keys, d);
      CountLessAtMost(keys, d);
      forall p | 0 <= p < lo ensures cur[p] != d {
        var e := BlockOf(keys, d, p);
        assert cursors[e] == CountLess(keys, e + 1);
        assert BlockFront(keys, cur, cursors, e);
      }
      CountLessAtMost(keys, d + 1);
      CountAtMost(cur, lo, cursors[d], d);
    }
  }

  /** After the scan the keys are non-decreasing. */
  lemma InplaceSorted(keys: seq<nat>, k: nat, cur: seq<nat>, cursors: seq<nat>)
    requires forall i :: 0 <= i < |keys| ==> keys[i] < k
    requires InplaceState(keys, k, cur, cursors, |cur|)
    ensures Sorted(cur)
  {
    BlocksFull(keys, k, cur, cursors, k);
    CountLessAll(keys, k);
    forall p, q | 0 <= p < q < |cur| ensures cur[p] <= cur[q] {
      var cp := BlockOf(keys, k, p);
      var cq := BlockOf(keys, k, q);
      assert cursors[cp] == CountLess(keys, cp + 1) && cursors[cq] == CountLess(keys, cq + 1);
      assert BlockFront(keys, cur, cursors, cp) && BlockFront(keys, cur, cursors, cq);
      if cq < cp {
        CountLessMonotone(keys, cq + 1, cp);
      }
    }
  }

  /** The blocks' ends exceed their starts by the number of keys below k in
      total. */
  lemma {:induction false} BlockSizesSum(keys: seq<nat>, k: nat)
    ensures Sum(Ends(keys, k)) == Sum(Starts(keys, k)) + CountLess(keys, k)
  {
    if k > 0 {
      BlockSizesSum(keys, k - 1);
      assert Ends(keys, k)[..k - 1] == Ends(keys, k - 1);
      assert Starts(keys, k)[..k - 1] == Starts(keys, k - 1);
    }
  }

  /** Every swap advances one cursor by one, and the scan ends with every
      cursor at its block's end, so there is one swap per element. */
  lemma SwapCount(keys: seq<nat>, k: nat, cur: seq<nat>, cursors: seq<nat>, swaps: nat)
    requires forall i :: 0 <= i < |keys| ==> keys[i] < k
    requires InplaceState(keys, k, cur, cursors, |cur|)
    requires Sum(cursors) == Sum(Starts(keys, k)) + swaps
    ensures swaps == |keys|
  {
    BlocksFull(keys, k, cur, cursors, k);
    assert cursors == Ends(keys, k);
    BlockSizesSum(keys, k);
    CountLessAll(keys, k);
  }
}
