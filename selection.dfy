/** Choosing the bucket to compact (newestBucket, trimToThreshold) and the single-table
    tombstone fallback (the second half of getNextNonExpiredSSTables). */
module Selection {
  import opened Tables
  import opened WindowMath

  /** SizeTieredCompactionStrategy's getBuckets followed by mostInterestingBucket, applied to
      one bucket with the minimum and maximum thresholds; its size-tier options are fixed
      by the strategy and captured in the function. */
  type SizeTieredSelector = (set<SSTable>, int, nat) -> seq<SSTable>

  /** All that is assumed of the size-tiered sub-selection: it picks among the tables it is given. */
  ghost predicate SizeTieredContract(stcs: SizeTieredSelector) {
    forall bucket, minThreshold, maxThreshold, x :: x in stcs(bucket, minThreshold, maxThreshold) ==> x in bucket
  }

  // ---------------------------------------------------------------- trimToThreshold

  /** `new ArrayList<>(bucket)`: the bucket's tables, each once, in unspecified order. */
  method ListOf(bucket: set<SSTable>) returns (list: seq<SSTable>)
    ensures Distinct(list) && Elements(list) == bucket && |list| == |bucket|
  {
    list := [];
    var rest := bucket;
    while rest != {}
      invariant rest <= bucket
      invariant Distinct(list) && Elements(list) == bucket - rest
      decreases rest
    {
      var f :| f in rest;
      assert Elements(list + [f]) == Elements(list) + {f};
      list := list + [f];
      rest := rest - {f};
    }
    DistinctCardinality(list);
  }

  /** The first `n` cells of `a` are in ascending order of size. */
  ghost predicate SortedPrefix(a: array<SSTable>, n: int)
    reads a
    requires 0 <= n <= a.Length
  {
    forall x, y :: 0 <= x < y < n ==> a[x].size <= a[y].size
  }

  /** `Collections.sort(list, new SSTableReader.SizeComparator())`: sorts in place, ascending by size. */
  method SortBySize(a: array<SSTable>)
    modifies a
    ensures SortedBySize(a[..])
    ensures multiset(a[..]) == multiset(old(a[..]))
  {
    var i := 0;
    while i < a.Length
      invariant 0 <= i <= a.Length
      invariant SortedPrefix(a, i)
      invariant multiset(a[..]) == multiset(old(a[..]))
    {
      InsertInPlace(a, i);
      i := i + 1;
    }
  }

  /** One step of the insertion sort: moves `a[i]` left into the sorted prefix `a[..i]`. */
  method InsertInPlace(a: array<SSTable>, i: int)
    requires 0 <= i < a.Length && SortedPrefix(a, i)
    modifies a
    ensures SortedPrefix(a, i + 1)
    ensures multiset(a[..]) == multiset(old(a[..]))
  {
    var j := i;
    while j > 0 && a[j - 1].size > a[j].size
      invariant 0 <= j <= i
      invariant forall x, y :: 0 <= x < y <= i && x != j && y != j ==> a[x].size <= a[y].size
      invariant forall y :: j < y <= i ==> a[j].size <= a[y].size
      invariant multiset(a[..]) == multiset(old(a[..]))
    {
      Swap(a, j - 1, j);
      j := j - 1;
    }
  }

  method Swap(a: array<SSTable>, i: int, j: int)
    requires 0 <= i < j < a.Length
    modifies a
    ensures a[i] == old(a[j]) && a[j] == old(a[i])
    ensures forall k :: 0 <= k < a.Length && k != i && k != j ==> a[k] == old(a[k])
    ensures multiset(a[..]) == multiset(old(a[..]))
  {
    a[i], a[j] := a[j], a[i];
  }

  /** What trimToThreshold returns: the `min(|bucket|, maxThreshold)` smallest tables of the
      bucket, each once, ascending by size; every table left out is at least as large as
      every table kept. */
  ghost predicate IsTrim(bucket: set<SSTable>, maxThreshold: nat, r: seq<SSTable>) {
    && |r| == Min(|bucket|, maxThreshold)
    && Distinct(r)
    && Elements(r) <= bucket
    && SortedBySize(r)
    && forall kept, dropped :: kept in r && dropped in bucket && dropped !in r ==> kept.size <= dropped.size
  }

  method TrimToThreshold(bucket: set<SSTable>, maxThreshold: nat) returns (r: seq<SSTable>)
    ensures IsTrim(bucket, maxThreshold, r)
  {
    var list := ListOf(bucket);
    var ssTableReaders := new SSTable[|list|](i requires 0 <= i < |list| => list[i]);
    assert ssTableReaders[..] == list;
    SortBySize(ssTableReaders);
    var sorted := ssTableReaders[..];
    PermutationKeepsElements(list, sorted);
    var limit := Min(|sorted|, maxThreshold);
    r := sorted[..limit];
    assert Distinct(r) by {
      forall x, y | 0 <= x < y < |r| ensures r[x] != r[y] {
        assert r[x] == sorted[x] && r[y] == sorted[y];
      }
    }
    assert Elements(r) <= bucket;
    forall kept, dropped | kept in r && dropped in bucket && dropped !in r
      ensures kept.size <= dropped.size
    {
      var x :| 0 <= x < |r| && r[x] == kept;
      var y :| 0 <= y < |sorted| && sorted[y] == dropped;
      assert forall z :: 0 <= z < limit ==> r[z] == sorted[z];
      assert y >= limit;
      assert sorted[x] == kept;
    }
  }

  /** A permutation of a sequence without repetitions has the same elements and no repetitions. */
  lemma PermutationKeepsElements(s: seq<SSTable>, t: seq<SSTable>)
    requires Distinct(s) && multiset(s) == multiset(t)
    ensures Distinct(t) && Elements(t) == Elements(s)
  {
    assert |t| == |s| by {
      assert |t| == |multiset(t)| && |s| == |multiset(s)|;
    }
    forall x ensures x in Elements(t) <==> x in Elements(s) {
      assert x in t <==> x in multiset(t);
      assert x in s <==> x in multiset(s);
    }
    assert Elements(t) == Elements(s);
    DistinctCardinality(s);
    CardinalityMeansDistinct(t);
  }

  /** A sequence is at least as long as its set of elements. */
  lemma {:induction false} ElementsCardinality<T>(s: seq<T>)
    ensures |Elements(s)| <= |s|
  {
    if s != [] {
      ElementsCardinality(s[1..]);
      assert Elements(s) == {s[0]} + Elements(s[1..]) by {
        assert s == [s[0]] + s[1..];
      }
    }
  }

  /** A sequence with as many elements as its length has no repetitions. */
  lemma CardinalityMeansDistinct<T>(s: seq<T>)
    requires |Elements(s)| == |s|
    ensures Distinct(s)
  {
    if !Distinct(s) {
      var i, j :| 0 <= i < j < |s| && s[i] == s[j];
      var u := s[..j] + s[j + 1..];
      assert Elements(s) == Elements(u) by {
        assert s == s[..j] + [s[j]] + s[j + 1..];
        assert s[j] in u by { assert u[i] == s[i]; }
      }
      ElementsCardinality(u);
      assert false;
    }
  }

  /** When the bucket fits, nothing is trimmed: all of its tables are kept. */
  lemma TrimKeepsSmallBucket(bucket: set<SSTable>, maxThreshold: nat, r: seq<SSTable>)
    requires IsTrim(bucket, maxThreshold, r) && |bucket| <= maxThreshold
    ensures Elements(r) == bucket
  {
    DistinctCardinality(r);
    assert |Elements(r)| == |bucket|;
    assert |bucket - Elements(r)| == |bucket| - |Elements(r)| == 0;
  }

  // ---------------------------------------------------------------- newestBucket

  /** `it.next()` on the descending iterator of the remaining window keys. */
  method MaxKey(keys: set<int>) returns (k: int)
    requires keys != {}
    ensures k in keys && forall x :: x in keys ==> x <= k
  {
    NonEmptyHasElement(keys);
    k :| k in keys;
    var rest := keys - {k};
    while rest != {}
      invariant rest <= keys && k in keys
      invariant forall x :: x in keys && x !in rest ==> x <= k
      decreases rest
    {
      NonEmptyHasElement(rest);
      var x :| x in rest;
      if x > k {
        k := x;
      }
      rest := rest - {x};
    }
  }

  /** The scan of newestBucket stops at `key`: a current or future window is taken when it has
      at least minThreshold tables and the size-tiered sub-selection picks some of them; a
      past window is taken when it has at least two tables. */
  ghost predicate Stops(buckets: map<int, set<SSTable>>, key: int, nowKey: int, minThreshold: int, maxThreshold: nat,
                        stcs: SizeTieredSelector)
    requires key in buckets
  {
    var bucket := buckets[key];
    || (|bucket| >= minThreshold && key >= nowKey && stcs(bucket, minThreshold, maxThreshold) != [])
    || (|bucket| >= 2 && key < nowKey)
  }

  /** What the scan returns on stopping at `key`. */
  ghost predicate TakenFrom(bucket: set<SSTable>, key: int, nowKey: int, minThreshold: int, maxThreshold: nat,
                            stcs: SizeTieredSelector, r: seq<SSTable>)
  {
    if key >= nowKey then r == stcs(bucket, minThreshold, maxThreshold) else IsTrim(bucket, maxThreshold, r)
  }

  /** The result of newestBucket: the keys are scanned from newest to oldest and the first
      that stops the scan supplies the result; when none does, the result is empty. */
  ghost predicate NewestBucketResult(buckets: map<int, set<SSTable>>, nowKey: int, minThreshold: int, maxThreshold: nat,
                                     stcs: SizeTieredSelector, r: seq<SSTable>)
  {
    || ((forall k :: k in buckets ==> !Stops(buckets, k, nowKey, minThreshold, maxThreshold, stcs)) && r == [])
    || (exists key :: key in buckets
                      && Stops(buckets, key, nowKey, minThreshold, maxThreshold, stcs)
                      && (forall k :: k in buckets && k > key ==> !Stops(buckets, k, nowKey, minThreshold, maxThreshold, stcs))
                      && TakenFrom(buckets[key], key, nowKey, minThreshold, maxThreshold, stcs, r))
  }

  method NewestBucket(buckets: map<int, set<SSTable>>, minThreshold: int, maxThreshold: nat,
                      unit: TimeUnit, size: int, stcs: SizeTieredSelector, now: int)
    returns (r: seq<SSTable>)
    requires WindowSizeOk(unit, size)
    ensures NewestBucketResult(buckets, WindowBounds(unit, size, now).lower, minThreshold, maxThreshold, stcs, r)
  {
    var nowKey := WindowBounds(unit, size, now).lower;
    var allKeys := buckets.Keys;
    while allKeys != {}
      invariant allKeys <= buckets.Keys
      invariant forall k :: k in buckets && k !in allKeys ==> !Stops(buckets, k, nowKey, minThreshold, maxThreshold, stcs)
      invariant forall k, k' :: k in buckets && k !in allKeys && k' in allKeys ==> k' < k
      decreases allKeys
    {
      var key := MaxKey(allKeys);
      var bucket := buckets[key];
      if |bucket| >= minThreshold && key >= nowKey {
        var stcsInterestingBucket := stcs(bucket, minThreshold, maxThreshold);
        if stcsInterestingBucket != [] {
          assert Stops(buckets, key, nowKey, minThreshold, maxThreshold, stcs);
          return stcsInterestingBucket;
        }
      } else if |bucket| >= 2 && key < nowKey {
        r := TrimToThreshold(bucket, maxThreshold);
        assert Stops(buckets, key, nowKey, minThreshold, maxThreshold, stcs);
        return r;
      }
      allKeys := allKeys - {key};
    }
    return [];
  }

  /** With a positive maxThreshold the result of newestBucket is empty exactly when no
      window stops the scan. */
  lemma NewestBucketEmptyIff(buckets: map<int, set<SSTable>>, nowKey: int, minThreshold: int, maxThreshold: nat,
                             stcs: SizeTieredSelector, r: seq<SSTable>)
    requires NewestBucketResult(buckets, nowKey, minThreshold, maxThreshold, stcs, r)
    requires maxThreshold >= 1
    ensures r == [] <==> forall k :: k in buckets ==> !Stops(buckets, k, nowKey, minThreshold, maxThreshold, stcs)
  {
    if exists key :: key in buckets && Stops(buckets, key, nowKey, minThreshold, maxThreshold, stcs) {
      var key :| key in buckets
                 && Stops(buckets, key, nowKey, minThreshold, maxThreshold, stcs)
                 && (forall k :: k in buckets && k > key ==> !Stops(buckets, k, nowKey, minThreshold, maxThreshold, stcs))
                 && TakenFrom(buckets[key], key, nowKey, minThreshold, maxThreshold, stcs, r);
      if key < nowKey {
        assert |r| == Min(|buckets[key]|, maxThreshold) >= 1;
      }
    }
  }

  /** The result of newestBucket is drawn from a single bucket. */
  lemma NewestBucketWithinOneBucket(buckets: map<int, set<SSTable>>, nowKey: int, minThreshold: int, maxThreshold: nat,
                                    stcs: SizeTieredSelector, r: seq<SSTable>)
    requires SizeTieredContract(stcs)
    requires NewestBucketResult(buckets, nowKey, minThreshold, maxThreshold, stcs, r)
    ensures r == [] || exists key :: key in buckets && Elements(r) <= buckets[key]
  {
    if r != [] {
      var key :| key in buckets
                 && Stops(buckets, key, nowKey, minThreshold, maxThreshold, stcs)
                 && TakenFrom(buckets[key], key, nowKey, minThreshold, maxThreshold, stcs, r);
      assert TakenFrom(buckets[key], key, nowKey, minThreshold, maxThreshold, stcs, r);
      assert key >= nowKey ==> r == stcs(buckets[key], minThreshold, maxThreshold);
      forall x | x in Elements(r) ensures x in buckets[key] {
        assert x in r;
      }
    }
  }

  /** A result drawn from a window at or after `nowKey` is the size-tiered pick of a bucket
      with at least minThreshold tables; one drawn from an earlier window comes from a bucket
      of at least two tables and no newer window qualified. */
  lemma NewestBucketPrefersNewest(buckets: map<int, set<SSTable>>, nowKey: int, minThreshold: int, maxThreshold: nat,
                                  stcs: SizeTieredSelector, r: seq<SSTable>, key: int)
    requires NewestBucketResult(buckets, nowKey, minThreshold, maxThreshold, stcs, r)
    requires key in buckets && Stops(buckets, key, nowKey, minThreshold, maxThreshold, stcs)
    requires forall k :: k in buckets && k > key ==> !Stops(buckets, k, nowKey, minThreshold, maxThreshold, stcs)
    ensures TakenFrom(buckets[key], key, nowKey, minThreshold, maxThreshold, stcs, r)
  {
    var chosen :| chosen in buckets
                  && Stops(buckets, chosen, nowKey, minThreshold, maxThreshold, stcs)
                  && (forall k :: k in buckets && k > chosen ==> !Stops(buckets, k, nowKey, minThreshold, maxThreshold, stcs))
                  && TakenFrom(buckets[chosen], chosen, nowKey, minThreshold, maxThreshold, stcs, r);
    assert chosen == key;
  }

  // ---------------------------------------------------------------- tombstone fallback

  /** The fallback's result: nothing when no table is worth dropping tombstones from at
      gcBefore, otherwise one such table of minimum size. */
  ghost predicate TombstoneResult(tables: set<SSTable>, worthDropping: TombstoneTest, gcBefore: int, r: seq<SSTable>) {
    if forall t :: t in tables ==> !worthDropping(t, gcBefore) then
      r == []
    else
      && |r| == 1
      && r[0] in tables && worthDropping(r[0], gcBefore)
      && forall t :: t in tables && worthDropping(t, gcBefore) ==> r[0].size <= t.size
  }

  method TombstoneCandidate(tables: set<SSTable>, worthDropping: TombstoneTest, gcBefore: int) returns (r: seq<SSTable>)
    ensures TombstoneResult(tables, worthDropping, gcBefore, r)
  {
    var sstablesWithTombstones := [];
    var rest := tables;
    while rest != {}
      invariant rest <= tables
      invariant forall t :: t in sstablesWithTombstones <==> t in tables - rest && worthDropping(t, gcBefore)
      decreases rest
    {
      var sstable :| sstable in rest;
      if worthDropping(sstable, gcBefore) {
        sstablesWithTombstones := sstablesWithTombstones + [sstable];
      }
      rest := rest - {sstable};
    }
    if sstablesWithTombstones == [] {
      return [];
    }
    // Collections.min keeps the first of several smallest tables
    var smallest := sstablesWithTombstones[0];
    for i := 1 to |sstablesWithTombstones|
      invariant smallest in sstablesWithTombstones
      invariant forall j :: 0 <= j < i ==> smallest.size <= sstablesWithTombstones[j].size
    {
      if sstablesWithTombstones[i].size < smallest.size {
        smallest := sstablesWithTombstones[i];
      }
    }
    r := [smallest];
  }
}
