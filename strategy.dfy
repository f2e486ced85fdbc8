/** The strategy object: its registry of tables, the throttled expiry check, the estimator
    and one selection pass (getNextBackgroundSSTables and the methods it calls). */
module Strategy {
  import opened Tables
  import opened WindowMath
  import opened Bucketing
  import opened Selection

  datatype Option<T> = None | Some(value: T)

  /** The options the selection reads (TimeWindowCompactionStrategyOptions). */
  datatype Options = Options(sstableWindowUnit: TimeUnit, sstableWindowSize: int, timestampResolution: TimeUnit,
                             expiredSSTableCheckFrequency: int)
  {
    /** What option validation guarantees before a strategy is built. */
    predicate Valid() {
      WindowSizeOk(sstableWindowUnit, sstableWindowSize) && ValidResolution(timestampResolution)
    }
  }

  /** What the strategy reads of its column family store during one call: the live tables,
      those not being compacted, and the compaction thresholds. */
  datatype ColumnFamily = ColumnFamily(sstables: set<SSTable>, uncompacting: set<SSTable>,
                                       minimumCompactionThreshold: int, maximumCompactionThreshold: nat)

  /** CompactionController.getFullyExpiredSSTables on a candidate set at gcBefore; the store and
      its overlapping tables are fixed for the call and captured in the function. */
  type ExpiryOracle = (set<SSTable>, int) -> set<SSTable>

  /** All that is assumed of the expiry oracle: it reports some of the tables it is given. */
  ghost predicate ExpiryContract(expiry: ExpiryOracle) {
    forall candidates, gcBefore :: expiry(candidates, gcBefore) <= candidates
  }

  function NowKey(options: Options, now: int): int
    requires options.Valid()
  {
    WindowBounds(options.sstableWindowUnit, options.sstableWindowSize, now).lower
  }

  // ---------------------------------------------------------------- estimator

  /** A window counts as a pending task when it is current or future and holds at least
      minThreshold tables, or is past and holds at least two. */
  predicate CountsAsTask(key: int, bucketSize: int, nowKey: int, minThreshold: int) {
    (key >= nowKey && bucketSize >= minThreshold) || (key < nowKey && bucketSize >= 2)
  }

  /** The number of windows that count as pending tasks. */
  ghost function EstimatedTasks(buckets: map<int, set<SSTable>>, nowKey: int, minThreshold: int): nat {
    |set k | k in buckets && CountsAsTask(k, |buckets[k]|, nowKey, minThreshold)|
  }

  /** The estimate is at most the number of windows, and is zero for an empty bucket map. */
  lemma EstimateBounds(buckets: map<int, set<SSTable>>, nowKey: int, minThreshold: int)
    ensures EstimatedTasks(buckets, nowKey, minThreshold) <= |buckets|
    ensures buckets == map[] ==> EstimatedTasks(buckets, nowKey, minThreshold) == 0
  {
    var counted := set k | k in buckets && CountsAsTask(k, |buckets[k]|, nowKey, minThreshold);
    assert counted <= buckets.Keys;
    SubsetCardinality(counted, buckets.Keys);
  }

  lemma SubsetCardinality(a: set<int>, b: set<int>)
    requires a <= b
    ensures |a| <= |b|
  {
    assert b == a + (b - a);
  }

  /** Every window at which newestBucket stops counts as a task, so an estimate of zero
      means window selection finds nothing. */
  lemma NoEstimatedTaskMeansNoBucket(buckets: map<int, set<SSTable>>, nowKey: int, minThreshold: int, maxThreshold: nat,
                                     stcs: SizeTieredSelector, r: seq<SSTable>)
    requires EstimatedTasks(buckets, nowKey, minThreshold) == 0
    requires NewestBucketResult(buckets, nowKey, minThreshold, maxThreshold, stcs, r)
    ensures r == []
  {
    var counted := set k | k in buckets && CountsAsTask(k, |buckets[k]|, nowKey, minThreshold);
    assert counted == {};
    forall k | k in buckets ensures !Stops(buckets, k, nowKey, minThreshold, maxThreshold, stcs) {
      assert k !in counted;
    }
  }

  // ---------------------------------------------------------------- selection results

  /** What getNextNonExpiredSSTables returns for a set of tables: the newestBucket choice over
      their buckets when it is non-empty, otherwise the tombstone fallback. */
  ghost predicate NonExpiredResult(options: Options, tables: set<SSTable>, now: int, gcBefore: int, minThreshold: int,
                                   maxThreshold: nat, stcs: SizeTieredSelector, worthDropping: TombstoneTest, r: seq<SSTable>)
    requires options.Valid()
  {
    var buckets := Buckets(tables, options.sstableWindowUnit, options.sstableWindowSize, options.timestampResolution);
    var nowKey := NowKey(options, now);
    || (r != [] && NewestBucketResult(buckets, nowKey, minThreshold, maxThreshold, stcs, r))
    || (NewestBucketResult(buckets, nowKey, minThreshold, maxThreshold, stcs, []) && TombstoneResult(tables, worthDropping, gcBefore, r))
  }

  /** The selection only ever returns tables it was given. */
  lemma NonExpiredWithinTables(options: Options, tables: set<SSTable>, now: int, gcBefore: int, minThreshold: int,
                               maxThreshold: nat, stcs: SizeTieredSelector, worthDropping: TombstoneTest, r: seq<SSTable>)
    requires options.Valid() && SizeTieredContract(stcs)
    requires NonExpiredResult(options, tables, now, gcBefore, minThreshold, maxThreshold, stcs, worthDropping, r)
    ensures Elements(r) <= tables
  {
    var unit, size, resolution := options.sstableWindowUnit, options.sstableWindowSize, options.timestampResolution;
    var buckets := Buckets(tables, unit, size, resolution);
    if r != [] && NewestBucketResult(buckets, NowKey(options, now), minThreshold, maxThreshold, stcs, r) {
      NewestBucketWithinOneBucket(buckets, NowKey(options, now), minThreshold, maxThreshold, stcs, r);
      var key :| key in buckets && Elements(r) <= buckets[key];
      BucketsPartition(tables, unit, size, resolution);
    } else if r != [] {
      assert r[0] in tables;
      assert Elements(r) == {r[0]} by {
        assert r == [r[0]];
      }
    }
  }

  /** The registry tables that no other compaction holds (`Sets.intersection`). */
  function Uncompacting(registry: set<SSTable>, cfs: ColumnFamily): set<SSTable> {
    registry * cfs.uncompacting
  }

  /** The expiry check runs only when more than the configured interval has passed since the last one. */
  predicate ExpiryCheckDue(options: Options, lastExpiredCheck: int, now: int) {
    now - lastExpiredCheck > options.expiredSSTableCheckFrequency
  }

  function Expired(options: Options, registry: set<SSTable>, cfs: ColumnFamily, lastExpiredCheck: int, now: int,
                   gcBefore: int, expiry: ExpiryOracle): set<SSTable>
  {
    if ExpiryCheckDue(options, lastExpiredCheck, now) then expiry(Uncompacting(registry, cfs), gcBefore) else {}
  }

  /** `filterSuspectSSTables`: the tables not marked suspect. */
  function NonSuspect(tables: set<SSTable>, suspect: SuspectMark): set<SSTable> {
    set t | t in tables && !suspect(t)
  }

  /** The tables the selection runs over: the non-suspect available tables that did not expire. */
  function Candidates(available: set<SSTable>, suspect: SuspectMark, expired: set<SSTable>): set<SSTable> {
    NonSuspect(available, suspect) - expired
  }

  /** `r` is a selection over `candidates` followed by every table of `expired` once. */
  ghost predicate ChosenThenExpired(options: Options, candidates: set<SSTable>, expired: set<SSTable>, now: int,
                                    gcBefore: int, cfs: ColumnFamily, stcs: SizeTieredSelector,
                                    worthDropping: TombstoneTest, r: seq<SSTable>)
    requires options.Valid()
  {
    && |expired| <= |r|
    && NonExpiredResult(options, candidates, now, gcBefore, cfs.minimumCompactionThreshold,
                        cfs.maximumCompactionThreshold, stcs, worthDropping, r[..|r| - |expired|])
    && Distinct(r[|r| - |expired|..])
    && Elements(r[|r| - |expired|..]) == expired
  }

  /** What getNextBackgroundSSTables returns on an enabled strategy whose store has tables:
      the selection over the non-suspect uncompacting tables that did not expire, followed by
      every expired table once. */
  ghost predicate BackgroundResult(options: Options, registry: set<SSTable>, cfs: ColumnFamily, lastExpiredCheck: int,
                                   now: int, gcBefore: int, stcs: SizeTieredSelector, expiry: ExpiryOracle,
                                   worthDropping: TombstoneTest, suspect: SuspectMark, r: seq<SSTable>)
    requires options.Valid()
  {
    var expired := Expired(options, registry, cfs, lastExpiredCheck, now, gcBefore, expiry);
    ChosenThenExpired(options, Candidates(Uncompacting(registry, cfs), suspect, expired), expired, now, gcBefore, cfs,
                      stcs, worthDropping, r)
  }

  /** The chosen part of such a result lies in the candidates; the rest spells the expired set. */
  lemma ChosenThenExpiredSets(options: Options, candidates: set<SSTable>, expired: set<SSTable>, now: int,
                              gcBefore: int, cfs: ColumnFamily, stcs: SizeTieredSelector,
                              worthDropping: TombstoneTest, r: seq<SSTable>)
    requires options.Valid() && SizeTieredContract(stcs)
    requires ChosenThenExpired(options, candidates, expired, now, gcBefore, cfs, stcs, worthDropping, r)
    ensures |expired| <= |r|
    ensures Elements(r[..|r| - |expired|]) <= candidates && Elements(r[|r| - |expired|..]) == expired
  {
    NonExpiredWithinTables(options, candidates, now, gcBefore, cfs.minimumCompactionThreshold,
                           cfs.maximumCompactionThreshold, stcs, worthDropping, r[..|r| - |expired|]);
  }

  /** Whatever the expiry check reports is available. */
  lemma ExpiredAvailable(options: Options, registry: set<SSTable>, cfs: ColumnFamily, lastExpiredCheck: int,
                         now: int, gcBefore: int, expiry: ExpiryOracle)
    requires ExpiryContract(expiry)
    ensures Expired(options, registry, cfs, lastExpiredCheck, now, gcBefore, expiry) <= Uncompacting(registry, cfs)
  {
    if ExpiryCheckDue(options, lastExpiredCheck, now) {
      assert Expired(options, registry, cfs, lastExpiredCheck, now, gcBefore, expiry)
          == expiry(Uncompacting(registry, cfs), gcBefore);
    }
  }

  /** The chosen part and the expired part of a background result are disjoint, only the
      expired part may hold suspect tables, and every table returned is registered with the
      strategy and not held by another compaction. */
  lemma BackgroundResultParts(options: Options, registry: set<SSTable>, cfs: ColumnFamily, lastExpiredCheck: int,
                              now: int, gcBefore: int, stcs: SizeTieredSelector, expiry: ExpiryOracle,
                              worthDropping: TombstoneTest, suspect: SuspectMark, r: seq<SSTable>, chosen: nat)
    requires options.Valid() && SizeTieredContract(stcs) && ExpiryContract(expiry)
    requires BackgroundResult(options, registry, cfs, lastExpiredCheck, now, gcBefore, stcs, expiry, worthDropping, suspect, r)
    requires chosen == |r| - |Expired(options, registry, cfs, lastExpiredCheck, now, gcBefore, expiry)|
    ensures chosen <= |r|
    ensures Elements(r[..chosen]) !! Elements(r[chosen..])
    ensures forall t :: t in r[..chosen] ==> !suspect(t)
    ensures Elements(r) <= registry * cfs.uncompacting
  {
    var expired := Expired(options, registry, cfs, lastExpiredCheck, now, gcBefore, expiry);
    var available := Uncompacting(registry, cfs);
    ChosenThenExpiredSets(options, Candidates(available, suspect, expired), expired, now, gcBefore, cfs, stcs,
                          worthDropping, r);
    ExpiredAvailable(options, registry, cfs, lastExpiredCheck, now, gcBefore, expiry);
    SplitWithin(r, chosen, available, suspect, expired);
  }

  /** A sequence whose prefix lies in the non-suspect tables of `available` outside `expired`,
      and whose suffix spells `expired`, a subset of `available`, has disjoint parts, no
      suspect table in its prefix, and lies in `available`. */
  lemma SplitWithin(r: seq<SSTable>, n: nat, available: set<SSTable>, suspect: SuspectMark, expired: set<SSTable>)
    requires n <= |r|
    requires Elements(r[..n]) <= Candidates(available, suspect, expired)
    requires Elements(r[n..]) == expired && expired <= available
    ensures Elements(r[..n]) !! Elements(r[n..])
    ensures forall t :: t in r[..n] ==> !suspect(t)
    ensures Elements(r) <= available
  {
    assert r == r[..n] + r[n..];
    forall t | t in r ensures t in available {
      assert t in Elements(r[..n]) || t in Elements(r[n..]);
    }
    forall t | t in r[..n] ensures !suspect(t) {
      assert t in Elements(r[..n]);
    }
  }

  /** A registry with no available table yields no work: nothing is chosen and nothing expires. */
  lemma EmptyRegistryNoWork(options: Options, registry: set<SSTable>, cfs: ColumnFamily, lastExpiredCheck: int,
                            now: int, gcBefore: int, stcs: SizeTieredSelector, expiry: ExpiryOracle,
                            worthDropping: TombstoneTest, suspect: SuspectMark, r: seq<SSTable>)
    requires options.Valid() && ExpiryContract(expiry)
    requires Uncompacting(registry, cfs) == {}
    requires BackgroundResult(options, registry, cfs, lastExpiredCheck, now, gcBefore, stcs, expiry, worthDropping, suspect, r)
    ensures r == []
  {
    var expired := Expired(options, registry, cfs, lastExpiredCheck, now, gcBefore, expiry);
    assert expired == {} by {
      if ExpiryCheckDue(options, lastExpiredCheck, now) {
        assert expired <= {};
      }
    }
    assert Candidates(Uncompacting(registry, cfs), suspect, expired) == {};
    var buckets := Buckets({}, options.sstableWindowUnit, options.sstableWindowSize, options.timestampResolution);
    assert buckets == map[];
  }

  // ---------------------------------------------------------------- the strategy object

  class TimeWindowCompactionStrategy {
    const options: Options
    var estimatedRemainingTasks: int
    var sstables: set<SSTable>
    var lastExpiredCheck: int

    ghost predicate Valid()
      reads this
    {
      options.Valid() && estimatedRemainingTasks >= 0
    }

    constructor (options: Options)
      requires options.Valid()
      ensures Valid()
      ensures this.options == options
      ensures estimatedRemainingTasks == 0 && sstables == {} && lastExpiredCheck == 0
    {
      this.options := options;
      estimatedRemainingTasks := 0;
      sstables := {};
      lastExpiredCheck := 0;
    }

    method AddSSTable(sstable: SSTable)
      requires Valid()
      modifies this`sstables
      ensures Valid()
      ensures sstables == old(sstables) + {sstable}
    {
      sstables := sstables + {sstable};
    }

    method RemoveSSTable(sstable: SSTable)
      requires Valid()
      modifies this`sstables
      ensures Valid()
      ensures sstables == old(sstables) - {sstable}
    {
      sstables := sstables - {sstable};
    }

    /** The estimate last stored by the estimator; it is never negative. */
    function GetEstimatedRemainingTasks(): (n: int)
      reads this
      requires Valid()
      ensures n >= 0
    {
      estimatedRemainingTasks
    }

    method UpdateEstimatedCompactionsByTasks(tasks: map<int, set<SSTable>>, now: int, minThreshold: int)
      requires Valid()
      modifies this`estimatedRemainingTasks
      ensures Valid()
      ensures estimatedRemainingTasks == EstimatedTasks(tasks, NowKey(options, now), minThreshold)
    {
      var n := 0;
      var nowKey := WindowBounds(options.sstableWindowUnit, options.sstableWindowSize, now).lower;
      var keys := tasks.Keys;
      while keys != {}
        invariant keys <= tasks.Keys
        invariant n == |set k | k in tasks && k !in keys && CountsAsTask(k, |tasks[k]|, nowKey, minThreshold)|
        decreases keys
      {
        NonEmptyHasElement(keys);
        var key :| key in keys;
        ghost var before := set k | k in tasks && k !in keys && CountsAsTask(k, |tasks[k]|, nowKey, minThreshold);
        ghost var after := set k | k in tasks && k !in keys - {key} && CountsAsTask(k, |tasks[k]|, nowKey, minThreshold);
        if key >= nowKey && |tasks[key]| >= minThreshold {
          n := n + 1;
          assert after == before + {key};
        } else if key < nowKey && |tasks[key]| >= 2 {
          n := n + 1;
          assert after == before + {key};
        } else {
          assert after == before;
        }
        keys := keys - {key};
      }
      assert nowKey == NowKey(options, now);
      assert (set k | k in tasks && k !in keys && CountsAsTask(k, |tasks[k]|, nowKey, minThreshold))
          == (set k | k in tasks && CountsAsTask(k, |tasks[k]|, nowKey, minThreshold));
      estimatedRemainingTasks := n;
    }

    method GetCompactionCandidates(candidateSSTables: set<SSTable>, now: int, minThreshold: int, maxThreshold: nat,
                                   stcs: SizeTieredSelector)
      returns (mostInteresting: Option<seq<SSTable>>)
      requires Valid()
      modifies this`estimatedRemainingTasks
      ensures Valid()
      ensures var buckets := Buckets(candidateSSTables, options.sstableWindowUnit, options.sstableWindowSize,
                                     options.timestampResolution);
        && estimatedRemainingTasks == EstimatedTasks(buckets, NowKey(options, now), minThreshold)
        && match mostInteresting
           case None => NewestBucketResult(buckets, NowKey(options, now), minThreshold, maxThreshold, stcs, [])
           case Some(list) => list != [] && NewestBucketResult(buckets, NowKey(options, now), minThreshold, maxThreshold, stcs, list)
    {
      var buckets := GetBuckets(candidateSSTables, options.sstableWindowUnit, options.sstableWindowSize,
                                options.timestampResolution);
      UpdateEstimatedCompactionsByTasks(buckets, now, minThreshold);
      var list := NewestBucket(buckets, minThreshold, maxThreshold, options.sstableWindowUnit, options.sstableWindowSize,
                               stcs, now);
      if list != [] {
        return Some(list);
      }
      return None;
    }

    method GetNextNonExpiredSSTables(nonExpiringSSTables: set<SSTable>, gcBefore: int, now: int, minThreshold: int,
                                     maxThreshold: nat, stcs: SizeTieredSelector, worthDropping: TombstoneTest)
      returns (r: seq<SSTable>)
      requires Valid()
      modifies this`estimatedRemainingTasks
      ensures Valid()
      ensures estimatedRemainingTasks
           == EstimatedTasks(Buckets(nonExpiringSSTables, options.sstableWindowUnit, options.sstableWindowSize,
                                     options.timestampResolution), NowKey(options, now), minThreshold)
      ensures NonExpiredResult(options, nonExpiringSSTables, now, gcBefore, minThreshold, maxThreshold, stcs, worthDropping, r)
    {
      var mostInteresting := GetCompactionCandidates(nonExpiringSSTables, now, minThreshold, maxThreshold, stcs);
      if mostInteresting.Some? {
        return mostInteresting.value;
      }
      r := TombstoneCandidate(nonExpiringSSTables, worthDropping, gcBefore);
    }

    method GetNextBackgroundSSTables(gcBefore: int, now: int, enabled: bool, cfs: ColumnFamily,
                                     stcs: SizeTieredSelector, expiry: ExpiryOracle, worthDropping: TombstoneTest,
                                     suspect: SuspectMark)
      returns (r: seq<SSTable>)
      requires Valid()
      modifies this`lastExpiredCheck, this`estimatedRemainingTasks
      ensures Valid()
      ensures !enabled || cfs.sstables == {} ==>
        && r == []
        && lastExpiredCheck == old(lastExpiredCheck)
        && estimatedRemainingTasks == old(estimatedRemainingTasks)
      ensures enabled && cfs.sstables != {} ==>
        && BackgroundResult(options, sstables, cfs, old(lastExpiredCheck), now, gcBefore, stcs, expiry, worthDropping, suspect, r)
        && lastExpiredCheck == (if ExpiryCheckDue(options, old(lastExpiredCheck), now) then now else old(lastExpiredCheck))
        && estimatedRemainingTasks
           == EstimatedTasks(Buckets(Candidates(Uncompacting(sstables, cfs), suspect,
                                                Expired(options, sstables, cfs, old(lastExpiredCheck), now, gcBefore, expiry)),
                                     options.sstableWindowUnit, options.sstableWindowSize, options.timestampResolution),
                             NowKey(options, now), cfs.minimumCompactionThreshold)
    {
      if !enabled || cfs.sstables == {} {
        return [];
      }
      var uncompacting := sstables * cfs.uncompacting;
      var expired: set<SSTable> := {};
      if now - lastExpiredCheck > options.expiredSSTableCheckFrequency {
        expired := expiry(uncompacting, gcBefore);
        lastExpiredCheck := now;
      }
      assert expired == Expired(options, sstables, cfs, old(lastExpiredCheck), now, gcBefore, expiry);
      var candidates := NonSuspect(uncompacting, suspect);
      var compactionCandidates := GetNextNonExpiredSSTables(candidates - expired, gcBefore, now,
                                                            cfs.minimumCompactionThreshold,
                                                            cfs.maximumCompactionThreshold, stcs, worthDropping);
      ghost var chosen := compactionCandidates;
      var expiredList: seq<SSTable> := [];
      if expired != {} {
        expiredList := ListOf(expired);
        compactionCandidates := compactionCandidates + expiredList;
      }
      r := compactionCandidates;
      assert r == chosen + expiredList;
      assert |expiredList| == |expired|;
      assert r[..|r| - |expired|] == chosen && r[|r| - |expired|..] == expiredList;
    }
  }
}
