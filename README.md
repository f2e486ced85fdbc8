# Time-window compaction selection, modelled in Dafny

This project models how Cassandra's `TimeWindowCompactionStrategy` picks the next tables to
compact. It also proves what the selection promises.

The strategy groups tables (sstables) into fixed, epoch-aligned time windows, keyed by each
table's maximum timestamp. It then scans the windows from newest to oldest:

- A current or future window with at least `minThreshold` tables is taken when the
  size-tiered sub-strategy picks some of its tables; the pick is the result.
- If no current or future window is taken first, the newest past window with at least two
  tables is taken. It is trimmed to its `maxThreshold` smallest tables, so it is kept whole
  only when it has at most `maxThreshold` tables.
- When no window qualifies, one tombstone-heavy table of minimum size is chosen on its own.

Fully expired tables are detected by a throttled check and appended to the result. The
strategy object keeps a registry of its tables, the time of the last expiry check and an
estimate of the pending tasks.

Modules:

- `Tables` (tables.dfy): table handles, time units, and Java's truncating `/` and `%`.
- `WindowMath` (window_math.dfy): `getWindowBoundsInMillis` as a function, with its
  containment, width, adjacency and idempotence lemmas.
- `Bucketing` (bucketing.dfy): `getBuckets` as a loop over a set-valued multimap. The
  multimap is modelled as `map<int, set<SSTable>>`. The loop is proved against the bucket
  map it must build.
- `Selection` (selection.dfy): `trimToThreshold` (an in-place sort of an array) and
  `newestBucket` (a descending scan of the window keys). It also holds the tombstone
  fallback of `getNextNonExpiredSSTables`.
- `Strategy` (strategy.dfy): the strategy class with its fields `sstables`,
  `lastExpiredCheck` and `estimatedRemainingTasks`, the estimator, and
  `getNextBackgroundSSTables`.

Interfaces to the environment:

- The clock (`System.currentTimeMillis`) is the parameter `now`.
- `isEnabled()` is the parameter `enabled`.
- The column family store is the value `ColumnFamily`: its tables, its uncompacting
  tables and its two thresholds.
- The size-tiered sub-selection (`SizeTieredCompactionStrategy.getBuckets` followed by
  `mostInterestingBucket`) is a function parameter. All that is assumed of it is that it
  returns tables of the bucket it is given (`Selection.SizeTieredContract`).
- `CompactionController.getFullyExpiredSSTables` is a function parameter. All that is
  assumed of it is that it returns a subset of the tables it is given
  (`Strategy.ExpiryContract`).
- The droppable-tombstone test `worthDroppingTombstones(sstable, gcBefore)` is the per-call
  function parameter `worthDropping`, applied to the call's `gcBefore`
  (`Tables.TombstoneTest`).
- The suspect mark is the per-call function parameter `suspect` (`Tables.SuspectMark`).
  Since both are read at every call, a table that becomes tombstone-heavy or suspect after
  it was registered is treated as the source treats it.

Java collections without a defined order are iterated in an arbitrary order: `HashSet`
and `HashMultimap` through `:|`, and `new ArrayList<>(set)` through `Selection.ListOf`.
The results of `trimToThreshold` and of the tombstone fallback are therefore specified
relationally, because tables of equal size may be chosen in either order.

Where the code and its documentation disagree, the model follows the code:

- The comment of `trimToThreshold` (line 316) promises the newest tables. The code sorts
  by on-disk size and keeps the smallest, and so does the model.
- When the store has no tables, `getNextBackgroundSSTables` returns before the estimator
  runs. The stored estimate is then left as it was, not reset to zero.

## Model

| member | source | states |
|---|---|---|
| Tables.JavaDivRem | Cassandra/src/java/org/apache/cassandra/db/compaction/TimeWindowCompactionStrategy.java:183-188 | Java's truncating quotient and remainder satisfy `q*b + r == a`, with the remainder smaller than `b` in magnitude and `r` carrying the sign of the dividend |
| WindowMath.WindowBounds | Cassandra/src/java/org/apache/cassandra/db/compaction/TimeWindowCompactionStrategy.java:179-204 | the window bounds as the switch computes them; it has no ensures of its own, and its properties are stated by the lemma rows that follow |
| WindowMath.BoundsFormula | Cassandra/src/java/org/apache/cassandra/db/compaction/TimeWindowCompactionStrategy.java:185-202 | the three switch arms compute one formula: lower = `(s - s % m) * 1000` and upper = `(s - s % m + m - 1) * 1000`, with `s = t / 1000` and `m` the window length in seconds |
| WindowMath.WindowIndex | Cassandra/src/java/org/apache/cassandra/db/compaction/TimeWindowCompactionStrategy.java:183-202 | for `t >= 0`, lower is `t` floored to a multiple of `1000*m`, and upper is that plus `(m-1)*1000` |
| WindowMath.WindowContainsTimestamp | Cassandra/src/java/org/apache/cassandra/db/compaction/TimeWindowCompactionStrategy.java:183-202 | for `t >= 0`: lower <= t <= upper + 999; lower is a non-negative multiple of the window length |
| WindowMath.WindowWidth | Cassandra/src/java/org/apache/cassandra/db/compaction/TimeWindowCompactionStrategy.java:188-202 | upper - lower == (m - 1) * 1000 ms for every timestamp |
| WindowMath.SameWindow | Cassandra/src/java/org/apache/cassandra/db/compaction/TimeWindowCompactionStrategy.java:183-202 | two timestamps share a lower bound iff the second lies in [lower, upper + 999] of the first; windows neither overlap nor leave gaps |
| WindowMath.WindowLowerIdempotent | Cassandra/src/java/org/apache/cassandra/db/compaction/TimeWindowCompactionStrategy.java:188-202 | bounding a window's lower bound yields the same lower bound |
| WindowMath.NextWindowAdjacent | Cassandra/src/java/org/apache/cassandra/db/compaction/TimeWindowCompactionStrategy.java:188-202 | the window at lower + m*1000 starts at upper + 1000, not upper + 1 |
| Bucketing.ToMillis | Cassandra/src/java/org/apache/cassandra/db/compaction/TimeWindowCompactionStrategy.java:226-234 | the rescaling of a max timestamp to milliseconds (micro /1000 and nano /1000000 truncating, seconds *1000, milliseconds unchanged); it has no ensures of its own, and its use is stated by Bucketing.GetBuckets, Bucketing.BucketsPartition and Bucketing.KeyContainsTimestamp |
| Bucketing.Put | Cassandra/src/java/org/apache/cassandra/db/compaction/TimeWindowCompactionStrategy.java:237 | HashMultimap.put adds the table under its key and changes no other key |
| Bucketing.BucketsInsert | Cassandra/src/java/org/apache/cassandra/db/compaction/TimeWindowCompactionStrategy.java:224-238 | filing one more table equals putting it under its own key into the buckets of the others |
| Bucketing.GetBuckets | Cassandra/src/java/org/apache/cassandra/db/compaction/TimeWindowCompactionStrategy.java:217-242 | the loop builds exactly the bucket map of the input: each table under the window lower bound of its rescaled max timestamp |
| Bucketing.BucketsPartition | Cassandra/src/java/org/apache/cassandra/db/compaction/TimeWindowCompactionStrategy.java:219-238 | every input table is under exactly one key, its own window key; every filed table is an input; no bucket is empty |
| Bucketing.KeyContainsTimestamp | Cassandra/src/java/org/apache/cassandra/db/compaction/TimeWindowCompactionStrategy.java:226-236 | after rescaling (micro /1000, nano /1000000, seconds *1000, millis unchanged), the key's window contains the table's timestamp |
| Selection.ListOf | Cassandra/src/java/org/apache/cassandra/db/compaction/TimeWindowCompactionStrategy.java:321 | copying a set to a list yields each of its tables exactly once |
| Selection.SortBySize | Cassandra/src/java/org/apache/cassandra/db/compaction/TimeWindowCompactionStrategy.java:324 | the array ends sorted ascending by size and is a permutation of the original |
| Selection.TrimToThreshold | Cassandra/src/java/org/apache/cassandra/db/compaction/TimeWindowCompactionStrategy.java:319-327 | result length is min(bucket size, maxThreshold); no duplicates; a subset of the bucket; sorted by size; every dropped table is at least as large as every kept one |
| Selection.TrimKeepsSmallBucket | Cassandra/src/java/org/apache/cassandra/db/compaction/TimeWindowCompactionStrategy.java:326 | a bucket of at most maxThreshold tables is kept whole |
| Selection.MaxKey | Cassandra/src/java/org/apache/cassandra/db/compaction/TimeWindowCompactionStrategy.java:282-287 | the descending iterator's next key is the largest remaining key |
| Selection.NewestBucket | Cassandra/src/java/org/apache/cassandra/db/compaction/TimeWindowCompactionStrategy.java:271-311 | the result comes from the newest key that stops the scan (current/future key: >= minThreshold tables and a non-empty size-tiered pick; past key: >= 2 tables, trimmed); if no key stops the scan, the result is empty |
| Selection.NewestBucketEmptyIff | Cassandra/src/java/org/apache/cassandra/db/compaction/TimeWindowCompactionStrategy.java:285-310 | with maxThreshold >= 1, the result is empty iff no key stops the scan |
| Selection.NewestBucketWithinOneBucket | Cassandra/src/java/org/apache/cassandra/db/compaction/TimeWindowCompactionStrategy.java:285-310 | a non-empty result is contained in a single bucket |
| Selection.NewestBucketPrefersNewest | Cassandra/src/java/org/apache/cassandra/db/compaction/TimeWindowCompactionStrategy.java:284-303 | the newest stopping key determines the result: the size-tiered pick for a current/future key, the trimmed bucket for a past key |
| Selection.TombstoneCandidate | Cassandra/src/java/org/apache/cassandra/db/compaction/TimeWindowCompactionStrategy.java:136-145 | empty when no table is worth dropping tombstones from at gcBefore; otherwise a singleton holding such an input table of minimum size |
| Strategy.EstimateBounds | Cassandra/src/java/org/apache/cassandra/db/compaction/TimeWindowCompactionStrategy.java:244-261 | the estimate is at most the number of windows, and an empty bucket map gives 0 |
| Strategy.NoEstimatedTaskMeansNoBucket | Cassandra/src/java/org/apache/cassandra/db/compaction/TimeWindowCompactionStrategy.java:252-259 | every window where newestBucket stops counts as a task, so an estimate of 0 means window selection returns nothing |
| Strategy.NonExpiredWithinTables | Cassandra/src/java/org/apache/cassandra/db/compaction/TimeWindowCompactionStrategy.java:125-146 | the non-expired selection returns only tables it was given |
| Strategy.ExpiredAvailable | Cassandra/src/java/org/apache/cassandra/db/compaction/TimeWindowCompactionStrategy.java:98-107 | whether or not the check is due, the expired set is among the registry's uncompacting tables |
| Strategy.BackgroundResultParts | Cassandra/src/java/org/apache/cassandra/db/compaction/TimeWindowCompactionStrategy.java:98-122 | the chosen and expired parts are disjoint; the chosen part holds no suspect table; every returned table is in the registry and uncompacting |
| Strategy.EmptyRegistryNoWork | Cassandra/src/java/org/apache/cassandra/db/compaction/TimeWindowCompactionStrategy.java:98-122 | with no registered uncompacting table, the result is empty |
| Strategy.TimeWindowCompactionStrategy.constructor | Cassandra/src/java/org/apache/cassandra/db/compaction/TimeWindowCompactionStrategy.java:53-57 | a new strategy has an empty registry and an estimate of 0 |
| Strategy.TimeWindowCompactionStrategy.AddSSTable | Cassandra/src/java/org/apache/cassandra/db/compaction/TimeWindowCompactionStrategy.java:164-167 | the registry gains the table and nothing else changes |
| Strategy.TimeWindowCompactionStrategy.RemoveSSTable | Cassandra/src/java/org/apache/cassandra/db/compaction/TimeWindowCompactionStrategy.java:170-173 | the registry loses the table and nothing else changes |
| Strategy.TimeWindowCompactionStrategy.GetEstimatedRemainingTasks | Cassandra/src/java/org/apache/cassandra/db/compaction/TimeWindowCompactionStrategy.java:358-361 | returns the stored estimate, which is never negative |
| Strategy.TimeWindowCompactionStrategy.UpdateEstimatedCompactionsByTasks | Cassandra/src/java/org/apache/cassandra/db/compaction/TimeWindowCompactionStrategy.java:244-261 | the estimate becomes the number of keys with (key >= nowKey and bucket size >= minThreshold) or (key < nowKey and bucket size >= 2) |
| Strategy.TimeWindowCompactionStrategy.GetCompactionCandidates | Cassandra/src/java/org/apache/cassandra/db/compaction/TimeWindowCompactionStrategy.java:148-161 | the estimate is recomputed from the buckets; the result is null (None) when newestBucket finds nothing, else its non-empty result |
| Strategy.TimeWindowCompactionStrategy.GetNextNonExpiredSSTables | Cassandra/src/java/org/apache/cassandra/db/compaction/TimeWindowCompactionStrategy.java:125-146 | the result is newestBucket's if non-empty; otherwise it is the tombstone fallback over the same tables at the call's gcBefore |
| Strategy.TimeWindowCompactionStrategy.GetNextBackgroundSSTables | Cassandra/src/java/org/apache/cassandra/db/compaction/TimeWindowCompactionStrategy.java:93-123 | disabled or empty store: empty result, no state change; otherwise expiry is consulted (and lastExpiredCheck set to now) iff now - lastExpiredCheck > frequency, and the result is the selection over non-suspect uncompacting tables minus expired, followed by every expired table once |

## Left out

- `getNextBackgroundTask` (lines 70-86): its retry loop ends only when the external tracker reserves the tables (`tryModify`), and it builds a `CompactionTask`. Both are outside this model.
- `getMaximalTask` and `getUserDefinedTask` (lines 331-356): reserving tables and building tasks is outside this model.
- The constructor's option parsing and its switching off of tombstone compactions (lines 57-64), and `validateOptions` (lines 369-378). The constructor takes an already-parsed `Options` value whose `Valid()` stands for what validation guarantees.
- `TimeWindowCompactionStrategyOptions` is not part of this model. `validTimestampTimeUnits` is taken as seconds, milliseconds, microseconds and nanoseconds (`Bucketing.ValidResolution`).
- Not modelled: logging, `toString` and `getMaxSSTableBytes`.
- `synchronized` and `volatile` are not modelled: the class is single-threaded.
- The clock is read several times in the source (lines 102, 106, 247 and 277). The model uses one `now` per call.
- The size-tiered sub-selection is abstract, with only its subset contract. So is the expiry computation, which has only `expiry(s, g) <= s`.
- The droppable-tombstone ratio (a floating-point comparison) is not modelled. `worthDropping` is a boolean function of a table and gcBefore.
- WindowMath.WindowBounds: requires `1 <= size` and `unitSeconds * size <= Integer.MAX_VALUE`, so the `int` products on lines 188, 192 and 197 do not wrap. A configuration that wraps is not modelled.
- WindowMath.WindowBounds: `long` arithmetic is unbounded in the model. The products `* 1000L` near `Long.MAX_VALUE` (line 202) and the seconds rescaling in `getBuckets` (line 232) are not wrapped.
- Selection.NewestBucket: `maxThreshold` is a `nat`. The source takes an `int`, and a negative value makes `Iterables.limit` throw.
- Selection.TrimToThreshold: ties in size may be kept in either order, as with `HashSet` iteration order. The result is specified up to that choice.
