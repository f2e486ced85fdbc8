/** Grouping tables by the window of their maximum timestamp (getBuckets). */
module Bucketing {
  import opened Tables
  import opened WindowMath

  /** The timestamp resolutions a strategy may be configured with
      (TimeWindowCompactionStrategyOptions.validTimestampTimeUnits). */
  predicate ValidResolution(resolution: TimeUnit) {
    resolution in {Seconds, Milliseconds, Microseconds, Nanoseconds}
  }

  /** A table's maximum timestamp rescaled from the configured resolution to milliseconds. */
  function ToMillis(timestamp: int, resolution: TimeUnit): int {
    match resolution
    case Microseconds => JavaDiv(timestamp, 1000)
    case Nanoseconds => JavaDiv(timestamp, 1000000)
    case Seconds => timestamp * 1000
    case _ => timestamp
  }

  /** The bucket a table belongs to: the lower bound of the window of its rescaled max timestamp. */
  function WindowKey(f: SSTable, unit: TimeUnit, size: int, resolution: TimeUnit): int
    requires WindowSizeOk(unit, size)
  {
    WindowBounds(unit, size, ToMillis(f.maxTimestamp, resolution)).lower
  }

  /** The key function of a strategy's window configuration. */
  function KeyOf(unit: TimeUnit, size: int, resolution: TimeUnit): SSTable -> int
    requires WindowSizeOk(unit, size)
  {
    f => WindowKey(f, unit, size, resolution)
  }

  /** A set-valued multimap filing every table under its key: each key present has the
      non-empty set of the tables filed under it. */
  ghost function BucketsBy(files: set<SSTable>, key: SSTable -> int): map<int, set<SSTable>> {
    var keys := set f | f in files :: key(f);
    map k | k in keys :: set f | f in files && key(f) == k
  }

  /** The bucket map getBuckets builds for a window configuration. */
  ghost function Buckets(files: set<SSTable>, unit: TimeUnit, size: int, resolution: TimeUnit): map<int, set<SSTable>>
    requires WindowSizeOk(unit, size)
  {
    BucketsBy(files, KeyOf(unit, size, resolution))
  }

  /** HashMultimap.put on the model of a set-valued multimap. */
  function Put(buckets: map<int, set<SSTable>>, key: int, f: SSTable): (r: map<int, set<SSTable>>)
    ensures r.Keys == buckets.Keys + {key}
    ensures f in r[key]
    ensures forall k :: k in r ==> r[k] == (if k in buckets then buckets[k] else {}) + (if k == key then {f} else {})
  {
    buckets[key := (if key in buckets then buckets[key] else {}) + {f}]
  }

  /** Filing one more table adds it under its own key and changes no other bucket. */
  lemma BucketsInsert(files: set<SSTable>, f: SSTable, key: SSTable -> int)
    ensures BucketsBy(files + {f}, key) == Put(BucketsBy(files, key), key(f), f)
  {
    var before := BucketsBy(files, key);
    var after := BucketsBy(files + {f}, key);
    var expected := Put(before, key(f), f);
    assert after.Keys == expected.Keys by {
      forall k | k in expected ensures k in after {
        if k != key(f) {
          var g :| g in files && key(g) == k;
        }
      }
    }
    forall k | k in after ensures after[k] == expected[k] {
    }
  }

  method GetBuckets(files: set<SSTable>, unit: TimeUnit, size: int, resolution: TimeUnit)
    returns (buckets: map<int, set<SSTable>>)
    requires WindowSizeOk(unit, size) && ValidResolution(resolution)
    ensures buckets == Buckets(files, unit, size, resolution)
  {
    buckets := map[];
    var rest := files;
    while rest != {}
      invariant rest <= files
      invariant buckets == Buckets(files - rest, unit, size, resolution)
      decreases rest
    {
      var f :| f in rest;
      var tStamp := ToMillis(f.maxTimestamp, resolution);
      var bounds := WindowBounds(unit, size, tStamp);
      BucketsInsert(files - rest, f, KeyOf(unit, size, resolution));
      buckets := Put(buckets, bounds.lower, f);
      assert files - rest + {f} == files - (rest - {f});
      rest := rest - {f};
    }
    assert files - rest == files;
  }

  /** Every table is filed under exactly one key, its own; every filed table is an input;
      no bucket is empty. */
  lemma BucketsByPartition(files: set<SSTable>, key: SSTable -> int)
    ensures var b := BucketsBy(files, key);
      && (forall f :: f in files ==> key(f) in b)
      && (forall f, k :: f in files && k in b ==> (f in b[k] <==> k == key(f)))
      && (forall k, f :: k in b && f in b[k] ==> f in files)
      && (forall k :: k in b ==> b[k] != {})
  {
    var b := BucketsBy(files, key);
    forall k | k in b ensures b[k] != {} {
      var g :| g in files && key(g) == k;
      assert g in b[k];
    }
  }

  /** getBuckets files every table under the lower bound of the window of its rescaled
      max timestamp and under no other key. */
  lemma BucketsPartition(files: set<SSTable>, unit: TimeUnit, size: int, resolution: TimeUnit)
    requires WindowSizeOk(unit, size)
    ensures var b := Buckets(files, unit, size, resolution);
      && (forall f :: f in files ==> WindowKey(f, unit, size, resolution) in b)
      && (forall f, k :: f in files && k in b ==> (f in b[k] <==> k == WindowKey(f, unit, size, resolution)))
      && (forall k, f :: k in b && f in b[k] ==> f in files)
      && (forall k :: k in b ==> b[k] != {})
  {
    BucketsByPartition(files, KeyOf(unit, size, resolution));
  }

  /** For a non-negative rescaled timestamp, the key contains the table's max timestamp
      (in milliseconds) within its window. */
  lemma KeyContainsTimestamp(f: SSTable, unit: TimeUnit, size: int, resolution: TimeUnit)
    requires WindowSizeOk(unit, size) && ToMillis(f.maxTimestamp, resolution) >= 0
    ensures var t := ToMillis(f.maxTimestamp, resolution);
      var b := WindowBounds(unit, size, t);
      WindowKey(f, unit, size, resolution) == b.lower <= t <= b.upper + 999
  {
    WindowContainsTimestamp(unit, size, ToMillis(f.maxTimestamp, resolution));
  }
}
