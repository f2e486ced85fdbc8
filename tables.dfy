/** Table handles, time units and the Java integer operators the strategy relies on. */
module Tables {

  /** The constants of java.util.concurrent.TimeUnit. */
  datatype TimeUnit = Nanoseconds | Microseconds | Milliseconds | Seconds | Minutes | Hours | Days

  /** The fixed attributes of an on-disk table (an SSTableReader) that the strategy consults.
      Its droppable-tombstone test and its suspect mark change over time; they are read at
      each call through a `TombstoneTest` and a `SuspectMark`. */
  datatype SSTable = SSTable(id: nat, maxTimestamp: int, size: nat)

  /** `worthDroppingTombstones(sstable, gcBefore)`; the strategy's tombstone options and the
      table's statistics at the time of the call are captured in the function. */
  type TombstoneTest = (SSTable, int) -> bool

  /** `SSTableReader.isMarkedSuspect()` at the time of the call. */
  type SuspectMark = SSTable -> bool

  /** Integer.MAX_VALUE */
  const MaxInt: int := 0x7fff_ffff

  /** Java's `/` on positive divisors: the quotient is truncated toward zero. */
  function JavaDiv(a: int, b: int): int
    requires b > 0
  {
    if a >= 0 then a / b else -((-a) / b)
  }

  /** Java's `%` on positive divisors: the remainder takes the sign of the dividend. */
  function JavaRem(a: int, b: int): int
    requires b > 0
  {
    if a >= 0 then a % b else -((-a) % b)
  }

  /** The two operators agree with the Java Language Specification, section 15.17.3:
      `(a / b) * b + a % b == a`, the remainder is smaller than the divisor in magnitude
      and is never of the opposite sign to the dividend. */
  lemma JavaDivRem(a: int, b: int)
    requires b > 0
    ensures JavaDiv(a, b) * b + JavaRem(a, b) == a
    ensures -b < JavaRem(a, b) < b
    ensures a >= 0 ==> JavaRem(a, b) >= 0
    ensures a < 0 ==> JavaRem(a, b) <= 0
  {
    if a < 0 {
      var q, r := (-a) / b, (-a) % b;
      assert q * b + r == -a;
      assert JavaDiv(a, b) * b == -(q * b);
    }
  }

  function Elements<T>(s: seq<T>): set<T> {
    set x | x in s
  }

  predicate Distinct<T(==)>(s: seq<T>) {
    forall i, j :: 0 <= i < j < |s| ==> s[i] != s[j]
  }

  /** Ascending order of SSTableReader.SizeComparator (on-disk length). */
  predicate SortedBySize(s: seq<SSTable>) {
    forall i, j :: 0 <= i < j < |s| ==> s[i].size <= s[j].size
  }

  /** A non-empty set of integers has an element (stated through extensionality, which the
      solver needs to be pointed at). */
  lemma NonEmptyHasElement(s: set<int>)
    requires s != {}
    ensures exists x :: x in s
  {
    assert (forall x :: x !in s) ==> s == {};
  }

  function Min(a: int, b: int): int {
    if a <= b then a else b
  }

  /** A sequence without repetitions has as many elements as its set of elements. */
  lemma {:induction false} DistinctCardinality<T>(s: seq<T>)
    requires Distinct(s)
    ensures |Elements(s)| == |s|
  {
    if s != [] {
      var tail := s[1..];
      assert Distinct(tail) by {
        forall i, j | 0 <= i < j < |tail| ensures tail[i] != tail[j] {
          assert tail[i] == s[i + 1] && tail[j] == s[j + 1];
        }
      }
      DistinctCardinality(tail);
      assert s == [s[0]] + tail;
      assert Elements(s) == {s[0]} + Elements(tail);
      assert s[0] !in Elements(tail) by {
        forall k | 0 <= k < |tail| ensures tail[k] != s[0] {
          assert tail[k] == s[k + 1];
        }
      }
    }
  }
}
