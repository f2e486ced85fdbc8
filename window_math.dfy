/** The aligned time window that contains a timestamp (getWindowBoundsInMillis). */
module WindowMath {
  import opened Tables

  /** Length of one window unit in seconds; every unit other than minutes and hours
      takes the days case, as the `default` label of the switch does. */
  function UnitSeconds(unit: TimeUnit): int {
    match unit
    case Minutes => 60
    case Hours => 3600
    case _ => 86400
  }

  /** The window length `unitSeconds * windowTimeSize` is computed as a Java `int`:
      the model admits window sizes for which that product does not wrap around. */
  predicate WindowSizeOk(unit: TimeUnit, size: int) {
    1 <= size && UnitSeconds(unit) * size <= MaxInt
  }

  /** A window's length in seconds. */
  function WindowSeconds(unit: TimeUnit, size: int): (m: int)
    requires WindowSizeOk(unit, size)
    ensures m >= 60
  {
    UnitSeconds(unit) * size
  }

  /** Both bounds in milliseconds; `upper` is the first millisecond of the window's last second. */
  datatype Bounds = Bounds(lower: int, upper: int)

  function WindowBounds(unit: TimeUnit, size: int, timestampInMillis: int): Bounds
    requires WindowSizeOk(unit, size)
  {
    var timestampInSeconds := JavaDiv(timestampInMillis, 1000);
    var seconds := match unit
      case Minutes =>
        var lower := timestampInSeconds - JavaRem(timestampInSeconds, 60 * size);
        Bounds(lower, lower + 60 * (size - 1) + 59)
      case Hours =>
        var lower := timestampInSeconds - JavaRem(timestampInSeconds, 3600 * size);
        Bounds(lower, lower + 3600 * (size - 1) + 3599)
      case _ =>
        var lower := timestampInSeconds - JavaRem(timestampInSeconds, 86400 * size);
        Bounds(lower, lower + 86400 * (size - 1) + 86399);
    Bounds(seconds.lower * 1000, seconds.upper * 1000)
  }

  /** The three arms of the switch compute the same formula with their own unit. */
  lemma BoundsFormula(unit: TimeUnit, size: int, t: int)
    requires WindowSizeOk(unit, size)
    ensures var s := JavaDiv(t, 1000); var m := WindowSeconds(unit, size);
      && WindowBounds(unit, size, t).lower == (s - JavaRem(s, m)) * 1000
      && WindowBounds(unit, size, t).upper == (s - JavaRem(s, m) + m - 1) * 1000
  {
  }

  /** For a non-negative timestamp, floor division of milliseconds by the window length
      in milliseconds gives the window's index since the epoch. */
  lemma WindowIndex(unit: TimeUnit, size: int, t: int)
    requires WindowSizeOk(unit, size) && t >= 0
    ensures var m := WindowSeconds(unit, size);
      && WindowBounds(unit, size, t).lower == (t / (1000 * m)) * (1000 * m)
      && WindowBounds(unit, size, t).upper == (t / (1000 * m)) * (1000 * m) + (m - 1) * 1000
  {
    var m := WindowSeconds(unit, size);
    BoundsFormula(unit, size, t);
    assert JavaDiv(t, 1000) == t / 1000;
    assert JavaRem(t / 1000, m) == (t / 1000) % m;
    IndexArith(t, m);
  }

  /** `s - s % m`, scaled back to milliseconds, is the floor of `t` to a multiple of `1000 * m`. */
  lemma IndexArith(t: int, m: int)
    requires t >= 0 && m > 0
    ensures var s := t / 1000; (s - s % m) * 1000 == (t / (1000 * m)) * (1000 * m)
  {
    var s := t / 1000;
    assert s == (s / m) * m + s % m;
    DivDiv(t, 1000, m);
    assert (s / m) * m * 1000 == (s / m) * (1000 * m);
  }

  /** Dividing by `a` and then by `b` is dividing by `a * b`. */
  lemma DivDiv(t: int, a: int, b: int)
    requires t >= 0 && a > 0 && b > 0
    ensures (t / a) / b == t / (a * b)
  {
    var q0, r0 := t / a, t % a;
    var q, r1 := q0 / b, q0 % b;
    assert t == q0 * a + r0;
    assert q0 == q * b + r1;
    assert q0 * a == q * (a * b) + r1 * a;
    assert r1 * a <= (b - 1) * a by {
      MulMono(r1, b - 1, a);
    }
    assert (b - 1) * a == a * b - a;
    DivUnique(t, a * b, q, r1 * a + r0);
  }

  lemma MulMono(x: int, y: int, d: int)
    requires x <= y && d > 0
    ensures x * d <= y * d
  {
    Distrib(y, x, d);
    if x < y {
      MulAtLeast(y - x, d);
    }
  }

  lemma MulAtLeast(k: int, d: int)
    requires k >= 1 && d > 0
    ensures k * d >= d
  {
  }

  lemma Distrib(a: int, b: int, d: int)
    ensures a * d - b * d == (a - b) * d
  {
  }

  /** Euclidean division has unique quotient and remainder. */
  lemma DivUnique(x: int, d: int, q: int, r: int)
    requires d > 0 && x == q * d + r && 0 <= r < d
    ensures x / d == q && x % d == r
  {
    var q', r' := x / d, x % d;
    assert x == q' * d + r';
    Distrib(q, q', d);
    if q' < q {
      MulAtLeast(q - q', d);
    } else if q' > q {
      MulAtLeast(q' - q, d);
      Distrib(q', q, d);
    }
  }

  /** Distinct window indices give distinct lower bounds. */
  lemma MulInjective(q: int, q': int, d: int)
    requires d > 0 && q * d == q' * d
    ensures q == q'
  {
    if q < q' {
      MulAtLeast(q' - q, d);
      Distrib(q', q, d);
    } else if q > q' {
      MulAtLeast(q - q', d);
      Distrib(q, q', d);
    }
  }

  /** A timestamp lies between its window's lower bound and the last millisecond of its
      upper second, and the lower bound is a non-negative multiple of the window length. */
  lemma WindowContainsTimestamp(unit: TimeUnit, size: int, t: int)
    requires WindowSizeOk(unit, size) && t >= 0
    ensures var b := WindowBounds(unit, size, t); var m := WindowSeconds(unit, size);
      && b.lower <= t <= b.upper + 999
      && b.lower % (1000 * m) == 0
      && b.lower >= 0
  {
    var m := WindowSeconds(unit, size);
    WindowIndex(unit, size, t);
    FloorMultiple(t, 1000 * m);
  }

  /** `(t / d) * d` is a non-negative multiple of `d` within `d - 1` below `t`. */
  lemma FloorMultiple(t: int, d: int)
    requires t >= 0 && d > 0
    ensures var lower := (t / d) * d;
      && 0 <= lower <= t <= lower + d - 1
      && lower % d == 0
  {
    var q, r := t / d, t % d;
    assert t == q * d + r && 0 <= r < d;
    MulMono(0, q, d);
    DivUnique(q * d, d, q, 0);
  }

  /** Every window is `m` seconds wide: `upper - lower == (m - 1) * 1000`. */
  lemma WindowWidth(unit: TimeUnit, size: int, t: int)
    requires WindowSizeOk(unit, size)
    ensures var b := WindowBounds(unit, size, t);
      b.upper - b.lower == (WindowSeconds(unit, size) - 1) * 1000
  {
    BoundsFormula(unit, size, t);
  }

  /** Two non-negative timestamps share a window lower bound exactly when the second one
      lies within the first's window; windows neither overlap nor leave gaps. */
  lemma SameWindow(unit: TimeUnit, size: int, t: int, t': int)
    requires WindowSizeOk(unit, size) && t >= 0 && t' >= 0
    ensures var b := WindowBounds(unit, size, t);
      WindowBounds(unit, size, t').lower == b.lower <==> b.lower <= t' <= b.upper + 999
  {
    var m := WindowSeconds(unit, size);
    var d := 1000 * m;
    WindowIndex(unit, size, t);
    WindowIndex(unit, size, t');
    var q, q' := t / d, t' / d;
    var b := WindowBounds(unit, size, t);
    assert b.upper + 999 == q * d + d - 1;
    if q * d <= t' <= q * d + d - 1 {
      DivUnique(t', d, q, t' - q * d);
    }
    if q' * d == q * d {
      MulInjective(q', q, d);
      assert t' == q' * d + t' % d;
    }
  }

  /** Bounding a window's own lower bound yields the same window. */
  lemma WindowLowerIdempotent(unit: TimeUnit, size: int, t: int)
    requires WindowSizeOk(unit, size) && t >= 0
    ensures var lower := WindowBounds(unit, size, t).lower;
      WindowBounds(unit, size, lower).lower == lower
  {
    WindowContainsTimestamp(unit, size, t);
    WindowWidth(unit, size, t);
    var lower := WindowBounds(unit, size, t).lower;
    SameWindow(unit, size, t, lower);
  }

  /** The window one window length later starts 1000 ms after this window's `upper`,
      which is the start of this window's last second, not its last millisecond. */
  lemma NextWindowAdjacent(unit: TimeUnit, size: int, t: int)
    requires WindowSizeOk(unit, size) && t >= 0
    ensures var b := WindowBounds(unit, size, t);
      WindowBounds(unit, size, b.lower + WindowSeconds(unit, size) * 1000).lower == b.upper + 1000
  {
    var m := WindowSeconds(unit, size);
    var d := 1000 * m;
    WindowContainsTimestamp(unit, size, t);
    WindowIndex(unit, size, t);
    var next := WindowBounds(unit, size, t).lower + m * 1000;
    WindowIndex(unit, size, next);
    AdjacentArith(t / d, m);
  }

  /** One window length past a window index `q` is the start of window `q + 1`. */
  lemma AdjacentArith(q: int, m: int)
    requires m > 0
    ensures var d := 1000 * m; ((q * d + m * 1000) / d) * d == q * d + (m - 1) * 1000 + 1000
  {
    var d := 1000 * m;
    assert q * d + m * 1000 == (q + 1) * d;
    DivUnique((q + 1) * d, d, q + 1, 0);
  }
}
