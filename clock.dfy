/** Time as the estimator sees it. Instants are integer microseconds since
    1970-01-01T00:00:00 UTC (Python `datetime` has microsecond resolution, and the
    stored poll timestamps carry microseconds). A time zone is abstracted as a function
    giving, for each UTC instant, the offset of local civil time from UTC; the zone
    database maps a zone name to such a function, or to None when the name cannot be
    resolved (pytz raising `UnknownTimeZoneError`). */
module Clock {
  import opened Wrappers

  const MicrosPerSecond: int := 1_000_000
  const MicrosPerHour: int := 3600 * MicrosPerSecond
  const MicrosPerDay: int := 24 * MicrosPerHour
  const MicrosPerWeek: int := 7 * MicrosPerDay

  /** UTC instant -> offset (microseconds) of local time at that instant. */
  type Offset = int -> int

  /** Zone name -> its offset rule, or None when the name does not resolve. */
  type ZoneDb = string -> Option<Offset>

  /** A `datetime.time(h, m, s)` as microseconds since local midnight. */
  function TimeOf(h: int, m: int, s: int): int
  {
    ((h * 60 + m) * 60 + s) * MicrosPerSecond
  }

  /** Local civil time of a UTC instant, as microseconds since the local epoch. */
  function LocalInstant(utc: int, offset: Offset): int
  {
    utc + offset(utc)
  }

  /** Python's `weekday()` (Monday = 0) of a local instant; 1970-01-01 was a Thursday (3). */
  function Weekday(local: int): (d: int)
    ensures 0 <= d < 7
  {
    (local / MicrosPerDay + 3) % 7
  }

  /** Microseconds since local midnight. */
  function TimeOfDay(local: int): (t: int)
    ensures 0 <= t < MicrosPerDay
  {
    local % MicrosPerDay
  }

  /** A zone whose offsets are all whole seconds (every zone in the tz database today
      has whole-minute offsets). A zone that does not resolve qualifies trivially. */
  ghost predicate WholeSecondZone(zones: ZoneDb, name: string)
  {
    zones(name).Some? ==> forall t :: zones(name).value(t) % MicrosPerSecond == 0
  }

  /** A whole-second local instant has a whole-second time of day, so it is at most 23:59:59. */
  lemma WholeSecondTimeOfDay(local: int)
    requires local % MicrosPerSecond == 0
    ensures TimeOfDay(local) % MicrosPerSecond == 0
    ensures TimeOfDay(local) <= MicrosPerDay - MicrosPerSecond
  {
    var a := local / MicrosPerSecond;
    var q := local / MicrosPerDay;
    var tod := TimeOfDay(local);
    assert local == a * MicrosPerSecond;
    assert local == q * MicrosPerDay + tod;
    assert tod == (a - q * 86400) * MicrosPerSecond;
    var w := a - q * 86400;
    assert w < 86400 by {
      assert w * MicrosPerSecond < 86400 * MicrosPerSecond;
    }
  }

  /** Hourly steps from a whole-second instant stay on whole seconds. */
  lemma HourStepIsWholeSecond(start: int, t: int)
    requires start % MicrosPerSecond == 0
    requires (t - start) % MicrosPerHour == 0
    ensures t % MicrosPerSecond == 0
  {
    var m := (t - start) / MicrosPerHour;
    var a := start / MicrosPerSecond;
    assert t - start == m * MicrosPerHour;
    assert start == a * MicrosPerSecond;
    assert t == (a + 3600 * m) * MicrosPerSecond;
  }

  /** A sum of whole-second quantities is a whole second. */
  lemma WholeSecondSum(x: int, y: int)
    requires x % MicrosPerSecond == 0 && y % MicrosPerSecond == 0
    ensures (x + y) % MicrosPerSecond == 0
  {
    var a := x / MicrosPerSecond;
    var b := y / MicrosPerSecond;
    assert x == a * MicrosPerSecond;
    assert y == b * MicrosPerSecond;
    assert x + y == (a + b) * MicrosPerSecond;
  }
}
