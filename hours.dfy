/** Business-hours masking: the per-store zone and weekly hours lookups with their
    defaults, and the open/closed predicate (src/services.py, lines 29-85). */
module BusinessHours {
  import opened Wrappers
  import opened Clock
  import opened Schema

  /** One open window on one local weekday; both ends inclusive. */
  datatype Interval = Interval(dayOfWeek: int, startTimeLocal: int, endTimeLocal: int)

  /** The zone assumed for a store with no zone record. */
  const DefaultTimezone: string := "America/Chicago"

  /** The end of the synthesised full day as the code writes it: `time(23, 59, 59)`. */
  const AsWrittenEndOfDay: int := TimeOf(23, 59, 59)

  /** The last representable local time of a day, `time.max` (23:59:59.999999). */
  const LastMicrosecondOfDay: int := MicrosPerDay - 1

  /** The zone of a store: the first stored record for it, else the default zone. */
  function GetStoreTimezone(rows: seq<TimezoneRow>, storeId: string): (tz: string)
    ensures (forall i :: 0 <= i < |rows| ==> rows[i].storeId != storeId) ==> tz == DefaultTimezone
    ensures forall i :: 0 <= i < |rows| && rows[i].storeId == storeId
                        && (forall j :: 0 <= j < i ==> rows[j].storeId != storeId)
                        ==> tz == rows[i].timezoneStr
  {
    if rows == [] then DefaultTimezone
    else if rows[0].storeId == storeId then rows[0].timezoneStr
    else
      var tz := GetStoreTimezone(rows[1..], storeId);
      assert forall i :: 1 <= i < |rows| ==> rows[1..][i - 1] == rows[i];
      tz
  }

  function AsInterval(row: BusinessHoursRow): Interval
  {
    Interval(row.dayOfWeek, row.startTimeLocal, row.endTimeLocal)
  }

  /** The stored intervals of a store, in storage order. */
  function StoredIntervals(rows: seq<BusinessHoursRow>, storeId: string): (r: seq<Interval>)
    ensures |r| <= |rows|
    ensures r == [] <==> forall i :: 0 <= i < |rows| ==> rows[i].storeId != storeId
    ensures forall iv :: iv in r <==> exists i :: 0 <= i < |rows| && rows[i].storeId == storeId && AsInterval(rows[i]) == iv
  {
    if rows == [] then []
    else
      var rest := StoredIntervals(rows[1..], storeId);
      assert forall i :: 1 <= i < |rows| ==> rows[1..][i - 1] == rows[i];
      if rows[0].storeId == storeId then [AsInterval(rows[0])] + rest else rest
  }

  /** Seven intervals, one per weekday 0..6, each from midnight to `endOfDay`. */
  function FullWeek(endOfDay: int): (r: seq<Interval>)
    ensures |r| == 7
    ensures forall d :: 0 <= d < 7 ==> r[d] == Interval(d, 0, endOfDay)
  {
    seq(7, d => Interval(d, 0, endOfDay))
  }

  /** The 24/7 default exactly as the code synthesises it (ends at 23:59:59). */
  function AsWrittenDefaultHours(): (r: seq<Interval>)
    ensures |r| == 7
    ensures forall d :: 0 <= d < 7 ==> r[d] == Interval(d, TimeOf(0, 0, 0), TimeOf(23, 59, 59))
  {
    FullWeek(AsWrittenEndOfDay)
  }

  /** The 24/7 default as intended: every local instant of every weekday. */
  function DefaultHours(): (r: seq<Interval>)
    ensures |r| == 7
    ensures forall d :: 0 <= d < 7 ==> r[d] == Interval(d, 0, MicrosPerDay - 1)
  {
    FullWeek(LastMicrosecondOfDay)
  }

  /** The hours of a store: its stored intervals, or, when it has none, the 24/7
      default exactly as the code synthesises it (ending at 23:59:59). */
  function GetBusinessHours(rows: seq<BusinessHoursRow>, storeId: string): (r: seq<Interval>)
    ensures r != []
    ensures (forall i :: 0 <= i < |rows| ==> rows[i].storeId != storeId) ==> r == AsWrittenDefaultHours()
    ensures (exists i :: 0 <= i < |rows| && rows[i].storeId == storeId) ==> r == StoredIntervals(rows, storeId)
  {
    var stored := StoredIntervals(rows, storeId);
    if stored != [] then stored else AsWrittenDefaultHours()
  }

  predicate Contains(iv: Interval, weekday: int, tod: int)
  {
    iv.dayOfWeek == weekday && iv.startTimeLocal <= tod <= iv.endTimeLocal
  }

  /** The interval scan of the open/closed check: true at the first interval on
      weekday `weekday` whose inclusive range contains `tod`; so true exactly when
      some interval contains it. */
  predicate MatchesAny(hours: seq<Interval>, weekday: int, tod: int)
    ensures MatchesAny(hours, weekday, tod) <==> exists i :: 0 <= i < |hours| && Contains(hours[i], weekday, tod)
  {
    if hours == [] then false
    else if Contains(hours[0], weekday, tod) then true
    else
      var rest := MatchesAny(hours[1..], weekday, tod);
      assert forall i :: 1 <= i < |hours| ==> hours[1..][i - 1] == hours[i];
      assert (exists i :: 0 <= i < |hours| && Contains(hours[i], weekday, tod))
             ==> exists i :: 0 <= i < |hours[1..]| && Contains(hours[1..][i], weekday, tod);
      rest
  }

  /** Whether the store is open at UTC instant `ts`: the instant is converted to local
      time in zone `tzStr`; the store is open when some interval on that local weekday
      contains the local time of day, both ends inclusive. An unresolvable zone fails open. */
  predicate IsStoreOpen(ts: int, hours: seq<Interval>, tzStr: string, zones: ZoneDb)
    ensures zones(tzStr).None? ==> IsStoreOpen(ts, hours, tzStr, zones)
    ensures zones(tzStr).Some? ==>
      var local := LocalInstant(ts, zones(tzStr).value);
      (IsStoreOpen(ts, hours, tzStr, zones) <==>
        exists i :: 0 <= i < |hours| && Contains(hours[i], Weekday(local), TimeOfDay(local)))
  {
    match zones(tzStr)
    case None => true
    case Some(offset) =>
      var local := LocalInstant(ts, offset);
      MatchesAny(hours, Weekday(local), TimeOfDay(local))
  }

  /** The intended 24/7 default makes every instant open, in every zone. */
  lemma DefaultHoursOpenAtEveryInstant(ts: int, tzStr: string, zones: ZoneDb)
    ensures IsStoreOpen(ts, DefaultHours(), tzStr, zones)
  {
    if zones(tzStr).Some? {
      var local := LocalInstant(ts, zones(tzStr).value);
      var d := Weekday(local);
      assert Contains(DefaultHours()[d], d, TimeOfDay(local));
    }
  }

  /** Under the default as written the store is open exactly when the zone fails to
      resolve or the local time of day is at most 23:59:59. */
  lemma AsWrittenDefaultOpenIff(ts: int, tzStr: string, zones: ZoneDb)
    ensures IsStoreOpen(ts, AsWrittenDefaultHours(), tzStr, zones)
            <==> zones(tzStr).None? || TimeOfDay(LocalInstant(ts, zones(tzStr).value)) <= AsWrittenEndOfDay
  {
    if zones(tzStr).Some? {
      var local := LocalInstant(ts, zones(tzStr).value);
      var d := Weekday(local);
      if TimeOfDay(local) <= AsWrittenEndOfDay {
        assert Contains(AsWrittenDefaultHours()[d], d, TimeOfDay(local));
      }
    }
  }

  /** What the default as written does guarantee: in a zone with whole-second offsets,
      every whole-second instant is open. */
  lemma AsWrittenDefaultOpenAtWholeSeconds(ts: int, tzStr: string, zones: ZoneDb)
    requires WholeSecondZone(zones, tzStr)
    requires ts % MicrosPerSecond == 0
    ensures IsStoreOpen(ts, AsWrittenDefaultHours(), tzStr, zones)
  {
    if zones(tzStr).Some? {
      var offset := zones(tzStr).value;
      WholeSecondSum(ts, offset(ts));
      WholeSecondTimeOfDay(LocalInstant(ts, offset));
    }
    AsWrittenDefaultOpenIff(ts, tzStr, zones);
  }

  /** The default as written reports closed any instant whose local time of day lies
      strictly after 23:59:59. */
  lemma AsWrittenDefaultClosedInLastSecond(ts: int, tzStr: string, zones: ZoneDb)
    requires zones(tzStr).Some?
    requires TimeOfDay(LocalInstant(ts, zones(tzStr).value)) > AsWrittenEndOfDay
    ensures !IsStoreOpen(ts, AsWrittenDefaultHours(), tzStr, zones)
  {
  }

  /** A concrete instance: in UTC, 1970-01-01 23:59:59.5 is closed under the as-written default. */
  lemma AsWrittenDefaultMissesHalfSecond()
    ensures !IsStoreOpen(TimeOf(23, 59, 59) + 500_000, AsWrittenDefaultHours(), "UTC", _ => Some(_ => 0))
  {
    AsWrittenDefaultClosedInLastSecond(TimeOf(23, 59, 59) + 500_000, "UTC", _ => Some(_ => 0));
  }
}
