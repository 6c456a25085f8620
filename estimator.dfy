/** The uptime/downtime estimator for one store (src/services.py, lines 87-182):
    fetch the week's polls, keep those inside business hours, and extrapolate an
    active ratio over the hour (in minutes), the day and the week (in hours). */
module Estimator {
  import opened Wrappers
  import opened Seqs
  import opened Clock
  import opened Schema
  import opened BusinessHours

  /** A poll as the estimator keeps it after fetching (timestamp and status only). */
  datatype Sample = Sample(timestampUtc: int, status: string)

  /** The six-field result for one store. `round(..., 2)` is not applied: values are exact. */
  datatype Metrics = Metrics(
    storeId: string,
    uptimeLastHour: real, uptimeLastDay: real, uptimeLastWeek: real,
    downtimeLastHour: real, downtimeLastDay: real, downtimeLastWeek: real)

  /** Rows fetched per round trip of the collection loop. */
  const ChunkSize: nat := 1000

  /** The record the estimate starts from and returns on every early exit. */
  function ZeroMetrics(storeId: string): (m: Metrics)
    ensures m.storeId == storeId
    ensures m.uptimeLastHour == m.uptimeLastDay == m.uptimeLastWeek == 0.0
    ensures m.downtimeLastHour == m.downtimeLastDay == m.downtimeLastWeek == 0.0
  {
    Metrics(storeId, 0.0, 0.0, 0.0, 0.0, 0.0, 0.0)
  }

  // ---------------------------------------------------------------------------
  // The observation query: rows of one store in [lo, hi], ordered by timestamp.

  predicate SortedByTime(s: seq<StatusRow>)
  {
    forall i, j :: 0 <= i < j < |s| ==> s[i].timestampUtc <= s[j].timestampUtc
  }

  /** Prepending an element no later than every element keeps the order. */
  lemma SortedCons(h: StatusRow, s: seq<StatusRow>)
    requires SortedByTime(s)
    requires forall k :: 0 <= k < |s| ==> h.timestampUtc <= s[k].timestampUtc
    ensures SortedByTime([h] + s)
  {
    assert forall k :: 1 <= k <= |s| ==> ([h] + s)[k] == s[k - 1];
  }

  /** An element no later than `x` and than every element of `s` is no later than any
      element of a sequence holding exactly `s` and `x`. */
  lemma BoundAfterInsert(h: StatusRow, x: StatusRow, s: seq<StatusRow>, r: seq<StatusRow>)
    requires multiset(r) == multiset(s) + multiset{x}
    requires h.timestampUtc <= x.timestampUtc
    requires forall k :: 0 <= k < |s| ==> h.timestampUtc <= s[k].timestampUtc
    ensures forall k :: 0 <= k < |r| ==> h.timestampUtc <= r[k].timestampUtc
  {
    forall k | 0 <= k < |r|
      ensures h.timestampUtc <= r[k].timestampUtc
    {
      assert r[k] in multiset(r);
      if r[k] != x {
        assert r[k] in multiset(s);
        assert r[k] in s;
      }
    }
  }

  function InsertByTime(x: StatusRow, s: seq<StatusRow>): (r: seq<StatusRow>)
    requires SortedByTime(s)
    ensures SortedByTime(r)
    ensures multiset(r) == multiset(s) + multiset{x}
  {
    if s == [] then [x]
    else if x.timestampUtc < s[0].timestampUtc then
      SortedCons(x, s);
      [x] + s
    else
      var tail := s[1..];
      var rest := InsertByTime(x, tail);
      BoundAfterInsert(s[0], x, tail, rest);
      SortedCons(s[0], rest);
      assert s == [s[0]] + tail;
      [s[0]] + rest
  }

  function SortByTime(s: seq<StatusRow>): (r: seq<StatusRow>)
    ensures SortedByTime(r)
    ensures multiset(r) == multiset(s)
  {
    if s == [] then []
    else
      assert s == s[..|s| - 1] + [s[|s| - 1]];
      InsertByTime(s[|s| - 1], SortByTime(s[..|s| - 1]))
  }

  predicate InRange(row: StatusRow, storeId: string, lo: int, hi: int)
  {
    row.storeId == storeId && lo <= row.timestampUtc <= hi
  }

  /** `StoreStatus` rows with `store_id == storeId` and `lo <= timestamp_utc <= hi`, `ORDER BY timestamp_utc`. */
  function ObservationsInRange(rows: seq<StatusRow>, storeId: string, lo: int, hi: int): (r: seq<StatusRow>)
    ensures SortedByTime(r)
    ensures multiset(r) == multiset(Filter(row => InRange(row, storeId, lo, hi), rows))
    ensures forall row :: row in r <==> row in rows && InRange(row, storeId, lo, hi)
  {
    var matching := Filter(row => InRange(row, storeId, lo, hi), rows);
    var r := SortByTime(matching);
    assert forall row :: row in r <==> row in matching by {
      forall row
        ensures row in r <==> row in matching
      {
        assert row in r <==> row in multiset(r);
        assert row in matching <==> row in multiset(matching);
      }
    }
    r
  }

  /** The `{timestamp_utc, status}` projection of fetched rows. */
  function Project(rows: seq<StatusRow>): (r: seq<Sample>)
    ensures |r| == |rows|
    ensures forall i :: 0 <= i < |rows| ==> r[i] == Sample(rows[i].timestampUtc, rows[i].status)
  {
    seq(|rows|, i requires 0 <= i < |rows| => Sample(rows[i].timestampUtc, rows[i].status))
  }

  lemma ProjectConcat(a: seq<StatusRow>, b: seq<StatusRow>)
    ensures Project(a + b) == Project(a) + Project(b)
  {
    assert forall i :: 0 <= i < |a + b| ==> Project(a + b)[i] == (Project(a) + Project(b))[i];
  }

  /** The offset/limit loop: page through the ordered query result `ChunkSize` rows at a
      time until `offset` passes the row count. Every row is collected exactly once, in order. */
  method CollectRecords(query: seq<StatusRow>) returns (allData: seq<Sample>)
    ensures allData == Project(query)
  {
    var totalRecords := |query|;
    allData := [];
    var offset: nat := 0;
    while offset < totalRecords
      invariant allData == Project(query[..Min(offset, totalRecords)])
      decreases totalRecords - offset
    {
      var chunk := Page(query, offset, ChunkSize);
      var chunkData := Project(chunk);
      ProjectConcat(query[..offset], chunk);
      assert query[..offset] + chunk == query[..Min(offset + ChunkSize, totalRecords)];
      allData := allData + chunkData;
      offset := offset + ChunkSize;
    }
    assert query[..totalRecords] == query;
  }

  // ---------------------------------------------------------------------------
  // Masks and ratios.

  /** The business-hours mask: the samples at which the store is open, in order. */
  function BusinessMask(samples: seq<Sample>, hours: seq<Interval>, tzStr: string, zones: ZoneDb): (r: seq<Sample>)
    ensures forall x :: x in r <==> x in samples && IsStoreOpen(x.timestampUtc, hours, tzStr, zones)
  {
    Filter((x: Sample) => IsStoreOpen(x.timestampUtc, hours, tzStr, zones), samples)
  }

  /** The mask keeps the input order: masking a concatenation masks each part. */
  lemma BusinessMaskPreservesOrder(a: seq<Sample>, b: seq<Sample>, hours: seq<Interval>, tzStr: string, zones: ZoneDb)
    ensures BusinessMask(a + b, hours, tzStr, zones) == BusinessMask(a, hours, tzStr, zones) + BusinessMask(b, hours, tzStr, zones)
  {
    FilterConcat((x: Sample) => IsStoreOpen(x.timestampUtc, hours, tzStr, zones), a, b);
  }

  /** The samples with `timestamp_utc >= since`, in order. */
  function Since(samples: seq<Sample>, since: int): (r: seq<Sample>)
    ensures forall x :: x in r <==> x in samples && x.timestampUtc >= since
  {
    Filter((x: Sample) => x.timestampUtc >= since, samples)
  }

  predicate IsActive(x: Sample)
  {
    x.status == "active"
  }

  function ActiveCount(samples: seq<Sample>): (n: nat)
    ensures n <= |samples|
    ensures n == 0 <==> forall k :: 0 <= k < |samples| ==> !IsActive(samples[k])
  {
    var active := Filter(IsActive, samples);
    assert active == [] <==> forall k :: 0 <= k < |samples| ==> !IsActive(samples[k]) by {
      if active != [] {
        assert active[0] in active;
      }
      if exists k :: 0 <= k < |samples| && IsActive(samples[k]) {
        var k :| 0 <= k < |samples| && IsActive(samples[k]);
        assert samples[k] in active;
      }
    }
    |active|
  }

  /** `count / total` for `count <= total`, `total > 0`. */
  function Ratio(count: nat, total: nat): (r: real)
    requires count <= total && total > 0
    ensures 0.0 <= r <= 1.0
    ensures r * (total as real) == count as real
    ensures r == 1.0 <==> count == total
    ensures r == 0.0 <==> count == 0
  {
    var a := count as real;
    var n := total as real;
    RatioBounds(a, n);
    a / n
  }

  lemma RatioBounds(a: real, n: real)
    requires 0.0 <= a <= n && n > 0.0
    ensures 0.0 <= a / n <= 1.0
    ensures (a / n) * n == a
    ensures a / n == 1.0 <==> a == n
    ensures a / n == 0.0 <==> a == 0.0
  {
    var r := a / n;
    assert r * n == a;
  }

  /** `count(status == 'active') / count(all)` over a non-empty slice. */
  function ActiveRatio(samples: seq<Sample>): (r: real)
    requires samples != []
    ensures 0.0 <= r <= 1.0
    ensures r == 0.0 <==> ActiveCount(samples) == 0
    ensures r == 1.0 <==> ActiveCount(samples) == |samples|
    ensures r == (ActiveCount(samples) as real) / (|samples| as real)
  {
    Ratio(ActiveCount(samples), |samples|)
  }

  /** One window's (uptime, downtime): the active ratio of the slice scaled by the
      window's total, and the rest of the total; both 0 when the slice is empty. */
  function WindowEstimate(slice: seq<Sample>, total: real): (r: (real, real))
    requires total >= 0.0
    ensures slice == [] ==> r == (0.0, 0.0)
    ensures slice != [] ==> 0.0 <= r.0 <= total && r.0 + r.1 == total
    ensures slice != [] && ActiveCount(slice) == |slice| ==> r == (total, 0.0)
    ensures slice != [] && ActiveCount(slice) == 0 ==> r == (0.0, total)
  {
    if slice == [] then (0.0, 0.0)
    else
      var ratio := ActiveRatio(slice);
      assert 0.0 <= ratio <= 1.0 && (ActiveCount(slice) == |slice| ==> ratio == 1.0) && (ActiveCount(slice) == 0 ==> ratio == 0.0);
      ScaleBounds(ratio, total);
      (ratio * total, total - ratio * total)
  }

  lemma ScaleBounds(ratio: real, total: real)
    requires 0.0 <= ratio <= 1.0 && total >= 0.0
    ensures 0.0 <= ratio * total <= total
  {
    assert (1.0 - ratio) * total >= 0.0;
  }

  // ---------------------------------------------------------------------------
  // The hourly grid.

  /** Grid points `start + k hours <= end` (k >= 0) at which the store is open. */
  function OpenGridPoints(start: int, end: int, hours: seq<Interval>, tzStr: string, zones: ZoneDb): (n: nat)
    ensures n <= GridPoints(start, end)
    ensures start <= end && IsStoreOpen(start, hours, tzStr, zones) ==> n >= 1
    decreases end - start
  {
    if start > end then 0
    else (if IsStoreOpen(start, hours, tzStr, zones) then 1 else 0)
         + OpenGridPoints(start + MicrosPerHour, end, hours, tzStr, zones)
  }

  /** All grid points `start + k hours <= end` (k >= 0). */
  function GridPoints(start: int, end: int): (g: nat)
    ensures g == 0 <==> start > end
    decreases end - start
  {
    if start > end then 0 else 1 + GridPoints(start + MicrosPerHour, end)
  }

  lemma {:induction false} GridPointsFormula(start: int, end: int)
    requires start <= end
    ensures GridPoints(start, end) == (end - start) / MicrosPerHour + 1
    decreases end - start
  {
    if start + MicrosPerHour <= end {
      GridPointsFormula(start + MicrosPerHour, end);
      assert (end - start) / MicrosPerHour == (end - (start + MicrosPerHour)) / MicrosPerHour + 1;
    }
  }

  /** The open count lies between 0 and the number of grid points; it reaches it when
      the store is open at every grid point. */
  lemma {:induction false} OpenGridPointsBounds(start: int, end: int, hours: seq<Interval>, tzStr: string, zones: ZoneDb)
    ensures OpenGridPoints(start, end, hours, tzStr, zones) <= GridPoints(start, end)
    ensures (forall t :: start <= t <= end && (t - start) % MicrosPerHour == 0 ==> IsStoreOpen(t, hours, tzStr, zones)) ==>
              OpenGridPoints(start, end, hours, tzStr, zones) == GridPoints(start, end)
    decreases end - start
  {
    if start <= end {
      OpenGridPointsBounds(start + MicrosPerHour, end, hours, tzStr, zones);
      if forall t :: start <= t <= end && (t - start) % MicrosPerHour == 0 ==> IsStoreOpen(t, hours, tzStr, zones) {
        assert IsStoreOpen(start, hours, tzStr, zones);
        forall t | start + MicrosPerHour <= t <= end && (t - (start + MicrosPerHour)) % MicrosPerHour == 0
          ensures IsStoreOpen(t, hours, tzStr, zones)
        {
          assert (t - start) % MicrosPerHour == 0;
        }
      }
    }
  }

  /** The day window [now - 1 day, now] has 25 grid points and the week window 169. */
  lemma WindowGridSizes(now: int)
    ensures GridPoints(now - MicrosPerDay, now) == 25
    ensures GridPoints(now - MicrosPerWeek, now) == 169
  {
    GridPointsFormula(now - MicrosPerDay, now);
    GridPointsFormula(now - MicrosPerWeek, now);
  }

  /** The `while current <= end_time` loop counting open hourly grid points. */
  method CalculateBusinessHoursInRange(startTime: int, endTime: int, hours: seq<Interval>, tzStr: string, zones: ZoneDb)
    returns (hoursCount: nat)
    ensures hoursCount == OpenGridPoints(startTime, endTime, hours, tzStr, zones)
  {
    hoursCount := 0;
    var current := startTime;
    while current <= endTime
      invariant hoursCount + OpenGridPoints(current, endTime, hours, tzStr, zones)
                == OpenGridPoints(startTime, endTime, hours, tzStr, zones)
      decreases endTime - current
    {
      if IsStoreOpen(current, hours, tzStr, zones) {
        hoursCount := hoursCount + 1;
      }
      current := current + MicrosPerHour;
    }
  }

  // ---------------------------------------------------------------------------
  // The estimate.

  /** The business observations of a store for anchor `now`: its week's polls, in
      timestamp order, restricted to instants where the store is open. */
  function BusinessObservations(db: StoreDb, zones: ZoneDb, storeId: string, now: int): (r: seq<Sample>)
    ensures |r| <= |db.statuses|
  {
    var tzStr := GetStoreTimezone(db.timezones, storeId);
    var hours := GetBusinessHours(db.businessHours, storeId);
    var query := ObservationsInRange(db.statuses, storeId, now - MicrosPerWeek, now);
    assert |query| <= |db.statuses| by {
      var matching := Filter(row => InRange(row, storeId, now - MicrosPerWeek, now), db.statuses);
      assert |multiset(query)| == |multiset(matching)|;
    }
    BusinessMask(Project(query), hours, tzStr, zones)
  }

  /** Total business hours of the window [from, now] on the hourly grid. */
  function WindowTotal(db: StoreDb, zones: ZoneDb, storeId: string, from: int, now: int): (total: nat)
    ensures total <= GridPoints(from, now)
  {
    OpenGridPoints(from, now, GetBusinessHours(db.businessHours, storeId),
                   GetStoreTimezone(db.timezones, storeId), zones)
  }

  /** The estimate for one store at anchor `now`. The zone is resolved first; a name
      pytz cannot resolve raises, and the exception handler returns the zero record. */
  function Estimate(db: StoreDb, zones: ZoneDb, storeId: string, now: int): (m: Metrics)
    ensures m.storeId == storeId
  {
    var tzStr := GetStoreTimezone(db.timezones, storeId);
    if zones(tzStr).None? then ZeroMetrics(storeId)
    else if ObservationsInRange(db.statuses, storeId, now - MicrosPerWeek, now) == [] then ZeroMetrics(storeId)
    else EstimateFromMask(storeId, BusinessObservations(db, zones, storeId, now), now,
                          WindowTotal(db, zones, storeId, now - MicrosPerDay, now),
                          WindowTotal(db, zones, storeId, now - MicrosPerWeek, now))
  }

  /** The three windows computed from the business observations and the day's and
      week's open grid hours; the zero record when there are no business observations. */
  function EstimateFromMask(storeId: string, business: seq<Sample>, now: int, dayTotal: nat, weekTotal: nat): (m: Metrics)
    ensures m.storeId == storeId
  {
    if business == [] then ZeroMetrics(storeId)
    else
      var hour := WindowEstimate(Since(business, now - MicrosPerHour), 60.0);
      var day := WindowEstimate(Since(business, now - MicrosPerDay), dayTotal as real);
      var week := WindowEstimate(business, weekTotal as real);
      Metrics(storeId, hour.0, day.0, week.0, hour.1, day.1, week.1)
  }

  /** `calculate_uptime_downtime`: the steps of the source, in order, with the result
      fields assigned one window at a time. */
  method CalculateUptimeDowntime(storeId: string, currentTime: int, db: StoreDb, zones: ZoneDb)
    returns (result: Metrics)
    ensures result == Estimate(db, zones, storeId, currentTime)
  {
    var tzStr := GetStoreTimezone(db.timezones, storeId);
    if zones(tzStr).None? {
      // pytz.timezone raises: the handler returns the zero record.
      return ZeroMetrics(storeId);
    }
    var businessHours := GetBusinessHours(db.businessHours, storeId);
    var hourAgo := currentTime - MicrosPerHour;
    var dayAgo := currentTime - MicrosPerDay;
    var weekAgo := currentTime - MicrosPerWeek;
    result := ZeroMetrics(storeId);
    var chunkQuery := ObservationsInRange(db.statuses, storeId, weekAgo, currentTime);
    if |chunkQuery| == 0 {
      return;
    }
    var allData := CollectRecords(chunkQuery);
    var businessData := BusinessMask(allData, businessHours, tzStr, zones);
    assert businessData == BusinessObservations(db, zones, storeId, currentTime);
    ghost var dayTotal := WindowTotal(db, zones, storeId, dayAgo, currentTime);
    ghost var weekTotal := WindowTotal(db, zones, storeId, weekAgo, currentTime);
    if businessData == [] {
      return;
    }
    var hourData := Since(businessData, hourAgo);
    if hourData != [] {
      var hour := WindowEstimate(hourData, 60.0);
      result := result.(uptimeLastHour := hour.0, downtimeLastHour := hour.1);
    }
    var dayData := Since(businessData, dayAgo);
    if dayData != [] {
      var totalBusinessHours := CalculateBusinessHoursInRange(dayAgo, currentTime, businessHours, tzStr, zones);
      var day := WindowEstimate(dayData, totalBusinessHours as real);
      result := result.(uptimeLastDay := day.0, downtimeLastDay := day.1);
    }
    if businessData != [] {
      var totalBusinessHours := CalculateBusinessHoursInRange(weekAgo, currentTime, businessHours, tzStr, zones);
      var week := WindowEstimate(businessData, totalBusinessHours as real);
      result := result.(uptimeLastWeek := week.0, downtimeLastWeek := week.1);
    }
    assert result == EstimateFromMask(storeId, businessData, currentTime, dayTotal, weekTotal);
  }

  // ---------------------------------------------------------------------------
  // Properties of the estimate.

  lemma ProjectMembership(rows: seq<StatusRow>, x: Sample)
    requires x in Project(rows)
    ensures exists i :: 0 <= i < |rows| && x == Sample(rows[i].timestampUtc, rows[i].status)
  {
    var k :| 0 <= k < |Project(rows)| && Project(rows)[k] == x;
  }

  /** Every business observation is a poll of the store inside [now - 7 days, now] at which the store is open. */
  lemma BusinessObservationsSound(db: StoreDb, zones: ZoneDb, storeId: string, now: int, x: Sample)
    requires x in BusinessObservations(db, zones, storeId, now)
    ensures now - MicrosPerWeek <= x.timestampUtc <= now
    ensures IsStoreOpen(x.timestampUtc, GetBusinessHours(db.businessHours, storeId),
                        GetStoreTimezone(db.timezones, storeId), zones)
    ensures exists i :: 0 <= i < |db.statuses| && db.statuses[i].storeId == storeId
                        && db.statuses[i].timestampUtc == x.timestampUtc && db.statuses[i].status == x.status
  {
    var query := ObservationsInRange(db.statuses, storeId, now - MicrosPerWeek, now);
    ProjectMembership(query, x);
    var i :| 0 <= i < |query| && x == Sample(query[i].timestampUtc, query[i].status);
    assert query[i] in query;
    var j :| 0 <= j < |db.statuses| && db.statuses[j] == query[i];
  }

  /** The three cases in which the whole record is zero: the zone does not resolve, no
      poll of the store lies in [now - 7 days, now], or none of those polls is in business hours. */
  lemma EstimateZeroCases(db: StoreDb, zones: ZoneDb, storeId: string, now: int)
    ensures zones(GetStoreTimezone(db.timezones, storeId)).None? ==> Estimate(db, zones, storeId, now) == ZeroMetrics(storeId)
    ensures (forall i :: 0 <= i < |db.statuses| && db.statuses[i].storeId == storeId ==>
               db.statuses[i].timestampUtc < now - MicrosPerWeek || db.statuses[i].timestampUtc > now)
            ==> Estimate(db, zones, storeId, now) == ZeroMetrics(storeId)
    ensures (forall i :: 0 <= i < |db.statuses| && InRange(db.statuses[i], storeId, now - MicrosPerWeek, now) ==>
               !IsStoreOpen(db.statuses[i].timestampUtc, GetBusinessHours(db.businessHours, storeId),
                            GetStoreTimezone(db.timezones, storeId), zones))
            ==> Estimate(db, zones, storeId, now) == ZeroMetrics(storeId)
  {
    var query := ObservationsInRange(db.statuses, storeId, now - MicrosPerWeek, now);
    var business := BusinessObservations(db, zones, storeId, now);
    if query != [] {
      assert query[0] in query;
      var j :| 0 <= j < |db.statuses| && db.statuses[j] == query[0];
    }
    if business != [] {
      BusinessObservationsSound(db, zones, storeId, now, business[0]);
      var x := business[0];
      var i :| 0 <= i < |db.statuses| && db.statuses[i].storeId == storeId
               && db.statuses[i].timestampUtc == x.timestampUtc && db.statuses[i].status == x.status;
      assert InRange(db.statuses[i], storeId, now - MicrosPerWeek, now);
    }
  }

  /** The mask is non-empty exactly when the estimate takes its computing path; the
      week slice is the whole mask, and the slices are nested: hour within day within week. */
  lemma SlicesNested(db: StoreDb, zones: ZoneDb, storeId: string, now: int)
    ensures var business := BusinessObservations(db, zones, storeId, now);
            && Since(business, now - MicrosPerWeek) == business
            && Since(Since(business, now - MicrosPerDay), now - MicrosPerHour) == Since(business, now - MicrosPerHour)
            && (Since(business, now - MicrosPerHour) != [] ==> Since(business, now - MicrosPerDay) != [])
  {
    var business := BusinessObservations(db, zones, storeId, now);
    forall k | 0 <= k < |business|
      ensures business[k].timestampUtc >= now - MicrosPerWeek
    {
      assert business[k] in business;
      BusinessObservationsSound(db, zones, storeId, now, business[k]);
    }
    FilterAll((x: Sample) => x.timestampUtc >= now - MicrosPerWeek, business);
    FilterNested((x: Sample) => x.timestampUtc >= now - MicrosPerHour,
                 (x: Sample) => x.timestampUtc >= now - MicrosPerDay, business);
    var hour := Since(business, now - MicrosPerHour);
    if hour != [] {
      assert hour[0] in hour;
      assert hour[0] in Since(business, now - MicrosPerDay);
    }
  }

  /** Hour window: with a business observation in [now - 1 hour, now], the uptime is
      60 minutes times the active ratio, lies in [0, 60], and uptime + downtime = 60;
      without one both stay 0. */
  lemma EstimateHourWindow(db: StoreDb, zones: ZoneDb, storeId: string, now: int)
    requires zones(GetStoreTimezone(db.timezones, storeId)).Some?
    ensures var m := Estimate(db, zones, storeId, now);
            var hour := Since(BusinessObservations(db, zones, storeId, now), now - MicrosPerHour);
            && (hour != [] ==> m.uptimeLastHour == ActiveRatio(hour) * 60.0
                               && 0.0 <= m.uptimeLastHour <= 60.0
                               && m.uptimeLastHour + m.downtimeLastHour == 60.0)
            && (hour == [] ==> m.uptimeLastHour == 0.0 && m.downtimeLastHour == 0.0)
  {
    EstimateZeroCases(db, zones, storeId, now);
    var business := BusinessObservations(db, zones, storeId, now);
    if business == [] {
      assert Since(business, now - MicrosPerHour) == [];
    }
    var query := ObservationsInRange(db.statuses, storeId, now - MicrosPerWeek, now);
    if query == [] {
      assert business == [];
    }
  }

  /** Day window: with a business observation in the last day, the uptime is the active
      ratio times the day's grid count of open hours, lies in [0, total], and uptime +
      downtime = total, where total <= 25; without one both stay 0. */
  lemma EstimateDayWindow(db: StoreDb, zones: ZoneDb, storeId: string, now: int)
    requires zones(GetStoreTimezone(db.timezones, storeId)).Some?
    ensures var m := Estimate(db, zones, storeId, now);
            var day := Since(BusinessObservations(db, zones, storeId, now), now - MicrosPerDay);
            var total := WindowTotal(db, zones, storeId, now - MicrosPerDay, now);
            && total <= 25
            && (day != [] ==> m.uptimeLastDay == ActiveRatio(day) * total as real
                              && 0.0 <= m.uptimeLastDay <= total as real
                              && m.uptimeLastDay + m.downtimeLastDay == total as real)
            && (day == [] ==> m.uptimeLastDay == 0.0 && m.downtimeLastDay == 0.0)
  {
    EstimateZeroCases(db, zones, storeId, now);
    WindowGridSizes(now);
    OpenGridPointsBounds(now - MicrosPerDay, now, GetBusinessHours(db.businessHours, storeId),
                         GetStoreTimezone(db.timezones, storeId), zones);
    var business := BusinessObservations(db, zones, storeId, now);
    if business == [] {
      assert Since(business, now - MicrosPerDay) == [];
    }
    var query := ObservationsInRange(db.statuses, storeId, now - MicrosPerWeek, now);
    if query == [] {
      assert business == [];
    }
  }

  /** Week window: once the mask is non-empty the week is always computed: the uptime is
      the active ratio of the whole mask times the week's grid count, lies in [0, total],
      and uptime + downtime = total, where total <= 169. */
  lemma EstimateWeekWindow(db: StoreDb, zones: ZoneDb, storeId: string, now: int)
    requires zones(GetStoreTimezone(db.timezones, storeId)).Some?
    ensures var m := Estimate(db, zones, storeId, now);
            var business := BusinessObservations(db, zones, storeId, now);
            var total := WindowTotal(db, zones, storeId, now - MicrosPerWeek, now);
            && total <= 169
            && (business != [] ==> m.uptimeLastWeek == ActiveRatio(business) * total as real
                                   && 0.0 <= m.uptimeLastWeek <= total as real
                                   && m.uptimeLastWeek + m.downtimeLastWeek == total as real)
            && (business == [] ==> m == ZeroMetrics(storeId))
  {
    EstimateZeroCases(db, zones, storeId, now);
    WindowGridSizes(now);
    OpenGridPointsBounds(now - MicrosPerWeek, now, GetBusinessHours(db.businessHours, storeId),
                         GetStoreTimezone(db.timezones, storeId), zones);
    var business := BusinessObservations(db, zones, storeId, now);
    var query := ObservationsInRange(db.statuses, storeId, now - MicrosPerWeek, now);
    if query == [] {
      assert business == [];
    }
  }

  lemma AllActive(db: StoreDb, zones: ZoneDb, storeId: string, now: int, slice: seq<Sample>)
    requires forall i :: 0 <= i < |db.statuses| && InRange(db.statuses[i], storeId, now - MicrosPerWeek, now) ==>
               db.statuses[i].status == "active"
    requires forall x :: x in slice ==> x in BusinessObservations(db, zones, storeId, now)
    ensures ActiveCount(slice) == |slice|
  {
    forall k | 0 <= k < |slice|
      ensures IsActive(slice[k])
    {
      assert slice[k] in slice;
      BusinessObservationsSound(db, zones, storeId, now, slice[k]);
    }
    FilterAll(IsActive, slice);
  }

  /** With no stored hours, a zone with whole-second offsets and a whole-second anchor,
      every hourly grid point of a window ending at the anchor is open. */
  lemma DefaultHoursOpenOnGrid(db: StoreDb, zones: ZoneDb, storeId: string, start: int, end: int)
    requires forall i :: 0 <= i < |db.businessHours| ==> db.businessHours[i].storeId != storeId
    requires WholeSecondZone(zones, GetStoreTimezone(db.timezones, storeId))
    requires start % MicrosPerSecond == 0
    ensures OpenGridPoints(start, end, GetBusinessHours(db.businessHours, storeId),
                           GetStoreTimezone(db.timezones, storeId), zones) == GridPoints(start, end)
  {
    var tzStr := GetStoreTimezone(db.timezones, storeId);
    var hours := GetBusinessHours(db.businessHours, storeId);
    assert hours == AsWrittenDefaultHours();
    forall t | start <= t <= end && (t - start) % MicrosPerHour == 0
      ensures IsStoreOpen(t, hours, tzStr, zones)
    {
      HourStepIsWholeSecond(start, t);
      AsWrittenDefaultOpenAtWholeSeconds(t, tzStr, zones);
    }
    OpenGridPointsBounds(start, end, hours, tzStr, zones);
  }

  /** With no stored hours, a zone with whole-second offsets and a whole-second anchor,
      the day and week totals are the full grid counts. */
  lemma AlwaysOpenTotals(db: StoreDb, zones: ZoneDb, storeId: string, now: int)
    requires forall i :: 0 <= i < |db.businessHours| ==> db.businessHours[i].storeId != storeId
    requires WholeSecondZone(zones, GetStoreTimezone(db.timezones, storeId))
    requires now % MicrosPerSecond == 0
    ensures WindowTotal(db, zones, storeId, now - MicrosPerDay, now) == 25
    ensures WindowTotal(db, zones, storeId, now - MicrosPerWeek, now) == 169
  {
    WindowGridSizes(now);
    HourStepIsWholeSecond(now, now - MicrosPerDay);
    HourStepIsWholeSecond(now, now - MicrosPerWeek);
    DefaultHoursOpenOnGrid(db, zones, storeId, now - MicrosPerDay, now);
    DefaultHoursOpenOnGrid(db, zones, storeId, now - MicrosPerWeek, now);
  }

  /** With no stored hours, a zone with whole-second offsets and a stored poll in the
      last hour at a whole second, that poll is a business observation of the hour slice. */
  lemma LastHourPollIsBusiness(db: StoreDb, zones: ZoneDb, storeId: string, now: int)
    requires forall i :: 0 <= i < |db.businessHours| ==> db.businessHours[i].storeId != storeId
    requires WholeSecondZone(zones, GetStoreTimezone(db.timezones, storeId))
    requires exists i :: 0 <= i < |db.statuses| && InRange(db.statuses[i], storeId, now - MicrosPerHour, now)
                         && db.statuses[i].timestampUtc % MicrosPerSecond == 0
    ensures Since(BusinessObservations(db, zones, storeId, now), now - MicrosPerHour) != []
    ensures Since(BusinessObservations(db, zones, storeId, now), now - MicrosPerDay) != []
  {
    var tzStr := GetStoreTimezone(db.timezones, storeId);
    var hours := GetBusinessHours(db.businessHours, storeId);
    assert hours == AsWrittenDefaultHours();
    var i :| 0 <= i < |db.statuses| && InRange(db.statuses[i], storeId, now - MicrosPerHour, now)
             && db.statuses[i].timestampUtc % MicrosPerSecond == 0;
    var row := db.statuses[i];
    var query := ObservationsInRange(db.statuses, storeId, now - MicrosPerWeek, now);
    assert row in query;
    var k :| 0 <= k < |query| && query[k] == row;
    var x := Project(query)[k];
    assert x in Project(query);
    AsWrittenDefaultOpenAtWholeSeconds(x.timestampUtc, tzStr, zones);
    var business := BusinessObservations(db, zones, storeId, now);
    assert x in business;
    assert x in Since(business, now - MicrosPerHour);
    assert x in Since(business, now - MicrosPerDay);
  }

  /** A store with no stored hours (so on the 24/7 default) whose polls of the week are
      all active, with one in the last hour, is reported fully up: 60 minutes in the
      hour, and the full grid counts of 25 and 169 hours in the day and the week. The
      default as written ends at 23:59:59, so this needs a zone with whole-second
      offsets, a whole-second anchor and a whole-second poll in the last hour. */
  lemma AlwaysOpenAllActiveStore(db: StoreDb, zones: ZoneDb, storeId: string, now: int)
    requires forall i :: 0 <= i < |db.businessHours| ==> db.businessHours[i].storeId != storeId
    requires zones(GetStoreTimezone(db.timezones, storeId)).Some?
    requires WholeSecondZone(zones, GetStoreTimezone(db.timezones, storeId))
    requires now % MicrosPerSecond == 0
    requires exists i :: 0 <= i < |db.statuses| && InRange(db.statuses[i], storeId, now - MicrosPerHour, now)
                         && db.statuses[i].timestampUtc % MicrosPerSecond == 0
    requires forall i :: 0 <= i < |db.statuses| && InRange(db.statuses[i], storeId, now - MicrosPerWeek, now) ==>
               db.statuses[i].status == "active"
    ensures Estimate(db, zones, storeId, now)
            == Metrics(storeId, 60.0, 25.0, 169.0, 0.0, 0.0, 0.0)
  {
    var tzStr := GetStoreTimezone(db.timezones, storeId);
    var hours := GetBusinessHours(db.businessHours, storeId);
    var business := BusinessObservations(db, zones, storeId, now);
    var hour := Since(business, now - MicrosPerHour);
    var day := Since(business, now - MicrosPerDay);
    var dayTotal := WindowTotal(db, zones, storeId, now - MicrosPerDay, now);
    var weekTotal := WindowTotal(db, zones, storeId, now - MicrosPerWeek, now);
    AlwaysOpenTotals(db, zones, storeId, now);
    assert dayTotal == 25 && weekTotal == 169;
    LastHourPollIsBusiness(db, zones, storeId, now);
    assert hour != [] && day != [] && business != [];
    AllActive(db, zones, storeId, now, hour);
    AllActive(db, zones, storeId, now, day);
    AllActive(db, zones, storeId, now, business);
    assert ActiveRatio(hour) == 1.0 && ActiveRatio(day) == 1.0 && ActiveRatio(business) == 1.0;
    EstimateHourWindow(db, zones, storeId, now);
    EstimateDayWindow(db, zones, storeId, now);
    EstimateWeekWindow(db, zones, storeId, now);
  }

  /** The default as written at the estimate level: a store with no hours and no zone
      record, in a zone at offset 0, whose only poll is active at 1970-01-08 23:59:59.5
      UTC, is reported all zero at that instant, because the poll falls after 23:59:59. */
  lemma AsWrittenDefaultDropsLastSecondPoll()
    ensures var t := 7 * MicrosPerDay + TimeOf(23, 59, 59) + 500_000;
            Estimate(StoreDb([StatusRow("S", t, "active")], [], []), _ => Some(_ => 0), "S", t)
            == ZeroMetrics("S")
  {
    var t := 7 * MicrosPerDay + TimeOf(23, 59, 59) + 500_000;
    var db := StoreDb([StatusRow("S", t, "active")], [], []);
    var zones: ZoneDb := _ => Some(_ => 0);
    assert GetStoreTimezone(db.timezones, "S") == DefaultTimezone;
    assert GetBusinessHours(db.businessHours, "S") == AsWrittenDefaultHours();
    AsWrittenDefaultClosedInLastSecond(t, DefaultTimezone, zones);
    EstimateZeroCases(db, zones, "S", t);
  }
}
