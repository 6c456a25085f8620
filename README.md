# Restaurant monitoring: uptime/downtime estimation, in Dafny

This project models the core of a restaurant-monitoring service. For each store, the
service estimates how long the store was up and down during business hours over the
last hour (in minutes), the last day and the last week (in hours). It works from sparse
status polls, the store's weekly business hours and its time zone. Reports are produced
by a background job whose record moves from `Running` to `Complete` or `Error`. Clients
poll that record until the CSV report is ready.

Modules, leaf first:

- `Wrappers`: `Option`.
- `Seqs`: filtering (the pandas boolean masks), SQL `OFFSET/LIMIT` paging, `DISTINCT`, fixed-size batches.
- `Clock`: instants, zones, local weekday and time of day.
- `Schema`: the stored rows (`store_status`, `business_hours`, `timezone`, `report_status`).
- `BusinessHours`: the zone and hours lookups with their defaults, and `is_store_open`.
- `Estimator`: the observation query, the paging loop, the mask, the hourly-grid count loop and `calculate_uptime_downtime`.
- `ReportJob`: `get_max_timestamp`, `get_report_status`, the distinct store ids, the batch loop, and the job table with its report files as a class updated in place.
- `Api`: the `trigger_report` and `get_report` endpoints.

Modelling choices:

- Instants are integer microseconds since the epoch. Python's `datetime` and `time` have microsecond resolution, and the stored poll timestamps carry microseconds.
- A zone is a function from a UTC instant to the local offset at that instant. The zone database maps a name to such a function, or to `None` when `pytz` cannot resolve the name.
- Local weekday is `(local / day + 3) % 7` (Monday is 0; 1970-01-01 was a Thursday). Time of day is `local % day`.
- Results are exact reals, and `round(..., 2)` is not applied. So each window's uptime + downtime equals its total exactly.
- The job table is a `map` from report id to record. The report directory is a `map` from path to the written table (header and rows).
- `uuid.uuid4()`, `datetime.utcnow()` and a failure while writing the report are parameters.

Three places where the code does less than its names and messages suggest. The model follows the code in each:

- Nothing in `trigger_report_generation` checks the job's current status before it writes `Complete` (src/services.py:220) or `Error` (src/services.py:230). Running the generation again on a finished job rewrites that job's record, and `ReportJob.ReportRegistry.TriggerReportGeneration` does the same.
- `is_store_open` fails open: its handler returns `True` (src/services.py:83-85), and `BusinessHours.IsStoreOpen` is true for a zone that does not resolve. But `calculate_uptime_downtime` resolves the zone itself first (src/services.py:91), and a failure there raises. So a store whose zone cannot be resolved gets the all-zero record (`Estimator.EstimateZeroCases`), and the fail-open case is never reached from the estimator.
- The log line at src/services.py:51 says "assuming 24/7 operation". The synthesised hours end each day at `time(23, 59, 59)`, so local times strictly after 23:59:59 are closed (23:59:59.000000 itself is open). The whole model, the estimator included, uses this default as written (`BusinessHours.AsWrittenDefaultHours`). What it does guarantee is proved separately: every whole-second instant is open in a zone with whole-second offsets. See Findings.

## Model

| member | source | states |
|---|---|---|
| `BusinessHours.GetStoreTimezone` | src/services.py:29-37 | with no zone record for the store the zone is `America/Chicago`; otherwise it is the zone of the store's first record |
| `BusinessHours.StoredIntervals` | src/services.py:41-50 | the store's stored intervals: empty iff the store has no rows, and an interval is present iff some row of that store carries it |
| `BusinessHours.FullWeek` | src/services.py:52-59 | the synthesised week has exactly seven intervals; interval d is weekday d, from midnight to the given end of day |
| `BusinessHours.AsWrittenDefaultHours` | src/services.py:52-59 | the source's own default: seven intervals, interval d is weekday d from `time(0, 0)` to `time(23, 59, 59)` |
| `BusinessHours.DefaultHours` | src/services.py:51-59 | the corrected default of the Finding: seven intervals, interval d is weekday d from midnight to `time.max` (23:59:59.999999) |
| `BusinessHours.GetBusinessHours` | src/services.py:39-69 | never empty; with no stored rows it is the 24/7 default exactly as written (seven intervals 00:00:00-23:59:59); otherwise it is the stored intervals |
| `BusinessHours.MatchesAny` | src/services.py:76-82 | the early-return interval scan is true iff some interval has the local weekday and `start <= time of day <= end` (both ends inclusive, so an interval with start > end never matches) |
| `BusinessHours.IsStoreOpen` | src/services.py:71-85 | true whenever the zone does not resolve (fail-open); otherwise true iff some interval on the local weekday contains the local time of day |
| `BusinessHours.DefaultHoursOpenAtEveryInstant` | src/services.py:51-59 | the corrected default `DefaultHours` (days ending at `time.max`), which the code does not use, is open at every instant in every zone, as the log at line 51 promises |
| `BusinessHours.AsWrittenDefaultOpenIff` | src/services.py:51-82 | under the default as written the store is open iff the zone does not resolve or the local time of day is at most 23:59:59 |
| `BusinessHours.AsWrittenDefaultOpenAtWholeSeconds` | src/services.py:51-82 | under the default as written, every whole-second instant is open in a zone whose offsets are whole seconds |
| `BusinessHours.AsWrittenDefaultClosedInLastSecond` | src/services.py:51-59 | under the default as written, any instant whose local time of day is after 23:59:59 is reported closed |
| `BusinessHours.AsWrittenDefaultMissesHalfSecond` | src/services.py:55-56 | concrete case: 1970-01-01 23:59:59.5 UTC is closed under the written default |
| `Clock.Weekday` | src/services.py:75 | the local weekday lies in 0..6 |
| `Estimator.ObservationsInRange` | src/services.py:105-109 | the query result is ordered by timestamp, is a permutation of the store's rows in `[lo, hi]`, and holds a row iff it is stored, of that store and in range |
| `Seqs.Page` | src/services.py:117 | `OFFSET o LIMIT l` is the slice `[o, min(o + l, n))`, and it is empty once the offset reaches the end |
| `Estimator.CollectRecords` | src/services.py:110-126 | the offset/limit loop collects every row of the ordered query exactly once, in order |
| `Estimator.Project` | src/services.py:118-124 | one `{timestamp_utc, status}` record per fetched row, in the same order |
| `Estimator.BusinessMask` | src/services.py:127-131 | a poll is kept iff it was fetched and the store is open at its timestamp |
| `Estimator.BusinessObservations` | src/services.py:90-131 | the store's business observations for anchor `now` (zone, hours, week query, paging and mask); there are never more than stored polls |
| `Estimator.BusinessMaskPreservesOrder` | src/services.py:127-131 | masking keeps the input order: the mask of a concatenation is the concatenation of the masks |
| `Estimator.Since` | src/services.py:135-140 | the slice holds a sample iff it is in the mask and its timestamp is at least the bound |
| `Estimator.ActiveCount` | src/services.py:137-149 | the count of `active` polls is at most the slice length, and 0 iff no poll of the slice is active |
| `Estimator.ActiveRatio` | src/services.py:137-149 | the ratio is the active count over the slice length, lies in [0, 1], is 0 iff none is active and 1 iff all are |
| `Seqs.FilterConcat` | src/services.py:131 | a boolean mask keeps the input order |
| `Estimator.Ratio` | src/services.py:137 | the active ratio lies in [0, 1]; times the count of polls it gives the active count; it is 1 when all are active and 0 when none are |
| `Estimator.WindowEstimate` | src/services.py:135-154 | an empty slice leaves both fields 0; otherwise 0 <= uptime <= total and uptime + downtime = total; all active gives (total, 0) and none active gives (0, total) |
| `Estimator.CalculateBusinessHoursInRange` | src/services.py:170-179 | the counting loop returns the number of hourly grid points `start + k h <= end` at which the store is open |
| `Estimator.OpenGridPoints` | src/services.py:170-179 | the closed form of the counting loop: the open grid points of `[start, end]`, at most the number of grid points, and at least 1 when the window is non-empty and the store is open at its start |
| `Estimator.GridPoints` | src/services.py:170-179 | the number of hourly grid points of `[start, end]`, which is 0 iff the window is empty |
| `Estimator.OpenGridPointsBounds` | src/services.py:170-179 | the open count is at most the number of grid points, and equals it when the store is open at every grid point `start + k h <= end` |
| `Estimator.GridPointsFormula` | src/services.py:175-178 | `[s, e]` holds `floor((e - s) / 1 h) + 1` hourly grid points |
| `Estimator.WindowGridSizes` | src/services.py:93-95 | the day window `[now - 1 d, now]` has 25 grid points and the week window has 169 |
| `Estimator.WindowTotal` | src/services.py:143-152 | the business-hours total passed to a window, the open grid count of `[from, now]`, at most its grid size |
| `Estimator.ZeroMetrics` | src/services.py:96-104 | the starting record and the record of every early exit and of the exception handler (lines 160-168): the store id with all six values 0 |
| `Estimator.EstimateFromMask` | src/services.py:132-154 | from a non-empty mask, the three window assignments; an empty mask gives the zero record; the record carries the store id |
| `Estimator.AlwaysOpenTotals` | src/services.py:143-152 | for a store with no stored hours, in a zone with whole-second offsets and at a whole-second anchor, the day total is 25 grid hours and the week total is 169 |
| `Estimator.CalculateUptimeDowntime` | src/services.py:87-168 | the method computes exactly the estimate `Estimator.Estimate`, whose windows, zero cases and totals the lemmas below characterise |
| `Estimator.Estimate` | src/services.py:87-168 | the record always carries the requested store id |
| `Estimator.BusinessObservationsSound` | src/services.py:105-131 | every business observation is a stored poll of the store, inside `[now - 7 d, now]`, at which the store is open |
| `Estimator.EstimateZeroCases` | src/services.py:91-134 | the record is all zero when the zone does not resolve, when the store has no poll in `[now - 7 d, now]`, or when none of those polls is in business hours |
| `Estimator.SlicesNested` | src/services.py:135-149 | the week slice is the whole mask; the hour slice is the hour filter of the day slice; a non-empty hour slice implies a non-empty day slice |
| `Estimator.EstimateHourWindow` | src/services.py:135-139 | with a business poll in the last hour: uptime = 60 x active ratio, within [0, 60], and uptime + downtime = 60; otherwise both are 0 |
| `Estimator.EstimateDayWindow` | src/services.py:140-147 | with a business poll in the last day: uptime = active ratio x open grid hours of the day, within [0, total], and uptime + downtime = total <= 25; otherwise both are 0 |
| `Estimator.EstimateWeekWindow` | src/services.py:148-154 | once the mask is non-empty the week is always computed: uptime = ratio x open grid hours of the week, within [0, total], and uptime + downtime = total <= 169 |
| `Estimator.AlwaysOpenAllActiveStore` | src/services.py:135-154 | a store with no stored hours whose week polls are all active, one of them at a whole second in the last hour, reports 60 minutes, 25 hours and 169 hours up and nothing down, when the anchor and the zone's offsets are whole seconds |
| `Estimator.DefaultHoursOpenOnGrid` | src/services.py:170-179 | for a store with no stored hours, in a zone with whole-second offsets, every hourly grid point from a whole-second start is open, so the open count is the full grid count |
| `Estimator.AsWrittenDefaultDropsLastSecondPoll` | src/services.py:80-134 | concrete case: a store with no hours, at offset 0, whose only poll is active at 1970-01-08 23:59:59.5 UTC, is reported all zero at that instant |
| `ReportJob.GetReportStatus` | src/services.py:16-17 | finds a record iff one is stored under the id, and returns that record |
| `ReportJob.MaxTimestamp` | src/services.py:21 | `None` iff there is no poll; otherwise the timestamp of some poll, and no poll is later |
| `ReportJob.GetMaxTimestamp` | src/services.py:19-27 | the report's "now" is the newest poll timestamp, or the wall clock when there are no polls |
| `ReportJob.DistinctStoreIds` | src/services.py:190 | every stored store id appears, nothing else does, and no id appears twice |
| `Seqs.BatchesPartition` | src/services.py:194-195 | batches of 100 are non-empty, at most 100 long, and together give back the full id list |
| `Seqs.BatchAt` | src/services.py:194-195 | batch k is the slice `[k * size, min(k * size + size, n))`, the slice the loop takes at `i = k * size` |
| `ReportJob.ReportRowsMatchIds` | src/services.py:194-199 | row k of the report belongs to store id k |
| `ReportJob.ReportRows` | src/services.py:193-199 | the `results` list: one row per store id, row k being the estimate of id k at the report's anchor |
| `ReportJob.GenerateRows` | src/services.py:192-201 | the nested batch loop yields one row per store id in enumeration order, each the store's estimate |
| `ReportJob.ReportPath` | src/services.py:202 | the report path is `reports/` + id + `.csv`, and the id can be read back from it |
| `ReportJob.ReportPathInjective` | src/services.py:202 | distinct jobs write distinct files |
| `ReportJob.ReportRegistry.constructor` | src/database.py:33-39 | the job table (`report_status`) and the report directory start empty, and so consistent |
| `ReportJob.ReportRegistry.Valid` | src/database.py:33-39 | the job-table invariant: every record is `Consistent` |
| `ReportJob.Consistent` | src/services.py:218-222 | a record sits under its own report id, a Running job has no completion time, and a Complete job has one and its file `reports/{id}.csv` exists |
| `ReportJob.ReportRegistry.TriggerReportGeneration` | src/services.py:184-233 | on success writes the file `reports/{id}.csv` (the seven-field header of lines 205-213 and all rows) and marks the job `Complete` with its completion time; on a write failure marks it `Error` and leaves `completed_at` and the files alone; with no such job the table is unchanged; no other job changes; the table stays consistent |
| `Api.TriggerReport` | src/main.py:36-48 | adds exactly one record, under the fresh id, with status `Running`, and returns that id; a duplicate id gives 500 and changes nothing |
| `Api.GetReport` | src/main.py:50-76 | 404 "not found" iff the id is unknown; `Running` iff the job is Running; the file iff the job is Complete and the file exists; a distinct 404 "Report file not found" iff Complete without the file; 500 iff the status is neither Running nor Complete, with "Unknown report status" for anything other than Error |
| `Api.CompleteJobHasArtifact` | src/main.py:60-71 | in a consistent job table "Report file not found" cannot be the answer |
| `Api.TriggerAndGenerate` | src/main.py:36-45 | trigger, then background run: a poll answers Running before the run, and the file (or the generation error) after it; earlier jobs are untouched |

## Left out

- Estimator.CalculateUptimeDowntime: `round(..., 2)` is not modelled. The six values are exact reals, and the downtime is the total minus the unrounded uptime.
- Estimator.WindowEstimate: same; the rounding of uptime and downtime to two decimals is not modelled.
- Estimator.EstimateZeroCases: of the exceptions that produce the all-zero record, only the unresolvable zone is modelled. Database errors cannot happen in the model, because the stored tables are values.
- Estimator.CalculateBusinessHoursInRange: the exception handler that returns 24 is not modelled. `is_store_open` catches its own errors, and the only other failure is a `datetime` overflow past year 9999.
- BusinessHours.IsStoreOpen: DST and the IANA rules are reduced to an offset function per zone. Conversion errors for a zone that does resolve are not modelled.
- BusinessHours.GetStoreTimezone, BusinessHours.GetBusinessHours, ReportJob.GetMaxTimestamp: the database-error handlers are not modelled. They return the same default as an absent record, or the wall clock.
- ReportJob.DistinctStoreIds: SQL leaves the order of `DISTINCT` unspecified. The model uses order of first appearance in the stored table.
- Estimator.ObservationsInRange: polls with equal timestamps keep their storage order (a stable sort). Every page is assumed to see the same order.
- ReportJob.ReportRegistry.TriggerReportGeneration: what happens if the commit itself fails is not modelled. Neither is a partly written file, or a failure of the `Error` update. `writeFails` covers failures of `os.makedirs` and of the file write.
- The CSV byte layout is reduced to the header field names plus the rows as records.
- `logger` calls and the progress percentage (src/services.py:200-201) are observability only.
- `BackgroundTasks` scheduling, the shared `Session` and concurrency between jobs are not modelled. The generation is a plain sequential method that a caller runs after the trigger.
- `get_report`'s outer handler (500 "An error occurred while retrieving the report") is not modelled. It is reachable only through a database error.
- Loading the CSV data (src/data_loader.py, src/data_loader_script.py), the ORM setup (src/database.py), logging setup (src/logger.py), and the root and startup endpoints are not part of this model.

- Estimator.AlwaysOpenTotals, Estimator.AlwaysOpenAllActiveStore, Estimator.DefaultHoursOpenOnGrid: stated only for a whole-second anchor, whole-second polls and a zone with whole-second offsets. The default as written closes the last second of each local day, so without these conditions the totals can be lower: as low as 24 and 162, or 23 and 161 when the anchor is at 23:59:59.x local. Only the grid points at local hour 23 can be closed, because every grid point has the anchor's minute and second.

## Findings

| source | as written | input that shows it | evidently intended | confidence | as-written member | corrected member |
|---|---|---|---|---|---|---|
| src/services.py:51-59 | the synthesised 24/7 default ends each day at `time(23, 59, 59)`, and the comparison at src/services.py:80 tests microsecond local times against it inclusively | a store with no hours rows, zone UTC, poll at 1970-01-01 23:59:59.5 UTC: reported closed, so dropped from the mask; any hourly grid point with such a time of day is not counted | open at every instant (the code logs "assuming 24/7 operation") | not executed; high | `BusinessHours.AsWrittenDefaultClosedInLastSecond` | `BusinessHours.DefaultHoursOpenAtEveryInstant` |

The corrected default is `BusinessHours.DefaultHours`, whose days end at `time.max` (23:59:59.999999). The rest of the model, the estimator included, follows the code and uses the default as written. `Estimator.AsWrittenDefaultDropsLastSecondPoll` shows the effect on a whole estimate.
