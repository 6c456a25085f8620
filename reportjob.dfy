/** The report job (src/services.py, lines 16-27 and 184-233): anchor "now" at the
    newest poll, estimate every distinct store in batches of 100, write the CSV and move
    the job record to "Complete", or to "Error" when the generation fails. */
module ReportJob {
  import opened Wrappers
  import opened Seqs
  import opened Clock
  import opened Schema
  import opened Estimator

  const BatchSize: nat := 100

  /** The CSV header row the report is written with. */
  const ReportHeader: seq<string> := ["store_id", "uptime_last_hour", "uptime_last_day", "uptime_last_week",
                                      "downtime_last_hour", "downtime_last_day", "downtime_last_week"]

  /** A written CSV file: its header and its data rows. */
  datatype CsvTable = CsvTable(header: seq<string>, rows: seq<Metrics>)

  /** Where the report of a job is written: `reports/{report_id}.csv`. */
  function ReportPath(reportId: string): (path: string)
    ensures |path| == |reportId| + 12
    ensures path[..8] == "reports/" && path[|path| - 4..] == ".csv"
    ensures path[8..|path| - 4] == reportId
  {
    "reports/" + reportId + ".csv"
  }

  /** Distinct jobs write distinct files. */
  lemma ReportPathInjective(a: string, b: string)
    requires ReportPath(a) == ReportPath(b)
    ensures a == b
  {
    assert a == ReportPath(a)[8..|ReportPath(a)| - 4];
  }

  /** The job record with `report_id == reportId`, if any. */
  function GetReportStatus(reports: map<string, ReportRecord>, reportId: string): (r: Option<ReportRecord>)
    ensures r.Some? <==> reportId in reports
    ensures r.Some? ==> r.value == reports[reportId]
  {
    if reportId in reports then Some(reports[reportId]) else None
  }

  /** The newest stored poll timestamp, or None when there are no polls. */
  function MaxTimestamp(rows: seq<StatusRow>): (r: Option<int>)
    ensures r.None? <==> rows == []
    ensures r.Some? ==> exists i :: 0 <= i < |rows| && rows[i].timestampUtc == r.value
    ensures r.Some? ==> forall i :: 0 <= i < |rows| ==> rows[i].timestampUtc <= r.value
  {
    if rows == [] then None
    else
      var rest := MaxTimestamp(rows[1..]);
      assert forall i :: 1 <= i < |rows| ==> rows[1..][i - 1] == rows[i];
      if rest.None? || rows[0].timestampUtc >= rest.value then Some(rows[0].timestampUtc)
      else rest
  }

  /** The report's "now": the newest poll timestamp, or the wall clock when there are none. */
  function GetMaxTimestamp(rows: seq<StatusRow>, wallClock: int): (now: int)
    ensures rows == [] ==> now == wallClock
    ensures rows != [] ==> (exists i :: 0 <= i < |rows| && rows[i].timestampUtc == now)
                           && forall i :: 0 <= i < |rows| ==> rows[i].timestampUtc <= now
  {
    match MaxTimestamp(rows)
    case None => wallClock
    case Some(t) => t
  }

  function StoreIds(rows: seq<StatusRow>): (ids: seq<string>)
    ensures |ids| == |rows|
    ensures forall i :: 0 <= i < |rows| ==> ids[i] == rows[i].storeId
  {
    seq(|rows|, i requires 0 <= i < |rows| => rows[i].storeId)
  }

  /** `SELECT DISTINCT store_id`: every stored store id once, in order of first appearance. */
  function DistinctStoreIds(rows: seq<StatusRow>): (ids: seq<string>)
    ensures forall id :: id in ids <==> exists i :: 0 <= i < |rows| && rows[i].storeId == id
    ensures forall i, j :: 0 <= i < j < |ids| ==> ids[i] != ids[j]
  {
    var all := StoreIds(rows);
    assert forall id :: id in all <==> exists i :: 0 <= i < |rows| && rows[i].storeId == id;
    Distinct(all)
  }

  /** The report rows: the estimate of each store, in enumeration order. */
  function ReportRows(storeIds: seq<string>, db: StoreDb, zones: ZoneDb, now: int): (rows: seq<Metrics>)
    ensures |rows| == |storeIds|
    ensures forall k :: 0 <= k < |storeIds| ==> rows[k] == Estimate(db, zones, storeIds[k], now)
  {
    seq(|storeIds|, k requires 0 <= k < |storeIds| => Estimate(db, zones, storeIds[k], now))
  }

  /** Rows correspond one-to-one to store ids: row k is the record of id k. */
  lemma ReportRowsMatchIds(storeIds: seq<string>, db: StoreDb, zones: ZoneDb, now: int)
    ensures forall k :: 0 <= k < |storeIds| ==> ReportRows(storeIds, db, zones, now)[k].storeId == storeIds[k]
  {
    forall k | 0 <= k < |storeIds|
      ensures ReportRows(storeIds, db, zones, now)[k].storeId == storeIds[k]
    {
      assert ReportRows(storeIds, db, zones, now)[k] == Estimate(db, zones, storeIds[k], now);
    }
  }

  /** The nested batch loop: ids `[i, i + 100)` at a time, one estimate appended per id. */
  method GenerateRows(storeIds: seq<string>, db: StoreDb, zones: ZoneDb, currentTime: int)
    returns (results: seq<Metrics>)
    ensures results == ReportRows(storeIds, db, zones, currentTime)
    ensures forall k :: 0 <= k < |results| ==> results[k].storeId == storeIds[k]
  {
    results := [];
    var i := 0;
    ghost var b: nat := 0;
    while i < |storeIds|
      invariant 0 <= i && i == b * BatchSize
      invariant results == ReportRows(storeIds[..Min(i, |storeIds|)], db, zones, currentTime)
      decreases |storeIds| - i
    {
      var batch := storeIds[i..Min(i + BatchSize, |storeIds|)];
      BatchAt(storeIds, BatchSize, b);
      assert batch == Batches(storeIds, BatchSize)[b];
      var j := 0;
      while j < |batch|
        invariant 0 <= j <= |batch|
        invariant results == ReportRows(storeIds[..i + j], db, zones, currentTime)
      {
        var result := CalculateUptimeDowntime(batch[j], currentTime, db, zones);
        results := results + [result];
        j := j + 1;
      }
      i := i + BatchSize;
      b := b + 1;
    }
    assert storeIds[..|storeIds|] == storeIds;
  }

  /** The job table and the report files, both updated in place by the job. */
  class ReportRegistry {
    var reports: map<string, ReportRecord>
    var files: map<string, CsvTable>

    /** Each record sits under its own id; a Running job has no completion time; a
        Complete job has one and its report file exists. */
    ghost predicate Valid()
      reads this
    {
      forall id :: id in reports ==> Consistent(id, reports[id], files.Keys)
    }

    constructor ()
      ensures Valid()
      ensures reports == map[] && files == map[]
    {
      reports := map[];
      files := map[];
    }

    /** `trigger_report_generation`. `writeFails` stands for a failure while creating the
        reports directory or writing the file; `completedAt` for `datetime.utcnow()` at completion. */
    method TriggerReportGeneration(reportId: string, db: StoreDb, zones: ZoneDb,
                                   wallClock: int, completedAt: int, writeFails: bool)
      requires Valid()
      modifies this
      ensures Valid()
      ensures writeFails ==> files == old(files)
      ensures !writeFails ==>
        files == old(files)[ReportPath(reportId) := CsvTable(ReportHeader,
                   ReportRows(DistinctStoreIds(db.statuses), db, zones, GetMaxTimestamp(db.statuses, wallClock)))]
      ensures reportId !in old(reports) ==> reports == old(reports)
      ensures reportId in old(reports) ==>
        reports == old(reports)[reportId :=
          if writeFails then old(reports)[reportId].(status := Error)
          else old(reports)[reportId].(status := Complete, completedAt := Some(completedAt))]
    {
      var currentTime := GetMaxTimestamp(db.statuses, wallClock);
      var storeIds := DistinctStoreIds(db.statuses);
      var results := GenerateRows(storeIds, db, zones, currentTime);
      if writeFails {
        // The exception handler looks the job up again and marks it failed.
        var report := GetReportStatus(reports, reportId);
        if report.Some? {
          reports := reports[reportId := report.value.(status := Error)];
        }
        return;
      }
      files := files[ReportPath(reportId) := CsvTable(ReportHeader, results)];
      var report := GetReportStatus(reports, reportId);
      if report.Some? {
        reports := reports[reportId := report.value.(status := Complete, completedAt := Some(completedAt))];
      }
    }
  }

  predicate Consistent(id: string, rec: ReportRecord, paths: set<string>)
  {
    && rec.reportId == id
    && (rec.status == Running ==> rec.completedAt.None?)
    && (rec.status == Complete ==> rec.completedAt.Some? && ReportPath(id) in paths)
  }
}
