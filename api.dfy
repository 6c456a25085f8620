/** The two endpoints around the job (src/main.py, lines 36-81): triggering a report
    and polling for it. */
module Api {
  import opened Wrappers
  import opened Clock
  import opened Schema
  import opened ReportJob

  datatype TriggerResponse = Triggered(reportId: string) | TriggerFailed(statusCode: int, detail: string)

  /** What a poll answers: the job is still running, the finished file, or an HTTP error. */
  datatype ReportResponse =
    | StillRunning
    | ReportFile(path: string, filename: string, mediaType: string)
    | HttpError(statusCode: int, detail: string)

  const TriggerFailedDetail: string := "Failed to trigger report generation"
  const FileMissingDetail: string := "Report file not found"
  const GenerationErrorDetail: string := "An error occurred during report generation"

  function NotFoundDetail(reportId: string): string
  {
    "Report with ID " + reportId + " not found"
  }

  function UnknownStatusDetail(status: string): string
  {
    "Unknown report status: " + status
  }

  /** `POST /trigger_report`: insert a Running job under the fresh id `freshId` (the
      uuid) created at `createdAt`. Inserting an id already present violates the unique
      `report_id` column: the commit fails and the endpoint answers 500, changing nothing.
      Scheduling the background generation is not part of this method. */
  method TriggerReport(registry: ReportRegistry, freshId: string, createdAt: int) returns (resp: TriggerResponse)
    requires registry.Valid()
    modifies registry
    ensures registry.Valid()
    ensures registry.files == old(registry.files)
    ensures freshId !in old(registry.reports) ==>
              resp == Triggered(freshId)
              && registry.reports == old(registry.reports)[freshId := ReportRecord(freshId, Running, createdAt, None)]
    ensures freshId in old(registry.reports) ==>
              resp == TriggerFailed(500, TriggerFailedDetail) && registry.reports == old(registry.reports)
  {
    if freshId in registry.reports {
      return TriggerFailed(500, TriggerFailedDetail);
    }
    registry.reports := registry.reports[freshId := ReportRecord(freshId, Running, createdAt, None)];
    resp := Triggered(freshId);
  }

  /** `GET /get_report`: the answer for a job, from its stored status and whether its
      report file exists in `paths`. */
  function GetReport(reports: map<string, ReportRecord>, paths: set<string>, reportId: string): (r: ReportResponse)
    ensures r == HttpError(404, NotFoundDetail(reportId)) <==> reportId !in reports
    ensures r == StillRunning <==> reportId in reports && reports[reportId].status == Running
    ensures r.ReportFile? <==> reportId in reports && reports[reportId].status == Complete && ReportPath(reportId) in paths
    ensures r.ReportFile? ==> r.path in paths && r.path == ReportPath(reportId)
                              && r.filename == "report_" + reportId + ".csv" && r.mediaType == "text/csv"
    ensures r == HttpError(404, FileMissingDetail) <==>
              reportId in reports && reports[reportId].status == Complete && ReportPath(reportId) !in paths
    ensures r == HttpError(500, GenerationErrorDetail) <==> reportId in reports && reports[reportId].status == Error
    ensures reportId in reports && reports[reportId].status !in {Running, Complete, Error} ==>
              r == HttpError(500, UnknownStatusDetail(reports[reportId].status))
    ensures (r.HttpError? && r.statusCode == 500) <==>
              reportId in reports && reports[reportId].status !in {Running, Complete}
  {
    match GetReportStatus(reports, reportId)
    case None => HttpError(404, NotFoundDetail(reportId))
    case Some(rec) =>
      if rec.status == Running then StillRunning
      else if rec.status == Complete then
        var filePath := ReportPath(reportId);
        if filePath in paths then ReportFile(filePath, "report_" + reportId + ".csv", "text/csv")
        else HttpError(404, FileMissingDetail)
      else if rec.status == Error then HttpError(500, GenerationErrorDetail)
      else
        assert UnknownStatusDetail(rec.status)[0] != GenerationErrorDetail[0];
        HttpError(500, UnknownStatusDetail(rec.status))
  }

  /** In a consistent job table a Complete job always has its file: the "Report file
      not found" answer cannot arise from the job's own transitions. */
  lemma CompleteJobHasArtifact(reports: map<string, ReportRecord>, paths: set<string>, reportId: string)
    requires forall id :: id in reports ==> Consistent(id, reports[id], paths)
    ensures GetReport(reports, paths, reportId) != HttpError(404, FileMissingDetail)
  {
    if reportId in reports {
      assert Consistent(reportId, reports[reportId], paths);
    }
  }

  /** The whole lifecycle of one report: the trigger endpoint inserts a Running job
      (a poll then answers Running), the background task runs the generation, and a
      poll afterwards answers with the file, or with the generation error when writing
      failed. No other job changes. */
  method TriggerAndGenerate(registry: ReportRegistry, freshId: string, createdAt: int,
                            db: StoreDb, zones: ZoneDb, wallClock: int, completedAt: int, writeFails: bool)
    returns (trigger: TriggerResponse, pollBefore: ReportResponse, pollAfter: ReportResponse)
    requires registry.Valid()
    requires freshId !in registry.reports
    modifies registry
    ensures registry.Valid()
    ensures trigger == Triggered(freshId)
    ensures pollBefore == StillRunning
    ensures writeFails ==> pollAfter == HttpError(500, GenerationErrorDetail)
    ensures !writeFails ==> pollAfter == ReportFile(ReportPath(freshId), "report_" + freshId + ".csv", "text/csv")
    ensures forall id :: id in old(registry.reports) ==> id in registry.reports && registry.reports[id] == old(registry.reports)[id]
  {
    trigger := TriggerReport(registry, freshId, createdAt);
    pollBefore := GetReport(registry.reports, registry.files.Keys, freshId);
    registry.TriggerReportGeneration(freshId, db, zones, wallClock, completedAt, writeFails);
    pollAfter := GetReport(registry.reports, registry.files.Keys, freshId);
  }
}
