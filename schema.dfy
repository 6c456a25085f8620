/** The shapes of the stored tables the core reads and writes (the surrogate integer
    primary keys are left out: nothing in the core reads them). */
module Schema {
  import opened Wrappers

  /** One status poll of a store. `status` is the stored string ("active", "inactive", or anything else). */
  datatype StatusRow = StatusRow(storeId: string, timestampUtc: int, status: string)

  /** One weekly opening interval of a store, in local microseconds since midnight. */
  datatype BusinessHoursRow = BusinessHoursRow(storeId: string, dayOfWeek: int, startTimeLocal: int, endTimeLocal: int)

  /** The IANA zone name recorded for a store. */
  datatype TimezoneRow = TimezoneRow(storeId: string, timezoneStr: string)

  /** One report job. `status` is stored as free text; the code writes "Running", "Complete" and "Error". */
  datatype ReportRecord = ReportRecord(reportId: string, status: string, createdAt: int, completedAt: Option<int>)

  /** The read-only part of the database the estimator queries. */
  datatype StoreDb = StoreDb(statuses: seq<StatusRow>, businessHours: seq<BusinessHoursRow>, timezones: seq<TimezoneRow>)

  const Running: string := "Running"
  const Complete: string := "Complete"
  const Error: string := "Error"
}
