/**
 * The records the archive core works on: an image row of the metadata
 * store, the status of a job, and the archive request that doubles as the
 * job record (its status, identifier and error list are updated in place).
 */
module Models {
  import opened Dates
  import opened Guids

  /** One row of the Images table. */
  datatype Image = Image(id: int, name: string, filePath: string, dateTime: Timestamp, unixTime: int)

  datatype ArchiveStatus = Unknown | Pending | Processing | Completed | Canceled | Failed

  /**
   * A date-range archive request and the state of the job processing it.
   * The range is fixed once the request is bound; the core reads it and
   * writes only the status, the job identifier and the error list.
   */
  class ArchiveRequest {
    const startDate: Timestamp
    const endDate: Timestamp
    var status: ArchiveStatus
    var jobId: Guid
    var errors: seq<string>

    /** The request as the caller built it; status, identifier and errors are whatever it says. */
    constructor (startDate: Timestamp, endDate: Timestamp, status: ArchiveStatus, jobId: Guid, errors: seq<string>)
      ensures this.startDate == startDate && this.endDate == endDate
      ensures this.status == status && this.jobId == jobId && this.errors == errors
    {
      this.startDate := startDate;
      this.endDate := endDate;
      this.status := status;
      this.jobId := jobId;
      this.errors := errors;
    }

    /** Errors are only ever appended. */
    method AddError(message: string)
      modifies this
      ensures errors == old(errors) + [message]
      ensures status == old(status) && jobId == old(jobId)
    {
      errors := errors + [message];
    }
  }
}
