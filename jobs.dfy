/** The job record held in the live registry (`conversion_progress`) and the entry held
    in the completed-artifact index (`completed_files`), and the partial-update merge
    that `update_job_status` applies to one record. */
module Jobs {
  import opened Wrappers

  type JobId = string
  type Path = string

  datatype Status = Starting | Running | Completed | Failed {
    /** `status in ['completed', 'failed']` */
    predicate IsTerminal() { this == Completed || this == Failed }
  }

  /** Author and title of the book, present together or not at all. */
  datatype Meta = Meta(author: string, title: string)

  /** The values `get_epub_metadata` falls back to, and the download handler's defaults. */
  const DefaultMeta := Meta("unknown", "ebook")

  datatype Job = Job(
    status: Status,
    progress: int,
    message: string,
    inputPath: Path,
    outputPath: Path,
    detailedLogs: seq<string>,
    meta: Option<Meta>,
    errorDetails: Option<string>,
    completedTime: Option<int>)   // milliseconds

  /** One `completed_files` value; a bare-path legacy entry has no metadata. */
  datatype IndexEntry = IndexEntry(path: Path, meta: Option<Meta>)

  /** What the request handlers and the background threads share: the registry
      (`conversion_progress`), the index (`completed_files`) and the files on disk, each
      existing path with its size in bytes. */
  datatype World = World(jobs: map<JobId, Job>, index: map<JobId, IndexEntry>, files: map<Path, nat>)

  /** The optional keyword arguments of `update_job_status`; `None` means "not given". */
  datatype JobUpdate = JobUpdate(
    status: Option<Status>,
    progress: Option<int>,
    message: Option<string>,
    errorDetails: Option<string>,
    completedTime: Option<int>)

  /** The record after `update_job_status`: every given field overwritten, every other
      field as it was. */
  function Merge(rec: Job, u: JobUpdate): (r: Job)
    ensures u.status.Some? ==> r.status == u.status.value
    ensures u.status.None? ==> r.status == rec.status
    ensures u.progress.Some? ==> r.progress == u.progress.value
    ensures u.progress.None? ==> r.progress == rec.progress
    ensures u.message.Some? ==> r.message == u.message.value
    ensures u.message.None? ==> r.message == rec.message
    ensures u.errorDetails.Some? ==> r.errorDetails == u.errorDetails
    ensures u.errorDetails.None? ==> r.errorDetails == rec.errorDetails
    ensures u.completedTime.Some? ==> r.completedTime == u.completedTime
    ensures u.completedTime.None? ==> r.completedTime == rec.completedTime
    ensures r.inputPath == rec.inputPath && r.outputPath == rec.outputPath
    ensures r.detailedLogs == rec.detailedLogs && r.meta == rec.meta
  {
    rec.(status := u.status.GetOr(rec.status),
         progress := u.progress.GetOr(rec.progress),
         message := u.message.GetOr(rec.message),
         errorDetails := if u.errorDetails.Some? then u.errorDetails else rec.errorDetails,
         completedTime := if u.completedTime.Some? then u.completedTime else rec.completedTime)
  }

  /** `status in ['completed', 'failed', 'running'] or progress == 100`: the updates after
      which `update_job_status` saves the registry. */
  predicate TriggersSave(u: JobUpdate)
  {
    (u.status.Some? && u.status.value in {Running, Completed, Failed}) || u.progress == Some(100)
  }

  /** The registry after `update_job_status(id, ...)`: unchanged for an unknown id,
      otherwise only the record of `id` changes, and it changes by `Merge`. */
  function UpdateRegistry(jobs: map<JobId, Job>, id: JobId, u: JobUpdate): (r: map<JobId, Job>)
    ensures id !in jobs ==> r == jobs
    ensures r.Keys == jobs.Keys
    ensures id in jobs ==> r[id] == Merge(jobs[id], u)
    ensures forall k :: k in jobs && k != id ==> r[k] == jobs[k]
  {
    if id in jobs then jobs[id := Merge(jobs[id], u)] else jobs
  }

  /** Applying the same update twice is applying it once. */
  lemma MergeIdempotent(rec: Job, u: JobUpdate)
    ensures Merge(Merge(rec, u), u) == Merge(rec, u)
  {
  }
}
