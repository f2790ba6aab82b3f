/** The read side of the service: which file a download serves and under what name
    (`/download/<job_id>` and `/api/v1/jobs/<job_id>/download`, which behave alike), what
    the status endpoint reports, and the timeout shown on the disclaimer page. */
module Delivery {
  import opened Wrappers
  import opened Text
  import opened Jobs
  import opened Persistence
  import Metadata
  import Sweep

  /** A successful download: the file sent and the name it is sent under. */
  datatype Download = Download(path: Path, filename: string)

  /** `author-title.pdf` when the record has both, `converted_` and the first eight
      characters of the id otherwise. */
  function DownloadName(id: JobId, meta: Option<Meta>): (name: string)
    ensures EndsWith(name, ".pdf")
    ensures meta.Some? ==> StartsWith(name, meta.value.author + "-")
    ensures meta.Some? ==>
              && |name| == |meta.value.author| + |meta.value.title| + 5
              && name[|meta.value.author| + 1..|name| - 4] == meta.value.title
    ensures meta.None? ==>
              && |name| == 14 + (if |id| < 8 then |id| else 8)
              && StartsWith(name, "converted_")
              && StartsWith(id, name[10..|name| - 4])
  {
    match meta
    case Some(m) => m.author + "-" + m.title + ".pdf"
    case None => "converted_" + id[..if |id| < 8 then |id| else 8] + ".pdf"
  }

  /** Names built from sanitised metadata cannot leave the download directory: they hold
      no path separator. */
  lemma DownloadNameSafe(id: JobId, m: Meta)
    requires Metadata.Sanitized(m.author) && Metadata.Sanitized(m.title)
    ensures forall i :: 0 <= i < |DownloadName(id, Some(m))| ==>
      DownloadName(id, Some(m))[i] != '/' && DownloadName(id, Some(m))[i] != '\\'
  {
    var name := DownloadName(id, Some(m));
    forall i | 0 <= i < |name| ensures name[i] != '/' && name[i] != '\\' {
      if i < |m.author| {
        assert name[i] == m.author[i];
      } else if i == |m.author| {
      } else if i < |m.author| + 1 + |m.title| {
        assert name[i] == m.title[i - |m.author| - 1];
      }
    }
  }

  /** The index entry a registry download writes: the record's metadata, defaulted to
      `unknown`/`ebook` when it has none. */
  function MirrorEntry(j: Job): (e: IndexEntry)
    ensures e.path == j.outputPath && e.meta.Some?
    ensures j.meta.Some? ==> e.meta == j.meta
    ensures j.meta.None? ==> e.meta == Some(DefaultMeta)
  {
    IndexEntry(j.outputPath, Some(j.meta.GetOr(DefaultMeta)))
  }

  /** The lazy reload of the download handlers: both files are read back, but only when
      the id is in neither map. */
  function ReloadForDownload(id: JobId, w: World, diskJobs: map<JobId, Job>,
                             diskIndex: map<JobId, IndexEntry>): (r: World)
    ensures r.files == w.files
    ensures id in w.jobs || id in w.index ==> r == w
    ensures id in r.jobs <==> id in w.jobs || (id !in w.index && id in diskJobs)
    ensures id in r.index <==> id in w.index || (id !in w.jobs && id in diskIndex)
  {
    if id !in w.jobs && id !in w.index then
      World(ReloadIfKnown(w.jobs, diskJobs, id), ReloadIfKnown(w.index, diskIndex, id), w.files)
    else w
  }

  predicate ServableFromRegistry(id: JobId, w: World)
  {
    id in w.jobs && w.jobs[id].status == Completed && w.jobs[id].outputPath in w.files
  }

  predicate ServableFromIndex(id: JobId, w: World)
  {
    id in w.index && w.index[id].path in w.files
  }

  /** The outcome of a download request: what is sent (nothing means 404), the index
      afterwards, and whether the handler changed the index (and so saves it). */
  datatype Resolution = Resolution(download: Option<Download>, index: map<JobId, IndexEntry>, mirrored: bool)

  /** A completed registry record whose output exists is served first and mirrored into
      the index; otherwise an index entry whose file exists; otherwise nothing. */
  function Resolve(id: JobId, w: World): (r: Resolution)
    ensures r.mirrored <==> ServableFromRegistry(id, w)
    ensures r.mirrored ==> r.index == w.index[id := MirrorEntry(w.jobs[id])]
    ensures !r.mirrored ==> r.index == w.index
    ensures r.download.None? <==> !ServableFromRegistry(id, w) && !ServableFromIndex(id, w)
    ensures r.mirrored ==>
      r.download == Some(Download(w.jobs[id].outputPath, DownloadName(id, w.jobs[id].meta)))
    ensures !r.mirrored && ServableFromIndex(id, w) ==>
      r.download == Some(Download(w.index[id].path, DownloadName(id, w.index[id].meta)))
    ensures r.download.Some? ==> r.download.value.path in w.files
  {
    if ServableFromRegistry(id, w) then
      var j := w.jobs[id];
      Resolution(Some(Download(j.outputPath, DownloadName(id, j.meta))), w.index[id := MirrorEntry(j)], true)
    else if ServableFromIndex(id, w) then
      var e := w.index[id];
      Resolution(Some(Download(e.path, DownloadName(id, e.meta))), w.index, false)
    else
      Resolution(None, w.index, false)
  }

  /** Downloading from the registry leaves an index entry that keeps serving the same file
      when the record is later evicted from the registry while its index entry and its
      file remain; the name stays the same when the record had its metadata, and becomes
      `unknown-ebook.pdf` when it had none. */
  lemma MirrorOutlivesRecord(id: JobId, w: World)
    requires ServableFromRegistry(id, w)
    ensures var r := Resolve(id, w);
      var later := Resolve(id, World(w.jobs - {id}, r.index, w.files));
      && later.download.Some? && !later.mirrored
      && later.download.value.path == r.download.value.path
      && (w.jobs[id].meta.Some? ==> later.download == r.download)
      && (w.jobs[id].meta.None? ==>
            later.download.value.filename == "unknown-ebook.pdf" && later.download != r.download)
  {
    var r := Resolve(id, w);
    var w' := World(w.jobs - {id}, r.index, w.files);
    assert !ServableFromRegistry(id, w');
    assert ServableFromIndex(id, w');
    if w.jobs[id].meta.None? {
      assert r.download.value.filename[0] == 'c';
      assert Resolve(id, w').download.value.filename[0] == 'u';
    }
  }

  /** The sweep, unlike an eviction, also drops the index entry: once a pass has removed
      the record, neither endpoint finds the job any more. */
  lemma SweptNotServed(id: JobId, baseUrl: string, s: World, order: seq<JobId>, now: int, timeoutSec: int)
    requires Sweep.IsOrder(order, s.jobs)
    requires id in s.jobs && id !in Sweep.SweepPass(s, order, now, timeoutSec).jobs
    ensures Resolve(id, Sweep.SweepPass(s, order, now, timeoutSec)).download == None
    ensures StatusOf(id, baseUrl, Sweep.SweepPass(s, order, now, timeoutSec)).NotFoundStatus?
  {
    var r := Sweep.SweepPass(s, order, now, timeoutSec);
    assert id !in r.index;
  }

  /** Serving twice in a row serves the same file under the same name and writes the same
      index entry. */
  lemma ResolveStable(id: JobId, w: World)
    ensures var r := Resolve(id, w);
      var again := Resolve(id, w.(index := r.index));
      again.download == r.download && again.index == r.index
  {
  }

  // ---------------------------------------------------------------------------
  // The status endpoint
  // ---------------------------------------------------------------------------

  /** `request.url_root.rstrip('/')` followed by the API download route. */
  function DownloadUrl(baseUrl: string, id: JobId): (u: string)
    ensures EndsWith(u, "/api/v1/jobs/" + id + "/download")
  {
    TrimRightChar(baseUrl, '/') + "/api/v1/jobs/" + id + "/download"
  }

  /** A trailing slash on the service's root URL makes no difference to the link. */
  lemma DownloadUrlSlash(baseUrl: string, id: JobId)
    ensures DownloadUrl(baseUrl + "/", id) == DownloadUrl(baseUrl, id)
  {
    assert (baseUrl + "/")[..|baseUrl|] == baseUrl;
  }

  /** The JSON body of `/api/v1/jobs/<job_id>/status`. A live reply is the record with its
      detailed log deleted (an empty `detailedLogs` stands for the missing key) and the last
      ten lines of that log under `logs`; an archived reply is synthesised from the index
      with a fixed status, progress and message. */
  datatype StatusReply =
    | LiveStatus(job: Job, logs: seq<string>, downloadUrl: Option<string>, filename: Option<string>)
    | ArchivedStatus(status: Status, progress: int, message: string,
                     url: string, meta: Option<Meta>, filename: Option<string>)
    | NotFoundStatus

  const StatusLogs := 10
  const ArchivedMessage := "Conversion completed successfully"

  /** The reply for `id` against the state after the registry reload. */
  function StatusOf(id: JobId, baseUrl: string, w: World): (r: StatusReply)
    ensures id in w.jobs ==>
      && r.LiveStatus? && r.job == w.jobs[id].(detailedLogs := [])
      && r.logs == Last(w.jobs[id].detailedLogs, StatusLogs)
      && r.downloadUrl == (if w.jobs[id].status == Completed then Some(DownloadUrl(baseUrl, id)) else None)
      && r.filename == (if w.jobs[id].status == Completed && w.jobs[id].meta.Some?
                        then Some(DownloadName(id, w.jobs[id].meta)) else None)
    ensures r.ArchivedStatus? <==> id !in w.jobs && ServableFromIndex(id, w)
    ensures r.ArchivedStatus? ==>
      && r.status == Completed && r.progress == 100 && r.message == ArchivedMessage
      && r.url == DownloadUrl(baseUrl, id) && r.meta == w.index[id].meta
      && r.filename == (if r.meta.Some? then Some(DownloadName(id, r.meta)) else None)
    ensures r.NotFoundStatus? <==> id !in w.jobs && !ServableFromIndex(id, w)
  {
    if id in w.jobs then
      var j := w.jobs[id];
      var completed := j.status == Completed;
      LiveStatus(j.(detailedLogs := []), Last(j.detailedLogs, StatusLogs),
                 if completed then Some(DownloadUrl(baseUrl, id)) else None,
                 if completed && j.meta.Some? then Some(DownloadName(id, j.meta)) else None)
    else if ServableFromIndex(id, w) then
      var e := w.index[id];
      ArchivedStatus(Completed, 100, ArchivedMessage, DownloadUrl(baseUrl, id), e.meta,
                     if e.meta.Some? then Some(DownloadName(id, e.meta)) else None)
    else NotFoundStatus
  }

  /** The status endpoint and the download endpoint agree: whenever the status names a
      file and the file is there, a download sends exactly that file under that name. */
  lemma StatusNamesDownload(id: JobId, baseUrl: string, w: World)
    ensures var r := StatusOf(id, baseUrl, w);
      r.LiveStatus? && r.filename.Some? && w.jobs[id].outputPath in w.files ==>
        Resolve(id, w).download == Some(Download(w.jobs[id].outputPath, r.filename.value))
    ensures var r := StatusOf(id, baseUrl, w);
      r.ArchivedStatus? && r.filename.Some? ==>
        Resolve(id, w).download == Some(Download(w.index[id].path, r.filename.value))
  {
  }

  /** `(JOB_TIMEOUT + 59) // 60`: the timeout rounded up to whole minutes. */
  function TimeoutMinutes(timeoutSec: int): (m: int)
    ensures (m - 1) * 60 < timeoutSec <= m * 60
  {
    (timeoutSec + 59) / 60
  }
}
