/** The module-level state of the service and the operations that change it in place:
    the registry and index dictionaries, the debounce fingerprints of their JSON files,
    and the files on disk. */
module Service {
  import opened Wrappers
  import opened Text
  import opened Jobs
  import opened Persistence
  import opened Conversion
  import Metadata
  import Sweep
  import Stream
  import Delivery

  class ConversionService {
    /** `conversion_progress` */
    var jobs: map<JobId, Job>
    /** `completed_files` */
    var index: map<JobId, IndexEntry>
    /** `_last_jobs_hash` and the content of the jobs file */
    var jobsStore: Store<map<JobId, Job>>
    /** `_last_completed_files_hash` and the content of the index file */
    var indexStore: Store<map<JobId, IndexEntry>>
    /** Every existing path with its size in bytes. */
    var files: map<Path, nat>
    /** Whether writes to the data directory succeed. */
    const writable: bool
    /** `JOB_TIMEOUT`, in seconds. */
    const jobTimeout: int

    ghost predicate Valid()
      reads this
    {
      jobsStore.Consistent() && indexStore.Consistent()
    }

    function State(): (w: World)
      reads this
      ensures w.jobs == jobs && w.index == index && w.files == files
    {
      World(jobs, index, files)
    }

    /** Start-up: both maps are loaded from their files, and a fingerprint is recorded
        only for a non-empty map. */
    constructor (savedJobs: map<JobId, Job>, savedIndex: map<JobId, IndexEntry>,
                 files: map<Path, nat>, writable: bool, jobTimeout: int)
      ensures Valid()
      ensures jobs == savedJobs && index == savedIndex && this.files == files
      ensures jobsStore == Loaded(savedJobs, |savedJobs| > 0)
      ensures indexStore == Loaded(savedIndex, |savedIndex| > 0)
      ensures this.writable == writable && this.jobTimeout == jobTimeout
    {
      jobs := savedJobs;
      index := savedIndex;
      jobsStore := Loaded(savedJobs, |savedJobs| > 0);
      indexStore := Loaded(savedIndex, |savedIndex| > 0);
      this.files := files;
      this.writable := writable;
      this.jobTimeout := jobTimeout;
    }

    /** `save_jobs`: writes the registry unless its fingerprint is the recorded one. */
    method SaveJobs() returns (wrote: bool)
      requires Valid()
      modifies this`jobsStore
      ensures Valid()
      ensures wrote <==> Writes(old(jobsStore), jobs, writable)
      ensures jobsStore == Save(old(jobsStore), jobs, writable)
      ensures writable ==> jobsStore.file == jobs
    {
      if jobsStore.lastWritten == Some(jobs) {
        return false;
      }
      if writable {
        jobsStore := Store(Some(jobs), jobs);
        return true;
      }
      return false;
    }

    /** `save_completed_files`: the same debounce for the index. */
    method SaveCompletedFiles() returns (wrote: bool)
      requires Valid()
      modifies this`indexStore
      ensures Valid()
      ensures wrote <==> Writes(old(indexStore), index, writable)
      ensures indexStore == Save(old(indexStore), index, writable)
      ensures writable ==> indexStore.file == index
    {
      if indexStore.lastWritten == Some(index) {
        return false;
      }
      if writable {
        indexStore := Store(Some(index), index);
        return true;
      }
      return false;
    }

    /** `update_job_status`: merge the given fields into a known record, then save when
        the update is significant. */
    method UpdateJobStatus(id: JobId, u: JobUpdate)
      requires Valid()
      modifies this`jobs, this`jobsStore
      ensures Valid()
      ensures jobs == UpdateRegistry(old(jobs), id, u)
      ensures jobsStore == if id in old(jobs) && TriggersSave(u) then Save(old(jobsStore), jobs, writable)
                           else old(jobsStore)
    {
      if id !in jobs {
        return;
      }
      jobs := jobs[id := Merge(jobs[id], u)];
      if TriggersSave(u) {
        var _ := SaveJobs();
      }
    }

    /** One line of the output loop of `run_conversion`: log it, apply any percentage
        through `update_job_status` (or just set the message), then save if a batch is
        due. `others` and `before` are the registry around the job and the loop state. */
    method ProcessLine(id: JobId, line: string, now: int, sinceSave: nat, lastSaveTime: int,
                       ghost others: map<JobId, Job>, ghost before: Pump)
      returns (sinceSave': nat, lastSaveTime': int)
      requires Valid()
      requires jobs == others[id := before.rec] && jobsStore == before.store
      requires Batch(sinceSave, lastSaveTime) == before.batch
      modifies this`jobs, this`jobsStore
      ensures Valid()
      ensures var after := PumpLine(others, id, writable, before, line, now);
        && jobs == others[id := after.rec] && jobsStore == after.store
        && Batch(sinceSave', lastSaveTime') == after.batch
    {
      ghost var rec := ApplyLine(before.rec, line);
      ghost var logged := before.rec.(detailedLogs := before.rec.detailedLogs + [line]);
      jobs := jobs[id := jobs[id].(detailedLogs := jobs[id].detailedLogs + [line])];
      assert jobs == others[id := logged];
      sinceSave' := sinceSave + 1;
      lastSaveTime' := lastSaveTime;
      var percent := Percent(line);
      if percent.Some? {
        var u := JobUpdate(None, Some(percent.value), Some(line), None, None);
        assert Merge(logged, u) == rec;
        UpdateJobStatus(id, u);
        assert jobs == others[id := logged][id := rec];
      } else {
        assert logged.(message := line) == rec;
        jobs := jobs[id := jobs[id].(message := line)];
        assert jobs == others[id := logged][id := rec];
      }
      assert jobs == others[id := rec];
      if sinceSave' >= BatchSize && now - lastSaveTime' >= SaveIntervalMs {
        var _ := SaveJobs();
        lastSaveTime' := now;
        sinceSave' := 0;
      }
    }

    /** The output loop of `run_conversion`: every line the tool prints is stripped and
        processed in order. `clock[k]` is the time read after line `k`. */
    method PumpOutput(id: JobId, raw: seq<string>, clock: seq<int>, startTime: int)
      requires Valid() && id in jobs && |raw| == |clock|
      modifies this`jobs, this`jobsStore
      ensures Valid()
      ensures var p := PumpLines(old(jobs), id, writable, Pump(old(jobs)[id], Batch(0, startTime), old(jobsStore)),
                                 StrippedLines(raw), clock);
        jobs == old(jobs)[id := p.rec] && jobsStore == p.store
      ensures jobs.Keys == old(jobs).Keys
      ensures jobs[id].detailedLogs == old(jobs)[id].detailedLogs + StrippedLines(raw)
      ensures jobs[id].status == old(jobs)[id].status && jobs[id].meta == old(jobs)[id].meta
      ensures jobs[id].inputPath == old(jobs)[id].inputPath && jobs[id].outputPath == old(jobs)[id].outputPath
    {
      ghost var jobs0 := jobs;
      ghost var start := Pump(jobs[id], Batch(0, startTime), jobsStore);
      ghost var lines := StrippedLines(raw);
      var sinceSave := 0;
      var lastSaveTime := startTime;
      var i := 0;
      ghost var done := start;
      while i < |raw|
        invariant 0 <= i <= |raw|
        invariant Valid()
        invariant done == PumpLines(jobs0, id, writable, start, lines[..i], clock[..i])
        invariant jobs == jobs0[id := done.rec] && jobsStore == done.store
        invariant Batch(sinceSave, lastSaveTime) == done.batch
      {
        var line := Strip(raw[i]);
        sinceSave, lastSaveTime := ProcessLine(id, line, clock[i], sinceSave, lastSaveTime, jobs0, done);
        PumpLinesSnoc(jobs0, id, writable, start, lines, clock, i);
        done := PumpLine(jobs0, id, writable, done, line, clock[i]);
        i := i + 1;
      }
      assert lines[..|raw|] == lines && clock[..|raw|] == clock;
      PumpEffect(jobs0, id, writable, start, lines, clock);
    }

    /** The end of a run whose converter exited: the index entry first (and its save),
        then the terminal update, then a final `save_jobs`. */
    method FinishRun(id: JobId, exitCode: int, outputSize: Option<nat>, output: seq<string>,
                     outputPath: Path, now: int)
      requires Valid() && id in jobs
      modifies this`jobs, this`jobsStore, this`index, this`indexStore
      ensures Valid()
      ensures var f := Outcome(exitCode, outputSize, output, old(jobs)[id], outputPath, now);
        && jobs == old(jobs)[id := Merge(old(jobs)[id], f.update)]
        && (f.entry.Some? ==> index == old(index)[id := f.entry.value]
                              && indexStore == Save(old(indexStore), index, writable))
        && (f.entry.None? ==> index == old(index) && indexStore == old(indexStore))
      ensures writable ==> jobsStore.file == jobs
    {
      var f := Outcome(exitCode, outputSize, output, jobs[id], outputPath, now);
      if f.entry.Some? {
        index := index[id := f.entry.value];
        var _ := SaveCompletedFiles();
      }
      UpdateJobStatus(id, f.update);
      var _ := SaveJobs();
    }

    /** The `except` branch of `run_conversion`: the job (if it is registered) fails with
        the error as message and details, and the registry is saved. */
    method FailRun(id: JobId, error: string, now: int)
      requires Valid()
      modifies this`jobs, this`jobsStore
      ensures Valid()
      ensures jobs == UpdateRegistry(old(jobs), id, ExceptionUpdate(error, now))
      ensures writable ==> jobsStore.file == jobs
    {
      UpdateJobStatus(id, ExceptionUpdate(error, now));
      var _ := SaveJobs();
    }

    /** `run_conversion`: check the input, read the metadata, install the running
        record, run the converter over its output, and settle the outcome. The converter's
        own effect on disk (its output file) is applied from `run.outputSize`. */
    method RunConversion(id: JobId, inputPath: Path, outputPath: Path, run: ToolRun,
                         startTime: int, finishTime: int)
      requires Valid() && |run.output| == |run.clock|
      modifies this`jobs, this`jobsStore, this`index, this`indexStore, this`files
      ensures Valid()
      ensures inputPath !in old(files) ==>
        jobs == UpdateRegistry(old(jobs), id, ExceptionUpdate("Input file " + inputPath + " does not exist", finishTime))
      ensures inputPath in old(files) && old(files)[inputPath] == 0 ==>
        jobs == UpdateRegistry(old(jobs), id, ExceptionUpdate("Input file is empty", finishTime))
      ensures jobs.Keys == if InputUsable(inputPath, old(files)) then old(jobs).Keys + {id} else old(jobs).Keys
      ensures forall k :: k in old(jobs) && k != id ==> jobs[k] == old(jobs)[k]
      ensures id in jobs ==> jobs[id].status.IsTerminal() && jobs[id].completedTime == Some(finishTime)
      ensures id in jobs ==> (jobs[id].status == Completed <==> Succeeds(inputPath, old(files), run))
      ensures Succeeds(inputPath, old(files), run) ==>
        && jobs[id].progress == 100
        && jobs[id].detailedLogs == StrippedLines(run.output)
        && jobs[id].meta == Some(Metadata.EpubMetadata(run.metaOutput))
        && index == old(index)[id := IndexEntry(outputPath, jobs[id].meta)]
      ensures !Succeeds(inputPath, old(files), run) ==> index == old(index)
      ensures InputUsable(inputPath, old(files)) && run.spawnError.None? && run.exitCode != 0 ==>
        jobs[id].errorDetails == Some(ErrorTail(StrippedLines(run.output)))
      ensures InputUsable(inputPath, old(files)) && run.spawnError.Some? ==>
        jobs[id].message == "Error: " + run.spawnError.value && jobs[id].detailedLogs == []
      ensures InputUsable(inputPath, old(files)) ==>
        jobs[id].inputPath == inputPath && jobs[id].outputPath == outputPath
      ensures Succeeds(inputPath, old(files), run) ==> jobs[id].message == CompletedMessage
      ensures InputUsable(inputPath, old(files)) && run.spawnError.None? && run.exitCode != 0 ==>
        jobs[id].message == ExitCodeMessage(run.exitCode)
      ensures && InputUsable(inputPath, old(files)) && run.spawnError.None?
              && run.exitCode == 0 && !OutputReady(run.outputSize)
              ==> jobs[id].message == NoOutputMessage
      ensures writable ==> jobsStore.file == jobs
      ensures writable && Succeeds(inputPath, old(files), run) ==> indexStore.file == index
    {
      if inputPath !in files {
        FailRun(id, "Input file " + inputPath + " does not exist", finishTime);
        return;
      }
      if files[inputPath] == 0 {
        FailRun(id, "Input file is empty", finishTime);
        return;
      }
      var meta := Metadata.EpubMetadata(run.metaOutput);
      jobs := jobs[id := RunningRecord(inputPath, outputPath, meta)];
      var _ := SaveJobs();
      if run.spawnError.Some? {
        FailRun(id, run.spawnError.value, finishTime);
        return;
      }
      Execute(id, outputPath, run, startTime, finishTime);
    }

    /** The part of `run_conversion` after the running record is in place and the
        converter has started: its output, then its outcome. */
    method Execute(id: JobId, outputPath: Path, run: ToolRun, startTime: int, finishTime: int)
      requires Valid() && |run.output| == |run.clock|
      requires id in jobs && jobs[id].status == Running && jobs[id].detailedLogs == []
      modifies this`jobs, this`jobsStore, this`index, this`indexStore, this`files
      ensures Valid()
      ensures jobs.Keys == old(jobs).Keys
      ensures forall k :: k in old(jobs) && k != id ==> jobs[k] == old(jobs)[k]
      ensures jobs[id].status.IsTerminal() && jobs[id].completedTime == Some(finishTime)
      ensures jobs[id].status == Completed <==> run.exitCode == 0 && OutputReady(run.outputSize)
      ensures jobs[id].detailedLogs == StrippedLines(run.output) && jobs[id].meta == old(jobs)[id].meta
      ensures jobs[id].inputPath == old(jobs)[id].inputPath && jobs[id].outputPath == old(jobs)[id].outputPath
      ensures jobs[id].status == Completed ==>
        jobs[id].progress == 100 && index == old(index)[id := IndexEntry(outputPath, jobs[id].meta)]
      ensures jobs[id].status != Completed ==> index == old(index)
      ensures run.exitCode != 0 ==> jobs[id].errorDetails == Some(ErrorTail(StrippedLines(run.output)))
      ensures jobs[id].message == Outcome(run.exitCode, run.outputSize, StrippedLines(run.output),
                                          old(jobs)[id], outputPath, finishTime).update.message.value
      ensures writable ==> jobsStore.file == jobs
      ensures writable && jobs[id].status == Completed ==> indexStore.file == index
    {
      PumpOutput(id, run.output, run.clock, startTime);
      Settle(id, outputPath, run, finishTime);
    }

    /** After the converter has exited: its output file appears (or not), and the run
        ends through `FinishRun`. */
    method Settle(id: JobId, outputPath: Path, run: ToolRun, finishTime: int)
      requires Valid() && id in jobs && jobs[id].status == Running
      modifies this`jobs, this`jobsStore, this`index, this`indexStore, this`files
      ensures Valid()
      ensures jobs.Keys == old(jobs).Keys
      ensures forall k :: k in old(jobs) && k != id ==> jobs[k] == old(jobs)[k]
      ensures jobs[id].status.IsTerminal() && jobs[id].completedTime == Some(finishTime)
      ensures jobs[id].status == Completed <==> run.exitCode == 0 && OutputReady(run.outputSize)
      ensures jobs[id] == Merge(old(jobs)[id], Outcome(run.exitCode, run.outputSize, StrippedLines(run.output),
                                                       old(jobs)[id], outputPath, finishTime).update)
      ensures jobs[id].detailedLogs == old(jobs)[id].detailedLogs && jobs[id].meta == old(jobs)[id].meta
      ensures jobs[id].inputPath == old(jobs)[id].inputPath && jobs[id].outputPath == old(jobs)[id].outputPath
      ensures jobs[id].status == Completed ==>
        jobs[id].progress == 100 && index == old(index)[id := IndexEntry(outputPath, jobs[id].meta)]
      ensures jobs[id].status != Completed ==> index == old(index)
      ensures run.exitCode != 0 ==> jobs[id].errorDetails == Some(ErrorTail(StrippedLines(run.output)))
      ensures writable ==> jobsStore.file == jobs
      ensures writable && jobs[id].status == Completed ==> indexStore.file == index
    {
      ghost var rec := jobs[id];
      files := match run.outputSize
               case Some(size) => files[outputPath := size]
               case None => files - {outputPath};
      FinishRun(id, run.exitCode, run.outputSize, StrippedLines(run.output), outputPath, finishTime);
      OutcomeTerminal(run.exitCode, run.outputSize, StrippedLines(run.output), rec, outputPath, finishTime);
    }

    /** The body of the `job_cleaner` loop for one expired job: remove its input and
        output files, delete its record and save, then delete its index entry and save.
        Reports whether the deletion from the index raised (no entry), which ends the
        cycle. */
    method Retire(id: JobId) returns (stopped: bool)
      requires Valid() && id in jobs
      modifies this`jobs, this`jobsStore, this`index, this`indexStore, this`files
      ensures Valid()
      ensures State() == Sweep.Retired(old(State()), id)
      ensures stopped <==> id !in old(index)
      ensures jobsStore == Save(old(jobsStore), jobs, writable)
      ensures indexStore == if stopped then old(indexStore) else Save(old(indexStore), index, writable)
      ensures writable ==> jobsStore.file == jobs
      ensures writable && old(indexStore.file) == old(index) ==> indexStore.file == index
    {
      var job := jobs[id];
      if job.inputPath != "" && job.inputPath in files {
        files := files - {job.inputPath};
      }
      if job.outputPath != "" && job.outputPath in files {
        files := files - {job.outputPath};
      }
      jobs := jobs - {id};
      var _ := SaveJobs();
      if id !in index {
        return true;
      }
      index := index - {id};
      var _ := SaveCompletedFiles();
      return false;
    }

    /** One cycle of `job_cleaner` over the registry in its iteration order `order`. */
    method SweepOnce(now: int, order: seq<JobId>)
      requires Valid() && Sweep.IsOrder(order, jobs)
      modifies this`jobs, this`jobsStore, this`index, this`indexStore, this`files
      ensures Valid()
      ensures State() == Sweep.SweepPass(old(State()), order, now, jobTimeout)
      ensures writable && Sweep.Select(old(jobs), order, now, jobTimeout) != [] ==> jobsStore.file == jobs
      ensures Sweep.Select(old(jobs), order, now, jobTimeout) == [] ==> jobsStore == old(jobsStore)
      ensures writable && old(indexStore.file) == old(index) ==> indexStore.file == index
    {
      ghost var w0 := State();
      ghost var store0 := indexStore;
      var selected := Sweep.Select(jobs, order, now, jobTimeout);
      var i := 0;
      var stopped := false;
      while i < |selected| && !stopped
        invariant 0 <= i <= |selected|
        invariant Valid()
        invariant forall k :: 0 <= k < (if stopped then i - 1 else i) ==> selected[k] in w0.index
        invariant stopped ==> 0 < i && selected[i - 1] !in w0.index
        invariant State() == Sweep.Partial(w0, selected, i)
        invariant writable && i > 0 ==> jobsStore.file == jobs
        invariant i == 0 ==> jobsStore == old(jobsStore)
        invariant writable && store0.file == w0.index ==> indexStore.file == index
      {
        Sweep.PartialNext(w0, selected, i);
        stopped := Retire(selected[i]);
        i := i + 1;
      }
      Sweep.PartialIsPass(w0, order, now, jobTimeout, i);
    }

    /** The download handlers: reload both maps from disk for an id neither knows, then
        serve the registry's completed output (mirroring it into the index and saving
        that) or else the index's file. */
    method ServeDownload(id: JobId) returns (d: Option<Delivery.Download>)
      requires Valid()
      modifies this`jobs, this`index, this`indexStore
      ensures Valid()
      ensures var w1 := Delivery.ReloadForDownload(id, old(State()), old(jobsStore.file), old(indexStore.file));
        var r := Delivery.Resolve(id, w1);
        && d == r.download && jobs == w1.jobs && index == r.index
        && indexStore == (if r.mirrored then Save(old(indexStore), index, writable) else old(indexStore))
    {
      if id !in jobs && id !in index {
        var diskJobs := jobsStore.file;
        var diskIndex := indexStore.file;
        if id in diskJobs {
          jobs := jobs + diskJobs;
        }
        if id in diskIndex {
          index := index + diskIndex;
        }
      }
      if id in jobs {
        var job := jobs[id];
        if job.status == Completed && job.outputPath in files {
          index := index[id := Delivery.MirrorEntry(job)];
          var _ := SaveCompletedFiles();
          return Some(Delivery.Download(job.outputPath, Delivery.DownloadName(id, job.meta)));
        }
      }
      if id in index {
        var entry := index[id];
        if entry.path in files {
          return Some(Delivery.Download(entry.path, Delivery.DownloadName(id, entry.meta)));
        }
      }
      return None;
    }

    /** The registry reload shared by the status endpoint and the event stream: only for
        an id the registry does not know, and only if the jobs file does. */
    method ReloadJobs(id: JobId)
      modifies this`jobs
      ensures jobs == if id in old(jobs) then old(jobs) else ReloadIfKnown(old(jobs), jobsStore.file, id)
    {
      if id !in jobs {
        var diskJobs := jobsStore.file;
        if id in diskJobs {
          jobs := jobs + diskJobs;
        }
      }
    }

    /** `/api/v1/jobs/<job_id>/status`. */
    method JobStatus(id: JobId, baseUrl: string) returns (r: Delivery.StatusReply)
      modifies this`jobs
      ensures jobs == if id in old(jobs) then old(jobs) else ReloadIfKnown(old(jobs), jobsStore.file, id)
      ensures r == Delivery.StatusOf(id, baseUrl, State())
    {
      ReloadJobs(id);
      r := Delivery.StatusOf(id, baseUrl, State());
    }

    /** The opening of `/progress/<job_id>`; the polling that follows is
        `Stream.StreamEvents` over the states each poll observes. */
    method OpenStream(id: JobId) returns (o: Stream.Opening)
      modifies this`jobs
      ensures jobs == if id in old(jobs) then old(jobs) else ReloadIfKnown(old(jobs), jobsStore.file, id)
      ensures o == Stream.Open(id, State())
    {
      ReloadJobs(id);
      o := Stream.Open(id, State());
    }
  }
}
