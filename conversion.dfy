/** The pure parts of `run_conversion`: reading a percentage out of an output line, the
    per-line update of the job record, the batched-save counter, and the terminal
    outcome once the tool has exited. The loop that drives them lives in
    `Service.ConversionService.PumpOutput`. */
module Conversion {
  import opened Wrappers
  import opened Text
  import opened Jobs
  import opened Persistence

  const BatchSize := 10          // lines between batched saves
  const SaveIntervalMs := 2000   // and at least this many milliseconds
  const TailLines := 10          // lines kept in `error_details`

  const RunningMessage := "Running conversion..."
  const CompletedMessage := "Conversion completed successfully!"
  const NoOutputMessage := "Conversion failed: Output file not created!"
  const NoOutputCaptured := "No output captured"
  const ExitCodePrefix := "Conversion failed with code "
  const ExitCodeSuffix := "! Check logs for details."

  /** The record `run_conversion` installs before starting the tool (it replaces any
      earlier record of the job). */
  function RunningRecord(inputPath: Path, outputPath: Path, meta: Meta): (r: Job)
    ensures r.status == Running && r.progress == 1 && r.detailedLogs == []
    ensures r.errorDetails.None? && r.completedTime.None? && r.meta == Some(meta)
    ensures r.inputPath == inputPath && r.outputPath == outputPath && r.message == RunningMessage
  {
    Job(Running, 1, RunningMessage, inputPath, outputPath, [], Some(meta), None, None)
  }

  // ---------------------------------------------------------------------------
  // The progress pattern `(\d+)%`
  // ---------------------------------------------------------------------------

  /** Length of the run of digits at the start of `s`. */
  function DigitRun(s: string): (k: nat)
    ensures k <= |s|
    ensures forall i :: 0 <= i < k ==> IsDigit(s[i])
    ensures k < |s| ==> !IsDigit(s[k])
  {
    if |s| > 0 && IsDigit(s[0]) then 1 + DigitRun(s[1..]) else 0
  }

  /** `re.search(r'(\d+)%', s)`, converted with `int`: the value of the first run of
      digits that is directly followed by `%`. */
  function Percent(s: string): Option<nat>
    decreases |s|
  {
    if |s| == 0 then None
    else if !IsDigit(s[0]) then Percent(s[1..])
    else
      var k := DigitRun(s);
      if k < |s| && s[k] == '%' then Some(DigitsValue(s[..k])) else Percent(s[k..])
  }

  /** A `%` at position `j` right after a digit: where a match of `(\d+)%` ends. */
  ghost predicate MarkerAt(s: string, j: int)
  {
    0 < j < |s| && s[j] == '%' && IsDigit(s[j - 1])
  }

  /** `s[i..j]` is a whole run of digits ending at the first marker, and `v` its value. */
  ghost predicate FirstMatch(s: string, i: int, j: int, v: nat)
  {
    && 0 <= i < j < |s|
    && MarkerAt(s, j)
    && (forall j' :: 0 <= j' < j ==> !MarkerAt(s, j'))
    && (i == 0 || !IsDigit(s[i - 1]))
    && AllDigits(s[i..j])
    && v == DigitsValue(s[i..j])
  }

  /** What `PercentSpec` states about `s`. */
  ghost predicate PercentMeaning(s: string)
  {
    && (Percent(s).None? <==> forall j :: 0 <= j < |s| ==> !MarkerAt(s, j))
    && (Percent(s).Some? ==> exists i, j :: FirstMatch(s, i, j, Percent(s).value))
  }

  /** `Percent` finds nothing exactly when no `%` follows a digit, and otherwise reports
      the whole digit run in front of the first such `%`. */
  lemma {:induction false} PercentSpec(s: string)
    ensures Percent(s).None? <==> forall j :: 0 <= j < |s| ==> !MarkerAt(s, j)
    ensures Percent(s).Some? ==> exists i, j :: FirstMatch(s, i, j, Percent(s).value)
    decreases |s|
  {
    if |s| == 0 {
    } else if !IsDigit(s[0]) {
      PercentSpec(s[1..]);
      PercentSkip(s);
    } else if DigitRun(s) < |s| && s[DigitRun(s)] == '%' {
      PercentHit(s);
    } else {
      PercentSpec(s[DigitRun(s)..]);
      PercentPastRun(s);
    }
  }

  /** A leading non-digit is skipped. */
  lemma PercentSkip(s: string)
    requires |s| > 0 && !IsDigit(s[0]) && PercentMeaning(s[1..])
    ensures PercentMeaning(s)
  {
    var t := s[1..];
    assert forall j :: 1 < j < |s| ==> (MarkerAt(s, j) <==> MarkerAt(t, j - 1));
    assert !MarkerAt(s, 0) && !MarkerAt(s, 1);
    if Percent(t).Some? {
      var i', j' :| FirstMatch(t, i', j', Percent(t).value);
      assert s[i' + 1..j' + 1] == t[i'..j'];
      assert FirstMatch(s, i' + 1, j' + 1, Percent(s).value);
    } else {
      forall j | 0 <= j < |s| ensures !MarkerAt(s, j) {
        if j > 1 { assert !MarkerAt(t, j - 1); }
      }
    }
  }

  /** A leading digit run followed by `%` is the match. */
  lemma PercentHit(s: string)
    requires |s| > 0 && IsDigit(s[0]) && DigitRun(s) < |s| && s[DigitRun(s)] == '%'
    ensures PercentMeaning(s)
  {
    var k := DigitRun(s);
    assert forall j :: 0 <= j < k ==> !MarkerAt(s, j);
    assert FirstMatch(s, 0, k, Percent(s).value);
  }

  /** A leading digit run not followed by `%` is skipped as a whole. */
  lemma PercentPastRun(s: string)
    requires |s| > 0 && IsDigit(s[0]) && !(DigitRun(s) < |s| && s[DigitRun(s)] == '%')
    requires PercentMeaning(s[DigitRun(s)..])
    ensures PercentMeaning(s)
  {
    var k := DigitRun(s);
    var t := s[k..];
    assert Percent(s) == Percent(t);
    if Percent(t).Some? {
      PastRunFound(s, k, Percent(t).value);
    } else {
      PastRunNone(s, k);
    }
  }

  /** No match after a skipped digit run means no match at all. */
  lemma PastRunNone(s: string, k: nat)
    requires 0 < k <= |s| && !(k < |s| && s[k] == '%')
    requires forall j :: 0 <= j < k ==> IsDigit(s[j])
    requires forall j :: 0 <= j < |s[k..]| ==> !MarkerAt(s[k..], j)
    ensures forall j :: 0 <= j < |s| ==> !MarkerAt(s, j)
  {
    var t := s[k..];
    forall j | 0 <= j < |s| ensures !MarkerAt(s, j) {
      if j < k {
        assert IsDigit(s[j]);
      } else if j > k {
        assert !MarkerAt(t, j - k);
        assert s[j] == t[j - k] && s[j - 1] == t[j - k - 1];
      }
    }
  }

  /** The match after a skipped digit run, seen from the whole string. */
  lemma PastRunFound(s: string, k: nat, v: nat)
    requires 0 < k <= |s| && !(k < |s| && s[k] == '%')
    requires forall j :: 0 <= j < k ==> IsDigit(s[j])
    requires k < |s| ==> !IsDigit(s[k])
    requires exists i, j :: FirstMatch(s[k..], i, j, v)
    ensures exists i, j :: FirstMatch(s, i, j, v)
  {
    var t := s[k..];
    var i', j' :| FirstMatch(t, i', j', v);
    assert i' > 0 by {
      assert IsDigit(t[i'..j'][0]);
    }
    assert s[i' + k..j' + k] == t[i'..j'];
    assert s[i' + k - 1] == t[i' - 1];
    forall j0 | 0 <= j0 < j' + k ensures !MarkerAt(s, j0) {
      if j0 > k {
        assert s[j0] == t[j0 - k] && s[j0 - 1] == t[j0 - k - 1];
        assert !MarkerAt(t, j0 - k);
      }
    }
    assert FirstMatch(s, i' + k, j' + k, v);
  }

  /** `line.strip()` of every line the tool printed. */
  function StrippedLines(raw: seq<string>): (lines: seq<string>)
    ensures |lines| == |raw|
    ensures forall i :: 0 <= i < |raw| ==> lines[i] == Strip(raw[i])
  {
    seq(|raw|, i requires 0 <= i < |raw| => Strip(raw[i]))
  }

  // ---------------------------------------------------------------------------
  // One output line
  // ---------------------------------------------------------------------------

  /** The record after one output line: the line is logged and becomes the message; a
      percentage in it becomes the progress, otherwise the progress stays. */
  function ApplyLine(rec: Job, line: string): (r: Job)
    ensures r.detailedLogs == rec.detailedLogs + [line]
    ensures r.message == line
    ensures Percent(line).Some? ==> r.progress == Percent(line).value
    ensures Percent(line).None? ==> r.progress == rec.progress
    ensures r.status == rec.status && r.inputPath == rec.inputPath && r.outputPath == rec.outputPath
    ensures r.meta == rec.meta && r.errorDetails == rec.errorDetails && r.completedTime == rec.completedTime
  {
    var logged := rec.(detailedLogs := rec.detailedLogs + [line]);
    match Percent(line)
    case Some(p) => Merge(logged, JobUpdate(None, Some(p), Some(line), None, None))
    case None => logged.(message := line)
  }

  /** `lines_since_save` and `last_save_time`. */
  datatype Batch = Batch(sinceSave: nat, lastSaveTime: int)

  /** After counting the current line: at least ten lines and two seconds since the last
      batched save. */
  predicate BatchDue(b: Batch, now: int)
  {
    b.sinceSave + 1 >= BatchSize && now - b.lastSaveTime >= SaveIntervalMs
  }

  function BatchTick(b: Batch, now: int): (r: Batch)
    ensures BatchDue(b, now) ==> r == Batch(0, now)
    ensures !BatchDue(b, now) ==> r == Batch(b.sinceSave + 1, b.lastSaveTime)
  {
    if BatchDue(b, now) then Batch(0, now) else Batch(b.sinceSave + 1, b.lastSaveTime)
  }

  /** The counter after a sequence of clock readings, one per line. */
  function BatchRun(b: Batch, clock: seq<int>): Batch
  {
    if |clock| == 0 then b else BatchTick(BatchRun(b, clock[..|clock| - 1]), clock[|clock| - 1])
  }

  /** How many batched saves a sequence of lines triggers. */
  function BatchSaves(b: Batch, clock: seq<int>): nat
  {
    if |clock| == 0 then 0
    else
      var n := |clock| - 1;
      BatchSaves(b, clock[..n]) + (if BatchDue(BatchRun(b, clock[..n]), clock[n]) then 1 else 0)
  }

  /** The clock readings at which the batched saves happen. */
  function SaveTimes(b: Batch, clock: seq<int>): seq<int>
  {
    if |clock| == 0 then []
    else
      var n := |clock| - 1;
      SaveTimes(b, clock[..n]) + (if BatchDue(BatchRun(b, clock[..n]), clock[n]) then [clock[n]] else [])
  }

  /** Batched saves are at least two seconds apart, the first at least two seconds after
      the save before the loop, and the counter remembers when the last one happened. */
  lemma {:induction false} BatchSavesSpaced(b: Batch, clock: seq<int>)
    ensures |SaveTimes(b, clock)| == BatchSaves(b, clock)
    ensures BatchRun(b, clock).lastSaveTime
         == if |SaveTimes(b, clock)| == 0 then b.lastSaveTime else SaveTimes(b, clock)[|SaveTimes(b, clock)| - 1]
    ensures |SaveTimes(b, clock)| > 0 ==> SaveTimes(b, clock)[0] - b.lastSaveTime >= SaveIntervalMs
    ensures forall k :: 0 < k < |SaveTimes(b, clock)| ==>
      SaveTimes(b, clock)[k] - SaveTimes(b, clock)[k - 1] >= SaveIntervalMs
  {
    if |clock| > 0 {
      var n := |clock| - 1;
      BatchSavesSpaced(b, clock[..n]);
      var prev := SaveTimes(b, clock[..n]);
      if BatchDue(BatchRun(b, clock[..n]), clock[n]) {
        assert SaveTimes(b, clock) == prev + [clock[n]];
      } else {
        assert SaveTimes(b, clock) == prev;
      }
    }
  }

  /** Batching bounds the saves: at most one per ten lines. */
  lemma {:induction false} BatchSavesBound(b: Batch, clock: seq<int>)
    ensures BatchSaves(b, clock) * BatchSize + BatchRun(b, clock).sinceSave <= b.sinceSave + |clock|
  {
    if |clock| > 0 {
      BatchSavesBound(b, clock[..|clock| - 1]);
    }
  }

  // ---------------------------------------------------------------------------
  // The output loop
  // ---------------------------------------------------------------------------

  /** What the output loop carries from line to line: the job's record, the batch
      counter, and the debounce state of the registry file. */
  datatype Pump = Pump(rec: Job, batch: Batch, store: Store<map<JobId, Job>>)

  /** One line: log it and update the record (saving when the progress reaches 100, as
      `update_job_status` does), then save if a batch is due. `others` is the rest of the
      registry, which the loop does not touch. */
  function PumpLine(others: map<JobId, Job>, id: JobId, writable: bool, p: Pump, line: string, now: int): Pump
  {
    var rec := ApplyLine(p.rec, line);
    var snapshot := others[id := rec];
    var afterUpdate := if Percent(line) == Some(100) then Save(p.store, snapshot, writable) else p.store;
    var afterBatch := if BatchDue(p.batch, now) then Save(afterUpdate, snapshot, writable) else afterUpdate;
    Pump(rec, BatchTick(p.batch, now), afterBatch)
  }

  /** The loop over all lines, `clock[k]` being the time read after line `k`. */
  function PumpLines(others: map<JobId, Job>, id: JobId, writable: bool, p: Pump,
                     lines: seq<string>, clock: seq<int>): Pump
    requires |lines| == |clock|
  {
    if |lines| == 0 then p
    else
      var n := |lines| - 1;
      PumpLine(others, id, writable, PumpLines(others, id, writable, p, lines[..n], clock[..n]), lines[n], clock[n])
  }

  /** Running the loop one line further. */
  lemma PumpLinesSnoc(others: map<JobId, Job>, id: JobId, writable: bool, p: Pump,
                      lines: seq<string>, clock: seq<int>, i: nat)
    requires |lines| == |clock| && i < |lines|
    ensures PumpLines(others, id, writable, p, lines[..i + 1], clock[..i + 1])
         == PumpLine(others, id, writable, PumpLines(others, id, writable, p, lines[..i], clock[..i]), lines[i], clock[i])
  {
    assert lines[..i + 1][..i] == lines[..i] && clock[..i + 1][..i] == clock[..i];
  }

  /** The progress after a sequence of lines: unchanged when no line carries a percentage,
      otherwise the percentage of the last line that does. */
  ghost predicate ProgressAfter(lines: seq<string>, before: int, after: int)
  {
    || (after == before && forall k :: 0 <= k < |lines| ==> Percent(lines[k]).None?)
    || exists k :: 0 <= k < |lines| && Percent(lines[k]) == Some(after)
                   && forall k' :: k < k' < |lines| ==> Percent(lines[k']).None?
  }

  lemma ProgressAfterStep(lines: seq<string>, line: string, before: int, mid: int, after: int)
    requires ProgressAfter(lines, before, mid)
    requires Percent(line).Some? ==> after == Percent(line).value
    requires Percent(line).None? ==> after == mid
    ensures ProgressAfter(lines + [line], before, after)
  {
    var all := lines + [line];
    if Percent(line).Some? {
      assert Percent(all[|lines|]) == Some(after);
    } else if after == before && forall k :: 0 <= k < |lines| ==> Percent(lines[k]).None? {
      assert forall k :: 0 <= k < |all| ==> Percent(all[k]).None? by {
        forall k | 0 <= k < |all| ensures Percent(all[k]).None? {
          if k < |lines| { assert all[k] == lines[k]; }
        }
      }
    } else {
      var k :| 0 <= k < |lines| && Percent(lines[k]) == Some(mid)
               && forall k' :: k < k' < |lines| ==> Percent(lines[k']).None?;
      assert all[k] == lines[k];
      assert forall k' :: k < k' < |all| ==> Percent(all[k']).None? by {
        forall k' | k < k' < |all| ensures Percent(all[k']).None? {
          if k' < |lines| { assert all[k'] == lines[k']; }
        }
      }
    }
  }

  /** What one line does to the loop state. */
  lemma PumpLineEffect(others: map<JobId, Job>, id: JobId, writable: bool, p: Pump, line: string, now: int)
    ensures var q := PumpLine(others, id, writable, p, line, now);
      && q.rec == ApplyLine(p.rec, line)
      && q.batch == BatchTick(p.batch, now)
      && (p.store.Consistent() ==> q.store.Consistent())
  {
  }

  /** What the output loop has done once it has read `lines` from `p` and reached `q`:
      every line is logged in order, the last line is the message, the progress is the
      last percentage seen, the other fields are untouched, the counter has ticked once
      per line, and the fingerprint invariant is kept. */
  ghost predicate PumpSummary(p: Pump, lines: seq<string>, clock: seq<int>, q: Pump)
  {
    && q.rec.detailedLogs == p.rec.detailedLogs + lines
    && (|lines| > 0 ==> q.rec.message == lines[|lines| - 1])
    && ProgressAfter(lines, p.rec.progress, q.rec.progress)
    && q.rec.status == p.rec.status && q.rec.inputPath == p.rec.inputPath
    && q.rec.outputPath == p.rec.outputPath && q.rec.meta == p.rec.meta
    && q.rec.errorDetails == p.rec.errorDetails && q.rec.completedTime == p.rec.completedTime
    && q.batch == BatchRun(p.batch, clock)
    && (p.store.Consistent() ==> q.store.Consistent())
  }

  /** The summary extends by one line. */
  lemma PumpStep(others: map<JobId, Job>, id: JobId, writable: bool, p: Pump,
                 lines: seq<string>, clock: seq<int>, mid: Pump)
    requires |lines| == |clock| && |lines| > 0
    requires PumpSummary(p, lines[..|lines| - 1], clock[..|clock| - 1], mid)
    ensures PumpSummary(p, lines, clock,
                        PumpLine(others, id, writable, mid, lines[|lines| - 1], clock[|clock| - 1]))
  {
    var n := |lines| - 1;
    PumpLineEffect(others, id, writable, mid, lines[n], clock[n]);
    assert lines == lines[..n] + [lines[n]];
    assert (p.rec.detailedLogs + lines[..n]) + [lines[n]] == p.rec.detailedLogs + lines;
    ProgressAfterStep(lines[..n], lines[n], p.rec.progress, mid.rec.progress,
                      ApplyLine(mid.rec, lines[n]).progress);
  }

  /** The whole output loop satisfies the summary. */
  lemma {:induction false} PumpEffect(others: map<JobId, Job>, id: JobId, writable: bool, p: Pump,
                                      lines: seq<string>, clock: seq<int>)
    requires |lines| == |clock|
    ensures PumpSummary(p, lines, clock, PumpLines(others, id, writable, p, lines, clock))
  {
    if |lines| == 0 {
      assert p.rec.detailedLogs + lines == p.rec.detailedLogs;
    } else {
      var n := |lines| - 1;
      PumpEffect(others, id, writable, p, lines[..n], clock[..n]);
      PumpStep(others, id, writable, p, lines, clock, PumpLines(others, id, writable, p, lines[..n], clock[..n]));
    }
  }

  // ---------------------------------------------------------------------------
  // The outcome
  // ---------------------------------------------------------------------------

  /** `'\n'.join(full_output[-10:]) if full_output else "No output captured"` */
  function ErrorTail(output: seq<string>): string
  {
    if |output| == 0 then NoOutputCaptured else Join(Last(output, TailLines), '\n')
  }

  /** The error details hold exactly the last (up to) ten output lines, in order. */
  lemma ErrorTailLines(output: seq<string>)
    requires |output| > 0
    requires forall k :: 0 <= k < |output| ==> '\n' !in output[k]
    ensures Split(ErrorTail(output), '\n') == Last(output, TailLines)
    ensures |Last(output, TailLines)| == if |output| < TailLines then |output| else TailLines
  {
    var tail := Last(output, TailLines);
    assert forall k :: 0 <= k < |tail| ==> tail[k] == output[|output| - |tail| + k];
    SplitJoin(tail, '\n');
  }

  /** Whether the output file exists with a non-zero size. */
  predicate OutputReady(size: Option<nat>) { size.Some? && size.value > 0 }

  /** The update and the index entry (if any) that end a run whose tool exited. */
  datatype Finish = Finish(update: JobUpdate, entry: Option<IndexEntry>)

  /** The terminal decision once the tool has exited: only a zero exit code with a
      non-empty output file completes the job (progress 100, indexed under the output
      path with the record's metadata); every other case fails it, and a non-zero code
      carries the tail of the output as error details. */
  function Outcome(exitCode: int, outputSize: Option<nat>, output: seq<string>,
                   rec: Job, outputPath: Path, now: int): (r: Finish)
    ensures r.update.status == Some(if exitCode == 0 && OutputReady(outputSize) then Completed else Failed)
    ensures r.update.completedTime == Some(now)
    ensures r.entry.Some? <==> r.update.status == Some(Completed)
    ensures r.entry.Some? ==> r.entry.value == IndexEntry(outputPath, rec.meta) && r.update.progress == Some(100)
    ensures r.update.status == Some(Failed) ==> r.update.progress.None?
    ensures exitCode != 0 ==> r.update.errorDetails == Some(ErrorTail(output))
    ensures exitCode == 0 ==> r.update.errorDetails.None?
    ensures r.update.message.Some? && |r.update.message.value| > 0
    ensures r.update.message == Some(CompletedMessage) <==> r.update.status == Some(Completed)
    ensures exitCode == 0 && !OutputReady(outputSize) ==> r.update.message == Some(NoOutputMessage)
    ensures exitCode != 0 ==> r.update.message == Some(ExitCodeMessage(exitCode))
  {
    if exitCode == 0 then
      if OutputReady(outputSize) then
        Finish(JobUpdate(Some(Completed), Some(100), Some(CompletedMessage), None, Some(now)),
               Some(IndexEntry(outputPath, rec.meta)))
      else
        assert NoOutputMessage[11] != CompletedMessage[11];
        Finish(JobUpdate(Some(Failed), None, Some(NoOutputMessage), None, Some(now)), None)
    else
      ExitCodeNotCompleted(exitCode);
      Finish(JobUpdate(Some(Failed), None, Some(ExitCodeMessage(exitCode)), Some(ErrorTail(output)), Some(now)),
             None)
  }

  /** `f'Conversion failed with code {returncode}! Check logs for details.'` */
  function ExitCodeMessage(code: int): string
  {
    ExitCodePrefix + IntToString(code) + ExitCodeSuffix
  }

  lemma ExitCodeNotCompleted(code: int)
    ensures ExitCodeMessage(code) != CompletedMessage
  {
    assert ExitCodeMessage(code)[11] == 'f' && CompletedMessage[11] == 'c';
  }

  /** The exit code can be read back from the failure message: the text between the fixed
      prefix and suffix is its decimal form, with a minus sign when it is negative (a
      process killed by a signal). */
  lemma ExitCodeReadBack(code: int)
    ensures var m := ExitCodeMessage(code);
      && StartsWith(m, ExitCodePrefix) && EndsWith(m, ExitCodeSuffix)
      && |ExitCodePrefix| < |m| - |ExitCodeSuffix|
    ensures var m := ExitCodeMessage(code);
      var text := m[|ExitCodePrefix|..|m| - |ExitCodeSuffix|];
      if code >= 0 then AllDigits(text) && DigitsValue(text) == code
      else text[0] == '-' && AllDigits(text[1..]) && DigitsValue(text[1..]) == -code
  {
    var m := ExitCodeMessage(code);
    var digits := IntToString(code);
    assert m == ExitCodePrefix + digits + ExitCodeSuffix;
    assert m[..|ExitCodePrefix|] == ExitCodePrefix;
    assert m[|m| - |ExitCodeSuffix|..] == ExitCodeSuffix;
    assert m[|ExitCodePrefix|..|m| - |ExitCodeSuffix|] == digits;
    if code >= 0 {
      DigitsOfNatToString(code);
    } else {
      assert digits[1..] == NatToString(-code);
      DigitsOfNatToString(-code);
    }
  }

  /** `update_job_status(job_id, status='failed', message=error_msg, error_details=error_msg,
      completed_time=...)` for an exception `e`, where `error_msg == "Error: " + str(e)`. */
  function ExceptionUpdate(error: string, now: int): (u: JobUpdate)
    ensures u.status == Some(Failed) && u.completedTime == Some(now)
    ensures u.message == u.errorDetails == Some("Error: " + error)
  {
    JobUpdate(Some(Failed), None, Some("Error: " + error), Some("Error: " + error), Some(now))
  }

  /** What the outside world does during one run: the output of the metadata reader
      (`None` when it failed), an error raised when starting the converter, the lines it
      printed with the time read after each, its exit code, and the size of its output
      file afterwards (`None` when there is none). */
  datatype ToolRun = ToolRun(
    metaOutput: Option<string>,
    spawnError: Option<string>,
    output: seq<string>,
    clock: seq<int>,
    exitCode: int,
    outputSize: Option<nat>)

  /** The input checks of `run_conversion`: the file must exist and be non-empty. */
  predicate InputUsable(inputPath: Path, files: map<Path, nat>)
  {
    inputPath in files && files[inputPath] > 0
  }

  /** The one path that ends in `completed`. */
  predicate Succeeds(inputPath: Path, files: map<Path, nat>, run: ToolRun)
  {
    InputUsable(inputPath, files) && run.spawnError.None? && run.exitCode == 0 && OutputReady(run.outputSize)
  }

  /** Every way out leaves the record terminal, stamped, and marked for a save; the job
      completes with progress 100 exactly on a clean exit with output. */
  lemma OutcomeTerminal(exitCode: int, outputSize: Option<nat>, output: seq<string>,
                        rec: Job, outputPath: Path, now: int)
    ensures var f := Outcome(exitCode, outputSize, output, rec, outputPath, now);
      var r := Merge(rec, f.update);
      && r.status.IsTerminal() && r.completedTime == Some(now) && TriggersSave(f.update)
      && (r.status == Completed <==> exitCode == 0 && OutputReady(outputSize))
      && (r.status == Completed ==> r.progress == 100)
      && r.detailedLogs == rec.detailedLogs
  {
  }
}
