# EPUB to PDF conversion service: a Dafny model of its orchestration core

The service takes an uploaded EPUB and runs the `ebook-convert` tool on it in a background
thread. It tracks every job in an in-memory registry (`conversion_progress`). It keeps an
index of finished artifacts (`completed_files`). Both dictionaries are mirrored to JSON files,
and a file is rewritten only when its content changed since the last successful write. A
cleaner thread deletes expired jobs and their files. Clients follow a job through a polling
Server-Sent-Events stream and a JSON status endpoint, and fetch the PDF from two download
routes.

This project models that core in `app.py`:

- `jobs.dfy`, module `Jobs`: the job record, the index entry, and the shared state (`World`:
  registry, index, files on disk with their sizes). It also holds the partial-update merge of
  `update_job_status`.
- `persistence.dfy`, module `Persistence`: the debounced writes of `save_jobs` and
  `save_completed_files`, and the lazy reload (`dict.update` from the file).
- `metadata.dfy`, module `Metadata`: `get_epub_metadata` over the metadata tool's printed
  output, including the author clean-up and the file-name sanitiser.
- `command.dfy`, module `Command`: `build_conversion_command`, `get_env_params` and the two
  device presets.
- `conversion.dfy`, module `Conversion`: the pure parts of `run_conversion`. These are the
  `(\d+)%` progress pattern, one output line, the batched saving counter, the fold of the
  output loop, and the terminal outcome.
- `sweep.dfy`, module `Sweep`: one pass of `job_cleaner`, including its behaviour when an
  expired job has no index entry.
- `stream.dfy`, module `Stream`: the `/progress/<job_id>` generator, taken as a function of
  the states its polls observe, and the method that runs its loop.
- `delivery.dfy`, module `Delivery`: download resolution and naming, the status reply, and the
  disclaimer's timeout in minutes.
- `service.dfy`, module `Service`: class `ConversionService`, whose fields are the
  module-level state. Its methods update that state in place and are proved against the
  functions above.
- `text.dfy` and `wrappers.dfy`: string helpers (strip, split, join, integer printing) and
  `Option`.

Time is an integer number of milliseconds. `JOB_TIMEOUT` stays in seconds and is multiplied
by 1000 where it is compared. The converter and the metadata tool are not run. What they
print, their exit code, the size of the output file and any error raised when starting the
converter are parameters (`Conversion.ToolRun`). The MD5 fingerprint of the JSON dump is
modelled by the dumped content itself. This is the idealisation that the hash has no
collisions.

## Model

| member | source | states |
|---|---|---|
| Jobs.Merge | app.py:390-399 | every field the update gives is overwritten; every field it omits, and the paths, logs and metadata, keep their values |
| Jobs.UpdateRegistry | app.py:387-399 | an unknown id leaves the registry unchanged; for a known id only that record changes (by `Merge`), and the key set is unchanged |
| Jobs.MergeIdempotent | app.py:390-399 | applying the same update twice is the same as applying it once |
| Persistence.Loaded | app.py:275-279 | at start-up a fingerprint is recorded exactly when the loaded map is non-empty, and it agrees with the file |
| Persistence.Save | app.py:76-99 | a save writes exactly when the disk accepts it and the recorded fingerprint is missing or different; after a write the file and fingerprint equal the current map; otherwise nothing changes |
| Persistence.SaveSynchronises | app.py:84-96 | on a writable disk, after any save the file holds the current state and its fingerprint is recorded |
| Persistence.SaveConsistent | app.py:92-99 | a save, failed or not, never records a fingerprint that differs from the file |
| Persistence.SaveIdempotent | app.py:86-90 | a second save of an unchanged state writes nothing and changes nothing |
| Persistence.ReloadIfKnown | app.py:1106-1111 | the file is merged in only when it knows the key; entries from the file win; the key set becomes the union |
| Metadata.KeepAllowed | app.py:146 | the result keeps only word characters, whitespace and `-`, every character comes from the input, and clean input is returned unchanged |
| Metadata.KeepAllowedOne | app.py:146 | one character is kept exactly when it is a word character, whitespace or `-` |
| Metadata.KeepAllowedConcat | app.py:146 | the filter works part by part: filtering a concatenation is concatenating the filtered parts, in order |
| Metadata.SanitizeShape | app.py:145-146 | a sanitised name holds no disallowed character, no upper-case letter and no space, and has no whitespace at either end |
| Metadata.SanitizeIdempotent | app.py:145-146 | sanitising a sanitised name changes nothing |
| Metadata.AuthorName | app.py:140-143 | the cleaned author has no `(`, and has no `,` whenever the raw one had one |
| Metadata.AuthorNameValue | app.py:140-143 | the author is cut at whichever of `,` and `(` comes first and stripped there; an author with neither is kept as it is |
| Metadata.ScanFails | app.py:136-150 | reading the listing fails (and the defaults are used) exactly when some `Title`/`Author(s)` line has no colon |
| Metadata.ScanLast | app.py:136-143 | the title comes from the last `Title` line (stripped text after its first colon) and the author from the last `Author(s)` line (the same, then cleaned), each the default when there is no such line |
| Metadata.EpubMetadata | app.py:117-152 | a metadata tool that could not run yields `unknown`/`ebook` |
| Metadata.EpubMetadataRead | app.py:127-150 | for any printed listing: a `Title`/`Author(s)` line without a colon yields `unknown`/`ebook`; otherwise the result is the sanitised title of the last `Title` line and the sanitised, cleaned author of the last `Author(s)` line, `ebook`/`unknown` standing in for a missing one |
| Metadata.EpubMetadataSanitized | app.py:145-150 | whatever the tool prints, both author and title come out sanitised |
| Command.SelectedMembership | app.py:188-195 | a flag is on the command line exactly when its setting is on |
| Command.BuildCommandShape | app.py:166-195 | the command has 21 fixed arguments (tool, the two paths, the valued options), then one argument per flag that is on, at most 25 in all |
| Command.ParseBuildCommand | app.py:154-199 | reading the command line back yields exactly the two paths and every parameter that went in |
| Command.EnvBoolIgnoresCase | app.py:302-303 | a flag variable reads the same whatever the case of its value |
| Command.EnvBoolSpellings | app.py:302-303 | `TRUE`, `Yes`, `Y` and `1` switch a flag on; `on`, `no`, `0`, `False` and the empty value switch it off |
| Command.EnvBoolDefault | app.py:302-303 | an unset flag variable keeps its default, through `str(default).lower()` |
| Command.EnvParamsUnset | app.py:287-307 | with no variable set the preset is exactly its defaults |
| Command.EnvParamsAgree | app.py:299-305 | the preset depends only on the variables `<PREFIX>_<OPTION>` of its own options: two environments that agree on those give the same preset |
| Command.EnvIgnoresOthers | app.py:299-305 | setting any other variable leaves the preset unchanged |
| Command.EnvSetsOwnOption | app.py:299-305 | setting `<PREFIX>_CUSTOM_SIZE` makes that value the custom size; setting `<PREFIX>_EMBED_ALL_FONTS` turns the flag on exactly when its lower-cased value is a true spelling |
| Command.PresetsIndependent | app.py:299-305 | a variable of the reMarkable preset never changes the Boox Air 4C preset, and the other way round |
| Conversion.RunningRecord | app.py:434-444 | the record installed before the converter starts is running, at 1 percent, with the message `Running conversion...`, the job's own input and output paths, empty logs, no error details, no completion time and the book's metadata |
| Conversion.PercentSpec | app.py:455-471 | no progress is read exactly when no digit is directly followed by `%`; otherwise the value is the whole digit run ending at the first such `%` |
| Conversion.ApplyLine | app.py:463-474 | a line is appended to the logs and becomes the message; a percentage in it becomes the progress, otherwise the progress stays; nothing else changes |
| Conversion.BatchSavesBound | app.py:458-480 | batched saves happen at most once per ten output lines |
| Conversion.BatchSavesSpaced | app.py:476-480 | consecutive batched saves are at least two seconds apart, the first at least two seconds after the start of the loop, and the counter remembers the time of the last one |
| Conversion.PumpEffect | app.py:462-480 | after the output loop the logs are the old logs followed by every line in order, the message is the last line, the progress is the last percentage seen (or unchanged), the other fields are untouched, and the fingerprint agreement is kept |
| Conversion.ErrorTailLines | app.py:523 | the error details of a failed run hold exactly the last (up to) ten output lines, in order |
| Conversion.Outcome | app.py:487-532 | only a zero exit code with a non-empty output file completes the job (progress 100, the completion message, index entry with the output path and the record's metadata); a zero code without output fails with the missing-output message; a non-zero code fails with the message naming the code and carries the output tail as error details; every case has a non-empty message and is stamped with the completion time |
| Conversion.ExitCodeReadBack | app.py:528 | the failure message of a non-zero exit holds the code in decimal, with a minus sign when negative, between its fixed prefix and suffix |
| Conversion.ExceptionUpdate | app.py:536-548 | an exception fails the job with `Error: ` and the error as both message and error details, stamped with the time |
| Conversion.OutcomeTerminal | app.py:487-534 | once the tool has exited the record is terminal, stamped and marked for a save; it is completed, at progress 100, exactly on a clean exit with output; its logs are kept |
| Sweep.Select | app.py:240-246 | the selection holds exactly the expired jobs (terminal, stamped, timeout elapsed), each once |
| Sweep.SelectOne | app.py:243-246 | on one job the selection is that job exactly when it has expired |
| Sweep.SelectConcat | app.py:243-246 | the selection works part by part: selecting from a concatenation concatenates the selections, in order |
| Sweep.SelectKeepsOrder | app.py:243-246 | of two expired jobs, the one earlier in registry order is selected earlier |
| Sweep.Processed | app.py:248-271 | the pass handles the selected jobs in order and stops just after the first one that has no index entry, or handles all of them when every one has an entry |
| Sweep.RemoveFile | app.py:252-259 | removing a file deletes exactly that path, unless the path is empty, and leaves every other file and size alone |
| Sweep.SweepPass | app.py:240-271 | one pass deletes the handled jobs from the registry and the index and removes the files those jobs name, and nothing else |
| Sweep.PartialClosed | app.py:248-268 | handling the selected jobs one at a time equals deleting them all at once from both maps and removing all their files |
| Sweep.SweepKeepsLive | app.py:243-246 | no record is rewritten; a job that has not expired stays, and so does the index entry of any id that is not an expired job |
| Sweep.SweepRemovesExpired | app.py:248-268 | when every expired job has an index entry, no expired job is left after the pass |
| Sweep.SweepStopsAtMissingEntry | app.py:265-271 | the first expired job without an index entry is still deleted from the registry, but every expired job after it in registry order stays until a later pass |
| Sweep.SweepShrinks | app.py:248-265 | a pass with at least one expired job always makes the registry smaller |
| Stream.Trimmed | app.py:732-737 | a streamed record carries only its last hundred log lines and is otherwise the record itself |
| Stream.StreamTick | app.py:726-777 | per poll: a registered job is sent with its retry count reset and ends the stream exactly when it is terminal; a job known only to the index ends the stream exactly when its file exists; an unknown job counts a miss and ends the stream on the thirty-first miss |
| Stream.RunShape | app.py:721-779 | a stream sends at most one event per poll, only its last event is terminal, and it has ended exactly when its last event is terminal |
| Stream.MissesThenLost | app.py:762-777 | while the job is nowhere the stream stays silent, and on the thirty-first consecutive miss it reports a lost connection and ends |
| Stream.SilentWhileFileMissing | app.py:742-761 | a job known only to the index whose file is missing keeps the stream polling without sending anything |
| Stream.Open | app.py:689-719 | at opening, an unknown job is reported not found, an indexed job whose file exists is reported complete with the index's metadata, and anything else is polled |
| Stream.EvictedMidStream | app.py:726-777 | a running job that disappears from both maps produces its one snapshot followed by the lost-connection failure |
| Stream.UnknownJob | app.py:689-698 | the stream of a job nobody knows is a single terminal not-found failure |
| Stream.StreamEvents | app.py:680-779 | the generator sends exactly the events of the stream function: the opening decision, then the polls |
| Stream.Poll | app.py:721-779 | the polling loop sends exactly the events, and ends exactly when, the per-poll rule applied to the observed states says |
| Delivery.DownloadName | app.py:831-836 | the name ends in `.pdf`; with metadata it is the author, a hyphen, the title and `.pdf`; without, it is `converted_` followed by the first (up to) eight characters of the id |
| Delivery.DownloadNameSafe | app.py:831-834 | a name built from sanitised metadata contains no `/` or `\` |
| Delivery.MirrorEntry | app.py:838-843 | the index entry written by a download keeps the output path and always has metadata, defaulting to `unknown`/`ebook` |
| Delivery.ReloadForDownload | app.py:803-814 | both files are reloaded only for an id neither map knows, and each only when it knows the id |
| Delivery.Resolve | app.py:816-878 | a completed record whose output exists is served first, under its own name, and mirrored into the index; otherwise an index entry whose file exists is served; otherwise nothing is; a served path always exists |
| Delivery.MirrorOutlivesRecord | app.py:838-868 | after a registry download, a record evicted from the registry while its index entry and file remain is still served from the index with the same file; the name is unchanged when the record had metadata and becomes `unknown-ebook.pdf` when it had none |
| Delivery.SweptNotServed | app.py:243-268 | once a sweep pass has removed a job's record, neither the download nor the status endpoint finds the job |
| Delivery.ResolveStable | app.py:816-868 | serving twice in a row serves the same file under the same name and leaves the same index |
| Delivery.DownloadUrl | app.py:1120-1121 | the link ends with the job's API download route |
| Delivery.DownloadUrlSlash | app.py:1120-1121 | a trailing slash on the root URL does not change the download link |
| Delivery.StatusOf | app.py:1113-1154 | a registered job is reported as its record without the detailed log, plus its last ten log lines, the link `<root>/api/v1/jobs/<id>/download` exactly when completed, and the name `author-title.pdf` exactly when completed with metadata; an unregistered job whose indexed file exists is reported as archived, completed at progress 100 with the fixed message, the same link, the index's metadata and the name built from it; anything else is not found |
| Delivery.StatusNamesDownload | app.py:1124-1145 | whenever the status names a file that exists, a download sends that file under that name |
| Delivery.TimeoutMinutes | app.py:969 | the disclaimer's minutes are the timeout rounded up to whole minutes |
| Service.ConversionService.constructor | app.py:275-279 | start-up loads both maps and records a fingerprint only for a non-empty one |
| Service.ConversionService.SaveJobs | app.py:76-99 | the method writes exactly when `Persistence.Save` says so and keeps the fingerprint agreement; on a writable disk the file holds the registry afterwards |
| Service.ConversionService.SaveCompletedFiles | app.py:212-231 | the same for the index |
| Service.ConversionService.UpdateJobStatus | app.py:374-402 | the registry becomes `UpdateRegistry` of the old one; it is saved exactly when the id is known and the update is significant |
| Service.ConversionService.ProcessLine | app.py:463-480 | one output line changes the registry, the counter and the store exactly as `PumpLine` does |
| Service.ConversionService.PumpOutput | app.py:462-480 | the whole output loop leaves the job's record and the store as `PumpLines` over the stripped lines |
| Service.ConversionService.FinishRun | app.py:487-534 | the terminal update of `Outcome` is applied; the index gains the entry (and is saved) exactly on completion |
| Service.ConversionService.FailRun | app.py:536-550 | the job, when registered, fails with the exception's message, and the registry is saved |
| Service.ConversionService.RunConversion | app.py:404-550 | a missing or empty input fails the job with the source's message; otherwise the job keeps its input and output paths and ends terminal and stamped; it is completed exactly when the input is usable, the converter started, exited with zero and left a non-empty output; then progress is 100, the message is the completion message, the logs are all stripped output lines, the metadata is the sanitised one and the index gains the entry; a non-zero exit and a missing output fail with their own messages; other records are untouched |
| Service.ConversionService.Execute | app.py:446-534 | from the running record: the paths and metadata are kept, the logs become the stripped output, the run ends terminal and stamped with the message of `Outcome`, and completion, index entry and error details follow `Outcome` |
| Service.ConversionService.Settle | app.py:483-534 | after the converter exits, the record becomes `Merge` of the old record with the update of `Outcome` (so its paths, logs and metadata are kept) and the index entry is applied |
| Service.ConversionService.Retire | app.py:250-268 | one expired job: its files, record and index entry go as in `Sweep.Retired`, both maps are saved, and it reports whether the index had no entry |
| Service.ConversionService.SweepOnce | app.py:236-271 | one cycle of the cleaner leaves exactly the state of `Sweep.SweepPass` |
| Service.ConversionService.ServeDownload | app.py:788-878 | the file sent and the new maps are those of `ReloadForDownload` then `Resolve`; the index is saved exactly when it was mirrored |
| Service.ConversionService.ReloadJobs | app.py:1105-1111 | the registry is merged with its file only for an unknown id that the file knows |
| Service.ConversionService.JobStatus | app.py:1093-1154 | the reply is `StatusOf` on the state after the reload |
| Service.ConversionService.OpenStream | app.py:680-719 | the opening decision is `Stream.Open` on the state after the reload |

## Left out

- The HTTP layer is not modelled: Flask routing, request parsing, JSON encoding, response headers (cache control, ETag), `send_file`, templates and translations.
- The submission routes (`index` POST and `api_convert`), file-upload validation and the `starting` record they create are not part of this model. Every record is taken to have both paths.
- `system_info`, `api_health`, `api_device_profiles` and `get_calibre_version` are not modelled: they only report on the environment.
- The converter and metadata tools are not run. Their output, exit code, output size and start-up error are parameters, and `universal_newlines` decoding is not modelled.
- Threads are not modelled. The converter threads, the cleaner thread and the request handlers interleave freely in the service, but here each operation runs atomically. The stream takes the sequence of states its polls observe as input.
- Sleeping is not modelled: the 0.5-second poll interval and the 30-second sweep period.
- The clock is a parameter, read as integer milliseconds. The seconds-based float arithmetic of `time.time()` is not modelled.
- The MD5 of the key-sorted JSON is modelled by the content itself, which assumes no hash collisions.
- Loading a file that is missing or unreadable (which yields an empty map) is not modelled: the file always holds what was last written.
- Write failures are a single flag (`writable`) for the whole run, not per write.
- `os.remove` and `send_file` are taken never to fail, although the source catches and logs their errors.
- `\w`, `\s`, `\d`, `str.lower`, `str.upper` and `str.strip` are modelled on ASCII only, with no Unicode categories.
- An index entry that has only one of author and title cannot be represented, because this code never writes one. Metadata is present as a pair or absent.
- Service.ConversionService.RunConversion: the only exceptions modelled are the two input checks and an error raised when starting the converter. An exception in the middle of the output loop is not modelled.
- Stream.StreamEvents: the stream is modelled only over the finite sequence of polls supplied. Whether it ends is not claimed: `Stream.SilentWhileFileMissing` shows it can poll forever.
- Command.EnvSetsOwnOption: the effect of setting an option's own variable is stated for one valued option (`custom_size`) and one flag (`embed_all_fonts`), not separately for each of the twenty options; `Command.EnvParamsAgree` and `Command.EnvIgnoresOthers` state for all of them that nothing else affects the preset.
- Logging is not modelled.
