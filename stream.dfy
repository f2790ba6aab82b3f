/** The server-sent event stream of `/progress/<job_id>`: after an opening check it polls
    the shared state every half second and emits the job's record until the job is
    terminal, its archived file appears, or it has been missing for too long. Each poll
    sees the shared state as it is at that moment, so the stream is a function of the
    sequence of states it observes. */
module Stream {
  import opened Wrappers
  import opened Text
  import opened Jobs

  const MaxRetries := 30     // consecutive misses tolerated before giving up
  const StreamedLogs := 100  // log lines sent with each record

  const NotFoundDetails :=
    "Der Konvertierungsauftrag wurde nicht gefunden. Dies kann passieren, wenn:\n- Die Seite neu geladen wurde\n- Der Server neu gestartet wurde\n- Der Auftrag bereits abgeschlossen oder abgelaufen ist\n\nBitte versuche es erneut mit einer neuen Konvertierung."
  const ConnectionLostDetails :=
    "Die Verbindung zum Server wurde unterbrochen. Falls die Konvertierung abgeschlossen wurde, sollte die PDF automatisch erscheinen."

  /** One `data:` message: a copy of the job's record, the synthesised completion of an
      archived job, or a failure (status `failed`, progress 0). */
  datatype Event =
    | Snapshot(job: Job)
    | Done(meta: Option<Meta>)
    | Failure(message: string, details: string)

  const NotFound := Failure("Job not found", NotFoundDetails)
  const ConnectionLost := Failure("Connection lost", ConnectionLostDetails)

  /** An event after which the stream ends. */
  predicate Terminal(e: Event)
  {
    match e
    case Snapshot(j) => j.status.IsTerminal()
    case _ => true
  }

  /** The record as streamed: only the last hundred log lines. */
  function Trimmed(j: Job): (r: Job)
    ensures r.detailedLogs == Last(j.detailedLogs, StreamedLogs)
    ensures r == j.(detailedLogs := r.detailedLogs)
  {
    j.(detailedLogs := Last(j.detailedLogs, StreamedLogs))
  }

  /** `retry_count` and `connection_lost`. */
  datatype Session = Session(retryCount: nat, connectionLost: bool)

  const Fresh := Session(0, false)

  datatype Tick = Tick(session: Session, event: Option<Event>, closed: bool)

  /** One iteration of the polling loop against the state `w` it observes. */
  function StreamTick(id: JobId, s: Session, w: World): (t: Tick)
    ensures id in w.jobs ==>
      && t.session == Fresh && t.event == Some(Snapshot(Trimmed(w.jobs[id])))
      && (t.closed <==> w.jobs[id].status.IsTerminal())
    ensures id !in w.jobs && id in w.index ==>
      && t.session == s
      && (t.closed <==> w.index[id].path in w.files)
      && t.event == (if t.closed then Some(Done(w.index[id].meta)) else None)
    ensures id !in w.jobs && id !in w.index ==>
      && t.session == Session(s.retryCount + 1, true)
      && (t.closed <==> s.retryCount + 1 > MaxRetries)
      && t.event == (if t.closed then Some(ConnectionLost) else None)
  {
    if id in w.jobs then
      var j := w.jobs[id];
      Tick(Fresh, Some(Snapshot(Trimmed(j))), j.status.IsTerminal())
    else if id in w.index then
      var e := w.index[id];
      if e.path in w.files then Tick(s, Some(Done(e.meta)), true) else Tick(s, None, false)
    else
      var s' := Session(s.retryCount + 1, true);
      if s'.retryCount > MaxRetries then Tick(s', Some(ConnectionLost), true) else Tick(s', None, false)
  }

  /** What a stream has sent, and whether it has ended. */
  datatype Run = Run(events: seq<Event>, closed: bool)

  /** The polling loop over the states it observes, one per iteration. */
  function RunTicks(id: JobId, s: Session, worlds: seq<World>): Run
    decreases |worlds|
  {
    if |worlds| == 0 then Run([], false)
    else
      var t := StreamTick(id, s, worlds[0]);
      if t.closed then Run(Emitted(t), true)
      else
        var rest := RunTicks(id, t.session, worlds[1..]);
        Run(Emitted(t) + rest.events, rest.closed)
  }

  /** The events one poll sends: none or one. */
  function Emitted(t: Tick): (es: seq<Event>)
    ensures |es| <= 1
  {
    if t.event.Some? then [t.event.value] else []
  }

  /** A poll closes the stream exactly when it sends a terminal event. */
  lemma TickShape(id: JobId, s: Session, w: World)
    ensures var t := StreamTick(id, s, w);
      && (t.closed ==> |Emitted(t)| == 1 && Terminal(Emitted(t)[0]))
      && (!t.closed ==> forall k :: 0 <= k < |Emitted(t)| ==> !Terminal(Emitted(t)[k]))
  {
  }

  /** No event before the last one is terminal. */
  ghost predicate OnlyLastTerminal(es: seq<Event>)
  {
    forall k :: 0 <= k < |es| - 1 ==> !Terminal(es[k])
  }

  lemma ConcatShape(head: seq<Event>, rest: seq<Event>)
    requires forall k :: 0 <= k < |head| ==> !Terminal(head[k])
    requires OnlyLastTerminal(rest)
    ensures OnlyLastTerminal(head + rest)
    ensures |rest| > 0 ==> (head + rest)[|head + rest| - 1] == rest[|rest| - 1]
    ensures |rest| == 0 ==> |head + rest| == 0 || !Terminal((head + rest)[|head + rest| - 1])
  {
    var all := head + rest;
    forall k | 0 <= k < |all| - 1 ensures !Terminal(all[k]) {
      if k < |head| {
        assert all[k] == head[k];
      } else {
        assert all[k] == rest[k - |head|];
      }
    }
  }

  /** One step of the polling loop, unfolded. */
  lemma RunTicksStep(id: JobId, s: Session, worlds: seq<World>)
    requires |worlds| > 0
    ensures var t := StreamTick(id, s, worlds[0]);
      var later := RunTicks(id, t.session, worlds[1..]);
      RunTicks(id, s, worlds)
        == if t.closed then Run(Emitted(t), true) else Run(Emitted(t) + later.events, later.closed)
  {
  }

  /** Only the last event of a stream ends it, and a stream has ended exactly when its
      last event is terminal; it sends at most one event per poll. */
  lemma {:induction false} RunShape(id: JobId, s: Session, worlds: seq<World>)
    ensures var r := RunTicks(id, s, worlds);
      && |r.events| <= |worlds|
      && OnlyLastTerminal(r.events)
      && (r.closed <==> |r.events| > 0 && Terminal(r.events[|r.events| - 1]))
    decreases |worlds|
  {
    if |worlds| > 0 {
      var t := StreamTick(id, s, worlds[0]);
      TickShape(id, s, worlds[0]);
      RunTicksStep(id, s, worlds);
      if !t.closed {
        RunShape(id, t.session, worlds[1..]);
        ConcatShape(Emitted(t), RunTicks(id, t.session, worlds[1..]).events);
      }
    }
  }

  /** While the job is in neither the registry nor the index, every poll is a miss; the
      stream stays silent until the thirty-first consecutive miss, then reports a lost
      connection and ends. */
  lemma {:induction false} MissesThenLost(id: JobId, s: Session, worlds: seq<World>)
    requires s.retryCount <= MaxRetries
    requires forall k :: 0 <= k < |worlds| ==> id !in worlds[k].jobs && id !in worlds[k].index
    ensures RunTicks(id, s, worlds) ==
      if |worlds| > MaxRetries - s.retryCount then Run([ConnectionLost], true) else Run([], false)
    decreases |worlds|
  {
    if |worlds| > 0 {
      var t := StreamTick(id, s, worlds[0]);
      if !t.closed {
        MissesThenLost(id, t.session, worlds[1..]);
      }
    }
  }

  /** A job that is only in the index and whose file is missing keeps the stream polling
      without a word for as long as that lasts. */
  lemma {:induction false} SilentWhileFileMissing(id: JobId, s: Session, worlds: seq<World>)
    requires forall k :: 0 <= k < |worlds| ==>
      id !in worlds[k].jobs && id in worlds[k].index && worlds[k].index[id].path !in worlds[k].files
    ensures RunTicks(id, s, worlds) == Run([], false)
    decreases |worlds|
  {
    if |worlds| > 0 {
      SilentWhileFileMissing(id, s, worlds[1..]);
    }
  }

  /** How the stream starts, after the registry has been reloaded. */
  datatype Opening = NotFoundAtOpen | ArchivedAtOpen(meta: Option<Meta>) | Live

  /** The opening check: unknown everywhere is an immediate failure; known only to the
      index with its file present is an immediate completion; anything else polls. */
  function Open(id: JobId, w: World): (o: Opening)
    ensures o == NotFoundAtOpen <==> id !in w.jobs && id !in w.index
    ensures o.ArchivedAtOpen? <==> id !in w.jobs && id in w.index && w.index[id].path in w.files
    ensures o.ArchivedAtOpen? ==> o.meta == w.index[id].meta
  {
    if id !in w.jobs && id !in w.index then NotFoundAtOpen
    else if id !in w.jobs && w.index[id].path in w.files then ArchivedAtOpen(w.index[id].meta)
    else Live
  }

  /** The whole stream: `w0` is the state at the opening check, `worlds` what each poll
      sees. */
  function StreamRun(id: JobId, w0: World, worlds: seq<World>): Run
  {
    match Open(id, w0)
    case NotFoundAtOpen => Run([NotFound], true)
    case ArchivedAtOpen(m) => Run([Done(m)], true)
    case Live => RunTicks(id, Fresh, worlds)
  }

  /** A job that is running when the stream opens and first polled, and then disappears
      from both the registry and the index (swept or lost), produces exactly its one
      record followed by the lost-connection failure. */
  lemma EvictedMidStream(id: JobId, w0: World, worlds: seq<World>)
    requires id in w0.jobs
    requires |worlds| > MaxRetries + 1
    requires id in worlds[0].jobs && !worlds[0].jobs[id].status.IsTerminal()
    requires forall k :: 1 <= k < |worlds| ==> id !in worlds[k].jobs && id !in worlds[k].index
    ensures StreamRun(id, w0, worlds) == Run([Snapshot(Trimmed(worlds[0].jobs[id])), ConnectionLost], true)
  {
    MissesThenLost(id, Fresh, worlds[1..]);
  }

  /** The stream of a job nobody knows is a single not-found failure. */
  lemma UnknownJob(id: JobId, w0: World, worlds: seq<World>)
    requires id !in w0.jobs && id !in w0.index
    ensures StreamRun(id, w0, worlds).events == [NotFound]
    ensures Terminal(NotFound)
  {
  }

  /** The generator itself: the opening check, then the polling loop. */
  method StreamEvents(id: JobId, w0: World, worlds: seq<World>) returns (r: Run)
    ensures r == StreamRun(id, w0, worlds)
  {
    match Open(id, w0)
    case NotFoundAtOpen => return Run([NotFound], true);
    case ArchivedAtOpen(m) => return Run([Done(m)], true);
    case Live => r := Poll(id, worlds);
  }

  /** What is left of the stream after `events` have been sent, one poll further on. */
  lemma PollStep(id: JobId, session: Session, worlds: seq<World>, i: nat, events: seq<Event>)
    requires i < |worlds|
    ensures var t := StreamTick(id, session, worlds[i]);
      var rest := RunTicks(id, session, worlds[i..]);
      var later := RunTicks(id, t.session, worlds[i + 1..]);
      && (t.closed ==> Run(events + rest.events, rest.closed) == Run(events + Emitted(t), true))
      && (!t.closed ==>
            Run(events + rest.events, rest.closed) == Run((events + Emitted(t)) + later.events, later.closed))
  {
    var t := StreamTick(id, session, worlds[i]);
    var later := RunTicks(id, t.session, worlds[i + 1..]);
    assert worlds[i..][0] == worlds[i] && worlds[i..][1..] == worlds[i + 1..];
    RunTicksStep(id, session, worlds[i..]);
    assert events + (Emitted(t) + later.events) == (events + Emitted(t)) + later.events;
  }

  /** The polling loop of the generator, one observed state per iteration. */
  method Poll(id: JobId, worlds: seq<World>) returns (r: Run)
    ensures r == RunTicks(id, Fresh, worlds)
  {
    ghost var total := RunTicks(id, Fresh, worlds);
    var session := Fresh;
    var events: seq<Event> := [];
    var i := 0;
    while i < |worlds|
      invariant 0 <= i <= |worlds|
      invariant var rest := RunTicks(id, session, worlds[i..]);
        total == Run(events + rest.events, rest.closed)
    {
      var t := StreamTick(id, session, worlds[i]);
      var head := Emitted(t);
      PollStep(id, session, worlds, i, events);
      if t.closed {
        return Run(events + head, true);
      }
      events := events + head;
      session := t.session;
      i := i + 1;
    }
    assert events + [] == events;
    return Run(events, false);
  }
}
