/** The store-and-forward protocol as a state machine: one agent's spool, any
    number of drainer processes on it, the network and the controller.

    A step is one SQL statement, one message or one local decision, so a run
    interleaves drainers freely and may stop any of them between two statements.
    Requests may be lost, delayed past the sender's timeout, or delivered again;
    replies may be lost. The controller may restart at any point. Requests of
    all other nodes are part of every run. */
module Protocol {
  import opened Wire
  import opened SpoolTable
  import opened Results
  import Client

  /** A row as Drain's SELECT returned it. */
  datatype Candidate = Candidate(id: int, row: Row)

  datatype Phase =
    | Selected                                                       // before the clock is read
    | Scanning                                                       // between two rows
    | Waiting(c: Candidate, since: int)                              // request sent at `since`
    | Answered(c: Candidate, since: int, outcome: Outcome)           // outcome not yet recorded
    | Retaining                                                      // between two retention rounds
    | Bumping                                                        // row deleted, counter not yet updated

  datatype Drainer = Drainer(now: int, todo: seq<Candidate>, phase: Phase)

  /** A request whose transaction has ended and whose reply is not yet sent. */
  datatype Handler = Handler(req: ResultsRequest, status: int)

  datatype Controller = Controller(table: seq<ResultRow>, handlers: seq<Handler>, resultsTotal: int)

  /** One recorded failure: the request went out at `since`, the UPDATE ran at `at`. */
  datatype Attempt = Attempt(since: int, at: int)

  /** What a run has done so far; no step depends on it, except that run ids are
      fresh. `delivered` and `dropped` are the runs whose spool row was deleted
      after an accepted answer and by retention; `lostBumps` counts the drains
      interrupted between a retention DELETE and its counter UPDATE; `base` is the size of the
      results table when the controller process started. */
  datatype History = History(
    enqueued: map<string, Payload>,
    delivered: set<string>,
    dropped: set<string>,
    attempts: map<int, seq<Attempt>>,
    lostBumps: nat,
    base: nat)

  datatype State = State(
    clock: int,
    db: Db,
    drainers: map<int, Drainer>,
    sent: set<ResultsRequest>,
    replies: set<Handler>,
    ctl: Controller,
    hist: History)

  datatype Env = Env(source: string, cfg: Config)

  function Init(clock: int): State {
    State(clock, FRESH_DB, map[], {}, {}, Controller([], [], 0), History(map[], {}, {}, map[], 0, 0))
  }

  /** The three rows of spool_meta that hold the saved snapshot. */
  datatype Column = LastDepth | LastOldestAgeSecs | LastDropsTotal

  datatype Step =
    | Tick(to: int)
    | Enqueue(runId: string, payload: Payload)
    | Select(p: int, batch: seq<int>)
    | ReadClock(p: int)
    | Skip(p: int)
    | Send(p: int)
    | Hear(p: int, status: int)
    | GiveUp(p: int, outcome: Outcome)
    | Record(p: int, err: string)
    | StartRetention(p: int)
    | Drop(p: int, id: int)
    | Bump(p: int)
    | Finish(p: int)
    | Interrupt(p: int)
    | Save(column: Column, value: int)
    | Transact(auth: string, req: ResultsRequest)
    | Respond(i: nat)
    | Restart

  ghost predicate Enabled(env: Env, s: State, step: Step) {
    match step
    case Tick(to) => to >= s.clock
    // a probe cycle spools a payload under a run id that was never used before
    case Enqueue(runId, payload) =>
      && runId != "" && !payload.Empty? && runId !in s.hist.enqueued
      && (payload.Json? ==> payload.req.probeRunId == runId && payload.req.sourceId == env.source)
    case Select(p, batch) => p !in s.drainers && IsOldestBatch(s.db.rows, env.cfg.drainRows, batch)
    case ReadClock(p) => p in s.drainers && s.drainers[p].phase.Selected?
    case Skip(p) => AtRow(s, p) && !Due(env.cfg, s.drainers[p].todo[0].row, s.drainers[p].now)
    case Send(p) => AtRow(s, p) && Due(env.cfg, s.drainers[p].todo[0].row, s.drainers[p].now)
    case Hear(p, status) =>
      && p in s.drainers && s.drainers[p].phase.Waiting?
      && s.drainers[p].phase.c.row.payload.Json?
      && Handler(s.drainers[p].phase.c.row.payload.req, status) in s.replies
    case GiveUp(p, outcome) =>
      && p in s.drainers && s.drainers[p].phase.Waiting?
      && (outcome.PermanentFail? || outcome.TransientFail?)
    case Record(p, _) => p in s.drainers && s.drainers[p].phase.Answered?
    case StartRetention(p) => p in s.drainers && s.drainers[p].phase.Scanning? && s.drainers[p].todo == []
    // the footprint is an arbitrary reading, so a bound may always look exceeded
    case Drop(p, id) => p in s.drainers && s.drainers[p].phase.Retaining? && IsOldest(s.db.rows, id)
    case Bump(p) => p in s.drainers && s.drainers[p].phase.Bumping?
    case Finish(p) => p in s.drainers && s.drainers[p].phase.Retaining?
    case Interrupt(p) => p in s.drainers
    // snapshots are saved by cycles, which read what they save at other times
    case Save(_, _) => true
    // this agent's requests come from its drainers; other nodes send what they like
    case Transact(auth, req) => ValidRequest(auth, req) && (auth == env.source ==> req in s.sent)
    case Respond(i) => i < |s.ctl.handlers|
    case Restart => true
  }

  predicate AtRow(s: State, p: int) {
    p in s.drainers && s.drainers[p].phase.Scanning? && s.drainers[p].todo != []
  }

  function SetPhase(s: State, p: int, phase: Phase): map<int, Drainer>
    requires p in s.drainers
  {
    s.drainers[p := s.drainers[p].(phase := phase)]
  }

  function Candidates(t: Table, batch: seq<int>): seq<Candidate>
    requires forall i :: 0 <= i < |batch| ==> batch[i] in t
  {
    seq(|batch|, i requires 0 <= i < |batch| => Candidate(batch[i], t[batch[i]]))
  }

  ghost function Apply(env: Env, s: State, step: Step): State
    requires Enabled(env, s, step)
  {
    match step
    case Tick(to) => s.(clock := to)
    case Enqueue(runId, payload) =>
      s.(db := Insert(s.db, runId, payload, s.clock),
         hist := s.hist.(enqueued := s.hist.enqueued[runId := payload]))
    case Select(p, batch) =>
      s.(drainers := s.drainers[p := Drainer(s.clock, Candidates(s.db.rows, batch), Selected)])
    case ReadClock(p) =>
      s.(drainers := s.drainers[p := s.drainers[p].(now := s.clock, phase := Scanning)])
    case Skip(p) =>
      s.(drainers := s.drainers[p := s.drainers[p].(todo := s.drainers[p].todo[1..])])
    case Send(p) =>
      var d := s.drainers[p];
      s.(drainers := s.drainers[p := d.(todo := d.todo[1..], phase := Waiting(d.todo[0], s.clock))],
         sent := if d.todo[0].row.payload.Json? then s.sent + {d.todo[0].row.payload.req} else s.sent)
    case Hear(p, status) =>
      var ph := s.drainers[p].phase;
      s.(drainers := SetPhase(s, p, Answered(ph.c, ph.since, Client.OutcomeOf(status))))
    case GiveUp(p, outcome) =>
      var ph := s.drainers[p].phase;
      s.(drainers := SetPhase(s, p, Answered(ph.c, ph.since, outcome)))
    case Record(p, err) => ApplyRecord(s, p, err)
    case StartRetention(p) => s.(drainers := SetPhase(s, p, Retaining))
    case Drop(p, id) =>
      s.(db := s.db.(rows := Remove(s.db.rows, id)),
         drainers := SetPhase(s, p, Bumping),
         hist := s.hist.(dropped := s.hist.dropped + {s.db.rows[id].runId}))
    case Bump(p) =>
      s.(db := s.db.(dropsTotal := s.db.dropsTotal + 1), drainers := SetPhase(s, p, Retaining))
    case Finish(p) => s.(drainers := s.drainers - {p})
    case Interrupt(p) =>
      s.(drainers := s.drainers - {p},
         hist := s.hist.(lostBumps := s.hist.lostBumps + if s.drainers[p].phase.Bumping? then 1 else 0))
    case Save(column, value) => s.(db := s.db.(last := Saved(s.db.last, column, value)))
    case Transact(_, req) =>
      var (status, table) := Ingest(s.ctl.table, req);
      s.(ctl := s.ctl.(table := table, handlers := s.ctl.handlers + [Handler(req, status)]))
    case Respond(i) =>
      var h := s.ctl.handlers[i];
      s.(ctl := s.ctl.(handlers := s.ctl.handlers[..i] + s.ctl.handlers[i + 1..],
                       resultsTotal := s.ctl.resultsTotal + Added(h)),
         replies := s.replies + {h})
    case Restart =>
      s.(ctl := s.ctl.(handlers := [], resultsTotal := 0), hist := s.hist.(base := |s.ctl.table|))
  }

  /** UPDATE spool_meta SET value = ? WHERE key = ?. */
  function Saved(last: Snapshot, column: Column, value: int): Snapshot {
    match column
    case LastDepth => last.(depth := value)
    case LastOldestAgeSecs => last.(oldestAgeSecs := value)
    case LastDropsTotal => last.(dropsTotal := value)
  }

  /** The statement that records an outcome. The row may be gone by now. */
  ghost function ApplyRecord(s: State, p: int, err: string): State
    requires p in s.drainers && s.drainers[p].phase.Answered?
  {
    var ph := s.drainers[p].phase;
    var id := ph.c.id;
    var present := id in s.db.rows;
    if ph.outcome.Accepted? then
      s.(db := s.db.(rows := Remove(s.db.rows, id)),
         drainers := SetPhase(s, p, Scanning),
         hist := s.hist.(delivered :=
           if present then s.hist.delivered + {s.db.rows[id].runId} else s.hist.delivered))
    else
      s.(db := s.db.(rows := MarkFailed(s.db.rows, id, s.clock, err)),
         drainers := SetPhase(s, p, Scanning),
         hist := s.hist.(attempts :=
           if present then s.hist.attempts[id := AttemptsOf(s, id) + [Attempt(ph.since, s.clock)]]
           else s.hist.attempts))
  }

  /** The recorded failures of a row, oldest first. */
  function AttemptsOf(s: State, id: int): seq<Attempt> {
    if id in s.hist.attempts then s.hist.attempts[id] else []
  }

  /** What a handler adds to ProbeResultsTotal. */
  function Added(h: Handler): nat {
    if h.status == CREATED then |h.req.results| else 0
  }

  /** `states` is a run taking `steps` from the initial state. */
  ghost predicate IsRun(env: Env, states: seq<State>, steps: seq<Step>) {
    && |states| == |steps| + 1
    && states[0] == Init(states[0].clock)
    && (forall i :: 0 <= i < |steps| ==>
          Enabled(env, states[i], steps[i]) && states[i + 1] == Apply(env, states[i], steps[i]))
  }
}
