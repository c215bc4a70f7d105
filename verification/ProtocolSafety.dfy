/** No loss and exactly-once storage, over every run of the protocol. */
module ProtocolSafety {
  import opened Clock
  import opened Wire
  import opened SpoolTable
  import opened Results
  import opened Protocol

  /** The stored rows of one run of one source, in insertion order. */
  function RowsFor(table: seq<ResultRow>, source: string, run: string): seq<ResultRow> {
    if table == [] then []
    else
      var before := RowsFor(table[..|table| - 1], source, run);
      var last := table[|table| - 1];
      if last.key.source == source && last.key.run == run then before + [last] else before
  }

  /** The whole batch of this request is stored, and nothing else of its run. */
  predicate WholeBatchStored(table: seq<ResultRow>, req: ResultsRequest) {
    req.results != [] && RowsFor(table, req.sourceId, req.probeRunId) == RowsOf(req)
  }

  // ------------------------------------------------------------ the invariant

  ghost predicate SpoolInv(env: Env, s: State) {
    && Valid(s.db)
    && (forall id :: id in s.db.rows ==> Spooled(s, s.db.rows[id]))
    && (forall r :: r in s.hist.enqueued && s.hist.enqueued[r].Json? ==>
          s.hist.enqueued[r].req.probeRunId == r && s.hist.enqueued[r].req.sourceId == env.source)
  }

  /** The row carries the payload that was enqueued under its run id. */
  predicate Spooled(s: State, row: Row) {
    row.runId in s.hist.enqueued && s.hist.enqueued[row.runId] == row.payload
  }

  ghost predicate DrainerInv(s: State) {
    forall p, c :: p in s.drainers && Holds(s.drainers[p], c) ==> CandidateOk(s, c)
  }

  predicate Holds(d: Drainer, c: Candidate) {
    c in d.todo || (d.phase.Waiting? && d.phase.c == c) || (d.phase.Answered? && d.phase.c == c)
  }

  /** If the candidate's id is still in the spool, it is still the same run. */
  predicate CandidateOk(s: State, c: Candidate) {
    && Spooled(s, c.row)
    && c.id < s.db.nextId
    && (c.id in s.db.rows ==> s.db.rows[c.id].runId == c.row.runId)
  }

  ghost predicate SentInv(s: State) {
    forall q :: q in s.sent ==> IsEnqueued(s, q)
  }

  predicate IsEnqueued(s: State, q: ResultsRequest) {
    q.probeRunId in s.hist.enqueued && s.hist.enqueued[q.probeRunId] == Json(q)
  }

  /** The results table holds, of each run of this source, nothing or its batch. */
  ghost predicate TableInv(env: Env, s: State) {
    && UniqueKeys(s.ctl.table)
    && (forall run :: NothingOrWhole(env, s, run))
  }

  predicate NothingOrWhole(env: Env, s: State, run: string) {
    var rows := RowsFor(s.ctl.table, env.source, run);
    rows == [] ||
    (run in s.hist.enqueued && s.hist.enqueued[run].Json? && WholeBatchStored(s.ctl.table, s.hist.enqueued[run].req))
  }

  /** An accepted answer of this source is backed by the whole batch. */
  ghost predicate AnswerInv(env: Env, s: State) {
    && (forall h :: h in s.ctl.handlers ==> Backed(env, s, h))
    && (forall h :: h in s.replies ==> Backed(env, s, h))
    && (forall p :: p in s.drainers && s.drainers[p].phase.Answered? && s.drainers[p].phase.outcome.Accepted? ==>
          Stored(s, s.drainers[p].phase.c.row.payload))
    && (forall run :: run in s.hist.delivered ==>
          run in s.hist.enqueued && Stored(s, s.hist.enqueued[run]))
  }

  predicate Backed(env: Env, s: State, h: Handler) {
    h.req.sourceId == env.source ==> IsEnqueued(s, h.req) && WholeBatchStored(s.ctl.table, h.req)
  }

  predicate Stored(s: State, payload: Payload) {
    payload.Json? && IsEnqueued(s, payload.req) && WholeBatchStored(s.ctl.table, payload.req)
  }

  /** Every enqueued run is spooled, delivered or dropped. */
  ghost predicate NoLossInv(s: State) {
    forall run :: run in s.hist.enqueued ==>
      HasRun(s.db.rows, run) || run in s.hist.delivered || run in s.hist.dropped
  }

  ghost predicate Inv(env: Env, s: State) {
    && SpoolInv(env, s)
    && DrainerInv(s)
    && SentInv(s)
    && TableInv(env, s)
    && AnswerInv(env, s)
    && NoLossInv(s)
  }

  // -------------------------------------------------- what every step leaves

  /** Steps only add: payloads and stored rows stay, ids are never reused. */
  ghost predicate Extends(s: State, s': State) {
    && (forall r :: r in s.hist.enqueued ==>
          r in s'.hist.enqueued && s'.hist.enqueued[r] == s.hist.enqueued[r])
    && s.db.nextId <= s'.db.nextId
    && (forall id :: id in s'.db.rows && id < s.db.nextId ==>
          id in s.db.rows && s'.db.rows[id].runId == s.db.rows[id].runId
          && s'.db.rows[id].payload == s.db.rows[id].payload)
    && s.ctl.table <= s'.ctl.table
  }

  lemma StepExtends(env: Env, s: State, step: Step)
    requires Enabled(env, s, step)
    ensures Extends(s, Apply(env, s, step))
  {
  }

  /** Only an enqueue adds a row or a payload. */
  lemma RowsOnlyLeave(env: Env, s: State, step: Step)
    requires Enabled(env, s, step) && !step.Enqueue?
    ensures var s' := Apply(env, s, step);
            && s'.db.nextId == s.db.nextId && s'.hist.enqueued == s.hist.enqueued
            && (forall id :: id in s'.db.rows ==>
                  && id in s.db.rows
                  && s'.db.rows[id].runId == s.db.rows[id].runId
                  && s'.db.rows[id].payload == s.db.rows[id].payload)
  {
  }

  lemma SpoolEnqueue(env: Env, s: State, step: Step)
    requires Enabled(env, s, step) && step.Enqueue?
    requires SpoolInv(env, s)
    ensures SpoolInv(env, Apply(env, s, step))
  {
    var s' := Apply(env, s, step);
    assert forall id :: id in s'.db.rows && id != s.db.nextId ==> id in s.db.rows && Spooled(s, s.db.rows[id]);
  }

  lemma SpoolStep(env: Env, s: State, step: Step)
    requires Enabled(env, s, step)
    requires SpoolInv(env, s)
    ensures SpoolInv(env, Apply(env, s, step))
  {
    if step.Enqueue? {
      SpoolEnqueue(env, s, step);
    } else {
      RowsOnlyLeave(env, s, step);
      var s' := Apply(env, s, step);
      assert forall id :: id in s'.db.rows ==> Spooled(s, s.db.rows[id]);
    }
  }

  lemma CandidateStays(s: State, s': State, c: Candidate)
    requires CandidateOk(s, c)
    requires Extends(s, s')
    ensures CandidateOk(s', c)
  {
  }

  /** A step's drainers hold only candidates that were held before, or rows
      that are in the spool now. */
  lemma HeldBefore(env: Env, s: State, step: Step, p: int, c: Candidate)
    requires Enabled(env, s, step)
    requires p in Apply(env, s, step).drainers && Holds(Apply(env, s, step).drainers[p], c)
    ensures (p in s.drainers && Holds(s.drainers[p], c)) || (c.id in s.db.rows && s.db.rows[c.id] == c.row)
  {
  }

  lemma DrainerStep(env: Env, s: State, step: Step)
    requires Enabled(env, s, step)
    requires SpoolInv(env, s) && DrainerInv(s)
    ensures DrainerInv(Apply(env, s, step))
  {
    StepExtends(env, s, step);
    var s' := Apply(env, s, step);
    forall p, c | p in s'.drainers && Holds(s'.drainers[p], c) ensures CandidateOk(s', c) {
      HeldBefore(env, s, step, p, c);
      CandidateStays(s, s', c);
    }
  }

  lemma SentStep(env: Env, s: State, step: Step)
    requires Enabled(env, s, step)
    requires SpoolInv(env, s) && DrainerInv(s) && SentInv(s)
    ensures SentInv(Apply(env, s, step))
  {
    StepExtends(env, s, step);
    if step.Send? {
      var c := s.drainers[step.p].todo[0];
      assert Holds(s.drainers[step.p], c);
      assert CandidateOk(s, c);
    }
  }

  // ------------------------------------------------------ the results table

  lemma {:induction false} RowsForAppend(a: seq<ResultRow>, b: seq<ResultRow>, source: string, run: string)
    ensures RowsFor(a + b, source, run) == RowsFor(a, source, run) + RowsFor(b, source, run)
  {
    if b == [] {
      assert a + b == a;
    } else {
      var n := |b| - 1;
      RowsForAppend(a, b[..n], source, run);
      assert (a + b)[..|a + b| - 1] == a + b[..n];
    }
  }

  lemma {:induction false} RowsForAll(rows: seq<ResultRow>, source: string, run: string)
    requires forall i :: 0 <= i < |rows| ==> rows[i].key.source == source && rows[i].key.run == run
    ensures RowsFor(rows, source, run) == rows
  {
    if rows != [] {
      var n := |rows| - 1;
      RowsForAll(rows[..n], source, run);
      assert rows == rows[..n] + [rows[n]];
    }
  }

  lemma {:induction false} RowsForNone(rows: seq<ResultRow>, source: string, run: string)
    ensures RowsFor(rows, source, run) == [] <==>
              forall i :: 0 <= i < |rows| ==> !(rows[i].key.source == source && rows[i].key.run == run)
  {
    if rows != [] {
      RowsForNone(rows[..|rows| - 1], source, run);
    }
  }

  /** Each run owns its keys, so a batch adds to its own run and no other. */
  lemma RowsForBatch(table: seq<ResultRow>, req: ResultsRequest, source: string, run: string)
    ensures RowsFor(table + RowsOf(req), source, run)
         == RowsFor(table, source, run)
            + if req.sourceId == source && req.probeRunId == run then RowsOf(req) else []
  {
    RowsForAppend(table, RowsOf(req), source, run);
    if req.sourceId == source && req.probeRunId == run {
      RowsForAll(RowsOf(req), source, run);
    } else {
      RowsForNone(RowsOf(req), source, run);
    }
  }

  /** A batch of this source collides exactly when its run is already stored,
      and then its whole batch is. */
  lemma CollisionMeansStored(env: Env, s: State, req: ResultsRequest)
    requires ValidRequest(env.source, req)
    requires IsEnqueued(s, req)
    requires NothingOrWhole(env, s, req.probeRunId)
    ensures Fresh(s.ctl.table, RowsOf(req)) <==> RowsFor(s.ctl.table, env.source, req.probeRunId) == []
    ensures !Fresh(s.ctl.table, RowsOf(req)) ==> WholeBatchStored(s.ctl.table, req)
  {
    var table := s.ctl.table;
    ValidBatchFresh(env.source, req, table);
    RowsForNone(table, env.source, req.probeRunId);
    var first := RowOf(req, req.results[0]);
    if RowsFor(table, env.source, req.probeRunId) != [] {
      assert RowsFor(table, env.source, req.probeRunId)[0] == RowsOf(req)[0] == first;
      RowsForMember(table, env.source, req.probeRunId, first);
      assert HasKey(table, first.key);
    }
  }

  lemma {:induction false} RowsForMember(table: seq<ResultRow>, source: string, run: string, row: ResultRow)
    requires row in RowsFor(table, source, run)
    ensures HasKey(table, row.key)
  {
    var n := |table| - 1;
    if row in RowsFor(table[..n], source, run) {
      RowsForMember(table[..n], source, run, row);
      var i :| 0 <= i < n && table[..n][i].key == row.key;
      assert table[i].key == row.key;
    } else {
      assert table[n] == row;
    }
  }

  lemma TableStep(env: Env, s: State, step: Step)
    requires Enabled(env, s, step)
    requires SpoolInv(env, s) && SentInv(s) && TableInv(env, s)
    ensures TableInv(env, Apply(env, s, step))
  {
    var s' := Apply(env, s, step);
    if step.Transact? && Fresh(s.ctl.table, RowsOf(step.req)) {
      FreshKeepsUnique(s.ctl.table, RowsOf(step.req));
      forall run ensures NothingOrWhole(env, s', run) {
        assert NothingOrWhole(env, s, run);
        StoreKeepsNothingOrWhole(env, s, step, run);
      }
    } else {
      StepExtends(env, s, step);
      forall run ensures NothingOrWhole(env, s', run) {
        assert NothingOrWhole(env, s, run);
      }
    }
  }

  lemma StoreKeepsNothingOrWhole(env: Env, s: State, step: Step, run: string)
    requires step.Transact? && Enabled(env, s, step) && Fresh(s.ctl.table, RowsOf(step.req))
    requires SentInv(s) && SpoolInv(env, s)
    requires NothingOrWhole(env, s, run)
    ensures NothingOrWhole(env, Apply(env, s, step), run)
  {
    var req := step.req;
    RowsForBatch(s.ctl.table, req, env.source, run);
    if req.sourceId == env.source && req.probeRunId == run {
      assert IsEnqueued(s, req);
      CollisionMeansStored(env, s, req);
    }
  }

  // ------------------------------------------------------------ answers, loss

  lemma StoredStays(env: Env, s: State, s': State, req: ResultsRequest)
    requires req.sourceId == env.source
    requires IsEnqueued(s, req) && WholeBatchStored(s.ctl.table, req)
    requires Extends(s, s') && NothingOrWhole(env, s', req.probeRunId)
    ensures IsEnqueued(s', req) && WholeBatchStored(s'.ctl.table, req)
  {
    var more := s'.ctl.table[|s.ctl.table|..];
    assert s'.ctl.table == s.ctl.table + more;
    RowsForAppend(s.ctl.table, more, env.source, req.probeRunId);
  }

  lemma BackedStays(env: Env, s: State, s': State, h: Handler)
    requires Backed(env, s, h)
    requires Extends(s, s') && TableInv(env, s')
    ensures Backed(env, s', h)
  {
    if h.req.sourceId == env.source {
      assert NothingOrWhole(env, s', h.req.probeRunId);
      StoredStays(env, s, s', h.req);
    }
  }

  lemma PayloadStays(env: Env, s: State, s': State, payload: Payload)
    requires SpoolInv(env, s)
    requires Stored(s, payload)
    requires Extends(s, s') && TableInv(env, s')
    ensures Stored(s', payload)
  {
    assert NothingOrWhole(env, s', payload.req.probeRunId);
    StoredStays(env, s, s', payload.req);
  }

  /** The handler of a transaction that has just ended is backed. */
  lemma NewHandlerBacked(env: Env, s: State, step: Step)
    requires Enabled(env, s, step) && step.Transact?
    requires SpoolInv(env, s) && SentInv(s) && TableInv(env, s)
    ensures Backed(env, Apply(env, s, step), Handler(step.req, Ingest(s.ctl.table, step.req).0))
  {
    var req := step.req;
    if req.sourceId == env.source {
      assert IsEnqueued(s, req);
      assert NothingOrWhole(env, s, req.probeRunId);
      CollisionMeansStored(env, s, req);
      RowsForBatch(s.ctl.table, req, env.source, req.probeRunId);
    }
  }

  lemma HandlersStep(env: Env, s: State, step: Step)
    requires Enabled(env, s, step) && Inv(env, s)
    requires TableInv(env, Apply(env, s, step))
    ensures forall h :: h in Apply(env, s, step).ctl.handlers ==> Backed(env, Apply(env, s, step), h)
    ensures forall h :: h in Apply(env, s, step).replies ==> Backed(env, Apply(env, s, step), h)
  {
    StepExtends(env, s, step);
    var s' := Apply(env, s, step);
    forall h | h in s.ctl.handlers || h in s.replies ensures Backed(env, s', h) {
      BackedStays(env, s, s', h);
    }
    if step.Transact? {
      NewHandlerBacked(env, s, step);
    }
    if step.Respond? {
      assert s.ctl.handlers[step.i] in s.ctl.handlers;
    }
  }

  /** A drainer holds an accepted outcome only for a stored payload. */
  lemma AcceptedStep(env: Env, s: State, step: Step, p: int)
    requires Enabled(env, s, step) && Inv(env, s)
    requires TableInv(env, Apply(env, s, step))
    requires p in Apply(env, s, step).drainers
    requires Apply(env, s, step).drainers[p].phase.Answered?
    requires Apply(env, s, step).drainers[p].phase.outcome.Accepted?
    ensures Stored(Apply(env, s, step), Apply(env, s, step).drainers[p].phase.c.row.payload)
  {
    StepExtends(env, s, step);
    var s' := Apply(env, s, step);
    var payload := s'.drainers[p].phase.c.row.payload;
    if step.Hear? && step.p == p {
      var c := s.drainers[p].phase.c;
      assert Holds(s.drainers[p], c) && CandidateOk(s, c);
      assert Backed(env, s, Handler(payload.req, step.status));
    } else {
      assert p in s.drainers && s.drainers[p] == s'.drainers[p];
    }
    PayloadStays(env, s, s', payload);
  }

  lemma DeliveredStep(env: Env, s: State, step: Step, run: string)
    requires Enabled(env, s, step) && Inv(env, s)
    requires TableInv(env, Apply(env, s, step))
    requires run in Apply(env, s, step).hist.delivered
    ensures run in Apply(env, s, step).hist.enqueued
    ensures Stored(Apply(env, s, step), Apply(env, s, step).hist.enqueued[run])
  {
    StepExtends(env, s, step);
    if run !in s.hist.delivered {
      var c := s.drainers[step.p].phase.c;
      assert Holds(s.drainers[step.p], c) && CandidateOk(s, c);
    }
    PayloadStays(env, s, Apply(env, s, step), s.hist.enqueued[run]);
  }

  lemma AnswerStep(env: Env, s: State, step: Step)
    requires Enabled(env, s, step) && Inv(env, s)
    requires TableInv(env, Apply(env, s, step))
    ensures AnswerInv(env, Apply(env, s, step))
  {
    var s' := Apply(env, s, step);
    HandlersStep(env, s, step);
    forall p | p in s'.drainers && s'.drainers[p].phase.Answered? && s'.drainers[p].phase.outcome.Accepted?
      ensures Stored(s', s'.drainers[p].phase.c.row.payload)
    {
      AcceptedStep(env, s, step, p);
    }
    forall run | run in s'.hist.delivered
      ensures run in s'.hist.enqueued && Stored(s', s'.hist.enqueued[run])
    {
      DeliveredStep(env, s, step, run);
    }
  }

  lemma NoLossStep(env: Env, s: State, step: Step)
    requires Enabled(env, s, step)
    requires SpoolInv(env, s) && NoLossInv(s)
    ensures NoLossInv(Apply(env, s, step))
  {
    var s' := Apply(env, s, step);
    forall run | run in s'.hist.enqueued
      ensures HasRun(s'.db.rows, run) || run in s'.hist.delivered || run in s'.hist.dropped
    {
      if step.Enqueue? && run == step.runId {
        assert s'.db.rows[s.db.nextId].runId == run;
      } else if HasRun(s.db.rows, run) {
        var id :| id in s.db.rows && s.db.rows[id].runId == run;
        assert id in s'.db.rows ==> s'.db.rows[id].runId == run;
      }
    }
  }

  lemma InvStep(env: Env, s: State, step: Step)
    requires Enabled(env, s, step) && Inv(env, s)
    ensures Inv(env, Apply(env, s, step))
  {
    SpoolStep(env, s, step);
    DrainerStep(env, s, step);
    SentStep(env, s, step);
    TableStep(env, s, step);
    AnswerStep(env, s, step);
    NoLossStep(env, s, step);
  }

  lemma {:induction false} InvRun(env: Env, states: seq<State>, steps: seq<Step>, n: nat)
    requires IsRun(env, states, steps) && n < |states|
    ensures Inv(env, states[n])
  {
    if n > 0 {
      InvRun(env, states, steps, n - 1);
      InvStep(env, states[n - 1], steps[n - 1]);
    }
  }

  // ------------------------------------------------------------- the theorems

  /** No loss: at every point of every run, each run id ever enqueued is still
      spooled with its payload, or its whole batch is stored at the controller,
      or retention removed it; and a row that was deleted on an accepted answer
      has its whole batch stored. */
  lemma NoLoss(env: Env, states: seq<State>, steps: seq<Step>, n: nat, run: string)
    requires IsRun(env, states, steps) && n < |states|
    requires run in states[n].hist.enqueued
    ensures var s, payload := states[n], states[n].hist.enqueued[run];
            || (exists id :: id in s.db.rows && s.db.rows[id].runId == run && s.db.rows[id].payload == payload)
            || (payload.Json? && WholeBatchStored(s.ctl.table, payload.req))
            || run in s.hist.dropped
    ensures run in states[n].hist.delivered ==>
              && states[n].hist.enqueued[run].Json?
              && WholeBatchStored(states[n].ctl.table, states[n].hist.enqueued[run].req)
  {
    InvRun(env, states, steps, n);
    var s := states[n];
    if HasRun(s.db.rows, run) {
      var id :| id in s.db.rows && s.db.rows[id].runId == run;
      assert Spooled(s, s.db.rows[id]);
    }
  }

  /** A spooled row is the row that some enqueue put there: under that run id and
      with that payload, dated by the second in which the enqueue ran. Failures
      never move it in the queue. */
  lemma {:induction false} RowOrigin(env: Env, states: seq<State>, steps: seq<Step>, n: nat, id: int) returns (i: nat)
    requires IsRun(env, states, steps) && n < |states| && id in states[n].db.rows
    ensures i < n && steps[i].Enqueue?
    ensures var row := states[n].db.rows[id];
            && row.runId == steps[i].runId && row.payload == steps[i].payload
            && row.enqueuedAt % SECOND == 0 && row.enqueuedAt <= states[i].clock < row.enqueuedAt + SECOND
  {
    var s, step := states[n - 1], steps[n - 1];
    if step.Enqueue? && id == s.db.nextId {
      i := n - 1;
    } else {
      RowStays(env, s, step, id);
      i := RowOrigin(env, states, steps, n - 1, id);
    }
  }

  lemma RowStays(env: Env, s: State, step: Step, id: int)
    requires Enabled(env, s, step) && id in Apply(env, s, step).db.rows
    requires !(step.Enqueue? && id == s.db.nextId)
    ensures id in s.db.rows
    ensures var a, b := s.db.rows[id], Apply(env, s, step).db.rows[id];
            a.runId == b.runId && a.payload == b.payload && a.enqueuedAt == b.enqueuedAt
  {
  }

  /** Exactly once: no key is stored twice, and of each run of this source the
      controller holds nothing or exactly the rows of its one batch. */
  lemma ExactlyOnce(env: Env, states: seq<State>, steps: seq<Step>, n: nat, run: string)
    requires IsRun(env, states, steps) && n < |states|
    ensures UniqueKeys(states[n].ctl.table)
    ensures var rows := RowsFor(states[n].ctl.table, env.source, run);
            rows == [] ||
            (run in states[n].hist.enqueued && states[n].hist.enqueued[run].Json?
             && rows == RowsOf(states[n].hist.enqueued[run].req))
  {
    InvRun(env, states, steps, n);
    assert NothingOrWhole(env, states[n], run);
  }

  /** And what it holds of a run reads back as the observations that were
      enqueued, each with its target, latency, error and time. */
  lemma StoredObservations(env: Env, states: seq<State>, steps: seq<Step>, n: nat, run: string)
    requires IsRun(env, states, steps) && n < |states|
    requires RowsFor(states[n].ctl.table, env.source, run) != []
    ensures run in states[n].hist.enqueued && states[n].hist.enqueued[run].Json?
    ensures var rows, req := RowsFor(states[n].ctl.table, env.source, run), states[n].hist.enqueued[run].req;
            && Observations(rows) == req.results
            && forall i :: 0 <= i < |rows| ==> Preserves(rows[i], req, req.results[i])
  {
    ExactlyOnce(env, states, steps, n, run);
    ReadBack(states[n].hist.enqueued[run].req);
  }

  /** Both accepted statuses tell the truth: when a transaction for this source
      ends in 201 or 409, the whole batch is stored from then on. */
  lemma {:induction false} AcceptedMeansStored(env: Env, states: seq<State>, steps: seq<Step>, i: nat, n: nat)
    requires IsRun(env, states, steps) && i < n < |states|
    requires steps[i].Transact? && steps[i].auth == env.source
    ensures IsEnqueued(states[n], steps[i].req) && WholeBatchStored(states[n].ctl.table, steps[i].req)
  {
    InvRun(env, states, steps, n - 1);
    if n == i + 1 {
      NewHandlerBacked(env, states[i], steps[i]);
    } else {
      AcceptedMeansStored(env, states, steps, i, n - 1);
      StoredStep(env, states[n - 1], steps[n - 1], steps[i].req);
    }
  }

  lemma StoredStep(env: Env, s: State, step: Step, req: ResultsRequest)
    requires Enabled(env, s, step) && Inv(env, s)
    requires IsEnqueued(s, req) && WholeBatchStored(s.ctl.table, req)
    ensures IsEnqueued(Apply(env, s, step), req) && WholeBatchStored(Apply(env, s, step).ctl.table, req)
  {
    StepExtends(env, s, step);
    TableStep(env, s, step);
    PayloadStays(env, s, Apply(env, s, step), Json(req));
  }

  predicate Disjoint(a: ResultsRequest, b: ResultsRequest) {
    forall i, j :: 0 <= i < |a.results| && 0 <= j < |b.results| ==> a.results[i].targetId != b.results[j].targetId
  }

  /** Why run ids must be fresh: take two valid batches with the same source and
      run id. Both are answered 201 if and only if their targets are disjoint,
      and the run then holds the rows of both. Otherwise the second is answered
      409, its sender deletes it, and unless it is the first batch over again it
      is not stored. */
  lemma ReusedRunIdMixes(auth: string, table: seq<ResultRow>, a: ResultsRequest, b: ResultsRequest)
    requires ValidRequest(auth, a) && ValidRequest(auth, b) && a.probeRunId == b.probeRunId
    requires RowsFor(table, auth, a.probeRunId) == []
    ensures Ingest(table, a).0 == CREATED
    ensures var (status, after) := Ingest(Ingest(table, a).1, b);
            && (status == CREATED <==> Disjoint(a, b))
            && (status == CREATED ==> RowsFor(after, auth, a.probeRunId) == RowsOf(a) + RowsOf(b))
            && (status != CREATED ==>
                  && status == CONFLICT && after == Ingest(table, a).1
                  && (WholeBatchStored(after, b) <==> RowsOf(a) == RowsOf(b)))
  {
    FirstIsStored(auth, table, a);
    if Disjoint(a, b) {
      FreshBeside(auth, table, RowsOf(a), b);
      RowsForBatch(table + RowsOf(a), b, auth, a.probeRunId);
    } else {
      OverlapCollides(auth, table, a, b);
    }
  }

  lemma FirstIsStored(auth: string, table: seq<ResultRow>, a: ResultsRequest)
    requires ValidRequest(auth, a) && RowsFor(table, auth, a.probeRunId) == []
    ensures Ingest(table, a) == (CREATED, table + RowsOf(a))
    ensures RowsFor(table + RowsOf(a), auth, a.probeRunId) == RowsOf(a)
  {
    FreshBeside(auth, table, [], a);
    assert table + [] == table;
    RowsForBatch(table, a, auth, a.probeRunId);
  }

  /** A batch with a target that its run already holds is refused. */
  lemma OverlapCollides(auth: string, table: seq<ResultRow>, a: ResultsRequest, b: ResultsRequest)
    requires ValidRequest(auth, a) && ValidRequest(auth, b) && a.probeRunId == b.probeRunId
    requires !Disjoint(a, b)
    ensures !Fresh(table + RowsOf(a), RowsOf(b))
  {
    var i, j :| 0 <= i < |a.results| && 0 <= j < |b.results| && a.results[i].targetId == b.results[j].targetId;
    var all := table + RowsOf(a);
    assert all[|table| + i] == RowOf(a, a.results[i]);
    assert HasKey(all, RowOf(b, b.results[j]).key);
    ValidBatchFresh(auth, b, all);
  }

  /** A valid batch of a run that is not stored fits beside rows with other
      targets. */
  lemma FreshBeside(auth: string, table: seq<ResultRow>, others: seq<ResultRow>, req: ResultsRequest)
    requires ValidRequest(auth, req) && RowsFor(table, auth, req.probeRunId) == []
    requires forall i, k :: 0 <= i < |others| && 0 <= k < |req.results| ==>
               others[i].key.target != req.results[k].targetId
    ensures Fresh(table + others, RowsOf(req))
  {
    RowsForNone(table, auth, req.probeRunId);
    ValidBatchFresh(auth, req, table + others);
    forall k | 0 <= k < |req.results| ensures !HasKey(table + others, RowOf(req, req.results[k]).key) {
      KeyInEither(table, others, RowOf(req, req.results[k]).key);
    }
  }

  lemma KeyInEither(a: seq<ResultRow>, b: seq<ResultRow>, key: Key)
    ensures HasKey(a + b, key) ==> HasKey(a, key) || HasKey(b, key)
  {
    if HasKey(a + b, key) {
      var i :| 0 <= i < |a + b| && (a + b)[i].key == key;
      assert if i < |a| then a[i].key == key else b[i - |a|].key == key;
    }
  }
}
