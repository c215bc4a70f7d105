/** Ingest of probe results (internal/controller/results.go): validation, the
    transaction that stores a batch, and the counters around it. */
module Results {
  import opened Clock
  import opened Wire
  import DropsMetric

  /** UNIQUE (source_id, probe_run_id, target_id). */
  datatype Key = Key(source: string, run: string, target: string)

  /** A row of probe_results. */
  datatype ResultRow = ResultRow(key: Key, observedAt: int, latencyMs: Option<real>, error: Option<string>)

  function RowOf(req: ResultsRequest, obs: Observation): ResultRow {
    ResultRow(
      Key(req.sourceId, req.probeRunId, obs.targetId),
      if req.observedAt.Some? then ToSecond(req.observedAt.value) else 0,
      obs.latencyMs,
      if obs.error == "" then None else Some(obs.error))
  }

  /** The rows that the whole batch stores, in order. */
  function RowsOf(req: ResultsRequest): seq<ResultRow> {
    seq(|req.results|, i requires 0 <= i < |req.results| => RowOf(req, req.results[i]))
  }

  /** The row keeps everything of the observation: who measured what when, the
      latency, and the error text if there is one. */
  predicate Preserves(row: ResultRow, req: ResultsRequest, obs: Observation) {
    && row.key.source == req.sourceId && row.key.run == req.probeRunId && row.key.target == obs.targetId
    && row.latencyMs == obs.latencyMs
    && (obs.error != "" ==> row.error == Some(obs.error)) && (obs.error == "" ==> row.error.None?)
    && (req.observedAt.Some? ==>
          row.observedAt % SECOND == 0 && row.observedAt <= req.observedAt.value < row.observedAt + SECOND)
  }

  /** The table has grown by one row for each observation, in order. */
  predicate Grown(before: seq<ResultRow>, after: seq<ResultRow>, req: ResultsRequest) {
    && |after| == |before| + |req.results| && after[..|before|] == before
    && (forall i :: 0 <= i < |req.results| ==> Preserves(after[|before| + i], req, req.results[i]))
  }

  /** The observation that a row tells. */
  function Observed(row: ResultRow): Observation {
    Observation(row.key.target, row.latencyMs, if row.error.Some? then row.error.value else "")
  }

  function Observations(rows: seq<ResultRow>): seq<Observation> {
    seq(|rows|, i requires 0 <= i < |rows| => Observed(rows[i]))
  }

  /** Storing loses nothing of a batch: its rows read back as its observations,
      with the second in which they were made. */
  lemma ReadBack(req: ResultsRequest)
    ensures Observations(RowsOf(req)) == req.results
    ensures forall i :: 0 <= i < |req.results| ==> Preserves(RowsOf(req)[i], req, req.results[i])
  {
  }

  predicate HasKey(table: seq<ResultRow>, key: Key) {
    exists i :: 0 <= i < |table| && table[i].key == key
  }

  /** No key is stored twice. */
  predicate UniqueKeys(table: seq<ResultRow>) {
    forall i, j :: 0 <= i < j < |table| ==> table[i].key != table[j].key
  }

  /** The rows can be inserted one after the other without a collision. */
  predicate Fresh(table: seq<ResultRow>, rows: seq<ResultRow>) {
    forall k :: 0 <= k < |rows| ==> !HasKey(table + rows[..k], rows[k].key)
  }

  /** The status and the table that a transaction without other faults leaves. */
  function Ingest(table: seq<ResultRow>, req: ResultsRequest): (int, seq<ResultRow>) {
    if Fresh(table, RowsOf(req)) then (CREATED, table + RowsOf(req)) else (CONFLICT, table)
  }

  // -------------------------------------------------------------- validation

  datatype Defect = TargetRequired | DuplicateTarget | NothingMeasured | NegativeLatency

  datatype Invalid =
    | SourceRequired
    | SourceMismatch
    | RunRequired
    | ObservedAtRequired
    | ResultsRequired
    | BadResult(index: nat, defect: Defect)

  /** The first defect of observation i, checked in the order of the code. */
  function DefectAt(results: seq<Observation>, i: nat): Option<Defect>
    requires i < |results|
  {
    var r := results[i];
    if r.targetId == "" then Some(TargetRequired)
    else if exists j :: 0 <= j < i && results[j].targetId == r.targetId then Some(DuplicateTarget)
    else if r.latencyMs.None? && r.error == "" then Some(NothingMeasured)
    else if r.latencyMs.Some? && r.latencyMs.value < 0.0 then Some(NegativeLatency)
    else None
  }

  predicate WellFormed(r: Observation) {
    && r.targetId != ""
    && (r.latencyMs.Some? || r.error != "")
    && (r.latencyMs.Some? ==> r.latencyMs.value >= 0.0)
  }

  /** What an authenticated node may submit. */
  predicate ValidRequest(auth: string, req: ResultsRequest) {
    && req.sourceId != ""
    && req.sourceId == auth
    && req.probeRunId != ""
    && req.observedAt.Some?
    && req.results != []
    && (forall i :: 0 <= i < |req.results| ==>
          WellFormed(req.results[i]))
    && (forall i, j :: 0 <= i < j < |req.results| ==> req.results[i].targetId != req.results[j].targetId)
  }

  method ValidateResultsRequest(auth: string, req: ResultsRequest) returns (err: Option<Invalid>)
    ensures err.None? <==> ValidRequest(auth, req)
    ensures err.None? <==>
              && req.sourceId != "" && req.sourceId == auth && req.probeRunId != ""
              && req.observedAt.Some? && req.results != []
              && forall i :: 0 <= i < |req.results| ==>
                   && req.results[i].targetId != ""
                   && (req.results[i].latencyMs.Some? || req.results[i].error != "")
                   && (req.results[i].latencyMs.Some? ==> req.results[i].latencyMs.value >= 0.0)
                   && forall j :: 0 <= j < i ==> req.results[j].targetId != req.results[i].targetId
    ensures err.Some? && err.value.BadResult? ==>
              && err.value.index < |req.results|
              && DefectAt(req.results, err.value.index) == Some(err.value.defect)
              && forall j :: 0 <= j < err.value.index ==> DefectAt(req.results, j).None?
    ensures err.Some? && err.value.BadResult? ==>
              var r, i := req.results[err.value.index], err.value.index;
              match err.value.defect
              case TargetRequired => r.targetId == ""
              case DuplicateTarget =>
                r.targetId != "" && exists j :: 0 <= j < i && req.results[j].targetId == r.targetId
              case NothingMeasured => r.targetId != "" && r.latencyMs.None? && r.error == ""
              case NegativeLatency => r.targetId != "" && r.latencyMs.Some? && r.latencyMs.value < 0.0
    ensures req.sourceId == "" <==> err == Some(SourceRequired)
    ensures req.sourceId != "" && req.sourceId != auth <==> err == Some(SourceMismatch)
    ensures req.sourceId != "" && req.sourceId == auth ==>
              && (req.probeRunId == "" <==> err == Some(RunRequired))
              && (req.probeRunId != "" && req.observedAt.None? <==> err == Some(ObservedAtRequired))
              && (req.probeRunId != "" && req.observedAt.Some? && req.results == [] <==> err == Some(ResultsRequired))
  {
    if req.sourceId == "" {
      return Some(SourceRequired);
    }
    if req.sourceId != auth {
      return Some(SourceMismatch);
    }
    if req.probeRunId == "" {
      return Some(RunRequired);
    }
    if req.observedAt.None? {
      return Some(ObservedAtRequired);
    }
    if |req.results| == 0 {
      return Some(ResultsRequired);
    }
    var seen: set<string> := {};
    for i := 0 to |req.results|
      invariant forall t :: t in seen <==> exists j :: 0 <= j < i && req.results[j].targetId == t
      invariant forall j :: 0 <= j < i ==> DefectAt(req.results, j).None?
    {
      var r := req.results[i];
      if r.targetId == "" {
        return Some(BadResult(i, TargetRequired));
      }
      if r.targetId in seen {
        return Some(BadResult(i, DuplicateTarget));
      }
      seen := seen + {r.targetId};
      if r.latencyMs.None? && r.error == "" {
        return Some(BadResult(i, NothingMeasured));
      }
      if r.latencyMs.Some? && r.latencyMs.value < 0.0 {
        return Some(BadResult(i, NegativeLatency));
      }
    }
    NoDefects(req.results);
    return None;
  }

  /** Checking each observation against the earlier ones finds every pair of
      equal targets. */
  lemma NoDefects(results: seq<Observation>)
    requires forall i :: 0 <= i < |results| ==> DefectAt(results, i).None?
    ensures forall i :: 0 <= i < |results| ==> WellFormed(results[i])
    ensures forall i, j :: 0 <= i < j < |results| ==> results[i].targetId != results[j].targetId
  {
    forall i | 0 <= i < |results| ensures WellFormed(results[i]) {
      assert DefectAt(results, i).None?;
    }
    forall i, j | 0 <= i < j < |results| ensures results[i].targetId != results[j].targetId {
      assert DefectAt(results, j).None?;
    }
  }

  // ------------------------------------------------------------- transaction

  /** A validated batch never collides with itself: it is refused exactly when
      one of its keys is already stored. */
  lemma ValidBatchFresh(auth: string, req: ResultsRequest, table: seq<ResultRow>)
    requires ValidRequest(auth, req)
    ensures Fresh(table, RowsOf(req)) <==>
              forall k :: 0 <= k < |req.results| ==> !HasKey(table, RowOf(req, req.results[k]).key)
  {
    var rows := RowsOf(req);
    forall k | 0 <= k < |rows|
      ensures HasKey(table + rows[..k], rows[k].key) <==> HasKey(table, RowOf(req, req.results[k]).key)
    {
      var all := table + rows[..k];
      assert forall i :: |table| <= i < |all| ==> all[i] == RowOf(req, req.results[i - |table|]);
      if HasKey(all, rows[k].key) {
        var i :| 0 <= i < |all| && all[i].key == rows[k].key;
        assert all[i] == table[i];
      }
      if HasKey(table, rows[k].key) {
        var i :| 0 <= i < |table| && table[i].key == rows[k].key;
        assert all[i] == table[i];
      }
    }
  }

  /** Storing a fresh batch keeps the keys unique. */
  lemma FreshKeepsUnique(table: seq<ResultRow>, rows: seq<ResultRow>)
    requires UniqueKeys(table) && Fresh(table, rows)
    ensures UniqueKeys(table + rows)
  {
    var all := table + rows;
    forall i, j | 0 <= i < j < |all| ensures all[i].key != all[j].key {
      if j >= |table| {
        var k := j - |table|;
        var before := table + rows[..k];
        assert before[i] == all[i];
        assert !HasKey(before, rows[k].key);
      }
    }
  }

  datatype HttpReply = HttpReply(status: int, targetsVersion: Option<int>)

  /** An answer that handleResults may give to a body of this node, and the table
      it leaves. */
  predicate Handles(
    table: seq<ResultRow>, node: Option<string>, body: Payload, status: int, after: seq<ResultRow>)
  {
    && status in {CREATED, CONFLICT, UNPROCESSABLE, UNAUTHORIZED, SERVER_ERROR}
    && (node.None? <==> status == UNAUTHORIZED)
    && (node.Some? ==> (status == UNPROCESSABLE <==> !body.Json? || !ValidRequest(node.value, body.req)))
    && (status == CREATED ==> Fresh(table, RowsOf(body.req)))
    && (status == CONFLICT ==> !Fresh(table, RowsOf(body.req)))
    && after == if status == CREATED then table + RowsOf(body.req) else table
  }

  /** The statement of the transaction that fails other than by a collision:
      0 for begin and prepare, k + 1 for the k-th insert, and the number of
      rows + 1 for the commit. */
  type FailAt = Option<nat>

  class Server {
    var table: seq<ResultRow>
    var lastDrops: map<string, int>
    var dropsCounter: map<string, int>
    var probeResultsTotal: int

    constructor ()
      ensures table == [] && lastDrops == map[] && dropsCounter == map[] && probeResultsTotal == 0
    {
      table, lastDrops, dropsCounter, probeResultsTotal := [], map[], map[], 0;
    }

    /** The status, or None for an internal error. Nothing is stored unless the
        whole batch is. */
    method PersistResults(req: ResultsRequest, failAt: FailAt) returns (status: Option<int>)
      modifies this`table
      ensures failAt.None? ==> (status.Some? && (status.value, table) == Ingest(old(table), req))
      ensures status == Some(CREATED) ==> Fresh(old(table), RowsOf(req)) && table == old(table) + RowsOf(req)
      ensures status == Some(CREATED) ==> Grown(old(table), table, req)
      ensures status != Some(CREATED) ==> table == old(table)
      ensures status == Some(CONFLICT) ==> !Fresh(old(table), RowsOf(req))
      ensures status in {Some(CREATED), Some(CONFLICT), None}
    {
      if failAt == Some(0) {
        return None;
      }
      var rows := RowsOf(req);
      var tx := table;
      for k := 0 to |req.results|
        invariant tx == table + rows[..k]
        invariant forall i :: 0 <= i < k ==> !HasKey(table + rows[..i], rows[i].key)
        invariant table == old(table)
      {
        var row := RowOf(req, req.results[k]);
        if failAt == Some(k + 1) {
          return None;
        }
        if HasKey(tx, row.key) {
          return Some(CONFLICT);
        }
        tx := tx + [row];
      }
      if failAt == Some(|req.results| + 1) {
        return None;
      }
      assert rows[..|rows|] == rows;
      ReadBack(req);
      table := tx;
      return Some(CREATED);
    }

    /** The counter part of handleResults, after the transaction. */
    method CountResults(node: string, req: ResultsRequest, status: int)
      modifies this`lastDrops, this`dropsCounter, this`probeResultsTotal
      ensures (lastDrops, dropsCounter)
           == DropsMetric.Report(old(lastDrops), old(dropsCounter), node, req.spool.dropsTotal)
      ensures probeResultsTotal == old(probeResultsTotal) + if status == CREATED then |req.results| else 0
    {
      var reported := req.spool.dropsTotal;
      var last := if node in lastDrops then lastDrops[node] else 0;
      if reported > last {
        var counter := if node in dropsCounter then dropsCounter[node] else 0;
        dropsCounter := dropsCounter[node := counter + (reported - last)];
      }
      lastDrops := lastDrops[node := reported];
      if status == CREATED {
        probeResultsTotal := probeResultsTotal + |req.results|;
      }
    }

    /** POST /api/v1/results. `node` is the authenticated node, if any, and
        `version` the targets_version if it can be read. */
    method HandleResults(node: Option<string>, body: Payload, failAt: FailAt, version: Option<int>)
      returns (reply: HttpReply)
      modifies this
      // who gets which answer, and that the table grows by the whole batch or
      // not at all
      ensures Handles(old(table), node, body, reply.status, table)
      ensures reply.status == CREATED ==> Grown(old(table), table, body.req)
      ensures reply.status == SERVER_ERROR ==> failAt.Some?
      // a version is echoed on accepted requests only
      ensures reply.targetsVersion == if reply.status in {CREATED, CONFLICT} then version else None
      // the counter grows with the table
      ensures probeResultsTotal - old(probeResultsTotal) == |table| - |old(table)|
      ensures reply.status in {CREATED, CONFLICT} ==>
        (lastDrops, dropsCounter)
          == DropsMetric.Report(old(lastDrops), old(dropsCounter), node.value, body.req.spool.dropsTotal)
      ensures reply.status !in {CREATED, CONFLICT} ==>
        lastDrops == old(lastDrops) && dropsCounter == old(dropsCounter)
    {
      if node.None? {
        return HttpReply(UNAUTHORIZED, None);
      }
      if !body.Json? {
        return HttpReply(UNPROCESSABLE, None);
      }
      var invalid := ValidateResultsRequest(node.value, body.req);
      if invalid.Some? {
        return HttpReply(UNPROCESSABLE, None);
      }
      var status := PersistResults(body.req, failAt);
      if status.None? {
        return HttpReply(SERVER_ERROR, None);
      }
      CountResults(node.value, body.req, status.value);
      return HttpReply(status.value, version);
    }
  }
}
