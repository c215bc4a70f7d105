/** One probe-and-drain cycle (internal/agent/spoke.go). */
module Spoke {
  import opened Clock
  import opened Wire
  import opened SpoolTable
  import Spool

  /** What the world contributes to one cycle. `results` are the observations of
      `targets`, in order; the `...Ok` flags say which reads and statements
      succeed, and `savedUpto` how many of the three snapshot updates run. */
  datatype Input = Input(
    targets: seq<string>,
    runId: Option<string>,
    observedAt: int,
    results: seq<Observation>,
    snapshotOk: bool,
    encodeOk: bool,
    enqueueAt: int,
    enqueueOk: bool,
    selectOk: bool,
    drainAt: int,
    answers: int -> Spool.Answer,
    rounds: nat -> Spool.Round,
    depthOk: bool,
    ageOk: bool,
    dropsOk: bool,
    ageAt: int,
    savedUpto: nat)

  datatype Outcome = NoTargets | NoRunId | EncodeFailed | EnqueueFailed | DrainFailed | Completed

  /** What a cycle did; `payload` is what it handed to the spool. */
  datatype Output = Output(outcome: Outcome, payload: Option<Payload>)

  const ZERO: Snapshot := Snapshot(0, 0, 0)

  /** int(d.Seconds()): whole seconds, towards zero. */
  function WholeSeconds(d: int): (r: int)
    ensures d >= 0 ==> r * SECOND <= d < (r + 1) * SECOND
    ensures d < 0 ==> (r - 1) * SECOND < d <= r * SECOND
  {
    if d >= 0 then d / SECOND else -((-d) / SECOND)
  }

  function Metadata(s: Snapshot): SpoolMetadata {
    SpoolMetadata(s.depth, s.oldestAgeSecs, s.dropsTotal, 1)
  }

  function PayloadOf(nodeId: string, db: Db, inp: Input): Payload
    requires inp.runId.Some?
  {
    Json(ResultsRequest(nodeId, inp.runId.value, Some(inp.observedAt), inp.results,
                        Metadata(if inp.snapshotOk then db.last else ZERO)))
  }

  /** The payload tells the cycle's observations with their time, under its run
      id, and the snapshot that was last saved, or zeros if it cannot be read. */
  predicate Carries(nodeId: string, db: Db, inp: Input, payload: Payload) {
    && payload.Json? && payload.req.sourceId == nodeId && inp.runId == Some(payload.req.probeRunId)
    && payload.req.results == inp.results && payload.req.observedAt == Some(inp.observedAt)
    && var m := payload.req.spool;
       && m.drainAttempt == 1
       && (inp.snapshotOk ==>
             m.depth == db.last.depth && m.oldestAgeSecs == db.last.oldestAgeSecs && m.dropsTotal == db.last.dropsTotal)
       && (!inp.snapshotOk ==> m.depth == m.oldestAgeSecs == m.dropsTotal == 0)
  }

  /** The database after the enqueue step, or None if the cycle ends there. */
  function AfterEnqueue(nodeId: string, db: Db, inp: Input): Option<Db>
    requires inp.runId.Some?
  {
    if inp.runId.value == "" then None
    else if HasRun(db.rows, inp.runId.value) then Some(db)
    else if inp.enqueueOk then Some(Insert(db, inp.runId.value, PayloadOf(nodeId, db, inp), inp.enqueueAt))
    else None
  }

  /** The snapshot that a completed cycle saves over `last`. */
  ghost predicate Saved(db: Db, inp: Input, last: Snapshot) {
    && last.depth == (if inp.savedUpto == 0 then db.last.depth else if inp.depthOk then |db.rows| else 0)
    && (inp.savedUpto <= 1 ==> last.oldestAgeSecs == db.last.oldestAgeSecs)
    && (inp.savedUpto > 1 && (!inp.ageOk || db.rows == map[]) ==> last.oldestAgeSecs == 0)
    && (inp.savedUpto > 1 && inp.ageOk && db.rows != map[] ==>
          exists id :: IsOldest(db.rows, id) && last.oldestAgeSecs == WholeSeconds(inp.ageAt - db.rows[id].enqueuedAt))
    && last.dropsTotal == if inp.savedUpto <= 2 then db.last.dropsTotal else if inp.dropsOk then db.dropsTotal else 0
  }

  /** One cycle from `db` to `after`. */
  ghost predicate Cycle(cfg: Config, nodeId: string, db: Db, inp: Input, w: Witness, out: Output, after: Db) {
    if inp.targets == [] then out == Output(NoTargets, None) && after == db
    else if inp.runId.None? then out == Output(NoRunId, None) && after == db
    else if !inp.encodeOk then out == Output(EncodeFailed, None) && after == db
    else
      && out.payload == Some(PayloadOf(nodeId, db, inp))
      && var mid := AfterEnqueue(nodeId, db, inp);
         if mid.None? then out.outcome == EnqueueFailed && after == db
         else if !inp.selectOk then out.outcome == DrainFailed && after == mid.value
         else
           && (out.outcome == Completed || out.outcome == DrainFailed)
           && Spool.Drained(cfg, mid.value, inp.drainAt, inp.answers, inp.rounds,
                            w.trace, w.stats, out.outcome == Completed, w.drained)
           && Saves(w.drained, inp, out.outcome == Completed, after)
  }

  /** How the drain of a cycle went, and the database it left. */
  datatype Witness = Witness(trace: Spool.DrainTrace, stats: Spool.DrainStats, drained: Db)

  ghost predicate Saves(drained: Db, inp: Input, completed: bool, after: Db) {
    if completed then after == drained.(last := after.last) && Saved(drained, inp, after.last)
    else after == drained
  }

  class Spoke {
    const nodeId: string
    const spool: Spool.Spool

    constructor (nodeId: string, spool: Spool.Spool)
      ensures this.nodeId == nodeId && this.spool == spool
    {
      this.nodeId, this.spool := nodeId, spool;
    }

    method Run(inp: Input) returns (out: Output, ghost w: Witness)
      requires spool.cfg.backoffBase > 0
      requires Valid(spool.db)
      modifies spool
      ensures Cycle(spool.cfg, nodeId, old(spool.db), inp, w, out, spool.db)
      ensures Valid(spool.db)
      ensures out.payload.Some? <==> inp.targets != [] && inp.runId.Some? && inp.encodeOk
      ensures out.payload.Some? ==> Carries(nodeId, old(spool.db), inp, out.payload.value)
    {
      w := *;
      if inp.targets == [] {
        out := Output(NoTargets, None);
        return;
      }
      if inp.runId.None? {
        out := Output(NoRunId, None);
        return;
      }
      var prev := ZERO;
      if inp.snapshotOk {
        prev := spool.LastDrainSnapshot();
      }
      if !inp.encodeOk {
        out := Output(EncodeFailed, None);
        return;
      }
      var payload := Json(ResultsRequest(
                            nodeId, inp.runId.value, Some(inp.observedAt), inp.results,
                            SpoolMetadata(prev.depth, prev.oldestAgeSecs, prev.dropsTotal, 1)));
      var enqueued := spool.Enqueue(inp.runId.value, payload, inp.enqueueAt, inp.enqueueOk);
      if !enqueued.Enqueued? && !enqueued.Duplicate? {
        out := Output(EnqueueFailed, Some(payload));
        return;
      }
      ghost var mid := spool.db;
      var stats, ok, trace := spool.Drain(inp.selectOk, inp.drainAt, inp.answers, inp.rounds);
      w := Witness(trace, stats, spool.db);
      if inp.selectOk {
        Spool.DrainKeepsValid(spool.cfg, mid, inp.drainAt, inp.answers, inp.rounds, trace, stats, ok, spool.db);
      }
      if !ok {
        out := Output(DrainFailed, Some(payload));
        return;
      }
      SaveSnapshot(inp);
      out := Output(Completed, Some(payload));
    }

    /** Read depth, age and drops, and save them for the next cycle. */
    method SaveSnapshot(inp: Input)
      modifies spool
      ensures Saves(old(spool.db), inp, true, spool.db)
    {
      var depth, age, drops := 0, 0, 0;
      if inp.depthOk {
        depth := spool.Depth();
      }
      if inp.ageOk {
        age := spool.OldestAge(inp.ageAt);
      }
      if inp.dropsOk {
        drops := spool.DropsTotal();
      }
      var _ := spool.SaveDrainSnapshot(Snapshot(depth, WholeSeconds(age), drops), inp.savedUpto);
    }
  }

  /** How a cycle ends, and what it hands to the spool, in terms of its input
      alone: it gets as far as the drain unless it lacks targets, a run id or an
      encoded payload, or the payload cannot be spooled; that its run id is
      already spooled does not stop it. */
  lemma CycleEnds(cfg: Config, nodeId: string, db: Db, inp: Input, w: Witness, out: Output, after: Db)
    requires Cycle(cfg, nodeId, db, inp, w, out, after)
    ensures out.outcome == NoTargets <==> inp.targets == []
    ensures out.outcome == NoRunId <==> inp.targets != [] && inp.runId.None?
    ensures out.outcome == EncodeFailed <==> inp.targets != [] && inp.runId.Some? && !inp.encodeOk
    ensures out.payload.Some? <==> inp.targets != [] && inp.runId.Some? && inp.encodeOk
    ensures out.payload.Some? ==> Carries(nodeId, db, inp, out.payload.value)
    ensures out.outcome == EnqueueFailed <==>
              && out.payload.Some?
              && (inp.runId.value == "" || (!inp.enqueueOk && !HasRun(db.rows, inp.runId.value)))
    ensures out.outcome == Completed ==> inp.selectOk
  {
  }

  // ------------------------------------------------------ what agents report

  ghost predicate IsRun(
    cfg: Config, nodeId: string, dbs: seq<Db>, ins: seq<Input>, ws: seq<Witness>, outs: seq<Output>)
  {
    && |dbs| == |ins| + 1 && |ws| == |ins| && |outs| == |ins|
    && dbs[0] == FRESH_DB
    && (forall i :: 0 <= i < |ins| ==> Cycle(cfg, nodeId, dbs[i], ins[i], ws[i], outs[i], dbs[i + 1]))
  }

  /** No read of the spool fails and no snapshot is half saved. */
  predicate Uninterrupted(inp: Input) {
    inp.snapshotOk && inp.depthOk && inp.ageOk && inp.dropsOk && inp.savedUpto >= 3
  }

  /** The age of the oldest row at this instant, in whole seconds; 0 if there is
      none. */
  ghost predicate IsAge(t: Table, at: int, age: int) {
    && (t == map[] ==> age == 0)
    && (t != map[] ==> exists id :: IsOldest(t, id) && age == WholeSeconds(at - t[id].enqueuedAt))
  }

  /** What a cycle does to the saved snapshot and to drops_total, and what its
      payload reports. */
  ghost predicate Keeps(db: Db, inp: Input, out: Output, after: Db) {
    && db.dropsTotal <= after.dropsTotal
    && (!out.outcome.Completed? ==> after.last == db.last)
    && (out.outcome.Completed? ==>
          || after.last.dropsTotal == db.last.dropsTotal
          || after.last.dropsTotal == after.dropsTotal
          || (after.last.dropsTotal == 0 && !inp.dropsOk))
    && (out.outcome.Completed? && Uninterrupted(inp) ==>
          && after.last.depth == |after.rows| && after.last.dropsTotal == after.dropsTotal
          && IsAge(after.rows, inp.ageAt, after.last.oldestAgeSecs))
    && (out.payload.Some? && inp.snapshotOk ==>
          out.payload.value.Json? && out.payload.value.req.spool == Metadata(db.last))
  }

  lemma CycleKeeps(cfg: Config, nodeId: string, db: Db, inp: Input, w: Witness, out: Output, after: Db)
    requires Cycle(cfg, nodeId, db, inp, w, out, after)
    ensures Keeps(db, inp, out, after)
  {
  }

  ghost predicate KeepsAll(dbs: seq<Db>, ins: seq<Input>, outs: seq<Output>) {
    && |dbs| == |ins| + 1 && |outs| == |ins|
    && dbs[0] == FRESH_DB
    && (forall i :: 0 <= i < |ins| ==> Keeps(dbs[i], ins[i], outs[i], dbs[i + 1]))
  }

  lemma RunKeepsAll(
    cfg: Config, nodeId: string, dbs: seq<Db>, ins: seq<Input>, ws: seq<Witness>, outs: seq<Output>)
    requires IsRun(cfg, nodeId, dbs, ins, ws, outs)
    ensures KeepsAll(dbs, ins, outs)
  {
    forall i | 0 <= i < |ins| ensures Keeps(dbs[i], ins[i], outs[i], dbs[i + 1]) {
      CycleKeeps(cfg, nodeId, dbs[i], ins[i], ws[i], outs[i], dbs[i + 1]);
    }
  }

  /** The last of the first n cycles that completed. */
  function LatestCompleted(outs: seq<Output>, n: nat): (j: Option<nat>)
    requires n <= |outs|
    ensures j.Some? ==> j.value < n && outs[j.value].outcome.Completed?
  {
    if n == 0 then None
    else if outs[n - 1].outcome.Completed? then Some(n - 1)
    else LatestCompleted(outs, n - 1)
  }

  /** What the next payload should report after n cycles: the spool as the last
      completed cycle left it, or nothing. */
  ghost predicate Reports(dbs: seq<Db>, ins: seq<Input>, outs: seq<Output>, n: nat, s: Snapshot)
    requires n <= |outs| == |ins| && |dbs| == |outs| + 1
  {
    var j := LatestCompleted(outs, n);
    if j.None? then s.depth == 0 && s.oldestAgeSecs == 0 && s.dropsTotal == 0
    else
      var db := dbs[j.value + 1];
      s.depth == |db.rows| && s.dropsTotal == db.dropsTotal && IsAge(db.rows, ins[j.value].ageAt, s.oldestAgeSecs)
  }

  lemma {:induction false} SavedReports(dbs: seq<Db>, ins: seq<Input>, outs: seq<Output>, n: nat)
    requires KeepsAll(dbs, ins, outs) && n <= |ins|
    requires forall i :: 0 <= i < n ==> Uninterrupted(ins[i])
    ensures Reports(dbs, ins, outs, n, dbs[n].last)
  {
    if n > 0 {
      SavedReports(dbs, ins, outs, n - 1);
      assert Keeps(dbs[n - 1], ins[n - 1], outs[n - 1], dbs[n]);
    }
  }

  /** In an uninterrupted run each payload carries the post-drain depth, age and
      drops of the latest cycle whose drain succeeded, and zeros before that. */
  lemma PayloadReportsLatestDrain(
    cfg: Config, nodeId: string, dbs: seq<Db>, ins: seq<Input>, ws: seq<Witness>, outs: seq<Output>, n: nat)
    requires IsRun(cfg, nodeId, dbs, ins, ws, outs) && n < |ins|
    requires forall i :: 0 <= i <= n ==> Uninterrupted(ins[i])
    requires outs[n].payload.Some?
    ensures outs[n].payload.value.Json?
    ensures var m := outs[n].payload.value.req.spool;
            Reports(dbs, ins, outs, n, Snapshot(m.depth, m.oldestAgeSecs, m.dropsTotal))
  {
    RunKeepsAll(cfg, nodeId, dbs, ins, ws, outs);
    SavedReports(dbs, ins, outs, n);
    assert Keeps(dbs[n], ins[n], outs[n], dbs[n + 1]);
  }

  lemma {:induction false} SavedDropsBounded(dbs: seq<Db>, ins: seq<Input>, outs: seq<Output>, n: nat)
    requires KeepsAll(dbs, ins, outs) && n <= |ins|
    ensures 0 <= dbs[n].last.dropsTotal <= dbs[n].dropsTotal
  {
    if n > 0 {
      SavedDropsBounded(dbs, ins, outs, n - 1);
      assert Keeps(dbs[n - 1], ins[n - 1], outs[n - 1], dbs[n]);
    }
  }

  lemma {:induction false} SavedDropsGrow(dbs: seq<Db>, ins: seq<Input>, outs: seq<Output>, i: nat, j: nat)
    requires KeepsAll(dbs, ins, outs) && i <= j <= |ins|
    requires forall k :: i <= k < j ==> ins[k].dropsOk
    ensures dbs[i].last.dropsTotal <= dbs[j].last.dropsTotal
  {
    if i < j {
      SavedDropsGrow(dbs, ins, outs, i, j - 1);
      SavedDropsBounded(dbs, ins, outs, j - 1);
      assert Keeps(dbs[j - 1], ins[j - 1], outs[j - 1], dbs[j]);
    }
  }

  /** Payloads report drop counts that never decrease in the order in which the
      payloads are created, as long as the drop counts and the snapshots of the
      two payloads can be read; other reads may fail and snapshots may be half
      saved. */
  lemma ReportedDropsGrow(
    cfg: Config, nodeId: string, dbs: seq<Db>, ins: seq<Input>, ws: seq<Witness>, outs: seq<Output>, i: nat, j: nat)
    requires IsRun(cfg, nodeId, dbs, ins, ws, outs) && i <= j < |ins|
    requires forall k :: i <= k < j ==> ins[k].dropsOk
    requires outs[i].payload.Some? && ins[i].snapshotOk
    requires outs[j].payload.Some? && ins[j].snapshotOk
    ensures outs[i].payload.value.Json? && outs[j].payload.value.Json?
    ensures outs[i].payload.value.req.spool.dropsTotal <= outs[j].payload.value.req.spool.dropsTotal
  {
    RunKeepsAll(cfg, nodeId, dbs, ins, ws, outs);
    SavedDropsGrow(dbs, ins, outs, i, j);
    assert Keeps(dbs[i], ins[i], outs[i], dbs[i + 1]);
    assert Keeps(dbs[j], ins[j], outs[j], dbs[j + 1]);
  }

  /** Also with failing reads and half-saved snapshots, the saved drop count
      never exceeds drops_total. */
  lemma SavedDropsNeverExceed(
    cfg: Config, nodeId: string, dbs: seq<Db>, ins: seq<Input>, ws: seq<Witness>, outs: seq<Output>, n: nat)
    requires IsRun(cfg, nodeId, dbs, ins, ws, outs) && n < |dbs|
    ensures 0 <= dbs[n].last.dropsTotal <= dbs[n].dropsTotal
  {
    RunKeepsAll(cfg, nodeId, dbs, ins, ws, outs);
    SavedDropsBounded(dbs, ins, outs, n);
  }
}
