/** What the counters of agent and controller say, over every run. */
module ProtocolCounts {
  import opened SpoolTable
  import opened Results
  import opened Protocol
  import Safety = ProtocolSafety

  // ----------------------------------------------------------- rows and drops

  /** A run id leaves the spool once: by delivery or by retention. */
  ghost predicate Separate(s: State) {
    && (forall id :: id in s.db.rows ==>
          && s.db.rows[id].runId in s.hist.enqueued
          && s.db.rows[id].runId !in s.hist.delivered
          && s.db.rows[id].runId !in s.hist.dropped)
    && s.hist.delivered <= s.hist.enqueued.Keys
    && s.hist.dropped <= s.hist.enqueued.Keys
    && s.hist.delivered !! s.hist.dropped
  }

  lemma SeparateEnqueue(env: Env, s: State, step: Step)
    requires Enabled(env, s, step) && step.Enqueue?
    requires Valid(s.db) && Separate(s)
    ensures Separate(Apply(env, s, step))
  {
  }

  lemma SeparateStep(env: Env, s: State, step: Step)
    requires Enabled(env, s, step)
    requires Valid(s.db) && Separate(s)
    ensures Separate(Apply(env, s, step))
  {
    if step.Enqueue? {
      SeparateEnqueue(env, s, step);
    } else {
      Safety.RowsOnlyLeave(env, s, step);
    }
  }

  ghost predicate RowsBalance(s: State) {
    |s.hist.enqueued| == |s.db.rows| + |s.hist.delivered| + |s.hist.dropped|
  }

  lemma RecordBalance(env: Env, s: State, p: int, err: string)
    requires Enabled(env, s, Record(p, err))
    requires Separate(s) && RowsBalance(s)
    ensures RowsBalance(Apply(env, s, Record(p, err)))
  {
  }

  lemma BalanceStep(env: Env, s: State, step: Step)
    requires Enabled(env, s, step)
    requires Valid(s.db) && Separate(s) && RowsBalance(s)
    ensures RowsBalance(Apply(env, s, step))
  {
    match step
    case Enqueue(_, _) => assert s.db.nextId !in s.db.rows;
    case Record(p, err) => RecordBalance(env, s, p, err);
    case Drop(_, id) => RemoveSize(s.db.rows, id);
    case _ =>
  }

  /** The drainers that have deleted a row and not yet counted it. */
  function Bumpers(s: State): set<int> {
    set p | p in s.drainers && s.drainers[p].phase.Bumping?
  }

  ghost predicate DropsBalance(s: State) {
    s.db.dropsTotal + |Bumpers(s)| + s.hist.lostBumps == |s.hist.dropped|
  }

  lemma BumpersStep(env: Env, s: State, step: Step)
    requires Enabled(env, s, step)
    ensures var s' := Apply(env, s, step);
            Bumpers(s') == if step.Drop? then Bumpers(s) + {step.p}
                           else if step.Bump? || step.Interrupt? then Bumpers(s) - {step.p}
                           else Bumpers(s)
  {
  }

  lemma DropsStep(env: Env, s: State, step: Step)
    requires Enabled(env, s, step)
    requires Separate(s) && DropsBalance(s)
    ensures DropsBalance(Apply(env, s, step))
  {
    BumpersStep(env, s, step);
    match step
    case Drop(p, id) => assert p !in Bumpers(s) && s.db.rows[id].runId !in s.hist.dropped;
    case Bump(p) => assert p in Bumpers(s);
    case Interrupt(p) => assert p in Bumpers(s) <==> s.drainers[p].phase.Bumping?;
    case _ =>
  }

  // --------------------------------------------------------- ProbeResultsTotal

  function Pending(handlers: seq<Handler>): nat {
    if handlers == [] then 0 else Added(handlers[0]) + Pending(handlers[1..])
  }

  ghost predicate ResultsBalance(s: State) {
    && s.hist.base <= |s.ctl.table|
    && s.ctl.resultsTotal + Pending(s.ctl.handlers) == |s.ctl.table| - s.hist.base
  }

  lemma {:induction false} PendingAppend(a: seq<Handler>, b: seq<Handler>)
    ensures Pending(a + b) == Pending(a) + Pending(b)
  {
    if a == [] {
      assert a + b == b;
    } else {
      PendingAppend(a[1..], b);
      assert (a + b)[1..] == a[1..] + b;
    }
  }

  lemma {:induction false} PendingRemove(hs: seq<Handler>, i: nat)
    requires i < |hs|
    ensures Pending(hs) == Pending(hs[..i] + hs[i + 1..]) + Added(hs[i])
  {
    if i == 0 {
      assert hs[..0] + hs[1..] == hs[1..];
    } else {
      PendingRemove(hs[1..], i - 1);
      assert (hs[..i] + hs[i + 1..])[1..] == hs[1..][..i - 1] + hs[1..][i..];
    }
  }

  lemma ResultsStep(env: Env, s: State, step: Step)
    requires Enabled(env, s, step)
    requires ResultsBalance(s)
    ensures ResultsBalance(Apply(env, s, step))
  {
    match step
    case Transact(_, req) =>
      var h := Handler(req, Ingest(s.ctl.table, req).0);
      PendingAppend(s.ctl.handlers, [h]);
    case Respond(i) => PendingRemove(s.ctl.handlers, i);
    case _ =>
  }

  // ------------------------------------------------------------- the theorems

  ghost predicate CountInv(s: State) {
    Separate(s) && RowsBalance(s) && DropsBalance(s) && ResultsBalance(s)
  }

  lemma {:induction false} CountRun(env: Env, states: seq<State>, steps: seq<Step>, n: nat)
    requires IsRun(env, states, steps) && n < |states|
    ensures CountInv(states[n])
  {
    if n == 0 {
      assert Bumpers(states[0]) == {};
    } else {
      var s, step := states[n - 1], steps[n - 1];
      CountRun(env, states, steps, n - 1);
      Safety.InvRun(env, states, steps, n - 1);
      SeparateStep(env, s, step);
      BalanceStep(env, s, step);
      DropsStep(env, s, step);
      ResultsStep(env, s, step);
    }
  }

  /** Conservation: every row ever enqueued is in the spool, was deleted on an
      accepted answer, or was deleted by retention. drops_total falls short of
      the retention deletions by exactly the drains that are between the DELETE
      and the counter UPDATE, and those that were interrupted there. */
  lemma DropConservation(env: Env, states: seq<State>, steps: seq<Step>, n: nat)
    requires IsRun(env, states, steps) && n < |states|
    ensures var s := states[n];
            && |s.hist.enqueued| == |s.db.rows| + |s.hist.delivered| + |s.hist.dropped|
            && s.db.dropsTotal + |Bumpers(s)| + s.hist.lostBumps == |s.hist.dropped|
  {
    CountRun(env, states, steps, n);
  }

  /** The books balance exactly if and only if no drain is, or was interrupted,
      between the two statements. */
  lemma BalancedIff(env: Env, states: seq<State>, steps: seq<Step>, n: nat)
    requires IsRun(env, states, steps) && n < |states|
    ensures var s := states[n];
            && (|s.hist.enqueued| == |s.db.rows| + |s.hist.delivered| + s.db.dropsTotal <==>
                  Bumpers(s) == {} && s.hist.lostBumps == 0)
  {
    CountRun(env, states, steps, n);
  }

  /** ProbeResultsTotal is the number of rows this controller process stored,
      less those of transactions whose handler has not finished. */
  lemma ResultsCounter(env: Env, states: seq<State>, steps: seq<Step>, n: nat)
    requires IsRun(env, states, steps) && n < |states|
    ensures var ctl := states[n].ctl;
            ctl.resultsTotal == |ctl.table| - states[n].hist.base - Pending(ctl.handlers)
  {
    CountRun(env, states, steps, n);
  }
}
