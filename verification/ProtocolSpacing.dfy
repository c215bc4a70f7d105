/** How far apart the attempts of one row are when only one drainer works on
    the spool at a time. */
module ProtocolSpacing {
  import opened Clock
  import opened Wire
  import opened SpoolTable
  import opened Protocol
  import Backoff
  import Safety = ProtocolSafety

  ghost predicate OneDrainer(states: seq<State>) {
    forall i, p, q :: 0 <= i < |states| && p in states[i].drainers && q in states[i].drainers ==> p == q
  }

  function WindowOf(env: Env, attempts: nat): int {
    Backoff.Window(attempts, env.cfg.backoffBase, env.cfg.backoffMax)
  }

  /** Attempt k + 1 starts later than failure k plus its backoff window, less
      the second that the stored time loses. */
  ghost predicate Spaced(env: Env, log: seq<Attempt>) {
    && (forall k :: 0 <= k < |log| ==> log[k].since <= log[k].at)
    && (forall k :: 0 < k < |log| ==> log[k].since > log[k - 1].at + WindowOf(env, k) - SECOND)
  }

  /** The row's attempt columns are those of its log. */
  ghost predicate Matches(row: Row, log: seq<Attempt>) {
    && row.attempts == |log|
    && row.lastAttemptAt == if log == [] then None else Some(ToSecond(log[|log| - 1].at))
  }

  /** A candidate that a lone drainer still has to do is as it was selected. */
  ghost predicate Current(s: State, c: Candidate) {
    && c.id in s.db.rows
    && s.db.rows[c.id].attempts == c.row.attempts
    && s.db.rows[c.id].lastAttemptAt == c.row.lastAttemptAt
  }

  ghost predicate DrainerOk(env: Env, s: State, d: Drainer) {
    && d.now <= s.clock
    && (d.phase.Retaining? || d.phase.Bumping? ==> d.todo == [])
    && (forall i :: 0 <= i < |d.todo| ==> Current(s, d.todo[i]))
    && (forall i, j :: 0 <= i < j < |d.todo| ==> d.todo[i].id != d.todo[j].id)
    && (d.phase.Waiting? || d.phase.Answered? ==>
          && (forall i :: 0 <= i < |d.todo| ==> d.todo[i].id != d.phase.c.id)
          && d.phase.since <= s.clock
          && d.phase.c.id in s.db.rows
          && MayFail(env, s, d.phase.c.id, d.phase.since))
  }

  /** A failure of an attempt that started at `since` keeps the row spaced. */
  ghost predicate MayFail(env: Env, s: State, id: int, since: int) {
    var log := AttemptsOf(s, id);
    log != [] ==> since > log[|log| - 1].at + WindowOf(env, |log|) - SECOND
  }

  /** The spool knows the recorded failures of its rows. */
  ghost predicate LoggedInv(s: State) {
    && (forall id :: id in s.hist.attempts ==> id < s.db.nextId)
    && (forall id :: id in s.db.rows ==> Matches(s.db.rows[id], AttemptsOf(s, id)))
  }

  ghost predicate SpacingInv(env: Env, s: State) {
    && LoggedInv(s)
    && (forall id :: id in s.hist.attempts ==> Spaced(env, s.hist.attempts[id]))
    && (forall p :: p in s.drainers ==> DrainerOk(env, s, s.drainers[p]))
  }

  ghost predicate Lone(s: State) {
    forall p, q :: p in s.drainers && q in s.drainers ==> p == q
  }

  // -------------------------------------------------------------- preservation

  lemma LogsStep(env: Env, s: State, step: Step)
    requires Enabled(env, s, step)
    requires SpacingInv(env, s)
    ensures var s' := Apply(env, s, step);
            forall id :: id in s'.hist.attempts ==> Spaced(env, s'.hist.attempts[id])
  {
  }

  lemma LoggedStep(env: Env, s: State, step: Step)
    requires Enabled(env, s, step)
    requires LoggedInv(s) && Valid(s.db)
    ensures LoggedInv(Apply(env, s, step))
  {
  }

  /** A request for a row that is due as it stands starts late enough. */
  lemma DueIsLate(env: Env, s: State, id: int)
    requires LoggedInv(s)
    requires id in s.db.rows && Due(env.cfg, s.db.rows[id], s.clock)
    ensures MayFail(env, s, id, s.clock)
  {
    assert Matches(s.db.rows[id], AttemptsOf(s, id));
  }

  /** What a lone drainer finds due is due as it stands. */
  lemma LoneSendIsDue(env: Env, s: State, p: int)
    requires SpacingInv(env, s)
    requires Enabled(env, s, Send(p))
    ensures var id := s.drainers[p].todo[0].id;
            id in s.db.rows && Due(env.cfg, s.db.rows[id], s.clock)
  {
    assert DrainerOk(env, s, s.drainers[p]);
    assert Current(s, s.drainers[p].todo[0]);
  }

  lemma SelectOk(env: Env, s: State, p: int, batch: seq<int>)
    requires Enabled(env, s, Select(p, batch))
    ensures DrainerOk(env, Apply(env, s, Select(p, batch)), Drainer(s.clock, Candidates(s.db.rows, batch), Selected))
  {
  }

  lemma RecordOk(env: Env, s: State, p: int, err: string)
    requires Enabled(env, s, Record(p, err))
    requires DrainerOk(env, s, s.drainers[p])
    ensures DrainerOk(env, Apply(env, s, Record(p, err)), Apply(env, s, Record(p, err)).drainers[p])
  {
  }

  /** The steps of a drainer that only change the drainer. */
  lemma OwnStepOk(env: Env, s: State, step: Step, p: int)
    requires Enabled(env, s, step)
    requires SpacingInv(env, s)
    requires p in s.drainers && p in Apply(env, s, step).drainers
    requires step.ReadClock? || step.Skip? || step.Send? || step.Hear? || step.GiveUp? || step.StartRetention?
    requires step.p == p
    ensures DrainerOk(env, Apply(env, s, step), Apply(env, s, step).drainers[p])
  {
    if step.Send? {
      LoneSendIsDue(env, s, p);
      DueIsLate(env, s, s.drainers[p].todo[0].id);
    }
  }

  lemma DrainersStep(env: Env, s: State, step: Step, p: int)
    requires Enabled(env, s, step)
    requires SpacingInv(env, s) && Valid(s.db)
    requires Lone(s) && Lone(Apply(env, s, step))
    requires p in Apply(env, s, step).drainers
    ensures DrainerOk(env, Apply(env, s, step), Apply(env, s, step).drainers[p])
  {
    var s' := Apply(env, s, step);
    match step
    case Select(q, batch) =>
      assert q in s'.drainers;
      SelectOk(env, s, p, batch);
    case Record(q, err) =>
      RecordOk(env, s, p, err);
    case ReadClock(_) => OwnStepOk(env, s, step, p);
    case Skip(_) => OwnStepOk(env, s, step, p);
    case Send(_) => OwnStepOk(env, s, step, p);
    case Hear(_, _) => OwnStepOk(env, s, step, p);
    case GiveUp(_, _) => OwnStepOk(env, s, step, p);
    case StartRetention(_) => OwnStepOk(env, s, step, p);
    case Finish(_) =>
    case Interrupt(_) =>
    case Drop(_, _) => assert DrainerOk(env, s, s.drainers[p]);
    case Bump(_) => assert DrainerOk(env, s, s.drainers[p]);
    case _ => OtherStepOk(env, s, step, p);
  }

  /** The steps that leave the rows of the spool, and the drainers. */
  lemma OtherStepOk(env: Env, s: State, step: Step, p: int)
    requires Enabled(env, s, step)
    requires SpacingInv(env, s) && Valid(s.db)
    requires p in s.drainers
    requires step.Tick? || step.Enqueue? || step.Save? || step.Transact? || step.Respond? || step.Restart?
    ensures DrainerOk(env, Apply(env, s, step), Apply(env, s, step).drainers[p])
  {
  }

  lemma {:induction false} SpacingRun(env: Env, states: seq<State>, steps: seq<Step>, n: nat)
    requires IsRun(env, states, steps) && n < |states|
    requires OneDrainer(states)
    ensures SpacingInv(env, states[n])
  {
    if n > 0 {
      var s, step := states[n - 1], steps[n - 1];
      SpacingRun(env, states, steps, n - 1);
      Safety.InvRun(env, states, steps, n - 1);
      LogsStep(env, s, step);
      LoggedStep(env, s, step);
      forall p | p in states[n].drainers ensures DrainerOk(env, states[n], states[n].drainers[p]) {
        DrainersStep(env, s, step, p);
      }
    }
  }

  // ------------------------------------------------------------- the theorems

  /** A request for the row that drainer p is at would start late enough. */
  ghost predicate StartsLate(env: Env, s: State, p: int)
    requires AtRow(s, p)
  {
    var log := AttemptsOf(s, s.drainers[p].todo[0].id);
    log != [] ==> s.clock > log[|log| - 1].at + WindowOf(env, |log|) - SECOND
  }

  lemma {:induction false} LoggedRun(env: Env, states: seq<State>, steps: seq<Step>, n: nat)
    requires IsRun(env, states, steps) && n < |states|
    ensures LoggedInv(states[n])
  {
    if n > 0 {
      LoggedRun(env, states, steps, n - 1);
      Safety.InvRun(env, states, steps, n - 1);
      LoggedStep(env, states[n - 1], steps[n - 1]);
    }
  }

  /** With any number of drainers: a request for a row with k > 0 recorded
      failures starts later than the k-th failure plus Backoff(k), less one
      second, if the row as it now stands in the spool is due. */
  lemma SpacingWhileDue(env: Env, states: seq<State>, steps: seq<Step>, n: nat)
    requires IsRun(env, states, steps) && n < |steps|
    requires steps[n].Send?
    requires var s := states[n];
             var id := s.drainers[steps[n].p].todo[0].id;
             id in s.db.rows && Due(env.cfg, s.db.rows[id], s.clock)
    ensures StartsLate(env, states[n], steps[n].p)
  {
    LoggedRun(env, states, steps, n);
    DueIsLate(env, states[n], states[n].drainers[steps[n].p].todo[0].id);
  }

  /** With one drainer that is always so. */
  lemma AttemptSpacing(env: Env, states: seq<State>, steps: seq<Step>, n: nat)
    requires IsRun(env, states, steps) && n < |steps|
    requires OneDrainer(states)
    requires steps[n].Send?
    ensures StartsLate(env, states[n], steps[n].p)
  {
    SpacingRun(env, states, steps, n);
    LoneSendIsDue(env, states[n], steps[n].p);
    SpacingWhileDue(env, states, steps, n);
  }

  // ------------------------------------------------------------ no longer than that

  /** The candidate's attempt columns are those of a prefix of its log. */
  ghost predicate Seen(s: State, c: Candidate) {
    var k, log := c.row.attempts, AttemptsOf(s, c.id);
    && k <= |log|
    && c.row.lastAttemptAt == if k == 0 then None else Some(ToSecond(log[k - 1].at))
  }

  ghost predicate SeenInv(s: State) {
    forall p, c :: p in s.drainers && Safety.Holds(s.drainers[p], c) ==> Seen(s, c)
  }

  lemma LogsGrow(env: Env, s: State, step: Step, id: int)
    requires Enabled(env, s, step)
    ensures AttemptsOf(s, id) <= AttemptsOf(Apply(env, s, step), id)
  {
  }

  lemma SeenStays(s: State, s': State, c: Candidate)
    requires Seen(s, c) && AttemptsOf(s, c.id) <= AttemptsOf(s', c.id)
    ensures Seen(s', c)
  {
  }

  lemma SeenStep(env: Env, s: State, step: Step)
    requires Enabled(env, s, step) && LoggedInv(s) && SeenInv(s)
    ensures SeenInv(Apply(env, s, step))
  {
    var s' := Apply(env, s, step);
    forall p, c | p in s'.drainers && Safety.Holds(s'.drainers[p], c) ensures Seen(s', c) {
      Safety.HeldBefore(env, s, step, p, c);
      LogsGrow(env, s, step, c.id);
      if p in s.drainers && Safety.Holds(s.drainers[p], c) {
        assert Seen(s, c);
      } else {
        assert Matches(s.db.rows[c.id], AttemptsOf(s, c.id));
      }
      SeenStays(s, s', c);
    }
  }

  lemma {:induction false} SeenRun(env: Env, states: seq<State>, steps: seq<Step>, n: nat)
    requires IsRun(env, states, steps) && n < |states|
    ensures SeenInv(states[n])
  {
    if n > 0 {
      SeenRun(env, states, steps, n - 1);
      LoggedRun(env, states, steps, n - 1);
      SeenStep(env, states[n - 1], steps[n - 1]);
    }
  }

  /** With any number of drainers: a row is skipped only by a drain that read its
      clock before some recorded failure, the k-th, plus min(2^k * base, max). A
      row that never failed is never skipped. */
  lemma SkippedOnlyInBackoff(env: Env, states: seq<State>, steps: seq<Step>, n: nat) returns (k: nat)
    requires IsRun(env, states, steps) && n < |steps| && steps[n].Skip?
    ensures var d := states[n].drainers[steps[n].p];
            var log := AttemptsOf(states[n], d.todo[0].id);
            && 1 <= k <= |log| && k == d.todo[0].row.attempts
            && d.now < log[k - 1].at + Min(Backoff.Pow2(k) * env.cfg.backoffBase, env.cfg.backoffMax)
  {
    SeenRun(env, states, steps, n);
    var d := states[n].drainers[steps[n].p];
    assert Safety.Holds(d, d.todo[0]) && Seen(states[n], d.todo[0]);
    k := d.todo[0].row.attempts;
  }

  /** With one drainer that failure is the latest one: from then on no drain
      passes the row by once its window has elapsed. */
  lemma SkippedOnlyWhileWaiting(env: Env, states: seq<State>, steps: seq<Step>, n: nat)
    requires IsRun(env, states, steps) && n < |steps| && steps[n].Skip?
    requires OneDrainer(states)
    ensures var d := states[n].drainers[steps[n].p];
            var log := AttemptsOf(states[n], d.todo[0].id);
            && log != []
            && d.now < log[|log| - 1].at + Min(Backoff.Pow2(|log|) * env.cfg.backoffBase, env.cfg.backoffMax)
  {
    var k := SkippedOnlyInBackoff(env, states, steps, n);
    SpacingRun(env, states, steps, n);
    var s, d := states[n], states[n].drainers[steps[n].p];
    assert DrainerOk(env, s, d) && Current(s, d.todo[0]);
    assert Matches(s.db.rows[d.todo[0].id], AttemptsOf(s, d.todo[0].id));
  }

  /** The time that the backoff windows of failures 1 to K - 1 add up to. */
  function TotalWindow(env: Env, k: nat): int {
    if k <= 1 then 0 else TotalWindow(env, k - 1) + WindowOf(env, k - 1) - SECOND
  }

  /** So K recorded failures of a row span more than the sum of the first
      K - 1 windows, each less one second. */
  lemma {:induction false} AttemptSpan(env: Env, log: seq<Attempt>, k: nat)
    requires Spaced(env, log)
    requires 2 <= k <= |log|
    ensures log[k - 1].at - log[0].at > TotalWindow(env, k)
  {
    if k > 2 {
      AttemptSpan(env, log, k - 1);
    }
  }

  lemma RecordedFailuresSpan(env: Env, states: seq<State>, steps: seq<Step>, n: nat, id: int)
    requires IsRun(env, states, steps) && n < |states|
    requires OneDrainer(states)
    requires |AttemptsOf(states[n], id)| >= 2
    ensures var log := AttemptsOf(states[n], id);
            log[|log| - 1].at - log[0].at > TotalWindow(env, |log|)
  {
    SpacingRun(env, states, steps, n);
    AttemptSpan(env, AttemptsOf(states[n], id), |AttemptsOf(states[n], id)|);
  }

  // -------------------------------------------- why one drainer is essential

  lemma SingleRowBatch(t: Table, id: int, n: nat)
    requires t.Keys == {id} && n > 0
    ensures IsOldestBatch(t, n, [id])
  {
  }

  /** Two drainers at the same row, which was never tried. */
  ghost predicate TwoAtRow(s: State) {
    && (forall p :: p == 1 || p == 2 ==> AtRow(s, p) && s.drainers[p].todo[0].id == 1
                                         && s.drainers[p].todo[0].row.lastAttemptAt.None?)
    && 1 in s.db.rows
    && AttemptsOf(s, 1) == []
  }

  lemma TwoSelect(env: Env) returns (states: seq<State>, steps: seq<Step>)
    requires env.cfg.drainRows > 0
    ensures IsRun(env, states, steps) && TwoAtRow(states[|steps|])
  {
    states, steps := [Init(0)], [];
    states, steps := Append(env, states, steps, Enqueue("r", Garbage));
    SingleRowBatch(states[1].db.rows, 1, env.cfg.drainRows);
    states, steps := Append(env, states, steps, Select(1, [1]));
    states, steps := Append(env, states, steps, Select(2, [1]));
    states, steps := Append(env, states, steps, ReadClock(1));
    states, steps := Append(env, states, steps, ReadClock(2));
  }

  lemma FirstFails(env: Env, s: State)
    requires TwoAtRow(s)
    requires env.cfg.backoffBase >= SECOND && env.cfg.backoffMax >= env.cfg.backoffBase
    ensures Enabled(env, s, Send(1))
    ensures var a := Apply(env, s, Send(1));
            && Enabled(env, a, GiveUp(1, TransientFail))
            && var b := Apply(env, a, GiveUp(1, TransientFail));
               && Enabled(env, b, Record(1, ""))
               && var c := Apply(env, b, Record(1, ""));
                  Enabled(env, c, Send(2)) && !StartsLate(env, c, 2)
  {
  }

  /** Two drainers that selected the same row: the second sends it in the very
      instant in which the first recorded its failure, whatever the backoff. */
  lemma TwoDrainersBreakSpacing(env: Env) returns (states: seq<State>, steps: seq<Step>)
    requires env.cfg.drainRows > 0
    requires env.cfg.backoffBase >= SECOND && env.cfg.backoffMax >= env.cfg.backoffBase
    ensures IsRun(env, states, steps) && steps != []
    ensures var n := |steps| - 1;
            steps[n].Send? && AtRow(states[n], steps[n].p) && !StartsLate(env, states[n], steps[n].p)
  {
    states, steps := TwoSelect(env);
    FirstFails(env, states[|steps|]);
    states, steps := Append(env, states, steps, Send(1));
    states, steps := Append(env, states, steps, GiveUp(1, TransientFail));
    states, steps := Append(env, states, steps, Record(1, ""));
    states, steps := Append(env, states, steps, Send(2));
  }

  lemma Append(env: Env, states: seq<State>, steps: seq<Step>, step: Step)
    returns (states': seq<State>, steps': seq<Step>)
    requires IsRun(env, states, steps)
    requires Enabled(env, states[|steps|], step)
    ensures IsRun(env, states', steps') && steps' == steps + [step]
    ensures states' == states + [Apply(env, states[|steps|], step)]
  {
    states', steps' := states + [Apply(env, states[|steps|], step)], steps + [step];
  }
}
