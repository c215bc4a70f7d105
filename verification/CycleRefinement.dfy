/** Every run of probe cycles, from enqueue over drain to the saved snapshot, is
    a run of the protocol; so the code loses nothing over whole runs. */
module CycleRefinement {
  import opened Clock
  import opened Wire
  import opened SpoolTable
  import opened Protocol
  import opened Results
  import opened Service
  import opened Spool
  import opened Cycles = Spoke
  import opened DrainRefinement
  import Safety = ProtocolSafety

  // ---------------------------------------------------------------- one cycle

  /** The cycle gets to spool its payload, if its run id is fresh. */
  predicate Spools(inp: Input) {
    && inp.targets != [] && inp.runId.Some? && inp.encodeOk
    && inp.runId.value != "" && inp.enqueueOk
  }

  /** The cycle gets to drain. */
  predicate DrainsToo(inp: Input) {
    Spools(inp) && inp.selectOk
  }

  function Enqueued(env: Env, db: Db, inp: Input): Db
    requires Spools(inp)
  {
    Insert(db, inp.runId.value, PayloadOf(env.source, db, inp), inp.enqueueAt)
  }

  /** What the controller does about a cycle: the requests it serves before the
      cycle drains, and what becomes of each send. */
  datatype World = World(idle: seq<Served>, net: int -> Exchange)

  /** The controller's table and the sent requests after a cycle. */
  function CycleNet(env: Env, n: Net, db: Db, inp: Input, w: Witness, world: World): Net {
    var idle := NetServed(n, world.idle);
    if DrainsToo(inp) then NetAfter(idle, Enqueued(env, db, inp).rows, w.trace.calls, world.net) else idle
  }

  /** The cycle's statements run in order, its answers are honest, and the
      controller serves with the table that it has. */
  ghost predicate SoundCycle(env: Env, n: Net, db: Db, inp: Input, w: Witness, world: World) {
    && inp.enqueueAt <= inp.drainAt
    && Serves(env.source, n, world.idle)
    && (DrainsToo(inp) ==>
          Sound(env, NetServed(n, world.idle), Enqueued(env, db, inp).rows, w.trace.calls,
                inp.answers, world.net, inp.drainAt))
  }

  /** No statement of the cycle runs later than this. */
  function EndOf(inp: Input, w: Witness): int {
    if DrainsToo(inp) then Max(inp.drainAt, LastAt(w.trace.calls, inp.answers, inp.drainAt)) else inp.drainAt
  }

  /** The runs that the cycle's retention dropped. */
  function Victims(inp: Input, w: Witness): set<string> {
    if DrainsToo(inp) then RunsOf(w.trace.mid.rows, w.trace.victims) else {}
  }

  /** The payloads spooled so far, with those of one more cycle. */
  function Spooled(env: Env, enqueued: map<string, Payload>, db: Db, inp: Input): map<string, Payload> {
    if Spools(inp) then enqueued[inp.runId.value := PayloadOf(env.source, db, inp)] else enqueued
  }

  lemma EnqueuePath(env: Env, s0: State, inp: Input) returns (s': State)
    requires Spools(inp) && inp.runId.value !in s0.hist.enqueued && s0.clock <= inp.enqueueAt
    ensures Reaches(env, s0, s') && s'.drainers == s0.drainers && s'.clock == inp.enqueueAt
    ensures s'.db == Enqueued(env, s0.db, inp)
    ensures s'.hist.enqueued == Spooled(env, s0.hist.enqueued, s0.db, inp)
    ensures s'.hist.dropped == s0.hist.dropped && NetOf(s') == NetOf(s0)
  {
    var later := Apply(env, s0, Tick(inp.enqueueAt));
    var enqueue := Enqueue(inp.runId.value, PayloadOf(env.source, s0.db, inp));
    Take(env, s0, Tick(inp.enqueueAt));
    Then(env, s0, later, enqueue);
    s' := Apply(env, later, enqueue);
  }

  /** The snapshot updates that ran, one statement each. */
  lemma {:induction false} SavePath(env: Env, s: State, last: Snapshot, upto: nat) returns (s': State)
    requires upto <= 3
    requires upto < 1 ==> last.depth == s.db.last.depth
    requires upto < 2 ==> last.oldestAgeSecs == s.db.last.oldestAgeSecs
    requires upto < 3 ==> last.dropsTotal == s.db.last.dropsTotal
    ensures Reaches(env, s, s') && s' == s.(db := s.db.(last := last))
    decreases upto
  {
    if upto == 0 {
      Stay(env, s);
      s' := s;
    } else {
      var before := match upto
        case 1 => last.(depth := s.db.last.depth)
        case 2 => last.(oldestAgeSecs := s.db.last.oldestAgeSecs)
        case _ => last.(dropsTotal := s.db.last.dropsTotal);
      var save := match upto
        case 1 => Save(LastDepth, last.depth)
        case 2 => Save(LastOldestAgeSecs, last.oldestAgeSecs)
        case _ => Save(LastDropsTotal, last.dropsTotal);
      var mid := SavePath(env, s, before, upto - 1);
      Then(env, s, mid, save);
      s' := Apply(env, mid, save);
    }
  }

  /** Where a cycle leaves the system. */
  ghost predicate CycleDone(env: Env, s0: State, s: State, inp: Input, w: Witness, after: Db) {
    && s.db == after && s.drainers == s0.drainers && s.clock <= EndOf(inp, w)
    && s.hist.enqueued == Spooled(env, s0.hist.enqueued, s0.db, inp)
    && s.hist.dropped == s0.hist.dropped + Victims(inp, w)
  }

  /** What a cycle with a fresh run id comes to. */
  ghost predicate Shape(env: Env, db: Db, inp: Input, w: Witness, completed: bool, after: Db) {
    if !Spools(inp) then after == db
    else if !inp.selectOk then after == Enqueued(env, db, inp)
    else
      && Drained(env.cfg, Enqueued(env, db, inp), inp.drainAt, inp.answers, inp.rounds,
                 w.trace, w.stats, completed, w.drained)
      && Saves(w.drained, inp, completed, after)
  }

  lemma CycleShape(env: Env, db: Db, inp: Input, w: Witness, out: Output, after: Db)
    requires Cycle(env.cfg, env.source, db, inp, w, out, after)
    requires inp.runId.Some? ==> !HasRun(db.rows, inp.runId.value)
    ensures Shape(env, db, inp, w, out.outcome == Completed, after)
  {
  }

  lemma ShapePath(env: Env, s0: State, p: int, inp: Input, w: Witness, world: World, completed: bool, after: Db)
    returns (s': State)
    requires p !in s0.drainers && s0.clock <= inp.enqueueAt
    requires Shape(env, s0.db, inp, w, completed, after)
    requires inp.runId.Some? ==> inp.runId.value !in s0.hist.enqueued
    requires SoundCycle(env, NetOf(s0), s0.db, inp, w, world)
    ensures Reaches(env, s0, s') && CycleDone(env, s0, s', inp, w, after)
    ensures NetOf(s') == CycleNet(env, NetOf(s0), s0.db, inp, w, world)
  {
    s' := ServeAll(env, s0, world.idle);
    if Spools(inp) {
      var idle := s';
      s' := EnqueuePath(env, idle, inp);
      ReachesTrans(env, s0, idle, s');
      if inp.selectOk {
        var mid := s';
        s' := DrainAndSave(env, mid, p, inp, w, world.net, completed, after);
        ReachesTrans(env, s0, mid, s');
      }
    }
  }

  /** A whole cycle, whatever becomes of it and whatever the controller serves
      meanwhile, is a sequence of protocol steps. */
  lemma CycleIsAPath(
    env: Env, s0: State, p: int, inp: Input, w: Witness, world: World, out: Output, after: Db)
    returns (s': State)
    requires p !in s0.drainers && s0.clock <= inp.enqueueAt
    requires Cycle(env.cfg, env.source, s0.db, inp, w, out, after)
    requires inp.runId.Some? ==> inp.runId.value !in s0.hist.enqueued && !HasRun(s0.db.rows, inp.runId.value)
    requires SoundCycle(env, NetOf(s0), s0.db, inp, w, world)
    ensures Reaches(env, s0, s') && CycleDone(env, s0, s', inp, w, after)
    ensures NetOf(s') == CycleNet(env, NetOf(s0), s0.db, inp, w, world)
  {
    CycleShape(env, s0.db, inp, w, out, after);
    s' := ShapePath(env, s0, p, inp, w, world, out.outcome == Completed, after);
  }

  lemma FreshIsNotSpooled(env: Env, states: seq<State>, steps: seq<Step>, run: string)
    requires Protocol.IsRun(env, states, steps)
    requires run !in states[|steps|].hist.enqueued
    ensures !HasRun(states[|steps|].db.rows, run)
  {
    Safety.InvRun(env, states, steps, |steps|);
    var s := states[|steps|];
    assert forall id :: id in s.db.rows ==> Safety.Spooled(s, s.db.rows[id]);
  }

  lemma DrainAndSave(
    env: Env, s: State, p: int, inp: Input, w: Witness, net: int -> Exchange, completed: bool, after: Db)
    returns (s': State)
    requires p !in s.drainers && s.clock <= inp.drainAt
    requires Drained(env.cfg, s.db, inp.drainAt, inp.answers, inp.rounds, w.trace, w.stats, completed, w.drained)
    requires Sound(env, NetOf(s), s.db.rows, w.trace.calls, inp.answers, net, inp.drainAt)
    requires Saves(w.drained, inp, completed, after)
    ensures Reaches(env, s, s') && s'.db == after && s'.drainers == s.drainers
    ensures s'.clock <= LastAt(w.trace.calls, inp.answers, inp.drainAt)
    ensures NetOf(s') == NetAfter(NetOf(s), s.db.rows, w.trace.calls, net)
    ensures s'.hist.enqueued == s.hist.enqueued
    ensures s'.hist.dropped == s.hist.dropped + RunsOf(w.trace.mid.rows, w.trace.victims)
  {
    var mid := DrainIsAPath(
      env, s, p, inp.drainAt, inp.answers, net, inp.rounds, w.trace, w.stats, completed, w.drained);
    s' := mid;
    if completed {
      s' := SavePath(env, mid, after.last, if inp.savedUpto > 3 then 3 else inp.savedUpto);
      ReachesTrans(env, s, mid, s');
    }
  }

  // --------------------------------------------------------------- whole runs

  /** Run ids are never used twice. */
  predicate FreshRunIds(ins: seq<Input>) {
    forall i, j :: 0 <= i < j < |ins| && ins[i].runId.Some? && ins[j].runId.Some? ==>
      ins[i].runId.value != ins[j].runId.value
  }

  /** The controller's table and the sent requests after n cycles. */
  function RunNet(env: Env, dbs: seq<Db>, ins: seq<Input>, ws: seq<Witness>, worlds: seq<World>, n: nat): Net
    requires n <= |ins| == |ws| == |worlds| && |dbs| == |ins| + 1
  {
    if n == 0 then Net([], {})
    else CycleNet(env, RunNet(env, dbs, ins, ws, worlds, n - 1), dbs[n - 1], ins[n - 1], ws[n - 1], worlds[n - 1])
  }

  /** Cycles follow each other, and each of them is sound. */
  ghost predicate SoundRun(env: Env, dbs: seq<Db>, ins: seq<Input>, ws: seq<Witness>, worlds: seq<World>)
    requires |dbs| == |ins| + 1 && |ws| == |ins|
  {
    && |worlds| == |ins|
    && FreshRunIds(ins)
    && (forall i :: 0 <= i < |ins| ==>
          SoundCycle(env, RunNet(env, dbs, ins, ws, worlds, i), dbs[i], ins[i], ws[i], worlds[i]))
    && (forall i :: 0 < i < |ins| ==> EndOf(ins[i - 1], ws[i - 1]) <= ins[i].enqueueAt)
  }

  /** The payloads spooled by the first n cycles. */
  function AllSpooled(env: Env, dbs: seq<Db>, ins: seq<Input>, n: nat): map<string, Payload>
    requires n <= |ins| <= |dbs|
  {
    if n == 0 then map[] else Spooled(env, AllSpooled(env, dbs, ins, n - 1), dbs[n - 1], ins[n - 1])
  }

  /** The runs dropped by retention in the first n cycles. */
  function AllVictims(ins: seq<Input>, ws: seq<Witness>, n: nat): set<string>
    requires n <= |ins| == |ws|
  {
    if n == 0 then {} else AllVictims(ins, ws, n - 1) + Victims(ins[n - 1], ws[n - 1])
  }

  /** Where n cycles leave the system. */
  ghost predicate RunDone(env: Env, s: State, dbs: seq<Db>, ins: seq<Input>, ws: seq<Witness>, n: nat)
    requires n <= |ins| == |ws| && |dbs| == |ins| + 1
  {
    && s.db == dbs[n] && s.drainers == map[]
    && (n < |ins| ==> s.clock <= ins[n].enqueueAt)
    && s.hist.enqueued == AllSpooled(env, dbs, ins, n)
    && s.hist.dropped == AllVictims(ins, ws, n)
  }

  /** Every sequence of cycles is a run of the protocol that ends with the spool
      the cycles leave and the table the controller's answers leave. */
  lemma {:induction false} CyclesAreARun(
    env: Env, dbs: seq<Db>, ins: seq<Input>, ws: seq<Witness>, worlds: seq<World>, outs: seq<Output>, n: nat)
    returns (states: seq<State>, steps: seq<Step>)
    requires Cycles.IsRun(env.cfg, env.source, dbs, ins, ws, outs) && n <= |ins|
    requires SoundRun(env, dbs, ins, ws, worlds)
    ensures Protocol.IsRun(env, states, steps) && RunDone(env, states[|steps|], dbs, ins, ws, n)
    ensures NetOf(states[|steps|]) == RunNet(env, dbs, ins, ws, worlds, n)
  {
    if n == 0 {
      states, steps := [Init(if ins == [] then 0 else ins[0].enqueueAt)], [];
    } else {
      states, steps := CyclesAreARun(env, dbs, ins, ws, worlds, outs, n - 1);
      var s := states[|steps|];
      NextIsFresh(env, dbs, ins, n - 1);
      if ins[n - 1].runId.Some? {
        FreshIsNotSpooled(env, states, steps, ins[n - 1].runId.value);
      }
      var s' := CycleIsAPath(env, s, 1, ins[n - 1], ws[n - 1], worlds[n - 1], outs[n - 1], dbs[n]);
      states, steps := RunReaches(env, states, steps, s');
    }
  }

  lemma NextIsFresh(env: Env, dbs: seq<Db>, ins: seq<Input>, n: nat)
    requires n < |ins| <= |dbs| && FreshRunIds(ins)
    ensures ins[n].runId.Some? ==> ins[n].runId.value !in AllSpooled(env, dbs, ins, n)
  {
    if ins[n].runId.Some? && ins[n].runId.value in AllSpooled(env, dbs, ins, n) {
      var i := SpooledBy(env, dbs, ins, n, ins[n].runId.value);
      assert false;
    }
  }

  /** What a cycle spools stays on the books. */
  lemma {:induction false} SpooledStays(env: Env, dbs: seq<Db>, ins: seq<Input>, i: nat, n: nat)
    requires i < n <= |ins| <= |dbs| && FreshRunIds(ins) && Spools(ins[i])
    ensures ins[i].runId.value in AllSpooled(env, dbs, ins, n)
    ensures AllSpooled(env, dbs, ins, n)[ins[i].runId.value] == PayloadOf(env.source, dbs[i], ins[i])
  {
    if n > i + 1 {
      SpooledStays(env, dbs, ins, i, n - 1);
    }
  }

  lemma {:induction false} VictimOfSome(ins: seq<Input>, ws: seq<Witness>, n: nat, run: string)
    requires n <= |ins| == |ws|
    ensures run in AllVictims(ins, ws, n) <==> exists k :: 0 <= k < n && run in Victims(ins[k], ws[k])
  {
    if n > 0 {
      VictimOfSome(ins, ws, n - 1, run);
    }
  }

  /** The table tells of a cycle's run exactly its observations, in order, each
      with its target, latency, error and the second in which it was made. */
  predicate Told(table: seq<ResultRow>, source: string, inp: Input)
    requires inp.runId.Some?
  {
    var rows := Safety.RowsFor(table, source, inp.runId.value);
    && |rows| == |inp.results|
    && (forall k :: 0 <= k < |rows| ==>
          && rows[k].key.target == inp.results[k].targetId
          && rows[k].latencyMs == inp.results[k].latencyMs
          && (inp.results[k].error == "" ==> rows[k].error.None?)
          && (inp.results[k].error != "" ==> rows[k].error == Some(inp.results[k].error))
          && rows[k].observedAt % SECOND == 0 && rows[k].observedAt <= inp.observedAt < rows[k].observedAt + SECOND)
  }

  lemma StoredIsTold(table: seq<ResultRow>, source: string, db: Db, inp: Input, payload: Payload)
    requires Carries(source, db, inp, payload)
    requires Safety.RowsFor(table, source, payload.req.probeRunId) == RowsOf(payload.req)
    ensures Told(table, source, inp)
  {
    ReadBack(payload.req);
  }

  /** No loss for the code over whole runs. Take any sequence of cycles from an
      empty spool, with fresh run ids: any of them may fail at any statement,
      half-save its snapshot, or find its rows refused. Take any controller that
      serves this agent and others by handleResults, loses requests and replies,
      or serves a request late or twice; the sender's answers are its readings
      of the responses. Then each payload that a cycle spooled carries the cycle's
      observations, and it is in the spool that n cycles leave, or every one of
      these observations is told by the table that the controller's answers
      leave, or one of the cycles' retentions took it. */
  lemma CyclesLoseNothing(
    env: Env, dbs: seq<Db>, ins: seq<Input>, ws: seq<Witness>, worlds: seq<World>, outs: seq<Output>, i: nat, n: nat)
    requires Cycles.IsRun(env.cfg, env.source, dbs, ins, ws, outs) && i < n <= |ins|
    requires SoundRun(env, dbs, ins, ws, worlds)
    requires Spools(ins[i])
    ensures outs[i].payload.Some? && Carries(env.source, dbs[i], ins[i], outs[i].payload.value)
    ensures var run, payload := ins[i].runId.value, outs[i].payload.value;
            var table := RunNet(env, dbs, ins, ws, worlds, n).table;
            || (exists id :: id in dbs[n].rows && dbs[n].rows[id].runId == run && dbs[n].rows[id].payload == payload)
            || (Safety.WholeBatchStored(table, payload.req) && Told(table, env.source, ins[i]))
            || (exists k :: 0 <= k < n && run in Victims(ins[k], ws[k]))
  {
    var states, steps := CyclesAreARun(env, dbs, ins, ws, worlds, outs, n);
    SpooledStays(env, dbs, ins, i, n);
    VictimOfSome(ins, ws, n, ins[i].runId.value);
    assert Cycle(env.cfg, env.source, dbs[i], ins[i], ws[i], outs[i], dbs[i + 1]);
    CycleEnds(env.cfg, env.source, dbs[i], ins[i], ws[i], outs[i], dbs[i + 1]);
    Safety.NoLoss(env, states, steps, |steps|, ins[i].runId.value);
    assert NetOf(states[|steps|]).table == states[|steps|].ctl.table;
    if Safety.WholeBatchStored(states[|steps|].ctl.table, outs[i].payload.value.req) {
      StoredIsTold(states[|steps|].ctl.table, env.source, dbs[i], ins[i], outs[i].payload.value);
    }
  }

  /** And it stores nothing twice: of each run of this agent that controller
      holds nothing, or exactly the observations of the one cycle that spooled
      it. */
  lemma CyclesStoreOnce(
    env: Env, dbs: seq<Db>, ins: seq<Input>, ws: seq<Witness>, worlds: seq<World>, outs: seq<Output>,
    n: nat, run: string)
    requires Cycles.IsRun(env.cfg, env.source, dbs, ins, ws, outs) && n <= |ins|
    requires SoundRun(env, dbs, ins, ws, worlds)
    ensures UniqueKeys(RunNet(env, dbs, ins, ws, worlds, n).table)
    ensures var table := RunNet(env, dbs, ins, ws, worlds, n).table;
            var rows := Safety.RowsFor(table, env.source, run);
            rows == [] ||
            (exists i :: 0 <= i < n && Spools(ins[i]) && ins[i].runId == Some(run)
                         && rows == RowsOf(PayloadOf(env.source, dbs[i], ins[i]).req)
                         && Told(table, env.source, ins[i]))
  {
    var states, steps := CyclesAreARun(env, dbs, ins, ws, worlds, outs, n);
    Safety.ExactlyOnce(env, states, steps, |steps|, run);
    assert NetOf(states[|steps|]).table == states[|steps|].ctl.table;
    if run in AllSpooled(env, dbs, ins, n) {
      var i := SpooledBy(env, dbs, ins, n, run);
      if Safety.RowsFor(states[|steps|].ctl.table, env.source, run) != [] {
        StoredIsTold(states[|steps|].ctl.table, env.source, dbs[i], ins[i], PayloadOf(env.source, dbs[i], ins[i]));
      }
    }
  }

  /** The cycle that spooled a run. */
  lemma {:induction false} SpooledBy(env: Env, dbs: seq<Db>, ins: seq<Input>, n: nat, run: string) returns (i: nat)
    requires n <= |ins| <= |dbs|
    requires run in AllSpooled(env, dbs, ins, n)
    ensures i < n && Spools(ins[i]) && ins[i].runId == Some(run)
    ensures AllSpooled(env, dbs, ins, n)[run] == PayloadOf(env.source, dbs[i], ins[i])
  {
    if Spools(ins[n - 1]) && ins[n - 1].runId == Some(run) {
      i := n - 1;
    } else {
      i := SpooledBy(env, dbs, ins, n - 1, run);
    }
  }
}
