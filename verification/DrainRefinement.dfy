/** Every call of Drain is a sequence of protocol steps, so that what is proved
    of all runs of the protocol holds of the code. */
module DrainRefinement {
  import opened Clock
  import opened Wire
  import opened SpoolTable
  import opened Results
  import opened Protocol
  import opened Service
  import opened Spool
  import TargetCache
  import Safety = ProtocolSafety

  // -------------------------------------------------------------------- paths

  /** `steps` lead from `s` to `s'`. */
  ghost predicate Path(env: Env, s: State, steps: seq<Step>, s': State)
    decreases |steps|
  {
    if steps == [] then s' == s
    else Enabled(env, s, steps[0]) && Path(env, Apply(env, s, steps[0]), steps[1..], s')
  }

  ghost predicate Reaches(env: Env, s: State, s': State) {
    exists steps :: Path(env, s, steps, s')
  }

  lemma {:induction false} PathTrans(env: Env, a: State, p: seq<Step>, b: State, q: seq<Step>, c: State)
    requires Path(env, a, p, b) && Path(env, b, q, c)
    ensures Path(env, a, p + q, c)
    decreases |p|
  {
    if p == [] {
      assert p + q == q;
    } else {
      PathTrans(env, Apply(env, a, p[0]), p[1..], b, q, c);
      assert (p + q)[0] == p[0] && (p + q)[1..] == p[1..] + q;
    }
  }

  lemma ReachesTrans(env: Env, a: State, b: State, c: State)
    requires Reaches(env, a, b) && Reaches(env, b, c)
    ensures Reaches(env, a, c)
  {
    var p :| Path(env, a, p, b);
    var q :| Path(env, b, q, c);
    PathTrans(env, a, p, b, q, c);
  }

  /** One step. */
  lemma Take(env: Env, s: State, step: Step)
    requires Enabled(env, s, step)
    ensures Reaches(env, s, Apply(env, s, step))
  {
    assert [step][1..] == [];
    assert Path(env, s, [step], Apply(env, s, step));
  }

  lemma Stay(env: Env, s: State)
    ensures Reaches(env, s, s)
  {
    assert Path(env, s, [], s);
  }

  /** One more step. */
  lemma Then(env: Env, s: State, mid: State, step: Step)
    requires Reaches(env, s, mid) && Enabled(env, mid, step)
    ensures Reaches(env, s, Apply(env, mid, step))
  {
    Take(env, mid, step);
    ReachesTrans(env, s, mid, Apply(env, mid, step));
  }

  // ----------------------------------------------------------- the controller

  function NetOf(s: State): Net {
    Net(s.ctl.table, s.sent)
  }

  /** Only the controller has moved, and its replies. */
  predicate OnlyServed(s: State, s': State) {
    s' == s.(ctl := s'.ctl, replies := s'.replies) && s.replies <= s'.replies
  }

  predicate IsAccepting(e: Served) {
    e.body.Json? && (e.status == CREATED || e.status == CONFLICT)
  }

  /** What the controller answers, the protocol's controller can answer. */
  lemma ServeOne(env: Env, s: State, e: Served, after: seq<ResultRow>) returns (s': State)
    requires Handles(s.ctl.table, e.node, e.body, e.status, after)
    requires e.node == Some(env.source) && e.body.Json? ==> e.body.req in s.sent
    ensures Reaches(env, s, s') && OnlyServed(s, s') && s'.ctl.table == after
    ensures IsAccepting(e) ==> Handler(e.body.req, e.status) in s'.replies
  {
    if IsAccepting(e) {
      AcceptedIngests(s.ctl.table, e, after);
      var serve := Transact(e.node.value, e.body.req);
      var served := Apply(env, s, serve);
      var last := Respond(|s.ctl.handlers|);
      Take(env, s, serve);
      Then(env, s, served, last);
      s' := Apply(env, served, last);
    } else {
      Stay(env, s);
      s' := s;
    }
  }

  lemma {:induction false} ServeAll(env: Env, s: State, log: seq<Served>) returns (s': State)
    requires Serves(env.source, NetOf(s), log)
    ensures Reaches(env, s, s') && OnlyServed(s, s') && NetOf(s') == NetServed(NetOf(s), log)
    ensures forall e :: e in log && IsAccepting(e) ==> Handler(e.body.req, e.status) in s'.replies
    decreases |log|
  {
    if log == [] {
      Stay(env, s);
      s' := s;
    } else {
      var n := |log| - 1;
      GenuinePrefix(env.source, NetOf(s), log, n);
      var mid := ServeAll(env, s, log[..n]);
      assert log[..n + 1] == log;
      s' := ServeOne(env, mid, log[n], TableAfter(s.ctl.table, log));
      ReachesTrans(env, s, mid, s');
      assert log == log[..n] + [log[n]];
    }
  }

  // --------------------------------------------------------------- one answer

  /** The sender's outcome is its reading of the response, and an accepted
      response is the controller's answer to this request. */
  predicate Honest(env: Env, row: Row, a: Answer, x: Exchange) {
    a.Reply? ==> a.outcome == TargetCache.Reading(x.response) && Truthful(env.source, row.payload, x)
  }

  /** One send: what the controller serves meanwhile, and an honest answer. */
  ghost predicate SoundSend(env: Env, n: Net, row: Row, a: Answer, x: Exchange) {
    && Honest(env, row, a, x)
    && Serves(env.source, n.(sent := n.sent + RequestsOf(row.payload)), x.served)
  }

  /** Only controller, network and drainer p have moved. */
  predicate SameAgent(s: State, s': State, p: int) {
    s'.db == s.db && s'.clock == s.clock && s'.hist == s.hist && s'.drainers - {p} == s.drainers - {p}
  }

  ghost predicate IsAnswered(s: State, s': State, p: int, o: Outcome)
    requires AtRow(s, p)
  {
    && SameAgent(s, s', p)
    && p in s'.drainers
    && var d := s.drainers[p];
       s'.drainers[p] == d.(todo := d.todo[1..], phase := Answered(d.todo[0], s.clock, o))
  }

  ghost predicate IsWaiting(s: State, s': State, p: int)
    requires AtRow(s, p)
  {
    && SameAgent(s, s', p)
    && p in s'.drainers
    && var d := s.drainers[p];
       s'.drainers[p] == d.(todo := d.todo[1..], phase := Waiting(d.todo[0], s.clock))
  }

  /** The request is sent, and the controller serves whatever it serves. */
  lemma ServedPath(env: Env, s: State, p: int, x: Exchange) returns (s': State)
    requires Enabled(env, s, Send(p))
    requires Serves(env.source, Net(s.ctl.table, s.sent + RequestsOf(s.drainers[p].todo[0].row.payload)), x.served)
    ensures Reaches(env, s, s') && IsWaiting(s, s', p)
    ensures NetOf(s') == Exchanged(NetOf(s), s.drainers[p].todo[0].row.payload, x)
    ensures forall e :: e in x.served && IsAccepting(e) ==> Handler(e.body.req, e.status) in s'.replies
  {
    var sent := Apply(env, s, Send(p));
    Take(env, s, Send(p));
    s' := ServeAll(env, sent, x.served);
    ReachesTrans(env, s, sent, s');
  }

  /** An accepted response is in the replies. */
  lemma AcceptedReply(env: Env, n: Net, payload: Payload, x: Exchange)
    requires Serves(env.source, n, x.served) && Truthful(env.source, payload, x)
    requires TargetCache.Reading(x.response).Accepted?
    ensures IsAccepting(Served(Some(env.source), payload, x.response.status))
  {
    var e := Served(Some(env.source), payload, x.response.status);
    var k :| 0 <= k < |x.served| && x.served[k] == e;
    assert Handles(TableAfter(n.table, x.served[..k]), e.node, e.body, e.status,
                   TableAfter(n.table, x.served[..k + 1]));
  }

  /** Sending the row at hand can bring any honest answer. */
  lemma AnswerPath(env: Env, s: State, p: int, a: Answer, x: Exchange) returns (s': State)
    requires Enabled(env, s, Send(p))
    requires a.Reply? && SoundSend(env, NetOf(s), s.drainers[p].todo[0].row, a, x)
    ensures Reaches(env, s, s') && IsAnswered(s, s', p, a.outcome)
    ensures NetOf(s') == Exchanged(NetOf(s), s.drainers[p].todo[0].row.payload, x)
  {
    var payload := s.drainers[p].todo[0].row.payload;
    var served := ServedPath(env, s, p, x);
    var hear;
    if a.outcome.Accepted? {
      AcceptedReply(env, Net(s.ctl.table, s.sent + RequestsOf(payload)), payload, x);
      hear := Hear(p, x.response.status);
    } else {
      hear := GiveUp(p, a.outcome);
    }
    Then(env, s, served, hear);
    s' := Apply(env, served, hear);
  }

  // ------------------------------------------------------------ the send loop

  /** When the last of these answers was recorded. */
  function LastAt(sent: seq<int>, ans: int -> Answer, now: int): int {
    if sent == [] || !ans(sent[|sent| - 1]).Reply? then now else ans(sent[|sent| - 1]).at
  }

  /** The answers to `sent` are recorded one after the other, from `now` on. */
  ghost predicate InTime(sent: seq<int>, ans: int -> Answer, now: int) {
    forall i :: 0 <= i < |sent| && ans(sent[i]).Reply? ==> LastAt(sent[..i], ans, now) <= ans(sent[i]).at
  }

  lemma InTimePrefix(sent: seq<int>, id: int, ans: int -> Answer, now: int)
    requires InTime(sent + [id], ans, now) && ans(id).Reply?
    ensures InTime(sent, ans, now) && LastAt(sent, ans, now) <= ans(id).at
  {
    var all := sent + [id];
    assert all[..|sent|] == sent && all[|sent|] == id;
    forall i | 0 <= i < |sent| && ans(sent[i]).Reply? ensures LastAt(sent[..i], ans, now) <= ans(sent[i]).at {
      assert all[..i] == sent[..i] && all[i] == sent[i];
    }
  }

  /** Neither what was enqueued nor what was dropped has changed. */
  predicate SameHistory(s0: State, s: State) {
    s.hist.enqueued == s0.hist.enqueued && s.hist.dropped == s0.hist.dropped
  }

  /** The drain that started in s0 has done k rows of its batch. */
  ghost predicate At(env: Env, s0: State, s: State, p: int, batch: seq<int>, k: nat, now: int, ans: int -> Answer)
    requires k <= |batch|
    requires forall i :: 0 <= i < |batch| ==> batch[i] in s0.db.rows
  {
    var sent := DueIn(env.cfg, s0.db.rows, batch[..k], now);
    && s.drainers == s0.drainers[p := Drainer(now, Candidates(s0.db.rows, batch)[k..], Scanning)]
    && s.db == s0.db.(rows := Recorded(s0.db.rows, sent, ans))
    && s.clock == LastAt(sent, ans, now)
    && SameHistory(s0, s)
  }

  /** And the controller has served what it served meanwhile. */
  ghost predicate NetAt(env: Env, s0: State, s: State, batch: seq<int>, k: nat, now: int, net: int -> Exchange)
    requires k <= |batch|
    requires forall i :: 0 <= i < |batch| ==> batch[i] in s0.db.rows
  {
    NetOf(s) == NetAfter(NetOf(s0), s0.db.rows, DueIn(env.cfg, s0.db.rows, batch[..k], now), net)
  }

  lemma SkipPath(env: Env, s0: State, s: State, p: int, batch: seq<int>, k: nat, now: int, ans: int -> Answer)
    requires k < |batch|
    requires forall i :: 0 <= i < |batch| ==> batch[i] in s0.db.rows
    requires At(env, s0, s, p, batch, k, now, ans)
    requires !Due(env.cfg, s0.db.rows[batch[k]], now)
    ensures Enabled(env, s, Skip(p)) && At(env, s0, Apply(env, s, Skip(p)), p, batch, k + 1, now, ans)
  {
    var cs := Candidates(s0.db.rows, batch);
    assert cs[k..][0] == Candidate(batch[k], s0.db.rows[batch[k]]);
    assert cs[k..][1..] == cs[k + 1..];
    DueInStep(env.cfg, s0.db.rows, batch, k, now);
  }

  /** What recording the k-th answer does to the rows, and to the clock. */
  lemma RecordedRow(env: Env, t: Table, batch: seq<int>, k: nat, now: int, ans: int -> Answer)
    requires k < |batch|
    requires forall i :: 0 <= i < |batch| ==> batch[i] in t
    requires forall i :: 0 <= i < k ==> batch[i] != batch[k]
    requires Due(env.cfg, t[batch[k]], now)
    requires ans(batch[k]).Reply? && !ans(batch[k]).outcome.Unknown?
    ensures var before := Recorded(t, DueIn(env.cfg, t, batch[..k], now), ans);
            var sent := DueIn(env.cfg, t, batch[..k + 1], now);
            var a := ans(batch[k]);
            && batch[k] in before
            && sent == DueIn(env.cfg, t, batch[..k], now) + [batch[k]]
            && Recorded(t, sent, ans)
                 == (if a.outcome.Accepted? then Remove(before, batch[k])
                     else MarkFailed(before, batch[k], a.at, a.err))
            && LastAt(sent, ans, now) == a.at
  {
    DueInStep(env.cfg, t, batch, k, now);
    DueInIff(env.cfg, t, batch[..k], now, batch[k]);
    RecordedStep(t, DueIn(env.cfg, t, batch[..k], now), ans, batch[k]);
  }

  /** The row at hand has been answered. */
  lemma AnsweredDrainer(env: Env, s0: State, s: State, mid: State, p: int, batch: seq<int>, k: nat, now: int,
                        ans: int -> Answer, o: Outcome)
    requires k < |batch|
    requires forall i :: 0 <= i < |batch| ==> batch[i] in s0.db.rows
    requires At(env, s0, s, p, batch, k, now, ans) && AtRow(s, p) && IsAnswered(s, mid, p, o)
    ensures var c := Candidate(batch[k], s0.db.rows[batch[k]]);
            var rest := Candidates(s0.db.rows, batch)[k + 1..];
            mid.drainers == s0.drainers[p := Drainer(now, rest, Answered(c, s.clock, o))]
  {
    var cs := Candidates(s0.db.rows, batch);
    assert cs[k..][0] == Candidate(batch[k], s0.db.rows[batch[k]]);
    assert cs[k..][1..] == cs[k + 1..];
    assert mid.drainers == (mid.drainers - {p})[p := mid.drainers[p]];
    assert s.drainers - {p} == s0.drainers - {p};
  }

  /** Drainer p has the answer to row k in hand. */
  ghost predicate AnswerAt(
    env: Env, s0: State, s: State, p: int, batch: seq<int>, k: nat, now: int, ans: int -> Answer, since: int)
    requires k < |batch|
    requires forall i :: 0 <= i < |batch| ==> batch[i] in s0.db.rows
    requires ans(batch[k]).Reply?
  {
    var c := Candidate(batch[k], s0.db.rows[batch[k]]);
    var rest := Candidates(s0.db.rows, batch)[k + 1..];
    && s.drainers == s0.drainers[p := Drainer(now, rest, Answered(c, since, ans(batch[k]).outcome))]
    && s.db == s0.db.(rows := Recorded(s0.db.rows, DueIn(env.cfg, s0.db.rows, batch[..k], now), ans))
    && SameHistory(s0, s)
  }

  /** Recording the answer finishes the row. */
  lemma RecordedAt(
    env: Env, s0: State, s: State, p: int, batch: seq<int>, k: nat, now: int, ans: int -> Answer, since: int)
    requires k < |batch|
    requires forall i :: 0 <= i < |batch| ==> batch[i] in s0.db.rows
    requires forall i :: 0 <= i < k ==> batch[i] != batch[k]
    requires Due(env.cfg, s0.db.rows[batch[k]], now)
    requires ans(batch[k]).Reply? && !ans(batch[k]).outcome.Unknown? && s.clock == ans(batch[k]).at
    requires AnswerAt(env, s0, s, p, batch, k, now, ans, since)
    ensures var record := Record(p, ans(batch[k]).err);
            Enabled(env, s, record) && At(env, s0, Apply(env, s, record), p, batch, k + 1, now, ans)
  {
    RecordedRow(env, s0.db.rows, batch, k, now, ans);
  }

  lemma RecordPath(
    env: Env, s0: State, s: State, mid: State, p: int, batch: seq<int>, k: nat, now: int, ans: int -> Answer)
    returns (s': State)
    requires k < |batch|
    requires forall i :: 0 <= i < |batch| ==> batch[i] in s0.db.rows
    requires forall i :: 0 <= i < k ==> batch[i] != batch[k]
    requires At(env, s0, s, p, batch, k, now, ans)
    requires Due(env.cfg, s0.db.rows[batch[k]], now)
    requires ans(batch[k]).Reply? && !ans(batch[k]).outcome.Unknown? && s.clock <= ans(batch[k]).at
    requires AtRow(s, p) && IsAnswered(s, mid, p, ans(batch[k]).outcome)
    ensures Reaches(env, mid, s') && At(env, s0, s', p, batch, k + 1, now, ans) && NetOf(s') == NetOf(mid)
  {
    var a := ans(batch[k]);
    AnsweredDrainer(env, s0, s, mid, p, batch, k, now, ans, a.outcome);
    var late := Apply(env, mid, Tick(a.at));
    Take(env, mid, Tick(a.at));
    RecordedAt(env, s0, late, p, batch, k, now, ans, s.clock);
    Then(env, mid, late, Record(p, a.err));
    s' := Apply(env, late, Record(p, a.err));
  }

  lemma RowPath(
    env: Env, s0: State, s: State, p: int, batch: seq<int>, k: nat, now: int, ans: int -> Answer, net: int -> Exchange)
    returns (s': State)
    requires k < |batch|
    requires forall i :: 0 <= i < |batch| ==> batch[i] in s0.db.rows
    requires forall i :: 0 <= i < k ==> batch[i] != batch[k]
    requires At(env, s0, s, p, batch, k, now, ans) && NetAt(env, s0, s, batch, k, now, net)
    requires InTime(DueIn(env.cfg, s0.db.rows, batch[..k + 1], now), ans, now)
    requires !Stops(env.cfg, s0.db.rows[batch[k]], now, ans(batch[k]))
    requires Due(env.cfg, s0.db.rows[batch[k]], now) ==>
               SoundSend(env, NetOf(s), s0.db.rows[batch[k]], ans(batch[k]), net(batch[k]))
    ensures Reaches(env, s, s') && At(env, s0, s', p, batch, k + 1, now, ans)
    ensures NetAt(env, s0, s', batch, k + 1, now, net)
  {
    assert Candidates(s0.db.rows, batch)[k..][0] == Candidate(batch[k], s0.db.rows[batch[k]]);
    DueInStep(env.cfg, s0.db.rows, batch, k, now);
    if Due(env.cfg, s0.db.rows[batch[k]], now) {
      var sent := DueIn(env.cfg, s0.db.rows, batch[..k], now);
      InTimePrefix(sent, batch[k], ans, now);
      NetAfterStep(NetOf(s0), s0.db.rows, sent, batch[k], net);
      var mid := AnswerPath(env, s, p, ans(batch[k]), net(batch[k]));
      s' := RecordPath(env, s0, s, mid, p, batch, k, now, ans);
      ReachesTrans(env, s, mid, s');
    } else {
      SkipPath(env, s0, s, p, batch, k, now, ans);
      Take(env, s, Skip(p));
      s' := Apply(env, s, Skip(p));
    }
  }

  lemma SelectPath(env: Env, s0: State, p: int, batch: seq<int>, now: int, ans: int -> Answer)
    returns (s': State)
    requires p !in s0.drainers && s0.clock <= now
    requires IsOldestBatch(s0.db.rows, env.cfg.drainRows, batch)
    ensures Reaches(env, s0, s') && At(env, s0, s', p, batch, 0, now, ans) && NetOf(s') == NetOf(s0)
  {
    var a := Apply(env, s0, Select(p, batch));
    var b := Apply(env, a, Tick(now));
    Take(env, s0, Select(p, batch));
    Then(env, s0, a, Tick(now));
    Then(env, s0, b, ReadClock(p));
    s' := Apply(env, b, ReadClock(p));
    NothingSent(s0.db.rows, ans);
    assert batch[..0] == [];
  }

  /** These sends are answered in order of time and honestly, while the
      controller, with the table it then has, serves what it serves. */
  ghost predicate Sound(
    env: Env, n: Net, t: Table, sent: seq<int>, ans: int -> Answer, net: int -> Exchange, now: int)
  {
    && InTime(sent, ans, now)
    && (forall i :: 0 <= i < |sent| ==>
          sent[i] in t && SoundSend(env, NetAfter(n, t, sent[..i], net), t[sent[i]], ans(sent[i]), net(sent[i])))
  }

  lemma SoundPrefix(
    env: Env, n: Net, t: Table, batch: seq<int>, k: nat, ans: int -> Answer, net: int -> Exchange, now: int)
    requires k < |batch|
    requires forall i :: 0 <= i < |batch| ==> batch[i] in t
    requires !Stops(env.cfg, t[batch[k]], now, ans(batch[k])) || ans(batch[k]).Reply?
    requires Sound(env, n, t, DueIn(env.cfg, t, batch[..k + 1], now), ans, net, now)
    ensures Sound(env, n, t, DueIn(env.cfg, t, batch[..k], now), ans, net, now)
    ensures Due(env.cfg, t[batch[k]], now) ==>
              SoundSend(env, NetAfter(n, t, DueIn(env.cfg, t, batch[..k], now), net), t[batch[k]],
                        ans(batch[k]), net(batch[k]))
  {
    DueInStep(env.cfg, t, batch, k, now);
    if Due(env.cfg, t[batch[k]], now) {
      SoundInit(env, n, t, DueIn(env.cfg, t, batch[..k], now), batch[k], ans, net, now);
    }
  }

  lemma SoundInit(
    env: Env, n: Net, t: Table, sent: seq<int>, id: int, ans: int -> Answer, net: int -> Exchange, now: int)
    requires Sound(env, n, t, sent + [id], ans, net, now) && ans(id).Reply?
    ensures Sound(env, n, t, sent, ans, net, now)
    ensures id in t && SoundSend(env, NetAfter(n, t, sent, net), t[id], ans(id), net(id))
  {
    InTimePrefix(sent, id, ans, now);
    var all := sent + [id];
    assert all[..|sent|] == sent && all[|sent|] == id;
    forall i | 0 <= i < |sent|
      ensures sent[i] in t && SoundSend(env, NetAfter(n, t, sent[..i], net), t[sent[i]], ans(sent[i]), net(sent[i]))
    {
      assert all[..i] == sent[..i] && all[i] == sent[i];
    }
  }

  lemma {:induction false} LoopPath(
    env: Env, s0: State, p: int, batch: seq<int>, k: nat, now: int, ans: int -> Answer, net: int -> Exchange)
    returns (s': State)
    requires p !in s0.drainers && s0.clock <= now
    requires IsOldestBatch(s0.db.rows, env.cfg.drainRows, batch) && k <= |batch|
    requires Sound(env, NetOf(s0), s0.db.rows, DueIn(env.cfg, s0.db.rows, batch[..k], now), ans, net, now)
    requires forall i :: 0 <= i < k ==> !Stops(env.cfg, s0.db.rows[batch[i]], now, ans(batch[i]))
    ensures Reaches(env, s0, s') && At(env, s0, s', p, batch, k, now, ans) && NetAt(env, s0, s', batch, k, now, net)
  {
    if k == 0 {
      s' := SelectPath(env, s0, p, batch, now, ans);
      assert batch[..0] == [];
    } else {
      SoundPrefix(env, NetOf(s0), s0.db.rows, batch, k - 1, ans, net, now);
      var mid := LoopPath(env, s0, p, batch, k - 1, now, ans, net);
      s' := RowPath(env, s0, mid, p, batch, k - 1, now, ans, net);
      ReachesTrans(env, s0, mid, s');
    }
  }

  /** The early return: the row may have been sent and answered by then. */
  lemma StopPath(
    env: Env, s0: State, s: State, p: int, batch: seq<int>, k: nat, now: int, ans: int -> Answer, x: Exchange)
    returns (s': State)
    requires k < |batch| && p !in s0.drainers
    requires forall i :: 0 <= i < |batch| ==> batch[i] in s0.db.rows
    requires At(env, s0, s, p, batch, k, now, ans)
    requires Stops(env.cfg, s0.db.rows[batch[k]], now, ans(batch[k]))
    requires ans(batch[k]).Reply? ==> SoundSend(env, NetOf(s), s0.db.rows[batch[k]], ans(batch[k]), x)
    ensures Reaches(env, s, s') && s'.db == s.db && s'.clock == s.clock
    ensures s'.drainers == s0.drainers && SameHistory(s0, s')
    ensures NetOf(s') == if ans(batch[k]).Reply? then Exchanged(NetOf(s), s0.db.rows[batch[k]].payload, x) else NetOf(s)
  {
    assert Candidates(s0.db.rows, batch)[k..][0] == Candidate(batch[k], s0.db.rows[batch[k]]);
    var mid := s;
    Stay(env, s);
    if ans(batch[k]).Reply? {
      mid := AnswerPath(env, s, p, ans(batch[k]), x);
    }
    assert mid.drainers - {p} == s.drainers - {p} == s0.drainers;
    Then(env, s, mid, Interrupt(p));
    s' := Apply(env, mid, Interrupt(p));
  }

  // --------------------------------------------------------------- retention

  /** The run ids of some rows. */
  function RunsOf(t: Table, ids: seq<int>): set<string> {
    set id | id in ids && id in t :: t[id].runId
  }

  /** The database and the history after n victims, `counted` of them counted. */
  ghost predicate DroppedSoFar(s0: State, s: State, p: int, db: Db, victims: seq<int>, n: nat, counted: nat)
    requires n <= |victims|
  {
    && p in s.drainers && s.drainers - {p} == s0.drainers
    && s.db == db.(rows := Left(db.rows, victims, n), dropsTotal := db.dropsTotal + counted)
    && s.hist.enqueued == s0.hist.enqueued
    && s.hist.dropped == s0.hist.dropped + RunsOf(db.rows, victims[..n])
  }

  ghost predicate RetainingAt(s0: State, s: State, p: int, db: Db, victims: seq<int>, n: nat)
    requires n <= |victims|
  {
    DroppedSoFar(s0, s, p, db, victims, n, n) && s.drainers[p].phase.Retaining?
  }

  lemma LeftStep(t: Table, victims: seq<int>, rest: Table, n: nat)
    requires n < |victims| && IsOldestPrefix(t, victims, rest)
    ensures IsOldest(Left(t, victims, n), victims[n])
    ensures Remove(Left(t, victims, n), victims[n]) == Left(t, victims, n + 1)
    ensures RunsOf(t, victims[..n + 1]) == RunsOf(t, victims[..n]) + {t[victims[n]].runId}
  {
    var before := victims[..n];
    assert victims[..n + 1] == before + [victims[n]];
    assert Elems(victims[..n + 1]) == Elems(before) + {victims[n]};
    assert victims[n] !in before;
    forall id | id in Left(t, victims, n) ensures t[victims[n]].enqueuedAt <= t[id].enqueuedAt {
      VictimIsOldest(t, victims, rest, n, id);
    }
    RunsOfSnoc(t, before, victims[n]);
  }

  lemma RunsOfSnoc(t: Table, ids: seq<int>, id: int)
    requires id in t
    ensures RunsOf(t, ids + [id]) == RunsOf(t, ids) + {t[id].runId}
  {
    assert forall j :: j in ids + [id] <==> j in ids || j == id;
  }

  lemma DropPath(env: Env, s0: State, s: State, p: int, db: Db, victims: seq<int>, rest: Table, n: nat)
    returns (s': State)
    requires n < |victims| && IsOldestPrefix(db.rows, victims, rest)
    requires RetainingAt(s0, s, p, db, victims, n)
    ensures Reaches(env, s, s') && s'.clock == s.clock && NetOf(s') == NetOf(s)
    ensures DroppedSoFar(s0, s', p, db, victims, n + 1, n) && s'.drainers[p].phase.Bumping?
  {
    LeftStep(db.rows, victims, rest, n);
    Take(env, s, Drop(p, victims[n]));
    s' := Apply(env, s, Drop(p, victims[n]));
    assert s'.drainers - {p} == s.drainers - {p};
  }

  lemma BumpPath(env: Env, s0: State, s: State, p: int, db: Db, victims: seq<int>, n: nat)
    returns (s': State)
    requires n < |victims| && DroppedSoFar(s0, s, p, db, victims, n + 1, n) && s.drainers[p].phase.Bumping?
    ensures Reaches(env, s, s') && s'.clock == s.clock && NetOf(s') == NetOf(s)
    ensures RetainingAt(s0, s', p, db, victims, n + 1)
  {
    Take(env, s, Bump(p));
    s' := Apply(env, s, Bump(p));
    assert s'.drainers - {p} == s.drainers - {p};
  }

  lemma {:induction false} DropsPath(
    env: Env, s0: State, s: State, p: int, db: Db, victims: seq<int>, rest: Table, n: nat)
    returns (s': State)
    requires n <= |victims| && IsOldestPrefix(db.rows, victims, rest)
    requires RetainingAt(s0, s, p, db, victims, 0)
    ensures Reaches(env, s, s') && s'.clock == s.clock && NetOf(s') == NetOf(s)
    ensures RetainingAt(s0, s', p, db, victims, n)
  {
    Stay(env, s);
    s' := s;
    if n > 0 {
      var mid := DropsPath(env, s0, s, p, db, victims, rest, n - 1);
      var dropped := DropPath(env, s0, mid, p, db, victims, rest, n - 1);
      s' := BumpPath(env, s0, dropped, p, db, victims, n - 1);
      ReachesTrans(env, s, mid, dropped);
      ReachesTrans(env, s, dropped, s');
    }
  }

  /** The drainer is gone, and the victims are. */
  ghost predicate RetentionDone(s0: State, s: State, db: Db, victims: seq<int>, after: Db) {
    && s.db == after && s.drainers == s0.drainers
    && s.hist.enqueued == s0.hist.enqueued
    && s.hist.dropped == s0.hist.dropped + RunsOf(db.rows, victims)
  }

  /** The drainer leaves when all its victims are gone. */
  lemma LeavePath(env: Env, s0: State, s: State, p: int, db: Db, victims: seq<int>, counted: nat, last: Step)
    returns (s': State)
    requires DroppedSoFar(s0, s, p, db, victims, |victims|, counted)
    requires last == Interrupt(p) || (last == Finish(p) && s.drainers[p].phase.Retaining?)
    ensures Reaches(env, s, s') && s'.clock == s.clock && NetOf(s') == NetOf(s)
    ensures RetentionDone(s0, s', db, victims,
                          db.(rows := db.rows - Elems(victims), dropsTotal := db.dropsTotal + counted))
  {
    Take(env, s, last);
    s' := Apply(env, s, last);
    assert victims[..|victims|] == victims;
  }

  /** The last victim of an interrupted retention is not counted. */
  lemma EndPath(
    env: Env, s0: State, s: State, p: int, db: Db, victims: seq<int>, dropped: nat, ok: bool, after: Db)
    returns (s': State)
    requires IsOldestPrefix(db.rows, victims, after.rows)
    requires after == db.(rows := after.rows, dropsTotal := db.dropsTotal + dropped)
    requires |victims| == dropped || (!ok && |victims| == dropped + 1)
    requires RetainingAt(s0, s, p, db, victims, dropped)
    ensures Reaches(env, s, s') && s'.clock == s.clock && NetOf(s') == NetOf(s)
    ensures RetentionDone(s0, s', db, victims, after)
  {
    var last := if ok then Finish(p) else Interrupt(p);
    if |victims| > dropped {
      var mid := DropPath(env, s0, s, p, db, victims, after.rows, dropped);
      s' := LeavePath(env, s0, mid, p, db, victims, dropped, last);
      ReachesTrans(env, s, mid, s');
    } else {
      s' := LeavePath(env, s0, s, p, db, victims, dropped, last);
    }
  }

  lemma StartPath(env: Env, s0: State, s: State, p: int, victims: seq<int>) returns (s': State)
    requires p in s.drainers && s.drainers[p].phase.Scanning? && s.drainers[p].todo == []
    requires s.drainers - {p} == s0.drainers && SameHistory(s0, s)
    ensures Reaches(env, s, s') && s'.clock == s.clock && NetOf(s') == NetOf(s)
    ensures RetainingAt(s0, s', p, s.db, victims, 0)
  {
    Take(env, s, StartRetention(p));
    s' := Apply(env, s, StartRetention(p));
    assert s'.drainers - {p} == s.drainers - {p};
    assert Left(s.db.rows, victims, 0) == s.db.rows;
    assert RunsOf(s.db.rows, victims[..0]) == {};
  }

  lemma RetentionPath(
    env: Env, s0: State, s: State, p: int, victims: seq<int>, dropped: nat, ok: bool, after: Db)
    returns (s': State)
    requires p in s.drainers && s.drainers[p].phase.Scanning? && s.drainers[p].todo == []
    requires s.drainers - {p} == s0.drainers && SameHistory(s0, s)
    requires IsOldestPrefix(s.db.rows, victims, after.rows)
    requires after == s.db.(rows := after.rows, dropsTotal := s.db.dropsTotal + dropped)
    requires |victims| == dropped || (!ok && |victims| == dropped + 1)
    ensures Reaches(env, s, s') && s'.clock == s.clock && NetOf(s') == NetOf(s)
    ensures RetentionDone(s0, s', s.db, victims, after)
  {
    var start := StartPath(env, s0, s, p, victims);
    var mid := DropsPath(env, s0, start, p, s.db, victims, after.rows, dropped);
    s' := EndPath(env, s0, mid, p, s.db, victims, dropped, ok, after);
    ReachesTrans(env, s, start, mid);
    ReachesTrans(env, s, mid, s');
  }

  // -------------------------------------------------------------- the theorem

  /** Whatever Drain does, in whatever state of the system, with whatever other
      drainers about and whatever the controller serves meanwhile, the protocol
      can do: there are steps that lead to exactly the database that Drain
      leaves and the table that the controller's answers leave, and drop exactly
      the runs that Drain drops. */
  lemma DrainIsAPath(
    env: Env, s0: State, p: int, now: int, ans: int -> Answer, net: int -> Exchange, rounds: nat -> Round,
    tr: DrainTrace, stats: DrainStats, ok: bool, after: Db)
    returns (s': State)
    requires p !in s0.drainers && s0.clock <= now
    requires Drained(env.cfg, s0.db, now, ans, rounds, tr, stats, ok, after)
    requires Sound(env, NetOf(s0), s0.db.rows, tr.calls, ans, net, now)
    ensures Reaches(env, s0, s') && s'.clock <= LastAt(tr.calls, ans, now)
    ensures NetOf(s') == NetAfter(NetOf(s0), s0.db.rows, tr.calls, net)
    ensures RetentionDone(s0, s', tr.mid, tr.victims, after)
  {
    if tr.upto < |tr.batch| {
      s' := StoppedDrain(env, s0, p, tr.batch, tr.upto, now, ans, net);
      assert RunsOf(tr.mid.rows, tr.victims) == {};
    } else {
      assert tr.batch[..tr.upto] == tr.batch;
      s' := FullDrain(env, s0, p, tr.batch, now, ans, net, rounds, tr.mid, tr.victims, tr.bumps, ok, after);
    }
  }

  /** The database between the send loop and retention. */
  function AfterLoop(env: Env, db: Db, batch: seq<int>, now: int, ans: int -> Answer): Db
    requires forall i :: 0 <= i < |batch| ==> batch[i] in db.rows
  {
    db.(rows := Recorded(db.rows, DueIn(env.cfg, db.rows, batch, now), ans))
  }

  lemma StoppedDrain(
    env: Env, s0: State, p: int, batch: seq<int>, upto: nat, now: int, ans: int -> Answer, net: int -> Exchange)
    returns (s': State)
    requires p !in s0.drainers && s0.clock <= now && upto < |batch|
    requires IsOldestBatch(s0.db.rows, env.cfg.drainRows, batch)
    requires Sound(env, NetOf(s0), s0.db.rows, Calls(env.cfg, s0.db.rows, batch, now, ans, upto), ans, net, now)
    requires forall i :: 0 <= i < upto ==> !Stops(env.cfg, s0.db.rows[batch[i]], now, ans(batch[i]))
    requires Stops(env.cfg, s0.db.rows[batch[upto]], now, ans(batch[upto]))
    ensures Reaches(env, s0, s') && s'.drainers == s0.drainers && SameHistory(s0, s')
    ensures s'.clock <= LastAt(Calls(env.cfg, s0.db.rows, batch, now, ans, upto), ans, now)
    ensures NetOf(s') == NetAfter(NetOf(s0), s0.db.rows, Calls(env.cfg, s0.db.rows, batch, now, ans, upto), net)
    ensures s'.db == AfterLoop(env, s0.db, batch[..upto], now, ans)
  {
    var sent := DueIn(env.cfg, s0.db.rows, batch[..upto], now);
    if ans(batch[upto]).Reply? {
      SoundPrefix(env, NetOf(s0), s0.db.rows, batch, upto, ans, net, now);
      DueInStep(env.cfg, s0.db.rows, batch, upto, now);
      InTimePrefix(sent, batch[upto], ans, now);
      NetAfterStep(NetOf(s0), s0.db.rows, sent, batch[upto], net);
    }
    var mid := LoopPath(env, s0, p, batch, upto, now, ans, net);
    s' := StopPath(env, s0, mid, p, batch, upto, now, ans, net(batch[upto]));
    ReachesTrans(env, s0, mid, s');
  }

  lemma FullDrain(
    env: Env, s0: State, p: int, batch: seq<int>, now: int, ans: int -> Answer, net: int -> Exchange,
    rounds: nat -> Round, db: Db, victims: seq<int>, dropped: nat, ok: bool, after: Db)
    returns (s': State)
    requires p !in s0.drainers && s0.clock <= now
    requires IsOldestBatch(s0.db.rows, env.cfg.drainRows, batch)
    requires Sound(env, NetOf(s0), s0.db.rows, DueIn(env.cfg, s0.db.rows, batch, now), ans, net, now)
    requires forall i :: 0 <= i < |batch| ==> !Stops(env.cfg, s0.db.rows[batch[i]], now, ans(batch[i]))
    requires db == AfterLoop(env, s0.db, batch, now, ans)
    requires Retained(env.cfg, db, rounds, victims, dropped, ok, after)
    ensures Reaches(env, s0, s') && s'.clock == LastAt(DueIn(env.cfg, s0.db.rows, batch, now), ans, now)
    ensures NetOf(s') == NetAfter(NetOf(s0), s0.db.rows, DueIn(env.cfg, s0.db.rows, batch, now), net)
    ensures RetentionDone(s0, s', db, victims, after)
  {
    assert batch[..|batch|] == batch;
    var mid := LoopPath(env, s0, p, batch, |batch|, now, ans, net);
    LoopDone(env, s0, mid, p, batch, now, ans);
    s' := RetentionPath(env, s0, mid, p, victims, dropped, ok, after);
    ReachesTrans(env, s0, mid, s');
  }

  lemma LoopDone(env: Env, s0: State, s: State, p: int, batch: seq<int>, now: int, ans: int -> Answer)
    requires p !in s0.drainers
    requires forall i :: 0 <= i < |batch| ==> batch[i] in s0.db.rows
    requires At(env, s0, s, p, batch, |batch|, now, ans)
    ensures p in s.drainers && s.drainers[p].phase.Scanning? && s.drainers[p].todo == []
    ensures s.drainers - {p} == s0.drainers
  {
  }

  lemma {:induction false} RunThenPath(
    env: Env, states: seq<State>, steps: seq<Step>, more: seq<Step>, s': State)
    returns (states': seq<State>)
    requires IsRun(env, states, steps) && Path(env, states[|steps|], more, s')
    ensures IsRun(env, states', steps + more) && states'[|steps + more|] == s'
    decreases |more|
  {
    if more == [] {
      states' := states;
      assert steps + more == steps;
    } else {
      var next := Apply(env, states[|steps|], more[0]);
      states' := RunThenPath(env, states + [next], steps + [more[0]], more[1..], s');
      assert steps + [more[0]] + more[1..] == steps + more;
    }
  }

  /** What a run reaches is again the end of a run. */
  lemma RunReaches(env: Env, states: seq<State>, steps: seq<Step>, s': State)
    returns (states': seq<State>, steps': seq<Step>)
    requires IsRun(env, states, steps) && Reaches(env, states[|steps|], s')
    ensures IsRun(env, states', steps') && states'[|steps'|] == s'
  {
    var more :| Path(env, states[|steps|], more, s');
    states' := RunThenPath(env, states, steps, more, s');
    steps' := steps + more;
  }

  /** A run id is accounted for: spooled with its payload, wholly stored at the
      controller, or dropped by retention. */
  predicate Accounted(
    spool: Table, stored: seq<ResultRow>, dropped: set<string>, run: string, payload: Payload)
  {
    || (exists id :: id in spool && spool[id].runId == run && spool[id].payload == payload)
    || (payload.Json? && Safety.WholeBatchStored(stored, payload.req))
    || run in dropped
  }

  /** No loss for the code: take any state that the system can reach, any outcome
      of a call of Drain in it, and anything that the controller serves during
      the call. Afterwards each run id enqueued so far is in the spool that
      Drain leaves, or its whole batch is in the table that the controller's own
      answers leave, or retention dropped it, before or as one of the victims of
      this call. */
  lemma DrainLosesNothing(
    env: Env, states: seq<State>, steps: seq<Step>, p: int, now: int,
    ans: int -> Answer, net: int -> Exchange, rounds: nat -> Round,
    tr: DrainTrace, stats: DrainStats, ok: bool, after: Db, run: string)
    requires IsRun(env, states, steps)
    requires p !in states[|steps|].drainers && states[|steps|].clock <= now
    requires Drained(env.cfg, states[|steps|].db, now, ans, rounds, tr, stats, ok, after)
    requires Sound(env, NetOf(states[|steps|]), states[|steps|].db.rows, tr.calls, ans, net, now)
    requires run in states[|steps|].hist.enqueued
    ensures var s := states[|steps|];
            Accounted(after.rows, NetAfter(NetOf(s), s.db.rows, tr.calls, net).table,
                      s.hist.dropped + RunsOf(tr.mid.rows, tr.victims), run, s.hist.enqueued[run])
  {
    var s' := DrainIsAPath(env, states[|steps|], p, now, ans, net, rounds, tr, stats, ok, after);
    var states', steps' := RunReaches(env, states, steps, s');
    Safety.NoLoss(env, states', steps', |steps'|, run);
    assert NetOf(s').table == s'.ctl.table;
  }
}
