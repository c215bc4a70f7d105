/** The agent's write-ahead spool (internal/spool/spool.go). */
module Spool {
  import opened Clock
  import opened Wire
  import opened SpoolTable
  import Backoff

  datatype DrainStats = DrainStats(
    considered: nat, skipped: nat, accepted: nat, permanent: nat, transient: nat, dropped: nat)

  datatype EnqueueResult = Enqueued | Duplicate | RunIdRequired | PayloadRequired | EnqueueFailed

  /** What the world does when Drain reaches a row: the context is already
      done or the row's last_attempt_at does not parse, or else the row, once
      due, is sent, the sender answers, and the statement that records the
      answer runs at instant `at` (`stored` says it succeeds). */
  datatype Answer = Aborted | Reply(outcome: Outcome, err: string, at: int, stored: bool)

  /** What the world does in one round of retention: the footprint and the
      clock it reads, and the statement that fails, if any. */
  datatype Round = Round(size: int, now: int, fault: Fault)
  datatype Fault = NoFault | ReadFault | DeleteFault | BumpFault

  // ---------------------------------------------------------------- selection

  /** ORDER BY enqueued_at ASC LIMIT n, with ties broken arbitrarily. */
  method SelectOldest(t: Table, n: nat) returns (batch: seq<int>)
    ensures IsOldestBatch(t, n, batch)
    ensures |batch| == Min(n, |t|) && forall i :: 0 <= i < |batch| ==> batch[i] in t
    ensures forall i, j :: 0 <= i < j < |batch| ==>
              batch[i] != batch[j] && t[batch[i]].enqueuedAt <= t[batch[j]].enqueuedAt
    ensures forall i, id :: 0 <= i < |batch| && id in t && id !in batch ==>
              t[batch[i]].enqueuedAt <= t[id].enqueuedAt
  {
    batch := [];
    var rest := t;
    while |batch| < n && rest != map[]
      invariant OldestFirst(t, batch, rest)
      invariant |batch| <= n
      decreases |rest|
    {
      OldestExists(rest);
      var id :| IsOldest(rest, id);
      OldestFirstStep(t, batch, rest, id);
      RemoveSize(rest, id);
      batch := batch + [id];
      rest := Remove(rest, id);
    }
    OldestFirstIsPrefix(t, batch, rest);
    OldestFirstSize(t, batch, rest);
  }

  // ------------------------------------------------- the meaning of one drain

  /** The due rows of a batch, in batch order. */
  function DueIn(cfg: Config, t: Table, batch: seq<int>, now: int): (r: seq<int>)
    requires forall i :: 0 <= i < |batch| ==> batch[i] in t
  {
    if batch == [] then []
    else
      var n := |batch| - 1;
      var before := DueIn(cfg, t, batch[..n], now);
      if Due(cfg, t[batch[n]], now) then before + [batch[n]] else before
  }

  lemma {:induction false} DueInIff(cfg: Config, t: Table, batch: seq<int>, now: int, id: int)
    requires forall i :: 0 <= i < |batch| ==> batch[i] in t
    ensures id in DueIn(cfg, t, batch, now) <==> id in batch && Due(cfg, t[id], now)
  {
    if batch != [] {
      var n := |batch| - 1;
      DueInIff(cfg, t, batch[..n], now, id);
      assert batch == batch[..n] + [batch[n]];
    }
  }

  /** Drain returns early at this row. */
  predicate Stops(cfg: Config, r: Row, now: int, a: Answer) {
    a.Aborted? || (Due(cfg, r, now) && (a.outcome.Unknown? || !a.stored))
  }

  /** The rows of `sent` that were answered with outcome `o`. */
  function Answered(sent: seq<int>, ans: int -> Answer, o: Outcome): set<int> {
    set id | id in sent && ans(id).Reply? && ans(id).outcome == o
  }

  /** The table after the answers to `sent` are recorded: accepted rows are
      gone, failed rows have one more attempt, all others are untouched. */
  function Recorded(t: Table, sent: seq<int>, ans: int -> Answer): Table {
    map id | id in t && id !in Answered(sent, ans, Accepted) ::
      if id in Answered(sent, ans, PermanentFail) || id in Answered(sent, ans, TransientFail)
      then Failed(t[id], ans(id).at, ans(id).err)
      else t[id]
  }

  /** `stats` counts the answers to `sent`. */
  ghost predicate Counts(stats: DrainStats, sent: seq<int>, ans: int -> Answer) {
    && stats.accepted == |Answered(sent, ans, Accepted)|
    && stats.permanent == |Answered(sent, ans, PermanentFail)|
    && stats.transient == |Answered(sent, ans, TransientFail)|
    && stats.accepted + stats.permanent + stats.transient == |sent|
  }

  /** The first `upto` rows of the batch are done: the due ones among them were
      sent, once each and in order, and their answers recorded. */
  ghost predicate SentUpTo(
    cfg: Config, t: Table, batch: seq<int>, now: int, ans: int -> Answer,
    upto: nat, after: Table, stats: DrainStats)
    requires upto <= |batch|
    requires forall i :: 0 <= i < |batch| ==> batch[i] in t
  {
    && (forall i :: 0 <= i < upto ==> !Stops(cfg, t[batch[i]], now, ans(batch[i])))
    && Tally(t, DueIn(cfg, t, batch[..upto], now), ans, upto, after, stats)
    && stats.considered == |batch|
    && stats.dropped == 0
  }

  /** Of `upto` rows, `sent` were sent and the others skipped. */
  ghost predicate Tally(t: Table, sent: seq<int>, ans: int -> Answer, upto: nat, after: Table, stats: DrainStats) {
    && after == Recorded(t, sent, ans)
    && Counts(stats, sent, ans)
    && stats.skipped + |sent| == upto
  }

  /** The send loop got exactly as far as `upto`: to the end, or to the first
      row that stops it. */
  ghost predicate Sends(
    cfg: Config, t: Table, batch: seq<int>, now: int, ans: int -> Answer,
    upto: nat, after: Table, stats: DrainStats)
    requires forall i :: 0 <= i < |batch| ==> batch[i] in t
  {
    && upto <= |batch|
    && SentUpTo(cfg, t, batch, now, ans, upto, after, stats)
    && (upto < |batch| ==> Stops(cfg, t[batch[upto]], now, ans(batch[upto])))
  }

  /** The rows handed to the sender: the due rows that are done, and the one that
      stopped the loop unless the loop was aborted before the send. */
  ghost function Calls(
    cfg: Config, t: Table, batch: seq<int>, now: int, ans: int -> Answer, upto: nat): seq<int>
    requires upto <= |batch|
    requires forall i :: 0 <= i < |batch| ==> batch[i] in t
  {
    DueIn(cfg, t, batch[..if upto < |batch| && ans(batch[upto]).Reply? then upto + 1 else upto], now)
  }

  /** Due rows are sent once each, in `enqueued_at` order, and nothing else is. */
  lemma {:induction false} SentOnceInOrder(cfg: Config, t: Table, batch: seq<int>, rest: Table, now: int)
    requires Takes(t, batch, rest) && InOrder(t, batch, rest)
    ensures var sent := DueIn(cfg, t, batch, now);
            && (forall id :: id in sent <==> id in batch && Due(cfg, t[id], now))
            && (forall i, j :: 0 <= i < j < |sent| ==>
                  && sent[i] != sent[j] && sent[i] in t && sent[j] in t
                  && t[sent[i]].enqueuedAt <= t[sent[j]].enqueuedAt)
  {
    forall id ensures id in DueIn(cfg, t, batch, now) <==> id in batch && Due(cfg, t[id], now) {
      DueInIff(cfg, t, batch, now, id);
    }
    if batch != [] {
      var n := |batch| - 1;
      var before := batch[..n];
      SentOnceInOrder(cfg, t, before, t - Elems(before), now);
      var sent := DueIn(cfg, t, before, now);
      forall i | 0 <= i < |sent|
        ensures sent[i] != batch[n] && sent[i] in t && t[sent[i]].enqueuedAt <= t[batch[n]].enqueuedAt
      {
        assert sent[i] in sent;
        var k :| 0 <= k < n && batch[k] == sent[i];
      }
    }
  }

  lemma DueInStep(cfg: Config, t: Table, batch: seq<int>, k: nat, now: int)
    requires k < |batch|
    requires forall i :: 0 <= i < |batch| ==> batch[i] in t
    ensures DueIn(cfg, t, batch[..k + 1], now)
         == var before := DueIn(cfg, t, batch[..k], now);
            if Due(cfg, t[batch[k]], now) then before + [batch[k]] else before
  {
    assert batch[..k + 1][..k] == batch[..k];
  }

  lemma NothingSent(t: Table, ans: int -> Answer)
    ensures Recorded(t, [], ans) == t
    ensures forall o :: Answered([], ans, o) == {}
  {
    assert Answered([], ans, Accepted) == {};
    assert Answered([], ans, PermanentFail) == {};
    assert Answered([], ans, TransientFail) == {};
  }

  lemma AnsweredStep(sent: seq<int>, ans: int -> Answer, id: int, o: Outcome)
    requires ans(id).Reply?
    ensures Answered(sent + [id], ans, o) == Answered(sent, ans, o) + if ans(id).outcome == o then {id} else {}
  {
  }

  lemma RecordedStep(t: Table, sent: seq<int>, ans: int -> Answer, id: int)
    requires id in t && id !in sent
    requires ans(id).Reply? && !ans(id).outcome.Unknown?
    ensures id in Recorded(t, sent, ans) && Recorded(t, sent, ans)[id] == t[id]
    ensures Recorded(t, sent + [id], ans)
         == if ans(id).outcome.Accepted? then Remove(Recorded(t, sent, ans), id)
            else MarkFailed(Recorded(t, sent, ans), id, ans(id).at, ans(id).err)
  {
    AnsweredStep(sent, ans, id, Accepted);
    AnsweredStep(sent, ans, id, PermanentFail);
    AnsweredStep(sent, ans, id, TransientFail);
  }

  lemma CountsStep(stats: DrainStats, sent: seq<int>, ans: int -> Answer, id: int)
    requires id !in sent
    requires ans(id).Reply? && !ans(id).outcome.Unknown?
    requires Counts(stats, sent, ans)
    ensures Counts(Count(stats, ans(id).outcome), sent + [id], ans)
  {
    AnsweredStep(sent, ans, id, Accepted);
    AnsweredStep(sent, ans, id, PermanentFail);
    AnsweredStep(sent, ans, id, TransientFail);
  }

  function Count(stats: DrainStats, o: Outcome): DrainStats {
    match o
    case Accepted => stats.(accepted := stats.accepted + 1)
    case PermanentFail => stats.(permanent := stats.permanent + 1)
    case TransientFail => stats.(transient := stats.transient + 1)
    case Unknown(_) => stats
  }

  lemma SkipStep(
    cfg: Config, t: Table, batch: seq<int>, now: int, ans: int -> Answer,
    k: nat, after: Table, stats: DrainStats)
    requires k < |batch|
    requires forall i :: 0 <= i < |batch| ==> batch[i] in t
    requires SentUpTo(cfg, t, batch, now, ans, k, after, stats)
    requires !Due(cfg, t[batch[k]], now) && !ans(batch[k]).Aborted?
    ensures SentUpTo(cfg, t, batch, now, ans, k + 1, after, stats.(skipped := stats.skipped + 1))
    ensures DueIn(cfg, t, batch[..k + 1], now) == DueIn(cfg, t, batch[..k], now)
  {
    DueInStep(cfg, t, batch, k, now);
  }

  lemma SendStep(
    cfg: Config, t: Table, batch: seq<int>, now: int, ans: int -> Answer,
    k: nat, after: Table, stats: DrainStats)
    requires k < |batch|
    requires forall i :: 0 <= i < |batch| ==> batch[i] in t
    requires forall i :: 0 <= i < k ==> batch[i] != batch[k]
    requires SentUpTo(cfg, t, batch, now, ans, k, after, stats)
    requires Due(cfg, t[batch[k]], now) && !Stops(cfg, t[batch[k]], now, ans(batch[k]))
    ensures var a := ans(batch[k]);
            SentUpTo(cfg, t, batch, now, ans, k + 1,
                     if a.outcome.Accepted? then Remove(after, batch[k])
                     else MarkFailed(after, batch[k], a.at, a.err),
                     Count(stats, a.outcome))
    ensures DueIn(cfg, t, batch[..k + 1], now) == DueIn(cfg, t, batch[..k], now) + [batch[k]]
  {
    DueInStep(cfg, t, batch, k, now);
    DueInIff(cfg, t, batch[..k], now, batch[k]);
    TallyStep(t, DueIn(cfg, t, batch[..k], now), ans, k, after, stats, batch[k]);
  }

  lemma TallyStep(
    t: Table, sent: seq<int>, ans: int -> Answer, upto: nat, after: Table, stats: DrainStats, id: int)
    requires id in t && id !in sent
    requires ans(id).Reply? && !ans(id).outcome.Unknown?
    requires Tally(t, sent, ans, upto, after, stats)
    ensures Tally(t, sent + [id], ans, upto + 1,
                  if ans(id).outcome.Accepted? then Remove(after, id)
                  else MarkFailed(after, id, ans(id).at, ans(id).err),
                  Count(stats, ans(id).outcome))
  {
    RecordedStep(t, sent, ans, id);
    CountsStep(stats, sent, ans, id);
  }

  /** The bounds that end retention hold of `t` in this round. */
  predicate WithinBounds(cfg: Config, t: Table, r: Round) {
    t == map[] || (r.size <= cfg.maxSize && forall id :: id in t ==> r.now - t[id].enqueuedAt <= cfg.maxAge)
  }

  /** Each victim was dropped in a round that found a bound exceeded. */
  ghost predicate Exceeded(cfg: Config, t: Table, victims: seq<int>, rounds: nat -> Round) {
    forall i :: 0 <= i < |victims| ==> !WithinBounds(cfg, Left(t, victims, i), rounds(i))
  }

  /** What is left of `t` when the first n victims are gone. */
  function Left(t: Table, victims: seq<int>, n: nat): Table
    requires n <= |victims|
  {
    t - Elems(victims[..n])
  }

  /** One call of enforceRetention: the victims go oldest first, each because
      a bound was exceeded when it went; the counter follows, except that a
      failed counter update leaves it one behind; a call that is not cut short
      ends with both bounds met or the spool empty. */
  ghost predicate Retained(
    cfg: Config, db: Db, rounds: nat -> Round,
    victims: seq<int>, dropped: nat, ok: bool, after: Db)
  {
    && IsOldestPrefix(db.rows, victims, after.rows)
    && |after.rows| + |victims| == |db.rows|
    && Exceeded(cfg, db.rows, victims, rounds)
    && after == db.(rows := after.rows, dropsTotal := db.dropsTotal + dropped)
    && (|victims| == dropped ||
        (!ok && |victims| == dropped + 1 && rounds(dropped).fault.BumpFault?))
    && (ok ==> WithinBounds(cfg, after.rows, rounds(dropped)))
  }

  /** Retention under way. */
  ghost predicate Dropping(cfg: Config, db: Db, rounds: nat -> Round, victims: seq<int>, mid: Db) {
    && OldestFirst(db.rows, victims, mid.rows)
    && Exceeded(cfg, db.rows, victims, rounds)
    && mid == db.(rows := mid.rows, dropsTotal := db.dropsTotal + |victims|)
  }

  lemma ExceededStep(cfg: Config, t: Table, victims: seq<int>, rounds: nat -> Round, id: int)
    requires Exceeded(cfg, t, victims, rounds)
    requires !WithinBounds(cfg, Left(t, victims, |victims|), rounds(|victims|))
    ensures Exceeded(cfg, t, victims + [id], rounds)
  {
    forall i | 0 <= i <= |victims|
      ensures !WithinBounds(cfg, Left(t, victims + [id], i), rounds(i))
    {
      assert (victims + [id])[..i] == victims[..i];
    }
  }

  lemma DroppingRetained(cfg: Config, db: Db, rounds: nat -> Round, victims: seq<int>, mid: Db)
    requires Dropping(cfg, db, rounds, victims, mid)
    ensures Retained(cfg, db, rounds, victims, |victims|, false, mid)
    ensures WithinBounds(cfg, mid.rows, rounds(|victims|)) ==>
              Retained(cfg, db, rounds, victims, |victims|, true, mid)
  {
    OldestFirstIsPrefix(db.rows, victims, mid.rows);
    OldestFirstSize(db.rows, victims, mid.rows);
  }

  lemma DroppingStep(cfg: Config, db: Db, rounds: nat -> Round, victims: seq<int>, mid: Db, id: int)
    requires Dropping(cfg, db, rounds, victims, mid)
    requires IsOldest(mid.rows, id)
    requires !WithinBounds(cfg, mid.rows, rounds(|victims|))
    ensures var next := mid.(rows := Remove(mid.rows, id));
            && Dropping(cfg, db, rounds, victims + [id], next.(dropsTotal := mid.dropsTotal + 1))
            && (rounds(|victims|).fault.BumpFault? ==>
                  Retained(cfg, db, rounds, victims + [id], |victims|, false, next))
  {
    OldestFirstIsPrefix(db.rows, victims, mid.rows);
    assert victims[..|victims|] == victims;
    ExceededStep(cfg, db.rows, victims, rounds, id);
    OldestFirstStep(db.rows, victims, mid.rows, id);
    var next := mid.(rows := Remove(mid.rows, id), dropsTotal := mid.dropsTotal + 1);
    DroppingRetained(cfg, db, rounds, victims + [id], next);
  }

  class Spool {
    const cfg: Config
    var db: Db

    constructor (cfg: Config)
      ensures this.cfg == cfg && db == FRESH_DB && Valid(db)
    {
      this.cfg := cfg;
      db := FRESH_DB;
    }

    /** `stored` is false when the INSERT fails for a reason of its own. */
    method Enqueue(runId: string, payload: Payload, now: int, stored: bool) returns (r: EnqueueResult)
      requires Valid(db)
      modifies this
      ensures Valid(db)
      ensures r == if runId == "" then RunIdRequired
                   else if payload.Empty? then PayloadRequired
                   else if HasRun(old(db.rows), runId) then Duplicate
                   else if stored then Enqueued else EnqueueFailed
      ensures db == if r.Enqueued? then Insert(old(db), runId, payload, now) else old(db)
      ensures r.Enqueued? ==>
                var id := old(db.nextId);
                && id !in old(db.rows) && db == old(db).(rows := db.rows, nextId := id + 1)
                && db.rows == old(db.rows)[id := Row(runId, payload, ToSecond(now), 0, None, "")]
    {
      if runId == "" {
        return RunIdRequired;
      }
      if payload.Empty? {
        return PayloadRequired;
      }
      if HasRun(db.rows, runId) {
        return Duplicate;
      }
      if !stored {
        return EnqueueFailed;
      }
      db := Insert(db, runId, payload, now);
      return Enqueued;
    }

    method Depth() returns (n: nat)
      ensures n == |db.rows|
    {
      n := |db.rows|;
    }

    /** 0 for an empty spool, else the largest age of a row. */
    method OldestAge(now: int) returns (age: int)
      ensures db.rows == map[] ==> age == 0
      ensures db.rows != map[] ==> exists id :: IsOldest(db.rows, id) && age == now - db.rows[id].enqueuedAt
      ensures forall id :: id in db.rows ==> now - db.rows[id].enqueuedAt <= age
    {
      if db.rows == map[] {
        return 0;
      }
      OldestExists(db.rows);
      var id :| IsOldest(db.rows, id);
      age := now - db.rows[id].enqueuedAt;
    }

    method LastDrainSnapshot() returns (s: Snapshot)
      ensures s == db.last
    {
      s := db.last;
    }

    /** Three UPDATEs; `upto` of them run before the caller is interrupted. */
    method SaveDrainSnapshot(s: Snapshot, upto: nat) returns (ok: bool)
      modifies this
      ensures ok == (upto >= 3)
      ensures db == old(db).(last := Snapshot(
                      if upto >= 1 then s.depth else old(db.last.depth),
                      if upto >= 2 then s.oldestAgeSecs else old(db.last.oldestAgeSecs),
                      if upto >= 3 then s.dropsTotal else old(db.last.dropsTotal)))
    {
      if upto == 0 {
        return false;
      }
      db := db.(last := db.last.(depth := s.depth));
      if upto == 1 {
        return false;
      }
      db := db.(last := db.last.(oldestAgeSecs := s.oldestAgeSecs));
      if upto == 2 {
        return false;
      }
      db := db.(last := db.last.(dropsTotal := s.dropsTotal));
      return true;
    }

    method DropsTotal() returns (n: int)
      ensures n == db.dropsTotal
    {
      n := db.dropsTotal;
    }

    method EnforceRetention(rounds: nat -> Round) returns (dropped: nat, ok: bool, ghost victims: seq<int>)
      modifies this
      ensures Retained(cfg, old(db), rounds, victims, dropped, ok, db)
    {
      dropped := 0;
      victims := [];
      while true
        invariant |victims| == dropped
        invariant Dropping(cfg, old(db), rounds, victims, db)
        decreases |db.rows|
      {
        DroppingRetained(cfg, old(db), rounds, victims, db);
        var round := rounds(dropped);
        if round.fault.ReadFault? {
          return dropped, false, victims;
        }
        var age := OldestAge(round.now);
        var depth := Depth();
        if depth == 0 {
          return dropped, true, victims;
        }
        if round.size <= cfg.maxSize && age <= cfg.maxAge {
          return dropped, true, victims;
        }
        if round.fault.DeleteFault? {
          return dropped, false, victims;
        }
        OldestExists(db.rows);
        var id :| IsOldest(db.rows, id);
        DroppingStep(cfg, old(db), rounds, victims, db, id);
        RemoveSize(db.rows, id);
        db := db.(rows := Remove(db.rows, id));
        victims := victims + [id];
        if round.fault.BumpFault? {
          return dropped, false, victims;
        }
        db := db.(dropsTotal := db.dropsTotal + 1);
        dropped := dropped + 1;
      }
    }

    method MarkFailure(id: int, at: int, err: string, stored: bool) returns (ok: bool)
      modifies this
      ensures ok == stored
      ensures db == old(db).(rows := if stored then MarkFailed(old(db.rows), id, at, err) else old(db.rows))
    {
      if stored {
        db := db.(rows := MarkFailed(db.rows, id, at, err));
      }
      return stored;
    }

    /** The backoff test of the loop. */
    method IsDue(row: Row, now: int) returns (due: bool)
      requires cfg.backoffBase > 0
      ensures due == Due(cfg, row, now)
      ensures due <==>
                || row.lastAttemptAt.None?
                || row.lastAttemptAt.value + Min(Backoff.Pow2(row.attempts) * cfg.backoffBase, cfg.backoffMax) <= now
    {
      if row.lastAttemptAt.None? {
        return true;
      }
      var window := Backoff.Compute(row.attempts, cfg.backoffBase, cfg.backoffMax);
      return row.lastAttemptAt.value + window <= now;
    }

    /** The loop of Drain over the selected rows. */
    method SendBatch(batch: seq<int>, now: int, ans: int -> Answer)
      returns (stats: DrainStats, ok: bool, ghost upto: nat, ghost calls: seq<int>)
      requires cfg.backoffBase > 0
      requires Takes(db.rows, batch, db.rows - Elems(batch))
      requires InOrder(db.rows, batch, db.rows - Elems(batch))
      modifies this
      ensures Sends(cfg, old(db.rows), batch, now, ans, upto, db.rows, stats)
      ensures db == old(db).(rows := db.rows)
      ensures calls == Calls(cfg, old(db.rows), batch, now, ans, upto)
      ensures ok == (upto == |batch|)
      ensures stats.dropped == 0
    {
      var t := db.rows;
      calls := [];
      stats := DrainStats(|batch|, 0, 0, 0, 0, 0);
      upto := 0;
      NothingSent(t, ans);
      for k := 0 to |batch|
        invariant upto == k
        invariant SentUpTo(cfg, t, batch, now, ans, k, db.rows, stats)
        invariant db == old(db).(rows := db.rows)
        invariant calls == DueIn(cfg, t, batch[..k], now)
      {
        var id := batch[k];
        var answer := ans(id);
        if answer.Aborted? {
          return stats, false, k, calls;
        }
        var due := IsDue(t[id], now);
        if !due {
          SkipStep(cfg, t, batch, now, ans, k, db.rows, stats);
          stats := stats.(skipped := stats.skipped + 1);
          upto := k + 1;
          continue;
        }
        calls := calls + [id];                // send.Send
        if answer.outcome.Unknown? || !answer.stored {
          DueInStep(cfg, t, batch, k, now);
          return stats, false, k, calls;
        }
        SendStep(cfg, t, batch, now, ans, k, db.rows, stats);
        if answer.outcome.Accepted? {
          db := db.(rows := Remove(db.rows, id));
        } else {
          var _ := MarkFailure(id, answer.at, answer.err, answer.stored);
        }
        stats := Count(stats, answer.outcome);
        upto := k + 1;
      }
      return stats, true, |batch|, calls;
    }

    /** `selected` is false when the SELECT or the scan of its rows fails. */
    method Drain(selected: bool, now: int, ans: int -> Answer, rounds: nat -> Round)
      returns (stats: DrainStats, ok: bool, ghost trace: DrainTrace)
      requires cfg.backoffBase > 0
      modifies this
      ensures selected ==> Drained(cfg, old(db), now, ans, rounds, trace, stats, ok, db)
      ensures !selected ==> !ok && db == old(db) && stats == DrainStats(0, 0, 0, 0, 0, 0)
    {
      if !selected {
        return DrainStats(0, 0, 0, 0, 0, 0), false, DrainTrace([], 0, [], db, [], 0);
      }
      var batch := SelectOldest(db.rows, cfg.drainRows);
      ghost var upto, calls;
      stats, ok, upto, calls := SendBatch(batch, now, ans);
      trace := DrainTrace(batch, upto, calls, db, [], 0);
      if !ok {
        return;
      }
      var dropped;
      ghost var victims;
      dropped, ok, victims := EnforceRetention(rounds);
      trace := trace.(victims := victims, bumps := dropped);
      if ok {
        stats := stats.(dropped := dropped);
      }
    }
  }

  /** What a drain did: the rows it selected, how far the send loop came, the
      rows it sent, the database between the loop and retention, and the rows
      retention took. */
  datatype DrainTrace = DrainTrace(
    batch: seq<int>, upto: nat, calls: seq<int>, mid: Db, victims: seq<int>, bumps: nat)

  ghost predicate Drained(
    cfg: Config, db: Db, now: int, ans: int -> Answer, rounds: nat -> Round,
    tr: DrainTrace, stats: DrainStats, ok: bool, after: Db)
  {
    && IsOldestBatch(db.rows, cfg.drainRows, tr.batch)
    && Sends(cfg, db.rows, tr.batch, now, ans, tr.upto, tr.mid.rows, stats.(dropped := 0))
    && tr.calls == Calls(cfg, db.rows, tr.batch, now, ans, tr.upto)
    && tr.mid == db.(rows := tr.mid.rows)
    && (if tr.upto < |tr.batch| then
          !ok && after == tr.mid && stats.dropped == 0 && tr.victims == []
        else
          && Retained(cfg, tr.mid, rounds, tr.victims, tr.bumps, ok, after)
          && stats.dropped == if ok then |tr.victims| else 0)
  }

  // ------------------------------------------------------ consequences of Drain

  /** The counters of a drain account for every selected row and for the
      depth; after an early return they account for at most the batch. */
  lemma DrainAccounts(
    cfg: Config, db: Db, now: int, ans: int -> Answer, rounds: nat -> Round,
    tr: DrainTrace, stats: DrainStats, ok: bool, after: Db)
    requires Drained(cfg, db, now, ans, rounds, tr, stats, ok, after)
    ensures stats.considered == Min(cfg.drainRows, |db.rows|)
    ensures stats.skipped + stats.accepted + stats.permanent + stats.transient == tr.upto <= stats.considered
    ensures ok ==> stats.considered == stats.skipped + stats.accepted + stats.permanent + stats.transient
    ensures stats.accepted == |AnsweredWith(tr.batch[..tr.upto], tr.calls, ans, Accepted)|
    ensures stats.permanent == |AnsweredWith(tr.batch[..tr.upto], tr.calls, ans, PermanentFail)|
    ensures stats.transient == |AnsweredWith(tr.batch[..tr.upto], tr.calls, ans, TransientFail)|
    ensures ok ==> |after.rows| == |db.rows| - stats.accepted - stats.dropped
    ensures ok ==> after.dropsTotal == db.dropsTotal + stats.dropped
  {
    var sent := DueIn(cfg, db.rows, tr.batch[..tr.upto], now);
    forall id | id in sent ensures id in db.rows {
      DueInIff(cfg, db.rows, tr.batch[..tr.upto], now, id);
    }
    RecordedSize(db.rows, sent, ans);
    SentIsCalled(cfg, db.rows, tr.batch, now, ans, tr.upto);
    AnsweredIs(tr.batch[..tr.upto], tr.calls, sent, ans, Accepted);
    AnsweredIs(tr.batch[..tr.upto], tr.calls, sent, ans, PermanentFail);
    AnsweredIs(tr.batch[..tr.upto], tr.calls, sent, ans, TransientFail);
  }

  lemma AnsweredIs(done: seq<int>, calls: seq<int>, sent: seq<int>, ans: int -> Answer, o: Outcome)
    requires forall id :: id in sent <==> id in done && id in calls
    ensures AnsweredWith(done, calls, ans, o) == Answered(sent, ans, o)
  {
    forall id ensures id in AnsweredWith(done, calls, ans, o) <==> id in Answered(sent, ans, o) {
      assert id in sent <==> id in done && id in calls;
    }
  }

  /** Of the rows done with, those that were sent and answered so. */
  function AnsweredWith(done: seq<int>, calls: seq<int>, ans: int -> Answer, o: Outcome): set<int> {
    set id | id in done && id in calls && ans(id).Reply? && ans(id).outcome == o
  }

  /** What was sent and recorded are the calls among the rows done with. */
  lemma SentIsCalled(cfg: Config, t: Table, batch: seq<int>, now: int, ans: int -> Answer, upto: nat)
    requires upto <= |batch|
    requires forall i :: 0 <= i < |batch| ==> batch[i] in t
    ensures forall id :: id in DueIn(cfg, t, batch[..upto], now) <==>
              id in batch[..upto] && id in Calls(cfg, t, batch, now, ans, upto)
  {
    var m := if upto < |batch| && ans(batch[upto]).Reply? then upto + 1 else upto;
    forall id ensures id in DueIn(cfg, t, batch[..upto], now) <==>
                        id in batch[..upto] && id in Calls(cfg, t, batch, now, ans, upto)
    {
      DueInIff(cfg, t, batch[..upto], now, id);
      DueInIff(cfg, t, batch[..m], now, id);
      assert id in batch[..upto] ==> id in batch[..m];
    }
  }

  /** A drain sends a row that it gets to if and only if the row was never tried
      or its window min(2^attempts * base, max) has elapsed since the last
      attempt; no such row is left waiting. */
  lemma SentIffElapsed(
    cfg: Config, db: Db, now: int, ans: int -> Answer, rounds: nat -> Round,
    tr: DrainTrace, stats: DrainStats, ok: bool, after: Db, k: nat)
    requires Drained(cfg, db, now, ans, rounds, tr, stats, ok, after) && k < tr.upto
    ensures var r := db.rows[tr.batch[k]];
            tr.batch[k] !in tr.calls <==>
              && r.lastAttemptAt.Some?
              && now < r.lastAttemptAt.value + Min(Backoff.Pow2(r.attempts) * cfg.backoffBase, cfg.backoffMax)
  {
    SentIsCalled(cfg, db.rows, tr.batch, now, ans, tr.upto);
    DueInIff(cfg, db.rows, tr.batch[..tr.upto], now, tr.batch[k]);
    assert tr.batch[..tr.upto][k] == tr.batch[k];
  }

  /** The send loop ends early at the first row, and only at a row, where it is
      aborted before the send, or where a sent row gets an unknown outcome or an
      answer that cannot be recorded. A refused row does not end it. */
  lemma LoopEndsIff(
    cfg: Config, db: Db, now: int, ans: int -> Answer, rounds: nat -> Round,
    tr: DrainTrace, stats: DrainStats, ok: bool, after: Db, k: nat)
    requires Drained(cfg, db, now, ans, rounds, tr, stats, ok, after)
    requires k <= tr.upto && k < |tr.batch|
    ensures var a := ans(tr.batch[k]);
            k == tr.upto <==>
              a.Aborted? || (tr.batch[k] in tr.calls && (a.outcome.Unknown? || !a.stored))
  {
    var m := if tr.upto < |tr.batch| && ans(tr.batch[tr.upto]).Reply? then tr.upto + 1 else tr.upto;
    DueInIff(cfg, db.rows, tr.batch[..m], now, tr.batch[k]);
    assert k < m ==> tr.batch[..m][k] == tr.batch[k];
    assert k < tr.upto ==> !Stops(cfg, db.rows[tr.batch[k]], now, ans(tr.batch[k]));
  }

  lemma RecordedSize(t: Table, sent: seq<int>, ans: int -> Answer)
    requires forall id :: id in sent ==> id in t
    ensures |Recorded(t, sent, ans)| == |t| - |Answered(sent, ans, Accepted)|
  {
    var gone := Answered(sent, ans, Accepted);
    forall id | id in gone ensures id in t.Keys {
      assert id in sent;
    }
    assert Recorded(t, sent, ans).Keys == t.Keys - gone;
  }

  /** The row after a failure: one more attempt, at the second of `at`, with the
      error text; run, payload and place in the queue stay. */
  predicate OneMoreAttempt(before: Row, at: int, err: string, after: Row) {
    && after.attempts == before.attempts + 1 && after.lastError == err
    && after.lastAttemptAt.Some?
    && after.lastAttemptAt.value % SECOND == 0
    && after.lastAttemptAt.value <= at < after.lastAttemptAt.value + SECOND
    && after.runId == before.runId && after.payload == before.payload && after.enqueuedAt == before.enqueuedAt
  }

  /** What a send loop that got as far as `upto` does to one row: a row that it
      came to, never tried or with its window elapsed, is deleted if accepted and
      gains exactly one attempt if it failed; no other row is touched. */
  lemma DrainRowByRow(
    cfg: Config, t: Table, batch: seq<int>, now: int, ans: int -> Answer, upto: nat, after: Table,
    stats: DrainStats, id: int)
    requires forall i :: 0 <= i < |batch| ==> batch[i] in t
    requires Sends(cfg, t, batch, now, ans, upto, after, stats)
    requires id in t
    ensures var window := Min(Backoff.Pow2(t[id].attempts) * cfg.backoffBase, cfg.backoffMax);
            if id in batch[..upto] && (t[id].lastAttemptAt.None? || t[id].lastAttemptAt.value + window <= now) then
              && ans(id).Reply? && !ans(id).outcome.Unknown?
              && (ans(id).outcome.Accepted? <==> id !in after)
              && (!ans(id).outcome.Accepted? ==> OneMoreAttempt(t[id], ans(id).at, ans(id).err, after[id]))
            else id in after && after[id] == t[id]
  {
    DueInIff(cfg, t, batch[..upto], now, id);
    if id in batch[..upto] {
      var i :| 0 <= i < upto && batch[i] == id;
      assert !Stops(cfg, t[batch[i]], now, ans(batch[i]));
    }
  }

  /** LIMIT comes before the backoff test: while the oldest `drainRows` rows are
      all in backoff, a drain sends nothing, however many rows behind them are
      due. */
  lemma BackoffBlocksTheQueue(
    cfg: Config, db: Db, now: int, ans: int -> Answer, rounds: nat -> Round,
    tr: DrainTrace, stats: DrainStats, ok: bool, after: Db)
    requires Drained(cfg, db, now, ans, rounds, tr, stats, ok, after)
    requires forall i :: 0 <= i < |tr.batch| ==> !Due(cfg, db.rows[tr.batch[i]], now)
    ensures tr.calls == []
    ensures tr.mid == db
    ensures stats.accepted == stats.permanent == stats.transient == 0
  {
    NothingDue(cfg, db.rows, tr.batch, now, tr.upto);
    if tr.upto < |tr.batch| {
      NothingDue(cfg, db.rows, tr.batch, now, tr.upto + 1);
    }
    NothingSent(db.rows, ans);
  }

  lemma {:induction false} NothingDue(cfg: Config, t: Table, batch: seq<int>, now: int, n: nat)
    requires n <= |batch|
    requires forall i :: 0 <= i < |batch| ==> batch[i] in t && !Due(cfg, t[batch[i]], now)
    ensures DueIn(cfg, t, batch[..n], now) == []
  {
    if n > 0 {
      NothingDue(cfg, t, batch, now, n - 1);
      DueInStep(cfg, t, batch, n - 1, now);
    }
  }

  /** When the footprint never exceeds its bound, age alone decides: every
      dropped row was over MaxAge when it went, and retention leaves no row
      over MaxAge. */
  lemma RetentionByAge(
    cfg: Config, db: Db, rounds: nat -> Round, victims: seq<int>, dropped: nat, ok: bool, after: Db)
    requires Retained(cfg, db, rounds, victims, dropped, ok, after)
    requires forall i :: rounds(i).size <= cfg.maxSize
    ensures forall i :: 0 <= i < |victims| ==> rounds(i).now - db.rows[victims[i]].enqueuedAt > cfg.maxAge
    ensures ok ==> forall id :: id in after.rows ==> rounds(dropped).now - after.rows[id].enqueuedAt <= cfg.maxAge
  {
    forall i | 0 <= i < |victims|
      ensures rounds(i).now - db.rows[victims[i]].enqueuedAt > cfg.maxAge
    {
      VictimTooOld(cfg, db.rows, victims, after.rows, rounds(i), i);
    }
  }

  /** Each victim was dropped in a round that found the footprint over its bound,
      or the victim itself over MaxAge; and a retention that is not cut short
      leaves an empty spool, or a footprint within its bound and no row over
      MaxAge. */
  lemma RetentionExact(
    cfg: Config, db: Db, rounds: nat -> Round, victims: seq<int>, dropped: nat, ok: bool, after: Db)
    requires Retained(cfg, db, rounds, victims, dropped, ok, after)
    ensures forall i :: 0 <= i < |victims| ==>
              || rounds(i).size > cfg.maxSize
              || rounds(i).now - db.rows[victims[i]].enqueuedAt > cfg.maxAge
    ensures ok && after.rows != map[] ==>
              && rounds(dropped).size <= cfg.maxSize
              && forall id :: id in after.rows ==> rounds(dropped).now - after.rows[id].enqueuedAt <= cfg.maxAge
  {
    forall i | 0 <= i < |victims|
      ensures rounds(i).size > cfg.maxSize || rounds(i).now - db.rows[victims[i]].enqueuedAt > cfg.maxAge
    {
      if rounds(i).size <= cfg.maxSize {
        VictimTooOld(cfg, db.rows, victims, after.rows, rounds(i), i);
      }
    }
  }

  /** So a drain that completes leaves a spool within both bounds, or an empty
      one; and one that does not complete its send loop drops nothing. */
  lemma DrainEnforcesBounds(
    cfg: Config, db: Db, now: int, ans: int -> Answer, rounds: nat -> Round,
    tr: DrainTrace, stats: DrainStats, ok: bool, after: Db)
    requires Drained(cfg, db, now, ans, rounds, tr, stats, ok, after)
    ensures ok && after.rows != map[] ==>
              && rounds(stats.dropped).size <= cfg.maxSize
              && forall id :: id in after.rows ==>
                   rounds(stats.dropped).now - after.rows[id].enqueuedAt <= cfg.maxAge
    ensures tr.upto < |tr.batch| ==> !ok && tr.victims == [] && after.dropsTotal == db.dropsTotal
  {
    if ok {
      RetentionExact(cfg, tr.mid, rounds, tr.victims, tr.bumps, ok, after);
    }
  }

  lemma VictimTooOld(cfg: Config, t: Table, victims: seq<int>, rest: Table, r: Round, i: nat)
    requires IsOldestPrefix(t, victims, rest) && i < |victims|
    requires !WithinBounds(cfg, Left(t, victims, i), r) && r.size <= cfg.maxSize
    ensures r.now - t[victims[i]].enqueuedAt > cfg.maxAge
  {
    var left := Left(t, victims, i);
    var id :| id in left && r.now - left[id].enqueuedAt > cfg.maxAge;
    VictimIsOldest(t, victims, rest, i, id);
  }

  /** A victim is no younger than any row left when it went. */
  lemma VictimIsOldest(t: Table, victims: seq<int>, rest: Table, i: nat, id: int)
    requires IsOldestPrefix(t, victims, rest)
    requires i < |victims| && id in Left(t, victims, i)
    ensures t[victims[i]].enqueuedAt <= t[id].enqueuedAt
  {
    assert forall j :: 0 <= j < i ==> victims[j] in victims[..i];
    if id in victims {
      var j :| 0 <= j < |victims| && victims[j] == id;
      assert i <= j;
    } else {
      assert id in rest;
    }
  }

  /** Draining keeps the UNIQUE and AUTOINCREMENT invariants. */
  lemma DrainKeepsValid(
    cfg: Config, db: Db, now: int, ans: int -> Answer, rounds: nat -> Round,
    tr: DrainTrace, stats: DrainStats, ok: bool, after: Db)
    requires Valid(db)
    requires Drained(cfg, db, now, ans, rounds, tr, stats, ok, after)
    ensures Valid(after)
  {
    var sent := DueIn(cfg, db.rows, tr.batch[..tr.upto], now);
    var mid := Recorded(db.rows, sent, ans);
    assert forall id :: id in mid ==> id in db.rows && mid[id].runId == db.rows[id].runId;
    assert forall id :: id in after.rows ==> id in mid && after.rows[id] == mid[id];
  }
}
