/** The spool database as a value: the `spool` and `spool_meta` tables of
    internal/spool/migrations, and what each SQL statement does to them. */
module SpoolTable {
  import opened Clock
  import opened Wire
  import Backoff

  datatype Row = Row(
    runId: string,
    payload: Payload,
    enqueuedAt: int,
    attempts: nat,
    lastAttemptAt: Option<int>,
    lastError: string)

  /** Rows by primary key. */
  type Table = map<int, Row>

  datatype Snapshot = Snapshot(depth: int, oldestAgeSecs: int, dropsTotal: int)

  /** nextId is SQLite's AUTOINCREMENT sequence: ids are never reused. */
  datatype Db = Db(rows: Table, nextId: int, dropsTotal: int, last: Snapshot)

  const FRESH_DB: Db := Db(map[], 1, 0, Snapshot(0, 0, 0))

  datatype Config = Config(
    drainRows: nat,
    maxAge: int,
    maxSize: int,
    backoffBase: Backoff.Duration,
    backoffMax: Backoff.Duration)

  /** UNIQUE(probe_run_id). */
  ghost predicate UniqueRuns(t: Table) {
    forall a, b :: a in t && b in t && t[a].runId == t[b].runId ==> a == b
  }

  ghost predicate Valid(db: Db) {
    && UniqueRuns(db.rows)
    && (forall id :: id in db.rows ==> id < db.nextId)
  }

  predicate HasRun(t: Table, runId: string) {
    exists id :: id in t && t[id].runId == runId
  }

  /** INSERT INTO spool(probe_run_id, payload). */
  function Insert(db: Db, runId: string, payload: Payload, now: int): Db {
    db.(rows := db.rows[db.nextId := Row(runId, payload, ToSecond(now), 0, None, "")],
        nextId := db.nextId + 1)
  }

  /** DELETE FROM spool WHERE id = ?. */
  function Remove(t: Table, id: int): Table {
    t - {id}
  }

  /** A row after one recorded failure at instant `at`. */
  function Failed(r: Row, at: int, err: string): Row {
    r.(attempts := r.attempts + 1, lastAttemptAt := Some(ToSecond(at)), lastError := err)
  }

  /** UPDATE spool SET attempts = attempts + 1, ... WHERE id = ?. */
  function MarkFailed(t: Table, id: int, at: int, err: string): Table {
    if id in t then t[id := Failed(t[id], at, err)] else t
  }

  /** `id` may come first under ORDER BY enqueued_at ASC; ties in any order. */
  predicate IsOldest(t: Table, id: int) {
    id in t && forall j :: j in t ==> t[id].enqueuedAt <= t[j].enqueuedAt
  }

  /** An answer SQLite may give to ORDER BY enqueued_at ASC LIMIT n. */
  ghost predicate IsOldestBatch(t: Table, n: nat, batch: seq<int>) {
    |batch| == Min(n, |t|) && IsOldestPrefix(t, batch, t - Elems(batch))
  }

  /** The row's backoff window has elapsed at `now`. */
  predicate Due(cfg: Config, r: Row, now: int) {
    r.lastAttemptAt.None?
    || r.lastAttemptAt.value + Backoff.Window(r.attempts, cfg.backoffBase, cfg.backoffMax) <= now
  }

  /** A non-empty table has an oldest row. */
  lemma {:induction false} OldestExists(t: Table)
    requires t != map[]
    ensures exists id :: IsOldest(t, id)
    decreases |t|
  {
    assert (forall k :: k !in t) ==> t == map[];
    var k :| k in t;
    var rest := t - {k};
    if rest == map[] {
      assert forall j :: j in t ==> j == k || j in rest;
      assert IsOldest(t, k);
    } else {
      assert |rest| < |t| by { assert rest.Keys == t.Keys - {k}; }
      OldestExists(rest);
      var m :| IsOldest(rest, m);
      var best := if t[k].enqueuedAt <= t[m].enqueuedAt then k else m;
      forall j | j in t ensures t[best].enqueuedAt <= t[j].enqueuedAt {
        if j != k { assert j in rest && rest[j] == t[j]; }
      }
      assert IsOldest(t, best);
    }
  }

  /** `picks` can be taken out of `t` one oldest row at a time, leaving `rest`. */
  ghost predicate OldestFirst(t: Table, picks: seq<int>, rest: Table)
    decreases |picks|
  {
    if picks == [] then rest == t
    else IsOldest(t, picks[0]) && OldestFirst(Remove(t, picks[0]), picks[1..], rest)
  }

  function Elems(s: seq<int>): set<int> {
    set id | id in s
  }

  /** Exactly the picks are gone. */
  ghost predicate Takes(t: Table, picks: seq<int>, rest: Table) {
    && rest == t - Elems(picks)
    && (forall i :: 0 <= i < |picks| ==> picks[i] in t)
  }

  /** The picks are distinct, in `enqueued_at` order, and none of them is
      younger than a row of `rest`. */
  ghost predicate InOrder(t: Table, picks: seq<int>, rest: Table)
    requires forall i :: 0 <= i < |picks| ==> picks[i] in t
    requires forall id :: id in rest ==> id in t
  {
    && (forall i, j :: 0 <= i < j < |picks| ==>
          picks[i] != picks[j] && t[picks[i]].enqueuedAt <= t[picks[j]].enqueuedAt)
    && (forall i, id :: 0 <= i < |picks| && id in rest ==>
          t[picks[i]].enqueuedAt <= t[id].enqueuedAt)
  }

  ghost predicate IsOldestPrefix(t: Table, picks: seq<int>, rest: Table) {
    Takes(t, picks, rest) && InOrder(t, picks, rest)
  }

  lemma {:induction false} OldestFirstIsPrefix(t: Table, picks: seq<int>, rest: Table)
    requires OldestFirst(t, picks, rest)
    ensures IsOldestPrefix(t, picks, rest)
    decreases |picks|
  {
    if picks == [] {
      assert rest == t - Elems(picks);
    } else {
      var p, tail := picks[0], picks[1..];
      OldestFirstIsPrefix(Remove(t, p), tail, rest);
      TakesCons(t, p, tail, rest);
      InOrderCons(t, p, tail, rest);
      assert picks == [p] + tail;
    }
  }

  lemma {:induction false} OldestFirstSize(t: Table, picks: seq<int>, rest: Table)
    requires OldestFirst(t, picks, rest)
    ensures |rest| + |picks| == |t|
    decreases |picks|
  {
    if picks != [] {
      RemoveSize(t, picks[0]);
      OldestFirstSize(Remove(t, picks[0]), picks[1..], rest);
    }
  }

  lemma TakesCons(t: Table, p: int, tail: seq<int>, rest: Table)
    requires p in t
    requires Takes(Remove(t, p), tail, rest)
    ensures Takes(t, [p] + tail, rest)
  {
  }

  lemma InOrderCons(t: Table, p: int, tail: seq<int>, rest: Table)
    requires IsOldest(t, p)
    requires Takes(Remove(t, p), tail, rest)
    requires InOrder(Remove(t, p), tail, rest)
    ensures forall i :: 0 <= i < |[p] + tail| ==> ([p] + tail)[i] in t
    ensures InOrder(t, [p] + tail, rest)
  {
  }

  lemma {:induction false} OldestFirstStep(t: Table, picks: seq<int>, mid: Table, id: int)
    requires OldestFirst(t, picks, mid)
    requires IsOldest(mid, id)
    ensures OldestFirst(t, picks + [id], Remove(mid, id))
    decreases |picks|
  {
    if picks == [] {
      assert (picks + [id])[1..] == [];
    } else {
      OldestFirstStep(Remove(t, picks[0]), picks[1..], mid, id);
      assert (picks + [id])[1..] == picks[1..] + [id];
    }
  }

  lemma RemoveSize(t: Table, id: int)
    requires id in t
    ensures |Remove(t, id)| == |t| - 1
  {
    assert Remove(t, id).Keys == t.Keys - {id};
  }
}
