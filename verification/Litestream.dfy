/** Replication health: the tracker behind /readyz and the watcher that feeds it
    from the journal (internal/litestream/litestream.go, watcher.go). */
module Litestream {
  import opened Clock

  /** lastSyncAt is None for Go's zero time. */
  datatype Status = Status(lastSyncAt: Option<int>, serviceActive: bool, errors: nat)

  const NO_SYNC_LAG: int := 0x4000_0000_0000_0000 - 1

  function Synced(s: Status, at: int): Status {
    if s.lastSyncAt.None? || at > s.lastSyncAt.value then s.(lastSyncAt := Some(at)) else s
  }

  predicate IsHealthy(s: Status, maxLag: int, now: int) {
    s.serviceActive && s.lastSyncAt.Some? && now - s.lastSyncAt.value <= maxLag
  }

  /** A journal line: when the service wrote it, what it says, and when the
      watcher's scan reached it. */
  datatype Kind = SyncLine | ErrorLine | OtherLine
  datatype Line = Line(stamp: int, kind: Kind, scannedAt: int)

  function Scan(s: Status, lines: seq<Line>): Status {
    if lines == [] then s
    else
      var n := |lines| - 1;
      var before := Scan(s, lines[..n]);
      match lines[n].kind
      case ErrorLine => before.(errors := before.errors + 1)
      case SyncLine => Synced(before, lines[n].scannedAt)
      case OtherLine => before
  }

  class Tracker {
    var status: Status

    constructor ()
      ensures status == Status(None, false, 0)
    {
      status := Status(None, false, 0);
    }

    /** `at` is None for the zero time, which stands for now. */
    method RecordSync(at: Option<int>, now: int)
      modifies this
      ensures status == Synced(old(status), if at.Some? then at.value else now)
      ensures status.lastSyncAt.Some?
      ensures old(status).lastSyncAt.Some? ==> old(status).lastSyncAt.value <= status.lastSyncAt.value
    {
      var t := if at.Some? then at.value else now;
      if status.lastSyncAt.None? || t > status.lastSyncAt.value {
        status := status.(lastSyncAt := Some(t));
      }
    }

    method RecordError()
      modifies this
      ensures status == old(status).(errors := old(status).errors + 1)
    {
      status := status.(errors := status.errors + 1);
    }

    method SetServiceActive(active: bool)
      modifies this
      ensures status == old(status).(serviceActive := active)
    {
      status := status.(serviceActive := active);
    }

    method Lag(now: int) returns (lag: int)
      ensures lag == if status.lastSyncAt.None? then NO_SYNC_LAG else now - status.lastSyncAt.value
    {
      if status.lastSyncAt.None? {
        return NO_SYNC_LAG;
      }
      return now - status.lastSyncAt.value;
    }

    method Healthy(maxLag: int, now: int) returns (ok: bool)
      ensures ok == IsHealthy(status, maxLag, now)
    {
      if !status.serviceActive {
        return false;
      }
      if status.lastSyncAt.None? {
        return false;
      }
      return now - status.lastSyncAt.value <= maxLag;
    }
  }

  /** One poll: when it ran, whether systemctl found the unit active, and what
      journalctl printed (nothing when it failed). */
  datatype Poll = Poll(at: int, active: bool, lines: seq<Line>)

  /** The start of the scan window of a poll at `at`. */
  function Since(lastPoll: Option<int>, lookback: int, at: int): int {
    if lastPoll.Some? then lastPoll.value else at - lookback
  }

  class Watcher {
    const tracker: Tracker
    const lookback: int
    var lastPoll: Option<int>

    constructor (tracker: Tracker, lookback: int)
      ensures this.tracker == tracker && this.lookback == lookback && lastPoll == None
    {
      this.tracker, this.lookback := tracker, lookback;
      lastPoll := None;
    }

    /** Returns the `--since` argument, to the second. */
    method DoPoll(p: Poll) returns (since: int)
      modifies this, tracker
      ensures since == ToSecond(Since(old(lastPoll), lookback, p.at))
      ensures since == ToSecond(if old(lastPoll).Some? then old(lastPoll).value else p.at - lookback)
      ensures lastPoll == Some(p.at)
      ensures tracker.status == Scan(old(tracker.status).(serviceActive := p.active), p.lines)
    {
      tracker.SetServiceActive(p.active);
      var from := lastPoll;
      lastPoll := Some(p.at);
      since := ToSecond(if from.None? then p.at - lookback else from.value);
      ghost var start := tracker.status;
      for i := 0 to |p.lines|
        invariant tracker.status == Scan(start, p.lines[..i])
        invariant lastPoll == Some(p.at)
      {
        assert p.lines[..i + 1][..i] == p.lines[..i];
        match p.lines[i].kind
        case ErrorLine => tracker.RecordError();
        case SyncLine => tracker.RecordSync(None, p.lines[i].scannedAt);
        case OtherLine =>
      }
      assert p.lines[..|p.lines|] == p.lines;
    }
  }

  // -------------------------------------------------------------- whole runs

  /** Watcher and tracker after a sequence of polls. */
  function Polled(polls: seq<Poll>): Status {
    if polls == [] then Status(None, false, 0)
    else
      var n := |polls| - 1;
      Scan(Polled(polls[..n]).(serviceActive := polls[n].active), polls[n].lines)
  }

  function SinceOf(polls: seq<Poll>, lookback: int, k: nat): int
    requires k < |polls|
  {
    Since(if k == 0 then None else Some(polls[k - 1].at), lookback, polls[k].at)
  }

  /** Polls at most `gap` apart, whose scans take at most `scan`, of a journal
      that honours --since. */
  ghost predicate Plausible(polls: seq<Poll>, lookback: int, gap: int, scan: int) {
    && (forall k :: 0 < k < |polls| ==> 0 <= polls[k].at - polls[k - 1].at <= gap)
    && (forall k, i :: 0 <= k < |polls| && 0 <= i < |polls[k].lines| ==>
          && ToSecond(SinceOf(polls, lookback, k)) <= polls[k].lines[i].stamp <= polls[k].lines[i].scannedAt
          && polls[k].at <= polls[k].lines[i].scannedAt <= polls[k].at + scan)
  }

  /** A scan leaves the last sync time alone or sets it to the scan time of one
      of its sync lines, never to an earlier time. */
  lemma {:induction false} ScanLine(s: Status, lines: seq<Line>) returns (i: nat)
    ensures Scan(s, lines).serviceActive == s.serviceActive
    ensures s.lastSyncAt.Some? ==>
              Scan(s, lines).lastSyncAt.Some? && s.lastSyncAt.value <= Scan(s, lines).lastSyncAt.value
    ensures Scan(s, lines).lastSyncAt != s.lastSyncAt ==>
              i < |lines| && lines[i].kind.SyncLine? && Scan(s, lines).lastSyncAt == Some(lines[i].scannedAt)
  {
    i := 0;
    if lines != [] {
      var n := |lines| - 1;
      i := ScanLine(s, lines[..n]);
      if Scan(s, lines).lastSyncAt != Scan(s, lines[..n]).lastSyncAt {
        i := n;
      }
    }
  }

  /** Every sync line moves the last sync time up to its scan time, and every
      error line counts. */
  lemma {:induction false} ScanReaches(s: Status, lines: seq<Line>, i: nat)
    requires i < |lines| && lines[i].kind.SyncLine?
    ensures Scan(s, lines).lastSyncAt.Some? && lines[i].scannedAt <= Scan(s, lines).lastSyncAt.value
  {
    var n := |lines| - 1;
    if i < n {
      ScanReaches(s, lines[..n], i);
    }
  }

  /** How many of these lines report an error. */
  function ErrorsIn(lines: seq<Line>): nat {
    if lines == [] then 0
    else (if lines[0].kind.ErrorLine? then 1 else 0) + ErrorsIn(lines[1..])
  }

  lemma {:induction false} ErrorsSnoc(lines: seq<Line>, l: Line)
    ensures ErrorsIn(lines + [l]) == ErrorsIn(lines) + if l.kind.ErrorLine? then 1 else 0
  {
    if lines != [] {
      ErrorsSnoc(lines[1..], l);
      assert (lines + [l])[1..] == lines[1..] + [l];
    }
  }

  lemma {:induction false} ScanCountsErrors(s: Status, lines: seq<Line>)
    ensures Scan(s, lines).errors == s.errors + ErrorsIn(lines)
  {
    if lines != [] {
      var n := |lines| - 1;
      ScanCountsErrors(s, lines[..n]);
      ErrorsSnoc(lines[..n], lines[n]);
      assert lines == lines[..n] + [lines[n]];
    }
  }

  /** Line i of poll k is a sync that was scanned at most maxLag before now. */
  predicate RecentLine(polls: seq<Poll>, k: int, i: int, maxLag: int, now: int) {
    && 0 <= k < |polls| && 0 <= i < |polls[k].lines|
    && polls[k].lines[i].kind.SyncLine? && now - polls[k].lines[i].scannedAt <= maxLag
  }

  lemma {:induction false} SyncSeen(polls: seq<Poll>, k: nat, i: nat)
    requires k < |polls| && i < |polls[k].lines| && polls[k].lines[i].kind.SyncLine?
    ensures Polled(polls).lastSyncAt.Some? && polls[k].lines[i].scannedAt <= Polled(polls).lastSyncAt.value
  {
    var n := |polls| - 1;
    var s := Polled(polls[..n]).(serviceActive := polls[n].active);
    if k == n {
      ScanReaches(s, polls[n].lines, i);
    } else {
      SyncSeen(polls[..n], k, i);
      var _ := ScanLine(s, polls[n].lines);
    }
  }

  /** The gate says healthy if and only if the last poll found the unit active
      and some poll scanned a sync at most maxLag ago. */
  lemma HealthyIff(polls: seq<Poll>, maxLag: int, now: int)
    ensures IsHealthy(Polled(polls), maxLag, now) <==>
              && polls != [] && polls[|polls| - 1].active
              && exists k, i :: RecentLine(polls, k, i, maxLag, now)
  {
    if polls != [] {
      var n := |polls| - 1;
      var _ := ScanLine(Polled(polls[..n]).(serviceActive := polls[n].active), polls[n].lines);
    }
    if Polled(polls).lastSyncAt.Some? {
      var k, i := LastSyncSeen(polls);
      assert IsHealthy(Polled(polls), maxLag, now) ==> RecentLine(polls, k, i, maxLag, now);
    }
    forall k, i | RecentLine(polls, k, i, maxLag, now)
      ensures Polled(polls).lastSyncAt.Some? && now - Polled(polls).lastSyncAt.value <= maxLag
    {
      SyncSeen(polls, k, i);
    }
  }

  /** The last sync time is the scan time of a line that was really there. */
  lemma {:induction false} LastSyncSeen(polls: seq<Poll>) returns (k: nat, i: nat)
    requires Polled(polls).lastSyncAt.Some?
    ensures k < |polls| && i < |polls[k].lines| && polls[k].lines[i].kind.SyncLine?
    ensures Polled(polls).lastSyncAt == Some(polls[k].lines[i].scannedAt)
  {
    var n := |polls| - 1;
    var s := Polled(polls[..n]).(serviceActive := polls[n].active);
    i := ScanLine(s, polls[n].lines);
    k := n;
    if Polled(polls).lastSyncAt == s.lastSyncAt {
      k, i := LastSyncSeen(polls[..n]);
    }
  }

  /** Bounded optimism: when the gate says healthy, some sync was written less
      than maxLag + max(lookback, gap) + scan + one second ago, because syncs
      are dated by the scan that finds them. */
  lemma BoundedOptimism(polls: seq<Poll>, lookback: int, gap: int, scan: int, maxLag: int, now: int)
    returns (k: nat, i: nat)
    requires Plausible(polls, lookback, gap, scan)
    requires IsHealthy(Polled(polls), maxLag, now)
    ensures polls[|polls| - 1].active
    ensures k < |polls| && i < |polls[k].lines| && polls[k].lines[i].kind.SyncLine?
    ensures now - polls[k].lines[i].stamp < maxLag + Max(lookback, gap) + scan + SECOND
  {
    k, i := LastSyncSeen(polls);
    var n := |polls| - 1;
    var _ := ScanLine(Polled(polls[..n]).(serviceActive := polls[n].active), polls[n].lines);
    assert polls[k].at - SinceOf(polls, lookback, k) <= Max(lookback, gap);
  }

  /** A scan that finds one sync line at the very start of its window, a second
      before the last poll or the lookback. */
  lemma OneLineScanned(polls: seq<Poll>, at: int, scan: int)
    requires polls == [Poll(at, true, [Line(0, SyncLine, at + scan)])]
             || (|polls| == 2 && polls[0].lines == [] && polls[1] == Poll(at, true, [Line(0, SyncLine, at + scan)]))
    ensures Polled(polls) == Status(Some(at + scan), true, 0)
  {
    var n := |polls| - 1;
    var line := Line(0, SyncLine, at + scan);
    var start := Polled(polls[..n]).(serviceActive := true);
    assert polls[..0] == [];
    if n == 1 {
      assert polls[..1] == [polls[0]] && [polls[0]][..0] == [];
      assert Polled([polls[0]]) == Scan(Polled([]).(serviceActive := polls[0].active), []);
    }
    assert start == Status(None, true, 0);
    assert [line][..0] == [];
    assert Scan(start, [line]) == Synced(Scan(start, []), at + scan);
  }

  /** The first scan after a restart. */
  lemma LookbackRun(lookback: int, gap: int, scan: int) returns (polls: seq<Poll>)
    requires lookback >= 0 && gap >= 0 && scan >= 0
    ensures Plausible(polls, lookback, gap, scan) && polls != []
    ensures forall k, i :: 0 <= k < |polls| && 0 <= i < |polls[k].lines| ==> polls[k].lines[i].stamp == 0
    ensures Polled(polls) == Status(Some(lookback + SECOND - 1 + scan), true, 0)
  {
    var at := lookback + SECOND - 1;
    polls := [Poll(at, true, [Line(0, SyncLine, at + scan)])];
    OneLineScanned(polls, at, scan);
    assert SinceOf(polls, lookback, 0) == SECOND - 1;
    assert ToSecond(SECOND - 1) == 0;
  }

  /** A later scan. */
  lemma GapRun(lookback: int, gap: int, scan: int) returns (polls: seq<Poll>)
    requires lookback >= 0 && gap >= 0 && scan >= 0
    ensures Plausible(polls, lookback, gap, scan) && polls != []
    ensures forall k, i :: 0 <= k < |polls| && 0 <= i < |polls[k].lines| ==> polls[k].lines[i].stamp == 0
    ensures Polled(polls) == Status(Some(gap + SECOND - 1 + scan), true, 0)
  {
    var at := gap + SECOND - 1;
    polls := [Poll(SECOND - 1, true, []), Poll(at, true, [Line(0, SyncLine, at + scan)])];
    OneLineScanned(polls, at, scan);
    assert SinceOf(polls, lookback, 1) == SECOND - 1;
    assert ToSecond(SECOND - 1) == 0;
  }

  /** Some sync is at most maxLag old. */
  ghost predicate RecentSync(polls: seq<Poll>, now: int, maxLag: int) {
    exists k, i :: 0 <= k < |polls| && 0 <= i < |polls[k].lines|
                   && polls[k].lines[i].kind.SyncLine? && now - polls[k].lines[i].stamp <= maxLag
  }

  /** Whenever the gate, asked with lag m, says healthy, some sync is at most
      maxLag old. */
  ghost predicate Truthful(lookback: int, gap: int, scan: int, m: int, maxLag: int) {
    forall polls, now :: Plausible(polls, lookback, gap, scan) && IsHealthy(Polled(polls), m, now) ==>
      RecentSync(polls, now, maxLag)
  }

  /** Exactly when the gate means what it says: asked with lag m it vouches for
      syncs at most maxLag old if and only if maxLag leaves room for the widest
      scan window, the scan and the second that --since loses. In particular it
      never vouches for m itself. */
  lemma TruthfulIff(lookback: int, gap: int, scan: int, m: int, maxLag: int)
    requires lookback >= 0 && gap >= 0 && scan >= 0
    ensures Truthful(lookback, gap, scan, m, maxLag) <==>
              m + Max(lookback, gap) + scan + SECOND - 1 <= maxLag
  {
    if m + Max(lookback, gap) + scan + SECOND - 1 <= maxLag {
      forall polls, now | Plausible(polls, lookback, gap, scan) && IsHealthy(Polled(polls), m, now)
        ensures RecentSync(polls, now, maxLag)
      {
        var k, i := BoundedOptimism(polls, lookback, gap, scan, m, now);
      }
    } else {
      var polls;
      if lookback >= gap {
        polls := LookbackRun(lookback, gap, scan);
      } else {
        polls := GapRun(lookback, gap, scan);
      }
      var now := Polled(polls).lastSyncAt.value + m;
      assert IsHealthy(Polled(polls), m, now);
      assert !RecentSync(polls, now, maxLag);
    }
  }

  /** The last sync time never moves back. */
  lemma LastSyncMonotone(polls: seq<Poll>, p: Poll)
    requires Polled(polls).lastSyncAt.Some?
    ensures Polled(polls + [p]).lastSyncAt.Some?
    ensures Polled(polls).lastSyncAt.value <= Polled(polls + [p]).lastSyncAt.value
  {
    assert (polls + [p])[..|polls|] == polls;
    var _ := ScanLine(Polled(polls).(serviceActive := p.active), p.lines);
  }
}
