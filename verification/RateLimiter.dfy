/** The per-IP limiter of failed ticket validations (internal/ticket/ratelimit.go). */
module RateLimiter {
  import opened Clock

  const DEFAULT_LIMIT: int := 10
  const DEFAULT_WINDOW: int := 60 * SECOND
  const DEFAULT_BLOCK: int := 60 * SECOND

  datatype Config = Config(limit: int, window: int, block: int)

  /** blockedUntil is None for Go's zero time. */
  datatype IpState = IpState(count: int, windowStart: int, blockedUntil: Option<int>)
  type Table = map<string, IpState>

  predicate Usable(c: Config) {
    c.limit > 0 && c.window > 0 && c.block > 0
  }

  predicate InBlock(st: IpState, now: int) {
    st.blockedUntil.Some? && now < st.blockedUntil.value
  }

  predicate IsBlocked(t: Table, ip: string, now: int) {
    ip in t && InBlock(t[ip], now)
  }

  /** The entry that a failure at `now` starts from. */
  function EntryAt(t: Table, ip: string, now: int): IpState {
    if ip in t then t[ip] else IpState(0, now, None)
  }

  /** The entry after a failure that is recorded at `now`. */
  function Recorded(c: Config, st: IpState, now: int): IpState {
    var slid := if now - st.windowStart > c.window then st.(count := 0, windowStart := now) else st;
    var bumped := slid.(count := slid.count + 1);
    if bumped.count >= c.limit then bumped.(blockedUntil := Some(now + c.block)) else bumped
  }

  function AfterFailure(c: Config, t: Table, ip: string, now: int): Table {
    var st := EntryAt(t, ip, now);
    t[ip := if InBlock(st, now) then st else Recorded(c, st, now)]
  }

  /** This failure puts the ip into a block. */
  predicate EntersBlock(c: Config, t: Table, ip: string, now: int) {
    var st := EntryAt(t, ip, now);
    !InBlock(st, now) && Recorded(c, st, now).count >= c.limit
  }

  /** Neither the block nor the window of this entry matters any more. */
  predicate Stale(c: Config, st: IpState, now: int) {
    (st.blockedUntil.None? || st.blockedUntil.value < now) && now - st.windowStart > c.window
  }

  function Kept(c: Config, t: Table, now: int): Table {
    map ip | ip in t && !Stale(c, t[ip], now) :: t[ip]
  }

  class RateLimiter {
    const cfg: Config
    var failures: Table

    constructor (limit: int, window: int, block: int)
      ensures failures == map[] && Usable(cfg)
      ensures cfg.limit == if limit > 0 then limit else DEFAULT_LIMIT
      ensures cfg.window == if window > 0 then window else DEFAULT_WINDOW
      ensures cfg.block == if block > 0 then block else DEFAULT_BLOCK
    {
      cfg := Config(
        if limit <= 0 then DEFAULT_LIMIT else limit,
        if window <= 0 then DEFAULT_WINDOW else window,
        if block <= 0 then DEFAULT_BLOCK else block);
      failures := map[];
    }

    method Blocked(ip: string, now: int) returns (b: bool)
      ensures b == IsBlocked(failures, ip, now)
    {
      if ip !in failures {
        return false;
      }
      return InBlock(failures[ip], now);
    }

    method RecordFailure(ip: string, now: int) returns (entered: bool)
      modifies this
      ensures failures == AfterFailure(cfg, old(failures), ip, now)
      ensures entered == EntersBlock(cfg, old(failures), ip, now)
    {
      var st := if ip in failures then failures[ip] else IpState(0, now, None);
      failures := failures[ip := st];
      if InBlock(st, now) {
        return false;
      }
      if now - st.windowStart > cfg.window {
        st := st.(count := 0, windowStart := now);
      }
      st := st.(count := st.count + 1);
      failures := failures[ip := st];
      if st.count >= cfg.limit {
        st := st.(blockedUntil := Some(now + cfg.block));
        failures := failures[ip := st];
        return true;
      }
      return false;
    }

    method PruneExpired(now: int) returns (n: nat)
      modifies this
      ensures failures == Kept(cfg, old(failures), now)
      ensures forall ip :: ip in old(failures) ==>
                var st := old(failures)[ip];
                ip !in failures <==>
                  (st.blockedUntil.Some? ==> now > st.blockedUntil.value) && now - st.windowStart > cfg.window
      ensures |failures| + n == |old(failures)|
    {
      n := 0;
      var todo := failures.Keys;
      while todo != {}
        invariant todo <= failures.Keys <= old(failures).Keys
        invariant forall ip :: ip in failures ==> failures[ip] == old(failures)[ip]
        invariant forall ip :: ip in failures && ip !in todo ==> !Stale(cfg, failures[ip], now)
        invariant forall ip :: ip in old(failures) && !Stale(cfg, old(failures)[ip], now) ==> ip in failures
        invariant |failures| + n == |old(failures)|
        decreases |todo|
      {
        var ip :| ip in todo;
        todo := todo - {ip};
        if Stale(cfg, failures[ip], now) {
          ghost var before := failures;
          failures := failures - {ip};
          assert failures.Keys == before.Keys - {ip};
          n := n + 1;
        }
      }
    }
  }

  // ----------------------------------------------------------------- traces

  datatype Event = Ask(ip: string, now: int) | Fail(ip: string, now: int) | Prune(now: int)

  function Next(c: Config, t: Table, e: Event): Table {
    match e
    case Ask(_, _) => t
    case Fail(ip, now) => AfterFailure(c, t, ip, now)
    case Prune(now) => Kept(c, t, now)
  }

  function Answer(c: Config, t: Table, e: Event): bool
    requires !e.Prune?
  {
    match e
    case Ask(ip, now) => IsBlocked(t, ip, now)
    case Fail(ip, now) => EntersBlock(c, t, ip, now)
  }

  /** The clock never runs backwards, and starts at `from`. */
  ghost predicate Monotone(events: seq<Event>, from: int) {
    && (forall i :: 0 <= i < |events| ==> from <= events[i].now)
    && (forall i, j :: 0 <= i < j < |events| ==> events[i].now <= events[j].now)
  }

  function Answers(c: Config, t: Table, events: seq<Event>): seq<bool>
    decreases |events|
  {
    if events == [] then []
    else (if events[0].Prune? then [] else [Answer(c, t, events[0])])
         + Answers(c, Next(c, t, events[0]), events[1..])
  }

  function WithoutPrunes(events: seq<Event>): seq<Event> {
    if events == [] then []
    else (if events[0].Prune? then [] else [events[0]]) + WithoutPrunes(events[1..])
  }

  /** Two entries that differ at most in a block that is over. */
  predicate SameEntry(a: IpState, b: IpState, now: int) {
    && a.count == b.count && a.windowStart == b.windowStart
    && (a.blockedUntil == b.blockedUntil || (Over(a, now) && Over(b, now)))
  }

  predicate Over(st: IpState, now: int) {
    st.blockedUntil.None? || st.blockedUntil.value < now
  }

  predicate Agrees(c: Config, pruned: Table, full: Table, now: int, ip: string) {
    if ip in pruned then ip in full && SameEntry(pruned[ip], full[ip], now)
    else ip in full ==> Stale(c, full[ip], now)
  }

  /** A pruned table answers like the full one. */
  ghost predicate Alike(c: Config, pruned: Table, full: Table, now: int) {
    forall ip :: Agrees(c, pruned, full, now, ip)
  }

  lemma AlikeStep(c: Config, pruned: Table, full: Table, from: int, e: Event)
    requires Alike(c, pruned, full, from) && from <= e.now
    ensures e.Prune? ==> Alike(c, Next(c, pruned, e), full, e.now)
    ensures !e.Prune? ==> Alike(c, Next(c, pruned, e), Next(c, full, e), e.now)
                          && Answer(c, pruned, e) == Answer(c, full, e)
  {
    var pruned' := Next(c, pruned, e);
    var full' := if e.Prune? then full else Next(c, full, e);
    forall ip ensures Agrees(c, pruned', full', e.now, ip) {
      assert Agrees(c, pruned, full, from, ip);
    }
    if !e.Prune? {
      assert Agrees(c, pruned, full, from, e.ip);
    }
  }

  /** However often and whenever PruneExpired runs, every Blocked and every
      RecordFailure answers as if it never ran. */
  lemma PruneInvisible(c: Config, t: Table, events: seq<Event>, from: int)
    requires Monotone(events, from)
    ensures Answers(c, t, events) == Answers(c, t, WithoutPrunes(events))
  {
    PruneSimulation(c, t, t, events, from);
  }

  lemma {:induction false} PruneSimulation(c: Config, pruned: Table, full: Table, events: seq<Event>, from: int)
    requires Monotone(events, from)
    requires Alike(c, pruned, full, from)
    ensures Answers(c, pruned, events) == Answers(c, full, WithoutPrunes(events))
    decreases |events|
  {
    if events != [] {
      var e, rest := events[0], events[1..];
      AlikeStep(c, pruned, full, from, e);
      assert Monotone(rest, e.now);
      if e.Prune? {
        PruneSimulation(c, Next(c, pruned, e), full, rest, e.now);
        assert WithoutPrunes(events) == WithoutPrunes(rest);
      } else {
        PruneSimulation(c, Next(c, pruned, e), Next(c, full, e), rest, e.now);
        assert WithoutPrunes(events)[1..] == WithoutPrunes(rest);
      }
    }
  }
}
