/** Exactly when the limiter answers like the rolling window that it documents
    (internal/ticket/ratelimit.go:16-21). */
module RollingWindow {
  import opened Clock
  import opened RateLimiter
  import opened LimiterWindow

  /** How many counted failures happened at `since` or later. */
  function Recent(log: seq<Failure>, since: int): nat {
    if log == [] then 0
    else Recent(log[..|log| - 1], since) + if log[|log| - 1].at >= since then 1 else 0
  }

  /** A rolling window blocks on the failure at `now` when `limit` failures, this
      one included, lie in the last `window`. */
  predicate Rolling(c: Config, log: seq<Failure>, now: int) {
    Recent(log, now - c.window) + 1 >= c.limit
  }

  /** The failure e, after these events, is counted, and the code answers it as a
      rolling window would; or it is not counted. */
  predicate AnswersAlike(c: Config, before: seq<Event>, e: Event)
    requires e.Fail?
  {
    var (t, logs) := Run(c, before);
    !IsBlocked(t, e.ip, e.now) ==>
      (EntersBlock(c, t, e.ip, e.now) <==> Rolling(c, LogOf(logs, e.ip), e.now))
  }

  /** The code answers every counted failure of the trace like a rolling window. */
  ghost predicate AlikeOn(c: Config, events: seq<Event>) {
    forall i :: 0 <= i < |events| && events[i].Fail? ==> AnswersAlike(c, events[..i], events[i])
  }

  ghost predicate AlwaysAlike(c: Config) {
    forall events: seq<Event>, from: int :: Monotone(events, from) ==> AlikeOn(c, events)
  }

  // -------------------------------------------------------- counting failures

  lemma {:induction false} RecentSuffix(log: seq<Failure>, since: int, n: nat)
    requires n <= |log|
    requires forall k :: |log| - n <= k < |log| ==> log[k].at >= since
    ensures Recent(log, since) >= n
  {
    if n > 0 {
      RecentSuffix(log[..|log| - 1], since, n - 1);
    }
  }

  /** Some failure is recent iff the last one is. */
  lemma {:induction false} RecentIff(c: Config, log: seq<Failure>, since: int)
    requires WellLogged(c, log)
    ensures Recent(log, since) >= 1 <==> log != [] && log[|log| - 1].at >= since
  {
    if |log| > 1 {
      var n := |log| - 1;
      RecentIff(c, log[..n], since);
      assert Follows(c, log[n - 1], log[n]);
    }
  }

  /** The count that a failure at `now` adds to. */
  function Carried(c: Config, st: IpState, now: int): int {
    if now - st.windowStart > c.window then 0 else st.count
  }

  lemma CarriedIsRecent(c: Config, t: Table, logs: map<string, seq<Failure>>, ip: string, from: int, now: int)
    requires Usable(c) && from <= now && Inv(c, t, logs, ip, from)
    ensures 0 <= Carried(c, EntryAt(t, ip, now), now) <= Recent(LogOf(logs, ip), now - c.window)
  {
    var log := LogOf(logs, ip);
    if ip in t {
      var last := |log| - 1;
      CountPositive(c, log, last);
      if now - t[ip].windowStart <= c.window {
        var n := log[last].count;
        WindowRun(c, log, last, n - 1);
        forall k | |log| - n <= k < |log| ensures log[k].at >= now - c.window {
          WindowRun(c, log, last, last - k);
        }
        RecentSuffix(log, now - c.window, n);
      }
    }
  }

  /** The invariant, at the moment of a failure. */
  lemma InvBefore(c: Config, before: seq<Event>, e: Event, from: int) returns (at: int)
    requires Usable(c) && Monotone(before + [e], from)
    requires e.Fail?
    ensures at <= e.now
    ensures var (t, logs) := Run(c, before);
            Inv(c, t, logs, e.ip, at)
  {
    var all := before + [e];
    assert forall i :: 0 <= i < |before| ==> all[i] == before[i];
    assert all[|before|] == e;
    at := if before == [] then from else before[|before| - 1].now;
    InvRun(c, before, e.ip, from);
  }

  /** For every configuration, the code enters a block only when a rolling window
      would. */
  lemma BlocksOnlyIfRolling(c: Config, before: seq<Event>, e: Event, from: int)
    requires Usable(c) && Monotone(before + [e], from)
    requires e.Fail? && EntersBlock(c, Run(c, before).0, e.ip, e.now)
    ensures Rolling(c, LogOf(Run(c, before).1, e.ip), e.now)
  {
    var at := InvBefore(c, before, e, from);
    var (t, logs) := Run(c, before);
    CarriedIsRecent(c, t, logs, e.ip, at, e.now);
  }

  // ------------------------------------------------------- when they do agree

  /** With a limit of 2 and a block longer than the window, a failure is carried
      over exactly when the last one is recent. */
  lemma CarriedIffRecent(c: Config, t: Table, logs: map<string, seq<Failure>>, ip: string, from: int, now: int)
    requires Usable(c) && from <= now && Inv(c, t, logs, ip, from)
    requires c.limit == 2 && c.block > c.window
    requires !IsBlocked(t, ip, now)
    ensures Carried(c, EntryAt(t, ip, now), now) >= 1 <==> Recent(LogOf(logs, ip), now - c.window) >= 1
  {
    var log := LogOf(logs, ip);
    RecentIff(c, log, now - c.window);
    if log != [] {
      var last := |log| - 1;
      CountPositive(c, log, last);
      if log[last].count == 1 {
        FirstOpensWindow(c, log, last);
      }
    }
  }

  lemma AlikeAt(c: Config, before: seq<Event>, e: Event, from: int)
    requires Usable(c) && Monotone(before + [e], from) && e.Fail?
    requires c.limit == 1 || (c.limit == 2 && c.block > c.window)
    ensures AnswersAlike(c, before, e)
  {
    var at := InvBefore(c, before, e, from);
    var (t, logs) := Run(c, before);
    if !IsBlocked(t, e.ip, e.now) {
      CarriedIsRecent(c, t, logs, e.ip, at, e.now);
      if c.limit == 2 {
        CarriedIffRecent(c, t, logs, e.ip, at, e.now);
      }
    }
  }

  lemma AlikeAlways(c: Config)
    requires Usable(c)
    requires c.limit == 1 || (c.limit == 2 && c.block > c.window)
    ensures AlwaysAlike(c)
  {
    forall events: seq<Event>, from: int | Monotone(events, from) ensures AlikeOn(c, events) {
      forall i | 0 <= i < |events| && events[i].Fail? ensures AnswersAlike(c, events[..i], events[i]) {
        assert events[..i] + [events[i]] == events[..i + 1];
        AlikeAt(c, events[..i], events[i], from);
      }
    }
  }

  // ----------------------------------------------------- and when they do not

  /** Two failures a nanosecond apart enter a block; when it is over, within the
      window, a third failure is recent but opens a new window. */
  lemma ShortBlockDiffers(c: Config, ip: string)
    requires Usable(c) && c.limit == 2 && c.block <= c.window
    ensures Monotone([Fail(ip, 0), Fail(ip, 1), Fail(ip, 1 + c.window)], 0)
    ensures !AnswersAlike(c, [Fail(ip, 0), Fail(ip, 1)], Fail(ip, 1 + c.window))
  {
    var e0, e1 := Fail(ip, 0), Fail(ip, 1);
    var f0, f1 := Failure(0, 0, 1), Failure(1, 0, 2);
    RunSnoc(c, [], e0);
    assert [] + [e0] == [e0] && [] + [f0] == [f0];
    var (t0, logs0) := Run(c, [e0]);
    assert t0 == map[ip := IpState(1, 0, None)] && LogOf(logs0, ip) == [f0];
    RunSnoc(c, [e0], e1);
    assert [e0] + [e1] == [e0, e1];
    var (t1, logs1) := Run(c, [e0, e1]);
    assert t1 == map[ip := IpState(2, 0, Some(1 + c.block))] && LogOf(logs1, ip) == [f0, f1];
    assert [f0, f1][..1] == [f0] && [f0][..0] == [];
    assert Recent([f0, f1], 1) == Recent([f0], 1) + 1;
  }

  /** The last failure of a burst around the end of a window. */
  lemma BurstDiffers(c: Config, ip: string)
    requires Usable(c) && c.limit >= 3
    ensures var n := 2 * c.limit - 3;
            !AnswersAlike(c, Burst(c, ip, n), Fail(ip, BurstTime(c, n)))
  {
    var n := 2 * c.limit - 3;
    BurstRun(c, ip, n);
    BurstIsQuiet(c, n);
    var (t, logs) := Run(c, Burst(c, ip, n));
    BurstStep(c, ip, n, t, logs);
    RecentSuffix(LogOf(logs, ip), 1, n - 1);
  }

  lemma DiffersOn(c: Config, before: seq<Event>, e: Event, from: int)
    requires Monotone(before + [e], from) && e.Fail? && !AnswersAlike(c, before, e)
    ensures !AlwaysAlike(c)
  {
    var events := before + [e];
    assert events[..|before|] == before && events[|before|] == e;
    assert !AlikeOn(c, events);
  }

  /** The limiter is a rolling window, on all traces, if and only if its limit is
      1, or its limit is 2 and its block lasts longer than its window. The
      default of 10 failures in 60 s with a block of 60 s is neither. */
  lemma RollingIff(c: Config)
    requires Usable(c)
    ensures AlwaysAlike(c) <==> c.limit == 1 || (c.limit == 2 && c.block > c.window)
  {
    var ip := "";
    if c.limit == 1 || (c.limit == 2 && c.block > c.window) {
      AlikeAlways(c);
    } else if c.limit == 2 {
      ShortBlockDiffers(c, ip);
      var before, third := [Fail(ip, 0), Fail(ip, 1)], Fail(ip, 1 + c.window);
      assert before + [third] == [Fail(ip, 0), Fail(ip, 1), Fail(ip, 1 + c.window)];
      DiffersOn(c, before, third, 0);
    } else {
      var n := 2 * c.limit - 3;
      BurstDiffers(c, ip);
      BurstMonotone(c, ip, n + 1);
      DiffersOn(c, Burst(c, ip, n), Fail(ip, BurstTime(c, n)), 0);
    }
  }
}
