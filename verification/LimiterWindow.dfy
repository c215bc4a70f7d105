/** What the limiter's tumbling window guarantees when measured against the
    documented rolling window (internal/ticket/ratelimit.go:16-21, 72-99). */
module LimiterWindow {
  import opened Clock
  import opened RateLimiter

  /** A failure that was counted: when, and the window and count it led to. */
  datatype Failure = Failure(at: int, windowStart: int, count: int)

  predicate Entered(c: Config, f: Failure) {
    f.count >= c.limit
  }

  function LogOf(logs: map<string, seq<Failure>>, ip: string): seq<Failure> {
    if ip in logs then logs[ip] else []
  }

  /** The counted failures of every ip, as events happen. */
  function Logged(c: Config, t: Table, logs: map<string, seq<Failure>>, e: Event): map<string, seq<Failure>> {
    if e.Fail? && !InBlock(EntryAt(t, e.ip, e.now), e.now) then
      var st := Recorded(c, EntryAt(t, e.ip, e.now), e.now);
      logs[e.ip := LogOf(logs, e.ip) + [Failure(e.now, st.windowStart, st.count)]]
    else logs
  }

  /** Table and logs after a trace that starts from an empty limiter. */
  function Run(c: Config, events: seq<Event>): (Table, map<string, seq<Failure>>) {
    if events == [] then (map[], map[])
    else
      var n := |events| - 1;
      var (t, logs) := Run(c, events[..n]);
      (Next(c, t, events[n]), Logged(c, t, logs, events[n]))
  }

  lemma RunSnoc(c: Config, before: seq<Event>, e: Event)
    ensures var (t, logs) := Run(c, before);
            Run(c, before + [e]) == (Next(c, t, e), Logged(c, t, logs, e))
  {
    assert (before + [e])[..|before|] == before;
  }

  // ---------------------------------------------------------- shape of a log

  /** Failure k continues the window of failure k - 1, or opens a new one after
      that window is over; and it is counted only after the other's block. */
  ghost predicate Follows(c: Config, prev: Failure, f: Failure) {
    && prev.at <= f.at
    && (Entered(c, prev) ==> prev.at + c.block <= f.at)
    && (|| (f.count == prev.count + 1 && f.windowStart == prev.windowStart)
        || (f.count == 1 && f.windowStart == f.at && f.at - prev.windowStart > c.window))
  }

  ghost predicate WellLogged(c: Config, log: seq<Failure>) {
    && (forall k :: 0 <= k < |log| ==> log[k].windowStart <= log[k].at <= log[k].windowStart + c.window)
    && (log != [] ==> log[0].count == 1 && log[0].windowStart == log[0].at)
    && (forall k, l :: 0 <= k && k + 1 == l < |log| ==> Follows(c, log[k], log[l]))
  }

  /** The table entry continues the log; a missing entry was stale. */
  ghost predicate Linked(c: Config, t: Table, log: seq<Failure>, ip: string, now: int) {
    if log == [] then ip !in t
    else
      var last := log[|log| - 1];
      && last.at <= now
      && (if ip in t then
            && t[ip].count == last.count && t[ip].windowStart == last.windowStart
            && (Entered(c, last) ==> t[ip].blockedUntil == Some(last.at + c.block))
          else
            && now - last.windowStart > c.window
            && (Entered(c, last) ==> last.at + c.block < now))
  }

  ghost predicate Inv(c: Config, t: Table, logs: map<string, seq<Failure>>, ip: string, now: int) {
    WellLogged(c, LogOf(logs, ip)) && Linked(c, t, LogOf(logs, ip), ip, now)
  }

  lemma InvStep(c: Config, t: Table, logs: map<string, seq<Failure>>, ip: string, from: int, e: Event)
    requires Usable(c) && from <= e.now
    requires Inv(c, t, logs, ip, from)
    ensures Inv(c, Next(c, t, e), Logged(c, t, logs, e), ip, e.now)
  {
    var log := LogOf(logs, ip);
    if e.Fail? && e.ip == ip && !InBlock(EntryAt(t, ip, e.now), e.now) {
      var st := Recorded(c, EntryAt(t, ip, e.now), e.now);
      var f := Failure(e.now, st.windowStart, st.count);
      if log != [] {
        assert Follows(c, log[|log| - 1], f);
      }
      WellLoggedStep(c, log, f);
    }
  }

  lemma WellLoggedStep(c: Config, log: seq<Failure>, f: Failure)
    requires WellLogged(c, log)
    requires f.windowStart <= f.at <= f.windowStart + c.window
    requires if log == [] then f.count == 1 && f.windowStart == f.at else Follows(c, log[|log| - 1], f)
    ensures WellLogged(c, log + [f])
  {
  }

  lemma {:induction false} InvRun(c: Config, events: seq<Event>, ip: string, from: int)
    requires Usable(c) && Monotone(events, from)
    ensures var (t, logs) := Run(c, events);
            Inv(c, t, logs, ip, if events == [] then from else events[|events| - 1].now)
  {
    if events != [] {
      var n := |events| - 1;
      InvRun(c, events[..n], ip, from);
      var (t, logs) := Run(c, events[..n]);
      InvStep(c, t, logs, ip, if n == 0 then from else events[n - 1].now, events[n]);
    }
  }

  // ---------------------------------------------------------------- theorems

  /** Counting back inside one window. */
  lemma {:induction false} WindowRun(c: Config, log: seq<Failure>, k: nat, d: nat)
    requires WellLogged(c, log) && k < |log|
    requires d < log[k].count
    ensures d <= k
    ensures log[k - d].windowStart == log[k].windowStart
    ensures log[k - d].count == log[k].count - d
  {
    if d > 0 {
      WindowRun(c, log, k, d - 1);
      assert k - d + 1 > 0;
      assert Follows(c, log[k - d], log[k - d + 1]);
    }
  }

  lemma {:induction false} TimesOrdered(c: Config, log: seq<Failure>, i: nat, j: nat)
    requires WellLogged(c, log) && i <= j < |log|
    ensures log[i].at <= log[j].at
  {
    if i < j {
      TimesOrdered(c, log, i, j - 1);
      assert Follows(c, log[j - 1], log[j]);
    }
  }

  /** A block is entered only if the last `limit` counted failures, this one
      included, all lie in the last `window`. */
  lemma BlockIsDeserved(c: Config, events: seq<Event>, from: int, ip: string, k: nat, i: nat)
    requires Usable(c) && Monotone(events, from)
    requires k < |LogOf(Run(c, events).1, ip)| && Entered(c, LogOf(Run(c, events).1, ip)[k])
    requires k - c.limit < i <= k
    ensures k + 1 >= c.limit
    ensures var log := LogOf(Run(c, events).1, ip);
            log[k].at - c.window <= log[i].at <= log[k].at
  {
    InvRun(c, events, ip, from);
    var log := LogOf(Run(c, events).1, ip);
    WindowRun(c, log, k, c.limit - 1);
    WindowRun(c, log, k, k - i);
    TimesOrdered(c, log, i, k);
  }

  /** The most failures that can go by in one window without a block. */
  function Unnoticed(limit: int): int {
    if limit <= 2 then limit - 1 else 2 * limit - 3
  }

  /** Any stretch of counted failures that spans at most `window` and enters no
      block has at most 2 * limit - 3 of them (limit - 1 when limit is 1 or 2),
      where a rolling window would allow limit - 1. */
  lemma QuietStretch(c: Config, events: seq<Event>, from: int, ip: string, i: nat, j: nat)
    requires Usable(c) && Monotone(events, from)
    requires i <= j < |LogOf(Run(c, events).1, ip)|
    requires var log := LogOf(Run(c, events).1, ip);
             && log[j].at - log[i].at <= c.window
             && forall k :: i <= k <= j ==> !Entered(c, log[k])
    ensures j - i + 1 <= Unnoticed(c.limit) <= 2 * (c.limit - 1)
  {
    InvRun(c, events, ip, from);
    QuietLog(c, LogOf(Run(c, events).1, ip), i, j);
  }

  lemma {:induction false} CountPositive(c: Config, log: seq<Failure>, k: nat)
    requires WellLogged(c, log) && k < |log|
    ensures log[k].count >= 1
  {
    if k > 0 {
      CountPositive(c, log, k - 1);
      assert Follows(c, log[k - 1], log[k]);
    }
  }

  lemma QuietLog(c: Config, log: seq<Failure>, i: nat, j: nat)
    requires Usable(c) && WellLogged(c, log)
    requires i <= j < |log|
    requires log[j].at - log[i].at <= c.window
    requires forall k :: i <= k <= j ==> !Entered(c, log[k])
    ensures j - i + 1 <= Unnoticed(c.limit)
  {
    CountPositive(c, log, j);
    var n := log[j].count;
    if n < j - i + 1 {
      var s := j - n + 1;                  // the first failure of the last window
      WindowRun(c, log, j, n - 1);
      assert Follows(c, log[s - 1], log[s]);
      CountPositive(c, log, s - 1);
      var m := log[s - 1].count;
      WindowRun(c, log, s - 1, m - 1);     // and of the window before it
      FirstOpensWindow(c, log, s - m);
      FirstOpensWindow(c, log, s);
      TimesOrdered(c, log, s, j);
      if i <= s - m {
        TimesOrdered(c, log, i, s - m);
        assert false;
      }
    }
  }

  lemma FirstOpensWindow(c: Config, log: seq<Failure>, k: nat)
    requires WellLogged(c, log) && k < |log| && log[k].count == 1
    ensures log[k].windowStart == log[k].at
    ensures k > 0 ==> log[k].at - log[k - 1].windowStart > c.window
  {
    if k > 0 {
      assert Follows(c, log[k - 1], log[k]);
      CountPositive(c, log, k - 1);
    }
  }

  // ------------------------------------------------------ the bound is reached

  /** The k-th failure of a burst around the end of a window: one opens it, the
      next limit - 2 come at its last instant, the others right after it. */
  function BurstTime(c: Config, k: int): int {
    if k <= 0 then 0 else if k < c.limit - 1 then c.window else c.window + 1
  }

  function Burst(c: Config, ip: string, n: nat): seq<Event> {
    if n == 0 then [] else Burst(c, ip, n - 1) + [Fail(ip, BurstTime(c, n - 1))]
  }

  function BurstFailure(c: Config, k: int): Failure {
    if k < c.limit - 1 then Failure(BurstTime(c, k), 0, k + 1)
    else Failure(BurstTime(c, k), c.window + 1, k - c.limit + 2)
  }

  /** The limiter after n failures of the burst. */
  ghost predicate BurstState(c: Config, ip: string, n: nat, t: Table, log: seq<Failure>) {
    && |log| == n
    && (forall k :: 0 <= k < n ==> log[k] == BurstFailure(c, k))
    && (if n == 0 then ip !in t
        else ip in t && t[ip] == IpState(BurstFailure(c, n - 1).count, BurstFailure(c, n - 1).windowStart, None))
  }

  /** Within the burst no failure enters a block. */
  lemma BurstIsQuiet(c: Config, k: int)
    requires c.limit >= 2 && 0 <= k < 2 * c.limit - 2
    ensures !Entered(c, BurstFailure(c, k))
  {
  }

  lemma BurstStep(c: Config, ip: string, n: nat, t: Table, logs: map<string, seq<Failure>>)
    requires Usable(c) && c.limit >= 2 && n < 2 * c.limit - 2
    requires BurstState(c, ip, n, t, LogOf(logs, ip))
    ensures var e := Fail(ip, BurstTime(c, n));
            BurstState(c, ip, n + 1, Next(c, t, e), LogOf(Logged(c, t, logs, e), ip))
  {
  }

  lemma {:induction false} BurstRun(c: Config, ip: string, n: nat)
    requires Usable(c) && c.limit >= 2 && n <= 2 * c.limit - 2
    ensures var (t, logs) := Run(c, Burst(c, ip, n));
            BurstState(c, ip, n, t, LogOf(logs, ip))
  {
    if n > 0 {
      BurstRun(c, ip, n - 1);
      var events := Burst(c, ip, n);
      assert events[..|events| - 1] == Burst(c, ip, n - 1);
      var (t, logs) := Run(c, Burst(c, ip, n - 1));
      BurstStep(c, ip, n - 1, t, logs);
    }
  }

  lemma {:induction false} BurstMonotone(c: Config, ip: string, n: nat)
    requires Usable(c)
    ensures |Burst(c, ip, n)| == n
    ensures forall k :: 0 <= k < n ==> Burst(c, ip, n)[k] == Fail(ip, BurstTime(c, k))
    ensures Monotone(Burst(c, ip, n), 0)
  {
    if n > 0 {
      BurstMonotone(c, ip, n - 1);
    }
  }

  /** The documented rolling window is not what the code implements: for every
      limit of 3 or more, 2 * limit - 3 counted failures can fall within one
      nanosecond, at the turn of a window, without entering a block. */
  lemma RollingWindowMissed(c: Config, ip: string)
    requires Usable(c) && c.limit >= 3
    ensures var n := 2 * c.limit - 2;
            var log := LogOf(Run(c, Burst(c, ip, n)).1, ip);
            && Monotone(Burst(c, ip, n), 0)
            && |log| == n
            && log[n - 1].at - log[1].at == 1 <= c.window
            && (forall k :: 1 <= k < n ==> !Entered(c, log[k]))
            && n - 1 == Unnoticed(c.limit) >= c.limit
  {
    var n := 2 * c.limit - 2;
    BurstMonotone(c, ip, n);
    BurstRun(c, ip, n);
    var (t, logs) := Run(c, Burst(c, ip, n));
    BurstSpan(c, LogOf(logs, ip));
  }

  lemma BurstSpan(c: Config, log: seq<Failure>)
    requires Usable(c) && c.limit >= 3 && |log| == 2 * c.limit - 2
    requires forall k :: 0 <= k < |log| ==> log[k] == BurstFailure(c, k)
    ensures log[|log| - 1].at - log[1].at == 1 <= c.window
    ensures forall k :: 1 <= k < |log| ==> !Entered(c, log[k])
  {
    forall k | 1 <= k < |log| ensures !Entered(c, log[k]) {
      BurstIsQuiet(c, k);
    }
  }

  // ------------------------------------------------------------ blocks last

  function After(c: Config, t: Table, events: seq<Event>): Table
    decreases |events|
  {
    if events == [] then t else After(c, Next(c, t, events[0]), events[1..])
  }

  /** A failure that enters a block at `now` shuts its address out for the whole
      block: whatever happens in between, prunes included, every question before
      now + block is answered "blocked". */
  lemma BlockLasts(c: Config, t: Table, ip: string, now: int, events: seq<Event>, ask: int)
    requires EntersBlock(c, t, ip, now)
    requires forall i :: 0 <= i < |events| ==> events[i].now < now + c.block
    requires ask < now + c.block
    ensures IsBlocked(After(c, AfterFailure(c, t, ip, now), events), ip, ask)
  {
    BlockStays(c, AfterFailure(c, t, ip, now), ip, now + c.block, events);
  }

  lemma {:induction false} BlockStays(c: Config, t: Table, ip: string, until: int, events: seq<Event>)
    requires ip in t && t[ip].blockedUntil == Some(until)
    requires forall i :: 0 <= i < |events| ==> events[i].now < until
    ensures ip in After(c, t, events) && After(c, t, events)[ip] == t[ip]
    decreases |events|
  {
    if events != [] {
      BlockStays(c, Next(c, t, events[0]), ip, until, events[1..]);
    }
  }

  /** Any block of the entry is that of the last counted failure, or over. */
  ghost predicate BlockOfLast(c: Config, t: Table, log: seq<Failure>, ip: string) {
    ip in t && t[ip].blockedUntil.Some? ==>
      && log != []
      && var last := log[|log| - 1];
         && t[ip].blockedUntil.value <= if Entered(c, last) then last.at + c.block else last.at
  }

  lemma BlockOfLastStep(c: Config, t: Table, logs: map<string, seq<Failure>>, ip: string, from: int, e: Event)
    requires Usable(c) && from <= e.now && BlockOfLast(c, t, LogOf(logs, ip), ip)
    ensures BlockOfLast(c, Next(c, t, e), LogOf(Logged(c, t, logs, e), ip), ip)
  {
  }

  lemma {:induction false} BlockOfLastRun(c: Config, events: seq<Event>, ip: string, from: int)
    requires Usable(c) && Monotone(events, from)
    ensures BlockOfLast(c, Run(c, events).0, LogOf(Run(c, events).1, ip), ip)
  {
    if events != [] {
      var n := |events| - 1;
      BlockOfLastRun(c, events[..n], ip, from);
      var (t, logs) := Run(c, events[..n]);
      BlockOfLastStep(c, t, logs, ip, events[n].now, events[n]);
    }
  }

  /** Blocked answers yes if and only if some counted failure of the address
      entered a block less than the block's duration ago: nobody is shut out
      without cause or for too long, or let in too early. */
  lemma BlockedIff(c: Config, events: seq<Event>, from: int, ip: string, now: int)
    requires Usable(c) && Monotone(events, from)
    requires events != [] ==> events[|events| - 1].now <= now
    ensures var (t, logs) := Run(c, events);
            IsBlocked(t, ip, now) <==>
              exists k :: 0 <= k < |LogOf(logs, ip)| && Entered(c, LogOf(logs, ip)[k])
                          && now < LogOf(logs, ip)[k].at + c.block
  {
    InvRun(c, events, ip, from);
    BlockOfLastRun(c, events, ip, from);
    var (t, logs) := Run(c, events);
    var log := LogOf(logs, ip);
    forall k | 0 <= k < |log| - 1 && Entered(c, log[k]) ensures log[k].at + c.block <= log[|log| - 1].at {
      assert Follows(c, log[k], log[k + 1]);
      TimesOrdered(c, log, k + 1, |log| - 1);
    }
    if log != [] && Entered(c, log[|log| - 1]) {
      assert IsBlocked(t, ip, now) <==> now < log[|log| - 1].at + c.block;
    }
  }

  // --------------------------------------------- all counted failures together

  /** How many of the failures from i to before j entered a block. */
  function Blocks(c: Config, log: seq<Failure>, i: nat, j: nat): nat
    requires i <= j <= |log|
  {
    if i == j then 0 else Blocks(c, log, i, j - 1) + if Entered(c, log[j - 1]) then 1 else 0
  }

  /** How many did not. */
  function Quiets(c: Config, log: seq<Failure>, i: nat, j: nat): nat
    requires i <= j <= |log|
  {
    if i == j then 0 else Quiets(c, log, i, j - 1) + if Entered(c, log[j - 1]) then 0 else 1
  }

  lemma {:induction false} BlocksAndQuiets(c: Config, log: seq<Failure>, i: nat, m: nat, j: nat)
    requires i <= m <= j <= |log|
    ensures Blocks(c, log, i, j) + Quiets(c, log, i, j) == j - i
    ensures Quiets(c, log, i, j) == Quiets(c, log, i, m) + Quiets(c, log, m, j)
  {
    if i < j {
      BlocksAndQuiets(c, log, i, if m == j then m - 1 else m, j - 1);
    }
  }

  /** Each block keeps the next counted failure away for its duration. */
  lemma {:induction false} BlocksTakeTime(c: Config, log: seq<Failure>, i: nat, j: nat)
    requires WellLogged(c, log) && i <= j < |log|
    ensures log[j].at - log[i].at >= Blocks(c, log, i, j) * c.block
  {
    if i < j {
      BlocksTakeTime(c, log, i, j - 1);
      assert Follows(c, log[j - 1], log[j]);
      OneMore(Blocks(c, log, i, j - 1), c.block);
    }
  }

  lemma OneMore(n: int, d: int)
    ensures (n + 1) * d == n * d + d
  {
  }

  /** Of the failures i to j of one window, those enter no block whose count is
      below the limit. */
  lemma {:induction false} QuietsInWindow(c: Config, log: seq<Failure>, i: nat, j: nat)
    requires Usable(c) && WellLogged(c, log) && i <= j < |log|
    requires j - i < log[j].count
    ensures Quiets(c, log, i, j + 1) <= Max(0, Min(log[j].count, c.limit - 1) - (log[j].count - (j - i)) + 1)
  {
    CountPositive(c, log, j);
    if i < j {
      WindowRun(c, log, j, 1);
      QuietsInWindow(c, log, i, j - 1);
    }
  }

  lemma QuietsInSpan(c: Config, log: seq<Failure>, i: nat, j: nat)
    requires Usable(c) && WellLogged(c, log) && i <= j < |log|
    requires log[j].at - log[i].at <= c.window
    ensures Quiets(c, log, i, j + 1) <= Unnoticed(c.limit)
  {
    if log[j].count <= j - i {
      var s := FirstOfWindow(c, log, j);
      OlderQuiets(c, log, i, s, j);
      QuietsInWindow(c, log, s, j);
      BlocksAndQuiets(c, log, i, s, j + 1);
    } else {
      QuietsInWindow(c, log, i, j);
    }
  }

  /** The older of two windows has room for limit - 2 of them. */
  lemma OlderQuiets(c: Config, log: seq<Failure>, i: nat, s: nat, j: nat)
    requires Usable(c) && WellLogged(c, log) && i < s <= j < |log|
    requires log[j].at - log[i].at <= c.window && log[s].count == 1
    ensures Quiets(c, log, i, s) <= Max(0, c.limit - 2)
  {
    OnlyTwoWindows(c, log, i, s, j);
    QuietsInWindow(c, log, i, s - 1);
  }

  /** The failure that opened the window of failure j. */
  lemma FirstOfWindow(c: Config, log: seq<Failure>, j: nat) returns (s: nat)
    requires WellLogged(c, log) && j < |log|
    ensures s <= j && log[s].count == 1 && j - s == log[j].count - 1
  {
    CountPositive(c, log, j);
    WindowRun(c, log, j, log[j].count - 1);
    s := j - (log[j].count - 1);
  }

  /** A stretch of at most one window meets no third tumbling window, and not the
      failure that opened the older of the two. */
  lemma OnlyTwoWindows(c: Config, log: seq<Failure>, i: nat, s: nat, j: nat)
    requires Usable(c) && WellLogged(c, log) && i < s <= j < |log|
    requires log[j].at - log[i].at <= c.window && log[s].count == 1
    ensures s - i < log[s - 1].count
  {
    CountPositive(c, log, s - 1);
    var m := log[s - 1].count;
    WindowRun(c, log, s - 1, m - 1);
    FirstOpensWindow(c, log, s - m);
    FirstOpensWindow(c, log, s);
    TimesOrdered(c, log, s, j);
    if i <= s - m {
      TimesOrdered(c, log, i, s - m);
    }
  }

  /** The most failures of one address that can be counted in one window. */
  function CountedAtMost(c: Config): int
    requires Usable(c)
  {
    Unnoticed(c.limit) + c.window / c.block + 1
  }

  /** Blocks included, failures that span at most one window number at most
      2 * limit - 2 + window / block, or window / block + 1 for a limit of 1: 19 a
      minute by default. */
  lemma CountedInWindow(c: Config, log: seq<Failure>, i: nat, j: nat)
    requires Usable(c) && WellLogged(c, log) && i <= j < |log|
    requires log[j].at - log[i].at <= c.window
    ensures j - i + 1 <= CountedAtMost(c)
  {
    BlocksAndQuiets(c, log, i, i, j + 1);
    QuietsInSpan(c, log, i, j);
    BlocksInSpan(c, log, i, j);
  }

  lemma BlocksInSpan(c: Config, log: seq<Failure>, i: nat, j: nat)
    requires Usable(c) && WellLogged(c, log) && i <= j < |log|
    requires log[j].at - log[i].at <= c.window
    ensures Blocks(c, log, i, j + 1) <= c.window / c.block + 1
  {
    BlocksTakeTime(c, log, i, j);
    AtMostQuotient(Blocks(c, log, i, j), c.block, c.window);
  }

  /** The same for the failures from i to before j, if any. */
  lemma CountedBetween(c: Config, log: seq<Failure>, i: nat, j: nat)
    requires Usable(c) && WellLogged(c, log) && i <= j <= |log|
    requires i < j ==> log[j - 1].at - log[i].at <= c.window
    ensures j - i <= CountedAtMost(c)
    ensures Blocks(c, log, i, j) <= c.window / c.block + 1
  {
    if i < j {
      CountedInWindow(c, log, i, j - 1);
      BlocksInSpan(c, log, i, j - 1);
    } else {
      SomeAllowed(c);
    }
  }

  lemma SomeAllowed(c: Config)
    requires Usable(c)
    ensures CountedAtMost(c) >= 1 && c.window / c.block >= 0
  {
  }

  lemma AtMostQuotient(n: nat, d: int, x: int)
    requires d > 0 && n * d <= x
    ensures n <= x / d
  {
    var q := x / d;
    assert x < (q + 1) * d;
    if n >= q + 1 {
      ProductMonotone(q + 1, n, d);
    }
  }

  lemma ProductMonotone(a: int, b: int, d: int)
    requires a <= b && d > 0
    ensures a * d <= b * d
  {
  }

  // ------------------------------------------------------- that bound is reached

  /** A trace of failures of one address, at the times of a log. */
  function Fails(ip: string, log: seq<Failure>): (events: seq<Event>)
    ensures |events| == |log|
    ensures forall k :: 0 <= k < |log| ==> events[k] == Fail(ip, log[k].at)
  {
    if log == [] then [] else Fails(ip, log[..|log| - 1]) + [Fail(ip, log[|log| - 1].at)]
  }

  /** The entry that this log leaves. */
  ghost predicate Realized(c: Config, t: Table, log: seq<Failure>, ip: string) {
    if log == [] then ip !in t
    else
      var last := log[|log| - 1];
      && ip in t && t[ip].count == last.count && t[ip].windowStart == last.windowStart
      && (|| t[ip].blockedUntil.None?
          || t[ip].blockedUntil.value <= last.at
          || (Entered(c, last) && t[ip].blockedUntil.value == last.at + c.block))
  }

  lemma RealizedStep(c: Config, t: Table, logs: map<string, seq<Failure>>, log: seq<Failure>, f: Failure, ip: string)
    requires Usable(c) && Realized(c, t, log, ip) && LogOf(logs, ip) == log
    requires f.windowStart <= f.at <= f.windowStart + c.window
    requires if log == [] then f.count == 1 && f.windowStart == f.at
             else Follows(c, log[|log| - 1], f) && log[|log| - 1].count >= 1
    ensures Realized(c, Next(c, t, Fail(ip, f.at)), log + [f], ip)
    ensures LogOf(Logged(c, t, logs, Fail(ip, f.at)), ip) == log + [f]
  {
  }

  /** This trace leaves this log. */
  ghost predicate Happens(c: Config, events: seq<Event>, log: seq<Failure>, ip: string) {
    var (t, logs) := Run(c, events);
    LogOf(logs, ip) == log && Realized(c, t, log, ip)
  }

  lemma HappensStep(c: Config, events: seq<Event>, log: seq<Failure>, f: Failure, ip: string)
    requires Usable(c) && Happens(c, events, log, ip)
    requires f.windowStart <= f.at <= f.windowStart + c.window
    requires if log == [] then f.count == 1 && f.windowStart == f.at
             else Follows(c, log[|log| - 1], f) && log[|log| - 1].count >= 1
    ensures Happens(c, events + [Fail(ip, f.at)], log + [f], ip)
  {
    var (t, logs) := Run(c, events);
    RunSnoc(c, events, Fail(ip, f.at));
    RealizedStep(c, t, logs, log, f, ip);
  }

  /** The shape of a log says all there is to say: every log of this shape is the
      log of some trace. */
  lemma {:induction false} EveryLogHappens(c: Config, log: seq<Failure>, ip: string)
    requires Usable(c) && WellLogged(c, log)
    ensures Happens(c, Fails(ip, log), log, ip)
  {
    if log != [] {
      var n := |log| - 1;
      EveryLogHappens(c, log[..n], ip);
      if n > 0 {
        CountPositive(c, log, n - 1);
        assert Follows(c, log[n - 1], log[n]);
      }
      HappensStep(c, Fails(ip, log[..n]), log[..n], log[n], ip);
      assert log == log[..n] + [log[n]];
    }
  }

  lemma FailsMonotone(c: Config, log: seq<Failure>, ip: string)
    requires WellLogged(c, log) && (log != [] ==> log[0].at >= 0)
    ensures Monotone(Fails(ip, log), 0)
  {
    forall i, j | 0 <= i <= j < |log| ensures log[i].at <= log[j].at {
      TimesOrdered(c, log, i, j);
    }
  }

  /** The most crowded window for a limit of 2 or more: one failure opens a window
      early; at its end come the limit - 2 that still enter no block, and one that
      enters a block if that block can end in time; then limit - 1 more in the
      next window, and one failure at the end of each block. */
  function Crowd(c: Config, k: int): Failure
    requires Usable(c)
  {
    var older := if c.block <= c.window then c.limit else c.limit - 1;
    var start := c.window + if c.block <= c.window then c.block else 1;
    if k == 0 then Failure(0, 0, 1)
    else if k < older then Failure(c.window, 0, k + 1)
    else if k - older < c.limit then Failure(start, start, k - older + 1)
    else Failure(start + (k - older - c.limit + 1) * c.block, start, k - older + 1)
  }

  function CrowdLog(c: Config): seq<Failure>
    requires Usable(c) && c.limit >= 2
  {
    seq(2 * c.limit - 1 + c.window / c.block, k => Crowd(c, k))
  }

  /** For a limit of 1 every failure enters a block. */
  function LoneLog(c: Config): seq<Failure>
    requires Usable(c)
  {
    seq(c.window / c.block + 1, k => Failure(k * c.block, 0, k + 1))
  }

  /** m blocks fit into the window. */
  lemma BlocksFit(c: Config, m: int)
    requires Usable(c) && 0 <= m <= c.window / c.block
    ensures 0 <= m * c.block <= c.window
  {
    ProductMonotone(0, m, c.block);
    ProductMonotone(m, c.window / c.block, c.block);
  }

  lemma CrowdFits(c: Config, k: int)
    requires Usable(c) && c.limit >= 2 && 0 <= k < 2 * c.limit - 1 + c.window / c.block
    ensures Crowd(c, k).windowStart <= Crowd(c, k).at <= Crowd(c, k).windowStart + c.window
  {
    var older := if c.block <= c.window then c.limit else c.limit - 1;
    if k - older >= c.limit {
      BlocksFit(c, k - older - c.limit + 1);
    }
  }

  lemma CrowdFollows(c: Config, k: int)
    requires Usable(c) && c.limit >= 2 && 0 < k < 2 * c.limit - 1 + c.window / c.block
    ensures Follows(c, Crowd(c, k - 1), Crowd(c, k))
  {
    var older := if c.block <= c.window then c.limit else c.limit - 1;
    var m := k - older - c.limit;
    if m >= 0 {
      OneMore(m, c.block);
    }
  }

  /** Two instants of the crowd, the first failure aside, are at most one window
      apart. */
  lemma CrowdSpan(c: Config)
    requires Usable(c) && c.limit >= 2
    ensures Crowd(c, 2 * c.limit - 2 + c.window / c.block).at - Crowd(c, 1).at <= c.window
  {
    var q := c.window / c.block;
    if c.block <= c.window {
      OneMore(q - 1, c.block);
      BlocksFit(c, q);
    } else {
      assert q == 0;
    }
  }

  /** From failure i on, the log is as crowded as one window can be. */
  ghost predicate Crowded(c: Config, log: seq<Failure>, i: nat)
    requires Usable(c)
  {
    && WellLogged(c, log) && i < |log| && log[0].at == 0
    && log[|log| - 1].at - log[i].at <= c.window
    && |log| - i == CountedAtMost(c)
  }

  lemma CrowdHappens(c: Config)
    requires Usable(c) && c.limit >= 2
    ensures Crowded(c, CrowdLog(c), 1)
  {
    CrowdIsWellLogged(c);
    CrowdSpan(c);
  }

  lemma CrowdIsWellLogged(c: Config)
    requires Usable(c) && c.limit >= 2
    ensures WellLogged(c, CrowdLog(c))
  {
    var log := CrowdLog(c);
    forall k | 0 <= k < |log| ensures log[k].windowStart <= log[k].at <= log[k].windowStart + c.window {
      CrowdFits(c, k);
    }
    forall k | 0 < k < |log| ensures Follows(c, log[k - 1], log[k]) {
      CrowdFollows(c, k);
    }
  }

  lemma LoneHappens(c: Config)
    requires Usable(c) && c.limit == 1
    ensures Crowded(c, LoneLog(c), 0)
  {
    var log := LoneLog(c);
    forall k | 0 <= k < |log| ensures log[k].windowStart <= log[k].at <= log[k].windowStart + c.window {
      BlocksFit(c, k);
    }
    forall k | 0 < k < |log| ensures Follows(c, log[k - 1], log[k]) {
      OneMore(k - 1, c.block);
    }
  }

  /** For every configuration there is a trace in which exactly so many failures
      are counted within one window. */
  lemma CountedAtMostReached(c: Config, ip: string) returns (events: seq<Event>, i: nat, j: nat)
    requires Usable(c)
    ensures Monotone(events, 0)
    ensures i <= j < |LogOf(Run(c, events).1, ip)|
    ensures var log := LogOf(Run(c, events).1, ip);
            log[j].at - log[i].at <= c.window && j - i + 1 == CountedAtMost(c)
  {
    var log;
    log, i := CrowdedLog(c);
    j := |log| - 1;
    events := Fails(ip, log);
    TraceOf(c, log, ip);
  }

  lemma CrowdedLog(c: Config) returns (log: seq<Failure>, i: nat)
    requires Usable(c)
    ensures Crowded(c, log, i)
  {
    if c.limit == 1 {
      LoneHappens(c);
      log, i := LoneLog(c), 0;
    } else {
      CrowdHappens(c);
      log, i := CrowdLog(c), 1;
    }
  }

  lemma TraceOf(c: Config, log: seq<Failure>, ip: string)
    requires Usable(c) && WellLogged(c, log) && (log != [] ==> log[0].at >= 0)
    ensures Monotone(Fails(ip, log), 0)
    ensures LogOf(Run(c, Fails(ip, log)).1, ip) == log
  {
    EveryLogHappens(c, log, ip);
    FailsMonotone(c, log, ip);
  }
}
