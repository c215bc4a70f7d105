/** How many tickets of one address the gate judges and refuses within a window,
    given how many of its requests are in flight at a time. */
module GateBound {
  import opened Clock
  import opened GateRuns
  import R = RateLimiter
  import W = LimiterWindow

  // ------------------------------------------------------- shape of the refusals

  /** The last of the first n refusals that were overtaken. */
  function Tail(r: seq<Refusal>, n: nat): nat
    requires n <= |r|
  {
    if n == 0 || r[n - 1].Counted? then 0 else 1 + Tail(r, n - 1)
  }

  /** The last of them that was counted entered a block. */
  predicate Open(c: R.Config, r: seq<Refusal>, n: nat)
    requires n <= |r|
  {
    n > 0 && if r[n - 1].Counted? then W.Entered(c, r[n - 1].f) else Open(c, r, n - 1)
  }

  /** Overtaken refusals follow a block, at most m of them each. */
  ghost predicate Tailed(c: R.Config, r: seq<Refusal>, m: int) {
    forall k :: 0 <= k < |r| && r[k].Overtaken? ==> Open(c, r, k) && Tail(r, k) < m
  }

  ghost predicate InOrder(r: seq<Refusal>) {
    forall i, j :: 0 <= i < j < |r| ==> When(r[i]) <= When(r[j])
  }

  lemma {:induction false} ShapeBefore(c: R.Config, r: seq<Refusal>, x: Refusal, n: nat)
    requires n <= |r|
    ensures Tail(r + [x], n) == Tail(r, n) && Open(c, r + [x], n) == Open(c, r, n)
  {
    if n > 0 {
      ShapeBefore(c, r, x, n - 1);
    }
  }

  lemma TailedStep(c: R.Config, r: seq<Refusal>, x: Refusal, m: int)
    requires Tailed(c, r, m)
    requires x.Overtaken? ==> Open(c, r, |r|) && Tail(r, |r|) < m
    ensures Tailed(c, r + [x], m)
    ensures Tail(r + [x], |r| + 1) == if x.Counted? then 0 else Tail(r, |r|) + 1
    ensures Open(c, r + [x], |r| + 1) == if x.Counted? then W.Entered(c, x.f) else Open(c, r, |r|)
  {
    var r' := r + [x];
    ShapeBefore(c, r, x, |r|);
    forall k | 0 <= k < |r'| && r'[k].Overtaken? ensures Open(c, r', k) && Tail(r', k) < m {
      ShapeBefore(c, r, x, k);
    }
  }

  // ---------------------------------------------------------------- invariant

  /** The requests of ip that a block has overtaken. */
  function LateOf(s: State, ip: string): set<int> {
    s.late * FlightsOf(s, ip)
  }

  /** After events up to instant `now` that refused r: only late requests of ip
      can find it in a block, and they and the refusals overtaken since the
      block was entered number at most m. */
  ghost predicate Inv(c: R.Config, s: State, r: seq<Refusal>, ip: string, now: int, m: int) {
    && Tailed(c, r, m) && InOrder(r)
    && (forall k :: 0 <= k < |r| ==> When(r[k]) <= now)
    && (R.IsBlocked(s.failures, ip, now) ==> FlightsOf(s, ip) <= s.late && Open(c, r, |r|))
    && |LateOf(s, ip)| + Tail(r, |r|) <= m
  }

  lemma FewerLate(s: State, s': State, ip: string)
    requires LateOf(s', ip) <= LateOf(s, ip)
    ensures |LateOf(s', ip)| <= |LateOf(s, ip)|
  {
    Subset(LateOf(s', ip), LateOf(s, ip));
  }

  lemma Subset(a: set<int>, b: set<int>)
    requires a <= b
    ensures |a| <= |b|
  {
    assert b == a + (b - a);
  }

  /** Events that are no refusals of ip overtake none of its requests, */
  lemma NoneOvertaken(c: R.Config, s: State, e: Event, ip: string)
    requires Enabled(s, e) && !Refuses(s, e, ip) && s.late <= s.flights.Keys
    ensures LateOf(Next(c, s, e), ip) <= LateOf(s, ip)
  {
  }

  /** put it into no block, and let none of them in while it is in one. */
  lemma NoneLetIn(c: R.Config, s: State, e: Event, ip: string)
    requires Enabled(s, e) && !Refuses(s, e, ip)
    requires R.IsBlocked(Next(c, s, e).failures, ip, e.now)
    ensures R.IsBlocked(s.failures, ip, e.now)
    ensures FlightsOf(s, ip) <= s.late ==> FlightsOf(Next(c, s, e), ip) <= Next(c, s, e).late
  {
  }

  lemma OtherEvent(c: R.Config, s: State, e: Event, r: seq<Refusal>, ip: string, now: int, m: int)
    requires Enabled(s, e) && now <= e.now && !Refuses(s, e, ip)
    requires Inv(c, s, r, ip, now, m) && s.late <= s.flights.Keys
    ensures Inv(c, Next(c, s, e), r, ip, e.now, m)
  {
    NoneOvertaken(c, s, e, ip);
    FewerLate(s, Next(c, s, e), ip);
    if R.IsBlocked(Next(c, s, e).failures, ip, e.now) {
      NoneLetIn(c, s, e, ip);
    }
  }

  /** A refusal that the limiter does not count. */
  lemma OvertakenEvent(c: R.Config, s: State, e: Event, r: seq<Refusal>, ip: string, now: int, m: int)
    requires Enabled(s, e) && now <= e.now && Refuses(s, e, ip) && R.IsBlocked(s.failures, ip, e.now)
    requires Inv(c, s, r, ip, now, m)
    ensures Inv(c, Next(c, s, e), r + [RefusalOf(c, s.failures, ip, e.now)], ip, e.now, m)
  {
    var s' := Next(c, s, e);
    assert R.IsBlocked(s.failures, ip, now);
    assert e.req in LateOf(s, ip);
    assert LateOf(s', ip) == LateOf(s, ip) - {e.req};
    TailedStep(c, r, Overtaken(e.now), m);
    assert FlightsOf(s', ip) == FlightsOf(s, ip) - {e.req};
  }

  /** A refusal that it counts. */
  lemma CountedEvent(c: R.Config, s: State, e: Event, r: seq<Refusal>, ip: string, now: int, m: int)
    requires Enabled(s, e) && now <= e.now && Refuses(s, e, ip) && !R.IsBlocked(s.failures, ip, e.now)
    requires Inv(c, s, r, ip, now, m) && |FlightsOf(s, ip)| <= m + 1
    ensures Inv(c, Next(c, s, e), r + [RefusalOf(c, s.failures, ip, e.now)], ip, e.now, m)
  {
    var s' := Next(c, s, e);
    TailedStep(c, r, RefusalOf(c, s.failures, ip, e.now), m);
    assert FlightsOf(s', ip) == FlightsOf(s, ip) - {e.req};
    if R.EntersBlock(c, s.failures, ip, e.now) {
      assert LateOf(s', ip) == FlightsOf(s', ip);
    } else {
      assert LateOf(s', ip) <= LateOf(s, ip);
      FewerLate(s, s', ip);
    }
  }

  /** At most m + 1 requests of ip are in flight at a time. */
  ghost predicate FewInFlight(states: seq<State>, ip: string, m: int) {
    forall k :: 0 <= k < |states| ==> |FlightsOf(states[k], ip)| <= m + 1
  }

  lemma {:induction false} LateFly(c: R.Config, states: seq<State>, events: seq<Event>, n: nat)
    requires IsRun(c, states, events) && n < |states|
    ensures states[n].late <= states[n].flights.Keys
  {
    if n > 0 {
      LateFly(c, states, events, n - 1);
    }
  }

  lemma {:induction false} InvRun(
    c: R.Config, states: seq<State>, events: seq<Event>, n: nat, ip: string, m: nat)
    requires IsRun(c, states, events) && 0 < n <= |events| && FewInFlight(states, ip, m)
    ensures Inv(c, states[n], Refusals(c, states, events, n, ip), ip, events[n - 1].now, m)
  {
    var s, e := states[n - 1], events[n - 1];
    var now := if n == 1 then e.now else events[n - 2].now;
    var r := Refusals(c, states, events, n - 1, ip);
    if n == 1 {
      assert FlightsOf(s, ip) == {};
    } else {
      InvRun(c, states, events, n - 1, ip, m);
    }
    LateFly(c, states, events, n - 1);
    if !Refuses(s, e, ip) {
      OtherEvent(c, s, e, r, ip, now, m);
    } else if R.IsBlocked(s.failures, ip, e.now) {
      OvertakenEvent(c, s, e, r, ip, now, m);
    } else {
      CountedEvent(c, s, e, r, ip, now, m);
    }
  }

  // ------------------------------------------------------------------ counting

  /** How many of the first j refusals were counted. */
  function Rank(r: seq<Refusal>, j: nat): nat
    requires j <= |r|
  {
    |CountedIn(r, j)|
  }

  lemma {:induction false} LogPrefix(r: seq<Refusal>, j: nat, n: nat)
    requires j <= n <= |r|
    ensures CountedIn(r, j) <= CountedIn(r, n)
  {
    if j < n {
      LogPrefix(r, j, n - 1);
    }
  }

  lemma RankBound(r: seq<Refusal>, j: nat, n: nat)
    requires j <= n <= |r|
    ensures Rank(r, j) <= Rank(r, n) <= |CountedLog(r)|
  {
    LogPrefix(r, j, n);
    LogPrefix(r, n, |r|);
  }

  /** A counted refusal has its place in the log. */
  lemma PlaceInLog(r: seq<Refusal>, j: nat)
    requires j < |r| && r[j].Counted?
    ensures Rank(r, j) < |CountedLog(r)| && CountedLog(r)[Rank(r, j)] == r[j].f && Rank(r, j + 1) == Rank(r, j) + 1
  {
    LogPrefix(r, j + 1, |r|);
  }

  /** The entries of the log between two ranks are refusals between them. */
  lemma {:induction false} LogTimes(r: seq<Refusal>, i: nat, j: nat, x: nat)
    requires InOrder(r) && i < j <= |r| && Rank(r, i) <= x < Rank(r, j) <= |CountedLog(r)|
    ensures When(r[i]) <= CountedLog(r)[x].at <= When(r[j - 1])
    decreases j
  {
    if r[j - 1].Counted? && x == Rank(r, j - 1) {
      PlaceInLog(r, j - 1);
    } else {
      RankBound(r, j - 1, |r|);
      LogTimes(r, i, j - 1, x);
    }
  }

  /** How many more refusals the last block can overtake. */
  function Room(c: R.Config, r: seq<Refusal>, n: nat, m: int): int
    requires n <= |r|
  {
    if Open(c, r, n) then m - Tail(r, n) else 0
  }

  lemma {:induction false} RoomIsNatural(c: R.Config, r: seq<Refusal>, n: nat, m: int)
    requires Tailed(c, r, m) && n <= |r| && m >= 0
    ensures Room(c, r, n, m) >= 0
  {
  }

  /** How many of the refusals i to before j were overtaken, */
  function OvertakenIn(r: seq<Refusal>, i: nat, j: nat): int
    requires i <= j <= |r|
  {
    j - i - (Rank(r, j) - Rank(r, i))
  }

  /** and how many entered a block. */
  function BlocksIn(c: R.Config, r: seq<Refusal>, i: nat, j: nat): nat
    requires i <= j <= |r|
  {
    RankBound(r, i, j);
    W.Blocks(c, CountedLog(r), Rank(r, i), Rank(r, j))
  }

  lemma InStep(c: R.Config, r: seq<Refusal>, i: nat, j: nat)
    requires i <= j < |r|
    ensures OvertakenIn(r, i, j + 1) == OvertakenIn(r, i, j) + if r[j].Overtaken? then 1 else 0
    ensures BlocksIn(c, r, i, j + 1) == BlocksIn(c, r, i, j) + if r[j].Counted? && W.Entered(c, r[j].f) then 1 else 0
  {
    RankBound(r, i, j);
    if r[j].Counted? {
      PlaceInLog(r, j);
    }
  }

  /** The refusals i to before j that were overtaken, and those that still can be,
      number at most m for each block entered among them, and m for the one
      before. */
  lemma {:induction false} OvertakenPerBlock(c: R.Config, r: seq<Refusal>, i: nat, j: nat, m: nat)
    requires Tailed(c, r, m) && i <= j <= |r|
    ensures OvertakenIn(r, i, j) + Room(c, r, j, m) <= BlocksIn(c, r, i, j) * m + m
  {
    if i < j {
      OvertakenPerBlock(c, r, i, j - 1, m);
      InStep(c, r, i, j - 1);
      RoomIsNatural(c, r, j - 1, m);
      W.OneMore(BlocksIn(c, r, i, j - 1), m);
    }
  }

  // --------------------------------------------------------------- the theorem

  lemma {:induction false} TraceMonotone(c: R.Config, states: seq<State>, events: seq<Event>, n: nat)
    requires IsRun(c, states, events) && n <= |events|
    ensures n == 0 ==> Trace(states, events, n) == []
    ensures n > 0 ==> R.Monotone(Trace(states, events, n), events[0].now)
    ensures n > 0 ==> forall k :: 0 <= k < |Trace(states, events, n)| ==>
              Trace(states, events, n)[k].now <= events[n - 1].now
  {
    if n > 0 {
      TraceMonotone(c, states, events, n - 1);
      assert n > 1 ==> events[0].now <= events[n - 2].now <= events[n - 1].now;
    }
  }

  /** The counted refusals are a log of the limiter. */
  lemma LogIsWell(c: R.Config, states: seq<State>, events: seq<Event>, n: nat, ip: string)
    requires R.Usable(c) && IsRun(c, states, events) && n <= |events|
    ensures W.WellLogged(c, CountedLog(Refusals(c, states, events, n, ip)))
  {
    TraceMonotone(c, states, events, n);
    RefusalsAreCounted(c, states, events, n, ip);
    W.InvRun(c, Trace(states, events, n), ip, if n == 0 then 0 else events[0].now);
  }

  /** The counted refusals of a stretch span no more than the stretch. */
  lemma LogStretch(r: seq<Refusal>, i: nat, j: nat)
    requires InOrder(r) && i <= j < |r|
    ensures Rank(r, i) <= Rank(r, j + 1) <= |CountedLog(r)|
    ensures Rank(r, i) < Rank(r, j + 1) ==>
              CountedLog(r)[Rank(r, j + 1) - 1].at - CountedLog(r)[Rank(r, i)].at <= When(r[j]) - When(r[i])
  {
    RankBound(r, i, j + 1);
    if Rank(r, i) < Rank(r, j + 1) {
      LogTimes(r, i, j + 1, Rank(r, i));
      LogTimes(r, i, j + 1, Rank(r, j + 1) - 1);
    }
  }

  /** The most refusals of one address in one window, if at most m + 1 of its
      requests are in flight at a time. */
  function RefusedAtMost(c: R.Config, m: nat): int
    requires R.Usable(c)
  {
    W.CountedAtMost(c) + (c.window / c.block + 2) * m
  }

  /** Over every run, any stretch of at most one window sees at most so many
      tickets of one address judged and refused: however many are submitted, the
      others are turned away without looking at the tickets. When requests are
      handled one at a time (m = 0), that is as many as the limiter counts. */
  lemma RefusalsBounded(c: R.Config, states: seq<State>, events: seq<Event>, ip: string, m: nat, i: nat, j: nat)
    requires R.Usable(c) && IsRun(c, states, events) && FewInFlight(states, ip, m)
    requires i <= j < |Refusals(c, states, events, |events|, ip)|
    requires var r := Refusals(c, states, events, |events|, ip);
             When(r[j]) - When(r[i]) <= c.window
    ensures j - i + 1 <= RefusedAtMost(c, m)
  {
    var r := Refusals(c, states, events, |events|, ip);
    InvRun(c, states, events, |events|, ip, m);
    LogIsWell(c, states, events, |events|, ip);
    StretchCounts(c, r, i, j);
    StretchOvertaken(c, r, i, j, m);
    Total(Rank(r, j + 1) - Rank(r, i), OvertakenIn(r, i, j + 1), BlocksIn(c, r, i, j + 1), c, m);
  }

  lemma Total(counted: int, overtaken: int, blocks: int, c: R.Config, m: nat)
    requires R.Usable(c) && counted <= W.CountedAtMost(c)
    requires overtaken <= blocks * m + m && blocks <= c.window / c.block + 1
    ensures counted + overtaken <= RefusedAtMost(c, m)
  {
    PerBlock(blocks, c.window / c.block + 1, m);
  }

  lemma StretchCounts(c: R.Config, r: seq<Refusal>, i: nat, j: nat)
    requires R.Usable(c) && InOrder(r) && W.WellLogged(c, CountedLog(r))
    requires i <= j < |r| && When(r[j]) - When(r[i]) <= c.window
    ensures Rank(r, j + 1) - Rank(r, i) <= W.CountedAtMost(c)
    ensures BlocksIn(c, r, i, j + 1) <= c.window / c.block + 1
  {
    LogStretch(r, i, j);
    W.CountedBetween(c, CountedLog(r), Rank(r, i), Rank(r, j + 1));
  }

  lemma StretchOvertaken(c: R.Config, r: seq<Refusal>, i: nat, j: nat, m: nat)
    requires Tailed(c, r, m) && i <= j < |r|
    ensures OvertakenIn(r, i, j + 1) <= BlocksIn(c, r, i, j + 1) * m + m
  {
    OvertakenPerBlock(c, r, i, j + 1, m);
    RoomIsNatural(c, r, j + 1, m);
  }

  lemma PerBlock(n: int, blocks: int, m: nat)
    requires n <= blocks
    ensures n * m + m <= (blocks + 1) * m
  {
    if m > 0 {
      W.ProductMonotone(n, blocks, m);
    }
    W.OneMore(blocks, m);
  }

  // ------------------------------------------------------------ overlapping runs

  /** n requests of one address without a ticket: all ask, all are judged, all
      record their failure, at the same instant. */
  function OverlapEvent(ip: string, n: nat, k: nat): Event {
    if k < n then Ask(k, ip, "", 0) else if k < 2 * n then Judge(k - n, 0) else Fail(k - 2 * n, 0)
  }

  /** Request i is in flight after k of these events, */
  predicate Flying(n: nat, k: nat, i: int) {
    if k <= n then 0 <= i < k else 0 <= i < n && k - 2 * n <= i
  }

  /** and has come so far. */
  function FlightAt(ip: string, n: nat, k: nat, i: int): Flight {
    if n + i < k then Refused(ip) else Asked(ip, "")
  }

  ghost predicate OverlapAt(s: State, ip: string, n: nat, k: nat) {
    && (forall i :: i in s.flights <==> Flying(n, k, i))
    && (forall i :: i in s.flights ==> s.flights[i] == FlightAt(ip, n, k, i))
    && (k <= 2 * n ==> s.failures == map[])
  }

  lemma OverlapStep(c: R.Config, s: State, ip: string, n: nat, k: nat)
    requires k < 3 * n && OverlapAt(s, ip, n, k)
    ensures Enabled(s, OverlapEvent(ip, n, k))
    ensures OverlapAt(Next(c, s, OverlapEvent(ip, n, k)), ip, n, k + 1)
  {
  }

  lemma RunThen(c: R.Config, states: seq<State>, events: seq<Event>, e: Event)
    requires IsRun(c, states, events) && Enabled(states[|events|], e)
    requires forall i :: 0 <= i < |events| ==> events[i].now <= e.now
    ensures IsRun(c, states + [Next(c, states[|events|], e)], events + [e])
  {
  }

  /** These are the first events of the overlapping run, and its states. */
  ghost predicate Overlaps(states: seq<State>, events: seq<Event>, ip: string, n: nat) {
    && |states| == |events| + 1
    && (forall i :: 0 <= i < |events| ==> events[i] == OverlapEvent(ip, n, i))
    && (forall i :: 0 <= i <= |events| ==> OverlapAt(states[i], ip, n, i))
  }

  lemma OverlapsThen(states: seq<State>, events: seq<Event>, ip: string, n: nat, s: State)
    requires Overlaps(states, events, ip, n) && OverlapAt(s, ip, n, |events| + 1)
    ensures Overlaps(states + [s], events + [OverlapEvent(ip, n, |events|)], ip, n)
  {
  }

  lemma {:induction false} OverlapRun(c: R.Config, ip: string, n: nat, k: nat)
    returns (states: seq<State>, events: seq<Event>)
    requires k <= 3 * n
    ensures |events| == k && IsRun(c, states, events) && Overlaps(states, events, ip, n)
  {
    if k == 0 {
      states, events := [EMPTY], [];
    } else {
      states, events := OverlapRun(c, ip, n, k - 1);
      var s, e := states[k - 1], OverlapEvent(ip, n, k - 1);
      OverlapStep(c, s, ip, n, k - 1);
      RunThen(c, states, events, e);
      OverlapsThen(states, events, ip, n, Next(c, s, e));
      states, events := states + [Next(c, s, e)], events + [e];
    }
  }

  lemma {:induction false} OverlapRefusals(
    c: R.Config, states: seq<State>, events: seq<Event>, ip: string, n: nat, k: nat)
    requires Overlaps(states, events, ip, n) && k <= |events| <= 3 * n
    ensures var r := Refusals(c, states, events, k, ip);
            |r| == Max(0, k - 2 * n) && forall i :: 0 <= i < |r| ==> When(r[i]) == 0
  {
    if k > 0 {
      OverlapRefusals(c, states, events, ip, n, k - 1);
      assert OverlapAt(states[k - 1], ip, n, k - 1) && events[k - 1] == OverlapEvent(ip, n, k - 1);
    }
  }

  /** No bound holds without one on the requests in flight: for every
      configuration and every n there is a run in which n tickets of one address
      are judged and refused at one instant. */
  lemma OverlapUnbounded(c: R.Config, ip: string, n: nat) returns (states: seq<State>, events: seq<Event>)
    ensures IsRun(c, states, events)
    ensures var r := Refusals(c, states, events, |events|, ip);
            |r| == n && forall i :: 0 <= i < n ==> When(r[i]) == 0
  {
    states, events := OverlapRun(c, ip, n, 3 * n);
    OverlapRefusals(c, states, events, ip, n, 3 * n);
  }
}
