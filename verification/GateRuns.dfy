/** What the gate guarantees over whole runs. handleWS asks the limiter, judges
    the ticket and records the failure in three separate calls, and the server
    handles requests concurrently; so a run interleaves the calls of any number
    of requests, with tickets issued and pruned and the limiter pruned. */
module GateRuns {
  import opened WsGate
  import T = Tickets
  import R = RateLimiter
  import W = LimiterWindow

  /** Each event is one call that holds its lock throughout. */
  datatype Event =
    | Ask(req: int, ip: string, value: string, now: int)     // Blocked
    | Judge(req: int, now: int)                              // Validate, if there is a ticket
    | Fail(req: int, now: int)                               // RecordFailure
    | Issue(value: string, nodeId: string, expires: int, now: int)
    | PruneTickets(now: int)
    | PruneLimiter(now: int)

  /** A request between its first call and its last. */
  datatype Flight = Asked(ip: string, value: string) | Refused(ip: string)

  /** `late` are the requests in flight that asked before the latest block of
      their address was entered; no event depends on it. */
  datatype State = State(tickets: T.Table, failures: R.Table, flights: map<int, Flight>, late: set<int>)

  const EMPTY: State := State(map[], map[], map[], {})

  predicate Enabled(s: State, e: Event) {
    match e
    case Ask(req, _, _, _) => req !in s.flights
    case Judge(req, _) => req in s.flights && s.flights[req].Asked?
    case Fail(req, _) => req in s.flights && s.flights[req].Refused?
    case _ => true
  }

  /** The requests of one address in flight. */
  function FlightsOf(s: State, ip: string): set<int> {
    set req | req in s.flights && s.flights[req].ip == ip
  }

  function Next(c: R.Config, s: State, e: Event): State
    requires Enabled(s, e)
  {
    match e
    case Ask(req, ip, value, now) =>
      if R.IsBlocked(s.failures, ip, now) then s else s.(flights := s.flights[req := Asked(ip, value)])
    case Judge(req, now) =>
      var f := s.flights[req];
      var judged := s.(tickets := if f.value == "" then s.tickets else s.tickets - {f.value});
      if Ruling(s.tickets, f.value, now).Upgrade?
      then judged.(flights := s.flights - {req}, late := s.late - {req})
      else judged.(flights := s.flights[req := Refused(f.ip)])
    case Fail(req, now) =>
      var ip := s.flights[req].ip;
      s.(failures := R.AfterFailure(c, s.failures, ip, now),
         flights := s.flights - {req},
         late := (if R.EntersBlock(c, s.failures, ip, now) then s.late + FlightsOf(s, ip) else s.late) - {req})
    case Issue(value, nodeId, expires, _) => s.(tickets := s.tickets[value := T.Entry(nodeId, expires)])
    case PruneTickets(now) => s.(tickets := T.Unexpired(s.tickets, now))
    case PruneLimiter(now) => s.(failures := R.Kept(c, s.failures, now))
  }

  /** A run, under a clock that does not run backwards. */
  ghost predicate IsRun(c: R.Config, states: seq<State>, events: seq<Event>) {
    && |states| == |events| + 1
    && states[0] == EMPTY
    && (forall i :: 0 <= i < |events| ==>
          Enabled(states[i], events[i]) && states[i + 1] == Next(c, states[i], events[i]))
    && (forall i, j :: 0 <= i < j < |events| ==> events[i].now <= events[j].now)
  }

  /** Handled without interruption, a request is what HandleWs makes of it. */
  lemma ServedInThreeCalls(c: R.Config, s: State, req: int, ip: string, value: string, at: Times)
    requires req !in s.flights && req !in s.late
    ensures var asked := Next(c, s, Ask(req, ip, value, at.asked));
            var (d, tickets, failures) := Served(c, s.tickets, s.failures, ip, value, at);
            if R.IsBlocked(s.failures, ip, at.asked) then asked == s && tickets == s.tickets && failures == s.failures
            else
              && Enabled(asked, Judge(req, at.judged))
              && var judged := Next(c, asked, Judge(req, at.judged));
                 if d.Upgrade? then judged == s.(tickets := tickets) && failures == s.failures
                 else
                   && Enabled(judged, Fail(req, at.failed))
                   && var failed := Next(c, judged, Fail(req, at.failed));
                      failed == s.(tickets := tickets, failures := failures, late := failed.late)
  {
    var asked := Next(c, s, Ask(req, ip, value, at.asked));
    if !R.IsBlocked(s.failures, ip, at.asked) {
      assert asked.flights - {req} == s.flights;
      assert asked.flights[req := Refused(ip)] - {req} == s.flights;
    }
  }

  // ------------------------------------------------------------------ refusals

  /** A refused ticket: the limiter counted it, or its address was already in a
      block. */
  datatype Refusal = Counted(f: W.Failure) | Overtaken(now: int)

  function When(r: Refusal): int {
    match r
    case Counted(f) => f.at
    case Overtaken(now) => now
  }

  function RefusalOf(c: R.Config, t: R.Table, ip: string, now: int): Refusal {
    if R.IsBlocked(t, ip, now) then Overtaken(now)
    else
      var st := R.Recorded(c, R.EntryAt(t, ip, now), now);
      Counted(W.Failure(now, st.windowStart, st.count))
  }

  predicate Refuses(s: State, e: Event, ip: string) {
    e.Fail? && e.req in s.flights && s.flights[e.req].ip == ip
  }

  /** The refused tickets of one address in the first n events. */
  function Refusals(c: R.Config, states: seq<State>, events: seq<Event>, n: nat, ip: string): seq<Refusal>
    requires n <= |events| < |states|
  {
    if n == 0 then []
    else
      var before := Refusals(c, states, events, n - 1, ip);
      if Refuses(states[n - 1], events[n - 1], ip)
      then before + [RefusalOf(c, states[n - 1].failures, ip, events[n - 1].now)] else before
  }

  /** The counted ones among the first n. */
  function CountedIn(r: seq<Refusal>, n: nat): seq<W.Failure>
    requires n <= |r|
  {
    if n == 0 then [] else CountedIn(r, n - 1) + if r[n - 1].Counted? then [r[n - 1].f] else []
  }

  function CountedLog(r: seq<Refusal>): seq<W.Failure> {
    CountedIn(r, |r|)
  }

  lemma {:induction false} CountedBefore(r: seq<Refusal>, x: Refusal, n: nat)
    requires n <= |r|
    ensures CountedIn(r + [x], n) == CountedIn(r, n)
  {
    if n > 0 {
      CountedBefore(r, x, n - 1);
    }
  }

  /** What the limiter sees of the events. */
  function Trace(states: seq<State>, events: seq<Event>, n: nat): seq<R.Event>
    requires n <= |events| < |states|
  {
    if n == 0 then []
    else
      var before := Trace(states, events, n - 1);
      match events[n - 1]
      case Fail(req, now) =>
        if req in states[n - 1].flights then before + [R.Fail(states[n - 1].flights[req].ip, now)] else before
      case PruneLimiter(now) => before + [R.Prune(now)]
      case _ => before
  }

  /** The limiter has this table, and has counted exactly these failures of ip. */
  ghost predicate Counts(c: R.Config, trace: seq<R.Event>, t: R.Table, ip: string, log: seq<W.Failure>) {
    W.Run(c, trace).0 == t && W.LogOf(W.Run(c, trace).1, ip) == log
  }

  lemma CountsFail(c: R.Config, trace: seq<R.Event>, t: R.Table, ip: string, r: seq<Refusal>, who: string, now: int)
    requires Counts(c, trace, t, ip, CountedLog(r))
    ensures Counts(c, trace + [R.Fail(who, now)], R.AfterFailure(c, t, who, now), ip,
                   CountedLog(if who == ip then r + [RefusalOf(c, t, ip, now)] else r))
  {
    W.RunSnoc(c, trace, R.Fail(who, now));
    CountedBefore(r, RefusalOf(c, t, ip, now), |r|);
  }

  lemma CountsPrune(c: R.Config, trace: seq<R.Event>, t: R.Table, ip: string, log: seq<W.Failure>, now: int)
    requires Counts(c, trace, t, ip, log)
    ensures Counts(c, trace + [R.Prune(now)], R.Kept(c, t, now), ip, log)
  {
    W.RunSnoc(c, trace, R.Prune(now));
  }

  /** The limiter counts exactly the refusals that find no block. */
  lemma {:induction false} RefusalsAreCounted(c: R.Config, states: seq<State>, events: seq<Event>, n: nat, ip: string)
    requires IsRun(c, states, events) && n <= |events|
    ensures Counts(c, Trace(states, events, n), states[n].failures, ip,
                   CountedLog(Refusals(c, states, events, n, ip)))
  {
    if n > 0 {
      RefusalsAreCounted(c, states, events, n - 1, ip);
      var s, e, trace := states[n - 1], events[n - 1], Trace(states, events, n - 1);
      var r := Refusals(c, states, events, n - 1, ip);
      if e.Fail? {
        CountsFail(c, trace, s.failures, ip, r, s.flights[e.req].ip, e.now);
      } else if e.PruneLimiter? {
        CountsPrune(c, trace, s.failures, ip, CountedLog(r), e.now);
      }
    }
  }

  // ------------------------------------------------------- overtaken refusals

  /** This event puts the address into a block. */
  predicate Enters(c: R.Config, s: State, e: Event, ip: string) {
    Refuses(s, e, ip) && R.EntersBlock(c, s.failures, ip, e.now)
  }

  lemma {:induction false} AskedBefore(c: R.Config, states: seq<State>, events: seq<Event>, n: nat, req: int)
    returns (a: nat)
    requires IsRun(c, states, events) && n < |states| && req in states[n].flights
    ensures a < n && events[a].Ask? && events[a].req == req && events[a].ip == states[n].flights[req].ip
    ensures !R.IsBlocked(states[a].failures, events[a].ip, events[a].now)
  {
    if req in states[n - 1].flights {
      a := AskedBefore(c, states, events, n - 1, req);
    } else {
      a := n - 1;
    }
  }

  /** Whoever was not blocked at event a, and is later, has been put into that
      block in between. */
  lemma {:induction false} EnteredSince(
    c: R.Config, states: seq<State>, events: seq<Event>, a: nat, n: nat, ip: string, now: int)
    returns (m: nat)
    requires IsRun(c, states, events) && a < n <= |events| && events[n - 1].now <= now
    requires events[a].Ask? && !R.IsBlocked(states[a].failures, ip, events[a].now)
    requires R.IsBlocked(states[n].failures, ip, now)
    ensures a < m < n && Enters(c, states[m], events[m], ip) && now < events[m].now + c.block
    decreases n
  {
    var s, e := states[n - 1], events[n - 1];
    if Enters(c, s, e, ip) {
      m := n - 1;
    } else {
      m := EnteredSince(c, states, events, a, n - 1, ip, now);
    }
  }

  /** A refusal that the limiter does not count falls into a block that was
      entered after its request had asked. */
  lemma UncountedIsOvertaken(c: R.Config, states: seq<State>, events: seq<Event>, n: nat)
    returns (a: nat, m: nat)
    requires IsRun(c, states, events) && n < |events| && events[n].Fail?
    requires R.IsBlocked(states[n].failures, states[n].flights[events[n].req].ip, events[n].now)
    ensures a < m < n && events[a].Ask? && events[a].req == events[n].req
    ensures events[a].ip == states[n].flights[events[n].req].ip
    ensures Enters(c, states[m], events[m], events[a].ip) && events[n].now < events[m].now + c.block
  {
    a := AskedBefore(c, states, events, n, events[n].req);
    m := EnteredSince(c, states, events, a, n, events[a].ip, events[n].now);
  }
}
