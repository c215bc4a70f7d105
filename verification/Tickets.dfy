/** The single-use WebSocket ticket store (internal/ticket/store.go). */
module Tickets {
  import opened Clock

  const DEFAULT_TTL: int := 60 * SECOND

  datatype Entry = Entry(nodeId: string, expiresAt: int)
  type Table = map<string, Entry>

  datatype Ticket = Ticket(value: string, nodeId: string, issuedAt: int, expiresAt: int)
  datatype IssueResult = Issued(ticket: Ticket) | NodeRequired | NoRandomness
  datatype Verdict = Valid(nodeId: string) | UnknownTicket | ExpiredTicket

  function Judge(t: Table, value: string, now: int): Verdict {
    if value !in t then UnknownTicket
    else if now > t[value].expiresAt then ExpiredTicket
    else Valid(t[value].nodeId)
  }

  function Unexpired(t: Table, now: int): Table {
    map v | v in t && now <= t[v].expiresAt :: t[v]
  }

  class Store {
    const ttl: int
    var tickets: Table

    constructor (ttl: int)
      ensures tickets == map[]
      ensures this.ttl == if ttl <= 0 then DEFAULT_TTL else ttl
    {
      this.ttl := if ttl <= 0 then DEFAULT_TTL else ttl;
      tickets := map[];
    }

    /** `random` is the fresh value, or None when the random source fails. */
    method Issue(nodeId: string, random: Option<string>, now: int) returns (r: IssueResult)
      modifies this
      ensures nodeId == "" <==> r.NodeRequired?
      ensures r.NoRandomness? <==> nodeId != "" && random.None?
      ensures r.Issued? ==> r.ticket == Ticket(random.value, nodeId, now, now + ttl)
      ensures tickets == if r.Issued? then old(tickets)[random.value := Entry(nodeId, now + ttl)] else old(tickets)
    {
      if nodeId == "" {
        return NodeRequired;
      }
      if random.None? {
        return NoRandomness;
      }
      var expires := now + ttl;
      tickets := tickets[random.value := Entry(nodeId, expires)];
      return Issued(Ticket(random.value, nodeId, now, expires));
    }

    method Validate(value: string, now: int) returns (v: Verdict)
      modifies this
      ensures v == Judge(old(tickets), value, now)
      ensures v.UnknownTicket? <==> value !in old(tickets)
      ensures v.ExpiredTicket? <==> value in old(tickets) && now > old(tickets)[value].expiresAt
      ensures v.Valid? ==> v.nodeId == old(tickets)[value].nodeId
      ensures tickets == old(tickets) - {value}
    {
      if value !in tickets {
        return UnknownTicket;
      }
      var e := tickets[value];
      tickets := tickets - {value};
      if now > e.expiresAt {
        return ExpiredTicket;
      }
      return Valid(e.nodeId);
    }

    method Prune(now: int) returns (n: nat)
      modifies this
      ensures tickets == Unexpired(old(tickets), now)
      ensures forall v :: v in tickets <==> v in old(tickets) && now <= old(tickets)[v].expiresAt
      ensures |tickets| + n == |old(tickets)|
    {
      n := 0;
      var todo := tickets.Keys;
      while todo != {}
        invariant todo <= tickets.Keys <= old(tickets).Keys
        invariant forall v :: v in tickets ==> tickets[v] == old(tickets)[v]
        invariant forall v :: v in tickets && v !in todo ==> now <= tickets[v].expiresAt
        invariant forall v :: v in old(tickets) && now <= old(tickets)[v].expiresAt ==> v in tickets
        invariant |tickets| + n == |old(tickets)|
        decreases |todo|
      {
        var v :| v in todo;
        todo := todo - {v};
        if now > tickets[v].expiresAt {
          ghost var before := tickets;
          tickets := tickets - {v};
          assert tickets.Keys == before.Keys - {v};
          n := n + 1;
        }
      }
    }
  }

  // -------------------------------------------------------------- whole runs

  datatype Event =
    | Issue(value: string, nodeId: string, now: int)
    | Validate(value: string, now: int)
    | Prune(now: int)

  /** The store, and what has become of every ticket ever issued. */
  datatype State = State(
    tickets: Table,
    issued: Table,
    used: set<string>,
    expired: set<string>,
    pruned: set<string>)

  const INIT: State := State(map[], map[], {}, {}, {})

  /** Ticket values are fresh: 256 random bits never repeat. */
  predicate Enabled(s: State, e: Event) {
    e.Issue? ==> e.value !in s.issued && e.nodeId != ""
  }

  function Next(ttl: int, s: State, e: Event): State {
    match e
    case Issue(value, nodeId, now) =>
      var entry := Entry(nodeId, now + ttl);
      s.(tickets := s.tickets[value := entry], issued := s.issued[value := entry])
    case Validate(value, now) =>
      s.(tickets := s.tickets - {value},
         used := if Judge(s.tickets, value, now).Valid? then s.used + {value} else s.used,
         expired := if Judge(s.tickets, value, now).ExpiredTicket? then s.expired + {value} else s.expired)
    case Prune(now) =>
      s.(tickets := Unexpired(s.tickets, now),
         pruned := s.pruned + (s.tickets.Keys - Unexpired(s.tickets, now).Keys))
  }

  ghost predicate IsRun(ttl: int, states: seq<State>, events: seq<Event>) {
    && |states| == |events| + 1
    && states[0] == INIT
    && (forall i :: 0 <= i < |events| ==>
          Enabled(states[i], events[i]) && states[i + 1] == Next(ttl, states[i], events[i]))
  }

  /** Every issued ticket is in exactly one place. */
  ghost predicate Partition(s: State) {
    && (forall v :: v in s.tickets ==> v in s.issued && s.tickets[v] == s.issued[v])
    && s.issued.Keys == s.tickets.Keys + s.used + s.expired + s.pruned
    && s.tickets.Keys !! s.used && s.tickets.Keys !! s.expired && s.tickets.Keys !! s.pruned
    && s.used !! s.expired && s.used !! s.pruned && s.expired !! s.pruned
  }

  lemma PartitionStep(ttl: int, s: State, e: Event)
    requires Enabled(s, e) && Partition(s)
    ensures Partition(Next(ttl, s, e))
  {
  }

  lemma {:induction false} PartitionRun(ttl: int, states: seq<State>, events: seq<Event>, n: nat)
    requires IsRun(ttl, states, events) && n < |states|
    ensures Partition(states[n])
  {
    if n > 0 {
      PartitionRun(ttl, states, events, n - 1);
      PartitionStep(ttl, states[n - 1], events[n - 1]);
    }
  }

  /** issued = live + used + consumed when expired + pruned. */
  lemma TicketsAccounted(ttl: int, states: seq<State>, events: seq<Event>, n: nat)
    requires IsRun(ttl, states, events) && n < |states|
    ensures var s := states[n];
            |s.issued| == |s.tickets| + |s.used| + |s.expired| + |s.pruned|
  {
    PartitionRun(ttl, states, events, n);
    var s := states[n];
    assert |s.issued| == |s.issued.Keys| && |s.tickets| == |s.tickets.Keys|;
    assert (s.tickets.Keys + s.used) !! s.expired;
    assert (s.tickets.Keys + s.used + s.expired) !! s.pruned;
  }

  /** What event i answered. */
  function VerdictAt(states: seq<State>, events: seq<Event>, i: nat): Verdict
    requires i < |events| && i < |states|
    requires events[i].Validate?
  {
    Judge(states[i].tickets, events[i].value, events[i].now)
  }

  lemma {:induction false} UsedStays(ttl: int, states: seq<State>, events: seq<Event>, i: nat, j: nat)
    requires IsRun(ttl, states, events) && i <= j < |states|
    ensures states[i].used <= states[j].used
  {
    if i < j {
      UsedStays(ttl, states, events, i, j - 1);
    }
  }

  /** Single use: over a whole run no ticket validates twice. */
  lemma SingleUse(ttl: int, states: seq<State>, events: seq<Event>, i: nat, j: nat)
    requires IsRun(ttl, states, events)
    requires i < j < |events|
    requires events[i].Validate? && events[j].Validate? && events[i].value == events[j].value
    requires VerdictAt(states, events, i).Valid?
    ensures VerdictAt(states, events, j) == UnknownTicket
  {
    UsedStays(ttl, states, events, i + 1, j);
    PartitionRun(ttl, states, events, j);
  }

  /** A ticket that validates was issued earlier, is not past its lifetime, and
      yields the node it was issued to. */
  lemma ValidMeansIssued(ttl: int, states: seq<State>, events: seq<Event>, j: nat) returns (i: nat)
    requires IsRun(ttl, states, events)
    requires j < |events| && events[j].Validate? && VerdictAt(states, events, j).Valid?
    ensures i < j && events[i].Issue? && events[i].value == events[j].value
    ensures VerdictAt(states, events, j) == Valid(events[i].nodeId)
    ensures events[j].now <= events[i].now + ttl
  {
    PartitionRun(ttl, states, events, j);
    i := IssuedBy(ttl, states, events, j, events[j].value);
  }

  lemma {:induction false} IssuedBy(ttl: int, states: seq<State>, events: seq<Event>, n: nat, value: string)
    returns (i: nat)
    requires IsRun(ttl, states, events) && n < |states|
    requires value in states[n].issued
    ensures i < n && events[i].Issue? && events[i].value == value
    ensures states[n].issued[value] == Entry(events[i].nodeId, events[i].now + ttl)
  {
    if n > 0 && value in states[n - 1].issued {
      i := IssuedBy(ttl, states, events, n - 1, value);
    } else {
      i := n - 1;
    }
  }

  // -------------------------------------------------- which verdict, exactly

  /** The ticket that event i issued is still there before event n: nobody has
      presented it, and no prune found it expired. */
  predicate Lives(ttl: int, events: seq<Event>, i: nat, n: nat, value: string)
    requires n <= |events|
  {
    && i < n && events[i].Issue? && events[i].value == value
    && (forall k :: i < k < n ==>
          && !(events[k].Validate? && events[k].value == value)
          && !(events[k].Prune? && events[k].now > events[i].now + ttl))
  }

  lemma {:induction false} LivesInTable(
    ttl: int, states: seq<State>, events: seq<Event>, i: nat, n: nat, value: string)
    requires IsRun(ttl, states, events) && n <= |events| && Lives(ttl, events, i, n, value)
    ensures value in states[n].tickets && states[n].tickets[value] == Entry(events[i].nodeId, events[i].now + ttl)
  {
    if i < n - 1 {
      LivesInTable(ttl, states, events, i, n - 1, value);
      PartitionRun(ttl, states, events, n - 1);
      var e := events[n - 1];
      assert e.Issue? ==> e.value != value;
    }
  }

  lemma {:induction false} TableLives(ttl: int, states: seq<State>, events: seq<Event>, n: nat, value: string)
    returns (i: nat)
    requires IsRun(ttl, states, events) && n <= |events| && value in states[n].tickets
    ensures Lives(ttl, events, i, n, value)
  {
    if events[n - 1].Issue? && events[n - 1].value == value {
      i := n - 1;
    } else {
      i := TableLives(ttl, states, events, n - 1, value);
      LivesInTable(ttl, states, events, i, n - 1, value);
    }
  }

  /** The verdict is valid, expired or unknown exactly as the ticket lives and is
      in its lifetime, lives and is past it, or does not live. */
  lemma VerdictIff(ttl: int, states: seq<State>, events: seq<Event>, j: nat)
    requires IsRun(ttl, states, events) && j < |events| && events[j].Validate?
    ensures VerdictAt(states, events, j).Valid? <==>
              exists i: nat :: Lives(ttl, events, i, j, events[j].value) && events[j].now <= events[i].now + ttl
    ensures VerdictAt(states, events, j).ExpiredTicket? <==>
              exists i: nat :: Lives(ttl, events, i, j, events[j].value) && events[j].now > events[i].now + ttl
  {
    var value := events[j].value;
    forall i: nat | Lives(ttl, events, i, j, value)
      ensures value in states[j].tickets && states[j].tickets[value].expiresAt == events[i].now + ttl
    {
      LivesInTable(ttl, states, events, i, j, value);
    }
    if value in states[j].tickets {
      var i := TableLives(ttl, states, events, j, value);
    }
  }

  lemma {:induction false} IssuedStays(
    ttl: int, states: seq<State>, events: seq<Event>, i: nat, n: nat)
    requires IsRun(ttl, states, events) && i < n <= |events| && events[i].Issue?
    ensures events[i].value in states[n].issued
  {
    if i < n - 1 {
      IssuedStays(ttl, states, events, i, n - 1);
    }
  }

  /** Under a clock that does not run backwards: the ticket that event i issued
      is accepted at event j, for the node it was issued to, if and only if it is
      in its lifetime and was not presented before, whatever prunes run in
      between. */
  lemma ValidIff(ttl: int, states: seq<State>, events: seq<Event>, i: nat, j: nat)
    requires IsRun(ttl, states, events) && i < j < |events|
    requires forall k :: i < k < j ==> events[k].now <= events[j].now
    requires events[i].Issue? && events[j].Validate? && events[i].value == events[j].value
    ensures VerdictAt(states, events, j) == Valid(events[i].nodeId) <==>
              && events[j].now <= events[i].now + ttl
              && forall k :: i < k < j ==> !(events[k].Validate? && events[k].value == events[i].value)
  {
    var value := events[i].value;
    if VerdictAt(states, events, j).Valid? {
      var first := TableLives(ttl, states, events, j, value);
      if first < i {
        IssuedStays(ttl, states, events, first, i);
      } else if i < first {
        IssuedStays(ttl, states, events, i, first);
      }
      LivesInTable(ttl, states, events, i, j, value);
    }
    if Lives(ttl, events, i, j, value) {
      LivesInTable(ttl, states, events, i, j, value);
    }
  }

  // -------------------------------------------------- pruning is invisible

  /** The verdicts of a trace, in order. */
  function Verdicts(ttl: int, t: Table, events: seq<Event>): seq<Verdict>
    decreases |events|
  {
    if events == [] then []
    else
      match events[0]
      case Issue(value, nodeId, now) =>
        Verdicts(ttl, t[value := Entry(nodeId, now + ttl)], events[1..])
      case Validate(value, now) =>
        [Judge(t, value, now)] + Verdicts(ttl, t - {value}, events[1..])
      case Prune(now) => Verdicts(ttl, Unexpired(t, now), events[1..])
  }

  function WithoutPrunes(events: seq<Event>): seq<Event> {
    if events == [] then []
    else (if events[0].Prune? then [] else [events[0]]) + WithoutPrunes(events[1..])
  }

  /** The clock never runs backwards, and starts at `from`. */
  ghost predicate Monotone(events: seq<Event>, from: int) {
    && (forall i :: 0 <= i < |events| ==> from <= events[i].now)
    && (forall i, j :: 0 <= i < j < |events| ==> events[i].now <= events[j].now)
  }

  /** The pruned table lacks only tickets that are expired at `now`. */
  ghost predicate LacksOnlyExpired(pruned: Table, full: Table, now: int) {
    && (forall v :: v in pruned ==> v in full && full[v] == pruned[v])
    && (forall v :: v in full && v !in pruned ==> full[v].expiresAt < now)
  }

  ghost predicate SameUpToExpired(a: seq<Verdict>, b: seq<Verdict>) {
    && |a| == |b|
    && (forall i :: 0 <= i < |a| ==> a[i] == b[i] || (a[i].UnknownTicket? && b[i].ExpiredTicket?))
  }

  /** However often and whenever Prune runs, every verdict is as if it never
      ran, except that "expired" may become "unknown". */
  lemma PruneInvisible(ttl: int, events: seq<Event>, from: int)
    requires Monotone(events, from)
    ensures SameUpToExpired(Verdicts(ttl, map[], events), Verdicts(ttl, map[], WithoutPrunes(events)))
  {
    PruneSimulation(ttl, map[], map[], events, from);
  }

  lemma {:induction false} PruneSimulation(ttl: int, pruned: Table, full: Table, events: seq<Event>, from: int)
    requires Monotone(events, from)
    requires LacksOnlyExpired(pruned, full, from)
    ensures SameUpToExpired(Verdicts(ttl, pruned, events), Verdicts(ttl, full, WithoutPrunes(events)))
    decreases |events|
  {
    if events != [] {
      var e, rest := events[0], events[1..];
      assert Monotone(rest, e.now);
      match e
      case Issue(value, nodeId, now) =>
        var entry := Entry(nodeId, now + ttl);
        PruneSimulation(ttl, pruned[value := entry], full[value := entry], rest, now);
        assert WithoutPrunes(events)[1..] == WithoutPrunes(rest);
      case Validate(value, now) =>
        PruneSimulation(ttl, pruned - {value}, full - {value}, rest, now);
        assert WithoutPrunes(events)[1..] == WithoutPrunes(rest);
      case Prune(now) =>
        PruneSimulation(ttl, Unexpired(pruned, now), full, rest, now);
        assert WithoutPrunes(events) == WithoutPrunes(rest);
    }
  }
}
