/** The decision part of the WebSocket upgrade (internal/controller/ws.go:60-84):
    the limiter guards the ticket store. */
module WsGate {
  import opened Wire
  import T = Tickets
  import R = RateLimiter

  const TOO_MANY_REQUESTS: int := 429

  datatype Decision = Upgrade(nodeId: string) | Reject(status: int, reason: string)

  /** The clock readings of one request: for the block test, for the ticket,
      and for the failure. */
  datatype Times = Times(asked: int, judged: int, failed: int)

  /** What the ticket decides for an address that is not blocked. */
  function Ruling(t: T.Table, value: string, now: int): Decision {
    if value == "" then Reject(UNAUTHORIZED, "unknown")
    else
      match T.Judge(t, value, now)
      case Valid(nodeId) => Upgrade(nodeId)
      case ExpiredTicket => Reject(UNAUTHORIZED, "expired")
      case UnknownTicket => Reject(UNAUTHORIZED, "unknown")
  }

  /** One request at a gate with a limiter: the decision, and the tickets and
      failures it leaves. */
  function Served(
    c: R.Config, t: T.Table, failures: R.Table, ip: string, value: string, at: Times): (Decision, T.Table, R.Table)
  {
    if R.IsBlocked(failures, ip, at.asked) then (Reject(TOO_MANY_REQUESTS, "ratelimit"), t, failures)
    else
      var d := Ruling(t, value, at.judged);
      (d,
       if value == "" then t else t - {value},
       if d.Upgrade? then failures else R.AfterFailure(c, failures, ip, at.failed))
  }

  /** One more for this reason. */
  function Plus(counts: map<string, nat>, reason: string): (r: map<string, nat>)
    ensures reason in r && r[reason] == (if reason in counts then counts[reason] else 0) + 1
    ensures r - {reason} == counts - {reason}
  {
    counts[reason := 1 + if reason in counts then counts[reason] else 0]
  }

  class Gate {
    const tickets: T.Store
    const limiter: R.RateLimiter?
    var used: nat
    var rejected: map<string, nat>

    constructor (tickets: T.Store, limiter: R.RateLimiter?)
      ensures this.tickets == tickets && this.limiter == limiter && used == 0 && rejected == map[]
    {
      this.tickets, this.limiter := tickets, limiter;
      used, rejected := 0, map[];
    }

    ghost predicate Blocks(ip: string, now: int)
      reads this, limiter
    {
      limiter != null && R.IsBlocked(limiter.failures, ip, now)
    }

    method HandleWs(ip: string, value: string, at: Times) returns (d: Decision)
      modifies this, tickets, limiter
      // a blocked address is turned away before its ticket is looked at,
      // otherwise the ticket decides
      ensures d == if old(Blocks(ip, at.asked)) then Reject(TOO_MANY_REQUESTS, "ratelimit")
                   else Ruling(old(tickets.tickets), value, at.judged)
      ensures d.Upgrade? <==>
                && !old(Blocks(ip, at.asked))
                && value != "" && value in old(tickets.tickets)
                && at.judged <= old(tickets.tickets)[value].expiresAt
      ensures d.Upgrade? ==> d.nodeId == old(tickets.tickets)[value].nodeId
      ensures d.Reject? ==>
                (d.status, d.reason) == if old(Blocks(ip, at.asked)) then (429, "ratelimit")
                                        else if value != "" && value in old(tickets.tickets) then (401, "expired")
                                        else (401, "unknown")
      // a ticket that was looked at is gone
      ensures tickets.tickets == if old(Blocks(ip, at.asked)) || value == "" then old(tickets.tickets)
                                 else old(tickets.tickets) - {value}
      // only a refused ticket counts as a failure
      ensures limiter != null ==>
                limiter.failures == if old(Blocks(ip, at.asked)) || d.Upgrade? then old(limiter.failures)
                                    else R.AfterFailure(limiter.cfg, old(limiter.failures), ip, at.failed)
      ensures limiter != null ==>
                (d, tickets.tickets, limiter.failures)
                  == Served(limiter.cfg, old(tickets.tickets), old(limiter.failures), ip, value, at)
      ensures used == old(used) + if d.Upgrade? then 1 else 0
      ensures rejected == if d.Upgrade? then old(rejected) else Plus(old(rejected), d.reason)
    {
      if limiter != null {
        var blocked := limiter.Blocked(ip, at.asked);
        if blocked {
          d := WsReject("ratelimit", TOO_MANY_REQUESTS);
          return;
        }
      }
      if value == "" {
        d := RejectAndCount(ip, "unknown", UNAUTHORIZED, at.failed);
        return;
      }
      var verdict := tickets.Validate(value, at.judged);
      if !verdict.Valid? {
        d := RejectAndCount(ip, if verdict.ExpiredTicket? then "expired" else "unknown", UNAUTHORIZED, at.failed);
        return;
      }
      used := used + 1;
      return Upgrade(verdict.nodeId);
    }

    method WsReject(reason: string, status: int) returns (d: Decision)
      modifies this`rejected
      ensures d == Reject(status, reason) && rejected == Plus(old(rejected), reason)
    {
      rejected := Plus(rejected, reason);
      return Reject(status, reason);
    }

    method RejectAndCount(ip: string, reason: string, status: int, now: int) returns (d: Decision)
      modifies this`rejected, limiter
      ensures d == Reject(status, reason) && rejected == Plus(old(rejected), reason)
      ensures limiter != null ==> limiter.failures == R.AfterFailure(limiter.cfg, old(limiter.failures), ip, now)
    {
      if limiter != null {
        var _ := limiter.RecordFailure(ip, now);
      }
      d := WsReject(reason, status);
    }
  }
}
