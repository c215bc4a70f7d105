/** How old a target list can be that the cache returns. Nothing is assumed of
    versions: list and version are read in two statements, bumps may be lost,
    the registry may change in any way, and echoes may be wrong or never come,
    as when an agent without targets posts nothing. */
module Staleness {
  import opened Clock
  import opened Nodes
  import opened TargetCache

  /** The agent's one outstanding fetch. */
  datatype Call = NoCall | ListRead(targets: Targets) | BothRead(targets: Targets, version: int)

  datatype State = State(reg: Registry, clock: int, cache: Cache, call: Call, returned: Option<Targets>)

  datatype Env = Env(self: string, maxAge: int)

  datatype Step =
    | Tick(to: int)
    | Change(reg: Registry)
    | Echo(version: int)     // a response to a post arrives
    | ReadList               // a Targets call needs a refresh; the controller reads the list
    | ReadVersion            // and then the version
    | Receive                // the fetch succeeds and Targets returns it
    | Lose                   // the fetch fails
    | UseCached              // a Targets call that needs no refresh
    | RestartAgent

  predicate Enabled(env: Env, s: State, step: Step) {
    match step
    case Tick(to) => to >= s.clock
    case Change(_) => true
    case Echo(_) => true
    case ReadList => s.call.NoCall? && NeedsRefresh(s.cache, env.maxAge, s.clock)
    case ReadVersion => s.call.ListRead?
    case Receive => s.call.BothRead?
    case Lose => true
    case UseCached => s.call.NoCall? && !NeedsRefresh(s.cache, env.maxAge, s.clock)
    case RestartAgent => true
  }

  function Next(env: Env, s: State, step: Step): State
    requires Enabled(env, s, step)
  {
    match step
    case Tick(to) => s.(clock := to)
    case Change(reg) => s.(reg := reg)
    case Echo(version) => s.(cache := Noticed(s.cache, version))
    case ReadList => s.(call := ListRead(TargetsFor(s.reg, env.self)))
    case ReadVersion => s.(call := BothRead(s.call.targets, s.reg.version))
    case Receive =>
      s.(cache := Refreshed(s.cache, s.call.targets, s.call.version, s.clock),
         returned := Some(s.call.targets),
         call := NoCall)
    case Lose => s.(call := NoCall)
    case UseCached => s.(returned := Some(s.cache.targets))
    case RestartAgent => s.(cache := EMPTY_CACHE, call := NoCall)
  }

  ghost predicate IsRun(env: Env, states: seq<State>, steps: seq<Step>) {
    && |states| == |steps| + 1
    && states[0].cache == EMPTY_CACHE && states[0].call.NoCall?
    && (forall i :: 0 <= i < |steps| ==>
          Enabled(env, states[i], steps[i]) && states[i + 1] == Next(env, states[i], steps[i]))
  }

  /** The fetch that reads its list in step i is still on in state n. */
  predicate IsFetching(steps: seq<Step>, i: nat, n: nat)
    requires i < n <= |steps|
  {
    steps[i].ReadList? && forall k :: i < k < n ==> !steps[k].ReadList? && !EndsCall(steps[k])
  }

  predicate EndsCall(step: Step) {
    step.Receive? || step.Lose? || step.RestartAgent?
  }

  /** The list was read in step i and received in step j. */
  predicate Fetched(env: Env, states: seq<State>, steps: seq<Step>, i: nat, j: nat, targets: Targets)
    requires i < j < |steps| < |states|
  {
    && steps[j].Receive? && IsFetching(steps, i, j)
    && targets == TargetsFor(states[i].reg, env.self)
  }

  lemma {:induction false} CallOrigin(env: Env, states: seq<State>, steps: seq<Step>, n: nat) returns (i: nat)
    requires IsRun(env, states, steps) && n < |states| && !states[n].call.NoCall?
    ensures i < n && IsFetching(steps, i, n)
    ensures states[n].call.targets == TargetsFor(states[i].reg, env.self)
  {
    if steps[n - 1].ReadList? {
      i := n - 1;
    } else {
      i := CallOrigin(env, states, steps, n - 1);
    }
  }

  lemma {:induction false} CacheOrigin(env: Env, states: seq<State>, steps: seq<Step>, n: nat)
    returns (i: nat, j: nat)
    requires IsRun(env, states, steps) && n < |states| && states[n].cache.lastFetched.Some?
    ensures i < j < n && Fetched(env, states, steps, i, j, states[n].cache.targets)
    ensures states[j].clock == states[n].cache.lastFetched.value
  {
    if steps[n - 1].Receive? {
      i := CallOrigin(env, states, steps, n - 1);
      j := n - 1;
    } else {
      i, j := CacheOrigin(env, states, steps, n - 1);
    }
  }

  /** Every fetch that succeeds takes at most `timeout`. */
  ghost predicate Timely(states: seq<State>, steps: seq<Step>, timeout: int)
    requires |states| == |steps| + 1
  {
    forall i, j :: 0 <= i < j < |steps| && steps[j].Receive? && IsFetching(steps, i, j) ==>
      states[j].clock - states[i].clock <= timeout
  }

  /** With a maximum age, whatever a Targets call returns without an error is a
      list that the controller read and the agent received less than the maximum
      age ago, or just now; so it was true less than maxAge + timeout ago, or at
      most timeout ago. */
  lemma StalenessBounded(env: Env, states: seq<State>, steps: seq<Step>, timeout: int, n: nat)
    returns (i: nat, j: nat)
    requires IsRun(env, states, steps) && env.maxAge > 0 && Timely(states, steps, timeout)
    requires n < |steps| && (steps[n].UseCached? || steps[n].Receive?)
    ensures i < j <= n && states[n + 1].returned.Some?
    ensures Fetched(env, states, steps, i, j, states[n + 1].returned.value)
    ensures states[n].clock - states[j].clock < env.maxAge
    ensures states[n].clock - states[i].clock < env.maxAge + timeout
    ensures steps[n].Receive? ==> j == n && states[n].clock - states[i].clock <= timeout
  {
    if steps[n].Receive? {
      i := CallOrigin(env, states, steps, n);
      j := n;
    } else {
      i, j := CacheOrigin(env, states, steps, n);
    }
  }
}
