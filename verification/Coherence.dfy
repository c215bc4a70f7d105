/** Cache coherence for the sequential agent loop: the registry changes freely
    while the agent posts results, notices the echoed version and asks its
    cache for targets, one call at a time. */
module Coherence {
  import opened Clock
  import opened Nodes
  import opened TargetCache

  /** The answer to the agent's one outstanding call, computed by the controller
      and not yet received. */
  datatype Pending = NoCall | Echo(version: int) | List(targets: Targets, version: int)

  /** A list that Targets returned without an error. */
  datatype Returned = Returned(targets: Targets, version: int)

  /** lastEcho is the last version the agent noticed; `truth` is the active map
      of every version so far. */
  datatype State = State(
    reg: Registry,
    clock: int,
    cache: Cache,
    pending: Pending,
    returned: Option<Returned>,
    lastEcho: int,
    truth: map<int, Targets>)

  datatype Env = Env(self: string, maxAge: int)

  datatype Step =
    | Tick(to: int)
    | Admin(op: Op)
    | ServePost          // the controller reads the version at the end of an ingest
    | ReceivePost        // 201 or 409 arrives with the echo
    | ServeList          // a Targets call needs a refresh; the controller reads list and version
    | ReceiveList        // the fetch succeeds and Targets returns it
    | Lose               // the outstanding call fails
    | UseCached          // a Targets call that needs no refresh
    | RestartAgent       // a new agent process, with an empty cache

  function Init(reg: Registry, clock: int): State {
    State(reg, clock, EMPTY_CACHE, NoCall, None, 0, map[reg.version := ActiveMap(reg)])
  }

  predicate Enabled(env: Env, s: State, step: Step) {
    match step
    case Tick(to) => to >= s.clock
    case Admin(_) => true
    case ServePost => s.pending.NoCall?
    case ReceivePost => s.pending.Echo?
    case ServeList => s.pending.NoCall? && NeedsRefresh(s.cache, env.maxAge, s.clock)
    case ReceiveList => s.pending.List?
    case Lose => true
    case RestartAgent => true
    case UseCached => s.pending.NoCall? && !NeedsRefresh(s.cache, env.maxAge, s.clock)
  }

  function Next(env: Env, s: State, step: Step): State
    requires Enabled(env, s, step)
  {
    match step
    case Tick(to) => s.(clock := to)
    case Admin(op) =>
      var reg := Apply(s.reg, op);
      s.(reg := reg, truth := s.truth[reg.version := ActiveMap(reg)])
    case ServePost => s.(pending := Echo(s.reg.version))
    case ReceivePost =>
      s.(cache := Noticed(s.cache, s.pending.version), pending := NoCall, lastEcho := s.pending.version)
    case ServeList => s.(pending := List(TargetsFor(s.reg, env.self), s.reg.version))
    case ReceiveList =>
      s.(cache := Refreshed(s.cache, s.pending.targets, s.pending.version, s.clock),
         returned := Some(Returned(s.pending.targets, s.pending.version)),
         pending := NoCall)
    case Lose => s.(pending := NoCall)
    case RestartAgent => s.(cache := EMPTY_CACHE, pending := NoCall, lastEcho := 0)
    case UseCached => s.(returned := Some(Returned(s.cache.targets, s.cache.knownVersion)))
  }

  ghost predicate IsRun(env: Env, states: seq<State>, steps: seq<Step>) {
    && |states| == |steps| + 1
    && states[0] == Init(states[0].reg, states[0].clock)
    && states[0].reg.version >= 1
    && (forall i :: 0 <= i < |steps| ==>
          Enabled(env, states[i], steps[i]) && states[i + 1] == Next(env, states[i], steps[i]))
  }

  // ---------------------------------------------------------------- invariant

  /** `targets` is this node's list under version v. */
  predicate TrueList(env: Env, s: State, targets: Targets, v: int) {
    v in s.truth && targets == s.truth[v] - {env.self}
  }

  ghost predicate Inv(env: Env, s: State) {
    && 1 <= s.reg.version
    && s.reg.version in s.truth && s.truth[s.reg.version] == ActiveMap(s.reg)
    && (forall v :: v in s.truth ==> v <= s.reg.version)
    && s.lastEcho <= s.cache.expectedNotice <= s.reg.version
    && s.cache.knownVersion <= s.cache.expectedNotice
    && (s.cache.lastFetched.Some? ==>
          1 <= s.cache.knownVersion && TrueList(env, s, s.cache.targets, s.cache.knownVersion))
    && match s.pending
       case NoCall => true
       case Echo(v) => 1 <= v && s.cache.expectedNotice <= v <= s.reg.version
       case List(ts, v) => 1 <= v && s.cache.expectedNotice <= v <= s.reg.version && TrueList(env, s, ts, v)
  }

  /** Changing the registry never rewrites the map of an earlier version. */
  lemma TruthStays(env: Env, s: State, op: Op, targets: Targets, v: int)
    requires Inv(env, s) && TrueList(env, s, targets, v)
    ensures TrueList(env, Next(env, s, Admin(op)), targets, v)
  {
    BumpIff(s.reg, op);
  }

  lemma InvStep(env: Env, s: State, step: Step)
    requires Enabled(env, s, step) && Inv(env, s)
    ensures Inv(env, Next(env, s, step))
  {
    match step
    case Admin(op) =>
      BumpIff(s.reg, op);
      if s.cache.lastFetched.Some? {
        TruthStays(env, s, op, s.cache.targets, s.cache.knownVersion);
      }
      if s.pending.List? {
        TruthStays(env, s, op, s.pending.targets, s.pending.version);
      }
    case ServeList => TargetsFromActive(s.reg, env.self);
    case _ =>
  }

  lemma {:induction false} InvRun(env: Env, states: seq<State>, steps: seq<Step>, n: nat)
    requires IsRun(env, states, steps) && n < |states|
    ensures Inv(env, states[n])
  {
    if n > 0 {
      InvRun(env, states, steps, n - 1);
      InvStep(env, states[n - 1], steps[n - 1]);
    }
  }

  // ----------------------------------------------------------------- theorems

  /** A Targets call that returns without an error. */
  predicate Returns(step: Step) {
    step.ReceiveList? || step.UseCached?
  }

  /** At every point of every run the versions are ordered, and whatever a
      Targets call returns without an error is the node's true list of the
      version it names, which is at least as new as the last echo. */
  lemma CacheCoherent(env: Env, states: seq<State>, steps: seq<Step>, n: nat)
    requires IsRun(env, states, steps) && n < |states|
    ensures states[n].lastEcho <= states[n].cache.expectedNotice <= states[n].reg.version
    ensures states[n].cache.knownVersion <= states[n].cache.expectedNotice
    ensures n > 0 && Returns(steps[n - 1]) ==>
              && states[n].returned.Some?
              && var r := states[n].returned.value;
                 && TrueList(env, states[n], r.targets, r.version)
                 && states[n].lastEcho <= r.version <= states[n].reg.version
  {
    InvRun(env, states, steps, n);
    if n > 0 {
      InvRun(env, states, steps, n - 1);
      InvStep(env, states[n - 1], steps[n - 1]);
    }
  }

  /** The active map of each version is recorded truthfully. */
  lemma {:induction false} TruthIsHistory(env: Env, states: seq<State>, steps: seq<Step>, i: nat, n: nat)
    requires IsRun(env, states, steps) && i <= n < |states|
    ensures states[i].reg.version in states[n].truth
    ensures states[n].truth[states[i].reg.version] == ActiveMap(states[i].reg)
  {
    InvRun(env, states, steps, i);
    if i < n {
      TruthIsHistory(env, states, steps, i, n - 1);
      InvRun(env, states, steps, n - 1);
      TruthStep(env, states[n - 1], steps[n - 1], states[i].reg.version);
    }
  }

  lemma TruthStep(env: Env, s: State, step: Step, v: int)
    requires Enabled(env, s, step) && Inv(env, s)
    requires v in s.truth
    ensures v in Next(env, s, step).truth && Next(env, s, step).truth[v] == s.truth[v]
  {
    if step.Admin? {
      BumpIff(s.reg, step.op);
    }
  }

  /** The agent knows the current version, or has yet to fetch. */
  ghost predicate Converged(env: Env, s: State) {
    && (s.cache.lastFetched.None? || s.cache.expectedNotice == s.reg.version)
    && (s.pending.List? ==> s.pending.version == s.reg.version)
    && (s.pending.Echo? ==> s.pending.version == s.reg.version)
  }

  lemma ConvergedStep(env: Env, s: State, step: Step)
    requires Enabled(env, s, step) && Inv(env, s) && Converged(env, s)
    requires !step.Admin?
    ensures Converged(env, Next(env, s, step)) && Next(env, s, step).reg == s.reg
    ensures Returns(step) ==>
              Next(env, s, step).returned == Some(Returned(TargetsFor(s.reg, env.self), s.reg.version))
  {
    TargetsFromActive(s.reg, env.self);
  }

  /** After admin changes stop, one post that is served and received makes every
      later successful Targets call return the true list, also in a restarted
      agent. */
  lemma {:induction false} Convergence(
    env: Env, states: seq<State>, steps: seq<Step>, served: nat, received: nat, n: nat)
    requires IsRun(env, states, steps)
    requires served < received < n < |states|
    requires steps[served].ServePost? && steps[received].ReceivePost?
    requires forall i :: served < i < received ==> !steps[i].ServePost?
    requires forall i :: served <= i < |steps| ==> !steps[i].Admin?
    ensures Converged(env, states[n]) && states[n].reg == states[served].reg
    ensures Returns(steps[n - 1]) ==>
              states[n].returned == Some(Returned(TargetsFor(states[n].reg, env.self), states[n].reg.version))
  {
    InvRun(env, states, steps, n - 1);
    if n == received + 1 {
      EchoIsFinal(env, states, steps, served, received);
    } else {
      Convergence(env, states, steps, served, received, n - 1);
      ConvergedStep(env, states[n - 1], steps[n - 1]);
    }
  }

  lemma {:induction false} EchoIsFinal(env: Env, states: seq<State>, steps: seq<Step>, served: nat, n: nat)
    requires IsRun(env, states, steps)
    requires served < n < |steps|
    requires steps[served].ServePost?
    requires forall i :: served < i < n ==> !steps[i].ServePost?
    requires forall i :: served <= i < n ==> !steps[i].Admin?
    ensures states[n].reg == states[served].reg
    ensures states[n].pending.Echo? ==> states[n].pending.version == states[n].reg.version
    decreases n
  {
    if n > served + 1 {
      EchoIsFinal(env, states, steps, served, n - 1);
    }
  }

  // ------------------------------------------------ when the reads are torn

  /** HubTargetsFor reads the list and then the version. If a hub is added in
      between, the agent caches the old list under the new version. From then on
      the wrong list is served until, and exactly until, another version is
      echoed or maxAge has passed. */
  lemma TornReadSticks(r: Registry, hub: Node, self: string, c: Cache, maxAge: int, at: int, now: int, echo: int)
    requires Active(hub) && hub.id !in r.nodes && hub.id != self
    requires r.version >= 1 && echo >= 1
    ensures var r' := Apply(r, Upsert(hub));
            var torn := Refreshed(c, TargetsFor(r, self), r'.version, at);
            && torn.targets != TargetsFor(r', self)
            && (NeedsRefresh(Noticed(torn, echo), maxAge, now) <==>
                  echo != r'.version || (maxAge > 0 && now - at >= maxAge))
  {
    assert hub.id in TargetsFor(Apply(r, Upsert(hub)), self);
    assert hub.id !in TargetsFor(r, self);
  }

  /** With one operation between the two reads, they disagree exactly when that
      operation changes the active map at a node other than the caller. */
  lemma TornByOneIff(r: Registry, op: Op, self: string)
    ensures TargetsFor(r, self) != TargetsFor(Apply(r, op), self) <==>
              ActiveMap(r) != ActiveMap(Apply(r, op)) && NodeOf(op) != self
  {
    var r', id := Apply(r, op), NodeOf(op);
    TargetsFromActive(r, self);
    TargetsFromActive(r', self);
    SameElsewhere(r, op);
    if id != self && TargetsFor(r, self) == TargetsFor(r', self) {
      assert id in ActiveMap(r) <==> id in TargetsFor(r, self);
      assert id in ActiveMap(r') <==> id in TargetsFor(r', self);
      assert ActiveMap(r) == ActiveMap(r');
    }
  }

  /** This operation changes what the caller should probe. */
  predicate Tears(rs: seq<Registry>, ops: seq<Op>, k: nat, self: string)
    requires k < |ops| && |rs| == |ops| + 1
  {
    ActiveMap(rs[k]) != ActiveMap(rs[k + 1]) && NodeOf(ops[k]) != self
  }

  /** With any operations between the two reads: they disagree exactly when some
      node other than the caller has another active address at the end, which
      takes an operation that tears; and they agree whenever the version stayed. */
  lemma TornIff(rs: seq<Registry>, ops: seq<Op>, i: nat, j: nat, self: string)
    requires IsHistory(rs, ops) && i <= j < |rs|
    ensures TargetsFor(rs[i], self) != TargetsFor(rs[j], self) <==>
              exists id :: id != self && AddressIn(rs[i], id) != AddressIn(rs[j], id)
    ensures TargetsFor(rs[i], self) != TargetsFor(rs[j], self) ==>
              rs[i].version < rs[j].version && exists k :: i <= k < j && Tears(rs, ops, k, self)
  {
    DifferIff(rs[i], rs[j], self);
    VersionGrows(rs, ops, i, j);
    TargetsFromActive(rs[i], self);
    TargetsFromActive(rs[j], self);
    if forall k :: i <= k < j ==> !Tears(rs, ops, k, self) {
      UntornStays(rs, ops, i, j, self);
    }
  }

  /** The address under which a node should be probed, if any. */
  function AddressIn(r: Registry, id: string): Option<string> {
    if id in ActiveMap(r) then Some(ActiveMap(r)[id]) else None
  }

  lemma DifferIff(r: Registry, r': Registry, self: string)
    ensures TargetsFor(r, self) != TargetsFor(r', self) <==>
              exists id :: id != self && AddressIn(r, id) != AddressIn(r', id)
  {
    var a, b := TargetsFor(r, self), TargetsFor(r', self);
    assert forall id :: id != self ==> AddressIn(r, id) == if id in a then Some(a[id]) else None;
    assert forall id :: id != self ==> AddressIn(r', id) == if id in b then Some(b[id]) else None;
    if forall id :: id != self ==> AddressIn(r, id) == AddressIn(r', id) {
      forall id ensures (id in a <==> id in b) && (id in a ==> a[id] == b[id]) {
        assert id == self || AddressIn(r, id) == AddressIn(r', id);
      }
    }
  }

  lemma {:induction false} UntornStays(rs: seq<Registry>, ops: seq<Op>, i: nat, j: nat, self: string)
    requires IsHistory(rs, ops) && i <= j < |rs|
    requires forall k :: i <= k < j ==> !Tears(rs, ops, k, self)
    ensures TargetsFor(rs[i], self) == TargetsFor(rs[j], self)
  {
    if i < j {
      UntornStays(rs, ops, i, j - 1, self);
      TornByOneIff(rs[j - 1], ops[j - 1], self);
      assert !Tears(rs, ops, j - 1, self);
    }
  }

  /** An operation changes the active map at its own node only. */
  lemma SameElsewhere(r: Registry, op: Op)
    ensures ActiveMap(r) - {NodeOf(op)} == ActiveMap(Apply(r, op)) - {NodeOf(op)}
  {
  }

  function NodeOf(op: Op): string {
    match op
    case Upsert(n) => n.id
    case Delete(id, _) => id
  }
}
