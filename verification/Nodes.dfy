/** The node registry and its targets_version (internal/controller/nodes.go). */
module Nodes {
  import opened Clock

  const SPOKE: string := "spoke"
  const HUB: string := "hub"
  const LISTENER: string := "listener"

  /** address is "" for a NULL column. */
  datatype Node = Node(id: string, role: string, secretHash: string, address: string, disabled: bool)

  /** The nodes table and controller_meta.targets_version. */
  datatype Registry = Registry(nodes: map<string, Node>, version: int)

  const EMPTY_REGISTRY: Registry := Registry(map[], 1)

  /** CHECK (role IN ...). */
  predicate KnownRole(role: string) {
    role == SPOKE || role == HUB || role == LISTENER
  }

  /** A hub that agents should probe. */
  predicate Active(n: Node) {
    n.role == HUB && !n.disabled && n.address != ""
  }

  /** Whom to probe, and where: what targets_version is the version of. */
  function ActiveMap(r: Registry): map<string, string> {
    map id | id in r.nodes && Active(r.nodes[id]) :: r.nodes[id].address
  }

  /** The list that HubTargetsFor returns, as a map from id to address. */
  function TargetsFor(r: Registry, nodeId: string): map<string, string> {
    map id | id in r.nodes && Active(r.nodes[id]) && id != nodeId :: r.nodes[id].address
  }

  predicate HubSetChanged(prior: Option<Node>, next: Node) {
    var priorActive := prior.Some? && Active(prior.value);
    var nextActive := Active(next);
    priorActive != nextActive || (priorActive && nextActive && prior.value.address != next.address)
  }

  /** Rows are stored under their own id, the primary key. */
  ghost predicate Keyed(r: Registry) {
    forall id :: id in r.nodes ==> r.nodes[id].id == id
  }

  function Find(r: Registry, id: string): Option<Node> {
    if id in r.nodes then Some(r.nodes[id]) else None
  }

  datatype Op = Upsert(node: Node) | Delete(id: string, referenced: bool)

  /** One store operation as an atomic step. A row with an unknown role is
      refused; a node with stored results cannot be deleted (foreign key). */
  function Apply(r: Registry, op: Op): Registry {
    match op
    case Upsert(n) =>
      if !KnownRole(n.role) then r
      else Registry(r.nodes[n.id := n], r.version + if HubSetChanged(Find(r, n.id), n) then 1 else 0)
    case Delete(id, referenced) =>
      if id !in r.nodes || referenced then r
      else
        var prior := r.nodes[id];
        Registry(r.nodes - {id}, r.version + if prior.role == HUB && !prior.disabled then 1 else 0)
  }

  /** The write lands; the bump after it may fail, and that failure is ignored. */
  function Landed(before: Registry, after: Registry, bumped: bool): Registry {
    if bumped then after else after.(version := before.version)
  }

  datatype StoreResult = Done | UnknownNode | ConstraintFailed

  class NodeStore {
    var reg: Registry

    constructor ()
      ensures reg == EMPTY_REGISTRY
    {
      reg := EMPTY_REGISTRY;
    }

    method Get(id: string) returns (n: Option<Node>)
      ensures n == Find(reg, id)
    {
      n := if id in reg.nodes then Some(reg.nodes[id]) else None;
    }

    /** UPDATE controller_meta SET value = value + 1, unless it fails. */
    method Bump(ok: bool)
      modifies this
      ensures reg == old(reg).(version := old(reg.version) + if ok then 1 else 0)
    {
      if ok {
        reg := reg.(version := reg.version + 1);
      }
    }

    method Upsert(n: Node, bumpOk: bool) returns (r: StoreResult)
      modifies this
      ensures reg == Landed(old(reg), Apply(old(reg), Op.Upsert(n)), bumpOk)
      ensures r == if KnownRole(n.role) then Done else ConstraintFailed
    {
      var prior := Get(n.id);
      if !KnownRole(n.role) {
        return ConstraintFailed;
      }
      reg := reg.(nodes := reg.nodes[n.id := n]);
      if HubSetChanged(prior, n) {
        Bump(bumpOk);
      }
      return Done;
    }

    /** `referenced`: probe_results holds rows of this node. */
    method Delete(id: string, referenced: bool, bumpOk: bool) returns (r: StoreResult)
      modifies this
      ensures reg == Landed(old(reg), Apply(old(reg), Op.Delete(id, referenced)), bumpOk)
      ensures r == if id !in old(reg.nodes) then UnknownNode else if referenced then ConstraintFailed else Done
    {
      var prior := Get(id);
      if prior.None? {
        return UnknownNode;
      }
      if referenced {
        return ConstraintFailed;
      }
      reg := reg.(nodes := reg.nodes - {id});
      if prior.value.role == HUB && !prior.value.disabled {
        Bump(bumpOk);
      }
      return Done;
    }

    method TargetsVersion() returns (v: int)
      ensures v == reg.version
    {
      v := reg.version;
    }

    method HubTargetsFor(nodeId: string) returns (targets: map<string, string>, version: int)
      ensures targets == TargetsFor(reg, nodeId) && version == reg.version
      ensures targets == ActiveMap(reg) - {nodeId}
      ensures forall id :: id in targets <==>
                && id in reg.nodes && id != nodeId
                && reg.nodes[id].role == "hub" && !reg.nodes[id].disabled && reg.nodes[id].address != ""
      ensures forall id :: id in targets ==> targets[id] == reg.nodes[id].address
    {
      targets := TargetsFor(reg, nodeId);
      version := TargetsVersion();
    }
  }

  // ------------------------------------------------------- what a bump means

  /** hubSetChanged is exact: an upsert is reported as a change if and only if
      it changes the active map. */
  lemma HubSetChangedIff(r: Registry, n: Node)
    ensures HubSetChanged(Find(r, n.id), n) <==> ActiveMap(r) != ActiveMap(r.(nodes := r.nodes[n.id := n]))
  {
    var r' := r.(nodes := r.nodes[n.id := n]);
    assert n.id in ActiveMap(r') <==> Active(n);
    assert n.id in ActiveMap(r) <==> n.id in r.nodes && Active(r.nodes[n.id]);
    if !HubSetChanged(Find(r, n.id), n) {
      assert forall id :: id in ActiveMap(r) <==> id in ActiveMap(r');
      assert ActiveMap(r) == ActiveMap(r');
    }
  }

  /** Deleting an enabled hub bumps the version; the active map changes unless
      that hub has no address. */
  lemma DeleteChangesIff(r: Registry, id: string)
    requires id in r.nodes
    ensures ActiveMap(r) != ActiveMap(r.(nodes := r.nodes - {id})) <==> Active(r.nodes[id])
  {
    var r' := r.(nodes := r.nodes - {id});
    assert id in ActiveMap(r) <==> Active(r.nodes[id]);
    if !Active(r.nodes[id]) {
      assert ActiveMap(r) == ActiveMap(r');
    }
  }

  /** This operation bumps the version although the active map stays. */
  predicate Spurious(r: Registry, op: Op) {
    && op.Delete? && !op.referenced && op.id in r.nodes
    && r.nodes[op.id].role == HUB && !r.nodes[op.id].disabled && r.nodes[op.id].address == ""
  }

  /** One operation bumps by one or not at all, and bumps exactly when it
      changes the active map or deletes an enabled hub without an address. */
  lemma BumpIff(r: Registry, op: Op)
    ensures Apply(r, op).version == r.version
            + if ActiveMap(Apply(r, op)) != ActiveMap(r) || Spurious(r, op) then 1 else 0
    ensures Spurious(r, op) ==> ActiveMap(Apply(r, op)) == ActiveMap(r)
  {
    match op
    case Upsert(n) => HubSetChangedIff(r, n);
    case Delete(id, referenced) =>
      if id in r.nodes {
        DeleteChangesIff(r, id);
      }
  }

  /** A bump that fails leaves the version a sound key if and only if none was
      due, or the one due was spurious. */
  lemma LostBumpIff(r: Registry, op: Op)
    ensures var lost := Landed(r, Apply(r, op), false);
            && lost.version == r.version
            && (ActiveMap(lost) == ActiveMap(r) <==> Apply(r, op).version == r.version || Spurious(r, op))
  {
    BumpIff(r, op);
    assert ActiveMap(Landed(r, Apply(r, op), false)) == ActiveMap(Apply(r, op));
  }

  // -------------------------------------------------------------- whole runs

  ghost predicate IsHistory(rs: seq<Registry>, ops: seq<Op>) {
    && |rs| == |ops| + 1
    && (forall i :: 0 <= i < |ops| ==> rs[i + 1] == Apply(rs[i], ops[i]))
  }

  lemma {:induction false} VersionGrows(rs: seq<Registry>, ops: seq<Op>, i: nat, j: nat)
    requires IsHistory(rs, ops) && i <= j < |rs|
    ensures rs[i].version <= rs[j].version
    ensures rs[i].version == rs[j].version ==> ActiveMap(rs[i]) == ActiveMap(rs[j])
  {
    if i < j {
      VersionGrows(rs, ops, i, j - 1);
      BumpIff(rs[j - 1], ops[j - 1]);
    }
  }

  /** The version is a sound cache key: from any registry and over any
      operations, two states with the same version give every node the same
      target list. */
  lemma SoundCacheKey(rs: seq<Registry>, ops: seq<Op>, i: nat, j: nat, nodeId: string)
    requires IsHistory(rs, ops) && i < |rs| && j < |rs|
    requires rs[i].version == rs[j].version
    ensures ActiveMap(rs[i]) == ActiveMap(rs[j])
    ensures TargetsFor(rs[i], nodeId) == TargetsFor(rs[j], nodeId)
  {
    VersionGrows(rs, ops, if i <= j then i else j, if i <= j then j else i);
    TargetsFromActive(rs[i], nodeId);
    TargetsFromActive(rs[j], nodeId);
  }

  lemma TargetsFromActive(r: Registry, nodeId: string)
    ensures TargetsFor(r, nodeId) == ActiveMap(r) - {nodeId}
  {
  }
}
