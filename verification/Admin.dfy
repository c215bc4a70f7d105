/** The admin API and the node forms of the web UI as transitions of the
    registry (internal/controller/admin.go, internal/controller/ui.go). */
module Admin {
  import opened Clock
  import opened Nodes
  import opened Wire

  const OK: int := 200
  const NO_CONTENT: int := 204
  const NOT_FOUND: int := 404

  predicate ValidFields(id: string, role: string, address: string) {
    id != "" && KnownRole(role) && (role == HUB ==> address != "")
  }

  datatype Patch = Patch(
    role: Option<string>, address: Option<string>, disabled: Option<bool>, secretHash: Option<string>)

  /** Requests that change nodes. Secrets are represented by their hashes. */
  datatype Request =
    | Create(node: Node)                                // POST /api/v1/admin/nodes
    | Change(id: string, patch: Patch)                  // PATCH /api/v1/admin/nodes/{id}
    | Remove(id: string, referenced: bool)              // DELETE, API and UI
    | UiCreate(node: Node)                              // POST /ui/frag/nodes
    | UiSetDisabled(id: string, disabled: bool)         // PATCH /ui/frag/nodes/{id}/disable, enable

  function Patched(n: Node, p: Patch): Node {
    n.(role := if p.role.Some? then p.role.value else n.role,
       address := if p.address.Some? then p.address.value else n.address,
       disabled := if p.disabled.Some? then p.disabled.value else n.disabled,
       secretHash := if p.secretHash.Some? then p.secretHash.value else n.secretHash)
  }

  /** The store operation that a request leads to, if it gets that far. */
  function OpOf(r: Registry, req: Request): Option<Op> {
    match req
    case Create(n) =>
      if ValidFields(n.id, n.role, n.address) && n.id !in r.nodes then Some(Upsert(n)) else None
    case Change(id, p) =>
      if id == "" || id !in r.nodes then None
      else
        var next := Patched(r.nodes[id], p);
        if ValidFields(next.id, next.role, next.address) then Some(Upsert(next)) else None
    case Remove(id, referenced) => Some(Delete(id, referenced))
    case UiCreate(n) =>
      if ValidFields(n.id, n.role, n.address) then Some(Upsert(n.(disabled := false))) else None
    case UiSetDisabled(id, disabled) =>
      if id in r.nodes then Some(Upsert(r.nodes[id].(disabled := disabled))) else None
  }

  function Handle(r: Registry, req: Request): Registry {
    var op := OpOf(r, req);
    if op.Some? then Apply(r, op.value) else r
  }

  // In the handlers below, bumpOk says that the bump of targets_version, if one
  // is due, succeeds.

  method ValidateAdminNodeFields(id: string, role: string, address: string) returns (ok: bool)
    ensures ok == ValidFields(id, role, address)
    ensures ok <==> id != "" && role in {"spoke", "hub", "listener"} && (role == "hub" ==> address != "")
  {
    if id == "" {
      return false;
    }
    if role != SPOKE && role != HUB && role != LISTENER {
      return false;
    }
    if role == HUB && address == "" {
      return false;
    }
    return true;
  }

  method HandleCreate(store: NodeStore, n: Node, bumpOk: bool) returns (status: int)
    modifies store
    ensures store.reg == Landed(old(store.reg), Handle(old(store.reg), Create(n)), bumpOk)
    ensures status == if !ValidFields(n.id, n.role, n.address) then UNPROCESSABLE
                      else if n.id in old(store.reg.nodes) then CONFLICT else CREATED
    ensures store.reg.nodes == if status == CREATED then old(store.reg.nodes)[n.id := n] else old(store.reg.nodes)
  {
    var ok := ValidateAdminNodeFields(n.id, n.role, n.address);
    if !ok {
      return UNPROCESSABLE;
    }
    var existing := store.Get(n.id);
    if existing.Some? {
      return CONFLICT;
    }
    var _ := store.Upsert(n, bumpOk);
    return CREATED;
  }

  /** Each field has the patch's value where one is given, and the old value
      elsewhere. */
  predicate FieldsSet(before: Node, p: Patch, after: Node) {
    && after.id == before.id
    && (p.role.Some? ==> after.role == p.role.value) && (p.role.None? ==> after.role == before.role)
    && (p.address.Some? ==> after.address == p.address.value) && (p.address.None? ==> after.address == before.address)
    && (p.disabled.Some? ==> after.disabled == p.disabled.value)
    && (p.disabled.None? ==> after.disabled == before.disabled)
    && (p.secretHash.Some? ==> after.secretHash == p.secretHash.value)
    && (p.secretHash.None? ==> after.secretHash == before.secretHash)
  }

  method ApplyPatch(n: Node, p: Patch) returns (next: Node)
    ensures next == Patched(n, p) && FieldsSet(n, p, next)
  {
    next := n;
    if p.role.Some? {
      next := next.(role := p.role.value);
    }
    if p.address.Some? {
      next := next.(address := p.address.value);
    }
    if p.disabled.Some? {
      next := next.(disabled := p.disabled.value);
    }
    if p.secretHash.Some? {
      next := next.(secretHash := p.secretHash.value);
    }
  }

  method HandlePatch(store: NodeStore, id: string, p: Patch, bumpOk: bool) returns (status: int)
    modifies store
    ensures store.reg == Landed(old(store.reg), Handle(old(store.reg), Change(id, p)), bumpOk)
    ensures status == if id == "" then UNPROCESSABLE
                      else if id !in old(store.reg.nodes) then NOT_FOUND
                      else if OpOf(old(store.reg), Change(id, p)).None? then UNPROCESSABLE else OK
    // each field has the patch's value where one is given, and the old one elsewhere
    ensures status == OK && Keyed(old(store.reg)) ==>
              && id in store.reg.nodes && FieldsSet(old(store.reg.nodes)[id], p, store.reg.nodes[id])
              && forall other :: other != id ==> Find(store.reg, other) == Find(old(store.reg), other)
    ensures status != OK ==> store.reg == old(store.reg)
  {
    if id == "" {
      return UNPROCESSABLE;
    }
    var cur := store.Get(id);
    if cur.None? {
      return NOT_FOUND;
    }
    var next := ApplyPatch(cur.value, p);
    var ok := ValidateAdminNodeFields(next.id, next.role, next.address);
    if !ok {
      return UNPROCESSABLE;
    }
    var _ := store.Upsert(next, bumpOk);
    return OK;
  }

  method HandleDelete(store: NodeStore, id: string, referenced: bool, bumpOk: bool) returns (status: int)
    modifies store
    ensures store.reg == if id == "" then old(store.reg)
                         else Landed(old(store.reg), Handle(old(store.reg), Remove(id, referenced)), bumpOk)
    ensures status == if id == "" then UNPROCESSABLE
                      else if id !in old(store.reg.nodes) then NOT_FOUND
                      else if referenced then SERVER_ERROR else NO_CONTENT
    ensures store.reg.nodes == if status == NO_CONTENT then old(store.reg.nodes) - {id} else old(store.reg.nodes)
  {
    if id == "" {
      return UNPROCESSABLE;
    }
    var r := store.Delete(id, referenced, bumpOk);
    return match r case UnknownNode => NOT_FOUND case ConstraintFailed => SERVER_ERROR case Done => NO_CONTENT;
  }

  /** Unlike the API, the form overwrites a node that exists. */
  method HandleUiCreate(store: NodeStore, n: Node, bumpOk: bool) returns (ok: bool)
    modifies store
    ensures store.reg == Landed(old(store.reg), Handle(old(store.reg), UiCreate(n)), bumpOk)
    ensures ok == ValidFields(n.id, n.role, n.address)
    ensures store.reg.nodes == if ok then old(store.reg.nodes)[n.id := n.(disabled := false)] else old(store.reg.nodes)
  {
    ok := ValidateAdminNodeFields(n.id, n.role, n.address);
    if ok {
      var _ := store.Upsert(n.(disabled := false), bumpOk);
    }
  }

  method HandleSetDisabled(store: NodeStore, id: string, disabled: bool, bumpOk: bool) returns (found: bool)
    modifies store
    ensures store.reg == Landed(old(store.reg), Handle(old(store.reg), UiSetDisabled(id, disabled)), bumpOk)
    ensures found == (id in old(store.reg.nodes))
    ensures found && Keyed(old(store.reg)) && KnownRole(old(store.reg.nodes)[id].role) ==>
              store.reg.nodes == old(store.reg.nodes)[id := old(store.reg.nodes)[id].(disabled := disabled)]
  {
    var node := store.Get(id);
    if node.None? {
      return false;
    }
    var _ := store.Upsert(node.value.(disabled := disabled), bumpOk);
    return true;
  }

  // ------------------------------------------------------ what a patch does

  /** The role and the address that a patch leads to are admitted. */
  predicate Admitted(n: Node, p: Patch) {
    && (p.role.Some? ==> p.role.value in {"spoke", "hub", "listener"})
    && (p.role.None? ==> n.role in {"spoke", "hub", "listener"})
    && ((if p.role.Some? then p.role.value else n.role) == "hub" ==>
          if p.address.Some? then p.address.value != "" else n.address != "")
  }

  /** A patch is carried out if and only if what it leads to is admitted; then it
      sets exactly the given fields of its node, and no other node changes. */
  lemma PatchSets(r: Registry, id: string, p: Patch)
    requires Keyed(r) && id in r.nodes && id != ""
    ensures OpOf(r, Change(id, p)).Some? <==> Admitted(r.nodes[id], p)
    ensures var r' := Handle(r, Change(id, p));
            if Admitted(r.nodes[id], p) then
              && id in r'.nodes && FieldsSet(r.nodes[id], p, r'.nodes[id])
              && r'.nodes == r.nodes[id := r'.nodes[id]]
            else r' == r
  {
  }

  /** A patch that disables an active hub removes exactly it from the targets of
      every node, and raises the version by one. */
  lemma DisablingRemoves(r: Registry, id: string, p: Patch, other: string)
    requires Keyed(r) && id in r.nodes && id != "" && Admitted(r.nodes[id], p)
    requires r.nodes[id].role == "hub" && !r.nodes[id].disabled && r.nodes[id].address != ""
    requires p.disabled == Some(true)
    ensures var r' := Handle(r, Change(id, p));
            && TargetsFor(r', other) == TargetsFor(r, other) - {id}
            && (other != id ==> id in TargetsFor(r, other))
            && r'.version == r.version + 1
  {
    PatchSets(r, id, p);
    BumpIff(r, OpOf(r, Change(id, p)).value);
    assert id in ActiveMap(r) && id !in ActiveMap(Handle(r, Change(id, p)));
  }

  function SetDisabled(disabled: bool): Patch {
    Patch(None, None, Some(disabled), None)
  }

  /** Enabling it again restores the registry, under a newer version. */
  lemma EnablingRestores(r: Registry, id: string)
    requires Keyed(r) && id in r.nodes && id != ""
    requires r.nodes[id].role == "hub" && !r.nodes[id].disabled && r.nodes[id].address != ""
    ensures var off := Handle(r, Change(id, SetDisabled(true)));
            Handle(off, Change(id, SetDisabled(false))) == r.(version := r.version + 2)
  {
    var off := Handle(r, Change(id, SetDisabled(true)));
    DisablingRemoves(r, id, SetDisabled(true), id);
    PatchSets(r, id, SetDisabled(true));
    PatchSets(off, id, SetDisabled(false));
    var on := Handle(off, Change(id, SetDisabled(false)));
    assert on.nodes[id] == r.nodes[id];
    assert on.nodes == r.nodes;
    BumpIff(off, OpOf(off, Change(id, SetDisabled(false))).value);
    assert id in ActiveMap(on) && id !in ActiveMap(off);
  }

  // -------------------------------------------------------------- exact bumps

  /** Rows are stored under their own id, and every hub has an address. */
  ghost predicate WellKept(r: Registry) {
    Keyed(r) && forall id :: id in r.nodes && r.nodes[id].role == HUB ==> r.nodes[id].address != ""
  }

  lemma HandleKeeps(r: Registry, req: Request)
    requires WellKept(r)
    ensures WellKept(Handle(r, req))
  {
  }

  /** The three notions of "active hub" agree on a well-kept registry: the
      axes of the latency matrix, Delete's bump test, and HubTargetsFor. */
  lemma ActiveHubsAgree(r: Registry, id: string)
    requires WellKept(r) && id in r.nodes
    ensures (r.nodes[id].role == HUB && !r.nodes[id].disabled) <==> id in ActiveMap(r)
    ensures id in ActiveMap(r) <==> forall other :: other != id ==> id in TargetsFor(r, other)
  {
    assert id + "x" != id;
    assert id in ActiveMap(r) <==> id in TargetsFor(r, id + "x");
  }

  ghost predicate IsAdminRun(rs: seq<Registry>, reqs: seq<Request>) {
    && |rs| == |reqs| + 1
    && rs[0] == EMPTY_REGISTRY
    && (forall i :: 0 <= i < |reqs| ==> rs[i + 1] == Handle(rs[i], reqs[i]))
  }

  /** How many steps changed the active map. */
  function Changes(rs: seq<Registry>): nat {
    if |rs| < 2 then 0
    else Changes(rs[..|rs| - 1]) + if ActiveMap(rs[|rs| - 2]) != ActiveMap(rs[|rs| - 1]) then 1 else 0
  }

  /** Through the admin API and the UI, targets_version counts exactly the
      requests that changed the active map. */
  lemma {:induction false} ExactBumps(rs: seq<Registry>, reqs: seq<Request>)
    requires IsAdminRun(rs, reqs)
    ensures WellKept(rs[|reqs|])
    ensures rs[|reqs|].version - 1 == Changes(rs)
  {
    if reqs != [] {
      var n := |reqs| - 1;
      var before := rs[..|rs| - 1];
      ExactBumps(before, reqs[..n]);
      HandleKeeps(rs[n], reqs[n]);
      var op := OpOf(rs[n], reqs[n]);
      if op.Some? {
        BumpIff(rs[n], op.value);
        assert !Spurious(rs[n], op.value);
      }
    }
  }
}
