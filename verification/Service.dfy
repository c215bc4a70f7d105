/** The controller as the other end of the agent's requests: what it served, and
    what came back. Nothing here is chosen by a proof; the controller's table is
    the one that its own answers leave. */
module Service {
  import opened Clock
  import opened Wire
  import opened SpoolTable
  import opened Results
  import opened TargetCache

  /** One request that handleResults answered, of this agent or of any other
      node. */
  datatype Served = Served(node: Option<string>, body: Payload, status: int)

  /** The results table that these answers leave. */
  function TableAfter(table: seq<ResultRow>, log: seq<Served>): seq<ResultRow> {
    if log == [] then table
    else
      var n := |log| - 1;
      var before := TableAfter(table, log[..n]);
      if log[n].status == CREATED && log[n].body.Json? then before + RowsOf(log[n].body.req) else before
  }

  /** Each entry is an answer that handleResults gives on the table it finds. */
  ghost predicate Genuine(table: seq<ResultRow>, log: seq<Served>) {
    forall k :: 0 <= k < |log| ==>
      Handles(TableAfter(table, log[..k]), log[k].node, log[k].body, log[k].status, TableAfter(table, log[..k + 1]))
  }

  /** Whatever the controller serves for `source` is one of these requests. */
  predicate OnlySent(source: string, sent: set<ResultsRequest>, log: seq<Served>) {
    forall k :: 0 <= k < |log| && log[k].node == Some(source) && log[k].body.Json? ==> log[k].body.req in sent
  }

  /** What became of one send: the requests that the controller served between
      the previous answer and this one, and the response that reached the
      sender. The request itself may be among them once, twice or not at all. */
  datatype Exchange = Exchange(served: seq<Served>, response: Response)

  /** An accepted response is the handler's answer to this very request. */
  predicate Truthful(source: string, payload: Payload, x: Exchange) {
    Reading(x.response).Accepted? ==> Served(Some(source), payload, x.response.status) in x.served
  }

  /** The controller's table, and the requests that this agent has sent. */
  datatype Net = Net(table: seq<ResultRow>, sent: set<ResultsRequest>)

  function RequestsOf(payload: Payload): set<ResultsRequest> {
    if payload.Json? then {payload.req} else {}
  }

  function NetServed(n: Net, log: seq<Served>): Net {
    n.(table := TableAfter(n.table, log))
  }

  function Exchanged(n: Net, payload: Payload, x: Exchange): Net {
    Net(TableAfter(n.table, x.served), n.sent + RequestsOf(payload))
  }

  /** After the rows `calls` of `t` were sent, one after the other. */
  function NetAfter(n: Net, t: Table, calls: seq<int>, net: int -> Exchange): Net {
    if calls == [] then n
    else
      var k := |calls| - 1;
      var before := NetAfter(n, t, calls[..k], net);
      Exchanged(before, if calls[k] in t then t[calls[k]].payload else Empty, net(calls[k]))
  }

  lemma NetAfterStep(n: Net, t: Table, calls: seq<int>, id: int, net: int -> Exchange)
    requires id in t
    ensures NetAfter(n, t, calls + [id], net) == Exchanged(NetAfter(n, t, calls, net), t[id].payload, net(id))
  {
    assert (calls + [id])[..|calls|] == calls;
  }

  /** What the controller may do from here, given what this agent has sent. */
  ghost predicate Serves(source: string, n: Net, log: seq<Served>) {
    Genuine(n.table, log) && OnlySent(source, n.sent, log)
  }

  /** An answered request stores its batch whole, or finds it refused. */
  lemma AcceptedIngests(table: seq<ResultRow>, e: Served, after: seq<ResultRow>)
    requires Handles(table, e.node, e.body, e.status, after)
    requires e.status == CREATED || e.status == CONFLICT
    ensures e.node.Some? && e.body.Json? && ValidRequest(e.node.value, e.body.req)
    ensures Ingest(table, e.body.req) == (e.status, after)
  {
  }

  lemma GenuinePrefix(source: string, n: Net, log: seq<Served>, k: nat)
    requires Serves(source, n, log) && k <= |log|
    ensures Serves(source, n, log[..k])
  {
    var before := log[..k];
    forall i | 0 <= i < k
      ensures Handles(TableAfter(n.table, before[..i]), before[i].node, before[i].body, before[i].status,
                      TableAfter(n.table, before[..i + 1]))
    {
      assert before[..i] == log[..i] && before[..i + 1] == log[..i + 1];
    }
  }
}
