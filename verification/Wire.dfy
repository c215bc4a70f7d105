/** What travels between agent and controller (internal/controller/results.go,
    internal/controller/targets.go). JSON text is modelled by the value it
    decodes to. */
module Wire {
  import opened Clock

  /** One (target, latency) measurement; latency is missing on failure. */
  datatype Observation = Observation(targetId: string, latencyMs: Option<real>, error: string)

  datatype SpoolMetadata = SpoolMetadata(depth: int, oldestAgeSecs: int, dropsTotal: int, drainAttempt: int)

  /** observedAt is None for Go's zero time. */
  datatype ResultsRequest = ResultsRequest(
    sourceId: string,
    probeRunId: string,
    observedAt: Option<int>,
    results: seq<Observation>,
    spool: SpoolMetadata)

  /** A spooled body: no bytes, bytes that do not decode, or a request. */
  datatype Payload = Empty | Garbage | Json(req: ResultsRequest)

  /** The sender's reading of a controller reply (internal/spool/spool.go). */
  datatype Outcome = Accepted | PermanentFail | TransientFail | Unknown(code: int)

  const CREATED: int := 201
  const CONFLICT: int := 409
  const UNPROCESSABLE: int := 422
  const UNAUTHORIZED: int := 401
  const SERVER_ERROR: int := 500
}
