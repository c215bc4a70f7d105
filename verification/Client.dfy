/** How the agent reads the controller's answer (internal/agent/client.go). */
module Client {
  import opened Wire

  /** The status-to-outcome switch of Send: the row may be deleted after a 2xx
      or a 409 and after nothing else, and only the other 4xx are permanent. */
  function OutcomeOf(status: int): (o: Outcome)
    ensures o.Accepted? <==> status == CONFLICT || (status >= 200 && status <= 299)
    ensures o.PermanentFail? <==> status != CONFLICT && status / 100 == 4
    ensures !o.Unknown?
  {
    if 200 <= status < 300 then Accepted
    else if status == CONFLICT then Accepted
    else if 400 <= status < 500 then PermanentFail
    else TransientFail
  }
}
