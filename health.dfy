/**
  The database health endpoint `GET /healthz/db`: one trivial query against
  the store, answered with `{ok: true, db: "up"}` when it succeeds and with
  status 500 and `{ok: false, db: "down", error}` carrying the failure's
  message when it rejects.
 */
module DbHealth {

  /** What the trivial `SELECT 1` yields. */
  datatype Ping = Up | Down(message: string)

  datatype Error = NoError | ErrorMessage(message: string)

  datatype HealthResponse = HealthResponse(status: nat, ok: bool, db: string, error: Error)

  function CheckDb(ping: Ping): (r: HealthResponse)
    ensures r.ok <==> r.status == 200
    ensures r.ok <==> ping.Up?
    ensures r.db == (if r.ok then "up" else "down")
    ensures ping.Down? ==> r.status == 500 && r.error == ErrorMessage(ping.message)
    ensures ping.Up? ==> r.error == NoError
  {
    match ping
    case Up => HealthResponse(200, true, "up", NoError)
    case Down(message) => HealthResponse(500, false, "down", ErrorMessage(message))
  }
}
