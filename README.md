# Login backend: login decision, CORS allow-list and database health

This project models the parts of the authentication backend
(`backend/server.js`) whose behaviour does not depend on the web framework:

- **`POST /login`** (`login.dfy`, module `Login`). First it checks that
  `username` and `password` are present and truthy. Then it runs a retry loop
  of at most five attempts. Each attempt looks up the stored hash and, when a
  row comes back, compares the password against it. The loop ends with 200
  `{success: true, user}`, with 401 `{error: "invalid credentials"}` or, once
  all five attempts have thrown, with 500 `{error: "server error"}`. After the
  k-th failed attempt (k < 5) the handler waits `1000 * k` ms.
  `HandleLogin` is the handler as a loop over a mutable `attempts` counter.
  It is proved equal to the specification function `LoginSpec`, which is
  stated in terms of the first attempt that does not throw. The lemmas state
  the handler's promises about `LoginSpec`.
- **CORS allow-list** (`cors.dfy`, module `Cors`). `CORS_ORIGIN` (default
  `http://localhost:3000`) is split on `,`, each entry is trimmed and empty
  entries are dropped. An `Origin` is admitted when it is absent or empty or
  is exactly one of the entries; otherwise the callback reports
  `"CORS not allowed"`. `Split`, `Trim` and `filter(Boolean)` are modelled
  with JavaScript's semantics. An empty piece appears between adjacent commas.
  The whitespace set is ECMAScript's WhiteSpace and LineTerminator code
  points. An empty `CORS_ORIGIN` falls back to the default, because the
  source combines them with `||`.
- **`GET /healthz/db`** (`health.dfy`, module `DbHealth`). This maps the
  result of the trivial store query to a response.

Abstractions:

- The credential store is the sequence of answers it gives to the successive
  queries of one request: `QueryThrows`, `NoRows` or `Row(hash)`.
- `bcrypt.compare` is an uninterpreted function parameter
  `compare: (Value, string) -> CompareResult`. It may also throw.
- Sleeping is replaced by the list of requested delays in ms. The number of
  store queries issued is recorded too.
- Request-body fields are JSON values (`Value`) with JavaScript truthiness.
- Environment variables and the `Origin` header are parameters.

The comment at `backend/server.js:98` says the loop retries on
connection/startup errors. The `try` at line 85 covers both the query and
`bcrypt.compare`, however, and the `catch` at line 96 classifies nothing:
every exception, from either step, uses up an attempt and re-runs both. The
model follows the code.

## Model

| member | source | states |
|---|---|---|
| `Login.Attempt` | backend/server.js:85-95 | an attempt throws exactly when the query throws or a row was found and the comparison throws; an answered attempt is either the 401 "invalid credentials" response or 200 echoing the username, and it is the success exactly when a row was found and the comparison matched |
| `Login.Truthy` | backend/server.js:76 | the values `!` treats as missing are exactly undefined, null, false, 0 and the empty string |
| `Login.HasCredentials` | backend/server.js:75-76 | a request passes the presence check only with both fields present; with string fields, exactly when both are non-empty |
| `Login.LeadingFailures` | backend/server.js:84-106 | counts the attempts before the first one that does not throw: all earlier attempts threw, and the one it points at (if any) answered |
| `Login.Backoff` | backend/server.js:97-103 | after n failures exactly n delays were requested, the i-th being 1000 * (i + 1) ms |
| `Login.HandleLogin` | backend/server.js:73-111 | the handler's loop (validation, query, comparison, `attempts++`, delay, `continue`, rethrow, outer catch) produces exactly the response, query count and delay list of `LoginSpec` |
| `Login.MissingFieldsNeverQuery` | backend/server.js:75-78 | a missing or falsy username or password gives 400 "username and password required", with no query and no delay |
| `Login.ResponseKinds` | backend/server.js:77-109 | the response is one of 400, 401 "invalid credentials", 500 "server error" or 200 echoing the submitted username; every 401 has the same body |
| `Login.UnknownUserLooksLikeWrongPassword` | backend/server.js:90-93 | an unknown user and a wrong password, reached after the same failures, give the same response, query count and delays |
| `Login.MatchIsAccepted` | backend/server.js:92-95 | if the first non-throwing attempt finds a row whose hash matches, the response is 200 `{success: true, user: username}` after k + 1 queries and k delays |
| `Login.QueriesAndDelays` | backend/server.js:81-104 | at most 5 queries; with valid fields, one query per failed attempt plus the answering one (capped at 5), one delay per query except the last, and the i-th delay is 1000 * (i + 1) ms |
| `Login.BackoffTotal` | backend/server.js:101 | the delays after n failures add up to 1000 * n * (n + 1) / 2 ms |
| `Login.SumAppend` | backend/server.js:101 | the total of the delays grows by the delay appended |
| `Login.ServerErrorIffAllAttemptsThrow` | backend/server.js:96-109 | with valid fields, 500 "server error" happens exactly when all five attempts throw, from the query or from the comparison; then 5 queries were made and the delays were 1000, 2000, 3000, 4000 ms (10 s in total), none after the fifth failure |
| `Login.RecoversOnLastAttempt` | backend/server.js:84-106 | a store that throws for four attempts and answers on the fifth still yields that answer, after 5 queries and 10 s of delay |
| `Cors.Split` | backend/server.js:13 | `split(",")` yields at least one piece, no piece contains the separator, and joining the pieces with the separator gives back the input |
| `Cors.SplitAfterPiece` | backend/server.js:13 | a separator-free leading piece and a separator split off as that piece |
| `Cors.SplitNoSeparator` | backend/server.js:13 | a string without the separator splits into itself alone |
| `Cors.SplitJoin` | backend/server.js:13 | splitting undoes joining for any non-empty list of separator-free pieces |
| `Cors.LeadingSpaces` | backend/server.js:13 | counts the whitespace `trim()` removes at the front: every counted character is whitespace and the next one is not |
| `Cors.TrailingSpaces` | backend/server.js:13 | counts the whitespace `trim()` removes at the back: every counted character is whitespace and the one before them is not |
| `Cors.Trim` | backend/server.js:13 | `trim()` leaves no whitespace at either end, is empty exactly when the input is all whitespace, and introduces no character absent from the input |
| `Cors.LeadingOfPadded` | backend/server.js:13 | whitespace followed by a non-space start counts exactly its own length as leading whitespace |
| `Cors.TrailingOfPadded` | backend/server.js:13 | a non-space end followed by whitespace counts exactly that whitespace as trailing |
| `Cors.TrimOfPadded` | backend/server.js:13 | trimming whitespace-padded text with no whitespace at its own ends gives exactly that text |
| `Cors.TrimIdempotent` | backend/server.js:13 | trimming twice is trimming once |
| `Cors.RawOrigins` | backend/server.js:12 | an unset or empty `CORS_ORIGIN` falls back to the default; any other value is used as is |
| `Cors.TrimAll` | backend/server.js:13 | `map(s => s.trim())`: same length, each entry the trim of the piece at that position |
| `Cors.TrimAllMembers` | backend/server.js:13 | a string is in the trimmed list exactly when it is the trim of some piece |
| `Cors.DropEmpty` | backend/server.js:13 | `filter(Boolean)`: a string is kept exactly when it was in the list and is non-empty |
| `Cors.ParseOrigins` | backend/server.js:13 | every entry of the allow-list is non-empty, free of edge whitespace and comma-free; a string is an entry exactly when it is non-empty and the trim of some comma-separated piece |
| `Cors.SingleEntry` | backend/server.js:13 | a comma-free, unpadded, non-empty setting is a one-entry list |
| `Cors.DefaultList` | backend/server.js:12-13 | with no setting the allow-list is exactly `["http://localhost:3000"]` |
| `Cors.CheckOrigin` | backend/server.js:15-19 | the callback's decision is either allow or the error "CORS not allowed" |
| `Cors.Admit` | backend/server.js:12-19 | the origin callback under the configured setting: allow exactly when the origin is absent or empty or is an element of the parsed list, otherwise the error "CORS not allowed" |
| `Cors.AdmitIff` | backend/server.js:12-18 | a non-empty origin is admitted exactly when it equals the trim of some comma-separated piece of the setting |
| `Cors.NoOriginAdmitted` | backend/server.js:16-17 | a request without an Origin header, or with an empty one, is admitted under any setting |
| `Cors.MalformedOriginDenied` | backend/server.js:13-18 | a non-empty origin with whitespace at either end or containing a comma is refused with "CORS not allowed" |
| `Cors.ConfiguredEntryAdmitted` | backend/server.js:12-18 | every configured entry, however it is padded with whitespace in the setting, is admitted |
| `DbHealth.CheckDb` | backend/server.js:62-70 | `ok` is true exactly when the status is 200 and exactly when the store answered; `db` is "up"/"down" accordingly; a failure gives 500 carrying the failure's message |

## Left out

- Express setup, route registration, `express.json()`, `app.listen`, the root and `/health` routes: framework plumbing with no decisions in it.
- The pg pool, its configuration, its error handler and the SQL text. The store is the per-attempt answer sequence.
- bcrypt's hashing algorithm and its timing behaviour: a foreign library, modelled as the uninterpreted `compare` parameter.
- A NULL `password_hash` column: `Row` carries a string. A comparison that rejects on a bad hash is covered by `CompareThrows`.
- Real time and `setTimeout`: delays are recorded, not waited for.
- async/await scheduling and concurrency between requests. Each request is one sequential run. `HandleLogin` has no `modifies` clause, so no state survives between requests, and repeating a request with the same store answers gives the same trace.
- Reading environment variables: `CORS_ORIGIN` and the `Origin` header are parameters.
- Logging (`console.*`) and the error details it prints. Graceful shutdown and signal handling.
- Request bodies that are not JSON objects. A missing body is the case where both fields are `Absent`.
- Store answers beyond the fifth: the environment must supply at least five store answers (`MaxAttempts <= |store|`). This is the store's behaviour for every attempt the handler might make, not a demand on callers.
