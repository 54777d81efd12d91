/**
  The `POST /login` handler of the backend: field validation, a bounded
  retry loop with linear backoff around the credential lookup and the
  password comparison, and the mapping of every outcome to an HTTP response.

  The credential store is abstracted to the sequence of answers it gives to
  the successive queries of one request, the password hash comparison to an
  uninterpreted (possibly throwing) function, and sleeping to a recorded list
  of requested delays.
 */
module Login {

  /** A JSON value as it can appear in a field of the request body. */
  datatype Value =
    | Absent              // the field is missing (or the body is)
    | Null
    | Bool(b: bool)
    | Num(x: real)
    | Str(s: string)
    | Compound            // an object or an array

  /** JavaScript truthiness, as used by `!username || !password`: the falsy
      values are exactly undefined, null, false, 0 and the empty string. */
  predicate Truthy(v: Value)
    ensures !Truthy(v) <==> v in {Absent, Null, Bool(false), Num(0.0), Str("")}
  {
    match v
    case Absent => false
    case Null => false
    case Bool(b) => b
    case Num(x) => x != 0.0
    case Str(s) => s != ""
    case Compound => true
  }

  datatype LoginRequest = LoginRequest(username: Value, password: Value)

  /** What one `SELECT password_hash FROM users WHERE username = $1` yields. */
  datatype QueryResult =
    | QueryThrows         // the query rejected (store unreachable, not ready, ...)
    | NoRows              // no user with that name
    | Row(hash: string)   // the first row's password_hash

  /** What the hash comparison yields for one candidate password and hash. */
  datatype CompareResult = Match | Mismatch | CompareThrows

  datatype Body = Error(message: string) | Success(user: Value)

  datatype Response = Response(status: nat, body: Body)

  /** Everything observable about one request: the response, how many store
      queries were issued and which delays (in ms) were requested. */
  datatype Trace = Trace(response: Response, queries: nat, delays: seq<nat>)

  const MaxAttempts: nat := 5
  const BackoffUnitMs: nat := 1000

  const MissingFields := Response(400, Error("username and password required"))
  const InvalidCredentials := Response(401, Error("invalid credentials"))
  const ServerError := Response(500, Error("server error"))

  function Accepted(user: Value): Response {
    Response(200, Success(user))
  }

  /** Whether the request passes the presence check of the handler. */
  predicate HasCredentials(req: LoginRequest)
    ensures HasCredentials(req) ==> req.username != Absent && req.password != Absent
    ensures req.username.Str? && req.password.Str? ==>
      (HasCredentials(req) <==> req.username.s != "" && req.password.s != "")
  {
    Truthy(req.username) && Truthy(req.password)
  }

  /** The outcome of one pass through the body of the `try` inside the loop. */
  datatype AttemptOutcome = Threw | Answered(response: Response)

  /** One attempt: the lookup, then (when a row came back) the comparison.
      An exception from either step makes the attempt throw. */
  function Attempt(req: LoginRequest, row: QueryResult, compare: (Value, string) -> CompareResult)
    : (r: AttemptOutcome)
    ensures r.Threw? <==> row.QueryThrows? || (row.Row? && compare(req.password, row.hash) == CompareThrows)
    ensures r.Answered? ==> r.response == InvalidCredentials || r.response == Accepted(req.username)
    ensures r == Answered(Accepted(req.username)) <==> row.Row? && compare(req.password, row.hash) == Match
  {
    match row
    case QueryThrows => Threw
    case NoRows => Answered(InvalidCredentials)
    case Row(hash) =>
      match compare(req.password, hash)
      case CompareThrows => Threw
      case Mismatch => Answered(InvalidCredentials)
      case Match => Answered(Accepted(req.username))
  }

  /** The outcome of each attempt the handler can make against `store`. */
  function Outcomes(req: LoginRequest, store: seq<QueryResult>, compare: (Value, string) -> CompareResult)
    : (r: seq<AttemptOutcome>)
    requires MaxAttempts <= |store|
    ensures |r| == MaxAttempts
    ensures forall j :: 0 <= j < MaxAttempts ==> r[j] == Attempt(req, store[j], compare)
  {
    seq(MaxAttempts, j requires 0 <= j < MaxAttempts => Attempt(req, store[j], compare))
  }

  /** The number of attempts that throw before the first one that answers. */
  function LeadingFailures(outs: seq<AttemptOutcome>): (k: nat)
    ensures k <= |outs|
    ensures forall j :: 0 <= j < k ==> outs[j].Threw?
    ensures k < |outs| ==> outs[k].Answered?
  {
    if outs == [] || outs[0].Answered? then 0 else 1 + LeadingFailures(outs[1..])
  }

  /** The delays requested after the first `n` failed attempts. */
  function Backoff(n: nat): (r: seq<nat>)
    ensures |r| == n
    ensures forall i :: 0 <= i < n ==> r[i] == BackoffUnitMs * (i + 1)
  {
    if n == 0 then [] else Backoff(n - 1) + [BackoffUnitMs * n]
  }

  function Sum(s: seq<nat>): nat {
    if s == [] then 0 else s[0] + Sum(s[1..])
  }

  /** What the handler does, stated in terms of the first attempt that does
      not throw: its answer is the response, after one query per attempt so
      far and one delay per failure; if all attempts throw, the response is a
      server error and no delay follows the last failure. */
  function LoginSpec(req: LoginRequest, store: seq<QueryResult>, compare: (Value, string) -> CompareResult)
    : Trace
    requires MaxAttempts <= |store|
  {
    if !HasCredentials(req) then
      Trace(MissingFields, 0, [])
    else
      var outs := Outcomes(req, store, compare);
      var k := LeadingFailures(outs);
      if k < MaxAttempts then Trace(outs[k].response, k + 1, Backoff(k))
      else Trace(ServerError, MaxAttempts, Backoff(MaxAttempts - 1))
  }

  /** The handler itself: validation, then the retry loop. A thrown attempt
      increments `attempts`; while attempts remain it requests a delay of
      `1000 * attempts` ms and retries, otherwise the error escapes the loop
      and the outer handler answers with a server error. */
  method HandleLogin(req: LoginRequest, store: seq<QueryResult>, compare: (Value, string) -> CompareResult)
    returns (t: Trace)
    requires MaxAttempts <= |store|
    ensures t == LoginSpec(req, store, compare)
  {
    if !Truthy(req.username) || !Truthy(req.password) {
      return Trace(MissingFields, 0, []);
    }
    ghost var outs := Outcomes(req, store, compare);
    var attempts: nat := 0;
    var queries: nat := 0;
    var delays: seq<nat> := [];
    while attempts < MaxAttempts
      invariant attempts <= MaxAttempts
      invariant queries == attempts
      invariant forall j :: 0 <= j < attempts ==> outs[j].Threw?
      invariant attempts < MaxAttempts ==> delays == Backoff(attempts)
      invariant attempts == MaxAttempts ==> delays == Backoff(MaxAttempts - 1)
      decreases MaxAttempts - attempts
    {
      queries := queries + 1;
      match store[attempts] {
        case QueryThrows =>
          // the query rejected
        case NoRows =>
          return Trace(InvalidCredentials, queries, delays);
        case Row(hash) =>
          match compare(req.password, hash) {
            case CompareThrows =>
              // the comparison rejected
            case Mismatch =>
              return Trace(InvalidCredentials, queries, delays);
            case Match =>
              return Trace(Accepted(req.username), queries, delays);
          }
      }
      // the attempt threw
      attempts := attempts + 1;
      if attempts < MaxAttempts {
        delays := delays + [BackoffUnitMs * attempts];
        continue;
      }
      break;
    }
    t := Trace(ServerError, queries, delays);
  }

  // ----- properties of the handler -----

  /** A missing or falsy field is answered with 400 before any query. */
  lemma MissingFieldsNeverQuery(req: LoginRequest, store: seq<QueryResult>, compare: (Value, string) -> CompareResult)
    requires MaxAttempts <= |store|
    requires !Truthy(req.username) || !Truthy(req.password)
    ensures LoginSpec(req, store, compare) == Trace(MissingFields, 0, [])
  {
  }

  /** The response is always one of the four the handler can send, and a
      success always echoes the submitted username. */
  lemma ResponseKinds(req: LoginRequest, store: seq<QueryResult>, compare: (Value, string) -> CompareResult)
    requires MaxAttempts <= |store|
    ensures var r := LoginSpec(req, store, compare).response;
      r == MissingFields || r == InvalidCredentials || r == ServerError || r == Accepted(req.username)
    ensures LoginSpec(req, store, compare).response.status == 401 ==>
      LoginSpec(req, store, compare).response == InvalidCredentials
    ensures LoginSpec(req, store, compare).response.status == 200 ==>
      LoginSpec(req, store, compare).response == Accepted(req.username)
  {
  }

  /** An unknown username and a wrong password for an existing user, after the
      same number of failed attempts, are indistinguishable: same response
      (401, identical body), same number of queries, same delays. */
  lemma UnknownUserLooksLikeWrongPassword(
    req: LoginRequest, unknown: seq<QueryResult>, wrong: seq<QueryResult>,
    compare: (Value, string) -> CompareResult, k: nat)
    requires HasCredentials(req)
    requires k < MaxAttempts <= |unknown| && MaxAttempts <= |wrong|
    requires forall j :: 0 <= j < k ==> Attempt(req, unknown[j], compare).Threw?
    requires forall j :: 0 <= j < k ==> Attempt(req, wrong[j], compare).Threw?
    requires unknown[k] == NoRows
    requires wrong[k].Row? && compare(req.password, wrong[k].hash) == Mismatch
    ensures LoginSpec(req, unknown, compare) == LoginSpec(req, wrong, compare)
    ensures LoginSpec(req, unknown, compare) == Trace(InvalidCredentials, k + 1, Backoff(k))
  {
  }

  /** If the first attempt that does not throw finds a row whose hash matches,
      the login succeeds and echoes the submitted username. */
  lemma MatchIsAccepted(req: LoginRequest, store: seq<QueryResult>, compare: (Value, string) -> CompareResult, k: nat)
    requires HasCredentials(req)
    requires k < MaxAttempts <= |store|
    requires forall j :: 0 <= j < k ==> Attempt(req, store[j], compare).Threw?
    requires store[k].Row? && compare(req.password, store[k].hash) == Match
    ensures LoginSpec(req, store, compare) == Trace(Accepted(req.username), k + 1, Backoff(k))
  {
  }

  /** At most five queries; with valid fields, one query per failed attempt
      plus the one that answered; one delay per failure except the fifth;
      the i-th delay is exactly 1000 * (i + 1) ms. */
  lemma QueriesAndDelays(req: LoginRequest, store: seq<QueryResult>, compare: (Value, string) -> CompareResult)
    requires MaxAttempts <= |store|
    ensures var t := LoginSpec(req, store, compare);
      && t.queries <= MaxAttempts
      && (HasCredentials(req) ==> 1 <= t.queries && |t.delays| == t.queries - 1)
      && (HasCredentials(req) ==>
            var k := LeadingFailures(Outcomes(req, store, compare));
            t.queries == if k < MaxAttempts then k + 1 else MaxAttempts)
      && forall i :: 0 <= i < |t.delays| ==> t.delays[i] == BackoffUnitMs * (i + 1)
  {
  }

  /** The total time slept after `n` failures is 1000 * n * (n + 1) / 2 ms. */
  lemma {:induction false} BackoffTotal(n: nat)
    ensures 2 * Sum(Backoff(n)) == BackoffUnitMs * n * (n + 1)
  {
    if n > 0 {
      BackoffTotal(n - 1);
      SumAppend(Backoff(n - 1), BackoffUnitMs * n);
    }
  }

  lemma {:induction false} SumAppend(s: seq<nat>, x: nat)
    ensures Sum(s + [x]) == Sum(s) + x
  {
    if s != [] {
      assert (s + [x])[1..] == s[1..] + [x];
      SumAppend(s[1..], x);
    }
  }

  /** A response of 500 happens exactly when all five attempts throw, whether
      from the query or from the comparison; then five queries were made and
      the delays were 1000, 2000, 3000 and 4000 ms, 10 s in total. */
  lemma ServerErrorIffAllAttemptsThrow(req: LoginRequest, store: seq<QueryResult>, compare: (Value, string) -> CompareResult)
    requires HasCredentials(req)
    requires MaxAttempts <= |store|
    ensures LoginSpec(req, store, compare).response == ServerError <==>
      forall j :: 0 <= j < MaxAttempts ==> Attempt(req, store[j], compare).Threw?
    ensures LoginSpec(req, store, compare).response == ServerError ==>
      && LoginSpec(req, store, compare).queries == MaxAttempts
      && LoginSpec(req, store, compare).delays == [1000, 2000, 3000, 4000]
      && Sum(LoginSpec(req, store, compare).delays) == 10000
  {
    var outs := Outcomes(req, store, compare);
    var k := LeadingFailures(outs);
    if k < MaxAttempts {
      assert outs[k].Answered?;
      assert Attempt(req, store[k], compare).Answered?;
    }
    assert Backoff(4) == [1000, 2000, 3000, 4000];
    BackoffTotal(4);
  }

  /** A store that is not ready for four attempts and answers on the fifth
      still yields that answer, after 10 s of backoff in total. */
  lemma RecoversOnLastAttempt(req: LoginRequest, store: seq<QueryResult>, compare: (Value, string) -> CompareResult)
    requires HasCredentials(req)
    requires MaxAttempts <= |store|
    requires forall j :: 0 <= j < MaxAttempts - 1 ==> store[j] == QueryThrows
    requires Attempt(req, store[MaxAttempts - 1], compare).Answered?
    ensures LoginSpec(req, store, compare).response == Attempt(req, store[MaxAttempts - 1], compare).response
    ensures LoginSpec(req, store, compare).queries == MaxAttempts
    ensures Sum(LoginSpec(req, store, compare).delays) == 10000
  {
    BackoffTotal(MaxAttempts - 1);
  }
}
