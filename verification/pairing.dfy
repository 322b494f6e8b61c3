/** The pairing coordinator (`get_token` in drivers/aurora/driver.js):
    asks a discovered controller for an access token until one attempt
    succeeds or the attempt ceiling is passed. */
module Pairing {
  import opened Wrappers
  import opened Api
  import opened Discovery

  datatype PairError = InvalidDevice | Timeout

  /** The device record handed back to the hub after pairing. */
  datatype Paired = Paired(name: string, id: string, token: string)

  /** The guard `numTries > 30` is tested after the counter is bumped. */
  const TryLimit: nat := 30

  /** The outcome of `newToken()` on each attempt, numbered from 0. The
      one-second waits between attempts are not modelled. */
  type TokenSource = nat -> Result<string, ApiError>

  /** `getTokenTry` after `tries` attempts: the outcome and the total number
      of attempts made. */
  function Attempts(source: TokenSource, tries: nat): (Result<string, PairError>, nat)
    requires tries <= TryLimit
    decreases TryLimit - tries
  {
    var n := tries + 1;
    match source(tries)
    case Success(token) => (Success(token), n)
    case Failure(_) => if n > TryLimit then (Failure(Timeout), n) else Attempts(source, n)
  }

  /** The loop resolves with the first successful attempt's token and stops
      there; otherwise it gives up with `Timeout` once attempt 31 fails. */
  lemma {:induction false} AttemptsContract(source: TokenSource, tries: nat)
    requires tries <= TryLimit
    ensures var (r, n) := Attempts(source, tries);
            && tries < n <= TryLimit + 1
            && (forall k :: tries <= k < n - 1 ==> source(k).Failure?)
            && (r.Success? ==> source(n - 1) == Success(r.value))
            && (r.Failure? ==> r.error == Timeout && n == TryLimit + 1 && source(n - 1).Failure?)
    decreases TryLimit - tries
  {
    if source(tries).Failure? && tries + 1 <= TryLimit {
      AttemptsContract(source, tries + 1);
    }
  }

  /** `get_token` for the id `id`: the paired record or the error, and the
      number of `newToken` attempts made. */
  function GetToken(store: Store, id: string, source: TokenSource): (Result<Paired, PairError>, nat) {
    if id !in store then (Failure(InvalidDevice), 0)
    else
      var (r, n) := Attempts(source, 0);
      match r
      case Success(token) => (Success(Paired(store[id].name, id, token)), n)
      case Failure(e) => (Failure(e), n)
  }

  /** An unknown id fails at once, without any attempt. */
  lemma UnknownDeviceIsRejected(store: Store, id: string, source: TokenSource)
    requires id !in store
    ensures GetToken(store, id, source) == (Failure(InvalidDevice), 0)
  {
  }

  /** If attempt `k` (0-based, at most 30) is the first to succeed, pairing
      resolves with its token after exactly `k + 1` attempts. */
  lemma {:induction false} FirstSuccessWins(store: Store, id: string, source: TokenSource, k: nat)
    requires id in store
    requires k <= TryLimit && source(k).Success?
    requires forall j :: 0 <= j < k ==> source(j).Failure?
    ensures GetToken(store, id, source) == (Success(Paired(store[id].name, id, source(k).value)), k + 1)
  {
    AttemptsContract(source, 0);
    var (r, n) := Attempts(source, 0);
    assert r.Success? ==> n - 1 == k;
  }

  /** A controller that never grants a token is given up on with `Timeout`
      after exactly 31 attempts. */
  lemma {:induction false} AlwaysFailingTimesOut(store: Store, id: string, source: TokenSource)
    requires id in store
    requires forall k :: source(k).Failure?
    ensures GetToken(store, id, source) == (Failure(Timeout), 31)
  {
    AttemptsContract(source, 0);
    var (r, n) := Attempts(source, 0);
    assert source(n - 1).Failure?;
  }
}
