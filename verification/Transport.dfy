/** Bounded retries of one request, and its single replay after a session refresh. */
module Transport {
  import opened Wrappers
  import opened Session

  datatype Verb = Get | Head | Post | Patch | Put | Delete

  datatype RetryPolicy = Default | Idempotent

  /** What one dispatch of the request meets. */
  datatype Outcome = Response(code: int) | ReadTimeout | ConnectTimeout | ConnectionFailure

  /** `retry5xx` extra attempts, whether read timeouts count, and the base of the linear back-off. */
  datatype Retry = Retry(retry5xx: nat, onReadTimeout: bool, backoff: real)

  const RETRY_STATUS: set<int> := {500, 502, 503, 504}

  predicate IsRead(verb: Verb) {
    verb == Get || verb == Head
  }

  predicate CanRetry(verb: Verb, policy: RetryPolicy) {
    IsRead(verb) || policy == Idempotent
  }

  predicate Retryable(verb: Verb, policy: RetryPolicy, retry: Retry, outcome: Outcome) {
    && CanRetry(verb, policy)
    && match outcome
       case Response(code) => code in RETRY_STATUS
       case ReadTimeout => retry.onReadTimeout
       case _ => false
  }

  /** The first `k` sleeps: one, two, ... times the back-off. */
  function BackoffTotal(backoff: real, k: nat): real {
    backoff * (k as real) * ((k + 1) as real) / 2.0
  }

  lemma BackoffNext(backoff: real, k: nat)
    ensures BackoffTotal(backoff, k + 1) == BackoffTotal(backoff, k) + backoff * ((k + 1) as real)
  {
    var x := k as real;
    assert (k + 1) as real == x + 1.0 && (k + 2) as real == x + 2.0;
    assert backoff * (x + 1.0) * (x + 2.0) == backoff * x * (x + 1.0) + 2.0 * (backoff * (x + 1.0));
  }

  lemma BackoffMonotone(backoff: real, j: nat, k: nat)
    requires backoff >= 0.0 && j <= k
    ensures BackoffTotal(backoff, j) <= BackoffTotal(backoff, k)
    decreases k - j
  {
    if j < k {
      BackoffNext(backoff, j);
      BackoffMonotone(backoff, j + 1, k);
    }
  }

  /** `n` dispatches are made: all but the last were retryable, and the last was not or was the last allowed. */
  ghost predicate Settles(verb: Verb, policy: RetryPolicy, retry: Retry, wire: nat -> Outcome, n: nat) {
    && 1 <= n <= 1 + retry.retry5xx
    && (forall k :: 0 <= k < n - 1 ==> Retryable(verb, policy, retry, wire(k)))
    && (n == 1 + retry.retry5xx || !Retryable(verb, policy, retry, wire(n - 1)))
  }

  /** The rule in plain words: who may be sent again, and after what. */
  lemma SentAgainExactly(verb: Verb, policy: RetryPolicy, retry: Retry, wire: nat -> Outcome, n: nat, k: nat)
    requires Settles(verb, policy, retry, wire, n) && k < n
    ensures k + 1 < n <==>
            && k < retry.retry5xx
            && (verb == Get || verb == Head || policy == Idempotent)
            && (wire(k) == Response(500) || wire(k) == Response(502) || wire(k) == Response(503)
                || wire(k) == Response(504) || (wire(k) == ReadTimeout && retry.onReadTimeout))
  {
    assert k < n - 1 ==> Retryable(verb, policy, retry, wire(k));
  }

  lemma SettlesOnce(verb: Verb, policy: RetryPolicy, retry: Retry, wire: nat -> Outcome, m: nat, n: nat)
    requires Settles(verb, policy, retry, wire, m) && Settles(verb, policy, retry, wire, n)
    ensures m == n
  {
  }

  /** `wire(k)` is what the k-th dispatch meets; the outcome of the last dispatch is the result. */
  method Send(verb: Verb, policy: RetryPolicy, retry: Retry, wire: nat -> Outcome)
    returns (result: Outcome, dispatched: nat, slept: real)
    ensures Settles(verb, policy, retry, wire, dispatched) && result == wire(dispatched - 1)
    // A write with the default policy is sent once.
    ensures policy == Default && (verb == Post || verb == Patch || verb == Put || verb == Delete) ==> dispatched == 1
    // Only these outcomes are tried again, and while attempts are left they are.
    ensures forall k :: 0 <= k < dispatched - 1 ==>
              wire(k) in {Response(500), Response(502), Response(503), Response(504)}
              || (wire(k) == ReadTimeout && retry.onReadTimeout)
    ensures (verb == Get || verb == Head || policy == Idempotent) && dispatched < 1 + retry.retry5xx ==>
              result !in {Response(500), Response(502), Response(503), Response(504)}
              && (result == ReadTimeout ==> !retry.onReadTimeout)
    ensures slept == retry.backoff * (dispatched as real - 1.0) * (dispatched as real) / 2.0
    ensures slept == BackoffTotal(retry.backoff, dispatched - 1)
    ensures retry.backoff >= 0.0 ==> slept <= BackoffTotal(retry.backoff, retry.retry5xx)
  {
    var attempts := 1 + retry.retry5xx;
    slept, dispatched := 0.0, 0;
    result := wire(0);
    for attempt := 1 to attempts + 1
      invariant dispatched == attempt - 1
      invariant slept == BackoffTotal(retry.backoff, dispatched)
      invariant forall k :: 0 <= k < dispatched ==> Retryable(verb, policy, retry, wire(k))
      invariant dispatched > 0 ==> dispatched < attempts && CanRetry(verb, policy)
    {
      result := wire(dispatched);
      dispatched := attempt;
      if !(attempt < attempts && Retryable(verb, policy, retry, result)) {
        if retry.backoff >= 0.0 {
          BackoffMonotone(retry.backoff, dispatched - 1, retry.retry5xx);
        }
        return;
      }
      BackoffNext(retry.backoff, attempt - 1);
      slept := slept + retry.backoff * (attempt as real);
    }
  }

  // ----- one request: refresh first if there is no token, and once more after a 401 -----

  datatype Answered =
    | Delivered(code: int)
    | TimedOut
    | Unreachable
    | RefreshFailed(failure: Failure)

  function Translate(outcome: Outcome): Answered {
    match outcome
    case Response(code) => Delivered(code)
    case ReadTimeout => TimedOut
    case ConnectTimeout => TimedOut
    case ConnectionFailure => Unreachable
  }

  /** A status is delivered, both kinds of timeout are one error, and a failed connection is another. */
  lemma TranslateExactly(outcome: Outcome, code: int)
    ensures Translate(outcome) == Delivered(code) <==> outcome == Response(code)
    ensures Translate(outcome) == TimedOut <==> outcome == ReadTimeout || outcome == ConnectTimeout
    ensures Translate(outcome) == Unreachable <==> outcome == ConnectionFailure
  {
  }

  /** The environment of one request: two series of dispatches and two possible refresh replies. */
  datatype Wire = Wire(first: nat -> Outcome, second: nat -> Outcome, replyBefore: Reply, replyAfter: Reply)

  /** The failure a refresh ends with, if any. */
  function RefreshFailure(c: Client, observed: Option<Token>, reply: Reply): Option<Failure> {
    match Decide(c, observed)
    case Superseded => None
    case Remembered(f) => Some(f)
    case MustPost => (match Judge(reply) case Ok(_) => None case Err(f) => Some(f))
  }

  function AfterRefresh(c: Client, observed: Option<Token>, reply: Reply): Client {
    if Decide(c, observed) == MustPost then Settled(c, observed, reply) else c
  }

  /** The client before the first dispatch. */
  function Ready(c: Client, authenticated: bool, wire: Wire): Client {
    if authenticated && c.mode == Mode.Session && c.key.None? then AfterRefresh(c, None, wire.replyBefore) else c
  }

  predicate Expired(c: Client, verb: Verb, authenticated: bool, outcome: Outcome) {
    authenticated && IsRead(verb) && outcome == Response(401) && c.mode == Mode.Session
  }

  method Request(session: HttpSession, verb: Verb, authenticated: bool, policy: RetryPolicy, retry: Retry, wire: Wire)
    returns (answer: Answered, first: nat, second: nat, posts: nat, slept: real)
    modifies session
    // Nothing is sent exactly when the refresh needed to get a token at all fails.
    ensures var c := old(session.View());
            first == 0 <==> (authenticated && c.mode == Mode.Session && c.key.None?
                             && RefreshFailure(c, None, wire.replyBefore).Some?)
    ensures first == 0 ==> second == 0
    ensures first == 0 ==> answer == RefreshFailed(RefreshFailure(old(session.View()), None, wire.replyBefore).value)
    ensures first > 0 ==> Settles(verb, policy, retry, wire.first, first)
    // A second series is sent only for an authenticated read that met 401, and only after a refresh that worked.
    ensures var c := Ready(old(session.View()), authenticated, wire);
            first > 0 ==>
              if !Expired(c, verb, authenticated, wire.first(first - 1)) then
                second == 0 && answer == Translate(wire.first(first - 1)) && session.View() == c
              else
                && session.View() == AfterRefresh(c, c.key, wire.replyAfter)
                && match RefreshFailure(c, c.key, wire.replyAfter)
                   case Some(f) => second == 0 && answer == RefreshFailed(f)
                   case None =>
                     Settles(verb, policy, retry, wire.second, second) && answer == Translate(wire.second(second - 1))
    ensures IsRead(verb) ==> first + second <= 2 * (1 + retry.retry5xx)
    ensures !IsRead(verb) ==> first + second <= 1 + retry.retry5xx
    ensures policy == Default && (verb == Post || verb == Patch || verb == Put || verb == Delete) ==>
              first + second <= 1
    ensures verb == Get || verb == Head ==> first + second <= 2 * (1 + retry.retry5xx)
    // Such a read in Session mode is always refreshed for, and replayed unless that fails.
    ensures authenticated && (verb == Get || verb == Head) && old(session.mode) == Mode.Session ==>
              first > 0 && wire.first(first - 1) == Response(401) ==> second > 0 || answer.RefreshFailed?
    ensures second > 0 ==> authenticated && (verb == Get || verb == Head) && wire.first(first - 1) == Response(401)
    ensures posts <= if IsRead(verb) then 2 else 1
    ensures retry.backoff >= 0.0 ==> slept <= 2.0 * BackoffTotal(retry.backoff, retry.retry5xx)
  {
    first, second, posts, slept := 0, 0, 0, 0.0;
    if retry.backoff >= 0.0 { BackoffMonotone(retry.backoff, 0, retry.retry5xx); }
    assert BackoffTotal(retry.backoff, 0) == 0.0;
    hide BackoffTotal, Retryable, Judge, Settled;
    if authenticated && session.mode == Mode.Session && session.key == None {
      var failure, posted := session.RefreshSession(None, wire.replyBefore);
      posts := if posted then 1 else 0;
      if failure.Some? {
        answer := RefreshFailed(failure.value);
        return;
      }
    }
    var observed := session.key;
    var result;
    result, first, slept := Send(verb, policy, retry, wire.first);
    answer := Translate(result);
    if authenticated && IsRead(verb) && result == Response(401) && session.mode == Mode.Session {
      var failure, posted := session.RefreshSession(observed, wire.replyAfter);
      posts := posts + if posted then 1 else 0;
      if failure.Some? {
        answer := RefreshFailed(failure.value);
        return;
      }
      var pause;
      result, second, pause := Send(verb, policy, retry, wire.second);
      slept := slept + pause;
      answer := Translate(result);
    }
  }
}
