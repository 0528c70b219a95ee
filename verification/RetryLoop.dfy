/** The request loop of `AsyncApiClient`, against any script of replies. */
module RetryLoop {
  import opened Common

  /** What one attempt meets: a response, a timeout or broken connection, or some other exception. */
  datatype Reply =
    | Response(status: nat, retryAfter: Option<nat>, body: string)
    | NetworkError
    | OtherException

  datatype Outcome =
    | Body(body: string)
    | RateLimitError(retryAfter: Option<nat>)
    | AuthenticationError
    | ApiError(status: Option<nat>)                 // MarketplaceApiError; no status for a network error
    | Propagated                                    // an exception the loop does not catch
    | RequestFailed                                 // no attempt was made
    | AttemptsExhausted                             // the message written after the loop

  function Pow2(n: nat): nat {
    if n == 0 then 1 else 2 * Pow2(n - 1)
  }

  predicate Retryable(r: Reply) {
    match r
    case Response(status, _, _) => status == 429 || status >= 500
    case NetworkError => true
    case OtherException => false
  }

  /** httpx calls a response an error when its status is 4xx or 5xx. */
  predicate IsError(status: nat) {
    400 <= status <= 599
  }

  /** Worth another attempt, written out: 429, any status from 500 on, or a broken connection. */
  ghost predicate Transient(r: Reply) {
    r.NetworkError? || (r.Response? && (r.status == 429 || r.status >= 500))
  }

  /** What the caller gets when `r` is the last reply. */
  function Verdict(r: Reply): Outcome {
    match r
    case NetworkError => ApiError(None)
    case OtherException => Propagated
    case Response(status, retryAfter, body) =>
      if status == 429 then RateLimitError(retryAfter)
      else if status == 401 then AuthenticationError
      else if IsError(status) then ApiError(Some(status))
      else Body(body)
  }

  /** The pause after attempt `k`: `retry_after or 2**attempt`, so a Retry-After of zero is ignored. */
  function Pause(r: Reply, k: nat): nat {
    if r.Response? && r.status == 429 && r.retryAfter.Some? && r.retryAfter.value > 0 then r.retryAfter.value
    else Pow2(k)
  }

  function Pauses(server: nat -> Reply, k: nat): (s: seq<nat>)
    ensures |s| == k
  {
    if k == 0 then [] else Pauses(server, k - 1) + [Pause(server(k - 1), k - 1)]
  }

  lemma {:induction false} PausesAt(server: nat -> Reply, k: nat, j: nat)
    requires j < k
    ensures Pauses(server, k)[j] == Pause(server(j), j)
  {
    if j < k - 1 {
      PausesAt(server, k - 1, j);
    }
  }

  /** What the loop does, written out.  It stops at the first reply that is not transient or at the last
      attempt allowed.  Before attempt `j + 1` it sleeps what a 429 reply asks for, if more than zero, else
      2^j seconds.  The last reply decides the outcome. */
  ghost predicate Follows(server: nat -> Reply, maxAttempts: int, outcome: Outcome, sent: nat, slept: seq<nat>) {
    && 1 <= sent <= maxAttempts && |slept| == sent - 1
    && (forall j: nat | j < sent - 1 :: Transient(server(j)))
    && (sent < maxAttempts ==> !Transient(server(sent - 1)))
    && (forall j: nat | j < sent - 1 ::
          slept[j] == if server(j).Response? && server(j).status == 429
                         && server(j).retryAfter.Some? && server(j).retryAfter.value > 0
                      then server(j).retryAfter.value else Pow2(j))
    && match server(sent - 1)
       case NetworkError => outcome == ApiError(None)
       case OtherException => outcome == Propagated
       case Response(status, retryAfter, body) =>
         && (status == 429 ==> outcome == RateLimitError(retryAfter))
         && (status == 401 ==> outcome == AuthenticationError)
         && (400 <= status < 600 && status != 429 && status != 401 ==> outcome == ApiError(Some(status)))
         && (status < 400 || status >= 600 ==> outcome == Body(body))
  }

  lemma DecidedFollows(server: nat -> Reply, maxAttempts: int, k: nat)
    requires DecidedAt(server, maxAttempts, k)
    ensures Follows(server, maxAttempts, Verdict(server(k)), k + 1, Pauses(server, k))
  {
    forall j: nat | j < k ensures Transient(server(j)) && Pauses(server, k)[j] == Pause(server(j), j) {
      PausesAt(server, k, j);
      assert Retryable(server(j));
    }
  }

  /** Attempt `k` is the one whose reply decides. */
  ghost predicate DecidedAt(server: nat -> Reply, maxAttempts: int, k: nat) {
    && k < maxAttempts
    && (forall j: nat | j < k :: Retryable(server(j)))
    && (k == maxAttempts - 1 || !Retryable(server(k)))
  }

  class AsyncApiClient {
    const maxRetries: int

    constructor (maxRetries: int)
      ensures this.maxRetries == maxRetries
    {
      this.maxRetries := maxRetries;
    }

    /** `request`: sends until a reply decides, pausing before each retry.  The code after the loop is
        reached only when no attempt is allowed at all. */
    method Request(server: nat -> Reply, retries: Option<int>)
      returns (outcome: Outcome, sent: nat, slept: seq<nat>)
      ensures var maxAttempts := if retries.Some? then retries.value else maxRetries;
              if maxAttempts <= 0 then outcome == RequestFailed && sent == 0 && slept == []
              else
                && Follows(server, maxAttempts, outcome, sent, slept)
                && DecidedAt(server, maxAttempts, sent - 1)
                && outcome == Verdict(server(sent - 1)) && slept == Pauses(server, sent - 1)
      ensures outcome != AttemptsExhausted
    {
      var maxAttempts := if retries.Some? then retries.value else maxRetries;
      var lastException := false;
      var attempt := 0;
      sent, slept := 0, [];
      while attempt < maxAttempts
        invariant 0 <= attempt && (attempt == 0 || attempt < maxAttempts)
        invariant forall j: nat | j < attempt :: Retryable(server(j))
        invariant sent == attempt && slept == Pauses(server, attempt)
        invariant lastException ==> attempt > 0
      {
        var reply := server(attempt);
        sent := sent + 1;
        if DecidedAt(server, maxAttempts, attempt) {
          DecidedFollows(server, maxAttempts, attempt);
        }
        match reply
        case Response(status, retryAfter, body) =>
          if status == 429 {
            if attempt < maxAttempts - 1 {
              var wait := if retryAfter.Some? && retryAfter.value != 0 then retryAfter.value else Pow2(attempt);
              slept := slept + [wait];
              attempt := attempt + 1;
              continue;
            }
            return RateLimitError(retryAfter), sent, slept;
          }
          if status == 401 {
            return AuthenticationError, sent, slept;
          }
          if status >= 500 && attempt < maxAttempts - 1 {
            slept := slept + [Pow2(attempt)];
            attempt := attempt + 1;
            continue;
          }
          if IsError(status) {
            return ApiError(Some(status)), sent, slept;
          }
          return Body(body), sent, slept;
        case NetworkError =>
          lastException := true;
          if attempt < maxAttempts - 1 {
            slept := slept + [Pow2(attempt)];
            attempt := attempt + 1;
            continue;
          }
          return ApiError(None), sent, slept;
        case OtherException =>
          return Propagated, sent, slept;
      }
      if lastException {
        assert false;
        outcome := AttemptsExhausted;
      } else {
        outcome := RequestFailed;
      }
    }
  }

  // ----- What the contract of `Request` means

  function Total(s: seq<nat>): nat {
    if s == [] then 0 else Total(s[..|s| - 1]) + s[|s| - 1]
  }

  ghost predicate NamesAPause(r: Reply) {
    r.Response? && r.status == 429 && r.retryAfter.Some? && r.retryAfter.value > 0
  }

  /** Exponential backoff: with no (positive) Retry-After, `k` retries sleep 2^k - 1 seconds in all. */
  lemma {:induction false} BackoffTotal(server: nat -> Reply, k: nat)
    requires forall j: nat | j < k :: !NamesAPause(server(j))
    ensures Total(Pauses(server, k)) == Pow2(k) - 1
  {
    if k > 0 {
      BackoffTotal(server, k - 1);
      assert Pauses(server, k) == Pauses(server, k - 1) + [Pow2(k - 1)];
    }
  }

  /** Some attempt decides, and only one. */
  lemma {:induction false} OneDecides(server: nat -> Reply, maxAttempts: int) returns (k: nat)
    requires maxAttempts > 0
    ensures DecidedAt(server, maxAttempts, k)
    ensures forall j: nat :: DecidedAt(server, maxAttempts, j) ==> j == k
    decreases maxAttempts
  {
    if maxAttempts == 1 {
      k := 0;
    } else {
      k := OneDecides(server, maxAttempts - 1);
      if Retryable(server(k)) {
        k := maxAttempts - 1;
      }
    }
  }

  /** Allowing more attempts changes the result only if the deciding reply was itself worth a retry. */
  lemma MoreAttemptsChangeNothingElse(server: nat -> Reply, few: int, many: int, k: nat, l: nat)
    requires few <= many && DecidedAt(server, few, k) && DecidedAt(server, many, l)
    ensures k <= l
    ensures !Retryable(server(k)) ==> l == k
    ensures Retryable(server(k)) && few < many ==> l > k
  {
    assert l >= k || Retryable(server(l));
    assert k >= l || Retryable(server(k));
  }

  /** A body is returned exactly when some attempt in range is answered with a status outside 4xx and
      5xx and every attempt before it failed in a retryable way; a status of 600 or more counts as a
      failure to retry, except on the last attempt, where its body is returned. */
  lemma BodyExactly(server: nat -> Reply, maxAttempts: int, k: nat, body: string)
    requires DecidedAt(server, maxAttempts, k)
    ensures Verdict(server(k)) == Body(body) <==>
            exists j: nat ::
              && j < maxAttempts && server(j).Response? && server(j).body == body
              && (server(j).status < 400 || (server(j).status >= 600 && j == maxAttempts - 1))
              && forall i: nat | i < j :: Retryable(server(i))
  {
    if j: nat :|
      && j < maxAttempts && server(j).Response? && server(j).body == body
      && (server(j).status < 400 || (server(j).status >= 600 && j == maxAttempts - 1))
      && (forall i: nat | i < j :: Retryable(server(i)))
    {
      assert j >= k || Retryable(server(j));
      assert k >= j || Retryable(server(k));
    }
  }
}
