/**
  `check_endpoint` of `index.py`: one check cycle of one endpoint. A request
  either yields a response or raises; a response is classified against the
  stored history (first sight, status change, body drift, no change); a read
  timeout is retried a bounded number of times; anything else that is raised,
  including errors raised by the classification itself, becomes an outage
  that is reported once.
 */
module EndpointCheck {
  import opened Wrappers
  import opened Endpoint
  import Levenshtein

  /**
    The exceptions the check distinguishes, by their Python type name
    (`requests.ReadTimeout` is the only one that is retried). `typeName` is the
    name of any other type; it is never one of the names the other
    constructors stand for.
   */
  datatype Exception =
    | ReadTimeout
    | ZeroDivisionError
    | TypeError
    | OtherException(typeName: string)

  /** What one request to the endpoint's URL produced. */
  datatype Outcome =
    | Response(statusCode: nat, text: string)
    | Raise(exception: Exception)

  /** The messages the check logs; the error-flagged ones are the alerts. */
  datatype Message =
    | Retrying
    | Traceback(exception: Exception)
    | StatusChanged(before: int, after: int)
    | BodyChanged(percent: int)
    | NoLongerAvailable(exception: Exception)
  {
    /** True for the messages logged with `is_error` set. */
    predicate IsError()
    {
      StatusChanged? || BodyChanged? || NoLongerAvailable?
    }
  }

  /** One logged line, prefixed by the endpoint's name. */
  datatype LogLine = LogLine(name: string, message: Message)

  /** The messages of the error-flagged lines, in order. */
  function Alerts(log: seq<LogLine>): (a: seq<Message>)
    ensures |a| <= |log|
    ensures forall i :: 0 <= i < |a| ==> a[i].IsError()
    ensures forall i :: 0 <= i < |log| && log[i].message.IsError() ==> log[i].message in a
    decreases |log|
  {
    if |log| == 0 then []
    else (if log[0].message.IsError() then [log[0].message] else []) + Alerts(log[1..])
  }

  /** Every alert is the message of some line of the log: nothing is invented. */
  lemma {:induction false} AlertsFromLog(log: seq<LogLine>, i: nat)
    requires i < |Alerts(log)|
    ensures exists j :: 0 <= j < |log| && log[j].message == Alerts(log)[i]
    decreases |log|
  {
    if log[0].message.IsError() {
      if i == 0 {
        assert log[0].message == Alerts(log)[0];
      } else {
        AlertsFromLog(log[1..], i - 1);
        var j :| 0 <= j < |log[1..]| && log[1..][j].message == Alerts(log[1..])[i - 1];
        assert log[j + 1].message == Alerts(log)[i];
      }
    } else {
      AlertsFromLog(log[1..], i);
      var j :| 0 <= j < |log[1..]| && log[1..][j].message == Alerts(log[1..])[i];
      assert log[j + 1].message == Alerts(log)[i];
    }
  }

  /** The alerts of a concatenated log are those of its parts, in order. */
  lemma {:induction false} AlertsConcat(a: seq<LogLine>, b: seq<LogLine>)
    ensures Alerts(a + b) == Alerts(a) + Alerts(b)
    decreases |a|
  {
    if |a| == 0 {
      assert a + b == b;
    } else {
      assert (a + b)[1..] == a[1..] + b;
      AlertsConcat(a[1..], b);
    }
  }

  /**
    Tolerance added to the configured limit. The source compares Python
    floats; the model compares exact reals, so the tolerance only shifts the
    threshold and absorbs no rounding.
   */
  const Epsilon: real := 0.0000000001

  /** Edit distance between the previous and the new body, relative to the previous body's length. */
  function Ratio(previous: string, text: string): (r: real)
    requires |previous| > 0
    ensures r >= 0.0
    ensures r == 0.0 <==> previous == text
  {
    Levenshtein.DistanceZeroIff(previous, text);
    Fraction(Levenshtein.Distance(previous, text), |previous|)
  }

  /** The exact quotient `d / n` of two naturals, as a real. */
  function Fraction(d: nat, n: nat): (q: real)
    requires n > 0
    ensures q >= 0.0 && (q == 0.0 <==> d == 0)
  {
    d as real / n as real
  }

  /** Python's `int(ratio * 100)`: truncation toward zero. */
  function TruncatedPercent(ratio: real): (p: int)
    ensures ratio >= 0.0 ==> 0 <= p && p as real <= ratio * 100.0 < p as real + 1.0
    ensures ratio < 0.0 ==> p <= 0 && ratio * 100.0 <= p as real < ratio * 100.0 + 1.0
  {
    if ratio >= 0.0 then (ratio * 100.0).Floor else -((-ratio * 100.0).Floor)
  }

  /**
    Whether a body change of the given ratio is reported under the limit.
    The tolerance only ever suppresses reports: nothing at or below the limit
    is reported.
   */
  function Exceeds(ratio: real, limit: real): (over: bool)
    ensures over ==> ratio > limit
  {
    ratio > limit + Epsilon
  }

  /**
    Classifies a response against the stored history, as the body of the
    `try` block does after the request returned. A `Failure` is an exception
    raised during classification; it is handled like a failed request.
   */
  function Classify(st: EndpointState, code: nat, text: string): (r: Result<(EndpointState, seq<LogLine>), Exception>)
    ensures r.Success? ==> r.value.0.configuration == st.configuration && r.value.0.lastChecked == st.lastChecked
    ensures r.Success? ==> r.value.0.previousStatusCode == Some(code)
    ensures r.Success? ==> |r.value.1| <= 1 && forall i :: 0 <= i < |r.value.1| ==> r.value.1[i].message.IsError()
    ensures r.Success? && Wellformed(st) ==> Wellformed(r.value.0)
    ensures r.Failure? ==> st.previousStatusCode == Some(code) && st.previousBody != Some(text)
  {
    var name := st.configuration.name;
    if st.previousStatusCode.None? then
      Success((st.(previousStatusCode := Some(code), previousBody := Some(text)), []))
    else if code != st.previousStatusCode.value then
      Success((st.(previousStatusCode := Some(code), previousBody := Some(text)),
               [LogLine(name, StatusChanged(st.previousStatusCode.value, code))]))
    else if st.previousBody == Some(text) then
      Success((st, []))
    else if st.previousBody.None? then
      // `distance(None, text)` raises
      Failure(TypeError)
    else if |st.previousBody.value| == 0 then
      // the distance is divided by `len(previous_body)`
      Failure(ZeroDivisionError)
    else
      var ratio := Ratio(st.previousBody.value, text);
      if Exceeds(ratio, st.configuration.percentDiffLimit) then
        Success((st.(previousBody := Some(text)), [LogLine(name, BodyChanged(TruncatedPercent(ratio)))]))
      else
        Success((st, []))
  }

  /**
    The outage transition shared by both exception handlers: the first
    failure after a success marks the endpoint unreachable and alerts; a
    failure while already unreachable changes nothing and stays silent.
   */
  function Unavailable(st: EndpointState, e: Exception): (r: (EndpointState, seq<LogLine>))
    ensures r.0.previousStatusCode == Some(OutageSentinel)
    ensures Wellformed(st) ==> Wellformed(r.0) && r.0.previousBody == Some("")
    ensures r.0.configuration == st.configuration && r.0.lastChecked == st.lastChecked
    ensures st.previousStatusCode != Some(OutageSentinel) ==>
              Alerts(r.1) == [NoLongerAvailable(e)] && |r.1| == 1
    ensures st.previousStatusCode == Some(OutageSentinel) ==> r == (st, [])
  {
    if st.previousStatusCode != Some(OutageSentinel) then
      (st.(previousStatusCode := Some(OutageSentinel), previousBody := Some("")),
       [LogLine(st.configuration.name, NoLongerAvailable(e))])
    else
      (st, [])
  }

  /** Whether a final outcome is a response that classifies without raising. */
  predicate Completes(st: EndpointState, o: Outcome)
  {
    o.Response? && Classify(st, o.statusCode, o.text).Success?
  }

  /**
    Handles the outcome of the last request of a cycle (a read timeout here
    means the retries are exhausted). The generic handler logs the traceback
    before the outage transition; the read-timeout handler does not.
   */
  function Handle(st: EndpointState, o: Outcome): (r: (EndpointState, seq<LogLine>))
    ensures r.0.configuration == st.configuration && r.0.lastChecked == st.lastChecked
    ensures Wellformed(st) ==> Wellformed(r.0)
    ensures st.previousStatusCode.Some? ==> r.0.previousStatusCode.Some?
    ensures |Alerts(r.1)| <= 1
    ensures r.0.previousStatusCode == Some(OutageSentinel) <==> !Completes(st, o)
  {
    match o
    case Response(code, text) =>
      (match Classify(st, code, text)
       case Success(done) => done
       case Failure(e) => Generic(st, e))
    case Raise(ReadTimeout) => Unavailable(st, ReadTimeout)
    case Raise(e) => Generic(st, e)
  }

  /** The `except Exception` handler: an informational traceback, then the outage transition. */
  function Generic(st: EndpointState, e: Exception): (r: (EndpointState, seq<LogLine>))
    ensures r.0 == Unavailable(st, e).0
    ensures Alerts(r.1) == Alerts(Unavailable(st, e).1)
    ensures |r.1| >= 1 && r.1[0] == LogLine(st.configuration.name, Traceback(e))
  {
    var (s, log) := Unavailable(st, e);
    assert Alerts([LogLine(st.configuration.name, Traceback(e))] + log) == Alerts(log) by {
      AlertsConcat([LogLine(st.configuration.name, Traceback(e))], log);
    }
    (s, [LogLine(st.configuration.name, Traceback(e))] + log)
  }

  /** Number of retries after the first request of a cycle. */
  const MaxRetries: nat := 3

  /** `n` informational "retrying" lines for the named endpoint. */
  function Retries(name: string, n: nat): (log: seq<LogLine>)
    ensures |log| == n && Alerts(log) == []
    ensures forall i :: 0 <= i < n ==> log[i] == LogLine(name, Retrying)
    decreases n
  {
    if n == 0 then [] else
      var rest := Retries(name, n - 1);
      assert Alerts([LogLine(name, Retrying)] + rest) == Alerts(rest) by {
        AlertsConcat([LogLine(name, Retrying)], rest);
      }
      [LogLine(name, Retrying)] + rest
  }

  /** The outcome of one check cycle: the new history, the logged lines and the number of requests made. */
  datatype CheckResult = CheckResult(state: EndpointState, log: seq<LogLine>, requests: nat)

  /**
    One call of `check_endpoint(state, attempt)`. `transport(i)` is what the
    request made at attempt `i` produces. A read timeout at an attempt below
    `MaxRetries` logs a retry and recurses with the next attempt.

    The contract is the retry policy: the requests are a run of read timeouts
    followed by one final outcome, which is either not a read timeout or made
    at the last allowed attempt. `CheckIsRetriesThenHandle` states what is
    done with that final outcome.
   */
  function Check(st: EndpointState, transport: nat -> Outcome, attempt: nat): (r: CheckResult)
    ensures 1 <= r.requests
    ensures attempt <= MaxRetries ==> attempt + r.requests <= MaxRetries + 1
    ensures attempt >= MaxRetries ==> r.requests == 1
    ensures forall i :: attempt <= i < attempt + r.requests - 1 ==> transport(i) == Raise(ReadTimeout)
    ensures transport(attempt + r.requests - 1) != Raise(ReadTimeout) ||
            attempt + r.requests - 1 >= MaxRetries
    decreases if attempt < MaxRetries then MaxRetries - attempt else 0
  {
    if transport(attempt) == Raise(ReadTimeout) && attempt < MaxRetries then
      var rest := Check(st, transport, attempt + 1);
      CheckResult(rest.state, [LogLine(st.configuration.name, Retrying)] + rest.log, rest.requests + 1)
    else
      var (s, log) := Handle(st, transport(attempt));
      CheckResult(s, log, 1)
  }

  /** One more "retrying" line in front of a retry run followed by any tail. */
  lemma PrependRetry(name: string, n: nat, tail: seq<LogLine>)
    ensures [LogLine(name, Retrying)] + (Retries(name, n) + tail) == Retries(name, n + 1) + tail
  {
    assert Retries(name, n + 1) == [LogLine(name, Retrying)] + Retries(name, n);
  }

  /** The final outcome of a check cycle: the outcome of its last request. */
  function FinalOutcome(st: EndpointState, transport: nat -> Outcome, attempt: nat): (o: Outcome)
  {
    transport(attempt + Check(st, transport, attempt).requests - 1)
  }

  /** A retried read timeout adds one request and one "retrying" line and changes nothing else. */
  lemma RetryStep(st: EndpointState, transport: nat -> Outcome, attempt: nat)
    requires transport(attempt) == Raise(ReadTimeout) && attempt < MaxRetries
    ensures var r, rest := Check(st, transport, attempt), Check(st, transport, attempt + 1);
            && r.state == rest.state
            && r.log == [LogLine(st.configuration.name, Retrying)] + rest.log
            && r.requests == rest.requests + 1
            && FinalOutcome(st, transport, attempt) == FinalOutcome(st, transport, attempt + 1)
  {
    var r, rest := Check(st, transport, attempt), Check(st, transport, attempt + 1);
    assert r == CheckResult(rest.state, [LogLine(st.configuration.name, Retrying)] + rest.log, rest.requests + 1);
    assert attempt + r.requests - 1 == attempt + 1 + rest.requests - 1;
  }

  /** Without a retry the cycle makes one request and handles its outcome. */
  lemma FinalAttempt(st: EndpointState, transport: nat -> Outcome, attempt: nat)
    requires transport(attempt) != Raise(ReadTimeout) || attempt >= MaxRetries
    ensures var r := Check(st, transport, attempt);
            && r.requests == 1
            && FinalOutcome(st, transport, attempt) == transport(attempt)
            && (r.state, r.log) == Handle(st, transport(attempt))
  {
  }

  /**
    A cycle without retries logs nothing before the handling of its outcome.
    Kept as a lemma of its own so that the proof below does not unfold
    `Retries` next to `Check` and `Handle`.
   */
  lemma EmptyRetryRun(name: string, tail: seq<LogLine>)
    ensures Retries(name, 0) + tail == tail
  {
  }

  /**
    The attempt number of the last request a cycle started at `attempt`
    makes: a read timeout below `MaxRetries` is followed by another request.
    It depends on the transport only, not on the history.
   */
  function LastRequest(transport: nat -> Outcome, attempt: nat): (n: nat)
    ensures attempt <= n && (attempt <= MaxRetries ==> n <= MaxRetries)
    decreases if attempt < MaxRetries then MaxRetries - attempt else 0
  {
    if transport(attempt) == Raise(ReadTimeout) && attempt < MaxRetries then LastRequest(transport, attempt + 1)
    else attempt
  }

  /** Read timeouts up to attempt `k`, and then no read timeout or no retry left, end the requests at `k`. */
  lemma {:induction false} LastRequestAfterTimeouts(transport: nat -> Outcome, attempt: nat, k: nat)
    requires attempt <= k <= MaxRetries
    requires forall i :: attempt <= i < k ==> transport(i) == Raise(ReadTimeout)
    requires transport(k) != Raise(ReadTimeout) || k == MaxRetries
    ensures LastRequest(transport, attempt) == k
    decreases k - attempt
  {
    if attempt < k {
      LastRequestAfterTimeouts(transport, attempt + 1, k);
    }
  }

  /** A cycle's requests run from its first attempt up to `LastRequest`, whatever the history. */
  lemma {:induction false} CheckMakesLastRequest(st: EndpointState, transport: nat -> Outcome, attempt: nat)
    ensures attempt + Check(st, transport, attempt).requests - 1 == LastRequest(transport, attempt)
    decreases if attempt < MaxRetries then MaxRetries - attempt else 0
  {
    if transport(attempt) == Raise(ReadTimeout) && attempt < MaxRetries {
      RetryStep(st, transport, attempt);
      CheckMakesLastRequest(st, transport, attempt + 1);
      assert LastRequest(transport, attempt) == LastRequest(transport, attempt + 1);
    } else {
      FinalAttempt(st, transport, attempt);
    }
  }

  /** The final outcome of a cycle is the outcome of its `LastRequest`. */
  lemma FinalIsLastRequest(st: EndpointState, transport: nat -> Outcome, attempt: nat)
    ensures FinalOutcome(st, transport, attempt) == transport(LastRequest(transport, attempt))
  {
    var n := Check(st, transport, attempt).requests;
    CheckMakesLastRequest(st, transport, attempt);
    assert attempt + n - 1 == LastRequest(transport, attempt);
  }

  /**
    A check cycle is its retry run followed by the handling of the final
    outcome: one "retrying" line per read timeout, then whatever handling the
    final outcome against the unchanged history logs, and the history that
    handling produces.
   */
  lemma {:induction false} CheckIsRetriesThenHandle(st: EndpointState, transport: nat -> Outcome, attempt: nat)
    ensures var r := Check(st, transport, attempt);
            var h := Handle(st, FinalOutcome(st, transport, attempt));
            r.state == h.0 && r.log == Retries(st.configuration.name, r.requests - 1) + h.1
    decreases if attempt < MaxRetries then MaxRetries - attempt else 0
  {
    if transport(attempt) == Raise(ReadTimeout) && attempt < MaxRetries {
      var rest := Check(st, transport, attempt + 1);
      RetryStep(st, transport, attempt);
      CheckIsRetriesThenHandle(st, transport, attempt + 1);
      PrependRetry(st.configuration.name, rest.requests - 1, Handle(st, FinalOutcome(st, transport, attempt)).1);
    } else {
      FinalAttempt(st, transport, attempt);
      EmptyRetryRun(st.configuration.name, Check(st, transport, attempt).log);
    }
  }

  /** The retries of a cycle add no alert: its history and alerts are those of handling the final outcome. */
  lemma RetriesAddNoAlerts(st: EndpointState, transport: nat -> Outcome, attempt: nat)
    ensures var r := Check(st, transport, attempt);
            var h := Handle(st, FinalOutcome(st, transport, attempt));
            r.state == h.0 && Alerts(r.log) == Alerts(h.1)
  {
    var r := Check(st, transport, attempt);
    var h := Handle(st, FinalOutcome(st, transport, attempt));
    CheckIsRetriesThenHandle(st, transport, attempt);
    AlertsConcat(Retries(st.configuration.name, r.requests - 1), h.1);
  }
}
