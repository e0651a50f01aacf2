/**
  Properties of one check cycle: what each branch of the classification
  does to the history and the log, the outage transition, the retry bound,
  the sentinel invariant, and the consequences of the configured limit.
 */
module Properties {
  import opened Wrappers
  import opened Endpoint
  import opened EndpointCheck
  import Levenshtein

  /** The first response seeds the history silently. */
  lemma FirstResponseSeeds(st: EndpointState, code: nat, text: string)
    requires st.previousStatusCode.None?
    ensures var (s, log) := Handle(st, Response(code, text));
            && s.previousStatusCode == Some(code) && s.previousBody == Some(text)
            && log == []
  {
  }

  /**
    A changed status code raises exactly one alert naming the old and new
    code and replaces status and body together, whatever the bodies are.
   */
  lemma StatusChangeAlerts(st: EndpointState, code: nat, text: string)
    requires st.previousStatusCode.Some? && st.previousStatusCode.value != code
    ensures var (s, log) := Handle(st, Response(code, text));
            && s.previousStatusCode == Some(code) && s.previousBody == Some(text)
            && log == [LogLine(st.configuration.name, StatusChanged(st.previousStatusCode.value, code))]
  {
  }

  /** The same status with the identical body changes nothing and logs nothing. */
  lemma UnchangedIsSilent(st: EndpointState, text: string)
    requires st.previousStatusCode.Some? && st.previousStatusCode.value >= 0
    requires st.previousBody == Some(text)
    ensures Handle(st, Response(st.previousStatusCode.value, text)) == (st, [])
  {
  }

  /**
    Body drift: with the same status and a different non-empty baseline, an
    alert fires exactly when the ratio exceeds the limit plus the tolerance;
    it reports the truncated percentage; the baseline is replaced exactly
    when the alert fires; the status is left as it was.
   */
  lemma DriftAlertsIffOverLimit(st: EndpointState, text: string)
    requires st.previousStatusCode.Some? && st.previousStatusCode.value >= 0
    requires st.previousBody.Some? && |st.previousBody.value| > 0 && st.previousBody.value != text
    ensures var ratio := Ratio(st.previousBody.value, text);
            var over := Exceeds(ratio, st.configuration.percentDiffLimit);
            var (s, log) := Handle(st, Response(st.previousStatusCode.value, text));
            && s.previousStatusCode == st.previousStatusCode
            && (s.previousBody == Some(text) <==> over)
            && (over ==> log == [LogLine(st.configuration.name, BodyChanged(TruncatedPercent(ratio)))])
            && (!over ==> s == st && log == [])
  {
  }

  /**
    An empty baseline with the same status and a different body raises a
    division by zero inside the `try`, which the generic handler turns into
    an outage: traceback, one alert, and the sentinel history.
   */
  lemma EmptyBaselineIsOutage(st: EndpointState, text: string)
    requires st.previousStatusCode.Some? && st.previousStatusCode.value >= 0
    requires st.previousBody == Some("") && text != ""
    ensures var (s, log) := Handle(st, Response(st.previousStatusCode.value, text));
            && s == st.(previousStatusCode := Some(OutageSentinel), previousBody := Some(""))
            && log == [LogLine(st.configuration.name, Traceback(ZeroDivisionError)),
                       LogLine(st.configuration.name, NoLongerAvailable(ZeroDivisionError))]
  {
  }

  /**
    A failed final request: the first failure after a response alerts once
    and stores the sentinel with an empty body; a failure while already
    unreachable leaves the history alone and raises no alert.
   */
  lemma FailureIsReportedOnce(st: EndpointState, e: Exception)
    requires Wellformed(st)
    ensures var (s, log) := Handle(st, Raise(e));
            && s.previousStatusCode == Some(OutageSentinel) && s.previousBody == Some("")
            && (st.previousStatusCode != Some(OutageSentinel) ==> Alerts(log) == [NoLongerAvailable(e)])
            && (st.previousStatusCode == Some(OutageSentinel) ==> s == st && Alerts(log) == [])
  {
    if e != ReadTimeout {
      var (s, log) := Unavailable(st, e);
      AlertsConcat([LogLine(st.configuration.name, Traceback(e))], log);
    }
  }

  /** The first response after an outage always takes the status-change branch and alerts. */
  lemma RecoveryAlerts(st: EndpointState, code: nat, text: string)
    requires st.previousStatusCode == Some(OutageSentinel)
    ensures var (s, log) := Handle(st, Response(code, text));
            && s.previousStatusCode == Some(code) && s.previousBody == Some(text)
            && log == [LogLine(st.configuration.name, StatusChanged(OutageSentinel, code))]
  {
  }

  /**
    The sentinel invariant holds after every check cycle, a status once set
    is never cleared, and the stored status is the sentinel exactly when the
    cycle ended without a classified response.
   */
  lemma CheckKeepsSentinelInvariant(st: EndpointState, transport: nat -> Outcome, attempt: nat)
    ensures var r := Check(st, transport, attempt);
            && (Wellformed(st) ==> Wellformed(r.state))
            && (st.previousStatusCode.Some? ==> r.state.previousStatusCode.Some?)
            && (r.state.previousStatusCode == Some(OutageSentinel) <==>
                !Completes(st, FinalOutcome(st, transport, attempt)))
            && r.state.configuration == st.configuration && r.state.lastChecked == st.lastChecked
  {
    CheckIsRetriesThenHandle(st, transport, attempt);
  }

  /** A cycle raises at most one alert, however many times it retried. */
  lemma CheckAlertsAtMostOnce(st: EndpointState, transport: nat -> Outcome, attempt: nat)
    ensures |Alerts(Check(st, transport, attempt).log)| <= 1
  {
    RetriesAddNoAlerts(st, transport, attempt);
  }

  /**
    A read timeout that persists through every retry costs four requests and
    three "retrying" lines, then ends in the outage transition.
   */
  lemma PersistentTimeout(st: EndpointState, transport: nat -> Outcome)
    requires forall i :: 0 <= i <= MaxRetries ==> transport(i) == Raise(ReadTimeout)
    ensures var r := Check(st, transport, 0);
            && r.requests == MaxRetries + 1
            && r.log == Retries(st.configuration.name, MaxRetries) + Unavailable(st, ReadTimeout).1
            && r.state == Unavailable(st, ReadTimeout).0
  {
    CheckMakesLastRequest(st, transport, 0);
    LastRequestAfterTimeouts(transport, 0, MaxRetries);
    FinalIsLastRequest(st, transport, 0);
    CheckIsRetriesThenHandle(st, transport, 0);
  }

  /** Any other exception from the first request is not retried. */
  lemma OtherFailureIsNotRetried(st: EndpointState, transport: nat -> Outcome)
    requires transport(0).Raise? && transport(0).exception != ReadTimeout
    ensures Check(st, transport, 0).requests == 1
  {
  }

  /** A response on a retry is classified by the ordinary rules, after the retry lines. */
  lemma ResponseAfterRetries(st: EndpointState, transport: nat -> Outcome, k: nat)
    requires k <= MaxRetries
    requires forall i :: 0 <= i < k ==> transport(i) == Raise(ReadTimeout)
    requires transport(k).Response?
    ensures var r := Check(st, transport, 0);
            && r.requests == k + 1
            && r.log == Retries(st.configuration.name, k) + Handle(st, transport(k)).1
            && r.state == Handle(st, transport(k)).0
  {
    CheckMakesLastRequest(st, transport, 0);
    LastRequestAfterTimeouts(transport, 0, k);
    FinalIsLastRequest(st, transport, 0);
    CheckIsRetriesThenHandle(st, transport, 0);
  }

  /** A quotient exceeds a bound when the dividend exceeds the bound times the divisor. */
  lemma FractionAbove(d: nat, n: nat, bound: real)
    requires n > 0 && d as real > bound * n as real
    ensures Fraction(d, n) > bound
  {
    var q := Fraction(d, n);
    if q <= bound {
      assert q * n as real <= bound * n as real;
    }
  }

  /**
    A larger change, or a lower limit, is reported whenever the smaller
    change under the higher limit is.
   */
  lemma ExceedsMonotone(ratio: real, ratio': real, limit: real, limit': real)
    requires ratio <= ratio' && limit' <= limit
    ensures Exceeds(ratio, limit) ==> Exceeds(ratio', limit')
  {
  }

  /**
    An endpoint configured with a ten percent limit and a hundred-character
    baseline: a new body nine or ten edits away (ten is exactly the limit) is
    tolerated silently and leaves the history alone; eleven edits alert with
    a reported change of 11 percent and replace the baseline.
   */
  lemma TenPercentLimitExample(name: Option<string>, url: string, interval: int, st: EndpointState, text: string)
    requires st.configuration == Configure(ConfigEntry(name, url, interval, Some(10.0)))
    requires st.previousStatusCode.Some? && st.previousStatusCode.value >= 0
    requires st.previousBody.Some? && |st.previousBody.value| == 100
    requires 9 <= Levenshtein.Distance(st.previousBody.value, text) <= 11
    ensures var d := Levenshtein.Distance(st.previousBody.value, text);
            var (s, log) := Handle(st, Response(st.previousStatusCode.value, text));
            && (d <= 10 ==> s == st && log == [])
            && (d == 11 ==> s == st.(previousBody := Some(text))
                            && log == [LogLine(st.configuration.name, BodyChanged(11))])
  {
    var pb := st.previousBody.value;
    var d := Levenshtein.Distance(pb, text);
    Levenshtein.DistanceZeroIff(pb, text);
    assert st.configuration.percentDiffLimit == 0.1;
    assert Ratio(pb, text) == d as real / 100.0;
    if d == 11 {
      assert Ratio(pb, text) == 0.11;
    }
    DriftAlertsIffOverLimit(st, text);
  }

  /**
    Under the default limit of zero, every body change on a non-empty
    baseline shorter than ten billion characters alerts: one edit already
    gives a ratio above the tolerance.
   */
  lemma DefaultLimitFlagsAnyChange(entry: ConfigEntry, st: EndpointState, text: string)
    requires entry.percentDiffLimit.None? && st.configuration == Configure(entry)
    requires st.previousStatusCode.Some? && st.previousStatusCode.value >= 0
    requires st.previousBody.Some? && 0 < |st.previousBody.value| < 10000000000
    requires st.previousBody.value != text
    ensures var (s, log) := Handle(st, Response(st.previousStatusCode.value, text));
            s.previousBody == Some(text) && |Alerts(log)| == 1
  {
    var pb := st.previousBody.value;
    Levenshtein.DistanceZeroIff(pb, text);
    FractionAbove(Levenshtein.Distance(pb, text), |pb|, Epsilon);
    DriftAlertsIffOverLimit(st, text);
  }

  /**
    The ratio is not capped at one: a body more than twice as long as its
    baseline is more than a full edit distance away, so it alerts under any
    limit that leaves the threshold at or below 100 percent.
   */
  lemma DoublingBodyAlerts(st: EndpointState, text: string)
    requires st.previousStatusCode.Some? && st.previousStatusCode.value >= 0
    requires st.previousBody.Some? && |st.previousBody.value| > 0
    requires |text| > 2 * |st.previousBody.value|
    requires st.configuration.percentDiffLimit + Epsilon <= 1.0
    ensures var (s, log) := Handle(st, Response(st.previousStatusCode.value, text));
            s.previousBody == Some(text) && |Alerts(log)| == 1
  {
    var pb := st.previousBody.value;
    var d := Levenshtein.Distance(pb, text);
    Levenshtein.DistanceAtLeastLengthGap(pb, text);
    assert d > |pb|;
    FractionAbove(d, |pb|, 1.0);
    DriftAlertsIffOverLimit(st, text);
  }

  /**
    An endpoint without a configured limit whose body changes by one
    character out of two reports a 50 percent change.
   */
  lemma OneCharacterChangeScenario(url: string)
    ensures var c := Configure(ConfigEntry(None, url, 60, None));
            var st := EndpointState(c, 0.0, Some(200), Some("up"));
            Handle(st, Response(200, "uP")) ==
              (st.(previousBody := Some("uP")), [LogLine(url, BodyChanged(50))])
  {
    Levenshtein.OneSubstitution("u", 'p', 'P', "");
    Levenshtein.DistanceZeroIff("up", "uP");
    assert "u" + ['p'] + "" == "up" && "u" + ['P'] + "" == "uP";
    assert Levenshtein.Distance("up", "uP") == 1;
    assert Ratio("up", "uP") == 0.5;
  }
}
