/**
  Successive check cycles of one endpoint, as the scheduling loop of
  `index.py` runs them one after another on the same history. Time is left
  out: the cycles are simply the checks that were due, in order.
 */
module Monitor {
  import opened Wrappers
  import opened Endpoint
  import opened EndpointCheck
  import Properties

  /** The history and the concatenated log after running the given check cycles in order. */
  function Run(st: EndpointState, cycles: seq<nat -> Outcome>): (r: (EndpointState, seq<LogLine>))
    ensures Wellformed(st) ==> Wellformed(r.0)
    ensures st.previousStatusCode.Some? ==> r.0.previousStatusCode.Some?
    ensures r.0.configuration == st.configuration
    decreases |cycles|
  {
    if |cycles| == 0 then (st, [])
    else
      var c := Check(st, cycles[0], 0);
      Properties.CheckKeepsSentinelInvariant(st, cycles[0], 0);
      var rest := Run(c.state, cycles[1..]);
      (rest.0, c.log + rest.1)
  }

  /** Running two batches of cycles is running the second from where the first left off. */
  lemma {:induction false} RunConcat(st: EndpointState, a: seq<nat -> Outcome>, b: seq<nat -> Outcome>)
    ensures var first := Run(st, a);
            var second := Run(first.0, b);
            Run(st, a + b) == (second.0, first.1 + second.1)
    decreases |a|
  {
    if |a| == 0 {
      assert a + b == b;
      assert Run(st, a) == (st, []);
      assert [] + Run(st, b).1 == Run(st, b).1;
    } else {
      var c := Check(st, a[0], 0);
      ConcatTail(a, b);
      RunConcat(c.state, a[1..], b);
      var mid := Run(c.state, a[1..]);
      var second := Run(mid.0, b);
      calc {
        Run(st, a + b);
        (Run(c.state, a[1..] + b).0, c.log + Run(c.state, a[1..] + b).1);
        (second.0, c.log + (mid.1 + second.1));
        { assert c.log + (mid.1 + second.1) == (c.log + mid.1) + second.1; }
        (second.0, (c.log + mid.1) + second.1);
      }
    }
  }

  /**
    The head and tail of a concatenation whose first part is non-empty.
    Proved apart from the cycles it is used on, where the unfolded check
    makes sequence extensionality expensive.
   */
  lemma ConcatTail<T>(a: seq<T>, b: seq<T>)
    requires |a| > 0
    ensures (a + b)[0] == a[0] && (a + b)[1..] == a[1..] + b
  {
  }

  /** Every request a cycle makes fails: its last request, retries included, raises. */
  predicate Unreachable(transport: nat -> Outcome)
  {
    transport(LastRequest(transport, 0)).Raise?
  }

  /** Running a non-empty list of cycles is the first cycle followed by the rest. */
  lemma RunStep(st: EndpointState, cycles: seq<nat -> Outcome>)
    requires |cycles| > 0
    ensures var c := Check(st, cycles[0], 0);
            var rest := Run(c.state, cycles[1..]);
            Run(st, cycles) == (rest.0, c.log + rest.1)
  {
  }

  /**
    One failed cycle: the history becomes the outage sentinel, and the cycle
    raises one "no longer available" alert unless the endpoint was already
    marked unreachable, in which case it raises none.
   */
  lemma FailedCycle(st: EndpointState, transport: nat -> Outcome)
    requires Wellformed(st) && Unreachable(transport)
    ensures var r := Check(st, transport, 0);
            && r.state.previousStatusCode == Some(OutageSentinel) && r.state.previousBody == Some("")
            && (st.previousStatusCode == Some(OutageSentinel) ==> r.state == st && Alerts(r.log) == [])
            && (st.previousStatusCode != Some(OutageSentinel) ==>
                  |Alerts(r.log)| == 1 && Alerts(r.log)[0].NoLongerAvailable?)
  {
    var last := FinalOutcome(st, transport, 0);
    FinalIsLastRequest(st, transport, 0);
    var e := last.exception;
    assert last == Raise(e);
    Properties.FailureIsReportedOnce(st, e);
    RetriesAddNoAlerts(st, transport, 0);
  }

  /** Failed cycles while the endpoint is already marked unreachable change nothing and raise no alert. */
  lemma {:induction false} OutageStaysSilent(st: EndpointState, cycles: seq<nat -> Outcome>)
    requires st.previousStatusCode == Some(OutageSentinel) && st.previousBody == Some("")
    requires forall k :: 0 <= k < |cycles| ==> Unreachable(cycles[k])
    ensures Run(st, cycles).0 == st && Alerts(Run(st, cycles).1) == []
    decreases |cycles|
  {
    if |cycles| > 0 {
      var c := Check(st, cycles[0], 0);
      FailedCycle(st, cycles[0]);
      RunStep(st, cycles);
      OutageStaysSilent(st, cycles[1..]);
      AlertsConcat(c.log, Run(st, cycles[1..]).1);
    }
  }

  /**
    Outage de-duplication: however many failed cycles follow each other, the
    outage is reported at most once, and exactly once when the endpoint was
    not already marked unreachable.
   */
  lemma OutageReportedOnce(st: EndpointState, cycles: seq<nat -> Outcome>)
    requires Wellformed(st) && |cycles| > 0
    requires forall k :: 0 <= k < |cycles| ==> Unreachable(cycles[k])
    ensures var (s, log) := Run(st, cycles);
            && s.previousStatusCode == Some(OutageSentinel) && s.previousBody == Some("")
            && |Alerts(log)| == (if st.previousStatusCode == Some(OutageSentinel) then 0 else 1)
            && (forall i :: 0 <= i < |Alerts(log)| ==> Alerts(log)[i].NoLongerAvailable?)
  {
    var c := Check(st, cycles[0], 0);
    FailedCycle(st, cycles[0]);
    RunStep(st, cycles);
    OutageStaysSilent(c.state, cycles[1..]);
    var rest := Run(c.state, cycles[1..]);
    AlertsConcat(c.log, rest.1);
    assert Alerts(c.log + rest.1) == Alerts(c.log);
  }

  /**
    An outage followed by recovery: after any number of failed cycles from a
    healthy endpoint, the next cycle whose request answers, after up to the
    allowed number of read timeouts, raises the status-change alert from the
    sentinel, so the log carries exactly the outage alert and then the
    recovery alert.
   */
  lemma OutageThenRecovery(st: EndpointState, failures: seq<nat -> Outcome>, recovery: nat -> Outcome, k: nat)
    requires Wellformed(st) && st.previousStatusCode != Some(OutageSentinel) && |failures| > 0
    requires forall j :: 0 <= j < |failures| ==> Unreachable(failures[j])
    requires k <= MaxRetries
    requires forall i :: 0 <= i < k ==> recovery(i) == Raise(ReadTimeout)
    requires recovery(k).Response?
    ensures var (s, log) := Run(st, failures + [recovery]);
            && s.previousStatusCode == Some(recovery(k).statusCode)
            && s.previousBody == Some(recovery(k).text)
            && |Alerts(log)| == 2
            && Alerts(log)[0].NoLongerAvailable?
            && Alerts(log)[1] == StatusChanged(OutageSentinel, recovery(k).statusCode)
  {
    var down := Run(st, failures);
    OutageReportedOnce(st, failures);
    var up := RecoveryCycle(down.0, recovery, k);
    RunConcat(st, failures, [recovery]);
    assert Run(st, failures + [recovery]) == (up.0, down.1 + up.1);
    AlertsConcat(down.1, up.1);
    assert Alerts(down.1 + up.1) == Alerts(down.1) + [StatusChanged(OutageSentinel, recovery(k).statusCode)];
  }

  /** A single answering cycle run from the outage sentinel: its one alert is the recovery. */
  lemma RecoveryCycle(st: EndpointState, recovery: nat -> Outcome, k: nat) returns (up: (EndpointState, seq<LogLine>))
    requires st.previousStatusCode == Some(OutageSentinel)
    requires k <= MaxRetries
    requires forall i :: 0 <= i < k ==> recovery(i) == Raise(ReadTimeout)
    requires recovery(k).Response?
    ensures up == Run(st, [recovery])
    ensures up.0.previousStatusCode == Some(recovery(k).statusCode)
    ensures up.0.previousBody == Some(recovery(k).text)
    ensures Alerts(up.1) == [StatusChanged(OutageSentinel, recovery(k).statusCode)]
  {
    var c := Check(st, recovery, 0);
    var h := Handle(st, recovery(k));
    Properties.ResponseAfterRetries(st, recovery, k);
    Properties.RecoveryAlerts(st, recovery(k).statusCode, recovery(k).text);
    AlertsConcat(Retries(st.configuration.name, k), h.1);
    RunStep(st, [recovery]);
    assert [recovery][1..] == [];
    assert c.log + [] == c.log;
    up := (c.state, c.log);
  }

  /**
    The baseline is only replaced when an alert fires: a run of responses
    with the same status whose bodies each stay within the limit of the
    ORIGINAL baseline raises nothing and leaves the history as it was, so
    small changes are always measured against that first body.
   */
  lemma {:induction false} ToleratedDriftKeepsBaseline(st: EndpointState, cycles: seq<nat -> Outcome>)
    requires st.previousStatusCode.Some? && st.previousStatusCode.value >= 0
    requires st.previousBody.Some? && |st.previousBody.value| > 0
    requires forall k :: 0 <= k < |cycles| ==>
               && cycles[k](0).Response? && cycles[k](0).statusCode == st.previousStatusCode.value
               && !Exceeds(Ratio(st.previousBody.value, cycles[k](0).text), st.configuration.percentDiffLimit)
    ensures Run(st, cycles) == (st, [])
    decreases |cycles|
  {
    if |cycles| > 0 {
      var text := cycles[0](0).text;
      FinalAttempt(st, cycles[0], 0);
      if text == st.previousBody.value {
        Properties.UnchangedIsSilent(st, text);
      } else {
        Properties.DriftAlertsIffOverLimit(st, text);
      }
      var c := Check(st, cycles[0], 0);
      assert c.state == st && c.log == [];
      ToleratedDriftKeepsBaseline(st, cycles[1..]);
      var rest := Run(c.state, cycles[1..]);
      RunStep(st, cycles);
      assert rest == (st, []);
      assert c.log + rest.1 == [];
    }
  }
}
