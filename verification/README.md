# http-differ endpoint monitor, modelled in Dafny

http-differ polls a list of HTTP endpoints and logs an error line when an
endpoint's status code changes, when its body drifts by more than a
configured fraction (measured by Levenshtein edit distance relative to the
previous body), or when the endpoint stops answering. Everything that decides
what to log lives in one per-endpoint state machine, `check_endpoint` in
`index.py`, acting on the history kept in `EndpointState`.

This project models that state machine as pure functions and proves its
properties.

- `levenshtein.dfy` (module `Levenshtein`): the edit distance the monitor
  imports. It is written as the textbook recursive definition with unit-cost
  insert, delete and substitute. Lemmas cover: zero exactly for equal texts,
  symmetry, the upper bound (the longer length), the lower bound (the length
  gap) and single substitutions.
- `endpoint.dfy` (module `Endpoint`): the endpoint configuration, the
  defaulting applied to a YAML entry, the history record and its sentinel
  invariant.
- `check.dfy` (module `EndpointCheck`): one call of `check_endpoint`.
  - `Classify` is the body of the `try` after a response arrived. It can
    itself raise `TypeError` or `ZeroDivisionError`.
  - `Unavailable` and `Generic` are the two exception handlers.
  - `Handle` treats the final outcome of a cycle.
  - `Check` is the recursive retry on read timeouts.
  - The requests of one cycle are given as a function `transport` from the
    attempt number to the outcome of that request.
- `properties.dfy` (module `Properties`): the branch-by-branch behaviour,
  the retry bound, the sentinel invariant and the consequences of the limit.
- `monitor.dfy` (module `Monitor`): successive cycles of one endpoint. Covers
  outage de-duplication, recovery, and the fixed baseline under tolerated
  drift.

Three behaviours of `check_endpoint` that are easy to misread are modelled
as written:

- In the drift branch the stored body is replaced only when the drift alert
  fires (`index.py:51-54`). A tolerated change keeps the old baseline. It
  does not move the baseline to the newest body.
- The reported percentage is `int(ratio * 100)`, a truncation, not a rounding.
- An empty stored body with an unchanged status and a different new body
  divides by zero inside the `try`. The generic handler catches this, so it
  becomes an outage. The code does not treat this case as a ratio of 1.

The ratio comparison `distance / len(previous) > limit + 1e-10` is made on
exact reals, `Epsilon` being 1/10^10. Python makes it on floats.

## Model

| member | source | states |
|---|---|---|
| Endpoint.Configure | index.py:87-92 | the name falls back to the URL when absent; the limit is the configured percentage divided by 100 (so 100 times it gives back the configured value), zero when absent, and in [0,1] when the percentage is in [0,100] |
| Endpoint.InitialState | index.py:23-28 | a fresh endpoint state has no status, no body and a last-checked time of 0, and satisfies the sentinel invariant |
| Levenshtein.DistanceZeroIff | index.py:10 | the edit distance is zero exactly when the two texts are equal |
| Levenshtein.DistanceToSelf | index.py:10 | a text is at distance zero from itself |
| Levenshtein.ZeroDistanceMeansEqual | index.py:10 | distance zero forces the texts to be equal |
| Levenshtein.DistanceSymmetric | index.py:10 | the distance does not depend on argument order |
| Levenshtein.DistanceAtMostLonger | index.py:10 | the distance never exceeds the longer text's length |
| Levenshtein.DistanceAtLeastLengthGap | index.py:10 | the distance is at least the difference of the lengths, so the ratio can exceed 1 |
| Levenshtein.OneSubstitution | index.py:10 | texts differing in one position are at distance at most one |
| EndpointCheck.Alerts | index.py:30-34 | the stderr lines of a log: at most as many alerts as lines, every alert is an error-flagged message, and every error-flagged message of the log is among the alerts |
| EndpointCheck.AlertsFromLog | index.py:30-34 | nothing is invented: every alert is the message of some line of the log |
| EndpointCheck.Exceeds | index.py:51 | a body change is reported only when its ratio is above the configured limit; the added tolerance never causes a report at or below it |
| EndpointCheck.Ratio | index.py:50 | the drift ratio of a non-empty baseline is non-negative and is zero exactly when the bodies are equal |
| EndpointCheck.TruncatedPercent | index.py:52 | the reported percentage is the ratio times 100 truncated toward zero: for a non-negative ratio it lies within one below the exact value |
| EndpointCheck.Classify | index.py:39-55 | a classified response stores its status code, leaves configuration and last-checked time alone, logs at most one line and that line is an error, keeps the sentinel invariant; classification raises only for an unchanged status with a changed body |
| EndpointCheck.Unavailable | index.py:61-65 | the outage transition always ends at the sentinel status; from a non-sentinel status it logs exactly one "no longer available" alert; from the sentinel status it changes nothing and logs nothing |
| EndpointCheck.Generic | index.py:67-78 | the generic handler logs the traceback first, then has exactly the outage transition's effect and alerts |
| EndpointCheck.Handle | index.py:36-78 | handling the final outcome keeps the sentinel invariant, never clears a set status, raises at most one alert, and stores the sentinel exactly when the outcome is not a response that classifies without raising |
| EndpointCheck.Retries | index.py:57-58 | each retry logs one informational line and raises no alert |
| EndpointCheck.Check | index.py:36-60 | a cycle makes between one and four requests from attempt 0; all but the last are read timeouts; the last is not a read timeout unless the retry bound was reached |
| EndpointCheck.CheckIsRetriesThenHandle | index.py:56-60 | a cycle equals one "retrying" line per timed-out request followed by the handling of the final outcome against the unchanged history |
| EndpointCheck.RetriesAddNoAlerts | index.py:56-60 | the retries of a cycle add no alert: its history and alerts are those of handling its final outcome |
| EndpointCheck.LastRequestAfterTimeouts | index.py:56-59 | read timeouts up to attempt k, then a request that is not a read timeout or the last allowed attempt, make k the last request of the cycle |
| EndpointCheck.CheckMakesLastRequest | index.py:56-60 | the number of requests of a cycle is fixed by the transport alone: they run from the first attempt up to the last request, whatever the history |
| EndpointCheck.FinalIsLastRequest | index.py:56-60 | the outcome a cycle handles is the outcome of its last request |
| Properties.FirstResponseSeeds | index.py:39-42 | the first response records its status and body and logs nothing |
| Properties.StatusChangeAlerts | index.py:43-48 | a different status logs exactly one "changed from old to new" alert and replaces status and body together, whatever the bodies |
| Properties.UnchangedIsSilent | index.py:43-55 | the same status and an identical body leave the history as it was and log nothing |
| Properties.DriftAlertsIffOverLimit | index.py:49-55 | with the same status and a different body, an alert fires exactly when the ratio exceeds the limit plus the tolerance; it reports the truncated percentage; the body is replaced exactly when it fires; the status never changes |
| Properties.EmptyBaselineIsOutage | index.py:49-78 | an empty stored body with an unchanged status and a different new body becomes an outage through the division error: a traceback, one alert, then the sentinel history |
| Properties.FailureIsReportedOnce | index.py:61-78 | a failed final request alerts once and stores the sentinel with an empty body; when the sentinel is already stored it changes nothing and raises no alert |
| Properties.RecoveryAlerts | index.py:43-48 | the first response after an outage always logs "changed from -1 to the new code" and stores the response |
| Properties.CheckKeepsSentinelInvariant | index.py:36-78 | a cycle keeps the sentinel invariant and never clears a set status; the stored status is -1 exactly when the cycle did not end in a classified response; configuration and last-checked time are untouched |
| Properties.CheckAlertsAtMostOnce | index.py:36-78 | a cycle raises at most one alert, retries included |
| Properties.PersistentTimeout | index.py:56-66 | read timeouts on every attempt cost four requests and three retry lines, then the outage transition |
| Properties.OtherFailureIsNotRetried | index.py:67-78 | any other exception on the first request ends the cycle after one request |
| Properties.ResponseAfterRetries | index.py:56-60 | a response after k timeouts is classified by the ordinary rules, after k retry lines, in k+1 requests |
| Properties.ExceedsMonotone | index.py:51 | a larger change, or a lower limit, is reported whenever the smaller change under the higher limit is |
| Properties.TenPercentLimitExample | index.py:49-54 | for an endpoint configured with `percent_diff_limit: 10` and a 100-character stored body, a new body 9 or 10 edits away logs nothing and leaves the history alone, and one 11 edits away logs "changed by 11%" and becomes the stored body |
| Properties.DefaultLimitFlagsAnyChange | index.py:91 | without a configured limit, any body change on a non-empty baseline below ten billion characters alerts and replaces the body |
| Properties.DoublingBodyAlerts | index.py:50-54 | a body more than twice as long as the baseline alerts under every limit whose threshold is at most 100 percent |
| Properties.OneCharacterChangeScenario | index.py:49-54 | with no limit configured, "up" becoming "uP" logs a 50 percent body change under the URL as the name and stores "uP" |
| Monitor.Run | index.py:99-103 | successive cycles keep the sentinel invariant, never clear a set status and never change the configuration |
| Monitor.FailedCycle | index.py:56-78 | a cycle whose every request made raises (read timeouts are retried, anything else ends the cycle) ends at the sentinel; it alerts once from a non-sentinel status and not at all from the sentinel |
| Monitor.OutageStaysSilent | index.py:61-78 | failed cycles while the endpoint is already at -1 leave the history unchanged and raise no alert |
| Monitor.OutageReportedOnce | index.py:61-78 | over any number of consecutive failed cycles the outage is reported exactly once, or not at all if the endpoint was already unreachable |
| Monitor.RecoveryCycle | index.py:43-60 | from the -1 history, a cycle that answers after up to three read timeouts stores the response and raises exactly the alert "changed from -1 to the new code" |
| Monitor.OutageThenRecovery | index.py:43-78 | failed cycles from a reachable endpoint, then a cycle that answers after up to three read timeouts, produce exactly two alerts: the outage, then "changed from -1 to the new code" |
| Monitor.ToleratedDriftKeepsBaseline | index.py:49-55 | responses whose bodies each stay within the limit of the original baseline log nothing and leave the history unchanged, so small changes are always measured against that first body |

## Left out

- The HTTP transport (`requests.get`) and the exception hierarchy. A
  request's result is the `Outcome` datatype. The exception's type is
  `ReadTimeout`, `ZeroDivisionError`, `TypeError` or `OtherException`
  with its type name.
- The one-second `time.sleep` between retries. It only delays.
- `time.time()` and the endless scheduling loop. `Monitor.Run` runs the due
  cycles of one endpoint in order. The due test itself is not modelled. It is
  the strict comparison `last_checked + interval < t`, and after the check
  `last_checked` becomes `t`.
- Monitor.Run: runs only the `check_endpoint` calls of the loop. It does not
  log the informational "Checking endpoint" and "Done" lines around each
  call, and it does not set `lastChecked` to the loop's time after a call,
  since time is not modelled.
- argparse, YAML reading and the global `states` list. The `int(...)` and
  `float(...)` conversions of YAML values are taken as already applied.
  `Configure` starts from the converted values.
- The text of log messages, stdout versus stderr routing, and traceback
  formatting. A log line is the endpoint name plus a `Message` value. The
  stderr lines are the messages for which `IsError` holds.
- The implementation of the `Levenshtein` package. It is replaced by the
  recursive specification `Levenshtein.Distance`.
- Floating-point rounding. Ratios, the limit and the tolerance are exact
  reals. With Python floats, `int(ratio * 100)` can come out one lower than
  the exact truncation (0.29 * 100 is 28.999999999999996). A ratio within
  rounding distance of the threshold can also compare differently.
- Properties.DoublingBodyAlerts: states the length-gap bound only for bodies
  that more than double. The general form, where the length gap exceeds
  limit times the baseline length, is not stated.
