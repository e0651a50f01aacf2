/**
  The per-endpoint records of the monitor (`index.py`): the immutable
  configuration of one endpoint, the history kept between checks, and the
  defaulting applied when an entry of the YAML file is turned into a
  configuration.
 */
module Endpoint {
  import opened Wrappers

  /** One monitored endpoint. `percentDiffLimit` is a fraction (0.1 means ten percent). */
  datatype EndpointConfiguration = EndpointConfiguration(
    name: string,
    url: string,
    interval: int,
    percentDiffLimit: real)

  /**
    One entry of the `endpoints` list as read from the YAML file. Keys that
    may be missing are options; `percentDiffLimit` is on the 0-100 scale of the
    file. The values are taken as already converted by `int(...)` and `float(...)`.
   */
  datatype ConfigEntry = ConfigEntry(
    name: Option<string>,
    url: string,
    interval: int,
    percentDiffLimit: Option<real>)

  /**
    Builds the configuration of an entry: the name falls back to the URL and
    the percent limit is scaled to a fraction, or is zero when absent.
   */
  function Configure(entry: ConfigEntry): (c: EndpointConfiguration)
    ensures c.url == entry.url && c.interval == entry.interval
    ensures entry.name.Some? ==> c.name == entry.name.value
    ensures entry.name.None? ==> c.name == entry.url
    ensures entry.percentDiffLimit.None? ==> c.percentDiffLimit == 0.0
    ensures entry.percentDiffLimit.Some? ==> c.percentDiffLimit * 100.0 == entry.percentDiffLimit.value
    ensures entry.percentDiffLimit.Some? && 0.0 <= entry.percentDiffLimit.value <= 100.0 ==>
              0.0 <= c.percentDiffLimit <= 1.0
  {
    EndpointConfiguration(
      match entry.name case Some(n) => n case None => entry.url,
      entry.url,
      entry.interval,
      match entry.percentDiffLimit case Some(p) => p / 100.0 case None => 0.0)
  }

  /** The status code stored once an endpoint has been found unreachable. */
  const OutageSentinel: int := -1

  /**
    The history of one endpoint. `previousStatusCode` is `None` before the
    first response, `Some(OutageSentinel)` during an outage, and the last
    observed HTTP status otherwise; `previousBody` is the matching text.
   */
  datatype EndpointState = EndpointState(
    configuration: EndpointConfiguration,
    lastChecked: real,
    previousStatusCode: Option<int>,
    previousBody: Option<string>)

  /**
    The sentinel invariant: status and body are absent together or present
    together, the outage sentinel goes with an empty body, and no stored
    status is below the sentinel.
   */
  predicate Wellformed(st: EndpointState)
  {
    && (st.previousStatusCode.None? <==> st.previousBody.None?)
    && (st.previousStatusCode == Some(OutageSentinel) ==> st.previousBody == Some(""))
    && (st.previousStatusCode.Some? ==> st.previousStatusCode.value >= OutageSentinel)
  }

  /** The state created for each configured endpoint at start-up: never checked, no history. */
  function InitialState(c: EndpointConfiguration): (st: EndpointState)
    ensures Wellformed(st)
    ensures st.configuration == c && st.lastChecked == 0.0
    ensures st.previousStatusCode.None? && st.previousBody.None?
  {
    EndpointState(c, 0.0, None, None)
  }
}
