/** The bootstrap parameter builder of Envoy Gateway's xDS bootstrap package:
    from an optional proxy-metrics policy it builds the parameter record that
    the bootstrap template is rendered from. It sets the Prometheus flag,
    collects OpenTelemetry metric sinks with duplicates by "host:port" dropped,
    appends the mandatory stats-inclusion prefixes to the caller's stats
    matcher, and fills the xDS, admin and readiness servers from constants. */
module Bootstrap {
  import opened Wrappers
  import Decimal
  import Strings
  import opened Sequences
  import opened Constants

  // ---------------------------------------------------------------------
  // Policy input: the parts of the proxy-metrics configuration the builder reads

  /** Address of an OpenTelemetry collector. */
  datatype OpenTelemetrySink = OpenTelemetrySink(host: string, port: int32)

  /** One configured metrics sink; only OpenTelemetry sinks are used here. */
  datatype ProxyMetricSink = ProxyMetricSink(openTelemetry: Option<OpenTelemetrySink>)

  /** Caller-supplied stats matcher override. */
  datatype ProxyStatsMatcher = ProxyStatsMatcher(
    inclusionPrefixs: seq<string>,
    inclusionSuffixs: seq<string>,
    inclusionRegexps: seq<string>)

  /** The proxy-metrics policy; the Prometheus provider only matters by its presence. */
  datatype ProxyMetrics = ProxyMetrics(
    prometheus: Option<()>,
    sinks: seq<ProxyMetricSink>,
    proxyStatsMatcher: Option<ProxyStatsMatcher>)

  // ---------------------------------------------------------------------
  // Bootstrap parameters: the record the template is rendered from

  datatype XdsServerParameters = XdsServerParameters(address: string, port: int32)

  datatype MetricSink = MetricSink(address: string, port: int32)

  datatype AdminServerParameters = AdminServerParameters(
    address: string, port: int32, accessLogPath: string)

  datatype ReadyServerParameters = ReadyServerParameters(
    address: string, port: int32, readinessPath: string)

  datatype ProxyStatsMatcherParameters = ProxyStatsMatcherParameters(
    inclusionPrefixs: seq<string>,
    inclusionSuffixs: seq<string>,
    inclusionRegexps: seq<string>)

  datatype BootstrapParameters = BootstrapParameters(
    xdsServer: XdsServerParameters,
    adminServer: AdminServerParameters,
    readyServer: ReadyServerParameters,
    enablePrometheus: bool,
    otelMetricSinks: seq<MetricSink>,
    proxyStatsMatcher: ProxyStatsMatcherParameters)

  // ---------------------------------------------------------------------
  // The deduplication key

  /** The identity of a sink: `fmt.Sprintf("%s:%d", host, port)`. The host
      comes first, then a colon, then decimal text that holds no colon and
      reads back as the port. */
  function SinkKey(host: string, port: int32): (k: string)
    ensures |k| > |host| + 1 && k[..|host|] == host && k[|host|] == ':'
    ensures ':' !in k[|host| + 1..]
    ensures Decimal.IsDecimal(k[|host| + 1..]) && Decimal.ParseInt(k[|host| + 1..]) == port as int
  {
    var digits := Decimal.FormatInt(port as int);
    Decimal.FormatIntHasNoColon(port as int);
    Decimal.ParseFormatInt(port as int);
    assert (host + ":" + digits)[|host| + 1..] == digits;
    host + ":" + digits
  }

  function Key(s: MetricSink): string {
    SinkKey(s.address, s.port)
  }

  /** Two keys are equal exactly when host and port are: the port's decimal
      text has no colon, so the last colon of a key ends the host, even when
      the host itself holds colons. */
  lemma SinkKeyInjective(h1: string, p1: int32, h2: string, p2: int32)
    ensures SinkKey(h1, p1) == SinkKey(h2, p2) <==> h1 == h2 && p1 == p2
  {
    var d1 := Decimal.FormatInt(p1 as int);
    var d2 := Decimal.FormatInt(p2 as int);
    if SinkKey(h1, p1) == SinkKey(h2, p2) {
      Decimal.FormatIntHasNoColon(p1 as int);
      Decimal.FormatIntHasNoColon(p2 as int);
      SplitAtLastColon(h1, d1, h2, d2);
      Decimal.FormatIntInjective(p1 as int, p2 as int);
    }
  }

  /** A text ending in a colon-free part splits at its last colon in one way only. */
  lemma SplitAtLastColon(a: string, d: string, b: string, e: string)
    requires ':' !in d && ':' !in e
    requires a + ":" + d == b + ":" + e
    ensures a == b && d == e
  {
    var k := a + ":" + d;
    assert forall i :: |a| < i < |k| ==> k[i] == d[i - |a| - 1];
    assert forall i :: |b| < i < |k| ==> k[i] == e[i - |b| - 1];
    assert k[|a|] == ':' && k[|b|] == ':';
    assert a == k[..|a|];
    assert b == k[..|b|];
    assert d == k[|a| + 1..];
    assert e == k[|b| + 1..];
  }

  /** Equal keys mean equal sinks. */
  lemma KeyInjective(s: MetricSink, t: MetricSink)
    ensures Key(s) == Key(t) <==> s == t
  {
    SinkKeyInjective(s.address, s.port, t.address, t.port);
  }

  /** The set of keys of a sequence of sinks. */
  function KeySet(sinks: seq<MetricSink>): set<string> {
    set s | s in sinks :: Key(s)
  }

  /** Sinks with pairwise different keys have as many keys as entries. */
  lemma {:induction false} DistinctKeysCardinality(sinks: seq<MetricSink>)
    requires forall i, j :: 0 <= i < j < |sinks| ==> Key(sinks[i]) != Key(sinks[j])
    ensures |KeySet(sinks)| == |sinks|
    decreases |sinks|
  {
    if |sinks| > 0 {
      var n := |sinks| - 1;
      var init := sinks[..n];
      DistinctKeysCardinality(init);
      assert KeySet(sinks) == KeySet(init) + {Key(sinks[n])};
      assert Key(sinks[n]) !in KeySet(init);
    }
  }

  // ---------------------------------------------------------------------
  // Sink filtering and deduplication

  /** The sink record built from an OpenTelemetry target. */
  function TargetOf(o: OpenTelemetrySink): MetricSink {
    MetricSink(o.host, o.port)
  }

  /** Some sink of `sinks` has `t`'s host and port as its OpenTelemetry target. */
  ghost predicate CarriesTarget(sinks: seq<ProxyMetricSink>, t: MetricSink) {
    exists i :: 0 <= i < |sinks| && sinks[i].openTelemetry == Some(OpenTelemetrySink(t.address, t.port))
  }

  /** The target of one configured sink: one entry, or none without an
      OpenTelemetry target. */
  function TargetsOf(sink: ProxyMetricSink): seq<MetricSink> {
    match sink.openTelemetry
    case None => []
    case Some(o) => [TargetOf(o)]
  }

  /** The OpenTelemetry targets of the configured sinks, in order; sinks
      without an OpenTelemetry target are skipped. */
  function OtelTargets(sinks: seq<ProxyMetricSink>): (targets: seq<MetricSink>)
    ensures |targets| <= |sinks|
    decreases |sinks|
  {
    if |sinks| == 0 then []
    else OtelTargets(sinks[..|sinks| - 1]) + TargetsOf(sinks[|sinks| - 1])
  }

  /** Every OpenTelemetry target of the input is kept, and nothing else is. */
  lemma {:induction false} OtelTargetsMembers(sinks: seq<ProxyMetricSink>)
    ensures forall i :: 0 <= i < |sinks| && sinks[i].openTelemetry.Some? ==>
      TargetOf(sinks[i].openTelemetry.value) in OtelTargets(sinks)
    ensures forall t :: t in OtelTargets(sinks) ==> CarriesTarget(sinks, t)
    decreases |sinks|
  {
    if |sinks| > 0 {
      var n := |sinks| - 1;
      var init := sinks[..n];
      OtelTargetsMembers(init);
      forall t | t in OtelTargets(init)
        ensures CarriesTarget(sinks, t)
      {
        var i :| 0 <= i < |init| && init[i].openTelemetry == Some(OpenTelemetrySink(t.address, t.port));
        assert sinks[i] == init[i];
      }
      forall i | 0 <= i < n && sinks[i].openTelemetry.Some?
        ensures TargetOf(sinks[i].openTelemetry.value) in OtelTargets(sinks)
      {
        assert sinks[i] == init[i];
      }
    }
  }

  /** Scanning one more sink adds its target, if it has one. */
  lemma OtelTargetsSnoc(sinks: seq<ProxyMetricSink>, sink: ProxyMetricSink)
    ensures OtelTargets(sinks + [sink]) == OtelTargets(sinks) + TargetsOf(sink)
  {
    DropLastOfAppend(sinks, [sink]);
  }

  /** Filtering distributes over concatenation. */
  lemma {:induction false} OtelTargetsAppend(a: seq<ProxyMetricSink>, b: seq<ProxyMetricSink>)
    ensures OtelTargets(a + b) == OtelTargets(a) + OtelTargets(b)
    decreases |b|
  {
    if |b| == 0 {
      AppendEmpty(a);
      AppendEmpty(OtelTargets(a));
    } else {
      var n := |b| - 1;
      OtelTargetsAppend(a, b[..n]);
      DropLastOfAppend(a, b);
      AppendAssoc(OtelTargets(a), OtelTargets(b[..n]), TargetsOf(b[n]));
    }
  }

  /** Removing duplicate sinks leaves keys pairwise different, keeps every
      sink, and leaves one entry per distinct key. */
  lemma DedupSinks(targets: seq<MetricSink>)
    ensures forall i, j :: 0 <= i < j < |Dedup(targets)| ==> Key(Dedup(targets)[i]) != Key(Dedup(targets)[j])
    ensures forall t :: t in targets ==> t in Dedup(targets)
    ensures |Dedup(targets)| == |KeySet(targets)|
  {
    var r := Dedup(targets);
    forall i, j | 0 <= i < j < |r|
      ensures Key(r[i]) != Key(r[j])
    {
      KeyInjective(r[i], r[j]);
    }
    DistinctKeysCardinality(r);
    assert KeySet(r) == KeySet(targets);
  }

  /** What deduplicating the OpenTelemetry targets yields: pairwise different
      keys, every target kept, nothing but targets, first-occurrence order,
      and one entry per distinct key. */
  lemma DedupTargetsFacts(sinks: seq<ProxyMetricSink>)
    ensures var r := Dedup(OtelTargets(sinks));
      && (forall i, j :: 0 <= i < j < |r| ==> Key(r[i]) != Key(r[j]))
      && (forall i :: 0 <= i < |sinks| && sinks[i].openTelemetry.Some? ==>
            TargetOf(sinks[i].openTelemetry.value) in r)
      && (forall k :: 0 <= k < |r| ==> r[k] in OtelTargets(sinks))
      && (forall i, j :: 0 <= i < j < |r| ==>
            FirstIndex(OtelTargets(sinks), r[i]) < FirstIndex(OtelTargets(sinks), r[j]))
      && |r| == |KeySet(OtelTargets(sinks))|
  {
    OtelTargetsMembers(sinks);
    DedupSinks(OtelTargets(sinks));
    DedupFirstOccurrenceOrder(OtelTargets(sinks));
  }

  /** The sink list of the parameters: the OpenTelemetry targets with every
      later target whose key was already seen dropped. */
  function MetricSinks(sinks: seq<ProxyMetricSink>): (r: seq<MetricSink>)
    // no two entries share a "host:port" key
    ensures forall i, j :: 0 <= i < j < |r| ==> Key(r[i]) != Key(r[j])
    // every OpenTelemetry-carrying input is represented by its host and port
    ensures forall i :: 0 <= i < |sinks| && sinks[i].openTelemetry.Some? ==>
      TargetOf(sinks[i].openTelemetry.value) in r
    // every entry comes from an OpenTelemetry-carrying input
    ensures forall k :: 0 <= k < |r| ==> r[k] in OtelTargets(sinks)
    // entries keep the order of their first occurrences
    ensures forall i, j :: 0 <= i < j < |r| ==>
      FirstIndex(OtelTargets(sinks), r[i]) < FirstIndex(OtelTargets(sinks), r[j])
    // one entry per distinct key among the OpenTelemetry-carrying inputs
    ensures |r| == |KeySet(OtelTargets(sinks))|
  {
    DedupTargetsFacts(sinks);
    Dedup(OtelTargets(sinks))
  }

  /** A sink without an OpenTelemetry target changes nothing, wherever it sits. */
  lemma SinkWithoutTargetIgnored(a: seq<ProxyMetricSink>, s: ProxyMetricSink, b: seq<ProxyMetricSink>)
    requires s.openTelemetry.None?
    ensures MetricSinks(a + [s] + b) == MetricSinks(a + b)
  {
    OtelTargetsSnoc(a, s);
    AppendEmpty(OtelTargets(a));
    OtelTargetsAppend(a + [s], b);
    OtelTargetsAppend(a, b);
  }

  /** A sink is among a list exactly when its key is among the list's keys. */
  lemma KeyInKeySet(sinks: seq<MetricSink>, t: MetricSink)
    ensures Key(t) in KeySet(sinks) <==> t in sinks
  {
    if Key(t) in KeySet(sinks) {
      var s :| s in sinks && Key(s) == Key(t);
      KeyInjective(s, t);
    }
  }

  /** Appending a sink adds its key. */
  lemma KeySetSnoc(sinks: seq<MetricSink>, t: MetricSink)
    ensures KeySet(sinks + [t]) == KeySet(sinks) + {Key(t)}
  {
  }

  /** One step of the sink loop on the reference side: the next sink adds
      nothing without a target, and otherwise adds its target exactly when
      that target's key has not been seen. */
  lemma CollectStep(sinks: seq<ProxyMetricSink>, i: nat)
    requires i < |sinks|
    ensures var before := Dedup(OtelTargets(sinks[..i]));
      var after := Dedup(OtelTargets(sinks[..i + 1]));
      match sinks[i].openTelemetry
      case None => after == before
      case Some(o) =>
        if SinkKey(o.host, o.port) in KeySet(before) then after == before
        else after == before + [TargetOf(o)] && KeySet(after) == KeySet(before) + {SinkKey(o.host, o.port)}
  {
    var scanned := OtelTargets(sinks[..i]);
    TakeOneMore(sinks, i);
    OtelTargetsSnoc(sinks[..i], sinks[i]);
    match sinks[i].openTelemetry
    case None =>
      AppendEmpty(scanned);
    case Some(o) =>
      DedupSnoc(scanned, TargetOf(o));
      KeyInKeySet(Dedup(scanned), TargetOf(o));
      KeySetSnoc(Dedup(scanned), TargetOf(o));
  }

  /** The sink loop as the Go code writes it: a set of seen keys, a skip for
      sinks without an OpenTelemetry target, a skip for already seen keys, and
      an append otherwise. */
  method CollectMetricSinks(sinks: seq<ProxyMetricSink>) returns (metricSinks: seq<MetricSink>)
    ensures metricSinks == MetricSinks(sinks)
  {
    var addresses: set<string> := {};
    metricSinks := [];
    for i := 0 to |sinks|
      invariant metricSinks == Dedup(OtelTargets(sinks[..i]))
      invariant addresses == KeySet(metricSinks)
    {
      var sink := sinks[i];
      CollectStep(sinks, i);
      if sink.openTelemetry.None? {
        continue;
      }
      var o := sink.openTelemetry.value;
      var addr := SinkKey(o.host, o.port);
      if addr in addresses {
        continue;
      }
      addresses := addresses + {addr};
      metricSinks := metricSinks + [TargetOf(o)];
    }
    assert sinks[..|sinks|] == sinks;
  }

  // ---------------------------------------------------------------------
  // Stats matcher

  /** The stats matcher of the parameters: the caller's lists (empty without an
      override), with the mandatory prefixes appended to the prefix list and
      nothing removed or merged. */
  function StatsMatcherFor(policy: Option<ProxyMetrics>): (r: ProxyStatsMatcherParameters)
    ensures policy.Some? && policy.value.proxyStatsMatcher.Some? ==>
      var m := policy.value.proxyStatsMatcher.value;
      && r.inclusionPrefixs == m.inclusionPrefixs + RequiredStatsPrefixes
      && r.inclusionSuffixs == m.inclusionSuffixs
      && r.inclusionRegexps == m.inclusionRegexps
    ensures policy.None? || policy.value.proxyStatsMatcher.None? ==>
      r == ProxyStatsMatcherParameters(RequiredStatsPrefixes, [], [])
    ensures |r.inclusionPrefixs| >= 4
    ensures r.inclusionPrefixs[|r.inclusionPrefixs| - 4..] ==
      ["cluster_manager", "listener_manager", "server", "cluster.xds-grpc"]
  {
    var caller :=
      if policy.Some? && policy.value.proxyStatsMatcher.Some? then
        var m := policy.value.proxyStatsMatcher.value;
        ProxyStatsMatcherParameters(m.inclusionPrefixs, m.inclusionSuffixs, m.inclusionRegexps)
      else
        ProxyStatsMatcherParameters([], [], []);
    SplitRequiredPrefixes();
    var required := Strings.Split(RequiredEnvoyStatsMatcherInclusionPrefixes, ',');
    var r := caller.(inclusionPrefixs := caller.inclusionPrefixs + required);
    assert r.inclusionPrefixs[|r.inclusionPrefixs| - 4..] == required;
    r
  }

  // ---------------------------------------------------------------------
  // The builder

  /** The parameters `GetRenderedBootstrapConfig` renders for a policy. */
  function BuildParameters(policy: Option<ProxyMetrics>): (p: BootstrapParameters)
    // fixed infrastructure fields, whatever the policy
    ensures p.xdsServer == XdsServerParameters("envoy-gateway", 18000)
    ensures p.adminServer == AdminServerParameters("127.0.0.1", 19000, "/dev/null")
    ensures p.readyServer == ReadyServerParameters("0.0.0.0", 19001, "/ready")
    // Prometheus exactly when the policy names a Prometheus provider
    ensures p.enablePrometheus <==> policy.Some? && policy.value.prometheus.Some?
    // sinks: the deduplicated OpenTelemetry targets, or none without a policy
    ensures policy.None? ==> p.otelMetricSinks == []
    ensures policy.Some? ==> p.otelMetricSinks == MetricSinks(policy.value.sinks)
    ensures p.proxyStatsMatcher == StatsMatcherFor(policy)
    // no policy: the baseline prefixes and nothing else
    ensures policy.None? ==>
      && !p.enablePrometheus
      && p.proxyStatsMatcher == ProxyStatsMatcherParameters(RequiredStatsPrefixes, [], [])
  {
    var enablePrometheus := policy.Some? && policy.value.prometheus.Some?;
    var metricSinks := if policy.Some? then MetricSinks(policy.value.sinks) else [];
    BootstrapParameters(
      XdsServerParameters(EnvoyGatewayXdsServerHost, DefaultXdsServerPort),
      AdminServerParameters(EnvoyAdminAddress, EnvoyAdminPort, EnvoyAdminAccessLogPath),
      ReadyServerParameters(EnvoyReadinessAddress, EnvoyReadinessPort, EnvoyReadinessPath),
      enablePrometheus,
      metricSinks,
      StatsMatcherFor(policy))
  }

  /** `bootstrapConfig.render`: the template, given here as `execute`, applied
      to a parameter record. Its text passes through unchanged; its error comes
      back behind a fixed prefix, with the template's own message intact. */
  function Render(parameters: BootstrapParameters, execute: BootstrapParameters -> Result<string, string>): (r: Result<string, string>)
    ensures execute(parameters).Success? ==> r == execute(parameters)
    ensures execute(parameters).Failure? ==> r.Failure?
    ensures execute(parameters).Failure? ==> RenderErrorPrefix <= r.error
    ensures execute(parameters).Failure? ==> r.error[|RenderErrorPrefix|..] == execute(parameters).error
  {
    match execute(parameters)
    case Success(text) => Success(text)
    case Failure(e) => PrefixOfAppend(RenderErrorPrefix, e); Failure(RenderErrorPrefix + e)
  }

  /** The rendered bootstrap document for a policy: the built parameters,
      rendered. */
  function GetRenderedBootstrapConfig(
    policy: Option<ProxyMetrics>,
    execute: BootstrapParameters -> Result<string, string>
  ): (r: Result<string, string>)
    ensures execute(BuildParameters(policy)).Success? ==> r == execute(BuildParameters(policy))
    ensures execute(BuildParameters(policy)).Failure? ==> r.Failure?
    ensures execute(BuildParameters(policy)).Failure? ==> RenderErrorPrefix <= r.error
    ensures execute(BuildParameters(policy)).Failure? ==>
      r.error[|RenderErrorPrefix|..] == execute(BuildParameters(policy)).error
  {
    Render(BuildParameters(policy), execute)
  }

  // ---------------------------------------------------------------------
  // Scenarios

  /** Two sinks that both name host "m" and port 4317 give one sink. */
  lemma DuplicateSinkDropped()
    ensures
      var s := ProxyMetricSink(Some(OpenTelemetrySink("m", 4317)));
      BuildParameters(Some(ProxyMetrics(None, [s, s], None))).otelMetricSinks
        == [MetricSink("m", 4317)]
  {
    var s := ProxyMetricSink(Some(OpenTelemetrySink("m", 4317)));
    assert [s, s][..1] == [s];
    assert OtelTargets([s]) == [MetricSink("m", 4317)];
  }

  /** A caller prefix comes first and the baseline follows in its own order. */
  lemma CustomPrefixFirst()
    ensures
      var policy := ProxyMetrics(None, [], Some(ProxyStatsMatcher(["custom_"], [], [])));
      BuildParameters(Some(policy)).proxyStatsMatcher.inclusionPrefixs == ["custom_"] + RequiredStatsPrefixes
  {
  }

  /** A caller prefix equal to a mandatory one is kept twice, not merged. */
  lemma BaselineNotDeduplicated()
    ensures
      var policy := ProxyMetrics(None, [], Some(ProxyStatsMatcher(["server"], [], [])));
      var prefixes := BuildParameters(Some(policy)).proxyStatsMatcher.inclusionPrefixs;
      |prefixes| == 5 && prefixes[0] == "server" && prefixes[3] == "server"
  {
  }
}
