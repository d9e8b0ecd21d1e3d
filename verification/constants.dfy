/** The constants of the bootstrap package that must match the proxy and the
    rest of the control plane byte for byte, and the split of the
    required-prefix constant into its entries. */
module Constants {
  import Strings

  /** Go's `int32`: the type of every port in the policy and the parameters. */
  newtype int32 = x: int | -0x8000_0000 <= x < 0x8000_0000

  /** DNS name of the xDS server, the Envoy Gateway service. */
  const EnvoyGatewayXdsServerHost: string := "envoy-gateway"
  /** Listening address of the Envoy admin interface. */
  const EnvoyAdminAddress: string := "127.0.0.1"
  const EnvoyAdminPort: int32 := 19000
  const EnvoyAdminAccessLogPath: string := "/dev/null"
  /** Listening port of the xDS server. */
  const DefaultXdsServerPort: int32 := 18000
  const EnvoyReadinessAddress: string := "0.0.0.0"
  const EnvoyReadinessPort: int32 := 19001
  const EnvoyReadinessPath: string := "/ready"
  /** Stats the readiness checks need, as one comma-separated constant. */
  const RequiredEnvoyStatsMatcherInclusionPrefixes: string :=
    "cluster_manager,listener_manager,server,cluster.xds-grpc"

  /** The mandatory prefixes, one entry each, in the order the constant lists them. */
  const RequiredStatsPrefixes: seq<string> :=
    ["cluster_manager", "listener_manager", "server", "cluster.xds-grpc"]

  /** Prefix the render step puts before a template execution error. */
  const RenderErrorPrefix: string := "failed to render bootstrap config: "

  /** The required-prefix constant is the four mandatory prefixes with a
      comma between neighbours. */
  lemma RequiredPrefixesText()
    ensures RequiredEnvoyStatsMatcherInclusionPrefixes ==
      "cluster_manager" + "," + "listener_manager" + "," + "server" + "," + "cluster.xds-grpc"
  {
  }

  lemma JoinRequiredPrefixes()
    ensures Strings.Join(RequiredStatsPrefixes, ',') ==
      "cluster_manager" + "," + "listener_manager" + "," + "server" + "," + "cluster.xds-grpc"
  {
    assert RequiredStatsPrefixes[1..] == ["listener_manager", "server", "cluster.xds-grpc"];
    assert RequiredStatsPrefixes[2..] == ["server", "cluster.xds-grpc"];
    assert RequiredStatsPrefixes[3..] == ["cluster.xds-grpc"];
  }

  /** Splitting the required-prefix constant at its commas gives the four
      mandatory prefixes in order. */
  lemma SplitRequiredPrefixes()
    ensures Strings.Split(RequiredEnvoyStatsMatcherInclusionPrefixes, ',') == RequiredStatsPrefixes
  {
    RequiredPrefixesText();
    JoinRequiredPrefixes();
    assert forall k :: 0 <= k < |RequiredStatsPrefixes| ==> ',' !in RequiredStatsPrefixes[k];
    Strings.SplitJoin(RequiredStatsPrefixes, ',');
  }
}
