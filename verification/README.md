# Envoy Gateway bootstrap parameter builder, in Dafny

This project models how Envoy Gateway builds the parameters of the Envoy
bootstrap configuration (`GetRenderedBootstrapConfig` in
`internal/xds/bootstrap/bootstrap.go`). It takes an optional proxy-metrics
policy and produces a `BootstrapParameters` record. The builder does four
things, and each one is modelled and proved:

- **Prometheus flag.** `EnablePrometheus` is set exactly when the policy is
  present and names a Prometheus provider.
- **OpenTelemetry sinks.** Sinks without an OpenTelemetry target are skipped.
  A sink whose `"host:port"` key (built as `fmt.Sprintf("%s:%d", host, port)`)
  was already seen is dropped. The survivors keep the order of their first
  occurrences.
- **Stats matcher.** The caller's prefix, suffix and regex lists are copied, or
  empty lists are used when there is no override. The comma-split
  `RequiredEnvoyStatsMatcherInclusionPrefixes` constant is then appended to the
  prefixes. Nothing is deduplicated, so a caller prefix that equals a mandatory
  one appears twice.
- **Fixed servers.** The xDS server (`envoy-gateway:18000`), the admin server
  (`127.0.0.1:19000`, access log `/dev/null`) and the readiness server
  (`0.0.0.0:19001`, path `/ready`) always come from constants.

Files and modules:

| file | module | contents |
|---|---|---|
| `wrappers.dfy` | `Wrappers` | `Option` (a Go pointer that may be nil) and `Result` (Go's `(T, error)`) |
| `decimal.dfy` | `Decimal` | Go's `%d` formatting of integers, its parser, round trip and injectivity |
| `strings.dfy` | `Strings` | `strings.Split` on a one-character separator, `Join`, both round trips |
| `sequences.dfy` | `Sequences` | order-preserving duplicate removal (`Dedup`) and its properties |
| `constants.dfy` | `Constants` | the package constants, `int32`, and the split of the required-prefix constant |
| `bootstrap.dfy` | `Bootstrap` | policy and parameter records, sink key, sink filter and dedup, the sink loop, stats matcher, builder, render driver |

The sink loop is modelled twice. `Bootstrap.CollectMetricSinks` follows the
Go loop statement by statement: a set of seen `"host:port"` strings, one
`continue` for a sink without a target, one for a key already seen, and an
append otherwise. `Bootstrap.MetricSinks` is the reference definition: the
OpenTelemetry targets passed through `Sequences.Dedup`, which compares sinks
by value. The two agree because the key is injective: the decimal port has no
colon, so the last colon of a key ends the host, even when the host has colons
of its own (`Bootstrap.SinkKeyInjective`).

## Model

| member | source | states |
|---|---|---|
| `Decimal.FormatInt` | internal/xds/bootstrap/bootstrap.go:163 | the `%d` text of a port is decimal digits, with a leading minus sign exactly when the port is negative, and in canonical form: no leading zero except for zero itself, no minus before zero |
| `Decimal.ParseFormatInt` | internal/xds/bootstrap/bootstrap.go:163 | parsing the `%d` text of any integer gives that integer back |
| `Decimal.FormatIntInjective` | internal/xds/bootstrap/bootstrap.go:163 | two ports have the same `%d` text if and only if they are equal |
| `Decimal.FormatIntHasNoColon` | internal/xds/bootstrap/bootstrap.go:163 | the `%d` text of a port never contains `:` |
| `Bootstrap.SinkKey` | internal/xds/bootstrap/bootstrap.go:163 | the key is the host, a colon, then decimal text that holds no colon and parses back to the port |
| `Bootstrap.SinkKeyInjective` | internal/xds/bootstrap/bootstrap.go:163 | two `"host:port"` keys are equal if and only if hosts and ports are equal, even for hosts that contain colons |
| `Strings.Split` | internal/xds/bootstrap/bootstrap.go:183 | `strings.Split` on one separator gives at least one piece, and no piece contains the separator |
| `Strings.JoinSplit` | internal/xds/bootstrap/bootstrap.go:183 | joining the pieces of a split with the separator gives back the original string |
| `Strings.SplitJoin` | internal/xds/bootstrap/bootstrap.go:183 | splitting a join of separator-free pieces gives back exactly those pieces |
| `Constants.SplitRequiredPrefixes` | internal/xds/bootstrap/bootstrap.go:40 | splitting the required-prefix constant at commas gives `cluster_manager`, `listener_manager`, `server`, `cluster.xds-grpc`, in that order |
| `Sequences.Dedup` | internal/xds/bootstrap/bootstrap.go:162-172 | duplicate removal leaves no element twice and keeps exactly the elements of the input |
| `Sequences.DedupFirstOccurrenceOrder` | internal/xds/bootstrap/bootstrap.go:157-172 | kept elements appear in the order of their first occurrences in the input |
| `Sequences.DedupCharacterization` | internal/xds/bootstrap/bootstrap.go:162-172 | a list is the duplicate-free result if and only if it holds exactly the input's elements, in the order of their first occurrences |
| `Sequences.FirstOccurrenceOrderUnique` | internal/xds/bootstrap/bootstrap.go:162-172 | two lists with the same elements, both in first-occurrence order of the input, are equal |
| `Sequences.DedupLength` | internal/xds/bootstrap/bootstrap.go:156-167 | the result has one entry per distinct element of the input |
| `Sequences.DedupIdempotent` | internal/xds/bootstrap/bootstrap.go:162-172 | removing duplicates a second time changes nothing |
| `Sequences.DistinctDedupIsIdentity` | internal/xds/bootstrap/bootstrap.go:162-172 | an input without duplicates is returned unchanged |
| `Bootstrap.KeyInKeySet` | internal/xds/bootstrap/bootstrap.go:164 | a key is in the seen set if and only if a sink with the same host and port was already emitted |
| `Bootstrap.OtelTargets` | internal/xds/bootstrap/bootstrap.go:157-160 | the filter keeps at most one target per sink; what it keeps and drops is stated by `Bootstrap.OtelTargetsMembers` and `Bootstrap.OtelTargetsAppend` |
| `Bootstrap.OtelTargetsMembers` | internal/xds/bootstrap/bootstrap.go:157-160 | the target of every sink that has an OpenTelemetry target is kept, and every kept target comes from such a sink |
| `Bootstrap.OtelTargetsAppend` | internal/xds/bootstrap/bootstrap.go:157-160 | filtering the concatenation of two sink lists is the concatenation of their filterings |
| `Bootstrap.SinkWithoutTargetIgnored` | internal/xds/bootstrap/bootstrap.go:158-160 | inserting a sink without an OpenTelemetry target anywhere leaves the deduplicated sink list unchanged |
| `Bootstrap.MetricSinks` | internal/xds/bootstrap/bootstrap.go:156-173 | output sinks have pairwise different keys; every OpenTelemetry input is present by host and port; every entry comes from an input; entries follow first-occurrence order; the count equals the number of distinct keys |
| `Bootstrap.CollectStep` | internal/xds/bootstrap/bootstrap.go:157-172 | one loop iteration on the reference side: a sink without a target adds nothing; otherwise its target is appended, and its key added to the seen set, exactly when the key was not seen |
| `Bootstrap.CollectMetricSinks` | internal/xds/bootstrap/bootstrap.go:156-173 | the loop with a seen-key set computes the same list as the reference deduplication |
| `Bootstrap.StatsMatcherFor` | internal/xds/bootstrap/bootstrap.go:175-183 | with an override, prefixes are the caller's followed by the four mandatory ones, and suffixes and regexes are the caller's; without one, prefixes are the mandatory ones and the other lists are empty; the last four prefixes are always the mandatory ones in order |
| `Bootstrap.BuildParameters` | internal/xds/bootstrap/bootstrap.go:144-206 | servers are always the fixed constants; Prometheus is on if and only if the policy has a Prometheus provider; sinks are the deduplicated targets, or none without a policy; an absent policy yields only the baseline prefixes |
| `Bootstrap.Render` | internal/xds/bootstrap/bootstrap.go:133-141 | a successful template execution is returned unchanged; a failing one fails too, and its error is `failed to render bootstrap config: ` followed by the template's own message, unchanged |
| `Bootstrap.GetRenderedBootstrapConfig` | internal/xds/bootstrap/bootstrap.go:208-212 | the document is the template's text for the built parameters; if the template fails, the function fails with the template's message behind the fixed prefix |
| `Bootstrap.DuplicateSinkDropped` | internal/xds/bootstrap/bootstrap.go:162-172 | two sinks both at host `m`, port 4317 give exactly one sink |
| `Bootstrap.CustomPrefixFirst` | internal/xds/bootstrap/bootstrap.go:183 | a caller prefix `custom_` is followed by the four mandatory prefixes in order |
| `Bootstrap.BaselineNotDeduplicated` | internal/xds/bootstrap/bootstrap.go:183 | a caller prefix `server` is kept, and the mandatory `server` is appended again |

## Left out

- Template execution (`bootstrapTmpl.Execute` at line 135, `text/template` over the embedded `bootstrap.yaml.tpl` of lines 43-46) is a foreign library over a template text that is not part of this model. `Render` and `GetRenderedBootstrapConfig` take it as a function parameter `execute` that may return an error; the `strings.Builder` buffer is folded into its result.
- The `template.Must` start-up parsing and the `//go:embed` directive are process plumbing with no logic of their own.
- `envoyCfgFileName` only names the template, so it is not modelled.
- The `bootstrapConfig` struct (lines 49-54) only carries the parameters and the rendered text between the two steps. The model returns the text directly.
- In Go the error path returns `("", err)` (line 209). The model returns `Failure(err)`, and the empty string is implied.
- Go's `%v` of the template error is taken to be the error's message text, which the template supplies.
- `sets.NewString` is modelled as a Dafny `set<string>`.
- Go's `append` may write into the caller's backing array (lines 177 and 183). That aliasing is not visible in the value semantics modelled here.
- Nil and empty Go slices are both the empty sequence.
- Go strings are byte sequences, while a Dafny `string` is a sequence of characters. Hosts and prefixes are only copied, concatenated and compared for equality, so the difference is not observable here.
- Policy fields the builder never reads, such as a sink's type tag, are not modelled.
- `api/v1alpha1/retrystragegy_types.go` only declares retry-policy types. The builder does not use it.
