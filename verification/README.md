# New Relic Java agent: OpenTelemetry bridge, Docker id and JBoss adjustments

A Dafny model of five pieces of the New Relic Java agent, with proofs about them:

- **The OpenTelemetry bridge** maps the legacy New Relic API onto OpenTelemetry spans.
  - `OpenTelemetryTransaction` names the current span from a category and name parts, and starts segments.
  - `OpenTelemetrySegment` wraps one span. It sets typed attributes on it, renames it and ends it.
  - `OpenTelemetryAgent` builds the transaction, metric aggregator and insights objects. It reads the linking and trace metadata from the current span context.
- **`DockerData`** reads the container id from the lines of `/proc/self/cgroup`.
  - It takes the first line that has exactly three `:`-fields, whose middle field lists `cpu`, and whose third field matches `^.*[^0-9a-f]+([0-9a-f]{64,}).*`. A `cpu` line whose third field does not match, such as `4:cpu:/`, is passed over.
  - From that line it captures the id, the pattern's group.
  - It trims the id and checks it against `^[0-9a-f]{64}$`.
- **`JbossUtils`** makes sure the `jboss.modules.system.pkgs` system property lists the agent's security package.

The model is functional throughout. The OpenTelemetry backend's span is a value: its name, a typed attribute map and whether it has ended. Each bridge operation maps the old span to a new one. The current span is an explicit parameter: `None` stands for "no recording span". The current span context, the cgroup file's lines, the names the system class loader resolves and the system properties are parameters as well.

Modules:

- `Wrappers`: `Option` and `Result`.
- `Text`: the `java.lang.String` and commons-lang behaviour the code relies on.
  - `String.join` (a null element is written as `null`).
  - `String.split` with a one-character delimiter (trailing empty fields are dropped; a string without the delimiter is its own single field).
  - `trim`, `StringUtils.isBlank` and `StringUtils.containsIgnoreCase`.
- `Spans`: the backend span. An ended span ignores every later change.
- `Segments`, `Transactions`, `Agents`: the bridge.
- `DockerData`, `Jboss`.

The container-id pattern is modelled declaratively.

- `PatternSplit(s, a, k, m)` says that the leading `.*` takes `a` characters, `[^0-9a-f]+` takes `k`, the group takes `m` and the trailing `.*` takes the rest. Java's `.` does not match a line terminator.
- The matcher's greedy backtracking settles on the first split it tries. That is the split with the greatest `a`, then the greatest `k`, then the greatest `m` (`GreedySplit`).
- `Search` computes that split and is proved to do so.
- `MatchIsRightmostRun` restates the result independently: the id is the whole of the rightmost run of at least 64 hex digits that follows a non-hex character.

Some behaviours of the code worth knowing:

- `setTransactionName` strips one leading `/` from the category as well as from each part.
- It drops null parts.
- With no parts, it yields the category alone, without a trailing `/`.
- `startSegment(category, name)` with a null category gives the name `null/name`, and with a null name `category/null`, because that is what `String.join` writes.
- `addCustomAttribute(key, (Number) null)` throws `NullPointerException` in the bridge itself: null is neither a `Double` nor a `Float`, so `intValue()` is called on it.

## Model

| member | source | states |
|---|---|---|
| Transactions.SetTransactionName | opentelemetry-agent-extension/src/main/java/com/newrelic/opentelemetry/OpenTelemetryTransaction.java:38-49 | always reports success; a present, running span is renamed to the computed name, keeps its attributes and stays running; an ended span, or no span, is left as it is |
| Transactions.PriorityIsIgnored | opentelemetry-agent-extension/src/main/java/com/newrelic/opentelemetry/OpenTelemetryTransaction.java:39-48 | the priority and the override flag never change the outcome |
| Transactions.NullCategoryIsJava | opentelemetry-agent-extension/src/main/java/com/newrelic/opentelemetry/OpenTelemetryTransaction.java:41 | a null category names the span exactly as the category "Java" does |
| Transactions.NullPartIsDropped | opentelemetry-agent-extension/src/main/java/com/newrelic/opentelemetry/OpenTelemetryTransaction.java:42-44 | inserting a null part anywhere among the parts leaves the name unchanged |
| Transactions.AppendPart | opentelemetry-agent-extension/src/main/java/com/newrelic/opentelemetry/OpenTelemetryTransaction.java:45-46 | appending a non-null part extends the name by `/` and that part less one leading `/` |
| Transactions.TwoPlainParts | opentelemetry-agent-extension/src/main/java/com/newrelic/opentelemetry/OpenTelemetryTransaction.java:40-46 | a category and two non-null parts, the second not starting with `/`, give the stripped category, `/`, the stripped first part, `/` and the second part |
| Transactions.NullThenPart | opentelemetry-agent-extension/src/main/java/com/newrelic/opentelemetry/OpenTelemetryTransaction.java:40-46 | a category, a null part and a non-null part give the stripped category, `/` and the stripped part: the null part leaves no trace |
| Transactions.NameSplitsIntoElements | opentelemetry-agent-extension/src/main/java/com/newrelic/opentelemetry/OpenTelemetryTransaction.java:40-46 | when no element contains `/` after stripping, splitting the name at `/` gives back the stripped non-null elements, category first (round trip) |
| Transactions.CategoryOnly | opentelemetry-agent-extension/src/main/java/com/newrelic/opentelemetry/OpenTelemetryTransaction.java:40-46 | with no parts the name is the category alone, less one leading `/`, with no trailing `/` |
| Transactions.NamingExamples | opentelemetry-agent-extension/src/test/java/com/newrelic/api/agent/opentelemetry/OpenTelemetryTransactionTest.java:104-140 | `(null, part1, part2)` gives `Java/part1/part2`; `(category, newName)` gives `category/newName`; `(category, /part1, part2)` gives `category/part1/part2`; `(/a, null, //b)` gives `a//b` (one `/` stripped per element) |
| Transactions.StartSegment | opentelemetry-agent-extension/src/main/java/com/newrelic/opentelemetry/OpenTelemetryTransaction.java:148-151 | the segment's span is running, named as given, with no attributes |
| Transactions.StartSegmentInCategory | opentelemetry-agent-extension/src/main/java/com/newrelic/opentelemetry/OpenTelemetryTransaction.java:153-156 | the span is named category, `/`, name, with a null category or a null name written as `null`; it is running with no attributes |
| Transactions.UnsupportedCallsAreNeutral | opentelemetry-agent-extension/src/main/java/com/newrelic/opentelemetry/OpenTelemetryTransaction.java:51-124 | `isTransactionNameSet`, `markResponseSent` and `isWebTransaction` answer false; `getRequestMetadata` and `getResponseMetadata` answer null |
| Segments.IntValue | opentelemetry-agent-extension/src/main/java/com/newrelic/opentelemetry/OpenTelemetrySegment.java:31 | `intValue()` lies in the 32-bit signed range and agrees with the number modulo 2^32 |
| Segments.IntValueExamples | opentelemetry-agent-extension/src/main/java/com/newrelic/opentelemetry/OpenTelemetrySegment.java:31 | values in the `int` range are kept; 2^31 wraps to -2^31, 2^32+5 to 5 |
| Segments.NumberAttribute | opentelemetry-agent-extension/src/main/java/com/newrelic/opentelemetry/OpenTelemetrySegment.java:27-33 | a number becomes a double attribute iff it is a `Double` or a `Float`; any other number becomes a long equal to its `intValue()` |
| Segments.ObjectAttribute | opentelemetry-agent-extension/src/main/java/com/newrelic/opentelemetry/OpenTelemetrySegment.java:45-48 | strings, booleans and numbers become attributes of their own type; values of any other class are dropped |
| Segments.ToAttributes | opentelemetry-agent-extension/src/main/java/com/newrelic/opentelemetry/OpenTelemetrySegment.java:45-48 | every supported map entry appears under the key of its name and coerced type; every built entry comes from the map and is well typed |
| Segments.Start | opentelemetry-agent-extension/src/main/java/com/newrelic/opentelemetry/OpenTelemetrySegment.java:21-24 | a fresh running span with the given name and no attributes |
| Segments.AddNumberAttribute | opentelemetry-agent-extension/src/main/java/com/newrelic/opentelemetry/OpenTelemetrySegment.java:26-33 | a null number throws; otherwise, on a running span, exactly the key of the coerced attribute's type is set to the coerced value (a `Double`/`Float` as its double, any other number as the long `intValue()`) and every other attribute is kept; an ended span is untouched; name and state unchanged |
| Segments.AddStringAttribute | opentelemetry-agent-extension/src/main/java/com/newrelic/opentelemetry/OpenTelemetrySegment.java:35-38 | on a running span, exactly the string-typed key is set and every other attribute is kept; an ended span is untouched; name and state unchanged |
| Segments.AddBooleanAttribute | opentelemetry-agent-extension/src/main/java/com/newrelic/opentelemetry/OpenTelemetrySegment.java:40-43 | on a running span, exactly the boolean-typed key is set and every other attribute is kept; an ended span is untouched; name and state unchanged |
| Segments.AddCustomAttributes | opentelemetry-agent-extension/src/main/java/com/newrelic/opentelemetry/OpenTelemetrySegment.java:45-48 | each supported entry is stored under its typed key; every key the converted map does not set is untouched; an ended span is untouched; name and state unchanged |
| Segments.SetMetricName | opentelemetry-agent-extension/src/main/java/com/newrelic/opentelemetry/OpenTelemetrySegment.java:50-53 | a running span is renamed to the parts joined by `/`, a null part written as `null`; an ended span is returned unchanged; attributes and state are kept |
| Segments.End | opentelemetry-agent-extension/src/main/java/com/newrelic/opentelemetry/OpenTelemetrySegment.java:76-79 | the span is ended with its name and attributes as they were |
| Segments.EndAsync | opentelemetry-agent-extension/src/main/java/com/newrelic/opentelemetry/OpenTelemetrySegment.java:81-84 | the span is ended with its name and attributes as they were |
| Segments.EndAsyncIsEnd | opentelemetry-agent-extension/src/main/java/com/newrelic/opentelemetry/OpenTelemetrySegment.java:76-84 | `endAsync` is the same as `end`, and ending twice is the same as ending once |
| Segments.UnsupportedOperationsLeaveSpan | opentelemetry-agent-extension/src/main/java/com/newrelic/opentelemetry/OpenTelemetrySegment.java:55-74 | `reportAsExternal`, `addOutboundRequestHeaders` and `ignore` leave the span untouched |
| Segments.StartAttributeEndScenario | opentelemetry-agent-extension/src/test/java/com/newrelic/api/agent/opentelemetry/OpenTelemetryTransactionTest.java:60-81 | start, four single attributes, the four-entry map, end: one ended span with its name and exactly the eight typed attributes |
| Agents.Create | opentelemetry-agent-extension/src/main/java/com/newrelic/opentelemetry/OpenTelemetryAgent.java:33-42 | fails with "openTelemetry must not be null" iff the backend is null; otherwise the transaction, metric aggregator and insights are all bound to that backend |
| Agents.GettersReturnCreatedObjects | opentelemetry-agent-extension/src/main/java/com/newrelic/opentelemetry/OpenTelemetryAgent.java:49-74 | the getters return the objects built at creation |
| Agents.CurrentContext | opentelemetry-agent-extension/src/main/java/com/newrelic/opentelemetry/OpenTelemetryAgent.java:85-86 | with no active span the current context is the invalid one (all-zero ids, not sampled); otherwise it is the active span's |
| Agents.GetLinkingMetadata | opentelemetry-agent-extension/src/main/java/com/newrelic/opentelemetry/OpenTelemetryAgent.java:81-94 | only `trace.id` and `span.id` can appear; a valid context gives both, with its ids; an invalid one gives an empty map |
| Agents.GetTraceMetadata | opentelemetry-agent-extension/src/main/java/com/newrelic/opentelemetry/OpenTelemetryAgent.java:76-79 | the active context's trace id, span id and sampled flag; with no span, the all-zero ids and not sampled |
| Agents.LinkingAgreesWithTraceMetadata | opentelemetry-agent-extension/src/test/java/com/newrelic/api/agent/opentelemetry/OpenTelemetryAgentTest.java:33-62 | the linking metadata is non-empty iff a valid span is active, and then carries the same ids as the trace metadata |
| Agents.InvalidContextIsInvalid | opentelemetry-agent-extension/src/test/java/com/newrelic/api/agent/opentelemetry/OpenTelemetryAgentTest.java:58-61 | the invalid context's ids are 32 and 16 zeros and it is not valid |
| DockerData.IsInvalidDockerValue | newrelic-agent/src/main/java/com/newrelic/agent/utilization/DockerData.java:83-90 | null is invalid; a string is invalid iff it is not 64 characters long or holds a character outside `[0-9a-f]` |
| DockerData.ValidCpuLineItems | newrelic-agent/src/main/java/com/newrelic/agent/utilization/DockerData.java:106-116 | a controller list qualifies iff one of its comma-separated items is exactly `cpu` |
| DockerData.ValidCpuLineExamples | newrelic-agent/src/main/java/com/newrelic/agent/utilization/DockerData.java:106-116 | `cpu`, `cpu,cpuacct` and `cpuacct,cpu` qualify; `cpuacct` does not |
| DockerData.Search | newrelic-agent/src/main/java/com/newrelic/agent/utilization/DockerData.java:36 | the backtracking search finds a split of the pattern that is tried before every other split, or reports that there is none |
| DockerData.MatchContainerString | newrelic-agent/src/main/java/com/newrelic/agent/utilization/DockerData.java:118-125 | matches iff some split of the whole field fits the pattern; the group is the one of the split the greedy matcher settles on |
| DockerData.MatchIsRightmostRun | newrelic-agent/src/main/java/com/newrelic/agent/utilization/DockerData.java:36 | on a field without line terminators: a match exists iff 64 hex digits follow a non-hex character, and the id is the whole of the rightmost such run |
| DockerData.ShortFieldNeverMatches | newrelic-agent/src/main/java/com/newrelic/agent/utilization/DockerData.java:99 | a field of 64 characters or fewer, `/` among them, never yields an id |
| DockerData.SampleLineYieldsId | newrelic-agent/src/main/java/com/newrelic/agent/utilization/DockerData.java:25 | the sample line `4:cpu:/docker/3ccf…a782` yields its 64-digit id, which passes validation |
| DockerData.CheckLine | newrelic-agent/src/main/java/com/newrelic/agent/utilization/DockerData.java:93-104 | an id comes only from a line of exactly three `:`-fields whose middle one lists `cpu`, and is the match of the third field; it is all hex and at least 64 long |
| DockerData.CapturedIdValidation | newrelic-agent/src/main/java/com/newrelic/agent/utilization/DockerData.java:69-70 | a captured id is unchanged by `trim`, and it validates iff it is exactly 64 digits long |
| DockerData.FirstIndex | newrelic-agent/src/main/java/com/newrelic/agent/utilization/DockerData.java:67-68 | the first line that yields an id, if any: every earlier line yields none, and there is none exactly when no line yields an id |
| DockerData.TrimAndValidate | newrelic-agent/src/main/java/com/newrelic/agent/utilization/DockerData.java:69-74 | a captured id survives trimming and validation exactly when it has 64 digits, and is then returned unchanged |
| DockerData.ReadFile | newrelic-agent/src/main/java/com/newrelic/agent/utilization/DockerData.java:62-81 | null when no line yields an id; otherwise the first yielding line alone decides: its id if it is exactly 64 digits, null if not; any result is a valid id |
| DockerData.GetDockerContainerId | newrelic-agent/src/main/java/com/newrelic/agent/utilization/DockerData.java:38-55 | null off Linux and for an unreadable file; otherwise an id exactly when some line yields one and the first such line's capture has 64 digits, and then that capture |
| Jboss.SystemPkgsValueParts | newrelic-agent/src/main/java/com/newrelic/agent/config/JbossUtils.java:14-19 | the list is `java.util.logging`, `javax.management`, `com.nr.instrumentation.security`, `java.lang.management`, comma-separated |
| Jboss.AdjustSystemPkgs | newrelic-agent/src/main/java/com/newrelic/agent/config/JbossUtils.java:28-33 | blank or null becomes the list; a non-blank value without the security package becomes the value, `,` and the list; the value is unchanged iff it already contains the security package ignoring case; the result always contains it |
| Jboss.AdjustIsIdempotent | newrelic-agent/src/main/java/com/newrelic/agent/config/JbossUtils.java:28-33 | adjusting a second time changes nothing |
| Jboss.AdjustExamples | newrelic-agent/src/main/java/com/newrelic/agent/config/JbossUtils.java:29-32 | null and empty give the list; `org.foo` gives `org.foo,` followed by the list |
| Jboss.UpperCaseSecurityPackageCounts | newrelic-agent/src/main/java/com/newrelic/agent/config/JbossUtils.java:31 | the package written in capitals counts as present, so the value is kept |
| Jboss.IsClassLoaded | newrelic-agent/src/main/java/com/newrelic/agent/config/JbossUtils.java:47-60 | throws iff an argument is null; otherwise true iff some loaded class has that name (none when the class list is null) |
| Jboss.IsJbossServer | newrelic-agent/src/main/java/com/newrelic/agent/config/JbossUtils.java:37-45 | true when the system class loader resolves `org/jboss/modules/Main.class`; otherwise whether `org.jboss.modules.Main` is loaded, throwing `isClassLoaded`'s `IllegalArgumentException` ("instrumentation and className must not be null") on a null instrumentation |
| Jboss.CheckAndApplyJbossAdjustments | newrelic-agent/src/main/java/com/newrelic/agent/config/JbossUtils.java:26-35 | on JBoss `jboss.modules.system.pkgs` takes the adjusted value of its old one (null when unset) and then holds the security package; off JBoss the properties are untouched; no other property changes; the lookup's `IllegalArgumentException`, with its message, propagates |
| Text.JavaSplitExactly | newrelic-agent/src/main/java/com/newrelic/agent/utilization/DockerData.java:94 | `split` yields a given list of two or more fields iff no field holds the delimiter, the last is non-empty, and the string is the fields joined by the delimiter followed by any number of delimiters |
| Text.JavaSplitMembership | newrelic-agent/src/main/java/com/newrelic/agent/utilization/DockerData.java:108-110 | dropping trailing empty fields never changes which non-empty strings occur among the fields |
| Text.Trim | newrelic-agent/src/main/java/com/newrelic/agent/utilization/DockerData.java:69 | the result is the input with a prefix and a suffix removed, every removed character at or below U+0020, and its ends above U+0020 |
| Text.TrimIsUnique | newrelic-agent/src/main/java/com/newrelic/agent/utilization/DockerData.java:69 | any slice cut out that way whose ends are above U+0020 is the trimmed string, so the contract of `Trim` determines it |
| Text.ContainsIgnoreCaseAt | newrelic-agent/src/main/java/com/newrelic/agent/config/JbossUtils.java:31 | an exact occurrence is a case-insensitive occurrence |

## Left out

- The OpenTelemetry SDK itself is not modelled: tracers, span builders, context propagation, exporters. The span is reduced to its name, its typed attributes and whether it has ended. An ended span ignoring later changes is the SDK's documented behaviour, taken as given.
- `toAttributes`, which `addCustomAttributes` calls, is not part of this model. It is modelled as applying the single-value coercions of `addCustomAttribute` to each entry, dropping values of other classes.
- Segments.NumberAttribute: `BigDecimal` and other non-integral `Number` subclasses are left out. Only `Double`, `Float` and integral boxes are modelled. A `Float` is carried as its `doubleValue()` bit pattern, and no floating-point arithmetic is modelled.
- Null attribute keys and null string values are left out: the bridge hands them to the SDK's `setAttribute`, which is not part of this model. A null map goes to `toAttributes`, which is not part of this model either.
- Logging of unsupported methods is left out, as are the log lines in `DockerData` and `JbossUtils`. They have no effect on results.
- The transaction's other unsupported calls are left out: `ignore`, `ignoreApdex`, `process*Metadata`, `setWebRequest`, `setWebResponse`, `ignoreErrors`, `convertToWebTransaction`, `addOutboundResponseHeaders`, the distributed-trace calls and `getSecurityMetaData`. Each only logs, except that `createDistributedTracePayload` returns the shared no-op payload and `getSecurityMetaData` a new `Object`.
- `getTracedMethod`, `getLastTracer`, `getToken`, `getLogger`, `getConfig`, `getErrorApi` and `Segment.getTransaction` return singletons or the global agent's objects. They are left out.
- The metric aggregator, insights and error API are represented only by which backend they are bound to.
- Transactions.StartSegment: a null segment name is handed to the SDK's `spanBuilder`, which is not part of this model; only non-null names are modelled.
- Transactions.SetTransactionName: a null `parts` array, which throws in `Arrays.asList`, is not modelled.
- Segments.SetMetricName: a null `metricNameParts` array, which throws in `String.join`, is not modelled.
- Span ids are taken as given. `isValid` is modelled as 32 and 16 lower-case hex digits, not all zero.
- DockerData.GetDockerContainerId: opening the file and the `exists`/`canRead` checks are collapsed into an optional list of lines. Line splitting by `BufferedReader` is taken as given. An I/O error part-way through the file, which makes `readFile` return null, is not modelled.
- Text.ContainsIgnoreCase: case folding covers ASCII letters, plus the four non-ASCII letters whose Java upper or lower case is an ASCII letter (U+0130, U+0131, U+017F, U+212A). Other pairs of non-ASCII letters that fold together are treated as different.
- Text.IsWhitespace follows `Character.isWhitespace` for `char` values. Supplementary characters and unpaired surrogates are not distinguished.
- `install`, `resetForTest` and the global `OpenTelemetryNewRelic` state are left out.
