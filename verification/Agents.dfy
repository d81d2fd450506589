/** `OpenTelemetryAgent`: the agent's entry points, and the linking and trace
    metadata read from the current span context. The current span context is an
    explicit parameter; `None` means no span is active. */
module Agents {
  import opened Wrappers
  import opened Text

  const TraceIdKey: string := "trace.id"
  const SpanIdKey: string := "span.id"

  /** The OpenTelemetry instance the agent is bound to, identified only by a handle. */
  datatype Backend = Backend(handle: nat)

  datatype Transaction = Transaction(backend: Backend)
  datatype MetricAggregator = MetricAggregator(backend: Backend)
  datatype Insights = Insights(backend: Backend)

  /** The agent and the sub-objects it creates once, at construction. */
  datatype Agent = Agent(transaction: Transaction, metricAggregator: MetricAggregator, insights: Insights)

  /** The `NullPointerException` `create` throws for a null backend. */
  datatype NullBackend = NullBackend(message: string)

  /** `OpenTelemetryAgent.create`: rejects a null backend; otherwise every
      sub-object is bound to the given backend. */
  function Create(openTelemetry: Option<Backend>): (r: Result<Agent, NullBackend>)
    ensures r.Failure? <==> openTelemetry.None?
    ensures r.Failure? ==> r.error.message == "openTelemetry must not be null"
    ensures r.Success? ==>
      && r.value.transaction.backend == openTelemetry.value
      && r.value.metricAggregator.backend == openTelemetry.value
      && r.value.insights.backend == openTelemetry.value
  {
    match openTelemetry
    case None => Failure(NullBackend("openTelemetry must not be null"))
    case Some(b) => Success(Agent(Transaction(b), MetricAggregator(b), Insights(b)))
  }

  function GetTransaction(agent: Agent): Transaction { agent.transaction }
  function GetMetricAggregator(agent: Agent): MetricAggregator { agent.metricAggregator }
  function GetInsights(agent: Agent): Insights { agent.insights }

  /** The getters hand out the objects built by `create`, the same ones on every call. */
  lemma GettersReturnCreatedObjects(b: Backend)
    ensures Create(Some(b)).Success?
    ensures GetTransaction(Create(Some(b)).value) == Transaction(b)
    ensures GetMetricAggregator(Create(Some(b)).value) == MetricAggregator(b)
    ensures GetInsights(Create(Some(b)).value) == Insights(b)
  {
  }

  /* ---------------------------------------------------------------------- */
  /* Span contexts                                                           */
  /* ---------------------------------------------------------------------- */

  /** A span's identity: trace id, span id and the sampled flag. */
  datatype SpanContext = SpanContext(traceId: string, spanId: string, sampled: bool)

  /** The all-zero ids of the invalid span context. */
  const InvalidTraceId: string := Repeat('0', 32)
  const InvalidSpanId: string := Repeat('0', 16)

  /** The context of `Span.current()` when no span is active. */
  const InvalidContext: SpanContext := SpanContext(InvalidTraceId, InvalidSpanId, false)

  /** A well-formed id: `n` lower-case hex digits, not all zero. */
  predicate ValidId(id: string, n: nat) {
    |id| == n && AllLowerHex(id) && id != Repeat('0', n)
  }

  /** `SpanContext.isValid`: both ids are well-formed. */
  predicate IsValid(ctx: SpanContext) {
    ValidId(ctx.traceId, 32) && ValidId(ctx.spanId, 16)
  }

  /** `Span.current().getSpanContext()`. */
  function CurrentContext(active: Option<SpanContext>): (r: SpanContext)
    ensures active.None? ==> r == InvalidContext && !IsValid(r)
    ensures active.Some? ==> r == active.value
  {
    active.GetOr(InvalidContext)
  }

  /* ---------------------------------------------------------------------- */
  /* Linking and trace metadata                                              */
  /* ---------------------------------------------------------------------- */

  /** `getLinkingMetadata`: exactly the two ids of a valid current context, or nothing. */
  function GetLinkingMetadata(active: Option<SpanContext>): (r: map<string, string>)
    ensures r.Keys <= {TraceIdKey, SpanIdKey}
    ensures IsValid(CurrentContext(active)) ==>
      r.Keys == {TraceIdKey, SpanIdKey}
      && r[TraceIdKey] == CurrentContext(active).traceId
      && r[SpanIdKey] == CurrentContext(active).spanId
    ensures !IsValid(CurrentContext(active)) ==> r == map[]
  {
    var ctx := CurrentContext(active);
    if IsValid(ctx) then map[TraceIdKey := ctx.traceId, SpanIdKey := ctx.spanId] else map[]
  }

  /** The view `getTraceMetadata` returns. */
  datatype TraceMetadata = TraceMetadata(traceId: string, spanId: string, sampled: bool)

  /** `getTraceMetadata`: the current context's trace id, span id and sampled flag. */
  function GetTraceMetadata(active: Option<SpanContext>): (r: TraceMetadata)
    ensures active.None? ==> r == TraceMetadata(InvalidTraceId, InvalidSpanId, false)
    ensures active.Some? ==>
      r.traceId == active.value.traceId && r.spanId == active.value.spanId && r.sampled == active.value.sampled
  {
    var ctx := CurrentContext(active);
    TraceMetadata(ctx.traceId, ctx.spanId, ctx.sampled)
  }

  /** The linking metadata is non-empty exactly when a valid span is active, and then
      it carries the same ids as the trace metadata. */
  lemma LinkingAgreesWithTraceMetadata(active: Option<SpanContext>)
    ensures |GetLinkingMetadata(active)| > 0 <==> active.Some? && IsValid(active.value)
    ensures |GetLinkingMetadata(active)| > 0 ==>
      && GetLinkingMetadata(active)[TraceIdKey] == GetTraceMetadata(active).traceId
      && GetLinkingMetadata(active)[SpanIdKey] == GetTraceMetadata(active).spanId
  {
    var m := GetLinkingMetadata(active);
    if IsValid(CurrentContext(active)) {
      assert TraceIdKey in m;
    }
  }

  /** The invalid context is not valid: its ids are all zeros. */
  lemma InvalidContextIsInvalid()
    ensures !IsValid(InvalidContext)
    ensures |InvalidTraceId| == 32 && |InvalidSpanId| == 16
  {
  }
}
