/** The tracing backend's span, reduced to the state the bridge reads and writes:
    a display name, a typed attribute map and whether the span has ended. */
module Spans {

  /** The IEEE-754 bit pattern of a `double`: carried as a payload, never interpreted. */
  type DoubleBits = bv64

  /** The value type an `AttributeKey` is declared with. */
  datatype AttrKind = StringKind | BooleanKind | LongKind | DoubleKind

  /** An `AttributeKey`: keys of the same name but different types are different keys. */
  datatype AttrKey = AttrKey(name: string, kind: AttrKind)

  /** A backend attribute value. */
  datatype AttrValue =
    | StringValue(str: string)
    | BooleanValue(boolean: bool)
    | LongValue(long: int)
    | DoubleValue(bits: DoubleBits)
  {
    function Kind(): AttrKind {
      match this
      case StringValue(_) => StringKind
      case BooleanValue(_) => BooleanKind
      case LongValue(_) => LongKind
      case DoubleValue(_) => DoubleKind
    }
  }

  const MinLong: int := -0x8000_0000_0000_0000
  const MaxLong: int := 0x7FFF_FFFF_FFFF_FFFF

  /** A span as the backend records it. */
  datatype SpanData = SpanData(name: string, attrs: map<AttrKey, AttrValue>, ended: bool)

  /** Every attribute sits under a key of its own type, and every long fits in 64 bits. */
  predicate WellTyped(span: SpanData) {
    forall k :: k in span.attrs ==> TypedEntry(k, span.attrs[k])
  }

  predicate TypedEntry(k: AttrKey, v: AttrValue) {
    v.Kind() == k.kind && (v.LongValue? ==> MinLong <= v.long <= MaxLong)
  }

  /** `spanBuilder(name).startSpan()`: a running span with no attributes. */
  function StartSpan(name: string): (r: SpanData)
    ensures r.name == name && |r.attrs| == 0 && !r.ended
    ensures WellTyped(r)
  {
    SpanData(name, map[], false)
  }

  /** `Span.setAttribute`: the value is stored under the key of its own type; every
      other key keeps its value. An ended span is left as it is. */
  function SetAttribute(span: SpanData, name: string, v: AttrValue): (r: SpanData)
    ensures span.ended ==> r == span
    ensures !span.ended ==> AttrKey(name, v.Kind()) in r.attrs && r.attrs[AttrKey(name, v.Kind())] == v
    ensures forall k :: k != AttrKey(name, v.Kind()) ==>
      (k in r.attrs <==> k in span.attrs) && (k in r.attrs ==> r.attrs[k] == span.attrs[k])
    ensures r.name == span.name && r.ended == span.ended
    ensures WellTyped(span) && TypedEntry(AttrKey(name, v.Kind()), v) ==> WellTyped(r)
  {
    if span.ended then span
    else span.(attrs := span.attrs[AttrKey(name, v.Kind()) := v])
  }

  /** `Span.setAllAttributes`: every given entry overrides the key it names; the
      other keys keep their values. An ended span is left as it is. */
  function SetAllAttributes(span: SpanData, m: map<AttrKey, AttrValue>): (r: SpanData)
    ensures span.ended ==> r == span
    ensures !span.ended ==> forall k :: k in m ==> k in r.attrs && r.attrs[k] == m[k]
    ensures forall k :: k !in m ==>
      (k in r.attrs <==> k in span.attrs) && (k in r.attrs ==> r.attrs[k] == span.attrs[k])
    ensures r.name == span.name && r.ended == span.ended
    ensures WellTyped(span) && (forall k :: k in m ==> TypedEntry(k, m[k])) ==> WellTyped(r)
  {
    if span.ended then span
    else span.(attrs := span.attrs + m)
  }

  /** `Span.updateName`: only the name changes. An ended span is left as it is. */
  function UpdateName(span: SpanData, name: string): (r: SpanData)
    ensures span.ended ==> r == span
    ensures !span.ended ==> r.name == name
    ensures r.attrs == span.attrs && r.ended == span.ended
  {
    if span.ended then span else span.(name := name)
  }

  /** `Span.end`: the span is ended with its name and attributes as they are. */
  function EndSpan(span: SpanData): (r: SpanData)
    ensures r.ended
    ensures r.name == span.name && r.attrs == span.attrs
  {
    span.(ended := true)
  }
}
