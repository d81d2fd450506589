/** `OpenTelemetrySegment`: a legacy segment backed by exactly one span. Each
    operation is a state transformer on the segment. */
module Segments {
  import opened Wrappers
  import opened Text
  import opened Spans

  const TwoTo31: int := 0x8000_0000
  const TwoTo32: int := 0x1_0000_0000

  /** A `java.lang.Number` as the segment sees it: a `Double`, a `Float` (carried as
      its `doubleValue()`), or an integral box (`Byte`, `Short`, `Integer`, `Long`,
      `BigInteger`, the atomics) holding its exact value. */
  datatype JavaNumber =
    | JDouble(bits: DoubleBits)
    | JFloat(widened: DoubleBits)
    | Integral(value: int)

  /** A value of the `Map<String, Object>` handed to `addCustomAttributes`. */
  datatype JavaObject =
    | JString(str: string)
    | JBoolean(boolean: bool)
    | JNumber(number: JavaNumber)
    | OtherObject

  datatype Segment = Segment(span: SpanData)

  /** `Number.intValue()` on an integral box: the low 32 bits read as a signed
      two's-complement `int`. */
  function IntValue(v: int): (r: int)
    ensures -TwoTo31 <= r < TwoTo31
    ensures (v - r) % TwoTo32 == 0
  {
    (v + TwoTo31) % TwoTo32 - TwoTo31
  }

  /** Values that already fit in an `int` are kept; larger ones wrap around. */
  lemma IntValueExamples()
    ensures forall v :: -TwoTo31 <= v < TwoTo31 ==> IntValue(v) == v
    ensures IntValue(TwoTo31) == -TwoTo31
    ensures IntValue(TwoTo32 + 5) == 5
    ensures IntValue(-1) == -1
  {
    forall v | -TwoTo31 <= v < TwoTo31
      ensures IntValue(v) == v
    {
      assert 0 <= v + TwoTo31 < TwoTo32;
    }
  }

  /** The attribute a number becomes under `addCustomAttribute(String, Number)`. */
  function NumberAttribute(n: JavaNumber): (r: AttrValue)
    ensures r.Kind() == DoubleKind <==> (n.JDouble? || n.JFloat?)
    ensures r.Kind() == LongKind <==> n.Integral?
    ensures n.JDouble? ==> r == DoubleValue(n.bits)
    ensures n.JFloat? ==> r == DoubleValue(n.widened)
    ensures n.Integral? ==> r.long == IntValue(n.value)
  {
    match n
    case JDouble(d) => DoubleValue(d)
    case JFloat(f) => DoubleValue(f)
    case Integral(v) => LongValue(IntValue(v))
  }

  /** The attribute a map value becomes under `addCustomAttributes`; values of any
      other class are dropped. */
  function ObjectAttribute(o: JavaObject): (r: Option<AttrValue>)
    ensures r.None? <==> o.OtherObject?
    ensures o.JString? ==> r == Some(StringValue(o.str))
    ensures o.JBoolean? ==> r == Some(BooleanValue(o.boolean))
    ensures o.JNumber? ==> r == Some(NumberAttribute(o.number))
  {
    match o
    case JString(s) => Some(StringValue(s))
    case JBoolean(b) => Some(BooleanValue(b))
    case JNumber(n) => Some(NumberAttribute(n))
    case OtherObject => None
  }

  /** The typed attribute entries built from a map of loosely typed values. */
  function ToAttributes(m: map<string, JavaObject>): (r: map<AttrKey, AttrValue>)
    ensures forall k :: k in m && !m[k].OtherObject? ==>
      var v := ObjectAttribute(m[k]).value; AttrKey(k, v.Kind()) in r && r[AttrKey(k, v.Kind())] == v
    ensures forall key :: key in r ==>
      key.name in m && ObjectAttribute(m[key.name]) == Some(r[key]) && TypedEntry(key, r[key])
  {
    map k | k in m && !m[k].OtherObject? :: AttrKey(k, ObjectAttribute(m[k]).value.Kind()) := ObjectAttribute(m[k]).value
  }

  /** `OpenTelemetrySegment.start(tracer, name)`: a segment over a fresh running span named `name`. */
  function Start(name: string): (r: Segment)
    ensures r.span.name == name && |r.span.attrs| == 0 && !r.span.ended
    ensures WellTyped(r.span)
  {
    Segment(StartSpan(name))
  }

  /** The `NullPointerException` raised when `addCustomAttribute(String, Number)`
      is given a null number: null is neither a `Double` nor a `Float`, so the
      bridge calls `intValue()` on it. */
  datatype NullNumber = NullNumber

  /** `addCustomAttribute(String, Number)`: a `Double` or `Float` is stored as a
      double attribute, any other number as a long attribute holding its `intValue()`;
      a null number throws before the span is touched. */
  function AddNumberAttribute(seg: Segment, key: string, value: Option<JavaNumber>): (r: Result<Segment, NullNumber>)
    ensures r.Failure? <==> value.None?
    ensures r.Success? && !seg.span.ended ==>
      r.value.span.attrs == seg.span.attrs[AttrKey(key, NumberAttribute(value.value).Kind()) := NumberAttribute(value.value)]
    ensures r.Success? && seg.span.ended ==> r.value == seg
    ensures r.Success? ==> r.value.span.name == seg.span.name && r.value.span.ended == seg.span.ended
    ensures r.Success? && WellTyped(seg.span) ==> WellTyped(r.value.span)
  {
    match value
    case None => Failure(NullNumber)
    case Some(n) => Success(Segment(SetAttribute(seg.span, key, NumberAttribute(n))))
  }

  /** `addCustomAttribute(String, String)`. */
  function AddStringAttribute(seg: Segment, key: string, value: string): (r: Segment)
    ensures !seg.span.ended ==> r.span.attrs == seg.span.attrs[AttrKey(key, StringKind) := StringValue(value)]
    ensures seg.span.ended ==> r == seg
    ensures r.span.name == seg.span.name && r.span.ended == seg.span.ended
    ensures WellTyped(seg.span) ==> WellTyped(r.span)
  {
    Segment(SetAttribute(seg.span, key, StringValue(value)))
  }

  /** `addCustomAttribute(String, boolean)`. */
  function AddBooleanAttribute(seg: Segment, key: string, value: bool): (r: Segment)
    ensures !seg.span.ended ==> r.span.attrs == seg.span.attrs[AttrKey(key, BooleanKind) := BooleanValue(value)]
    ensures seg.span.ended ==> r == seg
    ensures r.span.name == seg.span.name && r.span.ended == seg.span.ended
    ensures WellTyped(seg.span) ==> WellTyped(r.span)
  {
    Segment(SetAttribute(seg.span, key, BooleanValue(value)))
  }

  /** `addCustomAttributes(Map<String, Object>)`: each supported entry is stored under
      a key of its coerced type; no other attribute changes. */
  function AddCustomAttributes(seg: Segment, m: map<string, JavaObject>): (r: Segment)
    ensures !seg.span.ended ==> forall k :: k in m && !m[k].OtherObject? ==>
      var v := ObjectAttribute(m[k]).value; AttrKey(k, v.Kind()) in r.span.attrs && r.span.attrs[AttrKey(k, v.Kind())] == v
    ensures forall key: AttrKey :: key !in ToAttributes(m) ==>
      (key in r.span.attrs <==> key in seg.span.attrs) && (key in r.span.attrs ==> r.span.attrs[key] == seg.span.attrs[key])
    ensures seg.span.ended ==> r == seg
    ensures r.span.name == seg.span.name && r.span.ended == seg.span.ended
    ensures WellTyped(seg.span) ==> WellTyped(r.span)
  {
    Segment(SetAllAttributes(seg.span, ToAttributes(m)))
  }

  /** `setMetricName(parts...)`: the span is renamed to the parts joined by `/`. */
  function SetMetricName(seg: Segment, parts: seq<Option<string>>): (r: Segment)
    ensures !seg.span.ended ==> r.span.name == Join(seq(|parts|, i requires 0 <= i < |parts| => JavaString(parts[i])), "/")
    ensures seg.span.ended ==> r == seg
    ensures r.span.attrs == seg.span.attrs && r.span.ended == seg.span.ended
  {
    Segment(UpdateName(seg.span, Join(seq(|parts|, i requires 0 <= i < |parts| => JavaString(parts[i])), "/")))
  }

  /** `end()`. */
  function End(seg: Segment): (r: Segment)
    ensures r.span.ended
    ensures r.span.name == seg.span.name && r.span.attrs == seg.span.attrs
  {
    Segment(EndSpan(seg.span))
  }

  /** `endAsync()`: the bridge tracks no asynchronous completion. */
  function EndAsync(seg: Segment): (r: Segment)
    ensures r.span.ended
    ensures r.span.name == seg.span.name && r.span.attrs == seg.span.attrs
  {
    End(seg)
  }

  /** `reportAsExternal`: unsupported, logged only. */
  function ReportAsExternal(seg: Segment): Segment {
    seg
  }

  /** `addOutboundRequestHeaders`: unsupported, logged only. */
  function AddOutboundRequestHeaders(seg: Segment): Segment {
    seg
  }

  /** `ignore`: unsupported, logged only. */
  function Ignore(seg: Segment): Segment {
    seg
  }

  /** `end` and `endAsync` have the same effect, and ending twice is the same as ending once. */
  lemma EndAsyncIsEnd(seg: Segment)
    ensures EndAsync(seg) == End(seg)
    ensures End(End(seg)) == End(seg)
    ensures EndAsync(End(seg)) == End(seg)
  {
  }

  /** The unsupported operations leave the span's name, attributes and state untouched. */
  lemma UnsupportedOperationsLeaveSpan(seg: Segment)
    ensures ReportAsExternal(seg).span == seg.span
    ensures AddOutboundRequestHeaders(seg).span == seg.span
    ensures Ignore(seg).span == seg.span
  {
  }

  /** The attribute map the test builds and hands to `addCustomAttributes`. */
  function ScenarioMap(f2: DoubleBits): map<string, JavaObject> {
    map["double_key2" := JNumber(JFloat(f2)), "long_key2" := JNumber(Integral(2)),
        "bool_key2" := JBoolean(false), "string_key2" := JString("value2")]
  }

  /** Start a segment and add one attribute of each kind. */
  function ScenarioSingles(name: string, d1: DoubleBits): Segment {
    var s1 := AddNumberAttribute(Start(name), "double_key1", Some(JDouble(d1))).value;
    var s2 := AddNumberAttribute(s1, "long_key1", Some(Integral(1))).value;
    var s3 := AddStringAttribute(s2, "string_key1", "value1");
    AddBooleanAttribute(s3, "bool_key1", true)
  }

  /** ... then add the map, and end the segment. */
  function Scenario(name: string, d1: DoubleBits, f2: DoubleBits): Segment {
    End(AddCustomAttributes(ScenarioSingles(name, d1), ScenarioMap(f2)))
  }

  function SinglesExpected(d1: DoubleBits): map<AttrKey, AttrValue> {
    map[AttrKey("double_key1", DoubleKind) := DoubleValue(d1),
        AttrKey("long_key1", LongKind) := LongValue(1),
        AttrKey("string_key1", StringKind) := StringValue("value1"),
        AttrKey("bool_key1", BooleanKind) := BooleanValue(true)]
  }

  function MapExpected(f2: DoubleBits): map<AttrKey, AttrValue> {
    map[AttrKey("double_key2", DoubleKind) := DoubleValue(f2),
        AttrKey("long_key2", LongKind) := LongValue(2),
        AttrKey("string_key2", StringKind) := StringValue("value2"),
        AttrKey("bool_key2", BooleanKind) := BooleanValue(false)]
  }

  /** The span a segment produces when it is started, given one attribute of each
      kind and then the same kinds as a map, and ended: one ended span with the
      original name and all eight attributes, each under its typed key. */
  lemma StartAttributeEndScenario(name: string, d1: DoubleBits, f2: DoubleBits)
    ensures Scenario(name, d1, f2).span.ended
    ensures Scenario(name, d1, f2).span.name == name
    ensures Scenario(name, d1, f2).span.attrs == map[
        AttrKey("double_key1", DoubleKind) := DoubleValue(d1),
        AttrKey("long_key1", LongKind) := LongValue(1),
        AttrKey("string_key1", StringKind) := StringValue("value1"),
        AttrKey("bool_key1", BooleanKind) := BooleanValue(true),
        AttrKey("double_key2", DoubleKind) := DoubleValue(f2),
        AttrKey("long_key2", LongKind) := LongValue(2),
        AttrKey("string_key2", StringKind) := StringValue("value2"),
        AttrKey("bool_key2", BooleanKind) := BooleanValue(false)]
  {
    ScenarioSinglesSpan(name, d1);
    ScenarioMapConversion(f2);
    ScenarioUnion(d1, f2);
  }

  lemma ScenarioSinglesSpan(name: string, d1: DoubleBits)
    ensures ScenarioSingles(name, d1).span == SpanData(name, SinglesExpected(d1), false)
  {
    IntValueExamples();
    var s1 := AddNumberAttribute(Start(name), "double_key1", Some(JDouble(d1))).value;
    var s2 := AddNumberAttribute(s1, "long_key1", Some(Integral(1))).value;
    var s3 := AddStringAttribute(s2, "string_key1", "value1");
    assert s1.span == SpanData(name, map[AttrKey("double_key1", DoubleKind) := DoubleValue(d1)], false);
    assert s2.span == SpanData(name, map[
        AttrKey("double_key1", DoubleKind) := DoubleValue(d1),
        AttrKey("long_key1", LongKind) := LongValue(1)], false);
  }

  lemma ScenarioUnion(d1: DoubleBits, f2: DoubleBits)
    ensures SinglesExpected(d1) + MapExpected(f2) == map[
        AttrKey("double_key1", DoubleKind) := DoubleValue(d1),
        AttrKey("long_key1", LongKind) := LongValue(1),
        AttrKey("string_key1", StringKind) := StringValue("value1"),
        AttrKey("bool_key1", BooleanKind) := BooleanValue(true),
        AttrKey("double_key2", DoubleKind) := DoubleValue(f2),
        AttrKey("long_key2", LongKind) := LongValue(2),
        AttrKey("string_key2", StringKind) := StringValue("value2"),
        AttrKey("bool_key2", BooleanKind) := BooleanValue(false)]
  {
    var singles, added := SinglesExpected(d1), MapExpected(f2);
    var all := map[
        AttrKey("double_key1", DoubleKind) := DoubleValue(d1),
        AttrKey("long_key1", LongKind) := LongValue(1),
        AttrKey("string_key1", StringKind) := StringValue("value1"),
        AttrKey("bool_key1", BooleanKind) := BooleanValue(true),
        AttrKey("double_key2", DoubleKind) := DoubleValue(f2),
        AttrKey("long_key2", LongKind) := LongValue(2),
        AttrKey("string_key2", StringKind) := StringValue("value2"),
        AttrKey("bool_key2", BooleanKind) := BooleanValue(false)];
    var union := singles + added;
    assert "double_key1"[10] != "double_key2"[10] && "long_key1"[8] != "long_key2"[8];
    assert "string_key1"[10] != "string_key2"[10] && "bool_key1"[8] != "bool_key2"[8];
    assert union.Keys == all.Keys;
    forall key | key in union
      ensures union[key] == all[key]
    {
      if key in added {
        assert union[key] == added[key];
      } else {
        assert union[key] == singles[key];
      }
    }
  }

  lemma ScenarioMapConversion(f2: DoubleBits)
    ensures ToAttributes(ScenarioMap(f2)) == MapExpected(f2)
  {
    var converted, expected := ToAttributes(ScenarioMap(f2)), MapExpected(f2);
    ConvertedIsExpected(f2);
    ExpectedIsConverted(f2);
    assert converted.Keys == expected.Keys;
  }

  lemma ConvertedIsExpected(f2: DoubleBits)
    ensures forall key :: key in ToAttributes(ScenarioMap(f2)) ==>
      key in MapExpected(f2) && ToAttributes(ScenarioMap(f2))[key] == MapExpected(f2)[key]
  {
    var attributes := ScenarioMap(f2);
    var expected := MapExpected(f2);
    IntValueExamples();
    var converted := ToAttributes(attributes);
    forall key | key in converted
      ensures key in expected && converted[key] == expected[key]
    {
      assert key.name in attributes;
      assert key.kind == converted[key].Kind();
    }
  }

  lemma ExpectedIsConverted(f2: DoubleBits)
    ensures forall key :: key in MapExpected(f2) ==> key in ToAttributes(ScenarioMap(f2))
  {
    var attributes := ScenarioMap(f2);
    IntValueExamples();
    forall key | key in MapExpected(f2)
      ensures key in ToAttributes(attributes)
    {
      assert key.name in attributes;
    }
  }
}
