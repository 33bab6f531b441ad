/**
 The five-level OTLP request of the load script, and a reader of that schema. The reader takes
 the last occurrence of a singular field, collects repeated ones and skips fields it does not know.
 */
module OtlpPayload {
  import opened Sequences
  import opened Wrappers
  import opened Traversal
  import opened ProtoWire
  import opened Utf8

  datatype KeyValue = KeyValue(key: seq<Unit>, value: seq<Unit>)

  // ---------------------------------------------------------------- builder, as functions

  function KeyValueBytes(kv: KeyValue): seq<Byte> {
    LenDelim(1, StringBytes(kv.key)) + LenDelim(2, LenDelim(1, StringBytes(kv.value)))
  }

  function AttributeFields(attrs: seq<KeyValue>): seq<seq<Byte>> {
    if attrs == [] then [] else [LenDelim(7, KeyValueBytes(attrs[0]))] + AttributeFields(attrs[1..])
  }

  function DataPointBytes(attrs: seq<KeyValue>, value: int, nowNs: int): seq<Byte> {
    FlattenAll(AttributeFields(attrs)) + (Fixed64Field(2, nowNs) + (Fixed64Field(3, nowNs) + Fixed64Field(6, value)))
  }

  function MetricBytes(name: seq<Unit>, attrs: seq<KeyValue>, value: int, nowNs: int): seq<Byte> {
    LenDelim(1, StringBytes(name)) + LenDelim(5, LenDelim(1, DataPointBytes(attrs, value, nowNs)))
  }

  /** The payload of the only record of the request. */
  function ResourceBytes(name: seq<Unit>, attrs: seq<KeyValue>, value: int, nowNs: int): seq<Byte> {
    LenDelim(2, LenDelim(2, MetricBytes(name, attrs, value, nowNs)))
  }

  function RequestBytes(name: seq<Unit>, attrs: seq<KeyValue>, value: int, nowNs: int): seq<Byte> {
    LenDelim(1, ResourceBytes(name, attrs, value, nowNs))
  }

  // ---------------------------------------------------------------- builder, as the script runs it

  method EncodeKeyValue(k: seq<Unit>, v: seq<Unit>) returns (result: array<Byte>)
    ensures fresh(result) && result[..] == KeyValueBytes(KeyValue(k, v))
  {
    var valueBytes := EncodeString(v);
    var anyValue := EncodeLenDelim(1, valueBytes);
    var keyBytes := EncodeString(k);
    var keyField := EncodeLenDelim(1, keyBytes);
    var valueField := EncodeLenDelim(2, anyValue[..]);
    result := Concat([keyField[..], valueField[..]]);
    FlattenTwo(keyField[..], valueField[..]);
  }

  lemma FlattenTwo(a: seq<Byte>, b: seq<Byte>)
    ensures FlattenAll([a, b]) == a + b
  {
    FlattenSnoc([a], b);
    FlattenSnoc([], a);
    assert [a] + [b] == [a, b] && [] + [a] == [a];
  }

  lemma {:induction false} AttributeFieldsSnoc(attrs: seq<KeyValue>, kv: KeyValue)
    ensures AttributeFields(attrs + [kv]) == AttributeFields(attrs) + [LenDelim(7, KeyValueBytes(kv))]
  {
    hide LenDelim, KeyValueBytes;
    if attrs == [] {
      assert (attrs + [kv])[1..] == [];
    } else {
      assert (attrs + [kv])[1..] == attrs[1..] + [kv];
      AttributeFieldsSnoc(attrs[1..], kv);
    }
  }

  /** `nowNs` stands for the clock reading `Date.now() * 1_000_000`. */
  method BuildOTLPPayload(metricName: seq<Unit>, attrs: seq<KeyValue>, value: int, nowNs: int)
    returns (payload: array<Byte>)
    ensures fresh(payload) && payload[..] == RequestBytes(metricName, attrs, value, nowNs)
  {
    hide LenDelim, KeyValueBytes, Fixed64Field;
    var attrFields: seq<seq<Byte>> := [];
    for i := 0 to |attrs|
      invariant attrFields == AttributeFields(attrs[..i])
    {
      AttributeFieldsSnoc(attrs[..i], attrs[i]);
      assert attrs[..i + 1] == attrs[..i] + [attrs[i]];
      var keyValue := EncodeKeyValue(attrs[i].key, attrs[i].value);
      var field := EncodeLenDelim(7, keyValue[..]);
      attrFields := attrFields + [field[..]];
    }
    assert attrs[..|attrs|] == attrs;
    var start := EncodeFixed64Field(2, nowNs);
    var time := EncodeFixed64Field(3, nowNs);
    var asInt := EncodeFixed64Field(6, value);
    var dataPoint := Concat(attrFields + [start[..], time[..], asInt[..]]);
    FlattenDataPoint(attrFields, start[..], time[..], asInt[..]);
    var gauge := EncodeLenDelim(1, dataPoint[..]);
    var nameBytes := EncodeString(metricName);
    var nameField := EncodeLenDelim(1, nameBytes);
    var gaugeField := EncodeLenDelim(5, gauge[..]);
    var metric := Concat([nameField[..], gaugeField[..]]);
    FlattenTwo(nameField[..], gaugeField[..]);
    var scopeMetrics := EncodeLenDelim(2, metric[..]);
    var resourceMetrics := EncodeLenDelim(2, scopeMetrics[..]);
    payload := EncodeLenDelim(1, resourceMetrics[..]);
  }

  lemma FlattenDataPoint(parts: seq<seq<Byte>>, a: seq<Byte>, b: seq<Byte>, c: seq<Byte>)
    ensures FlattenAll(parts + [a, b, c]) == FlattenAll(parts) + (a + (b + c))
  {
    FlattenSnoc(parts, a);
    FlattenSnoc(parts + [a], b);
    FlattenSnoc(parts + [a] + [b], c);
    assert parts + [a] + [b] + [c] == parts + [a, b, c];
  }

  // ---------------------------------------------------------------- reader

  datatype DataPoint = DataPoint(attributes: seq<KeyValue>, start: nat, time: nat, asInt: int)
  datatype Metric = Metric(name: seq<Unit>, points: seq<DataPoint>)
  datatype ScopeMetrics = ScopeMetrics(metrics: seq<Metric>)
  datatype ResourceMetrics = ResourceMetrics(scopes: seq<ScopeMetrics>)
  datatype Request = Request(resources: seq<ResourceMetrics>)

  function Records(fields: seq<Field>, number: nat): seq<seq<Byte>> {
    if fields == [] then []
    else if fields[0].Len? && fields[0].number == number then [fields[0].payload] + Records(fields[1..], number)
    else Records(fields[1..], number)
  }

  function LastRecord(fields: seq<Field>, number: nat): seq<Byte> {
    var all := Records(fields, number);
    if all == [] then [] else all[|all| - 1]
  }

  function LastFixed64(fields: seq<Field>, number: nat): nat {
    if fields == [] then 0
    else
      var last := fields[|fields| - 1];
      if last.Fixed64? && last.number == number then last.bits else LastFixed64(fields[..|fields| - 1], number)
  }

  /** Two's complement reading of an sfixed64. */
  function Signed64(bits: nat): int {
    if bits < 0x8000_0000_0000_0000 then bits else bits - TWO_64
  }

  function ReadString(surrogates: bool, s: seq<Byte>): Option<seq<Unit>> {
    var text :- ReadText(s, surrogates);
    if forall i :: 0 <= i < |text| ==> 0 <= text[i] < 0x1_0000 then Some(text) else None
  }

  function ReadAnyValue(surrogates: bool, s: seq<Byte>): Option<seq<Unit>> {
    var fields :- ReadFields(s);
    ReadString(surrogates, LastRecord(fields, 1))
  }

  function ReadKeyValue(surrogates: bool, s: seq<Byte>): Option<KeyValue> {
    var fields :- ReadFields(s);
    var key :- ReadString(surrogates, LastRecord(fields, 1));
    var value :- ReadAnyValue(surrogates, LastRecord(fields, 2));
    Some(KeyValue(key, value))
  }

  function ReadDataPoint(surrogates: bool, s: seq<Byte>): Option<DataPoint> {
    var fields :- ReadFields(s);
    var attributes :- Traverse(kv => ReadKeyValue(surrogates, kv), Records(fields, 7));
    Some(DataPoint(attributes, LastFixed64(fields, 2), LastFixed64(fields, 3), Signed64(LastFixed64(fields, 6))))
  }

  function ReadGauge(surrogates: bool, s: seq<Byte>): Option<seq<DataPoint>> {
    var fields :- ReadFields(s);
    Traverse(p => ReadDataPoint(surrogates, p), Records(fields, 1))
  }

  function ReadMetric(surrogates: bool, s: seq<Byte>): Option<Metric> {
    var fields :- ReadFields(s);
    var name :- ReadString(surrogates, LastRecord(fields, 1));
    var points :- ReadGauge(surrogates, LastRecord(fields, 5));
    Some(Metric(name, points))
  }

  function ReadScopeMetrics(surrogates: bool, s: seq<Byte>): Option<ScopeMetrics> {
    var fields :- ReadFields(s);
    var metrics :- Traverse(m => ReadMetric(surrogates, m), Records(fields, 2));
    Some(ScopeMetrics(metrics))
  }

  function ReadResourceMetrics(surrogates: bool, s: seq<Byte>): Option<ResourceMetrics> {
    var fields :- ReadFields(s);
    var scopes :- Traverse(m => ReadScopeMetrics(surrogates, m), Records(fields, 2));
    Some(ResourceMetrics(scopes))
  }

  function ReadRequest(surrogates: bool, s: seq<Byte>): Option<Request> {
    var fields :- ReadFields(s);
    var resources :- Traverse(m => ReadResourceMetrics(surrogates, m), Records(fields, 1));
    Some(Request(resources))
  }

  // ---------------------------------------------------------------- round trip

  predicate CleanAttrs(attrs: seq<KeyValue>) {
    forall i :: 0 <= i < |attrs| ==> CleanKeyValue(attrs[i])
  }

  predicate CleanKeyValue(kv: KeyValue) {
    NoSurrogate(kv.key) && NoSurrogate(kv.value)
  }

  lemma StringField(surrogates: bool, s: seq<Unit>)
    ensures ReadString(surrogates, StringBytes(s)) == if surrogates || NoSurrogate(s) then Some(s) else None
  {
    StringReads(s, surrogates);
  }

  lemma OneRecord(number: nat, payload: seq<Byte>)
    ensures Records([Len(number, payload)], number) == [payload]
    ensures LastRecord([Len(number, payload)], number) == payload
  {
    assert [Len(number, payload)][1..] == [];
  }

  lemma OneFieldMessage(number: nat, payload: seq<Byte>)
    requires 1 <= number < 0x1000_0000 && |payload| < TWO_32
    ensures ReadFields(LenDelim(number, payload)) == Some([Len(number, payload)])
  {
    hide ReadField, LenDelim;
    ReadLenFirst(number, payload, [], []);
    assert [Len(number, payload)] + [] == [Len(number, payload)];
    assert LenDelim(number, payload) + [] == LenDelim(number, payload);
  }

  lemma TwoFieldMessage(n1: nat, p1: seq<Byte>, n2: nat, p2: seq<Byte>)
    requires 1 <= n1 < n2 < 0x1000_0000 && |p1| < TWO_32 && |p2| < TWO_32
    ensures ReadFields(LenDelim(n1, p1) + LenDelim(n2, p2)) == Some([Len(n1, p1), Len(n2, p2)])
    ensures LastRecord([Len(n1, p1), Len(n2, p2)], n1) == p1
    ensures LastRecord([Len(n1, p1), Len(n2, p2)], n2) == p2
  {
    hide ReadField, LenDelim;
    OneFieldMessage(n2, p2);
    ReadLenFirst(n1, p1, LenDelim(n2, p2), [Len(n2, p2)]);
    assert [Len(n1, p1)] + [Len(n2, p2)] == [Len(n1, p1), Len(n2, p2)];
    assert [Len(n1, p1), Len(n2, p2)][1..] == [Len(n2, p2)];
    OneRecord(n2, p2);
    assert Records([Len(n2, p2)], n1) == Records([], n1);
  }

  lemma KeyValueReads(surrogates: bool, kv: KeyValue)
    requires |KeyValueBytes(kv)| < TWO_32
    ensures ReadKeyValue(surrogates, KeyValueBytes(kv))
         == if surrogates || CleanKeyValue(kv) then Some(kv) else None
  {
    hide ReadFields, ReadString, LastRecord, StringBytes;
    var key, value := StringBytes(kv.key), StringBytes(kv.value);
    assert |key| < TWO_32 && |value| < TWO_32 && |LenDelim(1, value)| < TWO_32;
    TwoFieldMessage(1, key, 2, LenDelim(1, value));
    OneFieldMessage(1, value);
    OneRecord(1, value);
    StringField(surrogates, kv.key);
    StringField(surrogates, kv.value);
  }

  /** The fields of a data point as a reader sees them. */
  function PointFields(attrs: seq<KeyValue>, value: int, nowNs: int): seq<Field> {
    if attrs == [] then [Fixed64(2, nowNs % TWO_64), Fixed64(3, nowNs % TWO_64), Fixed64(6, value % TWO_64)]
    else [Len(7, KeyValueBytes(attrs[0]))] + PointFields(attrs[1..], value, nowNs)
  }

  function AttributePayloads(attrs: seq<KeyValue>): (payloads: seq<seq<Byte>>)
    ensures |payloads| == |attrs|
    ensures forall i :: 0 <= i < |attrs| ==> payloads[i] == KeyValueBytes(attrs[i])
  {
    seq(|attrs|, i requires 0 <= i < |attrs| => KeyValueBytes(attrs[i]))
  }

  lemma ThreeFixed64(value: int, nowNs: int)
    ensures ReadFields(Fixed64Field(2, nowNs) + (Fixed64Field(3, nowNs) + Fixed64Field(6, value)))
         == Some(PointFields([], value, nowNs))
  {
    hide ReadField, Fixed64Field;
    var t := nowNs % TWO_64;
    var last := [Fixed64(6, value % TWO_64)];
    ReadFixed64First(6, value, [], []);
    assert last + [] == last;
    assert Fixed64Field(6, value) + [] == Fixed64Field(6, value);
    ReadFixed64First(3, nowNs, Fixed64Field(6, value), last);
    ReadFixed64First(2, nowNs, Fixed64Field(3, nowNs) + Fixed64Field(6, value), [Fixed64(3, t)] + last);
    assert [Fixed64(2, t)] + ([Fixed64(3, t)] + last) == PointFields([], value, nowNs);
  }

  lemma {:induction false} PointFieldsRead(attrs: seq<KeyValue>, value: int, nowNs: int)
    requires |DataPointBytes(attrs, value, nowNs)| < TWO_32
    ensures ReadFields(DataPointBytes(attrs, value, nowNs)) == Some(PointFields(attrs, value, nowNs))
  {
    hide ReadField, Fixed64Field, KeyValueBytes, ReadFields;
    var tail := Fixed64Field(2, nowNs) + (Fixed64Field(3, nowNs) + Fixed64Field(6, value));
    if attrs == [] {
      assert FlattenAll(AttributeFields(attrs)) + tail == tail;
      ThreeFixed64(value, nowNs);
    } else {
      var first := KeyValueBytes(attrs[0]);
      var rest := DataPointBytes(attrs[1..], value, nowNs);
      assert DataPointBytes(attrs, value, nowNs) == LenDelim(7, first) + rest by {
        assert AttributeFields(attrs)[1..] == AttributeFields(attrs[1..]);
      }
      PointFieldsRead(attrs[1..], value, nowNs);
      ReadLenFirst(7, first, rest, PointFields(attrs[1..], value, nowNs));
    }
  }

  lemma {:induction false} PointFieldsMean(attrs: seq<KeyValue>, value: int, nowNs: int)
    ensures var fields := PointFields(attrs, value, nowNs);
            Records(fields, 7) == AttributePayloads(attrs) &&
            LastFixed64(fields, 2) == nowNs % TWO_64 &&
            LastFixed64(fields, 3) == nowNs % TWO_64 &&
            LastFixed64(fields, 6) == value % TWO_64
  {
    hide KeyValueBytes;
    PointTail(attrs, value, nowNs);
    PointRecords(attrs, value, nowNs);
  }

  lemma {:induction false} PointRecords(attrs: seq<KeyValue>, value: int, nowNs: int)
    ensures Records(PointFields(attrs, value, nowNs), 7) == AttributePayloads(attrs)
  {
    hide KeyValueBytes;
    var fields := PointFields(attrs, value, nowNs);
    if attrs == [] {
      assert fields[1..][1..][1..] == [];
      assert Records(fields[1..][1..], 7) == [];
      assert Records(fields[1..], 7) == [];
    } else {
      assert fields[1..] == PointFields(attrs[1..], value, nowNs);
      PointRecords(attrs[1..], value, nowNs);
      assert AttributePayloads(attrs) == [KeyValueBytes(attrs[0])] + AttributePayloads(attrs[1..]);
    }
  }

  lemma {:induction false} PointTail(attrs: seq<KeyValue>, value: int, nowNs: int)
    ensures var fields := PointFields(attrs, value, nowNs);
            |fields| >= 3 && fields[|fields| - 3..] == PointFields([], value, nowNs) &&
            LastFixed64(fields, 6) == value % TWO_64 &&
            LastFixed64(fields, 3) == nowNs % TWO_64 &&
            LastFixed64(fields, 2) == nowNs % TWO_64
  {
    hide KeyValueBytes;
    var fields := PointFields(attrs, value, nowNs);
    if attrs != [] {
      PointTail(attrs[1..], value, nowNs);
      assert fields[1..] == PointFields(attrs[1..], value, nowNs);
      assert fields[|fields| - 3..] == fields[1..][|fields| - 4..];
    }
    var n := |fields|;
    assert fields[n - 3..][0] == fields[n - 3] && fields[n - 3..][1] == fields[n - 2] && fields[n - 3..][2] == fields[n - 1];
    assert fields[..n - 1][..n - 2] == fields[..n - 2];
    assert LastFixed64(fields[..n - 2], 2) == nowNs % TWO_64;
    assert LastFixed64(fields[..n - 1], 2) == nowNs % TWO_64;
    assert LastFixed64(fields[..n - 1], 3) == nowNs % TWO_64;
  }

  lemma {:induction false} AttributesShort(attrs: seq<KeyValue>, i: nat)
    requires i < |attrs|
    ensures |KeyValueBytes(attrs[i])| <= |FlattenAll(AttributeFields(attrs))|
  {
    hide KeyValueBytes;
    assert AttributeFields(attrs)[1..] == AttributeFields(attrs[1..]);
    if i > 0 {
      AttributesShort(attrs[1..], i - 1);
    }
  }

  lemma DataPointReads(surrogates: bool, attrs: seq<KeyValue>, value: int, nowNs: int)
    requires |DataPointBytes(attrs, value, nowNs)| < TWO_32
    ensures ReadDataPoint(surrogates, DataPointBytes(attrs, value, nowNs))
         == if surrogates || CleanAttrs(attrs)
            then Some(DataPoint(attrs, nowNs % TWO_64, nowNs % TWO_64, Signed64(value % TWO_64)))
            else None
  {
    hide KeyValueBytes, ReadKeyValue, ReadFields, LastFixed64, Records, Fixed64Field, CleanKeyValue;
    PointFieldsRead(attrs, value, nowNs);
    PointFieldsMean(attrs, value, nowNs);
    var payloads := AttributePayloads(attrs);
    forall i | 0 <= i < |attrs|
      ensures ReadKeyValue(surrogates, payloads[i])
           == if surrogates || CleanKeyValue(attrs[i]) then Some(attrs[i]) else None
    {
      AttributesShort(attrs, i);
      KeyValueReads(surrogates, attrs[i]);
    }
    if surrogates || CleanAttrs(attrs) {
      TraverseAll(kv => ReadKeyValue(surrogates, kv), payloads, attrs);
    } else {
      var i :| 0 <= i < |attrs| && !CleanKeyValue(attrs[i]);
      TraverseNone(kv => ReadKeyValue(surrogates, kv), payloads, i);
    }
  }

  /** A repeated field that occurs once. */
  lemma TraverseOne<B>(read: seq<Byte> -> Option<B>, payload: seq<Byte>)
    ensures Traverse(read, [payload])
         == match read(payload) case None => None case Some(y) => Some([y])
  {
    if read(payload).Some? {
      TraverseAll(read, [payload], [read(payload).value]);
    } else {
      TraverseNone(read, [payload], 0);
    }
  }

  lemma MetricReads(surrogates: bool, name: seq<Unit>, attrs: seq<KeyValue>, value: int, nowNs: int)
    requires |MetricBytes(name, attrs, value, nowNs)| < TWO_32
    ensures ReadMetric(surrogates, MetricBytes(name, attrs, value, nowNs))
         == if surrogates || (NoSurrogate(name) && CleanAttrs(attrs))
            then Some(Metric(name, [DataPoint(attrs, nowNs % TWO_64, nowNs % TWO_64, Signed64(value % TWO_64))]))
            else None
  {
    hide DataPointBytes, ReadDataPoint, ReadFields, LastRecord, Records, ReadString, Signed64, CleanAttrs;
    var point := DataPointBytes(attrs, value, nowNs);
    TwoFieldMessage(1, StringBytes(name), 5, LenDelim(1, point));
    StringField(surrogates, name);
    OneFieldMessage(1, point);
    OneRecord(1, point);
    TraverseOne(p => ReadDataPoint(surrogates, p), point);
    DataPointReads(surrogates, attrs, value, nowNs);
  }

  /**
   For every metric name, attribute list, clock reading and integer value, the reader uses up the
   whole payload and finds exactly what was encoded: the name, the attributes in order, both
   timestamps modulo 2^64 and the value as a signed 64-bit number. A reader that follows RFC 3629
   rejects the payload instead exactly when some string holds a surrogate.
   */
  lemma PayloadRoundTrip(surrogates: bool, name: seq<Unit>, attrs: seq<KeyValue>, value: int, nowNs: int)
    requires |ResourceBytes(name, attrs, value, nowNs)| < 0x1_0000_0000
    ensures var time, bits := nowNs % 0x1_0000_0000_0000_0000, value % 0x1_0000_0000_0000_0000;
            ReadRequest(surrogates, RequestBytes(name, attrs, value, nowNs))
            == if surrogates || (NoSurrogate(name) && CleanAttrs(attrs))
               then Some(Request([ResourceMetrics([ScopeMetrics([Metric(name, [DataPoint(attrs, time, time, Signed64(bits))])])])]))
               else None
  {
    hide MetricBytes, ReadMetric, ReadFields, Records, LastRecord, Signed64, CleanAttrs, NoSurrogate;
    var metric := MetricBytes(name, attrs, value, nowNs);
    var scope := LenDelim(2, metric);
    var resource := LenDelim(2, scope);
    MetricReads(surrogates, name, attrs, value, nowNs);
    OneFieldMessage(2, metric);
    OneRecord(2, metric);
    TraverseOne(m => ReadMetric(surrogates, m), metric);
    OneFieldMessage(2, scope);
    OneRecord(2, scope);
    TraverseOne(m => ReadScopeMetrics(surrogates, m), scope);
    OneFieldMessage(1, resource);
    OneRecord(1, resource);
    TraverseOne(m => ReadResourceMetrics(surrogates, m), resource);
  }

  /**
   That bound is the reader's: the only record of the request is read whole exactly when it is shorter than
   2^32.
   */
  lemma RequestRecordWhole(name: seq<Unit>, attrs: seq<KeyValue>, value: int, nowNs: int)
    ensures var resource := ResourceBytes(name, attrs, value, nowNs);
            ReadFields(RequestBytes(name, attrs, value, nowNs)) == Some([Len(1, resource)]) <==> |resource| < 0x1_0000_0000
  {
    hide ReadField, LenDelim, ResourceBytes;
    var resource := ResourceBytes(name, attrs, value, nowNs);
    LenDelimRead(1, resource, []);
    assert LenDelim(1, resource) + [] == LenDelim(1, resource);
    if |resource| < TWO_32 {
      OneFieldMessage(1, resource);
    } else {
      LenDelimReadsAs(1, resource, []);
      FirstField(LenDelim(1, resource));
    }
  }

  lemma FirstField(s: seq<Byte>)
    ensures ReadFields(s).Some? && s != [] ==> ReadField(s).Some? && ReadFields(s).value != [] && ReadFields(s).value[0] == ReadField(s).value.0
  {
    hide ReadField;
  }

  /** The stored number is the value itself exactly on [-2^63, 2^63), a timestamp exactly on [0, 2^64). */
  lemma StoredNumbersExact(v: int)
    ensures Signed64(v % 0x1_0000_0000_0000_0000) == v <==> -0x8000_0000_0000_0000 <= v < 0x8000_0000_0000_0000
    ensures v % 0x1_0000_0000_0000_0000 == v <==> 0 <= v < 0x1_0000_0000_0000_0000
  {
    var q, r := v / TWO_64, v % TWO_64;
    assert v == TWO_64 * q + r;
  }
}
