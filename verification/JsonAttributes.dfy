/**
 JSON attribute columns: the two conversions into JSON, JSONB containment, and attribute search.
 */
module JsonAttributes {
  import opened Common
  import opened Telemetry

  /** JSONB values; numbers compare as numerics, so integers and doubles share a representation. */
  datatype Json =
    | Null
    | Bool(b: bool)
    | Number(n: real)
    | String(s: string)
    | Array(elements: seq<Json>)
    | Object(fields: map<string, Json>)
  {
    predicate Scalar() { !Array? && !Object? }
  }

  // ---------------------------------------------------------------- texts PostgreSQL refuses

  /** TEXT and JSONB cannot hold the character NUL. */
  predicate HasNul(s: string) {
    exists i :: 0 <= i < |s| && s[i] == '\0'
  }

  predicate JsonHasNul(j: Json) {
    match j
    case String(s) => HasNul(s)
    case Array(elements) => exists i :: 0 <= i < |elements| && JsonHasNul(elements[i])
    case Object(fields) => exists k :: k in fields && (HasNul(k) || JsonHasNul(fields[k]))
    case _ => false
  }

  /** `t` is one of the texts of a value: a string or a field name, at any depth. */
  predicate TextIn(t: string, j: Json)
    decreases j
  {
    match j
    case String(s) => s == t
    case Array(elements) => exists i :: 0 <= i < |elements| && TextIn(t, elements[i])
    case Object(fields) => t in fields || exists k :: k in fields && TextIn(t, fields[k])
    case _ => false
  }

  /** A value is refused exactly for a text in it that has the character. */
  lemma {:induction false} NulSomewhere(j: Json)
    ensures JsonHasNul(j) <==> exists t {:trigger TextIn(t, j)} :: TextIn(t, j) && '\0' in t
  {
    match j
    case String(s) => assert TextIn(s, j);
    case Array(elements) =>
      forall i | 0 <= i < |elements| ensures JsonHasNul(elements[i]) <==> exists t {:trigger TextIn(t, elements[i])} :: TextIn(t, elements[i]) && '\0' in t {
        NulSomewhere(elements[i]);
      }
      if i :| 0 <= i < |elements| && JsonHasNul(elements[i]) {
        var t :| TextIn(t, elements[i]) && '\0' in t;
        assert TextIn(t, j);
      }
    case Object(fields) =>
      forall k | k in fields ensures JsonHasNul(fields[k]) <==> exists t {:trigger TextIn(t, fields[k])} :: TextIn(t, fields[k]) && '\0' in t {
        NulSomewhere(fields[k]);
      }
      if k :| k in fields && (HasNul(k) || JsonHasNul(fields[k])) {
        if HasNul(k) {
          assert TextIn(k, j);
        } else {
          var t :| TextIn(t, fields[k]) && '\0' in t;
          assert TextIn(t, j);
        }
      }
    case _ =>
  }

  // ---------------------------------------------------------------- hexadecimal bytes

  const DIGITS: string := "0123456789abcdef"

  function Hex(bytes: seq<Byte>): (s: string)
    ensures |s| == 2 * |bytes|
  {
    if bytes == [] then ""
    else [DIGITS[bytes[0] / 16], DIGITS[bytes[0] % 16]] + Hex(bytes[1..])
  }

  // ---------------------------------------------------------------- conversions

  function DoubleToJson(d: Double): Json {
    match d
    case Finite(decimal) => Number(decimal)
    case NonFinite => Null
  }

  function OtelValueToJson(value: Option<AnyValue>): Json
    decreases value, 1
  {
    match value
    case None => Null
    case Some(v) => AnyValueToJson(v)
  }

  function AnyValueToJson(v: AnyValue): Json
    decreases v, 0
  {
    match v
    case Empty => Null
    case StringValue(s) => String(s)
    case StringIndex(i) => Number(i as real)
    case BoolValue(b) => Bool(b)
    case IntValue(i) => Number(i as real)
    case DoubleValue(d) => DoubleToJson(d)
    case BytesValue(bytes) => String(Hex(bytes))
    case ArrayValue(values) => Array(ValuesToJson(values))
    case KvlistValue(entries) => Object(FieldsToJson(entries))
  }

  function ValuesToJson(values: seq<AnyValue>): (r: seq<Json>)
    ensures |r| == |values|
    decreases values, 0
  {
    if values == [] then [] else [AnyValueToJson(values[0])] + ValuesToJson(values[1..])
  }

  /** Collecting pairs into a JSON object: of equal keys the last one stays. */
  function FieldsToJson(entries: seq<KeyValue>): map<string, Json>
    decreases entries, 0
  {
    if entries == [] then map[]
    else map[entries[0].key := OtelValueToJson(entries[0].value)] + FieldsToJson(entries[1..])
  }

  function AttributesToJson(attributes: seq<KeyValue>): Json {
    Object(FieldsToJson(attributes))
  }

  function QueryOptionToJson(value: Option<QueryValue>): Json
    decreases value, 1
  {
    match value
    case None => Null
    case Some(v) => QueryValueToJson(v)
  }

  function QueryValueToJson(v: QueryValue): Json
    decreases v, 0
  {
    match v
    case QueryEmpty => Null
    case QueryString(s) => String(s)
    case QueryBool(b) => Bool(b)
    case QueryInt(i) => Number(i as real)
    case QueryDouble(d) => DoubleToJson(d)
    case QueryBytes(bytes) => String(Hex(bytes))
    case QueryArray(values) => Array(QueryValuesToJson(values))
    case QueryKvlist(entries) => Object(QueryFieldsToJson(entries))
  }

  function QueryValuesToJson(values: seq<QueryValue>): (r: seq<Json>)
    ensures |r| == |values|
    decreases values, 0
  {
    if values == [] then [] else [QueryValueToJson(values[0])] + QueryValuesToJson(values[1..])
  }

  function QueryFieldsToJson(entries: seq<QueryEntry>): map<string, Json>
    decreases entries, 0
  {
    if entries == [] then map[]
    else map[entries[0].key := QueryOptionToJson(entries[0].value)] + QueryFieldsToJson(entries[1..])
  }

  // ---------------------------------------------------------------- containment

  /** `a @> b` below the top level, where a container contains only containers of its own kind. */
  predicate Contains(a: Json, b: Json)
    decreases b, 0
  {
    match b
    case Array(bs) => a.Array? && forall i :: 0 <= i < |bs| ==> SomeContains(a.elements, bs[i])
    case Object(fs) => a.Object? && forall k :: k in fs ==> k in a.fields && Contains(a.fields[k], fs[k])
    case _ => a == b
  }

  predicate SomeContains(elements: seq<Json>, b: Json)
    decreases b, 1
  {
    exists j :: 0 <= j < |elements| && Contains(elements[j], b)
  }

  /** `a @> b` itself: at the top level an array also contains a scalar that is one of its elements. */
  predicate JsonbContains(a: Json, b: Json) {
    Contains(a, b) || (a.Array? && b.Scalar() && b in a.elements)
  }

  lemma {:induction false} ContainsReflexive(a: Json)
    ensures Contains(a, a)
  {
    match a
    case Array(es) =>
      forall i | 0 <= i < |es| ensures SomeContains(es, es[i]) { ContainsReflexive(es[i]); }
    case Object(fs) =>
      forall k | k in fs ensures Contains(fs[k], fs[k]) { ContainsReflexive(fs[k]); }
    case _ =>
  }

  lemma {:induction false} ContainsTransitive(a: Json, b: Json, c: Json)
    requires Contains(a, b) && Contains(b, c)
    ensures Contains(a, c)
    decreases c
  {
    match c
    case Array(cs) =>
      forall i | 0 <= i < |cs| ensures SomeContains(a.elements, cs[i]) {
        assert SomeContains(b.elements, cs[i]);
        var k :| 0 <= k < |b.elements| && Contains(b.elements[k], cs[i]);
        assert SomeContains(a.elements, b.elements[k]);
        var j :| 0 <= j < |a.elements| && Contains(a.elements[j], b.elements[k]);
        ContainsTransitive(a.elements[j], b.elements[k], cs[i]);
      }
    case Object(fs) =>
      forall k | k in fs ensures k in a.fields && Contains(a.fields[k], fs[k]) {
        ContainsTransitive(a.fields[k], b.fields[k], fs[k]);
      }
    case _ =>
  }

  /** The operator itself is transitive, top-level exception included. */
  lemma JsonbContainsTransitive(a: Json, b: Json, c: Json)
    requires JsonbContains(a, b) && JsonbContains(b, c)
    ensures JsonbContains(a, c)
  {
    if Contains(b, c) {
      if Contains(a, b) {
        ContainsTransitive(a, b, c);
      }
    } else {
      var i :| 0 <= i < |b.elements| && b.elements[i] == c;
      assert SomeContains(a.elements, b.elements[i]);
    }
  }

  // ---------------------------------------------------------------- the conversions agree

  /** The exporter's spelling of a query value. */
  function Lift(v: QueryValue): AnyValue
    decreases v, 0
  {
    match v
    case QueryEmpty => Empty
    case QueryString(s) => StringValue(s)
    case QueryBool(b) => BoolValue(b)
    case QueryInt(i) => IntValue(i)
    case QueryDouble(d) => DoubleValue(d)
    case QueryBytes(bytes) => BytesValue(bytes)
    case QueryArray(values) => ArrayValue(LiftValues(values))
    case QueryKvlist(entries) => KvlistValue(LiftEntries(entries))
  }

  function LiftOption(v: Option<QueryValue>): Option<AnyValue>
    decreases v, 1
  {
    match v
    case None => None
    case Some(q) => Some(Lift(q))
  }

  function LiftValues(values: seq<QueryValue>): seq<AnyValue>
    decreases values, 0
  {
    if values == [] then [] else [Lift(values[0])] + LiftValues(values[1..])
  }

  function LiftEntries(entries: seq<QueryEntry>): seq<KeyValue>
    decreases entries, 0
  {
    if entries == [] then []
    else [KeyValue(entries[0].key, LiftOption(entries[0].value))] + LiftEntries(entries[1..])
  }

  /** Stored and queried values of the same shape become the same JSON. */
  lemma {:induction false} ConversionsAgree(v: QueryValue)
    ensures AnyValueToJson(Lift(v)) == QueryValueToJson(v)
    decreases v, 0
  {
    match v
    case QueryArray(values) => ValueConversionsAgree(values);
    case QueryKvlist(entries) => FieldConversionsAgree(entries);
    case _ =>
  }

  lemma {:induction false} ValueConversionsAgree(values: seq<QueryValue>)
    ensures ValuesToJson(LiftValues(values)) == QueryValuesToJson(values)
    decreases values, 0
  {
    if values == [] {
    } else {
      ConversionsAgree(values[0]);
      ValueConversionsAgree(values[1..]);
    }
  }

  lemma {:induction false} FieldConversionsAgree(entries: seq<QueryEntry>)
    ensures FieldsToJson(LiftEntries(entries)) == QueryFieldsToJson(entries)
    decreases entries, 0
  {
    if entries == [] {
    } else {
      OptionConversionsAgree(entries[0].value);
      FieldConversionsAgree(entries[1..]);
    }
  }

  lemma {:induction false} OptionConversionsAgree(v: Option<QueryValue>)
    ensures OtelValueToJson(LiftOption(v)) == QueryOptionToJson(v)
    decreases v, 1
  {
    if v.None? {
    } else {
      ConversionsAgree(v.value);
    }
  }

  // ---------------------------------------------------------------- attribute search

  /** The object a query attribute is turned into. */
  function Needle(key: string, value: Option<QueryValue>): Json {
    Object(map[key := QueryOptionToJson(value)])
  }

  /** The condition built for one query attribute over a row's three attribute columns. */
  predicate AttributeCondition(spanColumn: Json, resourceColumn: Json, scopeColumn: Json, query: QueryEntry) {
    var needle := Needle(query.key, query.value);
    JsonbContains(spanColumn, needle) || JsonbContains(resourceColumn, needle) || JsonbContains(scopeColumn, needle)
  }

  /** `i` is the last attribute named `key`: the one that reaches the column. */
  predicate LastNamed(attributes: seq<KeyValue>, key: string, i: int) {
    0 <= i < |attributes| && attributes[i].key == key && forall j :: i < j < |attributes| ==> attributes[j].key != key
  }

  lemma {:induction false} FieldsLookup(attributes: seq<KeyValue>, key: string)
    ensures key in FieldsToJson(attributes) <==> exists i :: LastNamed(attributes, key, i)
    ensures forall i :: LastNamed(attributes, key, i) ==> FieldsToJson(attributes)[key] == OtelValueToJson(attributes[i].value)
  {
    if attributes == [] {
    } else {
      var rest := attributes[1..];
      FieldsLookup(rest, key);
      if i: nat :| LastNamed(rest, key, i) { LastNamedShift(attributes, key, i); }
      if attributes[0].key == key && key !in FieldsToJson(rest) { AbsentKey(rest, key); assert LastNamed(attributes, key, 0); }
      forall i | LastNamed(attributes, key, i)
        ensures key in FieldsToJson(attributes) && FieldsToJson(attributes)[key] == OtelValueToJson(attributes[i].value)
      {
        if i == 0 {
          if m: nat :| LastNamed(rest, key, m) { LastNamedShift(attributes, key, m); }
        } else {
          LastNamedShift(attributes, key, i - 1);
        }
      }
    }
  }

  lemma LastNamedShift(attributes: seq<KeyValue>, key: string, i: nat)
    requires attributes != []
    ensures LastNamed(attributes[1..], key, i) <==> LastNamed(attributes, key, i + 1)
  {
    var rest := attributes[1..];
    if LastNamed(attributes, key, i + 1) {
      forall j | i < j < |rest| ensures rest[j].key != key { assert rest[j] == attributes[j + 1]; }
    }
    if LastNamed(rest, key, i) {
      forall j | i + 1 < j < |attributes| ensures attributes[j].key != key { assert rest[j - 1] == attributes[j]; }
    }
  }

  lemma {:induction false} AbsentKey(attributes: seq<KeyValue>, key: string)
    requires key !in FieldsToJson(attributes)
    ensures forall j :: 0 <= j < |attributes| ==> attributes[j].key != key
  {
    if attributes == [] {
    } else {
      AbsentKey(attributes[1..], key);
    }
  }

  /**
   Exactly when a column built from `attributes` satisfies a query attribute: the last attribute of
   that name has a value containing the queried one.
   */
  lemma ColumnMatch(attributes: seq<KeyValue>, key: string, value: Option<QueryValue>)
    ensures JsonbContains(AttributesToJson(attributes), Needle(key, value))
       <==> exists i :: LastNamed(attributes, key, i) && Contains(OtelValueToJson(attributes[i].value), QueryOptionToJson(value))
  {
    FieldsLookup(attributes, key);
    var fs := FieldsToJson(attributes);
    var needle := Needle(key, value);
    assert needle.fields[key] == QueryOptionToJson(value);
    if key in fs {
      var i :| LastNamed(attributes, key, i);
      assert forall j :: LastNamed(attributes, key, j) ==> j == i;
    }
  }

  /** The last attribute of the queried name has a value containing the queried one. */
  ghost predicate LastContains(attributes: seq<KeyValue>, query: QueryEntry) {
    exists i :: LastNamed(attributes, query.key, i) && Contains(OtelValueToJson(attributes[i].value), QueryOptionToJson(query.value))
  }

  /** The search finds a span exactly when its own, its resource's or its scope's attributes carry the queried one. */
  lemma SearchExact(span: seq<KeyValue>, resource: seq<KeyValue>, scope: seq<KeyValue>, query: QueryEntry)
    ensures AttributeCondition(AttributesToJson(span), AttributesToJson(resource), AttributesToJson(scope), query)
       <==> LastContains(span, query) || LastContains(resource, query) || LastContains(scope, query)
  {
    ColumnMatch(span, query.key, query.value);
    ColumnMatch(resource, query.key, query.value);
    ColumnMatch(scope, query.key, query.value);
  }

  predicate DistinctKeys(attributes: seq<KeyValue>) {
    forall i, j :: 0 <= i < j < |attributes| ==> attributes[i].key != attributes[j].key
  }

  /** A span carrying the queried attribute, on itself, its resource or its scope, is found. */
  lemma SearchComplete(span: seq<KeyValue>, resource: seq<KeyValue>, scope: seq<KeyValue>, query: QueryEntry)
    requires DistinctKeys(span) && DistinctKeys(resource) && DistinctKeys(scope)
    requires KeyValue(query.key, LiftOption(query.value)) in span + resource + scope
    ensures AttributeCondition(AttributesToJson(span), AttributesToJson(resource), AttributesToJson(scope), query)
  {
    var carried := KeyValue(query.key, LiftOption(query.value));
    var holder := if carried in span then span else if carried in resource then resource else scope;
    assert carried in holder;
    var i :| 0 <= i < |holder| && holder[i] == carried;
    assert LastNamed(holder, query.key, i);
    OptionConversionsAgree(query.value);
    ContainsReflexive(QueryOptionToJson(query.value));
    ColumnMatch(holder, query.key, query.value);
  }

  /** Repeated keys: only the last value is searchable. */
  lemma ShadowedAttributeMissed()
    ensures var span := [KeyValue("k", Some(StringValue("v"))), KeyValue("k", Some(StringValue("w")))];
            var query := QueryEntry("k", Some(QueryString("v")));
            && KeyValue(query.key, LiftOption(query.value)) in span
            && !AttributeCondition(AttributesToJson(span), AttributesToJson([]), AttributesToJson([]), query)
  {
    var span := [KeyValue("k", Some(StringValue("v"))), KeyValue("k", Some(StringValue("w")))];
    assert span[0] in span;
    ColumnMatch(span, "k", Some(QueryString("v")));
    ColumnMatch([], "k", Some(QueryString("v")));
    assert forall i :: LastNamed(span, "k", i) ==> i == 1;
  }

  /** A scalar query value is matched by that value only. */
  lemma ScalarSearchExact(attributes: seq<KeyValue>, key: string, value: Option<QueryValue>)
    requires QueryOptionToJson(value).Scalar()
    ensures JsonbContains(AttributesToJson(attributes), Needle(key, value))
       <==> exists i :: LastNamed(attributes, key, i) && OtelValueToJson(attributes[i].value) == QueryOptionToJson(value)
  {
    ColumnMatch(attributes, key, value);
  }

  /**
   When a sent value and a queried scalar become the same JSON: equal texts, truth values or bytes;
   numbers of equal value, integers and doubles alike; bytes and the text of their digits; and nothing,
   an empty value, and a double that is no number, among themselves.
   */
  predicate SameScalar(sent: AnyValue, asked: QueryValue) {
    match asked
    case QueryString(s) => sent == StringValue(s) || (sent.BytesValue? && Hex(sent.bytes) == s)
    case QueryBool(b) => sent == BoolValue(b)
    case QueryInt(i) => NumberOf(sent, i as real)
    case QueryDouble(Finite(x)) => NumberOf(sent, x)
    case QueryBytes(bytes) => sent == BytesValue(bytes) || sent == StringValue(Hex(bytes))
    case _ => sent == Empty || sent == DoubleValue(NonFinite)
  }

  /** `sent` is a number of value `x`; a string-table index is stored as a number. */
  predicate NumberOf(sent: AnyValue, x: real) {
    match sent
    case IntValue(i) => i as real == x
    case DoubleValue(Finite(y)) => y == x
    case StringIndex(i) => i as real == x
    case _ => false
  }

  lemma ScalarConversions(sent: AnyValue, asked: QueryValue)
    requires !asked.QueryArray? && !asked.QueryKvlist?
    ensures AnyValueToJson(sent) == QueryValueToJson(asked) <==> SameScalar(sent, asked)
  {
    if sent.BytesValue? && asked.QueryBytes? && AnyValueToJson(sent) == QueryValueToJson(asked) {
      HexInjective(sent.bytes, asked.bytes);
    }
  }

  /** Lists and maps are converted element by element, the last entry of a name counting. */
  lemma {:induction false} ListConversion(values: seq<AnyValue>)
    ensures |ValuesToJson(values)| == |values|
    ensures forall i :: 0 <= i < |values| ==> ValuesToJson(values)[i] == AnyValueToJson(values[i])
  {
    if values == [] {
    } else {
      ListConversion(values[1..]);
    }
  }

  /** An array of scalars contains another exactly when every element of it occurs; an object, when every field does. */
  lemma FlatContainment(xs: seq<Json>, ys: seq<Json>, fs: map<string, Json>, gs: map<string, Json>)
    requires forall i :: 0 <= i < |ys| ==> ys[i].Scalar()
    requires forall k :: k in gs ==> gs[k].Scalar()
    ensures Contains(Array(xs), Array(ys)) <==> forall i :: 0 <= i < |ys| ==> ys[i] in xs
    ensures Contains(Object(fs), Object(gs)) <==> forall k :: k in gs ==> k in fs && fs[k] == gs[k]
    ensures !Contains(Object(fs), Array(ys)) && !Contains(Array(xs), Object(gs))
  {
    forall i | 0 <= i < |ys| ensures SomeContains(xs, ys[i]) <==> ys[i] in xs {
      if ys[i] in xs {
        var j :| 0 <= j < |xs| && xs[j] == ys[i];
        assert Contains(xs[j], ys[i]);
      }
    }
  }

  /** The examples of section 8.14.3 of the PostgreSQL manual: in an array order and repetition do not count, nesting does. */
  lemma ArrayExamples(one: Json, two: Json, three: Json)
    requires one == Number(1.0) && two == Number(2.0) && three == Number(3.0)
    ensures JsonbContains(Array([one, two, three]), Array([three, one]))
    ensures JsonbContains(Array([one, two, three]), Array([one, two, two]))
  {
    FlatContainment([one, two, three], [three, one], map[], map[]);
    FlatContainment([one, two, three], [one, two, two], map[], map[]);
  }

  /** An array among the elements is contained as an element; its own elements are not elements of the outer one. */
  lemma NestingCounts(xs: seq<Json>, inner: seq<Json>, k: nat)
    requires Array(inner) in xs
    requires k < |inner| && inner[k].Scalar() && inner[k] !in xs
    ensures JsonbContains(Array(xs), Array([Array(inner)]))
    ensures !JsonbContains(Array(xs), Array(inner))
  {
    var j :| 0 <= j < |xs| && xs[j] == Array(inner);
    ContainsReflexive(xs[j]);
    assert SomeContains(xs, [Array(inner)][0]);
    assert !SomeContains(xs, inner[k]);
  }

  lemma ObjectExamples()
    ensures var bar := Object(map["bar" := String("baz")]);
            && !JsonbContains(Object(map["foo" := bar]), bar)
            && JsonbContains(Object(map["foo" := bar]), Object(map["foo" := Object(map[])]))
    ensures JsonbContains(Array([String("foo"), String("bar")]), String("bar"))
    ensures !JsonbContains(String("bar"), Array([String("bar")]))
  {
    var bar := Object(map["bar" := String("baz")]);
    assert "bar" in bar.fields && "bar" != "foo";
    assert String("bar") == [String("foo"), String("bar")][1];
  }

  /** Weakening a query value never loses a match. */
  lemma WeakerQueryFindsMore(column: Json, key: string, strong: Option<QueryValue>, weak: Option<QueryValue>)
    requires Contains(QueryOptionToJson(strong), QueryOptionToJson(weak))
    requires JsonbContains(column, Needle(key, strong))
    ensures JsonbContains(column, Needle(key, weak))
  {
    ContainsTransitive(column, Needle(key, strong), Needle(key, weak));
  }

  /** Byte values are matched by the same bytes only: `Hex` is injective. */
  lemma {:induction false} HexInjective(a: seq<Byte>, b: seq<Byte>)
    requires Hex(a) == Hex(b)
    ensures a == b
  {
    assert |a| == |b|;
    if a == [] {
    } else {
      var x, y := Hex(a), Hex(b);
      assert x[0] == DIGITS[a[0] / 16] && y[0] == DIGITS[b[0] / 16];
      assert x[1] == DIGITS[a[0] % 16] && y[1] == DIGITS[b[0] % 16];
      DigitsInjective(a[0] / 16, b[0] / 16);
      DigitsInjective(a[0] % 16, b[0] % 16);
      assert x[2..] == Hex(a[1..]) && y[2..] == Hex(b[1..]);
      HexInjective(a[1..], b[1..]);
      assert a == [a[0]] + a[1..] && b == [b[0]] + b[1..];
    }
  }

  lemma DigitsInjective(i: int, j: int)
    requires 0 <= i < 16 && 0 <= j < 16 && DIGITS[i] == DIGITS[j]
    ensures i == j
  {
  }
}
