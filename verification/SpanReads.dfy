/**
 Reading spans back: what an export leaves in the table carries the original records, and the
 attribute search finds it.
 */
module SpanReads {
  import opened Common
  import opened Telemetry
  import opened JsonAttributes
  import opened Spans
  import opened Streaming

  /** The attributes a record carries itself, through its resource, and through its scope. */
  function CarriedAttributes(leaf: Leaf<Span>): seq<KeyValue> {
    leaf.item.attributes + leaf.ResourceAttributes() + leaf.ScopeAttributes()
  }

  predicate CleanKeys(leaf: Leaf<Span>) {
    DistinctKeys(leaf.item.attributes) && DistinctKeys(leaf.ResourceAttributes()) && DistinctKeys(leaf.ScopeAttributes())
  }

  /** A stored span is found by any attribute it carried, and its payload is the record it came from. */
  lemma StoredSpanFaithful(leaf: Leaf<Span>, query: QueryEntry)
    requires SpanRowOf(leaf).Ok?
    ensures Leaves(SpanRowOf(leaf).value.payload) == [leaf]
    ensures CleanKeys(leaf) && KeyValue(query.key, LiftOption(query.value)) in CarriedAttributes(leaf) ==>
      var row := SpanRowOf(leaf).value;
      AttributeCondition(row.spanAttributes, row.resourceAttributes, row.scopeAttributes, query)
  {
    SingletonLeaves(leaf);
    if CleanKeys(leaf) && KeyValue(query.key, LiftOption(query.value)) in CarriedAttributes(leaf) {
      SearchComplete(leaf.item.attributes, leaf.ResourceAttributes(), leaf.ScopeAttributes(), query);
    }
  }

  /** The text stored for a span kind. */
  predicate KindText(kind: int, text: string) {
    if kind == 1 then text == "internal"
    else if kind == 2 then text == "server"
    else if kind == 3 then text == "client"
    else if kind == 4 then text == "producer"
    else if kind == 5 then text == "consumer"
    else text == "unspecified"
  }

  /** The service a record belongs to: its resource's last `service.name`, if a string, and otherwise unknown. */
  ghost predicate ServiceIs(leaf: Leaf<Span>, service: string) {
    var attributes := leaf.ResourceAttributes();
    if exists i :: LastNamed(attributes, "service.name", i) && OtelValueToJson(attributes[i].value).String?
    then exists i :: LastNamed(attributes, "service.name", i) && OtelValueToJson(attributes[i].value) == String(service)
    else service == "unknown_service"
  }

  /** The status code as a 16-bit number; no status is zero. */
  predicate StatusIs(span: Span, status: int) {
    && -0x8000 <= status < 0x8000
    && (status - (if span.status.Some? then span.status.value else 0)) % 0x1_0000 == 0
  }

  lemma ServiceIsUnique(leaf: Leaf<Span>, a: string, b: string)
    requires ServiceIs(leaf, a) && ServiceIs(leaf, b)
    ensures a == b
  {
    assert forall i, j :: LastNamed(leaf.ResourceAttributes(), "service.name", i) && LastNamed(leaf.ResourceAttributes(), "service.name", j) ==> i == j;
  }

  lemma StatusIsUnique(span: Span, a: int, b: int)
    requires StatusIs(span, a) && -0x8000 <= b < 0x8000
    ensures a == b <==> StatusIs(span, b)
  {
    if StatusIs(span, b) {
      var code := if span.status.Some? then span.status.value else 0;
      assert (a - code) - (b - code) == 0x1_0000 * ((a - code) / 0x1_0000 - (b - code) / 0x1_0000);
    }
  }

  /** A JSON column holds the attributes: for each name the last value under it, and nothing else. */
  ghost predicate ColumnOf(column: Json, attributes: seq<KeyValue>) {
    && column.Object?
    && (forall key :: key in column.fields <==> exists i :: LastNamed(attributes, key, i))
    && (forall i, key {:trigger LastNamed(attributes, key, i)} :: LastNamed(attributes, key, i) && key in column.fields ==>
          column.fields[key] == OtelValueToJson(attributes[i].value))
  }

  lemma AttributesColumn(attributes: seq<KeyValue>)
    ensures ColumnOf(AttributesToJson(attributes), attributes)
  {
    forall key { FieldsLookup(attributes, key); }
  }

  lemma ServiceOf(leaf: Leaf<Span>)
    ensures ServiceIs(leaf, ServiceName(leaf.ResourceAttributes()))
  {
    var attributes := leaf.ResourceAttributes();
    FieldsLookup(attributes, "service.name");
    ServiceNameFrom(attributes);
    if i :| LastNamed(attributes, "service.name", i) && OtelValueToJson(attributes[i].value).String? {
      assert OtelValueToJson(attributes[i].value) == String(ServiceName(attributes));
    }
  }

  /** The columns of a row are what its record says, field by field. */
  ghost predicate ColumnsFrom(row: SpanRow, leaf: Leaf<Span>) {
    && row.traceId == leaf.item.traceId && row.spanId == leaf.item.spanId && row.parentSpanId == leaf.item.parentSpanId
    && ServiceIs(leaf, row.service) && row.operation == leaf.item.name && KindText(leaf.item.kind, row.kind)
    && row.start == leaf.item.start && row.end == leaf.item.end && row.duration == leaf.item.end - leaf.item.start
    && StatusIs(leaf.item, row.status)
    && ColumnOf(row.spanAttributes, leaf.item.attributes)
    && ColumnOf(row.resourceAttributes, leaf.ResourceAttributes())
    && ColumnOf(row.scopeAttributes, leaf.ScopeAttributes())
  }

  lemma RowColumns(leaf: Leaf<Span>)
    requires SpanRowOf(leaf).Ok?
    ensures ColumnsFrom(SpanRowOf(leaf).value, leaf)
  {
    ServiceOf(leaf);
    AttributesColumn(leaf.item.attributes);
    AttributesColumn(leaf.ResourceAttributes());
    AttributesColumn(leaf.ScopeAttributes());
  }

  /** A row is refused for a text exactly if the service, the name, or some text in an attribute column has a NUL. */
  lemma RefusedIff(leaf: Leaf<Span>)
    requires SpanRowOf(leaf).Ok?
    ensures var row := SpanRowOf(leaf).value;
            row.HasNulText() <==>
              || '\0' in row.service || '\0' in leaf.item.name
              || exists t {:trigger '\0' in t} :: '\0' in t
                   && (TextIn(t, row.spanAttributes) || TextIn(t, row.resourceAttributes) || TextIn(t, row.scopeAttributes))
  {
    var row := SpanRowOf(leaf).value;
    NulSomewhere(row.spanAttributes);
    NulSomewhere(row.resourceAttributes);
    NulSomewhere(row.scopeAttributes);
  }

  /** Every row of a table written by exports holds one record of its key, and its columns are that record's. */
  lemma StoredColumns(table: Table, key: SpanKey)
    requires ValidTable(table) && key in table
    ensures var row := table[key].row;
            && |Leaves(row.payload)| == 1
            && LeafKey(Leaves(row.payload)[0]) == key
            && ColumnsFrom(row, Leaves(row.payload)[0])
  {
    RowColumns(Leaves(table[key].row.payload)[0]);
  }

  /** Some attribute list of the record has the queried name, its last value of that name containing the queried one. */
  ghost predicate Carries(leaf: Leaf<Span>, query: QueryEntry) {
    || LastContains(leaf.item.attributes, query)
    || LastContains(leaf.ResourceAttributes(), query)
    || LastContains(leaf.ScopeAttributes(), query)
  }

  /**
   The attribute search on a table written by exports finds a row exactly when its record carries the
   queried attribute; with distinct keys, any attribute the record was sent with is carried.
   */
  lemma StoredRowFound(table: Table, key: SpanKey, query: QueryEntry)
    requires ValidTable(table) && key in table
    ensures var row := table[key].row;
            && |Leaves(row.payload)| == 1
            && var leaf := Leaves(row.payload)[0];
               && LeafKey(leaf) == key
               && (AttributeCondition(row.spanAttributes, row.resourceAttributes, row.scopeAttributes, query) <==> Carries(leaf, query))
               && (CleanKeys(leaf) && KeyValue(query.key, LiftOption(query.value)) in CarriedAttributes(leaf) ==> Carries(leaf, query))
  {
    var leaf := Leaves(table[key].row.payload)[0];
    StoredSpanFaithful(leaf, query);
    SearchExact(leaf.item.attributes, leaf.ResourceAttributes(), leaf.ScopeAttributes(), query);
  }

  /**
   After an export is written, the table holds for each of its keys the last accepted record with
   that key, unaltered.
   */
  lemma WriteThenRead(table: Table, leaves: seq<Leaf<Span>>, now: int, i: nat)
    requires RowsOf(Accepted(leaves)).Ok?
    requires i < |Accepted(leaves)| && IsLast(RowsOf(Accepted(leaves)).value, i)
    ensures var span, after := Accepted(leaves)[i].item, UpsertAll(table, RowsOf(Accepted(leaves)).value, now);
            var key := SpanKey(span.traceId, span.spanId);
            key in after && Leaves(after[key].row.payload) == [Accepted(leaves)[i]]
  {
    var rows := RowsOf(Accepted(leaves)).value;
    assert SpanRowOf(Accepted(leaves)[i]) == Ok(rows[i]);
    LastForIs(rows, i);
    UpsertAllLookup(table, rows, now, rows[i].Key());
    SingletonLeaves(Accepted(leaves)[i]);
  }

  /** Keys an export does not mention keep their rows. */
  lemma OtherSpansUntouched(table: Table, rows: seq<SpanRow>, now: int, key: SpanKey)
    requires forall i :: 0 <= i < |rows| ==> rows[i].Key() != key
    ensures key in UpsertAll(table, rows, now) <==> key in table
    ensures key in table ==> UpsertAll(table, rows, now)[key] == table[key]
  {
    LastForNone(rows, key);
    UpsertAllLookup(table, rows, now, key);
  }
}
