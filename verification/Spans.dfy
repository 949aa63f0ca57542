/**
 The span write path: collect and validate an export, collapse duplicate keys, and upsert in
 multi-row statements; compared with writing the accepted rows one at a time.
 */
module Spans {
  import opened Common
  import opened Telemetry
  import opened JsonAttributes
  import opened Streaming

  const INSERT_CHUNK_ROWS: nat := 1_000
  const SPAN_COLUMNS: nat := 14
  const MAX_BIND_PARAMETERS: nat := 65_535
  const MAX_REPORTED: nat := 5

  datatype Span = Span(traceId: seq<Byte>, spanId: seq<Byte>, parentSpanId: seq<Byte>, name: string, kind: int,
                       start: nat, end: nat, status: Option<int>, attributes: seq<KeyValue>)

  datatype SpanKey = SpanKey(traceId: seq<Byte>, spanId: seq<Byte>)

  datatype SpanRow = SpanRow(traceId: seq<Byte>, spanId: seq<Byte>, parentSpanId: seq<Byte>,
                             service: string, operation: string, kind: string,
                             start: int, end: int, duration: int, status: int,
                             spanAttributes: Json, resourceAttributes: Json, scopeAttributes: Json,
                             payload: seq<ResourceGroup<Span>>)
  {
    function Key(): SpanKey { SpanKey(traceId, spanId) }

    /** Some text or JSONB column has a character PostgreSQL refuses. */
    predicate HasNulText() {
      HasNul(service) || HasNul(operation)
      || JsonHasNul(spanAttributes) || JsonHasNul(resourceAttributes) || JsonHasNul(scopeAttributes)
    }
  }

  /** A stored row: the fourteen written columns and `inserted_at`, which no upsert touches again. */
  datatype StoredSpan = StoredSpan(row: SpanRow, insertedAt: int)

  type Table = map<SpanKey, StoredSpan>

  datatype WriteError = StartTooLarge | EndTooLarge | NulText | StatementRefused

  datatype Rejection = Rejection(name: string, traceIdLength: nat, spanIdLength: nat)

  // ---------------------------------------------------------------- rows

  function KindName(kind: int): string {
    match kind
    case 1 => "internal"
    case 2 => "server"
    case 3 => "client"
    case 4 => "producer"
    case 5 => "consumer"
    case _ => "unspecified"
  }

  function ServiceName(attributes: seq<KeyValue>): string {
    var fields := FieldsToJson(attributes);
    if "service.name" in fields && fields["service.name"].String? then fields["service.name"].s else "unknown_service"
  }

  /** The service is the last `service.name` attribute if that is a string, and otherwise unknown. */
  lemma ServiceNameFrom(attributes: seq<KeyValue>)
    ensures forall i :: LastNamed(attributes, "service.name", i) && OtelValueToJson(attributes[i].value).String? ==>
      ServiceName(attributes) == OtelValueToJson(attributes[i].value).s
    ensures (forall i :: LastNamed(attributes, "service.name", i) ==> !OtelValueToJson(attributes[i].value).String?) ==>
      ServiceName(attributes) == "unknown_service"
  {
    FieldsLookup(attributes, "service.name");
  }

  /** Truncating cast of the status code. */
  function AsI16(v: int): (r: int)
    ensures -0x8000 <= r < 0x8000 && (r - v) % 0x1_0000 == 0
  {
    var low := v % 0x1_0000;
    if low < 0x8000 then low else low - 0x1_0000
  }

  function SaturatingSub(a: int, b: int): int {
    Max(I64_MIN, Min(I64_MAX, a - b))
  }

  function SpanRowOf(leaf: Leaf<Span>): (r: Result<SpanRow, WriteError>)
    ensures r.Ok? && WellIdentified(leaf.item) ==> ValidRow(r.value)
    ensures r.Err? ==> r.error in {StartTooLarge, EndTooLarge}
  {
    var span := leaf.item;
    if I64_MAX < span.start then Err(StartTooLarge)
    else if I64_MAX < span.end then Err(EndTooLarge)
    else
      Ok(SpanRow(span.traceId, span.spanId, span.parentSpanId,
                 ServiceName(leaf.ResourceAttributes()), span.name, KindName(span.kind),
                 span.start, span.end, SaturatingSub(span.end, span.start),
                 if span.status.Some? then AsI16(span.status.value) else 0,
                 AttributesToJson(span.attributes),
                 AttributesToJson(leaf.ResourceAttributes()),
                 AttributesToJson(leaf.ScopeAttributes()),
                 Singleton(leaf)))
  }

  // ---------------------------------------------------------------- collecting an export

  predicate WellIdentified(span: Span) {
    |span.traceId| == 16 && |span.spanId| == 8
  }

  function RejectionOf(span: Span): Rejection {
    Rejection(span.name, |span.traceId|, |span.spanId|)
  }

  /** The records of an export in the order of arrival that satisfy the identifier lengths. */
  function Accepted(leaves: seq<Leaf<Span>>): (r: seq<Leaf<Span>>)
    ensures forall i :: 0 <= i < |r| ==> WellIdentified(r[i].item)
  {
    if leaves == [] then []
    else Accepted(leaves[..|leaves| - 1]) + (if WellIdentified(leaves[|leaves| - 1].item) then [leaves[|leaves| - 1]] else [])
  }

  function Rejected(leaves: seq<Leaf<Span>>): seq<Rejection> {
    if leaves == [] then []
    else Rejected(leaves[..|leaves| - 1])
         + (if WellIdentified(leaves[|leaves| - 1].item) then [] else [RejectionOf(leaves[|leaves| - 1].item)])
  }

  /** All rows, or the first record's error. */
  function RowsOf(leaves: seq<Leaf<Span>>): (r: Result<seq<SpanRow>, WriteError>)
    ensures r.Ok? ==> |r.value| == |leaves|
    ensures r.Ok? ==> forall i :: 0 <= i < |leaves| ==> SpanRowOf(leaves[i]) == Ok(r.value[i])
    ensures r.Err? ==> r.error in {StartTooLarge, EndTooLarge}
  {
    if leaves == [] then Ok([])
    else
      match RowsOf(leaves[..|leaves| - 1])
      case Err(e) => Err(e)
      case Ok(rows) =>
        match SpanRowOf(leaves[|leaves| - 1])
        case Err(e) => Err(e)
        case Ok(row) => Ok(rows + [row])
  }

  /** Every record of an export is either accepted or rejected. */
  lemma {:induction false} AcceptedOrRejected(leaves: seq<Leaf<Span>>)
    ensures |Accepted(leaves)| + |Rejected(leaves)| == |leaves|
  {
    if leaves == [] {
    } else {
      AcceptedOrRejected(leaves[..|leaves| - 1]);
    }
  }

  /** Identifiers of sixteen and eight bytes. */
  predicate RightLengths(span: Span) {
    |span.traceId| == 16 && |span.spanId| == 8
  }

  function Identified(right: bool): Leaf<Span> -> bool {
    (leaf: Leaf<Span>) => RightLengths(leaf.item) == right
  }

  /** Accepted are the records with identifiers of the right lengths, in order of arrival. */
  lemma {:induction false} AcceptedIsFilter(leaves: seq<Leaf<Span>>)
    ensures Accepted(leaves) == Filter(leaves, Identified(true))
  {
    if leaves == [] {
    } else {
      AcceptedIsFilter(leaves[..|leaves| - 1]);
    }
  }

  /** Rejected are the others, in order, each reported by its name and the two lengths. */
  lemma {:induction false} RejectedIsFilter(leaves: seq<Leaf<Span>>)
    ensures var bad := Filter(leaves, Identified(false));
            && |Rejected(leaves)| == |bad|
            && forall j :: 0 <= j < |bad| ==> Reports(Rejected(leaves)[j], bad[j].item)
  {
    if leaves == [] {
    } else {
      RejectedIsFilter(leaves[..|leaves| - 1]);
    }
  }

  predicate Reports(r: Rejection, span: Span) {
    r.name == span.name && r.traceIdLength == |span.traceId| && r.spanIdLength == |span.spanId|
  }

  /** The reply counts the spans with malformed identifiers and reports the first five of them. */
  lemma ReplyMeans(data: seq<ResourceGroup<Span>>)
    requires SpanStore.Reply(data).Ok?
    ensures var (rejected, reasons), bad := SpanStore.Reply(data).value, Filter(Leaves(data), Identified(false));
            && rejected == |bad| && |reasons| == (if |bad| < 5 then |bad| else 5)
            && forall j :: 0 <= j < |reasons| ==> Reports(reasons[j], bad[j].item)
  {
    RejectedIsFilter(Leaves(data));
  }

  /** An export fails for a time exactly if some well-identified span has one PostgreSQL cannot hold. */
  lemma {:induction false} RowsOfOkIff(leaves: seq<Leaf<Span>>)
    ensures RowsOf(leaves).Ok? <==>
      forall i :: 0 <= i < |leaves| ==> leaves[i].item.start < 0x8000_0000_0000_0000 && leaves[i].item.end < 0x8000_0000_0000_0000
  {
    if leaves == [] {
    } else {
      var n := |leaves| - 1;
      RowsOfOkIff(leaves[..n]);
      assert forall i :: 0 <= i < n ==> leaves[..n][i] == leaves[i];
    }
  }

  lemma {:induction false} RowsOfPrefix(a: seq<Leaf<Span>>, b: seq<Leaf<Span>>)
    requires RowsOf(a).Err?
    ensures RowsOf(a + b) == RowsOf(a)
  {
    if b == [] {
      assert a + b == a;
    } else {
      RowsOfPrefix(a, b[..|b| - 1]);
      assert (a + b)[..|a + b| - 1] == a + b[..|b| - 1];
    }
  }

  lemma {:induction false} AcceptedAppend(a: seq<Leaf<Span>>, b: seq<Leaf<Span>>)
    ensures Accepted(a + b) == Accepted(a) + Accepted(b)
  {
    if b == [] {
      assert a + b == a;
    } else {
      AcceptedAppend(a, b[..|b| - 1]);
      assert (a + b)[..|a + b| - 1] == a + b[..|b| - 1];
    }
  }

  /** Accepted rows carry valid keys and times PostgreSQL can hold. */
  predicate ValidRow(row: SpanRow) {
    && |row.traceId| == 16 && |row.spanId| == 8
    && 0 <= row.start <= I64_MAX && 0 <= row.end <= I64_MAX
    && row.duration == row.end - row.start
  }

  /** The row can be derived again from its own payload: every indexed column agrees with the record. */
  predicate Rebuildable(row: SpanRow) {
    |Leaves(row.payload)| == 1 && SpanRowOf(Leaves(row.payload)[0]) == Ok(row)
  }

  /** What the loops collect from an export satisfies both. */
  lemma AcceptedRowsValid(leaves: seq<Leaf<Span>>)
    requires RowsOf(Accepted(leaves)).Ok?
    ensures forall i :: 0 <= i < |RowsOf(Accepted(leaves)).value| ==>
      ValidRow(RowsOf(Accepted(leaves)).value[i]) && Rebuildable(RowsOf(Accepted(leaves)).value[i])
  {
    var accepted := Accepted(leaves);
    forall i | 0 <= i < |accepted| ensures ValidRow(RowsOf(accepted).value[i]) && Rebuildable(RowsOf(accepted).value[i]) {
      assert SpanRowOf(accepted[i]) == Ok(RowsOf(accepted).value[i]);
      SingletonLeaves(accepted[i]);
    }
  }

  // ---------------------------------------------------------------- upserts

  /** One `INSERT .. ON CONFLICT (trace_id, span_id) DO UPDATE` of one row. */
  function Upsert(table: Table, row: SpanRow, now: int): Table {
    table[row.Key() := StoredSpan(row, if row.Key() in table then table[row.Key()].insertedAt else now)]
  }

  /** Row-at-a-time writing: the behaviour batching has to reproduce. */
  function UpsertAll(table: Table, rows: seq<SpanRow>, now: int): Table {
    if rows == [] then table
    else Upsert(UpsertAll(table, rows[..|rows| - 1], now), rows[|rows| - 1], now)
  }

  predicate DistinctRowKeys(rows: seq<SpanRow>) {
    forall i, j :: 0 <= i < j < |rows| ==> rows[i].Key() != rows[j].Key()
  }

  /**
   One multi-row statement. PostgreSQL refuses it when it has no rows, too many parameters, a NUL
   character in a text, a row that fails a CHECK, or two rows for the same key; otherwise every row
   is upserted.
   */
  function ExecuteUpsert(table: Table, rows: seq<SpanRow>, now: int): Result<Table, WriteError> {
    if rows == [] || MAX_BIND_PARAMETERS < SPAN_COLUMNS * |rows| then Err(StatementRefused)
    else if AnyNul(rows) then Err(NulText)
    else if exists i :: 0 <= i < |rows| && (|rows[i].traceId| != 16 || |rows[i].spanId| != 8) then Err(StatementRefused)
    else if !DistinctRowKeys(rows) then Err(StatementRefused)
    else Ok(UpsertAll(table, rows, now))
  }

  predicate AnyNul(rows: seq<SpanRow>) {
    exists i :: 0 <= i < |rows| && rows[i].HasNulText()
  }

  lemma {:induction false} UpsertAllAppend(table: Table, a: seq<SpanRow>, b: seq<SpanRow>, now: int)
    ensures UpsertAll(table, a + b, now) == UpsertAll(UpsertAll(table, a, now), b, now)
  {
    if b == [] {
      assert a + b == a;
    } else {
      UpsertAllAppend(table, a, b[..|b| - 1], now);
      assert (a + b)[..|a + b| - 1] == a + b[..|b| - 1];
    }
  }

  /** The last row written for a key. */
  function LastFor(rows: seq<SpanRow>, key: SpanKey): Option<SpanRow> {
    if rows == [] then None
    else if rows[|rows| - 1].Key() == key then Some(rows[|rows| - 1])
    else LastFor(rows[..|rows| - 1], key)
  }

  /** What the table holds for a key after row-at-a-time writing: the last row, first insertion time. */
  lemma {:induction false} UpsertAllLookup(table: Table, rows: seq<SpanRow>, now: int, key: SpanKey)
    ensures key in UpsertAll(table, rows, now) <==> key in table || LastFor(rows, key).Some?
    ensures key in UpsertAll(table, rows, now) ==>
      UpsertAll(table, rows, now)[key] ==
        match LastFor(rows, key)
        case None => table[key]
        case Some(row) => StoredSpan(row, if key in table then table[key].insertedAt else now)
  {
    if rows == [] {
    } else {
      UpsertAllLookup(table, rows[..|rows| - 1], now, key);
    }
  }

  // ---------------------------------------------------------------- deduplication

  /** Row `i` is the last one written for its key. */
  predicate IsLast(rows: seq<SpanRow>, i: nat) {
    i < |rows| && forall j :: i < j < |rows| ==> rows[j].Key() != rows[i].Key()
  }

  function LastPositions(rows: seq<SpanRow>): (ps: seq<nat>)
    ensures StrictlyIncreasing(ps)
    ensures forall i {:trigger i in ps} :: i in ps <==> 0 <= i < |rows| && IsLast(rows, i)
    ensures forall j :: 0 <= j < |ps| ==> ps[j] < |rows| && IsLast(rows, ps[j])
  {
    var ps := Positions(|rows|, (i: nat) => IsLast(rows, i));
    assert forall j :: 0 <= j < |ps| ==> ps[j] in ps;
    ps
  }

  /** One row per key, the last one, in arrival order. */
  function LastWrites(rows: seq<SpanRow>): seq<SpanRow> {
    Pick(rows, LastPositions(rows))
  }

  lemma LastWritesDistinct(rows: seq<SpanRow>)
    ensures DistinctRowKeys(LastWrites(rows))
  {
    var ps := LastPositions(rows);
    forall i, j | 0 <= i < j < |ps| ensures rows[ps[i]].Key() != rows[ps[j]].Key() {
      assert IsLast(rows, ps[i]);
    }
  }

  lemma {:induction false} LastForIs(rows: seq<SpanRow>, i: nat)
    requires IsLast(rows, i)
    ensures LastFor(rows, rows[i].Key()) == Some(rows[i])
  {
    if i == |rows| - 1 {
    } else {
      LastForIs(rows[..|rows| - 1], i);
    }
  }

  lemma {:induction false} LastForNone(rows: seq<SpanRow>, key: SpanKey)
    requires forall i :: 0 <= i < |rows| ==> rows[i].Key() != key
    ensures LastFor(rows, key) == None
  {
    if rows == [] {
    } else {
      LastForNone(rows[..|rows| - 1], key);
    }
  }

  lemma {:induction false} LastExists(rows: seq<SpanRow>, i: nat) returns (k: nat)
    requires i < |rows|
    ensures i <= k && IsLast(rows, k) && rows[k].Key() == rows[i].Key()
    decreases |rows| - i
  {
    if j :| i < j < |rows| && rows[j].Key() == rows[i].Key() {
      k := LastExists(rows, j);
    } else {
      k := i;
    }
  }

  /** Deduplication loses no key's last row. */
  lemma LastWritesKeepLast(rows: seq<SpanRow>, key: SpanKey)
    ensures LastFor(LastWrites(rows), key) == LastFor(rows, key)
  {
    var ps := LastPositions(rows);
    if i: nat :| i < |rows| && rows[i].Key() == key {
      var k := LastExists(rows, i);
      assert k in ps;
      var j :| 0 <= j < |ps| && ps[j] == k;
      LastWritesDistinct(rows);
      LastForIs(LastWrites(rows), j);
      LastForIs(rows, k);
    } else {
      LastForNone(rows, key);
      LastForNone(LastWrites(rows), key);
    }
  }

  /** Writing the deduplicated rows leaves the table row-at-a-time writing of all rows leaves. */
  lemma DedupedWritesSame(table: Table, rows: seq<SpanRow>, now: int)
    ensures UpsertAll(table, LastWrites(rows), now) == UpsertAll(table, rows, now)
  {
    forall key
      ensures key in UpsertAll(table, LastWrites(rows), now) <==> key in UpsertAll(table, rows, now)
      ensures key in UpsertAll(table, rows, now) ==>
        UpsertAll(table, LastWrites(rows), now)[key] == UpsertAll(table, rows, now)[key]
    {
      LastWritesKeepLast(rows, key);
      UpsertAllLookup(table, rows, now, key);
      UpsertAllLookup(table, LastWrites(rows), now, key);
    }
  }

  // ---------------------------------------------------------------- batched and row at a time

  /** What a batched write comes to: the last rows decide whether it is refused. */
  function Batched(table: Table, rows: seq<SpanRow>, now: int): Result<Table, WriteError> {
    if AnyNul(LastWrites(rows)) then Err(NulText) else Ok(UpsertAll(table, rows, now))
  }

  /** One statement per row, in one transaction. */
  function OneByOne(table: Table, rows: seq<SpanRow>, now: int): Result<Table, WriteError> {
    if rows == [] then Ok(table)
    else
      match OneByOne(table, rows[..|rows| - 1], now)
      case Err(e) => Err(e)
      case Ok(before) => ExecuteUpsert(before, [rows[|rows| - 1]], now)
  }

  lemma {:induction false} OneByOneIs(table: Table, rows: seq<SpanRow>, now: int)
    requires forall i :: 0 <= i < |rows| ==> ValidRow(rows[i])
    ensures OneByOne(table, rows, now) == if AnyNul(rows) then Err(NulText) else Ok(UpsertAll(table, rows, now))
  {
    if rows == [] {
    } else {
      var front, last := rows[..|rows| - 1], rows[|rows| - 1];
      OneByOneIs(table, front, now);
      ExecuteOne(UpsertAll(table, front, now), last, now);
      NulAppend(front, last);
      assert rows == front + [last];
    }
  }

  lemma ExecuteOne(table: Table, row: SpanRow, now: int)
    requires ValidRow(row)
    ensures ExecuteUpsert(table, [row], now) == if row.HasNulText() then Err(NulText) else Ok(Upsert(table, row, now))
  {
    assert row.HasNulText() ==> [row][0].HasNulText();
    assert UpsertAll(table, [row][..0], now) == table;
  }

  lemma NulAppend(rows: seq<SpanRow>, row: SpanRow)
    ensures AnyNul(rows + [row]) <==> AnyNul(rows) || row.HasNulText()
  {
    assert forall i :: 0 <= i < |rows| ==> (rows + [row])[i] == rows[i];
    assert (rows + [row])[|rows|] == row;
  }

  /**
   Batching comes to the same as row-at-a-time writing except when the only rows PostgreSQL refuses
   are superseded within the export: deduplication drops them, so the batch goes through.
   */
  lemma BatchedIsOneByOneIff(table: Table, rows: seq<SpanRow>, now: int)
    requires forall i :: 0 <= i < |rows| ==> ValidRow(rows[i])
    ensures Batched(table, rows, now) == OneByOne(table, rows, now) <==> (AnyNul(rows) ==> AnyNul(LastWrites(rows)))
  {
    OneByOneIs(table, rows, now);
    var last := LastWrites(rows);
    if i :| 0 <= i < |last| && last[i].HasNulText() {
      assert rows[LastPositions(rows)[i]].HasNulText();
    }
  }

  /** There are such exports: a span with a NUL in its name, sent again without it. */
  lemma SupersededNulPasses(table: Table, row: SpanRow, now: int)
    requires ValidRow(row) && !row.HasNulText()
    ensures var rows := [row.(operation := "\0"), row];
            Batched(table, rows, now).Ok? && OneByOne(table, rows, now) == Err(NulText)
  {
    var rows := [row.(operation := "\0"), row];
    assert rows[0].Key() == rows[1].Key() && IsLast(rows, 1) && !IsLast(rows, 0);
    IncreasingUnique(LastPositions(rows), [1]);
    assert LastWrites(rows) == [row];
    assert HasNul("\0") by { assert "\0"[0] == '\0'; }
    assert rows[0].HasNulText();
    OneByOneIs(table, rows, now);
  }

  /** Re-sending an export changes nothing, insertion times included. */
  lemma ResendIsIdempotent(table: Table, rows: seq<SpanRow>, now: int, later: int)
    ensures UpsertAll(UpsertAll(table, rows, now), rows, later) == UpsertAll(table, rows, now)
  {
    var once := UpsertAll(table, rows, now);
    forall key
      ensures key in UpsertAll(once, rows, later) <==> key in once
      ensures key in once ==> UpsertAll(once, rows, later)[key] == once[key]
    {
      UpsertAllLookup(table, rows, now, key);
      UpsertAllLookup(once, rows, later, key);
    }
  }

  /**
   `sort_unstable` on distinct indices: any correct sort returns this sequence, so insertion is
   as good as any.
   */
  method SortDistinct(xs: seq<nat>) returns (ys: seq<nat>)
    requires NoDuplicates(xs)
    ensures StrictlyIncreasing(ys)
    ensures forall x :: x in ys <==> x in xs
  {
    ys := [];
    for i := 0 to |xs|
      invariant StrictlyIncreasing(ys)
      invariant forall x :: x in ys <==> x in xs[..i]
    {
      assert xs[i] !in xs[..i];
      ys := InsertSorted(ys, xs[i]);
      assert xs[..i + 1] == xs[..i] + [xs[i]];
    }
    assert xs[..|xs|] == xs;
  }

  function InsertSorted(ys: seq<nat>, x: nat): (r: seq<nat>)
    requires StrictlyIncreasing(ys) && x !in ys
    ensures StrictlyIncreasing(r)
    ensures forall z :: z in r <==> z in ys || z == x
  {
    if ys == [] || ys[|ys| - 1] < x then ys + [x]
    else
      var front, last := ys[..|ys| - 1], ys[|ys| - 1];
      assert ys == front + [last] && last != x;
      var r := InsertSorted(front, x);
      assert forall j :: 0 <= j < |r| ==> r[j] in r;
      r + [last]
  }

  /**
   `dedupe_spans`: a hash map from key to latest index, its values in whatever order it yields
   them, sorted.
   */
  method DedupeSpans(rows: seq<SpanRow>) returns (kept: seq<SpanRow>)
    ensures kept == LastWrites(rows)
  {
    var lastIndex: map<SpanKey, nat> := map[];
    for index := 0 to |rows|
      invariant IsLastIndex(lastIndex, rows, index)
    {
      lastIndex := lastIndex[rows[index].Key() := index];
    }
    var values := DrainValues(rows, lastIndex);
    var keep := SortDistinct(values);
    IncreasingUnique(keep, LastPositions(rows));
    kept := Pick(rows, keep);
  }

  /** `into_values().collect()`: the map's values, in an order the map chooses. */
  method DrainValues(rows: seq<SpanRow>, lastIndex: map<SpanKey, nat>) returns (values: seq<nat>)
    requires IsLastIndex(lastIndex, rows, |rows|)
    ensures NoDuplicates(values)
    ensures forall i {:trigger i in values} :: i in values <==> 0 <= i < |rows| && IsLast(rows, i)
  {
    values := [];
    var pending := lastIndex.Keys;
    while pending != {}
      invariant pending <= lastIndex.Keys
      invariant NoDuplicates(values)
      invariant forall i {:trigger i in values} :: i in values <==> 0 <= i < |rows| && IsLast(rows, i) && rows[i].Key() !in pending
    {
      var key :| key in pending;
      LastIndexIsLast(rows, lastIndex, key);
      assert lastIndex[key] !in values;
      values := values + [lastIndex[key]];
      pending := pending - {key};
    }
  }

  lemma LastIndexIsLast(rows: seq<SpanRow>, lastIndex: map<SpanKey, nat>, key: SpanKey)
    requires IsLastIndex(lastIndex, rows, |rows|) && key in lastIndex
    ensures forall i: nat :: IsLast(rows, i) && rows[i].Key() == key <==> i == lastIndex[key]
  {
    assert rows[lastIndex[key]].Key() == key;
  }

  /** The map holds, for every key among the first `n` rows, its latest index. */
  ghost predicate IsLastIndex(lastIndex: map<SpanKey, nat>, rows: seq<SpanRow>, n: nat)
    requires n <= |rows|
  {
    && (forall k :: k in lastIndex ==> lastIndex[k] < n && rows[lastIndex[k]].Key() == k
                                       && forall j :: lastIndex[k] < j < n ==> rows[j].Key() != k)
    && (forall i :: 0 <= i < n ==> rows[i].Key() in lastIndex)
  }

  // ---------------------------------------------------------------- the store

  class SpanStore {
    var spans: Table

    /** The records accepted so far, in the order of arrival. */
    ghost var history: seq<Leaf<Span>>

    ghost predicate Valid()
      reads this
    {
      ValidTable(spans) && Reflects(spans, history)
    }

    constructor ()
      ensures Valid() && spans == map[] && history == []
    {
      spans, history := map[], [];
    }

    /** The reply to an export: how many spans were rejected, and the first few reasons. */
    static function Reply(data: seq<ResourceGroup<Span>>): Result<(nat, seq<Rejection>), WriteError> {
      var leaves := Leaves(data);
      match RowsOf(Accepted(leaves))
      case Err(e) => Err(e)
      case Ok(rows) =>
        if AnyNul(LastWrites(rows)) then Err(NulText)
        else Ok((|Rejected(leaves)|, Rejected(leaves)[..Min(|Rejected(leaves)|, MAX_REPORTED)]))
    }

    /**
     `write`: the table ends up as if every accepted row had been written on its own, in order; or
     unchanged, when some accepted span has a time beyond BIGINT or the last one of its key a text
     with a NUL. No statement is refused for anything else.
     */
    method Write(data: seq<ResourceGroup<Span>>, now: int) returns (r: Result<(nat, seq<Rejection>), WriteError>)
      requires Valid()
      modifies this
      ensures Valid()
      ensures r == Reply(data)
      ensures r.Ok? ==> spans == UpsertAll(old(spans), RowsOf(Accepted(Leaves(data))).value, now)
      ensures r.Ok? ==> history == old(history) + Accepted(Leaves(data))
      ensures r.Err? ==> spans == old(spans) && history == old(history) && r.error != StatementRefused
    {
      var collected := Collect(data);
      if collected.Err? {
        return Err(collected.error);
      }
      var Collected(rows, rejected, errors) := collected.value;
      AcceptedRowsValid(Leaves(data));
      var deduped := DedupeSpans(rows);
      var applied, _ := UpsertChunks(spans, deduped, now);
      if applied.Err? {
        return Err(applied.error);
      }
      DedupedWritesSame(spans, rows, now);
      UpsertedValid(spans, deduped, now);
      UpsertedReflects(spans, history, Accepted(Leaves(data)), rows, now);
      spans, history := applied.value, history + Accepted(Leaves(data));
      return Ok((rejected, errors));
    }
  }

  /**
   Every row sits under its own key, is one `write` can have produced, agrees with its payload, and
   has texts PostgreSQL holds.
   */
  ghost predicate ValidTable(table: Table) {
    forall key :: key in table ==>
      table[key].row.Key() == key && ValidRow(table[key].row) && Rebuildable(table[key].row) && !table[key].row.HasNulText()
  }

  /** Upserting keeps the table valid, so over every run of writes no column disagrees with its payload. */
  lemma {:induction false} UpsertedValid(table: Table, rows: seq<SpanRow>, now: int)
    requires ValidTable(table) && !AnyNul(rows)
    requires forall i :: 0 <= i < |rows| ==> ValidRow(rows[i]) && Rebuildable(rows[i])
    ensures ValidTable(UpsertAll(table, rows, now))
  {
    if rows == [] {
    } else {
      UpsertedValid(table, rows[..|rows| - 1], now);
      UpsertValid(UpsertAll(table, rows[..|rows| - 1], now), rows[|rows| - 1], now);
    }
  }

  lemma UpsertValid(table: Table, row: SpanRow, now: int)
    requires ValidTable(table) && ValidRow(row) && Rebuildable(row) && !row.HasNulText()
    ensures ValidTable(Upsert(table, row, now))
  {
  }

  // ---------------------------------------------------------------- what the table says of the past

  function LeafKey(leaf: Leaf<Span>): SpanKey {
    SpanKey(leaf.item.traceId, leaf.item.spanId)
  }

  /** The last record accepted with a key. */
  function LastLeaf(leaves: seq<Leaf<Span>>, key: SpanKey): (leaf: Option<Leaf<Span>>)
    ensures leaf.Some? ==> LeafKey(leaf.value) == key && leaf.value in leaves
    ensures leaf.None? ==> forall i :: 0 <= i < |leaves| ==> LeafKey(leaves[i]) != key
  {
    if leaves == [] then None
    else if LeafKey(leaves[|leaves| - 1]) == key then Some(leaves[|leaves| - 1])
    else LastLeaf(leaves[..|leaves| - 1], key)
  }

  /** The table holds, for each key accepted so far, the last record accepted with it, and nothing else. */
  ghost predicate Reflects(table: Table, history: seq<Leaf<Span>>) {
    forall key {:trigger key in table} {:trigger LastLeaf(history, key)} ::
      && (key in table <==> LastLeaf(history, key).Some?)
      && (key in table ==> table[key].row.payload == Singleton(LastLeaf(history, key).value))
  }

  /** Writing an export keeps that. */
  lemma {:induction false} UpsertedReflects(table: Table, history: seq<Leaf<Span>>, leaves: seq<Leaf<Span>>, rows: seq<SpanRow>, now: int)
    requires Reflects(table, history) && |rows| == |leaves|
    requires forall i :: 0 <= i < |leaves| ==> SpanRowOf(leaves[i]) == Ok(rows[i])
    ensures Reflects(UpsertAll(table, rows, now), history + leaves)
  {
    if leaves == [] {
      assert history + leaves == history;
    } else {
      var n := |leaves| - 1;
      UpsertedReflects(table, history, leaves[..n], rows[..n], now);
      ReflectsOneMore(UpsertAll(table, rows[..n], now), history + leaves[..n], leaves[n], now);
      assert history + leaves == history + leaves[..n] + [leaves[n]];
    }
  }

  lemma LastLeafSnoc(leaves: seq<Leaf<Span>>, leaf: Leaf<Span>, key: SpanKey)
    ensures LastLeaf(leaves + [leaf], key) == if LeafKey(leaf) == key then Some(leaf) else LastLeaf(leaves, key)
  {
    assert (leaves + [leaf])[..|leaves|] == leaves;
  }

  lemma ReflectsOneMore(table: Table, history: seq<Leaf<Span>>, leaf: Leaf<Span>, now: int)
    requires Reflects(table, history) && SpanRowOf(leaf).Ok?
    ensures Reflects(Upsert(table, SpanRowOf(leaf).value, now), history + [leaf])
  {
    var row, after := SpanRowOf(leaf).value, Upsert(table, SpanRowOf(leaf).value, now);
    assert row.Key() == LeafKey(leaf) && row.payload == Singleton(leaf);
    forall key
      ensures key in after <==> LastLeaf(history + [leaf], key).Some?
      ensures key in after ==> after[key].row.payload == Singleton(LastLeaf(history + [leaf], key).value)
    {
      LastLeafSnoc(history, leaf, key);
      assert key in table <==> LastLeaf(history, key).Some?;
    }
  }

  /** A chunk of distinct, checked rows extends what has been applied, and is refused only for a NUL character. */
  lemma ChunkAccepted(table: Table, rows: seq<SpanRow>, i: nat, next: nat, now: int)
    requires DistinctRowKeys(rows)
    requires forall j :: 0 <= j < |rows| ==> |rows[j].traceId| == 16 && |rows[j].spanId| == 8
    requires i < next <= |rows| && next - i <= INSERT_CHUNK_ROWS
    ensures ExecuteUpsert(UpsertAll(table, rows[..i], now), rows[i..next], now)
         == if AnyNul(rows[i..next]) then Err(NulText) else Ok(UpsertAll(table, rows[..next], now))
  {
    var chunk := rows[i..next];
    StatementAccepted(UpsertAll(table, rows[..i], now), rows, i, next, now);
    UpsertAllAppend(table, rows[..i], chunk, now);
    assert rows[..next] == rows[..i] + chunk;
  }

  lemma StatementAccepted(table: Table, rows: seq<SpanRow>, i: nat, next: nat, now: int)
    requires DistinctRowKeys(rows)
    requires forall j :: 0 <= j < |rows| ==> |rows[j].traceId| == 16 && |rows[j].spanId| == 8
    requires i < next <= |rows| && next - i <= INSERT_CHUNK_ROWS
    ensures ExecuteUpsert(table, rows[i..next], now)
         == if AnyNul(rows[i..next]) then Err(NulText) else Ok(UpsertAll(table, rows[i..next], now))
  {
    var chunk := rows[i..next];
    assert forall j :: 0 <= j < |chunk| ==> chunk[j] == rows[i + j];
    assert DistinctRowKeys(chunk);
  }

  lemma NulInParts(rows: seq<SpanRow>, i: nat, next: nat)
    requires i <= next <= |rows|
    ensures AnyNul(rows[i..next]) ==> AnyNul(rows)
    ensures AnyNul(rows[..next]) ==> AnyNul(rows[..i]) || AnyNul(rows[i..next])
  {
    if k :| 0 <= k < next - i && rows[i..next][k].HasNulText() {
      assert rows[i + k].HasNulText();
    }
    if k :| 0 <= k < next && rows[..next][k].HasNulText() {
      if k < i { assert rows[..i][k].HasNulText(); } else { assert rows[i..next][k - i].HasNulText(); }
    }
  }

  /** The transaction: one statement per thousand rows, all of them accepted, or none takes effect. */
  method UpsertChunks(table: Table, rows: seq<SpanRow>, now: int) returns (r: Result<Table, WriteError>, statements: nat)
    requires DistinctRowKeys(rows)
    requires forall i :: 0 <= i < |rows| ==> |rows[i].traceId| == 16 && |rows[i].spanId| == 8
    ensures r == if AnyNul(rows) then Err(NulText) else Ok(UpsertAll(table, rows, now))
    ensures r.Ok? ==> statements == (|rows| + 999) / 1_000
  {
    var tx := table;
    var i := 0;
    statements := 0;
    while i < |rows|
      invariant 0 <= i <= |rows| && (i == |rows| || i == statements * INSERT_CHUNK_ROWS)
      invariant statements == (i + INSERT_CHUNK_ROWS - 1) / INSERT_CHUNK_ROWS
      invariant tx == UpsertAll(table, rows[..i], now) && !AnyNul(rows[..i])
    {
      var next := Min(i + INSERT_CHUNK_ROWS, |rows|);
      var applied := ExecuteUpsert(tx, rows[i..next], now);
      ChunkAccepted(table, rows, i, next, now);
      NulInParts(rows, i, next);
      statements := statements + 1;
      if applied.Err? {
        return applied, statements;
      }
      tx := applied.value;
      i := next;
    }
    assert rows[..|rows|] == rows;
    return Ok(tx), statements;
  }

  datatype Collected = Collected(rows: seq<SpanRow>, rejected: nat, errors: seq<Rejection>)

  /** What has been collected from some of the records of an export. */
  ghost predicate IsCollected(leaves: seq<Leaf<Span>>, c: Collected) {
    && RowsOf(Accepted(leaves)) == Ok(c.rows)
    && c.rejected == |Rejected(leaves)|
    && c.errors == Rejected(leaves)[..Min(c.rejected, MAX_REPORTED)]
  }

  /** The outcome of the loops over some records: the first failure, or all that was collected. */
  ghost predicate Collects(leaves: seq<Leaf<Span>>, r: Result<Collected, WriteError>) {
    match r
    case Ok(c) => IsCollected(leaves, c)
    case Err(e) => RowsOf(Accepted(leaves)) == Err(e)
  }

  /** Once failed, the outcome does not depend on the records that follow. */
  lemma FailureStays(a: seq<Leaf<Span>>, b: seq<Leaf<Span>>, e: WriteError)
    requires Collects(a, Err(e))
    ensures Collects(a + b, Err(e))
  {
    AcceptedAppend(a, b);
    RowsOfPrefix(Accepted(a), Accepted(b));
  }

  lemma CollectStep(seen: seq<Leaf<Span>>, leaf: Leaf<Span>)
    ensures Accepted(seen + [leaf]) == Accepted(seen) + (if WellIdentified(leaf.item) then [leaf] else [])
    ensures Rejected(seen + [leaf]) == Rejected(seen) + (if WellIdentified(leaf.item) then [] else [RejectionOf(leaf.item)])
  {
    assert (seen + [leaf])[..|seen|] == seen;
  }

  /** The body of the innermost loop. */
  method CollectSpan(ghost seen: seq<Leaf<Span>>, leaf: Leaf<Span>, c: Collected) returns (r: Result<Collected, WriteError>)
    requires IsCollected(seen, c)
    ensures Collects(seen + [leaf], r)
  {
    CollectStep(seen, leaf);
    if !WellIdentified(leaf.item) {
      assert Accepted(seen + [leaf]) == Accepted(seen);
      var errors := if |c.errors| < MAX_REPORTED then c.errors + [RejectionOf(leaf.item)] else c.errors;
      return Ok(Collected(c.rows, c.rejected + 1, errors));
    }
    assert Rejected(seen + [leaf]) == Rejected(seen);
    assert Accepted(seen + [leaf])[..|Accepted(seen)|] == Accepted(seen);
    var row := SpanRowOf(leaf);
    if row.Err? {
      return Err(row.error);
    }
    return Ok(Collected(c.rows + [row.value], c.rejected, c.errors));
  }

  method CollectScope(ghost seen: seq<Leaf<Span>>, group: ResourceGroup<Span>, scope: ScopeGroup<Span>, start: Collected)
    returns (r: Result<Collected, WriteError>)
    requires IsCollected(seen, start)
    ensures Collects(seen + ScopeLeaves(group, scope), r)
  {
    r := CollectItems(seen, ScopeLeaves(group, scope), start);
  }

  /** The innermost loop. */
  method CollectItems(ghost seen: seq<Leaf<Span>>, leaves: seq<Leaf<Span>>, start: Collected)
    returns (r: Result<Collected, WriteError>)
    requires IsCollected(seen, start)
    ensures Collects(seen + leaves, r)
  {
    var c := start;
    ghost var sofar := seen;
    for i := 0 to |leaves|
      invariant sofar == seen + leaves[..i]
      invariant IsCollected(sofar, c)
    {
      var next := CollectSpan(sofar, leaves[i], c);
      sofar := sofar + [leaves[i]];
      PrefixStep(seen, leaves, i);
      if next.Err? {
        FailureStays(sofar, leaves[i + 1..], next.error);
        return next;
      }
      c := next.value;
    }
    assert leaves[..|leaves|] == leaves;
    return Ok(c);
  }

  lemma GroupLeavesSplit(seen: seq<Leaf<Span>>, group: ResourceGroup<Span>, s: nat)
    requires s < |group.scopes|
    ensures seen + GroupLeaves(group, group.scopes[..s + 1])
         == seen + GroupLeaves(group, group.scopes[..s]) + ScopeLeaves(group, group.scopes[s])
    ensures seen + GroupLeaves(group, group.scopes)
         == seen + GroupLeaves(group, group.scopes[..s + 1]) + GroupLeaves(group, group.scopes[s + 1..])
  {
    assert group.scopes[..s + 1][..s] == group.scopes[..s];
    GroupLeavesAppend(group, group.scopes[..s + 1], group.scopes[s + 1..]);
    assert group.scopes[..s + 1] + group.scopes[s + 1..] == group.scopes;
  }

  method CollectGroup(ghost seen: seq<Leaf<Span>>, group: ResourceGroup<Span>, start: Collected)
    returns (r: Result<Collected, WriteError>)
    requires IsCollected(seen, start)
    ensures Collects(seen + GroupLeaves(group, group.scopes), r)
  {
    var c := start;
    ghost var sofar := seen;
    for s := 0 to |group.scopes|
      invariant sofar == seen + GroupLeaves(group, group.scopes[..s])
      invariant IsCollected(sofar, c)
    {
      var next := CollectScope(sofar, group, group.scopes[s], c);
      sofar := sofar + ScopeLeaves(group, group.scopes[s]);
      GroupLeavesSplit(seen, group, s);
      if next.Err? {
        FailureStays(sofar, GroupLeaves(group, group.scopes[s + 1..]), next.error);
        return next;
      }
      c := next.value;
    }
    assert group.scopes[..|group.scopes|] == group.scopes;
    return Ok(c);
  }

  /** The nested loops over resources, scopes and spans, leaving at the first unrepresentable time. */
  method Collect(data: seq<ResourceGroup<Span>>) returns (r: Result<Collected, WriteError>)
    ensures Collects(Leaves(data), r)
  {
    var c := Collected([], 0, []);
    for g := 0 to |data|
      invariant IsCollected(Leaves(data[..g]), c)
    {
      ghost var after, rest := data[..g + 1], data[g + 1..];
      assert after[..g] == data[..g];
      var next := CollectGroup(Leaves(data[..g]), data[g], c);
      if next.Err? {
        FailureStays(Leaves(after), Leaves(rest), next.error);
        LeavesAppend(after, rest);
        assert after + rest == data;
        return next;
      }
      c := next.value;
    }
    assert data[..|data|] == data;
    return Ok(c);
  }
}
