/**
 The metric write path: a metric is split into one copy of itself per data point, each point
 becomes a row with a singleton payload, and rows are inserted in multi-row statements.
 */
module Metrics {
  import opened Common
  import opened Telemetry
  import opened JsonAttributes
  import Spans
  import opened Streaming

  datatype NumberValue = AsDouble(d: Double) | AsInt(i: int)

  /** `rest` stands for the fields no code looks into: start times, exemplars, flags. */
  datatype NumberPoint = NumberPoint(time: nat, value: Option<NumberValue>, attributes: seq<KeyValue>, rest: seq<Byte>)

  /** Explicit and exponential histogram points: `rest` also stands for buckets and bounds. */
  datatype HistogramPoint = HistogramPoint(time: nat, count: nat, sum: Option<Double>, attributes: seq<KeyValue>, rest: seq<Byte>)

  datatype SummaryPoint = SummaryPoint(time: nat, count: nat, sum: Double, attributes: seq<KeyValue>, rest: seq<Byte>)

  datatype MetricData =
    | Gauge(numbers: seq<NumberPoint>)
    | Sum(numbers: seq<NumberPoint>, temporality: int, monotonic: bool)
    | Histogram(histograms: seq<HistogramPoint>, temporality: int)
    | ExponentialHistogram(histograms: seq<HistogramPoint>, temporality: int)
    | SummaryData(summaries: seq<SummaryPoint>)

  datatype Metric = Metric(name: string, description: string, unit: string, data: Option<MetricData>)

  datatype FlatPoint = FlatPoint(metric: Metric, time: nat, value: Double, count: nat, attributes: Json)

  datatype MetricRow = MetricRow(name: string, description: string, unit: string, metricType: string, service: string,
                                 time: int, value: Double, count: int,
                                 attributes: Json, resourceAttributes: Json, payload: Message<Metric>)
  {
    /** Some text or JSONB column has a character PostgreSQL refuses. */
    predicate HasNulText() {
      HasNul(name) || HasNul(description) || HasNul(unit) || HasNul(service) || JsonHasNul(attributes) || JsonHasNul(resourceAttributes)
    }
  }

  datatype MetricError = TimeTooLarge | CountTooLarge | NoData | NulText | StatementRefused

  // ---------------------------------------------------------------- flattening

  const ZERO: Double := Finite(0.0)

  /** The conversion of an `i64` to a double rounds; the model keeps the exact value. */
  function ValueOf(value: Option<NumberValue>): Double {
    match value
    case Some(AsDouble(d)) => d
    case Some(AsInt(i)) => Finite(i as real)
    case None => ZERO
  }

  function NumberFlat(metric: Metric, data: MetricData, p: NumberPoint): FlatPoint {
    FlatPoint(metric.(data := Some(data)), p.time, ValueOf(p.value), 0, AttributesToJson(p.attributes))
  }

  function HistogramFlat(metric: Metric, data: MetricData, p: HistogramPoint): FlatPoint {
    FlatPoint(metric.(data := Some(data)), p.time, if p.sum.Some? then p.sum.value else ZERO, p.count, AttributesToJson(p.attributes))
  }

  /** `flatten_metric`. */
  function FlattenMetric(metric: Metric): seq<FlatPoint> {
    match metric.data
    case None => []
    case Some(Gauge(ps)) =>
      seq(|ps|, i requires 0 <= i < |ps| => NumberFlat(metric, Gauge([ps[i]]), ps[i]))
    case Some(Sum(ps, t, m)) =>
      seq(|ps|, i requires 0 <= i < |ps| => NumberFlat(metric, Sum([ps[i]], t, m), ps[i]))
    case Some(Histogram(ps, t)) =>
      seq(|ps|, i requires 0 <= i < |ps| => HistogramFlat(metric, Histogram([ps[i]], t), ps[i]))
    case Some(ExponentialHistogram(ps, t)) =>
      seq(|ps|, i requires 0 <= i < |ps| => HistogramFlat(metric, ExponentialHistogram([ps[i]], t), ps[i]))
    case Some(SummaryData(ps)) =>
      seq(|ps|, i requires 0 <= i < |ps| =>
        FlatPoint(metric.(data := Some(SummaryData([ps[i]]))), ps[i].time, ps[i].sum, ps[i].count, AttributesToJson(ps[i].attributes)))
  }

  /** A data point of any kind. */
  datatype Point = NumberP(n: NumberPoint) | HistogramP(h: HistogramPoint) | SummaryP(s: SummaryPoint)

  /** The kind of a metric, as stored. */
  predicate KindOf(metric: Metric, kind: string) {
    match metric.data
    case None => false
    case Some(Gauge(_)) => kind == "gauge"
    case Some(Sum(_, _, _)) => kind == "sum"
    case Some(Histogram(_, _)) => kind == "histogram"
    case Some(ExponentialHistogram(_, _)) => kind == "exponential_histogram"
    case Some(SummaryData(_)) => kind == "summary"
  }

  /** The metric without its points: name, description, unit, kind, temporality, monotonicity. */
  function Shell(metric: Metric): Metric {
    match metric.data
    case None => metric
    case Some(Gauge(_)) => metric.(data := Some(Gauge([])))
    case Some(Sum(_, t, m)) => metric.(data := Some(Sum([], t, m)))
    case Some(Histogram(_, t)) => metric.(data := Some(Histogram([], t)))
    case Some(ExponentialHistogram(_, t)) => metric.(data := Some(ExponentialHistogram([], t)))
    case Some(SummaryData(_)) => metric.(data := Some(SummaryData([])))
  }

  function Points(metric: Metric): seq<Point> {
    match metric.data
    case None => []
    case Some(Gauge(ps)) => seq(|ps|, i requires 0 <= i < |ps| => NumberP(ps[i]))
    case Some(Sum(ps, _, _)) => seq(|ps|, i requires 0 <= i < |ps| => NumberP(ps[i]))
    case Some(Histogram(ps, _)) => seq(|ps|, i requires 0 <= i < |ps| => HistogramP(ps[i]))
    case Some(ExponentialHistogram(ps, _)) => seq(|ps|, i requires 0 <= i < |ps| => HistogramP(ps[i]))
    case Some(SummaryData(ps)) => seq(|ps|, i requires 0 <= i < |ps| => SummaryP(ps[i]))
  }

  function PointTime(p: Point): nat {
    match p case NumberP(n) => n.time case HistogramP(h) => h.time case SummaryP(s) => s.time
  }

  function PointAttributes(p: Point): seq<KeyValue> {
    match p case NumberP(n) => n.attributes case HistogramP(h) => h.attributes case SummaryP(s) => s.attributes
  }

  /** Numbers report no count. */
  function PointCount(p: Point): nat {
    match p case NumberP(_) => 0 case HistogramP(h) => h.count case SummaryP(s) => s.count
  }

  /** A number itself, or a sum; zero where nothing was reported. */
  function PointValue(p: Point): Double {
    match p
    case NumberP(n) => ValueOf(n.value)
    case HistogramP(h) => if h.sum.None? then ZERO else h.sum.value
    case SummaryP(s) => s.sum
  }

  /** A metric is its shell and its points: taking it apart loses nothing. */
  lemma ShellAndPoints(a: Metric, b: Metric)
    requires Shell(a) == Shell(b) && Points(a) == Points(b)
    ensures a == b
  {
    match a.data
    case None =>
    case Some(Gauge(_)) => SameNumbers(a.data.value.numbers, b.data.value.numbers, Points(a));
    case Some(Sum(_, _, _)) => SameNumbers(a.data.value.numbers, b.data.value.numbers, Points(a));
    case Some(Histogram(_, _)) => SameHistograms(a.data.value.histograms, b.data.value.histograms, Points(a));
    case Some(ExponentialHistogram(_, _)) => SameHistograms(a.data.value.histograms, b.data.value.histograms, Points(a));
    case Some(SummaryData(_)) =>
      forall i | 0 <= i < |Points(a)| ensures a.data.value.summaries[i] == b.data.value.summaries[i] {
        assert Points(a)[i] == Points(b)[i];
      }
      assert a.data.value.summaries == b.data.value.summaries;
  }

  lemma SameNumbers(a: seq<NumberPoint>, b: seq<NumberPoint>, points: seq<Point>)
    requires |a| == |b| == |points| && forall i :: 0 <= i < |points| ==> points[i] == NumberP(a[i]) == NumberP(b[i])
    ensures a == b
  {
    forall i | 0 <= i < |a| ensures a[i] == b[i] { assert points[i] == NumberP(a[i]); }
  }

  lemma SameHistograms(a: seq<HistogramPoint>, b: seq<HistogramPoint>, points: seq<Point>)
    requires |a| == |b| == |points| && forall i :: 0 <= i < |points| ==> points[i] == HistogramP(a[i]) == HistogramP(b[i])
    ensures a == b
  {
    forall i | 0 <= i < |a| ensures a[i] == b[i] { assert points[i] == HistogramP(a[i]); }
  }

  /** The `i`-th flat point is the metric with just its `i`-th point, indexed by that point's time and attributes. */
  lemma FlattenSplits(metric: Metric)
    ensures |FlattenMetric(metric)| == |Points(metric)|
    ensures forall i :: 0 <= i < |Points(metric)| ==>
      var flat := FlattenMetric(metric)[i];
      && Shell(flat.metric) == Shell(metric) && Points(flat.metric) == [Points(metric)[i]]
      && flat.time == PointTime(Points(metric)[i]) && flat.value == PointValue(Points(metric)[i]) && flat.count == PointCount(Points(metric)[i])
      && flat.attributes == AttributesToJson(PointAttributes(Points(metric)[i]))
      && flat.metric.data.Some?
  {
  }

  // ---------------------------------------------------------------- rows

  function MetricType(metric: Metric): Option<string> {
    match metric.data
    case None => None
    case Some(Gauge(_)) => Some("gauge")
    case Some(Sum(_, _, _)) => Some("sum")
    case Some(Histogram(_, _)) => Some("histogram")
    case Some(ExponentialHistogram(_, _)) => Some("exponential_histogram")
    case Some(SummaryData(_)) => Some("summary")
  }

  function MetricRowOf(leaf: Leaf<Metric>, flat: FlatPoint): Result<MetricRow, MetricError> {
    if I64_MAX < flat.time then Err(TimeTooLarge)
    else if I64_MAX < flat.count then Err(CountTooLarge)
    else
      match MetricType(flat.metric)
      case None => Err(NoData)
      case Some(metricType) =>
        Ok(MetricRow(flat.metric.name, flat.metric.description, flat.metric.unit, metricType, Spans.ServiceName(leaf.ResourceAttributes()),
                     flat.time, flat.value, flat.count, flat.attributes, AttributesToJson(leaf.ResourceAttributes()),
                     Singleton(leaf.(item := flat.metric))))
  }

  /** The points of an export, each as the leaf it is stored under. */
  function FlatLeaves(leaf: Leaf<Metric>): (ls: seq<Leaf<Metric>>)
    ensures |ls| == |FlattenMetric(leaf.item)|
  {
    var flats := FlattenMetric(leaf.item);
    seq(|flats|, i requires 0 <= i < |flats| => leaf.(item := flats[i].metric))
  }

  function AllFlatLeaves(leaves: seq<Leaf<Metric>>): seq<Leaf<Metric>> {
    FlatMap(leaves, FlatLeaves)
  }

  /** One data point with everything it was reported under. */
  datatype PointLeaf = PointLeaf(resource: Option<Resource>, resourceSchema: string, scope: Option<Scope>, scopeSchema: string,
                                 shell: Metric, point: Point)

  function LeafPoints(leaf: Leaf<Metric>): (ps: seq<PointLeaf>)
    ensures |ps| == |Points(leaf.item)|
  {
    var ps := Points(leaf.item);
    seq(|ps|, i requires 0 <= i < |ps| =>
      PointLeaf(leaf.resource, leaf.resourceSchema, leaf.scope, leaf.scopeSchema, Shell(leaf.item), ps[i]))
  }

  function PointLeaves(leaves: seq<Leaf<Metric>>): seq<PointLeaf> {
    FlatMap(leaves, LeafPoints)
  }

  lemma FlatLeafPoint(leaf: Leaf<Metric>, i: nat)
    requires i < |FlatLeaves(leaf)|
    ensures i < |LeafPoints(leaf)| && LeafPoints(FlatLeaves(leaf)[i]) == [LeafPoints(leaf)[i]]
  {
    FlattenSplits(leaf.item);
  }

  /** Flattening keeps every point with its descriptor and place, in order. */
  lemma {:induction false} FlatteningKeepsPoints(leaves: seq<Leaf<Metric>>)
    ensures PointLeaves(AllFlatLeaves(leaves)) == PointLeaves(leaves)
  {
    if leaves == [] {
    } else {
      var front, last := leaves[..|leaves| - 1], leaves[|leaves| - 1];
      FlatteningKeepsPoints(front);
      FlatMapAppend(AllFlatLeaves(front), FlatLeaves(last), LeafPoints);
      FlatLeavesPoints(last);
    }
  }

  /** The flat leaves of a metric carry its points. */
  lemma FlatLeavesPoints(leaf: Leaf<Metric>)
    ensures PointLeaves(FlatLeaves(leaf)) == LeafPoints(leaf)
  {
    FlattenSplits(leaf.item);
    forall i | 0 <= i < |FlatLeaves(leaf)| ensures LeafPoints(FlatLeaves(leaf)[i]) == [LeafPoints(leaf)[i]] {
      FlatLeafPoint(leaf, i);
    }
    FlatMapSingletons(FlatLeaves(leaf), LeafPoints, LeafPoints(leaf));
  }

  /**
   Flatten, store, stream: the points of an export, each with its resource, scope, schema URLs and
   descriptor, come back exactly as they went in when the stored payloads are streamed.
   */
  lemma MetricRoundTrip(data: Message<Metric>, chunks: seq<Message<Metric>>)
    requires Merged(chunks) == Merged(Streaming.Payloads(AllFlatLeaves(Leaves(data))))
    ensures PointLeaves(Leaves(Merged(chunks))) == PointLeaves(Leaves(data))
  {
    MergeInvertsSplit(AllFlatLeaves(Leaves(data)));
    FlatteningKeepsPoints(Leaves(data));
  }

  // ---------------------------------------------------------------- the write

  /** The rows of a metric's first `n` points, or the first failure. */
  function RowsOfPoints(leaf: Leaf<Metric>, n: nat): (r: Result<seq<MetricRow>, MetricError>)
    requires n <= |FlattenMetric(leaf.item)|
    ensures r.Ok? ==> |r.value| == n && forall i :: 0 <= i < n ==> MetricRowOf(leaf, FlattenMetric(leaf.item)[i]) == Ok(r.value[i])
  {
    if n == 0 then Ok([])
    else
      match RowsOfPoints(leaf, n - 1)
      case Err(e) => Err(e)
      case Ok(rows) =>
        match MetricRowOf(leaf, FlattenMetric(leaf.item)[n - 1])
        case Err(e) => Err(e)
        case Ok(row) => Ok(rows + [row])
  }

  function RowsOfLeaf(leaf: Leaf<Metric>): Result<seq<MetricRow>, MetricError> {
    RowsOfPoints(leaf, |FlattenMetric(leaf.item)|)
  }

  /** The rows of an export, or the first failure. */
  function MetricRows(leaves: seq<Leaf<Metric>>): Result<seq<MetricRow>, MetricError> {
    Traverse(leaves, RowsOfLeaf)
  }

  lemma {:induction false} PointFailureStays(leaf: Leaf<Metric>, i: nat, n: nat)
    requires i <= n <= |FlattenMetric(leaf.item)| && RowsOfPoints(leaf, i).Err?
    ensures RowsOfPoints(leaf, n) == RowsOfPoints(leaf, i)
  {
    if i == n {
    } else {
      PointFailureStays(leaf, i, n - 1);
    }
  }

  /** A point whose time and count PostgreSQL can hold. */
  predicate Storable(flat: FlatPoint) {
    flat.time <= I64_MAX && flat.count <= I64_MAX
  }

  predicate AllStorable(leaf: Leaf<Metric>) {
    forall i :: 0 <= i < |FlattenMetric(leaf.item)| ==> Storable(FlattenMetric(leaf.item)[i])
  }

  function PayloadsOf(rows: seq<MetricRow>): seq<Message<Metric>> {
    seq(|rows|, i requires 0 <= i < |rows| => rows[i].payload)
  }

  /** A flattened point fails only for its numbers: the "no data" error is never reached. */
  lemma FlatPointHasData(leaf: Leaf<Metric>, i: nat)
    requires i < |FlattenMetric(leaf.item)|
    ensures var flat := FlattenMetric(leaf.item)[i];
            && (MetricRowOf(leaf, flat).Ok? <==> Storable(flat))
            && MetricRowOf(leaf, flat) != Err(NoData)
            && (MetricRowOf(leaf, flat).Ok? ==> MetricRowOf(leaf, flat).value.payload == Singleton(FlatLeaves(leaf)[i]))
  {
    FlattenSplits(leaf.item);
  }

  lemma {:induction false} PointRowsSpec(leaf: Leaf<Metric>, n: nat)
    requires n <= |FlattenMetric(leaf.item)|
    ensures RowsOfPoints(leaf, n).Ok? <==> forall i :: 0 <= i < n ==> Storable(FlattenMetric(leaf.item)[i])
    ensures RowsOfPoints(leaf, n) != Err(NoData)
  {
    if n == 0 {
    } else {
      PointRowsSpec(leaf, n - 1);
      FlatPointHasData(leaf, n - 1);
    }
  }

  lemma LeafPayloads(leaf: Leaf<Metric>)
    requires RowsOfLeaf(leaf).Ok?
    ensures PayloadsOf(RowsOfLeaf(leaf).value) == Streaming.Payloads(FlatLeaves(leaf))
  {
    forall i | 0 <= i < |FlattenMetric(leaf.item)|
      ensures RowsOfLeaf(leaf).value[i].payload == Singleton(FlatLeaves(leaf)[i])
    {
      FlatPointHasData(leaf, i);
    }
  }

  lemma LeafRowsStorable(leaf: Leaf<Metric>)
    ensures RowsOfLeaf(leaf).Ok? <==> AllStorable(leaf)
    ensures RowsOfLeaf(leaf) != Err(NoData)
  {
    PointRowsSpec(leaf, |FlattenMetric(leaf.item)|);
  }

  /** An export is storable exactly when every point's time and count fit BIGINT; it never fails for want of data. */
  lemma MetricRowsStorable(leaves: seq<Leaf<Metric>>)
    ensures MetricRows(leaves).Ok? <==> forall k :: 0 <= k < |leaves| ==> AllStorable(leaves[k])
    ensures MetricRows(leaves) != Err(NoData)
  {
    TraverseOk(leaves, RowsOfLeaf);
    forall k | 0 <= k < |leaves|
      ensures RowsOfLeaf(leaves[k]).Ok? <==> AllStorable(leaves[k])
      ensures RowsOfLeaf(leaves[k]) != Err(NoData)
    {
      LeafRowsStorable(leaves[k]);
    }
  }

  lemma PayloadsConcat(a: seq<MetricRow>, b: seq<MetricRow>, x: seq<Leaf<Metric>>, y: seq<Leaf<Metric>>)
    requires PayloadsOf(a) == Streaming.Payloads(x) && PayloadsOf(b) == Streaming.Payloads(y)
    ensures PayloadsOf(a + b) == Streaming.Payloads(x + y)
  {
    assert |PayloadsOf(a)| == |Streaming.Payloads(x)| && |PayloadsOf(b)| == |Streaming.Payloads(y)|;
    assert PayloadsOf(a + b) == PayloadsOf(a) + PayloadsOf(b);
  }

  /** The rows hold the singleton payloads of the flattened points, in order. */
  lemma {:induction false} MetricRowsPayloads(leaves: seq<Leaf<Metric>>)
    requires MetricRows(leaves).Ok?
    ensures PayloadsOf(MetricRows(leaves).value) == Streaming.Payloads(AllFlatLeaves(leaves))
  {
    if leaves == [] {
    } else {
      var front, last := leaves[..|leaves| - 1], leaves[|leaves| - 1];
      MetricRowsPayloads(front);
      LeafPayloads(last);
      PayloadsConcat(MetricRows(front).value, RowsOfLeaf(last).value, AllFlatLeaves(front), FlatLeaves(last));
    }
  }

  // ---------------------------------------------------------------- what a stored row says

  /** The row can be derived again from its own payload: every column agrees with the point stored. */
  predicate Rebuildable(row: MetricRow) {
    |Leaves(row.payload)| == 1
    && var leaf := Leaves(row.payload)[0];
       |FlattenMetric(leaf.item)| == 1 && MetricRowOf(leaf, FlattenMetric(leaf.item)[0]) == Ok(row)
  }

  /** Flattening a flattened metric changes nothing. */
  lemma FlattenAgain(metric: Metric, i: nat)
    requires i < |FlattenMetric(metric)|
    ensures FlattenMetric(FlattenMetric(metric)[i].metric) == [FlattenMetric(metric)[i]]
  {
  }

  lemma FlatRowRebuildable(leaf: Leaf<Metric>, i: nat)
    requires i < |FlattenMetric(leaf.item)| && MetricRowOf(leaf, FlattenMetric(leaf.item)[i]).Ok?
    ensures Rebuildable(MetricRowOf(leaf, FlattenMetric(leaf.item)[i]).value)
  {
    var flat := FlattenMetric(leaf.item)[i];
    FlattenAgain(leaf.item, i);
    SingletonLeaves(leaf.(item := flat.metric));
  }

  ghost predicate AllRebuildable(rows: seq<MetricRow>) {
    forall i :: 0 <= i < |rows| ==> Rebuildable(rows[i])
  }

  /** What `write_metrics` stores can be derived again from its payload. */
  lemma {:induction false} WrittenRebuildable(leaves: seq<Leaf<Metric>>)
    requires MetricRows(leaves).Ok?
    ensures AllRebuildable(MetricRows(leaves).value)
  {
    if leaves == [] {
    } else {
      var front, last := leaves[..|leaves| - 1], leaves[|leaves| - 1];
      WrittenRebuildable(front);
      forall i | 0 <= i < |RowsOfLeaf(last).value| ensures Rebuildable(RowsOfLeaf(last).value[i]) {
        FlatRowRebuildable(last, i);
      }
    }
  }

  method CollectRows(leaves: seq<Leaf<Metric>>) returns (r: Result<seq<MetricRow>, MetricError>)
    ensures r == MetricRows(leaves)
  {
    var rows: seq<MetricRow> := [];
    for k := 0 to |leaves|
      invariant MetricRows(leaves[..k]) == Ok(rows)
    {
      assert leaves[..k + 1][..k] == leaves[..k];
      var more := CollectPoints(leaves[k]);
      if more.Err? {
        TraverseFailureStays(leaves, RowsOfLeaf, k + 1);
        return more;
      }
      rows := rows + more.value;
    }
    assert leaves[..|leaves|] == leaves;
    return Ok(rows);
  }

  method CollectPoints(leaf: Leaf<Metric>) returns (r: Result<seq<MetricRow>, MetricError>)
    ensures r == RowsOfLeaf(leaf)
  {
    var flats := FlattenMetric(leaf.item);
    var rows: seq<MetricRow> := [];
    for i := 0 to |flats|
      invariant RowsOfPoints(leaf, i) == Ok(rows)
    {
      var row := MetricRowOf(leaf, flats[i]);
      if row.Err? {
        PointFailureStays(leaf, i + 1, |flats|);
        return Err(row.error);
      }
      rows := rows + [row.value];
    }
    return Ok(rows);
  }

  class MetricStore {
    var rows: seq<MetricRow>

    ghost predicate Valid()
      reads this
    {
      AllRebuildable(rows)
    }

    constructor ()
      ensures Valid() && rows == []
    {
      rows := [];
    }

    /** `write_metrics`: all rows of the export are appended in order, or none; a text with a NUL is refused, and nothing else. */
    method WriteMetrics(data: Message<Metric>) returns (r: Result<nat, MetricError>)
      requires Valid()
      modifies this
      ensures Valid()
      ensures match MetricRows(Leaves(data))
              case Ok(added) =>
                if AnyNul(added) then r == Err(NulText) && rows == old(rows)
                else r == Ok(|added|) && rows == old(rows) + added
              case Err(e) => r == Err(e) && rows == old(rows)
    {
      var collected := CollectRows(Leaves(data));
      if collected.Err? {
        return Err(collected.error);
      }
      var added := collected.value;
      if added == [] {
        return Ok(0);
      }
      WrittenRebuildable(Leaves(data));
      var inserted := InsertChunks(rows, added);
      if inserted.Err? {
        return Err(inserted.error);
      }
      rows := inserted.value;
      return Ok(|added|);
    }
  }

  const METRIC_COLUMNS: nat := 11

  predicate AnyNul(rows: seq<MetricRow>) {
    exists i :: 0 <= i < |rows| && rows[i].HasNulText()
  }

  /** One multi-row insert; the table has no key and no CHECK. */
  function ExecuteInsert(table: seq<MetricRow>, rows: seq<MetricRow>): Result<seq<MetricRow>, MetricError> {
    if rows == [] || Spans.MAX_BIND_PARAMETERS < METRIC_COLUMNS * |rows| then Err(StatementRefused)
    else if AnyNul(rows) then Err(NulText)
    else Ok(table + rows)
  }

  /** The transaction: multi-row inserts of at most `INSERT_CHUNK_ROWS` rows each, all of them or none. */
  method InsertChunks(table: seq<MetricRow>, added: seq<MetricRow>) returns (r: Result<seq<MetricRow>, MetricError>)
    ensures r == if AnyNul(added) then Err(NulText) else Ok(table + added)
  {
    var tx := table;
    var i := 0;
    while i < |added|
      invariant 0 <= i <= |added| && tx == table + added[..i]
      invariant forall k :: 0 <= k < i ==> !added[k].HasNulText()
    {
      var next := Min(i + Spans.INSERT_CHUNK_ROWS, |added|);
      var chunk := added[i..next];
      assert forall k :: 0 <= k < |chunk| ==> chunk[k] == added[i + k];
      var inserted := ExecuteInsert(tx, chunk);
      if inserted.Err? {
        return inserted;
      }
      assert forall k :: i <= k < next ==> added[k] == chunk[k - i];
      assert added[..next] == added[..i] + chunk;
      tx := inserted.value;
      i := next;
    }
    assert added[..|added|] == added;
    return Ok(tx);
  }
}
