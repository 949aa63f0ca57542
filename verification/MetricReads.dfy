/**
 Reading metrics back: what a query streams are the points that exporters sent, each once, in time
 order, and all of them points the query asks for.
 */
module MetricReads {
  import opened Common
  import opened Telemetry
  import opened JsonAttributes
  import Spans
  import S = Streaming
  import opened Metrics
  import opened Sampling
  import Q = MetricQueries
  import opened MetricSampling
  import opened SeriesSpelling

  type Stored = Q.MetricPoint<S.Message<Metric>>

  // ---------------------------------------------------------------- the stored points

  /** The record in a row's payload. */
  function RowLeaf(row: MetricRow): (leaf: Leaf<Metric>)
    requires Rebuildable(row)
    ensures row.payload == Singleton(leaf)
  {
    var leaf := Leaves(row.payload)[0];
    FlattenSplits(leaf.item);
    FlattenAgain(leaf.item, 0);
    OnlyPoint(leaf);
    leaf
  }

  /** A metric of one point is its own flattening. */
  lemma OnlyPoint(leaf: Leaf<Metric>)
    requires |FlattenMetric(leaf.item)| == 1
    ensures FlattenMetric(leaf.item)[0].metric == leaf.item && |LeafPoints(leaf)| == 1
  {
    FlattenSplits(leaf.item);
    match leaf.item.data
    case Some(Gauge(ps)) => assert ps == [ps[0]];
    case Some(Sum(ps, _, _)) => assert ps == [ps[0]];
    case Some(Histogram(ps, _)) => assert ps == [ps[0]];
    case Some(ExponentialHistogram(ps, _)) => assert ps == [ps[0]];
    case Some(SummaryData(ps)) => assert ps == [ps[0]];
  }

  /** The point in a row's payload, with everything it was reported under. */
  function RowPoint(row: MetricRow): PointLeaf
    requires Rebuildable(row)
  {
    OnlyPoint(RowLeaf(row));
    LeafPoints(RowLeaf(row))[0]
  }

  function RowPoints(rows: seq<MetricRow>): (ps: seq<PointLeaf>)
    requires AllRebuildable(rows)
    ensures |ps| == |rows|
  {
    seq(|rows|, i requires 0 <= i < |rows| => RowPoint(rows[i]))
  }

  /** The service a record is counted under: its resource's last `service.name`, if a string. */
  function PointService(p: PointLeaf): string {
    Spans.ServiceName(PointResource(p))
  }

  function PointResource(p: PointLeaf): seq<KeyValue> {
    if p.resource.Some? then p.resource.value.attributes else []
  }

  /** The value of a number as reported; of other points their sum; zero where nothing was reported. */
  predicate ReportedValue(p: Point, value: Double) {
    match p
    case NumberP(n) =>
      if n.value.None? then value == Finite(0.0)
      else if n.value.value.AsInt? then value == Finite(n.value.value.i as real)
      else value == n.value.value.d
    case HistogramP(h) => if h.sum.None? then value == Finite(0.0) else value == h.sum.value
    case SummaryP(s) => value == s.sum
  }

  /** The columns are those of the stored point, its metric and its resource. */
  lemma RowColumns(row: MetricRow)
    requires Rebuildable(row)
    ensures var p := RowPoint(row);
            && row.name == p.shell.name && row.description == p.shell.description && row.unit == p.shell.unit
            && KindOf(p.shell, row.metricType)
            && row.time == PointTime(p.point) && ReportedValue(p.point, row.value) && row.count == PointCount(p.point)
            && row.attributes == AttributesToJson(PointAttributes(p.point))
            && row.resourceAttributes == AttributesToJson(PointResource(p)) && row.service == PointService(p)
  {
    FlattenSplits(RowLeaf(row).item);
    OnlyPoint(RowLeaf(row));
  }

  /** A row is refused for a text exactly if its name, description, unit, service, or some attribute text has a NUL. */
  lemma RefusedIff(row: MetricRow)
    ensures row.HasNulText() <==>
      || '\0' in row.name || '\0' in row.description || '\0' in row.unit || '\0' in row.service
      || exists t {:trigger '\0' in t} :: '\0' in t && (TextIn(t, row.attributes) || TextIn(t, row.resourceAttributes))
  {
    NulSomewhere(row.attributes);
    NulSomewhere(row.resourceAttributes);
  }

  function RowLeaves(rows: seq<MetricRow>): (leaves: seq<Leaf<Metric>>)
    requires AllRebuildable(rows)
    ensures |leaves| == |rows|
  {
    seq(|rows|, i requires 0 <= i < |rows| => RowLeaf(rows[i]))
  }

  lemma RowLeavesPoints(rows: seq<MetricRow>)
    requires AllRebuildable(rows)
    ensures PointLeaves(RowLeaves(rows)) == RowPoints(rows)
  {
    forall i | 0 <= i < |rows| ensures LeafPoints(RowLeaves(rows)[i]) == [RowPoints(rows)[i]] { OnlyPoint(RowLeaf(rows[i])); }
    FlatMapSingletons(RowLeaves(rows), LeafPoints, RowPoints(rows));
  }

  /** Streaming the payloads of any stored rows yields their points, in that order. */
  lemma StreamedRows(rows: seq<MetricRow>, chunks: seq<S.Message<Metric>>)
    requires AllRebuildable(rows)
    requires S.Merged(chunks) == S.Merged(PayloadsOf(rows))
    ensures PointLeaves(Leaves(S.Merged(chunks))) == RowPoints(rows)
  {
    var leaves := RowLeaves(rows);
    assert PayloadsOf(rows) == S.Payloads(leaves);
    S.MergeInvertsSplit(leaves);
    RowLeavesPoints(rows);
  }

  /** The rows an export leaves behind hold its points, in order. */
  lemma WrittenPoints(data: S.Message<Metric>)
    requires MetricRows(Leaves(data)).Ok?
    ensures AllRebuildable(MetricRows(Leaves(data)).value)
    ensures RowPoints(MetricRows(Leaves(data)).value) == PointLeaves(Leaves(data))
  {
    var rows := MetricRows(Leaves(data)).value;
    WrittenRebuildable(Leaves(data));
    MetricRowsPayloads(Leaves(data));
    MetricRoundTrip(data, PayloadsOf(rows));
    StreamedRows(rows, PayloadsOf(rows));
  }

  /** Written, queried and streamed, the points of an export at any chosen positions are what went in. */
  lemma WriteThenStream(data: S.Message<Metric>, ks: seq<nat>, chunks: seq<S.Message<Metric>>)
    requires MetricRows(Leaves(data)).Ok?
    requires forall j :: 0 <= j < |ks| ==> ks[j] < |MetricRows(Leaves(data)).value|
    requires S.Merged(chunks) == S.Merged(PayloadsOf(Pick(MetricRows(Leaves(data)).value, ks)))
    ensures |PointLeaves(Leaves(data))| == |MetricRows(Leaves(data)).value|
    ensures PointLeaves(Leaves(S.Merged(chunks))) == Pick(PointLeaves(Leaves(data)), ks)
  {
    var rows := MetricRows(Leaves(data)).value;
    WrittenPoints(data);
    StreamedRows(Pick(rows, ks), chunks);
  }

  // ---------------------------------------------------------------- the query

  /** A stored row as the query sees it; `spell` is the cast of the attributes to text. */
  function StoredPoint(row: MetricRow, spell: MetricRow -> string): Stored {
    Q.MetricPoint(row.name, row.service, row.attributes, spell(row), row.time, row.payload)
  }

  function Table(rows: seq<MetricRow>, spell: MetricRow -> string): (table: seq<Stored>)
    ensures |table| == |rows|
  {
    seq(|rows|, i requires 0 <= i < |rows| => StoredPoint(rows[i], spell))
  }

  /**
   `find_metrics`: validate, run the statement (whose answer is `fetched`), thin. `rank` is the
   window numbering the database chose. The answer spreads each series evenly over the budget, or
   returns all fetched rows of a series they spell in several ways.
   */
  method FindMetrics<P>(query: Q.MetricQuery, table: seq<Q.MetricPoint<P>>, ghost rank: seq<int>, fetched: seq<nat>)
    returns (r: Result<seq<P>, Q.QueryError>)
    requires Answers(query, table, rank, fetched)
    ensures r.Ok? <==> Valid(query)
    ensures r.Err? ==> r.error == if query.metricName == "" then Q.NameRequired else Q.TimestampOutOfRange
    ensures r.Ok? ==> r.value == Q.Payloads(Q.Answer(Fetched(query, table, fetched), Q.RequestedPoints(query)))
    ensures r.Ok? && TextFixesValue(Asked(query, table)) ==>
      forall s {:trigger Q.SeriesRows(Fetched(query, table, fetched), s)} :: TrimmedTo(Fetched(query, table, fetched), Q.RequestedPoints(query), s)
  {
    if query.metricName == "" {
      return Err(Q.NameRequired);
    }
    var p := Q.RequestedPoints(query);
    var lo := Q.Bound(query.timeMin);
    if lo.Err? {
      return Err(lo.error);
    }
    var hi := Q.Bound(query.timeMax);
    if hi.Err? {
      return Err(hi.error);
    }
    var rows := Pick(Q.Matching(table, query, lo.value, hi.value), fetched);
    AnswerPayloads(rows, p);
    if TextFixesValue(Asked(query, table)) {
      forall s ensures TrimmedTo(rows, p, s) {
        FetchedAtMost(Asked(query, table), rank, p, Q.MAX_METRIC_ROWS, fetched, s);
        AnswerSeries(rows, p, s);
      }
    }
    var payloads := Q.Thin(Q.TextRows(rows), p);
    return Ok(payloads);
  }

  /** What the answer holds of a series. */
  ghost predicate TrimmedTo<P>(rows: seq<Q.MetricPoint<P>>, p: nat, s: Q.SeriesKey) {
    Q.SeriesRows(Q.Answer(rows, p), s) == Downsample(Q.SeriesRows(rows, s), Budget(rows, p, s))
  }

  /** A request with a name and bounds that fit the column. */
  predicate Valid(query: Q.MetricQuery) {
    && query.metricName != ""
    && (query.timeMin.Some? ==> Q.Representable(query.timeMin.value))
    && (query.timeMax.Some? ==> Q.Representable(query.timeMax.value))
  }

  function Asked<P>(query: Q.MetricQuery, table: seq<Q.MetricPoint<P>>): seq<Q.MetricPoint<P>>
    requires Valid(query)
  {
    Q.Matching(table, query, Q.Bound(query.timeMin).value, Q.Bound(query.timeMax).value)
  }

  /** The statement, if it is run at all, may number the rows by `rank` and answer with `fetched`, a hundred thousand rows at most. */
  ghost predicate Answers<P>(query: Q.MetricQuery, table: seq<Q.MetricPoint<P>>, rank: seq<int>, fetched: seq<nat>) {
    Valid(query) ==>
      && Q.IsRowNumber(Asked(query, table), rank)
      && Q.IsFetch(Asked(query, table), rank, Q.RequestedPoints(query), 100_000, fetched)
  }

  function Fetched<P>(query: Q.MetricQuery, table: seq<Q.MetricPoint<P>>, fetched: seq<nat>): seq<Q.MetricPoint<P>>
    requires Valid(query)
    requires forall j :: 0 <= j < |fetched| ==> fetched[j] < |Asked(query, table)|
  {
    Pick(Asked(query, table), fetched)
  }

  /** A query whose series are within budget, all together within the limit, returns every point it asks for. */
  lemma AnswersAll<P>(query: Q.MetricQuery, table: seq<Q.MetricPoint<P>>, rank: seq<int>, fetched: seq<nat>)
    requires Valid(query) && Answers(query, table, rank, fetched)
    requires TextFixesValue(Asked(query, table))
    requires |Asked(query, table)| <= Q.MAX_METRIC_ROWS
    requires forall s :: Q.SeriesCount(Asked(query, table), s) <= Q.RequestedPoints(query)
    ensures NoDuplicates(fetched) && forall i {:trigger i in fetched} :: i in fetched <==> 0 <= i < |Asked(query, table)|
    ensures Q.Answer(Fetched(query, table, fetched), Q.RequestedPoints(query)) == Pick(Asked(query, table), fetched)
  {
    var p := Q.RequestedPoints(query);
    NothingThinned(Asked(query, table), rank, p, Q.MAX_METRIC_ROWS, fetched);
  }

  // ---------------------------------------------------------------- end to end

  /** The point is one the query asks for: of the metric, of the service if one is named, inside the window. */
  predicate AskedFor(query: Q.MetricQuery, p: PointLeaf) {
    && p.shell.name == query.metricName
    && (query.serviceName == "" || PointService(p) == query.serviceName)
    && Q.InWindow(query, PointTime(p.point))
  }

  /** The series a point belongs to. */
  function PointSeries(p: PointLeaf): Q.SeriesKey {
    Q.SeriesKey(PointService(p), AttributesToJson(PointAttributes(p.point)))
  }

  /** The stored rows in answer to a query are exactly those whose points it asks for. */
  lemma SelectedIffAskedFor(query: Q.MetricQuery, row: MetricRow, spell: MetricRow -> string)
    requires Valid(query) && Rebuildable(row)
    ensures Q.Selects(query, Q.Bound(query.timeMin).value, Q.Bound(query.timeMax).value, StoredPoint(row, spell))
       <==> AskedFor(query, RowPoint(row))
    ensures StoredPoint(row, spell).Series() == PointSeries(RowPoint(row))
  {
    Q.SelectsIff(query, StoredPoint(row, spell));
    RowColumns(row);
  }

  /** Which stored rows an answer consists of. */
  lemma AnsweredRows(query: Q.MetricQuery, rows: seq<MetricRow>, spell: MetricRow -> string, rank: seq<int>, fetched: seq<nat>)
    returns (ks: seq<nat>)
    requires Valid(query) && Answers(query, Table(rows, spell), rank, fetched)
    ensures NoDuplicates(ks) && forall j :: 0 <= j < |ks| ==> ks[j] < |rows|
    ensures Q.Answer(Fetched(query, Table(rows, spell), fetched), Q.RequestedPoints(query)) == Pick(Table(rows, spell), ks)
    ensures forall j :: 0 <= j < |ks| ==>
      Q.Selects(query, Q.Bound(query.timeMin).value, Q.Bound(query.timeMax).value, Table(rows, spell)[ks[j]])
    ensures forall i, j :: 0 <= i < j < |ks| ==> rows[ks[i]].time <= rows[ks[j]].time
  {
    var table, p := Table(rows, spell), Q.RequestedPoints(query);
    var lo, hi := Q.Bound(query.timeMin).value, Q.Bound(query.timeMax).value;
    var ms := Q.MatchingPositions(table, query, lo, hi);
    var points := Asked(query, table);
    var masked := Q.MaskPositions(Q.KeepMask(Q.TextRows(Pick(points, fetched)), p));
    var chosen := Pick(fetched, masked);
    ks := Pick(ms, chosen);
    PickPick(points, fetched, masked);
    PickPick(table, ms, chosen);
    PickNoDuplicates(fetched, masked);
    PickNoDuplicates(ms, chosen);
    forall i, j | 0 <= i < j < |ks| ensures rows[ks[i]].time <= rows[ks[j]].time {
      assert points[fetched[masked[i]]].time <= points[fetched[masked[j]]].time;
    }
  }

  /** The points of rows the query selects, in time order, are asked for and in time order. */
  lemma SelectedPoints(query: Q.MetricQuery, rows: seq<MetricRow>, spell: MetricRow -> string, ks: seq<nat>)
    requires Valid(query) && AllRebuildable(rows) && forall j :: 0 <= j < |ks| ==> ks[j] < |rows|
    requires forall j :: 0 <= j < |ks| ==>
      Q.Selects(query, Q.Bound(query.timeMin).value, Q.Bound(query.timeMax).value, Table(rows, spell)[ks[j]])
    requires forall i, j :: 0 <= i < j < |ks| ==> rows[ks[i]].time <= rows[ks[j]].time
    ensures AreAskedFor(query, Pick(RowPoints(rows), ks))
  {
    forall j | 0 <= j < |ks|
      ensures AskedFor(query, RowPoint(rows[ks[j]])) && PointTime(RowPoint(rows[ks[j]]).point) == rows[ks[j]].time
    {
      SelectedIffAskedFor(query, rows[ks[j]], spell);
      RowColumns(rows[ks[j]]);
    }
  }

  /** Points the query asks for, in time order. */
  ghost predicate AreAskedFor(query: Q.MetricQuery, points: seq<PointLeaf>) {
    && (forall j :: 0 <= j < |points| ==> AskedFor(query, points[j]))
    && (forall i, j :: 0 <= i < j < |points| ==> PointTime(points[i].point) <= PointTime(points[j].point))
  }

  /** Streaming the payloads of an answer. */
  lemma StreamedAnswer(query: Q.MetricQuery, rows: seq<MetricRow>, spell: MetricRow -> string, rank: seq<int>, fetched: seq<nat>,
                       chunks: seq<S.Message<Metric>>)
    returns (ks: seq<nat>)
    requires AllRebuildable(rows) && Valid(query) && Answers(query, Table(rows, spell), rank, fetched)
    requires S.Merged(chunks)
          == S.Merged(Q.Payloads(Q.Answer(Fetched(query, Table(rows, spell), fetched), Q.RequestedPoints(query))))
    ensures NoDuplicates(ks) && forall j :: 0 <= j < |ks| ==> ks[j] < |rows|
    ensures PointLeaves(Leaves(S.Merged(chunks))) == Pick(RowPoints(rows), ks)
    ensures AreAskedFor(query, Pick(RowPoints(rows), ks))
    ensures TextFixesValue(Table(rows, spell)) ==>
      forall s :: |PlacesOf(Pick(RowPoints(rows), ks), s)| <= Q.RequestedPoints(query) + 1
  {
    ks := AnsweredRows(query, rows, spell, rank, fetched);
    StreamedPick(rows, spell, ks, chunks);
    if TextFixesValue(Table(rows, spell)) {
      forall s { BudgetKept(query, rows, spell, rank, fetched, ks, s); }
    }
    SelectedPoints(query, rows, spell, ks);
  }

  lemma StreamedPick(rows: seq<MetricRow>, spell: MetricRow -> string, ks: seq<nat>, chunks: seq<S.Message<Metric>>)
    requires AllRebuildable(rows) && forall j :: 0 <= j < |ks| ==> ks[j] < |rows|
    requires S.Merged(chunks) == S.Merged(Q.Payloads(Pick(Table(rows, spell), ks)))
    ensures PointLeaves(Leaves(S.Merged(chunks))) == Pick(RowPoints(rows), ks)
  {
    var picked := Pick(rows, ks);
    assert Q.Payloads(Pick(Table(rows, spell), ks)) == PayloadsOf(picked);
    StreamedRows(picked, chunks);
    assert RowPoints(picked) == Pick(RowPoints(rows), ks);
  }

  lemma {:induction false} MembersOf(xs: seq<nat>, members: set<nat>)
    requires forall x :: x in members ==> x in xs
    ensures |members| <= |xs|
  {
    if xs == [] {
      assert members == {};
    } else {
      var front, last := xs[..|xs| - 1], xs[|xs| - 1];
      assert xs == front + [last];
      MembersOf(front, members - {last});
      assert members <= members - {last} + {last};
    }
  }

  /** The places in a list of points that belong to one series. */
  ghost function PlacesOf(points: seq<PointLeaf>, s: Q.SeriesKey): set<nat> {
    set j: nat | j < |points| && PointSeries(points[j]) == s
  }

  /** Of each series at most one point over the budget comes back. */
  lemma BudgetKept(query: Q.MetricQuery, rows: seq<MetricRow>, spell: MetricRow -> string, rank: seq<int>, fetched: seq<nat>, ks: seq<nat>, s: Q.SeriesKey)
    requires AllRebuildable(rows) && Valid(query) && Answers(query, Table(rows, spell), rank, fetched)
    requires TextFixesValue(Table(rows, spell)) && forall j :: 0 <= j < |ks| ==> ks[j] < |rows|
    requires Q.Answer(Fetched(query, Table(rows, spell), fetched), Q.RequestedPoints(query)) == Pick(Table(rows, spell), ks)
    ensures |PlacesOf(Pick(RowPoints(rows), ks), s)| <= Q.RequestedPoints(query) + 1
  {
    var table, p := Table(rows, spell), Q.RequestedPoints(query);
    var answer := Pick(table, ks);
    ReturnedOverBudgetIff(Asked(query, table), rank, p, Q.MAX_METRIC_ROWS, fetched, s);
    forall j | j in PlacesOf(Pick(RowPoints(rows), ks), s) ensures j in Q.SeriesPositions(answer, s) {
      SelectedIffAskedFor(query, rows[ks[j]], spell);
    }
    MembersOf(Q.SeriesPositions(answer, s), PlacesOf(Pick(RowPoints(rows), ks), s));
  }

  /**
   From exporters to the caller: what a metric query streams are points that were written, each
   stored row at most once, untouched, in time order, and every one asked for by the query, of each
   series at most one over the budget.
   */
  method QueryMetrics(query: Q.MetricQuery, store: MetricStore, spell: MetricRow -> string, ghost rank: seq<int>, fetched: seq<nat>)
    returns (r: Result<seq<S.Message<Metric>>, Q.QueryError>, ghost ks: seq<nat>)
    requires store.Valid() && Answers(query, Table(store.rows, spell), rank, fetched)
    ensures r.Ok? <==> Valid(query)
    ensures r.Ok? ==>
      && NoDuplicates(ks) && (forall j :: 0 <= j < |ks| ==> ks[j] < |store.rows|)
      && var got := PointLeaves(Leaves(S.Merged(r.value)));
         && got == Pick(RowPoints(store.rows), ks) && AreAskedFor(query, got)
         && (TextFixesValue(Table(store.rows, spell)) ==>
               forall s :: |PlacesOf(got, s)| <= (if query.maxPoints <= 0 then 500 else query.maxPoints) + 1)
  {
    var found := FindMetrics(query, Table(store.rows, spell), rank, fetched);
    ks := [];
    if found.Err? {
      return Err(found.error), ks;
    }
    var chunks := S.StreamChunks(found.value);
    ks := StreamedAnswer(query, store.rows, spell, rank, fetched, chunks);
    return Ok(chunks), ks;
  }
}
