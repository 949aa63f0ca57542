/**
 The read path of one metric: filter, SQL sampling per series, fetch in time order under a row
 limit, in-process trimming of each series, and the shared keep mask that restores order.
 */
module MetricQueries {
  import opened Common
  import opened Sampling
  import opened Timestamps
  import opened JsonAttributes

  const MAX_METRIC_ROWS: nat := 100_000
  const DEFAULT_MAX_POINTS: nat := 500

  /** The columns `find_metrics` reads: the attributes as a JSONB value, and as the text it casts to. */
  datatype MetricPoint<P> = MetricPoint(name: string, service: string, attributes: Json, spelling: string, time: int, payload: P) {
    function Series(): SeriesKey { SeriesKey(service, attributes) }

    /** The row as the process sees it: its attributes are their text. */
    function AsText(): MetricPoint<P> { this.(attributes := String(spelling)) }
  }

  /** One series of a metric. SQL partitions by the JSONB value, the process by its text. */
  datatype SeriesKey = SeriesKey(service: string, attributes: Json)

  datatype MetricQuery = MetricQuery(metricName: string, serviceName: string,
                                     timeMin: Option<Timestamp>, timeMax: Option<Timestamp>, maxPoints: int)

  datatype QueryError = NameRequired | TimestampOutOfRange

  /** The caller's budget, or five hundred points. */
  function RequestedPoints(query: MetricQuery): (p: nat)
    ensures 0 < p
    ensures 0 < query.maxPoints ==> p == query.maxPoints
    ensures query.maxPoints <= 0 ==> p == 500
  {
    if query.maxPoints <= 0 then DEFAULT_MAX_POINTS else query.maxPoints
  }

  // ---------------------------------------------------------------- WHERE

  /** An optional bound: absent, present, or present and unrepresentable. */
  function Bound(ts: Option<Timestamp>): Result<Option<int>, QueryError> {
    match ts
    case None => Ok(None)
    case Some(t) =>
      match TimestampToNanos(t)
      case Some(v) => Ok(Some(v))
      case None => Err(TimestampOutOfRange)
  }

  predicate Selects<P>(query: MetricQuery, lo: Option<int>, hi: Option<int>, point: MetricPoint<P>) {
    && point.name == query.metricName
    && (query.serviceName == "" || point.service == query.serviceName)
    && (lo.Some? ==> lo.value <= point.time)
    && (hi.Some? ==> point.time < hi.value)
  }

  /** A time the caller asks for: at or after the one bound, before the other. */
  predicate InWindow(query: MetricQuery, time: int) {
    && (query.timeMin.Some? ==> query.timeMin.value.seconds * 1_000_000_000 + query.timeMin.value.nanos <= time)
    && (query.timeMax.Some? ==> time < query.timeMax.value.seconds * 1_000_000_000 + query.timeMax.value.nanos)
  }

  /** A timestamp whose nanoseconds, and those of its seconds alone, fit 64 bits. */
  predicate Representable(ts: Timestamp) {
    && -0x8000_0000_0000_0000 <= ts.seconds * 1_000_000_000 <= 0x7FFF_FFFF_FFFF_FFFF
    && -0x8000_0000_0000_0000 <= ts.seconds * 1_000_000_000 + ts.nanos <= 0x7FFF_FFFF_FFFF_FFFF
  }

  /** The statement runs exactly when the bounds given are representable. */
  lemma BoundOkIff(ts: Option<Timestamp>)
    ensures Bound(ts).Ok? <==> ts.None? || Representable(ts.value)
  {
  }

  /** The WHERE clause selects exactly the points of the metric, of the service if one is named, inside the window. */
  lemma SelectsIff<P>(query: MetricQuery, point: MetricPoint<P>)
    requires Bound(query.timeMin).Ok? && Bound(query.timeMax).Ok?
    ensures Selects(query, Bound(query.timeMin).value, Bound(query.timeMax).value, point) <==>
      && point.name == query.metricName
      && (query.serviceName == "" || point.service == query.serviceName)
      && InWindow(query, point.time)
  {
  }

  /** The positions of the rows the WHERE clause selects. */
  function MatchingPositions<P>(table: seq<MetricPoint<P>>, query: MetricQuery, lo: Option<int>, hi: Option<int>): (ms: seq<nat>)
    ensures StrictlyIncreasing(ms)
    ensures forall i {:trigger i in ms} :: i in ms <==> 0 <= i < |table| && Selects(query, lo, hi, table[i])
    ensures forall j :: 0 <= j < |ms| ==> ms[j] < |table| && Selects(query, lo, hi, table[ms[j]])
  {
    var ms := Positions(|table|, (i: nat) => i < |table| && Selects(query, lo, hi, table[i]));
    assert forall j :: 0 <= j < |ms| ==> ms[j] in ms;
    ms
  }

  function Matching<P>(table: seq<MetricPoint<P>>, query: MetricQuery, lo: Option<int>, hi: Option<int>): seq<MetricPoint<P>> {
    Pick(table, MatchingPositions(table, query, lo, hi))
  }

  lemma MatchingGrow<P>(table: seq<MetricPoint<P>>, n: nat, query: MetricQuery, lo: Option<int>, hi: Option<int>)
    requires n < |table|
    ensures Matching(table[..n + 1], query, lo, hi)
         == Matching(table[..n], query, lo, hi) + (if Selects(query, lo, hi, table[n]) then [table[n]] else [])
  {
    var before := MatchingPositions(table[..n], query, lo, hi);
    assert forall j :: 0 <= j < |before| ==> before[j] in before;
    IncreasingUnique(MatchingPositions(table[..n + 1], query, lo, hi),
                     before + (if Selects(query, lo, hi, table[n]) then [n] else []));
  }

  /** Adjacent time windows split the points between them: none is dropped or answered twice. */
  lemma {:induction false} WindowsPartition<P>(table: seq<MetricPoint<P>>, query: MetricQuery, lo: Option<int>, mid: int, hi: Option<int>)
    requires (lo.Some? ==> lo.value <= mid) && (hi.Some? ==> mid <= hi.value)
    ensures multiset(Matching(table, query, lo, hi))
         == multiset(Matching(table, query, lo, Some(mid))) + multiset(Matching(table, query, Some(mid), hi))
  {
    if table == [] {
    } else {
      var n := |table| - 1;
      assert table[..n + 1] == table;
      MatchingGrow(table, n, query, lo, hi);
      MatchingGrow(table, n, query, lo, Some(mid));
      MatchingGrow(table, n, query, Some(mid), hi);
      WindowsPartition(table[..n], query, lo, mid, hi);
    }
  }

  // ---------------------------------------------------------------- series

  /** The positions of one series' rows. */
  function SeriesPositions<P>(rows: seq<MetricPoint<P>>, s: SeriesKey): (ps: seq<nat>)
    ensures StrictlyIncreasing(ps)
    ensures forall i {:trigger i in ps} :: i in ps <==> 0 <= i < |rows| && rows[i].Series() == s
    ensures forall j :: 0 <= j < |ps| ==> ps[j] < |rows| && rows[ps[j]].Series() == s
  {
    var ps := Positions(|rows|, (i: nat) => i < |rows| && rows[i].Series() == s);
    assert forall j :: 0 <= j < |ps| ==> ps[j] in ps;
    ps
  }

  /** The rows of one series, in table order. */
  function SeriesRows<P>(rows: seq<MetricPoint<P>>, s: SeriesKey): seq<MetricPoint<P>> {
    Pick(rows, SeriesPositions(rows, s))
  }

  function SeriesCount<P>(rows: seq<MetricPoint<P>>, s: SeriesKey): nat {
    |SeriesPositions(rows, s)|
  }

  function SeriesOf<P>(rows: seq<MetricPoint<P>>): set<SeriesKey> {
    set i | 0 <= i < |rows| :: rows[i].Series()
  }

  // ---------------------------------------------------------------- what the statement may return

  /**
   `rank` is a possible `row_number() OVER (PARTITION BY series ORDER BY time)`: within a series
   the ranks are distinct, start at 1, end at the series' size, and follow time. Equal times may be
   ranked either way.
   */
  ghost predicate IsRowNumber<P>(points: seq<MetricPoint<P>>, rank: seq<int>) {
    && |rank| == |points|
    && (forall i :: 0 <= i < |points| ==> 1 <= rank[i] <= SeriesCount(points, points[i].Series()))
    && (forall i, j :: 0 <= i < |points| && 0 <= j < |points| && i != j && points[i].Series() == points[j].Series()
          ==> rank[i] != rank[j] && (rank[i] < rank[j] ==> points[i].time <= points[j].time))
  }

  ghost predicate Survivor<P>(points: seq<MetricPoint<P>>, rank: seq<int>, p: nat, i: int)
    requires |rank| == |points| && 0 < p
  {
    0 <= i < |points| && Survives(rank[i], SeriesCount(points, points[i].Series()), p)
  }

  /**
   `fetched` is a possible answer to the sampling statement: surviving rows, each once, in time
   order with ties either way, and under `LIMIT limit` the earliest ones.
   */
  ghost predicate IsFetch<P>(points: seq<MetricPoint<P>>, rank: seq<int>, p: nat, limit: nat, fetched: seq<nat>)
    requires |rank| == |points| && 0 < p
  {
    && NoDuplicates(fetched)
    && |fetched| <= limit
    && (forall j :: 0 <= j < |fetched| ==> Survivor(points, rank, p, fetched[j]))
    && (forall i, j :: 0 <= i < j < |fetched| ==> points[fetched[i]].time <= points[fetched[j]].time)
    && (forall i :: Survivor(points, rank, p, i) && i !in fetched ==>
          |fetched| == limit && forall j :: 0 <= j < |fetched| ==> points[fetched[j]].time <= points[i].time)
  }

  // ---------------------------------------------------------------- the in-process stage

  /** Whether the in-process pass keeps the row at position `i`. */
  predicate Kept<P>(rows: seq<MetricPoint<P>>, p: nat, i: nat) {
    i < |rows| && i in Downsample(SeriesPositions(rows, rows[i].Series()), p)
  }

  function KeepMask<P>(rows: seq<MetricPoint<P>>, p: nat): (mask: seq<bool>)
    ensures |mask| == |rows|
  {
    seq(|rows|, (i: nat) => Kept(rows, p, i))
  }

  /** The positions where a mask is set, in order. */
  function MaskPositions(mask: seq<bool>): (ps: seq<nat>)
    ensures StrictlyIncreasing(ps)
    ensures forall i {:trigger i in ps} :: i in ps <==> 0 <= i < |mask| && mask[i]
    ensures forall j :: 0 <= j < |ps| ==> ps[j] < |mask|
  {
    var ps := Positions(|mask|, (i: nat) => i < |mask| && mask[i]);
    assert forall j :: 0 <= j < |ps| ==> ps[j] in ps;
    ps
  }

  /** Rows thinned series by series. */
  function Thinned<P>(rows: seq<MetricPoint<P>>, p: nat): seq<MetricPoint<P>> {
    Pick(rows, MaskPositions(KeepMask(rows, p)))
  }

  /** The fetched rows as the process groups them. */
  function TextRows<P>(rows: seq<MetricPoint<P>>): (texts: seq<MetricPoint<P>>)
    ensures |texts| == |rows|
  {
    seq(|rows|, i requires 0 <= i < |rows| => rows[i].AsText())
  }

  /** The rows that reach the caller: the process groups by text. */
  function Answer<P>(rows: seq<MetricPoint<P>>, p: nat): seq<MetricPoint<P>> {
    Pick(rows, MaskPositions(KeepMask(TextRows(rows), p)))
  }

  function Payloads<P>(rows: seq<MetricPoint<P>>): seq<P> {
    seq(|rows|, i requires 0 <= i < |rows| => rows[i].payload)
  }

  lemma DownsampleSubset<T>(xs: seq<T>, p: nat)
    ensures forall x :: x in Downsample(xs, p) ==> x in xs
  {
    DownsampleInRange(|xs|, p);
  }

  lemma DownsampleIncreasing(xs: seq<int>, p: nat)
    requires StrictlyIncreasing(xs)
    ensures StrictlyIncreasing(Downsample(xs, p))
  {
    DownsampleInRange(|xs|, p);
  }

  /** Appending a row appends its position to its own series and leaves the others alone. */
  lemma SeriesPositionsGrow<P>(rows: seq<MetricPoint<P>>, index: nat, s: SeriesKey)
    requires index < |rows|
    ensures SeriesPositions(rows[..index + 1], s)
         == SeriesPositions(rows[..index], s) + (if rows[index].Series() == s then [index] else [])
  {
    var before := SeriesPositions(rows[..index], s);
    assert forall j :: 0 <= j < |before| ==> before[j] in before;
    IncreasingUnique(SeriesPositions(rows[..index + 1], s),
                     before + (if rows[index].Series() == s then [index] else []));
  }

  lemma MaskPositionsGrow(mask: seq<bool>, n: nat)
    requires n < |mask|
    ensures MaskPositions(mask[..n + 1]) == MaskPositions(mask[..n]) + (if mask[n] then [n] else [])
  {
    var before := MaskPositions(mask[..n]);
    assert forall j :: 0 <= j < |before| ==> before[j] in before;
    IncreasingUnique(MaskPositions(mask[..n + 1]), before + (if mask[n] then [n] else []));
  }

  /** The `series` map of `rows`: every key present, with its positions in row order. */
  ghost predicate IsGrouping<P>(series: map<SeriesKey, seq<nat>>, rows: seq<MetricPoint<P>>) {
    && series.Keys == SeriesOf(rows)
    && forall s :: s in series ==> series[s] == SeriesPositions(rows, s)
  }

  method GroupSeries<P>(rows: seq<MetricPoint<P>>) returns (series: map<SeriesKey, seq<nat>>)
    ensures IsGrouping(series, rows)
  {
    series := map[];
    for index := 0 to |rows|
      invariant IsGrouping(series, rows[..index])
    {
      var key := rows[index].Series();
      GroupStep(series, rows, index);
      series := series[key := (if key in series then series[key] else []) + [index]];
    }
    assert rows[..|rows|] == rows;
  }

  lemma GroupStep<P>(series: map<SeriesKey, seq<nat>>, rows: seq<MetricPoint<P>>, index: nat)
    requires index < |rows| && IsGrouping(series, rows[..index])
    ensures var key := rows[index].Series();
            IsGrouping(series[key := (if key in series then series[key] else []) + [index]], rows[..index + 1])
  {
    var key := rows[index].Series();
    forall s { SeriesPositionsGrow(rows, index, s); }
    SeriesOfGrow(rows, index);
    if key !in series { NoPositions(rows[..index], key); }
  }

  lemma NoPositions<P>(rows: seq<MetricPoint<P>>, s: SeriesKey)
    requires s !in SeriesOf(rows)
    ensures SeriesPositions(rows, s) == []
  {
    var ps := SeriesPositions(rows, s);
    if |ps| != 0 { SeriesPresent(rows, ps[0]); }
  }

  lemma SeriesPresent<P>(rows: seq<MetricPoint<P>>, i: nat)
    requires i < |rows|
    ensures rows[i].Series() in SeriesOf(rows)
  {
  }

  lemma SeriesOfGrow<P>(rows: seq<MetricPoint<P>>, index: nat)
    requires index < |rows|
    ensures SeriesOf(rows[..index + 1]) == SeriesOf(rows[..index]) + {rows[index].Series()}
  {
    var next := rows[..index + 1];
    forall s | s in SeriesOf(rows[..index]) + {rows[index].Series()} ensures s in SeriesOf(next) {
      if s == rows[index].Series() {
        assert next[index].Series() == s;
      } else {
        var i :| 0 <= i < index && rows[..index][i].Series() == s;
        assert next[i].Series() == s;
      }
    }
  }

  method MarkAll(keep: array<bool>, chosen: seq<nat>)
    requires forall j :: 0 <= j < |chosen| ==> chosen[j] < keep.Length
    modifies keep
    ensures forall i :: 0 <= i < keep.Length ==> keep[i] == (old(keep[i]) || i in chosen)
  {
    for j := 0 to |chosen|
      invariant forall i :: 0 <= i < keep.Length ==> keep[i] == (old(keep[i]) || i in chosen[..j])
    {
      keep[chosen[j]] := true;
      assert chosen[..j + 1] == chosen[..j] + [chosen[j]];
    }
    assert chosen[..|chosen|] == chosen;
  }

  /** Some series among `done` has position `i` in its even spread. */
  ghost predicate Marked(series: map<SeriesKey, seq<nat>>, done: set<SeriesKey>, p: nat, i: nat) {
    exists s :: s in done && s in series && i in Downsample(series[s], p)
  }

  /** The shared mask: whatever the order in which the map gives up its series, the same bits end up set. */
  method MarkKept(n: nat, series: map<SeriesKey, seq<nat>>, p: nat) returns (keep: array<bool>)
    requires forall s, j :: s in series && 0 <= j < |series[s]| ==> series[s][j] < n
    ensures fresh(keep) && keep.Length == n
    ensures forall i :: 0 <= i < n ==> keep[i] == Marked(series, series.Keys, p, i)
  {
    keep := new bool[n](_ => false);
    var pending := series.Keys;
    while pending != {}
      invariant pending <= series.Keys
      invariant forall i :: 0 <= i < n ==> keep[i] == Marked(series, series.Keys - pending, p, i)
    {
      var s :| s in pending;
      var chosen := Downsample(series[s], p);
      DownsampleSubset(series[s], p);
      assert forall j :: 0 <= j < |chosen| ==> chosen[j] in chosen;
      MarkAll(keep, chosen);
      MarkedGrow(series, series.Keys - pending, s, p);
      assert series.Keys - pending + {s} == series.Keys - (pending - {s});
      pending := pending - {s};
    }
    assert series.Keys - pending == series.Keys;
  }

  lemma MarkedGrow(series: map<SeriesKey, seq<nat>>, done: set<SeriesKey>, s: SeriesKey, p: nat)
    requires s in series
    ensures forall i :: Marked(series, done + {s}, p, i) <==> Marked(series, done, p, i) || i in Downsample(series[s], p)
  {
    forall i: nat
      ensures Marked(series, done + {s}, p, i) <==> Marked(series, done, p, i) || i in Downsample(series[s], p)
    {
      if Marked(series, done, p, i) {
        var t :| t in done && t in series && i in Downsample(series[t], p);
        assert t in done + {s};
      }
      if i in Downsample(series[s], p) { assert s in done + {s}; }
    }
  }

  /** The mask computed from the grouping of `rows` is `Kept`. */
  lemma MarkedIsKept<P>(rows: seq<MetricPoint<P>>, series: map<SeriesKey, seq<nat>>, p: nat, i: nat)
    requires IsGrouping(series, rows) && i < |rows|
    ensures Marked(series, series.Keys, p, i) <==> Kept(rows, p, i)
  {
    var own := rows[i].Series();
    assert own in SeriesOf(rows) && series[own] == SeriesPositions(rows, own);
    if Marked(series, series.Keys, p, i) {
      var s :| s in series && i in Downsample(series[s], p);
      DownsampleSubset(series[s], p);
    }
  }

  /** `zip` with the mask and `filter_map`. */
  function Masked<P>(rows: seq<MetricPoint<P>>, mask: seq<bool>): seq<P>
    requires |rows| == |mask|
  {
    if rows == [] then []
    else
      var n := |rows| - 1;
      Masked(rows[..n], mask[..n]) + (if mask[n] then [rows[n].payload] else [])
  }

  /** Filtering by a mask yields the payloads at the mask's positions. */
  lemma {:induction false} MaskedIsPick<P>(rows: seq<MetricPoint<P>>, mask: seq<bool>)
    requires |mask| == |rows|
    ensures Masked(rows, mask) == Payloads(Pick(rows, MaskPositions(mask)))
  {
    if rows == [] {
    } else {
      var n := |rows| - 1;
      MaskedIsPick(rows[..n], mask[..n]);
      MaskPositionsGrow(mask, n);
      assert mask[..n + 1] == mask;
    }
  }

  method FilterByMask<P>(rows: seq<MetricPoint<P>>, keep: array<bool>) returns (payloads: seq<P>)
    requires keep.Length == |rows|
    ensures payloads == Masked(rows, keep[..])
  {
    payloads := [];
    for i := 0 to |rows|
      invariant payloads == Masked(rows[..i], keep[..i])
    {
      assert rows[..i + 1][..i] == rows[..i] && keep[..i + 1][..i] == keep[..i];
      if keep[i] {
        payloads := payloads + [rows[i].payload];
      }
    }
    assert rows[..|rows|] == rows && keep[..] == keep[..|rows|];
  }

  /** `find_metrics` after the statement has run: group, mark, and filter the payloads by the mask. */
  method Thin<P>(rows: seq<MetricPoint<P>>, p: nat) returns (payloads: seq<P>)
    ensures payloads == Payloads(Thinned(rows, p))
  {
    var series := GroupSeries(rows);
    GroupingInRange(rows, series);
    var keep := MarkKept(|rows|, series, p);
    payloads := FilterByMask(rows, keep);
    MaskedIsPick(rows, keep[..]);
    MarkedIsKeepMask(rows, series, p, keep[..]);
  }

  lemma MarkedIsKeepMask<P>(rows: seq<MetricPoint<P>>, series: map<SeriesKey, seq<nat>>, p: nat, mask: seq<bool>)
    requires IsGrouping(series, rows) && |mask| == |rows|
    requires forall i :: 0 <= i < |rows| ==> mask[i] == Marked(series, series.Keys, p, i)
    ensures mask == KeepMask(rows, p)
  {
    forall i | 0 <= i < |rows| ensures mask[i] == KeepMask(rows, p)[i] {
      MarkedIsKept(rows, series, p, i);
    }
  }

  lemma GroupingInRange<P>(rows: seq<MetricPoint<P>>, series: map<SeriesKey, seq<nat>>)
    requires IsGrouping(series, rows)
    ensures forall s, j :: s in series && 0 <= j < |series[s]| ==> series[s][j] < |rows|
  {
  }
}
