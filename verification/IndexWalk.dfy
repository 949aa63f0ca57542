/**
 Loose index scans: recursive queries that step to the next greater value, compared with sorted
 DISTINCT, and the metric catalogue built from them.
 */
module IndexWalk {
  import opened Common

  /** A strict total order: the collation of the indexed column. */
  ghost predicate StrictTotalOrder<T(!new)>(lt: (T, T) -> bool) {
    && (forall x :: !lt(x, x))
    && (forall x, y, z :: lt(x, y) && lt(y, z) ==> lt(x, z))
    && (forall x, y :: x != y ==> lt(x, y) || lt(y, x))
  }

  ghost predicate Sorted<T>(xs: seq<T>, lt: (T, T) -> bool) {
    forall i, j :: 0 <= i < j < |xs| ==> lt(xs[i], xs[j])
  }

  /** `SELECT DISTINCT .. ORDER BY`: strictly increasing, with exactly the column's values. */
  ghost predicate IsSortedDistinct<T(!new)>(values: seq<T>, column: seq<T>, lt: (T, T) -> bool) {
    Sorted(values, lt) && forall x :: x in values <==> x in column
  }

  /** There is only one such list. */
  lemma {:induction false} SortedDistinctUnique<T(!new)>(a: seq<T>, b: seq<T>, column: seq<T>, lt: (T, T) -> bool)
    requires StrictTotalOrder(lt)
    requires IsSortedDistinct(a, column, lt) && IsSortedDistinct(b, column, lt)
    ensures a == b
  {
    if a != [] { assert a[0] in a; }
    if b != [] { assert b[0] in b; }
    if a == [] {
    } else {
      FirstIsLeast(a, lt, b[0]);
      FirstIsLeast(b, lt, a[0]);
      forall x ensures x in a[1..] <==> x in a && x != a[0] { TailMembers(a, lt, x); }
      forall x ensures x in b[1..] <==> x in b && x != b[0] { TailMembers(b, lt, x); }
      SortedDistinctUnique(a[1..], b[1..], a[1..], lt);
      assert a == [a[0]] + a[1..] && b == [b[0]] + b[1..];
    }
  }

  lemma FirstIsLeast<T(!new)>(xs: seq<T>, lt: (T, T) -> bool, x: T)
    requires Sorted(xs, lt) && x in xs
    ensures x == xs[0] || lt(xs[0], x)
  {
  }

  lemma TailMembers<T(!new)>(xs: seq<T>, lt: (T, T) -> bool, x: T)
    requires StrictTotalOrder(lt) && Sorted(xs, lt) && xs != []
    ensures x in xs[1..] <==> x in xs && x != xs[0]
  {
    if x in xs[1..] {
      var i :| 0 <= i < |xs| - 1 && xs[1..][i] == x;
      assert lt(xs[0], xs[i + 1]);
    }
  }

  // ---------------------------------------------------------------- one probe

  /** `WHERE c > after ORDER BY c LIMIT 1`, or without the condition: the least value beyond `after`. */
  function Probe<T(!new)>(column: seq<T>, after: Option<T>, lt: (T, T) -> bool): (hit: Option<T>)
    requires StrictTotalOrder(lt)
    ensures hit.Some? ==> hit.value in column && Beyond(hit.value, after, lt)
    ensures forall x :: x in column && Beyond(x, after, lt) ==> hit.Some? && !lt(x, hit.value)
  {
    if column == [] then None
    else
      var rest := Probe(column[1..], after, lt);
      if Beyond(column[0], after, lt) && (rest.None? || lt(column[0], rest.value)) then Some(column[0]) else rest
  }

  predicate Beyond<T>(x: T, after: Option<T>, lt: (T, T) -> bool) {
    after.None? || lt(after.value, x)
  }

  // ---------------------------------------------------------------- the scalar-subquery walk

  /**
   `distinct_indexed`: the recursive query, its working table holding the newest row. A scalar
   subquery yields NULL past the last value, so the walk ends on a NULL row, which the final
   selection drops. `values` counts one probe each, plus the one that found nothing.
   */
  method DistinctIndexed<T(!new,==)>(column: seq<T>, lt: (T, T) -> bool) returns (values: seq<T>, probes: nat)
    requires StrictTotalOrder(lt)
    ensures IsSortedDistinct(values, column, lt)
    ensures probes == |values| + 1
  {
    var first := Probe(column, None, lt);
    var working: seq<Option<T>> := if first.Some? then [first] else [];
    values, probes := [], 1;
    ghost var ahead := set x | x in column;
    while working != []
      invariant |working| <= 1
      invariant WalkState(column, lt, values, ahead)
      invariant working == [] || working[0].None? ==> ahead == {}
      invariant working != [] && working[0].Some? ==> IsLeast(working[0].value, ahead, lt)
      invariant probes == |values| + 1
      decreases |ahead|, |working|
    {
      var row := working[0];
      working := [];
      if row.Some? {
        WalkStep(column, lt, values, ahead, row.value);
        ahead := ahead - {row.value};
        values := values + [row.value];
        working := [Probe(column, row, lt)];
        probes := probes + 1;
      }
    }
  }

  /** `values` have been walked, in order; `ahead` are the column's remaining values, all greater. */
  ghost predicate WalkState<T(!new)>(column: seq<T>, lt: (T, T) -> bool, values: seq<T>, ahead: set<T>) {
    && Sorted(values, lt)
    && (forall x :: x in column <==> x in values || x in ahead)
    && (forall x, v :: x in ahead && v in values ==> lt(v, x))
  }

  ghost predicate IsLeast<T(!new)>(x: T, s: set<T>, lt: (T, T) -> bool) {
    x in s && forall y :: y in s ==> !lt(y, x)
  }

  /** Walking the least remaining value; the probe beyond it finds the next one. */
  lemma WalkStep<T(!new)>(column: seq<T>, lt: (T, T) -> bool, values: seq<T>, ahead: set<T>, v: T)
    requires StrictTotalOrder(lt) && WalkState(column, lt, values, ahead) && IsLeast(v, ahead, lt)
    ensures WalkState(column, lt, values + [v], ahead - {v})
    ensures match Probe(column, Some(v), lt)
            case None => ahead - {v} == {}
            case Some(w) => IsLeast(w, ahead - {v}, lt)
  {
    var rest := ahead - {v};
    forall i | 0 <= i < |values| ensures lt(values[i], v) { assert values[i] in values; }
    assert forall x :: x in values ==> lt(x, v);
    forall x ensures x in rest <==> x in column && lt(v, x) {
    }
    var hit := Probe(column, Some(v), lt);
    if hit.None? {
      assert forall x :: x in rest ==> x in column && Beyond(x, Some(v), lt);
    }
  }

  // ---------------------------------------------------------------- the lateral walk

  datatype SpanName = SpanName(service: string, operation: string, kind: string)

  datatype Operation = Operation(name: string, kind: string)

  predicate Candidate(span: SpanName, service: string, kind: string) {
    span.service == service && (kind == "" || span.kind == kind)
  }

  /** The operation names of the spans of one service and, if given, one kind. */
  function CandidateNames(spans: seq<SpanName>, service: string, kind: string): (names: seq<string>)
    ensures forall i :: 0 <= i < |spans| && Candidate(spans[i], service, kind) ==> spans[i].operation in names
    ensures forall n :: n in names ==> exists i :: 0 <= i < |spans| && Candidate(spans[i], service, kind) && spans[i].operation == n
  {
    if spans == [] then []
    else
      var rest := CandidateNames(spans[1..], service, kind);
      assert forall i :: 0 < i < |spans| ==> spans[i] == spans[1..][i - 1];
      if Candidate(spans[0], service, kind) then [spans[0].operation] + rest else rest
  }

  /** The row a probe lands on: some candidate with the least name beyond `after`; which one is the database's choice. */
  method ProbeOperation(spans: seq<SpanName>, service: string, kind: string, after: Option<string>, lt: (string, string) -> bool)
    returns (hit: Option<Operation>)
    requires StrictTotalOrder(lt)
    ensures var least := Probe(CandidateNames(spans, service, kind), after, lt);
            hit.Some? == least.Some? && (hit.Some? ==> hit.value.name == least.value && Stored(hit.value, spans, service, kind))
  {
    var least := Probe(CandidateNames(spans, service, kind), after, lt);
    if least.None? {
      return None;
    }
    var i :| 0 <= i < |spans| && Candidate(spans[i], service, kind) && spans[i].operation == least.value;
    return Some(Operation(spans[i].operation, spans[i].kind));
  }

  /** Some candidate span has this name and this kind. */
  predicate Stored(op: Operation, spans: seq<SpanName>, service: string, kind: string) {
    exists i :: 0 <= i < |spans| && Candidate(spans[i], service, kind) && op == Operation(spans[i].operation, spans[i].kind)
  }

  /** Some span of the service has this name and this kind. */
  predicate IsOperation(op: Operation, spans: seq<SpanName>, service: string) {
    exists k :: 0 <= k < |spans| && spans[k].service == service && spans[k].operation == op.name && spans[k].kind == op.kind
  }

  function Names(ops: seq<Operation>): seq<string> {
    seq(|ops|, i requires 0 <= i < |ops| => ops[i].name)
  }

  lemma NamesSnoc(ops: seq<Operation>, op: Operation)
    ensures Names(ops + [op]) == Names(ops) + [op.name]
  {
  }

  /**
   `operations`: the lateral form of the walk, ending when a probe has no row. Each name of a span of
   the service, and of the kind if one is asked for, once, in order, with a kind stored under it.
   */
  method Operations(spans: seq<SpanName>, service: string, kind: string, lt: (string, string) -> bool)
    returns (ops: seq<Operation>, probes: nat)
    requires StrictTotalOrder(lt)
    ensures IsSortedDistinct(Names(ops), CandidateNames(spans, service, kind), lt)
    ensures forall i :: 0 <= i < |ops| ==> Stored(ops[i], spans, service, kind)
    ensures AreOperations(ops, spans, service, kind)
    ensures probes == |ops| + 1
  {
    var column := CandidateNames(spans, service, kind);
    var first := ProbeOperation(spans, service, kind, None, lt);
    var working: seq<Operation> := if first.Some? then [first.value] else [];
    ops, probes := [], 1;
    ghost var ahead := set x | x in column;
    while working != []
      invariant |working| <= 1
      invariant WalkState(column, lt, Names(ops), ahead)
      invariant working == [] ==> ahead == {}
      invariant working != [] ==> IsLeast(working[0].name, ahead, lt) && Stored(working[0], spans, service, kind)
      invariant forall i :: 0 <= i < |ops| ==> Stored(ops[i], spans, service, kind)
      invariant probes == |ops| + 1
      decreases |ahead|
    {
      var row := working[0];
      WalkStep(column, lt, Names(ops), ahead, row.name);
      NamesSnoc(ops, row);
      ahead := ahead - {row.name};
      ops := ops + [row];
      var next := ProbeOperation(spans, service, kind, Some(row.name), lt);
      working := if next.Some? then [next.value] else [];
      probes := probes + 1;
    }
    ListedOperations(ops, spans, service, kind);
  }

  /** Every operation is one of the service, of the kind if one is asked for, and all names of such are there. */
  ghost predicate AreOperations(ops: seq<Operation>, spans: seq<SpanName>, service: string, kind: string) {
    && (forall i :: 0 <= i < |ops| ==> IsOperation(ops[i], spans, service) && (kind != "" ==> ops[i].kind == kind))
    && (forall k :: 0 <= k < |spans| && spans[k].service == service && (kind != "" ==> spans[k].kind == kind)
          ==> spans[k].operation in Names(ops))
  }

  lemma ListedOperations(ops: seq<Operation>, spans: seq<SpanName>, service: string, kind: string)
    requires forall i :: 0 <= i < |ops| ==> Stored(ops[i], spans, service, kind)
    requires forall n :: n in CandidateNames(spans, service, kind) ==> n in Names(ops)
    ensures AreOperations(ops, spans, service, kind)
  {
    forall i | 0 <= i < |ops| ensures IsOperation(ops[i], spans, service) && (kind != "" ==> ops[i].kind == kind) {
      assert Stored(ops[i], spans, service, kind);
    }
    forall k | 0 <= k < |spans| && spans[k].service == service && (kind != "" ==> spans[k].kind == kind)
      ensures spans[k].operation in Names(ops)
    {
      assert Candidate(spans[k], service, kind);
    }
  }

  // ---------------------------------------------------------------- the metric catalogue

  datatype PointHeader = PointHeader(name: string, service: string, time: int, descriptor: Descriptor)

  datatype Descriptor = Descriptor(description: string, unit: string, metricType: string)

  datatype MetricInfo = MetricInfo(name: string, descriptor: Descriptor, services: seq<string>)

  function ServicesOf(points: seq<PointHeader>, name: string): (services: seq<string>)
    ensures forall s :: s in services <==> exists i :: 0 <= i < |points| && points[i].name == name && points[i].service == s
  {
    if points == [] then []
    else
      var rest := ServicesOf(points[1..], name);
      assert forall i :: 0 < i < |points| ==> points[i] == points[1..][i - 1];
      if points[0].name == name then [points[0].service] + rest else rest
  }

  /** Point `i` is a newest point of the metric. */
  predicate Newest(points: seq<PointHeader>, name: string, i: int) {
    0 <= i < |points| && points[i].name == name
    && forall j :: 0 <= j < |points| && points[j].name == name ==> points[j].time <= points[i].time
  }

  lemma {:induction false} NewestExists(points: seq<PointHeader>, name: string, k: nat) returns (i: nat)
    requires k < |points| && points[k].name == name
    ensures Newest(points, name, i)
    decreases |points|
  {
    var n := |points| - 1;
    if exists m :: 0 <= m < n && points[m].name == name {
      var m :| 0 <= m < n && points[m].name == name;
      i := NewestExists(points[..n], name, m);
      if points[n].name == name && points[i].time <= points[n].time { i := n; }
    } else {
      i := n;
    }
  }

  predicate Reported(points: seq<PointHeader>, name: string) {
    exists i :: 0 <= i < |points| && points[i].name == name
  }

  /** A possible outcome of `metric_info`: a newest point's descriptor and the services, or no such metric. */
  ghost predicate IsInfo(points: seq<PointHeader>, name: string, lt: (string, string) -> bool, info: Option<MetricInfo>) {
    && (info.Some? <==> Reported(points, name))
    && (info.Some? ==>
          && info.value.name == name
          && (exists i :: Newest(points, name, i) && points[i].descriptor == info.value.descriptor)
          && IsSortedDistinct(info.value.services, ServicesOf(points, name), lt))
  }

  /** `metric_info`: the newest point's descriptor and the services reporting the metric; an unknown name fails. */
  method GetMetricInfo(points: seq<PointHeader>, name: string, lt: (string, string) -> bool) returns (info: Option<MetricInfo>)
    requires StrictTotalOrder(lt)
    ensures IsInfo(points, name, lt, info)
  {
    if k: nat :| k < |points| && points[k].name == name {
      ghost var witnessed := NewestExists(points, name, k);
      var i :| 0 <= i < |points| && Newest(points, name, i);
      var services, _ := DistinctIndexed(ServicesOf(points, name), lt);
      return Some(MetricInfo(name, points[i].descriptor, services));
    } else {
      return None;
    }
  }

  function Indices(n: nat): (s: set<nat>)
    ensures forall i :: i in s <==> 0 <= i < n
  {
    if n == 0 then {} else Indices(n - 1) + {n - 1}
  }

  /**
   `list_metrics`: one task per name, joined in whatever order they finish, each result put in its
   own slot. The outcome does not depend on the order, except for which failure is reported.
   */
  method ListMetrics<N, I, E>(names: seq<N>, lookup: N -> Result<I, E>) returns (r: Result<seq<I>, E>)
    ensures r.Ok? <==> forall i :: 0 <= i < |names| ==> lookup(names[i]).Ok?
    ensures r.Ok? ==> |r.value| == |names| && forall i :: 0 <= i < |names| ==> lookup(names[i]) == Ok(r.value[i])
    ensures r.Err? ==> exists i :: 0 <= i < |names| && lookup(names[i]) == Err(r.error)
  {
    var out := new Option<I>[|names|](_ => None);
    var running := Indices(|names|);
    while running != {}
      invariant running <= Indices(|names|)
      invariant forall i :: 0 <= i < |names| && i !in running ==> out[i].Some? && lookup(names[i]) == Ok(out[i].value)
    {
      var index :| index in running;
      running := running - {index};
      match lookup(names[index])
      case Err(e) => return Err(e);
      case Ok(info) => out[index] := Some(info);
    }
    var infos: seq<I> := [];
    for i := 0 to |names|
      invariant |infos| == i
      invariant forall j :: 0 <= j < i ==> lookup(names[j]) == Ok(infos[j])
    {
      if out[i].Some? {
        infos := infos + [out[i].value];
      }
    }
    return Ok(infos);
  }

  function NameColumn(points: seq<PointHeader>): (names: seq<string>)
    ensures |names| == |points|
  {
    seq(|points|, i requires 0 <= i < |points| => points[i].name)
  }

  function InfoNames(infos: seq<MetricInfo>): seq<string> {
    seq(|infos|, i requires 0 <= i < |infos| => infos[i].name)
  }

  datatype Missing = Missing(name: string)

  function Found(lookup: string -> Option<MetricInfo>): string -> Result<MetricInfo, Missing> {
    (name: string) => if lookup(name).Some? then Ok(lookup(name).value) else Err(Missing(name))
  }

  /**
   `list_metrics` composed: the names are walked on the points of one moment, and the lookup of each
   name sees those of a later moment of its own. It fails if and only if some metric has vanished
   when it is looked up, so never on one snapshot; otherwise every walked metric is described once,
   in order.
   */
  method Catalogue(walked: seq<PointHeader>, points: string -> seq<PointHeader>, lookup: string -> Option<MetricInfo>, lt: (string, string) -> bool)
    returns (r: Result<seq<MetricInfo>, Missing>)
    requires StrictTotalOrder(lt)
    requires forall name :: IsInfo(points(name), name, lt, lookup(name))
    ensures r.Ok? <==> forall k :: 0 <= k < |walked| ==> Reported(points(walked[k].name), walked[k].name)
    ensures (forall name :: points(name) == walked) ==> r.Ok?
    ensures r.Ok? ==> IsSortedDistinct(InfoNames(r.value), NameColumn(walked), lt)
    ensures r.Ok? ==> forall i :: 0 <= i < |r.value| ==> IsInfo(points(r.value[i].name), r.value[i].name, lt, Some(r.value[i]))
    ensures r.Err? ==> r.error.name in NameColumn(walked) && !Reported(points(r.error.name), r.error.name)
  {
    var names, _ := DistinctIndexed(NameColumn(walked), lt);
    r := ListMetrics(names, Found(lookup));
    assert forall i :: 0 <= i < |names| ==> names[i] in names;
    forall k | 0 <= k < |walked| ensures walked[k].name in names {
      assert NameColumn(walked)[k] == walked[k].name;
    }
    if r.Ok? {
      assert InfoNames(r.value) == names;
      forall k | 0 <= k < |walked| ensures Reported(points(walked[k].name), walked[k].name) {
        assert walked[k].name in names;
        var i :| 0 <= i < |names| && names[i] == walked[k].name;
        assert Found(lookup)(names[i]) == Ok(r.value[i]);
      }
    } else {
      var i :| 0 <= i < |names| && Found(lookup)(names[i]) == Err(r.error);
      assert names[i] in NameColumn(walked);
      var k :| 0 <= k < |walked| && NameColumn(walked)[k] == names[i];
      assert !Reported(points(walked[k].name), walked[k].name);
    }
  }
}
