/**
 Trace summaries: grouping spans by trace, summarising each group, and the composed query that
 finds traces by a filter and summarises them whole.
 */
module TraceSummaries {
  import opened Common
  import opened Telemetry

  type TraceId = seq<Byte>

  /** A stored span as the summaries see it. */
  datatype SpanView = SpanView(traceId: TraceId, spanId: seq<Byte>, parentSpanId: seq<Byte>,
                               service: string, operation: string, start: int, end: int, status: int)

  datatype ServiceCount = ServiceCount(spans: nat, errors: nat)

  datatype TraceSummary = TraceSummary(traceId: TraceId, rootService: string, rootOperation: string,
                                       minStart: nat, maxEnd: nat,
                                       spanCount: nat, errorCount: nat, orphanCount: nat,
                                       services: map<string, ServiceCount>)

  // ---------------------------------------------------------------- what is counted

  function IsError(): SpanView -> bool { (s: SpanView) => s.status == 2 }

  function IsRoot(): SpanView -> bool { (s: SpanView) => s.parentSpanId == [] }

  function SpanIds(spans: seq<SpanView>): set<seq<Byte>> {
    set i | 0 <= i < |spans| :: spans[i].spanId
  }

  function IsOrphan(ids: set<seq<Byte>>): SpanView -> bool { (s: SpanView) => s.parentSpanId != [] && s.parentSpanId !in ids }

  function HasParent(ids: set<seq<Byte>>): SpanView -> bool { (s: SpanView) => s.parentSpanId != [] && s.parentSpanId in ids }

  function OfService(name: string): SpanView -> bool { (s: SpanView) => s.service == name }

  function ErrorOfService(name: string): SpanView -> bool { (s: SpanView) => s.service == name && s.status == 2 }

  function OfTrace(id: TraceId): SpanView -> bool { (s: SpanView) => s.traceId == id }

  function ServicesIn(spans: seq<SpanView>): set<string> {
    set i | 0 <= i < |spans| :: spans[i].service
  }

  function ServiceCounts(spans: seq<SpanView>): map<string, ServiceCount> {
    map name | name in ServicesIn(spans) :: ServiceCount(Count(spans, OfService(name)), Count(spans, ErrorOfService(name)))
  }

  /** Smallest non-negative start, zero for no spans. */
  function MinStart(spans: seq<SpanView>): nat {
    if spans == [] then 0
    else
      var last := Max(spans[|spans| - 1].start, 0);
      if |spans| == 1 then last else Min(MinStart(spans[..|spans| - 1]), last)
  }

  function MaxEnd(spans: seq<SpanView>): nat {
    if spans == [] then 0 else Max(MaxEnd(spans[..|spans| - 1]), Max(spans[|spans| - 1].end, 0))
  }

  // ---------------------------------------------------------------- the stable sort

  ghost predicate SortedByStart(spans: seq<SpanView>) {
    forall i, j :: 0 <= i < j < |spans| ==> spans[i].start <= spans[j].start
  }

  /** Insert behind every span starting no later: a later arrival never overtakes an equal one. */
  function InsertByStart(spans: seq<SpanView>, x: SpanView): seq<SpanView> {
    if spans == [] || spans[|spans| - 1].start <= x.start then spans + [x]
    else InsertByStart(spans[..|spans| - 1], x) + [spans[|spans| - 1]]
  }

  /** `sort_by_key(start)`. */
  function SortByStart(spans: seq<SpanView>): seq<SpanView> {
    if spans == [] then [] else InsertByStart(SortByStart(spans[..|spans| - 1]), spans[|spans| - 1])
  }

  lemma {:induction false} InsertPermutes(spans: seq<SpanView>, x: SpanView)
    ensures multiset(InsertByStart(spans, x)) == multiset(spans) + multiset{x}
  {
    if spans == [] || spans[|spans| - 1].start <= x.start {
    } else {
      InsertPermutes(spans[..|spans| - 1], x);
      assert spans == spans[..|spans| - 1] + [spans[|spans| - 1]];
    }
  }

  lemma {:induction false} InsertSorts(spans: seq<SpanView>, x: SpanView, bound: int)
    requires SortedByStart(spans) && x.start <= bound && forall i :: 0 <= i < |spans| ==> spans[i].start <= bound
    ensures SortedByStart(InsertByStart(spans, x))
    ensures forall i :: 0 <= i < |InsertByStart(spans, x)| ==> InsertByStart(spans, x)[i].start <= bound
  {
    if spans == [] || spans[|spans| - 1].start <= x.start {
    } else {
      InsertSorts(spans[..|spans| - 1], x, spans[|spans| - 1].start);
    }
  }

  lemma {:induction false} SortPermutes(spans: seq<SpanView>)
    ensures multiset(SortByStart(spans)) == multiset(spans)
  {
    if spans == [] {
    } else {
      var front, last := spans[..|spans| - 1], spans[|spans| - 1];
      assert spans == front + [last];
      SortPermutes(front);
      InsertPermutes(SortByStart(front), last);
    }
  }

  lemma {:induction false} SortSorts(spans: seq<SpanView>)
    ensures SortedByStart(SortByStart(spans))
  {
    if spans == [] {
    } else {
      var last, sorted := spans[|spans| - 1], SortByStart(spans[..|spans| - 1]);
      SortSorts(spans[..|spans| - 1]);
      InsertSorts(sorted, last, if sorted == [] then last.start else Max(sorted[|sorted| - 1].start, last.start));
    }
  }

  /** The sort returns the same spans in order of start. */
  lemma SortSpec(spans: seq<SpanView>)
    ensures multiset(SortByStart(spans)) == multiset(spans) && SortedByStart(SortByStart(spans))
  {
    SortPermutes(spans);
    SortSorts(spans);
  }

  function FirstRoot(spans: seq<SpanView>): Option<SpanView> {
    if spans == [] then None
    else if IsRoot()(spans[0]) then Some(spans[0])
    else FirstRoot(spans[1..])
  }

  // ---------------------------------------------------------------- one summary

  /** What `summarize` returns for the spans of one trace. */
  function Summary(spans: seq<SpanView>): TraceSummary {
    var sorted := SortByStart(spans);
    var root := FirstRoot(sorted);
    TraceSummary(if sorted == [] then [] else sorted[0].traceId,
                 if root.Some? then root.value.service else "",
                 if root.Some? then root.value.operation else "",
                 MinStart(spans), MaxEnd(spans),
                 |spans|, Count(spans, IsError()), Count(spans, IsOrphan(SpanIds(spans))),
                 ServiceCounts(spans))
  }

  /** The service map of `spans`. */
  ghost predicate CountsServices(services: map<string, ServiceCount>, spans: seq<SpanView>) {
    && services.Keys == ServicesIn(spans)
    && forall k :: k in services ==> services[k] == ServiceCount(Count(spans, OfService(k)), Count(spans, ErrorOfService(k)))
  }

  lemma CountSpanGrow(services: map<string, ServiceCount>, spans: seq<SpanView>, n: nat)
    requires n < |spans| && CountsServices(services, spans[..n])
    ensures CountsServices(CountSpan(services, spans[n]), spans[..n + 1])
  {
    ServicesGrow(spans, n);
    var name := spans[n].service;
    if name !in services { NoneOfService(spans[..n], name); }
    var next := CountSpan(services, spans[n]);
    forall k | k in next
      ensures next[k] == ServiceCount(Count(spans[..n + 1], OfService(k)), Count(spans[..n + 1], ErrorOfService(k)))
    {
      ServiceCountStep(spans, n, k);
    }
  }

  lemma ServiceCountStep(spans: seq<SpanView>, n: nat, name: string)
    requires n < |spans|
    ensures Count(spans[..n + 1], OfService(name)) == Count(spans[..n], OfService(name)) + (if spans[n].service == name then 1 else 0)
    ensures Count(spans[..n + 1], ErrorOfService(name))
         == Count(spans[..n], ErrorOfService(name)) + (if spans[n].service == name && spans[n].status == 2 then 1 else 0)
  {
    assert spans[..n + 1][..n] == spans[..n];
  }

  /** The body of the loop over the service map. */
  function CountSpan(services: map<string, ServiceCount>, span: SpanView): map<string, ServiceCount> {
    var entry := if span.service in services then services[span.service] else ServiceCount(0, 0);
    services[span.service := ServiceCount(entry.spans + 1, entry.errors + (if span.status == 2 then 1 else 0))]
  }

  lemma ServicesGrow(spans: seq<SpanView>, n: nat)
    requires n < |spans|
    ensures ServicesIn(spans[..n + 1]) == ServicesIn(spans[..n]) + {spans[n].service}
  {
    var a, b := spans[..n], spans[..n + 1];
    forall x | x in ServicesIn(a) + {spans[n].service} ensures x in ServicesIn(b) {
      if x in ServicesIn(a) {
        var i :| 0 <= i < n && a[i].service == x;
        assert b[i].service == x;
      } else {
        assert b[n].service == x;
      }
    }
  }

  lemma {:induction false} NoneOfService(spans: seq<SpanView>, name: string)
    requires name !in ServicesIn(spans)
    ensures Count(spans, OfService(name)) == 0 && Count(spans, ErrorOfService(name)) == 0
  {
    if spans == [] {
    } else {
      var n := |spans| - 1;
      assert spans[..n + 1] == spans;
      ServicesGrow(spans, n);
      NoneOfService(spans[..n], name);
    }
  }

  method CountServices(spans: seq<SpanView>) returns (services: map<string, ServiceCount>)
    ensures services == ServiceCounts(spans)
  {
    services := map[];
    for n := 0 to |spans|
      invariant CountsServices(services, spans[..n])
    {
      CountSpanGrow(services, spans, n);
      services := CountSpan(services, spans[n]);
    }
    assert spans[..|spans|] == spans;
  }

  /** `summarize`: sort, count per service, and aggregate the sorted spans. */
  method Summarize(spans: seq<SpanView>) returns (t: TraceSummary)
    ensures t == Summary(spans)
  {
    var sorted := SortByStart(spans);
    var ids := SpanIds(sorted);
    var root := FirstRoot(sorted);
    var services := CountServices(sorted);
    SortSpec(spans);
    AggregatesPermutation(sorted, spans);
    t := TraceSummary(if sorted == [] then [] else sorted[0].traceId,
                      if root.Some? then root.value.service else "",
                      if root.Some? then root.value.operation else "",
                      MinStart(sorted), MaxEnd(sorted),
                      |sorted|, Count(sorted, IsError()), Count(sorted, IsOrphan(ids)), services);
  }

  // ---------------------------------------------------------------- order does not matter

  lemma SetsPermutation(a: seq<SpanView>, b: seq<SpanView>)
    requires multiset(a) == multiset(b)
    ensures SpanIds(a) <= SpanIds(b) && ServicesIn(a) <= ServicesIn(b)
  {
    forall i | 0 <= i < |a| ensures a[i].spanId in SpanIds(b) && a[i].service in ServicesIn(b) {
      assert a[i] in multiset(b);
      var j :| 0 <= j < |b| && b[j] == a[i];
      assert b[j].spanId == a[i].spanId && b[j].service == a[i].service;
    }
  }

  /** `MinStart` and `MaxEnd` bound every span and are reached. */
  lemma {:induction false} Extremes(spans: seq<SpanView>)
    ensures forall s :: s in spans ==> MinStart(spans) <= Max(s.start, 0) && Max(s.end, 0) <= MaxEnd(spans)
    ensures spans != [] ==> exists s :: s in spans && MinStart(spans) == Max(s.start, 0)
    ensures spans != [] ==> exists s :: s in spans && MaxEnd(spans) == Max(s.end, 0)
  {
    if spans == [] {
    } else {
      var n := |spans| - 1;
      var front, last := spans[..n], spans[n];
      assert spans == front + [last] && last in spans;
      Extremes(front);
      assert forall s :: s in front ==> s in spans;
    }
  }

  lemma ExtremesPermutation(a: seq<SpanView>, b: seq<SpanView>)
    requires multiset(a) == multiset(b)
    ensures MinStart(a) == MinStart(b) && MaxEnd(a) == MaxEnd(b)
  {
    Extremes(a);
    Extremes(b);
    assert forall s :: s in a <==> s in multiset(a);
    assert forall s :: s in b <==> s in multiset(b);
    assert |a| == |multiset(a)| == |multiset(b)| == |b|;
  }

  lemma AggregatesPermutation(a: seq<SpanView>, b: seq<SpanView>)
    requires multiset(a) == multiset(b)
    ensures |a| == |b| && MinStart(a) == MinStart(b) && MaxEnd(a) == MaxEnd(b)
    ensures Count(a, IsError()) == Count(b, IsError())
    ensures SpanIds(a) == SpanIds(b)
    ensures Count(a, IsOrphan(SpanIds(a))) == Count(b, IsOrphan(SpanIds(b)))
    ensures ServiceCounts(a) == ServiceCounts(b)
  {
    assert |a| == |multiset(a)| == |multiset(b)| == |b|;
    ExtremesPermutation(a, b);
    SetsPermutation(a, b);
    SetsPermutation(b, a);
    CountPermutation(a, b, IsError());
    CountPermutation(a, b, IsOrphan(SpanIds(a)));
    forall name ensures Count(a, OfService(name)) == Count(b, OfService(name))
                     && Count(a, ErrorOfService(name)) == Count(b, ErrorOfService(name)) {
      CountPermutation(a, b, OfService(name));
      CountPermutation(a, b, ErrorOfService(name));
    }
  }

  lemma {:induction false} FirstRootSpec(spans: seq<SpanView>)
    ensures FirstRoot(spans).None? <==> forall s :: s in spans ==> s.parentSpanId != []
    ensures FirstRoot(spans).Some? ==> FirstRoot(spans).value in spans && FirstRoot(spans).value.parentSpanId == []
    ensures SortedByStart(spans) && FirstRoot(spans).Some? ==>
      forall s :: s in spans && s.parentSpanId == [] ==> FirstRoot(spans).value.start <= s.start
  {
    if spans == [] {
    } else {
      assert spans == [spans[0]] + spans[1..];
      FirstRootSpec(spans[1..]);
    }
  }

  /** No two roots start together. */
  ghost predicate RootsDistinct(spans: seq<SpanView>) {
    forall s, t :: s in spans && t in spans && s.parentSpanId == [] && t.parentSpanId == [] && s.start == t.start ==> s == t
  }

  /**
   A summary does not depend on the order in which the spans arrive, except that roots starting
   at the same time are told apart by it.
   */
  lemma SummaryPermutation(a: seq<SpanView>, b: seq<SpanView>, id: TraceId)
    requires multiset(a) == multiset(b)
    requires forall s :: s in a ==> s.traceId == id
    ensures Summary(a).(rootService := "", rootOperation := "") == Summary(b).(rootService := "", rootOperation := "")
    ensures RootsDistinct(a) ==> Summary(a) == Summary(b)
  {
    AggregatesPermutation(a, b);
    var sa, sb := SortByStart(a), SortByStart(b);
    SortSpec(a);
    SortSpec(b);
    SameMembers(a, b);
    SameMembers(sa, a);
    SameMembers(sb, b);
    if a != [] { assert sa[0] in sa && sb[0] in sb; }
    FirstRootSpec(sa);
    FirstRootSpec(sb);
  }

  lemma SameMembers(a: seq<SpanView>, b: seq<SpanView>)
    requires multiset(a) == multiset(b)
    ensures forall s :: s in a <==> s in b
    ensures |a| == |b|
  {
    assert forall s :: s in a <==> s in multiset(a);
    assert forall s :: s in b <==> s in multiset(b);
    assert |a| == |multiset(a)| == |multiset(b)| == |b|;
  }

  // ---------------------------------------------------------------- conservation in one trace

  /** Every span is a root, has its parent in the trace, or is an orphan. */
  lemma {:induction false} RootsParentsOrphans(spans: seq<SpanView>, ids: set<seq<Byte>>)
    ensures Count(spans, IsRoot()) + Count(spans, HasParent(ids)) + Count(spans, IsOrphan(ids)) == |spans|
  {
    if spans == [] {
    } else {
      RootsParentsOrphans(spans[..|spans| - 1], ids);
    }
  }

  lemma {:induction false} ServicePartition(spans: seq<SpanView>, names: set<string>)
    requires ServicesIn(spans) <= names
    ensures SumOver(names, n => Count(spans, OfService(n))) == |spans|
    ensures SumOver(names, n => Count(spans, ErrorOfService(n))) == Count(spans, IsError())
  {
    if spans == [] {
      SumOverZero(names, n => Count(spans, OfService(n)));
      SumOverZero(names, n => Count(spans, ErrorOfService(n)));
    } else {
      var k := |spans| - 1;
      var front, name := spans[..k], spans[k].service;
      assert spans[..k + 1] == spans;
      ServicesGrow(spans, k);
      ServicePartition(front, names);
      SumOverBump(names, n => Count(front, OfService(n)), n => Count(spans, OfService(n)), name);
      SumOverBump(names, n => Count(front, ErrorOfService(n)), n => Count(spans, ErrorOfService(n)), name);
    }
  }

  /** The per-service span and error counts of a summary add up to its totals. */
  lemma ServicesAddUp(spans: seq<SpanView>)
    ensures var t := Summary(spans);
            && SumOver(t.services.Keys, n => if n in t.services then t.services[n].spans else 0) == t.spanCount
            && SumOver(t.services.Keys, n => if n in t.services then t.services[n].errors else 0) == t.errorCount
  {
    var t := Summary(spans);
    assert t.services.Keys == ServicesIn(spans);
    ServicePartition(spans, ServicesIn(spans));
    SumOverCongruent(t.services.Keys, n => if n in t.services then t.services[n].spans else 0, n => Count(spans, OfService(n)));
    SumOverCongruent(t.services.Keys, n => if n in t.services then t.services[n].errors else 0, n => Count(spans, ErrorOfService(n)));
  }

  lemma {:induction false} FirstRootSnoc(spans: seq<SpanView>, x: SpanView)
    ensures FirstRoot(spans + [x]) == if FirstRoot(spans).Some? then FirstRoot(spans) else if x.parentSpanId == [] then Some(x) else None
  {
    if spans == [] {
      assert (spans + [x])[1..] == [];
    } else {
      FirstRootSnoc(spans[1..], x);
      assert (spans + [x])[1..] == spans[1..] + [x];
    }
  }

  /** A later arrival becomes the root only if it starts before the one so far. */
  lemma {:induction false} FirstRootInsert(spans: seq<SpanView>, x: SpanView)
    requires SortedByStart(spans)
    ensures var r := FirstRoot(spans);
            FirstRoot(InsertByStart(spans, x)) == if x.parentSpanId == [] && (r.None? || x.start < r.value.start) then Some(x) else r
  {
    if spans == [] || spans[|spans| - 1].start <= x.start {
      FirstRootSnoc(spans, x);
      FirstRootSpec(spans);
    } else {
      var front, last := spans[..|spans| - 1], spans[|spans| - 1];
      assert spans == front + [last];
      FirstRootInsert(front, x);
      FirstRootSnoc(front, last);
      FirstRootSnoc(InsertByStart(front, x), last);
    }
  }

  /** Span `k` is the root: of the spans without a parent the first to arrive among the earliest to start. */
  predicate EarliestRoot(spans: seq<SpanView>, k: int) {
    && 0 <= k < |spans| && spans[k].parentSpanId == []
    && forall j :: 0 <= j < |spans| && spans[j].parentSpanId == [] ==> spans[k].start < spans[j].start || (spans[k].start == spans[j].start && k <= j)
  }

  lemma RootStep(spans: seq<SpanView>, k: nat)
    requires spans != [] && EarliestRoot(spans[..|spans| - 1], k)
    ensures var n := |spans| - 1;
            EarliestRoot(spans, if spans[n].parentSpanId == [] && spans[n].start < spans[k].start then n else k)
  {
    var n := |spans| - 1;
    forall j | 0 <= j < n && spans[j].parentSpanId == []
      ensures spans[k].start < spans[j].start || (spans[k].start == spans[j].start && k <= j)
    {
      assert spans[..n][j] == spans[j] && spans[..n][k] == spans[k];
    }
  }

  /** What the sort makes the first root: the earliest one, if there is any. */
  ghost predicate IsRootOf(spans: seq<SpanView>, root: Option<SpanView>) {
    match root
    case None => forall j :: 0 <= j < |spans| ==> spans[j].parentSpanId != []
    case Some(r) => exists k :: EarliestRoot(spans, k) && spans[k] == r
  }

  lemma {:induction false} RootOfSorted(spans: seq<SpanView>)
    ensures IsRootOf(spans, FirstRoot(SortByStart(spans)))
  {
    if spans == [] {
    } else {
      var n := |spans| - 1;
      RootOfSorted(spans[..n]);
      SortSpec(spans[..n]);
      FirstRootInsert(SortByStart(spans[..n]), spans[n]);
      RootOfMore(spans, FirstRoot(SortByStart(spans[..n])));
    }
  }

  lemma RootOfMore(spans: seq<SpanView>, r: Option<SpanView>)
    requires spans != [] && IsRootOf(spans[..|spans| - 1], r)
    ensures var x := spans[|spans| - 1];
            IsRootOf(spans, if x.parentSpanId == [] && (r.None? || x.start < r.value.start) then Some(x) else r)
  {
    var n := |spans| - 1;
    if r.Some? {
      var k :| EarliestRoot(spans[..n], k) && spans[..n][k] == r.value;
      RootStep(spans, k);
    } else {
      assert forall j :: 0 <= j < n ==> spans[..n][j] == spans[j];
      assert spans[n].parentSpanId == [] ==> EarliestRoot(spans, n);
    }
  }

  /** The root reported is the first to arrive among the earliest of those without a parent, or there is none. */
  lemma RootIsEarliest(spans: seq<SpanView>)
    ensures var t := Summary(spans);
            if forall j :: 0 <= j < |spans| ==> spans[j].parentSpanId != [] then t.rootService == "" && t.rootOperation == ""
            else exists k :: EarliestRoot(spans, k) && t.rootService == spans[k].service && t.rootOperation == spans[k].operation
  {
    RootOfSorted(spans);
  }

  /** The other counts, position by position: spans of status two, and spans naming a parent that is not there. */
  lemma SummaryCounts(spans: seq<SpanView>)
    ensures var t := Summary(spans);
            && t.spanCount == |spans|
            && t.errorCount == |set i: nat | i < |spans| && spans[i].status == 2|
            && t.orphanCount == |set i: nat | i < |spans| && spans[i].parentSpanId != [] && !IsSpanId(spans, spans[i].parentSpanId)|
  {
    CountIsPlaces(spans, IsError());
    assert Places(spans, IsError()) == set i: nat | i < |spans| && spans[i].status == 2;
    var orphan := IsOrphan(SpanIds(spans));
    CountIsPlaces(spans, orphan);
    assert Places(spans, orphan) == set i: nat | i < |spans| && spans[i].parentSpanId != [] && !IsSpanId(spans, spans[i].parentSpanId);
  }

  /** The services are those of the spans, each with its spans and those of them of status two. */
  lemma SummaryServices(spans: seq<SpanView>, name: string)
    ensures var services := Summary(spans).services;
            && (name in services <==> exists i :: 0 <= i < |spans| && spans[i].service == name)
            && (name in services ==>
                  && services[name].spans == |set i: nat | i < |spans| && spans[i].service == name|
                  && services[name].errors == |set i: nat | i < |spans| && spans[i].service == name && spans[i].status == 2|)
  {
    CountIsPlaces(spans, OfService(name));
    CountIsPlaces(spans, ErrorOfService(name));
    assert Places(spans, OfService(name)) == set i: nat | i < |spans| && spans[i].service == name;
    assert Places(spans, ErrorOfService(name)) == set i: nat | i < |spans| && spans[i].service == name && spans[i].status == 2;
  }

  predicate IsSpanId(spans: seq<SpanView>, id: seq<Byte>) {
    exists j :: 0 <= j < |spans| && spans[j].spanId == id
  }

  /** The range is from the earliest start to the latest end, negative times taken for zero. */
  lemma SummaryRange(spans: seq<SpanView>)
    requires spans != []
    ensures var t := Summary(spans);
            && (forall i :: 0 <= i < |spans| ==> (spans[i].start < 0 || t.minStart <= spans[i].start) && spans[i].end <= t.maxEnd)
            && (exists i :: 0 <= i < |spans| && t.minStart == if spans[i].start < 0 then 0 else spans[i].start)
            && (exists i :: 0 <= i < |spans| && t.maxEnd == if spans[i].end < 0 then 0 else spans[i].end)
    ensures (exists i :: 0 <= i < |spans| && spans[i].start < 0) ==> Summary(spans).minStart == 0
  {
    Extremes(spans);
    assert forall i :: 0 <= i < |spans| ==> spans[i] in spans;
  }

  // ---------------------------------------------------------------- all summaries

  function TracesIn(spans: seq<SpanView>): set<TraceId> {
    set i | 0 <= i < |spans| :: spans[i].traceId
  }

  /** The spans of one trace, in order. */
  function SpansOf(spans: seq<SpanView>, id: TraceId): seq<SpanView> {
    Filter(spans, OfTrace(id))
  }

  /** One summary per trace, in some order, each of that trace's spans. */
  ghost predicate AreSummaries(out: seq<TraceSummary>, spans: seq<SpanView>) {
    && NoDuplicates(SummaryIds(out))
    && (forall id :: id in SummaryIds(out) <==> id in TracesIn(spans))
    && (forall i :: 0 <= i < |out| ==> out[i] == Summary(SpansOf(spans, out[i].traceId)))
  }

  function SummaryIds(out: seq<TraceSummary>): (ids: seq<TraceId>)
    ensures |ids| == |out|
  {
    seq(|out|, i requires 0 <= i < |out| => out[i].traceId)
  }

  lemma TracesGrow(spans: seq<SpanView>, n: nat)
    requires n < |spans|
    ensures TracesIn(spans[..n + 1]) == TracesIn(spans[..n]) + {spans[n].traceId}
  {
    var a, b := spans[..n], spans[..n + 1];
    forall x | x in TracesIn(a) + {spans[n].traceId} ensures x in TracesIn(b) {
      if x in TracesIn(a) {
        var i :| 0 <= i < n && a[i].traceId == x;
        assert b[i].traceId == x;
      } else {
        assert b[n].traceId == x;
      }
    }
  }

  lemma SpansOfGrow(spans: seq<SpanView>, n: nat, id: TraceId)
    requires n < |spans|
    ensures SpansOf(spans[..n + 1], id) == SpansOf(spans[..n], id) + (if spans[n].traceId == id then [spans[n]] else [])
  {
    assert spans[..n + 1][..n] == spans[..n];
  }

  lemma {:induction false} NoSpansOf(spans: seq<SpanView>, id: TraceId)
    requires id !in TracesIn(spans)
    ensures SpansOf(spans, id) == []
  {
    if spans == [] {
    } else {
      var n := |spans| - 1;
      assert spans[..n + 1] == spans;
      TracesGrow(spans, n);
      NoSpansOf(spans[..n], id);
    }
  }

  /** A trace of the table has spans, all its own, so its summary carries its identifier. */
  lemma SummaryOfTrace(spans: seq<SpanView>, id: TraceId)
    requires id in TracesIn(spans)
    ensures SpansOf(spans, id) != [] && Summary(SpansOf(spans, id)).traceId == id
  {
    var i :| 0 <= i < |spans| && spans[i].traceId == id;
    assert spans[i] in SpansOf(spans, id);
    var own := SpansOf(spans, id);
    SortSpec(own);
    SameMembers(SortByStart(own), own);
    assert SortByStart(own)[0] in own;
  }

  /** The map of groups: each trace's spans in order of arrival. */
  ghost predicate IsGrouped(traces: map<TraceId, seq<SpanView>>, spans: seq<SpanView>) {
    traces.Keys == TracesIn(spans) && forall id :: id in traces ==> traces[id] == SpansOf(spans, id)
  }

  method GroupByTrace(spans: seq<SpanView>) returns (traces: map<TraceId, seq<SpanView>>)
    ensures IsGrouped(traces, spans)
  {
    traces := map[];
    for n := 0 to |spans|
      invariant IsGrouped(traces, spans[..n])
    {
      var id := spans[n].traceId;
      TracesGrow(spans, n);
      forall k { SpansOfGrow(spans, n, k); }
      if id !in traces { NoSpansOf(spans[..n], id); }
      traces := traces[id := (if id in traces then traces[id] else []) + [spans[n]]];
    }
    assert spans[..|spans|] == spans;
  }

  /** `summaries`: group by trace and summarise each group, the map giving its groups in any order. */
  method Summaries(spans: seq<SpanView>) returns (out: seq<TraceSummary>)
    ensures AreSummaries(out, spans)
  {
    var traces := GroupByTrace(spans);
    out := [];
    var pending := traces.Keys;
    while pending != {}
      invariant pending <= traces.Keys
      invariant NoDuplicates(SummaryIds(out))
      invariant forall id :: id in SummaryIds(out) <==> id in traces && id !in pending
      invariant forall i :: 0 <= i < |out| ==> out[i] == Summary(SpansOf(spans, out[i].traceId))
    {
      var id :| id in pending;
      SummaryOfTrace(spans, id);
      var t := Summarize(traces[id]);
      assert SummaryIds(out + [t]) == SummaryIds(out) + [id];
      out := out + [t];
      pending := pending - {id};
    }
  }

  function TotalSpans(out: seq<TraceSummary>): nat {
    if out == [] then 0 else TotalSpans(out[..|out| - 1]) + out[|out| - 1].spanCount
  }

  lemma {:induction false} TracePartition(spans: seq<SpanView>, ids: set<TraceId>)
    requires TracesIn(spans) <= ids
    ensures SumOver(ids, id => |SpansOf(spans, id)|) == |spans|
  {
    if spans == [] {
      SumOverZero(ids, id => |SpansOf(spans, id)|);
    } else {
      var n := |spans| - 1;
      var front := spans[..n];
      assert spans[..n + 1] == spans;
      TracesGrow(spans, n);
      TracePartition(front, ids);
      forall id { SpansOfGrow(spans, n, id); }
      SumOverBump(ids, id => |SpansOf(front, id)|, id => |SpansOf(spans, id)|, spans[n].traceId);
    }
  }

  lemma {:induction false} TotalIsSum(out: seq<TraceSummary>, ids: set<TraceId>, size: TraceId -> int)
    requires NoDuplicates(SummaryIds(out))
    requires forall id :: id in SummaryIds(out) <==> id in ids
    requires forall i :: 0 <= i < |out| ==> out[i].spanCount == size(out[i].traceId)
    ensures TotalSpans(out) == SumOver(ids, size)
  {
    var all := SummaryIds(out);
    if out != [] {
      var n := |out| - 1;
      var front := out[..n];
      assert all == SummaryIds(front) + [all[n]];
      assert forall i :: 0 <= i < n ==> SummaryIds(front)[i] == all[i];
      assert all[n] in all && all[n] !in SummaryIds(front);
      TotalIsSum(front, ids - {all[n]}, size);
      SumOverTake(ids, size, all[n]);
    } else {
      assert forall id :: id !in ids;
    }
  }

  /** Over any input, the span counts of all summaries total the number of spans. */
  lemma SummariesConserveSpans(out: seq<TraceSummary>, spans: seq<SpanView>)
    requires AreSummaries(out, spans)
    ensures TotalSpans(out) == |spans|
  {
    TracePartition(spans, TracesIn(spans));
    TotalIsSum(out, TracesIn(spans), id => |SpansOf(spans, id)|);
  }

  // ---------------------------------------------------------------- the composed query

  datatype FoundTrace = FoundTrace(traceId: TraceId, start: int, end: int)

  /** The latest start among the matching spans of a trace orders the search. */
  ghost predicate LatestStart(rows: seq<SpanView>, matches: SpanView -> bool, id: TraceId, at: int) {
    && (exists s :: s in rows && matches(s) && s.traceId == id && s.start == at)
    && (forall s :: s in rows && matches(s) && s.traceId == id ==> s.start <= at)
  }

  /** The found range is that of the trace's matching spans. */
  ghost predicate FoundRange(rows: seq<SpanView>, matches: SpanView -> bool, f: FoundTrace) {
    && (exists s :: s in rows && matches(s) && s.traceId == f.traceId && s.start == f.start)
    && (exists s :: s in rows && matches(s) && s.traceId == f.traceId && s.end == f.end)
    && (forall s :: s in rows && matches(s) && s.traceId == f.traceId ==> f.start <= s.start && s.end <= f.end)
  }

  /**
   `found` is a possible answer of `find_ids`: traces with a matching span, each once, newest
   first, ties either way, and as many as the depth allows.
   */
  ghost predicate AreFound(rows: seq<SpanView>, matches: SpanView -> bool, depth: nat, found: seq<FoundTrace>) {
    && |found| <= depth
    && (forall i, j :: 0 <= i < j < |found| ==> found[i].traceId != found[j].traceId)
    && (forall i :: 0 <= i < |found| ==> FoundRange(rows, matches, found[i]))
    && (forall i, j :: 0 <= i < j < |found| ==> NoNewer(rows, matches, found[j].traceId, found[i].traceId))
    && (forall s :: s in rows && matches(s) ==>
          s.traceId in FoundIds(found)
          || (|found| == depth && forall i :: 0 <= i < |found| ==> NoNewer(rows, matches, s.traceId, found[i].traceId)))
  }

  /** Trace `a` sorts no earlier than trace `b` in the search order. */
  ghost predicate NoNewer(rows: seq<SpanView>, matches: SpanView -> bool, a: TraceId, b: TraceId) {
    forall x, y :: LatestStart(rows, matches, a, x) && LatestStart(rows, matches, b, y) ==> x <= y
  }

  function FoundIds(found: seq<FoundTrace>): set<TraceId> {
    set i | 0 <= i < |found| :: found[i].traceId
  }

  // The search always has an answer.

  /** Among the elements satisfying `p` one is greatest by `f`. */
  lemma {:induction false} Greatest<T(!new)>(xs: seq<T>, p: T -> bool, f: T -> int) returns (best: T)
    requires exists x :: x in xs && p(x)
    ensures best in xs && p(best) && forall x :: x in xs && p(x) ==> f(x) <= f(best)
  {
    var front, last := xs[..|xs| - 1], xs[|xs| - 1];
    assert xs == front + [last];
    if exists x :: x in front && p(x) {
      best := Greatest(front, p, f);
      if p(last) && f(best) < f(last) { best := last; }
    } else {
      best := last;
    }
  }

  function MatchesOf(matches: SpanView -> bool, id: TraceId): SpanView -> bool {
    (s: SpanView) => matches(s) && s.traceId == id
  }

  /** A trace with a matching span has a latest start and a range. */
  lemma RangeExists(rows: seq<SpanView>, matches: SpanView -> bool, s: SpanView) returns (f: FoundTrace, at: int)
    requires s in rows && matches(s)
    ensures f.traceId == s.traceId && FoundRange(rows, matches, f) && LatestStart(rows, matches, s.traceId, at)
  {
    var own := MatchesOf(matches, s.traceId);
    assert own(s);
    var first := Greatest(rows, own, (x: SpanView) => -x.start);
    var latest := Greatest(rows, own, (x: SpanView) => x.start);
    var last := Greatest(rows, own, (x: SpanView) => x.end);
    forall x | x in rows && matches(x) && x.traceId == s.traceId
      ensures first.start <= x.start <= latest.start && x.end <= last.end
    {
      assert own(x);
    }
    f, at := FoundTrace(s.traceId, first.start, last.end), latest.start;
  }

  /** Every trace with a matching span, once, with its range. */
  lemma {:induction false} AllRanges(rows: seq<SpanView>, matches: SpanView -> bool, n: nat) returns (all: seq<FoundTrace>)
    requires n <= |rows|
    ensures forall i, j :: 0 <= i < j < |all| ==> all[i].traceId != all[j].traceId
    ensures forall i :: 0 <= i < |all| ==> FoundRange(rows, matches, all[i])
    ensures forall k :: 0 <= k < n && matches(rows[k]) ==> rows[k].traceId in FoundIds(all)
  {
    if n == 0 {
      all := [];
    } else {
      var rest := AllRanges(rows, matches, n - 1);
      all := rest;
      if matches(rows[n - 1]) && rows[n - 1].traceId !in FoundIds(rest) {
        var f, at := RangeExists(rows, matches, rows[n - 1]);
        all := rest + [f];
        assert all[|rest|].traceId in FoundIds(all);
      }
      forall i | 0 <= i < |rest| ensures rest[i].traceId in FoundIds(all) && rest[i].traceId in FoundIds(rest) {
        assert all[i] == rest[i];
      }
    }
  }

  /** How early a trace comes in the search order. */
  ghost function Staleness(rows: seq<SpanView>, matches: SpanView -> bool): FoundTrace -> int {
    (f: FoundTrace) => -LatestOf(rows, matches, f.traceId)
  }

  ghost function LatestOf(rows: seq<SpanView>, matches: SpanView -> bool, id: TraceId): (at: int)
    ensures forall x :: LatestStart(rows, matches, id, x) ==> x == at
  {
    if exists x :: LatestStart(rows, matches, id, x) then
      var x :| LatestStart(rows, matches, id, x); x
    else 0
  }

  lemma StaleNoNewer(rows: seq<SpanView>, matches: SpanView -> bool, f: FoundTrace, g: FoundTrace)
    requires Staleness(rows, matches)(f) <= Staleness(rows, matches)(g)
    ensures NoNewer(rows, matches, g.traceId, f.traceId)
  {
  }

  /** A trace that is cut off by the depth is no newer than those before the cut. */
  lemma CutIsNoNewer(rows: seq<SpanView>, matches: SpanView -> bool, sorted: seq<FoundTrace>, take: nat, g: FoundTrace)
    requires SortedBy(sorted, Staleness(rows, matches)) && take <= |sorted| && g in sorted && g !in sorted[..take]
    ensures take < |sorted| && forall i :: 0 <= i < take ==> NoNewer(rows, matches, g.traceId, sorted[i].traceId)
  {
    SortedHeadIsLeast(sorted, take, Staleness(rows, matches), g);
    forall i | 0 <= i < take ensures NoNewer(rows, matches, g.traceId, sorted[i].traceId) {
      StaleNoNewer(rows, matches, sorted[i], g);
    }
  }

  /** For any spans, filter and depth there is an answer the search may give. */
  lemma SearchHasAnswer(rows: seq<SpanView>, matches: SpanView -> bool, depth: nat) returns (found: seq<FoundTrace>)
    ensures AreFound(rows, matches, depth, found)
  {
    var all := AllRanges(rows, matches, |rows|);
    var sorted := SortableBy(all, Staleness(rows, matches));
    var take := Min(depth, |sorted|);
    found := sorted[..take];
    SortedRanges(rows, matches, all, sorted);
    forall i, j | 0 <= i < j < |found| ensures NoNewer(rows, matches, found[j].traceId, found[i].traceId) {
      StaleNoNewer(rows, matches, sorted[i], sorted[j]);
    }
    forall s | s in rows && matches(s) && s.traceId !in FoundIds(found)
      ensures |found| == depth && forall i :: 0 <= i < |found| ==> NoNewer(rows, matches, s.traceId, found[i].traceId)
    {
      var k :| 0 <= k < |rows| && rows[k] == s;
      var m :| 0 <= m < |all| && all[m].traceId == s.traceId;
      assert all[m] in all;
      assert forall i :: 0 <= i < |found| ==> found[i].traceId in FoundIds(found);
      CutIsNoNewer(rows, matches, sorted, take, all[m]);
    }
  }

  lemma SortedRanges(rows: seq<SpanView>, matches: SpanView -> bool, all: seq<FoundTrace>, sorted: seq<FoundTrace>)
    requires forall i, j :: 0 <= i < j < |all| ==> all[i].traceId != all[j].traceId
    requires forall i :: 0 <= i < |all| ==> FoundRange(rows, matches, all[i])
    requires NoDuplicates(sorted) && forall f {:trigger f in sorted} :: f in sorted <==> f in all
    ensures forall i, j :: 0 <= i < j < |sorted| ==> sorted[i].traceId != sorted[j].traceId
    ensures forall i :: 0 <= i < |sorted| ==> FoundRange(rows, matches, sorted[i])
  {
    assert forall i :: 0 <= i < |sorted| ==> sorted[i] in sorted;
    assert forall f, g :: f in all && g in all && f != g ==> f.traceId != g.traceId;
  }

  function InTraces(ids: set<TraceId>): SpanView -> bool { (s: SpanView) => s.traceId in ids }

  /** `spans_for_ids`: every span of the named traces. Its order is left open. */
  ghost predicate AreSpansFor(rows: seq<SpanView>, ids: set<TraceId>, spans: seq<SpanView>) {
    multiset(spans) == multiset(Filter(rows, InTraces(ids)))
  }

  /** The summary is of the found trace as a whole, so its range encloses the found one. */
  ghost predicate Summarises(t: TraceSummary, f: FoundTrace, rows: seq<SpanView>) {
    && t.traceId == f.traceId
    && t.minStart <= f.start && f.end <= t.maxEnd
    && t.spanCount == Count(rows, OfTrace(f.traceId))
  }

  ghost predicate HasSummary(out: seq<TraceSummary>, f: FoundTrace, rows: seq<SpanView>) {
    exists j :: 0 <= j < |out| && Summarises(out[j], f, rows)
  }

  /**
   `find_trace_summaries` on one snapshot: exactly one summary per found trace, of the whole trace
   and not just its matching spans.
   */
  lemma OneSummaryPerFoundTrace(rows: seq<SpanView>, matches: SpanView -> bool, depth: nat, found: seq<FoundTrace>,
                                spans: seq<SpanView>, out: seq<TraceSummary>)
    requires AreFound(rows, matches, depth, found)
    requires AreSpansFor(rows, FoundIds(found), spans)
    requires AreSummaries(out, spans)
    requires forall s :: s in rows ==> 0 <= s.start && 0 <= s.end
    ensures |out| == |found|
    ensures forall i :: 0 <= i < |found| ==> HasSummary(out, found[i], rows)
  {
    forall i | 0 <= i < |found| ensures HasSummary(out, found[i], rows) {
      var j := SummaryFor(rows, matches, depth, found, spans, out, i);
    }
    var ids, summarised := seq(|found|, i requires 0 <= i < |found| => found[i].traceId), SummaryIds(out);
    forall id | id in ids ensures id in summarised {
      var i :| 0 <= i < |found| && ids[i] == id;
      var j := SummaryFor(rows, matches, depth, found, spans, out, i);
      assert summarised[j] == id;
    }
    forall id | id in summarised ensures id in ids {
      SummarisedIsFound(rows, found, spans, id);
      var i :| 0 <= i < |found| && found[i].traceId == id;
      assert ids[i] == id;
    }
    NoDuplicatesLength(ids, summarised);
    NoDuplicatesLength(summarised, ids);
  }

  lemma SummaryFor(rows: seq<SpanView>, matches: SpanView -> bool, depth: nat, found: seq<FoundTrace>,
                   spans: seq<SpanView>, out: seq<TraceSummary>, i: nat) returns (j: nat)
    requires AreFound(rows, matches, depth, found) && i < |found|
    requires AreSpansFor(rows, FoundIds(found), spans)
    requires AreSummaries(out, spans)
    requires forall s :: s in rows ==> 0 <= s.start && 0 <= s.end
    ensures j < |out| && Summarises(out[j], found[i], rows)
  {
    FoundIsSummarised(rows, matches, found, spans, found[i]);
    assert found[i].traceId in SummaryIds(out);
    j :| 0 <= j < |out| && SummaryIds(out)[j] == found[i].traceId;
    assert out[j] == Summary(SpansOf(spans, out[j].traceId));
  }

  lemma SummarisedIsFound(rows: seq<SpanView>, found: seq<FoundTrace>, spans: seq<SpanView>, id: TraceId)
    requires AreSpansFor(rows, FoundIds(found), spans)
    requires id in TracesIn(spans)
    ensures exists i :: 0 <= i < |found| && found[i].traceId == id
  {
    var kept := Filter(rows, InTraces(FoundIds(found)));
    SameMembers(spans, kept);
    var k :| 0 <= k < |spans| && spans[k].traceId == id;
    assert spans[k] in kept;
  }

  lemma FoundIsSummarised(rows: seq<SpanView>, matches: SpanView -> bool, found: seq<FoundTrace>, spans: seq<SpanView>, f: FoundTrace)
    requires f in found && FoundRange(rows, matches, f)
    requires AreSpansFor(rows, FoundIds(found), spans)
    requires forall s :: s in rows ==> 0 <= s.start && 0 <= s.end
    ensures f.traceId in TracesIn(spans)
    ensures var t := Summary(SpansOf(spans, f.traceId));
            t.minStart <= f.start && f.end <= t.maxEnd && t.spanCount == Count(rows, OfTrace(f.traceId))
  {
    var id, ids := f.traceId, FoundIds(found);
    var kept := Filter(rows, InTraces(ids));
    SameMembers(spans, kept);
    var i :| 0 <= i < |found| && found[i] == f;
    assert found[i].traceId in ids;
    var first :| first in rows && matches(first) && first.traceId == id && first.start == f.start;
    var last :| last in rows && matches(last) && last.traceId == id && last.end == f.end;
    var own := SpansOf(spans, id);
    assert first in kept && last in kept && first in own && last in own;
    var k :| 0 <= k < |spans| && spans[k] == first;
    assert spans[k].traceId in TracesIn(spans);
    Extremes(own);
    FilterCount(spans, OfTrace(id));
    CountPermutation(spans, kept, OfTrace(id));
    CountInFilter(rows, InTraces(ids), OfTrace(id));
  }
}
