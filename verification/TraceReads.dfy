/**
 Trace queries over the span table itself: what one request finds and summarises, and what it streams
 of the records accepted so far.
 */
module TraceReads {
  import opened Common
  import opened Telemetry
  import Spans
  import SpanReads
  import Streaming
  import opened TraceSummaries

  type Record = Leaf<Spans.Span>

  function ViewOf(row: Spans.SpanRow): SpanView {
    SpanView(row.traceId, row.spanId, row.parentSpanId, row.service, row.operation, row.start, row.end, row.status)
  }

  function KeyOf(s: SpanView): Spans.SpanKey {
    Spans.SpanKey(s.traceId, s.spanId)
  }

  /** `keys` lists the rows of a table in some order. */
  ghost predicate Lists(keys: seq<Spans.SpanKey>, table: Spans.Table) {
    NoDuplicates(keys) && forall k {:trigger k in keys} :: k in keys <==> k in table
  }

  function Views(table: Spans.Table, keys: seq<Spans.SpanKey>): (views: seq<SpanView>)
    requires forall i :: 0 <= i < |keys| ==> keys[i] in table
    ensures |views| == |keys|
  {
    seq(|keys|, i requires 0 <= i < |keys| => ViewOf(table[keys[i]].row))
  }

  /** A filter on stored rows, all columns included, as a filter on what the summaries see of them. */
  function OnViews(table: Spans.Table, matches: Spans.SpanRow -> bool): SpanView -> bool {
    (s: SpanView) => KeyOf(s) in table && ViewOf(table[KeyOf(s)].row) == s && matches(table[KeyOf(s)].row)
  }

  /** The stored rows of one trace. */
  function KeysOfTrace(table: Spans.Table, id: TraceId): set<Spans.SpanKey> {
    set k | k in table && k.traceId == id
  }

  function KeysWith(keys: seq<Spans.SpanKey>, q: Spans.SpanKey -> bool): set<Spans.SpanKey> {
    set k | k in keys && q(k)
  }

  lemma KeysWithSnoc(keys: seq<Spans.SpanKey>, last: Spans.SpanKey, q: Spans.SpanKey -> bool)
    requires last !in keys
    ensures |KeysWith(keys + [last], q)| == |KeysWith(keys, q)| + (if q(last) then 1 else 0)
  {
    var before := KeysWith(keys, q);
    assert KeysWith(keys + [last], q) == if q(last) then before + {last} else before;
  }

  /** Counting views is counting their keys. */
  lemma {:induction false} CountViews(views: seq<SpanView>, keys: seq<Spans.SpanKey>, p: SpanView -> bool, q: Spans.SpanKey -> bool)
    requires NoDuplicates(keys) && |views| == |keys| && forall i :: 0 <= i < |keys| ==> p(views[i]) == q(keys[i])
    ensures Count(views, p) == |KeysWith(keys, q)|
  {
    if keys == [] {
      assert KeysWith(keys, q) == {};
    } else {
      var n := |keys| - 1;
      var front, last := keys[..n], keys[n];
      assert keys == front + [last] && last !in front;
      CountViews(views[..n], front, p, q);
      KeysWithSnoc(front, last, q);
    }
  }

  lemma ViewOfTrace(table: Spans.Table, key: Spans.SpanKey)
    requires Spans.ValidTable(table) && key in table
    ensures ViewOf(table[key].row).traceId == key.traceId && 0 <= ViewOf(table[key].row).start && 0 <= ViewOf(table[key].row).end
  {
  }

  // ---------------------------------------------------------------- a trace by its records

  /** The spans accepted for a trace. */
  function KeysAccepted(history: seq<Record>, id: TraceId): set<Spans.SpanKey> {
    set i | 0 <= i < |history| && history[i].item.traceId == id :: Spans.LeafKey(history[i])
  }

  /** The last record of a span was accepted with status code two, modulo 2^16. */
  function Failed(history: seq<Record>): Spans.SpanKey -> bool {
    (k: Spans.SpanKey) => Spans.LastLeaf(history, k).Some? && SpanReads.StatusIs(Spans.LastLeaf(history, k).value.item, 2)
  }

  /** The last record of a span names a parent that was never accepted for the trace. */
  function Orphaned(history: seq<Record>, id: TraceId): Spans.SpanKey -> bool {
    (k: Spans.SpanKey) =>
      Spans.LastLeaf(history, k).Some?
      && var parent := Spans.LastLeaf(history, k).value.item.parentSpanId;
         parent != [] && Spans.SpanKey(id, parent) !in KeysAccepted(history, id)
  }

  /** The last record of a span belongs to a service. */
  ghost function InService(history: seq<Record>, name: string): Spans.SpanKey -> bool {
    (k: Spans.SpanKey) => Spans.LastLeaf(history, k).Some? && SpanReads.ServiceIs(Spans.LastLeaf(history, k).value, name)
  }

  ghost function FailedInService(history: seq<Record>, name: string): Spans.SpanKey -> bool {
    (k: Spans.SpanKey) => InService(history, name)(k) && Failed(history)(k)
  }

  ghost function Those(keys: set<Spans.SpanKey>, q: Spans.SpanKey -> bool): set<Spans.SpanKey> {
    set k | k in keys && q(k)
  }

  /** The counts of a summary are those of the last records of the trace. */
  ghost predicate CountsRecords(t: TraceSummary, id: TraceId, history: seq<Record>) {
    var keys := KeysAccepted(history, id);
    && t.spanCount == |keys|
    && t.errorCount == |Those(keys, Failed(history))|
    && t.orphanCount == |Those(keys, Orphaned(history, id))|
    && forall name {:trigger name in t.services} :: ServiceCounted(t, name, keys, history)
  }

  ghost predicate ServiceCounted(t: TraceSummary, name: string, keys: set<Spans.SpanKey>, history: seq<Record>) {
    && (name in t.services <==> Those(keys, InService(history, name)) != {})
    && (name in t.services ==>
          && t.services[name].spans == |Those(keys, InService(history, name))|
          && t.services[name].errors == |Those(keys, FailedInService(history, name))|)
  }

  /** A range is that of the last records of the trace: it covers them and is reached at both ends. */
  ghost predicate RangesOver(lo: nat, hi: nat, id: TraceId, history: seq<Record>) {
    && (forall k :: k in KeysAccepted(history, id) ==> Within(lo, hi, history, k))
    && (exists k :: k in KeysAccepted(history, id) && StartsAt(history, k, lo))
    && (exists k :: k in KeysAccepted(history, id) && EndsAt(history, k, hi))
  }

  /** The root is one of the earliest of the last records without a parent, or there is none. */
  ghost predicate RootsIn(service: string, operation: string, id: TraceId, history: seq<Record>) {
    if forall k :: k in KeysAccepted(history, id) ==> !Parentless(history, k) then service == "" && operation == ""
    else exists k :: k in KeysAccepted(history, id) && RootedAt(service, operation, id, history, k)
  }

  /** Every field of the summary is as the last records of the trace have it. */
  ghost predicate SummarisesRecords(t: TraceSummary, id: TraceId, history: seq<Record>) {
    && CountsRecords(t, id, history)
    && RangesOver(t.minStart, t.maxEnd, id, history)
    && RootsIn(t.rootService, t.rootOperation, id, history)
  }

  predicate Within(lo: nat, hi: nat, history: seq<Record>, k: Spans.SpanKey) {
    && Spans.LastLeaf(history, k).Some?
    && lo <= Spans.LastLeaf(history, k).value.item.start && Spans.LastLeaf(history, k).value.item.end <= hi
  }

  predicate StartsAt(history: seq<Record>, k: Spans.SpanKey, at: nat) {
    Spans.LastLeaf(history, k).Some? && Spans.LastLeaf(history, k).value.item.start == at
  }

  predicate EndsAt(history: seq<Record>, k: Spans.SpanKey, at: nat) {
    Spans.LastLeaf(history, k).Some? && Spans.LastLeaf(history, k).value.item.end == at
  }

  /** The last record of a span names no parent. */
  predicate Parentless(history: seq<Record>, k: Spans.SpanKey) {
    Spans.LastLeaf(history, k).Some? && Spans.LastLeaf(history, k).value.item.parentSpanId == []
  }

  ghost predicate RootedAt(service: string, operation: string, id: TraceId, history: seq<Record>, k: Spans.SpanKey) {
    && Parentless(history, k)
    && SpanReads.ServiceIs(Spans.LastLeaf(history, k).value, service)
    && operation == Spans.LastLeaf(history, k).value.item.name
    && forall m :: m in KeysAccepted(history, id) && Parentless(history, m) ==>
         Spans.LastLeaf(history, k).value.item.start <= Spans.LastLeaf(history, m).value.item.start
  }

  /** The keys of a trace in the table are those accepted for it, and each view is of the last record. */
  lemma KeysAreAccepted(history: seq<Record>, table: Spans.Table, id: TraceId)
    requires Spans.Reflects(table, history)
    ensures KeysAccepted(history, id) == KeysOfTrace(table, id)
  {
    forall k | k in KeysOfTrace(table, id) ensures k in KeysAccepted(history, id) {
      var leaf := Spans.LastLeaf(history, k).value;
      var i :| 0 <= i < |history| && history[i] == leaf;
      assert Spans.LeafKey(history[i]) == k;
    }
    forall i | 0 <= i < |history| && history[i].item.traceId == id ensures Spans.LeafKey(history[i]) in KeysOfTrace(table, id) {
      assert Spans.LastLeaf(history, Spans.LeafKey(history[i])).Some?;
    }
  }

  lemma ViewOfRecord(history: seq<Record>, table: Spans.Table, k: Spans.SpanKey)
    requires Spans.ValidTable(table) && Spans.Reflects(table, history) && k in table
    ensures Spans.LastLeaf(history, k).Some?
    ensures var leaf, s := Spans.LastLeaf(history, k).value, ViewOf(table[k].row);
            && KeyOf(s) == k && s.parentSpanId == leaf.item.parentSpanId && s.operation == leaf.item.name
            && s.start == leaf.item.start && s.end == leaf.item.end
            && SpanReads.ServiceIs(leaf, s.service) && (forall name :: SpanReads.ServiceIs(leaf, name) ==> name == s.service)
            && (s.status == 2 <==> SpanReads.StatusIs(leaf.item, 2))
  {
    var leaf := Spans.LastLeaf(history, k).value;
    Streaming.SingletonLeaves(leaf);
    SpanReads.StoredColumns(table, k);
    forall name | SpanReads.ServiceIs(leaf, name) ensures name == table[k].row.service {
      SpanReads.ServiceIsUnique(leaf, name, table[k].row.service);
    }
    SpanReads.StatusIsUnique(leaf.item, table[k].row.status, 2);
  }

  // What the summary counts, traced from the spans read to the table's keys.

  function OfTraceAnd(id: TraceId, p: SpanView -> bool): SpanView -> bool {
    (s: SpanView) => s.traceId == id && p(s)
  }

  lemma OwnCount(rows: seq<SpanView>, ids: set<TraceId>, spans: seq<SpanView>, id: TraceId, p: SpanView -> bool)
    requires AreSpansFor(rows, ids, spans) && id in ids
    ensures Count(SpansOf(spans, id), p) == Count(rows, OfTraceAnd(id, p))
  {
    var q := OfTraceAnd(id, p);
    CountCongruent(SpansOf(spans, id), p, q);
    CountInFilter(spans, OfTrace(id), q);
    CountPermutation(spans, Filter(rows, InTraces(ids)), q);
    CountInFilter(rows, InTraces(ids), q);
  }

  lemma KeyCount(history: seq<Record>, table: Spans.Table, keys: seq<Spans.SpanKey>, id: TraceId,
                 p: SpanView -> bool, q: Spans.SpanKey -> bool)
    requires Spans.ValidTable(table) && Spans.Reflects(table, history) && Lists(keys, table)
    requires forall i :: 0 <= i < |keys| ==> keys[i] in table
    requires forall k :: k in table && k.traceId == id ==> (p(ViewOf(table[k].row)) <==> q(k))
    ensures Count(Views(table, keys), OfTraceAnd(id, p)) == |Those(KeysAccepted(history, id), q)|
  {
    var mine := (k: Spans.SpanKey) => k.traceId == id && q(k);
    forall i | 0 <= i < |keys| ensures OfTraceAnd(id, p)(Views(table, keys)[i]) == mine(keys[i]) { ViewOfTrace(table, keys[i]); }
    CountViews(Views(table, keys), keys, OfTraceAnd(id, p), mine);
    KeysAreAccepted(history, table, id);
    assert KeysWith(keys, mine) == Those(KeysOfTrace(table, id), q);
  }

  /** `spans` may be read for the traces `ids`, one of them `id`, off a table that reflects the records accepted. */
  ghost predicate ReadFor(history: seq<Record>, table: Spans.Table, keys: seq<Spans.SpanKey>, ids: set<TraceId>, spans: seq<SpanView>, id: TraceId) {
    && Spans.ValidTable(table) && Spans.Reflects(table, history) && Lists(keys, table) && id in ids
    && (forall i :: 0 <= i < |keys| ==> keys[i] in table)
    && AreSpansFor(Views(table, keys), ids, spans)
  }

  /** A count over the spans read of a trace is a count of its keys. */
  lemma FieldCount(history: seq<Record>, table: Spans.Table, keys: seq<Spans.SpanKey>, ids: set<TraceId>, spans: seq<SpanView>, id: TraceId,
                   p: SpanView -> bool, q: Spans.SpanKey -> bool)
    requires ReadFor(history, table, keys, ids, spans, id)
    requires forall k :: k in table && k.traceId == id ==> (p(ViewOf(table[k].row)) <==> q(k))
    ensures Count(SpansOf(spans, id), p) == |Those(KeysAccepted(history, id), q)|
  {
    OwnCount(Views(table, keys), ids, spans, id, p);
    KeyCount(history, table, keys, id, p, q);
  }

  /** The spans of a trace are the views of its keys. */
  ghost predicate AreViewsOf(own: seq<SpanView>, table: Spans.Table, id: TraceId) {
    && (forall k {:trigger HasView(own, table, k)} :: k in KeysOfTrace(table, id) ==> HasView(own, table, k))
    && (forall i {:trigger IsView(own, i, table, id)} :: 0 <= i < |own| ==> IsView(own, i, table, id))
  }

  ghost predicate HasView(own: seq<SpanView>, table: Spans.Table, k: Spans.SpanKey) {
    k in table && exists i :: 0 <= i < |own| && own[i] == ViewOf(table[k].row)
  }

  predicate IsView(own: seq<SpanView>, i: int, table: Spans.Table, id: TraceId) {
    0 <= i < |own| && KeyOf(own[i]) in table && own[i].traceId == id && own[i] == ViewOf(table[KeyOf(own[i])].row)
  }

  lemma OwnIffRow(rows: seq<SpanView>, ids: set<TraceId>, spans: seq<SpanView>, id: TraceId)
    requires AreSpansFor(rows, ids, spans) && id in ids
    ensures forall s :: s in SpansOf(spans, id) <==> s in rows && s.traceId == id
  {
    SameMembers(spans, Filter(rows, InTraces(ids)));
  }

  lemma OwnMembers(history: seq<Record>, table: Spans.Table, keys: seq<Spans.SpanKey>, ids: set<TraceId>, spans: seq<SpanView>, id: TraceId)
    requires ReadFor(history, table, keys, ids, spans, id)
    ensures AreViewsOf(SpansOf(spans, id), table, id)
  {
    var rows, own := Views(table, keys), SpansOf(spans, id);
    OwnIffRow(rows, ids, spans, id);
    forall k | k in KeysOfTrace(table, id) ensures HasView(own, table, k) {
      RowHasView(table, keys, own, k, id);
    }
    forall i | 0 <= i < |own| ensures IsView(own, i, table, id) {
      assert own[i] in own;
      ViewIsRow(table, keys, own, i, id);
    }
  }

  lemma ViewIsRow(table: Spans.Table, keys: seq<Spans.SpanKey>, own: seq<SpanView>, i: nat, id: TraceId)
    requires Spans.ValidTable(table) && i < |own|
    requires forall j :: 0 <= j < |keys| ==> keys[j] in table
    requires own[i] in Views(table, keys) && own[i].traceId == id
    ensures IsView(own, i, table, id)
  {
    var j :| 0 <= j < |keys| && Views(table, keys)[j] == own[i];
    ViewOfTrace(table, keys[j]);
  }

  lemma RowHasView(table: Spans.Table, keys: seq<Spans.SpanKey>, own: seq<SpanView>, k: Spans.SpanKey, id: TraceId)
    requires Spans.ValidTable(table) && Lists(keys, table) && k in KeysOfTrace(table, id)
    requires forall i :: 0 <= i < |keys| ==> keys[i] in table
    requires forall s :: s in own <==> s in Views(table, keys) && s.traceId == id
    ensures HasView(own, table, k)
  {
    ViewOfTrace(table, k);
    assert k in keys;
    var i :| 0 <= i < |keys| && keys[i] == k;
    assert Views(table, keys)[i] in Views(table, keys);
    assert ViewOf(table[k].row) in own;
  }

  /** All fields of the summary of a trace, in terms of the last records accepted for it. */
  lemma SummaryOfRecords(history: seq<Record>, table: Spans.Table, keys: seq<Spans.SpanKey>, ids: set<TraceId>, spans: seq<SpanView>, id: TraceId)
    requires ReadFor(history, table, keys, ids, spans, id) && SpansOf(spans, id) != []
    ensures SummarisesRecords(Summary(SpansOf(spans, id)), id, history)
  {
    CountsOfRecords(history, table, keys, ids, spans, id);
    OwnMembers(history, table, keys, ids, spans, id);
    RangeOfSummary(history, table, id, SpansOf(spans, id));
    RootOfRecords(history, table, id, SpansOf(spans, id));
  }

  lemma RangeOfSummary(history: seq<Record>, table: Spans.Table, id: TraceId, own: seq<SpanView>)
    requires Spans.ValidTable(table) && Spans.Reflects(table, history) && AreViewsOf(own, table, id) && own != []
    ensures RangesOver(Summary(own).minStart, Summary(own).maxEnd, id, history)
  {
    SummaryRange(own);
    RangeOfRecords(history, table, id, own, Summary(own).minStart, Summary(own).maxEnd);
  }

  lemma CountsOfRecords(history: seq<Record>, table: Spans.Table, keys: seq<Spans.SpanKey>, ids: set<TraceId>, spans: seq<SpanView>, id: TraceId)
    requires ReadFor(history, table, keys, ids, spans, id)
    ensures CountsRecords(Summary(SpansOf(spans, id)), id, history)
  {
    CountOfAll(history, table, keys, ids, spans, id);
    CountOfErrors(history, table, keys, ids, spans, id);
    CountOfOrphans(history, table, keys, ids, spans, id);
    forall name ensures ServiceCounted(Summary(SpansOf(spans, id)), name, KeysAccepted(history, id), history) {
      CountOfService(history, table, keys, ids, spans, id, name);
    }
  }

  lemma CountOfAll(history: seq<Record>, table: Spans.Table, keys: seq<Spans.SpanKey>, ids: set<TraceId>, spans: seq<SpanView>, id: TraceId)
    requires ReadFor(history, table, keys, ids, spans, id)
    ensures |SpansOf(spans, id)| == |KeysAccepted(history, id)|
  {
    var all := (s: SpanView) => true;
    FieldCount(history, table, keys, ids, spans, id, all, k => true);
    CountOfTrue(SpansOf(spans, id), all);
    assert Those(KeysAccepted(history, id), k => true) == KeysAccepted(history, id);
  }

  lemma {:induction false} CountOfTrue(spans: seq<SpanView>, all: SpanView -> bool)
    requires forall s :: all(s)
    ensures Count(spans, all) == |spans|
  {
    if spans == [] {
    } else {
      CountOfTrue(spans[..|spans| - 1], all);
    }
  }

  lemma CountOfErrors(history: seq<Record>, table: Spans.Table, keys: seq<Spans.SpanKey>, ids: set<TraceId>, spans: seq<SpanView>, id: TraceId)
    requires ReadFor(history, table, keys, ids, spans, id)
    ensures Summary(SpansOf(spans, id)).errorCount == |Those(KeysAccepted(history, id), Failed(history))|
  {
    forall k | k in table && k.traceId == id ensures IsError()(ViewOf(table[k].row)) <==> Failed(history)(k) {
      ViewOfRecord(history, table, k);
    }
    FieldCount(history, table, keys, ids, spans, id, IsError(), Failed(history));
  }

  lemma CountOfOrphans(history: seq<Record>, table: Spans.Table, keys: seq<Spans.SpanKey>, ids: set<TraceId>, spans: seq<SpanView>, id: TraceId)
    requires ReadFor(history, table, keys, ids, spans, id)
    ensures Summary(SpansOf(spans, id)).orphanCount == |Those(KeysAccepted(history, id), Orphaned(history, id))|
  {
    var own := SpansOf(spans, id);
    OwnMembers(history, table, keys, ids, spans, id);
    KeysAreAccepted(history, table, id);
    forall x ensures x in SpanIds(own) <==> Spans.SpanKey(id, x) in KeysOfTrace(table, id) {
      if i :| 0 <= i < |own| && own[i].spanId == x { assert IsView(own, i, table, id); }
      if Spans.SpanKey(id, x) in KeysOfTrace(table, id) {
        ViewOfTrace(table, Spans.SpanKey(id, x));
        assert HasView(own, table, Spans.SpanKey(id, x));
        ViewOfRecord(history, table, Spans.SpanKey(id, x));
      }
    }
    forall k | k in table && k.traceId == id ensures IsOrphan(SpanIds(own))(ViewOf(table[k].row)) <==> Orphaned(history, id)(k) {
      ViewOfRecord(history, table, k);
    }
    FieldCount(history, table, keys, ids, spans, id, IsOrphan(SpanIds(own)), Orphaned(history, id));
  }

  lemma CountOfService(history: seq<Record>, table: Spans.Table, keys: seq<Spans.SpanKey>, ids: set<TraceId>, spans: seq<SpanView>, id: TraceId,
                       name: string)
    requires ReadFor(history, table, keys, ids, spans, id)
    ensures ServiceCounted(Summary(SpansOf(spans, id)), name, KeysAccepted(history, id), history)
  {
    var own, accepted := SpansOf(spans, id), KeysAccepted(history, id);
    forall k | k in table && k.traceId == id
      ensures OfService(name)(ViewOf(table[k].row)) <==> InService(history, name)(k)
      ensures ErrorOfService(name)(ViewOf(table[k].row)) <==> FailedInService(history, name)(k)
    {
      ViewOfRecord(history, table, k);
    }
    FieldCount(history, table, keys, ids, spans, id, OfService(name), InService(history, name));
    FieldCount(history, table, keys, ids, spans, id, ErrorOfService(name), FailedInService(history, name));
    if name in ServicesIn(own) {
      CountPresent(own, name);
    } else {
      NoneOfService(own, name);
    }
    assert |Those(accepted, InService(history, name))| == 0 <==> Those(accepted, InService(history, name)) == {};
  }

  lemma CountPresent(spans: seq<SpanView>, name: string)
    requires name in ServicesIn(spans)
    ensures 0 < Count(spans, OfService(name))
  {
    CountIsPlaces(spans, OfService(name));
    var i :| 0 <= i < |spans| && spans[i].service == name;
    assert i in Places(spans, OfService(name));
  }

  /** A span read is the last record of its key. */
  lemma MemberRecord(history: seq<Record>, table: Spans.Table, id: TraceId, own: seq<SpanView>, i: nat)
    requires Spans.ValidTable(table) && Spans.Reflects(table, history) && AreViewsOf(own, table, id) && i < |own|
    ensures var k := KeyOf(own[i]);
            && k in KeysAccepted(history, id) && Spans.LastLeaf(history, k).Some?
            && var leaf := Spans.LastLeaf(history, k).value;
               && own[i].start == leaf.item.start && own[i].end == leaf.item.end
               && own[i].parentSpanId == leaf.item.parentSpanId && own[i].operation == leaf.item.name
               && SpanReads.ServiceIs(leaf, own[i].service)
  {
    assert IsView(own, i, table, id);
    KeysAreAccepted(history, table, id);
    ViewOfRecord(history, table, KeyOf(own[i]));
  }

  /** The last record of every key accepted is among the spans read. */
  lemma RecordMember(history: seq<Record>, table: Spans.Table, id: TraceId, own: seq<SpanView>, k: Spans.SpanKey) returns (i: nat)
    requires Spans.ValidTable(table) && Spans.Reflects(table, history) && AreViewsOf(own, table, id)
    requires k in KeysAccepted(history, id)
    ensures i < |own| && KeyOf(own[i]) == k
  {
    KeysAreAccepted(history, table, id);
    assert HasView(own, table, k);
    ViewOfRecord(history, table, k);
    i :| 0 <= i < |own| && own[i] == ViewOf(table[k].row);
  }

  lemma RangeOfRecords(history: seq<Record>, table: Spans.Table, id: TraceId, own: seq<SpanView>, lo: nat, hi: nat)
    requires Spans.ValidTable(table) && Spans.Reflects(table, history) && AreViewsOf(own, table, id)
    requires forall i :: 0 <= i < |own| ==> (own[i].start < 0 || lo <= own[i].start) && own[i].end <= hi
    requires exists i :: 0 <= i < |own| && lo == if own[i].start < 0 then 0 else own[i].start
    requires exists i :: 0 <= i < |own| && hi == if own[i].end < 0 then 0 else own[i].end
    ensures RangesOver(lo, hi, id, history)
  {
    forall k | k in KeysAccepted(history, id) ensures Within(lo, hi, history, k) {
      var i := RecordMember(history, table, id, own, k);
      MemberRecord(history, table, id, own, i);
    }
    var first :| 0 <= first < |own| && lo == if own[first].start < 0 then 0 else own[first].start;
    MemberRecord(history, table, id, own, first);
    assert StartsAt(history, KeyOf(own[first]), lo);
    var last :| 0 <= last < |own| && hi == if own[last].end < 0 then 0 else own[last].end;
    MemberRecord(history, table, id, own, last);
    assert EndsAt(history, KeyOf(own[last]), hi);
  }

  lemma RootOfRecords(history: seq<Record>, table: Spans.Table, id: TraceId, own: seq<SpanView>)
    requires Spans.ValidTable(table) && Spans.Reflects(table, history) && AreViewsOf(own, table, id)
    ensures RootsIn(Summary(own).rootService, Summary(own).rootOperation, id, history)
  {
    RootIsEarliest(own);
    if k :| k in KeysAccepted(history, id) && Parentless(history, k) {
      var i := RecordMember(history, table, id, own, k);
      MemberRecord(history, table, id, own, i);
      var r :| EarliestRoot(own, r) && Summary(own).rootService == own[r].service && Summary(own).rootOperation == own[r].operation;
      RootIsRecord(history, table, id, own, r);
    } else {
      forall j | 0 <= j < |own| ensures own[j].parentSpanId != [] { MemberRecord(history, table, id, own, j); }
    }
  }

  lemma RootIsRecord(history: seq<Record>, table: Spans.Table, id: TraceId, own: seq<SpanView>, r: nat)
    requires Spans.ValidTable(table) && Spans.Reflects(table, history) && AreViewsOf(own, table, id)
    requires EarliestRoot(own, r)
    ensures KeyOf(own[r]) in KeysAccepted(history, id) && RootedAt(own[r].service, own[r].operation, id, history, KeyOf(own[r]))
  {
    var k := KeyOf(own[r]);
    MemberRecord(history, table, id, own, r);
    forall m | m in KeysAccepted(history, id) && Parentless(history, m)
      ensures Spans.LastLeaf(history, k).value.item.start <= Spans.LastLeaf(history, m).value.item.start
    {
      var i := RecordMember(history, table, id, own, m);
      MemberRecord(history, table, id, own, i);
    }
  }

  /** The summary is of the found trace as a whole, field by field, so its range encloses the found one. */
  ghost predicate SummarisesStored(t: TraceSummary, f: FoundTrace, table: Spans.Table, history: seq<Record>) {
    && t.traceId == f.traceId
    && t.minStart <= f.start && f.end <= t.maxEnd
    && t.spanCount == |KeysOfTrace(table, f.traceId)|
    && SummarisesRecords(t, f.traceId, history)
  }

  ghost predicate IsSummarised(out: seq<TraceSummary>, f: FoundTrace, table: Spans.Table, history: seq<Record>) {
    exists j :: 0 <= j < |out| && SummarisesStored(out[j], f, table, history)
  }

  /** Some stored row of the trace passes the filter. */
  ghost predicate HasMatch(table: Spans.Table, matches: Spans.SpanRow -> bool, id: TraceId) {
    exists k :: k in table && matches(table[k].row) && k.traceId == id
  }

  lemma FoundHasSpan(table: Spans.Table, keys: seq<Spans.SpanKey>, matches: Spans.SpanRow -> bool, f: FoundTrace)
    requires Lists(keys, table) && (forall i :: 0 <= i < |keys| ==> keys[i] in table)
    requires FoundRange(Views(table, keys), OnViews(table, matches), f)
    ensures HasMatch(table, matches, f.traceId)
  {
    var s :| s in Views(table, keys) && OnViews(table, matches)(s) && s.traceId == f.traceId && s.start == f.start;
    assert KeyOf(s) in table;
  }

  lemma ListsIn(keys: seq<Spans.SpanKey>, table: Spans.Table)
    requires Lists(keys, table)
    ensures forall i :: 0 <= i < |keys| ==> keys[i] in table
  {
    assert forall i :: 0 <= i < |keys| ==> keys[i] in keys;
  }

  /** `find_trace_summaries`: the statements may answer with `found` and `spans`. */
  ghost predicate MayFind(table: Spans.Table, keys: seq<Spans.SpanKey>, matches: Spans.SpanRow -> bool, depth: nat,
                          found: seq<FoundTrace>, spans: seq<SpanView>) {
    && Lists(keys, table)
    && (ListsIn(keys, table);
        AreFound(Views(table, keys), OnViews(table, matches), depth, found) && AreSpansFor(Views(table, keys), FoundIds(found), spans))
  }

  /**
   `find_trace_summaries` over a store written by any run of exports: one summary per found trace, every
   field of it as the last records accepted for that trace have it.
   */
  method FindTraceSummaries(store: Spans.SpanStore, ghost keys: seq<Spans.SpanKey>, ghost matches: Spans.SpanRow -> bool, ghost depth: nat,
                            found: seq<FoundTrace>, spans: seq<SpanView>)
    returns (out: seq<TraceSummary>)
    requires store.Valid() && MayFind(store.spans, keys, matches, depth, found, spans)
    ensures AreSummaries(out, spans) && |out| == |found| <= depth
    ensures forall i :: 0 <= i < |found| ==> HasMatch(store.spans, matches, found[i].traceId)
    ensures forall i :: 0 <= i < |found| ==> IsSummarised(out, found[i], store.spans, store.history)
  {
    out := Summaries(spans);
    StoredTraceSummaries(store.history, store.spans, keys, matches, depth, found, spans, out);
  }

  /** The premise on times in `OneSummaryPerFoundTrace` is what the store keeps of its rows. */
  lemma StoredTraceSummaries(history: seq<Record>, table: Spans.Table, keys: seq<Spans.SpanKey>, matches: Spans.SpanRow -> bool, depth: nat,
                             found: seq<FoundTrace>, spans: seq<SpanView>, out: seq<TraceSummary>)
    requires Spans.ValidTable(table) && Spans.Reflects(table, history)
    requires MayFind(table, keys, matches, depth, found, spans) && AreSummaries(out, spans)
    ensures |out| == |found|
    ensures forall i :: 0 <= i < |found| ==> HasMatch(table, matches, found[i].traceId)
    ensures forall i :: 0 <= i < |found| ==> IsSummarised(out, found[i], table, history)
  {
    ListsIn(keys, table);
    var rows := Views(table, keys);
    forall i | 0 <= i < |rows| ensures 0 <= rows[i].start && 0 <= rows[i].end { ViewOfTrace(table, keys[i]); }
    OneSummaryPerFoundTrace(rows, OnViews(table, matches), depth, found, spans, out);
    forall i | 0 <= i < |found|
      ensures HasMatch(table, matches, found[i].traceId) && IsSummarised(out, found[i], table, history)
    {
      FoundHasSpan(table, keys, matches, found[i]);
      var j :| 0 <= j < |out| && Summarises(out[j], found[i], rows);
      assert SummaryIds(out)[j] in SummaryIds(out) && found[i].traceId in FoundIds(found);
      StoredSummary(history, table, keys, FoundIds(found), spans, out[j], found[i]);
    }
  }

  lemma StoredSummary(history: seq<Record>, table: Spans.Table, keys: seq<Spans.SpanKey>, ids: set<TraceId>, spans: seq<SpanView>,
                      t: TraceSummary, f: FoundTrace)
    requires ReadFor(history, table, keys, ids, spans, f.traceId) && f.traceId in TracesIn(spans)
    requires Summarises(t, f, Views(table, keys)) && t == Summary(SpansOf(spans, f.traceId))
    ensures SummarisesStored(t, f, table, history)
  {
    SummaryOfTrace(spans, f.traceId);
    SummaryOfRecords(history, table, keys, ids, spans, f.traceId);
    StoredCount(table, keys, f.traceId);
  }

  lemma StoredCount(table: Spans.Table, keys: seq<Spans.SpanKey>, id: TraceId)
    requires Spans.ValidTable(table) && Lists(keys, table) && forall i :: 0 <= i < |keys| ==> keys[i] in table
    ensures Count(Views(table, keys), OfTrace(id)) == |KeysOfTrace(table, id)|
  {
    var q := (k: Spans.SpanKey) => k.traceId == id;
    forall i | 0 <= i < |keys| ensures OfTrace(id)(Views(table, keys)[i]) == q(keys[i]) { ViewOfTrace(table, keys[i]); }
    CountViews(Views(table, keys), keys, OfTrace(id), q);
    assert KeysWith(keys, q) == KeysOfTrace(table, id);
  }

  // ---------------------------------------------------------------- streaming traces

  /** The order of BYTEA values. */
  predicate BytesBelow(a: seq<Byte>, b: seq<Byte>) {
    b != [] && (a == [] || a[0] < b[0] || (a[0] == b[0] && BytesBelow(a[1..], b[1..])))
  }

  /** In the order of `spans_for_ids`: by trace, then by start. */
  predicate NotAfter(aTrace: TraceId, aStart: int, bTrace: TraceId, bStart: int) {
    BytesBelow(aTrace, bTrace) || (aTrace == bTrace && aStart <= bStart)
  }

  /** `spans_for_ids`: the keys of the rows it may return, equal starts in any order. */
  ghost predicate MayRead(table: Spans.Table, ids: set<TraceId>, keys: seq<Spans.SpanKey>) {
    && NoDuplicates(keys)
    && (forall k {:trigger k in keys} :: k in keys <==> k in table && k.traceId in ids)
    && (forall j :: 0 <= j < |keys| ==> keys[j] in table)
    && (forall i, j :: 0 <= i < j < |keys| ==>
          NotAfter(keys[i].traceId, table[keys[i]].row.start, keys[j].traceId, table[keys[j]].row.start))
  }

  lemma {:induction false} BytesTransitive(a: seq<Byte>, b: seq<Byte>, c: seq<Byte>)
    requires BytesBelow(a, b) && BytesBelow(b, c)
    ensures BytesBelow(a, c)
  {
    if a == [] || a[0] < b[0] || b[0] < c[0] {
    } else {
      BytesTransitive(a[1..], b[1..], c[1..]);
    }
  }

  lemma {:induction false} BytesTotal(a: seq<Byte>, b: seq<Byte>)
    ensures BytesBelow(a, b) || a == b || BytesBelow(b, a)
  {
    if a == [] || b == [] || a[0] != b[0] {
    } else {
      BytesTotal(a[1..], b[1..]);
      assert a == [a[0]] + a[1..] && b == [b[0]] + b[1..];
    }
  }

  predicate KeyNotAfter(table: Spans.Table, a: Spans.SpanKey, b: Spans.SpanKey) {
    a in table && b in table && NotAfter(a.traceId, table[a].row.start, b.traceId, table[b].row.start)
  }

  lemma KeyOrder(table: Spans.Table, a: Spans.SpanKey, b: Spans.SpanKey, c: Spans.SpanKey)
    requires a in table && b in table && c in table
    ensures KeyNotAfter(table, a, b) || KeyNotAfter(table, b, a)
    ensures KeyNotAfter(table, a, b) && KeyNotAfter(table, b, c) ==> KeyNotAfter(table, a, c)
  {
    BytesTotal(a.traceId, b.traceId);
    if BytesBelow(a.traceId, b.traceId) && BytesBelow(b.traceId, c.traceId) {
      BytesTransitive(a.traceId, b.traceId, c.traceId);
    }
  }

  ghost predicate InKeyOrder(table: Spans.Table, keys: seq<Spans.SpanKey>) {
    NoDuplicates(keys) && forall i, j :: 0 <= i < j < |keys| ==> KeyNotAfter(table, keys[i], keys[j])
  }

  lemma {:induction false} InsertKey(table: Spans.Table, keys: seq<Spans.SpanKey>, k: Spans.SpanKey) returns (r: seq<Spans.SpanKey>)
    requires InKeyOrder(table, keys) && k in table && k !in keys && forall j :: 0 <= j < |keys| ==> keys[j] in table
    ensures InKeyOrder(table, r)
    ensures forall x {:trigger x in r} :: x in r <==> x in keys || x == k
  {
    if keys == [] {
      r := [k];
    } else {
      var n := |keys| - 1;
      if KeyNotAfter(table, keys[n], k) {
        forall j | 0 <= j < n ensures KeyNotAfter(table, keys[j], k) { KeyOrder(table, keys[j], keys[n], k); }
        r := keys + [k];
      } else {
        KeyOrder(table, keys[n], k, k);
        assert keys == keys[..n] + [keys[n]];
        var s := InsertKey(table, keys[..n], k);
        assert forall j :: 0 <= j < |s| ==> s[j] in s;
        r := s + [keys[n]];
      }
    }
  }

  lemma {:induction false} OrderKeys(table: Spans.Table, pending: set<Spans.SpanKey>) returns (keys: seq<Spans.SpanKey>)
    requires pending <= table.Keys
    ensures InKeyOrder(table, keys)
    ensures forall k {:trigger k in keys} :: k in keys <==> k in pending
  {
    if pending == {} {
      keys := [];
    } else {
      var k :| k in pending;
      var rest := OrderKeys(table, pending - {k});
      assert forall j :: 0 <= j < |rest| ==> rest[j] in rest;
      keys := InsertKey(table, rest, k);
    }
  }

  /** For any table and identifiers there is an answer the statement may give. */
  lemma ReadHasAnswer(table: Spans.Table, ids: set<TraceId>) returns (keys: seq<Spans.SpanKey>)
    ensures MayRead(table, ids, keys)
  {
    keys := OrderKeys(table, set k | k in table && k.traceId in ids);
    assert forall j :: 0 <= j < |keys| ==> keys[j] in keys;
    assert forall i, j :: 0 <= i < j < |keys| ==> KeyNotAfter(table, keys[i], keys[j]);
  }

  /**
   The records of some traces, as a caller may expect them: of every key accepted for one of the traces
   the last record, once, by trace and start, and nothing else.
   */
  ghost predicate AreTraces(history: seq<Record>, ids: set<TraceId>, got: seq<Record>) {
    && (forall j :: 0 <= j < |got| ==> Spans.LastLeaf(history, Spans.LeafKey(got[j])) == Some(got[j]) && got[j].item.traceId in ids)
    && (forall i, j :: 0 <= i < j < |got| ==> Spans.LeafKey(got[i]) != Spans.LeafKey(got[j]))
    && (forall i :: 0 <= i < |history| && history[i].item.traceId in ids ==> IsAmong(history[i], got))
    && (forall i, j :: 0 <= i < j < |got| ==>
          NotAfter(got[i].item.traceId, got[i].item.start, got[j].item.traceId, got[j].item.start))
  }

  /** The record's span is among `got`. */
  ghost predicate IsAmong(leaf: Record, got: seq<Record>) {
    exists j :: 0 <= j < |got| && Spans.LeafKey(got[j]) == Spans.LeafKey(leaf)
  }

  /** The records in the rows read. */
  ghost function Records(history: seq<Record>, table: Spans.Table, keys: seq<Spans.SpanKey>): (got: seq<Record>)
    requires Spans.Reflects(table, history) && forall j :: 0 <= j < |keys| ==> keys[j] in table
    ensures |got| == |keys|
  {
    seq(|keys|, j requires 0 <= j < |keys| => Spans.LastLeaf(history, keys[j]).value)
  }

  /** A stored row's start is that of its record. */
  lemma StoredStart(history: seq<Record>, table: Spans.Table, key: Spans.SpanKey)
    requires Spans.ValidTable(table) && Spans.Reflects(table, history) && key in table
    ensures Spans.LastLeaf(history, key).Some? && table[key].row.payload == Singleton(Spans.LastLeaf(history, key).value)
    ensures table[key].row.start == Spans.LastLeaf(history, key).value.item.start
  {
    Streaming.SingletonLeaves(Spans.LastLeaf(history, key).value);
  }

  lemma RecordsAreTraces(history: seq<Record>, table: Spans.Table, ids: set<TraceId>, keys: seq<Spans.SpanKey>)
    requires Spans.ValidTable(table) && Spans.Reflects(table, history) && MayRead(table, ids, keys)
    ensures AreTraces(history, ids, Records(history, table, keys))
  {
    var got := Records(history, table, keys);
    forall j | 0 <= j < |got| ensures Spans.LastLeaf(history, Spans.LeafKey(got[j])) == Some(got[j]) && got[j].item.traceId in ids {
      RecordAt(history, table, ids, keys, j);
    }
    forall i, j | 0 <= i < j < |got|
      ensures Spans.LeafKey(got[i]) != Spans.LeafKey(got[j])
      ensures NotAfter(got[i].item.traceId, got[i].item.start, got[j].item.traceId, got[j].item.start)
    {
      RecordAt(history, table, ids, keys, i);
      RecordAt(history, table, ids, keys, j);
    }
    forall i | 0 <= i < |history| && history[i].item.traceId in ids ensures IsAmong(history[i], got) {
      RecordIsRead(history, table, ids, keys, i);
    }
  }

  lemma RecordAt(history: seq<Record>, table: Spans.Table, ids: set<TraceId>, keys: seq<Spans.SpanKey>, j: nat)
    requires Spans.ValidTable(table) && Spans.Reflects(table, history) && MayRead(table, ids, keys) && j < |keys|
    ensures var leaf := Records(history, table, keys)[j];
            && Spans.LeafKey(leaf) == keys[j] && leaf.item.traceId in ids && leaf.item.start == table[keys[j]].row.start
            && Spans.LastLeaf(history, keys[j]) == Some(leaf)
  {
    assert keys[j] in keys;
    StoredStart(history, table, keys[j]);
  }

  /** Every record of the traces named is superseded or read. */
  lemma RecordIsRead(history: seq<Record>, table: Spans.Table, ids: set<TraceId>, keys: seq<Spans.SpanKey>, i: nat)
    requires Spans.ValidTable(table) && Spans.Reflects(table, history) && MayRead(table, ids, keys)
    requires i < |history| && history[i].item.traceId in ids
    ensures IsAmong(history[i], Records(history, table, keys))
  {
    var key := Spans.LeafKey(history[i]);
    assert Spans.LastLeaf(history, key).Some? && key in keys;
    var j :| 0 <= j < |keys| && keys[j] == key;
    assert Spans.LeafKey(Records(history, table, keys)[j]) == key;
  }

  /** `stream_ids`: one message per row read, its payload. */
  method StreamIds(store: Spans.SpanStore, ghost ids: set<TraceId>, keys: seq<Spans.SpanKey>)
    returns (messages: seq<Streaming.Message<Spans.Span>>)
    requires store.Valid() && MayRead(store.spans, ids, keys)
    ensures |messages| == |keys| && forall j :: 0 <= j < |messages| ==> |Leaves(messages[j])| == 1
    ensures AreTraces(store.history, ids, Leaves(Streaming.Merged(messages)))
  {
    ghost var history, table := store.history, store.spans;
    ghost var payloads := Streaming.Payloads(Records(history, table, keys));
    RowPayloads(history, table, keys);
    messages := [];
    for j := 0 to |keys|
      invariant messages == payloads[..j]
    {
      messages := messages + [store.spans[keys[j]].row.payload];
    }
    assert messages == payloads;
    PayloadRecords(Records(history, table, keys));
    RecordsAreTraces(history, table, ids, keys);
  }

  /** Message `j` is the payload of the row read at place `j`. */
  lemma RowPayloads(history: seq<Record>, table: Spans.Table, keys: seq<Spans.SpanKey>)
    requires Spans.ValidTable(table) && Spans.Reflects(table, history) && forall j :: 0 <= j < |keys| ==> keys[j] in table
    ensures forall j :: 0 <= j < |keys| ==> Streaming.Payloads(Records(history, table, keys))[j] == table[keys[j]].row.payload
  {
    forall j | 0 <= j < |keys| ensures Singleton(Records(history, table, keys)[j]) == table[keys[j]].row.payload {
      StoredStart(history, table, keys[j]);
    }
  }

  lemma PayloadRecords(got: seq<Record>)
    ensures Leaves(Streaming.Merged(Streaming.Payloads(got))) == got
    ensures forall j :: 0 <= j < |got| ==> |Leaves(Streaming.Payloads(got)[j])| == 1
  {
    Streaming.MergeInvertsSplit(got);
    forall j | 0 <= j < |got| ensures |Leaves(Streaming.Payloads(got)[j])| == 1 { Streaming.SingletonLeaves(got[j]); }
  }

  datatype InvalidTraceId = InvalidTraceId

  function IdSet(ids: seq<TraceId>): set<TraceId> {
    set id | id in ids
  }

  /**
   `get_traces`: refused if some identifier is not of sixteen bytes; otherwise the last records
   accepted for the traces named, each once, by trace and start.
   */
  method GetTraces(store: Spans.SpanStore, ids: seq<TraceId>, keys: seq<Spans.SpanKey>)
    returns (r: Result<seq<Streaming.Message<Spans.Span>>, InvalidTraceId>)
    requires store.Valid() && MayRead(store.spans, IdSet(ids), keys)
    ensures r.Ok? <==> forall i :: 0 <= i < |ids| ==> |ids[i]| == 16
    ensures r.Ok? ==> AreTraces(store.history, IdSet(ids), Leaves(Streaming.Merged(r.value)))
  {
    if exists i :: 0 <= i < |ids| && |ids[i]| != 16 {
      return Err(InvalidTraceId);
    }
    var messages := StreamIds(store, IdSet(ids), keys);
    return Ok(messages);
  }

  /** `find_traces`: the same for the traces the search finds, each of which has a matching span. */
  method FindTraces(store: Spans.SpanStore, ghost listed: seq<Spans.SpanKey>, ghost matches: Spans.SpanRow -> bool, ghost depth: nat,
                    found: seq<FoundTrace>, keys: seq<Spans.SpanKey>)
    returns (messages: seq<Streaming.Message<Spans.Span>>)
    requires store.Valid() && Lists(listed, store.spans)
    requires (ListsIn(listed, store.spans); AreFound(Views(store.spans, listed), OnViews(store.spans, matches), depth, found))
    requires MayRead(store.spans, FoundIds(found), keys)
    ensures AreTraces(store.history, FoundIds(found), Leaves(Streaming.Merged(messages)))
    ensures forall i :: 0 <= i < |found| ==> HasMatch(store.spans, matches, found[i].traceId)
  {
    ListsIn(listed, store.spans);
    forall i | 0 <= i < |found| ensures HasMatch(store.spans, matches, found[i].traceId) {
      FoundHasSpan(store.spans, listed, matches, found[i]);
    }
    messages := StreamIds(store, FoundIds(found), keys);
  }
}
