/** The service dependency graph: a self-join over the span table, counted per pair of services. */
module Dependencies {
  import opened Common
  import opened Spans

  /** A dependency: the caller's service and the callee's. */
  datatype Edge = Edge(parent: string, child: string)

  /** One row of `spans c JOIN spans p`. */
  datatype Pair = Pair(child: SpanKey, parent: SpanKey)

  predicate InWindow(row: SpanRow, start: int, end: int) {
    start <= row.start && row.start < end
  }

  /** The join condition together with the WHERE clause. */
  predicate Joined(table: Table, start: int, end: int, pair: Pair) {
    && pair.child in table && pair.parent in table
    && pair.parent.traceId == pair.child.traceId
    && pair.parent.spanId == table[pair.child].row.parentSpanId
    && InWindow(table[pair.child].row, start, end)
    && table[pair.parent].row.service != table[pair.child].row.service
  }

  function JoinRows(table: Table, start: int, end: int): set<Pair> {
    set c, p | c in table && p in table && Joined(table, start, end, Pair(c, p)) :: Pair(c, p)
  }

  /** `COUNT(*)` of one group of the join. */
  function Calls(table: Table, start: int, end: int, edge: Edge): nat {
    |set pair | pair in JoinRows(table, start, end)
                && table[pair.parent].row.service == edge.parent && table[pair.child].row.service == edge.child|
  }

  // ---------------------------------------------------------------- counting children instead

  /** The key a span's parent would have. */
  function ParentKey(table: Table, child: SpanKey): SpanKey
    requires child in table
  {
    SpanKey(child.traceId, table[child].row.parentSpanId)
  }

  /** A span of the window whose parent is stored and belongs to another service. */
  predicate CrossService(table: Table, start: int, end: int, child: SpanKey) {
    && child in table && InWindow(table[child].row, start, end)
    && ParentKey(table, child) in table
    && table[ParentKey(table, child)].row.service != table[child].row.service
  }

  function CrossChildren(table: Table, start: int, end: int): set<SpanKey> {
    set child | child in table && CrossService(table, start, end, child)
  }

  function EdgeOf(table: Table, child: SpanKey): Edge {
    if child in table && ParentKey(table, child) in table
    then Edge(table[ParentKey(table, child)].row.service, table[child].row.service)
    else Edge("", "")
  }

  function KeyByEdge(table: Table): SpanKey -> Edge {
    (child: SpanKey) => EdgeOf(table, child)
  }

  function ChildrenOf(table: Table, start: int, end: int, edge: Edge): set<SpanKey> {
    Fiber(CrossChildren(table, start, end), KeyByEdge(table), edge)
  }

  /** The graph of a function has as many pairs as its domain has elements. */
  lemma {:induction false} GraphSize(pairs: set<Pair>, children: set<SpanKey>, parent: SpanKey -> SpanKey)
    requires forall pair :: pair in pairs <==> pair.child in children && pair.parent == parent(pair.child)
    ensures |pairs| == |children|
  {
    if children == {} {
      assert pairs == {};
    } else {
      var c :| c in children;
      var pair := Pair(c, parent(c));
      assert pair in pairs;
      GraphSize(pairs - {pair}, children - {c}, parent);
    }
  }

  /**
   The self-join counts children: because a span's key is unique, each child meets at most one
   parent, the one its own parent identifier names.
   */
  lemma CallsCountChildren(table: Table, start: int, end: int, edge: Edge)
    ensures Calls(table, start, end, edge) == |ChildrenOf(table, start, end, edge)|
  {
    var pairs := set pair | pair in JoinRows(table, start, end)
                   && table[pair.parent].row.service == edge.parent && table[pair.child].row.service == edge.child;
    var children := ChildrenOf(table, start, end, edge);
    var parent := (c: SpanKey) => if c in table then ParentKey(table, c) else c;
    forall pair: Pair ensures pair in pairs <==> pair.child in children && pair.parent == parent(pair.child) {
      if pair in pairs {
        assert Joined(table, start, end, pair);
        assert pair.parent == ParentKey(table, pair.child);
      }
      if pair.child in children && pair.parent == parent(pair.child) {
        assert Joined(table, start, end, Pair(pair.child, pair.parent));
        assert pair == Pair(pair.child, pair.parent);
      }
    }
    GraphSize(pairs, children, parent);
  }

  /** A span starting in the window, of the called service, whose parent is stored and of the calling one. */
  predicate CalledFrom(table: Table, start: int, end: int, edge: Edge, c: SpanKey) {
    && c in table && start <= table[c].row.start < end && table[c].row.service == edge.child
    && SpanKey(c.traceId, table[c].row.parentSpanId) in table
    && table[SpanKey(c.traceId, table[c].row.parentSpanId)].row.service == edge.parent
  }

  /** The calls of an edge are such spans; a service does not call itself. */
  lemma CallsAre(table: Table, start: int, end: int, edge: Edge)
    ensures Calls(table, start, end, edge)
         == if edge.parent == edge.child then 0 else |set c | c in table && CalledFrom(table, start, end, edge, c)|
  {
    CallsCountChildren(table, start, end, edge);
    var children := ChildrenOf(table, start, end, edge);
    if edge.parent == edge.child {
      assert children == {};
    } else {
      assert children == set c | c in table && CalledFrom(table, start, end, edge, c);
    }
  }

  /** The edges that occur. */
  function Edges(table: Table, start: int, end: int): set<Edge> {
    set child | child in CrossChildren(table, start, end) :: EdgeOf(table, child)
  }

  function CallsByEdge(table: Table, start: int, end: int): Edge -> int {
    (edge: Edge) => Calls(table, start, end, edge)
  }

  /** All calls together are the spans of the window whose stored parent is in another service. */
  lemma TotalCalls(table: Table, start: int, end: int)
    ensures SumOver(Edges(table, start, end), CallsByEdge(table, start, end)) == |CrossChildren(table, start, end)|
  {
    var children, edges := CrossChildren(table, start, end), Edges(table, start, end);
    FiberPartition(children, edges, KeyByEdge(table));
    forall edge { CallsCountChildren(table, start, end, edge); }
    SumOverCongruent(edges, CallsByEdge(table, start, end), FiberSize(children, KeyByEdge(table)));
  }

  /** The edges listed are those with a call. */
  lemma EdgesAre(table: Table, start: int, end: int, edge: Edge)
    ensures edge in Edges(table, start, end) <==> 0 < Calls(table, start, end, edge)
  {
    CallsCountChildren(table, start, end, edge);
    var children := ChildrenOf(table, start, end, edge);
    if edge in Edges(table, start, end) {
      var c :| c in CrossChildren(table, start, end) && EdgeOf(table, c) == edge;
      assert c in children;
    }
    if children != {} {
      var c :| c in children;
      assert c in CrossChildren(table, start, end) && EdgeOf(table, c) == edge;
    }
  }

  /** Adjacent windows add up, edge by edge. */
  lemma WindowsAdd(table: Table, a: int, b: int, c: int, edge: Edge)
    requires a <= b <= c
    ensures Calls(table, a, b, edge) + Calls(table, b, c, edge) == Calls(table, a, c, edge)
  {
    CallsCountChildren(table, a, b, edge);
    CallsCountChildren(table, b, c, edge);
    CallsCountChildren(table, a, c, edge);
    var first, second, whole := ChildrenOf(table, a, b, edge), ChildrenOf(table, b, c, edge), ChildrenOf(table, a, c, edge);
    assert whole == first + second && first !! second;
    assert |first + second| == |first| + |second|;
  }
}
