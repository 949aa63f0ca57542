/** The OTLP messages this store accepts, as far as its logic looks into them. */
module Telemetry {
  import opened Common

  type Byte = b: int | 0 <= b < 256

  /** A double is the decimal its shortest printed form denotes, or has none (infinities, NaN). */
  datatype Double = Finite(decimal: real) | NonFinite

  /** `AnyValue` as exporters send it; `Empty` has no field of the oneof set. */
  datatype AnyValue =
    | Empty
    | StringValue(s: string)
    | StringIndex(index: int)
    | BoolValue(b: bool)
    | IntValue(i: int)
    | DoubleValue(d: Double)
    | BytesValue(bytes: seq<Byte>)
    | ArrayValue(values: seq<AnyValue>)
    | KvlistValue(entries: seq<KeyValue>)

  datatype KeyValue = KeyValue(key: string, value: Option<AnyValue>)

  /** `AnyValue` as trace queries carry it: a separate message without the string-table index. */
  datatype QueryValue =
    | QueryEmpty
    | QueryString(s: string)
    | QueryBool(b: bool)
    | QueryInt(i: int)
    | QueryDouble(d: Double)
    | QueryBytes(bytes: seq<Byte>)
    | QueryArray(values: seq<QueryValue>)
    | QueryKvlist(entries: seq<QueryEntry>)

  datatype QueryEntry = QueryEntry(key: string, value: Option<QueryValue>)

  datatype Resource = Resource(attributes: seq<KeyValue>)

  datatype Scope = Scope(name: string, attributes: seq<KeyValue>)

  /** One resource's share of an export; `I` is a span, a log record or a metric. */
  datatype ResourceGroup<I> = ResourceGroup(resource: Option<Resource>, scopes: seq<ScopeGroup<I>>, schemaUrl: string)

  datatype ScopeGroup<I> = ScopeGroup(scope: Option<Scope>, items: seq<I>, schemaUrl: string)

  // ---------------------------------------------------------------- the records of an export

  /** One record with everything it inherits from its place in the export. */
  datatype Leaf<I> = Leaf(resource: Option<Resource>, resourceSchema: string,
                          scope: Option<Scope>, scopeSchema: string, item: I)
  {
    function ResourceAttributes(): seq<KeyValue> {
      if resource.Some? then resource.value.attributes else []
    }

    function ScopeAttributes(): seq<KeyValue> {
      if scope.Some? then scope.value.attributes else []
    }
  }

  function ScopeLeaves<I>(group: ResourceGroup<I>, scope: ScopeGroup<I>): (ls: seq<Leaf<I>>)
    ensures |ls| == |scope.items|
  {
    seq(|scope.items|, i requires 0 <= i < |scope.items| =>
      Leaf(group.resource, group.schemaUrl, scope.scope, scope.schemaUrl, scope.items[i]))
  }

  function GroupLeaves<I>(group: ResourceGroup<I>, scopes: seq<ScopeGroup<I>>): seq<Leaf<I>> {
    if scopes == [] then []
    else GroupLeaves(group, scopes[..|scopes| - 1]) + ScopeLeaves(group, scopes[|scopes| - 1])
  }

  function GroupRecords<I>(group: ResourceGroup<I>): seq<Leaf<I>> {
    GroupLeaves(group, group.scopes)
  }

  /** All records of an export in the order the write loops visit them. */
  function Leaves<I>(data: seq<ResourceGroup<I>>): seq<Leaf<I>> {
    FlatMap(data, GroupRecords)
  }

  lemma {:induction false} GroupLeavesAppend<I>(group: ResourceGroup<I>, a: seq<ScopeGroup<I>>, b: seq<ScopeGroup<I>>)
    ensures GroupLeaves(group, a + b) == GroupLeaves(group, a) + GroupLeaves(group, b)
  {
    if b == [] {
      assert a + b == a;
    } else {
      GroupLeavesAppend(group, a, b[..|b| - 1]);
      assert (a + b)[..|a + b| - 1] == a + b[..|b| - 1];
    }
  }

  lemma LeavesAppend<I>(a: seq<ResourceGroup<I>>, b: seq<ResourceGroup<I>>)
    ensures Leaves(a + b) == Leaves(a) + Leaves(b)
  {
    FlatMapAppend(a, b, GroupRecords);
  }

  /** The record is item `i` of scope group `s` of resource group `g`, with what it inherits from them. */
  predicate StandsAt<I(==)>(leaf: Leaf<I>, data: seq<ResourceGroup<I>>, g: int, s: int, i: int) {
    && 0 <= g < |data| && leaf.resource == data[g].resource && leaf.resourceSchema == data[g].schemaUrl
    && StandsIn(leaf, data[g].scopes, s, i)
  }

  predicate StandsIn<I(==)>(leaf: Leaf<I>, scopes: seq<ScopeGroup<I>>, s: int, i: int) {
    && 0 <= s < |scopes| && leaf.scope == scopes[s].scope && leaf.scopeSchema == scopes[s].schemaUrl
    && 0 <= i < |scopes[s].items| && leaf.item == scopes[s].items[i]
  }

  /** The records of an export are its items, each in its place: none is left out and none made up. */
  lemma {:induction false} LeavesAre<I>(data: seq<ResourceGroup<I>>, leaf: Leaf<I>)
    ensures leaf in Leaves(data) <==> exists g, s, i :: StandsAt(leaf, data, g, s, i)
  {
    if data == [] {
    } else {
      var n := |data| - 1;
      LeavesAre(data[..n], leaf);
      GroupLeavesAre(data[n], data[n].scopes, leaf);
      assert Leaves(data) == Leaves(data[..n]) + GroupRecords(data[n]);
      if g, s, i :| StandsAt(leaf, data[..n], g, s, i) {
        assert StandsAt(leaf, data, g, s, i);
      }
      if s, i :| StandsIn(leaf, data[n].scopes, s, i) && leaf.resource == data[n].resource && leaf.resourceSchema == data[n].schemaUrl {
        assert StandsAt(leaf, data, n, s, i);
      }
      if g, s, i :| StandsAt(leaf, data, g, s, i) {
        if g < n { assert StandsAt(leaf, data[..n], g, s, i); }
      }
    }
  }

  lemma {:induction false} GroupLeavesAre<I>(group: ResourceGroup<I>, scopes: seq<ScopeGroup<I>>, leaf: Leaf<I>)
    ensures leaf in GroupLeaves(group, scopes) <==>
      leaf.resource == group.resource && leaf.resourceSchema == group.schemaUrl && exists s, i :: StandsIn(leaf, scopes, s, i)
  {
    if scopes == [] {
    } else {
      var n := |scopes| - 1;
      GroupLeavesAre(group, scopes[..n], leaf);
      var own := ScopeLeaves(group, scopes[n]);
      if s, i :| StandsIn(leaf, scopes[..n], s, i) {
        assert StandsIn(leaf, scopes, s, i);
      }
      if i :| 0 <= i < |own| && own[i] == leaf {
        assert StandsIn(leaf, scopes, n, i);
      }
      if leaf.resource == group.resource && leaf.resourceSchema == group.schemaUrl {
        if s, i :| StandsIn(leaf, scopes, s, i) {
          if s < n { assert StandsIn(leaf, scopes[..n], s, i); } else { assert own[i] == leaf; }
        }
      }
    }
  }

  /** The stored payload of one record: an export holding just that record. */
  function Singleton<I>(leaf: Leaf<I>): (data: seq<ResourceGroup<I>>) {
    [ResourceGroup(leaf.resource, [ScopeGroup(leaf.scope, [leaf.item], leaf.scopeSchema)], leaf.resourceSchema)]
  }
}
