/**
 Singleton payloads and the chunked streams that merge them back: nothing is lost, reordered or
 sent empty.
 */
module Streaming {
  import opened Common
  import opened Telemetry

  const CHUNK_SIZE: nat := 256

  /** An OTLP message: the resource groups of one export, of one stored payload, or of one chunk. */
  type Message<I> = seq<ResourceGroup<I>>

  /** One payload per record. */
  function Payloads<I>(leaves: seq<Leaf<I>>): (payloads: seq<Message<I>>)
    ensures |payloads| == |leaves|
  {
    seq(|leaves|, i requires 0 <= i < |leaves| => Singleton(leaves[i]))
  }

  /** The merge closures: the resource groups of each payload, one after the other. */
  function Merged<I>(payloads: seq<Message<I>>): Message<I> {
    if payloads == [] then [] else Merged(payloads[..|payloads| - 1]) + payloads[|payloads| - 1]
  }

  lemma MergedSnoc<I>(payloads: seq<Message<I>>, last: Message<I>)
    ensures Merged(payloads + [last]) == Merged(payloads) + last
  {
    assert (payloads + [last])[..|payloads|] == payloads;
  }

  lemma {:induction false} MergedAppend<I>(a: seq<Message<I>>, b: seq<Message<I>>)
    ensures Merged(a + b) == Merged(a) + Merged(b)
  {
    if b == [] {
      assert a + b == a;
    } else {
      MergedAppend(a, b[..|b| - 1]);
      assert (a + b)[..|a + b| - 1] == a + b[..|b| - 1];
    }
  }

  /** The merge loop over one chunk. */
  method Merge<I>(payloads: seq<Message<I>>) returns (chunk: Message<I>)
    ensures chunk == Merged(payloads)
  {
    chunk := [];
    for i := 0 to |payloads|
      invariant chunk == Merged(payloads[..i])
    {
      assert payloads[..i + 1][..i] == payloads[..i];
      chunk := chunk + payloads[i];
    }
    assert payloads[..|payloads|] == payloads;
  }

  /** How many chunks a stream has. */
  function ChunkCount(n: nat): nat {
    (n + CHUNK_SIZE - 1) / CHUNK_SIZE
  }

  /** The payloads that go into chunk `k`. */
  function ChunkOf<I>(payloads: seq<Message<I>>, k: nat): seq<Message<I>>
    requires k * CHUNK_SIZE <= |payloads|
  {
    payloads[k * CHUNK_SIZE..Min((k + 1) * CHUNK_SIZE, |payloads|)]
  }

  /**
   `stream_chunks`: every payload in exactly one chunk, in order, at most `CHUNK_SIZE` to a chunk and
   no chunk without a payload.
   */
  method StreamChunks<I>(payloads: seq<Message<I>>) returns (chunks: seq<Message<I>>)
    ensures |chunks| == ChunkCount(|payloads|)
    ensures forall k :: 0 <= k < |chunks| ==>
      k * CHUNK_SIZE < |payloads| && ChunkOf(payloads, k) != [] && chunks[k] == Merged(ChunkOf(payloads, k))
    ensures Merged(chunks) == Merged(payloads)
  {
    chunks := [];
    while |chunks| * CHUNK_SIZE < |payloads|
      invariant |chunks| == 0 || (|chunks| - 1) * CHUNK_SIZE < |payloads|
      invariant forall k :: 0 <= k < |chunks| ==>
        k * CHUNK_SIZE < |payloads| && ChunkOf(payloads, k) != [] && chunks[k] == Merged(ChunkOf(payloads, k))
      invariant Merged(chunks) == Merged(payloads[..Min(|chunks| * CHUNK_SIZE, |payloads|)])
      decreases |payloads| - |chunks| * CHUNK_SIZE
    {
      var k := |chunks|;
      var chunk := Merge(ChunkOf(payloads, k));
      ChunkStep(payloads, k);
      MergedSnoc(chunks, chunk);
      chunks := chunks + [chunk];
    }
    assert payloads[..|payloads|] == payloads;
  }

  lemma ChunkStep<I>(payloads: seq<Message<I>>, k: nat)
    requires k * CHUNK_SIZE < |payloads|
    ensures ChunkOf(payloads, k) != []
    ensures Merged(payloads[..Min((k + 1) * CHUNK_SIZE, |payloads|)]) == Merged(payloads[..k * CHUNK_SIZE]) + Merged(ChunkOf(payloads, k))
  {
    var next := Min((k + 1) * CHUNK_SIZE, |payloads|);
    MergedAppend(payloads[..k * CHUNK_SIZE], ChunkOf(payloads, k));
    assert payloads[..next] == payloads[..k * CHUNK_SIZE] + ChunkOf(payloads, k);
  }

  // ---------------------------------------------------------------- nothing lost

  lemma SingletonLeaves<I>(leaf: Leaf<I>)
    ensures Leaves(Singleton(leaf)) == [leaf]
  {
    var group := Singleton(leaf)[0];
    var scope := group.scopes[0];
    assert Singleton(leaf)[..0] == [] && group.scopes[..0] == [];
    assert GroupLeaves(group, group.scopes[..0]) == [];
    assert GroupLeaves(group, group.scopes) == ScopeLeaves(group, scope) == [leaf];
    assert Leaves(Singleton(leaf)[..0]) == [];
  }

  /** Splitting records into payloads and merging them gives back the records. */
  lemma {:induction false} MergeInvertsSplit<I>(leaves: seq<Leaf<I>>)
    ensures Leaves(Merged(Payloads(leaves))) == leaves
  {
    if leaves == [] {
    } else {
      var n := |leaves| - 1;
      MergeInvertsSplit(leaves[..n]);
      assert Payloads(leaves)[..n] == Payloads(leaves[..n]);
      LeavesAppend(Merged(Payloads(leaves[..n])), Singleton(leaves[n]));
      SingletonLeaves(leaves[n]);
      assert leaves == leaves[..n] + [leaves[n]];
    }
  }

  /**
   An export stored record by record and streamed back in storage order carries the same records,
   each under the same resource, scope and schema URLs, in the same order.
   */
  lemma ExportRoundTrip<I>(data: Message<I>, chunks: seq<Message<I>>)
    requires Merged(chunks) == Merged(Payloads(Leaves(data)))
    ensures Leaves(Merged(chunks)) == Leaves(data)
  {
    MergeInvertsSplit(Leaves(data));
  }

  /** The same for whatever records a query selects, in whatever order it returns them. */
  lemma QueryRoundTrip<I>(data: Message<I>, selected: seq<nat>, chunks: seq<Message<I>>)
    requires forall j :: 0 <= j < |selected| ==> selected[j] < |Leaves(data)|
    requires Merged(chunks) == Merged(Pick(Payloads(Leaves(data)), selected))
    ensures Leaves(Merged(chunks)) == Pick(Leaves(data), selected)
  {
    assert Pick(Payloads(Leaves(data)), selected) == Payloads(Pick(Leaves(data), selected));
    MergeInvertsSplit(Pick(Leaves(data), selected));
  }

  /**
   Of records stored one by one, chunk `k` carries those from `k * CHUNK_SIZE` on: at least one and
   at most `CHUNK_SIZE` of them.
   */
  lemma ChunkRecords<I>(leaves: seq<Leaf<I>>, k: nat)
    requires k * CHUNK_SIZE < |leaves|
    ensures Leaves(Merged(ChunkOf(Payloads(leaves), k))) == leaves[k * CHUNK_SIZE..Min((k + 1) * CHUNK_SIZE, |leaves|)]
    ensures 1 <= |Leaves(Merged(ChunkOf(Payloads(leaves), k)))| <= CHUNK_SIZE
  {
    var part := leaves[k * CHUNK_SIZE..Min((k + 1) * CHUNK_SIZE, |leaves|)];
    assert ChunkOf(Payloads(leaves), k) == Payloads(part);
    MergeInvertsSplit(part);
  }

  /** The stream of records stored one by one: every message carries between 1 and 256 of them, in order. */
  method StreamRecords<I>(ghost leaves: seq<Leaf<I>>, payloads: seq<Message<I>>) returns (chunks: seq<Message<I>>)
    requires payloads == Payloads(leaves)
    ensures |chunks| == (|leaves| + 255) / 256 && Leaves(Merged(chunks)) == leaves
    ensures forall k :: 0 <= k < |chunks| ==>
      && k * CHUNK_SIZE < |leaves|
      && Leaves(chunks[k]) == leaves[k * 256..if (k + 1) * 256 <= |leaves| then (k + 1) * 256 else |leaves|]
      && 1 <= |Leaves(chunks[k])| <= 256
  {
    chunks := StreamChunks(payloads);
    MergeInvertsSplit(leaves);
    forall k | 0 <= k < |chunks|
      ensures Leaves(chunks[k]) == leaves[k * CHUNK_SIZE..Min((k + 1) * CHUNK_SIZE, |leaves|)] && 1 <= |Leaves(chunks[k])| <= CHUNK_SIZE
    {
      ChunkRecords(leaves, k);
    }
  }
}
