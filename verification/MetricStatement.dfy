/** The sampling statement always has an answer: what the other modules assume of it can be met. */
module MetricStatement {
  import opened Common
  import opened MetricQueries
  import opened MetricSampling

  /** Time order, ties by position: one of the orders the database may pick. */
  predicate Precedes<P>(points: seq<MetricPoint<P>>, i: nat, j: nat)
    requires i < |points| && j < |points|
  {
    points[i].time < points[j].time || (points[i].time == points[j].time && i < j)
  }

  /** The rows of `i`'s series that come before it. */
  ghost function Before<P>(points: seq<MetricPoint<P>>, i: nat): (ps: seq<nat>)
    requires i < |points|
    ensures NoDuplicates(ps)
    ensures forall j {:trigger j in ps} :: j in ps <==>
      0 <= j < |points| && points[j].Series() == points[i].Series() && Precedes(points, j, i)
  {
    Positions(|points|, (j: nat) => i < |points| && j < |points| && points[j].Series() == points[i].Series() && Precedes(points, j, i))
  }

  ghost function RankOf<P>(points: seq<MetricPoint<P>>, i: nat): int
    requires i < |points|
  {
    |Before(points, i)| + 1
  }

  lemma BeforeAnd<P>(points: seq<MetricPoint<P>>, i: nat)
    requires i < |points|
    ensures NoDuplicates(Before(points, i) + [i])
    ensures forall x {:trigger x in Before(points, i) + [i]} :: x in Before(points, i) + [i] <==> x in Before(points, i) || x == i
  {
    var ps := Before(points, i);
    assert i !in ps;
    assert forall j :: 0 <= j < |ps| ==> ps[j] in ps;
  }

  lemma RankBounded<P>(points: seq<MetricPoint<P>>, i: nat)
    requires i < |points|
    ensures 1 <= RankOf(points, i) <= SeriesCount(points, points[i].Series())
  {
    BeforeAnd(points, i);
    assert i in SeriesPositions(points, points[i].Series());
    NoDuplicatesLength(Before(points, i) + [i], SeriesPositions(points, points[i].Series()));
  }

  lemma RankMonotone<P>(points: seq<MetricPoint<P>>, i: nat, j: nat)
    requires i < |points| && j < |points| && points[i].Series() == points[j].Series() && Precedes(points, i, j)
    ensures RankOf(points, i) < RankOf(points, j)
  {
    BeforeAnd(points, i);
    assert i in Before(points, j);
    NoDuplicatesLength(Before(points, i) + [i], Before(points, j));
  }

  /** For any points, budget and limit there are a numbering and an answer the statement may give. */
  lemma StatementHasAnswer<P>(points: seq<MetricPoint<P>>, p: nat, limit: nat) returns (rank: seq<int>, fetched: seq<nat>)
    requires 0 < p
    ensures IsRowNumber(points, rank) && IsFetch(points, rank, p, limit, fetched)
  {
    rank := seq(|points|, i requires 0 <= i < |points| => RankOf(points, i));
    forall i | 0 <= i < |points| ensures 1 <= rank[i] <= SeriesCount(points, points[i].Series()) { RankBounded(points, i); }
    forall i, j | 0 <= i < |points| && 0 <= j < |points| && i != j && points[i].Series() == points[j].Series()
      ensures rank[i] != rank[j] && (rank[i] < rank[j] ==> points[i].time <= points[j].time)
    {
      if Precedes(points, i, j) { RankMonotone(points, i, j); } else { RankMonotone(points, j, i); }
    }
    fetched := EarliestSurvivors(points, rank, p, limit);
  }

  lemma EarliestSurvivors<P>(points: seq<MetricPoint<P>>, rank: seq<int>, p: nat, limit: nat) returns (fetched: seq<nat>)
    requires 0 < p && IsRowNumber(points, rank)
    ensures IsFetch(points, rank, p, limit, fetched)
  {
    var ys := SortedSurvivors(points, rank, p);
    var f := TimeOf(points);
    var take := Min(limit, |ys|);
    fetched := ys[..take];
    forall i, j | 0 <= i < j < |fetched| ensures points[fetched[i]].time <= points[fetched[j]].time {
      assert f(ys[i]) <= f(ys[j]);
    }
    forall i: nat | Survivor(points, rank, p, i) && i !in fetched
      ensures |fetched| == limit && forall j :: 0 <= j < |fetched| ==> points[fetched[j]].time <= points[i].time
    {
      SortedHeadIsLeast(ys, take, f, i);
      forall j | 0 <= j < |fetched| ensures points[fetched[j]].time <= points[i].time {
        assert f(ys[j]) <= f(i);
      }
    }
  }

  lemma SortedSurvivors<P>(points: seq<MetricPoint<P>>, rank: seq<int>, p: nat) returns (ys: seq<nat>)
    requires 0 < p && |rank| == |points|
    ensures NoDuplicates(ys) && SortedBy(ys, TimeOf(points))
    ensures forall j :: 0 <= j < |ys| ==> Survivor(points, rank, p, ys[j])
    ensures forall i: nat :: Survivor(points, rank, p, i) ==> i in ys
  {
    var all := Survivors(points, rank, p);
    assert forall j :: 0 <= j < |all| ==> all[j] in all;
    ys := SortableBy(all, TimeOf(points));
    assert forall j :: 0 <= j < |ys| ==> ys[j] in ys;
  }
}
