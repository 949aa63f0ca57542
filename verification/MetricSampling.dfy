/**
 What a metric query returns of each series: the two sampling stages on a table, for any numbering
 and fetch order the database may choose, under the row limit, and for any spelling of attributes.
 */
module MetricSampling {
  import opened Common
  import opened JsonAttributes
  import opened Sampling
  import opened MetricQueries
  import opened KeepMasks
  import opened SeriesSpelling

  /** The answer is in time order. */
  lemma AnswerInTimeOrder<P>(points: seq<MetricPoint<P>>, rank: seq<int>, p: nat, limit: nat, fetched: seq<nat>)
    requires IsRowNumber(points, rank) && 0 < p && IsFetch(points, rank, p, limit, fetched)
    ensures var out := Answer(Pick(points, fetched), p);
            forall i, j :: 0 <= i < j < |out| ==> out[i].time <= out[j].time
  {
    var ks := MaskPositions(KeepMask(TextRows(Pick(points, fetched)), p));
    assert StrictlyIncreasing(ks);
  }

  // ---------------------------------------------------------------- ranks

  /** Some row of the series has each rank. */
  lemma RankSurjective<P>(points: seq<MetricPoint<P>>, rank: seq<int>, s: SeriesKey, r: int)
    requires IsRowNumber(points, rank)
    requires 1 <= r <= SeriesCount(points, s)
    ensures exists i :: 0 <= i < |points| && points[i].Series() == s && rank[i] == r
  {
    var own := SeriesPositions(points, s);
    assert forall j :: 0 <= j < |own| ==> points[own[j]].Series() == s;
    var ranks := seq(|own|, j requires 0 <= j < |own| => rank[own[j]]);
    DistinctRanksCover(ranks, r);
    var j :| 0 <= j < |ranks| && ranks[j] == r;
    assert rank[own[j]] == r && points[own[j]].Series() == s;
  }

  /** The row holding rank `r` of a series. */
  ghost function RowAt<P>(points: seq<MetricPoint<P>>, rank: seq<int>, s: SeriesKey, r: int): (i: nat)
    requires IsRowNumber(points, rank)
    requires 1 <= r <= SeriesCount(points, s)
    ensures i < |points| && points[i].Series() == s && rank[i] == r
  {
    RankSurjective(points, rank, s, r);
    var i :| 0 <= i < |points| && points[i].Series() == s && rank[i] == r;
    i
  }

  /** The rows of a series that survive the SQL stage, by rank. */
  ghost function SurvivorRows<P>(points: seq<MetricPoint<P>>, rank: seq<int>, p: nat, s: SeriesKey): (rows: seq<nat>)
    requires IsRowNumber(points, rank) && 0 < p
    ensures |rows| == SampleSize(SeriesCount(points, s), p)
  {
    var ranks := Sampled(SeriesCount(points, s), p);
    SampledIsFilter(SeriesCount(points, s), p);
    assert forall j :: 0 <= j < |ranks| ==> ranks[j] in ranks;
    seq(|ranks|, j requires 0 <= j < |ranks| => RowAt(points, rank, s, ranks[j]))
  }

  lemma SurvivorRowAt<P>(points: seq<MetricPoint<P>>, rank: seq<int>, p: nat, s: SeriesKey, j: nat)
    requires IsRowNumber(points, rank) && 0 < p && j < SampleSize(SeriesCount(points, s), p)
    ensures var i := SurvivorRows(points, rank, p, s)[j];
            Survivor(points, rank, p, i) && points[i].Series() == s && rank[i] == Sampled(SeriesCount(points, s), p)[j]
  {
    SampledSurvives(SeriesCount(points, s), p, j);
  }

  lemma SurvivorListed<P>(points: seq<MetricPoint<P>>, rank: seq<int>, p: nat, s: SeriesKey, i: nat)
    requires IsRowNumber(points, rank) && 0 < p
    requires Survivor(points, rank, p, i) && points[i].Series() == s
    ensures i in SurvivorRows(points, rank, p, s)
  {
    var ranks := Sampled(SeriesCount(points, s), p);
    SurvivorIsSampled(SeriesCount(points, s), p, rank[i]);
    var j :| 0 <= j < |ranks| && ranks[j] == rank[i];
    SurvivorRowAt(points, rank, p, s, j);
    assert SurvivorRows(points, rank, p, s)[j] == i;
  }

  /** `SurvivorRows` lists exactly the surviving rows of the series, each once, in time order. */
  lemma SurvivorRowsSpec<P>(points: seq<MetricPoint<P>>, rank: seq<int>, p: nat, s: SeriesKey)
    requires IsRowNumber(points, rank) && 0 < p
    ensures var rows := SurvivorRows(points, rank, p, s);
            && NoDuplicates(rows)
            && (forall i {:trigger i in rows} :: i in rows <==> Survivor(points, rank, p, i) && points[i].Series() == s)
            && (forall i, j :: 0 <= i < j < |rows| ==> points[rows[i]].time <= points[rows[j]].time)
  {
    var rows := SurvivorRows(points, rank, p, s);
    forall i, j | 0 <= i < j < |rows| ensures rows[i] != rows[j] && points[rows[i]].time <= points[rows[j]].time {
      SurvivorRowAt(points, rank, p, s, i);
      SurvivorRowAt(points, rank, p, s, j);
      SampledIncreasing(SeriesCount(points, s), p, i, j);
    }
    forall i: nat ensures i in rows <==> Survivor(points, rank, p, i) && points[i].Series() == s {
      if i in rows {
        var j :| 0 <= j < |rows| && rows[j] == i;
        SurvivorRowAt(points, rank, p, s, j);
      }
      if Survivor(points, rank, p, i) && points[i].Series() == s { SurvivorListed(points, rank, p, s, i); }
    }
  }

  // ---------------------------------------------------------------- both stages on a table

  /** The rows of series `s` among the fetched ones, in fetch order. */
  ghost function FetchedOf<P>(points: seq<MetricPoint<P>>, fetched: seq<nat>, s: SeriesKey): (rows: seq<nat>)
    requires forall j :: 0 <= j < |fetched| ==> fetched[j] < |points|
    ensures forall j :: 0 <= j < |rows| ==> rows[j] < |points|
    ensures |rows| == SeriesCount(Pick(points, fetched), s)
  {
    Pick(fetched, SeriesPositions(Pick(points, fetched), s))
  }

  ghost function TimeOf<P>(points: seq<MetricPoint<P>>): nat -> int {
    (i: nat) => if i < |points| then points[i].time else 0
  }

  /** The fetched rows of a series: distinct, in time order, and all survivors. */
  lemma FetchedOrder<P>(points: seq<MetricPoint<P>>, rank: seq<int>, p: nat, limit: nat, fetched: seq<nat>, s: SeriesKey)
    requires IsRowNumber(points, rank) && 0 < p && IsFetch(points, rank, p, limit, fetched)
    ensures var own := FetchedOf(points, fetched, s);
            && NoDuplicates(own)
            && (forall i, j :: 0 <= i < j < |own| ==> points[own[i]].time <= points[own[j]].time)
            && (forall j :: 0 <= j < |own| ==> Survivor(points, rank, p, own[j]) && points[own[j]].Series() == s)
  {
    var at := SeriesPositions(Pick(points, fetched), s);
    assert forall j :: 0 <= j < |at| ==> Pick(points, fetched)[at[j]].Series() == s;
  }

  /** A survivor of the series that was not fetched is no earlier than any row that was. */
  lemma MissedIsLater<P>(points: seq<MetricPoint<P>>, rank: seq<int>, p: nat, limit: nat, fetched: seq<nat>, s: SeriesKey,
                         missed: nat, j: nat)
    requires IsRowNumber(points, rank) && 0 < p && IsFetch(points, rank, p, limit, fetched)
    requires Survivor(points, rank, p, missed) && points[missed].Series() == s
    requires missed !in FetchedOf(points, fetched, s) && j < |FetchedOf(points, fetched, s)|
    ensures |fetched| == limit
    ensures points[FetchedOf(points, fetched, s)[j]].time <= points[missed].time
  {
    PickedSeries(points, fetched, s, missed);
  }

  /** Fetched rows of a series are its earliest survivors, so their times follow `Sampled`. */
  lemma FetchedTimes<P>(points: seq<MetricPoint<P>>, rank: seq<int>, p: nat, limit: nat, fetched: seq<nat>, s: SeriesKey)
    requires IsRowNumber(points, rank) && 0 < p && IsFetch(points, rank, p, limit, fetched)
    ensures var own, all := FetchedOf(points, fetched, s), SurvivorRows(points, rank, p, s);
            |own| <= |all| && forall j :: 0 <= j < |own| ==> TimeOf(points)(own[j]) == TimeOf(points)(all[j])
  {
    var own, all := FetchedOf(points, fetched, s), SurvivorRows(points, rank, p, s);
    FetchedOrder(points, rank, p, limit, fetched, s);
    SurvivorRowsSpec(points, rank, p, s);
    assert forall j :: 0 <= j < |all| ==> all[j] in all;
    forall x | x in own ensures x in all {
      var j :| 0 <= j < |own| && own[j] == x;
    }
    var time := TimeOf(points);
    forall x, y | x in all && x !in own && y in own ensures time(y) <= time(x) {
      var j :| 0 <= j < |own| && own[j] == y;
      MissedIsLater(points, rank, p, limit, fetched, s, x, j);
    }
    assert SortedBy(own, time) && SortedBy(all, time);
    SortedPrefixAgrees(own, all, time);
  }

  /** The times of the answer's points of series `s`, in the order returned. */
  ghost function ReturnedTimes<P>(points: seq<MetricPoint<P>>, fetched: seq<nat>, p: nat, s: SeriesKey): seq<int>
    requires forall j :: 0 <= j < |fetched| ==> fetched[j] < |points|
  {
    var out := SeriesRows(Answer(Pick(points, fetched), p), s);
    seq(|out|, j requires 0 <= j < |out| => out[j].time)
  }

  /** The times of the rows of series `s` holding the given ranks. */
  ghost function TimesAt<P>(points: seq<MetricPoint<P>>, rank: seq<int>, s: SeriesKey, ranks: seq<int>): seq<int>
    requires IsRowNumber(points, rank)
    requires forall j :: 0 <= j < |ranks| ==> 1 <= ranks[j] <= SeriesCount(points, s)
  {
    seq(|ranks|, j requires 0 <= j < |ranks| => points[RowAt(points, rank, s, ranks[j])].time)
  }

  lemma SampledInRange(cnt: nat, p: nat)
    requires 0 < p
    ensures var ranks := Sampled(cnt, p); forall j :: 0 <= j < |ranks| ==> 1 <= ranks[j] <= cnt
  {
    SampledIsFilter(cnt, p);
    var ranks := Sampled(cnt, p);
    assert forall j :: 0 <= j < |ranks| ==> ranks[j] in ranks;
  }

  /** No more than `p + 1` rows of a series are fetched. */
  lemma FetchedAtMost<P>(points: seq<MetricPoint<P>>, rank: seq<int>, p: nat, limit: nat, fetched: seq<nat>, s: SeriesKey)
    requires IsRowNumber(points, rank) && 0 < p && IsFetch(points, rank, p, limit, fetched)
    ensures SeriesCount(Pick(points, fetched), s) <= SampleSize(SeriesCount(points, s), p) <= p + 1
  {
    FetchedTimes(points, rank, p, limit, fetched, s);
    FirstStageAlone(SeriesCount(points, s), p);
  }

  /** Place `j` of what comes back of a series is place `d` of its fetched rows, `d` as the budget in effect spreads them. */
  lemma ReturnedTimeAt<P>(points: seq<MetricPoint<P>>, fetched: seq<nat>, p: nat, s: SeriesKey, b: nat, j: nat)
    requires forall k :: 0 <= k < |fetched| ==> fetched[k] < |points|
    requires 0 < p && TextFixesValue(points) && SeriesCount(Pick(points, fetched), s) <= p + 1
    requires b == Budget(Pick(points, fetched), p, s)
    requires j < |DownsamplePositions(SeriesCount(Pick(points, fetched), s), b)|
    ensures var m, d := SeriesCount(Pick(points, fetched), s), DownsamplePositions(SeriesCount(Pick(points, fetched), s), b)[j];
            && |ReturnedTimes(points, fetched, p, s)| == |DownsamplePositions(m, b)|
            && 0 <= d < m
            && ReturnedTimes(points, fetched, p, s)[j] == points[FetchedOf(points, fetched, s)[d]].time
  {
    var rows := Pick(points, fetched);
    AnswerSeries(rows, p, s);
    DownsampleInRange(SeriesCount(rows, s), b);
  }

  /**
   The whole read path, any table, any ranking and fetch order the statement may choose among
   equal times, row limit and spelling included: what comes back of a series is the earliest sampled
   ranks, `m` of them being the rows of that series inside the limit, spread evenly over the budget
   in effect: `p`, or `p + 1` and so all of them if the fetched rows spell the series in several ways.
   */
  lemma ReturnedSeries<P>(points: seq<MetricPoint<P>>, rank: seq<int>, p: nat, limit: nat, fetched: seq<nat>, s: SeriesKey)
    requires IsRowNumber(points, rank) && 0 < p && IsFetch(points, rank, p, limit, fetched) && TextFixesValue(points)
    ensures var cnt, m := SeriesCount(points, s), SeriesCount(Pick(points, fetched), s);
            && m <= SampleSize(cnt, p)
            && (var ranks := Downsample(Sampled(cnt, p)[..m], Budget(Pick(points, fetched), p, s));
                && (forall j :: 0 <= j < |ranks| ==> 1 <= ranks[j] <= cnt)
                && ReturnedTimes(points, fetched, p, s) == TimesAt(points, rank, s, ranks))
  {
    var cnt, m, b := SeriesCount(points, s), SeriesCount(Pick(points, fetched), s), Budget(Pick(points, fetched), p, s);
    SampledInRange(cnt, p);
    FetchedAtMost(points, rank, p, limit, fetched, s);
    DownsampleInRange(m, b);
    var ranks := Downsample(Sampled(cnt, p)[..m], b);
    assert |ReturnedTimes(points, fetched, p, s)| == |ranks| by { AnswerSeries(Pick(points, fetched), p, s); }
    forall j | 0 <= j < |ranks|
      ensures 1 <= ranks[j] <= cnt
      ensures ReturnedTimes(points, fetched, p, s)[j] == points[RowAt(points, rank, s, ranks[j])].time
    {
      ReturnedTimeAt(points, fetched, p, s, b, j);
      SampledTimeAt(points, rank, p, limit, fetched, s, DownsamplePositions(m, b)[j]);
    }
  }

  /**
   The budget: at most `p + 1` points of a series come back, and more than `p` exactly when `p + 1` of
   its rows are fetched and they spell its attributes in several ways.
   */
  lemma ReturnedOverBudgetIff<P>(points: seq<MetricPoint<P>>, rank: seq<int>, p: nat, limit: nat, fetched: seq<nat>, s: SeriesKey)
    requires IsRowNumber(points, rank) && 0 < p && IsFetch(points, rank, p, limit, fetched) && TextFixesValue(points)
    ensures var rows := Pick(points, fetched);
            && |ReturnedTimes(points, fetched, p, s)| == SeriesCount(Answer(rows, p), s) <= p + 1
            && (p < SeriesCount(Answer(rows, p), s) <==> SeriesCount(rows, s) == p + 1 && !AlikeIn(rows, s))
    ensures AlikeIn(points, s) ==> |ReturnedTimes(points, fetched, p, s)| <= p
  {
    FetchedAtMost(points, rank, p, limit, fetched, s);
    OverBudgetIff(Pick(points, fetched), p, s);
  }

  lemma SampledTimeAt<P>(points: seq<MetricPoint<P>>, rank: seq<int>, p: nat, limit: nat, fetched: seq<nat>, s: SeriesKey, d: nat)
    requires IsRowNumber(points, rank) && 0 < p && IsFetch(points, rank, p, limit, fetched)
    requires d < SeriesCount(Pick(points, fetched), s)
    ensures d < SampleSize(SeriesCount(points, s), p)
    ensures 1 <= Sampled(SeriesCount(points, s), p)[d] <= SeriesCount(points, s)
    ensures points[FetchedOf(points, fetched, s)[d]].time
         == points[RowAt(points, rank, s, Sampled(SeriesCount(points, s), p)[d])].time
  {
    SampledInRange(SeriesCount(points, s), p);
    FetchedTimes(points, rank, p, limit, fetched, s);
    assert TimeOf(points)(FetchedOf(points, fetched, s)[d]) == TimeOf(points)(SurvivorRows(points, rank, p, s)[d]);
  }

  /** Two points of one series both pass the statement under a budget of one. */
  lemma TwoFetched<P>(points: seq<MetricPoint<P>>, rank: seq<int>, limit: nat, fetched: seq<nat>)
    requires |points| == 2 && points[0].Series() == points[1].Series() && points[0].time < points[1].time
    requires IsRowNumber(points, rank) && IsFetch(points, rank, 1, limit, fetched) && 2 <= limit
    ensures fetched == [0, 1]
  {
    var s := points[0].Series();
    IncreasingUnique(SeriesPositions(points, s), [0, 1]);
    assert SeriesCount(points, s) == 2 && Stride(2, 1) == 3;
    assert Survivor(points, rank, 1, 0) && Survivor(points, rank, 1, 1);
    SurvivorCount(points, rank, 1);
    FetchIsComplete(points, rank, 1, limit, fetched);
    assert 0 in fetched && 1 in fetched;
    assert forall j :: 0 <= j < |fetched| ==> fetched[j] in fetched && fetched[j] < 2;
    assert StrictlyIncreasing(fetched);
    IncreasingUnique(fetched, [0, 1]);
  }

  /** A query that goes over budget: asked for one point of `Mixed`, the statement and the process return both. */
  lemma MixedReturnsBoth(rank: seq<int>, fetched: seq<nat>)
    requires IsRowNumber(Mixed(), rank) && IsFetch(Mixed(), rank, 1, MAX_METRIC_ROWS, fetched)
    ensures Mixed()[0].Series() == Mixed()[1].Series() && Answer(Pick(Mixed(), fetched), 1) == Mixed()
  {
    MixedIsOneSeries();
    TwoFetched(Mixed(), rank, MAX_METRIC_ROWS, fetched);
    assert Pick(Mixed(), fetched) == Mixed();
    assert Mixed()[0].spelling[7] != Mixed()[1].spelling[7];
    TwoSpellings(Mixed());
  }

  // ---------------------------------------------------------------- the row limit

  /** All rows the SQL stage lets through. */
  ghost function Survivors<P>(points: seq<MetricPoint<P>>, rank: seq<int>, p: nat): (ps: seq<nat>)
    requires |rank| == |points| && 0 < p
    ensures NoDuplicates(ps) && |ps| <= |points|
    ensures forall i {:trigger i in ps} :: i in ps <==> Survivor(points, rank, p, i)
  {
    Positions(|points|, (i: nat) => |rank| == |points| && 0 < p && Survivor(points, rank, p, i))
  }

  /** Within the limit every survivor is fetched; beyond it, exactly `limit` rows are. */
  lemma FetchIsComplete<P>(points: seq<MetricPoint<P>>, rank: seq<int>, p: nat, limit: nat, fetched: seq<nat>)
    requires IsRowNumber(points, rank) && 0 < p && IsFetch(points, rank, p, limit, fetched)
    ensures |fetched| == Min(SampledRows(points, p), limit)
    ensures SampledRows(points, p) <= limit <==> forall i :: Survivor(points, rank, p, i) ==> i in fetched
  {
    var all := Survivors(points, rank, p);
    SurvivorCount(points, rank, p);
    forall x | x in fetched ensures x in all {
      var j :| 0 <= j < |fetched| && fetched[j] == x;
    }
    NoDuplicatesLength(fetched, all);
    if |all| <= limit {
      forall i: nat | Survivor(points, rank, p, i) ensures i in fetched {
        if i !in fetched { NoDuplicatesLength(fetched + [i], all); }
      }
      NoDuplicatesLength(all, fetched);
    } else if forall i :: Survivor(points, rank, p, i) ==> i in fetched {
      NoDuplicatesLength(all, fetched);
    } else {
      assert |fetched| == limit;
    }
  }

  /** How many rows the SQL stage lets through, read off the sizes of the series alone. */
  ghost function SampledRows<P>(points: seq<MetricPoint<P>>, p: nat): int
    requires 0 < p
  {
    SumOver(SeriesOf(points), (s: SeriesKey) => SampleSizeOf(points, p, s))
  }

  function SampleSizeOf<P>(points: seq<MetricPoint<P>>, p: nat, s: SeriesKey): nat {
    if p == 0 then 0 else SampleSize(SeriesCount(points, s), p)
  }

  /** Whatever numbering the database picks, the same number of rows survives. */
  lemma SurvivorCount<P>(points: seq<MetricPoint<P>>, rank: seq<int>, p: nat)
    requires IsRowNumber(points, rank) && 0 < p
    ensures |Survivors(points, rank, p)| == SampledRows(points, p)
  {
    var all, keys := Survivors(points, rank, p), SeriesOf(points);
    assert forall j :: 0 <= j < |all| ==> all[j] in all;
    var rows := Pick(points, all);
    forall s | s in SeriesOf(rows) ensures s in keys {
      var j :| 0 <= j < |rows| && rows[j].Series() == s;
      SeriesPresent(points, all[j]);
    }
    SeriesPartition(rows, keys);
    forall s ensures SeriesCount(rows, s) == SampleSizeOf(points, p, s) {
      SurvivorsOfSeries(points, rank, p, s);
    }
    SumOverCongruent(keys, s => SeriesCount(rows, s), (s: SeriesKey) => SampleSizeOf(points, p, s));
  }

  lemma SurvivorsOfSeries<P>(points: seq<MetricPoint<P>>, rank: seq<int>, p: nat, s: SeriesKey)
    requires IsRowNumber(points, rank) && 0 < p
    requires forall j :: 0 <= j < |Survivors(points, rank, p)| ==> Survivors(points, rank, p)[j] < |points|
    ensures SeriesCount(Pick(points, Survivors(points, rank, p)), s) == SampleSizeOf(points, p, s)
  {
    var all := Survivors(points, rank, p);
    var at := SeriesPositions(Pick(points, all), s);
    var own, listed := FetchedOf(points, all, s), SurvivorRows(points, rank, p, s);
    SurvivorRowsSpec(points, rank, p, s);
    forall x | x in own ensures x in listed {
      var j :| 0 <= j < |own| && own[j] == x;
      assert Pick(points, all)[at[j]].Series() == s && x in all;
    }
    forall x | x in listed ensures x in own { PickedSeries(points, all, s, x); }
    NoDuplicatesLength(own, listed);
    NoDuplicatesLength(listed, own);
  }

  /** The rows the SQL stage lets through number at most one over budget per series. */
  lemma SurvivorBound<P>(points: seq<MetricPoint<P>>, p: nat)
    requires 0 < p
    ensures SampledRows(points, p) <= |SeriesOf(points)| * (p + 1)
  {
    forall s ensures SampleSizeOf(points, p, s) <= p + 1 {
      if p < SeriesCount(points, s) { SampleBounds(SeriesCount(points, s), p); }
    }
    SumOverBound(SeriesOf(points), (s: SeriesKey) => SampleSizeOf(points, p, s), p + 1);
  }

  // ---------------------------------------------------------------- the untruncated answer

  /** The ranks left of a series under the budget in effect. */
  function RanksUnder(cnt: nat, p: nat, b: nat): seq<int>
    requires 0 < p
  {
    Downsample(Sampled(cnt, p), b)
  }

  /** One point over the budget, nothing is dropped. */
  lemma RanksUnderIs(cnt: nat, p: nat)
    requires 0 < p
    ensures RanksUnder(cnt, p, p) == FinalRanks(cnt, p) && RanksUnder(cnt, p, p + 1) == Sampled(cnt, p)
  {
    FirstStageAlone(cnt, p);
  }

  lemma RanksInRange(cnt: nat, p: nat, b: nat)
    requires 0 < p && p <= b <= p + 1
    ensures var f := RanksUnder(cnt, p, b); forall j :: 0 <= j < |f| ==> 1 <= f[j] <= cnt
    ensures 0 < cnt ==> 0 < |RanksUnder(cnt, p, b)| && RanksUnder(cnt, p, b)[|RanksUnder(cnt, p, b)| - 1] == cnt
  {
    SampledInRange(cnt, p);
    DownsampleInRange(SampleSize(cnt, p), b);
    if 0 < cnt { LastRank(cnt, p, b); }
  }

  /** Under either budget the last rank comes last. */
  lemma LastRank(cnt: nat, p: nat, b: nat)
    requires 0 < p && p <= b <= p + 1 && 0 < cnt
    ensures 0 < |RanksUnder(cnt, p, b)| && RanksUnder(cnt, p, b)[|RanksUnder(cnt, p, b)| - 1] == cnt
  {
    RanksUnderIs(cnt, p);
    if cnt <= p {
      WithinBudget(cnt, p);
    } else if b == p == 1 {
      BudgetOfOne(cnt);
    } else if b == p {
      TwoStageSampling(cnt, p);
    } else {
      FirstStageAlone(cnt, p);
    }
  }

  /**
   When the sampled rows fit the row limit, the points returned of every series are those at
   `RanksUnder` the budget in effect, whatever the order of equal times and the interleaving of the
   series: `FinalRanks` if it is spelled in one way, and otherwise every sampled rank.
   */
  lemma ReturnedSeriesWhole<P>(points: seq<MetricPoint<P>>, rank: seq<int>, p: nat, limit: nat, fetched: seq<nat>, s: SeriesKey)
    requires IsRowNumber(points, rank) && 0 < p && IsFetch(points, rank, p, limit, fetched) && TextFixesValue(points)
    requires SampledRows(points, p) <= limit
    ensures SeriesCount(Pick(points, fetched), s) == SampleSize(SeriesCount(points, s), p)
    ensures var f := RanksUnder(SeriesCount(points, s), p, Budget(Pick(points, fetched), p, s));
            && f == (if AlikeIn(Pick(points, fetched), s) then FinalRanks(SeriesCount(points, s), p) else Sampled(SeriesCount(points, s), p))
            && (forall j :: 0 <= j < |f| ==> 1 <= f[j] <= SeriesCount(points, s))
            && ReturnedTimes(points, fetched, p, s) == TimesAt(points, rank, s, f)
  {
    var cnt := SeriesCount(points, s);
    SurvivorsFetched(points, rank, p, limit, fetched, s);
    ReturnedSeries(points, rank, p, limit, fetched, s);
    RanksInRange(cnt, p, Budget(Pick(points, fetched), p, s));
    RanksUnderIs(cnt, p);
    assert Sampled(cnt, p)[..SampleSize(cnt, p)] == Sampled(cnt, p);
  }

  /** Within the limit all survivors of a series are fetched. */
  lemma SurvivorsFetched<P>(points: seq<MetricPoint<P>>, rank: seq<int>, p: nat, limit: nat, fetched: seq<nat>, s: SeriesKey)
    requires IsRowNumber(points, rank) && 0 < p && IsFetch(points, rank, p, limit, fetched)
    requires SampledRows(points, p) <= limit
    ensures SeriesCount(Pick(points, fetched), s) == SampleSize(SeriesCount(points, s), p)
  {
    var own, all := FetchedOf(points, fetched, s), SurvivorRows(points, rank, p, s);
    FetchIsComplete(points, rank, p, limit, fetched);
    FetchedTimes(points, rank, p, limit, fetched, s);
    SurvivorRowsSpec(points, rank, p, s);
    forall x | x in all ensures x in own { PickedSeries(points, fetched, s, x); }
    NoDuplicatesLength(all, own);
  }

  /**
   The caller's view of a thinned series: more than half of the budget and at most all of it, or one
   more if spelled in several ways, from its earliest point to its latest.
   */
  lemma ThinnedSeriesEndpoints<P>(points: seq<MetricPoint<P>>, rank: seq<int>, p: nat, limit: nat, fetched: seq<nat>, s: SeriesKey)
    requires IsRowNumber(points, rank) && 2 <= p < SeriesCount(points, s) && TextFixesValue(points)
    requires IsFetch(points, rank, p, limit, fetched) && SampledRows(points, p) <= limit
    ensures var ts := ReturnedTimes(points, fetched, p, s);
            && p < 2 * |ts| && |ts| <= p + 1
            && (p < |ts| <==> SampleSize(SeriesCount(points, s), p) == p + 1 && !AlikeIn(Pick(points, fetched), s))
            && (forall i :: 0 <= i < |points| && points[i].Series() == s ==> ts[0] <= points[i].time <= ts[|ts| - 1])
  {
    var cnt := SeriesCount(points, s);
    ReturnedSeriesWhole(points, rank, p, limit, fetched, s);
    TwoStageSampling(cnt, p);
    FirstStageAlone(cnt, p);
    FirstAndLast(points, rank, s);
  }

  /** Ranks one and last are the earliest and latest points of a series. */
  lemma FirstAndLast<P>(points: seq<MetricPoint<P>>, rank: seq<int>, s: SeriesKey)
    requires IsRowNumber(points, rank) && 0 < SeriesCount(points, s)
    ensures var first, last := RowAt(points, rank, s, 1), RowAt(points, rank, s, SeriesCount(points, s));
            forall i :: 0 <= i < |points| && points[i].Series() == s ==> points[first].time <= points[i].time <= points[last].time
  {
    var first, last := RowAt(points, rank, s, 1), RowAt(points, rank, s, SeriesCount(points, s));
    assert forall i :: 0 <= i < |points| && points[i].Series() == s ==>
      (i != first ==> rank[first] < rank[i]) && (i != last ==> rank[i] < rank[last]);
  }

  /** When every series is within budget and all points fit the limit, nothing is thinned or cut. */
  lemma NothingThinned<P>(points: seq<MetricPoint<P>>, rank: seq<int>, p: nat, limit: nat, fetched: seq<nat>)
    requires IsRowNumber(points, rank) && 0 < p && IsFetch(points, rank, p, limit, fetched) && TextFixesValue(points)
    requires |points| <= limit && forall s :: SeriesCount(points, s) <= p
    ensures forall i {:trigger i in fetched} :: i in fetched <==> 0 <= i < |points|
    ensures Answer(Pick(points, fetched), p) == Pick(points, fetched)
  {
    AllFetched(points, rank, p, limit, fetched);
    forall s ensures SeriesCount(Pick(points, fetched), s) <= p { FetchedTimes(points, rank, p, limit, fetched, s); }
    AllKept(Pick(points, fetched), p);
  }

  lemma AllFetched<P>(points: seq<MetricPoint<P>>, rank: seq<int>, p: nat, limit: nat, fetched: seq<nat>)
    requires IsRowNumber(points, rank) && 0 < p && IsFetch(points, rank, p, limit, fetched)
    requires |points| <= limit && forall s :: SeriesCount(points, s) <= p
    ensures forall i {:trigger i in fetched} :: i in fetched <==> 0 <= i < |points|
  {
    SeriesPartition(points, SeriesOf(points));
    SumOverCongruent(SeriesOf(points), s => SeriesCount(points, s), (s: SeriesKey) => SampleSizeOf(points, p, s));
    FetchIsComplete(points, rank, p, limit, fetched);
    forall i: nat | i < |points| ensures i in fetched { DistinctPositionsCover(fetched, i); }
  }

  lemma AllKept<P>(rows: seq<MetricPoint<P>>, p: nat)
    requires 0 < p && TextFixesValue(rows) && forall s :: SeriesCount(rows, s) <= p
    ensures Answer(rows, p) == rows
  {
    forall i: nat | i < |rows| ensures Kept(TextRows(rows), p, i) {
      var own := SeriesPositions(rows, rows[i].Series());
      assert SeriesCount(rows, rows[i].Series()) <= p;
      assert i in own && Downsample(own, p) == own && Downsample(own, p + 1) == own;
      KeptSpelled(rows, p, i);
    }
    var all := seq(|rows|, (i: nat) => i);
    forall i: nat ensures i in all <==> i < |rows| {
      if i < |rows| { assert all[i] == i; }
    }
    IncreasingUnique(MaskPositions(KeepMask(TextRows(rows), p)), all);
    assert Pick(rows, all) == rows;
  }

  // ---------------------------------------------------------------- when the limit bites

  ghost predicate DistinctTimes<P>(points: seq<MetricPoint<P>>) {
    forall i, j :: 0 <= i < |points| && 0 <= j < |points| && i != j && points[i].Series() == points[j].Series()
      ==> points[i].time != points[j].time
  }

  /** The newest point of series `s` is the last one returned of it. */
  ghost predicate NewestReturned<P>(points: seq<MetricPoint<P>>, rank: seq<int>, fetched: seq<nat>, p: nat, s: SeriesKey)
    requires IsRowNumber(points, rank)
    requires forall j :: 0 <= j < |fetched| ==> fetched[j] < |points|
    requires 0 < SeriesCount(points, s)
  {
    var ts := ReturnedTimes(points, fetched, p, s);
    0 < |ts| && ts[|ts| - 1] == points[RowAt(points, rank, s, SeriesCount(points, s))].time
  }

  lemma SeriesNonEmpty<P>(points: seq<MetricPoint<P>>, s: SeriesKey)
    requires s in SeriesOf(points)
    ensures 0 < SeriesCount(points, s)
  {
    var i :| 0 <= i < |points| && points[i].Series() == s;
    assert i in SeriesPositions(points, s);
  }

  lemma ReturnedIsFetched<P>(points: seq<MetricPoint<P>>, fetched: seq<nat>, p: nat, s: SeriesKey, j: nat) returns (k: nat)
    requires forall k :: 0 <= k < |fetched| ==> fetched[k] < |points|
    requires 0 < p && TextFixesValue(points) && SeriesCount(Pick(points, fetched), s) <= p + 1
    requires j < |ReturnedTimes(points, fetched, p, s)|
    ensures k < |fetched| && points[fetched[k]].Series() == s
    ensures ReturnedTimes(points, fetched, p, s)[j] == points[fetched[k]].time
  {
    var rows := Pick(points, fetched);
    var b := Budget(rows, p, s);
    AnswerSeries(rows, p, s);
    ReturnedTimeAt(points, fetched, p, s, b, j);
    k := SeriesPositions(rows, s)[DownsamplePositions(SeriesCount(rows, s), b)[j]];
    assert rows[k].Series() == s;
  }

  /** A series with a survivor beyond the limit has lost its newest point. */
  lemma MissedLosesNewest<P>(points: seq<MetricPoint<P>>, rank: seq<int>, p: nat, limit: nat, fetched: seq<nat>, i: nat)
    requires IsRowNumber(points, rank) && 0 < p && IsFetch(points, rank, p, limit, fetched) && TextFixesValue(points) && DistinctTimes(points)
    requires Survivor(points, rank, p, i) && i !in fetched
    requires 0 < SeriesCount(points, points[i].Series())
    ensures !NewestReturned(points, rank, fetched, p, points[i].Series())
  {
    var s := points[i].Series();
    var cnt := SeriesCount(points, s);
    var ts, newest := ReturnedTimes(points, fetched, p, s), RowAt(points, rank, s, cnt);
    FetchedAtMost(points, rank, p, limit, fetched, s);
    if 0 < |ts| {
      var k := ReturnedIsFetched(points, fetched, p, s, |ts| - 1);
      assert points[fetched[k]].time <= points[i].time <= points[newest].time;
      assert fetched[k] != i;
    }
  }

  /**
   Every series keeps its newest point exactly when the sampled rows, all series together, fit
   the row limit: a number fixed by the sizes of the series and the budget.
   */
  lemma NewestReturnedIffWithinLimit<P>(points: seq<MetricPoint<P>>, rank: seq<int>, p: nat, limit: nat, fetched: seq<nat>)
    requires IsRowNumber(points, rank) && 0 < p && IsFetch(points, rank, p, limit, fetched) && TextFixesValue(points) && DistinctTimes(points)
    ensures (forall s :: s in SeriesOf(points) ==> 0 < SeriesCount(points, s) && NewestReturned(points, rank, fetched, p, s))
       <==> SampledRows(points, p) <= limit
  {
    if SampledRows(points, p) <= limit {
      forall s | s in SeriesOf(points)
        ensures 0 < SeriesCount(points, s) && NewestReturned(points, rank, fetched, p, s)
      {
        NewestWithinLimit(points, rank, p, limit, fetched, s);
      }
    } else {
      var s := BeyondLimit(points, rank, p, limit, fetched);
    }
  }

  lemma NewestWithinLimit<P>(points: seq<MetricPoint<P>>, rank: seq<int>, p: nat, limit: nat, fetched: seq<nat>, s: SeriesKey)
    requires IsRowNumber(points, rank) && 0 < p && IsFetch(points, rank, p, limit, fetched) && TextFixesValue(points)
    requires SampledRows(points, p) <= limit && s in SeriesOf(points)
    ensures 0 < SeriesCount(points, s) && NewestReturned(points, rank, fetched, p, s)
  {
    SeriesNonEmpty(points, s);
    ReturnedSeriesWhole(points, rank, p, limit, fetched, s);
    var b := Budget(Pick(points, fetched), p, s);
    RanksInRange(SeriesCount(points, s), p, b);
    var f, ts := RanksUnder(SeriesCount(points, s), p, b), ReturnedTimes(points, fetched, p, s);
    assert ts[|ts| - 1] == points[RowAt(points, rank, s, f[|f| - 1])].time;
  }

  /** Over the limit, some series has lost its newest point. */
  lemma BeyondLimit<P>(points: seq<MetricPoint<P>>, rank: seq<int>, p: nat, limit: nat, fetched: seq<nat>) returns (s: SeriesKey)
    requires IsRowNumber(points, rank) && 0 < p && IsFetch(points, rank, p, limit, fetched) && TextFixesValue(points) && DistinctTimes(points)
    requires limit < SampledRows(points, p)
    ensures s in SeriesOf(points) && 0 < SeriesCount(points, s) && !NewestReturned(points, rank, fetched, p, s)
  {
    FetchIsComplete(points, rank, p, limit, fetched);
    var i :| Survivor(points, rank, p, i) && i !in fetched;
    s := points[i].Series();
    SeriesPresent(points, i);
    SeriesNonEmpty(points, s);
    MissedLosesNewest(points, rank, p, limit, fetched, i);
  }

  /** One series of one point more than the row limit, queried with a budget that admits them all. */
  function OversizedSeries(): seq<MetricPoint<int>> {
    seq(MAX_METRIC_ROWS + 1, i => MetricPoint("m", "svc", Object(map[]), "{}", i, i))
  }

  lemma OversizedIsOneSeries()
    ensures 0 < SeriesCount(OversizedSeries(), SeriesKey("svc", Object(map[])))
  {
    assert OversizedSeries()[0].Series() == SeriesKey("svc", Object(map[]));
    SeriesNonEmpty(OversizedSeries(), SeriesKey("svc", Object(map[])));
  }

  /** On it the newest point is lost, whatever the database does. */
  lemma LimitLosesNewest(rank: seq<int>, fetched: seq<nat>)
    requires IsRowNumber(OversizedSeries(), rank)
    requires IsFetch(OversizedSeries(), rank, MAX_METRIC_ROWS + 1, MAX_METRIC_ROWS, fetched)
    ensures 0 < SeriesCount(OversizedSeries(), SeriesKey("svc", Object(map[])))
    ensures !NewestReturned(OversizedSeries(), rank, fetched, MAX_METRIC_ROWS + 1, SeriesKey("svc", Object(map[])))
  {
    var points, p, s := OversizedSeries(), MAX_METRIC_ROWS + 1, SeriesKey("svc", Object(map[]));
    OversizedIsOneSeries();
    if forall i: nat :: i < |points| ==> i in fetched {
      NoDuplicatesLength(seq(|points|, i => i), fetched);
    } else {
      var i: nat :| i < |points| && i !in fetched;
      assert SeriesCount(points, s) <= |points|;
      MissedLosesNewest(points, rank, p, MAX_METRIC_ROWS, fetched, i);
    }
  }
}
