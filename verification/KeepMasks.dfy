/** The keep mask: it thins every group of rows independently of how the groups interleave. */
module KeepMasks {
  import opened Common
  import opened Sampling
  import opened MetricQueries

  /** Selected rows, seen through one series. */
  lemma SeriesOfPicked<P>(rows: seq<MetricPoint<P>>, ks: seq<nat>, s: SeriesKey, chosen: seq<nat>)
    requires StrictlyIncreasing(ks) && StrictlyIncreasing(chosen)
    requires forall j :: 0 <= j < |ks| ==> ks[j] < |rows|
    requires forall j :: 0 <= j < |chosen| ==> chosen[j] < |rows|
    requires forall i: nat :: i in chosen <==> i in ks && i < |rows| && rows[i].Series() == s
    ensures SeriesRows(Pick(rows, ks), s) == Pick(rows, chosen)
  {
    var js := SeriesPositions(Pick(rows, ks), s);
    var via := Pick(ks, js);
    forall i: nat ensures i in via <==> i in chosen { PickedSeries(rows, ks, s, i); }
    assert StrictlyIncreasing(via);
    IncreasingUnique(via, chosen);
  }

  /** Seen through one series, the merged answer is the even spread of that series' rows. */
  lemma SeriesThinnedAlone<P>(rows: seq<MetricPoint<P>>, p: nat, s: SeriesKey)
    ensures SeriesRows(Thinned(rows, p), s) == Downsample(SeriesRows(rows, s), p)
  {
    var own := SeriesPositions(rows, s);
    DownsampleIncreasing(own, p);
    DownsampleInRange(|own|, p);
    forall i: nat ensures i in Downsample(own, p) <==> i in MaskPositions(KeepMask(rows, p)) && i < |rows| && rows[i].Series() == s {
      KeptInSeries(rows, p, s, i);
    }
    SeriesOfPicked(rows, MaskPositions(KeepMask(rows, p)), s, Downsample(own, p));
  }

  /** The mask bits of one series are its even spread. */
  lemma KeptInSeries<P>(rows: seq<MetricPoint<P>>, p: nat, s: SeriesKey, i: nat)
    ensures i in Downsample(SeriesPositions(rows, s), p)
       <==> i in MaskPositions(KeepMask(rows, p)) && i < |rows| && rows[i].Series() == s
  {
    DownsampleSubset(SeriesPositions(rows, s), p);
  }

  /** Filtering a selection by series selects the positions of that series. */
  lemma PickedSeries<P>(rows: seq<MetricPoint<P>>, ks: seq<nat>, s: SeriesKey, i: nat)
    requires forall j :: 0 <= j < |ks| ==> ks[j] < |rows|
    ensures i in Pick(ks, SeriesPositions(Pick(rows, ks), s)) <==> i in ks && i < |rows| && rows[i].Series() == s
  {
    var out := Pick(rows, ks);
    var js := SeriesPositions(out, s);
    var via := Pick(ks, js);
    if i in via {
      var j :| 0 <= j < |via| && via[j] == i;
      assert out[js[j]].Series() == s;
    }
    if i in ks && i < |rows| && rows[i].Series() == s {
      var k :| 0 <= k < |ks| && ks[k] == i;
      assert k in js;
      var j :| 0 <= j < |js| && js[j] == k;
      assert via[j] == i;
    }
  }

  /** Rows are partitioned by series. */
  lemma {:induction false} SeriesPartition<P>(rows: seq<MetricPoint<P>>, keys: set<SeriesKey>)
    requires SeriesOf(rows) <= keys
    ensures |rows| == SumOver(keys, s => SeriesCount(rows, s))
  {
    if rows == [] {
      SumOverZero(keys, s => SeriesCount(rows, s));
    } else {
      var n := |rows| - 1;
      var before := rows[..n];
      assert rows[..n + 1] == rows;
      SeriesOfGrow(rows, n);
      SeriesPartition(before, keys);
      forall s { SeriesPositionsGrow(rows, n, s); }
      SumOverBump(keys, s => SeriesCount(before, s), s => SeriesCount(rows, s), rows[n].Series());
    }
  }

  /**
   Keep-mask merge: the answer is a subsequence of the fetched rows, and its length is the sum
   over the series of the smaller of the series' size and the budget.
   */
  lemma KeepMaskMerge<P>(rows: seq<MetricPoint<P>>, p: nat)
    requires 0 < p
    ensures |Thinned(rows, p)| == SumOver(SeriesOf(rows), s => Min(SeriesCount(rows, s), p))
    ensures exists ks: seq<nat> :: StrictlyIncreasing(ks) && (forall j :: 0 <= j < |ks| ==> ks[j] < |rows|)
                                 && Thinned(rows, p) == Pick(rows, ks)
  {
    var out, keys := Thinned(rows, p), SeriesOf(rows);
    var ks := MaskPositions(KeepMask(rows, p));
    assert StrictlyIncreasing(ks) && out == Pick(rows, ks);
    forall s | s in SeriesOf(out) ensures s in keys {
      var j :| 0 <= j < |out| && out[j].Series() == s;
      SeriesPresent(rows, ks[j]);
    }
    SeriesPartition(out, keys);
    forall s ensures SeriesCount(out, s) == Min(SeriesCount(rows, s), p) {
      SeriesThinnedAlone(rows, p, s);
    }
    SumOverCongruent(keys, s => SeriesCount(out, s), s => Min(SeriesCount(rows, s), p));
  }
}
