/**
 Two notions of a series. SQL numbers rows by JSONB value, the process trims them by text; values
 such as `1` and `1.0` are equal as JSONB and differ as text. What the process leaves of each series
 SQL sees, and when that is more than the budget.
 */
module SeriesSpelling {
  import opened Common
  import opened Telemetry
  import opened JsonAttributes
  import opened Sampling
  import opened MetricQueries
  import opened KeepMasks

  lemma AnswerPayloads<P>(rows: seq<MetricPoint<P>>, p: nat)
    ensures Payloads(Answer(rows, p)) == Payloads(Thinned(TextRows(rows), p))
  {
  }

  /** Its length: every spelling of a series has the budget to itself. */
  lemma AnswerLength<P>(rows: seq<MetricPoint<P>>, p: nat)
    requires 0 < p
    ensures |Answer(rows, p)| == SumOver(SeriesOf(TextRows(rows)), s => Min(SeriesCount(TextRows(rows), s), p))
  {
    KeepMaskMerge(TextRows(rows), p);
  }

  /** Equal texts are equal values: a text denotes one value. */
  ghost predicate TextFixesValue<P>(rows: seq<MetricPoint<P>>) {
    forall i, j :: 0 <= i < |rows| && 0 <= j < |rows| && rows[i].spelling == rows[j].spelling ==> rows[i].attributes == rows[j].attributes
  }

  /** The rows of series `s` write their attributes in one way. */
  ghost predicate AlikeIn<P>(rows: seq<MetricPoint<P>>, s: SeriesKey) {
    forall i, j :: 0 <= i < |rows| && 0 <= j < |rows| && rows[i].Series() == s && rows[j].Series() == s ==> rows[i].spelling == rows[j].spelling
  }

  // ---------------------------------------------------------------- what the process leaves of a series

  /** The budget a series of at most `p + 1` rows gets in effect. */
  ghost function Budget<P>(rows: seq<MetricPoint<P>>, p: nat, s: SeriesKey): nat {
    if AlikeIn(rows, s) then p else p + 1
  }

  /** A row is kept exactly when the even spread of its series, under the budget in effect, keeps it. */
  lemma KeptSpelled<P>(rows: seq<MetricPoint<P>>, p: nat, i: nat)
    requires 0 < p && TextFixesValue(rows) && i < |rows| && SeriesCount(rows, rows[i].Series()) <= p + 1
    ensures Kept(TextRows(rows), p, i)
       <==> i in Downsample(SeriesPositions(rows, rows[i].Series()), Budget(rows, p, rows[i].Series()))
  {
    var texts, s := TextRows(rows), rows[i].Series();
    var own, spelled := SeriesPositions(rows, s), SeriesPositions(texts, texts[i].Series());
    if AlikeIn(rows, s) {
      IncreasingUnique(spelled, own);
    } else {
      SplitIsSmaller(rows, i);
      assert i in own && i in spelled;
      assert Downsample(own, p + 1) == own && Downsample(spelled, p) == spelled;
    }
  }

  /** Each spelling of a series written in several ways has fewer rows than the series. */
  lemma SplitIsSmaller<P>(rows: seq<MetricPoint<P>>, i: nat)
    requires TextFixesValue(rows) && i < |rows| && !AlikeIn(rows, rows[i].Series())
    ensures SeriesCount(TextRows(rows), TextRows(rows)[i].Series()) < SeriesCount(rows, rows[i].Series())
  {
    var texts, s := TextRows(rows), rows[i].Series();
    var own, spelled := SeriesPositions(rows, s), SeriesPositions(texts, texts[i].Series());
    var k :| 0 <= k < |rows| && rows[k].Series() == s && rows[k].spelling != rows[i].spelling;
    assert k in own && k !in spelled;
    assert forall x :: x in spelled ==> x in own;
    assert forall j :: 0 <= j < |spelled| ==> spelled[j] in spelled;
    NoDuplicatesLength(spelled + [k], own);
  }

  /**
   What the process returns of a series of at most `p + 1` rows: the even spread under the budget
   if the series is spelled in one way, and otherwise all of it.
   */
  lemma AnswerSeries<P>(rows: seq<MetricPoint<P>>, p: nat, s: SeriesKey)
    requires 0 < p && TextFixesValue(rows) && SeriesCount(rows, s) <= p + 1
    ensures SeriesRows(Answer(rows, p), s) == Downsample(SeriesRows(rows, s), Budget(rows, p, s))
  {
    var own, b := SeriesPositions(rows, s), Budget(rows, p, s);
    DownsampleIncreasing(own, b);
    DownsampleInRange(|own|, b);
    DownsampleSubset(own, b);
    var ks := MaskPositions(KeepMask(TextRows(rows), p));
    forall i: nat ensures i in Downsample(own, b) <==> i in ks && i < |rows| && rows[i].Series() == s {
      if i < |rows| && rows[i].Series() == s { KeptSpelled(rows, p, i); }
    }
    SeriesOfPicked(rows, ks, s, Downsample(own, b));
  }

  /** Such a series comes back over budget, by one, exactly when it has `p + 1` rows and more than one spelling. */
  lemma OverBudgetIff<P>(rows: seq<MetricPoint<P>>, p: nat, s: SeriesKey)
    requires 0 < p && TextFixesValue(rows) && SeriesCount(rows, s) <= p + 1
    ensures SeriesCount(Answer(rows, p), s) <= p + 1
    ensures p < SeriesCount(Answer(rows, p), s) <==> SeriesCount(rows, s) == p + 1 && !AlikeIn(rows, s)
  {
    AnswerSeries(rows, p, s);
    assert |SeriesRows(Answer(rows, p), s)| == SeriesCount(Answer(rows, p), s);
  }

  /** Two points of one metric whose attribute `x` is the integer 1 and the double 1. */
  function Mixed(): seq<MetricPoint<int>> {
    [MetricPoint("m", "svc", AttributesToJson([KeyValue("x", Some(IntValue(1)))]), "{\"x\": 1}", 0, 0),
     MetricPoint("m", "svc", AttributesToJson([KeyValue("x", Some(DoubleValue(Finite(1.0))))]), "{\"x\": 1.0}", 1, 1)]
  }

  /** They are one series. */
  lemma MixedIsOneSeries()
    ensures TextFixesValue(Mixed()) && Mixed()[0].Series() == Mixed()[1].Series()
  {
    OneField("x", Some(IntValue(1)));
    OneField("x", Some(DoubleValue(Finite(1.0))));
    assert Mixed()[0].spelling[7] != Mixed()[1].spelling[7];
  }

  /** Of two points spelled differently a budget of one returns both. */
  lemma TwoSpellings<P>(rows: seq<MetricPoint<P>>)
    requires |rows| == 2 && rows[0].spelling != rows[1].spelling
    ensures Answer(rows, 1) == rows
  {
    KeptAlone(TextRows(rows), 0);
    KeptAlone(TextRows(rows), 1);
    IncreasingUnique(MaskPositions(KeepMask(TextRows(rows), 1)), [0, 1]);
  }

  lemma OneField(key: string, value: Option<AnyValue>)
    ensures AttributesToJson([KeyValue(key, value)]) == Object(map[key := OtelValueToJson(value)])
  {
    assert [KeyValue(key, value)][1..] == [];
    assert FieldsToJson([]) == map[];
  }

  // ---------------------------------------------------------------- the two groupings compared

  /** Each series is spelled in one way. */
  ghost predicate SpelledAlike<P>(rows: seq<MetricPoint<P>>) {
    forall i {:trigger rows[i]} :: 0 <= i < |rows| ==> AlikeIn(rows, rows[i].Series())
  }

  /** Spelled alike, grouping by text is grouping by value: the same rows are kept. */
  lemma AlikeSame<P>(rows: seq<MetricPoint<P>>, p: nat)
    requires TextFixesValue(rows) && SpelledAlike(rows)
    ensures KeepMask(TextRows(rows), p) == KeepMask(rows, p)
    ensures Answer(rows, p) == Thinned(rows, p)
  {
    var texts := TextRows(rows);
    forall i: nat | i < |rows| ensures Kept(texts, p, i) <==> Kept(rows, p, i) {
      assert AlikeIn(rows, rows[i].Series());
      IncreasingUnique(SeriesPositions(texts, texts[i].Series()), SeriesPositions(rows, rows[i].Series()));
    }
    assert forall i :: 0 <= i < |rows| ==> KeepMask(texts, p)[i] == KeepMask(rows, p)[i];
  }

  /** With a budget of one, a row is kept exactly when it is the last of its series. */
  lemma KeptAlone<P>(rows: seq<MetricPoint<P>>, i: nat)
    requires i < |rows|
    ensures Kept(rows, 1, i) <==> forall j :: i < j < |rows| ==> rows[j].Series() != rows[i].Series()
  {
    var own := SeriesPositions(rows, rows[i].Series());
    assert i in own;
    var last := own[|own| - 1];
    assert Downsample(own, 1) == [last];
    assert forall j :: 0 <= j < |own| ==> own[j] <= last;
    assert last in own;
    assert forall j :: i < j < |rows| && rows[j].Series() == rows[i].Series() ==> j in own;
  }

  lemma {:induction false} LastOfSeries<P>(rows: seq<MetricPoint<P>>, i: nat) returns (k: nat)
    requires i < |rows|
    ensures i <= k < |rows| && rows[k].Series() == rows[i].Series()
    ensures forall j :: k < j < |rows| ==> rows[j].Series() != rows[i].Series()
    decreases |rows| - i
  {
    if j :| i < j < |rows| && rows[j].Series() == rows[i].Series() {
      k := LastOfSeries(rows, j);
    } else {
      k := i;
    }
  }

  /** A series spelled in two ways keeps a row of each where it should keep one. */
  lemma SplitSeriesKeepsMore<P>(rows: seq<MetricPoint<P>>, i: nat, j: nat) returns (k: nat)
    requires i < |rows| && j < |rows|
    requires rows[i].Series() == rows[j].Series() && rows[i].spelling != rows[j].spelling
    ensures k < |rows| && KeepMask(TextRows(rows), 1)[k] && (TextFixesValue(rows) ==> !KeepMask(rows, 1)[k])
  {
    var texts := TextRows(rows);
    var a := LastOfSeries(texts, i);
    var b := LastOfSeries(texts, j);
    assert texts[a].Series() == rows[i].AsText().Series() && texts[b].Series() == rows[j].AsText().Series();
    k := if a < b then a else b;
    KeptAlone(texts, k);
    KeptAlone(rows, k);
  }

  /**
   The two groupings keep the same rows for every budget if and only if each series is spelled in
   one way.
   */
  lemma SpellingIff<P>(rows: seq<MetricPoint<P>>)
    requires TextFixesValue(rows)
    ensures (forall p {:trigger KeepMask(rows, p)} :: KeepMask(TextRows(rows), p) == KeepMask(rows, p)) <==> SpelledAlike(rows)
  {
    if SpelledAlike(rows) {
      forall p { AlikeSame(rows, p); }
    } else {
      var i, j :| 0 <= i < |rows| && 0 <= j < |rows| && rows[i].Series() == rows[j].Series()
                  && rows[i].spelling != rows[j].spelling;
      var k := SplitSeriesKeepsMore(rows, i, j);
      assert KeepMask(TextRows(rows), 1) != KeepMask(rows, 1);
    }
  }
}
