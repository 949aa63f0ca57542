/**
 The arithmetic of metric downsampling: the SQL window filter that keeps every k-th rank of a
 series and its last, the evenly spaced pass that follows it, and their composition.
 */
module Sampling {
  import opened Common

  // ---------------------------------------------------------------- stage one: the window filter

  /** Every `Stride`-th rank survives; integer division, as in SQL. */
  function Stride(cnt: nat, p: nat): nat
    requires p > 0
  {
    cnt / p + 1
  }

  /** The WHERE clause over `row_number()` and `count(*)` of a series. */
  predicate Survives(rn: int, cnt: nat, p: nat)
    requires p > 0
  {
    cnt <= p || rn % Stride(cnt, p) == 1 || rn == cnt
  }

  /** How many ranks of a series of `cnt` points survive: all, or one per stride and the last. */
  function SampleSize(cnt: nat, p: nat): nat
    requires p > 0
  {
    if cnt <= p then cnt else
      DivPositive(cnt - 2, Stride(cnt, p));
      (cnt - 2) / Stride(cnt, p) + 2
  }

  lemma DivPositive(a: int, k: int)
    requires 0 < k && -1 <= a
    ensures 0 <= a ==> 0 <= a / k
    ensures -1 <= a / k
  {
  }

  /** The surviving ranks of a series, in order, in closed form. */
  function Sampled(cnt: nat, p: nat): (ranks: seq<int>)
    requires p > 0
    ensures |ranks| == SampleSize(cnt, p)
  {
    if cnt <= p then seq(cnt, i => i + 1)
    else
      var n := SampleSize(cnt, p);
      seq(n, i => if i == n - 1 then cnt else 1 + i * Stride(cnt, p))
  }

  /** `n - 1` strides are the first to reach the last rank. */
  lemma StrideReach(cnt: nat, p: nat)
    requires 0 < p < cnt
    ensures var k, n := Stride(cnt, p), SampleSize(cnt, p);
            2 <= k && 2 <= n && (n - 2) * k < cnt - 1 <= (n - 1) * k
  {
    var k := Stride(cnt, p);
    assert 1 <= cnt / p by { DivAtLeastOne(cnt, p); }
    var q := (cnt - 2) / k;
    assert q * k + (cnt - 2) % k == cnt - 2;
    assert (q + 1) * k == q * k + k;
  }

  lemma DivAtLeastOne(a: nat, b: nat)
    requires 0 < b <= a
    ensures 1 <= a / b
  {
    assert a == b * (a / b) + a % b;
    if a / b < 1 { MulMonotone(a / b, 0, b); }
  }

  lemma MulMonotone(a: int, b: int, k: int)
    requires a <= b && 0 <= k
    ensures a * k <= b * k
  {
  }

  lemma MulCancel(a: int, b: int, k: int)
    requires 0 < k && a * k < b * k
    ensures a < b
  {
    if b <= a { MulMonotone(b, a, k); }
  }

  lemma SampledIncreasing(cnt: nat, p: nat, i: nat, j: nat)
    requires 0 < p && i < j < SampleSize(cnt, p)
    ensures 1 <= Sampled(cnt, p)[i] < Sampled(cnt, p)[j] <= cnt
  {
    if p < cnt {
      StrideReach(cnt, p);
      var k, n := Stride(cnt, p), SampleSize(cnt, p);
      MulMonotone(0, i, k);
      MulMonotone(i + 1, j, k);
      MulMonotone(i, n - 2, k);
      MulMonotone(j, n - 1, k);
      assert (i + 1) * k == i * k + k;
      if j < n - 1 { MulMonotone(j, n - 2, k); }
    }
  }

  lemma SampledSurvives(cnt: nat, p: nat, i: nat)
    requires 0 < p && i < SampleSize(cnt, p)
    ensures Survives(Sampled(cnt, p)[i], cnt, p)
  {
    if p < cnt && i < SampleSize(cnt, p) - 1 {
      StrideReach(cnt, p);
      RemainderOfStride(i, Stride(cnt, p));
    }
  }

  lemma SurvivorIsSampled(cnt: nat, p: nat, rn: int)
    requires 0 < p && 1 <= rn <= cnt && Survives(rn, cnt, p)
    ensures rn in Sampled(cnt, p)
  {
    var ranks, n := Sampled(cnt, p), SampleSize(cnt, p);
    if cnt <= p {
      assert ranks[rn - 1] == rn;
    } else {
      StrideReach(cnt, p);
      var k := Stride(cnt, p);
      if rn == cnt {
        assert ranks[n - 1] == rn;
      } else {
        var i := rn / k;
        assert rn == i * k + 1;
        MulCancel(i, n - 1, k);
        DivPositive(rn, k);
        assert ranks[i] == rn;
      }
    }
  }

  /** `Sampled` lists exactly the ranks that pass the filter, in increasing order. */
  lemma SampledIsFilter(cnt: nat, p: nat)
    requires 0 < p
    ensures StrictlyIncreasing(Sampled(cnt, p))
    ensures forall rn :: rn in Sampled(cnt, p) <==> 1 <= rn <= cnt && Survives(rn, cnt, p)
  {
    var ranks := Sampled(cnt, p);
    forall i, j | 0 <= i < j < |ranks| ensures ranks[i] < ranks[j] { SampledIncreasing(cnt, p, i, j); }
    forall rn ensures rn in ranks <==> 1 <= rn <= cnt && Survives(rn, cnt, p) {
      if rn in ranks {
        var i :| 0 <= i < |ranks| && ranks[i] == rn;
        SampledSurvives(cnt, p, i);
        if i + 1 < |ranks| { SampledIncreasing(cnt, p, i, i + 1); }
        if 0 < i { SampledIncreasing(cnt, p, 0, i); }
        if p < cnt { StrideReach(cnt, p); }
      }
      if 1 <= rn <= cnt && Survives(rn, cnt, p) { SurvivorIsSampled(cnt, p, rn); }
    }
  }

  lemma RemainderOfStride(i: nat, k: int)
    requires 2 <= k
    ensures (1 + i * k) % k == 1
  {
    var x := 1 + i * k;
    var d := x / k;
    assert x == d * k + x % k;
    assert (d + 1) * k == d * k + k && (i + 1) * k == i * k + k;
    MulCancel(i, d + 1, k);
    MulCancel(d, i + 1, k);
  }

  /** The SQL stage leaves at most one point over budget and more than half of it. */
  lemma SampleBounds(cnt: nat, p: nat)
    requires 0 < p < cnt
    ensures p < 2 * SampleSize(cnt, p)
    ensures SampleSize(cnt, p) <= p + 1
  {
    StrideReach(cnt, p);
    var k, n, q := Stride(cnt, p), SampleSize(cnt, p), cnt / p;
    assert cnt == q * p + cnt % p;
    assert q * p <= cnt < k * p by { assert k * p == q * p + p; }
    assert p * k == k * p;
    MulCancel(n - 2, p, k);
    // twice the reach of n - 1 strides is at least 2 (q p - 1), more than p - 2 strides
    assert (2 * n - 2) * k == 2 * ((n - 1) * k);
    assert (p - 2) * k == p * q + p - 2 * q - 2;
    DivAtLeastOne(cnt, p);
    MulMonotone(1, q, p);
    assert p * q == q * p;
    MulCancel(p - 2, 2 * n - 2, k);
  }

  // ---------------------------------------------------------------- stage two: the even spread

  /** The positions `downsample` reads out of a list of length `n`. */
  function DownsamplePositions(n: nat, maxPoints: nat): (ps: seq<int>)
    ensures |ps| == if n <= maxPoints || maxPoints == 0 then n else maxPoints
  {
    if n <= maxPoints || maxPoints == 0 then seq(n, i => i)
    else if maxPoints == 1 then [n - 1]
    else seq(maxPoints, i => i * (n - 1) / (maxPoints - 1))
  }

  /** Position `i` of the even spread is `floor(i (n - 1) / (p - 1))`. */
  lemma SpreadPosition(n: nat, p: nat, i: nat)
    requires 2 <= p < n && i < p
    ensures var x := DownsamplePositions(n, p)[i];
            x * (p - 1) <= i * (n - 1) < (x + 1) * (p - 1) && 0 <= x
  {
    var num := i * (n - 1);
    assert num == num / (p - 1) * (p - 1) + num % (p - 1);
    assert (num / (p - 1) + 1) * (p - 1) == num / (p - 1) * (p - 1) + (p - 1);
    MulMonotone(0, i, n - 1);
    DivPositive(num, p - 1);
  }

  /** Floors of `a / d` and `(a + g d + r) / d` differ by `g`, or by `g + 1` when `r > 0`. */
  lemma FloorGap(x: int, y: int, a: int, g: int, r: int, d: int)
    requires 0 <= r < d
    requires x * d <= a < x * d + d
    requires y * d <= a + (g * d + r) < y * d + d
    ensures g <= y - x <= g + (if r == 0 then 0 else 1)
  {
    var gap := y - x;
    assert gap * d == y * d - x * d;
    assert (g - 1) * d == g * d - d && (g + 1) * d == g * d + d && (g + 2) * d == g * d + 2 * d;
    MulCancel(g - 1, gap, d);
    MulCancel(gap, if r == 0 then g + 1 else g + 2, d);
  }

  /** Successive chosen positions differ by the floor or the ceiling of `(n - 1) / (p - 1)`. */
  lemma SpreadGap(n: nat, p: nat, i: nat)
    requires 2 <= p < n && i + 1 < p
    ensures var ps, g := DownsamplePositions(n, p), (n - 1) / (p - 1);
            1 <= g && g <= ps[i + 1] - ps[i] <= g + (if (n - 1) % (p - 1) == 0 then 0 else 1)
  {
    var ps, d, m := DownsamplePositions(n, p), p - 1, n - 1;
    SpreadPosition(n, p, i);
    SpreadPosition(n, p, i + 1);
    Successor(i, m);
    Successor(ps[i], d);
    Successor(ps[i + 1], d);
    DivAtLeastOne(m, d);
    FloorGap(ps[i], ps[i + 1], i * m, m / d, m % d, d);
  }

  lemma Successor(a: int, b: int)
    ensures (a + 1) * b == a * b + b
  {
  }

  /**
   `downsample` on a list over budget: exactly `p` positions, strictly increasing, from the
   first to the last.
   */
  lemma SpreadShape(n: nat, p: nat)
    requires 2 <= p < n
    ensures var ps := DownsamplePositions(n, p);
            |ps| == p && ps[0] == 0 && ps[p - 1] == n - 1 && StrictlyIncreasing(ps)
  {
    var ps := DownsamplePositions(n, p);
    SpreadEnds(n, p, ps[0], ps[p - 1]);
    forall i, j | 0 <= i < j < p ensures ps[i] < ps[j] { SpreadMonotone(n, p, i, j); }
  }

  lemma SpreadEnds(n: nat, p: nat, first: int, last: int)
    requires 2 <= p < n && first == DownsamplePositions(n, p)[0] && last == DownsamplePositions(n, p)[p - 1]
    ensures first == 0 && last == n - 1
  {
    SpreadPosition(n, p, 0);
    SpreadPosition(n, p, p - 1);
    SpreadEnd(n - 1, p - 1, last);
    assert 0 * (n - 1) == 0;
    MulCancel(first, 1, p - 1);
  }

  /** Only `m` lies within one `d` below `d * m`. */
  lemma SpreadEnd(m: int, d: int, x: int)
    requires 0 < d && x * d <= d * m < (x + 1) * d
    ensures x == m
  {
    assert d * m == m * d < (m + 1) * d;
    MulCancel(m, x + 1, d);
    MulCancel(x, m + 1, d);
  }

  lemma {:induction false} SpreadMonotone(n: nat, p: nat, i: nat, j: nat)
    requires 2 <= p < n && i < j < p
    ensures DownsamplePositions(n, p)[i] < DownsamplePositions(n, p)[j]
    decreases j - i
  {
    SpreadGap(n, p, j - 1);
    if i == j - 1 {
    } else {
      SpreadMonotone(n, p, i, j - 1);
    }
  }

  /** In every case the positions are strictly increasing indices into the list. */
  lemma DownsampleInRange(n: nat, p: nat)
    ensures var ps := DownsamplePositions(n, p);
            StrictlyIncreasing(ps) && forall j :: 0 <= j < |ps| ==> 0 <= ps[j] < n
  {
    if 2 <= p < n {
      SpreadShape(n, p);
    }
  }

  /** The product in the position formula stays inside a 64-bit word for any fetchable list. */
  lemma SpreadProductFits(n: nat, p: nat, i: nat)
    requires n <= 100_000 && p < n && i < p
    ensures 0 <= i * (n - 1) < U64_SIZE
  {
    MulMonotone(0, i, n - 1);
    MulMonotone(i, 100_000, n - 1);
  }

  /** Evenly spaced sample of `indices`, keeping first and last, when over the budget. */
  function Downsample<T>(indices: seq<T>, maxPoints: nat): (r: seq<T>)
    ensures |r| == if |indices| <= maxPoints || maxPoints == 0 then |indices| else maxPoints
  {
    DownsampleInRange(|indices|, maxPoints);
    Pick(indices, DownsamplePositions(|indices|, maxPoints))
  }

  // ---------------------------------------------------------------- both stages

  /** The ranks of one series that reach the caller. */
  function FinalRanks(cnt: nat, p: nat): seq<int>
    requires 0 < p
  {
    Downsample(Sampled(cnt, p), p)
  }

  /** Spreading `p + 1` positions over `p` drops exactly the penultimate one. */
  lemma SpreadDropsPenultimate(p: nat, i: nat)
    requires 2 <= p && i < p
    ensures DownsamplePositions(p + 1, p)[i] == if i == p - 1 then p else i
  {
    SpreadPosition(p + 1, p, i);
    var x, want := DownsamplePositions(p + 1, p)[i], if i == p - 1 then p else i;
    assert i * p == i * (p - 1) + i;
    assert p * (p - 1) == (p - 1) * p;
    assert (want + 1) * (p - 1) == want * (p - 1) + (p - 1);
    assert want * (p - 1) <= i * p < (want + 1) * (p - 1);
    MulCancel(want, x + 1, p - 1);
    MulCancel(x, want + 1, p - 1);
  }

  /**
   Stage two discards at most one rank of what stage one left, the penultimate one, and only
   when stage one went one over budget.
   */
  lemma SecondStageDropsAtMostOne(cnt: nat, p: nat)
    requires 2 <= p
    ensures var s, f := Sampled(cnt, p), FinalRanks(cnt, p);
            if |s| <= p then f == s else |s| == p + 1 && f == s[..p - 1] + s[p..]
  {
    var s, f := Sampled(cnt, p), FinalRanks(cnt, p);
    if |s| <= p {
      assert f == s;
    } else {
      SampleBounds(cnt, p);
      forall i | 0 <= i < p ensures f[i] == (s[..p - 1] + s[p..])[i] { SpreadDropsPenultimate(p, i); }
    }
  }

  /**
   Two-stage sampling of one series: within budget and above half of it, first and last rank
   kept, and consecutive kept ranks less than two strides apart.
   */
  lemma TwoStageSampling(cnt: nat, p: nat)
    requires 2 <= p < cnt
    ensures var f := FinalRanks(cnt, p);
            && p < 2 * |f| && |f| <= p
            && f[0] == 1 && f[|f| - 1] == cnt
            && StrictlyIncreasing(f)
            && forall i :: 0 <= i < |f| - 1 ==> f[i + 1] - f[i] < 2 * Stride(cnt, p)
  {
    var k, s, f := Stride(cnt, p), Sampled(cnt, p), FinalRanks(cnt, p);
    StrideReach(cnt, p);
    SampleBounds(cnt, p);
    SampledIsFilter(cnt, p);
    SecondStageDropsAtMostOne(cnt, p);
    forall i | 0 <= i < |f| - 1 ensures f[i + 1] - f[i] < 2 * k {
      if |s| == p + 1 && i == p - 2 {
        SampledLastTwo(cnt, p);
      } else {
        SampledGap(cnt, p, i);
      }
    }
  }

  /** Neighbouring surviving ranks are at most a stride apart. */
  lemma SampledGap(cnt: nat, p: nat, i: nat)
    requires 0 < p < cnt && i + 1 < SampleSize(cnt, p)
    ensures Sampled(cnt, p)[i + 1] - Sampled(cnt, p)[i] <= Stride(cnt, p)
  {
    StrideReach(cnt, p);
    var k := Stride(cnt, p);
    assert (i + 1) * k == i * k + k;
  }

  /** When the SQL stage is one over budget its last two gaps together stay under two strides. */
  lemma SampledLastTwo(cnt: nat, p: nat)
    requires 2 <= p < cnt && SampleSize(cnt, p) == p + 1
    ensures Sampled(cnt, p)[p] - Sampled(cnt, p)[p - 2] < 2 * Stride(cnt, p)
  {
    var k, q := Stride(cnt, p), cnt / p;
    assert cnt == q * p + cnt % p && k * p == q * p + p;
    assert (p - 2) * k == k * p - 2 * k;
  }

  /** With a budget of one only the last rank is kept, whatever the series' size. */
  lemma BudgetOfOne(cnt: nat)
    requires 0 < cnt
    ensures FinalRanks(cnt, 1) == [cnt]
  {
    if 1 < cnt {
      StrideReach(cnt, 1);
      SampleBounds(cnt, 1);
    }
  }

  /** A series within budget is returned whole. */
  lemma WithinBudget(cnt: nat, p: nat)
    requires 0 < p && cnt <= p
    ensures FinalRanks(cnt, p) == seq(cnt, i => i + 1)
  {
  }

  /** Without the second stage the same holds, one point over budget at most, gaps within a stride. */
  lemma FirstStageAlone(cnt: nat, p: nat)
    requires 0 < p
    ensures var s := Sampled(cnt, p);
            && |s| <= p + 1 && Downsample(s, p + 1) == s
            && (p < cnt ==> p < 2 * |s| && s[0] == 1 && s[|s| - 1] == cnt)
            && (forall i :: 0 <= i < |s| - 1 ==> s[i + 1] - s[i] <= Stride(cnt, p))
  {
    if p < cnt {
      SampleBounds(cnt, p);
      StrideReach(cnt, p);
      forall i | 0 <= i < |Sampled(cnt, p)| - 1 ensures Sampled(cnt, p)[i + 1] - Sampled(cnt, p)[i] <= Stride(cnt, p) {
        SampledGap(cnt, p, i);
      }
    } else {
      DivPositive(cnt, p);
    }
  }
}
