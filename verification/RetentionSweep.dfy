/**
 The retention sweep: the cutoff, and the loop of bounded delete statements, with other writers
 changing the table between statements.
 */
module RetentionSweep {
  import opened Common

  const BATCH_ROWS: nat := 10_000

  /** The time column of a table, by physical row. */
  type Table = map<nat, int>

  /** `now - retention` in 128-bit arithmetic that stops at zero, clipped to a BIGINT. */
  function Cutoff(now: nat, retention: nat): (c: int)
    ensures 0 <= c <= I64_MAX
  {
    Min(Max(now - retention, 0), I64_MAX)
  }

  /**
   A stored time (never negative, at most BIGINT) is below the cutoff exactly when it is older than
   the retention; only the very last representable time escapes, once that too has aged.
   */
  lemma CutoffExact(now: nat, retention: nat, time: int)
    requires 0 <= time <= I64_MAX
    ensures time < Cutoff(now, retention) <==> time < now - retention && time < I64_MAX
  {
  }

  function Expired(table: Table, cutoff: int): set<nat> {
    set id | id in table && table[id] < cutoff
  }

  function Unexpired(table: Table, cutoff: int): Table {
    map id | id in table && !(table[id] < cutoff) :: table[id]
  }

  /** A longer retention expires less, so it keeps a superset. */
  lemma LongerRetentionKeepsMore(table: Table, now: nat, short: nat, long: nat)
    requires short <= long
    ensures Expired(table, Cutoff(now, long)) <= Expired(table, Cutoff(now, short))
    ensures Unexpired(table, Cutoff(now, short)).Keys <= Unexpired(table, Cutoff(now, long)).Keys
  {
  }

  // ---------------------------------------------------------------- one statement

  /**
   One delete statement: it removes some expired rows, as many as there are up to the batch size,
   and nothing else.
   */
  ghost predicate IsDelete(before: Table, after: Table, cutoff: int) {
    exists victims :: victims <= Expired(before, cutoff) && after == before - victims
                      && |victims| == Min(|Expired(before, cutoff)|, BATCH_ROWS)
  }

  /** `rows_affected`. */
  function RowsAffected(before: Table, after: Table): int {
    |before| - |after|
  }

  lemma RemovalCounts(before: Table, victims: set<nat>, cutoff: int)
    requires victims <= Expired(before, cutoff)
    ensures RowsAffected(before, before - victims) == |victims|
    ensures |Expired(before - victims, cutoff)| == |Expired(before, cutoff)| - |victims|
  {
    assert (before - victims).Keys == before.Keys - victims;
    assert |before.Keys - victims| == |before.Keys| - |victims|;
    assert |(before - victims).Keys| == |before - victims| && |before.Keys| == |before|;
    assert Expired(before - victims, cutoff) == Expired(before, cutoff) - victims;
  }

  lemma RemovalSpares(before: Table, victims: set<nat>, cutoff: int)
    requires victims <= Expired(before, cutoff)
    ensures Unexpired(before - victims, cutoff) == Unexpired(before, cutoff)
    ensures forall id :: id in before && id !in before - victims ==> before[id] < cutoff
  {
    assert Unexpired(before - victims, cutoff).Keys == Unexpired(before, cutoff).Keys;
  }

  /** What a statement does to the expired rows, counted, and to the others: nothing. */
  lemma DeleteEffect(before: Table, after: Table, cutoff: int)
    requires IsDelete(before, after, cutoff)
    ensures RowsAffected(before, after) == Min(|Expired(before, cutoff)|, BATCH_ROWS)
    ensures |Expired(after, cutoff)| == |Expired(before, cutoff)| - RowsAffected(before, after)
    ensures Unexpired(after, cutoff) == Unexpired(before, cutoff)
    ensures forall id :: id in before && id !in after ==> before[id] < cutoff
  {
    var victims :| victims <= Expired(before, cutoff) && after == before - victims
                   && |victims| == Min(|Expired(before, cutoff)|, BATCH_ROWS);
    RemovalCounts(before, victims, cutoff);
    RemovalSpares(before, victims, cutoff);
  }

  /** A statement that deletes fewer rows than a batch leaves nothing expired behind. */
  lemma ShortDeleteFinishes(before: Table, after: Table, cutoff: int)
    requires IsDelete(before, after, cutoff) && RowsAffected(before, after) < BATCH_ROWS
    ensures Expired(after, cutoff) == {}
  {
    DeleteEffect(before, after, cutoff);
  }

  /** The statement, with the database choosing which expired rows go. */
  method DeleteBatch(before: Table, cutoff: int) returns (after: Table)
    ensures IsDelete(before, after, cutoff)
  {
    var victims: set<nat>, left := {}, Expired(before, cutoff);
    while left != {} && |victims| < BATCH_ROWS
      invariant victims !! left && victims + left == Expired(before, cutoff)
      invariant |victims| <= BATCH_ROWS
      decreases |left|
    {
      var id :| id in left;
      victims, left := victims + {id}, left - {id};
    }
    assert |Expired(before, cutoff)| == |victims| + |left|;
    assert left == {} ==> |left| == 0;
    return before - victims;
  }

  // ---------------------------------------------------------------- the loop among other writers

  /** The table as one statement found it and left it. */
  datatype Step = Step(before: Table, after: Table)

  /**
   A finished run of the loop over one table. Nothing ties `steps[i].after` to
   `steps[i + 1].before`: other writers may have done anything in between.
   */
  ghost predicate IsSweep(steps: seq<Step>, cutoff: int) {
    && steps != []
    && (forall i :: 0 <= i < |steps| ==> IsDelete(steps[i].before, steps[i].after, cutoff))
    && (forall i :: 0 <= i < |steps| - 1 ==> RowsAffected(steps[i].before, steps[i].after) == BATCH_ROWS)
    && RowsAffected(steps[|steps| - 1].before, steps[|steps| - 1].after) < BATCH_ROWS
  }

  function Deleted(steps: seq<Step>): int {
    if steps == [] then 0
    else Deleted(steps[..|steps| - 1]) + RowsAffected(steps[|steps| - 1].before, steps[|steps| - 1].after)
  }

  /**
   Under any interleaving: every row a statement removed was expired, every row it kept is
   untouched, its last statement left nothing expired, and the counter is whole batches plus a
   remainder.
   */
  lemma SweepSafe(steps: seq<Step>, cutoff: int)
    requires IsSweep(steps, cutoff)
    ensures forall i, id :: 0 <= i < |steps| && id in steps[i].before && id !in steps[i].after ==> steps[i].before[id] < cutoff
    ensures forall i :: 0 <= i < |steps| ==> Unexpired(steps[i].after, cutoff) == Unexpired(steps[i].before, cutoff)
    ensures Expired(steps[|steps| - 1].after, cutoff) == {}
    ensures Deleted(steps) / BATCH_ROWS == |steps| - 1
  {
    forall i | 0 <= i < |steps|
      ensures forall id :: id in steps[i].before && id !in steps[i].after ==> steps[i].before[id] < cutoff
      ensures Unexpired(steps[i].after, cutoff) == Unexpired(steps[i].before, cutoff)
    {
      DeleteEffect(steps[i].before, steps[i].after, cutoff);
    }
    var last := steps[|steps| - 1];
    ShortDeleteFinishes(last.before, last.after, cutoff);
    DeleteEffect(last.before, last.after, cutoff);
    FullBatches(steps[..|steps| - 1]);
  }

  lemma {:induction false} FullBatches(steps: seq<Step>)
    requires forall i :: 0 <= i < |steps| ==> RowsAffected(steps[i].before, steps[i].after) == BATCH_ROWS
    ensures Deleted(steps) == |steps| * BATCH_ROWS
  {
    if steps == [] {
    } else {
      FullBatches(steps[..|steps| - 1]);
    }
  }

  /**
   The exact edge: some statements are a finished sweep if and only if the last of them found fewer
   expired rows than a batch and no earlier one did.
   */
  lemma SweepIff(steps: seq<Step>, cutoff: int)
    requires steps != [] && forall i :: 0 <= i < |steps| ==> IsDelete(steps[i].before, steps[i].after, cutoff)
    ensures IsSweep(steps, cutoff) <==>
      && FewExpired(steps[|steps| - 1], cutoff)
      && forall i :: 0 <= i < |steps| - 1 ==> !FewExpired(steps[i], cutoff)
  {
    forall i | 0 <= i < |steps|
      ensures RowsAffected(steps[i].before, steps[i].after) == Min(|Expired(steps[i].before, cutoff)|, BATCH_ROWS)
    {
      DeleteEffect(steps[i].before, steps[i].after, cutoff);
    }
  }

  /** As long as every statement finds a batch, the loop goes on: all it has done is full batches, no finished sweep. */
  lemma StillRunning(steps: seq<Step>, cutoff: int)
    requires steps != [] && forall i :: 0 <= i < |steps| ==> IsDelete(steps[i].before, steps[i].after, cutoff)
    requires forall i :: 0 <= i < |steps| ==> !FewExpired(steps[i], cutoff)
    ensures FullSoFar(steps) && !IsSweep(steps, cutoff)
  {
    forall i | 0 <= i < |steps| ensures RowsAffected(steps[i].before, steps[i].after) == BATCH_ROWS {
      DeleteEffect(steps[i].before, steps[i].after, cutoff);
    }
  }

  /** The statement found less than a batch to delete. */
  predicate FewExpired(step: Step, cutoff: int) {
    |Expired(step.before, cutoff)| < BATCH_ROWS
  }

  function Prefix(run: nat -> Step, n: nat): seq<Step> {
    seq(n, i requires 0 <= i < n => run(i))
  }

  /**
   Whatever other writers do, for as long as the loop is let run: it finishes if and only if some
   statement finds fewer expired rows than a batch.
   */
  lemma FinishesIff(run: nat -> Step, cutoff: int)
    requires forall i :: IsDelete(run(i).before, run(i).after, cutoff)
    ensures (exists n :: IsSweep(Prefix(run, n), cutoff)) <==> exists i :: FewExpired(run(i), cutoff)
  {
    if n: nat :| IsSweep(Prefix(run, n), cutoff) {
      SweepIff(Prefix(run, n), cutoff);
      assert FewExpired(run(n - 1), cutoff);
    }
    if i: nat :| FewExpired(run(i), cutoff) {
      FinishesAtFirstFew(run, cutoff, i);
    }
  }

  lemma FinishesAtFirstFew(run: nat -> Step, cutoff: int, i: nat)
    requires forall j :: IsDelete(run(j).before, run(j).after, cutoff)
    requires FewExpired(run(i), cutoff)
    ensures exists n :: IsSweep(Prefix(run, n), cutoff)
  {
    var k := FirstFew(run, cutoff, i);
    var steps := Prefix(run, k + 1);
    assert forall j :: 0 <= j <= k ==> steps[j] == run(j);
    SweepIff(steps, cutoff);
  }

  lemma {:induction false} FirstFew(run: nat -> Step, cutoff: int, i: nat) returns (k: nat)
    requires FewExpired(run(i), cutoff)
    ensures FewExpired(run(k), cutoff) && forall j: nat :: j < k ==> !FewExpired(run(j), cutoff)
  {
    if j: nat :| j < i && FewExpired(run(j), cutoff) {
      k := FirstFew(run, cutoff, j);
    } else {
      k := i;
    }
  }

  /** No other writer touched the table between the statements. */
  ghost predicate Undisturbed(steps: seq<Step>) {
    forall i :: 0 <= i < |steps| - 1 ==> steps[i + 1].before == steps[i].after
  }

  lemma {:induction false} UndisturbedDeletes(steps: seq<Step>, cutoff: int)
    requires steps != [] && Undisturbed(steps)
    requires forall i :: 0 <= i < |steps| ==> IsDelete(steps[i].before, steps[i].after, cutoff)
    ensures var first, last := steps[0].before, steps[|steps| - 1].after;
            && Deleted(steps) == |Expired(first, cutoff)| - |Expired(last, cutoff)|
            && Unexpired(last, cutoff) == Unexpired(first, cutoff)
  {
    var n := |steps| - 1;
    DeleteEffect(steps[n].before, steps[n].after, cutoff);
    if n == 0 {
      assert steps[..0] == [];
    } else {
      UndisturbedDeletes(steps[..n], cutoff);
    }
  }

  /** Alone, the loop removes exactly the expired rows in exactly `expired / BATCH_ROWS + 1` statements. */
  lemma UndisturbedSweep(steps: seq<Step>, cutoff: int)
    requires IsSweep(steps, cutoff) && Undisturbed(steps)
    ensures var first, last := steps[0].before, steps[|steps| - 1].after;
            && Deleted(steps) == |Expired(first, cutoff)|
            && |steps| == |Expired(first, cutoff)| / BATCH_ROWS + 1
            && last == Unexpired(first, cutoff)
  {
    SweepSafe(steps, cutoff);
    UndisturbedDeletes(steps, cutoff);
    var last := steps[|steps| - 1].after;
    assert forall id :: id in last ==> id !in Expired(last, cutoff);
    assert last == Unexpired(last, cutoff);
  }

  /** The statements were executed on `table` with `others` in between. */
  ghost predicate Ran(steps: seq<Step>, table: Table, cutoff: int, others: (nat, Table) -> Table) {
    && (forall i {:trigger Found(steps, i, table, others)} :: 0 <= i < |steps| ==> Found(steps, i, table, others))
    && (forall i :: 0 <= i < |steps| ==> IsDelete(steps[i].before, steps[i].after, cutoff))
  }

  /** Statement `i` found what `others` made of what the one before it left. */
  ghost predicate Found(steps: seq<Step>, i: nat, table: Table, others: (nat, Table) -> Table)
    requires i < |steps|
  {
    steps[i].before == others(i, if i == 0 then table else steps[i - 1].after)
  }

  ghost predicate FullSoFar(steps: seq<Step>) {
    forall i :: 0 <= i < |steps| ==> RowsAffected(steps[i].before, steps[i].after) == BATCH_ROWS
  }

  function Left(steps: seq<Step>, table: Table): Table {
    if steps == [] then table else steps[|steps| - 1].after
  }

  // ---------------------------------------------------------------- a loop without end

  /** A table of `n` expired rows. */
  function Backlog(n: nat, cutoff: int): Table {
    if n == 0 then map[] else Backlog(n - 1, cutoff)[n - 1 := cutoff - 1]
  }

  lemma {:induction false} BacklogExpired(n: nat, cutoff: int)
    ensures |Expired(Backlog(n, cutoff), cutoff)| == n && forall id :: id in Backlog(n, cutoff) ==> id < n
  {
    if n == 0 {
      assert Expired(Backlog(0, cutoff), cutoff) == {};
    } else {
      BacklogExpired(n - 1, cutoff);
      assert Expired(Backlog(n, cutoff), cutoff) == Expired(Backlog(n - 1, cutoff), cutoff) + {n - 1};
    }
  }

  /** Writers that put a full batch of expired rows back before every statement. */
  function Refill(cutoff: int): (nat, Table) -> Table {
    (i: nat, t: Table) => Backlog(BATCH_ROWS, cutoff)
  }

  /** Among such writers the loop runs on without end: every statement deletes a batch, and no finished sweep ever comes. */
  lemma EndlessRun(cutoff: int) returns (run: nat -> Step)
    ensures forall n: nat :: Ran(Prefix(run, n), map[], cutoff, Refill(cutoff)) && FullSoFar(Prefix(run, n))
    ensures !exists n :: IsSweep(Prefix(run, n), cutoff)
  {
    var full := Backlog(BATCH_ROWS, cutoff);
    BacklogExpired(BATCH_ROWS, cutoff);
    var after := full - Expired(full, cutoff);
    assert IsDelete(full, after, cutoff);
    DeleteEffect(full, after, cutoff);
    run := i => Step(full, after);
    forall n: nat ensures Ran(Prefix(run, n), map[], cutoff, Refill(cutoff)) && FullSoFar(Prefix(run, n)) {
      forall i | 0 <= i < n ensures Found(Prefix(run, n), i, map[], Refill(cutoff)) {
      }
    }
    FinishesIff(run, cutoff);
  }

  /** What other writers make of a table before a statement adds less than a batch of expired rows. */
  ghost predicate AddsLessThanBatch(others: (nat, Table) -> Table, cutoff: int, calm: nat) {
    forall i, t :: calm <= i ==> |Expired(others(i, t), cutoff)| < |Expired(t, cutoff)| + BATCH_ROWS
  }

  /**
   The loop over one table, with `others(i, t)` standing for what other writers made of `t` before
   statement `i`. It ends if from some point on they add less than a batch of expired rows between
   two statements; whatever they did before that, the run is a sweep.
   */
  method SweepTable(table: Table, cutoff: int, others: (nat, Table) -> Table, ghost calm: nat)
    returns (left: Table, deleted: nat, ghost steps: seq<Step>)
    requires AddsLessThanBatch(others, cutoff, calm)
    ensures IsSweep(steps, cutoff) && Ran(steps, table, cutoff, others)
    ensures deleted == Deleted(steps) && left == Left(steps, table)
    ensures Expired(left, cutoff) == {}
  {
    left, deleted, steps := table, 0, [];
    var i := 0;
    while true
      invariant i == |steps| && left == Left(steps, table) && deleted == Deleted(steps)
      invariant Ran(steps, table, cutoff, others) && FullSoFar(steps)
      decreases if i < calm then calm - i else 0, |Expired(left, cutoff)|
    {
      var before := others(i, left);
      var after := DeleteBatch(before, cutoff);
      DeleteEffect(before, after, cutoff);
      ghost var step := Step(before, after);
      RanOn(steps, step, table, cutoff, others);
      CountedOn(steps, step);
      var affected := RowsAffected(before, after);
      if affected < BATCH_ROWS {
        SweepEnds(steps, step, table, cutoff, others);
        ShortDeleteFinishes(before, after, cutoff);
      }
      steps := steps + [step];
      left, deleted, i := after, deleted + affected, i + 1;
      if affected < BATCH_ROWS {
        return;
      }
    }
  }

  /** One more statement on a run so far. */
  lemma RanOn(steps: seq<Step>, step: Step, table: Table, cutoff: int, others: (nat, Table) -> Table)
    requires Ran(steps, table, cutoff, others)
    requires step.before == others(|steps|, Left(steps, table)) && IsDelete(step.before, step.after, cutoff)
    ensures Ran(steps + [step], table, cutoff, others)
  {
    var longer := steps + [step];
    assert Found(longer, |steps|, table, others);
    forall i | 0 <= i < |steps| ensures Found(longer, i, table, others) {
      assert Found(steps, i, table, others);
    }
  }

  lemma CountedOn(steps: seq<Step>, step: Step)
    requires FullSoFar(steps)
    ensures var affected := RowsAffected(step.before, step.after);
            && Deleted(steps + [step]) == Deleted(steps) + affected
            && (affected == BATCH_ROWS ==> FullSoFar(steps + [step]))
  {
    assert (steps + [step])[..|steps|] == steps;
  }

  /** A run of full batches and a short one is a finished sweep. */
  lemma SweepEnds(steps: seq<Step>, step: Step, table: Table, cutoff: int, others: (nat, Table) -> Table)
    requires FullSoFar(steps) && Ran(steps + [step], table, cutoff, others)
    requires RowsAffected(step.before, step.after) < BATCH_ROWS
    ensures IsSweep(steps + [step], cutoff)
  {
    var longer := steps + [step];
    assert forall i :: 0 <= i < |longer| - 1 ==> longer[i] == steps[i];
  }

  /** No other writer: whatever is left is found. */
  ghost predicate Quiet(others: (nat, Table) -> Table) {
    forall i, t :: others(i, t) == t
  }

  /** Alone, a finished run over a table leaves its unexpired rows and has counted the others. */
  lemma QuietSweep(steps: seq<Step>, table: Table, cutoff: int, others: (nat, Table) -> Table)
    requires IsSweep(steps, cutoff) && Ran(steps, table, cutoff, others) && Quiet(others)
    ensures Left(steps, table) == Unexpired(table, cutoff) && Deleted(steps) == |Expired(table, cutoff)|
    ensures |steps| == |Expired(table, cutoff)| / BATCH_ROWS + 1
  {
    assert Found(steps, 0, table, others);
    forall i | 0 <= i < |steps| - 1 ensures steps[i + 1].before == steps[i].after {
      assert Found(steps, i + 1, table, others);
    }
    UndisturbedSweep(steps, cutoff);
  }

  // ---------------------------------------------------------------- the store

  /** The time columns of `spans`, `logs` and `metric_points`, in the order the sweep visits them. */
  class Store {
    var tables: seq<Table>

    constructor (spans: Table, logs: Table, metricPoints: Table)
      ensures tables == [spans, logs, metricPoints]
    {
      tables := [spans, logs, metricPoints];
    }

    /**
     `sweep_expired`, `others[k]` standing for the other writers of table `k`, from the start of the
     pass to the last statement on that table. Each table goes through a finished sweep, with
     nothing expired left at its end; if nobody else writes, exactly its expired rows go.
     */
    method SweepExpired(now: nat, retention: nat, others: seq<(nat, Table) -> Table>, ghost calm: nat)
      returns (counts: seq<nat>, ghost runs: seq<seq<Step>>)
      requires |tables| == |others| == 3
      requires forall k :: 0 <= k < 3 ==> AddsLessThanBatch(others[k], Cutoff(now, retention), calm)
      modifies this
      ensures |tables| == |counts| == |runs| == 3
      ensures forall k :: 0 <= k < 3 ==> Swept(old(tables)[k], Cutoff(now, retention), others[k], runs[k], tables[k], counts[k])
      ensures forall k :: 0 <= k < 3 && Quiet(others[k]) ==>
        && tables[k] == Unexpired(old(tables)[k], Cutoff(now, retention))
        && counts[k] == |Expired(old(tables)[k], Cutoff(now, retention))|
      ensures forall k :: 0 <= k < 3 && Quiet(others[k]) && StoredTimes(old(tables)[k]) ==>
        KeepsYoung(old(tables)[k], tables[k], now, retention) && |runs[k]| == counts[k] / 10_000 + 1
    {
      var cutoff := Cutoff(now, retention);
      counts, runs := [], [];
      for slot := 0 to 3
        invariant |tables| == 3 && |counts| == |runs| == slot
        invariant forall k :: 0 <= k < slot ==> Swept(old(tables)[k], cutoff, others[k], runs[k], tables[k], counts[k])
        invariant forall k :: slot <= k < 3 ==> tables[k] == old(tables)[k]
      {
        var left, deleted, steps := SweepTable(tables[slot], cutoff, others[slot], calm);
        tables := tables[slot := left];
        counts, runs := counts + [deleted], runs + [steps];
      }
      forall k | 0 <= k < 3 && Quiet(others[k])
        ensures tables[k] == Unexpired(old(tables)[k], cutoff) && counts[k] == |Expired(old(tables)[k], cutoff)|
      {
        QuietSweep(runs[k], old(tables)[k], cutoff, others[k]);
      }
      forall k | 0 <= k < 3 && Quiet(others[k]) && StoredTimes(old(tables)[k])
        ensures KeepsYoung(old(tables)[k], tables[k], now, retention) && |runs[k]| == counts[k] / 10_000 + 1
      {
        QuietSweep(runs[k], old(tables)[k], cutoff, others[k]);
        UnexpiredIsYoung(old(tables)[k], now, retention);
      }
    }
  }

  /** Times as the columns hold them: never negative, below the last BIGINT. */
  predicate StoredTimes(table: Table) {
    forall id :: id in table ==> 0 <= table[id] < 0x7FFF_FFFF_FFFF_FFFF
  }

  /** What is left are the rows no older than the retention, unchanged. */
  ghost predicate KeepsYoung(before: Table, after: Table, now: nat, retention: nat) {
    && (forall id :: id in after <==> id in before && now - before[id] <= retention)
    && (forall id :: id in after ==> after[id] == before[id])
  }

  lemma UnexpiredIsYoung(table: Table, now: nat, retention: nat)
    requires StoredTimes(table)
    ensures KeepsYoung(table, Unexpired(table, Cutoff(now, retention)), now, retention)
  {
    forall id | id in table ensures table[id] < Cutoff(now, retention) <==> retention < now - table[id] {
      CutoffExact(now, retention, table[id]);
    }
  }

  /** `steps` is a finished sweep that took `table` to `left` and removed `deleted` rows. */
  ghost predicate Swept(table: Table, cutoff: int, others: (nat, Table) -> Table, steps: seq<Step>, left: Table, deleted: nat) {
    && IsSweep(steps, cutoff) && Ran(steps, table, cutoff, others)
    && left == Left(steps, table) && deleted == Deleted(steps)
    && Expired(left, cutoff) == {}
  }
}
