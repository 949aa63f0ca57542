# A model of the otelview PostgreSQL store

The store keeps OTLP spans, logs and metric points in three tables and answers queries over them.
Most of its code replaces a plain operation by a faster one: batched upserts instead of one
statement per span, index walks instead of `DISTINCT`, sampling in SQL followed by a trim in the
process, bounded delete batches instead of one large delete. This project models those paths and
proves that each does what the plain operation does, or says exactly when it does not.

| file | what it models |
|---|---|
| `Common.dfy` | options, results, index sequences, concatenation, counting, finite sums |
| `Telemetry.dfy` | OTLP messages and the records (leaves) of an export |
| `Timestamps.dfy` | timestamp conversions |
| `Sampling.dfy` | rank arithmetic of the two sampling stages |
| `MetricQueries.dfy`, `KeepMasks.dfy` | metric queries: filter, statement, grouping, keep mask |
| `SeriesSpelling.dfy` | the two notions of a series, by JSONB value and by text |
| `MetricSampling.dfy`, `MetricStatement.dfy` | what a query returns of each series, row limit included |
| `Metrics.dfy`, `MetricReads.dfy` | splitting metrics into points, writing them, and querying them back |
| `Spans.dfy`, `SpanReads.dfy` | the span write path, and what is read back |
| `JsonAttributes.dfy` | conversion to JSON, JSONB containment, attribute search |
| `LogSearch.dfy` | `ILIKE` search and trace correlation |
| `IndexWalk.dfy` | loose index scans and the metric catalogue |
| `Retention.dfy`, `RetentionSweep.dfy` | the configured duration and the delete loop |
| `TraceSummaries.dfy`, `TraceReads.dfy` | trace summaries, the composed summary query, and streamed traces |
| `Dependencies.dfy` | the service dependency graph |
| `Streaming.dfy` | singleton payloads and chunked streams |

`dafny verify dfyconfig.toml` checks the project.

## How the database is modelled

A table is a map or a sequence of rows and a statement is atomic. What SQL leaves open stays
open: the numbering of equal times by `row_number()`, the order of equal times in `ORDER BY`, the
rows an unordered `LIMIT` picks, the order in which a hash map yields its entries, the order in
which tasks finish. Such choices are arbitrary arguments constrained by a predicate (`IsRowNumber`,
`IsFetch`, `IsDelete`, `AreFound`) or nondeterministic choices in a method, so every result holds
for all of them; `MetricStatement.StatementHasAnswer`, `TraceSummaries.SearchHasAnswer` and
`TraceReads.ReadHasAnswer` show that the predicates on the sampling statement, the trace search and
the span query can always be met. Column collation
is an arbitrary strict total order. Protobuf encoding is a lossless pair, so payloads are stored as
messages. A metric row carries its attributes as a JSONB value, by which SQL forms series, and as
the text the value casts to, by which the process forms them; that equal texts are equal values is
all that is assumed of the cast.

LIKE follows section 9.7.1 and JSONB containment section 8.14.3 of the PostgreSQL manual.

## Where the code does less than it seems to

- The row limit of a metric query cuts the newest points. Every series keeps its newest point if
  and only if the sampled rows of all series together, a number fixed by the sizes of the series and
  the budget (`SurvivorCount`), fit the limit (`NewestReturnedIffWithinLimit`; `LimitLosesNewest` is
  a concrete table).
- SQL numbers a series by its JSONB value and the process trims it by its text. An integer attribute
  `1` and a double `1.0` are equal as JSONB and differ as text, so SQL samples one series where the
  process trims two. SQL lets at most one row over the budget through, so of a series in several
  spellings the process drops nothing, and the comment at src/metrics.rs:151-152 fails by one point:
  the series comes back over its budget if and only if one row over the budget is fetched of it and
  the fetched rows spell it in several ways (`ReturnedOverBudgetIff`; `MixedReturnsBoth` is such a
  query). The results on the rows returned of a series hold for any spelling.
- `parse_retention` multiplies in `u64`. In a release build the products wrap, so the seconds are the
  true number modulo 2^64 (`SpelledParses`), right if and only if that number fits 64 bits
  (`SecondsExactIff`). The check that refuses zero is passed by a text that yields zero if and only
  if its number is a multiple of 2^60 hours, 2^57 days or weeks, or 2^56 months (`ZeroAcceptedIff`;
  `SomeHoursWrapToZero` is such a text). A debug build panics instead.
- The delete loop over a table finishes if and only if some statement finds fewer than 10000 expired
  rows (`FinishesIff`). Nothing in the code ensures that: writers that keep adding a full batch of
  expired rows between statements keep it running (`EndlessRun`).
- PostgreSQL refuses a NUL character in a text or JSONB column, and one such span or metric point
  fails its whole export. For spans only the last row of each key counts: `dedupe_spans` says it
  matches row-at-a-time writing, and it does except when every refused row is superseded within the
  export, which then goes through (`BatchedIsOneByOneIff`, `SupersededNulPasses`).
- `list_metrics` fails if and only if a metric vanishes between the walk of the names and its lookup
  (`Catalogue`).
- A span with a repeated attribute key is found only by the key's last value
  (`ColumnMatch`, `ShadowedAttributeMissed`).
- The comment at src/logs.rs:148-150 calls the length condition redundant with the equality; that
  holds exactly for identifiers of sixteen bytes (`LengthConditionRedundantIff`).
- The error text at src/logs.rs:146 asks for a hexadecimal string, but a plus sign is accepted in
  place of a leading digit (`HexDecodeAccepts`).
- A column value in the first, partial second of the `i64` range does not survive the trip through
  a timestamp (`NanosRoundTrip`).

## Model

| member | source | states |
|---|---|---|
| Sampling.SampledIsFilter | src/metrics.rs:208-210 | The ranks passing the window filter are exactly the closed-form list: one per stride and the last |
| Sampling.SampleBounds | src/metrics.rs:163-169 | A thinned series keeps at most one point over the budget and more than half of it |
| Sampling.SpreadShape | src/metrics.rs:359-371 | Over budget, exactly `p` positions, strictly increasing, from the first to the last |
| Sampling.SpreadGap | src/metrics.rs:368-370 | Neighbouring positions differ by the floor or ceiling of `(n-1)/(p-1)`, never zero |
| Sampling.SpreadProductFits | src/metrics.rs:369 | The position product stays inside 64 bits for any fetchable series |
| Sampling.SecondStageDropsAtMostOne | src/metrics.rs:163-169 | The exact pass drops nothing, or just the penultimate sampled rank when SQL left one too many |
| Sampling.TwoStageSampling | src/metrics.rs:197-252 | Both stages: within budget, above half of it, endpoints kept, gaps under two strides |
| Sampling.BudgetOfOne | src/metrics.rs:365-367 | With a budget of one, only the last rank survives both stages |
| Sampling.FirstStageAlone | src/metrics.rs:208-210 | The SQL stage alone: one over budget at most, above half, endpoints kept, gaps within a stride |
| MetricQueries.WindowsPartition | src/metrics.rs:179-194 | Half-open time windows that meet share no point and lose none |
| MetricQueries.SelectsIff | src/metrics.rs:171-194 | The WHERE clause selects exactly the points of the metric, of the service if one is named, at or after the lower bound and before the upper |
| MetricQueries.BoundOkIff | src/store.rs:661-666 | A bound is refused exactly when its nanoseconds, or those of its seconds alone, exceed 64 bits |
| MetricQueries.GroupSeries | src/metrics.rs:231-240 | The series map holds each series' row positions in order |
| MetricQueries.MarkKept | src/metrics.rs:242-247 | The mask is the union of the series' even spreads, whatever the order of the map |
| MetricQueries.Thin | src/metrics.rs:231-252 | The in-process stage returns the payloads of the kept rows in row order |
| KeepMasks.SeriesThinnedAlone | src/metrics.rs:231-252 | Seen through one group of rows, the merged answer is the even spread of that group alone |
| KeepMasks.KeepMaskMerge | src/metrics.rs:242-252 | The answer is a subsequence of the fetched rows, as long as the sum over groups of min(size, budget) |
| MetricSampling.AnswerInTimeOrder | src/metrics.rs:151-152 | The answer is in time order |
| MetricSampling.ReturnedSeries | src/metrics.rs:197-252 | What comes back of a series, row limit, ties and spelling included: its earliest sampled ranks, spread evenly over the budget, or all of them if spelled in several ways |
| MetricSampling.ReturnedOverBudgetIff | src/metrics.rs:151-152 | At most one point over the budget comes back of a series, and that exactly when so many rows are fetched and they spell it in several ways |
| MetricSampling.MixedReturnsBoth | src/metrics.rs:197-252 | A budget of one returns both points of one series whose attribute is 1 and 1.0 |
| MetricSampling.FetchIsComplete | src/metrics.rs:211-212 | The limit is not felt exactly when every surviving row is fetched |
| MetricSampling.SurvivorCount | src/metrics.rs:197-213 | Whatever the numbering, the rows SQL lets through number the sum of the sample sizes of the series |
| MetricSampling.SurvivorBound | src/metrics.rs:163-169 | They number at most budget plus one per series |
| MetricSampling.NothingThinned | src/metrics.rs:361-364 | Series within budget and points within the limit: nothing is thinned or cut |
| MetricSampling.ReturnedSeriesWhole | src/metrics.rs:197-252 | Within the limit, the times returned of a series are those at the two-stage ranks, or at all sampled ranks if spelled in several ways |
| MetricSampling.ThinnedSeriesEndpoints | src/metrics.rs:359-371 | Within the limit, a thinned series runs from its earliest to its latest point, above half the budget; when it is one over |
| MetricSampling.NewestReturnedIffWithinLimit | src/metrics.rs:23-25 | Every series keeps its newest point if and only if the sample sizes of all series together fit the limit |
| MetricSampling.LimitLosesNewest | src/metrics.rs:211-212 | A series of one point over the limit loses its newest point |
| SeriesSpelling.AnswerSeries | src/metrics.rs:231-252 | Of a series of at most one row over the budget: the even spread if spelled in one way, and otherwise every row |
| SeriesSpelling.OverBudgetIff | src/metrics.rs:231-252 | Such a series comes back over budget exactly when it has the row over and several spellings |
| SeriesSpelling.SpellingIff | src/metrics.rs:198-206 | Grouping by text keeps the rows grouping by value keeps, for every budget, if and only if each series is spelled in one way |
| SeriesSpelling.AnswerLength | src/metrics.rs:231-252 | The answer's length: the sum over spellings of min(size, budget) |
| MetricStatement.StatementHasAnswer | src/metrics.rs:197-213 | For any points, budget and limit the statement has a numbering and an answer |
| Timestamps.NanosRoundTrip | src/store.rs:661-688 | Nanoseconds survive the trip exactly from -9223372036000000000 upwards |
| Timestamps.TimestampRoundTrip | src/store.rs:661-688 | A normalised timestamp that converts comes back unchanged |
| Timestamps.OrderPreserved | src/store.rs:683-688 | The conversion preserves and reflects order |
| Spans.AcceptedOrRejected | src/store.rs:181-203 | Every span of an export is accepted or counted as rejected |
| Spans.AcceptedIsFilter | src/store.rs:181-203 | Accepted are exactly the spans with identifiers of sixteen and eight bytes, in order |
| Spans.RejectedIsFilter | src/store.rs:181-203 | Rejected are exactly the others, in order, each reported by its name and the two lengths |
| Spans.ReplyMeans | src/store.rs:181-203 | The reply counts the malformed spans and reports the first five |
| Spans.RowsOfOkIff | src/store.rs:548-558 | Building the rows fails exactly for a time of 2^63 nanoseconds or more |
| Telemetry.LeavesAre | src/store.rs:159-204 | The records of an export are its items, each under its own resource, scope and schema URLs, none left out or made up |
| Spans.Collect | src/store.rs:159-204 | The nested loops collect the accepted rows, the rejections and the first five reasons, or the first failure |
| Spans.DedupeSpans | src/store.rs:522-537 | One row per key, the last, in arrival order, whatever order the hash map yields |
| Spans.LastWritesDistinct | src/store.rs:525-526 | No key occurs twice among the deduplicated rows |
| Spans.LastWritesKeepLast | src/store.rs:527-528 | Deduplication keeps every key's last row |
| Spans.UpsertAllLookup | src/store.rs:230-234 | Row-at-a-time writing leaves each key its last row and its first insertion time |
| Spans.DedupedWritesSame | src/store.rs:525-528 | Writing the deduplicated rows leaves the table of writing all rows one by one |
| Spans.ChunkAccepted | src/store.rs:209-239 | A chunk repeats no key, has few enough parameters and meets the checks: PostgreSQL refuses it for a NUL character only |
| Spans.UpsertChunks | src/store.rs:208-240 | The chunked transaction, a statement per thousand rows, equals row-at-a-time writing of its rows, or fails if one has a NUL |
| Spans.BatchedIsOneByOneIff | src/store.rs:525-528 | A batched write and row-at-a-time statements have the same outcome except when every row refused for a NUL is superseded in the export |
| Spans.SupersededNulPasses | src/store.rs:525-528 | A span with a NUL in its name, sent again without it, is such an export |
| Spans.SpanStore.Write | src/store.rs:151-242 | The table ends as if every accepted row had been written alone; unchanged for a time beyond BIGINT or a NUL in the last row of a key; no statement is refused for anything else |
| Spans.UpsertedReflects | src/store.rs:230-234 | Over every run of exports the table holds the last accepted record of each key, and nothing else |
| Spans.ResendIsIdempotent | src/store.rs:230-234 | Sending an export again changes nothing |
| SpanReads.StoredSpanFaithful | src/store.rs:540-584 | A stored span's payload is its record, and any attribute it carried finds it |
| SpanReads.WriteThenRead | src/store.rs:151-242 | After a write, each key holds the last accepted record with that key, unaltered |
| Spans.UpsertedValid | src/store.rs:540-570 | Writing keeps every stored row under its own key, within the column ranges, and derivable again from its payload, so no indexed column disagrees with it; `SpanStore.Write` keeps it over every run |
| SpanReads.StoredColumns | src/store.rs:548-569 | In any table written by exports a row holds one record of its key and its columns are that record's, field by field: parent, service, name, kind, times, duration, status and the three attribute columns |
| SpanReads.RefusedIff | src/store.rs:205-239 | A row is refused exactly for a NUL in its service, name, or some text of an attribute column |
| SpanReads.StoredRowFound | src/store.rs:445-453 | The attribute search finds a stored row exactly when its record carries the queried attribute; with distinct keys every attribute it was sent with is carried |
| Spans.ServiceNameFrom | src/store.rs:167-171 | The service is the last `service.name` attribute if a string, and otherwise unknown |
| SpanReads.OtherSpansUntouched | src/store.rs:230-234 | Keys an export does not mention keep their rows |
| JsonAttributes.ContainsReflexive | src/store.rs:457-459 | Containment is reflexive |
| JsonAttributes.ContainsTransitive | src/store.rs:457-459 | Containment is transitive |
| JsonAttributes.JsonbContainsTransitive | src/store.rs:457-459 | So is the operator with its top-level exception for scalars |
| JsonAttributes.ConversionsAgree | src/store.rs:595-640 | The two conversions give the same JSON to values of the same shape |
| JsonAttributes.ColumnMatch | src/store.rs:445-453 | A column satisfies a query attribute exactly when the last attribute of that name contains the value |
| JsonAttributes.SearchExact | src/store.rs:445-453 | The three-column condition holds exactly when the span, its resource or its scope has, as the last attribute of that name, a value containing the queried one |
| JsonAttributes.FlatContainment | src/store.rs:457-459 | Containment of flat arrays is membership of every element, and of flat objects equality of every field |
| JsonAttributes.NestingCounts | src/store.rs:457-459 | An inner array is contained as an element and not by its elements |
| JsonAttributes.ArrayExamples | src/store.rs:457-459 | The manual's examples on arrays: order and repetition do not count |
| JsonAttributes.ObjectExamples | src/store.rs:457-459 | The manual's examples on objects and on a scalar in an array |
| JsonAttributes.ScalarConversions | src/store.rs:595-640 | Exactly which sent values become the JSON a queried scalar becomes |
| JsonAttributes.NulSomewhere | src/store.rs:586-619 | A JSON value is refused exactly for a NUL in some field name or string, at any depth |
| JsonAttributes.SearchComplete | src/store.rs:445-453 | With distinct keys, a span carrying the attribute on itself, resource or scope is found |
| JsonAttributes.ShadowedAttributeMissed | src/store.rs:586-593 | With a repeated key the earlier value is not found |
| JsonAttributes.ScalarSearchExact | src/store.rs:445-453 | A scalar query value is matched by that value only |
| JsonAttributes.WeakerQueryFindsMore | src/store.rs:445-453 | Weakening the queried value never loses a match |
| JsonAttributes.HexInjective | src/store.rs:653-655 | Byte values with the same rendering are the same |
| LogSearch.EscapePassesAgree | src/logs.rs:243-248 | Three replacement passes in this order are one escape per character |
| LogSearch.LikeMeansContains | src/logs.rs:158-173 | The pattern is well formed and matches exactly the texts containing the needle |
| LogSearch.UnescapedMatchesMore | src/logs.rs:243-248 | Unescaped, an underscore would match every text |
| LogSearch.ILikeMeansContains | src/logs.rs:158-173 | The same up to case folding |
| LogSearch.SearchFindsSubstring | src/logs.rs:158-173 | A log row passes the search exactly when body, severity or attributes contain the text |
| LogSearch.HexDecodeInvertsHex | src/logs.rs:250-258 | Decoding inverts the hexadecimal rendering |
| LogSearch.HexDecodeAccepts | src/logs.rs:250-258 | Exactly which texts decode, and to how many bytes |
| LogSearch.HexDecodeIff | src/logs.rs:250-258 | Exactly what a text decodes to, pair by pair, small and capital digits and the plus sign |
| LogSearch.LengthConditionRedundantIff | src/logs.rs:144-151 | The length condition is redundant exactly for sixteen-byte identifiers |
| IndexWalk.SortedDistinctUnique | src/store.rs:307-317 | Sorted DISTINCT is a single list, so a walk meeting its description is it |
| IndexWalk.DistinctIndexed | src/store.rs:318-343 | The scalar-subquery walk ends and returns sorted DISTINCT with one probe per value plus one |
| IndexWalk.Operations | src/store.rs:345-384 | The lateral walk returns the name of every span of the service, and of the kind if asked for, once, in order, with a kind stored under it, and no other name |
| IndexWalk.GetMetricInfo | src/metrics.rs:295-347 | A newest point's descriptor and the sorted distinct services of the metric; an unknown name fails |
| IndexWalk.Catalogue | src/metrics.rs:265-347 | Walk and lookups composed, each lookup at a moment of its own: fails exactly when a metric has vanished by its lookup, never on one snapshot; otherwise each name once, in order, with its descriptor and services |
| IndexWalk.ListMetrics | src/metrics.rs:265-292 | For every completion order the answer is the lookups of the names, in order; it fails exactly when a lookup does |
| Retention.ParsesIff | src/retention.rs:28-48 | Exactly which texts parse: white space around a positive 64-bit number and a known unit, possibly plural, in any capitals, with blanks inside |
| Retention.SpelledParses | src/retention.rs:40-47 | The seconds are the true ones modulo 2^64, although every product wraps on its own |
| Retention.UnitTable | src/retention.rs:40-46 | The units known are nine names, of 3600, 86400, 604800 and 2592000 seconds |
| Retention.SecondsExactIff | src/retention.rs:40-47 | The seconds are right exactly when the true ones fit 64 bits |
| Retention.ParseInvertsSpelling | src/retention.rs:28-48 | Parsing inverts any spelling of number and unit, case, blanks and plural included, exactly when the seconds fit |
| Retention.ParsedUnits | src/retention.rs:28-48 | Unit by unit: n hours, days, weeks and months, however spelled, are n times 3600, 86400, 604800 and 2592000 seconds |
| Retention.ZeroAcceptedIff | src/retention.rs:37-47 | A text parses to zero exactly when its number is a multiple of 2^60 hours, 2^57 days or weeks, 2^56 months |
| Retention.SomeHoursWrapToZero | src/retention.rs:37-47 | Such texts exist |
| RetentionSweep.CutoffExact | src/retention.rs:54-58 | A stored time is below the cutoff exactly when it is older than the retention, the last representable time excepted |
| RetentionSweep.LongerRetentionKeepsMore | src/retention.rs:54-58 | A longer retention keeps a superset |
| RetentionSweep.DeleteEffect | src/retention.rs:70-73 | A statement removes only expired rows, up to a batch, and reports their number |
| RetentionSweep.SweepSafe | src/retention.rs:74-85 | Among arbitrary other writers: only expired rows go, the rest is untouched, the last statement leaves nothing expired |
| RetentionSweep.UndisturbedSweep | src/retention.rs:74-85 | Alone: exactly the expired rows go, in `expired / 10000 + 1` statements |
| RetentionSweep.SweepIff | src/retention.rs:74-85 | Statements are a finished sweep exactly when the last found less than a batch of expired rows and no earlier one did |
| RetentionSweep.StillRunning | src/retention.rs:74-85 | While every statement finds a batch, the run is full batches and no finished sweep |
| RetentionSweep.FinishesIff | src/retention.rs:74-85 | Over every endless run among other writers, the loop finishes exactly when some statement finds less than a batch |
| RetentionSweep.EndlessRun | src/retention.rs:74-85 | Writers that put a batch of expired rows back before every statement keep the loop running without end |
| RetentionSweep.SweepTable | src/retention.rs:74-85 | The loop is such a sweep and counts its deletions; it ends, with nothing expired left, once others add less than a batch of expired rows between statements |
| RetentionSweep.QuietSweep | src/retention.rs:74-85 | With no other writer a finished loop leaves exactly the unexpired rows |
| RetentionSweep.Store.SweepExpired | src/retention.rs:53-88 | Each table goes through a finished sweep among its other writers, counted right; without them exactly the rows older than the retention go, in one statement per 10000 and one more |
| TraceSummaries.Summarize | src/store.rs:475-520 | The loops compute the summary |
| TraceSummaries.SummaryCounts | src/store.rs:503-510 | The summary counts the spans, those of status two, and those naming a parent that none of them is |
| TraceSummaries.SummaryServices | src/store.rs:483-490 | Its services are those of the spans, each with its spans and its spans of status two |
| TraceSummaries.SummaryRange | src/store.rs:495-504 | Its range bounds every start and end, negative ones as zero, and is reached |
| TraceSummaries.RootIsEarliest | src/store.rs:476-482 | The reported root is the first to arrive among the earliest to start of those without a parent, or there is none |
| TraceSummaries.SummaryPermutation | src/store.rs:475-520 | The summary does not depend on the order of the spans, except between roots starting together |
| TraceSummaries.RootsParentsOrphans | src/store.rs:507-510 | Roots, spans with their parent present and orphans add up to all spans |
| TraceSummaries.ServicesAddUp | src/store.rs:483-490 | Per-service span and error counts add up to the totals |
| TraceSummaries.Summaries | src/store.rs:405-411 | One summary per trace, of that trace's spans, in whatever order the map yields |
| TraceSummaries.SummariesConserveSpans | src/store.rs:405-411 | The span counts of all summaries total the number of spans |
| TraceSummaries.OneSummaryPerFoundTrace | src/server.rs:222-241 | On one snapshot, exactly one summary per found trace, of the whole trace, enclosing the found range |
| TraceSummaries.SearchHasAnswer | src/store.rs:264-301 | For any spans, filter and depth the search has an answer |
| TraceReads.SummaryOfRecords | src/store.rs:475-520 | Every field of a trace's summary in terms of the last records accepted for it: spans, errors, orphans, services, range and root |
| TraceReads.StoredTraceSummaries | src/server.rs:222-241 | One such summary per found trace, over any table written by exports and for any filter on stored rows |
| TraceReads.FindTraceSummaries | src/server.rs:222-241 | The composed request does that on a store |
| TraceReads.ReadHasAnswer | src/store.rs:244-269 | For any table and identifiers the span query has an answer |
| TraceReads.GetTraces | src/server.rs:122-132 | Of the traces named, the last accepted record of every span, each once, by trace and start; refused for a malformed identifier |
| TraceReads.FindTraces | src/server.rs:176-192 | The same for the traces the search finds, each with a matching span |
| Dependencies.CallsCountChildren | src/store.rs:386-398 | The self-join count is the number of children looked up by their parent's key |
| Dependencies.CallsAre | src/store.rs:386-393 | The calls of an edge are the spans of the called service starting in the window whose stored parent is of the calling one; no service calls itself |
| Dependencies.EdgesAre | src/store.rs:386-393 | The edges listed are those with a call |
| Dependencies.TotalCalls | src/store.rs:386-398 | All calls together are the in-window spans whose stored parent is in another service |
| Dependencies.WindowsAdd | src/store.rs:391 | Counts over adjacent windows add up |
| Streaming.StreamChunks | src/server.rs:483-497 | Every payload in one chunk, in order, at most 256 to a chunk, none empty |
| Streaming.StreamRecords | src/server.rs:483-497 | Of records stored one by one, message `k` carries those from `256 k` on, between 1 and 256 of them |
| Streaming.MergeInvertsSplit | src/server.rs:442-452 | Merging singleton payloads gives back the records |
| Streaming.ExportRoundTrip | src/store.rs:572-584 | An export stored record by record and streamed carries the same records in the same places |
| Streaming.QueryRoundTrip | src/server.rs:375-385 | So does any selection of records a query returns |
| Metrics.FlattenSplits | src/metrics.rs:402-487 | Each flat point is the metric with just one of its points, indexed by that point's time, value, count and attributes |
| Metrics.ShellAndPoints | src/metrics.rs:402-487 | A metric is determined by its descriptor and its points |
| Metrics.FlatteningKeepsPoints | src/metrics.rs:402-487 | Flattening keeps every point with its descriptor and place, in order |
| Metrics.FlatPointHasData | src/metrics.rs:374-400 | The "has no data" error is never reached for a flattened point |
| Metrics.MetricRowsStorable | src/metrics.rs:374-400 | An export fails exactly when some time or count exceeds BIGINT |
| Metrics.FlattenAgain | src/metrics.rs:402-487 | Flattening a flattened metric changes nothing |
| Metrics.MetricStore.WriteMetrics | src/metrics.rs:73-149 | All rows are appended in order, or none, a NUL character being all a statement is refused for; every stored row stays derivable from its payload |
| MetricReads.RowColumns | src/metrics.rs:374-400 | A stored row's columns are those of the point in its payload, its metric and its resource: name, description, unit, type, service, time, value, count and both attribute columns |
| MetricReads.RefusedIff | src/metrics.rs:118-145 | A row is refused exactly for a NUL in its name, description, unit, service or some attribute text |
| MetricReads.SelectedIffAskedFor | src/metrics.rs:171-194 | A stored row is selected exactly when its point is of the metric, of the service if one is named, and inside the window |
| MetricReads.WriteThenStream | src/server.rs:442-452 | Written, and streamed back at any chosen positions, the points of an export are those that went in |
| MetricReads.FindMetrics | src/metrics.rs:153-253 | Which requests fail and how; otherwise the answer grouped by text, and what it holds of each series |
| MetricReads.AnswersAll | src/metrics.rs:153-253 | Series within budget and points within the limit: every point asked for is returned, once, however its attributes are spelled |
| MetricReads.QueryMetrics | src/metrics.rs:153-253 | From exporters to the caller: the points streamed were written, each row at most once, untouched, in time order, match name, service and window, and of each series are at most one over the number asked for |

## Left out

- Sampling.SpreadProductFits: assumes a 64-bit `usize`.
- TraceSummaries.Summarize: counts are unbounded where the source uses `i32`; a list of 2^31 spans does not fit in memory.
- TraceSummaries.OneSummaryPerFoundTrace: the two queries are taken on one snapshot; between them another writer may change the table. The filter on spans is an arbitrary predicate.
- Metrics.FlattenSplits: an integer value becomes a double exactly, where the conversion in the source rounds.
- Spans.Collect: resource and scope attributes are converted per span, not once per group; the results are the same.
- JsonAttributes.ConversionsAgree: a finite double stands for the decimal its printed form denotes; floating-point arithmetic is not modelled, nor is the refusal of a query text or attribute with a NUL character.
- LogSearch.ILikeMeansContains: case folding is any character map that fixes the three special characters and maps no other onto them; locale rules that change lengths are not modelled.
- Retention.ParseRetention: ASCII text only; Unicode white space and case mapping are not modelled. LogSearch.HexDecode likewise.
- IndexWalk.DistinctIndexed: the final `ORDER BY` is not repeated, since the walk is already sorted.
- RetentionSweep.SweepTable: a run that never ends has no result to state; `FinishesIff` says which runs those are.
- The order and limit of log search, the time and duration bounds of trace search, and the search depth: filters without interplay.
- Writing logs: it is the metric write without the splitting.
- gRPC, configuration, connection pools, migrations, diagnostics counters and the retention timer: input and output only.
- SQL text, bind placeholders, index choice and query plans: the model is of what a statement means.
