# ohlc-resample: a Dafny model of the resampling engine

This project models the resampling engine of `ohlc-resample` (`src/lib.ts`)
and proves properties of it. The engine turns trades ("ticks") into
open/high/low/close/volume candles, and coarser candles out of finer ones:

- **Tick aggregator** `tickGroupToOhlcv` (module `Aggregate`): folds a group of
  trades into one candle. The open is the first price and the close the last.
  The high and low are the extreme prices. The volume is the summed quantity.
- **Gap filler** `makeGapCandles` (module `Gaps`): flat, zero-volume
  placeholder candles one bucket apart, strictly between two real candles.
- **Time-bucketed resampler** `resampleTicksByTime` (module `TicksByTime`):
  groups trades by the bucket key `t - t % ms` and aggregates each group. It can
  interleave placeholders, then stable-sorts by time and can drop the latest
  candle.
- **Count-bucketed resampler** `resampleTicksByCount` (module `TicksByCount`):
  cuts trades into chunks of `tickCount`. Each chunk gives one candle, stamped
  with the time of the chunk's last trade.
- **Candle resampler** `resampleOhlcvArray` (module `CandleResampler`): one
  pass over time-sorted array-form candles. It carries an accumulator
  (`timeOpen`, OHLC, volume, batch counter `j`). The accumulator is flushed
  when the bucket changes, when `j` reaches the ratio, and once more on the
  last candle.
- **Format adapter** `resampleOhlcv` (module `FormatAdapter`): rejects an
  empty input. It converts object-form candles to arrays and back around the
  candle resampler.

Shared pieces: `Records` (trades, both candle forms, the emitted candle `Bar`,
errors, the bucket key), `SeqMath` (the semantics of lodash `max`, `min`, `sum`
and integer-division facts), `Sorting` (the stable sort that
`Array.prototype.sort` and lodash `sortBy` perform) and `Wrappers`
(`Option` for JavaScript `null`, `Result` for a thrown `Error`).

The candle resampler is specified declaratively and its loop is proved
against that specification:

- `SegmentsOf` cuts the sorted candles into runs of one bucket key. A run is
  cut after `convertRatio` candles.
- `BarOf` folds one run into one candle.
- `FinalBars` says what the last-candle flush makes of the final run.

The method `Pass` is the `for` loop, one turn per call of `VisitCandle`. Its
postcondition equates its result with `FinalBars(SegmentsOf(...))`.

Behaviour reproduced as the code has it:

- The ratio check at `src/lib.ts:64-68` announces, in its error text at
  line 67, that the ratio must be an integer of at least 2, but it never
  fires for a non-zero base frame. The ratio has already been floored, so `60 -> 90` gives ratio 1 and
  no error. The only error is a base frame of 0: the ratio is `Infinity`, and
  `Infinity % 1` is `NaN`.
- If the final candle completes a batch, line 139 has already set
  `timeOpen` to `null`. Line 147 then pushes the same candle a second time,
  with a `null` time. So five one-minute candles resampled to five minutes
  give two records, not one. `Bar.time` is an `Option<int>` so that it can
  carry this `null`. `CandleResampler.FullBatchRepeated` exhibits the
  behaviour.
- The last-candle flush drops a trailing partial run whose key equals the
  last pushed key (`CandleResampler.TrailingSegmentDropped`).
- `resampleTicksByTime` defaults `includeLatestCandle` to true in
  `src/lib.ts`. The model takes the flag as a parameter.
- `resampleTicksByTime` fills gaps between buckets in the order
  `Object.keys` lists them. For bucket keys of 2^32 - 1 and above, which
  every real millisecond timestamp gives, that is creation order, the order
  of the trades and not of time (`TicksByTimeExamples.IndexBound`).
  With trades out of time order the result can keep a gap although
  `fillGaps` is set (`TicksByTimeExamples.UnorderedTradesLeaveGap`). It can
  also hold a placeholder and a real candle at the same time
  (`TicksByTimeExamples.UnorderedTradesDuplicateTime`). The promise of
  contiguous candles holds for trades in time order
  (`TicksByTime.TicksByTimeNoGaps`).

## Model

| member | source | states |
|---|---|---|
| Records.Key | src/lib.ts:118-122 | the bucket key `t - t % width` is the multiple of `width` with `k <= t < k + width` |
| Records.KeyMonotone | src/lib.ts:79-122 | later times never get an earlier bucket key, so sorting by time sorts by bucket |
| Records.ToTuple | src/lib.ts:31 | the array form of a candle reads back as that candle |
| Records.FromTuple | src/lib.ts:33-40 | the object read from an array lists back as that array, field by field at its `OHLCVField` index |
| Records.CandleRoundTrip | src/lib.ts:31-40 | object to array (`OHLCVField` order) and back gives the same candle; each field sits at its `OHLCVField` index |
| Records.TupleRoundTrip | src/lib.ts:31-40 | array to object and back gives the same six numbers |
| SeqMath.MaxBy | src/lib.ts:173 | the maximum is one of the values and bounds all of them |
| SeqMath.MinBy | src/lib.ts:174 | the minimum is one of the values and is bounded by all of them |
| SeqMath.SumByAppend | src/lib.ts:169 | a sum over a concatenation is the sum of the two sums |
| SeqMath.FlattenAppend | src/lib.ts:262 | concatenating chunk lists distributes over flattening |
| Sorting.InsertBySorted | src/lib.ts:239 | inserting into a sorted sequence keeps it sorted |
| Sorting.InsertBy | src/lib.ts:239 | inserting adds exactly one element: the length grows by one and the multiset gains `x` |
| Sorting.SortBy | src/lib.ts:239 | the sorted copy has the same length and multiset of elements and is ascending by key |
| Sorting.WithKey | src/lib.ts:239 | the elements with one key value, in order: never longer than the input, all with that key |
| Sorting.WithKeyAppend | src/lib.ts:239 | selecting one key value distributes over concatenation |
| Sorting.WithKeyInsert | src/lib.ts:239 | insertion into a sorted list places `x` after every element with its key |
| Sorting.SortByStable | src/lib.ts:239 | the sort is stable: for every key value, the elements with that key keep their input order |
| Sorting.SortByMembers | src/lib.ts:239 | every element of the sorted copy is in the input and vice versa |
| Sorting.DropLastSorted | src/lib.ts:241-243 | popping the last element of a sorted list keeps it sorted and removes a maximal-key element |
| Sorting.SumBySort | src/lib.ts:239 | sorting does not change a sum over the elements |
| Sorting.InsertByLast | src/lib.ts:239 | an element with a key at least every other key is placed last |
| Sorting.SortBySorted | src/lib.ts:239 | the stable sort leaves an already sorted list unchanged |
| Aggregate.TickGroupToOhlcv | src/lib.ts:163-178 | time passed through; open is the first price and close the last; high/low are attained and bound every price, so low <= open, close <= high; volume is the summed quantity; an empty group gives zeros |
| Gaps.GapCandle | src/lib.ts:199-206 | placeholder i opens i widths after `last`, flat at `last.close`, with no volume |
| Gaps.GapCandles | src/lib.ts:195-209 | as many placeholders as `GapCount`, the i-th being placeholder i + 1 |
| Gaps.GapCount | src/lib.ts:196-198 | the number of placeholders is the floor of `(next - last - ms) / ms` when that is positive, else 0 |
| Gaps.GapCandlesShape | src/lib.ts:196-209 | placeholder i sits at `last.time + i*ms`, strictly between the two candles, ascending, flat at `last.close`, volume 0 |
| Gaps.MakeGapCandles | src/lib.ts:189-210 | the counted loop returns exactly the placeholders `GapCandles` describes |
| Gaps.GapsAligned | src/lib.ts:200 | after a candle on the bucket grid, every placeholder is on the grid |
| Gaps.GapsCloseGrid | src/lib.ts:196-207 | between two grid candles the placeholders complete the grid: each is one width after the previous, and `next` one width after the final one |
| Gaps.FirstGap | src/lib.ts:196-206 | two or more widths apart, the first placeholder opens one width after the earlier candle, flat at its close |
| Gaps.GapsVolume | src/lib.ts:205 | placeholders add no volume |
| TicksByTime.KeysOfShape | src/lib.ts:228-230 | the group keys are distinct and multiples of the bucket width |
| TicksByTime.KeysOfMembers | src/lib.ts:228-230 | a key is listed exactly when some trade has it |
| TicksByTime.KeysOf | src/lib.ts:228-230 | there are no more keys than trades, and at least one when there is a trade |
| TicksByTime.KeysOfFirstOccurrence | src/lib.ts:228-230 | a key listed before another first occurs before every trade of the other: the keys are in first-occurrence order |
| TicksByTime.GroupOf | src/lib.ts:228 | every trade of a group has the group's key |
| TicksByTime.GroupOfComplete | src/lib.ts:228 | the group of `k` is exactly the trades with key `k`, in input order, each at its ascending input position |
| TicksByTime.GroupFirstLast | src/lib.ts:228 | the group of a present key starts with that key's first trade and ends with its last trade |
| TicksByTime.BucketOpenClose | src/lib.ts:228-232 | a bucket's candle opens at the price of the bucket's first trade and closes at the price of its last, in input order |
| TicksByTime.KeysOfSnoc | src/lib.ts:228-230 | one more trade lists its key exactly when that key is new |
| TicksByTime.GroupOfSnoc | src/lib.ts:228 | one more trade joins the group of its own key and no other |
| TicksByTime.CandlesOf | src/lib.ts:230-238 | at least as many candles as keys, and exactly one per key without placeholders |
| TicksByTime.CandlesOfContents | src/lib.ts:196-238 | every key's aggregate candle is appended, and every other appended candle is a flat, zero-volume placeholder made only with `fillGaps` |
| TicksByTime.CandlesOfSnoc | src/lib.ts:230-238 | one more key appends its placeholders (when asked for) and then its candle |
| TicksByTime.SortedCandles | src/lib.ts:239 | the sorted candles ascend by time, are present whenever a trade is, and are one per key without placeholders |
| TicksByTime.ResampledTicks | src/lib.ts:221-245 | the result ascends by time, is empty exactly for no trades when the latest is kept, and is one shorter when it is dropped |
| TicksByTime.GroupOfUnlisted | src/lib.ts:228 | a key that no trade has gets an empty group |
| TicksByTime.CandlesAligned | src/lib.ts:230-237 | every candle appended, real or placeholder, opens on the bucket grid |
| TicksByTime.CandlesVolume | src/lib.ts:233-237 | the appended candles carry exactly the quantities of the groups |
| TicksByTime.GroupsQuantitySnoc | src/lib.ts:228 | one more trade adds its quantity to the group of its key |
| TicksByTime.GroupsCoverTicks | src/lib.ts:228-232 | every trade lands in exactly one group: the groups carry the whole quantity |
| TicksByTime.CandlesWithoutGaps | src/lib.ts:230-238 | without placeholders there is one candle per key, in key order, each the aggregate of its group |
| TicksByTime.CandlesOfStep | src/lib.ts:233-237 | each key appends its placeholders (when asked for) and then its candle |
| TicksByTime.GroupCandles | src/lib.ts:228-238 | the `forEach` loop builds exactly the candle list `CandlesOf` describes |
| TicksByTime.SortedCandlesAlignedAndComplete | src/lib.ts:228-239 | the sorted candles ascend by time, lie on the grid and carry the whole quantity |
| TicksByTime.SortedCandlesOnePerKey | src/lib.ts:228-239 | without placeholders the sorted candles are one per key, each the aggregate of the group of its own time |
| TicksByTime.TicksByTimeSortedAligned | src/lib.ts:239-244 | the result ascends by time and lies on the bucket grid, whether or not the latest candle is dropped |
| TicksByTime.TicksByTimeVolume | src/lib.ts:228-244 | keeping the latest candle, the total volume equals the summed trade quantities |
| TicksByTime.TicksByTimeOnePerKey | src/lib.ts:230-244 | without placeholders each candle is the aggregate of its key's group; keeping the latest, there is exactly one per key |
| TicksByTime.TicksByTimeDropsLatest | src/lib.ts:239-243 | dropping the latest removes exactly the last, maximal-time element of the sorted list (or nothing from an empty one) and leaves the rest unchanged |
| TicksByTime.KeysOfSortedTicks | src/lib.ts:228-230 | over trades in time order the group keys ascend strictly |
| TicksByTime.JoinContiguous | src/lib.ts:233-237 | a contiguous list, the placeholders after its last candle and the next candle one width later stay contiguous |
| TicksByTime.CandlesContiguous | src/lib.ts:230-237 | with `fillGaps`, over ascending grid keys, each appended candle opens one width after the one before |
| TicksByTime.ContiguousTimes | src/lib.ts:233-237 | in a contiguous list the candle k places later opens k widths later |
| TicksByTime.ContiguousSorted | src/lib.ts:239 | a contiguous list is already ascending by time |
| TicksByTime.AppendGroup | src/lib.ts:230-237 | one turn of the `forEach` extends the candle list to the next prefix of keys as `CandlesOf` describes |
| TicksByTime.TicksByTimeNoGaps | src/lib.ts:221-245 | with `fillGaps` and trades in time order, consecutive result candles are exactly one bucket width apart |
| TicksByTime.ExampleGroups | src/lib.ts:228-230 | trades at 0 s, 0.5 s and 65 s form the buckets 0 and 60000, the first holding the first two trades |
| TicksByTime.ExampleFirstCandle | src/lib.ts:163-178 | those two trades aggregate to open 10, high 12, low 10, close 12, volume 3 |
| TicksByTime.ExampleDropLatest | src/lib.ts:221-245 | with the latest candle dropped, only the first minute's candle remains |
| TicksByTimeExamples.OneTradeCandle | src/lib.ts:163-178 | a one-trade group gives a flat candle at the trade's price with its quantity |
| TicksByTimeExamples.LateFirstGroups | src/lib.ts:228-230 | a later-bucket trade first creates its bucket first |
| TicksByTimeExamples.LateFirstCandles | src/lib.ts:230-238 | for keys of 2^32 - 1 and above, no placeholder is then made between the two buckets |
| TicksByTimeExamples.UnorderedTradesLeaveGap | src/lib.ts:221-245 | with `fillGaps` and keys of 2^32 - 1 and above, trades whose buckets are more than a width apart, later one first, give two candles that are not contiguous |
| TicksByTimeExamples.LateFirstExample | src/lib.ts:221-245 | trades at 1700000220000 ms and then 1700000040000 ms, one-minute buckets: the two flat candles and nothing in the two minutes between |
| TicksByTimeExamples.KeysOfThree | src/lib.ts:228-230 | three trades with distinct keys create their buckets in input order |
| TicksByTimeExamples.LateSecondGroups | src/lib.ts:228-230 | three trades in buckets `a`, `a + 2w` or later, `a + w` make three one-trade groups in that order |
| TicksByTimeExamples.LateSecondCandles | src/lib.ts:230-238 | for keys of 2^32 - 1 and above, their candles before sorting: the first, the placeholders up to the second, the second, then the third with no placeholder |
| TicksByTime.KeptInResult | src/lib.ts:239 | keeping the latest candle, with or without placeholders, a candle is in the result exactly when it was made before the sort |
| TicksByTime.TicksByTimeContents | src/lib.ts:221-245 | keeping the latest candle, every bucket's aggregate is in the result; every candle in the result is a bucket's aggregate at its own time or, with `fillGaps`, a flat zero-volume placeholder |
| TicksByTimeExamples.UnorderedTradesDuplicateTime | src/lib.ts:221-245 | with `fillGaps` and keys of 2^32 - 1 and above, the result holds a placeholder and the third trade's candle at the same time |
| TicksByTime.TicksByTimeContract | src/lib.ts:221-245 | all the promises of `resampleTicksByTime` together |
| TicksByTime.ResampleTicksByTime | src/lib.ts:221-245 | the method returns the modelled result and states its ordering, alignment, volume, one-candle-per-key and no-gap properties, that every bucket's aggregate is kept with the latest candle, and that every other candle is a flat zero-volume placeholder |
| TicksByCount.ChunkCandle | src/lib.ts:264 | a chunk's candle is stamped with the time of its last trade, opens at the first price, closes at the last and carries the summed quantity |
| TicksByCount.CountCandles | src/lib.ts:261-266 | one candle per chunk, the candle of chunk i at position i |
| TicksByCount.Chunks | src/lib.ts:262 | every chunk is non-empty and at most `tickCount` long |
| TicksByCount.ChunksPartition | src/lib.ts:262 | the chunks concatenate back to the input and all but the last are full |
| TicksByCount.ChunkCount | src/lib.ts:262 | there are `ceil(n / tickCount)` chunks |
| TicksByCount.ChunkBounds | src/lib.ts:262 | chunk i is the input slice from `i*tickCount` to `min((i+1)*tickCount, n)` |
| TicksByCount.ChunkLast | src/lib.ts:264 | the last trade of chunk i is the input trade at `min((i+1)*tickCount, n) - 1` |
| TicksByCount.CountCandlesCount | src/lib.ts:262-265 | there are `ceil(n / tickCount)` candles |
| TicksByCount.CountCandleTime | src/lib.ts:264 | candle i is stamped with the time of the last trade of its chunk |
| TicksByCount.ResampleTicksByCount | src/lib.ts:254-267 | throws when `tickCount < 1`; otherwise one aggregated candle per chunk, in chunk order |
| CandleResampler.SegStep | src/lib.ts:117-140 | a candle either is appended to the last run or opens a new run `[c]` after the unchanged runs; the first candle opens `[[c]]`. The choice is `Joins`, the same bucket and a batch below the ratio, the conditions of lines 118 and 137 |
| CandleResampler.SegStepFlatten | src/lib.ts:117-140 | folding a candle in appends it to the concatenated runs |
| CandleResampler.SegmentsOf | src/lib.ts:90-140 | there are runs exactly when there are candles |
| CandleResampler.SegmentsStep | src/lib.ts:90-140 | the runs of a longer prefix are those of the shorter one with the next candle folded in |
| CandleResampler.SegmentsPartition | src/lib.ts:90-140 | the runs concatenate back to the sorted candles: every candle is folded exactly once |
| CandleResampler.SegmentsShape | src/lib.ts:118-140 | every candle of a run has the run's key; no run holds more than `convertRatio` candles |
| CandleResampler.SegmentsMaximal | src/lib.ts:118-140 | a new run starts only on a key change or after a full batch |
| CandleResampler.SegmentKeysSorted | src/lib.ts:79-122 | over time-sorted candles the run keys never decrease |
| CandleResampler.BarOf | src/lib.ts:102-134 | a run's candle opens on the new-frame grid at the bucket of its first candle, and its high and low bound every candle's |
| CandleResampler.BarsOf | src/lib.ts:117-140 | one candle per run, the candle of run m at position m |
| CandleResampler.BarOfFields | src/lib.ts:109-138 | a run's candle has the first candle's key and open, the last close, the highest high, the lowest low and the summed volume |
| CandleResampler.BarOfSingle | src/lib.ts:122-134 | a one-candle run gives that candle at its key |
| CandleResampler.BarOfSnoc | src/lib.ts:131-134 | folding one more candle updates high, low, close and volume as the loop body does |
| CandleResampler.ConvertRatio | src/lib.ts:61-64 | the floored ratio of the millisecond frames is the floored ratio of the second frames |
| CandleResampler.OpenBuffer | src/lib.ts:101-115 | a closed buffer (`Buffer`, the tuple pushed at lines 120, 138 and 147) opens at the bucket of the candle, on the grid, with one candle and no volume; an open one is untouched |
| CandleResampler.NewCandle | src/lib.ts:117-129 | afterwards the buffer is open at the candle's bucket; at most the old buffer was pushed, and nothing changes if it was already there |
| CandleResampler.FoldInto | src/lib.ts:131-134 | the high rises to the candle's high, the low falls to its low, the close is the candle's and the volume grows by its volume |
| CandleResampler.BatchFlush | src/lib.ts:136-140 | the buffer is pushed and closed exactly when the counter equals the ratio |
| CandleResampler.LastFlush | src/lib.ts:141-149 | the buffer is pushed exactly when something was pushed before at a different time, so no two last records share a time |
| CandleResampler.JoinsOpenBuffer | src/lib.ts:102-118 | a candle joins the open run exactly when the accumulator is open at its key |
| CandleResampler.FoldJoin | src/lib.ts:131-134 | a joining candle is absorbed by the accumulator |
| CandleResampler.FoldOpen | src/lib.ts:102-134 | a non-joining candle pushes the open accumulator (if any) and starts a new one |
| CandleResampler.BatchCheck | src/lib.ts:137-140 | a run reaching `convertRatio` is pushed and the accumulator closed |
| CandleResampler.LastCandleFull | src/lib.ts:137-148 | a last run that fills its batch is pushed, then pushed again with a `null` time |
| CandleResampler.LastCandleOpen | src/lib.ts:142-149 | a short last run is dropped if nothing was pushed or the last pushed key is its own, and pushed otherwise |
| CandleResampler.FoldStep | src/lib.ts:102-134 | opening, renewing and folding keep the accumulator in step with the runs |
| CandleResampler.AdvanceStep | src/lib.ts:102-151 | one turn of the loop keeps the accumulator invariant |
| CandleResampler.LastTurn | src/lib.ts:136-149 | the batch check and the last-candle flush on the folded runs leave exactly `FinalBars` |
| CandleResampler.AdvanceLast | src/lib.ts:102-149 | the turn on the last candle leaves exactly `FinalBars` |
| CandleResampler.ResampleOhlcvArray | src/lib.ts:54-155 | the method returns the specified result: error for a zero base frame, `[]` for too few candles, else the pass over a sorted copy |
| CandleResampler.VisitCandle | src/lib.ts:90-152 | one loop turn, statement by statement, equals the composition of the step functions, including the `break` |
| CandleResampler.Pass | src/lib.ts:81-154 | the loop emits `FinalBars` of the runs of the sorted candles |
| CandleResampler.FinalBars | src/lib.ts:137-149 | at most one record per run plus one, the extra one being the `null`-time repeat of a full last run |
| CandleResampler.FinalBarsNonEmpty | src/lib.ts:137-149 | two or more runs, or one full run, leave at least one record |
| CandleResampler.FinalBarsShape | src/lib.ts:117-149 | output m is the candle of run m; at most one extra record, the `null`-time repeat of a full last run |
| CandleResampler.FinalBarsFull | src/lib.ts:137-148 | a full last run: every run's candle, then the last again with a `null` time |
| CandleResampler.FinalBarsOpen | src/lib.ts:142-149 | a short last run: a prefix of the runs' candles |
| CandleResampler.FinalBarsDropsLast | src/lib.ts:142-149 | the last run is lost exactly when it is short and either alone or at the key of the run before |
| CandleResampler.FinalBarsOrdered | src/lib.ts:118-149 | over ascending keys, the non-null emitted times ascend and lie on the new-frame grid |
| CandleResampler.BarsVolumeStep | src/lib.ts:113-134 | folding a candle adds its volume to the runs' candles |
| CandleResampler.BarsVolume | src/lib.ts:113-134 | the runs' candles carry the whole input volume |
| CandleResampler.ResampleOhlcvSpec | src/lib.ts:54-155 | fails exactly for a zero base frame; no candles when the input is shorter than the ratio |
| CandleResampler.ResampleOutcome | src/lib.ts:64-149 | throws exactly for a zero base frame; `[]` when the input is shorter than the ratio; some candles when it holds at least a ratio of at least 1 |
| CandleResampler.ResampleOrdered | src/lib.ts:79-149 | the non-null emitted times ascend and are multiples of the new frame |
| CandleResampler.ExampleBar | src/lib.ts:109-134 | two candles of one bucket fold into first open, max high, min low, last close, summed volume |
| CandleResampler.ExamplePair | src/lib.ts:79-140 | two sorted candles of one bucket form one run at ratio 2 |
| CandleResampler.FullBatchRepeated | src/lib.ts:137-148 | `60 -> 120` on two candles of one bucket emits the candle and a `null`-time repeat |
| CandleResampler.TrailingSegmentDropped | src/lib.ts:142-148 | a trailing short run at the last pushed key is not emitted |
| FormatAdapter.ToRows | src/lib.ts:31 | each object candle becomes the array that reads back as it |
| FormatAdapter.RowsOf | src/lib.ts:29-43 | one array per input candle, each reading back as the object candle at its position |
| FormatAdapter.ResampleOhlcv | src/lib.ts:20-45 | throws on empty input; otherwise the candle resampler's result, in the input's form |
| FormatAdapter.FormsAgree | src/lib.ts:29-43 | object form and array form of the same candles give the same result |

## Left out

- `Number(...)` coercion and the `|| 0` fallbacks (`src/lib.ts:94-99`, 168-175): every field is an integer already, so `x || 0` is `x`.
- Floating-point prices, volumes, timestamps and timeframes: all are integers; timeframes are whole seconds.
- The `ReadableStream` / `Array.isArray` branch (`src/lib.ts:55`, 70-76) and its "not an array" error: the Dafny types admit only sequences.
- The `isPlainObject` test (`src/lib.ts:29`): the caller states the form through the `Series` datatype.
- In-place mutation of the caller's array: the sort at line 79 and the coercion at lines 94-99. The model sorts a copy and leaves the input untouched.
- `Object.keys` order (`src/lib.ts:230`): JavaScript lists integer-like keys below 2^32 - 1 in ascending order and larger ones (millisecond timestamps) in insertion order. The model always uses first-occurrence order. The two differ only for bucket keys below 2^32 - 1 on trades out of time order. With `fillGaps` set, that order decides how many placeholders there are, their times and prices, and whether a placeholder shares its time with a real candle. With `fillGaps` unset, the sort at line 239 makes the order irrelevant.
- Default arguments: `baseTimeframe = 60` and `newTimeframe = 300` (`src/lib.ts:22`, the same for `resampleOhlcvArray` at lines 56-57), `timeframe = 60`, `includeLatestCandle = true` and `fillGaps = false` (line 223), and `tickCount = 5` (line 255). Every model member takes these values as explicit parameters.
- lodash `groupBy`, `sortBy`, `chunk`, `sum`, `max`, `min`: modelled by their semantics, not their code.
- The unused `method` option of `makeGapCandles` and its `lastCandle && nextCandle` test, which every record passes.
- Negative timestamps: times are `nat`, so JavaScript's truncating `%` agrees with Dafny's.
- Negative frames: `baseFrame`, `newFrame` (CandleResampler.ResampleOhlcvArray) and `timeframe` (TicksByTime.ResampleTicksByTime) are `nat`. JavaScript accepts negative ones. A timeframe of -1 buckets like +1, because `%` truncates. It then fills no gap between buckets created in ascending time order, because `intervalGap` at lines 196-197 is negative for them.
- CandleResampler.ResampleOhlcvArray: requires `newFrame > 0`. A new frame of 0 makes every key `NaN` in JavaScript, which is not modelled.
- FormatAdapter.ResampleOhlcv: requires `newTimeframe > 0`, for the same reason.
- TicksByTime.ResampleTicksByTime: requires `timeframe > 0`. A zero timeframe makes every key `NaN`, which is not modelled.
- TicksByCount.ResampleTicksByCount: `tickCount` is an integer. lodash truncates a fractional count, which is not modelled.
- `src/cli.ts` (file and stream input/output), `src/index.ts` (re-exports), `dist/` (build output of an older version) and `jest.config.js` are not part of this model.
