/** The candle resampler `resampleOhlcvArray`: one pass over the candles,
    sorted by time, that folds runs of candles of one bucket into one candle
    each, cutting a run after `convertRatio` candles.

    The specification below describes the pass declaratively: the sorted
    candles are cut into segments (`SegmentsOf`), each segment gives one
    candle (`BarOf`), and the last-candle flush decides what happens to the
    final segment (`FinalBars`). The method `Pass` is the loop itself. */
module CandleResampler {
  import opened Wrappers
  import opened SeqMath
  import opened Records
  import opened Sorting

  function TupleTime(c: Tuple): int { c[TIME] }

  function High(c: Tuple): int { c[HIGH] }

  function Low(c: Tuple): int { c[LOW] }

  function TupleVolume(c: Tuple): int { c[VOLUME] }

  /** The bucket key `t - t % width` of a candle. */
  function KeyOf(c: Tuple, width: nat): nat
    requires width > 0
  {
    Key(c[TIME], width)
  }

  /** A run of candles folded into one output candle. */
  type Segment = s: seq<Tuple> | |s| > 0 witness [ToTuple(Candle(0, 0, 0, 0, 0, 0))]

  /** Whether the candle `c` is folded into the open segment `seg`: same
      bucket, and the segment has not yet reached `ratio` candles (a ratio of
      0 never cuts, because the batch counter starts at 1). */
  predicate Joins(seg: Segment, c: Tuple, width: nat, ratio: nat)
    requires width > 0
  {
    KeyOf(seg[0], width) == KeyOf(c, width) && (ratio == 0 || |seg| < ratio)
  }

  /** The segments after the candle `c` is folded into the segments `prev`:
      it joins the last segment when it can, and opens a new one otherwise. */
  function SegStep(prev: seq<Segment>, c: Tuple, width: nat, ratio: nat): (segs: seq<Segment>)
    requires width > 0
    ensures 0 < |segs| && |prev| <= |segs| <= |prev| + 1
    ensures |prev| > 0 ==> segs[..|prev| - 1] == prev[..|prev| - 1]
    ensures var last := segs[|segs| - 1]; last[|last| - 1] == c
    ensures |prev| == 0 ==> segs == [[c]]
    ensures |prev| > 0 ==>
              segs == prev[..|prev| - 1] + [prev[|prev| - 1] + [c]] || segs == prev + [[c]]
  {
    if |prev| > 0 && Joins(prev[|prev| - 1], c, width, ratio)
    then prev[..|prev| - 1] + [prev[|prev| - 1] + [c]]
    else prev + [[c]]
  }

  /** The segments the pass folds, in order. */
  function SegmentsOf(s: seq<Tuple>, width: nat, ratio: nat): (segs: seq<Segment>)
    requires width > 0
    ensures |s| == 0 <==> |segs| == 0
    decreases |s|
  {
    if |s| == 0 then [] else SegStep(SegmentsOf(s[..|s| - 1], width, ratio), s[|s| - 1], width, ratio)
  }

  /** One step of the segmentation: the segments of `s[..i + 1]` are those of
      `s[..i]` with `s[i]` folded in. */
  lemma SegmentsStep(s: seq<Tuple>, i: nat, width: nat, ratio: nat)
    requires width > 0 && i < |s|
    ensures SegmentsOf(s[..i + 1], width, ratio) == SegStep(SegmentsOf(s[..i], width, ratio), s[i], width, ratio)
  {
    assert s[..i + 1][..i] == s[..i];
  }

  /** The segments cut the candles: concatenated, they give the input back. */
  lemma {:induction false} SegmentsPartition(s: seq<Tuple>, width: nat, ratio: nat)
    requires width > 0
    ensures Flatten(SegmentsOf(s, width, ratio)) == s
    decreases |s|
  {
    if |s| > 0 {
      var prev := SegmentsOf(s[..|s| - 1], width, ratio);
      var c := s[|s| - 1];
      SegmentsPartition(s[..|s| - 1], width, ratio);
      assert SegmentsOf(s, width, ratio) == SegStep(prev, c, width, ratio);
      SegStepFlatten(prev, c, width, ratio);
      assert s == s[..|s| - 1] + [c];
    }
  }

  /** Folding a candle in appends it to the concatenated segments. */
  lemma SegStepFlatten(prev: seq<Segment>, c: Tuple, width: nat, ratio: nat)
    requires width > 0
    ensures Flatten(SegStep(prev, c, width, ratio)) == Flatten(prev) + [c]
  {
    if |prev| > 0 && Joins(prev[|prev| - 1], c, width, ratio) {
      var init, last := prev[..|prev| - 1], prev[|prev| - 1];
      assert SegStep(prev, c, width, ratio) == init + [last + [c]];
      assert prev == init + [last];
      FlattenSnoc(init, last);
      FlattenSnoc(init, last + [c]);
    } else {
      assert SegStep(prev, c, width, ratio) == prev + [[c]];
      FlattenSnoc(prev, [c]);
    }
  }

  /** Every candle of a segment has the segment's key. */
  ghost predicate UniformKeys(segs: seq<Segment>, width: nat)
    requires width > 0
  {
    forall m, k :: 0 <= m < |segs| && 0 <= k < |segs[m]| ==> KeyOf(segs[m][k], width) == KeyOf(segs[m][0], width)
  }

  /** No segment holds more than `ratio` candles. */
  ghost predicate Bounded(segs: seq<Segment>, ratio: nat)
  {
    forall m :: 0 <= m < |segs| ==> |segs[m]| <= ratio
  }

  /** Every candle of a segment has the segment's key, and no segment holds
      more than `ratio` candles when the ratio is at least 1. */
  lemma {:induction false} SegmentsShape(s: seq<Tuple>, width: nat, ratio: nat)
    requires width > 0
    ensures UniformKeys(SegmentsOf(s, width, ratio), width)
    ensures ratio >= 1 ==> Bounded(SegmentsOf(s, width, ratio), ratio)
    decreases |s|
  {
    if |s| > 0 {
      var prev := SegmentsOf(s[..|s| - 1], width, ratio);
      var c := s[|s| - 1];
      var segs := SegmentsOf(s, width, ratio);
      SegmentsShape(s[..|s| - 1], width, ratio);
      if |prev| > 0 && Joins(prev[|prev| - 1], c, width, ratio) {
        var last := prev[|prev| - 1];
        assert segs == prev[..|prev| - 1] + [last + [c]];
        forall m, k | 0 <= m < |segs| && 0 <= k < |segs[m]|
          ensures KeyOf(segs[m][k], width) == KeyOf(segs[m][0], width)
        {
          if m < |prev| - 1 {
            assert segs[m] == prev[m];
          } else if k < |last| {
            assert segs[m][k] == last[k] && segs[m][0] == last[0];
          } else {
            assert segs[m][k] == c && segs[m][0] == last[0];
          }
        }
        if ratio >= 1 {
          forall m | 0 <= m < |segs| ensures |segs[m]| <= ratio {
            if m < |prev| - 1 {
              assert segs[m] == prev[m];
            }
          }
        }
      } else {
        assert segs == prev + [[c]];
        forall m, k | 0 <= m < |segs| && 0 <= k < |segs[m]|
          ensures KeyOf(segs[m][k], width) == KeyOf(segs[m][0], width)
        {
          if m < |prev| {
            assert segs[m] == prev[m];
          }
        }
        if ratio >= 1 {
          forall m | 0 <= m < |segs| ensures |segs[m]| <= ratio {
            if m < |prev| {
              assert segs[m] == prev[m];
            }
          }
        }
      }
    }
  }

  /** The segments are as long as they can be: a segment is followed by a
      new one only when the next candle is in another bucket or the segment
      already holds `ratio` candles. */
  ghost predicate Maximal(segs: seq<Segment>, width: nat, ratio: nat)
    requires width > 0
  {
    forall m :: 0 <= m < |segs| - 1 ==> !Joins(segs[m], segs[m + 1][0], width, ratio)
  }

  lemma {:induction false} SegmentsMaximal(s: seq<Tuple>, width: nat, ratio: nat)
    requires width > 0
    ensures Maximal(SegmentsOf(s, width, ratio), width, ratio)
    decreases |s|
  {
    if |s| > 0 {
      var prev := SegmentsOf(s[..|s| - 1], width, ratio);
      var c := s[|s| - 1];
      var segs := SegmentsOf(s, width, ratio);
      SegmentsMaximal(s[..|s| - 1], width, ratio);
      if |prev| > 0 && Joins(prev[|prev| - 1], c, width, ratio) {
        var last := prev[|prev| - 1];
        assert segs == prev[..|prev| - 1] + [last + [c]];
        forall m | 0 <= m < |segs| - 1
          ensures !Joins(segs[m], segs[m + 1][0], width, ratio)
        {
          assert !Joins(prev[m], prev[m + 1][0], width, ratio);
          assert segs[m] == prev[m];
          if m + 1 < |prev| - 1 {
            assert segs[m + 1] == prev[m + 1];
          } else {
            assert segs[m + 1] == last + [c];
            assert segs[m + 1][0] == last[0];
          }
        }
      } else {
        assert segs == prev + [[c]];
        forall m | 0 <= m < |segs| - 1
          ensures !Joins(segs[m], segs[m + 1][0], width, ratio)
        {
          assert segs[m] == prev[m];
          if m < |prev| - 1 {
            assert !Joins(prev[m], prev[m + 1][0], width, ratio);
            assert segs[m + 1] == prev[m + 1];
          } else {
            assert segs[m + 1] == [c];
          }
        }
      }
    }
  }

  /** The segment keys never decrease. */
  ghost predicate KeysAscending(segs: seq<Segment>, width: nat)
    requires width > 0
  {
    forall m, m' :: 0 <= m < m' < |segs| ==> KeyOf(segs[m][0], width) <= KeyOf(segs[m'][0], width)
  }

  /** No segment key exceeds `bound`. */
  ghost predicate KeysAtMost(segs: seq<Segment>, width: nat, bound: int)
    requires width > 0
  {
    forall m :: 0 <= m < |segs| ==> KeyOf(segs[m][0], width) <= bound
  }

  /** Over candles sorted by time, segment keys never decrease, and none
      exceeds the key of the last candle. */
  lemma {:induction false} SegmentKeysSorted(s: seq<Tuple>, width: nat, ratio: nat)
    requires width > 0 && SortedBy(s, TupleTime)
    ensures KeysAscending(SegmentsOf(s, width, ratio), width)
    ensures |s| > 0 ==> KeysAtMost(SegmentsOf(s, width, ratio), width, KeyOf(s[|s| - 1], width))
    decreases |s|
  {
    if |s| > 0 {
      var init := s[..|s| - 1];
      var c := s[|s| - 1];
      var prev := SegmentsOf(init, width, ratio);
      var segs := SegmentsOf(s, width, ratio);
      DropLastSorted(s, TupleTime);
      SegmentKeysSorted(init, width, ratio);
      if |init| > 0 {
        assert TupleTime(init[|init| - 1]) <= TupleTime(c);
        KeyMonotone(init[|init| - 1][TIME], c[TIME], width);
        RaiseBound(prev, width, KeyOf(init[|init| - 1], width), KeyOf(c, width));
      }
      if |prev| > 0 && Joins(prev[|prev| - 1], c, width, ratio) {
        assert segs == prev[..|prev| - 1] + [prev[|prev| - 1] + [c]];
        assert forall m :: 0 <= m < |prev| - 1 ==> segs[m] == prev[m];
        assert segs[|prev| - 1][0] == prev[|prev| - 1][0];
      } else {
        assert segs == prev + [[c]];
        assert forall m :: 0 <= m < |prev| ==> segs[m] == prev[m];
      }
      KeysBelow(prev, segs, c, width);
    }
  }

  lemma RaiseBound(segs: seq<Segment>, width: nat, b1: int, b2: int)
    requires width > 0 && KeysAtMost(segs, width, b1) && b1 <= b2
    ensures KeysAtMost(segs, width, b2)
  {
  }

  /** The induction step of `SegmentKeysSorted`: `segs` keeps the heads of
      `prev` and at most adds one segment headed by `c`. */
  lemma KeysBelow(prev: seq<Segment>, segs: seq<Segment>, c: Tuple, width: nat)
    requires width > 0
    requires |prev| <= |segs| <= |prev| + 1
    requires forall m :: 0 <= m < |prev| ==> segs[m][0] == prev[m][0]
    requires |segs| == |prev| + 1 ==> segs[|prev|][0] == c
    requires KeysAscending(prev, width) && KeysAtMost(prev, width, KeyOf(c, width))
    ensures KeysAscending(segs, width) && KeysAtMost(segs, width, KeyOf(c, width))
  {
  }

  /** The candle one segment folds into, `[timeOpen, open, high, low,
      close, volume]`. */
  function BarOf(seg: Segment, width: nat): (b: Bar)
    requires width > 0
    ensures b.time.Some? && b.time.value % width == 0
    ensures b.time.value <= seg[0][TIME] < b.time.value + width
    ensures forall k :: 0 <= k < |seg| ==> b.low <= seg[k][LOW] && seg[k][HIGH] <= b.high
  {
    Bar(Some(KeyOf(seg[0], width)), seg[0][OPEN], MaxBy(seg, High), MinBy(seg, Low),
        seg[|seg| - 1][CLOSE], SumBy(seg, TupleVolume))
  }

  /** The candle of a segment is opened at the key of its first candle and
      carries the first open, the highest high, the lowest low, the last
      close and the summed volume. */
  lemma BarOfFields(seg: Segment, width: nat)
    requires width > 0
    ensures var b := BarOf(seg, width);
            b.time == Some(KeyOf(seg[0], width) as int) &&
            b.open == seg[0][OPEN] && b.close == seg[|seg| - 1][CLOSE] &&
            b.volume == SumBy(seg, TupleVolume)
    ensures var b := BarOf(seg, width);
            (exists k :: 0 <= k < |seg| && b.high == seg[k][HIGH]) &&
            (forall k :: 0 <= k < |seg| ==> seg[k][HIGH] <= b.high)
    ensures var b := BarOf(seg, width);
            (exists k :: 0 <= k < |seg| && b.low == seg[k][LOW]) &&
            (forall k :: 0 <= k < |seg| ==> b.low <= seg[k][LOW])
  {
  }

  /** A segment of one candle gives that candle, opened at its key. */
  lemma BarOfSingle(c: Tuple, width: nat)
    requires width > 0
    ensures BarOf([c], width) == Bar(Some(KeyOf(c, width) as int), c[OPEN], c[HIGH], c[LOW], c[CLOSE], c[VOLUME])
  {
    assert [c][..|[c]| - 1] == [];
    assert SumBy([c], TupleVolume) == SumBy([c][..|[c]| - 1], TupleVolume) + TupleVolume(c);
  }

  /** Folding one more candle into a segment updates the candle as the loop
      body does. */
  lemma BarOfSnoc(seg: Segment, c: Tuple, width: nat)
    requires width > 0
    ensures var b := BarOf(seg, width);
            BarOf(seg + [c], width) ==
            Bar(b.time, b.open, Max(c[HIGH], b.high), Min(c[LOW], b.low), c[CLOSE], b.volume + c[VOLUME])
  {
    assert (seg + [c])[..|seg|] == seg;
  }

  /** One candle per segment, in order. */
  function BarsOf(segs: seq<Segment>, width: nat): (bs: seq<Bar>)
    requires width > 0
    ensures |bs| == |segs|
    ensures forall m :: 0 <= m < |bs| ==> bs[m] == BarOf(segs[m], width)
  {
    seq(|segs|, (m: int) requires 0 <= m < |segs| => BarOf(segs[m], width))
  }

  lemma BarsOfSnoc(segs: seq<Segment>, x: Segment, width: nat)
    requires width > 0
    ensures BarsOf(segs + [x], width) == BarsOf(segs, width) + [BarOf(x, width)]
  {
  }

  /** What the pass emits for the segments `segs`. Every segment but the last
      is pushed inside the loop. The last one is pushed inside the loop too
      when it is full, and the last-candle flush then pushes it once more
      with a `null` time. Otherwise the last-candle flush pushes it, unless
      nothing was pushed before (the loop breaks) or the last pushed candle
      has its key. */
  function FinalBars(segs: seq<Segment>, width: nat, ratio: nat): (bars: seq<Bar>)
    requires width > 0
    ensures |bars| <= |segs| + 1
    ensures |bars| == |segs| + 1 ==> |segs| > 0 && ratio >= 1 && |segs[|segs| - 1]| == ratio && bars[|segs|].time.None?
  {
    if |segs| == 0 then []
    else
      var last := segs[|segs| - 1];
      if ratio >= 1 && |last| == ratio then
        BarsOf(segs, width) + [BarOf(last, width).(time := None)]
      else
        var prior := BarsOf(segs[..|segs| - 1], width);
        if |prior| == 0 then []
        else if prior[|prior| - 1].time == BarOf(last, width).time then prior
        else prior + [BarOf(last, width)]
  }

  /** `Math.floor(newFrame / baseFrame)` on the frames in milliseconds, for
      a base frame that is not 0: the floored quotient of the frames in
      seconds. */
  function ConvertRatio(baseFrame: nat, newFrame: nat): (r: nat)
    requires baseFrame > 0
    ensures r == newFrame / baseFrame
  {
    var q := newFrame / baseFrame;
    assert newFrame == q * baseFrame + newFrame % baseFrame;
    assert q * (baseFrame * 1000) == (q * baseFrame) * 1000;
    assert (q * baseFrame) * 1000 + baseFrame * 1000 == (q * baseFrame + baseFrame) * 1000;
    FloorDivUnique(newFrame * 1000, baseFrame * 1000, q);
    (newFrame * 1000) / (baseFrame * 1000)
  }

  /** The result of `resampleOhlcvArray(candledata, baseFrame, newFrame)`,
      with the frames in seconds. A base frame of 0 makes the ratio
      `Infinity`, and `Infinity % 1` fails the integer check; any other ratio
      is a floored quotient and passes it. */
  function ResampleOhlcvSpec(candledata: seq<Tuple>, baseFrame: nat, newFrame: nat): (r: Result<seq<Bar>, Error>)
    requires newFrame > 0
    ensures r.Failure? <==> baseFrame == 0
    ensures r.Success? && |candledata| < newFrame / baseFrame ==> r.value == []
  {
    if baseFrame == 0 then Failure(RatioNotInteger)
    else
      var ratio := ConvertRatio(baseFrame, newFrame);
      var width: nat := newFrame * 1000;
      if |candledata| == 0 || |candledata| < ratio then Success([])
      else Success(FinalBars(SegmentsOf(SortBy(candledata, TupleTime), width, ratio), width, ratio))
  }

  /** The state of the pass between two candles, in terms of the segments of
      the candles seen so far. With `timeOpen` null, every segment has been
      pushed and the last one (if any) is full. Otherwise all but the last
      have been pushed, and the buffer holds the candle of the last one,
      which is not full; the batch counter is one past its length. */
  ghost predicate Accumulates(segs: seq<Segment>, result: seq<Bar>, acc: Bar, j: int, width: nat, ratio: nat)
    requires width > 0
  {
    if acc.time.None? then
      result == BarsOf(segs, width) &&
      (|segs| == 0 || (ratio >= 1 && |segs[|segs| - 1]| == ratio))
    else
      |segs| > 0 && result == BarsOf(segs[..|segs| - 1], width) &&
      (ratio == 0 || |segs[|segs| - 1]| < ratio) &&
      acc == BarOf(segs[|segs| - 1], width) && j == |segs[|segs| - 1]| + 1
  }

  /** The state of the pass once a candle has been folded in, before the
      batch check: the buffer holds the candle of the last segment and the
      batch counter is its length. */
  ghost predicate Folded(segs: seq<Segment>, result: seq<Bar>, acc: Bar, j: int, width: nat, ratio: nat)
    requires width > 0
  {
    |segs| > 0 && result == BarsOf(segs[..|segs| - 1], width) &&
    (ratio == 0 || |segs[|segs| - 1]| <= ratio) &&
    acc == BarOf(segs[|segs| - 1], width) && j == |segs[|segs| - 1]|
  }

  /** A candle joins the open segment exactly when the buffer is open at
      the candle's key. */
  lemma JoinsOpenBuffer(prev: seq<Segment>, result: seq<Bar>, acc: Bar, j: int, c: Tuple, width: nat, ratio: nat)
    requires width > 0
    requires Accumulates(prev, result, acc, j, width, ratio)
    ensures (|prev| > 0 && Joins(prev[|prev| - 1], c, width, ratio)) <==> acc.time == Some(KeyOf(c, width) as int)
  {
  }

  /** A candle that joins the open segment is absorbed by the buffer. */
  lemma FoldJoin(prev: seq<Segment>, result: seq<Bar>, acc: Bar, j: int, c: Tuple, width: nat, ratio: nat)
    requires width > 0
    requires Accumulates(prev, result, acc, j, width, ratio)
    requires |prev| > 0 && Joins(prev[|prev| - 1], c, width, ratio)
    ensures Folded(SegStep(prev, c, width, ratio), result,
                   Bar(acc.time, acc.open, Max(c[HIGH], acc.high), Min(c[LOW], acc.low),
                       c[CLOSE], acc.volume + c[VOLUME]), j, width, ratio)
  {
    var segs := SegStep(prev, c, width, ratio);
    assert segs[..|segs| - 1] == prev[..|prev| - 1];
    BarOfSnoc(prev[|prev| - 1], c, width);
  }

  /** A candle that does not join the open segment starts a new one; the
      open buffer, if any, is pushed first. */
  lemma FoldOpen(prev: seq<Segment>, result: seq<Bar>, acc: Bar, j: int, c: Tuple, width: nat, ratio: nat)
    requires width > 0
    requires Accumulates(prev, result, acc, j, width, ratio)
    requires !(|prev| > 0 && Joins(prev[|prev| - 1], c, width, ratio))
    ensures Folded(SegStep(prev, c, width, ratio),
                   if acc.time.Some? then result + [acc] else result,
                   Bar(Some(KeyOf(c, width) as int), c[OPEN], c[HIGH], c[LOW], c[CLOSE], c[VOLUME]),
                   1, width, ratio)
  {
    var segs := SegStep(prev, c, width, ratio);
    BarOfSingle(c, width);
    assert segs[..|segs| - 1] == prev;
    if acc.time.Some? {
      assert prev == prev[..|prev| - 1] + [prev[|prev| - 1]];
      BarsOfSnoc(prev[..|prev| - 1], prev[|prev| - 1], width);
    }
  }

  /** The batch check: a segment that reaches `ratio` candles is pushed and
      the buffer closed; otherwise the counter moves on. */
  lemma BatchCheck(segs: seq<Segment>, result: seq<Bar>, acc: Bar, j: int, width: nat, ratio: nat)
    requires width > 0
    requires Folded(segs, result, acc, j, width, ratio)
    ensures j == ratio ==> Accumulates(segs, result + [acc], acc.(time := None), j + 1, width, ratio)
    ensures j != ratio ==> Accumulates(segs, result, acc, j + 1, width, ratio)
  {
    assert segs == segs[..|segs| - 1] + [segs[|segs| - 1]];
    BarsOfSnoc(segs[..|segs| - 1], segs[|segs| - 1], width);
  }

  /** A last segment that fills its batch is pushed, then repeated with a
      null time. */
  lemma LastCandleFull(segs: seq<Segment>, result: seq<Bar>, acc: Bar, width: nat, ratio: nat)
    requires width > 0
    requires Folded(segs, result, acc, ratio, width, ratio)
    ensures var r := result + [acc];
            r[|r| - 1].time != None && FinalBars(segs, width, ratio) == r + [acc.(time := None)]
  {
    var init, last := segs[..|segs| - 1], segs[|segs| - 1];
    assert segs == init + [last];
    BarsOfSnoc(init, last, width);
    assert result + [acc] == BarsOf(segs, width);
  }

  /** A last segment short of its batch is left to the final check. */
  lemma LastCandleOpen(segs: seq<Segment>, result: seq<Bar>, acc: Bar, j: int, width: nat, ratio: nat)
    requires width > 0
    requires Folded(segs, result, acc, j, width, ratio) && j != ratio
    ensures |result| == 0 ==> FinalBars(segs, width, ratio) == []
    ensures |result| > 0 && result[|result| - 1].time != acc.time ==> FinalBars(segs, width, ratio) == result + [acc]
    ensures |result| > 0 && result[|result| - 1].time == acc.time ==> FinalBars(segs, width, ratio) == result
  {
  }

  /** The variables of the pass: the candles pushed so far, the buffer and
      the batch counter. */
  datatype PassState = PassState(result: seq<Bar>, timeOpen: Option<int>, open: int, high: int,
                                 low: int, close: int, volume: int, j: int)

  /** The buffer as the candle it would push. */
  function Buffer(st: PassState): Bar
  {
    Bar(st.timeOpen, st.open, st.high, st.low, st.close, st.volume)
  }

  /** "First / Force New Candle": with the buffer closed, open it at the
      candle's key. */
  function OpenBuffer(st: PassState, c: Tuple, width: nat): (r: PassState)
    requires width > 0
    ensures r.result == st.result && r.timeOpen.Some?
    ensures st.timeOpen.None? ==>
              r.j == 1 && r.volume == 0 && r.timeOpen.value % width == 0 &&
              r.timeOpen.value <= c[TIME] < r.timeOpen.value + width
    ensures st.timeOpen.Some? ==> r == st
  {
    if st.timeOpen.None? then
      assert Key(c[TIME], width) == if c[TIME] % width > 0 then c[TIME] - c[TIME] % width else c[TIME];
      PassState(st.result, Some(if c[TIME] % width > 0 then c[TIME] - c[TIME] % width else c[TIME]),
                c[OPEN], c[HIGH], c[LOW], c[CLOSE], 0, 1)
    else st
  }

  /** "New Candle": a buffer open at another key is pushed and reopened at
      the candle's key. */
  function NewCandle(st: PassState, c: Tuple, width: nat): (r: PassState)
    requires width > 0
    ensures r.timeOpen.Some? && r.timeOpen.value <= c[TIME] < r.timeOpen.value + width
    ensures r.result == st.result || r.result == st.result + [Buffer(st)]
    ensures r.timeOpen == st.timeOpen ==> r == st
  {
    var key := c[TIME] - c[TIME] % width;
    if Some(key) != st.timeOpen then
      PassState(st.result + [Buffer(st)], Some(key), c[OPEN], c[HIGH], c[LOW], c[CLOSE], 0, 1)
    else st
  }

  /** The candle folded into the buffer. */
  function FoldInto(st: PassState, c: Tuple): (r: PassState)
    ensures r.result == st.result && r.timeOpen == st.timeOpen && r.open == st.open && r.j == st.j
    ensures r.high >= c[HIGH] && r.high >= st.high && (r.high == c[HIGH] || r.high == st.high)
    ensures r.low <= c[LOW] && r.low <= st.low && (r.low == c[LOW] || r.low == st.low)
    ensures r.close == c[CLOSE] && r.volume == st.volume + c[VOLUME]
  {
    st.(high := Max(c[HIGH], st.high), low := Min(c[LOW], st.low), close := c[CLOSE],
        volume := st.volume + c[VOLUME])
  }

  /** "Batch counter": a buffer holding `ratio` candles is pushed and
      closed. */
  function BatchFlush(st: PassState, ratio: nat): (r: PassState)
    ensures r.result == st.result || r.result == st.result + [Buffer(st)]
    ensures |r.result| > |st.result| <==> st.j == ratio
    ensures st.j == ratio ==> r.timeOpen.None?
    ensures st.j != ratio ==> r == st
  {
    if st.j == ratio then st.(result := st.result + [Buffer(st)], timeOpen := None) else st
  }

  /** "Last Candle": push the buffer unless nothing was pushed yet or the
      last pushed candle has the buffer's time. */
  function LastFlush(st: PassState): (r: PassState)
    ensures r.result == st.result || r.result == st.result + [Buffer(st)]
    ensures |r.result| > |st.result| <==>
              |st.result| > 0 && st.result[|st.result| - 1].time != st.timeOpen
    ensures |r.result| > |st.result| ==> r.result[|r.result| - 1].time != r.result[|r.result| - 2].time
  {
    if |st.result| > 0 && st.result[|st.result| - 1].time != st.timeOpen
    then st.(result := st.result + [Buffer(st)])
    else st
  }

  /** Opening, renewing and folding the buffer on a candle leave the pass
      in the folded state of the segments with that candle added. */
  lemma FoldStep(prev: seq<Segment>, st: PassState, c: Tuple, width: nat, ratio: nat)
    requires width > 0
    requires Accumulates(prev, st.result, Buffer(st), st.j, width, ratio)
    ensures var s3 := FoldInto(NewCandle(OpenBuffer(st, c, width), c, width), c);
            Folded(SegStep(prev, c, width, ratio), s3.result, Buffer(s3), s3.j, width, ratio)
  {
    var key := KeyOf(c, width) as int;
    assert c[TIME] - c[TIME] % width == key;
    var s1 := OpenBuffer(st, c, width);
    var s2 := NewCandle(s1, c, width);
    var s3 := FoldInto(s2, c);
    JoinsOpenBuffer(prev, st.result, Buffer(st), st.j, c, width, ratio);
    if st.timeOpen == Some(key) {
      assert s2 == st;
      FoldJoin(prev, st.result, Buffer(st), st.j, c, width, ratio);
    } else if st.timeOpen.None? {
      assert s1.timeOpen == Some(key);
      assert s2 == s1;
      assert Buffer(s3) == Bar(Some(key), c[OPEN], c[HIGH], c[LOW], c[CLOSE], c[VOLUME]);
      FoldOpen(prev, st.result, Buffer(st), st.j, c, width, ratio);
    } else {
      assert s1 == st;
      assert s2.result == st.result + [Buffer(st)];
      assert Buffer(s3) == Bar(Some(key), c[OPEN], c[HIGH], c[LOW], c[CLOSE], c[VOLUME]);
      FoldOpen(prev, st.result, Buffer(st), st.j, c, width, ratio);
    }
  }

  /** A turn of the loop keeps the pass in step with the segmentation. */
  lemma AdvanceStep(prev: seq<Segment>, st: PassState, c: Tuple, width: nat, ratio: nat)
    requires width > 0
    requires Accumulates(prev, st.result, Buffer(st), st.j, width, ratio)
    ensures var st' := BatchFlush(FoldInto(NewCandle(OpenBuffer(st, c, width), c, width), c), ratio);
            Accumulates(SegStep(prev, c, width, ratio), st'.result, Buffer(st'), st'.j + 1, width, ratio)
  {
    FoldStep(prev, st, c, width, ratio);
    var s3 := FoldInto(NewCandle(OpenBuffer(st, c, width), c, width), c);
    BatchCheck(SegStep(prev, c, width, ratio), s3.result, Buffer(s3), s3.j, width, ratio);
  }

  /** The turn of the loop on the last candle leaves exactly the candles
      `FinalBars` describes. */
  lemma AdvanceLast(prev: seq<Segment>, st: PassState, c: Tuple, width: nat, ratio: nat)
    requires width > 0
    requires Accumulates(prev, st.result, Buffer(st), st.j, width, ratio)
    ensures var st' := BatchFlush(FoldInto(NewCandle(OpenBuffer(st, c, width), c, width), c), ratio);
            LastFlush(st').result == FinalBars(SegStep(prev, c, width, ratio), width, ratio)
  {
    FoldStep(prev, st, c, width, ratio);
    var s3 := FoldInto(NewCandle(OpenBuffer(st, c, width), c, width), c);
    LastTurn(SegStep(prev, c, width, ratio), s3, width, ratio);
  }

  /** The batch check and the last-candle flush, applied to the buffer of
      the folded runs `segs`, leave `FinalBars(segs)`. */
  lemma LastTurn(segs: seq<Segment>, s3: PassState, width: nat, ratio: nat)
    requires width > 0
    requires Folded(segs, s3.result, Buffer(s3), s3.j, width, ratio)
    ensures LastFlush(BatchFlush(s3, ratio)).result == FinalBars(segs, width, ratio)
  {
    var s4 := BatchFlush(s3, ratio);
    if s3.j == ratio {
      LastCandleFull(segs, s3.result, Buffer(s3), width, ratio);
      assert s4.result == s3.result + [Buffer(s3)] && s4.timeOpen == None;
      assert Buffer(s4) == Buffer(s3).(time := None);
      assert LastFlush(s4).result == s4.result + [Buffer(s4)];
    } else {
      LastCandleOpen(segs, s3.result, Buffer(s3), s3.j, width, ratio);
      assert s4 == s3;
    }
  }

  /** `resampleOhlcvArray`: the ratio and length checks, then the pass over
      a sorted copy of the candles. */
  method ResampleOhlcvArray(candledata: seq<Tuple>, baseFrame: nat, newFrame: nat)
    returns (r: Result<seq<Bar>, Error>)
    requires newFrame > 0
    ensures r == ResampleOhlcvSpec(candledata, baseFrame, newFrame)
  {
    var msBase := baseFrame * 1000;
    var msNew := newFrame * 1000;
    if msBase == 0 {
      // `msNew / 0` is `Infinity`, and `Infinity % 1` is `NaN`: the check throws
      return Failure(RatioNotInteger);
    }
    // a floored finite ratio always passes the `convertRatio % 1 !== 0` check
    var convertRatio := ConvertRatio(baseFrame, newFrame);
    if |candledata| == 0 || |candledata| < convertRatio {
      return Success([]);
    }
    var data := SortBy(candledata, TupleTime);
    var result := Pass(data, msNew, convertRatio);
    return Success(result);
  }

  /** One turn of the `for` loop of `resampleOhlcvArray`, on the candle at
      index `i` and the variables the loop carries; `last` tells whether `i`
      is the last index. The `break` on the last candle with nothing pushed
      leaves the turn before `j` is incremented; the loop ends there either
      way. */
  method VisitCandle(st: PassState, candle: Tuple, last: bool, msNew: nat, convertRatio: nat)
    returns (st': PassState)
    requires msNew > 0
    ensures var st4 := BatchFlush(FoldInto(NewCandle(OpenBuffer(st, candle, msNew), candle, msNew), candle), convertRatio);
            !last ==> st' == st4.(j := st4.j + 1)
    ensures var st4 := BatchFlush(FoldInto(NewCandle(OpenBuffer(st, candle, msNew), candle, msNew), candle), convertRatio);
            last ==> st' == if |st4.result| == 0 then st4 else LastFlush(st4).(j := st4.j + 1)
  {
    var result, timeOpen, open, high, low, close, volume, j :=
      st.result, st.timeOpen, st.open, st.high, st.low, st.close, st.volume, st.j;

    // First / Force New Candle
    if timeOpen == None {
      timeOpen := Some(candle[TIME]);
      if candle[TIME] % msNew > 0 {
        timeOpen := Some(candle[TIME] - candle[TIME] % msNew);
      }
      open := candle[OPEN];
      high := candle[HIGH];
      low := candle[LOW];
      close := candle[CLOSE];
      volume := 0;
      j := 1;
    }
    ghost var st1 := OpenBuffer(st, candle, msNew);
    assert PassState(result, timeOpen, open, high, low, close, volume, j) == st1;

    // New Candle
    if Some(candle[TIME] - candle[TIME] % msNew) != timeOpen {
      result := result + [Bar(timeOpen, open, high, low, close, volume)];
      timeOpen := Some(candle[TIME] - candle[TIME] % msNew);
      open := candle[OPEN];
      high := candle[HIGH];
      low := candle[LOW];
      close := candle[CLOSE];
      volume := 0;
      j := 1;
    }
    ghost var st2 := NewCandle(st1, candle, msNew);
    assert PassState(result, timeOpen, open, high, low, close, volume, j) == st2;

    high := Max(candle[HIGH], high);
    low := Min(candle[LOW], low);
    close := candle[CLOSE];
    volume := volume + candle[VOLUME];
    ghost var st3 := FoldInto(st2, candle);
    assert PassState(result, timeOpen, open, high, low, close, volume, j) == st3;

    // Batch counter
    if j == convertRatio {
      result := result + [Bar(timeOpen, open, high, low, close, volume)];
      timeOpen := None;
    }
    ghost var st4 := BatchFlush(st3, convertRatio);
    assert PassState(result, timeOpen, open, high, low, close, volume, j) == st4;

    // Last Candle
    if last {
      if |result| == 0 {
        // break
        return PassState(result, timeOpen, open, high, low, close, volume, j);
      }
      if result[|result| - 1].time != timeOpen {
        result := result + [Bar(timeOpen, open, high, low, close, volume)];
      }
    }

    j := j + 1;
    return PassState(result, timeOpen, open, high, low, close, volume, j);
  }

  /** The loop of `resampleOhlcvArray` over the sorted candles `data`, with
      bucket width `msNew` and batch size `convertRatio`. */
  method Pass(data: seq<Tuple>, msNew: nat, convertRatio: nat) returns (result: seq<Bar>)
    requires msNew > 0
    ensures result == FinalBars(SegmentsOf(data, msNew, convertRatio), msNew, convertRatio)
  {
    var st := PassState([], None, 0, 0, 0, 0, 0, 0);
    var i := 0;
    ghost var segs: seq<Segment> := [];
    while i < |data|
      invariant 0 <= i <= |data|
      invariant segs == SegmentsOf(data[..i], msNew, convertRatio)
      invariant i < |data| ==> Accumulates(segs, st.result, Buffer(st), st.j, msNew, convertRatio)
      invariant i == |data| ==> st.result == FinalBars(segs, msNew, convertRatio)
    {
      SegmentsStep(data, i, msNew, convertRatio);
      AdvanceStep(segs, st, data[i], msNew, convertRatio);
      AdvanceLast(segs, st, data[i], msNew, convertRatio);
      st := VisitCandle(st, data[i], i == |data| - 1, msNew, convertRatio);
      segs := SegStep(segs, data[i], msNew, convertRatio);
      i := i + 1;
    }
    assert data[..|data|] == data;
    result := st.result;
  }

  function BarVolume(b: Bar): int { b.volume }

  /** The emitted candles: every candle at an index below the number of
      segments is the candle of that segment; at most one extra candle
      follows, only after a full last segment, and it repeats that segment's
      candle with a `null` time. */
  lemma FinalBarsShape(segs: seq<Segment>, width: nat, ratio: nat)
    requires width > 0
    ensures var out := FinalBars(segs, width, ratio);
            |out| <= |segs| + 1 &&
            forall m :: 0 <= m < |out| && m < |segs| ==> out[m] == BarOf(segs[m], width)
    ensures var out := FinalBars(segs, width, ratio);
            |out| == |segs| + 1 ==>
              ratio >= 1 && |segs[|segs| - 1]| == ratio &&
              out[|segs|] == BarOf(segs[|segs| - 1], width).(time := None)
    ensures |segs| > 0 && ratio >= 1 && |segs[|segs| - 1]| == ratio ==>
              |FinalBars(segs, width, ratio)| == |segs| + 1
  {
    if |segs| > 0 {
      if ratio >= 1 && |segs[|segs| - 1]| == ratio {
        FinalBarsFull(segs, width, ratio);
      } else {
        FinalBarsOpen(segs, width, ratio);
      }
    }
  }

  /** A full last segment: every candle, then the last one again with a
      null time. */
  lemma FinalBarsFull(segs: seq<Segment>, width: nat, ratio: nat)
    requires width > 0 && |segs| > 0 && ratio >= 1 && |segs[|segs| - 1]| == ratio
    ensures var out := FinalBars(segs, width, ratio);
            |out| == |segs| + 1 && out[|segs|] == BarOf(segs[|segs| - 1], width).(time := None) &&
            forall m :: 0 <= m < |segs| ==> out[m] == BarOf(segs[m], width)
  {
    var out, bs := FinalBars(segs, width, ratio), BarsOf(segs, width);
    assert out == bs + [BarOf(segs[|segs| - 1], width).(time := None)];
    forall m | 0 <= m < |segs| ensures out[m] == BarOf(segs[m], width) {
      assert out[m] == bs[m];
    }
  }

  /** A last segment short of its batch: a prefix of the candles, each that
      of its segment. */
  lemma FinalBarsOpen(segs: seq<Segment>, width: nat, ratio: nat)
    requires width > 0 && |segs| > 0 && !(ratio >= 1 && |segs[|segs| - 1]| == ratio)
    ensures var out := FinalBars(segs, width, ratio);
            |out| <= |segs| && forall m :: 0 <= m < |out| ==> out[m] == BarOf(segs[m], width)
  {
    var init, last := segs[..|segs| - 1], segs[|segs| - 1];
    var out, prior := FinalBars(segs, width, ratio), BarsOf(init, width);
    assert |out| == 0 || out == prior || out == prior + [BarOf(last, width)];
    forall m | 0 <= m < |out| ensures out[m] == BarOf(segs[m], width) {
      if m < |prior| {
        assert out[m] == prior[m] && init[m] == segs[m];
      }
    }
  }

  /** The last segment is left out exactly when it is not full and either
      it is the only one or the candle pushed before it has its key. */
  lemma FinalBarsDropsLast(segs: seq<Segment>, width: nat, ratio: nat)
    requires width > 0 && |segs| > 0
    ensures var last := segs[|segs| - 1];
            |FinalBars(segs, width, ratio)| == |segs| - 1 <==>
              !(ratio >= 1 && |last| == ratio) &&
              (|segs| == 1 || KeyOf(segs[|segs| - 2][0], width) == KeyOf(last[0], width))
  {
  }

  /** The open times of the emitted candles that carry one never decrease. */
  ghost predicate TimesAscending(bs: seq<Bar>)
  {
    forall m, m' :: 0 <= m < m' < |bs| && bs[m].time.Some? && bs[m'].time.Some? ==>
      bs[m].time.value <= bs[m'].time.value
  }

  /** Every open time that is not `null` is a multiple of `width`. */
  ghost predicate TimesAligned(bs: seq<Bar>, width: nat)
    requires width > 0
  {
    forall m :: 0 <= m < |bs| && bs[m].time.Some? ==> bs[m].time.value >= 0 && bs[m].time.value % width == 0
  }

  /** Over segments whose keys ascend, the emitted open times ascend and
      lie on the grid of `width`. */
  lemma FinalBarsOrdered(segs: seq<Segment>, width: nat, ratio: nat)
    requires width > 0 && KeysAscending(segs, width)
    ensures TimesAscending(FinalBars(segs, width, ratio))
    ensures TimesAligned(FinalBars(segs, width, ratio), width)
  {
    var out := FinalBars(segs, width, ratio);
    FinalBarsShape(segs, width, ratio);
    forall m | 0 <= m < |out| && out[m].time.Some?
      ensures out[m].time == Some(KeyOf(segs[m][0], width) as int)
    {
    }
  }

  /** Folding a candle into the segments adds its volume to the candles of
      the segments. */
  lemma BarsVolumeStep(prev: seq<Segment>, c: Tuple, width: nat, ratio: nat)
    requires width > 0
    ensures SumBy(BarsOf(SegStep(prev, c, width, ratio), width), BarVolume) ==
            SumBy(BarsOf(prev, width), BarVolume) + c[VOLUME]
  {
    if |prev| > 0 && Joins(prev[|prev| - 1], c, width, ratio) {
      var front, last := prev[..|prev| - 1], prev[|prev| - 1];
      assert prev == front + [last];
      BarsOfSnoc(front, last, width);
      BarsOfSnoc(front, last + [c], width);
      BarOfSnoc(last, c, width);
      SumBySnoc(BarsOf(front, width), BarOf(last, width), BarVolume);
      SumBySnoc(BarsOf(front, width), BarOf(last + [c], width), BarVolume);
    } else {
      BarsOfSnoc(prev, [c], width);
      BarOfSingle(c, width);
      SumBySnoc(BarsOf(prev, width), BarOf([c], width), BarVolume);
    }
  }

  /** The candles of the segments carry all the volume of the input. */
  lemma {:induction false} BarsVolume(s: seq<Tuple>, width: nat, ratio: nat)
    requires width > 0
    ensures SumBy(BarsOf(SegmentsOf(s, width, ratio), width), BarVolume) == SumBy(s, TupleVolume)
    decreases |s|
  {
    if |s| > 0 {
      var init := s[..|s| - 1];
      BarsVolume(init, width, ratio);
      BarsVolumeStep(SegmentsOf(init, width, ratio), s[|s| - 1], width, ratio);
    }
  }

  /** The final flush leaves candles behind when there are at least two
      segments, or a single one that is full. */
  lemma FinalBarsNonEmpty(segs: seq<Segment>, width: nat, ratio: nat)
    requires width > 0 && ratio >= 1 && |segs| > 0
    requires |segs| == 1 ==> |segs[0]| == ratio
    ensures |FinalBars(segs, width, ratio)| > 0
  {
    if |segs| > 1 {
      assert |BarsOf(segs[..|segs| - 1], width)| == |segs| - 1;
    }
  }

  /** `resampleOhlcvArray` throws exactly when the base frame is 0, returns
      no candles when there are fewer candles than the ratio, and returns
      some when there are at least as many candles as a ratio of at least 1. */
  lemma ResampleOutcome(candledata: seq<Tuple>, baseFrame: nat, newFrame: nat)
    requires newFrame > 0
    ensures ResampleOhlcvSpec(candledata, baseFrame, newFrame).Failure? <==> baseFrame == 0
    ensures baseFrame == 0 ==> ResampleOhlcvSpec(candledata, baseFrame, newFrame) == Failure(RatioNotInteger)
    ensures baseFrame > 0 && |candledata| < newFrame / baseFrame ==>
              ResampleOhlcvSpec(candledata, baseFrame, newFrame) == Success([])
    ensures baseFrame > 0 && 1 <= newFrame / baseFrame <= |candledata| ==>
              ResampleOhlcvSpec(candledata, baseFrame, newFrame).Success? &&
              |ResampleOhlcvSpec(candledata, baseFrame, newFrame).value| > 0
  {
    if baseFrame > 0 && 1 <= newFrame / baseFrame <= |candledata| {
      var ratio := ConvertRatio(baseFrame, newFrame);
      var width: nat := newFrame * 1000;
      var sorted := SortBy(candledata, TupleTime);
      var segs := SegmentsOf(sorted, width, ratio);
      SegmentsShape(sorted, width, ratio);
      SegmentsPartition(sorted, width, ratio);
      if |segs| == 1 {
        assert Flatten(segs) == segs[0] + Flatten(segs[1..]);
        assert segs[1..] == [];
        assert |segs[0]| == |sorted|;
      }
      FinalBarsNonEmpty(segs, width, ratio);
    }
  }

  /** The emitted open times ascend and lie on the grid of the new frame. */
  lemma ResampleOrdered(candledata: seq<Tuple>, baseFrame: nat, newFrame: nat)
    requires newFrame > 0
    requires ResampleOhlcvSpec(candledata, baseFrame, newFrame).Success?
    ensures TimesAscending(ResampleOhlcvSpec(candledata, baseFrame, newFrame).value)
    ensures TimesAligned(ResampleOhlcvSpec(candledata, baseFrame, newFrame).value, newFrame * 1000)
  {
    var ratio := ConvertRatio(baseFrame, newFrame);
    var width: nat := newFrame * 1000;
    if |candledata| > 0 && |candledata| >= ratio {
      SegmentKeysSorted(SortBy(candledata, TupleTime), width, ratio);
      FinalBarsOrdered(SegmentsOf(SortBy(candledata, TupleTime), width, ratio), width, ratio);
    }
  }

  // Example candles, `[time, open, high, low, close, volume]`.
  const CandleA: Tuple := [0, 1, 3, 0, 2, 5]
  const CandleB: Tuple := [60000, 2, 4, 1, 3, 7]
  const CandleC: Tuple := [2000, 2, 4, 1, 3, 7]
  const CandleD: Tuple := [4000, 3, 9, 2, 8, 1]

  /** The candle of `CandleA` followed by a candle like `CandleB` in its
      bucket. */
  lemma ExampleBar(b: Tuple, width: nat)
    requires width > 0 && KeyOf(CandleA, width) == 0
    requires b[OPEN] == 2 && b[HIGH] == 4 && b[LOW] == 1 && b[CLOSE] == 3 && b[VOLUME] == 7
    ensures BarOf([CandleA, b], width) == Bar(Some(0), 1, 4, 0, 3, 12)
  {
    BarOfSingle(CandleA, width);
    BarOfSnoc([CandleA], b, width);
    assert [CandleA] + [b] == [CandleA, b];
  }

  /** Two candles of one bucket, already in time order, make one segment
      when the ratio is 2. */
  lemma ExamplePair(b: Tuple, width: nat)
    requires width > 0 && b[TIME] > 0 && KeyOf(CandleA, width) == KeyOf(b, width)
    ensures SortBy([CandleA, b], TupleTime) == [CandleA, b]
    ensures SegmentsOf([CandleA, b], width, 2) == [[CandleA, b]]
  {
    assert [CandleA, b][..1] == [CandleA];
    ExamplePairSorted(b);
    ExamplePairSegments(b, width);
  }

  lemma ExamplePairSorted(b: Tuple)
    requires b[TIME] > 0
    ensures SortBy([CandleA, b], TupleTime) == [CandleA, b]
  {
    assert [CandleA, b][..1] == [CandleA];
    assert SortBy([CandleA], TupleTime) == [CandleA];
    assert InsertBy(b, [CandleA], TupleTime) == [CandleA] + InsertBy(b, [], TupleTime);
  }

  lemma ExamplePairSegments(b: Tuple, width: nat)
    requires width > 0 && KeyOf(CandleA, width) == KeyOf(b, width)
    ensures SegmentsOf([CandleA, b], width, 2) == [[CandleA, b]]
  {
    var s := [CandleA, b];
    assert s[..1] == [CandleA] && s[1] == b;
    assert [CandleA][..0] == [];
    var p := SegmentsOf([CandleA], width, 2);
    assert p == SegStep([], CandleA, width, 2) == [[CandleA]];
    assert SegmentsOf(s, width, 2) == SegStep(p, b, width, 2);
    assert Joins(p[0], b, width, 2);
    assert SegStep(p, b, width, 2) == [[CandleA] + [b]];
    assert [CandleA] + [b] == [CandleA, b];
  }

  /** Two one-minute candles resampled to two minutes fill one batch: the
      candle is pushed by the batch check and then once more, with a `null`
      time, by the last-candle flush. */
  lemma FullBatchRepeated()
    ensures var x := Bar(Some(0), 1, 4, 0, 3, 12);
            ResampleOhlcvSpec([CandleA, CandleB], 60, 120) == Success([x, x.(time := None)])
  {
    assert ConvertRatio(60, 120) == 2;
    assert KeyOf(CandleA, 120000) == 0 && KeyOf(CandleB, 120000) == 0;
    ExamplePair(CandleB, 120000);
    ExampleBar(CandleB, 120000);
    var x := Bar(Some(0), 1, 4, 0, 3, 12);
    assert FinalBars([[CandleA, CandleB]], 120000, 2) == [x, x.(time := None)];
  }

  /** The three candles of `TrailingSegmentDropped` are in time order. */
  lemma ExampleTripleSorted()
    ensures SortBy([CandleA, CandleC, CandleD], TupleTime) == [CandleA, CandleC, CandleD]
  {
    var a, b, c := CandleA, CandleC, CandleD;
    assert [a, b, c][..2] == [a, b];
    assert [a, b][..1] == [a];
    assert SortBy([a, b], TupleTime) == [a, b];
    assert [a, b][1..] == [b];
    assert InsertBy(c, [b], TupleTime) == [b, c];
    assert InsertBy(c, [a, b], TupleTime) == [a, b, c];
  }

  /** The three candles of `TrailingSegmentDropped` make a full segment and
      a trailing one at the same key. */
  lemma ExampleTripleSegments()
    ensures SegmentsOf([CandleA, CandleC, CandleD], 5000, 2) == [[CandleA, CandleC], [CandleD]]
  {
    var a, b, c := CandleA, CandleC, CandleD;
    assert KeyOf(a, 5000) == 0 && KeyOf(b, 5000) == 0;
    ExamplePair(b, 5000);
    assert [a, b, c][..2] == [a, b];
    assert !Joins([a, b], c, 5000, 2);
  }

  /** The trailing segment of `TrailingSegmentDropped` has the key of the
      candle pushed before it, so only the full segment is emitted. */
  lemma ExampleTripleBars()
    ensures FinalBars([[CandleA, CandleC], [CandleD]], 5000, 2) == [Bar(Some(0), 1, 4, 0, 3, 12)]
  {
    assert KeyOf(CandleA, 5000) == 0 && KeyOf(CandleD, 5000) == 0;
    ExampleBar(CandleC, 5000);
    BarOfSingle(CandleD, 5000);
  }

  /** With a 2-second base and a 5-second target the ratio is 2; three
      candles in the first bucket make a full batch and a trailing
      one-candle segment at the same key, which is not emitted. */
  lemma TrailingSegmentDropped()
    ensures ResampleOhlcvSpec([CandleA, CandleC, CandleD], 2, 5) == Success([Bar(Some(0), 1, 4, 0, 3, 12)])
  {
    assert ConvertRatio(2, 5) == 2;
    ExampleTripleSorted();
    ExampleTripleSegments();
    ExampleTripleBars();
  }

}
