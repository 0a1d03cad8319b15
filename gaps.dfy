/** The gap filler `makeGapCandles`: flat, zero-volume placeholder candles on
    the grid `last.time + i * ms`, strictly between two real candles. */
module Gaps {
  import opened SeqMath
  import opened Records

  function Volume(c: Candle): int { c.volume }

  /** How many placeholders are emitted. The source's counted loop runs for
      every integer `i >= 1` with `i <= intervalGap`, where `intervalGap` is
      the real quotient `(next.time - last.time - ms) / ms`; so the count is
      its floor when it is positive, and 0 otherwise. */
  function GapCount(last: Candle, next: Candle, ms: nat): (k: nat)
    requires ms > 0
    ensures next.time - last.time - ms <= 0 ==> k == 0
    ensures next.time - last.time - ms > 0 ==>
              k * ms <= next.time - last.time - ms < k * ms + ms
  {
    var d := next.time - last.time - ms;
    if d > 0 then
      assert d == (d / ms) * ms + d % ms;
      d / ms
    else 0
  }

  /** The `i`-th placeholder after `last`. */
  function GapCandle(last: Candle, i: nat, ms: nat): (c: Candle)
    ensures c.time == last.time + i * ms && c.volume == 0
    ensures c.open == c.high == c.low == c.close == last.close
  {
    Candle(last.time + i * ms, last.close, last.close, last.close, last.close, 0)
  }

  /** The placeholders `makeGapCandles` returns, in emission order. */
  function GapCandles(last: Candle, next: Candle, ms: nat): (r: seq<Candle>)
    requires ms > 0
    ensures |r| == GapCount(last, next, ms)
    ensures forall i :: 0 <= i < |r| ==> r[i] == GapCandle(last, i + 1, ms)
  {
    seq(GapCount(last, next, ms), (i: int) requires 0 <= i => GapCandle(last, i + 1, ms))
  }

  /** The placeholders lie strictly between the two candles, one width
      apart from `last` onwards, in ascending time, flat at the close of
      `last` and without volume. */
  lemma GapCandlesShape(last: Candle, next: Candle, ms: nat)
    requires ms > 0
    ensures var r := GapCandles(last, next, ms);
            forall i :: 0 <= i < |r| ==> last.time < r[i].time < next.time
    ensures var r := GapCandles(last, next, ms);
            forall i :: 0 <= i < |r| ==> r[i].time == last.time + (i + 1) * ms
    ensures var r := GapCandles(last, next, ms);
            forall i :: 0 <= i < |r| ==>
              r[i].open == last.close && r[i].high == last.close &&
              r[i].low == last.close && r[i].close == last.close && r[i].volume == 0
    ensures var r := GapCandles(last, next, ms);
            forall i, j :: 0 <= i < j < |r| ==> r[i].time < r[j].time
  {
    var r := GapCandles(last, next, ms);
    var n := |r|;
    forall i | 0 <= i < n ensures last.time < r[i].time < next.time {
      MulMono(1, i + 1, ms);
      MulMono(i + 1, n, ms);
    }
    forall i, j | 0 <= i < j < n ensures r[i].time < r[j].time {
      MulMono(i + 2, j + 1, ms);
      assert (i + 2) * ms == (i + 1) * ms + ms;
    }
  }

  /** Loop form of `makeGapCandles`: pushes one placeholder per step of the
      counted loop. `lastCandle && nextCandle` always holds for records. */
  method MakeGapCandles(lastCandle: Candle, nextCandle: Candle, msTimeframe: nat)
    returns (gapCandles: seq<Candle>)
    requires msTimeframe > 0
    ensures gapCandles == GapCandles(lastCandle, nextCandle, msTimeframe)
  {
    gapCandles := [];
    // intervalGap * msTimeframe, so that `i <= intervalGap` reads `i * msTimeframe <= gap`
    var gap := nextCandle.time - lastCandle.time - msTimeframe;
    if gap > 0 {
      var i: nat := 1;
      while i * msTimeframe <= gap
        invariant 1 <= i
        invariant (i - 1) * msTimeframe <= gap
        invariant |gapCandles| == i - 1
        invariant forall k :: 0 <= k < i - 1 ==>
                    gapCandles[k] == GapCandle(lastCandle, k + 1, msTimeframe)
        decreases gap - (i - 1) * msTimeframe
      {
        gapCandles := gapCandles + [Candle(lastCandle.time + i * msTimeframe,
                                           lastCandle.close, lastCandle.close,
                                           lastCandle.close, lastCandle.close, 0)];
        assert i * msTimeframe == (i - 1) * msTimeframe + msTimeframe;
        i := i + 1;
      }
      assert (i - 1) * msTimeframe + msTimeframe == i * msTimeframe;
      FloorDivUnique(gap, msTimeframe, i - 1);
    }
  }

  /** Placeholders after a candle on the grid stay on the grid. */
  lemma GapsAligned(last: Candle, next: Candle, ms: nat)
    requires ms > 0 && last.time % ms == 0
    ensures forall c :: c in GapCandles(last, next, ms) ==> c.time % ms == 0
  {
    var r := GapCandles(last, next, ms);
    forall i | 0 <= i < |r| ensures r[i].time % ms == 0 {
      assert r[i].time == last.time + (i + 1) * ms;
      ModAddMultiple(last.time, i + 1, ms);
    }
  }

  /** Between two candles on the grid, the placeholders complete the grid:
      the first is one width after `last`, each is one width after the one
      before, and `next` is one width after the final one (or after `last`
      when there are none). */
  lemma GapsCloseGrid(last: Candle, next: Candle, ms: nat)
    requires ms > 0 && last.time % ms == 0 && next.time % ms == 0
    requires last.time < next.time
    ensures last.time + (GapCount(last, next, ms) + 1) * ms == next.time
    ensures var r := GapCandles(last, next, ms);
            forall i :: 0 <= i < |r| - 1 ==> r[i + 1].time == r[i].time + ms
  {
    var ql, qn := last.time / ms, next.time / ms;
    assert last.time == ql * ms;
    assert next.time == qn * ms;
    var m := qn - ql;
    assert next.time - last.time == m * ms;
    if m <= 0 {
      MulMono(m, 0, ms);
      assert false;
    }
    var d := next.time - last.time - ms;
    assert d == (m - 1) * ms;
    if m >= 2 {
      MulMono(1, m - 1, ms);
      FloorDivUnique(d, ms, m - 1);
    }
    var r := GapCandles(last, next, ms);
    forall i | 0 <= i < |r| - 1 ensures r[i + 1].time == r[i].time + ms {
      assert (i + 2) * ms == (i + 1) * ms + ms;
    }
  }

  /** Placeholders carry no volume. */
  lemma {:induction false} GapsVolume(gaps: seq<Candle>)
    requires forall i :: 0 <= i < |gaps| ==> gaps[i].volume == 0
    ensures SumBy(gaps, Volume) == 0
    decreases |gaps|
  {
    if |gaps| > 0 {
      GapsVolume(gaps[..|gaps| - 1]);
    }
  }

  /** Two or more widths apart, the first placeholder opens one width after
      the earlier candle. */
  lemma FirstGap(last: Candle, next: Candle, ms: nat)
    requires ms > 0 && last.time + 2 * ms <= next.time
    ensures |GapCandles(last, next, ms)| >= 1
    ensures GapCandles(last, next, ms)[0] == Candle(last.time + ms, last.close, last.close, last.close, last.close, 0)
  {
    assert GapCount(last, next, ms) >= 1;
  }
}
