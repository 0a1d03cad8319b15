/** The tick aggregator `tickGroupToOhlcv`: one group of trades folded into
    one candle. */
module Aggregate {
  import opened SeqMath
  import opened Records

  function Price(t: Tick): int { t.price }

  function Quantity(t: Tick): int { t.quantity }

  /** Sum of the quantities of `ticks` (lodash `sum`, 0 when empty). */
  function QuantitySum(ticks: seq<Tick>): int { SumBy(ticks, Quantity) }

  /** The candle of the group `ticks` opened at `time`. An empty group gives
      zeros, as `prices[0] || 0` and `max([]) || 0` do. */
  function TickGroupToOhlcv(time: nat, ticks: seq<Tick>): (c: Candle)
    ensures c.time == time
    ensures c.volume == QuantitySum(ticks)
    ensures |ticks| == 0 ==> c == Candle(time, 0, 0, 0, 0, 0)
    ensures |ticks| > 0 ==> c.open == ticks[0].price && c.close == ticks[|ticks| - 1].price
    ensures |ticks| > 0 ==> exists i :: 0 <= i < |ticks| && c.high == ticks[i].price
    ensures forall i :: 0 <= i < |ticks| ==> ticks[i].price <= c.high
    ensures |ticks| > 0 ==> exists i :: 0 <= i < |ticks| && c.low == ticks[i].price
    ensures forall i :: 0 <= i < |ticks| ==> c.low <= ticks[i].price
    ensures |ticks| > 0 ==> c.low <= c.open <= c.high && c.low <= c.close <= c.high
  {
    if |ticks| == 0 then Candle(time, 0, 0, 0, 0, QuantitySum(ticks))
    else
      Candle(time, ticks[0].price, MaxBy(ticks, Price), MinBy(ticks, Price),
             ticks[|ticks| - 1].price, QuantitySum(ticks))
  }
}
