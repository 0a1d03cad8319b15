/** The record model shared by every resampler: trades, candles in object
    form and in array form, the candles the candle resampler emits, the
    error kinds, and the bucket key. */
module Records {
  import opened Wrappers
  import opened SeqMath

  /** A trade (`TradeTick`): millisecond timestamp, price and quantity. */
  datatype Tick = Tick(time: nat, price: int, quantity: int)

  /** A candle in object form (`IOHLCV`). */
  datatype Candle = Candle(time: nat, open: int, high: int, low: int, close: int, volume: int)

  // Positions of the fields in an array-form candle (`OHLCVField`).
  const TIME: nat := 0
  const OPEN: nat := 1
  const HIGH: nat := 2
  const LOW: nat := 3
  const CLOSE: nat := 4
  const VOLUME: nat := 5

  /** A candle in array form (`OHLCV`): six numbers in `OHLCVField` order,
      the timestamp non-negative. */
  type Tuple = t: seq<int> | |t| == 6 && t[0] >= 0 witness [0, 0, 0, 0, 0, 0]

  /** A candle as the candle resampler pushes it, `[timeOpen, open, high,
      low, close, volume]`; its timestamp slot can hold `null`. */
  datatype Bar = Bar(time: Option<int>, open: int, high: int, low: int, close: int, volume: int)

  /** The errors the engine throws. */
  datatype Error =
    | EmptyInput       // "input OHLCV data has no candles"
    | RatioNotInteger  // "Convert ratio should integer an >= 2"
    | CountTooSmall    // "Convert cannot be smaller than 1"

  /** The opening time of the bucket of width `width` that holds `t`:
      `t - t % width`. */
  function Key(t: nat, width: nat): (k: nat)
    requires width > 0
    ensures k <= t < k + width
    ensures k % width == 0
  {
    var q := t / width;
    assert t == q * width + t % width;
    assert q * width >= 0 by { MulMono(0, q, width); }
    ModAddMultiple(0, q, width);
    t - t % width
  }

  /** Keys are monotone in time: sorting by time sorts by bucket. */
  lemma KeyMonotone(t1: nat, t2: nat, width: nat)
    requires width > 0 && t1 <= t2
    ensures Key(t1, width) <= Key(t2, width)
  {
    var q1, q2 := t1 / width, t2 / width;
    assert t1 == q1 * width + t1 % width && t2 == q2 * width + t2 % width;
    if q1 > q2 {
      MulMono(q2 + 1, q1, width);
      assert false;
    }
    MulMono(q1, q2, width);
  }

  /** Object form to array form, as at the start of the format adapter. */
  function ToTuple(c: Candle): (t: Tuple)
    ensures FromTuple(t) == c
  {
    [c.time, c.open, c.high, c.low, c.close, c.volume]
  }

  /** Array form to object form, reading each field at its `OHLCVField`
      position. */
  function FromTuple(t: Tuple): (c: Candle)
    ensures [c.time, c.open, c.high, c.low, c.close, c.volume] == t
  {
    Candle(t[TIME], t[OPEN], t[HIGH], t[LOW], t[CLOSE], t[VOLUME])
  }

  /** Placing each field at its `OHLCVField` position and reading it back
      gives the candle back. */
  lemma CandleRoundTrip(c: Candle)
    ensures FromTuple(ToTuple(c)) == c
    ensures ToTuple(c)[TIME] == c.time && ToTuple(c)[OPEN] == c.open
    ensures ToTuple(c)[HIGH] == c.high && ToTuple(c)[LOW] == c.low
    ensures ToTuple(c)[CLOSE] == c.close && ToTuple(c)[VOLUME] == c.volume
  {
  }

  /** Every array-form candle is the image of exactly one object-form one. */
  lemma TupleRoundTrip(t: Tuple)
    ensures ToTuple(FromTuple(t)) == t
  {
    var u := ToTuple(FromTuple(t));
    assert forall i :: 0 <= i < 6 ==> u[i] == t[i];
  }
}
