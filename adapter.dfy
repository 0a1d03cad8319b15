/** The format adapter `resampleOhlcv`: it takes candles in array form or in
    object form, rejects an empty input, converts object candles to arrays,
    runs the candle resampler and returns the result in the input's form. */
module FormatAdapter {
  import opened Wrappers
  import opened Records
  import opened CandleResampler

  /** The input: array-form candles (`OHLCV[]`) or object-form candles
      (`IOHLCV[]`); the form is what `isPlainObject(ohlcvData[0])` decides. */
  datatype Series = Rows(rows: seq<Tuple>) | Objects(candles: seq<Candle>)

  /** The output, in the form of the input. Object-form output candles are
      rebuilt field by field from the emitted arrays, so both forms carry the
      same `Bar`s, `null` time included. */
  datatype Resampled = RowsOut(bars: seq<Bar>) | ObjectsOut(bars: seq<Bar>)

  function Length(data: Series): nat
  {
    match data
    case Rows(rows) => |rows|
    case Objects(candles) => |candles|
  }

  /** Each object candle becomes the array of its six fields, time first
      and volume last; the list keeps its order and length. */
  function ToRows(candles: seq<Candle>): (rows: seq<Tuple>)
    ensures |rows| == |candles|
    ensures forall i :: 0 <= i < |rows| ==> FromTuple(rows[i]) == candles[i]
  {
    seq(|candles|, (i: int) requires 0 <= i < |candles| => ToTuple(candles[i]))
  }

  /** The array-form candles the resampler is given: one per input candle,
      each standing for the object candle at its position. */
  function RowsOf(data: Series): (r: seq<Tuple>)
    ensures |r| == Length(data)
    ensures data.Objects? ==> forall i :: 0 <= i < |r| ==> FromTuple(r[i]) == data.candles[i]
  {
    match data
    case Rows(rows) => rows
    case Objects(candles) => ToRows(candles)
  }

  /** `resampleOhlcv(ohlcvData, { baseTimeframe, newTimeframe })`. */
  method ResampleOhlcv(data: Series, baseTimeframe: nat, newTimeframe: nat) returns (r: Result<Resampled, Error>)
    requires newTimeframe > 0
    ensures Length(data) == 0 ==> r == Failure(EmptyInput)
    ensures Length(data) > 0 && baseTimeframe == 0 ==> r == Failure(RatioNotInteger)
    ensures Length(data) > 0 && baseTimeframe > 0 ==>
              r.Success? && r.value.RowsOut? == data.Rows? &&
              Success(r.value.bars) == ResampleOhlcvSpec(RowsOf(data), baseTimeframe, newTimeframe)
  {
    if Length(data) == 0 {
      return Failure(EmptyInput);
    }
    match data
    case Objects(candles) =>
      var candledata := ToRows(candles);
      var result := ResampleOhlcvArray(candledata, baseTimeframe, newTimeframe);
      if result.Failure? {
        return Failure(result.error);
      }
      return Success(ObjectsOut(result.value));
    case Rows(rows) =>
      var result := ResampleOhlcvArray(rows, baseTimeframe, newTimeframe);
      if result.Failure? {
        return Failure(result.error);
      }
      return Success(RowsOut(result.value));
  }

  /** Converting object candles to arrays loses nothing: the arrays of the
      objects of some arrays are those arrays, so the object form and the
      array form of the same candles give the same result. */
  lemma FormsAgree(rows: seq<Tuple>, baseTimeframe: nat, newTimeframe: nat)
    requires newTimeframe > 0
    ensures var candles := seq(|rows|, (i: int) requires 0 <= i < |rows| => FromTuple(rows[i]));
            ResampleOhlcvSpec(RowsOf(Objects(candles)), baseTimeframe, newTimeframe) ==
            ResampleOhlcvSpec(RowsOf(Rows(rows)), baseTimeframe, newTimeframe)
  {
    var candles := seq(|rows|, (i: int) requires 0 <= i < |rows| => FromTuple(rows[i]));
    var back := ToRows(candles);
    forall i | 0 <= i < |rows| ensures back[i] == rows[i] {
      TupleRoundTrip(rows[i]);
    }
    assert RowsOf(Objects(candles)) == rows;
  }
}
