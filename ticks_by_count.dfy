/** The count-bucketed tick resampler `resampleTicksByCount`: trades cut into
    consecutive chunks of `tickCount`, one candle per chunk, in chunk order. */
module TicksByCount {
  import opened Wrappers
  import opened SeqMath
  import opened Records
  import opened Aggregate

  /** lodash's `chunk`: consecutive pieces of `size` elements, the last one
      possibly shorter. */
  function Chunks<T>(s: seq<T>, size: nat): (cs: seq<seq<T>>)
    requires size >= 1
    ensures forall i :: 0 <= i < |cs| ==> 0 < |cs[i]| <= size
    decreases |s|
  {
    if |s| == 0 then []
    else if |s| <= size then [s]
    else [s[..size]] + Chunks(s[size..], size)
  }

  /** The chunks cut the input: concatenated, they give it back, and all but
      the last hold exactly `size` elements. */
  lemma {:induction false} ChunksPartition<T>(s: seq<T>, size: nat)
    requires size >= 1
    ensures Flatten(Chunks(s, size)) == s
    ensures var cs := Chunks(s, size); forall i :: 0 <= i < |cs| - 1 ==> |cs[i]| == size
    decreases |s|
  {
    var cs := Chunks(s, size);
    if |s| == 0 {
    } else if |s| <= size {
      assert Flatten([s]) == s + Flatten([s][1..]);
    } else {
      var rest := Chunks(s[size..], size);
      ChunksPartition(s[size..], size);
      assert cs == [s[..size]] + rest;
      assert cs[1..] == rest;
      assert s == s[..size] + s[size..];
      forall i | 0 <= i < |cs| - 1 ensures |cs[i]| == size {
        if i > 0 {
          assert cs[i] == rest[i - 1];
        }
      }
    }
  }

  /** There are `ceil(|s| / size)` chunks. */
  lemma {:induction false} ChunkCount<T>(s: seq<T>, size: nat)
    requires size >= 1
    ensures |Chunks(s, size)| == (|s| + size - 1) / size
    decreases |s|
  {
    if |s| == 0 {
      FloorDivUnique(size - 1, size, 0);
    } else if |s| <= size {
      FloorDivUnique(|s| + size - 1, size, 1);
    } else {
      ChunkCount(s[size..], size);
      DivPlusOne(|s| - size + size - 1, size);
    }
  }

  /** The `i`-th chunk is the slice of the input from `i * size` up to
      `(i + 1) * size` or the end. */
  lemma {:induction false} ChunkBounds<T>(s: seq<T>, size: nat, i: nat)
    requires size >= 1 && i < |Chunks(s, size)|
    ensures i * size < Min((i + 1) * size, |s|) <= |s|
    ensures Chunks(s, size)[i] == s[i * size .. Min((i + 1) * size, |s|)]
    decreases |s|
  {
    if i == 0 {
      assert (i + 1) * size == size;
    } else {
      assert |s| > size;
      var rest := s[size..];
      assert Chunks(s, size) == [s[..size]] + Chunks(rest, size);
      assert Chunks(s, size)[i] == Chunks(rest, size)[i - 1];
      ChunkBounds(rest, size, i - 1);
      ShiftedBounds(i, size, |s|);
      MulMono(0, i - 1, size);
      var a, b := (i - 1) * size, Min(i * size, |rest|);
      assert Chunks(rest, size)[i - 1] == rest[a..b];
      SliceShift(s, size, a, b);
      assert size + a == i * size && size + b == Min((i + 1) * size, |s|);
    }
  }

  /** The bounds of chunk `i` are those of chunk `i - 1` of the rest, moved
      by one chunk. */
  lemma ShiftedBounds(i: nat, size: nat, n: nat)
    requires size >= 1 && i >= 1 && size <= n
    ensures (i - 1) * size + size == i * size
    ensures Min(i * size, n - size) + size == Min((i + 1) * size, n)
  {
    assert (i + 1) * size == i * size + size;
  }

  lemma SliceShift<T>(s: seq<T>, k: nat, a: nat, b: nat)
    requires k <= |s| && a <= b <= |s| - k
    ensures s[k..][a..b] == s[k + a .. k + b]
  {
  }

  /** The last trade of the `i`-th chunk is the input's trade at
      `min((i + 1) * size, |s|) - 1`. */
  lemma ChunkLast<T>(s: seq<T>, size: nat, i: nat)
    requires size >= 1 && i < |Chunks(s, size)|
    ensures var c, hi := Chunks(s, size)[i], Min((i + 1) * size, |s|);
            0 < hi <= |s| && c[|c| - 1] == s[hi - 1]
  {
    ChunkBounds(s, size, i);
    MulMono(0, i, size);
    SliceLast(s, i * size, Min((i + 1) * size, |s|));
  }

  lemma SliceLast<T>(s: seq<T>, lo: nat, hi: nat)
    requires lo < hi <= |s|
    ensures var c := s[lo..hi]; c[|c| - 1] == s[hi - 1]
  {
  }

  /** The candle of one chunk, opened at the time of its last trade. */
  function ChunkCandle(ticks: seq<Tick>): (c: Candle)
    requires |ticks| > 0
    ensures c.time == ticks[|ticks| - 1].time
    ensures c.open == ticks[0].price && c.close == ticks[|ticks| - 1].price
    ensures c.volume == QuantitySum(ticks)
  {
    TickGroupToOhlcv(ticks[|ticks| - 1].time, ticks)
  }

  /** One candle per chunk, in chunk order. */
  function CountCandles(ticks: seq<Tick>, size: nat): (cs: seq<Candle>)
    requires size >= 1
    ensures |cs| == |Chunks(ticks, size)|
    ensures forall i :: 0 <= i < |cs| ==> cs[i] == ChunkCandle(Chunks(ticks, size)[i])
  {
    var chunks := Chunks(ticks, size);
    seq(|chunks|, (i: int) requires 0 <= i < |chunks| => ChunkCandle(chunks[i]))
  }

  /** There are `ceil(|ticks| / size)` candles. */
  lemma CountCandlesCount(ticks: seq<Tick>, size: nat)
    requires size >= 1
    ensures |CountCandles(ticks, size)| == (|ticks| + size - 1) / size
  {
    ChunkCount(ticks, size);
  }

  /** The `i`-th candle is opened at the time of the input's trade at
      `min((i + 1) * size, |ticks|) - 1`, the last of its chunk. */
  lemma CountCandleTime(ticks: seq<Tick>, size: nat, i: nat)
    requires size >= 1 && i < |CountCandles(ticks, size)|
    ensures var hi := Min((i + 1) * size, |ticks|);
            0 < hi <= |ticks| && CountCandles(ticks, size)[i].time == ticks[hi - 1].time
  {
    ChunkLast(ticks, size, i);
  }

  /** `resampleTicksByCount`: throws when `tickCount < 1`; otherwise one
      candle per chunk, opened at the time of the chunk's last trade. */
  method ResampleTicksByCount(tickData: seq<Tick>, tickCount: int) returns (r: Result<seq<Candle>, Error>)
    ensures tickCount < 1 ==> r == Failure(CountTooSmall)
    ensures tickCount >= 1 ==> r == Success(CountCandles(tickData, tickCount))
  {
    if tickCount < 1 {
      return Failure(CountTooSmall);
    }
    var candles: seq<Candle> := [];
    var tickGroups: seq<seq<Tick>> := Chunks(tickData, tickCount);
    var n := 0;
    while n < |tickGroups|
      invariant 0 <= n <= |tickGroups|
      invariant |candles| == n
      invariant forall i :: 0 <= i < n ==> candles[i] == ChunkCandle(tickGroups[i])
    {
      var ticks := tickGroups[n];
      candles := candles + [TickGroupToOhlcv(ticks[|ticks| - 1].time, ticks)];
      n := n + 1;
    }
    assert candles == CountCandles(tickData, tickCount);
    return Success(candles);
  }
}
