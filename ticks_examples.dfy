/** Worked examples of `resampleTicksByTime` on trades that do not arrive in
    time order, where placeholder filling follows the order in which the
    buckets were created rather than their times. */
module TicksByTimeExamples {
  import opened SeqMath
  import opened Records
  import opened Sorting
  import opened Aggregate
  import opened Gaps
  import opened TicksByTime

  /** JavaScript lists the property names of an object that are array
      indices (integers below 2^32 - 1) in ascending order, and all others
      in creation order. Bucket keys from this bound up, which every
      millisecond timestamp after early 1970 gives, are therefore listed in
      the order `groupBy` created them, the order `KeysOf` gives; the
      examples below hold for such keys. */
  const IndexBound: nat := 4294967295

  /** The candle of a one-trade group is flat at the trade's price. */
  lemma OneTradeCandle(time: nat, t: Tick)
    ensures TickGroupToOhlcv(time, [t]) == Candle(time, t.price, t.price, t.price, t.price, t.quantity)
  {
    assert [t][..0] == [];
    assert SumBy([t], Quantity) == SumBy([t][..0], Quantity) + t.quantity;
  }

  /** Two trades whose buckets are more than one width apart, the later
      bucket first: the buckets and groups in creation order. */
  lemma LateFirstGroups(late: Tick, early: Tick, ms: nat)
    requires ms > 0 && TickKey(early, ms) + ms < TickKey(late, ms)
    ensures KeysOf([late, early], ms) == [TickKey(late, ms), TickKey(early, ms)]
    ensures GroupOf([late, early], ms, TickKey(late, ms)) == [late]
    ensures GroupOf([late, early], ms, TickKey(early, ms)) == [early]
  {
    var kl, ke := TickKey(late, ms), TickKey(early, ms);
    KeysOfSnoc([], late, ms);
    GroupOfSnoc([], late, ms, kl);
    GroupOfSnoc([], late, ms, ke);
    assert [] + [late] == [late];
    KeysOfSnoc([late], early, ms);
    GroupOfSnoc([late], early, ms, kl);
    GroupOfSnoc([late], early, ms, ke);
    assert [late] + [early] == [late, early];
  }

  /** The candles of a single bucket: just its own. */
  lemma CandlesOfOne(ticks: seq<Tick>, ms: nat, k: nat, fillGaps: bool)
    requires ms > 0
    ensures CandlesOf(ticks, ms, [k], fillGaps) == [TickGroupToOhlcv(k, GroupOf(ticks, ms, k))]
  {
    CandlesOfSnoc(ticks, ms, [], k, fillGaps);
    assert [] + [k] == [k];
  }

  /** The candles of the two trades before sorting, later bucket first. */
  lemma LateFirstCandles(late: Tick, early: Tick, ms: nat)
    requires ms > 0 && TickKey(early, ms) + ms < TickKey(late, ms)
    requires TickKey(early, ms) >= IndexBound
    ensures CandlesOf([late, early], ms, KeysOf([late, early], ms), true)
         == [Candle(TickKey(late, ms), late.price, late.price, late.price, late.price, late.quantity),
             Candle(TickKey(early, ms), early.price, early.price, early.price, early.price, early.quantity)]
  {
    var ts := [late, early];
    var kl, ke := TickKey(late, ms), TickKey(early, ms);
    var cl := Candle(kl, late.price, late.price, late.price, late.price, late.quantity);
    var ce := Candle(ke, early.price, early.price, early.price, early.price, early.quantity);
    LateFirstGroups(late, early, ms);
    OneTradeCandle(kl, late);
    OneTradeCandle(ke, early);
    CandlesOfOne(ts, ms, kl, true);
    CandlesOfSnoc(ts, ms, [kl], ke, true);
    assert [kl] + [ke] == [kl, ke];
    assert GapCandles(cl, ce, ms) == [];
  }

  /** Sorting two candles that are out of order swaps them. */
  lemma SortTwo(c1: Candle, c0: Candle)
    requires c0.time < c1.time
    ensures SortBy([c1, c0], CandleTime) == [c0, c1]
  {
    assert [c1, c0][..1] == [c1] && [c1][..0] == [];
    assert SortBy([c1], CandleTime) == [c1];
    assert InsertBy(c0, [c1], CandleTime) == [c0, c1];
  }

  /** Trades out of time order with `fillGaps` set: the later bucket is
      created first, so no placeholder is made between the two buckets, and
      after sorting the result jumps from the earlier bucket to the later
      one with the buckets between them missing. */
  lemma UnorderedTradesLeaveGap(late: Tick, early: Tick, ms: nat)
    requires ms > 0 && TickKey(early, ms) + ms < TickKey(late, ms)
    requires TickKey(early, ms) >= IndexBound
    ensures var r := ResampledTicks([late, early], ms, true, true);
            r == [Candle(TickKey(early, ms), early.price, early.price, early.price, early.price, early.quantity),
                  Candle(TickKey(late, ms), late.price, late.price, late.price, late.price, late.quantity)]
            && !Contiguous(r, ms)
  {
    LateFirstCandles(late, early, ms);
    SortTwo(Candle(TickKey(late, ms), late.price, late.price, late.price, late.price, late.quantity),
            Candle(TickKey(early, ms), early.price, early.price, early.price, early.price, early.quantity));
  }

  /** Three trades fall into the groups of their own keys, in input order. */
  lemma GroupOfThree(a: Tick, b: Tick, c: Tick, ms: nat, k: nat)
    requires ms > 0
    ensures GroupOf([a, b, c], ms, k)
         == (if TickKey(a, ms) == k then [a] else []) + (if TickKey(b, ms) == k then [b] else [])
            + (if TickKey(c, ms) == k then [c] else [])
  {
    GroupOfSnoc([], a, ms, k);
    assert [] + [a] == [a];
    GroupOfSnoc([a], b, ms, k);
    assert [a] + [b] == [a, b];
    GroupOfSnoc([a, b], c, ms, k);
    assert [a, b] + [c] == [a, b, c];
  }

  /** Three trades with distinct keys give their keys in input order. */
  lemma KeysOfThree(a: Tick, b: Tick, c: Tick, ms: nat)
    requires ms > 0
    requires TickKey(a, ms) != TickKey(b, ms) && TickKey(c, ms) != TickKey(a, ms) && TickKey(c, ms) != TickKey(b, ms)
    ensures KeysOf([a, b, c], ms) == [TickKey(a, ms), TickKey(b, ms), TickKey(c, ms)]
  {
    KeysOfSnoc([], a, ms);
    assert [] + [a] == [a];
    KeysOfSnoc([a], b, ms);
    assert [a] + [b] == [a, b];
    KeysOfSnoc([a, b], c, ms);
    assert [a, b] + [c] == [a, b, c];
  }

  /** Three trades, the third in the bucket right after the first one's and
      the second at least two widths after the first one's: their buckets
      in creation order, each holding one trade. */
  lemma LateSecondGroups(a: Tick, b: Tick, c: Tick, ms: nat)
    requires ms > 0
    requires TickKey(a, ms) + 2 * ms <= TickKey(b, ms) && TickKey(c, ms) == TickKey(a, ms) + ms
    ensures KeysOf([a, b, c], ms) == [TickKey(a, ms), TickKey(b, ms), TickKey(c, ms)]
    ensures GroupOf([a, b, c], ms, TickKey(a, ms)) == [a]
    ensures GroupOf([a, b, c], ms, TickKey(b, ms)) == [b]
    ensures GroupOf([a, b, c], ms, TickKey(c, ms)) == [c]
  {
    KeysOfThree(a, b, c, ms);
    GroupOfThree(a, b, c, ms, TickKey(a, ms));
    GroupOfThree(a, b, c, ms, TickKey(b, ms));
    GroupOfThree(a, b, c, ms, TickKey(c, ms));
  }

  /** The candles of the first two of those three trades: the first
      candle, the placeholders up to the second one, and the second candle. */
  lemma LateSecondFirstBuckets(a: Tick, b: Tick, c: Tick, ms: nat)
    requires ms > 0
    requires TickKey(a, ms) + 2 * ms <= TickKey(b, ms) && TickKey(c, ms) == TickKey(a, ms) + ms
    requires TickKey(a, ms) >= IndexBound
    ensures var ca := Candle(TickKey(a, ms), a.price, a.price, a.price, a.price, a.quantity);
            var cb := Candle(TickKey(b, ms), b.price, b.price, b.price, b.price, b.quantity);
            CandlesOf([a, b, c], ms, [TickKey(a, ms), TickKey(b, ms)], true) == [ca] + GapCandles(ca, cb, ms) + [cb]
  {
    var ts := [a, b, c];
    var ka, kb := TickKey(a, ms), TickKey(b, ms);
    LateSecondGroups(a, b, c, ms);
    OneTradeCandle(ka, a);
    OneTradeCandle(kb, b);
    CandlesOfOne(ts, ms, ka, true);
    CandlesOfSnoc(ts, ms, [ka], kb, true);
    assert [ka] + [kb] == [ka, kb];
  }

  /** The candles of those three trades before sorting: the third candle
      follows with no placeholder before it because it is earlier. */
  lemma LateSecondCandles(a: Tick, b: Tick, c: Tick, ms: nat)
    requires ms > 0
    requires TickKey(a, ms) + 2 * ms <= TickKey(b, ms) && TickKey(c, ms) == TickKey(a, ms) + ms
    requires TickKey(a, ms) >= IndexBound
    ensures var ca := Candle(TickKey(a, ms), a.price, a.price, a.price, a.price, a.quantity);
            var cb := Candle(TickKey(b, ms), b.price, b.price, b.price, b.price, b.quantity);
            var cc := Candle(TickKey(c, ms), c.price, c.price, c.price, c.price, c.quantity);
            CandlesOf([a, b, c], ms, KeysOf([a, b, c], ms), true) == [ca] + GapCandles(ca, cb, ms) + [cb, cc]
  {
    var ts := [a, b, c];
    var ka, kb, kc := TickKey(a, ms), TickKey(b, ms), TickKey(c, ms);
    var ca := Candle(ka, a.price, a.price, a.price, a.price, a.quantity);
    var cb := Candle(kb, b.price, b.price, b.price, b.price, b.quantity);
    var cc := Candle(kc, c.price, c.price, c.price, c.price, c.quantity);
    LateSecondGroups(a, b, c, ms);
    OneTradeCandle(kc, c);
    LateSecondFirstBuckets(a, b, c, ms);
    var prev := [ca] + GapCandles(ca, cb, ms) + [cb];
    CandlesOfSnoc(ts, ms, [ka, kb], kc, true);
    assert [ka, kb] + [kc] == [ka, kb, kc];
    assert prev[|prev| - 1] == cb;
    assert GapCandles(cb, cc, ms) == [];
  }

  /** Trades out of time order with `fillGaps` set: the placeholders made
      between the first two buckets include one at the time of the third
      bucket, so the result holds both that placeholder and the third
      trade's candle at the same time. */
  lemma UnorderedTradesDuplicateTime(a: Tick, b: Tick, c: Tick, ms: nat)
    requires ms > 0
    requires TickKey(a, ms) + 2 * ms <= TickKey(b, ms) && TickKey(c, ms) == TickKey(a, ms) + ms
    requires TickKey(a, ms) >= IndexBound
    ensures var r := ResampledTicks([a, b, c], ms, true, true);
            Candle(TickKey(c, ms), a.price, a.price, a.price, a.price, 0) in r
            && Candle(TickKey(c, ms), c.price, c.price, c.price, c.price, c.quantity) in r
  {
    var ts := [a, b, c];
    var ka, kb, kc := TickKey(a, ms), TickKey(b, ms), TickKey(c, ms);
    var ca := Candle(ka, a.price, a.price, a.price, a.price, a.quantity);
    var cb := Candle(kb, b.price, b.price, b.price, b.price, b.quantity);
    var cc := Candle(kc, c.price, c.price, c.price, c.price, c.quantity);
    LateSecondCandles(a, b, c, ms);
    var gs := GapCandles(ca, cb, ms);
    var all := [ca] + gs + [cb, cc];
    FirstGap(ca, cb, ms);
    var placeholder := Candle(kc, a.price, a.price, a.price, a.price, 0);
    assert gs[0] == placeholder;
    assert all[1] == placeholder;
    assert all[|all| - 1] == cc;
    KeptInResult(ts, ms, true, placeholder);
    KeptInResult(ts, ms, true, cc);
  }

  /** One trade three minutes after another, arriving first; one-minute
      candles: the two minutes between them get no placeholder. */
  lemma LateFirstExample()
    ensures ResampledTicks([Tick(1700000220000, 5, 1), Tick(1700000040000, 4, 1)], 60000, true, true)
         == [Candle(1700000040000, 4, 4, 4, 4, 1), Candle(1700000220000, 5, 5, 5, 5, 1)]
  {
    assert TickKey(Tick(1700000220000, 5, 1), 60000) == 1700000220000;
    assert TickKey(Tick(1700000040000, 4, 1), 60000) == 1700000040000;
    UnorderedTradesLeaveGap(Tick(1700000220000, 5, 1), Tick(1700000040000, 4, 1), 60000);
  }
}
