/** The time-bucketed tick resampler `resampleTicksByTime`: trades grouped
    by the opening time of their bucket, one candle per group, optional
    placeholders between consecutive candles, a stable sort by time, and
    optionally the latest candle dropped. */
module TicksByTime {
  import opened SeqMath
  import opened Records
  import opened Sorting
  import opened Aggregate
  import opened Gaps

  function TickKey(t: Tick, ms: nat): nat
    requires ms > 0
  {
    Key(t.time, ms)
  }

  function CandleTime(c: Candle): int { c.time }

  /** The distinct bucket keys of `ticks` in order of first occurrence: the
      order in which lodash's `groupBy` creates its groups. */
  function KeysOf(ticks: seq<Tick>, ms: nat): (ks: seq<nat>)
    requires ms > 0
    ensures |ks| <= |ticks|
    ensures |ticks| > 0 ==> |ks| > 0
    decreases |ticks|
  {
    if |ticks| == 0 then []
    else
      var ks := KeysOf(ticks[..|ticks| - 1], ms);
      var k := TickKey(ticks[|ticks| - 1], ms);
      if k in ks then ks else ks + [k]
  }

  /** The listed keys are distinct and on the bucket grid. */
  lemma {:induction false} KeysOfShape(ticks: seq<Tick>, ms: nat)
    requires ms > 0
    ensures forall a, b :: 0 <= a < b < |KeysOf(ticks, ms)| ==> KeysOf(ticks, ms)[a] != KeysOf(ticks, ms)[b]
    ensures forall a :: 0 <= a < |KeysOf(ticks, ms)| ==> KeysOf(ticks, ms)[a] % ms == 0
    decreases |ticks|
  {
    if |ticks| > 0 {
      var ks := KeysOf(ticks[..|ticks| - 1], ms);
      var k := TickKey(ticks[|ticks| - 1], ms);
      KeysOfShape(ticks[..|ticks| - 1], ms);
      if k !in ks {
        var r := ks + [k];
        assert KeysOf(ticks, ms) == r;
        forall a, b | 0 <= a < b < |r| ensures r[a] != r[b] {
          if b == |ks| {
            assert r[a] == ks[a] && ks[a] in ks;
          } else {
            assert r[a] == ks[a] && r[b] == ks[b];
          }
        }
      }
    }
  }

  /** The keys listed are exactly the keys of the ticks. */
  lemma {:induction false} KeysOfMembers(ticks: seq<Tick>, ms: nat)
    requires ms > 0
    ensures forall k :: k in KeysOf(ticks, ms) <==> exists i :: 0 <= i < |ticks| && TickKey(ticks[i], ms) == k
    decreases |ticks|
  {
    if |ticks| > 0 {
      var init := ticks[..|ticks| - 1];
      KeysOfMembers(init, ms);
      assert forall i :: 0 <= i < |init| ==> init[i] == ticks[i];
      forall k | k in KeysOf(ticks, ms) ensures exists i :: 0 <= i < |ticks| && TickKey(ticks[i], ms) == k {
        if k in KeysOf(init, ms) {
          var i :| 0 <= i < |init| && TickKey(init[i], ms) == k;
          assert TickKey(ticks[i], ms) == k;
        } else {
          assert TickKey(ticks[|ticks| - 1], ms) == k;
        }
      }
      forall k | exists i :: 0 <= i < |ticks| && TickKey(ticks[i], ms) == k ensures k in KeysOf(ticks, ms) {
        var i :| 0 <= i < |ticks| && TickKey(ticks[i], ms) == k;
        if i < |init| {
          assert TickKey(init[i], ms) == k;
        }
      }
    }
  }

  /** The group of key `k`: the ticks whose key is `k`, in input order. */
  function GroupOf(ticks: seq<Tick>, ms: nat, k: nat): (g: seq<Tick>)
    requires ms > 0
    ensures forall i :: 0 <= i < |g| ==> TickKey(g[i], ms) == k
    decreases |ticks|
  {
    if |ticks| == 0 then []
    else
      var g := GroupOf(ticks[..|ticks| - 1], ms, k);
      if TickKey(ticks[|ticks| - 1], ms) == k then g + [ticks[|ticks| - 1]] else g
  }

  /** A key that is not listed has an empty group. */
  lemma {:induction false} GroupOfUnlisted(ticks: seq<Tick>, ms: nat, k: nat)
    requires ms > 0 && k !in KeysOf(ticks, ms)
    ensures GroupOf(ticks, ms, k) == []
    decreases |ticks|
  {
    if |ticks| > 0 {
      GroupOfUnlisted(ticks[..|ticks| - 1], ms, k);
    }
  }

  /** Every trade with key `k2` comes after some trade with key `k1`: the
      first trade of `k1` is earlier than the first trade of `k2`. */
  ghost predicate FirstBefore(ticks: seq<Tick>, ms: nat, k1: nat, k2: nat)
    requires ms > 0
  {
    forall j :: 0 <= j < |ticks| && TickKey(ticks[j], ms) == k2 ==>
      exists i :: 0 <= i < j && TickKey(ticks[i], ms) == k1
  }

  /** The keys are listed in order of first occurrence among the trades. */
  lemma {:induction false} KeysOfFirstOccurrence(ticks: seq<Tick>, ms: nat)
    requires ms > 0
    ensures forall a, b :: 0 <= a < b < |KeysOf(ticks, ms)| ==>
              FirstBefore(ticks, ms, KeysOf(ticks, ms)[a], KeysOf(ticks, ms)[b])
    decreases |ticks|
  {
    if |ticks| > 0 {
      var init := ticks[..|ticks| - 1];
      var t := ticks[|ticks| - 1];
      var ks := KeysOf(init, ms);
      var k := TickKey(t, ms);
      KeysOfFirstOccurrence(init, ms);
      KeysOfMembers(init, ms);
      var r := KeysOf(ticks, ms);
      assert forall i :: 0 <= i < |init| ==> init[i] == ticks[i];
      forall a, b | 0 <= a < b < |r| ensures FirstBefore(ticks, ms, r[a], r[b]) {
        assert r[a] == ks[a];
        var ka := ks[a];
        assert ka in ks;
        var w :| 0 <= w < |init| && TickKey(init[w], ms) == ka;
        forall j | 0 <= j < |ticks| && TickKey(ticks[j], ms) == r[b]
          ensures exists i :: 0 <= i < j && TickKey(ticks[i], ms) == ka
        {
          if j < |init| {
            assert TickKey(init[j], ms) == r[b];
            assert r[b] in ks;
            assert b < |ks|;
            assert FirstBefore(init, ms, ks[a], ks[b]);
            assert TickKey(init[j], ms) == ks[b];
            var i :| 0 <= i < j && TickKey(init[i], ms) == ka;
            assert TickKey(ticks[i], ms) == ka;
          } else {
            assert TickKey(ticks[w], ms) == ka;
          }
        }
      }
    }
  }

  /** The positions of the trades with key `k`, ascending. */
  ghost function KeyPositions(ticks: seq<Tick>, ms: nat, k: nat): seq<nat>
    requires ms > 0
    decreases |ticks|
  {
    if |ticks| == 0 then []
    else KeyPositions(ticks[..|ticks| - 1], ms, k) + (if TickKey(ticks[|ticks| - 1], ms) == k then [|ticks| - 1] else [])
  }

  /** The group of `k` holds exactly the trades with key `k`, in input
      order: its `m`-th trade is at the `m`-th position of key `k`, the
      positions ascend, and every trade with key `k` is at one of them. */
  lemma GroupOfComplete(ticks: seq<Tick>, ms: nat, k: nat)
    requires ms > 0
    ensures var g, p := GroupOf(ticks, ms, k), KeyPositions(ticks, ms, k);
            && |g| == |p|
            && (forall m :: 0 <= m < |p| ==> p[m] < |ticks| && g[m] == ticks[p[m]])
            && (forall m, m' :: 0 <= m < m' < |p| ==> p[m] < p[m'])
            && (forall i :: 0 <= i < |ticks| && TickKey(ticks[i], ms) == k ==> i in p)
  {
    GroupAtPositions(ticks, ms, k);
    PositionsAscending(ticks, ms, k);
    PositionsComplete(ticks, ms, k);
  }

  /** The `m`-th trade of the group is the trade at the `m`-th position. */
  lemma {:induction false} GroupAtPositions(ticks: seq<Tick>, ms: nat, k: nat)
    requires ms > 0
    ensures var g, p := GroupOf(ticks, ms, k), KeyPositions(ticks, ms, k);
            |g| == |p| && forall m :: 0 <= m < |p| ==> p[m] < |ticks| && g[m] == ticks[p[m]]
    decreases |ticks|
  {
    if |ticks| > 0 {
      var init := ticks[..|ticks| - 1];
      GroupAtPositions(init, ms, k);
      var g0, p0 := GroupOf(init, ms, k), KeyPositions(init, ms, k);
      var g, p := GroupOf(ticks, ms, k), KeyPositions(ticks, ms, k);
      var last := ticks[|ticks| - 1];
      assert g == g0 + (if TickKey(last, ms) == k then [last] else []);
      assert p == p0 + (if TickKey(last, ms) == k then [|ticks| - 1] else []);
      forall m | 0 <= m < |p| ensures p[m] < |ticks| && g[m] == ticks[p[m]] {
        if m < |p0| {
          assert init[p0[m]] == ticks[p0[m]];
        }
      }
    }
  }

  /** The positions of a key lie below the length and ascend. */
  lemma {:induction false} PositionsAscending(ticks: seq<Tick>, ms: nat, k: nat)
    requires ms > 0
    ensures forall m :: 0 <= m < |KeyPositions(ticks, ms, k)| ==> KeyPositions(ticks, ms, k)[m] < |ticks|
    ensures forall m, m' :: 0 <= m < m' < |KeyPositions(ticks, ms, k)| ==>
              KeyPositions(ticks, ms, k)[m] < KeyPositions(ticks, ms, k)[m']
    decreases |ticks|
  {
    if |ticks| > 0 {
      var init := ticks[..|ticks| - 1];
      PositionsAscending(init, ms, k);
      var p0, p := KeyPositions(init, ms, k), KeyPositions(ticks, ms, k);
      assert p == p0 + (if TickKey(ticks[|ticks| - 1], ms) == k then [|ticks| - 1] else []);
      forall m, m' | 0 <= m < m' < |p| ensures p[m] < p[m'] {
        assert p[m] == p0[m];
        if m' == |p0| {
          assert p0[m] < |init|;
        }
      }
    }
  }

  /** Every trade with key `k` is at one of the positions of `k`. */
  lemma {:induction false} PositionsComplete(ticks: seq<Tick>, ms: nat, k: nat)
    requires ms > 0
    ensures forall i :: 0 <= i < |ticks| && TickKey(ticks[i], ms) == k ==> i in KeyPositions(ticks, ms, k)
    decreases |ticks|
  {
    if |ticks| > 0 {
      var init := ticks[..|ticks| - 1];
      PositionsComplete(init, ms, k);
      var p0, p := KeyPositions(init, ms, k), KeyPositions(ticks, ms, k);
      assert p == p0 + (if TickKey(ticks[|ticks| - 1], ms) == k then [|ticks| - 1] else []);
      forall i | 0 <= i < |ticks| && TickKey(ticks[i], ms) == k ensures i in p {
        if i < |init| {
          assert init[i] == ticks[i];
          assert i in p0;
        }
      }
    }
  }

  /** The group of a key that some trade has starts with the first trade of
      that key and ends with the last one. */
  lemma GroupFirstLast(ticks: seq<Tick>, ms: nat, k: nat, i: nat)
    requires ms > 0 && i < |ticks| && TickKey(ticks[i], ms) == k
    ensures var g := GroupOf(ticks, ms, k);
            exists f, l :: 0 <= f <= i <= l < |ticks|
              && (forall j :: 0 <= j < f ==> TickKey(ticks[j], ms) != k)
              && (forall j :: l < j < |ticks| ==> TickKey(ticks[j], ms) != k)
              && |g| > 0 && g[0] == ticks[f] && g[|g| - 1] == ticks[l]
  {
    var g, p := GroupOf(ticks, ms, k), KeyPositions(ticks, ms, k);
    GroupAtPositions(ticks, ms, k);
    PositionsAscending(ticks, ms, k);
    PositionsComplete(ticks, ms, k);
    assert i in p;
    var f, l := p[0], p[|p| - 1];
    assert g[0] == ticks[f] && g[|g| - 1] == ticks[l];
    forall j | 0 <= j < |ticks| && TickKey(ticks[j], ms) == k ensures f <= j <= l {
      assert j in p;
      PositionBounds(p, j);
    }
    PositionBounds(p, i);
    assert 0 <= f <= i <= l < |ticks|
      && (forall j :: 0 <= j < f ==> TickKey(ticks[j], ms) != k)
      && (forall j :: l < j < |ticks| ==> TickKey(ticks[j], ms) != k)
      && |g| > 0 && g[0] == ticks[f] && g[|g| - 1] == ticks[l];
  }

  /** The candle of a bucket opens at the price of the bucket's first trade
      and closes at the price of its last trade, in input order. */
  lemma BucketOpenClose(ticks: seq<Tick>, ms: nat, k: nat, i: nat)
    requires ms > 0 && i < |ticks| && TickKey(ticks[i], ms) == k
    ensures var c := TickGroupToOhlcv(k, GroupOf(ticks, ms, k));
            exists f, l :: 0 <= f <= i <= l < |ticks|
              && (forall j :: 0 <= j < f ==> TickKey(ticks[j], ms) != k)
              && (forall j :: l < j < |ticks| ==> TickKey(ticks[j], ms) != k)
              && c.open == ticks[f].price && c.close == ticks[l].price
  {
    GroupFirstLast(ticks, ms, k, i);
    var g := GroupOf(ticks, ms, k);
    var f, l :| 0 <= f <= i <= l < |ticks|
              && (forall j :: 0 <= j < f ==> TickKey(ticks[j], ms) != k)
              && (forall j :: l < j < |ticks| ==> TickKey(ticks[j], ms) != k)
              && |g| > 0 && g[0] == ticks[f] && g[|g| - 1] == ticks[l];
    var c := TickGroupToOhlcv(k, g);
    assert c.open == ticks[f].price && c.close == ticks[l].price;
  }

  lemma PositionBounds(p: seq<nat>, j: nat)
    requires forall m, m' :: 0 <= m < m' < |p| ==> p[m] < p[m']
    requires j in p
    ensures p[0] <= j <= p[|p| - 1]
  {
    var m :| 0 <= m < |p| && p[m] == j;
    assert m == 0 || p[0] < p[m];
    assert m == |p| - 1 || p[m] < p[|p| - 1];
  }

  /** The candles appended by the `forEach` over the keys `ks`, before the
      sort: each group's candle, preceded (when placeholders are asked for
      and a candle was already appended) by the placeholders between the
      previously appended candle and it. */
  function CandlesOf(ticks: seq<Tick>, ms: nat, ks: seq<nat>, fillGaps: bool): (cs: seq<Candle>)
    requires ms > 0
    ensures |cs| >= |ks|
    ensures !fillGaps ==> |cs| == |ks|
    decreases |ks|
  {
    if |ks| == 0 then []
    else
      var prev := CandlesOf(ticks, ms, ks[..|ks| - 1], fillGaps);
      var k := ks[|ks| - 1];
      var candle := TickGroupToOhlcv(k, GroupOf(ticks, ms, k));
      (if fillGaps && |prev| > 0 then prev + GapCandles(prev[|prev| - 1], candle, ms) else prev)
        + [candle]
  }

  /** The sorted candles before the optional drop of the latest one. */
  function SortedCandles(ticks: seq<Tick>, ms: nat, fillGaps: bool): (cs: seq<Candle>)
    requires ms > 0
    ensures SortedBy(cs, CandleTime)
    ensures |ticks| > 0 ==> |cs| > 0
    ensures !fillGaps ==> |cs| == |KeysOf(ticks, ms)|
  {
    SortBy(CandlesOf(ticks, ms, KeysOf(ticks, ms), fillGaps), CandleTime)
  }

  /** Sum of the quantities of the groups of the keys `ks`. */
  function GroupsQuantity(ticks: seq<Tick>, ms: nat, ks: seq<nat>): int
    requires ms > 0
    decreases |ks|
  {
    if |ks| == 0 then 0
    else GroupsQuantity(ticks, ms, ks[..|ks| - 1]) + QuantitySum(GroupOf(ticks, ms, ks[|ks| - 1]))
  }

  /** Every candle, real or placeholder, opens on the bucket grid. */
  lemma {:induction false} CandlesAligned(ticks: seq<Tick>, ms: nat, ks: seq<nat>, fillGaps: bool)
    requires ms > 0
    requires forall a :: 0 <= a < |ks| ==> ks[a] % ms == 0
    ensures forall c :: c in CandlesOf(ticks, ms, ks, fillGaps) ==> c.time % ms == 0
    decreases |ks|
  {
    if |ks| > 0 {
      var prev := CandlesOf(ticks, ms, ks[..|ks| - 1], fillGaps);
      CandlesAligned(ticks, ms, ks[..|ks| - 1], fillGaps);
      if fillGaps && |prev| > 0 {
        var k := ks[|ks| - 1];
        GapsAligned(prev[|prev| - 1], TickGroupToOhlcv(k, GroupOf(ticks, ms, k)), ms);
      }
    }
  }

  /** Placeholders add no volume: the candles carry exactly the quantities
      of their groups. */
  lemma {:induction false} CandlesVolume(ticks: seq<Tick>, ms: nat, ks: seq<nat>, fillGaps: bool)
    requires ms > 0
    ensures SumBy(CandlesOf(ticks, ms, ks, fillGaps), Volume) == GroupsQuantity(ticks, ms, ks)
    decreases |ks|
  {
    if |ks| > 0 {
      var prev := CandlesOf(ticks, ms, ks[..|ks| - 1], fillGaps);
      var k := ks[|ks| - 1];
      var candle := TickGroupToOhlcv(k, GroupOf(ticks, ms, k));
      CandlesVolume(ticks, ms, ks[..|ks| - 1], fillGaps);
      var withGaps := if fillGaps && |prev| > 0 then prev + GapCandles(prev[|prev| - 1], candle, ms) else prev;
      if fillGaps && |prev| > 0 {
        var gaps := GapCandles(prev[|prev| - 1], candle, ms);
        GapsVolume(gaps);
        SumByAppend(prev, gaps, Volume);
      }
      SumByAppend(withGaps, [candle], Volume);
      assert [candle][..0] == [];
    }
  }

  /** Appending a tick adds its quantity to the group of its key, provided
      that key is listed once. */
  lemma {:induction false} GroupsQuantitySnoc(ticks: seq<Tick>, t: Tick, ms: nat, ks: seq<nat>)
    requires ms > 0
    requires forall a, b :: 0 <= a < b < |ks| ==> ks[a] != ks[b]
    ensures GroupsQuantity(ticks + [t], ms, ks)
         == GroupsQuantity(ticks, ms, ks) + (if TickKey(t, ms) in ks then t.quantity else 0)
    decreases |ks|
  {
    if |ks| > 0 {
      var init := ks[..|ks| - 1];
      var k := ks[|ks| - 1];
      GroupsQuantitySnoc(ticks, t, ms, init);
      assert (ticks + [t])[..|ticks + [t]| - 1] == ticks;
      assert TickKey(t, ms) in ks <==> TickKey(t, ms) in init || TickKey(t, ms) == k;
      assert TickKey(t, ms) == k ==> TickKey(t, ms) !in init;
    }
  }

  /** Every tick lands in exactly one group, so the groups together carry
      the whole quantity. */
  lemma {:induction false} GroupsCoverTicks(ticks: seq<Tick>, ms: nat)
    requires ms > 0
    ensures GroupsQuantity(ticks, ms, KeysOf(ticks, ms)) == QuantitySum(ticks)
    decreases |ticks|
  {
    if |ticks| > 0 {
      var init := ticks[..|ticks| - 1];
      var t := ticks[|ticks| - 1];
      assert ticks == init + [t];
      var ks := KeysOf(init, ms);
      var k := TickKey(t, ms);
      GroupsCoverTicks(init, ms);
      KeysOfShape(init, ms);
      GroupsQuantitySnoc(init, t, ms, ks);
      assert QuantitySum(ticks) == QuantitySum(init) + t.quantity;
      if k !in ks {
        assert KeysOf(ticks, ms) == ks + [k];
        assert (ks + [k])[..|ks|] == ks;
        GroupOfUnlisted(init, ms, k);
        assert GroupOf(ticks, ms, k) == [t];
        assert QuantitySum([t]) == t.quantity by {
          assert [t][..0] == [];
          assert SumBy([t], Quantity) == SumBy([t][..0], Quantity) + Quantity(t);
        }
        assert GroupsQuantity(ticks, ms, ks + [k]) == GroupsQuantity(ticks, ms, ks) + t.quantity;
      } else {
        assert KeysOf(ticks, ms) == ks;
      }
    }
  }

  /** Without placeholders there is exactly one candle per key, in key
      order, each the aggregate of its group. */
  lemma {:induction false} CandlesWithoutGaps(ticks: seq<Tick>, ms: nat, ks: seq<nat>)
    requires ms > 0
    ensures |CandlesOf(ticks, ms, ks, false)| == |ks|
    ensures forall i :: 0 <= i < |ks| ==>
              CandlesOf(ticks, ms, ks, false)[i] == TickGroupToOhlcv(ks[i], GroupOf(ticks, ms, ks[i]))
    decreases |ks|
  {
    if |ks| > 0 {
      var init := ks[..|ks| - 1];
      CandlesWithoutGaps(ticks, ms, init);
      var prev := CandlesOf(ticks, ms, init, false);
      var k := ks[|ks| - 1];
      assert CandlesOf(ticks, ms, ks, false) == prev + [TickGroupToOhlcv(k, GroupOf(ticks, ms, k))];
      assert forall i :: 0 <= i < |init| ==> init[i] == ks[i];
    }
  }

  /** The sorted candles are on the grid and carry the whole quantity. */
  lemma SortedCandlesAlignedAndComplete(ticks: seq<Tick>, ms: nat, fillGaps: bool)
    requires ms > 0
    ensures var all := SortedCandles(ticks, ms, fillGaps);
            && SortedBy(all, CandleTime)
            && (forall i :: 0 <= i < |all| ==> all[i].time % ms == 0)
            && SumBy(all, Volume) == QuantitySum(ticks)
  {
    var keys := KeysOf(ticks, ms);
    var candles := CandlesOf(ticks, ms, keys, fillGaps);
    SortByMembers(candles, CandleTime);
    KeysOfShape(ticks, ms);
    CandlesAligned(ticks, ms, keys, fillGaps);
    SumBySort(candles, CandleTime, Volume);
    CandlesVolume(ticks, ms, keys, fillGaps);
    GroupsCoverTicks(ticks, ms);
  }

  /** Without placeholders the sorted candles are one per key: each is the
      aggregate of the group of its own time, and every key has one. */
  lemma SortedCandlesOnePerKey(ticks: seq<Tick>, ms: nat)
    requires ms > 0
    ensures var all := SortedCandles(ticks, ms, false);
            var keys := KeysOf(ticks, ms);
            && |all| == |keys|
            && (forall i :: 0 <= i < |all| ==>
                  all[i].time in keys && all[i] == TickGroupToOhlcv(all[i].time, GroupOf(ticks, ms, all[i].time)))
            && (forall k :: k in keys ==> exists i :: 0 <= i < |all| && all[i].time == k)
  {
    var keys := KeysOf(ticks, ms);
    var candles := CandlesOf(ticks, ms, keys, false);
    var all := SortedCandles(ticks, ms, false);
    SortByMembers(candles, CandleTime);
    CandlesWithoutGaps(ticks, ms, keys);
    forall i | 0 <= i < |all|
      ensures all[i].time in keys && all[i] == TickGroupToOhlcv(all[i].time, GroupOf(ticks, ms, all[i].time))
    {
      var a :| 0 <= a < |candles| && candles[a] == all[i];
    }
    forall k | k in keys ensures exists i :: 0 <= i < |all| && all[i].time == k {
      var a :| 0 <= a < |keys| && keys[a] == k;
      assert candles[a] in all;
    }
  }

  /** The grouping and the `forEach` of `resampleTicksByTime` (lines
      228-238): one candle per group in key order, with the placeholders
      before it when asked for. */
  method GroupCandles(tickData: seq<Tick>, ms: nat, fillGaps: bool) returns (candles: seq<Candle>)
    requires ms > 0
    ensures candles == CandlesOf(tickData, ms, KeysOf(tickData, ms), fillGaps)
  {
    var keys := KeysOf(tickData, ms);
    candles := [];
    var n := 0;
    while n < |keys|
      invariant 0 <= n <= |keys|
      invariant candles == CandlesOf(tickData, ms, keys[..n], fillGaps)
    {
      candles := AppendGroup(tickData, ms, keys, n, fillGaps, candles);
      n := n + 1;
    }
    assert keys[..|keys|] == keys;
  }

  /** One turn of the `forEach`, on the key `keys[n]`: the candle of its
      group, after the placeholders from the last candle so far when asked
      for. */
  method AppendGroup(tickData: seq<Tick>, ms: nat, keys: seq<nat>, n: nat, fillGaps: bool, candles: seq<Candle>)
    returns (next: seq<Candle>)
    requires ms > 0 && n < |keys|
    requires candles == CandlesOf(tickData, ms, keys[..n], fillGaps)
    ensures next == CandlesOf(tickData, ms, keys[..n + 1], fillGaps)
  {
    CandlesOfStep(tickData, ms, keys, n, fillGaps);
    var timeOpen := keys[n];
    var ticks := GroupOf(tickData, ms, timeOpen);
    var candle := TickGroupToOhlcv(timeOpen, ticks);
    next := candles;
    if fillGaps && |candles| > 0 {
      var lastCandle := candles[|candles| - 1];
      var gapCandles := MakeGapCandles(lastCandle, candle, ms);
      next := next + gapCandles;
    }
    next := next + [candle];
  }

  /** One more key appends its candle, after the placeholders when asked for. */
  lemma CandlesOfStep(ticks: seq<Tick>, ms: nat, keys: seq<nat>, n: nat, fillGaps: bool)
    requires ms > 0 && n < |keys|
    ensures var prev, k := CandlesOf(ticks, ms, keys[..n], fillGaps), keys[n];
            var candle := TickGroupToOhlcv(k, GroupOf(ticks, ms, k));
            CandlesOf(ticks, ms, keys[..n + 1], fillGaps)
              == (if fillGaps && |prev| > 0 then prev + GapCandles(prev[|prev| - 1], candle, ms) else prev) + [candle]
  {
    assert keys[..n + 1][..n] == keys[..n];
  }

  /** What `resampleTicksByTime` returns: the sorted candles, without the
      latest one when `includeLatestCandle` is false (popping an empty array
      leaves it empty). */
  function ResampledTicks(ticks: seq<Tick>, ms: nat, includeLatestCandle: bool, fillGaps: bool): (r: seq<Candle>)
    requires ms > 0
    ensures SortedBy(r, CandleTime)
    ensures |ticks| == 0 ==> r == []
    ensures |ticks| > 0 && includeLatestCandle ==> |r| > 0
    ensures |r| == (if includeLatestCandle || |ticks| == 0 then |SortedCandles(ticks, ms, fillGaps)|
                    else |SortedCandles(ticks, ms, fillGaps)| - 1)
  {
    var all := SortedCandles(ticks, ms, fillGaps);
    if includeLatestCandle || |all| == 0 then all
    else DropLastSorted(all, CandleTime); all[..|all| - 1]
  }

  /** The result is ascending by time and on the bucket grid. */
  lemma TicksByTimeSortedAligned(ticks: seq<Tick>, ms: nat, includeLatestCandle: bool, fillGaps: bool)
    requires ms > 0
    ensures var r := ResampledTicks(ticks, ms, includeLatestCandle, fillGaps);
            SortedBy(r, CandleTime) && forall i :: 0 <= i < |r| ==> r[i].time % ms == 0
  {
    var all := SortedCandles(ticks, ms, fillGaps);
    SortedCandlesAlignedAndComplete(ticks, ms, fillGaps);
    if |all| > 0 {
      DropLastSorted(all, CandleTime);
    }
  }

  /** Keeping the latest candle, the result carries the whole quantity
      traded. */
  lemma TicksByTimeVolume(ticks: seq<Tick>, ms: nat, fillGaps: bool)
    requires ms > 0
    ensures SumBy(ResampledTicks(ticks, ms, true, fillGaps), Volume) == QuantitySum(ticks)
  {
    SortedCandlesAlignedAndComplete(ticks, ms, fillGaps);
  }

  /** Without placeholders every candle is the aggregate of the group of
      its own time; keeping the latest candle, there is one per key. */
  lemma TicksByTimeOnePerKey(ticks: seq<Tick>, ms: nat, includeLatestCandle: bool)
    requires ms > 0
    ensures var r := ResampledTicks(ticks, ms, includeLatestCandle, false);
            forall i :: 0 <= i < |r| ==>
              r[i].time in KeysOf(ticks, ms) && r[i] == TickGroupToOhlcv(r[i].time, GroupOf(ticks, ms, r[i].time))
    ensures var r := ResampledTicks(ticks, ms, true, false);
            && |r| == |KeysOf(ticks, ms)|
            && forall k :: k in KeysOf(ticks, ms) ==> exists i :: 0 <= i < |r| && r[i].time == k
  {
    SortedCandlesOnePerKey(ticks, ms);
  }

  /** Dropping the latest candle removes exactly the last, maximal-time
      candle of the sorted list. */
  lemma TicksByTimeDropsLatest(ticks: seq<Tick>, ms: nat, fillGaps: bool)
    requires ms > 0
    ensures var all := SortedCandles(ticks, ms, fillGaps);
            var r := ResampledTicks(ticks, ms, false, fillGaps);
            && |r| == (if |all| == 0 then 0 else |all| - 1)
            && (forall i :: 0 <= i < |r| ==> r[i] == all[i])
            && (forall i :: 0 <= i < |r| ==> r[i].time <= all[|all| - 1].time)
  {
    var all := SortedCandles(ticks, ms, fillGaps);
    SortedCandlesAlignedAndComplete(ticks, ms, fillGaps);
    if |all| > 0 {
      DropLastSorted(all, CandleTime);
    }
  }

  /** The promises of `resampleTicksByTime`, gathered. */
  lemma TicksByTimeContract(ticks: seq<Tick>, ms: nat, includeLatestCandle: bool, fillGaps: bool)
    requires ms > 0
    ensures var r := ResampledTicks(ticks, ms, includeLatestCandle, fillGaps);
            && SortedBy(r, CandleTime)
            && (forall i :: 0 <= i < |r| ==> r[i].time % ms == 0)
            && (includeLatestCandle ==> SumBy(r, Volume) == QuantitySum(ticks))
            && (!fillGaps ==>
                  forall i :: 0 <= i < |r| ==>
                    r[i].time in KeysOf(ticks, ms) && r[i] == TickGroupToOhlcv(r[i].time, GroupOf(ticks, ms, r[i].time)))
            && (!fillGaps && includeLatestCandle ==>
                  |r| == |KeysOf(ticks, ms)| &&
                  forall k :: k in KeysOf(ticks, ms) ==> exists i :: 0 <= i < |r| && r[i].time == k)
  {
    TicksByTimeSortedAligned(ticks, ms, includeLatestCandle, fillGaps);
    if includeLatestCandle {
      TicksByTimeVolume(ticks, ms, fillGaps);
    }
    if !fillGaps {
      TicksByTimeOnePerKey(ticks, ms, includeLatestCandle);
    }
  }

  function TickTime(t: Tick): int { t.time }

  /** Over trades in time order, the group keys ascend strictly, and none
      exceeds the key of the last trade. */
  lemma {:induction false} KeysOfSortedTicks(ticks: seq<Tick>, ms: nat)
    requires ms > 0 && SortedBy(ticks, TickTime)
    ensures forall a, b :: 0 <= a < b < |KeysOf(ticks, ms)| ==> KeysOf(ticks, ms)[a] < KeysOf(ticks, ms)[b]
    ensures |ticks| > 0 ==>
              forall a :: 0 <= a < |KeysOf(ticks, ms)| ==> KeysOf(ticks, ms)[a] <= TickKey(ticks[|ticks| - 1], ms)
    decreases |ticks|
  {
    if |ticks| > 0 {
      var init := ticks[..|ticks| - 1];
      var t := ticks[|ticks| - 1];
      var ks := KeysOf(init, ms);
      var k := TickKey(t, ms);
      DropLastSorted(ticks, TickTime);
      KeysOfSortedTicks(init, ms);
      if |init| > 0 {
        assert TickTime(init[|init| - 1]) <= TickTime(t);
        KeyMonotone(init[|init| - 1].time, t.time, ms);
      }
      assert forall a :: 0 <= a < |ks| ==> ks[a] <= k;
      if k !in ks {
        var r := ks + [k];
        assert KeysOf(ticks, ms) == r;
        forall a, b | 0 <= a < b < |r| ensures r[a] < r[b] {
          assert r[a] == ks[a] && ks[a] in ks;
        }
      }
    }
  }

  /** Each candle opens one bucket width after the one before it. */
  ghost predicate Contiguous(cs: seq<Candle>, ms: nat)
  {
    forall i :: 0 <= i < |cs| - 1 ==> cs[i + 1].time == cs[i].time + ms
  }

  /** A contiguous run `prev`, then placeholders one, two, ... widths after
      its last candle, then a candle one width after those, is contiguous. */
  lemma JoinContiguous(prev: seq<Candle>, gaps: seq<Candle>, candle: Candle, ms: nat)
    requires Contiguous(prev, ms) && |prev| > 0
    requires forall g :: 0 <= g < |gaps| ==> gaps[g].time == prev[|prev| - 1].time + (g + 1) * ms
    requires candle.time == prev[|prev| - 1].time + (|gaps| + 1) * ms
    ensures Contiguous(prev + gaps + [candle], ms)
  {
    var cs := prev + gaps + [candle];
    var base := prev[|prev| - 1].time;
    forall i | 0 <= i < |cs| - 1 ensures cs[i + 1].time == cs[i].time + ms {
      if i < |prev| - 1 {
        assert cs[i] == prev[i] && cs[i + 1] == prev[i + 1];
      } else {
        var g := i - |prev|;
        if g == -1 {
          assert cs[i] == prev[|prev| - 1];
        } else {
          assert cs[i] == gaps[g];
          assert (g + 2) * ms == (g + 1) * ms + ms;
        }
        if g + 1 < |gaps| {
          assert cs[i + 1] == gaps[g + 1];
        } else {
          assert cs[i + 1] == candle;
        }
      }
    }
  }

  /** With placeholders, over strictly ascending keys on the grid, every
      appended candle opens one width after the one before, and the last
      one is the candle of the last key. */
  lemma {:induction false} CandlesContiguous(ticks: seq<Tick>, ms: nat, ks: seq<nat>)
    requires ms > 0
    requires forall a :: 0 <= a < |ks| ==> ks[a] % ms == 0
    requires forall a, b :: 0 <= a < b < |ks| ==> ks[a] < ks[b]
    ensures var cs := CandlesOf(ticks, ms, ks, true);
            |ks| > 0 ==> |cs| > 0 && cs[|cs| - 1].time == ks[|ks| - 1]
    ensures Contiguous(CandlesOf(ticks, ms, ks, true), ms)
    decreases |ks|
  {
    if |ks| > 0 {
      var init := ks[..|ks| - 1];
      var prev := CandlesOf(ticks, ms, init, true);
      var k := ks[|ks| - 1];
      var candle := TickGroupToOhlcv(k, GroupOf(ticks, ms, k));
      CandlesContiguous(ticks, ms, init);
      if |prev| > 0 {
        var last := prev[|prev| - 1];
        assert |init| > 0;
        assert last.time == ks[|ks| - 2];
        var gaps := GapCandles(last, candle, ms);
        GapsCloseGrid(last, candle, ms);
        JoinContiguous(prev, gaps, candle, ms);
      }
    }
  }

  /** In a contiguous run, the candle `j - i` places on opens `j - i` widths
      later. */
  lemma {:induction false} ContiguousTimes(cs: seq<Candle>, ms: nat, i: nat, j: nat)
    requires Contiguous(cs, ms) && i <= j < |cs|
    ensures cs[j].time == cs[i].time + (j - i) * ms
    decreases j - i
  {
    if i < j {
      ContiguousTimes(cs, ms, i, j - 1);
      assert (j - i) * ms == (j - 1 - i) * ms + ms;
    }
  }

  lemma ContiguousSorted(cs: seq<Candle>, ms: nat)
    requires Contiguous(cs, ms)
    ensures SortedBy(cs, CandleTime)
  {
    forall i, j | 0 <= i < j < |cs| ensures CandleTime(cs[i]) <= CandleTime(cs[j]) {
      ContiguousTimes(cs, ms, i, j);
      MulMono(0, j - i, ms);
    }
  }

  /** With placeholders and trades that arrive in time order, consecutive
      candles of the result are exactly one bucket width apart: no silent
      bucket is left without a candle. */
  lemma TicksByTimeNoGaps(ticks: seq<Tick>, ms: nat, includeLatestCandle: bool)
    requires ms > 0 && SortedBy(ticks, TickTime)
    ensures Contiguous(ResampledTicks(ticks, ms, includeLatestCandle, true), ms)
  {
    var keys := KeysOf(ticks, ms);
    KeysOfSortedTicks(ticks, ms);
    KeysOfShape(ticks, ms);
    var candles := CandlesOf(ticks, ms, keys, true);
    CandlesContiguous(ticks, ms, keys);
    ContiguousSorted(candles, ms);
    SortBySorted(candles, CandleTime);
  }

  // The trades of the worked example: two in the first minute, one in the second.
  const TradeA := Tick(0, 10, 1)
  const TradeB := Tick(500, 12, 2)
  const TradeC := Tick(65000, 9, 1)

  /** The two buckets of the example, in order, and the trades of the first. */
  lemma ExampleGroups()
    ensures KeysOf([TradeA, TradeB, TradeC], 60000) == [0, 60000]
    ensures GroupOf([TradeA, TradeB, TradeC], 60000, 0) == [TradeA, TradeB]
  {
    var ts := [TradeA, TradeB, TradeC];
    assert TickKey(TradeA, 60000) == 0 && TickKey(TradeB, 60000) == 0 && TickKey(TradeC, 60000) == 60000;
    assert ts[..2] == [TradeA, TradeB] && [TradeA, TradeB][..1] == [TradeA] && [TradeA][..0] == [];
    assert KeysOf([TradeA], 60000) == [0];
    assert KeysOf([TradeA, TradeB], 60000) == [0];
    assert GroupOf([TradeA], 60000, 0) == [TradeA];
    assert GroupOf([TradeA, TradeB], 60000, 0) == [TradeA, TradeB];
  }

  /** The candle of the first bucket of the example. */
  lemma ExampleFirstCandle()
    ensures TickGroupToOhlcv(0, [TradeA, TradeB]) == Candle(0, 10, 12, 10, 12, 3)
  {
    var g := [TradeA, TradeB];
    assert g[..1] == [TradeA] && [TradeA][..0] == [];
    assert SumBy([TradeA], Quantity) == 1;
    assert SumBy(g, Quantity) == SumBy([TradeA], Quantity) + 2;
  }

  /** Trades at 0 s, 0.5 s and 65 s resampled to one minute, the latest
      candle dropped: only the first minute's candle remains. */
  lemma ExampleDropLatest()
    ensures ResampledTicks([TradeA, TradeB, TradeC], 60000, false, false) == [Candle(0, 10, 12, 10, 12, 3)]
  {
    var ts := [TradeA, TradeB, TradeC];
    ExampleGroups();
    ExampleFirstCandle();
    var keys := KeysOf(ts, 60000);
    var candles := CandlesOf(ts, 60000, keys, false);
    CandlesWithoutGaps(ts, 60000, keys);
    assert candles[0] == Candle(0, 10, 12, 10, 12, 3);
    assert candles[1].time == 60000;
    SortBySorted(candles, CandleTime);
  }

  /** One more trade lists its key if it is new. */
  lemma KeysOfSnoc(ticks: seq<Tick>, t: Tick, ms: nat)
    requires ms > 0
    ensures KeysOf(ticks + [t], ms) ==
            if TickKey(t, ms) in KeysOf(ticks, ms) then KeysOf(ticks, ms) else KeysOf(ticks, ms) + [TickKey(t, ms)]
  {
    assert (ticks + [t])[..|ticks|] == ticks;
  }

  /** One more trade joins the group of its own key only. */
  lemma GroupOfSnoc(ticks: seq<Tick>, t: Tick, ms: nat, k: nat)
    requires ms > 0
    ensures GroupOf(ticks + [t], ms, k) ==
            if TickKey(t, ms) == k then GroupOf(ticks, ms, k) + [t] else GroupOf(ticks, ms, k)
  {
    assert (ticks + [t])[..|ticks|] == ticks;
  }

  /** One more key appends its placeholders (when asked for) and its candle. */
  lemma CandlesOfSnoc(ticks: seq<Tick>, ms: nat, ks: seq<nat>, k: nat, fillGaps: bool)
    requires ms > 0
    ensures var prev := CandlesOf(ticks, ms, ks, fillGaps);
            var candle := TickGroupToOhlcv(k, GroupOf(ticks, ms, k));
            CandlesOf(ticks, ms, ks + [k], fillGaps)
              == (if fillGaps && |prev| > 0 then prev + GapCandles(prev[|prev| - 1], candle, ms) else prev) + [candle]
  {
    assert (ks + [k])[..|ks|] == ks;
  }

  /** A placeholder's shape: no volume, flat at one price. */
  predicate Flat(c: Candle)
  {
    c.volume == 0 && c.open == c.high && c.high == c.low && c.low == c.close
  }

  /** `c` is the aggregate of the bucket at its own time, one of `ks`. */
  predicate BucketCandle(ticks: seq<Tick>, ms: nat, ks: seq<nat>, c: Candle)
    requires ms > 0
  {
    c.time in ks && c == TickGroupToOhlcv(c.time, GroupOf(ticks, ms, c.time))
  }

  /** Every key's aggregate candle is appended, and every other appended
      candle is a flat, zero-volume placeholder. */
  lemma {:induction false} CandlesOfContents(ticks: seq<Tick>, ms: nat, ks: seq<nat>, fillGaps: bool)
    requires ms > 0
    ensures forall k :: k in ks ==> TickGroupToOhlcv(k, GroupOf(ticks, ms, k)) in CandlesOf(ticks, ms, ks, fillGaps)
    ensures forall c :: c in CandlesOf(ticks, ms, ks, fillGaps) ==> BucketCandle(ticks, ms, ks, c) || (fillGaps && Flat(c))
    decreases |ks|
  {
    if |ks| > 0 {
      var init := ks[..|ks| - 1];
      var k := ks[|ks| - 1];
      assert ks == init + [k];
      CandlesOfContents(ticks, ms, init, fillGaps);
      var prev := CandlesOf(ticks, ms, init, fillGaps);
      var candle := TickGroupToOhlcv(k, GroupOf(ticks, ms, k));
      var mid := if fillGaps && |prev| > 0 then prev + GapCandles(prev[|prev| - 1], candle, ms) else prev;
      assert CandlesOf(ticks, ms, ks, fillGaps) == mid + [candle];
      forall k' | k' in ks
        ensures TickGroupToOhlcv(k', GroupOf(ticks, ms, k')) in mid + [candle]
      {
        if k' != k {
          assert k' in init;
        }
      }
      forall c | c in mid + [candle]
        ensures BucketCandle(ticks, ms, ks, c) || (fillGaps && Flat(c))
      {
        if c in prev {
          assert BucketCandle(ticks, ms, init, c) || (fillGaps && Flat(c));
        } else if c != candle {
          var gs := GapCandles(prev[|prev| - 1], candle, ms);
          GapCandlesShape(prev[|prev| - 1], candle, ms);
          var i :| 0 <= i < |gs| && gs[i] == c;
          assert fillGaps && Flat(c);
        }
      }
    }
  }

  /** Keeping the latest candle, the result holds exactly the candles made
      before the sort. */
  lemma KeptInResult(ticks: seq<Tick>, ms: nat, fillGaps: bool, x: Candle)
    requires ms > 0
    ensures x in CandlesOf(ticks, ms, KeysOf(ticks, ms), fillGaps) <==> x in ResampledTicks(ticks, ms, true, fillGaps)
  {
    var all := CandlesOf(ticks, ms, KeysOf(ticks, ms), fillGaps);
    assert x in all <==> x in multiset(all);
    assert x in multiset(SortBy(all, CandleTime)) <==> x in SortBy(all, CandleTime);
  }

  /** What the result holds: keeping the latest candle, every bucket's
      aggregate; in any case, nothing but bucket aggregates and, with
      `fillGaps`, flat zero-volume placeholders. */
  lemma TicksByTimeContents(ticks: seq<Tick>, ms: nat, includeLatestCandle: bool, fillGaps: bool)
    requires ms > 0
    ensures includeLatestCandle ==>
              forall k :: k in KeysOf(ticks, ms) ==>
                TickGroupToOhlcv(k, GroupOf(ticks, ms, k)) in ResampledTicks(ticks, ms, includeLatestCandle, fillGaps)
    ensures forall c :: c in ResampledTicks(ticks, ms, includeLatestCandle, fillGaps) ==>
              BucketCandle(ticks, ms, KeysOf(ticks, ms), c) || (fillGaps && Flat(c))
  {
    var ks := KeysOf(ticks, ms);
    CandlesOfContents(ticks, ms, ks, fillGaps);
    forall x | x in CandlesOf(ticks, ms, ks, fillGaps) || x in ResampledTicks(ticks, ms, true, fillGaps)
      ensures x in CandlesOf(ticks, ms, ks, fillGaps) <==> x in ResampledTicks(ticks, ms, true, fillGaps)
    {
      KeptInResult(ticks, ms, fillGaps, x);
    }
    var all := SortedCandles(ticks, ms, fillGaps);
    var r := ResampledTicks(ticks, ms, includeLatestCandle, fillGaps);
    forall c | c in r
      ensures BucketCandle(ticks, ms, ks, c) || (fillGaps && Flat(c))
    {
      if !includeLatestCandle && |all| > 0 {
        assert r == all[..|all| - 1];
        assert c in all;
      }
      assert c in ResampledTicks(ticks, ms, true, fillGaps);
    }
  }

  /** `resampleTicksByTime` with `timeframe` in seconds. */
  method ResampleTicksByTime(tickData: seq<Tick>, timeframe: nat, includeLatestCandle: bool, fillGaps: bool)
    returns (result: seq<Candle>)
    requires timeframe > 0
    ensures result == ResampledTicks(tickData, timeframe * 1000, includeLatestCandle, fillGaps)
    ensures SortedBy(result, CandleTime)
    ensures forall i :: 0 <= i < |result| ==> result[i].time % (timeframe * 1000) == 0
    ensures includeLatestCandle ==> SumBy(result, Volume) == QuantitySum(tickData)
    ensures !fillGaps ==>
              forall i :: 0 <= i < |result| ==>
                result[i].time in KeysOf(tickData, timeframe * 1000) &&
                result[i] == TickGroupToOhlcv(result[i].time, GroupOf(tickData, timeframe * 1000, result[i].time))
    ensures !fillGaps && includeLatestCandle ==>
              |result| == |KeysOf(tickData, timeframe * 1000)| &&
              forall k :: k in KeysOf(tickData, timeframe * 1000) ==>
                exists i :: 0 <= i < |result| && result[i].time == k
    ensures fillGaps && SortedBy(tickData, TickTime) ==> Contiguous(result, timeframe * 1000)
    ensures includeLatestCandle ==>
              forall k :: k in KeysOf(tickData, timeframe * 1000) ==>
                TickGroupToOhlcv(k, GroupOf(tickData, timeframe * 1000, k)) in result
    ensures forall c :: c in result ==>
              BucketCandle(tickData, timeframe * 1000, KeysOf(tickData, timeframe * 1000), c) || (fillGaps && Flat(c))
  {
    var ms := timeframe * 1000;
    var candles := GroupCandles(tickData, ms, fillGaps);
    var sortedCandles := SortBy(candles, CandleTime);
    if includeLatestCandle == false && |sortedCandles| > 0 {
      sortedCandles := sortedCandles[..|sortedCandles| - 1];
    }
    result := sortedCandles;
    TicksByTimeContract(tickData, ms, includeLatestCandle, fillGaps);
    if fillGaps && SortedBy(tickData, TickTime) {
      TicksByTimeNoGaps(tickData, ms, includeLatestCandle);
    }
    TicksByTimeContents(tickData, ms, includeLatestCandle, fillGaps);
  }
}
