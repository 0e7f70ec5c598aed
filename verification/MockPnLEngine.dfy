/**
 * The simulated ledger of MockPnLEngine.hpp, over exact reals. Log streams and `rollingStdDev` are not part of it.
 */
module MockPnLEngine {
  import opened Wrappers

  datatype SimulatedTrade = SimulatedTrade(symbol: string, entryPrice: real, exitPrice: real, direction: string,
                                           size: real, pnl: real, timestamp: UInt64)

  function Abs(x: real): real {
    if x < 0.0 then -x else x
  }

  function Min(a: real, b: real): real {
    if b < a then b else a
  }

  function Max(a: real, b: real): real {
    if a < b then b else a
  }

  /** The position taken: a hundred times the relative spread, but no more than the limit. */
  function TradeSize(syntheticPrice: real, realPrice: real, maxExposure: real): real
    requires realPrice != 0.0
  {
    Min(Abs(realPrice - syntheticPrice) / realPrice * 100.0, maxExposure)
  }

  function TradePnl(syntheticPrice: real, realPrice: real, size: real, direction: string): real
    requires realPrice != 0.0
  {
    if direction == "BUY" then (realPrice - syntheticPrice) * (size / realPrice)
    else (syntheticPrice - realPrice) * (size / realPrice)
  }

  function TradeOf(symbol: string, syntheticPrice: real, realPrice: real, timestamp: UInt64, direction: string, maxExposure: real)
    : SimulatedTrade
    requires realPrice != 0.0
  {
    var size := TradeSize(syntheticPrice, realPrice, maxExposure);
    SimulatedTrade(symbol, syntheticPrice, realPrice, direction, size, TradePnl(syntheticPrice, realPrice, size, direction), timestamp)
  }

  /** How the figures of a trade hang together: the profit is the price difference in its direction on `size / exitPrice`
      units, and the size is a hundred times the relative difference, or the limit if that is less. */
  predicate Balanced(t: SimulatedTrade, limit: real) {
    var gap := if t.exitPrice < t.entryPrice then t.entryPrice - t.exitPrice else t.exitPrice - t.entryPrice;
    && t.pnl * t.exitPrice == (if t.direction == "BUY" then t.exitPrice - t.entryPrice else t.entryPrice - t.exitPrice) * t.size
    && t.size <= limit
    && (t.size == limit || t.size * t.exitPrice == 100.0 * gap)
    && (t.exitPrice > 0.0 ==> t.size * t.exitPrice <= 100.0 * gap)
    && (t.exitPrice < 0.0 ==> t.size * t.exitPrice >= 100.0 * gap)
  }

  lemma TradeIsBalanced(symbol: string, syntheticPrice: real, realPrice: real, timestamp: UInt64, direction: string, maxExposure: real)
    requires realPrice != 0.0
    ensures Balanced(TradeOf(symbol, syntheticPrice, realPrice, timestamp, direction, maxExposure), maxExposure)
  {
    var t := TradeOf(symbol, syntheticPrice, realPrice, timestamp, direction, maxExposure);
    var edge := Abs(realPrice - syntheticPrice) / realPrice;
    assert edge * realPrice == Abs(realPrice - syntheticPrice);
    assert edge * 100.0 * realPrice == 100.0 * Abs(realPrice - syntheticPrice);
    SmallerFactor(t.size, edge * 100.0, realPrice);
    PerUnit(realPrice - syntheticPrice, t.size, realPrice);
    PerUnit(syntheticPrice - realPrice, t.size, realPrice);
  }

  lemma SmallerFactor(a: real, b: real, c: real)
    requires a <= b
    ensures c > 0.0 ==> a * c <= b * c
    ensures c < 0.0 ==> a * c >= b * c
  {
    if c > 0.0 {
      assert (b - a) * c >= 0.0;
    } else if c < 0.0 {
      assert (b - a) * -c >= 0.0;
    }
  }

  lemma PerUnit(a: real, b: real, c: real)
    requires c != 0.0
    ensures a * (b / c) * c == a * b
  {
    assert b / c * c == b;
    assert a * (b / c) * c == a * (b / c * c);
  }

  function Sum(values: seq<real>): real {
    if values == [] then 0.0 else Sum(values[..|values| - 1]) + values[|values| - 1]
  }

  function Pnls(trades: seq<SimulatedTrade>): (r: seq<real>)
    ensures |r| == |trades|
  {
    seq(|trades|, i requires 0 <= i < |trades| => trades[i].pnl)
  }

  /** The largest size so far, starting from none. */
  ghost predicate IsLargestSize(m: real, trades: seq<SimulatedTrade>) {
    && m >= 0.0
    && (forall t :: t in trades ==> t.size <= m)
    && (m == 0.0 || exists t :: t in trades && t.size == m)
  }

  class MockPnLEngine {
    const maxExposure: real
    var pnlSeries: seq<real>
    var trades: seq<SimulatedTrade>
    var totalPnl: real
    var maxObservedExposure: real

    /** The running figures are those of the recorded trades. */
    ghost predicate Valid()
      reads this
    {
      && pnlSeries == Pnls(trades)
      && totalPnl == Sum(pnlSeries)
      && IsLargestSize(maxObservedExposure, trades)
      && (forall t :: t in trades ==> t.size <= maxExposure)
    }

    constructor (maxExposure: real)
      ensures Valid() && this.maxExposure == maxExposure && trades == []
    {
      this.maxExposure := maxExposure;
      pnlSeries, trades, totalPnl, maxObservedExposure := [], [], 0.0, 0.0;
    }

    lemma ExposureWithinLimit()
      requires Valid() && maxExposure >= 0.0
      ensures 0.0 <= maxObservedExposure <= maxExposure
    {
      var m := maxObservedExposure;
      assert m == 0.0 || exists t :: t in trades && t.size == m;
    }

    /** Spread, edge, capped size and profit of a trade. */
    method NewTrade(symbol: string, syntheticPrice: real, realPrice: real, timestamp: UInt64, direction: string)
      returns (trade: SimulatedTrade)
      requires realPrice != 0.0
      ensures trade == TradeOf(symbol, syntheticPrice, realPrice, timestamp, direction, maxExposure)
      ensures trade.size <= maxExposure
    {
      var spread := Abs(realPrice - syntheticPrice);
      var edge := spread / realPrice;
      var size := Min(edge * 100.0, maxExposure);
      var pnl := if direction == "BUY" then (realPrice - syntheticPrice) * (size / realPrice)
                 else (syntheticPrice - realPrice) * (size / realPrice);
      trade := SimulatedTrade(symbol, syntheticPrice, realPrice, direction, size, pnl, timestamp);
    }

    method RecordTrade(symbol: string, syntheticPrice: real, realPrice: real, timestamp: UInt64, direction: string)
      requires Valid() && realPrice != 0.0
      modifies this
      ensures Valid()
      ensures trades == old(trades) + [TradeOf(symbol, syntheticPrice, realPrice, timestamp, direction, maxExposure)]
      ensures var t := trades[|trades| - 1];
              && t.symbol == symbol && t.entryPrice == syntheticPrice && t.exitPrice == realPrice
              && t.direction == direction && t.timestamp == timestamp
              && Balanced(t, maxExposure) && totalPnl == old(totalPnl) + t.pnl
    {
      FieldsOfTrade(symbol, syntheticPrice, realPrice, timestamp, direction, maxExposure);
      TradeIsBalanced(symbol, syntheticPrice, realPrice, timestamp, direction, maxExposure);
      hide TradeOf, IsLargestSize, Pnls, Max, Balanced;
      var trade := NewTrade(symbol, syntheticPrice, realPrice, timestamp, direction);
      LargestSizeGrows(maxObservedExposure, trades, trade);
      OneMorePnl(trades, trade);
      trades := trades + [trade];
      totalPnl := totalPnl + trade.pnl;
      maxObservedExposure := Max(maxObservedExposure, trade.size);
      pnlSeries := pnlSeries + [trade.pnl];
      assert pnlSeries[..|pnlSeries| - 1] == old(pnlSeries);
    }
  }

  lemma FieldsOfTrade(symbol: string, syntheticPrice: real, realPrice: real, timestamp: UInt64, direction: string, maxExposure: real)
    requires realPrice != 0.0
    ensures var t := TradeOf(symbol, syntheticPrice, realPrice, timestamp, direction, maxExposure);
            && t.symbol == symbol && t.entryPrice == syntheticPrice && t.exitPrice == realPrice
            && t.direction == direction && t.timestamp == timestamp
  {
  }

  lemma OneMorePnl(trades: seq<SimulatedTrade>, trade: SimulatedTrade)
    ensures Pnls(trades + [trade]) == Pnls(trades) + [trade.pnl]
  {
  }

  lemma LargestSizeGrows(m: real, trades: seq<SimulatedTrade>, trade: SimulatedTrade)
    requires IsLargestSize(m, trades)
    ensures IsLargestSize(Max(m, trade.size), trades + [trade])
  {
    var longer := trades + [trade];
    assert trade in longer && forall t :: t in longer <==> t in trades || t == trade;
    if m > 0.0 {
      var t :| t in trades && t.size == m;
      assert t in longer;
    }
  }

  // ---------- what a trade earns ----------

  /** Earnings as a function of the relative edge d: the edge times the position it leads to. */
  function Gain(d: real, maxExposure: real): real {
    d * Min(100.0 * Abs(d), maxExposure)
  }

  /** The relative edge of a trade in its direction. */
  function Edge(syntheticPrice: real, realPrice: real, direction: string): real
    requires realPrice != 0.0
  {
    if direction == "BUY" then (realPrice - syntheticPrice) / realPrice else -((realPrice - syntheticPrice) / realPrice)
  }

  lemma PnlIsGain(syntheticPrice: real, realPrice: real, direction: string, maxExposure: real)
    requires realPrice > 0.0
    ensures TradePnl(syntheticPrice, realPrice, TradeSize(syntheticPrice, realPrice, maxExposure), direction)
         == Gain(Edge(syntheticPrice, realPrice, direction), maxExposure)
  {
    var spread := realPrice - syntheticPrice;
    var d := spread / realPrice;
    var size := TradeSize(syntheticPrice, realPrice, maxExposure);
    assert Abs(spread) / realPrice == Abs(d);
    assert size == Min(100.0 * Abs(d), maxExposure);
    TimesQuotient(spread, size, realPrice);
    TimesQuotient(-spread, size, realPrice);
  }

  lemma TimesQuotient(a: real, b: real, c: real)
    requires c > 0.0
    ensures a * (b / c) == (a / c) * b
    ensures (-a) / c == -(a / c)
  {
  }

  lemma GainSign(d: real, maxExposure: real)
    requires maxExposure > 0.0
    ensures Gain(d, maxExposure) > 0.0 <==> d > 0.0
    ensures Gain(d, maxExposure) < 0.0 <==> d < 0.0
  {
    var size := Min(100.0 * Abs(d), maxExposure);
    assert d != 0.0 ==> size > 0.0;
    if d > 0.0 {
      assert d * size > 0.0;
    } else if d < 0.0 {
      assert (-d) * size > 0.0;
    }
  }

  lemma GainMonotone(d: real, e: real, maxExposure: real)
    requires maxExposure > 0.0 && d <= e
    ensures Gain(d, maxExposure) <= Gain(e, maxExposure)
  {
    GainSign(d, maxExposure);
    GainSign(e, maxExposure);
    var p, q := Min(100.0 * Abs(d), maxExposure), Min(100.0 * Abs(e), maxExposure);
    if d >= 0.0 {
      ProductMonotone(d, e, p, q);
    } else if e < 0.0 {
      ProductMonotone(-e, -d, q, p);
    }
  }

  lemma ProductMonotone(a: real, b: real, p: real, q: real)
    requires 0.0 <= a <= b && 0.0 <= p <= q
    ensures a * p <= b * q
  {
    assert a * p <= b * p;
    assert b * p <= b * q;
  }
}
