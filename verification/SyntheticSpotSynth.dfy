/**
 * The synthetic price of SyntheticSpotSynth.hpp and its decision to trade, over exact reals. Console output, log
 * files and the averaging buffer, which only feeds a printed message, are not part of this model.
 */
module SyntheticSpotSynth {
  import opened Wrappers
  import Arb = ArbOpportunityEngine
  import opened MockPnLEngine

  const TRIGGER_THRESHOLD := 0.1
  const SLIPPAGE_RATE := 0.0002
  const MAX_AGE := 1500

  /** `std::abs((int64_t)(a - b))`: the unsigned difference read as a signed number. */
  function Distance(a: UInt64, b: UInt64): nat {
    var difference: nat := Arb.Since(a, b);
    if difference < UINT64_RANGE / 2 then difference else UINT64_RANGE - difference
  }

  /** Up to half the range of the counter this is the gap between the two times. */
  lemma DistanceIsGap(a: UInt64, b: UInt64)
    ensures Distance(a, b) == Distance(b, a)
    ensures -0x8000_0000_0000_0000 < a - b < 0x8000_0000_0000_0000 ==> Distance(a, b) == if a < b then b - a else a - b
  {
    Arb.SinceIs(a, b);
    Arb.SinceIs(b, a);
    hide Arb.Since;
  }

  /** The fields that hold the feeds. */
  datatype Market = Market(ethbtc: real, btcusdt: real, tsEthbtc: UInt64, tsBtcusdt: UInt64, readyEthbtc: bool, readyBtcusdt: bool,
                           syntheticPrice: real, realEthusdt: real, lastTs: UInt64)
  {
    predicate Ready() {
      readyEthbtc && readyBtcusdt
    }

    function Price(): real {
      ethbtc * btcusdt
    }
  }

  const NO_MARKET := Market(0.0, 0.0, 0, 0, false, false, 0.0, 0.0, 0)

  function WithTick(m: Market, symbol: string, price: real, timestamp: UInt64): Market {
    if symbol == "ETHBTC" then m.(ethbtc := price, tsEthbtc := timestamp, readyEthbtc := true)
    else if symbol == "BTCUSDT" then m.(btcusdt := price, tsBtcusdt := timestamp, readyBtcusdt := true)
    else m
  }

  function Updated(m: Market, symbol: string, price: real, timestamp: UInt64): Market {
    var n := WithTick(m, symbol, price, timestamp);
    if n.Ready() && Distance(n.tsEthbtc, n.tsBtcusdt) <= MAX_AGE then n.(syntheticPrice := n.Price(), lastTs := timestamp) else n
  }

  function Compared(m: Market, realPrice: real): Market {
    if m.Ready() then m.(syntheticPrice := m.Price(), realEthusdt := realPrice) else m
  }

  /** The market asks for a trade, if the cooldown allows one. */
  predicate Signals(m: Market, realPrice: real) {
    m.Ready() && Abs(m.Price() - realPrice) >= TRIGGER_THRESHOLD
  }

  function Direction(synthetic: real, realPrice: real): string {
    if synthetic - realPrice > 0.0 then "SELL" else "BUY"
  }

  function Entry(synthetic: real, direction: string): real {
    if direction == "BUY" then synthetic * (1.0 + SLIPPAGE_RATE) else synthetic * (1.0 - SLIPPAGE_RATE)
  }

  function Exit(realPrice: real, direction: string): (r: real)
    ensures realPrice != 0.0 ==> r != 0.0
    ensures realPrice > 0.0 ==> r > 0.0
  {
    if direction == "BUY" then realPrice * (1.0 - SLIPPAGE_RATE) else realPrice * (1.0 + SLIPPAGE_RATE)
  }

  /** The trade taken at the two prices: slipped on both sides, in the direction of the gap. */
  function TradeAt(synthetic: real, realPrice: real, timestamp: UInt64, maxExposure: real): SimulatedTrade
    requires realPrice != 0.0
  {
    var direction := Direction(synthetic, realPrice);
    TradeOf("ETHUSDT", Entry(synthetic, direction), Exit(realPrice, direction), timestamp, direction, maxExposure)
  }

  class SyntheticSpotSynth {
    var market: Market
    var arbEngine: Arb.ArbOpportunityEngine?
    var pnlTracker: MockPnLEngine?

    constructor ()
      ensures market == NO_MARKET && arbEngine == null && pnlTracker == null
    {
      market := NO_MARKET;
      arbEngine, pnlTracker := null, null;
    }

    method AttachArbEngine(e: Arb.ArbOpportunityEngine)
      modifies this`arbEngine
      ensures arbEngine == e
    {
      arbEngine := e;
    }

    method AttachMockPnL(p: MockPnLEngine)
      modifies this`pnlTracker
      ensures pnlTracker == p
    {
      pnlTracker := p;
    }

    method Update(symbol: string, price: real, timestamp: UInt64)
      modifies this`market
      ensures market == Updated(old(market), symbol, price, timestamp)
    {
      if symbol == "ETHBTC" {
        market := market.(ethbtc := price, tsEthbtc := timestamp, readyEthbtc := true);
      } else if symbol == "BTCUSDT" {
        market := market.(btcusdt := price, tsBtcusdt := timestamp, readyBtcusdt := true);
      }
      var syncedTicks := market.readyEthbtc && market.readyBtcusdt && Distance(market.tsEthbtc, market.tsBtcusdt) <= MAX_AGE;
      if syncedTicks {
        market := market.(syntheticPrice := market.ethbtc * market.btcusdt, lastTs := timestamp);
      }
    }

    /** This comparison leads to a trade, if a ledger is attached. */
    predicate Fires(realPrice: real, timestamp: UInt64)
      reads this, arbEngine
    {
      && arbEngine != null
      && Signals(market, realPrice)
      && Arb.Ready(arbEngine.cooldown, Arb.Lookup(arbEngine.lastTrigger, "ETHUSDT"), timestamp)
    }

    method CompareToReal(realPrice: real, timestamp: UInt64)
      requires pnlTracker != null ==> pnlTracker.Valid()
      requires pnlTracker != null && Fires(realPrice, timestamp) ==> realPrice != 0.0
      modifies this`market, arbEngine, pnlTracker
      ensures market == Compared(old(market), realPrice)
      ensures pnlTracker != null ==> pnlTracker.Valid()
      ensures arbEngine != null ==>
                arbEngine.lastTrigger == if old(Fires(realPrice, timestamp)) then old(arbEngine.lastTrigger)["ETHUSDT" := timestamp]
                                         else old(arbEngine.lastTrigger)
      ensures pnlTracker != null ==>
                pnlTracker.trades == if old(Fires(realPrice, timestamp))
                                     then old(pnlTracker.trades) + [TradeAt(market.Price(), realPrice, timestamp, pnlTracker.maxExposure)]
                                     else old(pnlTracker.trades)
    {
      hide TradeAt, Arb.Ready;
      if !market.readyEthbtc || !market.readyBtcusdt {
        return;
      }
      market := market.(syntheticPrice := market.ethbtc * market.btcusdt, realEthusdt := realPrice);
      var delta := market.syntheticPrice - realPrice;
      if arbEngine != null && Abs(delta) >= TRIGGER_THRESHOLD {
        var fire := arbEngine.ShouldTrigger("ETHUSDT", timestamp);
        assert pnlTracker != null ==> pnlTracker.trades == old(pnlTracker.trades) && pnlTracker.Valid();
        assert fire <==> old(Fires(realPrice, timestamp));
        if fire && pnlTracker != null {
          TakeTrade(pnlTracker, delta, realPrice, timestamp);
          assert market.syntheticPrice == market.Price();
          assert pnlTracker.trades == old(pnlTracker.trades) + [TradeAt(market.syntheticPrice, realPrice, timestamp, pnlTracker.maxExposure)];
          assert arbEngine.lastTrigger == old(arbEngine.lastTrigger)["ETHUSDT" := timestamp];
        }
      }
    }

    /** The trade that follows a trigger: direction of the gap, slippage on both prices. */
    method TakeTrade(tracker: MockPnLEngine, delta: real, realPrice: real, timestamp: UInt64)
      requires realPrice != 0.0 && tracker.Valid() && delta == market.syntheticPrice - realPrice
      modifies tracker
      ensures tracker.Valid()
      ensures tracker.trades == old(tracker.trades) + [TradeAt(market.syntheticPrice, realPrice, timestamp, tracker.maxExposure)]
    {
      var direction := if delta > 0.0 then "SELL" else "BUY";
      var effectiveEntry := if direction == "BUY" then market.syntheticPrice * (1.0 + SLIPPAGE_RATE)
                            else market.syntheticPrice * (1.0 - SLIPPAGE_RATE);
      var effectiveExit := if direction == "BUY" then realPrice * (1.0 - SLIPPAGE_RATE)
                           else realPrice * (1.0 + SLIPPAGE_RATE);
      assert direction == Direction(market.syntheticPrice, realPrice);
      assert effectiveEntry == Entry(market.syntheticPrice, direction) && effectiveExit == Exit(realPrice, direction);
      hide TradeOf, Entry, Exit;
      tracker.RecordTrade("ETHUSDT", effectiveEntry, effectiveExit, timestamp, direction);
    }
  }

  // ---------- what slippage does to a trade ----------

  lemma QuotientBelow(a: real, b: real, c: real, d: real)
    requires b > 0.0 && d > 0.0 && a * d <= c * b
    ensures a / b <= c / d
  {
    var q, r := a / b, c / d;
    assert q * b == a && r * d == c;
    RatioOrder(q, r, b, d);
  }

  lemma RatioOrder(q: real, r: real, b: real, d: real)
    requires b > 0.0 && d > 0.0 && q * b * d <= r * d * b
    ensures q <= r
  {
    assert b * d > 0.0;
    assert q * b * d == q * (b * d) && r * d * b == r * (b * d);
    assert q > r ==> (q - r) * (b * d) > 0.0;
  }

  /** Slipped prices have the smaller edge. */
  lemma SlippedEdge(synthetic: real, realPrice: real)
    requires synthetic > 0.0 && realPrice > 0.0
    ensures var d := Direction(synthetic, realPrice);
            Edge(Entry(synthetic, d), Exit(realPrice, d), d) <= Edge(synthetic, realPrice, d)
  {
    var d := Direction(synthetic, realPrice);
    var entry, exit := Entry(synthetic, d), Exit(realPrice, d);
    EdgeIsRatio(synthetic, realPrice, d);
    EdgeIsRatio(entry, exit, d);
    assert synthetic * realPrice > 0.0;
    if d == "BUY" {
      assert synthetic * exit == (synthetic * realPrice) * (1.0 - SLIPPAGE_RATE);
      assert entry * realPrice == (synthetic * realPrice) * (1.0 + SLIPPAGE_RATE);
      QuotientBelow(synthetic, realPrice, entry, exit);
    } else {
      assert synthetic * exit == (synthetic * realPrice) * (1.0 + SLIPPAGE_RATE);
      assert entry * realPrice == (synthetic * realPrice) * (1.0 - SLIPPAGE_RATE);
      QuotientBelow(entry, exit, synthetic, realPrice);
    }
  }

  lemma EdgeIsRatio(synthetic: real, realPrice: real, direction: string)
    requires realPrice > 0.0
    ensures Edge(synthetic, realPrice, direction)
         == if direction == "BUY" then 1.0 - synthetic / realPrice else synthetic / realPrice - 1.0
    ensures Edge(synthetic, realPrice, direction) > 0.0
       <==> if direction == "BUY" then synthetic < realPrice else synthetic > realPrice
    ensures Edge(synthetic, realPrice, direction) >= 0.0
       <==> if direction == "BUY" then synthetic <= realPrice else synthetic >= realPrice
  {
    var q, e := synthetic / realPrice, (realPrice - synthetic) / realPrice;
    assert q * realPrice == synthetic && e * realPrice == realPrice - synthetic;
    Cancel(e, 1.0 - q, realPrice);
    RatioAgainstOne(q, realPrice);
  }

  lemma Cancel(a: real, b: real, p: real)
    requires p > 0.0 && a * p == b * p
    ensures a == b
  {
    assert (a - b) * p == 0.0;
  }

  lemma RatioAgainstOne(q: real, p: real)
    requires p > 0.0
    ensures q < 1.0 <==> q * p < p
    ensures q > 1.0 <==> q * p > p
  {
  }

  /** The trade at the prices themselves, without slippage. */
  function FairTrade(synthetic: real, realPrice: real, timestamp: UInt64, maxExposure: real): SimulatedTrade
    requires realPrice != 0.0
  {
    TradeOf("ETHUSDT", synthetic, realPrice, timestamp, Direction(synthetic, realPrice), maxExposure)
  }

  lemma TradeGains(symbol: string, synthetic: real, realPrice: real, timestamp: UInt64, direction: string, maxExposure: real)
    requires realPrice > 0.0
    ensures TradeOf(symbol, synthetic, realPrice, timestamp, direction, maxExposure).pnl
         == Gain(Edge(synthetic, realPrice, direction), maxExposure)
  {
    PnlIsGain(synthetic, realPrice, direction, maxExposure);
    hide Gain, TradePnl, TradeSize;
  }

  /** Slippage never helps, the trade would earn without it, and it earns with it exactly when the gap exceeds the
      slippage on both prices. */
  lemma SlippageNeverHelps(synthetic: real, realPrice: real, timestamp: UInt64, maxExposure: real)
    requires synthetic > 0.0 && realPrice > 0.0 && maxExposure > 0.0
    ensures TradeAt(synthetic, realPrice, timestamp, maxExposure).pnl <= FairTrade(synthetic, realPrice, timestamp, maxExposure).pnl
    ensures FairTrade(synthetic, realPrice, timestamp, maxExposure).pnl >= 0.0
    ensures TradeAt(synthetic, realPrice, timestamp, maxExposure).pnl > 0.0
       <==> Abs(synthetic - realPrice) > 0.0002 * (synthetic + realPrice)
  {
    hide TradeOf, Gain, Edge;
    var d := Direction(synthetic, realPrice);
    var entry, exit := Entry(synthetic, d), Exit(realPrice, d);
    TradeGains("ETHUSDT", entry, exit, timestamp, d, maxExposure);
    TradeGains("ETHUSDT", synthetic, realPrice, timestamp, d, maxExposure);
    SlippedEdge(synthetic, realPrice);
    GainMonotone(Edge(entry, exit, d), Edge(synthetic, realPrice, d), maxExposure);
    GainSign(Edge(entry, exit, d), maxExposure);
    GainSign(Edge(synthetic, realPrice, d), maxExposure);
    EdgeIsRatio(entry, exit, d);
    EdgeIsRatio(synthetic, realPrice, d);
    EntryAgainstExit(synthetic, realPrice);
  }

  predicate EarnsAfterSlippage(synthetic: real, realPrice: real) {
    var d := Direction(synthetic, realPrice);
    if d == "BUY" then Entry(synthetic, d) < Exit(realPrice, d) else Entry(synthetic, d) > Exit(realPrice, d)
  }

  lemma EntryAgainstExit(synthetic: real, realPrice: real)
    requires synthetic > 0.0 && realPrice > 0.0
    ensures EarnsAfterSlippage(synthetic, realPrice) <==> Abs(synthetic - realPrice) > SLIPPAGE_RATE * (synthetic + realPrice)
  {
  }

  // ---------- whole runs ----------

  datatype Tick = Update(symbol: string, price: real, time: UInt64) | Compare(realPrice: real, time: UInt64)

  predicate Positive(ticks: seq<Tick>) {
    forall t :: t in ticks ==> if t.Update? then t.price > 0.0 else t.realPrice > 0.0
  }

  function MarketAfter(m: Market, tick: Tick): Market {
    match tick
    case Update(symbol, price, time) => Updated(m, symbol, price, time)
    case Compare(realPrice, _) => Compared(m, realPrice)
  }

  /** The tick leads to a trade: a comparison that signals, outside the cooldown. */
  predicate Takes(cooldown: UInt64, n: Market, last: map<string, UInt64>, tick: Tick) {
    tick.Compare? && Signals(n, tick.realPrice) && Arb.Ready(cooldown, Arb.Lookup(last, "ETHUSDT"), tick.time)
  }

  function TradeOn(n: Market, tick: Tick, maxExposure: real): SimulatedTrade
    requires tick.Compare? && tick.realPrice != 0.0
  {
    TradeAt(n.Price(), tick.realPrice, tick.time, maxExposure)
  }

  /** The trades of a run, in order. */
  function Trades(cooldown: UInt64, maxExposure: real, m: Market, last: map<string, UInt64>, ticks: seq<Tick>): seq<SimulatedTrade>
    requires Positive(ticks)
    decreases |ticks|
  {
    if ticks == [] then []
    else
      var tick, n := ticks[0], MarketAfter(m, ticks[0]);
      if Takes(cooldown, n, last, tick) then
        assert tick in ticks;
        [TradeOn(n, tick, maxExposure)] + Trades(cooldown, maxExposure, n, last["ETHUSDT" := tick.time], ticks[1..])
      else Trades(cooldown, maxExposure, n, last, ticks[1..])
  }

  // ---------- the run, read off the ticks ----------

  predicate Feeds(ticks: seq<Tick>, symbol: string, i: nat) {
    i < |ticks| && ticks[i].Update? && ticks[i].symbol == symbol
  }

  /** The last tick of a feed among the first n ticks. */
  function LastTick(ticks: seq<Tick>, symbol: string, n: nat): (r: Option<nat>)
    requires n <= |ticks|
    ensures r.None? ==> forall i :: 0 <= i < n ==> !Feeds(ticks, symbol, i)
    ensures r.Some? ==> r.value < n && Feeds(ticks, symbol, r.value)
    ensures r.Some? ==> forall i :: r.value < i < n ==> !Feeds(ticks, symbol, i)
  {
    if n == 0 then None else if Feeds(ticks, symbol, n - 1) then Some(n - 1) else LastTick(ticks, symbol, n - 1)
  }

  /** Both feeds are among the first n ticks. */
  predicate Fed(ticks: seq<Tick>, n: nat)
    requires n <= |ticks|
  {
    LastTick(ticks, "ETHBTC", n).Some? && LastTick(ticks, "BTCUSDT", n).Some?
  }

  /** The last prices of the two feeds among the first n ticks, multiplied. */
  function Product(ticks: seq<Tick>, n: nat): real
    requires n <= |ticks| && Fed(ticks, n)
  {
    ticks[LastTick(ticks, "ETHBTC", n).value].price * ticks[LastTick(ticks, "BTCUSDT", n).value].price
  }

  /** Two times at most 1500 apart, also across the end of the 64-bit counter. */
  predicate InStep(a: UInt64, b: UInt64) {
    || -1500 <= a - b <= 1500
    || a - b >= 0x1_0000_0000_0000_0000 - 1500
    || b - a >= 0x1_0000_0000_0000_0000 - 1500
  }

  lemma DistanceInStep(a: UInt64, b: UInt64)
    ensures Distance(a, b) <= MAX_AGE <==> InStep(a, b)
  {
    Arb.SinceIs(a, b);
    hide Arb.Since;
  }

  datatype Cause = ByUpdate | ByComparison | ByEither

  /** Tick k refreshes the synthetic price: a comparison, or an update after which the feeds are in step. */
  predicate Refreshes(ticks: seq<Tick>, cause: Cause, k: nat) {
    && k < |ticks| && Fed(ticks, k + 1)
    && if ticks[k].Compare? then cause != ByUpdate
       else cause != ByComparison && InStep(ticks[LastTick(ticks, "ETHBTC", k + 1).value].time,
                                            ticks[LastTick(ticks, "BTCUSDT", k + 1).value].time)
  }

  function LastRefresh(ticks: seq<Tick>, cause: Cause, n: nat): (r: Option<nat>)
    requires n <= |ticks|
    ensures r.None? ==> forall k :: 0 <= k < n ==> !Refreshes(ticks, cause, k)
    ensures r.Some? ==> r.value < n && Refreshes(ticks, cause, r.value)
    ensures r.Some? ==> forall k :: r.value < k < n ==> !Refreshes(ticks, cause, k)
  {
    if n == 0 then None else if Refreshes(ticks, cause, n - 1) then Some(n - 1) else LastRefresh(ticks, cause, n - 1)
  }

  function MarketAt(ticks: seq<Tick>, n: nat): Market
    requires n <= |ticks|
  {
    if n == 0 then NO_MARKET else MarketAfter(MarketAt(ticks, n - 1), ticks[n - 1])
  }

  /** Each feed is ready once it has ticked, and holds the price and time of its last tick. */
  predicate HoldsFeeds(m: Market, ticks: seq<Tick>, n: nat)
    requires n <= |ticks|
  {
    && (match LastTick(ticks, "ETHBTC", n)
        case None => !m.readyEthbtc
        case Some(i) => m.readyEthbtc && m.ethbtc == ticks[i].price && m.tsEthbtc == ticks[i].time)
    && (match LastTick(ticks, "BTCUSDT", n)
        case None => !m.readyBtcusdt
        case Some(i) => m.readyBtcusdt && m.btcusdt == ticks[i].price && m.tsBtcusdt == ticks[i].time)
  }

  /** The synthetic price is the product of the feeds at the last refresh; its time is that of the last update to refresh
      it, and the real price is that of the last comparison to. */
  predicate HoldsPrices(m: Market, ticks: seq<Tick>, n: nat)
    requires n <= |ticks|
  {
    && m.syntheticPrice == ProductOf(ticks, LastRefresh(ticks, ByEither, n))
    && m.lastTs == TimeOf(ticks, LastRefresh(ticks, ByUpdate, n))
    && m.realEthusdt == RealOf(ticks, LastRefresh(ticks, ByComparison, n))
  }

  function ProductOf(ticks: seq<Tick>, k: Option<nat>): real
    requires k.Some? ==> Refreshes(ticks, ByEither, k.value)
  {
    if k.Some? then Product(ticks, k.value + 1) else 0.0
  }

  function TimeOf(ticks: seq<Tick>, k: Option<nat>): UInt64
    requires k.Some? ==> k.value < |ticks|
  {
    if k.Some? then ticks[k.value].time else 0
  }

  function RealOf(ticks: seq<Tick>, k: Option<nat>): real
    requires k.Some? ==> Refreshes(ticks, ByComparison, k.value)
  {
    if k.Some? then ticks[k.value].realPrice else 0.0
  }

  lemma FeedsStep(m: Market, ticks: seq<Tick>, n: nat)
    requires n < |ticks| && HoldsFeeds(m, ticks, n)
    ensures HoldsFeeds(MarketAfter(m, ticks[n]), ticks, n + 1)
  {
    hide Distance;
  }

  lemma FeedsInStep(m: Market, ticks: seq<Tick>, n: nat)
    requires n <= |ticks| && HoldsFeeds(m, ticks, n)
    ensures m.Ready() <==> Fed(ticks, n)
    ensures m.Ready() ==> m.Price() == Product(ticks, n)
    ensures m.Ready() ==>
              var e, b := LastTick(ticks, "ETHBTC", n).value, LastTick(ticks, "BTCUSDT", n).value;
              Distance(m.tsEthbtc, m.tsBtcusdt) <= MAX_AGE <==> InStep(ticks[e].time, ticks[b].time)
  {
    DistanceInStep(m.tsEthbtc, m.tsBtcusdt);
    hide Distance, InStep, LastTick;
  }

  /** The fields of the price after a tick, in terms of the feeds after it. */
  lemma PriceFields(m: Market, tick: Tick)
    ensures var n := MarketAfter(m, tick);
            var synced := n.Ready() && Distance(n.tsEthbtc, n.tsBtcusdt) <= MAX_AGE;
            match tick
            case Update(_, _, time) =>
              && n.syntheticPrice == (if synced then n.Price() else m.syntheticPrice)
              && n.lastTs == (if synced then time else m.lastTs) && n.realEthusdt == m.realEthusdt
            case Compare(realPrice, _) =>
              && n.syntheticPrice == (if n.Ready() then n.Price() else m.syntheticPrice)
              && n.realEthusdt == (if n.Ready() then realPrice else m.realEthusdt) && n.lastTs == m.lastTs
  {
    hide Distance;
  }

  lemma LastRefreshStep(ticks: seq<Tick>, cause: Cause, n: nat)
    requires n < |ticks|
    ensures LastRefresh(ticks, cause, n + 1) == if Refreshes(ticks, cause, n) then Some(n) else LastRefresh(ticks, cause, n)
  {
  }

  lemma RefreshesWhen(m: Market, ticks: seq<Tick>, cause: Cause, n: nat)
    requires n < |ticks| && HoldsFeeds(m, ticks, n + 1)
    ensures Refreshes(ticks, cause, n) <==>
            m.Ready() && if ticks[n].Compare? then cause != ByUpdate
                         else cause != ByComparison && Distance(m.tsEthbtc, m.tsBtcusdt) <= MAX_AGE
    ensures Refreshes(ticks, cause, n) ==> m.Price() == Product(ticks, n + 1)
  {
    FeedsInStep(m, ticks, n + 1);
    hide Distance, InStep, LastTick, HoldsFeeds, Product, Market.Ready, Market.Price;
  }

  lemma SyntheticStep(m: Market, ticks: seq<Tick>, n: nat)
    requires n < |ticks| && m.syntheticPrice == ProductOf(ticks, LastRefresh(ticks, ByEither, n))
    requires HoldsFeeds(MarketAfter(m, ticks[n]), ticks, n + 1)
    ensures MarketAfter(m, ticks[n]).syntheticPrice == ProductOf(ticks, LastRefresh(ticks, ByEither, n + 1))
  {
    PriceFields(m, ticks[n]);
    RefreshesWhen(MarketAfter(m, ticks[n]), ticks, ByEither, n);
    LastRefreshStep(ticks, ByEither, n);
    hide Distance, Refreshes, LastRefresh, HoldsFeeds, Product, MarketAfter, Market.Ready, Market.Price;
  }

  lemma SyncTimeStep(m: Market, ticks: seq<Tick>, n: nat)
    requires n < |ticks| && m.lastTs == TimeOf(ticks, LastRefresh(ticks, ByUpdate, n))
    requires HoldsFeeds(MarketAfter(m, ticks[n]), ticks, n + 1)
    ensures MarketAfter(m, ticks[n]).lastTs == TimeOf(ticks, LastRefresh(ticks, ByUpdate, n + 1))
  {
    PriceFields(m, ticks[n]);
    RefreshesWhen(MarketAfter(m, ticks[n]), ticks, ByUpdate, n);
    LastRefreshStep(ticks, ByUpdate, n);
    hide Distance, Refreshes, LastRefresh, HoldsFeeds, Product, MarketAfter, Market.Ready, Market.Price;
  }

  lemma RealStep(m: Market, ticks: seq<Tick>, n: nat)
    requires n < |ticks| && m.realEthusdt == RealOf(ticks, LastRefresh(ticks, ByComparison, n))
    requires HoldsFeeds(MarketAfter(m, ticks[n]), ticks, n + 1)
    ensures MarketAfter(m, ticks[n]).realEthusdt == RealOf(ticks, LastRefresh(ticks, ByComparison, n + 1))
  {
    PriceFields(m, ticks[n]);
    RefreshesWhen(MarketAfter(m, ticks[n]), ticks, ByComparison, n);
    LastRefreshStep(ticks, ByComparison, n);
    hide Distance, Refreshes, LastRefresh, HoldsFeeds, Product, MarketAfter, Market.Ready, Market.Price;
  }

  lemma PricesStep(m: Market, ticks: seq<Tick>, n: nat)
    requires n < |ticks| && HoldsPrices(m, ticks, n) && HoldsFeeds(MarketAfter(m, ticks[n]), ticks, n + 1)
    ensures HoldsPrices(MarketAfter(m, ticks[n]), ticks, n + 1)
  {
    hide MarketAfter, HoldsFeeds, LastRefresh, ProductOf, TimeOf, RealOf, Refreshes;
    SyntheticStep(m, ticks, n);
    SyncTimeStep(m, ticks, n);
    RealStep(m, ticks, n);
  }

  lemma MarketStarts(ticks: seq<Tick>)
    ensures MarketAt(ticks, 0) == NO_MARKET
    ensures HoldsFeeds(NO_MARKET, ticks, 0) && HoldsPrices(NO_MARKET, ticks, 0)
  {
  }

  lemma MarketNext(ticks: seq<Tick>, n: nat)
    requires n < |ticks|
    ensures MarketAt(ticks, n + 1) == MarketAfter(MarketAt(ticks, n), ticks[n])
  {
  }

  /** What the fields hold after the first n ticks. */
  lemma {:induction false} MarketHolds(ticks: seq<Tick>, n: nat)
    requires n <= |ticks|
    ensures HoldsFeeds(MarketAt(ticks, n), ticks, n) && HoldsPrices(MarketAt(ticks, n), ticks, n)
  {
    hide *;
    MarketStarts(ticks);
    if n > 0 {
      MarketHolds(ticks, n - 1);
      MarketNext(ticks, n - 1);
      FeedsStep(MarketAt(ticks, n - 1), ticks, n - 1);
      PricesStep(MarketAt(ticks, n - 1), ticks, n - 1);
    }
  }

  /** Tick k asks for a trade: a comparison of the feeds' last prices before it with a real price at least 0.1 away. */
  predicate SignalTick(ticks: seq<Tick>, k: nat) {
    && k < |ticks| && ticks[k].Compare? && Fed(ticks, k)
    && (ticks[k].realPrice - Product(ticks, k) >= 0.1 || Product(ticks, k) - ticks[k].realPrice >= 0.1)
  }

  /** The time of tick k is more than the cooldown from that of the last trade, on the 64-bit counter. */
  predicate CooledDown(cooldown: UInt64, ticks: seq<Tick>, last: Option<nat>, k: nat)
    requires k < |ticks| && (last.Some? ==> last.value < |ticks|)
  {
    last.Some? ==>
      var t, u := ticks[k].time, ticks[last.value].time;
      if t >= u then t - u > cooldown else u - t < 0x1_0000_0000_0000_0000 - cooldown
  }

  /** The ticks that trade, from tick n on: each signal outside the cooldown of the last trade. */
  function TradeTicks(cooldown: UInt64, ticks: seq<Tick>, n: nat, last: Option<nat>): (ks: seq<nat>)
    requires n <= |ticks| && (last.Some? ==> last.value < |ticks|)
    ensures forall j :: 0 <= j < |ks| ==> n <= ks[j] < |ticks| && SignalTick(ticks, ks[j])
    ensures forall i, j :: 0 <= i < j < |ks| ==> ks[i] < ks[j]
    decreases |ticks| - n
  {
    if n == |ticks| then []
    else if SignalTick(ticks, n) && CooledDown(cooldown, ticks, last, n) then [n] + TradeTicks(cooldown, ticks, n + 1, Some(n))
    else TradeTicks(cooldown, ticks, n + 1, last)
  }

  /** The trade of tick k, field by field. */
  predicate TradeOfTick(t: SimulatedTrade, ticks: seq<Tick>, k: nat, limit: real)
    requires SignalTick(ticks, k)
  {
    var synthetic, realPrice := Product(ticks, k), ticks[k].realPrice;
    && t.symbol == "ETHUSDT" && t.timestamp == ticks[k].time && Balanced(t, limit)
    && if synthetic > realPrice
       then t.direction == "SELL" && t.entryPrice == synthetic * 0.9998 && t.exitPrice == realPrice * 1.0002
       else t.direction == "BUY" && t.entryPrice == synthetic * 1.0002 && t.exitPrice == realPrice * 0.9998
  }

  predicate TradesOfTicks(trades: seq<SimulatedTrade>, ticks: seq<Tick>, ks: seq<nat>, limit: real) {
    && |trades| == |ks|
    && (forall j :: 0 <= j < |ks| ==> SignalTick(ticks, ks[j]) && TradeOfTick(trades[j], ticks, ks[j], limit))
  }

  lemma SignalsAt(ticks: seq<Tick>, n: nat)
    requires n < |ticks| && ticks[n].Compare?
    ensures Signals(MarketAt(ticks, n + 1), ticks[n].realPrice) <==> SignalTick(ticks, n)
    ensures SignalTick(ticks, n) ==> MarketAt(ticks, n + 1).Price() == Product(ticks, n)
  {
    MarketHolds(ticks, n + 1);
    FeedsInStep(MarketAt(ticks, n + 1), ticks, n + 1);
    NotAFeed(ticks, n);
    hide MarketAt, HoldsFeeds, HoldsPrices, LastTick, Product, Fed, Distance;
  }

  lemma NotAFeed(ticks: seq<Tick>, n: nat)
    requires n < |ticks| && ticks[n].Compare?
    ensures Fed(ticks, n + 1) <==> Fed(ticks, n)
    ensures Fed(ticks, n) ==> Product(ticks, n + 1) == Product(ticks, n)
  {
  }

  lemma TradeOnTick(ticks: seq<Tick>, n: nat, maxExposure: real)
    requires SignalTick(ticks, n) && ticks[n].realPrice != 0.0
    ensures TradeOfTick(TradeOn(MarketAt(ticks, n + 1), ticks[n], maxExposure), ticks, n, maxExposure)
  {
    SignalsAt(ticks, n);
    var synthetic, realPrice := Product(ticks, n), ticks[n].realPrice;
    var d := Direction(synthetic, realPrice);
    FieldsOfTrade("ETHUSDT", Entry(synthetic, d), Exit(realPrice, d), ticks[n].time, d, maxExposure);
    TradeIsBalanced("ETHUSDT", Entry(synthetic, d), Exit(realPrice, d), ticks[n].time, d, maxExposure);
    hide TradeOf, Balanced, MarketAt, Product, Fed;
  }

  lemma TakesWhen(cooldown: UInt64, ticks: seq<Tick>, n: nat, last: map<string, UInt64>, traded: Option<nat>)
    requires n < |ticks| && (traded.Some? ==> traded.value < n)
    requires Arb.Lookup(last, "ETHUSDT") == if traded.Some? then Some(ticks[traded.value].time) else None
    ensures Takes(cooldown, MarketAt(ticks, n + 1), last, ticks[n]) <==> SignalTick(ticks, n) && CooledDown(cooldown, ticks, traded, n)
    ensures SignalTick(ticks, n) ==> ticks[n].Compare?
  {
    if ticks[n].Compare? {
      SignalsAt(ticks, n);
    }
    if traded.Some? {
      Arb.ReadyIff(cooldown, ticks[traded.value].time, ticks[n].time);
    } else {
      Arb.NoneIsReady(cooldown, ticks[n].time);
    }
    hide Signals, Arb.Ready, MarketAt, Product, Fed;
  }

  lemma TradesStep(cooldown: UInt64, maxExposure: real, m: Market, last: map<string, UInt64>, ticks: seq<Tick>)
    requires Positive(ticks) && ticks != []
    ensures Positive(ticks[1..]) && Positive([ticks[0]])
    ensures var n := MarketAfter(m, ticks[0]);
            if Takes(cooldown, n, last, ticks[0]) then
              Trades(cooldown, maxExposure, m, last, ticks)
              == [TradeOn(n, ticks[0], maxExposure)] + Trades(cooldown, maxExposure, n, last["ETHUSDT" := ticks[0].time], ticks[1..])
            else
              Trades(cooldown, maxExposure, m, last, ticks) == Trades(cooldown, maxExposure, n, last, ticks[1..])
  {
    assert ticks[0] in ticks;
  }

  lemma OneMoreTrade(trade: SimulatedTrade, trades: seq<SimulatedTrade>, ticks: seq<Tick>, k: nat, ks: seq<nat>, limit: real)
    requires TradesOfTicks(trades, ticks, ks, limit) && SignalTick(ticks, k) && TradeOfTick(trade, ticks, k, limit)
    ensures TradesOfTicks([trade] + trades, ticks, [k] + ks, limit)
  {
    hide TradeOfTick, SignalTick;
  }

  /** The trades of a run are those of its trading ticks, one for one. */
  lemma {:induction false} TradesAreOfTicks(cooldown: UInt64, maxExposure: real, ticks: seq<Tick>, n: nat,
                                            last: map<string, UInt64>, traded: Option<nat>)
    requires Positive(ticks) && n <= |ticks| && (traded.Some? ==> traded.value < n)
    requires Arb.Lookup(last, "ETHUSDT") == if traded.Some? then Some(ticks[traded.value].time) else None
    requires Positive(ticks[n..])
    ensures TradesOfTicks(Trades(cooldown, maxExposure, MarketAt(ticks, n), last, ticks[n..]), ticks,
                          TradeTicks(cooldown, ticks, n, traded), maxExposure)
    decreases |ticks| - n
  {
    hide MarketAfter, MarketAt, Takes, TradeOn, SignalTick, CooledDown, TradeOfTick, TradesOfTicks, Trades, Positive;
    if n == |ticks| {
      NoTicksNoTrades(cooldown, maxExposure, ticks, last);
    } else {
      assert ticks[n..][0] == ticks[n] && ticks[n..][1..] == ticks[n + 1..];
      MarketNext(ticks, n);
      TradesStep(cooldown, maxExposure, MarketAt(ticks, n), last, ticks[n..]);
      TakesWhen(cooldown, ticks, n, last, traded);
      if Takes(cooldown, MarketAt(ticks, n + 1), last, ticks[n]) {
        PositiveReal(ticks[n]);
        TradeOnTick(ticks, n, maxExposure);
        TradesAreOfTicks(cooldown, maxExposure, ticks, n + 1, last["ETHUSDT" := ticks[n].time], Some(n));
        OneMoreTrade(TradeOn(MarketAt(ticks, n + 1), ticks[n], maxExposure),
                     Trades(cooldown, maxExposure, MarketAt(ticks, n + 1), last["ETHUSDT" := ticks[n].time], ticks[n + 1..]),
                     ticks, n, TradeTicks(cooldown, ticks, n + 1, Some(n)), maxExposure);
      } else {
        TradesAreOfTicks(cooldown, maxExposure, ticks, n + 1, last, traded);
      }
    }
  }

  lemma PositiveReal(tick: Tick)
    requires Positive([tick])
    ensures tick.Compare? ==> tick.realPrice > 0.0
  {
    assert tick in [tick];
  }

  lemma NoTicksNoTrades(cooldown: UInt64, maxExposure: real, ticks: seq<Tick>, last: map<string, UInt64>)
    ensures ticks[|ticks|..] == [] && Positive([])
    ensures Trades(cooldown, maxExposure, MarketAt(ticks, |ticks|), last, []) == []
    ensures TradesOfTicks(Trades(cooldown, maxExposure, MarketAt(ticks, |ticks|), last, []), ticks, [], maxExposure)
  {
  }

  /** The run of the definition, in terms of its ticks alone. */
  lemma RunOfTicks(cooldown: UInt64, maxExposure: real, ticks: seq<Tick>)
    requires Positive(ticks)
    ensures TradesOfTicks(Trades(cooldown, maxExposure, NO_MARKET, map[], ticks), ticks,
                          TradeTicks(cooldown, ticks, 0, None), maxExposure)
    ensures MarketAt(ticks, 0) == NO_MARKET
    ensures HoldsFeeds(MarketAt(ticks, |ticks|), ticks, |ticks|) && HoldsPrices(MarketAt(ticks, |ticks|), ticks, |ticks|)
  {
    assert ticks[0..] == ticks && Arb.Lookup(map[], "ETHUSDT") == None;
    hide *;
    MarketStarts(ticks);
    MarketHolds(ticks, |ticks|);
    TradesAreOfTicks(cooldown, maxExposure, ticks, 0, map[], None);
  }

  /** Comparing changes nothing the signal depends on. */
  lemma SignalAfterCompare(m: Market, realPrice: real)
    ensures Signals(Compared(m, realPrice), realPrice) <==> Signals(m, realPrice)
  {
  }

  method ApplyTick(synth: SyntheticSpotSynth, engine: Arb.ArbOpportunityEngine, tracker: MockPnLEngine, tick: Tick)
    requires synth.arbEngine == engine && synth.pnlTracker == tracker && tracker.Valid()
    requires tick.Compare? ==> tick.realPrice != 0.0
    modifies synth`market, engine, tracker
    ensures tracker.Valid() && synth.market == MarketAfter(old(synth.market), tick)
    ensures engine.lastTrigger == if Takes(engine.cooldown, synth.market, old(engine.lastTrigger), tick)
                                  then old(engine.lastTrigger)["ETHUSDT" := tick.time] else old(engine.lastTrigger)
    ensures tracker.trades == if Takes(engine.cooldown, synth.market, old(engine.lastTrigger), tick)
                              then old(tracker.trades) + [TradeOn(synth.market, tick, tracker.maxExposure)] else old(tracker.trades)
  {
    hide TradeAt, Signals, Arb.Ready, Updated, Compared;
    match tick
    case Update(symbol, price, time) => synth.Update(symbol, price, time);
    case Compare(realPrice, time) =>
      SignalAfterCompare(synth.market, realPrice);
      synth.CompareToReal(realPrice, time);
  }

  lemma TradesContinue(cooldown: UInt64, maxExposure: real, m: Market, last: map<string, UInt64>, ticks: seq<Tick>, i: nat,
                       trades: seq<SimulatedTrade>)
    requires i < |ticks| && Positive(ticks[i..])
    ensures Positive(ticks[i + 1..]) && (ticks[i].Compare? ==> ticks[i].realPrice > 0.0)
    ensures var n := MarketAfter(m, ticks[i]);
            var takes := Takes(cooldown, n, last, ticks[i]);
            && (takes ==> ticks[i].Compare?)
            && trades + Trades(cooldown, maxExposure, m, last, ticks[i..])
            == (if takes then trades + [TradeOn(n, ticks[i], maxExposure)] else trades)
               + Trades(cooldown, maxExposure, n, if takes then last["ETHUSDT" := ticks[i].time] else last, ticks[i + 1..])
  {
    hide Trades, TradeOn, MarketAfter, Positive;
    assert ticks[i..][0] == ticks[i] && ticks[i..][1..] == ticks[i + 1..];
    TradesStep(cooldown, maxExposure, m, last, ticks[i..]);
    PositiveReal(ticks[i]);
  }

  /** The objects of the program, wired together and driven by the ticks, follow the run's definition. */
  method DriveSynth(cooldown: UInt64, maxExposure: real, ticks: seq<Tick>) returns (synth: SyntheticSpotSynth, tracker: MockPnLEngine)
    requires Positive(ticks)
    ensures tracker.Valid() && tracker.maxExposure == maxExposure
    ensures tracker.trades == Trades(cooldown, maxExposure, NO_MARKET, map[], ticks)
    ensures synth.market == MarketAt(ticks, |ticks|)
  {
    hide *;
    MarketStarts(ticks);
    assert ticks[0..] == ticks;
    synth := new SyntheticSpotSynth();
    var engine := new Arb.ArbOpportunityEngine(cooldown);
    tracker := new MockPnLEngine(maxExposure);
    synth.AttachArbEngine(engine);
    synth.AttachMockPnL(tracker);
    for i := 0 to |ticks|
      invariant synth.arbEngine == engine && synth.pnlTracker == tracker && synth.market == MarketAt(ticks, i)
      invariant engine.cooldown == cooldown && tracker.maxExposure == maxExposure && tracker.Valid()
      invariant Positive(ticks[i..])
      invariant tracker.trades + Trades(cooldown, maxExposure, synth.market, engine.lastTrigger, ticks[i..])
             == Trades(cooldown, maxExposure, NO_MARKET, map[], ticks)
    {
      MarketNext(ticks, i);
      TradesContinue(cooldown, maxExposure, synth.market, engine.lastTrigger, ticks, i, tracker.trades);
      ApplyTick(synth, engine, tracker, ticks[i]);
    }
    NoTicksNoTrades(cooldown, maxExposure, ticks, engine.lastTrigger);
  }

  /** The whole program: its fields hold the last ticks, and its ledger, which adds up, has exactly one trade for each
      trading tick, at that tick's prices. */
  method RunSynth(cooldown: UInt64, maxExposure: real, ticks: seq<Tick>) returns (synth: SyntheticSpotSynth, tracker: MockPnLEngine)
    requires Positive(ticks)
    ensures tracker.Valid() && tracker.maxExposure == maxExposure
    ensures tracker.trades == Trades(cooldown, maxExposure, NO_MARKET, map[], ticks)
    ensures HoldsFeeds(synth.market, ticks, |ticks|) && HoldsPrices(synth.market, ticks, |ticks|)
    ensures TradesOfTicks(tracker.trades, ticks, TradeTicks(cooldown, ticks, 0, None), maxExposure)
  {
    hide *;
    synth, tracker := DriveSynth(cooldown, maxExposure, ticks);
    RunOfTicks(cooldown, maxExposure, ticks);
  }

  lemma LossAtThesePrices(timestamp: UInt64, maxExposure: real)
    requires maxExposure > 0.0
    ensures TradeAt(2000.5, 2000.0, timestamp, maxExposure).pnl < 0.0
  {
    hide TradeOf, Gain, Edge;
    var entry, exit := Entry(2000.5, "SELL"), Exit(2000.0, "SELL");
    assert Direction(2000.5, 2000.0) == "SELL" && entry < exit;
    TradeGains("ETHUSDT", entry, exit, timestamp, "SELL", maxExposure);
    EdgeIsRatio(entry, exit, "SELL");
    GainSign(Edge(entry, exit, "SELL"), maxExposure);
  }

  /** Both feeds tick, then the real price is compared: 0.05 * 40010 against 2000. */
  function LosingTicks(time: UInt64): seq<Tick> {
    [Update("ETHBTC", 0.05, time), Update("BTCUSDT", 40010.0, time), Compare(2000.0, time)]
  }

  /** The trigger threshold alone does not pay for the slippage: whatever the cooldown and the limit, the only trade of
      this run, at prices half a dollar apart, loses. */
  lemma ThresholdAllowsLoss(cooldown: UInt64, maxExposure: real, time: UInt64)
    requires maxExposure > 0.0
    ensures Positive(LosingTicks(time))
    ensures var trades := Trades(cooldown, maxExposure, NO_MARKET, map[], LosingTicks(time));
            |trades| == 1 && trades[0].pnl < 0.0
  {
    var first, second, third := Update("ETHBTC", 0.05, time), Update("BTCUSDT", 40010.0, time), Compare(2000.0, time);
    var m1 := MarketAfter(NO_MARKET, first);
    var m2 := MarketAfter(m1, second);
    FeedsReady(time);
    hide MarketAfter, TradeAt, Signals, Arb.Ready;
    assert LosingTicks(time)[1..] == [second, third] && [second, third][1..] == [third] && [third][1..] == [];
    assert Trades(cooldown, maxExposure, m1, map[], [second, third]) == Trades(cooldown, maxExposure, m2, map[], [third]);
    Arb.NoneIsReady(cooldown, time);
    LossAtThesePrices(time, maxExposure);
    var n := MarketAfter(m2, third);
    assert Trades(cooldown, maxExposure, n, map["ETHUSDT" := time], []) == [];
    assert Trades(cooldown, maxExposure, m2, map[], [third]) == [TradeOn(n, third, maxExposure)] + [];
  }

  lemma FeedsReady(time: UInt64)
    ensures var m := MarketAfter(MarketAfter(NO_MARKET, Update("ETHBTC", 0.05, time)), Update("BTCUSDT", 40010.0, time));
            var n := MarketAfter(m, Compare(2000.0, time));
            n.Price() == 2000.5 && Signals(n, 2000.0)
  {
  }

  /** The timestamps at which the market asked for a trade. */
  function SignalTimes(m: Market, ticks: seq<Tick>): seq<UInt64>
    decreases |ticks|
  {
    if ticks == [] then []
    else
      var tick, n := ticks[0], MarketAfter(m, ticks[0]);
      (if tick.Compare? && Signals(n, tick.realPrice) then [tick.time] else []) + SignalTimes(n, ticks[1..])
  }

  /** The times of the ticks, from n on, that ask for a trade. */
  function SignalTickTimes(ticks: seq<Tick>, n: nat): seq<UInt64>
    requires n <= |ticks|
    decreases |ticks| - n
  {
    if n == |ticks| then []
    else (if SignalTick(ticks, n) then [ticks[n].time] else []) + SignalTickTimes(ticks, n + 1)
  }

  /** The market asks at exactly those ticks. */
  lemma {:induction false} SignalTimesAreOfTicks(ticks: seq<Tick>, n: nat)
    requires n <= |ticks|
    ensures SignalTimes(MarketAt(ticks, n), ticks[n..]) == SignalTickTimes(ticks, n)
    decreases |ticks| - n
  {
    hide MarketAt, MarketAfter, SignalTick, Signals;
    if n < |ticks| {
      assert ticks[n..][0] == ticks[n] && ticks[n..][1..] == ticks[n + 1..];
      MarketNext(ticks, n);
      SignalTimesAreOfTicks(ticks, n + 1);
      if ticks[n].Compare? {
        SignalsAt(ticks, n);
      } else {
        OnlyComparisonsSignal(ticks, n);
      }
    }
  }

  lemma OnlyComparisonsSignal(ticks: seq<Tick>, n: nat)
    ensures SignalTick(ticks, n) ==> ticks[n].Compare?
  {
  }

  function TimesOfTrades(trades: seq<SimulatedTrade>): seq<UInt64> {
    if trades == [] then [] else [trades[0].timestamp] + TimesOfTrades(trades[1..])
  }

  /** The trades are taken exactly at the triggers of the cooldown over the times the market asked. */
  lemma {:induction false} TradesAreTriggers(cooldown: UInt64, maxExposure: real, m: Market, last: map<string, UInt64>, ticks: seq<Tick>)
    requires Positive(ticks)
    ensures TimesOfTrades(Trades(cooldown, maxExposure, m, last, ticks))
         == Arb.Triggers(cooldown, Arb.Lookup(last, "ETHUSDT"), SignalTimes(m, ticks))
    decreases |ticks|
  {
    hide TradeOf, MarketAfter, Signals, Arb.Ready;
    if ticks != [] {
      var tick, n := ticks[0], MarketAfter(m, ticks[0]);
      var rest := SignalTimes(n, ticks[1..]);
      assert tick in ticks && Positive(ticks[1..]);
      assert [] + rest == rest && ([tick.time] + rest)[1..] == rest;
      if Takes(cooldown, n, last, tick) {
        var trades := Trades(cooldown, maxExposure, n, last["ETHUSDT" := tick.time], ticks[1..]);
        var trade := TradeAt(n.Price(), tick.realPrice, tick.time, maxExposure);
        TradesAreTriggers(cooldown, maxExposure, n, last["ETHUSDT" := tick.time], ticks[1..]);
        assert trade.timestamp == tick.time by { TimeOfTrade(n.Price(), tick.realPrice, tick.time, maxExposure); }
        assert ([trade] + trades)[1..] == trades;
      } else {
        TradesAreTriggers(cooldown, maxExposure, n, last, ticks[1..]);
      }
    }
  }

  lemma TimeOfTrade(synthetic: real, realPrice: real, timestamp: UInt64, maxExposure: real)
    requires realPrice != 0.0
    ensures TradeAt(synthetic, realPrice, timestamp, maxExposure).timestamp == timestamp
  {
  }

  /** Taken at positive prices at least the threshold apart, in the direction of their gap. */
  ghost predicate Justified(trade: SimulatedTrade, maxExposure: real) {
    exists synthetic, realPrice :: JustifiedAt(synthetic, realPrice, trade, maxExposure)
  }

  ghost predicate JustifiedAt(synthetic: real, realPrice: real, trade: SimulatedTrade, maxExposure: real) {
    && synthetic > 0.0 && realPrice > 0.0
    && Abs(synthetic - realPrice) >= 0.1
    && trade == TradeAt(synthetic, realPrice, trade.timestamp, maxExposure)
  }

  predicate FeedsPositive(m: Market) {
    (m.readyEthbtc ==> m.ethbtc > 0.0) && (m.readyBtcusdt ==> m.btcusdt > 0.0)
  }

  lemma PositivePrice(m: Market)
    requires FeedsPositive(m) && m.Ready()
    ensures m.Price() > 0.0
  {
  }

  lemma {:induction false} TradesAreJustified(cooldown: UInt64, maxExposure: real, m: Market, last: map<string, UInt64>, ticks: seq<Tick>)
    requires Positive(ticks) && FeedsPositive(m)
    ensures forall t :: t in Trades(cooldown, maxExposure, m, last, ticks) ==> Justified(t, maxExposure)
    decreases |ticks|
  {
    hide TradeOf, TradeAt;
    if ticks != [] {
      var tick, n := ticks[0], MarketAfter(m, ticks[0]);
      assert tick in ticks && Positive(ticks[1..]) && FeedsPositive(n);
      if Takes(cooldown, n, last, tick) {
        TradesAreJustified(cooldown, maxExposure, n, last["ETHUSDT" := tick.time], ticks[1..]);
        PositivePrice(n);
        TimeOfTrade(n.Price(), tick.realPrice, tick.time, maxExposure);
        assert JustifiedAt(n.Price(), tick.realPrice, TradeAt(n.Price(), tick.realPrice, tick.time, maxExposure), maxExposure);
      } else {
        TradesAreJustified(cooldown, maxExposure, n, last, ticks[1..]);
      }
    }
  }

  lemma JustifiedSize(trade: SimulatedTrade, maxExposure: real)
    requires Justified(trade, maxExposure) && maxExposure > 0.0
    ensures 0.0 <= trade.size <= maxExposure
    ensures trade.direction == "BUY" || trade.direction == "SELL"
  {
    var synthetic, realPrice :| JustifiedAt(synthetic, realPrice, trade, maxExposure);
    var d := Direction(synthetic, realPrice);
    SizeOfTrade(Entry(synthetic, d), Exit(realPrice, d), maxExposure);
    hide TradeSize, TradePnl, Entry;
  }

  lemma SizeOfTrade(entry: real, exit: real, maxExposure: real)
    requires exit > 0.0 && maxExposure > 0.0
    ensures 0.0 <= TradeSize(entry, exit, maxExposure) <= maxExposure
  {
    var q := Abs(exit - entry) / exit;
    assert q * exit == Abs(exit - entry);
    assert q < 0.0 ==> q * exit < 0.0;
  }

  /** A whole run at positive prices: every trade is justified and within the exposure limit; trades are more than the
      cooldown apart exactly when no signal is stale; and if the signals come in time order, no choice among them that
      respects the cooldown is larger. */
  lemma WholeRun(cooldown: UInt64, maxExposure: real, ticks: seq<Tick>, chosen: seq<UInt64>)
    requires Positive(ticks) && maxExposure > 0.0
    ensures var trades, times := Trades(cooldown, maxExposure, NO_MARKET, map[], ticks), SignalTickTimes(ticks, 0);
            && (forall t :: t in trades ==> Justified(t, maxExposure) && 0.0 <= t.size <= maxExposure)
            && (Arb.Spaced(cooldown, TimesOfTrades(trades)) <==> Arb.NeverStale(cooldown, None, times))
            && (Arb.NonDecreasing(times) ==> Arb.InOrder(cooldown, None, times))
            && (Arb.InOrder(cooldown, None, times) ==> Arb.NeverStale(cooldown, None, times))
            && (Arb.InOrder(cooldown, None, times) && Arb.Subsequence(chosen, times) && Arb.Spaced(cooldown, chosen) ==>
                  |chosen| <= |trades|)
  {
    assert ticks[0..] == ticks;
    hide *;
    MarketStarts(ticks);
    SignalTimesAreOfTicks(ticks, 0);
    var trades := Trades(cooldown, maxExposure, NO_MARKET, map[], ticks);
    TradesAreTriggers(cooldown, maxExposure, NO_MARKET, map[], ticks);
    NothingBefore();
    OneTimePerTrade(trades);
    TradesAreJustified(cooldown, maxExposure, NO_MARKET, map[], ticks);
    forall t | t in trades
      ensures Justified(t, maxExposure) && 0.0 <= t.size <= maxExposure
    {
      JustifiedSize(t, maxExposure);
    }
    Arb.SafeAndOptimal(cooldown, SignalTickTimes(ticks, 0), chosen);
  }

  lemma NothingBefore()
    ensures FeedsPositive(NO_MARKET) && Arb.Lookup(map[], "ETHUSDT") == None
  {
  }

  lemma {:induction false} OneTimePerTrade(trades: seq<SimulatedTrade>)
    ensures |TimesOfTrades(trades)| == |trades|
  {
    if trades != [] {
      OneTimePerTrade(trades[1..]);
    }
  }
}
