/**
 * The per-symbol cooldown of ArbOpportunityEngine.hpp. `evaluate` only prints and is not part of this model.
 */
module ArbOpportunityEngine {
  import opened Wrappers

  /** `timestamp - last` on unsigned 64-bit integers. */
  function Since(timestamp: UInt64, last: UInt64): UInt64 {
    var difference: int := timestamp - last;
    difference % UINT64_RANGE
  }

  lemma SinceIs(timestamp: UInt64, last: UInt64)
    ensures Since(timestamp, last) == if timestamp >= last then timestamp - last else UINT64_RANGE - (last - timestamp)
  {
    if timestamp < last {
      assert (timestamp - last + UINT64_RANGE) % UINT64_RANGE == timestamp - last + UINT64_RANGE;
    }
  }

  predicate Ready(cooldown: UInt64, last: Option<UInt64>, timestamp: UInt64) {
    last.None? || Since(timestamp, last.value) > cooldown
  }

  function Lookup(last: map<string, UInt64>, symbol: string): Option<UInt64> {
    if symbol in last then Some(last[symbol]) else None
  }

  class ArbOpportunityEngine {
    const cooldown: UInt64
    var lastTrigger: map<string, UInt64>

    constructor (cooldown: UInt64)
      ensures this.cooldown == cooldown && lastTrigger == map[]
    {
      this.cooldown := cooldown;
      lastTrigger := map[];
    }

    method ShouldTrigger(symbol: string, timestamp: UInt64) returns (fire: bool)
      modifies this
      ensures fire <==> Ready(cooldown, Lookup(old(lastTrigger), symbol), timestamp)
      ensures lastTrigger == if fire then old(lastTrigger)[symbol := timestamp] else old(lastTrigger)
    {
      if symbol !in lastTrigger || Since(timestamp, lastTrigger[symbol]) > cooldown {
        lastTrigger := lastTrigger[symbol := timestamp];
        return true;
      }
      return false;
    }

    method Reset(symbol: string)
      modifies this
      ensures lastTrigger == old(lastTrigger) - {symbol}
    {
      lastTrigger := lastTrigger - {symbol};
    }
  }

  /** In order, the unsigned difference is the elapsed time; a timestamp from before the last trigger wraps around,
      and fires unless it is within the cooldown of a whole turn of the counter. */
  lemma ReadyIff(cooldown: UInt64, last: UInt64, timestamp: UInt64)
    ensures Ready(cooldown, Some(last), timestamp) <==>
            if timestamp >= last then timestamp - last > cooldown else last - timestamp < UINT64_RANGE - cooldown
  {
    SinceIs(timestamp, last);
    hide Since;
  }

  // ---------- whole runs ----------

  datatype Event = Event(symbol: string, time: UInt64)

  /** The calls that return true, over a run with calls for many symbols. */
  function Fired(cooldown: UInt64, last: map<string, UInt64>, events: seq<Event>): seq<Event>
    decreases |events|
  {
    if events == [] then []
    else
      var e := events[0];
      if Ready(cooldown, Lookup(last, e.symbol), e.time) then [e] + Fired(cooldown, last[e.symbol := e.time], events[1..])
      else Fired(cooldown, last, events[1..])
  }

  /** The trigger times of a run with one symbol. */
  function Triggers(cooldown: UInt64, last: Option<UInt64>, times: seq<UInt64>): seq<UInt64>
    decreases |times|
  {
    if times == [] then []
    else if Ready(cooldown, last, times[0]) then [times[0]] + Triggers(cooldown, Some(times[0]), times[1..])
    else Triggers(cooldown, last, times[1..])
  }

  function TimesOf(events: seq<Event>, symbol: string): seq<UInt64> {
    if events == [] then []
    else (if events[0].symbol == symbol then [events[0].time] else []) + TimesOf(events[1..], symbol)
  }

  method RunEngine(cooldown: UInt64, events: seq<Event>) returns (fired: seq<Event>)
    ensures fired == Fired(cooldown, map[], events)
  {
    var engine := new ArbOpportunityEngine(cooldown);
    fired := [];
    for i := 0 to |events|
      invariant engine.cooldown == cooldown
      invariant fired + Fired(cooldown, engine.lastTrigger, events[i..]) == Fired(cooldown, map[], events)
    {
      assert events[i..][1..] == events[i + 1..];
      var fire := engine.ShouldTrigger(events[i].symbol, events[i].time);
      if fire {
        fired := fired + [events[i]];
      }
    }
  }

  /** Symbols do not disturb each other: the triggers of one symbol are those of its own calls alone. */
  lemma {:induction false} SymbolsAreIndependent(cooldown: UInt64, last: map<string, UInt64>, events: seq<Event>, symbol: string)
    ensures TimesOf(Fired(cooldown, last, events), symbol) == Triggers(cooldown, Lookup(last, symbol), TimesOf(events, symbol))
    decreases |events|
  {
    hide Ready;
    if events != [] {
      var e := events[0];
      var next := last[e.symbol := e.time];
      var fires := Ready(cooldown, Lookup(last, e.symbol), e.time);
      SymbolsAreIndependent(cooldown, if fires then next else last, events[1..], symbol);
      if fires {
        var rest := Fired(cooldown, next, events[1..]);
        assert ([e] + rest)[1..] == rest;
        assert [] + TimesOf(rest, symbol) == TimesOf(rest, symbol);
      }
      var times := TimesOf(events[1..], symbol);
      assert [] + times == times && ([e.time] + times)[1..] == times;
    }
  }

  predicate NonDecreasing(times: seq<UInt64>) {
    forall i, j :: 0 <= i <= j < |times| ==> times[i] <= times[j]
  }

  /** Each is later than the one before by more than the cooldown. */
  predicate Spaced(cooldown: UInt64, times: seq<UInt64>) {
    forall i :: 0 < i < |times| ==> times[i] - times[i - 1] > cooldown
  }

  predicate After(last: Option<UInt64>, times: seq<UInt64>) {
    last.Some? ==> forall i :: 0 <= i < |times| ==> last.value <= times[i]
  }

  predicate StartsAfter(cooldown: UInt64, last: Option<UInt64>, times: seq<UInt64>) {
    last.Some? && times != [] ==> times[0] - last.value > cooldown
  }

  /** The last trigger after a call. */
  function LastAfter(cooldown: UInt64, last: Option<UInt64>, time: UInt64): Option<UInt64> {
    if Ready(cooldown, last, time) then Some(time) else last
  }

  /** No call is from before the last trigger, unless by so much that the counter has all but turned over. */
  predicate NeverStale(cooldown: UInt64, last: Option<UInt64>, times: seq<UInt64>)
    decreases |times|
  {
    times != [] ==>
      && (last.Some? ==> times[0] >= last.value || last.value - times[0] >= UINT64_RANGE - cooldown)
      && NeverStale(cooldown, LastAfter(cooldown, last, times[0]), times[1..])
  }

  /** No call is from before the last trigger. */
  predicate InOrder(cooldown: UInt64, last: Option<UInt64>, times: seq<UInt64>)
    decreases |times|
  {
    times != [] ==>
      && (last.Some? ==> times[0] >= last.value)
      && InOrder(cooldown, LastAfter(cooldown, last, times[0]), times[1..])
  }

  /** Safety: triggers are more than the cooldown apart exactly when no timestamp is stale. */
  lemma {:induction false} SpacedIffNeverStale(cooldown: UInt64, last: Option<UInt64>, times: seq<UInt64>)
    ensures var triggers := Triggers(cooldown, last, times);
            Spaced(cooldown, triggers) && StartsAfter(cooldown, last, triggers) <==> NeverStale(cooldown, last, times)
    decreases |times|
  {
    if times != [] {
      var first, rest := times[0], times[1..];
      if last.Some? {
        ReadyIff(cooldown, last.value, first);
      }
      SpacedIffNeverStale(cooldown, LastAfter(cooldown, last, first), rest);
      if Ready(cooldown, last, first) {
        SpacedInTwo(cooldown, first, Triggers(cooldown, Some(first), rest));
      }
    }
  }

  lemma SpacedInTwo(cooldown: UInt64, first: UInt64, rest: seq<UInt64>)
    ensures Spaced(cooldown, [first] + rest) <==> Spaced(cooldown, rest) && StartsAfter(cooldown, Some(first), rest)
  {
    var all := [first] + rest;
    if Spaced(cooldown, all) {
      forall i | 0 < i < |rest|
        ensures rest[i] - rest[i - 1] > cooldown
      {
        assert all[i + 1] == rest[i] && all[i] == rest[i - 1] && all[i + 1] - all[i + 1 - 1] > cooldown;
      }
      assert rest != [] ==> all[1] - all[1 - 1] > cooldown;
    }
  }

  lemma {:induction false} InOrderIsNeverStale(cooldown: UInt64, last: Option<UInt64>, times: seq<UInt64>)
    requires InOrder(cooldown, last, times)
    ensures NeverStale(cooldown, last, times)
    decreases |times|
  {
    if times != [] {
      InOrderIsNeverStale(cooldown, LastAfter(cooldown, last, times[0]), times[1..]);
    }
  }

  /** Timestamps that never decrease are in order for every cooldown. */
  lemma {:induction false} NonDecreasingIsInOrder(cooldown: UInt64, last: Option<UInt64>, times: seq<UInt64>)
    requires NonDecreasing(times) && After(last, times)
    ensures InOrder(cooldown, last, times)
    decreases |times|
  {
    if times != [] {
      NonDecreasingIsInOrder(cooldown, LastAfter(cooldown, last, times[0]), times[1..]);
    }
  }

  lemma {:induction false} InOrderIsAfter(cooldown: UInt64, last: Option<UInt64>, times: seq<UInt64>)
    requires InOrder(cooldown, last, times)
    ensures After(last, times)
    decreases |times|
  {
    if times != [] {
      InOrderIsAfter(cooldown, LastAfter(cooldown, last, times[0]), times[1..]);
      assert forall i :: 0 < i < |times| ==> times[i] == times[1..][i - 1];
    }
  }

  /** One sequence is obtained from the other by leaving elements out. */
  predicate Subsequence(part: seq<UInt64>, whole: seq<UInt64>)
    decreases |whole|
  {
    || part == []
    || (whole != [] && ((part[0] == whole[0] && Subsequence(part[1..], whole[1..])) || Subsequence(part, whole[1..])))
  }

  lemma {:induction false} SubsequenceTail(part: seq<UInt64>, whole: seq<UInt64>)
    requires part != [] && Subsequence(part, whole)
    ensures Subsequence(part[1..], whole) && part[0] in whole
    decreases |whole|
  {
    if Subsequence(part, whole[1..]) {
      SubsequenceTail(part, whole[1..]);
    }
  }

  /** Optimality: no choice of the symbol's timestamps that respects the cooldown is larger than the greedy one. */
  lemma {:induction false} GreedyIsOptimal(cooldown: UInt64, last: Option<UInt64>, times: seq<UInt64>, chosen: seq<UInt64>)
    requires InOrder(cooldown, last, times)
    requires Subsequence(chosen, times) && Spaced(cooldown, chosen) && StartsAfter(cooldown, last, chosen)
    ensures |chosen| <= |Triggers(cooldown, last, times)|
    decreases |times|
  {
    if chosen != [] {
      var first, rest := times[0], times[1..];
      if last.Some? {
        ReadyIff(cooldown, last.value, first);
      }
      InOrderIsAfter(cooldown, LastAfter(cooldown, last, first), rest);
      hide Ready;
      if Ready(cooldown, last, first) {
        assert Subsequence(chosen[1..], rest) && chosen[0] in times by {
          if Subsequence(chosen, rest) {
            SubsequenceTail(chosen, rest);
          }
        }
        GreedyIsOptimal(cooldown, Some(first), rest, chosen[1..]);
      } else {
        GreedyIsOptimal(cooldown, last, rest, chosen);
      }
    }
  }

  /** The whole result, for each symbol of any interleaving: safe exactly when its timestamps are never stale, and
      optimal when they are in order, as timestamps that never decrease are. */
  lemma CooldownSafeAndOptimal(cooldown: UInt64, events: seq<Event>, symbol: string, chosen: seq<UInt64>)
    ensures Spaced(cooldown, TimesOf(Fired(cooldown, map[], events), symbol)) <==> NeverStale(cooldown, None, TimesOf(events, symbol))
    ensures InOrder(cooldown, None, TimesOf(events, symbol)) && Subsequence(chosen, TimesOf(events, symbol)) && Spaced(cooldown, chosen)
        ==> |chosen| <= |TimesOf(Fired(cooldown, map[], events), symbol)|
    ensures InOrder(cooldown, None, TimesOf(events, symbol)) ==> NeverStale(cooldown, None, TimesOf(events, symbol))
    ensures NonDecreasing(TimesOf(events, symbol)) ==> InOrder(cooldown, None, TimesOf(events, symbol))
  {
    var times := TimesOf(events, symbol);
    assert Lookup(map[], symbol) == None;
    hide *;
    SymbolsAreIndependent(cooldown, map[], events, symbol);
    SafeAndOptimal(cooldown, times, chosen);
  }

  lemma SafeAndOptimal(cooldown: UInt64, times: seq<UInt64>, chosen: seq<UInt64>)
    ensures Spaced(cooldown, Triggers(cooldown, None, times)) <==> NeverStale(cooldown, None, times)
    ensures InOrder(cooldown, None, times) && Subsequence(chosen, times) && Spaced(cooldown, chosen)
        ==> |chosen| <= |Triggers(cooldown, None, times)|
    ensures InOrder(cooldown, None, times) ==> NeverStale(cooldown, None, times)
    ensures NonDecreasing(times) ==> InOrder(cooldown, None, times)
  {
    SpacedIffNeverStale(cooldown, None, times);
    if NonDecreasing(times) {
      NonDecreasingIsInOrder(cooldown, None, times);
    }
    if InOrder(cooldown, None, times) {
      InOrderIsNeverStale(cooldown, None, times);
      if Subsequence(chosen, times) && Spaced(cooldown, chosen) {
        GreedyIsOptimal(cooldown, None, times, chosen);
      }
    }
    hide Triggers, NeverStale, InOrder, Subsequence, Spaced, NonDecreasing;
  }

  /** Out of order the cooldown does not hold: two triggers one unit apart, for every cooldown but the largest. */
  lemma StaleTimestampFires(cooldown: UInt64, time: UInt64)
    requires cooldown < UINT64_RANGE - 1 && time > 0
    ensures Triggers(cooldown, None, [time, time - 1]) == [time, time - 1]
  {
    ReadyIff(cooldown, time, time - 1);
    hide Ready;
    assert [time, time - 1][1..] == [time - 1];
    assert Ready(cooldown, None, time) by { NoneIsReady(cooldown, time); }
    assert Triggers(cooldown, Some(time), [time - 1]) == [time - 1];
  }

  lemma NoneIsReady(cooldown: UInt64, time: UInt64)
    ensures Ready(cooldown, None, time)
  {
  }
}
