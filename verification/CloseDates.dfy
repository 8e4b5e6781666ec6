/**
 Splitting an end of day at an earlier date: two runs succeed exactly when the one
 run does and the version counter has room for both.
 */
module CloseDates {
  import opened Ordering
  import opened Values
  import opened Trades
  import opened Settlement
  import opened StateMachine
  import opened Sums
  import opened Chains
  import opened Books
  import opened Reservations
  import opened Invariants
  import opened EndOfDay

  // Nets as sums over the stored versions

  ghost function FlowAt(k: SettlementKey): (TradeKey, Trade) -> int {
    (j: TradeKey, t: Trade) => Flow(t, k)
  }

  ghost function Part(trades: TradeMap, keys: set<TradeKey>): TradeMap {
    map j | j in trades && j in keys :: trades[j]
  }

  /** Netting a list of distinct versions sums their flows. */
  lemma {:induction false} NetAlong(trades: TradeMap, keys: seq<TradeKey>, k: SettlementKey)
    requires AllIn(keys, trades) && Distinct(keys)
    ensures Net(TradesAt(trades, keys), k) == SumOver(Part(trades, Elements(keys)), FlowAt(k))
  {
    hide Flow;
    if keys == [] {
      assert TradesAt(trades, keys) == [] && Part(trades, Elements(keys)) == map[];
    } else {
      var front, last := keys[..|keys| - 1], keys[|keys| - 1];
      assert keys == front + [last];
      ElementsStep(front, last);
      NetAlong(trades, front, k);
      var listed := TradesAt(trades, keys);
      assert listed[..|listed| - 1] == TradesAt(trades, front) && listed[|listed| - 1] == trades[last];
      assert Part(trades, Elements(keys)) == Part(trades, Elements(front))[last := trades[last]];
      SumStore(Part(trades, Elements(front)), FlowAt(k), last, trades[last]);
    }
  }

  /** Versions outside the part contribute nothing. */
  lemma {:induction false} SumOfPart(trades: TradeMap, keys: set<TradeKey>, f: (TradeKey, Trade) -> int)
    requires keys <= trades.Keys && forall j :: j in trades && j !in keys ==> f(j, trades[j]) == 0
    ensures SumOver(trades, f) == SumOver(Part(trades, keys), f)
    decreases trades.Keys
  {
    if trades.Keys == keys {
      assert Part(trades, keys) == trades;
    } else {
      var j :| j in trades && j !in keys;
      SumRemove(trades, f, j);
      SumOfPart(trades - {j}, keys, f);
      assert Part(trades - {j}, keys) == Part(trades, keys);
    }
  }

  /** The net of the settled versions is the sum of the flows of all versions. */
  lemma NetIsSum(trades: TradeMap, k: SettlementKey)
    ensures Net(SettledTrades(trades), k) == SumOver(trades, FlowAt(k))
  {
    hide KeysInOrder, Net;
    var settled := SettledKeys(trades);
    KeysAreDistinct(settled);
    NetAlong(trades, SettledInOrder(trades), k);
    SumOfPart(trades, settled, FlowAt(k));
  }

  /** What a version adds, as a term of a sum. */
  ghost function ContributionAt(counterpartyId: CounterpartyId, nettingSetId: NettingSetId, valueDate: IsoDate,
          currency: Currency): (TradeKey, Trade) -> int
  {
    (j: TradeKey, t: Trade) => Contribution(t, counterpartyId, nettingSetId, valueDate, currency)
  }

  lemma FlowIsContribution(t: Trade, k: SettlementKey)
    ensures Flow(t, k) == Contribution(t, k.counterpartyId, k.nettingSetId, k.valueDate, k.currency)
  {
  }

  /** Listing the settled versions totals what every stored version adds. */
  lemma TotalIsSum(trades: TradeMap, counterpartyId: CounterpartyId, nettingSetId: NettingSetId, valueDate: IsoDate,
          currency: Currency)
    ensures TotalContribution(SettledTrades(trades), counterpartyId, nettingSetId, valueDate, currency) ==
        SumOver(trades, ContributionAt(counterpartyId, nettingSetId, valueDate, currency))
  {
    hide SettledTrades, Net, Flow;
    var k := SettlementKey(counterpartyId, nettingSetId, valueDate, currency);
    NetIsTotal(SettledTrades(trades), k);
    NetIsSum(trades, k);
    forall j | j in trades
      ensures FlowAt(k)(j, trades[j]) == ContributionAt(counterpartyId, nettingSetId, valueDate, currency)(j, trades[j])
    {
      FlowIsContribution(trades[j], k);
    }
    SumAgrees(trades, trades, FlowAt(k), ContributionAt(counterpartyId, nettingSetId, valueDate, currency));
  }

  // An earlier close overflows only if the later one does

  /** A date's keys are settled alike by every close on or after that date. */
  lemma NetBeforeFirst(trades: TradeMap, first: IsoDate, second: IsoDate, k: SettlementKey)
    requires first <= second && k.valueDate <= first
    ensures Net(SettledTrades(AtClose(trades, first)), k) == Net(SettledTrades(AtClose(trades, second)), k)
  {
    hide SettledTrades, Net;
    NetIsSum(AtClose(trades, first), k);
    NetIsSum(AtClose(trades, second), k);
    SumCongruent(AtClose(trades, first), AtClose(trades, second), FlowAt(k));
  }

  /** A date's keys are untouched by every close before that date. */
  lemma NetAfterFirst(trades: TradeMap, first: IsoDate, k: SettlementKey)
    requires k.valueDate > first
    ensures Net(SettledTrades(AtClose(trades, first)), k) == Net(SettledTrades(trades), k)
  {
    hide SettledTrades, Net;
    NetIsSum(AtClose(trades, first), k);
    NetIsSum(trades, k);
    SumCongruent(AtClose(trades, first), trades, FlowAt(k));
  }

  lemma FitsWhereNetted(trades: seq<Trade>, k: SettlementKey)
    requires AllRepresentable(trades)
    ensures NetFits(trades, k)
  {
    hide Obligations;
    NetsAreExact(trades, k);
  }

  lemma EarlierCloseFits(s: State, first: IsoDate, second: IsoDate)
    requires Netted(s.trades, s.settlements) && first <= second && !Overflows(s, second)
    ensures !Overflows(s, first)
  {
    hide SettledTrades, Net, AtClose, SettlementKeys;
    forall k | k in SettlementKeys(SettledTrades(AtClose(s.trades, first)))
      ensures NetFits(SettledTrades(AtClose(s.trades, first)), k)
    {
      if k.valueDate <= first {
        NetBeforeFirst(s.trades, first, second, k);
        FitsWhereNetted(SettledTrades(AtClose(s.trades, second)), k);
      } else {
        NetAfterFirst(s.trades, first, k);
        FitsWhereNetted(SettledTrades(s.trades), k);
      }
    }
  }

  // Splitting a close

  /** Nothing falls due after the first date and up to the second. */
  predicate NothingBetween(s: State, first: IsoDate, second: IsoDate) {
    EligibleKeys(s.trades, second) <= EligibleKeys(s.trades, first)
  }

  /** The version steps that the two runs take. */
  function StepsNeeded(s: State, first: IsoDate, second: IsoDate): nat {
    (if Idle(s, first) then 0 else 1) + (if NothingBetween(s, first, second) then 0 else 1)
  }

  ghost predicate BothRun(s: State, first: IsoDate, second: IsoDate) {
    AfterEod(s, first).Success? && AfterEod(AfterEod(s, first).value, second).Success?
  }

  lemma IdleAfterFirst(s: State, first: IsoDate, second: IsoDate, middle: State)
    requires first <= second && middle.trades == AtClose(s.trades, first)
    ensures Idle(middle, second) <==> NothingBetween(s, first, second)
  {
    forall k | k in s.trades
      ensures k in EligibleKeys(middle.trades, second) <==>
              k in EligibleKeys(s.trades, second) && k !in EligibleKeys(s.trades, first)
    {
      assert k in EligibleKeys(s.trades, first) <==> Eligible(s.trades[k], first);
    }
  }

  /**
   An end of day can be split at any earlier date exactly when it succeeds and the version has room for both steps.
   */
  lemma EodSplits(s: State, first: IsoDate, second: IsoDate)
    requires Inv(s) && first <= second
    ensures BothRun(s, first, second) <==>
              AfterEod(s, second).Success? && s.version + StepsNeeded(s, first, second) <= UINT64_MAX
  {
    hide Chain, Sound, Backed, Aggregates, Netted, AfterEod, AtClose, Overflows, SameCapacities, EligibleKeys;
    EodIff(s, first);
    EodIff(s, second);
    IdleIsNested(s, first, second);
    if !Overflows(s, second) { EarlierCloseFits(s, first, second); }
    if AfterEod(s, first).Success? {
      var middle := AfterEod(s, first).value;
      EodExact(s, first, middle);
      IdleAfterFirst(s, first, second, middle);
      EodIff(middle, second);
      SameOverflow(s, first, second, middle);
      if NothingBetween(s, first, second) { SameClose(s, first, second); }
    }
  }

  lemma IdleIsNested(s: State, first: IsoDate, second: IsoDate)
    requires first <= second
    ensures Idle(s, second) <==> Idle(s, first) && NothingBetween(s, first, second)
  {
    assert EligibleKeys(s.trades, first) <= EligibleKeys(s.trades, second);
  }

  lemma SameOverflow(s: State, first: IsoDate, second: IsoDate, middle: State)
    requires first <= second && middle.trades == AtClose(s.trades, first)
    ensures Overflows(middle, second) <==> Overflows(s, second)
  {
    hide AtClose, SettledTrades;
    ClosesCompose(s.trades, first, second);
  }

  lemma SameClose(s: State, first: IsoDate, second: IsoDate)
    requires first <= second && NothingBetween(s, first, second)
    ensures Overflows(s, first) <==> Overflows(s, second)
  {
    hide SettledTrades;
    assert EligibleKeys(s.trades, first) == EligibleKeys(s.trades, second) by {
      assert EligibleKeys(s.trades, first) <= EligibleKeys(s.trades, second);
    }
  }
}
