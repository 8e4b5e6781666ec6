/** Replay folds batches into a fresh state and re-checks every recorded response (replay.cpp). */
module Replay {
  import opened Wrappers
  import opened Ordering
  import opened Values
  import opened Trades
  import opened Limits
  import opened Ledger
  import opened StateMachine
  import opened Journal

  datatype ReplayError =
    | SequenceMismatch
    | InvalidBatchShape
    | EventApplicationFailed(state: StateError)
    | ResultMismatch
    | LedgerTotalsMismatch

  ghost function AfterEvent(s: State, e: Event): Outcome<State, StateError> {
    match e
    case TradeBooked(id, bookId, counterpartyId, nettingSetId, terms) =>
        AfterBook(s, id, bookId, counterpartyId, nettingSetId, terms)
    case TradeConfirmed(id, expected, ids) => AfterConfirm(s, id, expected, ids)
    case TradeAmended(id, expected, terms, reversalIds, ids) => AfterAmend(s, id, expected, terms, reversalIds, ids)
    case TradeCancelled(id, expected, reversalIds) => AfterCancel(s, id, expected, reversalIds)
    case EodRan(asOf) => AfterEod(s, asOf)
  }

  method ApplyEvent(s: State, e: Event) returns (r: Outcome<State, StateError>)
    ensures r == AfterEvent(s, e)
  {
    match e
    case TradeBooked(id, bookId, counterpartyId, nettingSetId, terms) =>
      r := Book(s, id, bookId, counterpartyId, nettingSetId, terms);
    case TradeConfirmed(id, expected, ids) => r := Confirm(s, id, expected, ids);
    case TradeAmended(id, expected, terms, reversalIds, ids) => r := Amend(s, id, expected, terms, reversalIds, ids);
    case TradeCancelled(id, expected, reversalIds) => r := Cancel(s, id, expected, reversalIds);
    case EodRan(asOf) => r := RunEndOfDay(s, asOf);
  }

  function SettledCount(trades: TradeMap): nat {
    |SettledKeys(trades)|
  }

  lemma TraversalCounts(trades: TradeMap)
    ensures |Keep(KeysInOrder(trades.Keys), SettledKeys(trades))| == SettledCount(trades)
  {
    hide KeysInOrder, Keep, Elements, Distinct;
    KeysAreDistinct(trades.Keys);
    KeptCount(KeysInOrder(trades.Keys), SettledKeys(trades));
    assert trades.Keys * SettledKeys(trades) == SettledKeys(trades);
  }

  method SettledTradeCount(trades: TradeMap) returns (count: nat)
    ensures count == SettledCount(trades)
  {
    var keys := TraversalOrder(trades);
    count := CountSettled(keys, trades);
    TraversalCounts(trades);
  }

  method CountSettled(keys: seq<TradeKey>, trades: TradeMap) returns (count: nat)
    requires AllIn(keys, trades)
    ensures count == |Keep(keys, SettledKeys(trades))|
  {
    count := 0;
    for i := 0 to |keys|
      invariant count == |Keep(keys[..i], SettledKeys(trades))|
    {
      assert keys[..i + 1][..i] == keys[..i];
      if trades[keys[i]].state == Settled {
        count := count + 1;
      }
    }
    assert keys[..|keys|] == keys;
  }

  predicate HasTrade(s: State, id: TradeId, version: uint32, state: TradeState) {
    var t := s.FindTrade(id, version);
    t.Some? && t.value.state == state
  }

  /** The recorded response describes the event that was applied. */
  predicate ResultMatches(result: CommandResult, e: Event, before: State, after: State) {
    && result.stateVersion == after.version
    && match result
       case TradeBookedResult(id, version, _) =>
         e.TradeBooked? && e.tradeId == id && version == 1 && HasTrade(after, id, version, Captured)
       case TradeConfirmedResult(id, version, _) =>
         e.TradeConfirmed? && e.tradeId == id && version == e.expectedVersion && HasTrade(after, id, version, Confirmed)
       case TradeAmendedResult(id, superseded, replacement, _) =>
         && e.TradeAmended? && e.tradeId == id && superseded == e.expectedVersion
         && replacement == (e.expectedVersion + 1) % 0x1_0000_0000
         && HasTrade(after, id, superseded, Superseded) && HasTrade(after, id, replacement, Confirmed)
       case TradeCancelledResult(id, version, _) =>
         e.TradeCancelled? && e.tradeId == id && version == e.expectedVersion && HasTrade(after, id, version, Cancelled)
       case EodRunResult(asOf, count, _) =>
         e.EodRan? && e.asOf == asOf && count == SettledCount(after.trades) - SettledCount(before.trades)
  }

  method CheckResult(result: CommandResult, e: Event, before: State, after: State) returns (ok: bool)
    ensures ok == ResultMatches(result, e, before, after)
  {
    if result.EodRunResult? {
      var countAfter: int := SettledTradeCount(after.trades);
      var countBefore: int := SettledTradeCount(before.trades);
      var settled: int := countAfter - countBefore;
      ok := result.stateVersion == after.version && e.EodRan? && e.asOf == result.asOf
          && result.settledTradeCount == settled;
    } else {
      ok := ResultMatches(result, e, before, after);
    }
  }

  /** One batch applied to the state reached so far. */
  ghost function AfterBatch(s: State, batch: CommandBatch, expectedSequence: nat): Outcome<State, ReplayError> {
    if batch.sequence != expectedSequence then Failure(SequenceMismatch)
    else if |batch.events| != 1 then Failure(InvalidBatchShape)
    else
      var next :- AfterEvent(s, batch.events[0]).MapFailure(e => EventApplicationFailed(e));
      if !ResultMatches(batch.result, batch.events[0], s, next) then Failure(ResultMismatch) else Success(next)
  }

  ghost function Folded(limits: LimitMap, batches: seq<CommandBatch>): Outcome<State, ReplayError>
    decreases |batches|
  {
    if batches == [] then Success(InitialState(limits)) else
      var s :- Folded(limits, batches[..|batches| - 1]);
      AfterBatch(s, batches[|batches| - 1], |batches|)
  }

  ghost function Replayed(limits: LimitMap, batches: seq<CommandBatch>): Outcome<State, ReplayError> {
    var s :- Folded(limits, batches);
    if AfterEntries(ZERO_TOTALS, s.entries) == Success(s.totals) then Success(s) else Failure(LedgerTotalsMismatch)
  }

  lemma {:induction false} FirstFailureStays(limits: LimitMap, batches: seq<CommandBatch>, i: nat)
    requires i <= |batches| && Folded(limits, batches[..i]).Failure?
    ensures Folded(limits, batches) == Failure(Folded(limits, batches[..i]).error)
    decreases |batches| - i
  {
    if i < |batches| {
      assert batches[..i + 1][..i] == batches[..i];
      FirstFailureStays(limits, batches, i + 1);
    } else {
      assert batches[..i] == batches;
    }
  }

  method ReplayBatches(limits: LimitMap, batches: seq<CommandBatch>) returns (r: Outcome<State, ReplayError>)
    ensures r == Replayed(limits, batches)
  {
    var state := InitialState(limits);
    var expectedSequence := 1;
    for i := 0 to |batches|
      invariant Folded(limits, batches[..i]) == Success(state)
      invariant expectedSequence == i + 1
    {
      assert batches[..i + 1][..i] == batches[..i];
      if Folded(limits, batches[..i + 1]).Failure? { FirstFailureStays(limits, batches, i + 1); }
      var applied := ReplayOne(state, batches[i], expectedSequence);
      if applied.Failure? {
        return Failure(applied.error);
      }
      state := applied.value;
      expectedSequence := expectedSequence + 1;
    }
    assert batches[..|batches|] == batches;
    // The running totals must match a fresh sum of the whole ledger.
    var recomputed := RecomputeLedgerTotals(state.entries);
    if recomputed != Success(state.totals) {
      return Failure(LedgerTotalsMismatch);
    }
    return Success(state);
  }

  method ReplayOne(before: State, batch: CommandBatch, expectedSequence: nat) returns (r: Outcome<State, ReplayError>)
    ensures r == AfterBatch(before, batch, expectedSequence)
  {
    if batch.sequence != expectedSequence {
      return Failure(SequenceMismatch);
    }
    if |batch.events| != 1 {
      return Failure(InvalidBatchShape);
    }
    var applied := ApplyEvent(before, batch.events[0]);
    if applied.Failure? {
      return Failure(EventApplicationFailed(applied.error));
    }
    var ok := CheckResult(batch.result, batch.events[0], before, applied.value);
    if !ok {
      return Failure(ResultMismatch);
    }
    return Success(applied.value);
  }
}
