/** Pure evaluation of a command: next state, durable event and result together (command_evaluator.cpp). */
module Evaluator {
  import opened Wrappers
  import opened Values
  import opened Trades
  import opened Limits
  import opened Ledger
  import opened PostingPolicy
  import opened StateMachine
  import opened Journal
  import opened Replay
  import opened Reservations
  import opened Books
  import opened Chains
  import opened Invariants
  import opened Amendments
  import opened EndOfDay

  datatype Command =
    | BookTradeCommand(tradeId: TradeId, bookId: BookId, counterpartyId: CounterpartyId, nettingSetId: NettingSetId,
        terms: FxTerms)
    | ConfirmTradeCommand(tradeId: TradeId, expectedVersion: uint32, postingIds: ConfirmationPostingIds)
    | AmendTradeCommand(tradeId: TradeId, expectedVersion: uint32, replacementTerms: FxTerms,
                        reversal: ReversalPostingIds, replacementPostingIds: ConfirmationPostingIds)
    | CancelTradeCommand(tradeId: TradeId, expectedVersion: uint32, reversalIds: Option<ReversalPostingIds>)
    | RunEodCommand(asOf: IsoDate)

  datatype EvaluationError = DomainRejected(state: StateError) | InvariantViolation

  datatype Evaluation = Evaluation(prospective: State, event: Event, result: CommandResult)

  function EventOf(c: Command): Event {
    match c
    case BookTradeCommand(id, bookId, counterpartyId, nettingSetId, terms) =>
        TradeBooked(id, bookId, counterpartyId, nettingSetId, terms)
    case ConfirmTradeCommand(id, expected, ids) => TradeConfirmed(id, expected, ids)
    case AmendTradeCommand(id, expected, terms, reversalIds, ids) => TradeAmended(id, expected, terms, reversalIds, ids)
    case CancelTradeCommand(id, expected, reversalIds) => TradeCancelled(id, expected, reversalIds)
    case RunEodCommand(asOf) => EodRan(asOf)
  }

  predicate WithinCapacity(limits: map<LimitKey, BalanceData>) {
    forall k :: k in limits ==> limits[k].capacity >= 0 && 0 <= limits[k].reserved <= limits[k].capacity
  }

  predicate InvariantsHold(s: State) {
    AfterEntries(ZERO_TOTALS, s.entries) == Success(s.totals) && WithinCapacity(s.limits)
  }

  /** The response to a command, or a violation where the response cannot be represented. */
  function ResultFor(c: Command, before: State, after: State): Outcome<CommandResult, EvaluationError> {
    match c
    case BookTradeCommand(id, _, _, _, _) => Success(TradeBookedResult(id, 1, after.version))
    case ConfirmTradeCommand(id, expected, _) => Success(TradeConfirmedResult(id, expected, after.version))
    case AmendTradeCommand(id, expected, _, _, _) =>
      if expected == UINT32_MAX then Failure(InvariantViolation)
      else Success(TradeAmendedResult(id, expected, expected + 1, after.version))
    case CancelTradeCommand(id, expected, _) => Success(TradeCancelledResult(id, expected, after.version))
    case RunEodCommand(asOf) =>
      var settled: int := SettledCount(after.trades) - SettledCount(before.trades);
      if settled < 0 || settled > UINT32_MAX then Failure(InvariantViolation)
      else Success(EodRunResult(asOf, settled, after.version))
  }

  ghost function Evaluated(s: State, c: Command): Outcome<Evaluation, EvaluationError> {
    var next :- AfterEvent(s, EventOf(c)).MapFailure(e => DomainRejected(e));
    if !InvariantsHold(next) then Failure(InvariantViolation)
    else
      var result :- ResultFor(c, s, next);
      Success(Evaluation(next, EventOf(c), result))
  }

  /** The loop over the balances; it takes raw balances, which need not lie within their capacity. */
  method CheckCapacities(limits: map<LimitKey, BalanceData>) returns (ok: bool)
    ensures ok == WithinCapacity(limits)
  {
    var keys := limits.Keys;
    while keys != {}
      invariant keys <= limits.Keys
      invariant forall k :: k in limits && k !in keys ==>
          limits[k].capacity >= 0 && 0 <= limits[k].reserved <= limits[k].capacity
      decreases keys
    {
      var k :| k in keys;
      var balance := limits[k];
      if balance.capacity < 0 || balance.reserved < 0 || balance.reserved > balance.capacity {
        return false;
      }
      keys := keys - {k};
    }
    return true;
  }

  method CheckInvariants(s: State) returns (ok: bool)
    ensures ok == InvariantsHold(s)
  {
    var recomputed := RecomputeLedgerTotals(s.entries);
    if recomputed != Success(s.totals) {
      return false;
    }
    ok := CheckCapacities(s.limits);
  }

  method MakeResult(c: Command, before: State, after: State) returns (r: Outcome<CommandResult, EvaluationError>)
    ensures r == ResultFor(c, before, after)
  {
    if c.RunEodCommand? {
      var countBefore: int := SettledTradeCount(before.trades);
      var countAfter: int := SettledTradeCount(after.trades);
      if countAfter < countBefore || countAfter - countBefore > UINT32_MAX {
        return Failure(InvariantViolation);
      }
      return Success(EodRunResult(c.asOf, countAfter - countBefore, after.version));
    }
    return ResultFor(c, before, after);
  }

  method EvaluateCommand(s: State, c: Command) returns (r: Outcome<Evaluation, EvaluationError>)
    ensures r == Evaluated(s, c)
  {
    var prospective := ApplyEvent(s, EventOf(c));
    if prospective.Failure? {
      return Failure(DomainRejected(prospective.error));
    }
    var ok := CheckInvariants(prospective.value);
    if !ok {
      return Failure(InvariantViolation);
    }
    var result :- MakeResult(c, s, prospective.value);
    return Success(Evaluation(prospective.value, EventOf(c), result));
  }

  // The operations preserve the invariant

  lemma EventKeepsInv(s: State, e: Event, next: State)
    requires Inv(s) && AfterEvent(s, e) == Success(next)
    ensures Inv(next)
  {
    hide Inv, AfterBook, AfterConfirm, AfterAmend, AfterCancel, AfterEod;
    match e
    case TradeBooked(id, bookId, counterpartyId, nettingSetId, terms) =>
        BookKeepsInv(s, id, bookId, counterpartyId, nettingSetId, terms, next);
    case TradeConfirmed(id, expected, ids) => ConfirmKeepsInv(s, id, expected, ids, next);
    case TradeAmended(id, expected, terms, reversalIds, ids) =>
        AmendKeepsInv(s, id, expected, terms, reversalIds, ids, next);
    case TradeCancelled(id, expected, reversalIds) => CancelKeepsInv(s, id, expected, reversalIds, next);
    case EodRan(asOf) => EodExact(s, asOf, next);
  }

  /** Every accepted event advances the version by one, except an end of day with nothing to settle. */
  lemma EventAdvancesVersion(s: State, e: Event, next: State)
    requires Inv(s) && AfterEvent(s, e) == Success(next)
    ensures next.version == s.version + if e.EodRan? && Idle(s, e.asOf) then 0 else 1
    ensures SameCapacities(s.limits, next.limits)
  {
    hide Inv, AfterBook, AfterConfirm, AfterAmend, AfterCancel, AfterEod, SameCapacities, AfterReserve, AfterRelease;
    match e
    case TradeBooked(id, bookId, counterpartyId, nettingSetId, terms) =>
      BookExact(s, id, bookId, counterpartyId, nettingSetId, terms);
      CapacitiesReflexive(s.limits);
    case TradeConfirmed(id, expected, ids) =>
      var _ := ConfirmExact(s, id, expected, ids, next);
      RaiseKeepsCapacities(s.limits, PathOf(s.trades[TradeKey(id, expected)]),
          s.trades[TradeKey(id, expected)].terms.pay);
    case TradeAmended(id, expected, terms, reversalIds, ids) =>
      AmendVersion(s, id, expected, terms, reversalIds, ids, next);
    case TradeCancelled(id, expected, reversalIds) =>
      CancelExact(s, id, expected, reversalIds, next);
      if reversalIds.None? { CapacitiesReflexive(s.limits); }
      else {
        LowerKeepsCapacities(s.limits, PathOf(s.trades[TradeKey(id, expected)]),
            s.trades[TradeKey(id, expected)].terms.pay);
      }
    case EodRan(asOf) => EodExact(s, asOf, next);
  }

  lemma CapacitiesReflexive(limits: LimitMap)
    ensures SameCapacities(limits, limits)
  {
  }

  lemma AmendVersion(s: State, id: TradeId, expected: uint32, terms: FxTerms, reversalIds: ReversalPostingIds,
          ids: ConfirmationPostingIds, next: State)
    requires Inv(s) && AfterAmend(s, id, expected, terms, reversalIds, ids) == Success(next)
    ensures next.version == s.version + 1 && SameCapacities(s.limits, next.limits)
  {
    hide Inv, AfterAmend, SameCapacities, AfterReserve, AfterRelease, Extends, ReversesWith, IsConfirmation, EntryIds,
      Superseding;
    var _, _ := AmendExact(s, id, expected, terms, reversalIds, ids, next);
    var t := s.trades[TradeKey(id, expected)];
    LowerKeepsCapacities(s.limits, PathOf(t), t.terms.pay);
    RaiseKeepsCapacities(Released(s, t), PathOf(Amendment(t, terms).replacement), terms.pay);
    CapacitiesTransitive(s.limits, Released(s, t), next.limits);
  }

  // The recorded response always matches

  lemma BookedMatches(s: State, c: Command, next: State)
    requires Inv(s) && c.BookTradeCommand? && AfterEvent(s, EventOf(c)) == Success(next)
    ensures HasTrade(next, c.tradeId, 1, Captured)
  {
    hide Inv, AfterBook;
    BookExact(s, c.tradeId, c.bookId, c.counterpartyId, c.nettingSetId, c.terms);
  }

  lemma ConfirmedMatches(s: State, c: Command, next: State)
    requires Inv(s) && c.ConfirmTradeCommand? && AfterEvent(s, EventOf(c)) == Success(next)
    ensures HasTrade(next, c.tradeId, c.expectedVersion, Confirmed)
  {
    hide Inv, AfterConfirm, IsConfirmation, EntryIds, AfterReserve;
    var _ := ConfirmExact(s, c.tradeId, c.expectedVersion, c.postingIds, next);
  }

  lemma AmendedMatches(s: State, c: Command, next: State)
    requires Inv(s) && c.AmendTradeCommand? && AfterEvent(s, EventOf(c)) == Success(next)
    ensures c.expectedVersion < UINT32_MAX
    ensures HasTrade(next, c.tradeId, c.expectedVersion, Superseded)
    ensures HasTrade(next, c.tradeId, c.expectedVersion + 1, Confirmed)
  {
    hide Inv, AfterBook, AfterConfirm, AfterAmend, AfterCancel, AfterEod, AmendEffect;
    var key := TradeKey(c.tradeId, c.expectedVersion);
    var reversal, replacement := AmendExact(s, c.tradeId, c.expectedVersion, c.replacementTerms,
      c.reversal, c.replacementPostingIds, next);
    AmendStores(s, key, c.replacementTerms, c.reversal, c.replacementPostingIds, reversal, replacement, next);
    CurrentVersionMatches(s, key);
  }

  lemma CurrentVersionMatches(s: State, k: TradeKey)
    requires Inv(s) && k in s.trades
    ensures StoredAt(k, s.trades[k])
  {
  }

  lemma CancelledMatches(s: State, c: Command, next: State)
    requires Inv(s) && c.CancelTradeCommand? && AfterEvent(s, EventOf(c)) == Success(next)
    ensures HasTrade(next, c.tradeId, c.expectedVersion, Cancelled)
  {
    hide Inv, AfterCancel, ReversesWith, EntryIds, AfterRelease;
    CancelExact(s, c.tradeId, c.expectedVersion, c.reversalIds, next);
  }

  /** An end of day settles exactly the eligible versions. */
  lemma EodCount(s: State, asOf: IsoDate, next: State)
    requires Inv(s) && AfterEod(s, asOf) == Success(next)
    ensures SettledCount(next.trades) == SettledCount(s.trades) + |EligibleKeys(s.trades, asOf)|
  {
    hide Inv, AfterEod, AtClose, SettledCount;
    EodExact(s, asOf, next);
    CloseCount(s.trades, asOf);
  }

  lemma CloseCount(trades: TradeMap, asOf: IsoDate)
    ensures SettledCount(AtClose(trades, asOf)) == SettledCount(trades) + |EligibleKeys(trades, asOf)|
  {
    assert SettledKeys(AtClose(trades, asOf)) == SettledKeys(trades) + EligibleKeys(trades, asOf);
    assert SettledKeys(trades) !! EligibleKeys(trades, asOf);
  }

  lemma SoundStatesPassChecks(s: State)
    requires Inv(s)
    ensures InvariantsHold(s)
  {
    LedgerIsNeutral(s.entries);
  }

  /** One end of day settles more versions than the result can count. */
  predicate TooManySettled(s: State, c: Command) {
    c.RunEodCommand? && |EligibleKeys(s.trades, c.asOf)| > UINT32_MAX
  }

  /** Evaluation accepts what the domain accepts; the only violation is an uncountable end of day. */
  lemma EvaluationExact(s: State, c: Command)
    requires Inv(s)
    ensures AfterEvent(s, EventOf(c)).Failure? ==>
        Evaluated(s, c) == Failure(DomainRejected(AfterEvent(s, EventOf(c)).error))
    ensures AfterEvent(s, EventOf(c)).Success? && TooManySettled(s, c) ==>
        Evaluated(s, c) == Failure(InvariantViolation)
    ensures AfterEvent(s, EventOf(c)).Success? && !TooManySettled(s, c) ==>
              Evaluated(s, c).Success? && Evaluated(s, c).value.prospective == AfterEvent(s, EventOf(c)).value
  {
    hide Inv, AfterEvent, InvariantsHold, SettledCount;
    if AfterEvent(s, EventOf(c)).Success? {
      var next := AfterEvent(s, EventOf(c)).value;
      EventKeepsInv(s, EventOf(c), next);
      SoundStatesPassChecks(next);
      if c.AmendTradeCommand? { AmendedMatches(s, c, next); }
      if c.RunEodCommand? { EodCounted(s, c, next); }
    }
  }

  lemma EodCounted(s: State, c: Command, next: State)
    requires Inv(s) && c.RunEodCommand? && AfterEvent(s, EventOf(c)) == Success(next)
    ensures SettledCount(next.trades) == SettledCount(s.trades) + |EligibleKeys(s.trades, c.asOf)|
  {
    hide Inv, AfterEod, SettledCount;
    EodCount(s, c.asOf, next);
  }

  /** Replaying the emitted event gives the prospective state, and the emitted result describes it. */
  lemma EvaluationReplays(s: State, c: Command)
    requires Inv(s) && Evaluated(s, c).Success?
    ensures var ev := Evaluated(s, c).value;
            && AfterEvent(s, ev.event) == Success(ev.prospective)
            && ResultMatches(ev.result, ev.event, s, ev.prospective)
            && Inv(ev.prospective)
            && s.version <= ev.prospective.version <= s.version + 1
            && ev.result.stateVersion == ev.prospective.version
            && SameCapacities(s.limits, ev.prospective.limits)
  {
    hide Inv, AfterEvent, InvariantsHold, HasTrade, SettledCount, SameCapacities;
    var next := Evaluated(s, c).value.prospective;
    EventKeepsInv(s, EventOf(c), next);
    EventAdvancesVersion(s, EventOf(c), next);
    match c
    case BookTradeCommand(_, _, _, _, _) => BookedMatches(s, c, next);
    case ConfirmTradeCommand(_, _, _) => ConfirmedMatches(s, c, next);
    case AmendTradeCommand(_, _, _, _, _) => AmendedMatches(s, c, next);
    case CancelTradeCommand(_, _, _) => CancelledMatches(s, c, next);
    case RunEodCommand(_) => EodCounted(s, c, next);
  }
}
