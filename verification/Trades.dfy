/** Immutable trade versions and their lifecycle (lifecycle.cpp, trade.cpp). */
module Trades {
  import opened Wrappers
  import opened Ordering
  import opened Values

  datatype TradeState = Captured | Confirmed | Superseded | Cancelled | Settled
  datatype TradeAction = BookTrade | ConfirmTrade | AmendTrade | CancelTrade | RunEod
  datatype LifecycleError = IllegalTransition
  datatype TradeError = InvalidVersion | AmendmentRequiresConfirmed | VersionOverflow

  /** The closed transition table. */
  function Transition(state: TradeState, action: TradeAction): Outcome<TradeState, LifecycleError> {
    match (state, action)
    case (Captured, ConfirmTrade) => Success(Confirmed)
    case (Captured, CancelTrade) => Success(Cancelled)
    case (Confirmed, AmendTrade) => Success(Superseded)
    case (Confirmed, CancelTrade) => Success(Cancelled)
    case (Confirmed, RunEod) => Success(Settled)
    case _ => Failure(LifecycleError.IllegalTransition)
  }

  datatype Trade = Trade(
    id: TradeId,
    version: uint32,
    bookId: BookId,
    counterpartyId: CounterpartyId,
    nettingSetId: NettingSetId,
    terms: FxTerms,
    state: TradeState,
    supersedes: Option<uint32>,
    supersededBy: Option<uint32>)
  {
    function Apply(action: TradeAction): Outcome<Trade, LifecycleError> {
      var nextState :- Transition(state, action);
      if action == AmendTrade then Failure(LifecycleError.IllegalTransition)
      else Success(this.(state := nextState))
    }
  }

  function Capture(id: TradeId, bookId: BookId, counterpartyId: CounterpartyId, nettingSetId: NettingSetId,
          terms: FxTerms): Trade
  {
    Trade(id, 1, bookId, counterpartyId, nettingSetId, terms, Captured, None, None)
  }

  function NextTradeVersion(current: uint32): Outcome<uint32, TradeError> {
    if current == 0 then Failure(InvalidVersion)
    else if current == UINT32_MAX then Failure(VersionOverflow)
    else Success(current + 1)
  }

  datatype TradeAmendment = TradeAmendment(superseded: Trade, replacement: Trade)

  /** An amendment retires the confirmed version and links a confirmed replacement to it. */
  function AmendTradeVersion(current: Trade, terms: FxTerms): Outcome<TradeAmendment, TradeError> {
    if Transition(current.state, AmendTrade) != Success(Superseded) then Failure(AmendmentRequiresConfirmed)
    else
      var version :- NextTradeVersion(current.version);
      Success(TradeAmendment(
        current.(state := Superseded, supersededBy := Some(version)),
        current.(version := version, terms := terms, state := Confirmed,
                 supersedes := Some(current.version), supersededBy := None)))
  }

  // Trade version keys, ordered by trade id and then version

  datatype TradeKey = TradeKey(tradeId: TradeId, version: uint32)

  type TradeMap = map<TradeKey, Trade>

  predicate TradeKeyLess(a: TradeKey, b: TradeKey) {
    IdLess(a.tradeId, b.tradeId) || (a.tradeId == b.tradeId && a.version < b.version)
  }

  lemma TradeKeyOrder()
    ensures TotalOrder(TradeKeyLess)
  {
    IdOrder();
  }
}
