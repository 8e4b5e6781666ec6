/** Durable records: events, results and command batches (command_batch.hpp, command_batch.cpp). */
module Journal {
  import opened Wrappers
  import opened Values
  import opened PostingPolicy

  datatype Event =
    | TradeBooked(tradeId: TradeId, bookId: BookId, counterpartyId: CounterpartyId, nettingSetId: NettingSetId,
        terms: FxTerms)
    | TradeConfirmed(tradeId: TradeId, expectedVersion: uint32, postingIds: ConfirmationPostingIds)
    | TradeAmended(tradeId: TradeId, expectedVersion: uint32, replacementTerms: FxTerms,
                   reversal: ReversalPostingIds, replacementPostingIds: ConfirmationPostingIds)
    | TradeCancelled(tradeId: TradeId, expectedVersion: uint32, reversalIds: Option<ReversalPostingIds>)
    | EodRan(asOf: IsoDate)

  datatype CommandResult =
    | TradeBookedResult(tradeId: TradeId, version: uint32, stateVersion: uint64)
    | TradeConfirmedResult(tradeId: TradeId, version: uint32, stateVersion: uint64)
    | TradeAmendedResult(tradeId: TradeId, supersededVersion: uint32, replacementVersion: uint32, stateVersion: uint64)
    | TradeCancelledResult(tradeId: TradeId, version: uint32, stateVersion: uint64)
    | EodRunResult(asOf: IsoDate, settledTradeCount: uint32, stateVersion: uint64)

  datatype CommandBatchData = CommandBatch(
    sequence: uint64, commandId: CommandId, canonicalRequest: Bytes, events: seq<Event>, result: CommandResult)

  datatype CommandBatchError = ZeroSequence | ResultStateVersionExceedsSequence

  /** One accepted command: its request, event and logical response. */
  type CommandBatch = b: CommandBatchData | b.sequence != 0 && b.result.stateVersion <= b.sequence
    witness CommandBatchData.CommandBatch(1, [65], [], [], EodRunResult(0, 0, 0))

  function CreateBatch(sequence: uint64, commandId: CommandId, canonicalRequest: Bytes, events: seq<Event>,
          result: CommandResult): Outcome<CommandBatch, CommandBatchError>
  {
    if sequence == 0 then Failure(ZeroSequence)
    else if result.stateVersion > sequence then Failure(ResultStateVersionExceedsSequence)
    else Success(CommandBatchData.CommandBatch(sequence, commandId, canonicalRequest, events, result))
  }
}
