/**
 Accepted command histories: the state they reach, the journal they leave, and
 the proof that replaying that journal reaches the same state.
 */
module Histories {
  import opened Wrappers
  import opened Values
  import opened Trades
  import opened Limits
  import opened Ledger
  import opened StateMachine
  import opened Journal
  import opened Replay
  import opened Wire
  import opened Crc
  import opened Codec
  import opened Evaluator
  import opened Requests
  import opened Reservations
  import opened Invariants

  type History = seq<CommandEnvelope>

  predicate Uses(h: History, id: CommandId) {
    exists i :: 0 <= i < |h| && h[i].commandId == id
  }

  /** The state after a history of accepted commands, or none if some command would have been refused. */
  ghost function Run(limits: LimitMap, h: History): Option<State>
    decreases |h|
  {
    if h == [] then Some(InitialState(limits))
    else
      var earlier, last := h[..|h| - 1], h[|h| - 1];
      match Run(limits, earlier)
      case None => None
      case Some(s) =>
        if |h| <= UINT64_MAX && !Uses(earlier, last.commandId) && Evaluated(s, last.command).Success?
        then Some(Evaluated(s, last.command).value.prospective)
        else None
  }

  ghost predicate Accepted(limits: LimitMap, h: History) {
    Unreserved(limits) && Run(limits, h).Some?
  }

  ghost function StateAfter(limits: LimitMap, h: History): State
    requires Accepted(limits, h)
  {
    Run(limits, h).value
  }

  lemma RunStep(limits: LimitMap, h: History, last: CommandEnvelope)
    ensures Run(limits, h + [last]) ==
            match Run(limits, h)
            case None => None
            case Some(s) =>
              if |h| < UINT64_MAX && !Uses(h, last.commandId) && Evaluated(s, last.command).Success?
              then Some(Evaluated(s, last.command).value.prospective)
              else None
  {
    assert (h + [last])[..|h|] == h;
  }

  lemma EarlierAccepted(limits: LimitMap, h: History)
    requires Accepted(limits, h) && h != []
    ensures Accepted(limits, h[..|h| - 1])
  {
  }

  /** Every reachable state satisfies the invariant, with a version no larger than the number of commands. */
  lemma {:induction false} ReachableIsSound(limits: LimitMap, h: History)
    requires Accepted(limits, h)
    ensures Inv(StateAfter(limits, h))
    ensures StateAfter(limits, h).version <= |h|
    ensures SameCapacities(limits, StateAfter(limits, h).limits)
    decreases |h|
  {
    hide Inv, Evaluated, Uses;
    if h == [] {
      InitialStateIsSound(limits);
    } else {
      var s := StateAfter(limits, h[..|h| - 1]);
      ReachableIsSound(limits, h[..|h| - 1]);
      EvaluationReplays(s, h[|h| - 1].command);
    }
  }

  // The journal of a history

  ghost function RecordOf(s: State, sequence: nat, envelope: CommandEnvelope): Outcome<CommandBatch, CommandBatchError>
    requires sequence <= UINT64_MAX && Evaluated(s, envelope.command).Success?
  {
    var ev := Evaluated(s, envelope.command).value;
    CreateBatch(sequence, envelope.commandId, CanonicalBytes(envelope), [ev.event], ev.result)
  }

  lemma RecordCreated(limits: LimitMap, h: History, last: CommandEnvelope)
    requires Accepted(limits, h + [last])
    ensures Accepted(limits, h) && |h| < UINT64_MAX
    ensures Evaluated(StateAfter(limits, h), last.command).Success?
    ensures RecordOf(StateAfter(limits, h), |h| + 1, last).Success?
  {
    hide Inv, Evaluated, Uses, CanonicalBytes;
    RunStep(limits, h, last);
    ReachableIsSound(limits, h);
    EvaluationReplays(StateAfter(limits, h), last.command);
  }

  ghost function Batches(limits: LimitMap, h: History): (r: seq<CommandBatch>)
    requires Accepted(limits, h)
    ensures |r| == |h|
    decreases |h|
  {
    if h == [] then [] else
      var earlier, last := h[..|h| - 1], h[|h| - 1];
      assert h == earlier + [last];
      RecordCreated(limits, earlier, last);
      Batches(limits, earlier) + [RecordOf(StateAfter(limits, earlier), |h|, last).value]
  }

  lemma BatchesStep(limits: LimitMap, h: History, last: CommandEnvelope)
    requires Accepted(limits, h + [last])
    ensures Accepted(limits, h) && Evaluated(StateAfter(limits, h), last.command).Success? && |h| < UINT64_MAX
    ensures RecordOf(StateAfter(limits, h), |h| + 1, last).Success?
    ensures Batches(limits, h + [last]) == Batches(limits, h) + [RecordOf(StateAfter(limits, h), |h| + 1, last).value]
  {
    hide Evaluated, Uses, CanonicalBytes, RecordOf;
    RecordCreated(limits, h, last);
    assert (h + [last])[..|h|] == h;
  }

  /** Batch i records command i: its sequence, id, canonical request, event and result. */
  lemma {:induction false} BatchAt(limits: LimitMap, h: History, i: nat)
    requires Accepted(limits, h) && i < |h|
    ensures var b := Batches(limits, h)[i];
            && b.sequence == i + 1 && b.commandId == h[i].commandId && b.canonicalRequest == CanonicalBytes(h[i])
            && b.events == [EventOf(h[i].command)]
    decreases |h|
  {
    hide Inv, InvariantsHold, ResultFor, AfterEvent, EventOf, Uses, CanonicalBytes;
    var n := |h| - 1;
    assert h == h[..n] + [h[n]];
    BatchesStep(limits, h[..n], h[n]);
    if i < n { BatchAt(limits, h[..n], i); }
  }

  // Replay

  /** Folding a history's journal reaches the history's state. */
  lemma {:induction false} FoldReproduces(limits: LimitMap, h: History)
    requires Accepted(limits, h)
    ensures Folded(limits, Batches(limits, h)) == Success(StateAfter(limits, h))
    decreases |h|
  {
    hide Inv, Evaluated, AfterEvent, ResultMatches, Uses, CanonicalBytes;
    if h == [] {
    } else {
      var n := |h| - 1;
      var s := StateAfter(limits, h[..n]);
      assert h == h[..n] + [h[n]];
      BatchesStep(limits, h[..n], h[n]);
      FoldReproduces(limits, h[..n]);
      ReachableIsSound(limits, h[..n]);
      EvaluationReplays(s, h[n].command);
      var earlier := Batches(limits, h[..n]);
      var all := Batches(limits, h);
      assert all[..|all| - 1] == earlier;
    }
  }

  /** Replaying the journal of any accepted history succeeds and gives exactly its state. */
  lemma ReplayReproduces(limits: LimitMap, h: History)
    requires Accepted(limits, h)
    ensures Replayed(limits, Batches(limits, h)) == Success(StateAfter(limits, h))
  {
    hide Folded, Batches, Run;
    FoldReproduces(limits, h);
    ReachableIsSound(limits, h);
    LedgerIsNeutral(StateAfter(limits, h).entries);
  }

  // Sizes: a record of one command always fits its frame

  lemma TermsSize(t: FxTerms)
    ensures |PutTerms(t)| == 27
  {
  }

  lemma IdsSize(a: Id, b: Id, c: Id, d: Id)
    ensures |PutIds(a, b, c, d)| <= 264
  {
  }

  lemma FieldsSize(e: Event)
    ensures |PutFields(e)| <= 700
  {
    hide PutIds, PutTerms;
    match e
    case TradeBooked(id, bookId, counterpartyId, nettingSetId, terms) =>
        IdsSize(id, bookId, counterpartyId, nettingSetId); TermsSize(terms);
    case TradeConfirmed(_, _, c) => IdsSize(c.payControlDebit, c.payPayableCredit, c.receiveReceivableDebit,
        c.receiveControlCredit);
    case TradeAmended(_, _, terms, r, c) =>
      TermsSize(terms);
      IdsSize(c.payControlDebit, c.payPayableCredit, c.receiveReceivableDebit, c.receiveControlCredit);
      IdsSize(r.payControlCredit, r.payPayableDebit, r.receiveReceivableCredit, r.receiveControlDebit);
    case TradeCancelled(_, _, ids) =>
      if ids.Some? {
        var r := ids.value;
        IdsSize(r.payControlCredit, r.payPayableDebit, r.receiveReceivableCredit, r.receiveControlDebit);
      }
    case EodRan(_) =>
  }

  lemma ResultSize(r: CommandResult)
    ensures |PutResult(r)| <= 100
  {
  }

  /** No single-event record of a command can fail to encode. */
  lemma RecordEncodes(batch: CommandBatch, envelope: CommandEnvelope, e: Event)
    requires batch.canonicalRequest == CanonicalBytes(envelope) && batch.events == [e]
    ensures EncodedFrame(batch).Success?
  {
    hide PutFields, PutResult, Crc32, EventTag;
    FieldsSize(e);
    FieldsSize(EventOf(envelope.command));
    ResultSize(batch.result);
    assert EventsFit(batch.events);
    assert PutEvents(batch.events) == PutEvent(e) by {
      assert batch.events[1..] == [];
      assert PutEvents([]) == [];
      assert PutEvent(e) + [] == PutEvent(e);
    }
    assert |PutPayload(batch)| <= 3000;
  }

  lemma HistoryEncodes(limits: LimitMap, h: History)
    requires Accepted(limits, h)
    ensures Encodable(Batches(limits, h))
  {
    hide Batches, EncodedFrame, CanonicalBytes;
    forall i | 0 <= i < |h| ensures EncodedFrame(Batches(limits, h)[i]).Success? {
      BatchAt(limits, h, i);
      RecordEncodes(Batches(limits, h)[i], h[i], EventOf(h[i].command));
    }
  }

  // Command ids

  /** Each command id occurs at most once in an accepted history. */
  lemma {:induction false} IdsOccurOnce(limits: LimitMap, h: History, i: nat, j: nat)
    requires Accepted(limits, h) && i < j < |h|
    ensures h[i].commandId != h[j].commandId
    decreases |h|
  {
    hide Evaluated;
    var n := |h| - 1;
    if j < n { IdsOccurOnce(limits, h[..n], i, j); } else { assert h[..n][i] == h[i]; }
  }
}
