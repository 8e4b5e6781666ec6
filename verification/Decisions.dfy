/**
 Which commands a sound state accepts, and the answer to each that it rejects, in
 terms of the fields of the state and the command alone.
 */
module Decisions {
  import opened Wrappers
  import opened Ordering
  import opened Values
  import opened Trades
  import opened Limits
  import opened Ledger
  import opened PostingPolicy
  import opened Settlement
  import opened StateMachine
  import opened Sums
  import opened Reservations
  import opened Books
  import opened Chains
  import opened Invariants
  import opened Amendments
  import opened EndOfDay
  import opened CloseDates
  import opened Journal
  import opened Replay
  import opened Evaluator
  import opened Effects

  // Acceptance

  /** Nothing is known under any of the four ids, and no two of them are equal. */
  predicate Unused(s: State, ids: ConfirmationPostingIds) {
    && Distinct([ids.payControlDebit, ids.payPayableCredit, ids.receiveReceivableDebit, ids.receiveControlCredit])
    && FourIds(ids) !! s.postingIds
  }

  predicate UnusedReversal(s: State, ids: ReversalPostingIds) {
    && Distinct([ids.payControlCredit, ids.payPayableDebit, ids.receiveReceivableCredit, ids.receiveControlDebit])
    && FourReversalIds(ids) !! s.postingIds
  }

  /** The node can take the replacement once the version has given its own payment back. */
  predicate RoomAfter(limits: LimitMap, node: LimitNode, t: Trade, terms: FxTerms) {
    var k := LimitKey(node, terms.pay.currency);
    var givenBack := if t.terms.pay.currency == terms.pay.currency then t.terms.pay.minorUnits else 0;
    k in limits && limits[k].reserved - givenBack + terms.pay.minorUnits <= limits[k].capacity
  }

  predicate RoomToAmend(limits: LimitMap, t: Trade, terms: FxTerms) {
    && RoomAfter(limits, GroupNode, t, terms)
    && RoomAfter(limits, CounterpartyNode(t.counterpartyId), t, terms)
    && RoomAfter(limits, NettingSetNode(t.counterpartyId, t.nettingSetId), t, terms)
    && RoomAfter(limits, BookNode(t.counterpartyId, t.nettingSetId, t.bookId), t, terms)
  }

  /** What a version adds to a net after the close: it has settled, or it settles now. */
  ghost function ClosingContribution(asOf: IsoDate, counterpartyId: CounterpartyId, nettingSetId: NettingSetId,
          valueDate: IsoDate, currency: Currency): (TradeKey, Trade) -> int
  {
    (key: TradeKey, t: Trade) =>
      if (t.state == Settled || (t.state == Confirmed && t.terms.valueDate <= asOf))
         && t.counterpartyId == counterpartyId && t.nettingSetId == nettingSetId && t.terms.valueDate == valueDate
      then (if t.terms.receive.currency == currency then t.terms.receive.minorUnits else 0)
           - (if t.terms.pay.currency == currency then t.terms.pay.minorUnits else 0)
      else 0
  }

  ghost predicate NetsFit(trades: TradeMap, asOf: IsoDate) {
    forall c, n, d, currency :: FitsInt64(SumOver(trades, ClosingContribution(asOf, c, n, d, currency)))
  }

  /** Everything that a command needs to be accepted. */
  ghost predicate Accepts(s: State, c: Command) {
    match c
    case BookTradeCommand(id, _, _, _, _) => id !in s.currentVersions && s.version < UINT64_MAX
    case ConfirmTradeCommand(id, expected, ids) =>
      && CurrentIn(s, id, expected, Captured) && Headroom(s.limits, s.trades[TradeKey(id, expected)])
      && Unused(s, ids) && s.version < UINT64_MAX
    case AmendTradeCommand(id, expected, terms, reversalIds, ids) =>
      && CurrentIn(s, id, expected, Confirmed) && expected < UINT32_MAX
      && RoomToAmend(s.limits, s.trades[TradeKey(id, expected)], terms)
      && UnusedReversal(s, reversalIds) && Unused(s, ids) && FourReversalIds(reversalIds) !! FourIds(ids)
      && s.version < UINT64_MAX
    case CancelTradeCommand(id, expected, ids) =>
      && s.version < UINT64_MAX
      && (match ids
          case None => CurrentIn(s, id, expected, Captured)
          case Some(reversalIds) => CurrentIn(s, id, expected, Confirmed) && UnusedReversal(s, reversalIds))
    case RunEodCommand(asOf) =>
      NothingDue(s.trades, asOf)
      || (NetsFit(s.trades, asOf) && s.version < UINT64_MAX && |DueKeys(s.trades, asOf)| <= UINT32_MAX)
  }

  lemma UnusedIs(s: State, ids: ConfirmationPostingIds)
    ensures Unused(s, ids) <==> Distinct(ids.List()) && Fresh(ids.List(), s.postingIds)
  {
    var list := ids.List();
    assert list == [ids.payControlDebit, ids.payPayableCredit, ids.receiveReceivableDebit, ids.receiveControlCredit];
    assert list[0] in FourIds(ids) && list[1] in FourIds(ids) && list[2] in FourIds(ids) && list[3] in FourIds(ids);
    if Fresh(list, s.postingIds) {
      forall id | id in FourIds(ids) ensures id !in s.postingIds {
        assert id == list[0] || id == list[1] || id == list[2] || id == list[3];
      }
    }
  }

  lemma UnusedReversalIs(s: State, ids: ReversalPostingIds)
    ensures UnusedReversal(s, ids) <==> Distinct(ids.List()) && Fresh(ids.List(), s.postingIds)
  {
    var list := ids.List();
    assert list == [ids.payControlCredit, ids.payPayableDebit, ids.receiveReceivableCredit, ids.receiveControlDebit];
    assert list[0] in FourReversalIds(ids) && list[1] in FourReversalIds(ids) && list[2] in FourReversalIds(ids)
        && list[3] in FourReversalIds(ids);
    if Fresh(list, s.postingIds) {
      forall id | id in FourReversalIds(ids) ensures id !in s.postingIds {
        assert id == list[0] || id == list[1] || id == list[2] || id == list[3];
      }
    }
  }

  lemma EightUnused(s: State, reversalIds: ReversalPostingIds, ids: ConfirmationPostingIds)
    ensures Distinct(reversalIds.List() + ids.List()) && Fresh(reversalIds.List() + ids.List(), s.postingIds) <==>
              UnusedReversal(s, reversalIds) && Unused(s, ids) && FourReversalIds(reversalIds) !! FourIds(ids)
  {
    hide Distinct, Fresh;
    UnusedIs(s, ids);
    UnusedReversalIs(s, reversalIds);
    JoinedDistinct(reversalIds.List(), ids.List());
    JoinedFresh(reversalIds.List(), ids.List(), s.postingIds);
    assert Elements(reversalIds.List()) == FourReversalIds(reversalIds);
    assert Elements(ids.List()) == FourIds(ids);
    assert (forall id :: id in ids.List() ==> id !in reversalIds.List()) <==>
        Elements(reversalIds.List()) !! Elements(ids.List());
  }

  lemma RoomAfterRelease(s: State, t: Trade, terms: FxTerms, node: LimitNode)
    requires AfterRelease(s.limits, PathOf(t), t.terms.pay) == Success(Released(s, t))
    requires Encloses(node, t.counterpartyId, t.nettingSetId, t.bookId)
    ensures HasRoom(Released(s, t), node, terms.pay) <==> RoomAfter(s.limits, node, t, terms)
  {
    hide AfterRelease, Released, Encloses;
    ReleaseMoves(s.limits, t.counterpartyId, t.nettingSetId, t.bookId, t.terms.pay, Released(s, t));
  }

  lemma AmendRoomIff(s: State, key: TradeKey, terms: FxTerms)
    requires Inv(s) && key in s.trades && s.trades[key].state == Confirmed && s.trades[key].version < UINT32_MAX
    ensures Headroom(Released(s, s.trades[key]), Amendment(s.trades[key], terms).replacement) <==>
        RoomToAmend(s.limits, s.trades[key], terms)
  {
    hide Chain, Sound, Backed, Aggregates, Netted, AfterRelease, HasRoom, RoomAfter;
    var t := s.trades[key];
    ReleaseNeverFails(s.trades, s.limits, key);
    RoomAfterRelease(s, t, terms, GroupNode);
    RoomAfterRelease(s, t, terms, CounterpartyNode(t.counterpartyId));
    RoomAfterRelease(s, t, terms, NettingSetNode(t.counterpartyId, t.nettingSetId));
    RoomAfterRelease(s, t, terms, BookNode(t.counterpartyId, t.nettingSetId, t.bookId));
  }

  lemma ClosingTotal(trades: TradeMap, asOf: IsoDate, c: CounterpartyId, n: NettingSetId, d: IsoDate,
          currency: Currency)
    ensures TotalContribution(SettledTrades(AtClose(trades, asOf)), c, n, d, currency) ==
        SumOver(trades, ClosingContribution(asOf, c, n, d, currency))
  {
    hide SettledTrades, AtClose;
    var closed := AtClose(trades, asOf);
    TotalIsSum(closed, c, n, d, currency);
    CloseSettlesDue(trades, asOf);
    SumAgrees(trades, closed, ClosingContribution(asOf, c, n, d, currency), ContributionAt(c, n, d, currency));
  }

  lemma OverflowsIff(s: State, asOf: IsoDate)
    ensures Overflows(s, asOf) <==> !NetsFit(s.trades, asOf)
  {
    hide SettledTrades, AtClose, TotalContribution, NetFits, Obligations;
    var settled := SettledTrades(AtClose(s.trades, asOf));
    NettingOverflowsIff(settled);
    assert Overflows(s, asOf) <==> BilateralSettlements(settled).Failure?;
    hide BilateralSettlements, Overflows, FitsInt64;
    if Overflows(s, asOf) {
      var c, n, d, currency :| !FitsInt64(TotalContribution(settled, c, n, d, currency));
      ClosingTotal(s.trades, asOf, c, n, d, currency);
    }
    if !NetsFit(s.trades, asOf) {
      var c, n, d, currency :| !FitsInt64(SumOver(s.trades, ClosingContribution(asOf, c, n, d, currency)));
      ClosingTotal(s.trades, asOf, c, n, d, currency);
    }
  }

  /** A command is accepted exactly when it meets its condition. */
  lemma AcceptedIff(s: State, c: Command)
    requires Inv(s)
    ensures Evaluated(s, c).Success? <==> Accepts(s, c)
  {
    hide Inv, AfterEvent, Evaluated, Accepts;
    EvaluationExact(s, c);
    SoundParts(s);
    match c
    case BookTradeCommand(_, _, _, _, _) => BookAccepted(s, c);
    case ConfirmTradeCommand(_, _, _) => ConfirmAccepted(s, c);
    case AmendTradeCommand(_, _, _, _, _) => AmendAccepted(s, c);
    case CancelTradeCommand(_, _, _) => CancelAccepted(s, c);
    case RunEodCommand(_) => EodAccepted(s, c);
  }

  lemma BookAccepted(s: State, c: Command)
    requires Inv(s) && c.BookTradeCommand?
    ensures AfterEvent(s, EventOf(c)).Success? <==> Accepts(s, c)
  {
    hide Inv, AfterBook;
    BookExact(s, c.tradeId, c.bookId, c.counterpartyId, c.nettingSetId, c.terms);
  }

  lemma ConfirmAccepted(s: State, c: Command)
    requires Inv(s) && c.ConfirmTradeCommand?
    ensures AfterEvent(s, EventOf(c)).Success? <==> Accepts(s, c)
  {
    hide Inv, AfterConfirm, Unused, Fresh, Distinct, Headroom;
    ConfirmIff(s, c.tradeId, c.expectedVersion, c.postingIds);
    UnusedIs(s, c.postingIds);
  }

  lemma AmendAccepted(s: State, c: Command)
    requires Inv(s) && c.AmendTradeCommand?
    ensures AfterEvent(s, EventOf(c)).Success? <==> Accepts(s, c)
  {
    hide Inv, AfterAmend, Unused, UnusedReversal, Fresh, Distinct, Headroom, RoomToAmend, Released, FourIds,
      FourReversalIds;
    AmendIff(s, c.tradeId, c.expectedVersion, c.replacementTerms, c.reversal, c.replacementPostingIds);
    EightUnused(s, c.reversal, c.replacementPostingIds);
    var key := TradeKey(c.tradeId, c.expectedVersion);
    if key in s.trades {
      CurrentVersionMatches(s, key);
      if s.trades[key].state == Confirmed && c.expectedVersion < UINT32_MAX {
        AmendRoomIff(s, key, c.replacementTerms);
      }
    }
  }

  lemma CancelAccepted(s: State, c: Command)
    requires Inv(s) && c.CancelTradeCommand?
    ensures AfterEvent(s, EventOf(c)).Success? <==> Accepts(s, c)
  {
    hide Inv, AfterCancel, UnusedReversal, Fresh, Distinct;
    CancelIff(s, c.tradeId, c.expectedVersion, c.reversalIds);
    if c.reversalIds.Some? { UnusedReversalIs(s, c.reversalIds.value); }
  }

  lemma EodAccepted(s: State, c: Command)
    requires Inv(s) && c.RunEodCommand?
    ensures AfterEvent(s, EventOf(c)).Success? && !TooManySettled(s, c) <==> Accepts(s, c)
  {
    hide Inv, AfterEod, Idle, Overflows, NothingDue, NetsFit;
    EodIff(s, c.asOf);
    IdleIff(s, c.asOf);
    OverflowsIff(s, c.asOf);
    DueAreEligible(s.trades, c.asOf);
    if NothingDue(s.trades, c.asOf) { NoneDue(s.trades, c.asOf); }
  }

  lemma NoneDue(trades: TradeMap, asOf: IsoDate)
    requires NothingDue(trades, asOf)
    ensures DueKeys(trades, asOf) == {}
  {
  }

  // Rejection

  /** The first node from the root without room, and what was missing. */
  predicate RefusedFor(limits: LimitMap, t: Trade, outgoing: Money, e: LimitError) {
    && e.currency == outgoing.currency && e.required == outgoing.minorUnits
    && Encloses(e.node, t.counterpartyId, t.nettingSetId, t.bookId) && !HasRoom(limits, e.node, outgoing)
    && (!e.node.GroupNode? ==> HasRoom(limits, GroupNode, outgoing))
    && (e.node.NettingSetNode? || e.node.BookNode? ==>
          HasRoom(limits, CounterpartyNode(t.counterpartyId), outgoing))
    && (e.node.BookNode? ==> HasRoom(limits, NettingSetNode(t.counterpartyId, t.nettingSetId), outgoing))
    && var k := LimitKey(e.node, outgoing.currency);
       if k in limits then e.code == Breach && e.remaining == limits[k].capacity - limits[k].reserved
       else e.code == UnknownNode && e.remaining == 0
  }

  /** What a command that addresses a version answers when that version is not its trade's current one. */
  predicate Misaddressed(s: State, id: TradeId, expected: uint32, e: StateError) {
    if id !in s.currentVersions then e == TradeNotFound else e == VersionConflict(expected, s.currentVersions[id])
  }

  predicate ConfirmRejects(s: State, id: TradeId, expected: uint32, ids: ConfirmationPostingIds, e: StateError) {
    if !Addresses(s, id, expected) then Misaddressed(s, id, expected, e)
    else
      var t := s.trades[TradeKey(id, expected)];
      if t.state != Captured then e == StateError.IllegalTransition(LifecycleError.IllegalTransition)
      else if !Headroom(s.limits, t) then e.LimitFailure? && RefusedFor(s.limits, t, t.terms.pay, e.limit)
      else if !Distinct(ids.List()) then e == PostingPolicyFailure(EntryFailed(LedgerError.DuplicatePostingId))
      else if !(FourIds(ids) !! s.postingIds) then e == StateError.DuplicatePostingId
      else s.version == UINT64_MAX && e == StateVersionOverflow
  }

  lemma ConfirmRejection(s: State, id: TradeId, expected: uint32, ids: ConfirmationPostingIds, e: StateError)
    requires Inv(s) && AfterConfirm(s, id, expected, ids) == Failure(e)
    ensures ConfirmRejects(s, id, expected, ids, e)
  {
    hide Inv, RequireCurrent, ConfirmationEntry, AfterReserve, AfterAppend, Headroom, Distinct, RefusedFor, FourIds;
    RequireCurrentExact(s, id, expected);
    if Addresses(s, id, expected) && s.trades[TradeKey(id, expected)].state == Captured {
      CapturedRejection(s, id, expected, ids, e);
    }
  }

  lemma CapturedRejection(s: State, id: TradeId, expected: uint32, ids: ConfirmationPostingIds, e: StateError)
    requires Inv(s) && AfterConfirm(s, id, expected, ids) == Failure(e)
    requires Addresses(s, id, expected) && s.trades[TradeKey(id, expected)].state == Captured
    ensures ConfirmRejects(s, id, expected, ids, e)
  {
    hide Chain, Sound, Backed, Aggregates, Netted, RequireCurrent, ConfirmationEntry, AfterReserve, IsConfirmation,
      Confirms, EntryIds, AfterAppend, Headroom, Fresh, Distinct, RefusedFor, FourIds;
    RequireCurrentExact(s, id, expected);
    var key := TradeKey(id, expected);
    var t := s.trades[key].(state := Confirmed);
    HeadroomExact(s.limits, s.trades[key]);
    EntryOutcome(s, t, ids);
    NotIndexedIfAbsent(s, key);
    if AfterReserve(s.limits, PathOf(t), t.terms.pay).Failure? {
      RefusalIs(s.limits, s.trades[key], t.terms.pay, AfterReserve(s.limits, PathOf(t), t.terms.pay).error);
    } else if Distinct(ids.List()) {
      ConfirmationPosts(ConfirmationEntry(t, ids).value, t, ids);
      FourIdsAre(ids);
      AppendExact(s.(limits := AfterReserve(s.limits, PathOf(t), t.terms.pay).value, trades := s.trades[key := t]),
          ConfirmationEntry(t, ids).value);
    }
  }

  lemma RefusalIs(limits: LimitMap, t: Trade, outgoing: Money, e: LimitError)
    requires outgoing.minorUnits > 0 && AfterReserve(limits, PathOf(t), outgoing) == Failure(e)
    ensures RefusedFor(limits, t, outgoing, e)
  {
    hide AfterReserve, Encloses, HasRoom;
    ReserveRefusal(limits, t.counterpartyId, t.nettingSetId, t.bookId, outgoing, e);
  }

  lemma FourIdsAre(ids: ConfirmationPostingIds)
    ensures FourIds(ids) ==
        {ids.payControlDebit, ids.payPayableCredit, ids.receiveReceivableDebit, ids.receiveControlCredit}
  {
  }

  /** Some reversal id is the id of the very posting that it would reverse. */
  predicate ReusesInPlace(s: State, key: TradeKey, ids: ReversalPostingIds) {
    && key in s.confirmations
    && var p := s.entries[s.confirmations[key]].postings;
       && |p| == 4
       && (p[0].id == ids.payControlCredit || p[1].id == ids.payPayableDebit || p[2].id == ids.receiveReceivableCredit
           || p[3].id == ids.receiveControlDebit)
  }

  /** What is wrong with the ids of a reversal on their own. */
  predicate ReversalRejects(s: State, key: TradeKey, ids: ReversalPostingIds, e: PostingPolicyError) {
    if ReusesInPlace(s, key, ids) then e == PostingFailed(SelfReversal)
    else !Distinct(ids.List()) && e == EntryFailed(LedgerError.DuplicatePostingId)
  }

  lemma ReuseIsSelfReversal(s: State, key: TradeKey, ids: ReversalPostingIds)
    requires key in s.confirmations && |s.entries[s.confirmations[key]].postings| == 4
    ensures SelfReversing(ids.List(), s.entries[s.confirmations[key]].postings) <==> ReusesInPlace(s, key, ids)
  {
    var list := ids.List();
    assert list[0] == ids.payControlCredit && list[1] == ids.payPayableDebit && list[2] == ids.receiveReceivableCredit
        && list[3] == ids.receiveControlDebit;
  }

  lemma ReversalRejection(s: State, key: TradeKey, ids: ReversalPostingIds)
    requires Sound(BooksOf(s)) && key in s.trades && Live(s.trades[key]) && key in s.confirmations
    ensures var r := ReversalEntry(s.entries[s.confirmations[key]], ids);
            && (r.Failure? ==> ReversalRejects(s, key, ids, r.error))
            && (r.Success? ==> !ReusesInPlace(s, key, ids) && Distinct(ids.List()))
            && (r.Success? ==> EntryIds(r.value) == FourReversalIds(ids))
  {
    hide Sound, ReversalEntry, IsConfirmationShape, EntryIds, Distinct, SelfReversing, ReusesInPlace, Mirrors,
      FourReversalIds;
    var original := s.entries[s.confirmations[key]];
    LiveHasShape(s, key);
    ReuseIsSelfReversal(s, key, ids);
    ReversalEntryExact(original, ids);
    if ReversalEntry(original, ids).Success? { MirrorIds(ReversalEntry(original, ids).value, original, ids); }
  }

  lemma LiveHasShape(s: State, key: TradeKey)
    requires Sound(BooksOf(s)) && key in s.trades && Live(s.trades[key]) && key in s.confirmations
    ensures IsConfirmationShape(s.entries[s.confirmations[key]].postings)
    ensures |s.entries[s.confirmations[key]].postings| == 4
  {
    hide UniqueIds, ReversesOnce, LiveStands, Accounted, Meaning, Confirms, IsConfirmationShape;
    LiveIsIndexed(BooksOf(s), key);
    ConfirmationFacts(s.entries[s.confirmations[key]], s.trades[key], [], Usd);
    ConfirmedFour(s.entries[s.confirmations[key]], s.trades[key]);
  }

  predicate CancelRejects(s: State, id: TradeId, expected: uint32, ids: Option<ReversalPostingIds>, e: StateError) {
    if !Addresses(s, id, expected) then Misaddressed(s, id, expected, e)
    else
      var key := TradeKey(id, expected);
      var state := s.trades[key].state;
      if state != Captured && state != Confirmed then
        e == StateError.IllegalTransition(LifecycleError.IllegalTransition)
      else if state == Captured && ids.Some? then e == UnexpectedReversalIds
      else if state == Confirmed && ids.None? then e == MissingReversalIds
      else if ids.Some? && (ReusesInPlace(s, key, ids.value) || !Distinct(ids.value.List())) then
        e.PostingPolicyFailure? && ReversalRejects(s, key, ids.value, e.policy)
      else if ids.Some? && !(FourReversalIds(ids.value) !! s.postingIds) then e == StateError.DuplicatePostingId
      else s.version == UINT64_MAX && e == StateVersionOverflow
  }

  lemma CancelRejection(s: State, id: TradeId, expected: uint32, ids: Option<ReversalPostingIds>, e: StateError)
    requires Inv(s) && AfterCancel(s, id, expected, ids) == Failure(e)
    ensures CancelRejects(s, id, expected, ids, e)
  {
    hide Inv, RequireCurrent, ReversalEntry, AfterRelease, AfterAppend, Distinct, ReusesInPlace, FourReversalIds;
    RequireCurrentExact(s, id, expected);
    if Addresses(s, id, expected) && s.trades[TradeKey(id, expected)].state == Confirmed && ids.Some? {
      ReversingRejection(s, id, expected, ids.value, e);
    }
  }

  lemma ReversingRejection(s: State, id: TradeId, expected: uint32, ids: ReversalPostingIds, e: StateError)
    requires Inv(s) && AfterCancel(s, id, expected, Some(ids)) == Failure(e)
    requires Addresses(s, id, expected) && s.trades[TradeKey(id, expected)].state == Confirmed
    ensures CancelRejects(s, id, expected, Some(ids), e)
  {
    hide Chain, Sound, Backed, Aggregates, Netted, RequireCurrent, ReversalEntry, AfterRelease, EntryIds, AfterAppend,
      Distinct, ReusesInPlace, FourReversalIds;
    RequireCurrentExact(s, id, expected);
    var key := TradeKey(id, expected);
    var t := s.trades[key];
    LiveIsIndexed(BooksOf(s), key);
    ReleaseNeverFails(s.trades, s.limits, key);
    ReversalRejection(s, key, ids);
    var reversal := ReversalEntry(s.entries[s.confirmations[key]], ids);
    if reversal.Success? {
      AppendExact(s.(limits := AfterRelease(s.limits, PathOf(t), t.terms.pay).value,
          trades := s.trades[key := t.(state := Cancelled)]), reversal.value);
    }
  }

  /** As for a reservation, on the hierarchy to which the old payment has been given back. */
  ghost predicate RefusedAfterRelease(s: State, t: Trade, outgoing: Money, e: LimitError) {
    exists released: LimitMap ::
      Moved(s.limits, released, t.counterpartyId, t.nettingSetId, t.bookId, t.terms.pay.currency,
          -t.terms.pay.minorUnits)
      && RefusedFor(released, t, outgoing, e)
  }

  ghost predicate AmendRejects(s: State, id: TradeId, expected: uint32, terms: FxTerms,
          reversalIds: ReversalPostingIds, ids: ConfirmationPostingIds, e: StateError)
  {
    if !Addresses(s, id, expected) then Misaddressed(s, id, expected, e)
    else
      var key := TradeKey(id, expected);
      var t := s.trades[key];
      if t.state != Confirmed then e == StateError.IllegalTransition(LifecycleError.IllegalTransition)
      else if expected == UINT32_MAX then e == AmendmentFailure(VersionOverflow)
      else if !RoomToAmend(s.limits, t, terms) then
        e.LimitFailure? && RefusedAfterRelease(s, t, terms.pay, e.limit)
      else if ReusesInPlace(s, key, reversalIds) || !Distinct(reversalIds.List()) then
        e.PostingPolicyFailure? && ReversalRejects(s, key, reversalIds, e.policy)
      else if !Distinct(ids.List()) then e == PostingPolicyFailure(EntryFailed(LedgerError.DuplicatePostingId))
      else if !(FourReversalIds(reversalIds) !! s.postingIds) || !(FourIds(ids) !! s.postingIds)
              || !(FourIds(ids) !! FourReversalIds(reversalIds)) then e == StateError.DuplicatePostingId
      else s.version == UINT64_MAX && e == StateVersionOverflow
  }

  lemma AmendRejection(s: State, id: TradeId, expected: uint32, terms: FxTerms, reversalIds: ReversalPostingIds,
          ids: ConfirmationPostingIds, e: StateError)
    requires Inv(s) && AfterAmend(s, id, expected, terms, reversalIds, ids) == Failure(e)
    ensures AmendRejects(s, id, expected, terms, reversalIds, ids, e)
  {
    hide Chain, Sound, Backed, Aggregates, Netted, ReversalEntry, ConfirmationEntry, AfterRelease, AfterReserve,
      Confirms, EntryIds, Rebook, RequireCurrent, Rebooking, ReusesInPlace, Distinct, RoomToAmend, RefusedAfterRelease,
      FourIds, FourReversalIds, ReversalRejects, CanAmend;
    RequireCurrentExact(s, id, expected);
    if Addresses(s, id, expected) && s.trades[TradeKey(id, expected)].state == Confirmed {
      var key := TradeKey(id, expected);
      LiveIsIndexed(BooksOf(s), key);
      ReleaseNeverFails(s.trades, s.limits, key);
      AmendmentExact(s.trades[key], terms);
      if expected < UINT32_MAX {
        AmendReduces(s, id, expected, terms, reversalIds, ids);
        RebookingRejection(s, id, expected, terms, reversalIds, ids, e);
      }
    }
  }

  lemma RebookingRejection(s: State, id: TradeId, expected: uint32, terms: FxTerms, reversalIds: ReversalPostingIds,
          ids: ConfirmationPostingIds, e: StateError)
    requires Inv(s) && Addresses(s, id, expected) && s.trades[TradeKey(id, expected)].state == Confirmed
        && expected < UINT32_MAX
    requires s.trades[TradeKey(id, expected)].version == expected && TradeKey(id, expected) in s.confirmations
    requires Rebooking(s, TradeKey(id, expected), Amendment(s.trades[TradeKey(id, expected)], terms),
        Released(s, s.trades[TradeKey(id, expected)]), reversalIds, ids) == Failure(e)
    ensures AmendRejects(s, id, expected, terms, reversalIds, ids, e)
  {
    hide Chain, Sound, Backed, Aggregates, Netted, ReversalEntry, ConfirmationEntry, AfterReserve, Released,
      IsConfirmation, Confirms, EntryIds, AfterAppend, Rebook, Rebooked, Headroom, Fresh, Distinct, Extends,
      Superseding, ReusesInPlace, RoomToAmend, RefusedAfterRelease, FourIds, FourReversalIds;
    var key := TradeKey(id, expected);
    var t := s.trades[key];
    CanExtend(s, id, expected, terms);
    var a := Amendment(t, terms);
    HeadroomExact(Released(s, t), a.replacement);
    AmendRoomIff(s, key, terms);
    ReversalRejection(s, key, reversalIds);
    EntryOutcome(s, a.replacement, ids);
    var reserved := AfterReserve(Released(s, t), PathOf(a.replacement), a.replacement.terms.pay);
    var reversal := ReversalEntry(s.entries[s.confirmations[key]], reversalIds);
    var replacement := ConfirmationEntry(a.replacement, ids);
    if reserved.Failure? {
      ReleasedRefusal(s, key, terms, reserved.error);
    } else if reversal.Success? && replacement.Success? {
      ConfirmationPosts(replacement.value, a.replacement, ids);
      FourIdsAre(ids);
      RebookExact(s, key, a, reserved.value, reversal.value, replacement.value);
    }
  }

  lemma ReleasedRefusal(s: State, key: TradeKey, terms: FxTerms, e: LimitError)
    requires Inv(s) && key in s.trades && s.trades[key].state == Confirmed
    requires AfterReserve(Released(s, s.trades[key]), PathOf(s.trades[key]), terms.pay) == Failure(e)
    ensures RefusedAfterRelease(s, s.trades[key], terms.pay, e)
  {
    hide Chain, Sound, Backed, Aggregates, Netted, AfterReserve, AfterRelease, RefusedFor, Moved;
    var t := s.trades[key];
    ReleaseNeverFails(s.trades, s.limits, key);
    ReleaseMoves(s.limits, t.counterpartyId, t.nettingSetId, t.bookId, t.terms.pay, Released(s, t));
    RefusalIs(Released(s, t), t, terms.pay, e);
  }

  /** Why a rejected command was rejected: its first obstacle, in the order in which the program looks. */
  ghost predicate Rejects(s: State, c: Command, e: StateError) {
    match c
    case BookTradeCommand(id, _, _, _, _) =>
      if id in s.currentVersions then e == DuplicateTradeId
      else s.version == UINT64_MAX && e == StateVersionOverflow
    case ConfirmTradeCommand(id, expected, ids) => ConfirmRejects(s, id, expected, ids, e)
    case AmendTradeCommand(id, expected, terms, reversalIds, ids) =>
      AmendRejects(s, id, expected, terms, reversalIds, ids, e)
    case CancelTradeCommand(id, expected, ids) => CancelRejects(s, id, expected, ids, e)
    case RunEodCommand(asOf) =>
      && !NothingDue(s.trades, asOf)
      && if !NetsFit(s.trades, asOf) then e == SettlementFailure(ArithmeticOverflow)
         else s.version == UINT64_MAX && e == StateVersionOverflow
  }

  lemma RejectionIs(s: State, c: Command, e: StateError)
    requires Inv(s) && Evaluated(s, c) == Failure(EvaluationError.DomainRejected(e))
    ensures Rejects(s, c, e)
  {
    hide Inv, AfterBook, AfterConfirm, AfterAmend, AfterCancel, AfterEod, InvariantsHold, ConfirmRejects, AmendRejects,
      CancelRejects, NothingDue, NetsFit, Idle, Overflows, SettledCount;
    match c
    case BookTradeCommand(id, bookId, counterpartyId, nettingSetId, terms) =>
      BookExact(s, id, bookId, counterpartyId, nettingSetId, terms);
    case ConfirmTradeCommand(id, expected, ids) => ConfirmRejection(s, id, expected, ids, e);
    case AmendTradeCommand(id, expected, terms, reversalIds, ids) =>
      AmendRejection(s, id, expected, terms, reversalIds, ids, e);
    case CancelTradeCommand(id, expected, ids) => CancelRejection(s, id, expected, ids, e);
    case RunEodCommand(asOf) =>
      EodIff(s, asOf);
      IdleIff(s, asOf);
      OverflowsIff(s, asOf);
  }
}
