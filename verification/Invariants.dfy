/**
 The inductive invariant of the ledger state, and what each operation does to a
 state that satisfies it.
 */
module Invariants {
  import opened Wrappers
  import opened Ordering
  import opened Values
  import opened Trades
  import opened Limits
  import opened Ledger
  import opened PostingPolicy
  import opened Settlement
  import opened StateMachine
  import opened Reservations
  import opened Books
  import opened Chains

  /** Stored obligations are the netting of all settled versions. */
  ghost predicate Netted(trades: TradeMap, settlements: seq<SettlementObligation>) {
    BilateralSettlements(SettledTrades(trades)) == Success(settlements)
  }

  ghost predicate Inv(s: State) {
    && Chain(s.trades, s.currentVersions)
    && Sound(BooksOf(s))
    && Backed(s.trades, s.limits)
    && Aggregates(s.limits)
    && s.totals == ZERO_TOTALS
    && Netted(s.trades, s.settlements)
  }

  lemma InitialStateIsSound(limits: LimitMap)
    requires Unreserved(limits)
    ensures Inv(InitialState(limits))
  {
    EmptyBooksAreSound();
    UnreservedIsBacked(limits);
    UnreservedAggregates(limits);
    assert SettledKeys(map[]) == {};
    assert SettledTrades(map[]) == [];
    assert Obligations([]) == {};
  }

  // Shared steps

  predicate Fresh(ids: seq<PostingId>, known: set<PostingId>) {
    forall i :: 0 <= i < |ids| ==> ids[i] !in known
  }

  /** With zero totals, appending an entry fails only on a known posting id. */
  lemma AppendExact(s: State, e: LedgerEntry)
    requires s.totals == ZERO_TOTALS
    ensures AfterAppend(s, e) ==
            if EntryIds(e) !! s.postingIds then Success(s.(postingIds := s.postingIds + EntryIds(e),
                entries := s.entries + [e]))
            else Failure(StateError.DuplicatePostingId)
  {
    EntryIsNeutral(e, Usd);
    assert (exists p :: p in e.postings && p.id in s.postingIds) <==> !(EntryIds(e) !! s.postingIds);
  }

  /** The obligations depend on the settled versions alone. */
  lemma SettledCongruent(a: TradeMap, b: TradeMap)
    requires SettledKeys(a) == SettledKeys(b)
    requires forall k :: k in SettledKeys(a) ==> a[k] == b[k]
    ensures SettledTrades(a) == SettledTrades(b)
  {
    var keys := SettledInOrder(a);
    assert keys == SettledInOrder(b) == KeysInOrder(SettledKeys(a));
    forall i | 0 <= i < |keys| ensures TradesAt(a, keys)[i] == TradesAt(b, keys)[i] { assert keys[i] in keys; }
  }

  /** Storing a version that is settled neither before nor after leaves the obligations alone. */
  lemma StoreKeepsNetted(trades: TradeMap, k: TradeKey, t: Trade, settlements: seq<SettlementObligation>)
    requires Netted(trades, settlements)
    requires k in trades ==> trades[k].state != Settled
    requires t.state != Settled
    ensures Netted(trades[k := t], settlements)
  {
    hide BilateralSettlements, SettledTrades;
    assert SettledKeys(trades[k := t]) == SettledKeys(trades);
    SettledCongruent(trades, trades[k := t]);
  }

  lemma EntryIdsAre(e: LedgerEntry, ids: seq<PostingId>, known: set<PostingId>)
    requires |e.postings| == |ids| && forall i :: 0 <= i < |ids| ==> e.postings[i].id == ids[i]
    ensures EntryIds(e) == Elements(ids)
    ensures Fresh(ids, known) <==> EntryIds(e) !! known
  {
    forall i | 0 <= i < |ids| ensures ids[i] in EntryIds(e) { assert e.postings[i] in e.postings; }
    forall p | p in e.postings ensures p.id in ids {}
  }

  /** Errors that the code can report but a sound state never produces. */
  predicate DeadError(e: StateError) {
    match e
    case MissingConfirmationEntry => true
    case LedgerTotalsFailure(_) => true
    case PostingPolicyFailure(p) => p != EntryFailed(LedgerError.DuplicatePostingId) && p != PostingFailed(SelfReversal)
    case LimitFailure(l) => l.code != UnknownNode && l.code != Breach
    case AmendmentFailure(t) => t != VersionOverflow
    case _ => false
  }

  // Book

  lemma BookExact(s: State, id: TradeId, bookId: BookId, counterpartyId: CounterpartyId, nettingSetId: NettingSetId,
          terms: FxTerms)
    requires Inv(s)
    ensures AfterBook(s, id, bookId, counterpartyId, nettingSetId, terms) ==
            if id in s.currentVersions then Failure(DuplicateTradeId)
            else if s.version == UINT64_MAX then Failure(StateVersionOverflow)
            else Success(s.(version := s.version + 1,
                            trades := s.trades[TradeKey(id, 1) := Trade(id, 1, bookId, counterpartyId, nettingSetId,
                                terms, Captured, None, None)],
                            currentVersions := s.currentVersions[id := 1]))
  {
    if id !in s.currentVersions {
      BookingKeepsChain(s.trades, s.currentVersions, id, Capture(id, bookId, counterpartyId, nettingSetId, terms));
    }
  }

  lemma BookKeepsInv(s: State, id: TradeId, bookId: BookId, counterpartyId: CounterpartyId,
          nettingSetId: NettingSetId, terms: FxTerms, next: State)
    requires Inv(s) && AfterBook(s, id, bookId, counterpartyId, nettingSetId, terms) == Success(next)
    ensures Inv(next)
  {
    hide Sound, Backed, Aggregates, Netted;
    BookExact(s, id, bookId, counterpartyId, nettingSetId, terms);
    var k, t := TradeKey(id, 1), Capture(id, bookId, counterpartyId, nettingSetId, terms);
    BookingKeepsChain(s.trades, s.currentVersions, id, t);
    NotIndexedIfAbsent(s, k);
    RelabelKeepsSound(BooksOf(s), k, t, BooksOf(next));
    UnconfirmedKeepsBacked(s.trades, s.limits, k, t);
    StoreKeepsNetted(s.trades, k, t, s.settlements);
  }

  lemma NotIndexedIfAbsent(s: State, k: TradeKey)
    requires Sound(BooksOf(s))
    ensures k !in s.trades || s.trades[k].state == Captured ==> k !in s.confirmations
  {
  }

  // Confirm

  /** The command names the current version of a known trade. */
  predicate Addresses(s: State, id: TradeId, expected: uint32) {
    id in s.currentVersions && s.currentVersions[id] == expected && TradeKey(id, expected) in s.trades
  }

  lemma RequireCurrentExact(s: State, id: TradeId, expected: uint32)
    requires Inv(s)
    ensures RequireCurrent(s, id, expected) ==
            if id !in s.currentVersions then Failure(TradeNotFound)
            else if s.currentVersions[id] != expected then Failure(VersionConflict(expected, s.currentVersions[id]))
            else Success(s.trades[TradeKey(id, expected)])
    ensures id in s.currentVersions && s.currentVersions[id] == expected ==> Addresses(s, id, expected)
    ensures Addresses(s, id, expected) ==> expected > 0 && s.trades[TradeKey(id, expected)].version == expected
  {
    CurrentIsStored(s, id);
  }

  /** The group and the trade's own counterparty, netting set and book can each take the payment. */
  predicate Headroom(limits: LimitMap, t: Trade) {
    && HasRoom(limits, GroupNode, t.terms.pay)
    && HasRoom(limits, CounterpartyNode(t.counterpartyId), t.terms.pay)
    && HasRoom(limits, NettingSetNode(t.counterpartyId, t.nettingSetId), t.terms.pay)
    && HasRoom(limits, BookNode(t.counterpartyId, t.nettingSetId, t.bookId), t.terms.pay)
  }

  lemma HeadroomExact(limits: LimitMap, t: Trade)
    ensures AfterReserve(limits, PathOf(t), t.terms.pay).Success? <==> Headroom(limits, t)
    ensures AfterReserve(limits, PathOf(t), t.terms.pay).Failure? ==>
              AfterReserve(limits, PathOf(t), t.terms.pay).error.code in {UnknownNode, Breach}
  {
    var keys := PathOf(t).Keys(t.terms.pay.currency);
    assert HasHeadroom(limits, keys[0], t.terms.pay.minorUnits) <==> HasRoom(limits, keys[0].node, t.terms.pay);
    assert HasHeadroom(limits, keys[1], t.terms.pay.minorUnits) <==> HasRoom(limits, keys[1].node, t.terms.pay);
    assert HasHeadroom(limits, keys[2], t.terms.pay.minorUnits) <==> HasRoom(limits, keys[2].node, t.terms.pay);
    assert HasHeadroom(limits, keys[3], t.terms.pay.minorUnits) <==> HasRoom(limits, keys[3].node, t.terms.pay);
  }

  predicate CanConfirm(s: State, id: TradeId, expected: uint32, ids: ConfirmationPostingIds) {
    && Addresses(s, id, expected)
    && s.trades[TradeKey(id, expected)].state == Captured
    && Headroom(s.limits, s.trades[TradeKey(id, expected)])
    && Distinct(ids.List()) && Fresh(ids.List(), s.postingIds)
    && s.version < UINT64_MAX
  }

  /** The state with one more confirmation in its ledger. */
  function WithConfirmation(s: State, key: TradeKey, t: Trade, limits: LimitMap, e: LedgerEntry): State {
    s.(trades := s.trades[key := t],
       limits := limits,
       entries := s.entries + [e],
       confirmations := s.confirmations[key := |s.entries|],
       postingIds := s.postingIds + EntryIds(e))
  }

  lemma EntryOutcome(s: State, t: Trade, ids: ConfirmationPostingIds)
    requires t.version > 0 && t.state == Confirmed
    ensures ConfirmationEntry(t, ids).Success? <==> Distinct(ids.List())
    ensures ConfirmationEntry(t, ids).Failure? ==>
        ConfirmationEntry(t, ids).error == EntryFailed(LedgerError.DuplicatePostingId)
    ensures ConfirmationEntry(t, ids).Success? ==>
              var e := ConfirmationEntry(t, ids).value;
              IsConfirmation(e.postings, t, ids) && Confirms(e, t)
                  && (Fresh(ids.List(), s.postingIds) <==> EntryIds(e) !! s.postingIds)
  {
    ConfirmationEntryExact(t, ids);
    if ConfirmationEntry(t, ids).Success? {
      assert IsConfirmation(ConfirmationEntry(t, ids).value.postings, t, ids);
      EntryIdsAre(ConfirmationEntry(t, ids).value, ids.List(), s.postingIds);
    }
  }

  /** A confirmation succeeds exactly when it can. */
  lemma ConfirmIff(s: State, id: TradeId, expected: uint32, ids: ConfirmationPostingIds)
    requires Inv(s)
    ensures AfterConfirm(s, id, expected, ids).Success? <==> CanConfirm(s, id, expected, ids)
    ensures AfterConfirm(s, id, expected, ids).Failure? ==> !DeadError(AfterConfirm(s, id, expected, ids).error)
  {
    hide Chain, Sound, Backed, Aggregates, Netted, RequireCurrent, ConfirmationEntry, AfterReserve, IsConfirmation,
      Confirms, EntryIds, AfterAppend,
      Headroom, Fresh, Distinct;
    RequireCurrentExact(s, id, expected);
    if Addresses(s, id, expected) && s.trades[TradeKey(id, expected)].state == Captured {
      var key := TradeKey(id, expected);
      var t := s.trades[key].(state := Confirmed);
      EntryOutcome(s, t, ids);
      NotIndexedIfAbsent(s, key);
      HeadroomExact(s.limits, s.trades[key]);
      if AfterReserve(s.limits, PathOf(t), t.terms.pay).Success? && Distinct(ids.List()) {
        AppendExact(s.(limits := AfterReserve(s.limits, PathOf(t), t.terms.pay).value, trades := s.trades[key := t]),
            ConfirmationEntry(t, ids).value);
      }
    }
  }

  /** What a confirmation did: one entry posted and indexed, one reservation made. */
  ghost predicate ConfirmEffect(s: State, key: TradeKey, ids: ConfirmationPostingIds, e: LedgerEntry, next: State) {
    && key in s.trades && s.trades[key].state == Captured && key !in s.confirmations
    && var t := s.trades[key].(state := Confirmed);
       && IsConfirmation(e.postings, t, ids) && EntryIds(e) !! s.postingIds
       && AfterReserve(s.limits, PathOf(t), t.terms.pay) == Success(next.limits)
       && s.version < UINT64_MAX
       && next == WithConfirmation(s, key, t, next.limits, e).(version := s.version + 1)
  }

  lemma ConfirmExact(s: State, id: TradeId, expected: uint32, ids: ConfirmationPostingIds,
          next: State) returns (e: LedgerEntry)
    requires Inv(s) && AfterConfirm(s, id, expected, ids) == Success(next)
    ensures Addresses(s, id, expected)
    ensures ConfirmEffect(s, TradeKey(id, expected), ids, e, next)
  {
    hide Chain, Sound, Backed, Aggregates, Netted, RequireCurrent, ConfirmationEntry, AfterReserve, IsConfirmation,
      Confirms, EntryIds, AfterAppend,
      Headroom, Fresh, Distinct;
    RequireCurrentExact(s, id, expected);
    var key := TradeKey(id, expected);
    var t := s.trades[key].(state := Confirmed);
    EntryOutcome(s, t, ids);
    NotIndexedIfAbsent(s, key);
    e := ConfirmationEntry(t, ids).value;
    AppendExact(s.(limits := AfterReserve(s.limits, PathOf(t), t.terms.pay).value, trades := s.trades[key := t]), e);
  }

  lemma ConfirmKeepsInv(s: State, id: TradeId, expected: uint32, ids: ConfirmationPostingIds, next: State)
    requires Inv(s) && AfterConfirm(s, id, expected, ids) == Success(next)
    ensures Inv(next)
  {
    hide Chain, Sound, Backed, Aggregates, Netted, AfterConfirm, AfterReserve, IsConfirmation, EntryIds;
    var e := ConfirmExact(s, id, expected, ids, next);
    var key := TradeKey(id, expected);
    var t := s.trades[key].(state := Confirmed);
    AdvancingKeepsChain(s.trades, s.currentVersions, key, t);
    PostingKeepsSound(BooksOf(s), key, t, e, BooksOf(next));
    ReserveKeepsBacked(s.trades, s.limits, key, t, next.limits);
    ReserveKeepsAggregates(s.limits, PathOf(t), t.terms.pay);
    StoreKeepsNetted(s.trades, key, t, s.settlements);
  }

  // Reversal of a live version

  /** e mirrors the original and carries the four given ids. */
  ghost predicate ReversesWith(e: LedgerEntry, original: LedgerEntry, ids: ReversalPostingIds) {
    Mirrors(e.postings, original.postings) && |original.postings| == 4 && forall i :: 0 <= i < 4 ==>
        e.postings[i].id == ids.List()[i]
  }

  lemma ReversalOutcome(s: State, key: TradeKey, ids: ReversalPostingIds)
    requires Sound(BooksOf(s)) && key in s.trades && Live(s.trades[key])
    requires key in s.confirmations
    ensures var r := ReversalEntry(s.entries[s.confirmations[key]], ids);
            && (r.Failure? ==>
                  r.error == EntryFailed(LedgerError.DuplicatePostingId) || r.error == PostingFailed(SelfReversal))
            && (r.Success? ==> Distinct(ids.List()) && ReversesWith(r.value, s.entries[s.confirmations[key]], ids)
                               && (Fresh(ids.List(), s.postingIds) <==> EntryIds(r.value) !! s.postingIds)
                               && EntryIds(r.value) == Elements(ids.List()))
            && (Distinct(ids.List()) && Fresh(ids.List(), s.postingIds) ==> r.Success?)
  {
    hide ReversesOnce, LiveStands, Accounted, Meaning, Confirms, ReversalEntry, AllIds, IsConfirmationShape;
    LiveIsIndexed(BooksOf(s), key);
    var original := s.entries[s.confirmations[key]];
    ConfirmationFacts(original, s.trades[key], [], Usd);
    ReversalEntryExact(original, ids);
    ConfirmedFour(original, s.trades[key]);
    KnownIds(s.entries, s.confirmations[key]);
    if SelfReversing(ids.List(), original.postings) {
      var i :| 0 <= i < 4 && ids.List()[i] == original.postings[i].id;
      assert original.postings[i] in original.postings;
      assert ids.List()[i] in s.postingIds;
    }
    if ReversalEntry(original, ids).Success? {
      EntryIdsAre(ReversalEntry(original, ids).value, ids.List(), s.postingIds);
    }
  }

  lemma ConfirmedFour(e: LedgerEntry, t: Trade)
    requires Confirms(e, t)
    ensures |e.postings| == 4
  {
  }

  // Cancel

  predicate CanCancel(s: State, id: TradeId, expected: uint32, ids: Option<ReversalPostingIds>) {
    && Addresses(s, id, expected)
    && s.version < UINT64_MAX
    && var t := s.trades[TradeKey(id, expected)];
       if t.state == Captured then ids.None?
       else t.state == Confirmed && ids.Some? && Distinct(ids.value.List()) && Fresh(ids.value.List(), s.postingIds)
  }

  /** A cancellation succeeds exactly when it can: no limit and no missing entry can stop it. */
  lemma CancelIff(s: State, id: TradeId, expected: uint32, ids: Option<ReversalPostingIds>)
    requires Inv(s)
    ensures AfterCancel(s, id, expected, ids).Success? <==> CanCancel(s, id, expected, ids)
    ensures AfterCancel(s, id, expected, ids).Failure? ==> !DeadError(AfterCancel(s, id, expected, ids).error)
  {
    hide Chain, Sound, Backed, Aggregates, Netted, RequireCurrent, ReversalEntry, AfterRelease, ReversesWith,
      Confirms, EntryIds, AfterAppend,
      Fresh, Distinct;
    RequireCurrentExact(s, id, expected);
    if Addresses(s, id, expected) && s.trades[TradeKey(id, expected)].state == Confirmed && ids.Some? {
      var key := TradeKey(id, expected);
      var t := s.trades[key];
      LiveIsIndexed(BooksOf(s), key);
      ReleaseNeverFails(s.trades, s.limits, key);
      ReversalOutcome(s, key, ids.value);
      var reversal := ReversalEntry(s.entries[s.confirmations[key]], ids.value);
      if reversal.Success? {
        AppendExact(s.(limits := AfterRelease(s.limits, PathOf(t), t.terms.pay).value,
            trades := s.trades[key := t.(state := Cancelled)]), reversal.value);
      }
    }
  }

  /** What a cancellation did. */
  ghost predicate CancelEffect(s: State, key: TradeKey, ids: Option<ReversalPostingIds>, next: State) {
    && key in s.trades && s.version < UINT64_MAX
    && var t := s.trades[key].(state := Cancelled);
       if ids.None? then
         s.trades[key].state == Captured && next == s.(version := s.version + 1, trades := s.trades[key := t])
       else
         && s.trades[key].state == Confirmed && key in s.confirmations
         && AfterRelease(s.limits, PathOf(s.trades[key]), s.trades[key].terms.pay) == Success(next.limits)
         && |next.entries| == |s.entries| + 1
         && var e := next.entries[|s.entries|];
            && ReversesWith(e, s.entries[s.confirmations[key]], ids.value) && EntryIds(e) !! s.postingIds
            && next == WithReversal(s, key, t, next.limits, e).(version := s.version + 1)
  }

  /** The state with one more reversal in its ledger. */
  function WithReversal(s: State, key: TradeKey, t: Trade, limits: LimitMap, e: LedgerEntry): State {
    s.(trades := s.trades[key := t], limits := limits, entries := s.entries + [e],
        postingIds := s.postingIds + EntryIds(e))
  }

  lemma CancelExact(s: State, id: TradeId, expected: uint32, ids: Option<ReversalPostingIds>, next: State)
    requires Inv(s) && AfterCancel(s, id, expected, ids) == Success(next)
    ensures Addresses(s, id, expected)
    ensures CancelEffect(s, TradeKey(id, expected), ids, next)
  {
    hide Chain, Sound, Backed, Aggregates, Netted, RequireCurrent, ReversalEntry, AfterRelease, ReversesWith,
      Confirms, EntryIds, AfterAppend,
      Fresh, Distinct;
    RequireCurrentExact(s, id, expected);
    var key := TradeKey(id, expected);
    var t := s.trades[key];
    if t.state != Captured {
      LiveIsIndexed(BooksOf(s), key);
      ReversalOutcome(s, key, ids.value);
      var e := ReversalEntry(s.entries[s.confirmations[key]], ids.value).value;
      AppendExact(s.(limits := AfterRelease(s.limits, PathOf(t), t.terms.pay).value,
          trades := s.trades[key := t.(state := Cancelled)]), e);
      assert (s.entries + [e])[|s.entries|] == e;
    }
  }

  lemma CancelKeepsInv(s: State, id: TradeId, expected: uint32, ids: Option<ReversalPostingIds>, next: State)
    requires Inv(s) && AfterCancel(s, id, expected, ids) == Success(next)
    ensures Inv(next)
  {
    hide Sound, Backed, Aggregates, Netted, AfterCancel, AfterRelease, EntryIds, Mirrors;
    CancelExact(s, id, expected, ids, next);
    var key := TradeKey(id, expected);
    var t := s.trades[key].(state := Cancelled);
    AdvancingKeepsChain(s.trades, s.currentVersions, key, t);
    StoreKeepsNetted(s.trades, key, t, s.settlements);
    if ids.None? {
      NotIndexedIfAbsent(s, key);
      RelabelKeepsSound(BooksOf(s), key, t, BooksOf(next));
      UnconfirmedKeepsBacked(s.trades, s.limits, key, t);
    } else {
      ReversingKeepsSound(BooksOf(s), key, t, next.entries[|s.entries|], BooksOf(next));
      ReleaseKeepsBacked(s.trades, s.limits, key, t);
      ReleaseKeepsAggregates(s.limits, PathOf(s.trades[key]), t.terms.pay);
    }
  }
}
