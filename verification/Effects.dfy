/**
 What an accepted command does to a sound state, field by field: every component of
 the state, event and result that follows.
 */
module Effects {
  import opened Wrappers
  import opened Values
  import opened Trades
  import opened Limits
  import opened Ledger
  import opened PostingPolicy
  import opened Settlement
  import opened StateMachine
  import opened Sums
  import opened Reservations
  import opened Books
  import opened Chains
  import opened Invariants
  import opened Amendments
  import opened EndOfDay
  import opened CloseDates
  import opened Journal
  import opened Replay
  import opened Evaluator

  // Booking

  ghost predicate Booked(s: State, id: TradeId, bookId: BookId, counterpartyId: CounterpartyId,
          nettingSetId: NettingSetId, terms: FxTerms, next: State)
  {
    && id !in s.currentVersions && TradeKey(id, 1) !in s.trades && s.version < UINT64_MAX
    && next == s.(version := s.version + 1,
                  trades := s.trades[TradeKey(id, 1) := Trade(id, 1, bookId, counterpartyId, nettingSetId, terms,
                      Captured, None, None)],
                  currentVersions := s.currentVersions[id := 1])
  }

  lemma BookingIs(s: State, id: TradeId, bookId: BookId, counterpartyId: CounterpartyId, nettingSetId: NettingSetId,
          terms: FxTerms, next: State)
    requires Inv(s) && AfterBook(s, id, bookId, counterpartyId, nettingSetId, terms) == Success(next)
    ensures Booked(s, id, bookId, counterpartyId, nettingSetId, terms, next)
  {
    hide Sound, Backed, Aggregates, Netted, AfterBook;
    BookExact(s, id, bookId, counterpartyId, nettingSetId, terms);
    BookingKeepsChain(s.trades, s.currentVersions, id, Capture(id, bookId, counterpartyId, nettingSetId, terms));
  }

  // Ledger entries

  /** The entry that confirms a version: control against payable for what it pays, receivable against control. */
  predicate PostsPayment(e: LedgerEntry, t: Trade, ids: ConfirmationPostingIds) {
    && |e.postings| == 4
    && PostedAs(e.postings[0], ids.payControlDebit, t, COUNTERPARTY_CONTROL_PREFIX + t.counterpartyId, Debit,
        t.terms.pay)
    && PostedAs(e.postings[1], ids.payPayableCredit, t, SETTLEMENT_PAYABLE_PREFIX + t.bookId, Credit, t.terms.pay)
    && PostedAs(e.postings[2], ids.receiveReceivableDebit, t, SETTLEMENT_RECEIVABLE_PREFIX + t.bookId, Debit,
        t.terms.receive)
    && PostedAs(e.postings[3], ids.receiveControlCredit, t, COUNTERPARTY_CONTROL_PREFIX + t.counterpartyId, Credit,
        t.terms.receive)
  }

  /** One posting of a version that reverses nothing. */
  predicate PostedAs(p: Posting, id: PostingId, t: Trade, account: Bytes, side: PostingSide, amount: Money) {
    && p.id == id && p.tradeId == t.id && p.tradeVersion == t.version
    && p.account == account && p.side == side && p.amount == amount && p.reversalOf == None
  }

  lemma ConfirmationPosts(e: LedgerEntry, t: Trade, ids: ConfirmationPostingIds)
    requires IsConfirmation(e.postings, t, ids)
    ensures PostsPayment(e, t, ids)
    ensures EntryIds(e) ==
        {ids.payControlDebit, ids.payPayableCredit, ids.receiveReceivableDebit, ids.receiveControlCredit}
  {
    EntryIdsAre(e, ids.List(), {});
  }

  function FourIds(ids: ConfirmationPostingIds): set<PostingId> {
    {ids.payControlDebit, ids.payPayableCredit, ids.receiveReceivableDebit, ids.receiveControlCredit}
  }

  // Confirmation

  /** The version is its trade's current one, in the given state. */
  predicate CurrentIn(s: State, id: TradeId, expected: uint32, state: TradeState) {
    && id in s.currentVersions && s.currentVersions[id] == expected
    && TradeKey(id, expected) in s.trades && s.trades[TradeKey(id, expected)].state == state
  }

  ghost predicate ConfirmedBy(s: State, id: TradeId, expected: uint32, ids: ConfirmationPostingIds, next: State) {
    && CurrentIn(s, id, expected, Captured) && s.version < UINT64_MAX
    && var key := TradeKey(id, expected);
       var t := s.trades[key];
       && |next.entries| == |s.entries| + 1 && PostsPayment(next.entries[|s.entries|], t, ids)
       && FourIds(ids) !! s.postingIds
       && Moved(s.limits, next.limits, t.counterpartyId, t.nettingSetId, t.bookId, t.terms.pay.currency,
           t.terms.pay.minorUnits)
       && next == s.(version := s.version + 1,
                     trades := s.trades[key := t.(state := Confirmed)],
                     entries := s.entries + [next.entries[|s.entries|]],
                     confirmations := s.confirmations[key := |s.entries|],
                     postingIds := s.postingIds + FourIds(ids),
                     limits := next.limits)
  }

  lemma ConfirmationIs(s: State, id: TradeId, expected: uint32, ids: ConfirmationPostingIds, next: State)
    requires Inv(s) && AfterConfirm(s, id, expected, ids) == Success(next)
    ensures ConfirmedBy(s, id, expected, ids, next)
  {
    hide Inv, AfterConfirm, IsConfirmation, EntryIds, AfterReserve, PostsPayment, Moved;
    var e := ConfirmExact(s, id, expected, ids, next);
    var key := TradeKey(id, expected);
    var t := s.trades[key];
    assert next.entries == s.entries + [e];
    assert next.entries[|s.entries|] == e;
    ConfirmationPosts(e, t.(state := Confirmed), ids);
    SamePosting(e, t, t.(state := Confirmed), ids);
    ReserveMoves(s.limits, t.counterpartyId, t.nettingSetId, t.bookId, t.terms.pay, next.limits);
  }

  /** The postings name the version, not its state. */
  lemma SamePosting(e: LedgerEntry, t: Trade, u: Trade, ids: ConfirmationPostingIds)
    requires PostsPayment(e, u, ids) && u == t.(state := u.state)
    ensures PostsPayment(e, t, ids)
  {
  }

  // Reversal

  function FourReversalIds(ids: ReversalPostingIds): set<PostingId> {
    {ids.payControlCredit, ids.payPayableDebit, ids.receiveReceivableCredit, ids.receiveControlDebit}
  }

  predicate ReversedAs(p: Posting, id: PostingId, t: Trade, account: Bytes, side: PostingSide, amount: Money,
          original: PostingId)
  {
    && p.id == id && p.tradeId == t.id && p.tradeVersion == t.version
    && p.account == account && p.side == side && p.amount == amount && p.reversalOf == Some(original)
  }

  /** The entry that takes a confirmation back: the same accounts and amounts on the other sides, linked to it. */
  predicate ReversesPayment(e: LedgerEntry, t: Trade, confirmed: ConfirmationPostingIds, ids: ReversalPostingIds) {
    && |e.postings| == 4
    && ReversedAs(e.postings[0], ids.payControlCredit, t, COUNTERPARTY_CONTROL_PREFIX + t.counterpartyId, Credit,
        t.terms.pay, confirmed.payControlDebit)
    && ReversedAs(e.postings[1], ids.payPayableDebit, t, SETTLEMENT_PAYABLE_PREFIX + t.bookId, Debit, t.terms.pay,
        confirmed.payPayableCredit)
    && ReversedAs(e.postings[2], ids.receiveReceivableCredit, t, SETTLEMENT_RECEIVABLE_PREFIX + t.bookId, Credit,
        t.terms.receive, confirmed.receiveReceivableDebit)
    && ReversedAs(e.postings[3], ids.receiveControlDebit, t, COUNTERPARTY_CONTROL_PREFIX + t.counterpartyId, Debit,
        t.terms.receive, confirmed.receiveControlCredit)
  }

  /** The entry reverses the one that the index holds for the version, whatever ids that one was given. */
  ghost predicate ReversesIndexed(s: State, key: TradeKey, e: LedgerEntry, ids: ReversalPostingIds) {
    && key in s.trades && key in s.confirmations
    && exists confirmed: ConfirmationPostingIds ::
         PostsPayment(s.entries[s.confirmations[key]], s.trades[key], confirmed)
         && ReversesPayment(e, s.trades[key], confirmed, ids)
  }

  lemma MirrorReverses(s: State, key: TradeKey, e: LedgerEntry, ids: ReversalPostingIds)
    requires Sound(BooksOf(s)) && key in s.trades && Live(s.trades[key]) && key in s.confirmations
    requires ReversesWith(e, s.entries[s.confirmations[key]], ids)
    ensures ReversesIndexed(s, key, e, ids)
    ensures EntryIds(e) == FourReversalIds(ids)
  {
    hide UniqueIds, ReversesOnce, LiveStands, Accounted, Meaning, PostsPayment, ReversesPayment, EntryIds;
    LiveIsIndexed(BooksOf(s), key);
    var original := s.entries[s.confirmations[key]];
    var confirmed :| IsConfirmation(original.postings, s.trades[key], confirmed);
    ConfirmationPosts(original, s.trades[key], confirmed);
    MirrorFields(e, original, s.trades[key], confirmed, ids);
    MirrorIds(e, original, ids);
  }

  lemma MirrorIds(e: LedgerEntry, original: LedgerEntry, ids: ReversalPostingIds)
    requires ReversesWith(e, original, ids)
    ensures EntryIds(e) == FourReversalIds(ids)
  {
    EntryIdsAre(e, ids.List(), {});
  }

  lemma MirrorFields(e: LedgerEntry, original: LedgerEntry, t: Trade, confirmed: ConfirmationPostingIds,
          ids: ReversalPostingIds)
    requires ReversesWith(e, original, ids) && PostsPayment(original, t, confirmed)
    ensures ReversesPayment(e, t, confirmed, ids)
  {
    assert forall i :: 0 <= i < 4 ==>
             e.postings[i] == original.postings[i].(id := ids.List()[i], side := Opposite(original.postings[i].side),
                 reversalOf := Some(original.postings[i].id));
  }

  // Cancellation

  /** A captured version only changes state; a confirmed one also gives up its postings and its reservation. */
  ghost predicate CancelledBy(s: State, id: TradeId, expected: uint32, ids: Option<ReversalPostingIds>, next: State) {
    && s.version < UINT64_MAX
    && var key := TradeKey(id, expected);
       match ids
       case None =>
         && CurrentIn(s, id, expected, Captured)
         && next == s.(version := s.version + 1, trades := s.trades[key := s.trades[key].(state := Cancelled)])
       case Some(reversalIds) =>
         && CurrentIn(s, id, expected, Confirmed)
         && var t := s.trades[key];
            && |next.entries| == |s.entries| + 1
            && ReversesIndexed(s, key, next.entries[|s.entries|], reversalIds)
            && FourReversalIds(reversalIds) !! s.postingIds
            && Moved(s.limits, next.limits, t.counterpartyId, t.nettingSetId, t.bookId, t.terms.pay.currency,
                -t.terms.pay.minorUnits)
            && next == s.(version := s.version + 1,
                          trades := s.trades[key := t.(state := Cancelled)],
                          entries := s.entries + [next.entries[|s.entries|]],
                          postingIds := s.postingIds + FourReversalIds(reversalIds),
                          limits := next.limits)
  }

  lemma CancellationIs(s: State, id: TradeId, expected: uint32, ids: Option<ReversalPostingIds>, next: State)
    requires Inv(s) && AfterCancel(s, id, expected, ids) == Success(next)
    ensures CancelledBy(s, id, expected, ids, next)
  {
    hide Inv, AfterCancel, CancelEffect, CancelledBy;
    CancelExact(s, id, expected, ids, next);
    SoundParts(s);
    CancellationFields(s, TradeKey(id, expected), ids, next);
  }

  lemma CancellationFields(s: State, key: TradeKey, ids: Option<ReversalPostingIds>, next: State)
    requires Sound(BooksOf(s)) && Addresses(s, key.tradeId, key.version)
    requires CancelEffect(s, key, ids, next)
    ensures CancelledBy(s, key.tradeId, key.version, ids, next)
  {
    hide Sound, ReversesWith, EntryIds, AfterRelease, ReversesIndexed, Moved;
    if ids.Some? {
      var t := s.trades[key];
      MirrorReverses(s, key, next.entries[|s.entries|], ids.value);
      ReleaseMoves(s.limits, t.counterpartyId, t.nettingSetId, t.bookId, t.terms.pay, next.limits);
    }
  }

  lemma SoundParts(s: State)
    requires Inv(s)
    ensures Sound(BooksOf(s)) && Chain(s.trades, s.currentVersions)
  {
    hide Sound, Chain;
  }

  // Amendment

  /** The replacement of a version: its terms change, and the two are linked. */
  function ReplacementOf(t: Trade, terms: FxTerms): Trade
    requires t.version < UINT32_MAX
  {
    Trade(t.id, t.version + 1, t.bookId, t.counterpartyId, t.nettingSetId, terms, Confirmed, Some(t.version), None)
  }

  /** The old payment is given back and the new one charged, at the same four nodes. */
  predicate Recharged(before: LimitMap, after: LimitMap, t: Trade, terms: FxTerms) {
    && after.Keys == before.Keys
    && forall k :: k in before ==>
         && after[k].capacity == before[k].capacity
         && after[k].reserved == before[k].reserved
             + if !Encloses(k.node, t.counterpartyId, t.nettingSetId, t.bookId) then 0
               else (if k.currency == terms.pay.currency then terms.pay.minorUnits else 0)
                    - (if k.currency == t.terms.pay.currency then t.terms.pay.minorUnits else 0)
  }

  ghost predicate AmendedBy(s: State, id: TradeId, expected: uint32, terms: FxTerms, reversalIds: ReversalPostingIds,
          ids: ConfirmationPostingIds, next: State)
  {
    && CurrentIn(s, id, expected, Confirmed) && expected < UINT32_MAX && s.version < UINT64_MAX
    && var key, newKey := TradeKey(id, expected), TradeKey(id, expected + 1);
       var t := s.trades[key];
       && t.version == expected && newKey !in s.trades
       && |next.entries| == |s.entries| + 2
       && ReversesIndexed(s, key, next.entries[|s.entries|], reversalIds)
       && PostsPayment(next.entries[|s.entries| + 1], ReplacementOf(t, terms), ids)
       && FourReversalIds(reversalIds) !! s.postingIds
       && FourIds(ids) !! s.postingIds + FourReversalIds(reversalIds)
       && Recharged(s.limits, next.limits, t, terms)
       && next == s.(version := s.version + 1,
                     trades := s.trades[key := t.(state := Superseded, supersededBy := Some(expected + 1))]
                         [newKey := ReplacementOf(t, terms)],
                     currentVersions := s.currentVersions[id := expected + 1],
                     entries := s.entries + [next.entries[|s.entries|], next.entries[|s.entries| + 1]],
                     confirmations := s.confirmations[newKey := |s.entries| + 1],
                     postingIds := s.postingIds + FourReversalIds(reversalIds) + FourIds(ids),
                     limits := next.limits)
  }

  lemma AmendmentIs(s: State, id: TradeId, expected: uint32, terms: FxTerms, reversalIds: ReversalPostingIds,
          ids: ConfirmationPostingIds, next: State)
    requires Inv(s) && AfterAmend(s, id, expected, terms, reversalIds, ids) == Success(next)
    ensures AmendedBy(s, id, expected, terms, reversalIds, ids, next)
  {
    hide Inv, AfterAmend, AmendEffect, ReversesIndexed, PostsPayment, Recharged, AmendedBy;
    var reversal, replacement := AmendExact(s, id, expected, terms, reversalIds, ids, next);
    var key := TradeKey(id, expected);
    SoundParts(s);
    CurrentVersionMatches(s, key);
    AmendmentFields(s, key, terms, reversalIds, ids, reversal, replacement, next);
  }

  lemma AmendmentFields(s: State, key: TradeKey, terms: FxTerms, reversalIds: ReversalPostingIds,
          ids: ConfirmationPostingIds, reversal: LedgerEntry, replacement: LedgerEntry, next: State)
    requires Sound(BooksOf(s)) && Addresses(s, key.tradeId, key.version)
    requires key in s.trades && StoredAt(key, s.trades[key])
    requires AmendEffect(s, key, terms, reversalIds, ids, reversal, replacement, next)
    ensures AmendedBy(s, key.tradeId, key.version, terms, reversalIds, ids, next)
  {
    hide Sound, EntryIds, ReversesWith, IsConfirmation, Extends, AfterRelease, AfterReserve, ReversesIndexed,
      PostsPayment, Recharged;
    var t := s.trades[key];
    var a := Amendment(t, terms);
    assert a.replacement == ReplacementOf(t, terms);
    MirrorReverses(s, key, reversal, reversalIds);
    ConfirmationPosts(replacement, a.replacement, ids);
    assert next.entries == s.entries + [reversal, replacement];
    AmendmentRecharges(s, t, terms, next.limits);
  }

  lemma AmendmentRecharges(s: State, t: Trade, terms: FxTerms, next: LimitMap)
    requires AfterRelease(s.limits, PathOf(t), t.terms.pay) == Success(Released(s, t))
    requires AfterReserve(Released(s, t), PathOf(t), terms.pay) == Success(next)
    ensures Recharged(s.limits, next, t, terms)
  {
    hide AfterRelease, AfterReserve, Released, Encloses;
    ReleaseMoves(s.limits, t.counterpartyId, t.nettingSetId, t.bookId, t.terms.pay, Released(s, t));
    ReserveMoves(Released(s, t), t.counterpartyId, t.nettingSetId, t.bookId, terms.pay, next);
  }

  // End of day

  /** What a version that settles at the close had reserved at a node. */
  ghost function DueUnder(asOf: IsoDate, node: LimitNode, currency: Currency): (TradeKey, Trade) -> int {
    (key: TradeKey, t: Trade) =>
      if t.state == Confirmed && t.terms.valueDate <= asOf && t.terms.pay.currency == currency
         && Encloses(node, t.counterpartyId, t.nettingSetId, t.bookId)
      then t.terms.pay.minorUnits else 0
  }

  /** Every balance gives up what the versions that settle had reserved there. */
  ghost predicate GivesBack(s: State, asOf: IsoDate, after: LimitMap) {
    && after.Keys == s.limits.Keys
    && forall k :: k in s.limits ==>
         && after[k].capacity == s.limits[k].capacity
         && after[k].reserved == s.limits[k].reserved - SumOver(s.trades, DueUnder(asOf, k.node, k.currency))
  }

  /** The obligations are the exact nets of all versions settled by now. */
  ghost predicate Renetted(trades: TradeMap, settlements: seq<SettlementObligation>) {
    forall c, n, d, currency ::
      ExactlyOwed(settlements, c, n, d, currency, SumOver(trades, ContributionAt(c, n, d, currency)))
  }

  ghost predicate ClosedBy(s: State, asOf: IsoDate, next: State) {
    && SettlesDue(s.trades, next.trades, asOf)
    && GivesBack(s, asOf, next.limits)
    && Renetted(next.trades, next.settlements)
    && next == s.(version := next.version, trades := next.trades, limits := next.limits,
                  settlements := next.settlements)
    && (NothingDue(s.trades, asOf) ==> next == s)
    && (!NothingDue(s.trades, asOf) ==> s.version < UINT64_MAX && next.version == s.version + 1)
  }

  /** What a version held at a node before the close is what it holds after it and what it gives back. */
  lemma SettlingSplits(key: TradeKey, before: Trade, after: Trade, asOf: IsoDate, node: LimitNode, c: Currency)
    requires after == if before.state == Confirmed && before.terms.valueDate <= asOf then before.(state := Settled)
        else before
    ensures PaidUnder(node, c)(key, before) == PaidUnder(node, c)(key, after) + DueUnder(asOf, node, c)(key, before)
  {
    hide Encloses;
  }

  lemma CloseGivesBack(s: State, asOf: IsoDate, next: State, k: LimitKey)
    requires Backed(s.trades, s.limits) && Backed(next.trades, next.limits) && k in s.limits && k in next.limits
    requires SettlesDue(s.trades, next.trades, asOf)
    ensures next.limits[k].reserved ==
        s.limits[k].reserved - SumOver(s.trades, DueUnder(asOf, k.node, k.currency))
  {
    PaidThrough(s.trades, k.node, k.currency);
    PaidThrough(next.trades, k.node, k.currency);
    assert k == LimitKey(k.node, k.currency);
    assert s.limits[k].reserved == SumOver(s.trades, PayThrough(k));
    assert next.limits[k].reserved == SumOver(next.trades, PayThrough(k));
    hide Backed, PaidUnder, DueUnder, PayThrough;
    forall key | key in s.trades
      ensures PaidUnder(k.node, k.currency)(key, s.trades[key]) ==
          PaidUnder(k.node, k.currency)(key, next.trades[key])
          + DueUnder(asOf, k.node, k.currency)(key, s.trades[key])
    {
      SettlingSplits(key, s.trades[key], next.trades[key], asOf, k.node, k.currency);
    }
    SumSplits(s.trades, next.trades, PaidUnder(k.node, k.currency), DueUnder(asOf, k.node, k.currency));
  }

  lemma NettedIsRenetted(trades: TradeMap, settlements: seq<SettlementObligation>)
    requires Netted(trades, settlements)
    ensures Renetted(trades, settlements)
  {
    hide BilateralSettlements, SettledTrades, ExactlyOwed;
    forall c, n, d, currency
      ensures ExactlyOwed(settlements, c, n, d, currency, SumOver(trades, ContributionAt(c, n, d, currency)))
    {
      SettlementsAreExact(SettledTrades(trades), c, n, d, currency);
      TotalIsSum(trades, c, n, d, currency);
    }
  }

  lemma CloseIs(s: State, asOf: IsoDate, next: State)
    requires Inv(s) && AfterEod(s, asOf) == Success(next)
    ensures ClosedBy(s, asOf, next)
  {
    hide Chain, Sound, Backed, Aggregates, Netted, AfterEod, AtClose, Idle, SettlesDue, NothingDue, Renetted;
    EodExact(s, asOf, next);
    NettedIsRenetted(next.trades, next.settlements);
    forall k | k in s.limits ensures next.limits[k].reserved ==
        s.limits[k].reserved - SumOver(s.trades, DueUnder(asOf, k.node, k.currency))
    {
      CloseGivesBack(s, asOf, next, k);
    }
    IdleIff(s, asOf);
    if !NothingDue(s.trades, asOf) { assert next.version <= UINT64_MAX; }
  }

  /** No confirmed version due by the date is left. */
  lemma NoneLeftDue(s: State, asOf: IsoDate, next: State)
    requires Inv(s) && AfterEod(s, asOf) == Success(next)
    ensures NothingDue(next.trades, asOf)
  {
    hide Inv, AfterEod, GivesBack, Renetted;
    CloseIs(s, asOf, next);
  }

  /** The versions that settle at the close. */
  function DueKeys(trades: TradeMap, asOf: IsoDate): set<TradeKey> {
    set k | k in trades && trades[k].state == Confirmed && trades[k].terms.valueDate <= asOf
  }

  lemma DueAreEligible(trades: TradeMap, asOf: IsoDate)
    ensures DueKeys(trades, asOf) == EligibleKeys(trades, asOf)
  {
  }

  // Commands

  /** The state, event and result of an accepted command. */
  ghost predicate Carries(s: State, c: Command, ev: Evaluation) {
    var next := ev.prospective;
    match c
    case BookTradeCommand(id, bookId, counterpartyId, nettingSetId, terms) =>
      && Booked(s, id, bookId, counterpartyId, nettingSetId, terms, next)
      && ev.event == TradeBooked(id, bookId, counterpartyId, nettingSetId, terms)
      && ev.result == TradeBookedResult(id, 1, s.version + 1)
    case ConfirmTradeCommand(id, expected, ids) =>
      && ConfirmedBy(s, id, expected, ids, next)
      && ev.event == TradeConfirmed(id, expected, ids)
      && ev.result == TradeConfirmedResult(id, expected, s.version + 1)
    case AmendTradeCommand(id, expected, terms, reversalIds, ids) =>
      && AmendedBy(s, id, expected, terms, reversalIds, ids, next)
      && ev.event == TradeAmended(id, expected, terms, reversalIds, ids)
      && ev.result == TradeAmendedResult(id, expected, expected + 1, s.version + 1)
    case CancelTradeCommand(id, expected, ids) =>
      && CancelledBy(s, id, expected, ids, next)
      && ev.event == TradeCancelled(id, expected, ids)
      && ev.result == TradeCancelledResult(id, expected, s.version + 1)
    case RunEodCommand(asOf) =>
      && ClosedBy(s, asOf, next)
      && ev.event == EodRan(asOf)
      && |DueKeys(s.trades, asOf)| <= UINT32_MAX
      && ev.result == EodRunResult(asOf, |DueKeys(s.trades, asOf)|, next.version)
  }

  /** Every accepted command has exactly its effect, event and result. */
  lemma CommandEffect(s: State, c: Command)
    requires Inv(s) && Evaluated(s, c).Success?
    ensures Carries(s, c, Evaluated(s, c).value)
  {
    hide Inv, AfterBook, AfterConfirm, AfterAmend, AfterCancel, AfterEod, InvariantsHold, Booked, ConfirmedBy,
      AmendedBy, CancelledBy, ClosedBy, SettledCount, DueKeys;
    var next := Evaluated(s, c).value.prospective;
    EventAdvancesVersion(s, EventOf(c), next);
    match c
    case BookTradeCommand(id, bookId, counterpartyId, nettingSetId, terms) =>
      BookingIs(s, id, bookId, counterpartyId, nettingSetId, terms, next);
    case ConfirmTradeCommand(id, expected, ids) => ConfirmationIs(s, id, expected, ids, next);
    case AmendTradeCommand(id, expected, terms, reversalIds, ids) =>
      AmendmentIs(s, id, expected, terms, reversalIds, ids, next);
    case CancelTradeCommand(id, expected, ids) => CancellationIs(s, id, expected, ids, next);
    case RunEodCommand(asOf) =>
      CloseIs(s, asOf, next);
      EodCount(s, asOf, next);
      DueAreEligible(s.trades, asOf);
  }

  // The recorded response

  /** Replay accepts exactly one response for an accepted command: the one that was given. */
  lemma ResponseIsUnique(s: State, c: Command, result: CommandResult)
    requires Inv(s) && Evaluated(s, c).Success?
    ensures var ev := Evaluated(s, c).value;
            ResultMatches(result, ev.event, s, ev.prospective) <==> result == ev.result
  {
    hide Inv, AfterEvent, InvariantsHold, HasTrade, SettledCount, SameCapacities;
    EvaluationReplays(s, c);
    if c.AmendTradeCommand? { AmendedMatches(s, c, Evaluated(s, c).value.prospective); }
  }
}
