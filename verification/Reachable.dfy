/**
 What holds in every state that any accepted history of commands can reach.
 */
module Reachable {
  import opened Wrappers
  import opened Values
  import opened Trades
  import opened Limits
  import opened Ledger
  import opened PostingPolicy
  import opened Settlement
  import opened StateMachine
  import opened Sums
  import opened Reservations
  import opened Books
  import opened Chains
  import opened Invariants
  import opened Amendments
  import opened EndOfDay
  import opened CloseDates
  import opened Journal
  import opened Replay
  import opened Evaluator
  import opened Effects
  import opened Decisions
  import opened Requests
  import opened Fingerprint
  import opened Histories

  // Reservations

  /**
   Each defined balance reserves exactly what is paid by the confirmed versions whose own counterparty, netting set
   and book its node names, within an unchanged capacity.
   */
  lemma ReservationsAreConserved(limits: LimitMap, h: History, k: LimitKey)
    requires Accepted(limits, h)
    ensures var s := StateAfter(limits, h);
            && (k in s.limits <==> k in limits)
            && (k in limits ==> s.limits[k].capacity == limits[k].capacity
                                && s.limits[k].reserved == SumOver(s.trades, PaidUnder(k.node, k.currency))
                                && 0 <= s.limits[k].reserved <= s.limits[k].capacity)
  {
    hide Accepted, StateAfter, Chain, Sound, Aggregates, Netted;
    ReachableIsSound(limits, h);
    PaidThrough(StateAfter(limits, h).trades, k.node, k.currency);
  }

  /** A parent's reservation is the sum over its defined children. */
  lemma ParentsSumChildren(limits: LimitMap, h: History, parent: LimitKey)
    requires Accepted(limits, h) && parent in StateAfter(limits, h).limits && !parent.node.BookNode?
    ensures StateAfter(limits, h).limits[parent].reserved == SumOver(StateAfter(limits, h).limits, ChildShare(parent))
  {
    hide Accepted, StateAfter, Chain, Sound, Backed, Netted;
    ReachableIsSound(limits, h);
  }

  // The ledger

  /** Account balances are those of the confirmed and settled versions alone. */
  lemma BalancesAreLive(limits: LimitMap, h: History, account: Bytes, c: Currency)
    requires Accepted(limits, h)
    ensures LedgerNet(StateAfter(limits, h).entries, account, c) ==
        SumOver(StateAfter(limits, h).trades, LiveNet(account, c))
  {
    hide Accepted, StateAfter, Chain, Backed, Aggregates, Netted, Indexed, UniqueIds, ReversesOnce, LiveStands,
      Accounted;
    ReachableIsSound(limits, h);
    assert Meaning(BooksOf(StateAfter(limits, h)));
  }

  /** What a live version has added to its counterparty's control account. */
  ghost function ControlShare(counterpartyId: CounterpartyId, c: Currency): (TradeKey, Trade) -> int {
    (k: TradeKey, t: Trade) =>
      if (t.state == Confirmed || t.state == Settled) && t.counterpartyId == counterpartyId
      then (if t.terms.pay.currency == c then t.terms.pay.minorUnits else 0)
           - (if t.terms.receive.currency == c then t.terms.receive.minorUnits else 0)
      else 0
  }

  /** What a live version has added to its book's payable account. */
  ghost function PayableShare(bookId: BookId, c: Currency): (TradeKey, Trade) -> int {
    (k: TradeKey, t: Trade) =>
      if (t.state == Confirmed || t.state == Settled) && t.bookId == bookId && t.terms.pay.currency == c
      then -t.terms.pay.minorUnits else 0
  }

  /** What a live version has added to its book's receivable account. */
  ghost function ReceivableShare(bookId: BookId, c: Currency): (TradeKey, Trade) -> int {
    (k: TradeKey, t: Trade) =>
      if (t.state == Confirmed || t.state == Settled) && t.bookId == bookId && t.terms.receive.currency == c
      then t.terms.receive.minorUnits else 0
  }

  /** No account of one kind is an account of another. */
  lemma AccountsApart(a: Bytes, b: Bytes)
    ensures COUNTERPARTY_CONTROL_PREFIX + a != SETTLEMENT_PAYABLE_PREFIX + b
    ensures COUNTERPARTY_CONTROL_PREFIX + a != SETTLEMENT_RECEIVABLE_PREFIX + b
    ensures SETTLEMENT_PAYABLE_PREFIX + a != SETTLEMENT_RECEIVABLE_PREFIX + b
  {
    PrefixTexts();
    assert (COUNTERPARTY_CONTROL_PREFIX + a)[0] == 67;
    assert (SETTLEMENT_PAYABLE_PREFIX + b)[0] == 83 && (SETTLEMENT_RECEIVABLE_PREFIX + b)[0] == 83;
    assert (SETTLEMENT_PAYABLE_PREFIX + a)[11] == 80 && (SETTLEMENT_RECEIVABLE_PREFIX + b)[11] == 82;
  }

  lemma SuffixesDetermine(prefix: Bytes, a: Bytes, b: Bytes)
    ensures prefix + a == prefix + b <==> a == b
  {
    if prefix + a == prefix + b {
      assert a == (prefix + a)[|prefix|..] == (prefix + b)[|prefix|..] == b;
    }
  }

  lemma ShareIs(t: Trade, k: TradeKey, counterpartyId: CounterpartyId, bookId: BookId, c: Currency)
    ensures LiveNet(COUNTERPARTY_CONTROL_PREFIX + counterpartyId, c)(k, t) == ControlShare(counterpartyId, c)(k, t)
    ensures LiveNet(SETTLEMENT_PAYABLE_PREFIX + bookId, c)(k, t) == PayableShare(bookId, c)(k, t)
    ensures LiveNet(SETTLEMENT_RECEIVABLE_PREFIX + bookId, c)(k, t) == ReceivableShare(bookId, c)(k, t)
  {
    SuffixesDetermine(COUNTERPARTY_CONTROL_PREFIX, counterpartyId, t.counterpartyId);
    SuffixesDetermine(SETTLEMENT_PAYABLE_PREFIX, bookId, t.bookId);
    SuffixesDetermine(SETTLEMENT_RECEIVABLE_PREFIX, bookId, t.bookId);
    AccountsApart(counterpartyId, t.bookId);
    AccountsApart(t.counterpartyId, bookId);
    AccountsApart(bookId, t.bookId);
    AccountsApart(t.bookId, bookId);
  }

  /** Control accounts hold payments less receipts, payable accounts payments, and receivable accounts receipts. */
  lemma AccountBalances(limits: LimitMap, h: History, counterpartyId: CounterpartyId, bookId: BookId, c: Currency)
    requires Accepted(limits, h)
    ensures var s := StateAfter(limits, h);
            && LedgerNet(s.entries, COUNTERPARTY_CONTROL_PREFIX + counterpartyId, c) ==
                SumOver(s.trades, ControlShare(counterpartyId, c))
            && LedgerNet(s.entries, SETTLEMENT_PAYABLE_PREFIX + bookId, c) == SumOver(s.trades, PayableShare(bookId, c))
            && LedgerNet(s.entries, SETTLEMENT_RECEIVABLE_PREFIX + bookId, c) ==
                SumOver(s.trades, ReceivableShare(bookId, c))
  {
    hide Accepted, StateAfter, LiveNet, ControlShare, PayableShare, ReceivableShare, LedgerNet;
    var trades := StateAfter(limits, h).trades;
    var control, payable, receivable := COUNTERPARTY_CONTROL_PREFIX + counterpartyId,
        SETTLEMENT_PAYABLE_PREFIX + bookId, SETTLEMENT_RECEIVABLE_PREFIX + bookId;
    BalancesAreLive(limits, h, control, c);
    BalancesAreLive(limits, h, payable, c);
    BalancesAreLive(limits, h, receivable, c);
    forall k | k in trades
      ensures LiveNet(control, c)(k, trades[k]) == ControlShare(counterpartyId, c)(k, trades[k])
          && LiveNet(payable, c)(k, trades[k]) == PayableShare(bookId, c)(k, trades[k])
          && LiveNet(receivable, c)(k, trades[k]) == ReceivableShare(bookId, c)(k, trades[k])
    {
      ShareIs(trades[k], k, counterpartyId, bookId, c);
    }
    SumAgrees(trades, trades, LiveNet(control, c), ControlShare(counterpartyId, c));
    SumAgrees(trades, trades, LiveNet(payable, c), PayableShare(bookId, c));
    SumAgrees(trades, trades, LiveNet(receivable, c), ReceivableShare(bookId, c));
  }

  /** The same account, amount and trade version on the other side, pointing at the original. */
  predicate MirrorsPosting(reversal: Posting, original: Posting) {
    reversal == original.(id := reversal.id, side := Opposite(original.side), reversalOf := Some(original.id))
  }

  predicate ReversedOnlyAt(entries: seq<LedgerEntry>, target: Option<PostingId>, j: nat, q: nat) {
    forall m, p :: 0 <= m < |entries| && 0 <= p < |entries[m].postings| ==>
      entries[m].postings[p].reversalOf == target ==> m == j && p == q
  }

  /** A reversal mirrors one earlier posting that is no reversal, and no other posting of the ledger reverses it too. */
  lemma ReversalsAreExact(limits: LimitMap, h: History, j: nat, q: nat) returns (i: nat)
    requires Accepted(limits, h)
    requires j < |StateAfter(limits, h).entries| && q < |StateAfter(limits, h).entries[j].postings|
    requires StateAfter(limits, h).entries[j].postings[q].reversalOf.Some?
    ensures var entries := StateAfter(limits, h).entries;
            && i < j && q < |entries[i].postings| && entries[i].postings[q].reversalOf.None?
            && MirrorsPosting(entries[j].postings[q], entries[i].postings[q])
            && ReversedOnlyAt(entries, entries[j].postings[q].reversalOf, j, q)
  {
    hide Accepted, StateAfter, Chain, Backed, Aggregates, Netted, Indexed, UniqueIds, ReversesOnce, LiveStands,
      Accounted, Meaning;
    ReachableIsSound(limits, h);
    var b := BooksOf(StateAfter(limits, h));
    i := ReversalPointsBack(b, j, q);
    forall m, p | 0 <= m < |b.entries| && 0 <= p < |b.entries[m].postings|
        && b.entries[m].postings[p].reversalOf == b.entries[j].postings[q].reversalOf
      ensures m == j && p == q
    {
      NoPostingReversedTwice(b, m, p, j, q);
    }
  }

  // Version chains

  /** A trade stores exactly the versions up to its current one, linked both ways, all with the same parties. */
  lemma ChainsAreComplete(limits: LimitMap, h: History, k: TradeKey)
    requires Accepted(limits, h)
    ensures var s := StateAfter(limits, h);
            && (k in s.trades <==> k.tradeId in s.currentVersions && 1 <= k.version <= s.currentVersions[k.tradeId])
            && (k in s.trades ==> StoredAt(k, s.trades[k]) && Linked(s.trades[k], s.currentVersions[k.tradeId])
                                  && TradeKey(k.tradeId, 1) in s.trades
                                      && SameParties(s.trades[k], s.trades[TradeKey(k.tradeId, 1)]))
  {
    hide Accepted, StateAfter, Sound, Backed, Aggregates, Netted;
    ReachableIsSound(limits, h);
  }

  predicate ConfirmedAt(s: State, k: TradeKey) {
    k in s.trades && s.trades[k].state == Confirmed
  }

  /** The index gains exactly the versions that become confirmed, and loses none. */
  lemma IndexStep(s: State, e: Event, next: State, k: TradeKey)
    requires Inv(s) && AfterEvent(s, e) == Success(next)
    ensures k in next.confirmations <==> k in s.confirmations || ConfirmedAt(next, k)
  {
    hide Inv, AfterBook, AfterConfirm, AfterAmend, AfterCancel, AfterEod, IsConfirmation, ReversesWith, EntryIds,
      AfterReserve, AfterRelease, Extends,
      SameCapacities, AtClose;
    EventKeepsInv(s, e, next);
    if ConfirmedAt(next, k) { ConfirmedIsIndexed(next, k); }
    match e
    case TradeBooked(id, bookId, counterpartyId, nettingSetId, terms) =>
        BookExact(s, id, bookId, counterpartyId, nettingSetId, terms);
    case TradeConfirmed(id, expected, ids) => var _ := ConfirmExact(s, id, expected, ids, next);
    case TradeAmended(id, expected, terms, reversalIds, ids) =>
      var _, _ := AmendExact(s, id, expected, terms, reversalIds, ids, next);
    case TradeCancelled(id, expected, reversalIds) => CancelExact(s, id, expected, reversalIds, next);
    case EodRan(asOf) => EodExact(s, asOf, next);
  }

  lemma ConfirmedIsIndexed(s: State, k: TradeKey)
    requires Inv(s) && ConfirmedAt(s, k)
    ensures k in s.confirmations
  {
    LiveIsIndexed(BooksOf(s), k);
  }

  lemma {:induction false} PrefixAccepted(limits: LimitMap, h: History, n: nat)
    requires Accepted(limits, h) && n <= |h|
    ensures Accepted(limits, h[..n])
    decreases |h|
  {
    hide Accepted;
    if n == |h| {
      assert h[..n] == h;
    } else {
      EarlierAccepted(limits, h);
      PrefixAccepted(limits, h[..|h| - 1], n);
      assert h[..|h| - 1][..n] == h[..n];
    }
  }

  /** Some earlier state of this history had the version confirmed. */
  ghost predicate WasConfirmed(limits: LimitMap, h: History, k: TradeKey) {
    exists n: nat :: n <= |h| && Accepted(limits, h[..n]) && ConfirmedAt(StateAfter(limits, h[..n]), k)
  }

  lemma WasConfirmedStep(limits: LimitMap, h: History, k: TradeKey)
    requires Accepted(limits, h) && h != []
    ensures WasConfirmed(limits, h, k) <==>
        WasConfirmed(limits, h[..|h| - 1], k) || ConfirmedAt(StateAfter(limits, h), k)
  {
    hide Accepted, StateAfter, ConfirmedAt;
    var earlier := h[..|h| - 1];
    assert h[..|h|] == h;
    forall n: nat | n <= |earlier| ensures earlier[..n] == h[..n] {}
    if WasConfirmed(limits, h, k) {
      var n: nat :| n <= |h| && Accepted(limits, h[..n]) && ConfirmedAt(StateAfter(limits, h[..n]), k);
      if n <= |earlier| { assert earlier[..n] == h[..n]; }
    }
    if WasConfirmed(limits, earlier, k) {
      var n: nat :| n <= |earlier| && Accepted(limits, earlier[..n])
          && ConfirmedAt(StateAfter(limits, earlier[..n]), k);
      assert earlier[..n] == h[..n];
    }
  }

  /** The confirmation index holds exactly the versions that were ever confirmed. */
  lemma {:induction false} IndexIsEverConfirmed(limits: LimitMap, h: History, k: TradeKey)
    requires Accepted(limits, h)
    ensures k in StateAfter(limits, h).confirmations <==> WasConfirmed(limits, h, k)
    decreases |h|
  {
    hide Inv, Evaluated, AfterEvent, ConfirmedAt, WasConfirmed, ResultMatches, SameCapacities;
    if h == [] {
      NeverConfirmed(limits, h, k);
    } else {
      var earlier, last := h[..|h| - 1], h[|h| - 1];
      EarlierAccepted(limits, h);
      IndexIsEverConfirmed(limits, earlier, k);
      WasConfirmedStep(limits, h, k);
      ReachableIsSound(limits, earlier);
      var s := StateAfter(limits, earlier);
      EvaluationReplays(s, last.command);
      IndexStep(s, Evaluated(s, last.command).value.event, StateAfter(limits, h), k);
    }
  }

  lemma NeverConfirmed(limits: LimitMap, h: History, k: TradeKey)
    requires h == [] && Accepted(limits, h)
    ensures k !in StateAfter(limits, h).confirmations && !WasConfirmed(limits, h, k)
  {
  }

  /** Each indexed version points at an entry of its own, which posts its confirmation. */
  lemma IndexPointsHome(limits: LimitMap, h: History, k: TradeKey, j: TradeKey)
    requires Accepted(limits, h) && k in StateAfter(limits, h).confirmations
    ensures var s := StateAfter(limits, h);
            && k in s.trades && Confirms(s.entries[s.confirmations[k]], s.trades[k])
            && IsConfirmationShape(s.entries[s.confirmations[k]].postings)
            && (j in s.confirmations && s.confirmations[j] == s.confirmations[k] ==> j == k)
  {
    hide Accepted, StateAfter, Chain, Backed, Aggregates, Netted, UniqueIds, ReversesOnce, LiveStands, Accounted,
        Meaning, Confirms;
    ReachableIsSound(limits, h);
    var s := StateAfter(limits, h);
    ConfirmationFacts(s.entries[s.confirmations[k]], s.trades[k], [], Usd);
  }

  // Single steps

  /**
   Every command of a history met its condition in the state before it, and had its own effect, event and result; the
   journal records the last two.
   */
  lemma {:induction false} EveryStepCarries(limits: LimitMap, h: History, i: nat) returns (ev: Evaluation)
    requires Accepted(limits, h) && i < |h|
    ensures Accepted(limits, h[..i]) && Accepted(limits, h[..i + 1])
    ensures Accepts(StateAfter(limits, h[..i]), h[i].command)
    ensures Carries(StateAfter(limits, h[..i]), h[i].command, ev)
    ensures ev.prospective == StateAfter(limits, h[..i + 1])
    ensures Batches(limits, h)[i].events == [ev.event] && Batches(limits, h)[i].result == ev.result
    decreases |h|
  {
    hide Evaluated, CanonicalBytes, Uses, Carries, Accepts, Inv, SameCapacities;
    var n := |h| - 1;
    var earlier := h[..n];
    assert h == earlier + [h[n]] && h[..|h|] == h;
    BatchesStep(limits, earlier, h[n]);
    if i < n {
      assert earlier[..i] == h[..i] && earlier[..i + 1] == h[..i + 1];
      ev := EveryStepCarries(limits, earlier, i);
    } else {
      RunStep(limits, earlier, h[n]);
      ReachableIsSound(limits, earlier);
      var s := StateAfter(limits, earlier);
      ev := Evaluated(s, h[n].command).value;
      CommandEffect(s, h[n].command);
      AcceptedIff(s, h[n].command);
    }
  }

  // Dead branches

  /** No command on a reachable state meets a missing entry, a totals failure, a failed release or a broken chain. */
  lemma NoDeadBranch(limits: LimitMap, h: History, e: Event)
    requires Accepted(limits, h)
    ensures AfterEvent(StateAfter(limits, h), e).Failure? ==> !DeadError(AfterEvent(StateAfter(limits, h), e).error)
  {
    hide Accepted, StateAfter, Inv, AfterBook, AfterConfirm, AfterAmend, AfterCancel, AfterEod, CanConfirm, CanAmend,
      CanCancel, Idle, Overflows;
    ReachableIsSound(limits, h);
    var s := StateAfter(limits, h);
    match e
    case TradeBooked(id, bookId, counterpartyId, nettingSetId, terms) =>
        BookExact(s, id, bookId, counterpartyId, nettingSetId, terms);
    case TradeConfirmed(id, expected, ids) => ConfirmIff(s, id, expected, ids);
    case TradeAmended(id, expected, terms, reversalIds, ids) => AmendIff(s, id, expected, terms, reversalIds, ids);
    case TradeCancelled(id, expected, reversalIds) => CancelIff(s, id, expected, reversalIds);
    case EodRan(asOf) => EodIff(s, asOf);
  }

  // Settlements and export

  /**
   Stored obligations are exactly, for each counterparty, netting set, value date and currency, what the settled
   versions of those parties and that date receive in the currency less what they pay in it.
   */
  lemma SettlementsAreNets(limits: LimitMap, h: History, counterpartyId: CounterpartyId, nettingSetId: NettingSetId,
          valueDate: IsoDate, currency: Currency)
    requires Accepted(limits, h)
    ensures ExactlyOwed(StateAfter(limits, h).settlements, counterpartyId, nettingSetId, valueDate, currency,
        SumOver(StateAfter(limits, h).trades, ContributionAt(counterpartyId, nettingSetId, valueDate, currency)))
  {
    hide Accepted, StateAfter, Chain, Sound, Backed, Aggregates, SettledTrades, BilateralSettlements, ExactlyOwed;
    ReachableIsSound(limits, h);
    var trades := StateAfter(limits, h).trades;
    SettlementsAreExact(SettledTrades(trades), counterpartyId, nettingSetId, valueDate, currency);
    TotalIsSum(trades, counterpartyId, nettingSetId, valueDate, currency);
  }

  /** Two reachable states with equal exports are equal in full, whatever histories led to them. */
  lemma ExportsTellStatesApart(limits: LimitMap, h: History, otherLimits: LimitMap, other: History)
    requires Accepted(limits, h) && Accepted(otherLimits, other)
    requires Exported(StateAfter(limits, h)).Success?
        && Exported(StateAfter(limits, h)) == Exported(StateAfter(otherLimits, other))
    ensures StateAfter(limits, h) == StateAfter(otherLimits, other)
  {
    hide Accepted, StateAfter, Inv, Exported;
    ReachableIsSound(limits, h);
    ReachableIsSound(otherLimits, other);
    ExportIsInjective(StateAfter(limits, h), StateAfter(otherLimits, other));
  }

  /** No command id occurs in two batches of a journal. */
  lemma JournalIdsAreDistinct(limits: LimitMap, h: History, i: nat, j: nat)
    requires Accepted(limits, h) && i < j < |h|
    ensures Batches(limits, h)[i].commandId != Batches(limits, h)[j].commandId
  {
    hide Accepted, Batches, CanonicalBytes, EventOf;
    IdsOccurOnce(limits, h, i, j);
    BatchAt(limits, h, i);
    BatchAt(limits, h, j);
  }
}
