/**
 The ledger state and its five operations (state.cpp).  Each function After...
 is the complete outcome of one operation; each method builds it on a copy,
 step by step.
 */
module StateMachine {
  import opened Wrappers
  import opened Ordering
  import opened Values
  import opened Trades
  import opened Limits
  import opened Ledger
  import opened PostingPolicy
  import opened Settlement

  datatype StateError =
    | DuplicateTradeId
    | TradeNotFound
    | VersionConflict(expected: uint32, actual: uint32)
    | IllegalTransition(lifecycle: LifecycleError)
    | AmendmentFailure(trade: TradeError)
    | LimitFailure(limit: LimitError)
    | PostingPolicyFailure(policy: PostingPolicyError)
    | DuplicatePostingId
    | MissingConfirmationEntry
    | MissingReversalIds
    | UnexpectedReversalIds
    | LedgerTotalsFailure(totals: LedgerTotalsError)
    | SettlementFailure(settlement: SettlementError)
    | StateVersionOverflow

  datatype StateData = State(
    version: uint64,
    trades: TradeMap,
    currentVersions: map<TradeId, uint32>,
    entries: seq<LedgerEntry>,
    confirmations: map<TradeKey, nat>,
    postingIds: set<PostingId>,
    totals: LedgerTotals,
    limits: LimitMap,
    settlements: seq<SettlementObligation>)
  {
    function FindTrade(id: TradeId, version: uint32): Option<Trade> {
      var k := TradeKey(id, version);
      if k in trades then Some(trades[k]) else None
    }

    function CurrentTrade(id: TradeId): Option<Trade> {
      if id in currentVersions then FindTrade(id, currentVersions[id]) else None
    }
  }

  predicate IndexInRange(s: StateData) {
    forall k :: k in s.confirmations ==> s.confirmations[k] < |s.entries|
  }

  /** The confirmation index never points past the ledger. */
  type State = s: StateData | IndexInRange(s) witness State(0, map[], map[], [], map[], {}, ZERO_TOTALS, map[], [])

  function InitialState(limits: LimitMap): State {
    StateData.State(0, map[], map[], [], map[], {}, ZERO_TOTALS, limits, [])
  }

  function PathOf(t: Trade): LimitPath {
    LimitPath(t.counterpartyId, t.nettingSetId, t.bookId)
  }

  /** std::map::emplace: an existing key keeps its value. */
  function Emplace<K, V>(m: map<K, V>, k: K, v: V): map<K, V> {
    if k in m then m else m[k := v]
  }

  lemma FirstStays<K, V>(m: map<K, V>, k: K, v: V, j: K)
    requires j in m
    ensures j in Emplace(m, k, v) && Emplace(m, k, v)[j] == m[j]
    ensures k in Emplace(m, k, v) && (k !in m ==> Emplace(m, k, v)[k] == v)
  {
  }

  function RequireCurrent(s: State, id: TradeId, expected: uint32): (r: Outcome<Trade, StateError>)
    ensures r.Success? ==> r.value.version == expected && id in s.currentVersions
                           && TradeKey(id, s.currentVersions[id]) in s.trades
                               && r.value == s.trades[TradeKey(id, s.currentVersions[id])]
  {
    match s.CurrentTrade(id)
    case None => Failure(TradeNotFound)
    case Some(t) => if t.version != expected then Failure(VersionConflict(expected, t.version)) else Success(t)
  }

  function IdsOf(postings: seq<Posting>): set<PostingId> {
    set p | p in postings :: p.id
  }

  function AfterAppend(s: State, entry: LedgerEntry): Outcome<State, StateError> {
    if exists p :: p in entry.postings && p.id in s.postingIds then Failure(StateError.DuplicatePostingId)
    else
      var totals :- AfterPostings(s.totals, entry.postings).MapFailure(e => LedgerTotalsFailure(e));
      Success(s.(postingIds := s.postingIds + IdsOf(entry.postings), totals := totals, entries := s.entries + [entry]))
  }

  function AfterAdvance(s: State): Outcome<State, StateError> {
    if s.version == UINT64_MAX then Failure(StateVersionOverflow) else Success(s.(version := s.version + 1))
  }

  method AnyKnown(postings: seq<Posting>, known: set<PostingId>) returns (found: bool)
    ensures found <==> exists p :: p in postings && p.id in known
  {
    for i := 0 to |postings|
      invariant forall j :: 0 <= j < i ==> postings[j].id !in known
    {
      if postings[i].id in known {
        return true;
      }
    }
    return false;
  }

  method AddIds(postings: seq<Posting>, known: set<PostingId>) returns (ids: set<PostingId>)
    ensures ids == known + IdsOf(postings)
  {
    ids := known;
    for i := 0 to |postings|
      invariant ids == known + IdsOf(postings[..i])
    {
      ids := ids + {postings[i].id};
      assert postings[..i + 1] == postings[..i] + [postings[i]];
    }
    assert postings[..|postings|] == postings;
  }

  method AppendEntry(s: State, entry: LedgerEntry) returns (r: Outcome<State, StateError>)
    ensures r == AfterAppend(s, entry)
  {
    // Posting-id uniqueness and totals are checked before either index changes.
    var found := AnyKnown(entry.postings, s.postingIds);
    if found {
      return Failure(StateError.DuplicatePostingId);
    }
    var totals := WithEntry(s.totals, entry);
    if totals.Failure? {
      return Failure(LedgerTotalsFailure(totals.error));
    }
    var postingIds := AddIds(entry.postings, s.postingIds);
    return Success(s.(postingIds := postingIds, totals := totals.value, entries := s.entries + [entry]));
  }

  // Book

  function AfterBook(s: State, id: TradeId, bookId: BookId, counterpartyId: CounterpartyId,
          nettingSetId: NettingSetId, terms: FxTerms): Outcome<State, StateError>
  {
    if id in s.currentVersions then Failure(DuplicateTradeId)
    else
      var captured := Capture(id, bookId, counterpartyId, nettingSetId, terms);
      AfterAdvance(s.(trades := Emplace(s.trades, TradeKey(id, captured.version), captured),
                      currentVersions := Emplace(s.currentVersions, id, captured.version)))
  }

  method Book(s: State, id: TradeId, bookId: BookId, counterpartyId: CounterpartyId, nettingSetId: NettingSetId,
          terms: FxTerms)
    returns (r: Outcome<State, StateError>)
    ensures r == AfterBook(s, id, bookId, counterpartyId, nettingSetId, terms)
  {
    if id in s.currentVersions {
      return Failure(DuplicateTradeId);
    }
    var captured := Capture(id, bookId, counterpartyId, nettingSetId, terms);
    var next := s;
    next := next.(trades := Emplace(next.trades, TradeKey(id, captured.version), captured));
    next := next.(currentVersions := Emplace(next.currentVersions, id, captured.version));
    return AfterAdvance(next);
  }

  // Confirm

  function AfterConfirm(s: State, id: TradeId, expected: uint32,
          ids: ConfirmationPostingIds): Outcome<State, StateError>
  {
    var current :- RequireCurrent(s, id, expected);
    var confirmed :- current.Apply(ConfirmTrade).MapFailure(e => StateError.IllegalTransition(e));
    var limits :- AfterReserve(s.limits, PathOf(current), current.terms.pay).MapFailure(e => LimitFailure(e));
    var entry :- ConfirmationEntry(confirmed, ids).MapFailure(e => PostingPolicyFailure(e));
    var key := TradeKey(id, expected);
    var appended :- AfterAppend(s.(limits := limits, trades := s.trades[key := confirmed]), entry);
    AfterAdvance(appended.(confirmations := Emplace(appended.confirmations, key, |s.entries|)))
  }

  method Confirm(s: State, id: TradeId, expected: uint32,
          ids: ConfirmationPostingIds) returns (r: Outcome<State, StateError>)
    ensures r == AfterConfirm(s, id, expected, ids)
  {
    hide ConfirmationEntry, AfterReserve, RequireCurrent;
    var current :- RequireCurrent(s, id, expected);
    var confirmed := current.Apply(ConfirmTrade);
    if confirmed.Failure? {
      return Failure(StateError.IllegalTransition(confirmed.error));
    }
    // Everything that can fail is computed first.
    var reserved := Reserve(s.limits, PathOf(current), current.terms.pay);
    if reserved.Failure? {
      return Failure(LimitFailure(reserved.error));
    }
    var entry := BuildConfirmationEntry(confirmed.value, ids);
    if entry.Failure? {
      return Failure(PostingPolicyFailure(entry.error));
    }
    var next := s;
    next := next.(limits := reserved.value);
    var key := TradeKey(id, expected);
    next := next.(trades := next.trades[key := confirmed.value]);
    var entryIndex := |next.entries|;
    next :- AppendEntry(next, entry.value);
    next := next.(confirmations := Emplace(next.confirmations, key, entryIndex));
    return AfterAdvance(next);
  }

  // Amend

  /** Reversal and rebook enter the state together. */
  function Rebook(s: State, key: TradeKey, amendment: TradeAmendment, limits: LimitMap, reversal: LedgerEntry,
          replacement: LedgerEntry): Outcome<State, StateError>
  {
    var newKey := TradeKey(key.tradeId, amendment.replacement.version);
    var reversed :- AfterAppend(s.(limits := limits,
                                   trades := Emplace(s.trades[key := amendment.superseded], newKey,
                                       amendment.replacement),
                                   currentVersions := s.currentVersions[key.tradeId := newKey.version]), reversal);
    var rebooked :- AfterAppend(reversed, replacement);
    AfterAdvance(rebooked.(confirmations := Emplace(rebooked.confirmations, newKey, |reversed.entries|)))
  }

  function AfterAmend(s: State, id: TradeId, expected: uint32, terms: FxTerms, reversalIds: ReversalPostingIds,
          ids: ConfirmationPostingIds): Outcome<State, StateError>
  {
    var current :- RequireCurrent(s, id, expected);
    var key := TradeKey(id, expected);
    if current.state != Confirmed then Failure(StateError.IllegalTransition(LifecycleError.IllegalTransition))
    else if key !in s.confirmations then Failure(MissingConfirmationEntry)
    else
      var released :- AfterRelease(s.limits, PathOf(current), current.terms.pay).MapFailure(e => LimitFailure(e));
      var amendment :- AmendTradeVersion(current, terms).MapFailure(e => AmendmentFailure(e));
      var limits :- AfterReserve(released, PathOf(amendment.replacement),
          amendment.replacement.terms.pay).MapFailure(e => LimitFailure(e));
      var reversal :- ReversalEntry(s.entries[s.confirmations[key]],
          reversalIds).MapFailure(e => PostingPolicyFailure(e));
      var replacement :- ConfirmationEntry(amendment.replacement, ids).MapFailure(e => PostingPolicyFailure(e));
      Rebook(s, key, amendment, limits, reversal, replacement)
  }

  method Amend(s: State, id: TradeId, expected: uint32, terms: FxTerms, reversalIds: ReversalPostingIds,
          ids: ConfirmationPostingIds)
    returns (r: Outcome<State, StateError>)
    ensures r == AfterAmend(s, id, expected, terms, reversalIds, ids)
  {
    var current :- RequireCurrent(s, id, expected);
    if current.state != Confirmed {
      return Failure(StateError.IllegalTransition(LifecycleError.IllegalTransition));
    }
    var key := TradeKey(id, expected);
    if key !in s.confirmations {
      return Failure(MissingConfirmationEntry);
    }
    // Replacement headroom is tested after releasing the old reservation.
    var released := Release(s.limits, PathOf(current), current.terms.pay);
    if released.Failure? {
      return Failure(LimitFailure(released.error));
    }
    var amendment := AmendTradeVersion(current, terms);
    if amendment.Failure? {
      return Failure(AmendmentFailure(amendment.error));
    }
    var replacementTrade := amendment.value.replacement;
    var reserved := Reserve(released.value, PathOf(replacementTrade), replacementTrade.terms.pay);
    if reserved.Failure? {
      return Failure(LimitFailure(reserved.error));
    }
    var reversal := BuildReversalEntry(s.entries[s.confirmations[key]], reversalIds);
    if reversal.Failure? {
      return Failure(PostingPolicyFailure(reversal.error));
    }
    var replacement := BuildConfirmationEntry(replacementTrade, ids);
    if replacement.Failure? {
      return Failure(PostingPolicyFailure(replacement.error));
    }
    r := RebookInto(s, key, amendment.value, reserved.value, reversal.value, replacement.value);
  }

  method RebookInto(s: State, key: TradeKey, amendment: TradeAmendment, limits: LimitMap, reversal: LedgerEntry,
          replacement: LedgerEntry)
    returns (r: Outcome<State, StateError>)
    ensures r == Rebook(s, key, amendment, limits, reversal, replacement)
  {
    var next := s;
    next := next.(limits := limits);
    next := next.(trades := next.trades[key := amendment.superseded]);
    var newKey := TradeKey(key.tradeId, amendment.replacement.version);
    next := next.(trades := Emplace(next.trades, newKey, amendment.replacement));
    next := next.(currentVersions := next.currentVersions[key.tradeId := newKey.version]);
    next :- AppendEntry(next, reversal);
    var replacementIndex := |next.entries|;
    next :- AppendEntry(next, replacement);
    next := next.(confirmations := Emplace(next.confirmations, newKey, replacementIndex));
    return AfterAdvance(next);
  }

  // Cancel

  function AfterCancel(s: State, id: TradeId, expected: uint32,
          reversalIds: Option<ReversalPostingIds>): Outcome<State, StateError>
  {
    var current :- RequireCurrent(s, id, expected);
    var cancelled :- current.Apply(CancelTrade).MapFailure(e => StateError.IllegalTransition(e));
    var key := TradeKey(id, expected);
    if current.state == Captured then
      if reversalIds.Some? then Failure(UnexpectedReversalIds)
      else AfterAdvance(s.(trades := s.trades[key := cancelled]))
    else if reversalIds.None? then Failure(MissingReversalIds)
    else if key !in s.confirmations then Failure(MissingConfirmationEntry)
    else
      var released :- AfterRelease(s.limits, PathOf(current), current.terms.pay).MapFailure(e => LimitFailure(e));
      var reversal :- ReversalEntry(s.entries[s.confirmations[key]],
          reversalIds.value).MapFailure(e => PostingPolicyFailure(e));
      var appended :- AfterAppend(s.(limits := released, trades := s.trades[key := cancelled]), reversal);
      AfterAdvance(appended)
  }

  method Cancel(s: State, id: TradeId, expected: uint32,
          reversalIds: Option<ReversalPostingIds>) returns (r: Outcome<State, StateError>)
    ensures r == AfterCancel(s, id, expected, reversalIds)
  {
    var current :- RequireCurrent(s, id, expected);
    var cancelled := current.Apply(CancelTrade);
    if cancelled.Failure? {
      return Failure(StateError.IllegalTransition(cancelled.error));
    }
    var next := s;
    var key := TradeKey(id, expected);
    if current.state == Captured {
      // Nothing was posted or reserved for a captured trade.
      if reversalIds.Some? {
        return Failure(UnexpectedReversalIds);
      }
      next := next.(trades := next.trades[key := cancelled.value]);
    } else {
      if reversalIds.None? {
        return Failure(MissingReversalIds);
      }
      if key !in s.confirmations {
        return Failure(MissingConfirmationEntry);
      }
      var released := Release(s.limits, PathOf(current), current.terms.pay);
      if released.Failure? {
        return Failure(LimitFailure(released.error));
      }
      var reversal := BuildReversalEntry(s.entries[s.confirmations[key]], reversalIds.value);
      if reversal.Failure? {
        return Failure(PostingPolicyFailure(reversal.error));
      }
      next := next.(limits := released.value);
      next := next.(trades := next.trades[key := cancelled.value]);
      next :- AppendEntry(next, reversal.value);
    }
    return AfterAdvance(next);
  }

  // End of day

  predicate Eligible(t: Trade, asOf: IsoDate) {
    t.state == Confirmed && t.terms.valueDate <= asOf
  }

  function KeysInOrder(keys: set<TradeKey>): (r: seq<TradeKey>)
    ensures forall k :: k in r <==> k in keys
  {
    TradeKeyOrder();
    Ascending(keys, TradeKeyLess)
  }

  lemma KeysAreDistinct(keys: set<TradeKey>)
    ensures Distinct(KeysInOrder(keys)) && Elements(KeysInOrder(keys)) == keys
  {
    hide Distinct, Elements, StrictlySorted;
    TradeKeyOrder();
    AscendingIsDistinct(keys, TradeKeyLess);
  }

  lemma KeepInOrder(keys: set<TradeKey>, chosen: set<TradeKey>)
    requires chosen <= keys
    ensures Keep(KeysInOrder(keys), chosen) == KeysInOrder(chosen)
  {
    TradeKeyOrder();
    KeepAscending(keys, chosen, TradeKeyLess);
  }

  function EligibleKeys(trades: TradeMap, asOf: IsoDate): set<TradeKey> {
    set k | k in trades && Eligible(trades[k], asOf)
  }

  function SettledKeys(trades: TradeMap): set<TradeKey> {
    set k | k in trades && trades[k].state == Settled
  }

  predicate AllIn(keys: seq<TradeKey>, trades: TradeMap) {
    forall i :: 0 <= i < |keys| ==> keys[i] in trades
  }

  function EligibleInOrder(trades: TradeMap, asOf: IsoDate): (r: seq<TradeKey>)
    ensures AllIn(r, trades)
  {
    var r := KeysInOrder(EligibleKeys(trades, asOf));
    assert forall i :: 0 <= i < |r| ==> r[i] in r;
    r
  }

  function SettledInOrder(trades: TradeMap): (r: seq<TradeKey>)
    ensures AllIn(r, trades)
  {
    var r := KeysInOrder(SettledKeys(trades));
    assert forall i :: 0 <= i < |r| ==> r[i] in r;
    r
  }

  function TradesAt(trades: TradeMap, keys: seq<TradeKey>): seq<Trade>
    requires AllIn(keys, trades)
  {
    seq(|keys|, i requires 0 <= i < |keys| => trades[keys[i]])
  }

  /** The settled versions, in key order. */
  function SettledTrades(trades: TradeMap): seq<Trade> {
    TradesAt(trades, SettledInOrder(trades))
  }

  datatype Positions = Positions(trades: TradeMap, limits: LimitMap)

  function SettleOne(p: Positions, key: TradeKey): (r: Outcome<Positions, StateError>)
    requires key in p.trades
    ensures r.Success? ==> r.value.trades.Keys == p.trades.Keys
  {
    var t := p.trades[key];
    var released :- AfterRelease(p.limits, PathOf(t), t.terms.pay).MapFailure(e => LimitFailure(e));
    var settled :- t.Apply(RunEod).MapFailure(e => StateError.IllegalTransition(e));
    Success(Positions(p.trades[key := settled], released))
  }

  function SettleEach(p: Positions, keys: seq<TradeKey>): (r: Outcome<Positions, StateError>)
    requires AllIn(keys, p.trades)
    ensures r.Success? ==> r.value.trades.Keys == p.trades.Keys
    decreases |keys|
  {
    if keys == [] then Success(p) else
      var next :- SettleOne(p, keys[0]);
      SettleEach(next, keys[1..])
  }

  ghost function AfterEod(s: State, asOf: IsoDate): Outcome<State, StateError> {
    var eligible := EligibleInOrder(s.trades, asOf);
    if eligible == [] then Success(s)
    else
      var p :- SettleEach(Positions(s.trades, s.limits), eligible);
      AfterNetting(s.(trades := p.trades, limits := p.limits))
  }

  /** The obligations of every settled version replace the stored ones. */
  ghost function AfterNetting(s: State): Outcome<State, StateError> {
    var settlements :- BilateralSettlements(SettledTrades(s.trades)).MapFailure(e => SettlementFailure(e));
    AfterAdvance(s.(settlements := settlements))
  }

  method CollectEligible(trades: TradeMap, asOf: IsoDate) returns (eligible: seq<TradeKey>)
    ensures eligible == EligibleInOrder(trades, asOf)
  {
    var keys := TraversalOrder(trades);
    KeepInOrder(trades.Keys, EligibleKeys(trades, asOf));
    eligible := FilterEligible(keys, trades, asOf);
  }

  method TraversalOrder(trades: TradeMap) returns (keys: seq<TradeKey>)
    ensures keys == KeysInOrder(trades.Keys) && AllIn(keys, trades)
  {
    keys := KeysInOrder(trades.Keys);
    assert forall i :: 0 <= i < |keys| ==> keys[i] in keys;
  }

  method FilterEligible(keys: seq<TradeKey>, trades: TradeMap, asOf: IsoDate) returns (eligible: seq<TradeKey>)
    requires AllIn(keys, trades)
    ensures eligible == Keep(keys, EligibleKeys(trades, asOf))
  {
    eligible := [];
    for i := 0 to |keys|
      invariant eligible == Keep(keys[..i], EligibleKeys(trades, asOf))
    {
      assert keys[..i + 1][..i] == keys[..i];
      if Eligible(trades[keys[i]], asOf) {
        eligible := eligible + [keys[i]];
      }
    }
    assert keys[..|keys|] == keys;
  }

  method CollectSettled(trades: TradeMap) returns (settled: seq<Trade>)
    ensures settled == SettledTrades(trades)
  {
    var keys := TraversalOrder(trades);
    KeepInOrder(trades.Keys, SettledKeys(trades));
    settled := FilterSettled(keys, trades);
  }

  method FilterSettled(keys: seq<TradeKey>, trades: TradeMap) returns (settled: seq<Trade>)
    requires AllIn(keys, trades)
    ensures AllIn(Keep(keys, SettledKeys(trades)), trades)
    ensures settled == TradesAt(trades, Keep(keys, SettledKeys(trades)))
  {
    ghost var chosen: seq<TradeKey> := [];
    settled := [];
    for i := 0 to |keys|
      invariant chosen == Keep(keys[..i], SettledKeys(trades)) && AllIn(chosen, trades)
      invariant settled == TradesAt(trades, chosen)
    {
      assert keys[..i + 1][..i] == keys[..i];
      if trades[keys[i]].state == Settled {
        settled := settled + [trades[keys[i]]];
        chosen := chosen + [keys[i]];
      }
    }
    assert keys[..|keys|] == keys;
  }

  method SettleInOrder(start: Positions, eligible: seq<TradeKey>) returns (r: Outcome<Positions, StateError>)
    requires AllIn(eligible, start.trades)
    ensures r == SettleEach(start, eligible)
  {
    var next := start;
    for i := 0 to |eligible|
      invariant AllIn(eligible, next.trades)
      invariant SettleEach(start, eligible) == SettleEach(next, eligible[i..])
    {
      var key := eligible[i];
      var t := next.trades[key];
      assert eligible[i..][1..] == eligible[i + 1..];
      var released := Release(next.limits, PathOf(t), t.terms.pay);
      if released.Failure? {
        return Failure(LimitFailure(released.error));
      }
      var settled := t.Apply(RunEod);
      if settled.Failure? {
        return Failure(StateError.IllegalTransition(settled.error));
      }
      next := next.(limits := released.value, trades := next.trades[key := settled.value]);
    }
    return Success(next);
  }

  method RunEndOfDay(s: State, asOf: IsoDate) returns (r: Outcome<State, StateError>)
    ensures r == AfterEod(s, asOf)
  {
    var eligible := CollectEligible(s.trades, asOf);
    if eligible == [] {
      return Success(s);
    }
    var next := s;
    var positions :- SettleInOrder(Positions(s.trades, s.limits), eligible);
    next := next.(trades := positions.trades, limits := positions.limits);
    r := RebuildSettlements(next);
  }

  method RebuildSettlements(s: State) returns (r: Outcome<State, StateError>)
    ensures r == AfterNetting(s)
  {
    var next := s;
    var settledTrades := CollectSettled(next.trades);
    var obligations := DeriveBilateralSettlements(settledTrades);
    if obligations.Failure? {
      return Failure(SettlementFailure(obligations.error));
    }
    next := next.(settlements := obligations.value);
    return AfterAdvance(next);
  }
}
