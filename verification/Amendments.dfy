/**
 Amendment as one transaction: release, supersede, reserve, reverse and rebook
 all happen, or nothing does.
 */
module Amendments {
  import opened Wrappers
  import opened Ordering
  import opened Values
  import opened Trades
  import opened Limits
  import opened Ledger
  import opened PostingPolicy
  import opened StateMachine
  import opened Reservations
  import opened Books
  import opened Chains
  import opened Invariants

  /** The amendment of the current version of a confirmed trade. */
  function Amendment(t: Trade, terms: FxTerms): TradeAmendment
    requires t.version < UINT32_MAX
  {
    TradeAmendment(t.(state := Superseded, supersededBy := Some(t.version + 1)),
                   t.(version := t.version + 1, terms := terms, supersedes := Some(t.version), supersededBy := None))
  }

  /** What the old version holds is released before the new headroom is tested. */
  function Released(s: State, t: Trade): LimitMap {
    match AfterRelease(s.limits, PathOf(t), t.terms.pay)
    case Success(limits) => limits
    case Failure(_) => s.limits
  }

  predicate CanAmend(s: State, id: TradeId, expected: uint32, terms: FxTerms, reversalIds: ReversalPostingIds,
          ids: ConfirmationPostingIds)
  {
    && Addresses(s, id, expected)
    && var t := s.trades[TradeKey(id, expected)];
       && t.state == Confirmed && t.version < UINT32_MAX
       && Headroom(Released(s, t), Amendment(t, terms).replacement)
       && Distinct(reversalIds.List() + ids.List())
       && Fresh(reversalIds.List() + ids.List(), s.postingIds)
       && s.version < UINT64_MAX
  }

  lemma JoinedDistinct(first: seq<PostingId>, second: seq<PostingId>)
    ensures Distinct(first + second) <==> Distinct(first) && Distinct(second) && forall id :: id in second ==>
        id !in first
  {
    var both := first + second;
    if Distinct(both) {
      forall i, j | 0 <= i < j < |second| ensures second[i] != second[j] {
        assert both[|first| + i] != both[|first| + j];
      }
      forall i, j | 0 <= i < |second| && 0 <= j < |first| ensures second[i] != first[j] {
        assert both[j] != both[|first| + i];
      }
      forall i, j | 0 <= i < j < |first| ensures first[i] != first[j] { assert both[i] != both[j]; }
    } else if Distinct(first) && Distinct(second) {
      var i, j :| 0 <= i < j < |both| && both[i] == both[j];
      assert i < |first| <= j;
      assert second[j - |first|] in second && second[j - |first|] in first;
    }
  }

  lemma JoinedFresh(first: seq<PostingId>, second: seq<PostingId>, known: set<PostingId>)
    ensures Fresh(first + second, known) <==> Fresh(first, known) && Fresh(second, known)
  {
    var both := first + second;
    assert forall i :: 0 <= i < |first| ==> both[i] == first[i];
    assert forall i :: 0 <= i < |second| ==> both[|first| + i] == second[i];
  }

  lemma EightIds(first: seq<PostingId>, second: seq<PostingId>, known: set<PostingId>)
    ensures Distinct(first + second) && Fresh(first + second, known) <==>
            Distinct(first) && Fresh(first, known) && Distinct(second) && Fresh(second, known + Elements(first))
  {
    JoinedDistinct(first, second);
    JoinedFresh(first, second, known);
    assert (forall id :: id in second ==> id !in first) <==> forall i :: 0 <= i < |second| ==> second[i] !in first;
  }

  lemma AmendmentExact(t: Trade, terms: FxTerms)
    requires t.state == Confirmed && t.version > 0
    ensures AmendTradeVersion(t, terms) == if t.version == UINT32_MAX then Failure(VersionOverflow)
        else Success(Amendment(t, terms))
  {
  }

  /** Appending the reversal and the rebooking needs the eight ids to be distinct and unknown. */
  lemma RebookExact(s: State, key: TradeKey, a: TradeAmendment, limits: LimitMap, reversal: LedgerEntry,
          replacement: LedgerEntry)
    requires s.totals == ZERO_TOTALS && key in s.trades
    requires TradeKey(key.tradeId, a.replacement.version) !in s.trades
        && TradeKey(key.tradeId, a.replacement.version) !in s.confirmations
    ensures Rebook(s, key, a, limits, reversal, replacement) ==
            if !(EntryIds(reversal) !! s.postingIds) then Failure(StateError.DuplicatePostingId)
            else if !(EntryIds(replacement) !! (s.postingIds + EntryIds(reversal)))
                then Failure(StateError.DuplicatePostingId)
            else if s.version == UINT64_MAX then Failure(StateVersionOverflow)
            else Success(Rebooked(s, key, a, limits, reversal, replacement))
  {
    hide EntryIds, AfterAppend;
    var newKey := TradeKey(key.tradeId, a.replacement.version);
    assert Emplace(s.trades[key := a.superseded], newKey, a.replacement) == Superseding(s.trades, key, a);
    hide Superseding;
    var next: State := s.(limits := limits, trades := Superseding(s.trades, key, a),
        currentVersions := s.currentVersions[key.tradeId := newKey.version]);
    AppendExact(next, reversal);
    if EntryIds(reversal) !! s.postingIds {
      AppendExact(next.(postingIds := s.postingIds + EntryIds(reversal), entries := s.entries + [reversal]),
          replacement);
    }
  }

  /** The state after an amendment: both versions stored, both entries appended, one version step. */
  function Rebooked(s: State, key: TradeKey, a: TradeAmendment, limits: LimitMap, reversal: LedgerEntry,
          replacement: LedgerEntry): State
    requires s.version < UINT64_MAX
  {
    var newKey := TradeKey(key.tradeId, a.replacement.version);
    s.(version := s.version + 1,
       limits := limits,
       trades := Superseding(s.trades, key, a),
       currentVersions := s.currentVersions[key.tradeId := newKey.version],
       entries := s.entries + [reversal] + [replacement],
       confirmations := s.confirmations[newKey := |s.entries| + 1],
       postingIds := s.postingIds + EntryIds(reversal) + EntryIds(replacement))
  }

  lemma CanExtend(s: State, id: TradeId, expected: uint32, terms: FxTerms)
    requires Inv(s) && Addresses(s, id, expected)
    requires s.trades[TradeKey(id, expected)].state == Confirmed && expected < UINT32_MAX
    ensures var key := TradeKey(id, expected);
            var a := Amendment(s.trades[key], terms);
            && s.trades[key].version == expected
            && AmendTradeVersion(s.trades[key], terms) == Success(a)
            && Extends(s.trades, s.currentVersions, key, a)
            && TradeKey(id, expected + 1) !in s.trades && TradeKey(id, expected + 1) !in s.confirmations
  {
    hide Sound, Backed, Aggregates, Netted;
    var key := TradeKey(id, expected);
    assert StoredAt(key, s.trades[key]) && Linked(s.trades[key], s.currentVersions[id]);
    AmendmentExact(s.trades[key], terms);
    ExtendingKeepsStored(s.trades, s.currentVersions, key, Amendment(s.trades[key], terms));
    NotIndexedIfAbsent(s, TradeKey(id, expected + 1));
  }

  /** What remains of an amendment once the old version is released and the new one drawn up. */
  function Rebooking(s: State, key: TradeKey, a: TradeAmendment, released: LimitMap, reversalIds: ReversalPostingIds,
          ids: ConfirmationPostingIds):
    Outcome<State, StateError>
    requires key in s.confirmations
  {
    var limits :- AfterReserve(released, PathOf(a.replacement),
        a.replacement.terms.pay).MapFailure(e => LimitFailure(e));
    var reversal :- ReversalEntry(s.entries[s.confirmations[key]],
        reversalIds).MapFailure(e => PostingPolicyFailure(e));
    var replacement :- ConfirmationEntry(a.replacement, ids).MapFailure(e => PostingPolicyFailure(e));
    Rebook(s, key, a, limits, reversal, replacement)
  }

  /** Up to the rebooking an amendment can fail only on the command's own address, state or version number. */
  lemma AmendReduces(s: State, id: TradeId, expected: uint32, terms: FxTerms, reversalIds: ReversalPostingIds,
          ids: ConfirmationPostingIds)
    requires Inv(s)
    ensures var key := TradeKey(id, expected);
            var r := AfterAmend(s, id, expected, terms, reversalIds, ids);
            if Addresses(s, id, expected) && s.trades[key].state == Confirmed && expected < UINT32_MAX then
              && s.trades[key].version == expected && key in s.confirmations
              && r == Rebooking(s, key, Amendment(s.trades[key], terms), Released(s, s.trades[key]), reversalIds, ids)
            else
              r.Failure? && !DeadError(r.error)
  {
    hide Chain, Sound, Backed, Aggregates, Netted, ReversalEntry, ConfirmationEntry, AfterRelease, AfterReserve,
      Confirms, EntryIds, Rebook, RequireCurrent;
    RequireCurrentExact(s, id, expected);
    if Addresses(s, id, expected) && s.trades[TradeKey(id, expected)].state == Confirmed {
      LiveIsIndexed(BooksOf(s), TradeKey(id, expected));
      ReleaseNeverFails(s.trades, s.limits, TradeKey(id, expected));
      AmendmentExact(s.trades[TradeKey(id, expected)], terms);
    }
  }

  lemma RebookingIff(s: State, id: TradeId, expected: uint32, terms: FxTerms, reversalIds: ReversalPostingIds,
          ids: ConfirmationPostingIds)
    requires Inv(s) && Addresses(s, id, expected) && s.trades[TradeKey(id, expected)].state == Confirmed
        && expected < UINT32_MAX
    requires s.trades[TradeKey(id, expected)].version == expected && TradeKey(id, expected) in s.confirmations
    ensures var t := s.trades[TradeKey(id, expected)];
            var r := Rebooking(s, TradeKey(id, expected), Amendment(t, terms), Released(s, t), reversalIds, ids);
            && (r.Success? <==> CanAmend(s, id, expected, terms, reversalIds, ids))
            && (r.Failure? ==> !DeadError(r.error))
  {
    hide Chain, Sound, Backed, Aggregates, Netted, ReversalEntry, ConfirmationEntry, AfterReserve, Released,
      ReversesWith, IsConfirmation, Confirms,
      EntryIds, AfterAppend, Rebook, Rebooked, Headroom, Fresh, Distinct, Extends, Superseding;
    var key := TradeKey(id, expected);
    var t := s.trades[key];
    CanExtend(s, id, expected, terms);
    var a := Amendment(t, terms);
    HeadroomExact(Released(s, t), a.replacement);
    ReversalOutcome(s, key, reversalIds);
    EntryOutcome(s, a.replacement, ids);
    EightIds(reversalIds.List(), ids.List(), s.postingIds);
    var reserved := AfterReserve(Released(s, t), PathOf(a.replacement), a.replacement.terms.pay);
    var reversal := ReversalEntry(s.entries[s.confirmations[key]], reversalIds);
    var replacement := ConfirmationEntry(a.replacement, ids);
    if reserved.Success? && reversal.Success? && replacement.Success? {
      RebookExact(s, key, a, reserved.value, reversal.value, replacement.value);
      ReplacementFresh(s, reversalIds, ids, a.replacement);
    }
  }

  /** An amendment succeeds exactly when it can. */
  lemma AmendIff(s: State, id: TradeId, expected: uint32, terms: FxTerms, reversalIds: ReversalPostingIds,
          ids: ConfirmationPostingIds)
    requires Inv(s)
    ensures AfterAmend(s, id, expected, terms, reversalIds, ids).Success? <==>
        CanAmend(s, id, expected, terms, reversalIds, ids)
    ensures AfterAmend(s, id, expected, terms, reversalIds, ids).Failure? ==>
        !DeadError(AfterAmend(s, id, expected, terms, reversalIds, ids).error)
  {
    hide Inv, AfterAmend, Rebooking, Released, Headroom, Fresh, Distinct, DeadError;
    AmendReduces(s, id, expected, terms, reversalIds, ids);
    if Addresses(s, id, expected) && s.trades[TradeKey(id, expected)].state == Confirmed && expected < UINT32_MAX {
      RebookingIff(s, id, expected, terms, reversalIds, ids);
    } else {
      RequireCurrentExact(s, id, expected);
    }
  }

  lemma ReplacementFresh(s: State, reversalIds: ReversalPostingIds, ids: ConfirmationPostingIds, t: Trade)
    requires t.version > 0 && t.state == Confirmed && ConfirmationEntry(t, ids).Success?
    ensures Fresh(ids.List(), s.postingIds + Elements(reversalIds.List())) <==>
            EntryIds(ConfirmationEntry(t, ids).value) !! (s.postingIds + Elements(reversalIds.List()))
  {
    hide ConfirmationEntry, EntryIds;
    ConfirmationEntryExact(t, ids);
    EntryIdsAre(ConfirmationEntry(t, ids).value, ids.List(), s.postingIds + Elements(reversalIds.List()));
  }

  /** What an amendment did. */
  ghost predicate AmendEffect(s: State, key: TradeKey, terms: FxTerms, reversalIds: ReversalPostingIds,
          ids: ConfirmationPostingIds,
                              reversal: LedgerEntry, replacement: LedgerEntry, next: State)
  {
    && key in s.trades && s.trades[key].state == Confirmed && key in s.confirmations
    && s.trades[key].version < UINT32_MAX && s.version < UINT64_MAX
    && TradeKey(key.tradeId, s.trades[key].version + 1) !in s.trades
    && TradeKey(key.tradeId, s.trades[key].version + 1) !in s.confirmations
    && var a := Amendment(s.trades[key], terms);
       && Extends(s.trades, s.currentVersions, key, a)
       && AfterRelease(s.limits, PathOf(s.trades[key]), s.trades[key].terms.pay) == Success(Released(s, s.trades[key]))
       && AfterReserve(Released(s, s.trades[key]), PathOf(a.replacement), terms.pay) == Success(next.limits)
       && ReversesWith(reversal, s.entries[s.confirmations[key]], reversalIds)
       && IsConfirmation(replacement.postings, a.replacement, ids)
       && EntryIds(reversal) !! s.postingIds && EntryIds(replacement) !! (s.postingIds + EntryIds(reversal))
       && next == Rebooked(s, key, a, next.limits, reversal, replacement)
  }

  lemma AmendExact(s: State, id: TradeId, expected: uint32, terms: FxTerms, reversalIds: ReversalPostingIds,
          ids: ConfirmationPostingIds, next: State)
    returns (reversal: LedgerEntry, replacement: LedgerEntry)
    requires Inv(s) && AfterAmend(s, id, expected, terms, reversalIds, ids) == Success(next)
    ensures Addresses(s, id, expected)
    ensures AmendEffect(s, TradeKey(id, expected), terms, reversalIds, ids, reversal, replacement, next)
  {
    hide Sound, Backed, Aggregates, Netted, ReversalEntry, ConfirmationEntry, AfterRelease, AfterReserve,
      ReversesWith, IsConfirmation, Confirms,
      EntryIds, AfterAppend, Rebook, Extends, Superseding, Distinct;
    RequireCurrentExact(s, id, expected);
    var key := TradeKey(id, expected);
    var t := s.trades[key];
    LiveIsIndexed(BooksOf(s), key);
    assert StoredAt(key, t) && Linked(t, s.currentVersions[id]);
    AmendmentExact(t, terms);
    CanExtend(s, id, expected, terms);
    var a := Amendment(t, terms);
    ReversalOutcome(s, key, reversalIds);
    EntryOutcome(s, a.replacement, ids);
    reversal := ReversalEntry(s.entries[s.confirmations[key]], reversalIds).value;
    replacement := ConfirmationEntry(a.replacement, ids).value;
    RebookExact(s, key, a, AfterReserve(Released(s, t), PathOf(a.replacement), terms.pay).value, reversal, replacement);
  }

  lemma AmendStores(s: State, key: TradeKey, terms: FxTerms, reversalIds: ReversalPostingIds,
      ids: ConfirmationPostingIds,
                    reversal: LedgerEntry, replacement: LedgerEntry, next: State)
    requires AmendEffect(s, key, terms, reversalIds, ids, reversal, replacement, next)
    ensures key in s.trades && s.trades[key].version < UINT32_MAX && s.trades[key].state == Confirmed
    ensures next.trades == Superseding(s.trades, key, Amendment(s.trades[key], terms))
  {
    hide Superseding, EntryIds, ReversesWith, IsConfirmation, Extends, AfterRelease, AfterReserve;
  }

  lemma AmendKeepsSound(s: State, key: TradeKey, terms: FxTerms, reversalIds: ReversalPostingIds,
          ids: ConfirmationPostingIds,
                        reversal: LedgerEntry, replacement: LedgerEntry, next: State)
    requires Sound(BooksOf(s)) && AmendEffect(s, key, terms, reversalIds, ids, reversal, replacement, next)
    ensures Sound(BooksOf(next))
  {
    hide Sound, EntryIds, Mirrors, ConfirmationPostings, Extends;
    var a := Amendment(s.trades[key], terms);
    var newKey := TradeKey(key.tradeId, a.replacement.version);
    var middle := Books(s.trades[key := a.superseded], s.confirmations, s.entries + [reversal],
        s.postingIds + EntryIds(reversal));
    ReversingKeepsSound(BooksOf(s), key, a.superseded, reversal, middle);
    PostingKeepsSound(middle, newKey, a.replacement, replacement, BooksOf(next));
  }

  lemma AmendKeepsLimits(s: State, key: TradeKey, terms: FxTerms, reversalIds: ReversalPostingIds,
          ids: ConfirmationPostingIds,
                         reversal: LedgerEntry, replacement: LedgerEntry, next: State)
    requires Backed(s.trades, s.limits) && Aggregates(s.limits)
    requires AmendEffect(s, key, terms, reversalIds, ids, reversal, replacement, next)
    ensures Backed(next.trades, next.limits) && Aggregates(next.limits)
  {
    hide Backed, Aggregates, EntryIds, ReversesWith, IsConfirmation, Extends, AfterRelease, AfterReserve;
    var a := Amendment(s.trades[key], terms);
    var newKey := TradeKey(key.tradeId, a.replacement.version);
    ReleaseKeepsBacked(s.trades, s.limits, key, a.superseded);
    ReserveKeepsBacked(s.trades[key := a.superseded], Released(s, s.trades[key]), newKey, a.replacement, next.limits);
    ReleaseKeepsAggregates(s.limits, PathOf(s.trades[key]), s.trades[key].terms.pay);
    ReserveKeepsAggregates(Released(s, s.trades[key]), PathOf(a.replacement), terms.pay);
  }

  lemma AmendKeepsInv(s: State, id: TradeId, expected: uint32, terms: FxTerms, reversalIds: ReversalPostingIds,
          ids: ConfirmationPostingIds, next: State)
    requires Inv(s) && AfterAmend(s, id, expected, terms, reversalIds, ids) == Success(next)
    ensures Inv(next)
  {
    hide Sound, Backed, Aggregates, Netted, AfterAmend, AfterRelease, AfterReserve, EntryIds, ReversesWith,
      IsConfirmation, Extends;
    var reversal, replacement := AmendExact(s, id, expected, terms, reversalIds, ids, next);
    var key := TradeKey(id, expected);
    var a := Amendment(s.trades[key], terms);
    AmendingKeepsChain(s.trades, s.currentVersions, key, a);
    AmendKeepsSound(s, key, terms, reversalIds, ids, reversal, replacement, next);
    AmendKeepsLimits(s, key, terms, reversalIds, ids, reversal, replacement, next);
    StoreKeepsNetted(s.trades, key, a.superseded, s.settlements);
    StoreKeepsNetted(s.trades[key := a.superseded], TradeKey(id, a.replacement.version), a.replacement, s.settlements);
  }
}
