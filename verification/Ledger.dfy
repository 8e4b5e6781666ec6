/**
 Postings, balanced ledger entries (ledger.cpp) and running per-currency totals
 of debit minus credit (ledger_totals.cpp).
 */
module Ledger {
  import opened Wrappers
  import opened Values

  datatype PostingSide = Debit | Credit

  datatype PostingData = Posting(
    id: PostingId,
    tradeId: TradeId,
    tradeVersion: uint32,
    account: Bytes,
    side: PostingSide,
    amount: Money,
    reversalOf: Option<PostingId>)

  /** A posting that one of the two factories below has produced. */
  type Posting = p: PostingData | p.tradeVersion > 0 && p.account != [] && p.amount.minorUnits > 0
    witness PostingData.Posting([65], [65], 1, [65], Debit, Money(Usd, 1), None)

  datatype PostingError = NonPositiveAmount | InvalidTradeVersion | EmptyAccount | SelfReversal

  function CreatePosting(id: PostingId, tradeId: TradeId, tradeVersion: uint32, account: Bytes, side: PostingSide,
          amount: Money): Outcome<Posting, PostingError>
  {
    if tradeVersion == 0 then Failure(InvalidTradeVersion)
    else if account == [] then Failure(EmptyAccount)
    else if amount.minorUnits <= 0 then Failure(NonPositiveAmount)
    else Success(PostingData.Posting(id, tradeId, tradeVersion, account, side, amount, None))
  }

  function Opposite(side: PostingSide): PostingSide {
    if side == Debit then Credit else Debit
  }

  function ReversePosting(id: PostingId, original: Posting): Outcome<Posting, PostingError> {
    if id == original.id then Failure(SelfReversal)
    else Success(original.(id := id, side := Opposite(original.side), reversalOf := Some(original.id)))
  }

  function SignedAmount(p: Posting): int64 {
    if p.side == Debit then p.amount.minorUnits else -p.amount.minorUnits
  }

  // Totals

  datatype LedgerTotals = LedgerTotals(usd: int64, jpy: int64, kwd: int64)
  {
    function Total(c: Currency): int64 {
      match c case Usd => usd case Jpy => jpy case Kwd => kwd
    }

    function With(c: Currency, v: int64): LedgerTotals {
      match c case Usd => this.(usd := v) case Jpy => this.(jpy := v) case Kwd => this.(kwd := v)
    }
  }

  const ZERO_TOTALS := LedgerTotals(0, 0, 0)

  datatype LedgerTotalsError = Overflow

  function CheckedAdd(total: int64, delta: int64): (r: Option<int64>)
    ensures r.Some? <==> INT64_MIN <= total + delta <= INT64_MAX
    ensures r.Some? ==> r.value == total + delta
  {
    if (delta > 0 && total > INT64_MAX - delta) || (delta < 0 && total < INT64_MIN - delta) then None
    else Some(total + delta)
  }

  function WithPosting(totals: LedgerTotals, p: Posting): Outcome<LedgerTotals, LedgerTotalsError> {
    match CheckedAdd(totals.Total(p.amount.currency), SignedAmount(p))
    case None => Failure(Overflow)
    case Some(v) => Success(totals.With(p.amount.currency, v))
  }

  /** The totals after a sequence of postings, or overflow at the first posting that does not fit. */
  function AfterPostings(totals: LedgerTotals, postings: seq<Posting>): Outcome<LedgerTotals, LedgerTotalsError>
    decreases |postings|
  {
    if postings == [] then Success(totals) else
      var next :- WithPosting(totals, postings[0]);
      AfterPostings(next, postings[1..])
  }

  /** Debit minus credit in one currency, as an integer of any size. */
  function CurrencyNet(postings: seq<Posting>, c: Currency): int {
    if postings == [] then 0
    else (if postings[0].amount.currency == c then SignedAmount(postings[0]) else 0) + CurrencyNet(postings[1..], c)
  }

  /** Whenever no intermediate total overflows, the totals are exact. */
  lemma {:induction false} TotalsAreExact(totals: LedgerTotals, postings: seq<Posting>, c: Currency)
    requires AfterPostings(totals, postings).Success?
    ensures AfterPostings(totals, postings).value.Total(c) == totals.Total(c) + CurrencyNet(postings, c)
    decreases |postings|
  {
    if postings == [] {
    } else {
      TotalsAreExact(WithPosting(totals, postings[0]).value, postings[1..], c);
    }
  }

  // Entries

  datatype LedgerError = EmptyPostings | DuplicatePostingId | BalanceOverflow | Unbalanced

  /** One pass over the postings: unseen ids, then the running balance of the posting's currency. */
  function CheckPostings(postings: seq<Posting>, seen: set<PostingId>,
          balances: LedgerTotals): Outcome<LedgerTotals, LedgerError>
  {
    if postings == [] then Success(balances)
    else if postings[0].id in seen then Failure(DuplicatePostingId)
    else
      match CheckedAdd(balances.Total(postings[0].amount.currency), SignedAmount(postings[0]))
      case None => Failure(BalanceOverflow)
      case Some(v) => CheckPostings(postings[1..], seen + {postings[0].id},
          balances.With(postings[0].amount.currency, v))
  }

  function EntryDefect(postings: seq<Posting>): Option<LedgerError> {
    if postings == [] then Some(EmptyPostings)
    else
      match CheckPostings(postings, {}, ZERO_TOTALS)
      case Failure(e) => Some(e)
      case Success(balances) => if balances == ZERO_TOTALS then None else Some(Unbalanced)
  }

  datatype LedgerEntryData = LedgerEntry(postings: seq<Posting>)

  ghost function SampleEntry(): (e: LedgerEntryData)
    ensures EntryDefect(e.postings).None?
  {
    var debit: Posting := PostingData.Posting([65], [65], 1, [65], Debit, Money(Usd, 1), None);
    var credit: Posting := PostingData.Posting([66], [65], 1, [65], Credit, Money(Usd, 1), None);
    assert [debit, credit][1..] == [credit];
    assert [credit][1..] == [];
    assert CheckPostings([credit], {debit.id}, LedgerTotals(1, 0, 0)) == Success(ZERO_TOTALS) by {
      assert credit.id[0] != debit.id[0];
      assert LedgerTotals(1, 0, 0).With(Usd, 0) == ZERO_TOTALS;
    }
    assert CheckPostings([debit, credit], {}, ZERO_TOTALS) ==
        CheckPostings([credit], {} + {debit.id}, ZERO_TOTALS.With(Usd, 1));
    assert {} + {debit.id} == {debit.id};
    LedgerEntryData.LedgerEntry([debit, credit])
  }

  /** No entry exists unless every currency balances independently. */
  type LedgerEntry = e: LedgerEntryData | EntryDefect(e.postings).None?
    ghost witness SampleEntry()

  function AsEntry(postings: seq<Posting>): Outcome<LedgerEntry, LedgerError> {
    match EntryDefect(postings)
    case Some(e) => Failure(e)
    case None => Success(LedgerEntryData.LedgerEntry(postings))
  }

  method CreateEntry(postings: seq<Posting>) returns (r: Outcome<LedgerEntry, LedgerError>)
    ensures r == AsEntry(postings)
  {
    if postings == [] {
      return Failure(EmptyPostings);
    }
    var seen, balances := {}, ZERO_TOTALS;
    for i := 0 to |postings|
      invariant CheckPostings(postings, {}, ZERO_TOTALS) == CheckPostings(postings[i..], seen, balances)
    {
      var p := postings[i];
      if p.id in seen {
        return Failure(DuplicatePostingId);
      }
      seen := seen + {p.id};
      var c := p.amount.currency;
      if (p.side == Debit && balances.Total(c) > INT64_MAX - p.amount.minorUnits)
         || (p.side == Credit && balances.Total(c) < INT64_MIN + p.amount.minorUnits) {
        return Failure(BalanceOverflow);
      }
      balances := balances.With(c, balances.Total(c) + SignedAmount(p));
      assert postings[i..][1..] == postings[i + 1..];
    }
    if balances != ZERO_TOTALS {
      return Failure(Unbalanced);
    }
    return Success(LedgerEntryData.LedgerEntry(postings));
  }

  predicate DistinctIds(postings: seq<Posting>) {
    forall i, j :: 0 <= i < j < |postings| ==> postings[i].id != postings[j].id
  }

  lemma {:induction false} CheckedPostings(postings: seq<Posting>, seen: set<PostingId>, balances: LedgerTotals)
    requires CheckPostings(postings, seen, balances).Success?
    ensures AfterPostings(balances, postings) == Success(CheckPostings(postings, seen, balances).value)
    ensures DistinctIds(postings)
    ensures forall p :: p in postings ==> p.id !in seen
  {
    if postings == [] {
    } else {
      var p := postings[0];
      var next := balances.With(p.amount.currency, balances.Total(p.amount.currency) + SignedAmount(p));
      CheckedPostings(postings[1..], seen + {p.id}, next);
      assert forall i :: 1 <= i < |postings| ==> postings[i] == postings[1..][i - 1];
      assert forall q :: q in postings[1..] ==> q.id != p.id;
    }
  }

  /** Every entry balances per currency, has distinct posting ids, and leaves zero totals at zero without overflow. */
  lemma EntryIsNeutral(entry: LedgerEntry, c: Currency)
    ensures AfterPostings(ZERO_TOTALS, entry.postings) == Success(ZERO_TOTALS)
    ensures CurrencyNet(entry.postings, c) == 0
    ensures DistinctIds(entry.postings)
  {
    CheckedPostings(entry.postings, {}, ZERO_TOTALS);
    TotalsAreExact(ZERO_TOTALS, entry.postings, c);
  }

  method WithEntry(totals: LedgerTotals, entry: LedgerEntry) returns (r: Outcome<LedgerTotals, LedgerTotalsError>)
    ensures r == AfterPostings(totals, entry.postings)
  {
    var next := totals;
    for i := 0 to |entry.postings|
      invariant AfterPostings(totals, entry.postings) == AfterPostings(next, entry.postings[i..])
    {
      var updated := WithPosting(next, entry.postings[i]);
      if updated.Failure? {
        return Failure(updated.error);
      }
      assert entry.postings[i..][1..] == entry.postings[i + 1..];
      next := updated.value;
    }
    return Success(next);
  }

  function AfterEntries(totals: LedgerTotals, entries: seq<LedgerEntry>): Outcome<LedgerTotals, LedgerTotalsError>
    decreases |entries|
  {
    if entries == [] then Success(totals) else
      var next :- AfterPostings(totals, entries[0].postings);
      AfterEntries(next, entries[1..])
  }

  method RecomputeLedgerTotals(entries: seq<LedgerEntry>) returns (r: Outcome<LedgerTotals, LedgerTotalsError>)
    ensures r == AfterEntries(ZERO_TOTALS, entries)
  {
    var totals := ZERO_TOTALS;
    for i := 0 to |entries|
      invariant AfterEntries(ZERO_TOTALS, entries) == AfterEntries(totals, entries[i..])
    {
      var postings := entries[i].postings;
      ghost var before := totals;
      for j := 0 to |postings|
        invariant AfterPostings(before, postings) == AfterPostings(totals, postings[j..])
      {
        var updated := CheckedAdd(totals.Total(postings[j].amount.currency), SignedAmount(postings[j]));
        if updated.None? {
          return Failure(Overflow);
        }
        assert postings[j..][1..] == postings[j + 1..];
        totals := totals.With(postings[j].amount.currency, updated.value);
      }
      assert entries[i..][1..] == entries[i + 1..];
    }
    return Success(totals);
  }

  /** Recomputing any ledger from nothing succeeds and gives zero in every currency. */
  lemma {:induction false} LedgerIsNeutral(entries: seq<LedgerEntry>)
    ensures AfterEntries(ZERO_TOTALS, entries) == Success(ZERO_TOTALS)
  {
    if entries == [] {
    } else {
      EntryIsNeutral(entries[0], Usd);
      LedgerIsNeutral(entries[1..]);
    }
  }
}
