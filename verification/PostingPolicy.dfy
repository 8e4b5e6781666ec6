/** The account and debit/credit policy for confirmations and reversals (posting_policy.cpp). */
module PostingPolicy {
  import opened Wrappers
  import opened Ordering
  import opened Values
  import opened Trades
  import opened Ledger

  function Ascii(text: string): (bytes: Bytes)
    requires forall i :: 0 <= i < |text| ==> text[i] < 128 as char
    ensures |bytes| == |text|
  {
    seq(|text|, i requires 0 <= i < |text| => text[i] as byte)
  }

  const COUNTERPARTY_CONTROL_PREFIX: Bytes := Ascii("COUNTERPARTY_CONTROL:")
  const SETTLEMENT_PAYABLE_PREFIX: Bytes := Ascii("SETTLEMENT_PAYABLE:")
  const SETTLEMENT_RECEIVABLE_PREFIX: Bytes := Ascii("SETTLEMENT_RECEIVABLE:")

  /** The three prefixes, byte by byte. */
  lemma PrefixTexts()
    ensures COUNTERPARTY_CONTROL_PREFIX ==
        [67, 79, 85, 78, 84, 69, 82, 80, 65, 82, 84, 89, 95, 67, 79, 78, 84, 82, 79, 76, 58]
    ensures SETTLEMENT_PAYABLE_PREFIX ==
        [83, 69, 84, 84, 76, 69, 77, 69, 78, 84, 95, 80, 65, 89, 65, 66, 76, 69, 58]
    ensures SETTLEMENT_RECEIVABLE_PREFIX ==
        [83, 69, 84, 84, 76, 69, 77, 69, 78, 84, 95, 82, 69, 67, 69, 73, 86, 65, 66, 76, 69, 58]
  {
  }

  datatype ConfirmationPostingIds = ConfirmationPostingIds(
    payControlDebit: PostingId,
    payPayableCredit: PostingId,
    receiveReceivableDebit: PostingId,
    receiveControlCredit: PostingId)
  {
    function List(): seq<PostingId> {
      [payControlDebit, payPayableCredit, receiveReceivableDebit, receiveControlCredit]
    }
  }

  datatype ReversalPostingIds = ReversalPostingIds(
    payControlCredit: PostingId,
    payPayableDebit: PostingId,
    receiveReceivableCredit: PostingId,
    receiveControlDebit: PostingId)
  {
    function List(): seq<PostingId> {
      [payControlCredit, payPayableDebit, receiveReceivableCredit, receiveControlDebit]
    }
  }

  datatype PostingPolicyError =
    | TradeNotConfirmed
    | InvalidOriginalShape
    | PostingFailed(posting: PostingError)
    | EntryFailed(ledger: LedgerError)

  function ToEntry(postings: seq<Posting>): Outcome<LedgerEntry, PostingPolicyError> {
    AsEntry(postings).MapFailure(e => EntryFailed(e))
  }

  // Confirmation

  function ControlAccount(trade: Trade): Bytes {
    COUNTERPARTY_CONTROL_PREFIX + trade.counterpartyId
  }

  function PayableAccount(trade: Trade): Bytes {
    SETTLEMENT_PAYABLE_PREFIX + trade.bookId
  }

  function ReceivableAccount(trade: Trade): Bytes {
    SETTLEMENT_RECEIVABLE_PREFIX + trade.bookId
  }

  /** The four factory calls, in order; each cashflow gets a debit and a credit in its own currency. */
  function Attempts(trade: Trade, ids: ConfirmationPostingIds): seq<Outcome<Posting, PostingError>> {
    [CreatePosting(ids.payControlDebit, trade.id, trade.version, ControlAccount(trade), Debit, trade.terms.pay),
     CreatePosting(ids.payPayableCredit, trade.id, trade.version, PayableAccount(trade), Credit, trade.terms.pay),
     CreatePosting(ids.receiveReceivableDebit, trade.id, trade.version, ReceivableAccount(trade), Debit,
         trade.terms.receive),
     CreatePosting(ids.receiveControlCredit, trade.id, trade.version, ControlAccount(trade), Credit,
         trade.terms.receive)]
  }

  /** The values of a list of outcomes, or its first failure. */
  function Collect(attempts: seq<Outcome<Posting, PostingError>>): Outcome<seq<Posting>, PostingPolicyError> {
    if attempts == [] then Success([])
    else if attempts[0].Failure? then Failure(PostingFailed(attempts[0].error))
    else
      var rest :- Collect(attempts[1..]);
      Success([attempts[0].value] + rest)
  }

  function ConfirmationEntry(confirmed: Trade, ids: ConfirmationPostingIds): Outcome<LedgerEntry, PostingPolicyError> {
    if confirmed.state != Confirmed then Failure(TradeNotConfirmed)
    else
      var postings :- Collect(Attempts(confirmed, ids));
      ToEntry(postings)
  }

  method CollectEach(attempts: seq<Outcome<Posting,
          PostingError>>) returns (r: Outcome<seq<Posting>, PostingPolicyError>)
    ensures r == Collect(attempts)
  {
    var postings := [];
    assert forall rest: seq<Posting> :: [] + rest == rest;
    for i := 0 to |attempts|
      invariant Collect(attempts) == match Collect(attempts[i..])
                                     case Failure(e) => Failure(e)
                                     case Success(rest) => Success(postings + rest)
    {
      if attempts[i].Failure? {
        return Failure(PostingFailed(attempts[i].error));
      }
      assert attempts[i..][1..] == attempts[i + 1..];
      assert forall rest: seq<Posting> ::
               postings + ([attempts[i].value] + rest) == (postings + [attempts[i].value]) + rest;
      postings := postings + [attempts[i].value];
    }
    assert postings + [] == postings;
    return Success(postings);
  }

  method BuildConfirmationEntry(confirmed: Trade,
          ids: ConfirmationPostingIds) returns (r: Outcome<LedgerEntry, PostingPolicyError>)
    ensures r == ConfirmationEntry(confirmed, ids)
  {
    if confirmed.state != Confirmed {
      return Failure(TradeNotConfirmed);
    }
    var postings := CollectEach(Attempts(confirmed, ids));
    if postings.Failure? {
      return Failure(postings.error);
    }
    var entry := CreateEntry(postings.value);
    return entry.MapFailure(e => EntryFailed(e));
  }

  // Reversal

  predicate HasPrefix(text: Bytes, prefix: Bytes) {
    prefix <= text
  }

  /** Four postings that a confirmation could have made. */
  predicate IsConfirmationShape(postings: seq<Posting>) {
    && |postings| == 4
    && postings[0].side == Debit && postings[1].side == Credit && postings[2].side == Debit
        && postings[3].side == Credit
    && HasPrefix(postings[0].account, COUNTERPARTY_CONTROL_PREFIX)
    && HasPrefix(postings[1].account, SETTLEMENT_PAYABLE_PREFIX)
    && HasPrefix(postings[2].account, SETTLEMENT_RECEIVABLE_PREFIX)
    && postings[3].account == postings[0].account
    && postings[0].account[|COUNTERPARTY_CONTROL_PREFIX|..] != []
    && postings[1].account[|SETTLEMENT_PAYABLE_PREFIX|..] != []
    && postings[1].account[|SETTLEMENT_PAYABLE_PREFIX|..] == postings[2].account[|SETTLEMENT_RECEIVABLE_PREFIX|..]
    && postings[0].amount == postings[1].amount && postings[2].amount == postings[3].amount
    && postings[0].amount.currency != postings[2].amount.currency
    && forall p :: p in postings ==>
         p.tradeId == postings[0].tradeId && p.tradeVersion == postings[0].tradeVersion && p.reversalOf.None?
  }

  function Reversals(original: seq<Posting>, ids: seq<PostingId>): seq<Outcome<Posting, PostingError>>
    requires |original| == |ids|
  {
    seq(|ids|, i requires 0 <= i < |ids| => ReversePosting(ids[i], original[i]))
  }

  function ReversalEntry(original: LedgerEntry, ids: ReversalPostingIds): Outcome<LedgerEntry, PostingPolicyError> {
    if !IsConfirmationShape(original.postings) then Failure(InvalidOriginalShape)
    else
      var postings :- Collect(Reversals(original.postings, ids.List()));
      ToEntry(postings)
  }

  method BuildReversalEntry(original: LedgerEntry,
          ids: ReversalPostingIds) returns (r: Outcome<LedgerEntry, PostingPolicyError>)
    ensures r == ReversalEntry(original, ids)
  {
    if !IsConfirmationShape(original.postings) {
      return Failure(InvalidOriginalShape);
    }
    var reversals := CollectEach(Reversals(original.postings, ids.List()));
    if reversals.Failure? {
      return Failure(reversals.error);
    }
    var entry := CreateEntry(reversals.value);
    return entry.MapFailure(e => EntryFailed(e));
  }

  // What the two constructions produce

  /** Two offsetting pairs form an entry exactly when the four ids are distinct. */
  lemma OffsettingPairs(p: seq<Posting>)
    requires |p| == 4
    requires p[0].amount == p[1].amount && p[0].side != p[1].side
    requires p[2].amount == p[3].amount && p[2].side != p[3].side
    ensures EntryDefect(p) == if DistinctIds(p) then None else Some(DuplicatePostingId)
  {
    var b1 := ZERO_TOTALS.With(p[0].amount.currency, SignedAmount(p[0]));
    var b3 := ZERO_TOTALS.With(p[2].amount.currency, SignedAmount(p[2]));
    assert b1.With(p[1].amount.currency, 0) == ZERO_TOTALS && b3.With(p[3].amount.currency, 0) == ZERO_TOTALS;
    var s1 := {} + {p[0].id};
    var s2 := s1 + {p[1].id};
    var s3 := s2 + {p[2].id};
    assert p[1..][1..] == p[2..] && p[2..][1..] == p[3..] && p[3..][1..] == [];
    assert CheckPostings(p, {}, ZERO_TOTALS) == CheckPostings(p[1..], s1, b1);
    assert CheckPostings(p[1..], s1, b1) == if p[1].id in s1 then Failure(DuplicatePostingId)
        else CheckPostings(p[2..], s2, ZERO_TOTALS);
    assert CheckPostings(p[2..], s2, ZERO_TOTALS) == if p[2].id in s2 then Failure(DuplicatePostingId)
        else CheckPostings(p[3..], s3, b3);
    assert CheckPostings(p[3..], s3, b3) == if p[3].id in s3 then Failure(DuplicatePostingId) else Success(ZERO_TOTALS);
  }

  /** The postings of a confirmation; the trade's state plays no part in them. */
  function ConfirmationPostings(trade: Trade, ids: ConfirmationPostingIds): (r: seq<Posting>)
    requires trade.version > 0
    ensures |r| == 4 && forall i :: 0 <= i < 4 ==> r[i].id == ids.List()[i] && r[i].reversalOf.None?
  {
    [PostingData.Posting(ids.payControlDebit, trade.id, trade.version, ControlAccount(trade), Debit, trade.terms.pay,
        None),
     PostingData.Posting(ids.payPayableCredit, trade.id, trade.version, PayableAccount(trade), Credit, trade.terms.pay,
         None),
     PostingData.Posting(ids.receiveReceivableDebit, trade.id, trade.version, ReceivableAccount(trade), Debit,
         trade.terms.receive, None),
     PostingData.Posting(ids.receiveControlCredit, trade.id, trade.version, ControlAccount(trade), Credit,
         trade.terms.receive, None)]
  }

  lemma {:induction false} CollectAll(attempts: seq<Outcome<Posting, PostingError>>, postings: seq<Posting>)
    requires |attempts| == |postings| && forall i :: 0 <= i < |attempts| ==> attempts[i] == Success(postings[i])
    ensures Collect(attempts) == Success(postings)
  {
    if attempts == [] {
    } else {
      CollectAll(attempts[1..], postings[1..]);
      assert postings == [postings[0]] + postings[1..];
    }
  }

  lemma {:induction false} CollectFails(attempts: seq<Outcome<Posting, PostingError>>, i: nat, e: PostingError)
    requires i < |attempts| && attempts[i] == Failure(e)
    requires forall j :: 0 <= j < |attempts| && attempts[j].Failure? ==> attempts[j].error == e
    ensures Collect(attempts) == Failure(PostingFailed(e))
  {
    if attempts[0].Success? { CollectFails(attempts[1..], i - 1, e); }
  }

  /** Confirming posts exactly the policy's four postings, and fails only on a repeated id. */
  lemma ConfirmationEntryExact(trade: Trade, ids: ConfirmationPostingIds)
    requires trade.version > 0 && trade.state == Confirmed
    ensures Distinct(ids.List()) ==>
              ConfirmationEntry(trade, ids).Success?
                  && ConfirmationEntry(trade, ids).value.postings == ConfirmationPostings(trade, ids)
    ensures !Distinct(ids.List()) ==> ConfirmationEntry(trade, ids) == Failure(EntryFailed(DuplicatePostingId))
  {
    var postings := ConfirmationPostings(trade, ids);
    CollectAll(Attempts(trade, ids), postings);
    OffsettingPairs(postings);
    assert DistinctIds(postings) <==> Distinct(ids.List());
  }

  lemma ConfirmationHasShape(trade: Trade, ids: ConfirmationPostingIds)
    requires trade.version > 0
    ensures IsConfirmationShape(ConfirmationPostings(trade, ids))
  {
    var p := ConfirmationPostings(trade, ids);
    assert p[0].account[|COUNTERPARTY_CONTROL_PREFIX|..] == trade.counterpartyId;
    assert p[1].account[|SETTLEMENT_PAYABLE_PREFIX|..] == trade.bookId;
    assert p[2].account[|SETTLEMENT_RECEIVABLE_PREFIX|..] == trade.bookId;
  }

  /** The postings confirm t and carry the four given ids. */
  ghost predicate IsConfirmation(postings: seq<Posting>, t: Trade, ids: ConfirmationPostingIds) {
    t.version > 0 && postings == ConfirmationPostings(t, ids)
  }

  /** The counterparty and the book that the account names of a confirmation carry. */
  predicate NamesParties(postings: seq<Posting>)
    requires IsConfirmationShape(postings)
  {
    && ValidIdText(postings[0].account[|COUNTERPARTY_CONTROL_PREFIX|..])
    && ValidIdText(postings[1].account[|SETTLEMENT_PAYABLE_PREFIX|..])
  }

  /** The shape test recognises exactly the confirmations, up to account names that no identifier could give. */
  lemma ShapeIsConfirmationIff(postings: seq<Posting>)
    ensures (exists t, ids :: IsConfirmation(postings, t, ids)) <==>
        IsConfirmationShape(postings) && NamesParties(postings)
  {
    if t, ids :| IsConfirmation(postings, t, ids) {
      ConfirmationHasShape(t, ids);
      assert ControlAccount(t)[|COUNTERPARTY_CONTROL_PREFIX|..] == t.counterpartyId;
      assert PayableAccount(t)[|SETTLEMENT_PAYABLE_PREFIX|..] == t.bookId;
    }
    if IsConfirmationShape(postings) && NamesParties(postings) {
      var p := postings;
      var counterparty, book := p[0].account[|COUNTERPARTY_CONTROL_PREFIX|..],
          p[1].account[|SETTLEMENT_PAYABLE_PREFIX|..];
      var t := Trade(p[0].tradeId, p[0].tradeVersion, book, counterparty, counterparty,
                     FxTermsData.FxTerms(FxSpot, 0, 0, p[0].amount, p[2].amount), Confirmed, None, None);
      var ids := ConfirmationPostingIds(p[0].id, p[1].id, p[2].id, p[3].id);
      AccountsRejoin(p, t);
      assert p[1] in p && p[2] in p && p[3] in p && p[0] in p;
      assert IsConfirmation(p, t, ids) by { assert p == [p[0], p[1], p[2], p[3]]; }
    }
  }

  lemma AccountsRejoin(p: seq<Posting>, t: Trade)
    requires IsConfirmationShape(p)
    requires t.counterpartyId == p[0].account[|COUNTERPARTY_CONTROL_PREFIX|..]
        && t.bookId == p[1].account[|SETTLEMENT_PAYABLE_PREFIX|..]
    ensures p[0].account == ControlAccount(t) && p[1].account == PayableAccount(t)
        && p[2].account == ReceivableAccount(t)
  {
    assert p[0].account == p[0].account[..|COUNTERPARTY_CONTROL_PREFIX|]
        + p[0].account[|COUNTERPARTY_CONTROL_PREFIX|..];
    assert p[1].account == p[1].account[..|SETTLEMENT_PAYABLE_PREFIX|] + p[1].account[|SETTLEMENT_PAYABLE_PREFIX|..];
    assert p[2].account == p[2].account[..|SETTLEMENT_RECEIVABLE_PREFIX|]
        + p[2].account[|SETTLEMENT_RECEIVABLE_PREFIX|..];
  }

  /** Posting by posting: new id, same trade, account and amount, opposite side, link to the original. */
  predicate Mirrors(reversal: seq<Posting>, original: seq<Posting>) {
    && |reversal| == |original|
    && forall i :: 0 <= i < |original| ==>
         reversal[i] == original[i].(id := reversal[i].id, side := Opposite(original[i].side),
             reversalOf := Some(original[i].id))
  }

  predicate SelfReversing(ids: seq<PostingId>, original: seq<Posting>)
    requires |ids| == |original|
  {
    exists i :: 0 <= i < |ids| && ids[i] == original[i].id
  }

  lemma ReversalsAgainstSelf(original: LedgerEntry, ids: ReversalPostingIds)
    requires |original.postings| == 4 && SelfReversing(ids.List(), original.postings)
    ensures Collect(Reversals(original.postings, ids.List())) == Failure(PostingFailed(SelfReversal))
  {
    var i :| 0 <= i < 4 && ids.List()[i] == original.postings[i].id;
    CollectFails(Reversals(original.postings, ids.List()), i, SelfReversal);
  }

  lemma ReversalsMirror(original: LedgerEntry, ids: ReversalPostingIds) returns (mirrored: seq<Posting>)
    requires |original.postings| == 4 && !SelfReversing(ids.List(), original.postings)
    ensures Collect(Reversals(original.postings, ids.List())) == Success(mirrored)
    ensures Mirrors(mirrored, original.postings)
    ensures forall i :: 0 <= i < 4 ==> mirrored[i].id == ids.List()[i]
  {
    var attempts := Reversals(original.postings, ids.List());
    mirrored := seq(4, i requires 0 <= i < 4 => attempts[i].value);
    CollectAll(attempts, mirrored);
  }

  /** Reversing a confirmation-shaped entry mirrors it, and fails only on an id reused in place or repeated. */
  lemma ReversalEntryExact(original: LedgerEntry, ids: ReversalPostingIds)
    requires IsConfirmationShape(original.postings)
    ensures SelfReversing(ids.List(), original.postings) ==>
        ReversalEntry(original, ids) == Failure(PostingFailed(SelfReversal))
    ensures !SelfReversing(ids.List(), original.postings) && !Distinct(ids.List()) ==>
              ReversalEntry(original, ids) == Failure(EntryFailed(DuplicatePostingId))
    ensures !SelfReversing(ids.List(), original.postings) && Distinct(ids.List()) ==>
              ReversalEntry(original, ids).Success?
                  && Mirrors(ReversalEntry(original, ids).value.postings, original.postings)
              && forall i :: 0 <= i < 4 ==> ReversalEntry(original, ids).value.postings[i].id == ids.List()[i]
  {
    if SelfReversing(ids.List(), original.postings) {
      ReversalsAgainstSelf(original, ids);
    } else {
      var mirrored := ReversalsMirror(original, ids);
      MirrorStaysPaired(mirrored, original.postings);
      OffsettingPairs(mirrored);
      assert DistinctIds(mirrored) <==> Distinct(ids.List());
    }
  }

  lemma MirrorStaysPaired(mirrored: seq<Posting>, original: seq<Posting>)
    requires Mirrors(mirrored, original) && IsConfirmationShape(original)
    ensures mirrored[0].amount == mirrored[1].amount && mirrored[0].side != mirrored[1].side
    ensures mirrored[2].amount == mirrored[3].amount && mirrored[2].side != mirrored[3].side
  {
    assert forall i :: 0 <= i < 4 ==>
             mirrored[i].amount == original[i].amount && mirrored[i].side == Opposite(original[i].side);
  }

  // Signed account balances

  function AccountNet(postings: seq<Posting>, account: Bytes, c: Currency): int {
    if postings == [] then 0
    else (if postings[0].account == account && postings[0].amount.currency == c then SignedAmount(postings[0]) else 0)
         + AccountNet(postings[1..], account, c)
  }

  lemma {:induction false} MirrorNegates(reversal: seq<Posting>, original: seq<Posting>, account: Bytes, c: Currency)
    requires Mirrors(reversal, original)
    ensures AccountNet(reversal, account, c) == -AccountNet(original, account, c)
  {
    if original == [] {
    } else {
      MirrorNegates(reversal[1..], original[1..], account, c);
    }
  }
}
