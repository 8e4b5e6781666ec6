/**
 Ledger meaning: every entry is a confirmation of one trade version or the exact
 mirror of an earlier one, nothing is reversed twice, and account balances are
 those of the live (confirmed or settled) versions alone.
 */
module Books {
  import opened Wrappers
  import opened Values
  import opened Trades
  import opened Ledger
  import opened PostingPolicy
  import opened StateMachine
  import opened Sums

  /** The part of the state that the ledger invariants speak about. */
  datatype Books = Books(trades: TradeMap, confirmations: map<TradeKey, nat>, entries: seq<LedgerEntry>,
      postingIds: set<PostingId>)

  function BooksOf(s: State): Books {
    Books(s.trades, s.confirmations, s.entries, s.postingIds)
  }

  predicate Live(t: Trade) {
    t.state == Confirmed || t.state == Settled
  }

  function EntryIds(e: LedgerEntry): set<PostingId> {
    IdsOf(e.postings)
  }

  /** The postings that an entry reverses. */
  function Targets(e: LedgerEntry): set<PostingId> {
    set p | p in e.postings && p.reversalOf.Some? :: p.reversalOf.value
  }

  function AllIds(entries: seq<LedgerEntry>): set<PostingId> {
    if entries == [] then {} else AllIds(entries[..|entries| - 1]) + EntryIds(entries[|entries| - 1])
  }

  /** e posts the confirmation of t, with some four ids. */
  ghost predicate Confirms(e: LedgerEntry, t: Trade) {
    exists ids :: IsConfirmation(e.postings, t, ids)
  }

  // Invariants

  /** Every indexed version points at an entry that posts its own confirmation. */
  ghost predicate PointsHome(trades: TradeMap, confirmations: map<TradeKey, nat>, entries: seq<LedgerEntry>) {
    forall k :: k in confirmations ==>
      k in trades && trades[k].state != Captured && confirmations[k] < |entries|
          && Confirms(entries[confirmations[k]], trades[k])
  }

  ghost predicate Injective(confirmations: map<TradeKey, nat>) {
    forall j, k :: j in confirmations && k in confirmations && confirmations[j] == confirmations[k] ==> j == k
  }

  /** Confirmed, superseded and settled versions are indexed, and so is a cancelled replacement. */
  predicate MustBeIndexed(k: TradeKey, t: Trade) {
    Live(t) || t.state == Superseded || (t.state == Cancelled && k.version > 1)
  }

  ghost predicate Covers(trades: TradeMap, confirmations: map<TradeKey, nat>) {
    forall k :: k in trades && MustBeIndexed(k, trades[k]) ==> k in confirmations
  }

  ghost predicate Indexed(b: Books) {
    PointsHome(b.trades, b.confirmations, b.entries) && Injective(b.confirmations) && Covers(b.trades, b.confirmations)
  }

  ghost predicate UniqueIds(b: Books) {
    && b.postingIds == AllIds(b.entries)
    && forall i, j :: 0 <= i < j < |b.entries| ==> EntryIds(b.entries[i]) !! EntryIds(b.entries[j])
  }

  /** e mirrors an entry that is not itself a reversal. */
  ghost predicate ReversalOf(e: LedgerEntry, original: LedgerEntry) {
    Targets(original) == {} && Mirrors(e.postings, original.postings)
  }

  /** Each entry reverses nothing, or mirrors one earlier entry; no posting is reversed twice. */
  ghost predicate ReversesOnce(b: Books) {
    && (forall j :: 0 <= j < |b.entries| ==>
          Targets(b.entries[j]) == {} || exists i :: 0 <= i < j && ReversalOf(b.entries[j], b.entries[i]))
    && (forall i, j :: 0 <= i < j < |b.entries| ==> Targets(b.entries[i]) !! Targets(b.entries[j]))
  }

  /** The confirmation of a live version has not been reversed. */
  ghost predicate LiveStands(b: Books)
    requires Indexed(b)
  {
    forall k, j :: k in b.confirmations && Live(b.trades[k]) && 0 <= j < |b.entries| ==>
      Targets(b.entries[j]) !! EntryIds(b.entries[b.confirmations[k]])
  }

  ghost predicate IndexedAt(confirmations: map<TradeKey, nat>, i: nat) {
    exists k :: k in confirmations && confirmations[k] == i
  }

  /** An entry that reverses nothing is some version's indexed confirmation. */
  ghost predicate Accounted(confirmations: map<TradeKey, nat>, entries: seq<LedgerEntry>) {
    forall i :: 0 <= i < |entries| && Targets(entries[i]) == {} ==> IndexedAt(confirmations, i)
  }

  // Account balances

  /** The signed effect of a trade's confirmation on one account and currency. */
  function TradeNet(t: Trade, account: Bytes, c: Currency): int {
    var pay := if t.terms.pay.currency == c then t.terms.pay.minorUnits else 0;
    var receive := if t.terms.receive.currency == c then t.terms.receive.minorUnits else 0;
    (if account == ControlAccount(t) then pay - receive else 0)
    - (if account == PayableAccount(t) then pay else 0)
    + (if account == ReceivableAccount(t) then receive else 0)
  }

  ghost function LiveNet(account: Bytes, c: Currency): (TradeKey, Trade) -> int {
    (k: TradeKey, t: Trade) => if Live(t) then TradeNet(t, account, c) else 0
  }

  function LedgerNet(entries: seq<LedgerEntry>, account: Bytes, c: Currency): int {
    if entries == [] then 0
    else LedgerNet(entries[..|entries| - 1], account, c) + AccountNet(entries[|entries| - 1].postings, account, c)
  }

  ghost predicate Meaning(b: Books) {
    forall account, c :: LedgerNet(b.entries, account, c) == SumOver(b.trades, LiveNet(account, c))
  }

  ghost predicate Sound(b: Books) {
    Indexed(b) && UniqueIds(b) && ReversesOnce(b) && LiveStands(b) && Accounted(b.confirmations, b.entries)
        && Meaning(b)
  }

  lemma EmptyBooksAreSound()
    ensures Sound(Books(map[], map[], [], {}))
  {
  }

  // Facts about single entries

  lemma ConfirmationFacts(e: LedgerEntry, t: Trade, account: Bytes, c: Currency)
    requires Confirms(e, t)
    ensures Targets(e) == {}
    ensures AccountNet(e.postings, account, c) == TradeNet(t, account, c)
    ensures IsConfirmationShape(e.postings)
  {
    var ids :| IsConfirmation(e.postings, t, ids);
    var p := e.postings;
    ConfirmationHasShape(t, ids);
    assert p == [p[0], p[1], p[2], p[3]];
    assert p[1..][1..] == p[2..] && p[2..][1..] == p[3..] && p[3..][1..] == [];
    assert AccountNet(p[3..], account, c) == if p[3].account == account && p[3].amount.currency == c
        then SignedAmount(p[3]) else 0;
    assert AccountNet(p[2..], account, c) ==
        (if p[2].account == account && p[2].amount.currency == c then SignedAmount(p[2]) else 0)
            + AccountNet(p[3..], account, c);
    assert AccountNet(p[1..], account, c) ==
        (if p[1].account == account && p[1].amount.currency == c then SignedAmount(p[1]) else 0)
            + AccountNet(p[2..], account, c);
  }

  lemma MirrorFacts(e: LedgerEntry, original: LedgerEntry)
    requires Mirrors(e.postings, original.postings)
    ensures Targets(e) == EntryIds(original)
  {
    forall p | p in original.postings ensures p.id in Targets(e) {
      var i :| 0 <= i < |original.postings| && original.postings[i] == p;
      assert e.postings[i] in e.postings && e.postings[i].reversalOf == Some(p.id);
    }
    forall q | q in e.postings ensures q.reversalOf.Some? && q.reversalOf.value in EntryIds(original) {
      var i :| 0 <= i < |e.postings| && e.postings[i] == q;
      assert original.postings[i] in original.postings;
    }
  }

  lemma {:induction false} KnownIds(entries: seq<LedgerEntry>, i: nat)
    requires i < |entries|
    ensures EntryIds(entries[i]) <= AllIds(entries)
  {
    if i < |entries| - 1 { KnownIds(entries[..|entries| - 1], i); }
  }

  /** Every mirrored posting already existed. */
  lemma {:induction false} TargetsAreKnown(b: Books, j: nat)
    requires ReversesOnce(b) && j < |b.entries|
    ensures Targets(b.entries[j]) <= AllIds(b.entries)
  {
    if Targets(b.entries[j]) != {} {
      var i :| 0 <= i < j && ReversalOf(b.entries[j], b.entries[i]);
      MirrorFacts(b.entries[j], b.entries[i]);
      KnownIds(b.entries, i);
    }
  }

  /** The entry that confirmed a live version, found through the index. */
  lemma LiveIsIndexed(b: Books, k: TradeKey)
    requires Sound(b) && k in b.trades && Live(b.trades[k])
    ensures k in b.confirmations && b.confirmations[k] < |b.entries|
        && Confirms(b.entries[b.confirmations[k]], b.trades[k])
  {
    hide UniqueIds, ReversesOnce, LiveStands, Accounted, Meaning, Confirms;
  }

  // Appending one entry with fresh ids

  lemma AppendKeepsUnique(b: Books, e: LedgerEntry, next: Books)
    requires UniqueIds(b)
    requires EntryIds(e) !! b.postingIds
    requires next.entries == b.entries + [e] && next.postingIds == b.postingIds + EntryIds(e)
    ensures UniqueIds(next)
  {
    assert next.entries[..|b.entries|] == b.entries;
    forall i | 0 <= i < |b.entries| ensures EntryIds(b.entries[i]) !! EntryIds(e) { KnownIds(b.entries, i); }
  }

  lemma AppendKeepsOnce(b: Books, e: LedgerEntry, next: Books)
    requires ReversesOnce(b) && next.entries == b.entries + [e]
    requires Targets(e) == {} || exists i :: 0 <= i < |b.entries| && ReversalOf(e, b.entries[i])
    requires forall j :: 0 <= j < |b.entries| ==> Targets(b.entries[j]) !! Targets(e)
    ensures ReversesOnce(next)
  {
    hide Targets, ReversalOf;
    var n := |b.entries|;
    forall j | 0 <= j < n + 1 && Targets(next.entries[j]) != {}
      ensures exists i :: 0 <= i < j && ReversalOf(next.entries[j], next.entries[i])
    {
      if j < n {
        assert next.entries[j] == b.entries[j];
        var i :| 0 <= i < j && ReversalOf(b.entries[j], b.entries[i]);
        assert next.entries[i] == b.entries[i];
      } else {
        var i :| 0 <= i < n && ReversalOf(e, b.entries[i]);
        assert next.entries[i] == b.entries[i];
      }
    }
  }

  lemma AppendNet(entries: seq<LedgerEntry>, e: LedgerEntry, account: Bytes, c: Currency)
    ensures LedgerNet(entries + [e], account, c) == LedgerNet(entries, account, c) + AccountNet(e.postings, account, c)
  {
    assert (entries + [e])[..|entries|] == entries;
  }

  // The three edits that the operations are made of

  /** Posting: version k becomes confirmed and its confirmation is appended and indexed. */
  ghost predicate Posts(b: Books, k: TradeKey, t: Trade, e: LedgerEntry, next: Books) {
    && k !in b.confirmations && (k in b.trades ==> !Live(b.trades[k])) && t.state == Confirmed && Confirms(e, t)
    && EntryIds(e) !! b.postingIds
    && next == Books(b.trades[k := t], b.confirmations[k := |b.entries|], b.entries + [e], b.postingIds + EntryIds(e))
  }

  lemma AppendKeepsPoints(b: Books, e: LedgerEntry)
    requires PointsHome(b.trades, b.confirmations, b.entries)
    ensures PointsHome(b.trades, b.confirmations, b.entries + [e])
  {
    hide Confirms;
    assert forall i :: 0 <= i < |b.entries| ==> (b.entries + [e])[i] == b.entries[i];
  }

  lemma PostingKeepsIndexed(b: Books, k: TradeKey, t: Trade, e: LedgerEntry, next: Books)
    requires Indexed(b) && Posts(b, k, t, e, next)
    ensures Indexed(next)
  {
    hide Confirms, EntryIds, Covers, PointsHome, Injective;
    IndexKeepsPoints(b, k, t, e);
    IndexKeepsInjective(b, k);
    IndexKeepsCovers(b.trades, b.confirmations, k, t, |b.entries|);
  }

  /** A version not indexed before is indexed at the new end of the ledger. */
  lemma IndexKeepsPoints(b: Books, k: TradeKey, t: Trade, e: LedgerEntry)
    requires PointsHome(b.trades, b.confirmations, b.entries) && k !in b.confirmations
    requires t.state != Captured && Confirms(e, t)
    ensures PointsHome(b.trades[k := t], b.confirmations[k := |b.entries|], b.entries + [e])
  {
    hide Confirms;
    AppendKeepsPoints(b, e);
    assert (b.entries + [e])[|b.entries|] == e;
  }

  lemma IndexKeepsInjective(b: Books, k: TradeKey)
    requires PointsHome(b.trades, b.confirmations, b.entries) && Injective(b.confirmations)
    ensures Injective(b.confirmations[k := |b.entries|])
  {
    hide Confirms;
  }

  lemma IndexKeepsCovers(trades: TradeMap, confirmations: map<TradeKey, nat>, k: TradeKey, t: Trade, n: nat)
    requires Covers(trades, confirmations)
    ensures Covers(trades[k := t], confirmations[k := n])
  {
  }

  lemma PostingKeepsOnce(b: Books, k: TradeKey, t: Trade, e: LedgerEntry, next: Books)
    requires ReversesOnce(b) && Posts(b, k, t, e, next)
    ensures ReversesOnce(next)
  {
    ConfirmationFacts(e, t, [], Usd);
    AppendKeepsOnce(b, e, next);
  }

  lemma PostingKeepsLive(b: Books, k: TradeKey, t: Trade, e: LedgerEntry, next: Books)
    requires Indexed(b) && b.postingIds == AllIds(b.entries) && ReversesOnce(b) && LiveStands(b)
    requires Posts(b, k, t, e, next) && Indexed(next)
    ensures LiveStands(next)
  {
    hide Confirms, EntryIds, Targets;
    ConfirmationFacts(e, t, [], Usd);
    forall j | 0 <= j < |b.entries| ensures Targets(b.entries[j]) !! EntryIds(e) { TargetsAreKnown(b, j); }
    forall l, j | l in next.confirmations && Live(next.trades[l]) && 0 <= j < |next.entries|
      ensures Targets(next.entries[j]) !! EntryIds(next.entries[next.confirmations[l]])
    {
      if j < |b.entries| { assert next.entries[j] == b.entries[j]; }
    }
  }

  lemma PostingKeepsAccounted(b: Books, k: TradeKey, t: Trade, e: LedgerEntry, next: Books)
    requires Accounted(b.confirmations, b.entries) && Posts(b, k, t, e, next)
    ensures Accounted(next.confirmations, next.entries)
  {
    hide Confirms, EntryIds, Targets;
    forall i | 0 <= i < |next.entries| && Targets(next.entries[i]) == {} ensures IndexedAt(next.confirmations, i) {
      if i == |b.entries| {
        assert next.confirmations[k] == i;
      } else {
        assert next.entries[i] == b.entries[i];
        var j :| j in b.confirmations && b.confirmations[j] == i;
        assert next.confirmations[j] == i;
      }
    }
  }

  lemma PostingKeepsMeaning(b: Books, k: TradeKey, t: Trade, e: LedgerEntry, next: Books)
    requires Indexed(b) && Meaning(b) && Posts(b, k, t, e, next)
    ensures Meaning(next)
  {
    hide Confirms, EntryIds, Targets;
    forall account, c ensures LedgerNet(next.entries, account, c) == SumOver(next.trades, LiveNet(account, c)) {
      AppendNet(b.entries, e, account, c);
      ConfirmationFacts(e, t, account, c);
      SumStore(b.trades, LiveNet(account, c), k, t);
    }
  }

  lemma PostingKeepsSound(b: Books, k: TradeKey, t: Trade, e: LedgerEntry, next: Books)
    requires Sound(b) && Posts(b, k, t, e, next)
    ensures Sound(next)
  {
    PostingKeepsIndexed(b, k, t, e, next);
    AppendKeepsUnique(b, e, next);
    PostingKeepsOnce(b, k, t, e, next);
    PostingKeepsLive(b, k, t, e, next);
    PostingKeepsAccounted(b, k, t, e, next);
    PostingKeepsMeaning(b, k, t, e, next);
  }

  /** Same contract: everything a confirmation posts, and the key. */
  predicate SameContract(a: Trade, t: Trade) {
    t == a.(state := t.state, supersededBy := t.supersededBy)
  }

  lemma SameContractConfirms(e: LedgerEntry, a: Trade, t: Trade)
    requires Confirms(e, a) && SameContract(a, t)
    ensures Confirms(e, t)
  {
    var ids :| IsConfirmation(e.postings, a, ids);
    assert IsConfirmation(e.postings, t, ids);
  }

  /** Reversing: a live version dies and the mirror of its confirmation is appended. */
  ghost predicate Reverses(b: Books, k: TradeKey, t: Trade, e: LedgerEntry, next: Books) {
    && k in b.confirmations && k in b.trades && Live(b.trades[k]) && b.confirmations[k] < |b.entries|
    && SameContract(b.trades[k], t) && (t.state == Superseded || t.state == Cancelled)
    && Mirrors(e.postings, b.entries[b.confirmations[k]].postings)
    && EntryIds(e) !! b.postingIds
    && next == Books(b.trades[k := t], b.confirmations, b.entries + [e], b.postingIds + EntryIds(e))
  }

  lemma StoreElsewhere(trades: TradeMap, confirmations: map<TradeKey, nat>, entries: seq<LedgerEntry>, k: TradeKey,
      t: Trade)
    requires PointsHome(trades, confirmations, entries) && k !in confirmations
    ensures PointsHome(trades[k := t], confirmations, entries)
  {
    hide Confirms;
  }

  lemma StoreKeepsCovers(trades: TradeMap, confirmations: map<TradeKey, nat>, k: TradeKey, t: Trade)
    requires Covers(trades, confirmations) && (MustBeIndexed(k, t) ==> k in confirmations)
    ensures Covers(trades[k := t], confirmations)
  {
  }

  /** An indexed version that keeps its contract keeps its confirmation. */
  lemma RelabelKeepsPoints(b: Books, k: TradeKey, t: Trade)
    requires PointsHome(b.trades, b.confirmations, b.entries) && k in b.confirmations && k in b.trades
    requires SameContract(b.trades[k], t) && t.state != Captured
    ensures PointsHome(b.trades[k := t], b.confirmations, b.entries)
  {
    hide Confirms, SameContract;
    SameContractConfirms(b.entries[b.confirmations[k]], b.trades[k], t);
  }

  lemma ReversingKeepsIndexed(b: Books, k: TradeKey, t: Trade, e: LedgerEntry, next: Books)
    requires Indexed(b) && Reverses(b, k, t, e, next)
    ensures Indexed(next)
  {
    hide Confirms, EntryIds, SameContract, Mirrors, PointsHome, Covers, Injective;
    RelabelKeepsPoints(b, k, t);
    StoreKeepsCovers(b.trades, b.confirmations, k, t);
    AppendKeepsPoints(b.(trades := next.trades), e);
  }

  lemma ReversingKeepsOnce(b: Books, k: TradeKey, t: Trade, e: LedgerEntry, next: Books)
    requires Indexed(b) && ReversesOnce(b) && LiveStands(b) && Reverses(b, k, t, e, next)
    ensures ReversesOnce(next)
  {
    var original := b.entries[b.confirmations[k]];
    ConfirmationFacts(original, b.trades[k], [], Usd);
    MirrorFacts(e, original);
    assert ReversalOf(e, original);
    AppendKeepsOnce(b, e, next);
  }

  lemma ReversingKeepsLive(b: Books, k: TradeKey, t: Trade, e: LedgerEntry, next: Books)
    requires Indexed(b) && UniqueIds(b) && LiveStands(b) && Reverses(b, k, t, e, next) && Indexed(next)
    ensures LiveStands(next)
  {
    hide Confirms, EntryIds, Targets, SameContract, Covers, AllIds;
    var original := b.entries[b.confirmations[k]];
    MirrorFacts(e, original);
    hide Mirrors;
    forall l, j | l in next.confirmations && Live(next.trades[l]) && 0 <= j < |next.entries|
      ensures Targets(next.entries[j]) !! EntryIds(next.entries[next.confirmations[l]])
    {
      assert next.entries[next.confirmations[l]] == b.entries[b.confirmations[l]];
      if j < |b.entries| {
        assert next.entries[j] == b.entries[j];
      } else {
        assert b.confirmations[l] != b.confirmations[k];
        assert EntryIds(original) !! EntryIds(b.entries[b.confirmations[l]]);
      }
    }
  }

  lemma ReversingKeepsAccounted(b: Books, k: TradeKey, t: Trade, e: LedgerEntry, next: Books)
    requires Indexed(b) && Accounted(b.confirmations, b.entries) && Reverses(b, k, t, e, next)
    ensures Accounted(next.confirmations, next.entries)
  {
    hide Confirms, Targets, Mirrors;
    var original := b.entries[b.confirmations[k]];
    MirrorFacts(e, original);
    ConfirmationFacts(original, b.trades[k], [], Usd);
    assert original.postings[0] in original.postings;
    assert Targets(e) != {} by { assert original.postings[0].id in EntryIds(original); }
    forall i | 0 <= i < |next.entries| && Targets(next.entries[i]) == {} ensures IndexedAt(next.confirmations, i) {
      assert i < |b.entries| && next.entries[i] == b.entries[i];
    }
  }

  lemma ReversingKeepsMeaning(b: Books, k: TradeKey, t: Trade, e: LedgerEntry, next: Books)
    requires Indexed(b) && Meaning(b) && Reverses(b, k, t, e, next)
    ensures Meaning(next)
  {
    hide Confirms, EntryIds, Targets;
    var original := b.entries[b.confirmations[k]];
    forall account, c ensures LedgerNet(next.entries, account, c) == SumOver(next.trades, LiveNet(account, c)) {
      AppendNet(b.entries, e, account, c);
      ConfirmationFacts(original, b.trades[k], account, c);
      MirrorNegates(e.postings, original.postings, account, c);
      SumStore(b.trades, LiveNet(account, c), k, t);
    }
  }

  lemma ReversingKeepsSound(b: Books, k: TradeKey, t: Trade, e: LedgerEntry, next: Books)
    requires Sound(b) && Reverses(b, k, t, e, next)
    ensures Sound(next)
  {
    ReversingKeepsIndexed(b, k, t, e, next);
    AppendKeepsUnique(b, e, next);
    ReversingKeepsOnce(b, k, t, e, next);
    ReversingKeepsLive(b, k, t, e, next);
    ReversingKeepsAccounted(b, k, t, e, next);
    ReversingKeepsMeaning(b, k, t, e, next);
  }

  /** Relabelling: a version is added unposted, dies unposted, or settles; no entry is appended. */
  ghost predicate Relabels(b: Books, k: TradeKey, t: Trade, next: Books) {
    && next == b.(trades := b.trades[k := t])
    && (k in b.confirmations ==>
          k in b.trades && Live(b.trades[k]) && t.state == Settled && SameContract(b.trades[k], t))
    && (k !in b.confirmations ==> t.state == Captured || (t.state == Cancelled && k.version == 1))
  }

  lemma RelabelKeepsIndexed(b: Books, k: TradeKey, t: Trade, next: Books)
    requires Indexed(b) && Relabels(b, k, t, next)
    ensures Indexed(next)
  {
    hide Confirms, SameContract, PointsHome, Covers, Injective;
    if k in b.confirmations {
      RelabelKeepsPoints(b, k, t); } else { StoreElsewhere(b.trades, b.confirmations, b.entries, k, t);
    }
    StoreKeepsCovers(b.trades, b.confirmations, k, t);
  }

  lemma RelabelKeepsMeaning(b: Books, k: TradeKey, t: Trade, next: Books)
    requires Indexed(b) && Meaning(b) && Relabels(b, k, t, next)
    ensures Meaning(next)
  {
    hide Confirms;
    forall account, c ensures LedgerNet(next.entries, account, c) == SumOver(next.trades, LiveNet(account, c)) {
      SumStore(b.trades, LiveNet(account, c), k, t);
    }
  }

  lemma RelabelKeepsSound(b: Books, k: TradeKey, t: Trade, next: Books)
    requires Sound(b) && Relabels(b, k, t, next)
    ensures Sound(next)
  {
    RelabelKeepsIndexed(b, k, t, next);
    RelabelKeepsMeaning(b, k, t, next);
  }

  // Statements about single postings

  /** No two postings of the ledger reverse the same posting. */
  lemma NoPostingReversedTwice(b: Books, i: nat, p: nat, j: nat, q: nat)
    requires ReversesOnce(b)
    requires i < |b.entries| && p < |b.entries[i].postings| && j < |b.entries| && q < |b.entries[j].postings|
    requires b.entries[i].postings[p].reversalOf.Some?
    requires b.entries[i].postings[p].reversalOf == b.entries[j].postings[q].reversalOf
    ensures i == j && p == q
  {
    var target := b.entries[i].postings[p].reversalOf.value;
    assert b.entries[i].postings[p] in b.entries[i].postings && b.entries[j].postings[q] in b.entries[j].postings;
    assert target in Targets(b.entries[i]) && target in Targets(b.entries[j]);
    assert i == j;
    var m :| 0 <= m < i && ReversalOf(b.entries[i], b.entries[m]);
    EntryIsNeutral(b.entries[m], Usd);
  }

  /** A reversal points at an earlier posting of the same trade version, account and amount on the other side. */
  lemma ReversalPointsBack(b: Books, j: nat, q: nat) returns (i: nat)
    requires ReversesOnce(b)
    requires j < |b.entries| && q < |b.entries[j].postings| && b.entries[j].postings[q].reversalOf.Some?
    ensures i < j && q < |b.entries[i].postings|
    ensures var original, reversal := b.entries[i].postings[q], b.entries[j].postings[q];
            reversal.reversalOf == Some(original.id)
                && reversal == original.(id := reversal.id, side := Opposite(original.side),
                    reversalOf := Some(original.id))
    ensures b.entries[i].postings[q].reversalOf.None?
  {
    assert b.entries[j].postings[q] in b.entries[j].postings;
    assert b.entries[j].postings[q].reversalOf.value in Targets(b.entries[j]);
    var m :| 0 <= m < j && ReversalOf(b.entries[j], b.entries[m]);
    i := m;
    var original := b.entries[m].postings[q];
    assert original in b.entries[m].postings;
    assert forall p :: p in b.entries[m].postings && p.reversalOf.Some? ==> p.reversalOf.value in Targets(b.entries[m]);
  }
}
