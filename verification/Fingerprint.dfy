/**
 The canonical export of a state (fingerprint.cpp): sorted, versioned bytes from
 which the state can be read back without ambiguity, and their FNV-1a hash.
 */
module Fingerprint {
  import opened Wrappers
  import opened Ordering
  import opened Values
  import opened Trades
  import opened Limits
  import opened Ledger
  import opened PostingPolicy
  import opened Settlement
  import opened StateMachine
  import opened Reservations
  import opened Books
  import opened Chains
  import opened Invariants
  import opened Wire

  const STATE_EXPORT_FORMAT_VERSION: byte := 1

  datatype FingerprintError = SizeOverflow

  // The order of limit balances: level, counterparty, netting set, book, currency

  function Level(n: LimitNode): byte {
    match n case GroupNode => 0 case CounterpartyNode(_) => 1 case NettingSetNode(_, _) => 2 case BookNode(_, _, _) => 3
  }

  function CounterpartyOf(n: LimitNode): Option<Id> {
    if n.GroupNode? then None else Some(n.counterpartyId)
  }

  function NettingSetOf(n: LimitNode): Option<Id> {
    if n.NettingSetNode? || n.BookNode? then Some(n.nettingSetId) else None
  }

  function BookOf(n: LimitNode): Option<Id> {
    if n.BookNode? then Some(n.bookId) else None
  }

  predicate OptionLess(a: Option<Id>, b: Option<Id>) {
    b.Some? && (a.None? || IdLess(a.value, b.value))
  }

  predicate LimitKeyLess(a: LimitKey, b: LimitKey) {
    if Level(a.node) != Level(b.node) then Level(a.node) < Level(b.node)
    else if CounterpartyOf(a.node) != CounterpartyOf(b.node)
        then OptionLess(CounterpartyOf(a.node), CounterpartyOf(b.node))
    else if NettingSetOf(a.node) != NettingSetOf(b.node) then OptionLess(NettingSetOf(a.node), NettingSetOf(b.node))
    else if BookOf(a.node) != BookOf(b.node) then OptionLess(BookOf(a.node), BookOf(b.node))
    else CurrencyIndex(a.currency) < CurrencyIndex(b.currency)
  }

  lemma OptionOrder()
    ensures TotalOrder(OptionLess)
  {
    IdOrder();
  }

  lemma LimitKeyOrder()
    ensures TotalOrder(LimitKeyLess)
  {
    OptionOrder();
    hide OptionLess;
  }

  // Lists: a count, then the items

  /** static_cast<std::uint32_t>. */
  function Truncated(size: nat): uint32 {
    size % 0x1_0000_0000
  }

  function PutAll<T>(put: T -> Bytes, items: seq<T>): Bytes {
    if items == [] then [] else PutAll(put, items[..|items| - 1]) + put(items[|items| - 1])
  }

  function PutList<T>(put: T -> Bytes, items: seq<T>): Bytes {
    PutU32(Truncated(|items|)) + PutAll(put, items)
  }

  // Items

  function StateTag(s: TradeState): byte {
    match s case Captured => 0 case Confirmed => 1 case Superseded => 2 case Cancelled => 3 case Settled => 4
  }

  function PutState(s: TradeState): Bytes {
    PutU8(StateTag(s))
  }

  function PutSide(s: PostingSide): Bytes {
    PutU8(if s == Debit then 0 else 1)
  }

  function PutDirection(d: SettlementDirection): Bytes {
    PutU8(if d == Outgoing then 0 else 1)
  }

  function PutOptionalId(id: Option<Id>): Bytes {
    if id.None? then PutU8(0) else PutU8(1) + PutId(id.value)
  }

  function PutOptionalVersion(v: Option<uint32>): Bytes {
    if v.None? then PutU8(0) else PutU8(1) + PutU32(v.value)
  }

  datatype Current = Current(tradeId: TradeId, version: uint32)

  function PutCurrent(c: Current): Bytes {
    PutId(c.tradeId) + PutU32(c.version)
  }

  function PutTrade(t: Trade): Bytes {
    PutId(t.id) + (PutU32(t.version) + (PutId(t.bookId) + (PutId(t.counterpartyId) + (PutId(t.nettingSetId)
    + (PutTerms(t.terms) + (PutState(t.state)
        + (PutOptionalVersion(t.supersedes) + PutOptionalVersion(t.supersededBy))))))))
  }

  function PutAccount(account: Bytes): Bytes {
    PutU32(Truncated(|account|)) + account
  }

  function PutPosting(p: Posting): Bytes {
    PutId(p.id) + (PutId(p.tradeId) + (PutU32(p.tradeVersion) + (PutAccount(p.account)
    + (PutSide(p.side) + (PutMoney(p.amount) + PutOptionalId(p.reversalOf))))))
  }

  function PutEntry(e: LedgerEntry): Bytes {
    PutList(PutPosting, e.postings)
  }

  function PutTotals(t: LedgerTotals): Bytes {
    PutMoney(Money(Usd, t.usd)) + (PutMoney(Money(Jpy, t.jpy)) + PutMoney(Money(Kwd, t.kwd)))
  }

  datatype Snapshot = Snapshot(key: LimitKey, balance: Balance)

  function PutSnapshot(b: Snapshot): Bytes {
    PutU8(Level(b.key.node)) + (PutOptionalId(CounterpartyOf(b.key.node)) + (PutOptionalId(NettingSetOf(b.key.node))
    + (PutOptionalId(BookOf(b.key.node)) + (PutCurrency(b.key.currency)
        + (PutI64(b.balance.capacity) + PutI64(b.balance.reserved))))))
  }

  function PutObligation(o: SettlementObligation): Bytes {
    PutId(o.counterpartyId) + (PutId(o.nettingSetId)
        + (PutDate(o.valueDate) + (PutDirection(o.direction) + PutMoney(o.amount))))
  }

  // Maps in key order

  function IdsInOrder(ids: set<TradeId>): (r: seq<TradeId>)
    ensures Elements(r) == ids && |r| == |ids|
  {
    IdOrder();
    Ascending(ids, IdLess)
  }

  function LimitsInOrder(keys: set<LimitKey>): (r: seq<LimitKey>)
    ensures Elements(r) == keys && |r| == |keys|
  {
    LimitKeyOrder();
    Ascending(keys, LimitKeyLess)
  }

  function Currents(current: map<TradeId, uint32>): seq<Current> {
    var keys := IdsInOrder(current.Keys);
    seq(|keys|, i requires 0 <= i < |keys| => assert keys[i] in Elements(keys); Current(keys[i], current[keys[i]]))
  }

  function TradeList(trades: TradeMap): seq<Trade> {
    var keys := KeysInOrder(trades.Keys);
    seq(|keys|, i requires 0 <= i < |keys| => assert keys[i] in keys; trades[keys[i]])
  }

  function Snapshots(limits: LimitMap): seq<Snapshot> {
    var keys := LimitsInOrder(limits.Keys);
    seq(|keys|, i requires 0 <= i < |keys| => assert keys[i] in Elements(keys); Snapshot(keys[i], limits[keys[i]]))
  }

  // The export

  predicate PostingsFit(e: LedgerEntry) {
    |e.postings| <= UINT32_MAX && forall i :: 0 <= i < |e.postings| ==> |e.postings[i].account| <= UINT32_MAX
  }

  predicate SizesFit(s: State) {
    && |s.currentVersions| <= UINT32_MAX && |s.trades| <= UINT32_MAX && |s.entries| <= UINT32_MAX
    && |s.settlements| <= UINT32_MAX && |s.limits| <= UINT32_MAX
    && forall i :: 0 <= i < |s.entries| ==> PostingsFit(s.entries[i])
  }

  function StateBytes(s: State): Bytes {
    PutU8(STATE_EXPORT_FORMAT_VERSION) + (PutU64(s.version) + (PutList(PutCurrent, Currents(s.currentVersions))
    + (PutList(PutTrade, TradeList(s.trades)) + (PutList(PutEntry, s.entries) + (PutTotals(s.totals)
    + (PutList(PutSnapshot, Snapshots(s.limits)) + PutList(PutObligation, s.settlements)))))))
  }

  function Exported(s: State): Outcome<Bytes, FingerprintError> {
    if SizesFit(s) then Success(StateBytes(s)) else Failure(FingerprintError.SizeOverflow)
  }

  // Reading the export back is unambiguous

  predicate Prefixes(a: Bytes, b: Bytes) {
    |a| <= |b| && b[..|a|] == a
  }

  /** Neither is a proper prefix of the other. */
  predicate Apart(a: Bytes, b: Bytes) {
    Prefixes(a, b) || Prefixes(b, a) ==> a == b
  }

  lemma JoinPrefix(a: Bytes, x: Bytes, b: Bytes, y: Bytes)
    requires Apart(a, b) && (a == b ==> Apart(x, y))
    requires Prefixes(a + x, b + y)
    ensures a == b && x == y
  {
    var p, q := a + x, b + y;
    var n := if |a| <= |b| then |a| else |b|;
    assert a[..n] == b[..n] by {
      forall i | 0 <= i < n ensures a[i] == b[i] { assert p[i] == a[i] && q[i] == b[i] && q[..|p|][i] == q[i]; }
    }
    assert (n == |a| ==> Prefixes(a, b)) && (n == |b| ==> Prefixes(b, a));
    Split(a, x);
    Split(b, y);
    assert y[..|x|] == q[..|p|][|a|..];
  }

  lemma Join(a: Bytes, x: Bytes, b: Bytes, y: Bytes)
    requires Apart(a, b) && (a == b ==> Apart(x, y))
    ensures Apart(a + x, b + y)
    ensures a + x == b + y ==> a == b && x == y
  {
    if Prefixes(a + x, b + y) { JoinPrefix(a, x, b, y); }
    if Prefixes(b + y, a + x) { JoinPrefix(b, y, a, x); }
  }

  /** The encodings of two values are apart, and equal only if the values are. */
  ghost predicate Tells<T>(put: T -> Bytes, a: T, b: T) {
    Apart(put(a), put(b)) && (put(a) == put(b) ==> a == b)
  }

  lemma {:induction false} AllTell<T>(put: T -> Bytes, a: seq<T>, b: seq<T>)
    requires |a| == |b| && forall i :: 0 <= i < |a| ==> Tells(put, a[i], b[i])
    ensures Apart(PutAll(put, a), PutAll(put, b))
    ensures PutAll(put, a) == PutAll(put, b) ==> a == b
  {
    if a == [] {
    } else {
      var n := |a| - 1;
      AllTell(put, a[..n], b[..n]);
      assert Tells(put, a[n], b[n]);
      Join(PutAll(put, a[..n]), put(a[n]), PutAll(put, b[..n]), put(b[n]));
      assert a == a[..n] + [a[n]] && b == b[..n] + [b[n]];
    }
  }

  lemma U32Tells(a: uint32, b: uint32)
    ensures Tells(PutU32, a, b)
  {
    U32RoundTrip(a, []);
    U32RoundTrip(b, []);
    assert PutU32(a) + [] == PutU32(a) && PutU32(b) + [] == PutU32(b);
  }

  lemma U64Tells(a: uint64, b: uint64)
    ensures Tells(PutU64, a, b)
  {
    U64RoundTrip(a, []);
    U64RoundTrip(b, []);
    assert PutU64(a) + [] == PutU64(a) && PutU64(b) + [] == PutU64(b);
  }

  lemma I64Tells(a: int64, b: int64)
    ensures Tells(PutI64, a, b)
  {
    I64RoundTrip(a, []);
    I64RoundTrip(b, []);
    assert PutI64(a) + [] == PutI64(a) && PutI64(b) + [] == PutI64(b);
  }

  lemma DateTells(a: IsoDate, b: IsoDate)
    ensures Tells(PutDate, a, b)
  {
    DateRoundTrip(a, []);
    DateRoundTrip(b, []);
    assert PutDate(a) + [] == PutDate(a) && PutDate(b) + [] == PutDate(b);
  }

  lemma MoneyTells(a: Money, b: Money)
    ensures Tells(PutMoney, a, b)
  {
    MoneyRoundTrip(a, []);
    MoneyRoundTrip(b, []);
    assert PutMoney(a) + [] == PutMoney(a) && PutMoney(b) + [] == PutMoney(b);
  }

  lemma TermsTells(a: FxTerms, b: FxTerms)
    ensures Tells(PutTerms, a, b)
  {
    hide GetTerms, PutMoney, PutDate;
    TermsRoundTrip(a, []);
    TermsRoundTrip(b, []);
    assert PutTerms(a) + [] == PutTerms(a) && PutTerms(b) + [] == PutTerms(b);
    TermsLength(a);
    TermsLength(b);
  }

  lemma TermsLength(t: FxTerms)
    ensures |PutTerms(t)| == 27
  {
  }

  ghost predicate ListsApart<T>(put: T -> Bytes, a: seq<T>, b: seq<T>) {
    Apart(PutList(put, a), PutList(put, b)) && (PutList(put, a) == PutList(put, b) ==> a == b)
  }

  /** A list that fits its 32-bit count. */
  lemma ListTells<T>(put: T -> Bytes, a: seq<T>, b: seq<T>)
    requires |a| <= UINT32_MAX && |b| <= UINT32_MAX
    requires forall i :: 0 <= i < |a| && i < |b| ==> Tells(put, a[i], b[i])
    ensures ListsApart(put, a, b)
  {
    hide PutU32, Apart, Tells;
    U32TellsApart(|a|, |b|);
    if |a| == |b| { AllTell(put, a, b); }
    Join(PutU32(|a|), PutAll(put, a), PutU32(|b|), PutAll(put, b));
  }

  lemma U32TellsApart(a: uint32, b: uint32)
    ensures Apart(PutU32(a), PutU32(b)) && (PutU32(a) == PutU32(b) ==> a == b)
  {
    U32Tells(a, b);
  }

  lemma IdTells(a: Id, b: Id)
    ensures Tells(PutId, a, b)
  {
    U16RoundTrip(|a|, []);
    U16RoundTrip(|b|, []);
    assert PutU16(|a|) + [] == PutU16(|a|) && PutU16(|b|) + [] == PutU16(|b|);
    hide ValidIdText;
    Join(PutU16(|a|), a, PutU16(|b|), b);
  }

  lemma AccountTells(a: Bytes, b: Bytes)
    requires |a| <= UINT32_MAX && |b| <= UINT32_MAX
    ensures Tells(PutAccount, a, b)
  {
    hide PutU32;
    U32TellsApart(|a|, |b|);
    Join(PutU32(|a|), a, PutU32(|b|), b);
  }

  lemma OptionalIdTells(a: Option<Id>, b: Option<Id>)
    ensures Tells(PutOptionalId, a, b)
  {
    hide PutId, ValidIdText;
    if a.Some? && b.Some? {
      IdTells(a.value, b.value);
      Join(PutU8(1), PutId(a.value), PutU8(1), PutId(b.value));
    } else if a.Some? {
      Join(PutU8(1), PutId(a.value), PutU8(0), []);
      assert PutU8(0) + [] == PutU8(0);
    } else if b.Some? {
      Join(PutU8(0), [], PutU8(1), PutId(b.value));
      assert PutU8(0) + [] == PutU8(0);
    }
  }

  lemma OptionalVersionTells(a: Option<uint32>, b: Option<uint32>)
    ensures Tells(PutOptionalVersion, a, b)
  {
    hide PutU32;
    if a.Some? && b.Some? {
      U32Tells(a.value, b.value);
      Join(PutU8(1), PutU32(a.value), PutU8(1), PutU32(b.value));
    } else if a.Some? {
      Join(PutU8(1), PutU32(a.value), PutU8(0), []);
      assert PutU8(0) + [] == PutU8(0);
    } else if b.Some? {
      Join(PutU8(0), [], PutU8(1), PutU32(b.value));
      assert PutU8(0) + [] == PutU8(0);
    }
  }

  lemma CurrencyTells(a: Currency, b: Currency)
    ensures Tells(PutCurrency, a, b)
  {
  }

  lemma StateTells(a: TradeState, b: TradeState)
    ensures Tells(PutState, a, b)
  {
  }

  lemma SideTells(a: PostingSide, b: PostingSide)
    ensures Tells(PutSide, a, b)
  {
  }

  lemma DirectionTells(a: SettlementDirection, b: SettlementDirection)
    ensures Tells(PutDirection, a, b)
  {
  }

  lemma CurrentTells(a: Current, b: Current)
    ensures Tells(PutCurrent, a, b)
  {
    hide ValidIdText, PutId, PutU32, Apart;
    IdTells(a.tradeId, b.tradeId);
    U32Tells(a.version, b.version);
    var x1, y1 := PutU32(a.version), PutU32(b.version);
    Join(PutId(a.tradeId), x1, PutId(b.tradeId), y1);
  }

  lemma TradeTells(a: Trade, b: Trade)
    ensures Tells(PutTrade, a, b)
  {
    hide ValidIdText, PutId, PutU32, Apart, PutTerms, PutState, PutOptionalVersion;
    IdTells(a.id, b.id);
    U32Tells(a.version, b.version);
    IdTells(a.bookId, b.bookId);
    IdTells(a.counterpartyId, b.counterpartyId);
    IdTells(a.nettingSetId, b.nettingSetId);
    TermsTells(a.terms, b.terms);
    StateTells(a.state, b.state);
    OptionalVersionTells(a.supersedes, b.supersedes);
    OptionalVersionTells(a.supersededBy, b.supersededBy);
    var x8, y8 := PutOptionalVersion(a.supersededBy), PutOptionalVersion(b.supersededBy);
    var x7, y7 := PutOptionalVersion(a.supersedes) + x8, PutOptionalVersion(b.supersedes) + y8;
    Join(PutOptionalVersion(a.supersedes), x8, PutOptionalVersion(b.supersedes), y8);
    var x6, y6 := PutState(a.state) + x7, PutState(b.state) + y7;
    Join(PutState(a.state), x7, PutState(b.state), y7);
    var x5, y5 := PutTerms(a.terms) + x6, PutTerms(b.terms) + y6;
    Join(PutTerms(a.terms), x6, PutTerms(b.terms), y6);
    var x4, y4 := PutId(a.nettingSetId) + x5, PutId(b.nettingSetId) + y5;
    Join(PutId(a.nettingSetId), x5, PutId(b.nettingSetId), y5);
    var x3, y3 := PutId(a.counterpartyId) + x4, PutId(b.counterpartyId) + y4;
    Join(PutId(a.counterpartyId), x4, PutId(b.counterpartyId), y4);
    var x2, y2 := PutId(a.bookId) + x3, PutId(b.bookId) + y3;
    Join(PutId(a.bookId), x3, PutId(b.bookId), y3);
    var x1, y1 := PutU32(a.version) + x2, PutU32(b.version) + y2;
    Join(PutU32(a.version), x2, PutU32(b.version), y2);
    Join(PutId(a.id), x1, PutId(b.id), y1);
  }

  lemma PostingTells(a: Posting, b: Posting)
    requires |a.account| <= UINT32_MAX && |b.account| <= UINT32_MAX
    ensures Tells(PutPosting, a, b)
  {
    hide ValidIdText, PutId, PutU32, Apart, PutAccount, PutSide, PutMoney, PutOptionalId;
    IdTells(a.id, b.id);
    IdTells(a.tradeId, b.tradeId);
    U32Tells(a.tradeVersion, b.tradeVersion);
    AccountTells(a.account, b.account);
    SideTells(a.side, b.side);
    MoneyTells(a.amount, b.amount);
    OptionalIdTells(a.reversalOf, b.reversalOf);
    var x6, y6 := PutOptionalId(a.reversalOf), PutOptionalId(b.reversalOf);
    var x5, y5 := PutMoney(a.amount) + x6, PutMoney(b.amount) + y6;
    Join(PutMoney(a.amount), x6, PutMoney(b.amount), y6);
    var x4, y4 := PutSide(a.side) + x5, PutSide(b.side) + y5;
    Join(PutSide(a.side), x5, PutSide(b.side), y5);
    var x3, y3 := PutAccount(a.account) + x4, PutAccount(b.account) + y4;
    Join(PutAccount(a.account), x4, PutAccount(b.account), y4);
    var x2, y2 := PutU32(a.tradeVersion) + x3, PutU32(b.tradeVersion) + y3;
    Join(PutU32(a.tradeVersion), x3, PutU32(b.tradeVersion), y3);
    var x1, y1 := PutId(a.tradeId) + x2, PutId(b.tradeId) + y2;
    Join(PutId(a.tradeId), x2, PutId(b.tradeId), y2);
    Join(PutId(a.id), x1, PutId(b.id), y1);
  }

  lemma EntryTells(a: LedgerEntry, b: LedgerEntry)
    requires PostingsFit(a) && PostingsFit(b)
    ensures Tells(PutEntry, a, b)
  {
    hide PutList, PutPosting, Apart;
    forall i | 0 <= i < |a.postings| && i < |b.postings| ensures Tells(PutPosting, a.postings[i], b.postings[i]) {
      PostingTells(a.postings[i], b.postings[i]);
    }
    ListTells(PutPosting, a.postings, b.postings);
  }

  lemma TotalsTells(a: LedgerTotals, b: LedgerTotals)
    ensures Tells(PutTotals, a, b)
  {
    hide PutMoney, Apart;
    MoneyTells(Money(Usd, a.usd), Money(Usd, b.usd));
    MoneyTells(Money(Jpy, a.jpy), Money(Jpy, b.jpy));
    MoneyTells(Money(Kwd, a.kwd), Money(Kwd, b.kwd));
    var x2, y2 := PutMoney(Money(Kwd, a.kwd)), PutMoney(Money(Kwd, b.kwd));
    var x1, y1 := PutMoney(Money(Jpy, a.jpy)) + x2, PutMoney(Money(Jpy, b.jpy)) + y2;
    Join(PutMoney(Money(Jpy, a.jpy)), x2, PutMoney(Money(Jpy, b.jpy)), y2);
    Join(PutMoney(Money(Usd, a.usd)), x1, PutMoney(Money(Usd, b.usd)), y1);
  }

  lemma SnapshotTells(a: Snapshot, b: Snapshot)
    ensures Tells(PutSnapshot, a, b)
  {
    hide PutOptionalId, PutCurrency, PutI64, ValidIdText;
    OptionalIdTells(CounterpartyOf(a.key.node), CounterpartyOf(b.key.node));
    OptionalIdTells(NettingSetOf(a.key.node), NettingSetOf(b.key.node));
    OptionalIdTells(BookOf(a.key.node), BookOf(b.key.node));
    CurrencyTells(a.key.currency, b.key.currency);
    I64Tells(a.balance.capacity, b.balance.capacity);
    I64Tells(a.balance.reserved, b.balance.reserved);
    var x6, y6 := PutI64(a.balance.reserved), PutI64(b.balance.reserved);
    var x5, y5 := PutI64(a.balance.capacity) + x6, PutI64(b.balance.capacity) + y6;
    Join(PutI64(a.balance.capacity), x6, PutI64(b.balance.capacity), y6);
    var x4, y4 := PutCurrency(a.key.currency) + x5, PutCurrency(b.key.currency) + y5;
    Join(PutCurrency(a.key.currency), x5, PutCurrency(b.key.currency), y5);
    var x3, y3 := PutOptionalId(BookOf(a.key.node)) + x4, PutOptionalId(BookOf(b.key.node)) + y4;
    Join(PutOptionalId(BookOf(a.key.node)), x4, PutOptionalId(BookOf(b.key.node)), y4);
    var x2, y2 := PutOptionalId(NettingSetOf(a.key.node)) + x3, PutOptionalId(NettingSetOf(b.key.node)) + y3;
    Join(PutOptionalId(NettingSetOf(a.key.node)), x3, PutOptionalId(NettingSetOf(b.key.node)), y3);
    var x1, y1 := PutOptionalId(CounterpartyOf(a.key.node)) + x2, PutOptionalId(CounterpartyOf(b.key.node)) + y2;
    Join(PutOptionalId(CounterpartyOf(a.key.node)), x2, PutOptionalId(CounterpartyOf(b.key.node)), y2);
    Join(PutU8(Level(a.key.node)), x1, PutU8(Level(b.key.node)), y1);
  }

  lemma ObligationTells(a: SettlementObligation, b: SettlementObligation)
    ensures Tells(PutObligation, a, b)
  {
    hide PutId, ValidIdText, PutDate, PutDirection, PutMoney, Apart;
    IdTells(a.counterpartyId, b.counterpartyId);
    IdTells(a.nettingSetId, b.nettingSetId);
    DateTells(a.valueDate, b.valueDate);
    DirectionTells(a.direction, b.direction);
    MoneyTells(a.amount, b.amount);
    var x4, y4 := PutMoney(a.amount), PutMoney(b.amount);
    var x3, y3 := PutDirection(a.direction) + x4, PutDirection(b.direction) + y4;
    Join(PutDirection(a.direction), x4, PutDirection(b.direction), y4);
    var x2, y2 := PutDate(a.valueDate) + x3, PutDate(b.valueDate) + y3;
    Join(PutDate(a.valueDate), x3, PutDate(b.valueDate), y3);
    var x1, y1 := PutId(a.nettingSetId) + x2, PutId(b.nettingSetId) + y2;
    Join(PutId(a.nettingSetId), x2, PutId(b.nettingSetId), y2);
    Join(PutId(a.counterpartyId), x1, PutId(b.counterpartyId), y1);
  }

  // Maps from their ordered lists

  lemma SameAlong<K, V>(a: map<K, V>, b: map<K, V>, keys: seq<K>)
    requires a.Keys == Elements(keys) == b.Keys
    requires forall i :: 0 <= i < |keys| ==> keys[i] in a && keys[i] in b && a[keys[i]] == b[keys[i]]
    ensures a == b
  {
    forall k | k in a ensures a[k] == b[k] { assert k in keys; }
  }

  lemma CurrentsDetermine(a: map<TradeId, uint32>, b: map<TradeId, uint32>)
    requires Currents(a) == Currents(b)
    ensures a == b
  {
    hide IdsInOrder;
    var left, right := IdsInOrder(a.Keys), IdsInOrder(b.Keys);
    forall i | 0 <= i < |left| ensures left[i] == right[i] && a[left[i]] == b[left[i]] {
      assert left[i] in left && right[i] in right;
      assert Currents(a)[i] == Currents(b)[i];
    }
    assert left == right;
    SameAlong(a, b, left);
  }

  lemma SnapshotsDetermine(a: LimitMap, b: LimitMap)
    requires Snapshots(a) == Snapshots(b)
    ensures a == b
  {
    hide LimitsInOrder;
    var left, right := LimitsInOrder(a.Keys), LimitsInOrder(b.Keys);
    forall i | 0 <= i < |left| ensures left[i] == right[i] && a[left[i]] == b[left[i]] {
      assert left[i] in left && right[i] in right;
      assert Snapshots(a)[i] == Snapshots(b)[i];
    }
    assert left == right;
    SameAlong(a, b, left);
  }

  /** Each stored version carries its own key. */
  ghost predicate Keyed(trades: TradeMap) {
    forall k :: k in trades ==> StoredAt(k, trades[k])
  }

  lemma TradesDetermine(a: TradeMap, b: TradeMap)
    requires Keyed(a) && Keyed(b) && TradeList(a) == TradeList(b)
    ensures a == b
  {
    hide KeysInOrder;
    var left, right := KeysInOrder(a.Keys), KeysInOrder(b.Keys);
    KeysAreDistinct(a.Keys);
    KeysAreDistinct(b.Keys);
    hide Distinct;
    forall i | 0 <= i < |left| ensures left[i] == right[i] && a[left[i]] == b[left[i]] {
      assert left[i] in left && right[i] in right;
      assert TradeList(a)[i] == TradeList(b)[i];
      assert StoredAt(left[i], a[left[i]]) && StoredAt(right[i], b[right[i]]);
    }
    assert left == right;
    SameAlong(a, b, left);
  }

  // The ledger determines the posting ids and the confirmation index

  lemma ConfirmsOneVersion(e: LedgerEntry, t: Trade, u: Trade)
    requires Confirms(e, t) && Confirms(e, u)
    ensures t.id == u.id && t.version == u.version
  {
    var i :| IsConfirmation(e.postings, t, i);
    var j :| IsConfirmation(e.postings, u, j);
    assert e.postings[0].tradeId == t.id && e.postings[0].tradeId == u.id;
    assert e.postings[0].tradeVersion == t.version && e.postings[0].tradeVersion == u.version;
  }

  lemma IndexDetermined(a: Books, b: Books, k: TradeKey)
    requires Sound(a) && Sound(b) && a.trades == b.trades && a.entries == b.entries && Keyed(a.trades)
    requires k in a.confirmations
    ensures k in b.confirmations && a.confirmations[k] == b.confirmations[k]
  {
    hide UniqueIds, ReversesOnce, LiveStands, Meaning, Confirms, Covers, Targets;
    var i := a.confirmations[k];
    ConfirmationFacts(a.entries[i], a.trades[k], [], Usd);
    assert IndexedAt(b.confirmations, i);
    var l :| l in b.confirmations && b.confirmations[l] == i;
    ConfirmsOneVersion(a.entries[i], a.trades[k], b.trades[l]);
    assert StoredAt(k, a.trades[k]) && StoredAt(l, a.trades[l]);
  }

  lemma LedgerDetermines(a: Books, b: Books)
    requires Sound(a) && Sound(b) && a.trades == b.trades && a.entries == b.entries && Keyed(a.trades)
    ensures a == b
  {
    hide Indexed, ReversesOnce, LiveStands, Accounted, Meaning;
    forall k | k in a.confirmations ensures k in b.confirmations && a.confirmations[k] == b.confirmations[k] {
      IndexDetermined(a, b, k);
    }
    forall k | k in b.confirmations ensures k in a.confirmations { IndexDetermined(b, a, k); }
    assert a.confirmations == b.confirmations;
  }

  // The export determines the state

  /** Equal exports agree on everything that is exported. */
  lemma ExportAgrees(a: State, b: State)
    requires SizesFit(a) && SizesFit(b) && StateBytes(a) == StateBytes(b)
    ensures a.version == b.version && Currents(a.currentVersions) == Currents(b.currentVersions)
    ensures TradeList(a.trades) == TradeList(b.trades) && a.entries == b.entries
    ensures a.totals == b.totals && Snapshots(a.limits) == Snapshots(b.limits) && a.settlements == b.settlements
  {
    hide PutU64, PutList, PutTotals, Currents, TradeList, Snapshots, Apart;
    U64Tells(a.version, b.version);
    ListsTell(a, b);
    TotalsTells(a.totals, b.totals);
    var x6, y6 := PutList(PutSnapshot, Snapshots(a.limits)) + PutList(PutObligation, a.settlements),
      PutList(PutSnapshot, Snapshots(b.limits)) + PutList(PutObligation, b.settlements);
    Join(PutList(PutSnapshot, Snapshots(a.limits)), PutList(PutObligation, a.settlements),
         PutList(PutSnapshot, Snapshots(b.limits)), PutList(PutObligation, b.settlements));
    var x5, y5 := PutTotals(a.totals) + x6, PutTotals(b.totals) + y6;
    Join(PutTotals(a.totals), x6, PutTotals(b.totals), y6);
    var x4, y4 := PutList(PutEntry, a.entries) + x5, PutList(PutEntry, b.entries) + y5;
    Join(PutList(PutEntry, a.entries), x5, PutList(PutEntry, b.entries), y5);
    var x3, y3 := PutList(PutTrade, TradeList(a.trades)) + x4, PutList(PutTrade, TradeList(b.trades)) + y4;
    Join(PutList(PutTrade, TradeList(a.trades)), x4, PutList(PutTrade, TradeList(b.trades)), y4);
    var x2, y2 := PutList(PutCurrent, Currents(a.currentVersions)) + x3,
        PutList(PutCurrent, Currents(b.currentVersions)) + y3;
    Join(PutList(PutCurrent, Currents(a.currentVersions)), x3, PutList(PutCurrent, Currents(b.currentVersions)), y3);
    Join(PutU64(a.version), x2, PutU64(b.version), y2);
    Split(PutU8(STATE_EXPORT_FORMAT_VERSION), PutU64(a.version) + x2);
    Split(PutU8(STATE_EXPORT_FORMAT_VERSION), PutU64(b.version) + y2);
  }

  lemma ListsTell(a: State, b: State)
    requires SizesFit(a) && SizesFit(b)
    ensures ListsApart(PutCurrent, Currents(a.currentVersions), Currents(b.currentVersions))
    ensures ListsApart(PutTrade, TradeList(a.trades), TradeList(b.trades))
    ensures ListsApart(PutEntry, a.entries, b.entries)
    ensures ListsApart(PutSnapshot, Snapshots(a.limits), Snapshots(b.limits))
    ensures ListsApart(PutObligation, a.settlements, b.settlements)
  {
    ListLengths(a);
    ListLengths(b);
    hide Currents, TradeList, Snapshots, PutList, ListsApart, Tells, PostingsFit;
    forall x, y ensures Tells(PutCurrent, x, y) { CurrentTells(x, y); }
    forall x, y ensures Tells(PutTrade, x, y) { TradeTells(x, y); }
    forall x, y ensures Tells(PutSnapshot, x, y) { SnapshotTells(x, y); }
    forall x, y ensures Tells(PutObligation, x, y) { ObligationTells(x, y); }
    forall i | 0 <= i < |a.entries| && i < |b.entries| ensures Tells(PutEntry, a.entries[i], b.entries[i]) {
      EntryTells(a.entries[i], b.entries[i]);
    }
    ListTells(PutCurrent, Currents(a.currentVersions), Currents(b.currentVersions));
    ListTells(PutTrade, TradeList(a.trades), TradeList(b.trades));
    ListTells(PutEntry, a.entries, b.entries);
    ListTells(PutSnapshot, Snapshots(a.limits), Snapshots(b.limits));
    ListTells(PutObligation, a.settlements, b.settlements);
  }

  lemma ListLengths(s: State)
    ensures |Currents(s.currentVersions)| == |s.currentVersions| && |TradeList(s.trades)| == |s.trades|
        && |Snapshots(s.limits)| == |s.limits|
  {
    TradeKeyOrder();
  }

  /** Two sound states with equal canonical bytes are the same state, unexported indexes included. */
  lemma ExportIsInjective(a: State, b: State)
    requires Inv(a) && Inv(b)
    requires Exported(a).Success? && Exported(a) == Exported(b)
    ensures a == b
  {
    hide Sound, Backed, Aggregates, Netted, SizesFit, StateBytes, TradeList, Currents, Snapshots, Complete, OneParty,
      Linked;
    ExportAgrees(a, b);
    CurrentsDetermine(a.currentVersions, b.currentVersions);
    TradesDetermine(a.trades, b.trades);
    SnapshotsDetermine(a.limits, b.limits);
    LedgerDetermines(BooksOf(a), BooksOf(b));
  }
}
