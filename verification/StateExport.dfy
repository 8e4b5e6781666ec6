/** Writing the canonical export of a state and hashing it (fingerprint.cpp). */
module StateExport {
  import opened Wrappers
  import opened Ordering
  import opened Values
  import opened Trades
  import opened Limits
  import opened Ledger
  import opened Settlement
  import opened StateMachine
  import opened Wire
  import opened ByteStreams
  import opened Fingerprint
  import opened FowlerNollVo

  method WriteOptionalId(w: Writer, id: Option<Id>)
    modifies w
    ensures w.bytes == old(w.bytes) + PutOptionalId(id)
  {
    hide PutId;
    w.WriteU8(if id.Some? then 1 else 0);
    if id.Some? {
      w.WriteId(id.value);
    }
    assert w.bytes == old(w.bytes) + PutOptionalId(id);
  }

  method WriteOptionalVersion(w: Writer, version: Option<uint32>)
    modifies w
    ensures w.bytes == old(w.bytes) + PutOptionalVersion(version)
  {
    hide PutU32;
    w.WriteU8(if version.Some? then 1 else 0);
    if version.Some? {
      w.WriteU32(version.value);
    }
    assert w.bytes == old(w.bytes) + PutOptionalVersion(version);
  }

  method WriteTrade(w: Writer, t: Trade)
    modifies w
    ensures w.bytes == old(w.bytes) + PutTrade(t)
  {
    hide PutId, PutU32, PutTerms, PutOptionalVersion;
    w.WriteId(t.id);
    w.WriteU32(t.version);
    w.WriteId(t.bookId);
    w.WriteId(t.counterpartyId);
    w.WriteId(t.nettingSetId);
    w.WriteTerms(t.terms);
    w.WriteU8(StateTag(t.state));
    WriteOptionalVersion(w, t.supersedes);
    WriteOptionalVersion(w, t.supersededBy);
    assert w.bytes == old(w.bytes) + PutTrade(t);
  }

  method WriteAccount(w: Writer, account: Bytes)
    modifies w
    ensures w.bytes == old(w.bytes) + PutAccount(account)
  {
    w.WriteU32(Truncated(|account|));
    w.WriteBytes(account);
    Assoc(old(w.bytes), PutU32(Truncated(|account|)), account);
  }

  method WritePosting(w: Writer, p: Posting)
    modifies w
    ensures w.bytes == old(w.bytes) + PutPosting(p)
  {
    hide PutId, PutU32, PutAccount, PutMoney, PutOptionalId;
    w.WriteId(p.id);
    w.WriteId(p.tradeId);
    w.WriteU32(p.tradeVersion);
    WriteAccount(w, p.account);
    w.WriteU8(if p.side == Debit then 0 else 1);
    w.WriteMoney(p.amount);
    WriteOptionalId(w, p.reversalOf);
    assert w.bytes == old(w.bytes) + PutPosting(p);
  }

  method WriteEntry(w: Writer, e: LedgerEntry)
    modifies w
    ensures w.bytes == old(w.bytes) + PutEntry(e)
  {
    hide PutU32, PutPosting;
    w.WriteU32(Truncated(|e.postings|));
    for i := 0 to |e.postings|
      invariant w.bytes == old(w.bytes) + (PutU32(Truncated(|e.postings|)) + PutAll(PutPosting, e.postings[..i]))
    {
      WritePosting(w, e.postings[i]);
      AllStep(PutPosting, e.postings, i);
    }
    assert e.postings[..|e.postings|] == e.postings;
  }

  /** One more item of a list. */
  lemma AllStep<T>(put: T -> Bytes, items: seq<T>, i: nat)
    requires i < |items|
    ensures PutAll(put, items[..i + 1]) == PutAll(put, items[..i]) + put(items[i])
  {
    assert items[..i + 1][..i] == items[..i];
  }

  method WriteCurrents(w: Writer, current: map<TradeId, uint32>)
    modifies w
    ensures w.bytes == old(w.bytes) + PutList(PutCurrent, Currents(current))
  {
    hide PutU32, PutId, IdsInOrder;
    var keys := IdsInOrder(current.Keys);
    ghost var items := Currents(current);
    w.WriteU32(Truncated(|current|));
    for i := 0 to |keys|
      invariant w.bytes == old(w.bytes) + (PutU32(Truncated(|items|)) + PutAll(PutCurrent, items[..i]))
    {
      assert keys[i] in Elements(keys);
      w.WriteId(keys[i]);
      w.WriteU32(current[keys[i]]);
      AllStep(PutCurrent, items, i);
    }
    assert items[..|items|] == items;
  }

  method WriteTrades(w: Writer, trades: TradeMap)
    modifies w
    ensures w.bytes == old(w.bytes) + PutList(PutTrade, TradeList(trades))
  {
    hide PutU32, PutTrade, KeysInOrder;
    KeysAreDistinct(trades.Keys);
    var keys := KeysInOrder(trades.Keys);
    ghost var items := TradeList(trades);
    w.WriteU32(Truncated(|trades|));
    assert |items| == |trades| by { ListLengthOf(trades); }
    for i := 0 to |keys|
      invariant w.bytes == old(w.bytes) + (PutU32(Truncated(|items|)) + PutAll(PutTrade, items[..i]))
    {
      assert keys[i] in Elements(keys);
      WriteTrade(w, trades[keys[i]]);
      AllStep(PutTrade, items, i);
    }
    assert items[..|items|] == items;
  }

  lemma ListLengthOf(trades: TradeMap)
    ensures |TradeList(trades)| == |trades|
  {
    TradeKeyOrder();
  }

  method WriteEntries(w: Writer, entries: seq<LedgerEntry>)
    modifies w
    ensures w.bytes == old(w.bytes) + PutList(PutEntry, entries)
  {
    hide PutU32, PutEntry;
    w.WriteU32(Truncated(|entries|));
    for i := 0 to |entries|
      invariant w.bytes == old(w.bytes) + (PutU32(Truncated(|entries|)) + PutAll(PutEntry, entries[..i]))
    {
      WriteEntry(w, entries[i]);
      AllStep(PutEntry, entries, i);
    }
    assert entries[..|entries|] == entries;
  }

  method WriteTotals(w: Writer, totals: LedgerTotals)
    modifies w
    ensures w.bytes == old(w.bytes) + PutTotals(totals)
  {
    hide PutMoney;
    w.WriteMoney(Money(Usd, totals.Total(Usd)));
    w.WriteMoney(Money(Jpy, totals.Total(Jpy)));
    w.WriteMoney(Money(Kwd, totals.Total(Kwd)));
    assert w.bytes == old(w.bytes) + PutTotals(totals);
  }

  method WriteSnapshot(w: Writer, b: Snapshot)
    modifies w
    ensures w.bytes == old(w.bytes) + PutSnapshot(b)
  {
    hide PutOptionalId, PutI64;
    w.WriteU8(Level(b.key.node));
    WriteOptionalId(w, CounterpartyOf(b.key.node));
    WriteOptionalId(w, NettingSetOf(b.key.node));
    WriteOptionalId(w, BookOf(b.key.node));
    w.WriteU8(CurrencyIndex(b.key.currency));
    w.WriteI64(b.balance.capacity);
    w.WriteI64(b.balance.reserved);
    assert w.bytes == old(w.bytes) + PutSnapshot(b);
  }

  /** LimitHierarchy::snapshots. */
  method CollectSnapshots(limits: LimitMap) returns (balances: seq<Snapshot>)
    ensures balances == Snapshots(limits)
  {
    hide LimitsInOrder;
    var keys := LimitsInOrder(limits.Keys);
    balances := [];
    for i := 0 to |keys|
      invariant balances == Snapshots(limits)[..i]
    {
      assert keys[i] in Elements(keys);
      balances := balances + [Snapshot(keys[i], limits[keys[i]])];
    }
  }

  method WriteLimits(w: Writer, limits: LimitMap)
    modifies w
    ensures w.bytes == old(w.bytes) + PutList(PutSnapshot, Snapshots(limits))
  {
    hide PutU32, PutSnapshot, Snapshots;
    var balances := CollectSnapshots(limits);
    w.WriteU32(Truncated(|balances|));
    for i := 0 to |balances|
      invariant w.bytes == old(w.bytes) + (PutU32(Truncated(|balances|)) + PutAll(PutSnapshot, balances[..i]))
    {
      WriteSnapshot(w, balances[i]);
      AllStep(PutSnapshot, balances, i);
    }
    assert balances[..|balances|] == balances;
  }

  method WriteObligation(w: Writer, o: SettlementObligation)
    modifies w
    ensures w.bytes == old(w.bytes) + PutObligation(o)
  {
    hide PutId, PutMoney, PutI32;
    w.WriteId(o.counterpartyId);
    w.WriteId(o.nettingSetId);
    w.WriteI32(o.valueDate);
    w.WriteU8(if o.direction == Outgoing then 0 else 1);
    w.WriteMoney(o.amount);
    assert w.bytes == old(w.bytes) + PutObligation(o);
  }

  method WriteObligations(w: Writer, settlements: seq<SettlementObligation>)
    modifies w
    ensures w.bytes == old(w.bytes) + PutList(PutObligation, settlements)
  {
    hide PutU32, PutObligation;
    w.WriteU32(Truncated(|settlements|));
    for i := 0 to |settlements|
      invariant w.bytes == old(w.bytes) + (PutU32(Truncated(|settlements|)) + PutAll(PutObligation, settlements[..i]))
    {
      WriteObligation(w, settlements[i]);
      AllStep(PutObligation, settlements, i);
    }
    assert settlements[..|settlements|] == settlements;
  }

  method CheckSizes(s: State) returns (fits: bool)
    ensures fits == SizesFit(s)
  {
    if |s.currentVersions| > UINT32_MAX || |s.trades| > UINT32_MAX || |s.entries| > UINT32_MAX
        || |s.settlements| > UINT32_MAX || |s.limits| > UINT32_MAX {
      return false;
    }
    for i := 0 to |s.entries|
      invariant forall j :: 0 <= j < i ==> PostingsFit(s.entries[j])
    {
      var postings := s.entries[i].postings;
      if |postings| > UINT32_MAX {
        return false;
      }
      for p := 0 to |postings|
        invariant forall q :: 0 <= q < p ==> |postings[q].account| <= UINT32_MAX
      {
        if |postings[p].account| > UINT32_MAX {
          return false;
        }
      }
    }
    return true;
  }

  method CanonicalStateBytes(s: State) returns (r: Outcome<Bytes, FingerprintError>)
    ensures r == Exported(s)
  {
    hide PutU64, PutList, PutTotals, Currents, TradeList, Snapshots, SizesFit;
    var fits := CheckSizes(s);
    if !fits {
      return Failure(FingerprintError.SizeOverflow);
    }
    var w := new Writer();
    w.WriteU8(STATE_EXPORT_FORMAT_VERSION);
    w.WriteU64(s.version);
    WriteCurrents(w, s.currentVersions);
    WriteTrades(w, s.trades);
    WriteEntries(w, s.entries);
    WriteTotals(w, s.totals);
    WriteLimits(w, s.limits);
    WriteObligations(w, s.settlements);
    assert w.bytes == StateBytes(s);
    return Success(w.bytes);
  }

  /** The fingerprint hashes the canonical export. */
  method StateFingerprint(s: State) returns (r: Outcome<uint64, FingerprintError>)
    ensures r == if SizesFit(s) then Success(Fnv1a64(StateBytes(s))) else Failure(FingerprintError.SizeOverflow)
  {
    hide SizesFit, StateBytes, Fnv1a64;
    var bytes := CanonicalStateBytes(s);
    if bytes.Failure? {
      return Failure(bytes.error);
    }
    var hash := ComputeFnv1a64(bytes.value);
    return Success(hash);
  }
}
