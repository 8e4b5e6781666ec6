/**
 Concrete bytes of the formats: one whole frame, the export of an empty state, the
 tags that the export gives to states and limit nodes, and its orders.
 */
module Layouts {
  import opened Wrappers
  import opened Ordering
  import opened Values
  import opened Trades
  import opened Limits
  import opened StateMachine
  import opened Journal
  import opened Wire
  import opened Crc
  import opened Codec
  import opened Evaluator
  import opened Requests
  import opened Fingerprint

  lemma SmallNumbers(v: byte)
    ensures PutU16(v) == [v, 0] && PutU32(v) == [v, 0, 0, 0] && PutI32(v) == [v, 0, 0, 0]
    ensures PutU64(v) == [v, 0, 0, 0, 0, 0, 0, 0] && PutI64(v) == [v, 0, 0, 0, 0, 0, 0, 0]
  {
    assert LittleEndian(0, 1) == [0] && LittleEndian(0, 2) == [0, 0] && LittleEndian(0, 3) == [0, 0, 0];
    assert LittleEndian(0, 4) == [0, 0, 0, 0] && LittleEndian(0, 5) == [0, 0, 0, 0, 0];
    assert LittleEndian(0, 6) == [0, 0, 0, 0, 0, 0] && LittleEndian(0, 7) == [0, 0, 0, 0, 0, 0, 0];
  }

  /** The request of command "A" to run an end of day at 1970-01-01, field by field. */
  lemma EodRequest()
    ensures CanonicalBytes(CommandEnvelope([65], RunEodCommand(0))) == [1] + (([1, 0] + [65]) + ([5] + [0, 0, 0, 0]))
  {
    hide PutU16, PutI32;
    SmallNumbers(1);
    SmallNumbers(0);
  }

  /** The record of that event: tag, length, format version, date. */
  function EodRecord(): Bytes {
    [5] + ([5, 0, 0, 0] + ([1] + [0, 0, 0, 0]))
  }

  /** Its result: tag, format version, date, count, state version. */
  function EodResult(): Bytes {
    [5] + ([1] + ([0, 0, 0, 0] + ([0, 0, 0, 0] + [0, 0, 0, 0, 0, 0, 0, 0])))
  }

  lemma EodEvent()
    ensures |EventBody(EodRan(0))| == 5 && PutEvent(EodRan(0)) == EodRecord()
  {
    hide PutU32, PutI32;
    SmallNumbers(5);
    SmallNumbers(0);
  }

  lemma OneEvent(e: Event)
    requires |EventBody(e)| <= UINT32_MAX
    ensures EventsFit([e]) && PutEvents([e]) == PutEvent(e)
  {
    hide EventBody, PutEvent;
    assert [e][1..] == [] && PutEvent(e) + [] == PutEvent(e);
  }

  /** The payload: sequence, command id, request, one event, result. */
  function EodPayload(request: Bytes): Bytes {
    [1, 0, 0, 0, 0, 0, 0, 0] + (([1, 0] + [65]) + ([9, 0, 0, 0] + (request + ([1, 0] + (EodRecord() + EodResult())))))
  }

  lemma EodEncodes(batch: CommandBatch)
    requires |batch.canonicalRequest| == 9
    requires batch == CommandBatchData.CommandBatch(1, [65], batch.canonicalRequest, [EodRan(0)], EodRunResult(0, 0, 0))
    ensures EncodedPayload(batch) == Success(EodPayload(batch.canonicalRequest))
  {
    hide PutU16, PutU32, PutU64, PutI32, PutEvents, EventBody, EodRecord;
    EodEvent();
    OneEvent(EodRan(0));
    SmallNumbers(0);
    SmallNumbers(1);
    SmallNumbers(9);
    assert PutPayload(batch) == EodPayload(batch.canonicalRequest);
    assert |EodRecord()| == 10 by { EodSizes(); }
  }

  lemma EodSizes()
    ensures |EodRecord()| == 10 && |EodResult()| == 18
  {
  }

  /** The journal frame of that command as the first one of an empty service. */
  lemma EodFrame()
    ensures var request := CanonicalBytes(CommandEnvelope([65], RunEodCommand(0)));
            var batch := CommandBatchData.CommandBatch(1, [65], request, [EodRan(0)], EodRunResult(0, 0, 0));
            EncodedFrame(batch) == Success([66, 66, 75, 49] + ([1] + ([54, 0, 0, 0]
                + (EodPayload(request) + PutU32(Crc32(EodPayload(request)))))))
  {
    hide CanonicalBytes, EncodedPayload, PutU32, Crc32, EodRecord, EodResult;
    EodRequest();
    EodSizes();
    var request := CanonicalBytes(CommandEnvelope([65], RunEodCommand(0)));
    EodEncodes(CommandBatchData.CommandBatch(1, [65], request, [EodRan(0)], EodRunResult(0, 0, 0)));
    SmallNumbers(54);
  }

  /** A payload encodes exactly when its counts fit their fields and it is no longer than 64 MiB. */
  lemma PayloadLimit(batch: CommandBatch)
    ensures EncodedPayload(batch).Success? <==>
              && |batch.canonicalRequest| <= 0xFFFF_FFFF && |batch.events| <= 0xFFFF
              && (forall i :: 0 <= i < |batch.events| ==> |EventBody(batch.events[i])| <= 0xFFFF_FFFF)
              && |PutPayload(batch)| <= 67108864
  {
    hide EventBody, PutU64, PutId, PutU32, PutU16, PutEvents, PutResult;
  }

  lemma EmptyList<T>(put: T -> Bytes)
    ensures PutList(put, []) == [0, 0, 0, 0]
  {
    SmallNumbers(0);
  }

  /** The export of a new service over no limits: version, three empty lists, three zero totals, two empty lists. */
  lemma EmptyExport()
    ensures var zero := [0, 0, 0, 0, 0, 0, 0, 0]; var none := [0, 0, 0, 0];
            Exported(InitialState(map[])) == Success([1] + (zero + (none + (none + (none
                + ((([0] + zero) + (([1] + zero) + ([2] + zero))) + (none + none)))))))
  {
    hide PutU64, PutI64, Currents, TradeList, Snapshots, PutList;
    SmallNumbers(0);
    var s := InitialState(map[]);
    NothingListed(s);
    assert SizesFit(s);
    EmptyList(PutCurrent);
    EmptyList(PutTrade);
    EmptyList(PutEntry);
    EmptyList(PutSnapshot);
    EmptyList(PutObligation);
  }

  lemma NothingListed(s: State)
    requires s == InitialState(map[])
    ensures Currents(s.currentVersions) == [] && TradeList(s.trades) == [] && Snapshots(s.limits) == []
  {
    assert s.currentVersions.Keys == {} && s.trades.Keys == {} && s.limits.Keys == {};
  }

  /** The tag of each trade state. */
  lemma StateTags()
    ensures PutState(Captured) == [0] && PutState(Confirmed) == [1] && PutState(Superseded) == [2]
    ensures PutState(Cancelled) == [3] && PutState(Settled) == [4]
  {
  }

  /** A limit balance: level, each name of its node or a zero flag, currency, capacity and reservation. */
  lemma SnapshotLayout(c: Id, n: Id, b: Id, currency: Currency, balance: Balance)
    ensures var money := PutCurrency(currency) + (PutI64(balance.capacity) + PutI64(balance.reserved));
            && PutSnapshot(Snapshot(LimitKey(GroupNode, currency), balance)) == [0] + ([0] + ([0] + ([0] + money)))
            && PutSnapshot(Snapshot(LimitKey(CounterpartyNode(c), currency), balance)) ==
                [1] + (([1] + PutId(c)) + ([0] + ([0] + money)))
            && PutSnapshot(Snapshot(LimitKey(NettingSetNode(c, n), currency), balance)) ==
                [2] + (([1] + PutId(c)) + (([1] + PutId(n)) + ([0] + money)))
            && PutSnapshot(Snapshot(LimitKey(BookNode(c, n, b), currency), balance)) ==
                [3] + (([1] + PutId(c)) + (([1] + PutId(n)) + (([1] + PutId(b)) + money)))
  {
    hide PutId, PutCurrency, PutI64;
  }

  // Orders of the export

  /** Trade versions are listed by id and then by version. */
  lemma TradesInOrder(trades: TradeMap, i: nat, j: nat)
    requires i < j < |KeysInOrder(trades.Keys)|
    ensures var a, b := KeysInOrder(trades.Keys)[i], KeysInOrder(trades.Keys)[j];
            LexLess(a.tradeId, b.tradeId) || (a.tradeId == b.tradeId && a.version < b.version)
  {
    TradeKeyOrder();
  }

  /** Limit nodes are listed level by level, then by their ids from the counterparty down. */
  predicate NodeBefore(a: LimitNode, b: LimitNode) {
    match a
    case GroupNode => !b.GroupNode?
    case CounterpartyNode(c) =>
      b.NettingSetNode? || b.BookNode? || (b.CounterpartyNode? && LexLess(c, b.counterpartyId))
    case NettingSetNode(c, n) =>
      || b.BookNode?
      || (b.NettingSetNode?
          && (LexLess(c, b.counterpartyId) || (c == b.counterpartyId && LexLess(n, b.nettingSetId))))
    case BookNode(c, n, k) =>
      && b.BookNode?
      && (|| LexLess(c, b.counterpartyId)
          || (c == b.counterpartyId && LexLess(n, b.nettingSetId))
          || (c == b.counterpartyId && n == b.nettingSetId && LexLess(k, b.bookId)))
  }

  /** Balances are listed by node and then by currency. */
  lemma LimitsInOrderAre(limits: LimitMap, i: nat, j: nat)
    requires i < j < |LimitsInOrder(limits.Keys)|
    ensures var a, b := LimitsInOrder(limits.Keys)[i], LimitsInOrder(limits.Keys)[j];
            NodeBefore(a.node, b.node)
            || (a.node == b.node && CurrencyIndex(a.currency) < CurrencyIndex(b.currency))
  {
    LimitKeyOrder();
    var keys := LimitsInOrder(limits.Keys);
    assert LimitKeyLess(keys[i], keys[j]);
  }
}
