/**
 Bilateral netting of settled trades (settlement.cpp).  Opposite cashflows
 cancel as they arrive on a stack of unmatched amounts; the specification is
 the plain signed sum.
 */
module Settlement {
  import opened Wrappers
  import opened Ordering
  import opened Values
  import opened Trades

  datatype SettlementDirection = Outgoing | Incoming

  datatype SettlementError = ArithmeticOverflow

  datatype SettlementKey = SettlementKey(
    counterpartyId: CounterpartyId, nettingSetId: NettingSetId, valueDate: IsoDate, currency: Currency)

  datatype SettlementObligation = SettlementObligation(
    counterpartyId: CounterpartyId, nettingSetId: NettingSetId, valueDate: IsoDate,
    direction: SettlementDirection, amount: Money)
  {
    function Key(): SettlementKey {
      SettlementKey(counterpartyId, nettingSetId, valueDate, amount.currency)
    }
  }

  // Orders

  /** The order of the accumulator map: member by member. */
  predicate KeyLess(a: SettlementKey, b: SettlementKey) {
    if a.counterpartyId != b.counterpartyId then IdLess(a.counterpartyId, b.counterpartyId)
    else if a.nettingSetId != b.nettingSetId then IdLess(a.nettingSetId, b.nettingSetId)
    else if a.valueDate != b.valueDate then a.valueDate < b.valueDate
    else CurrencyIndex(a.currency) < CurrencyIndex(b.currency)
  }

  /** The order of the published obligations; amounts are not compared. */
  predicate SettlementLess(a: SettlementObligation, b: SettlementObligation) {
    if a.valueDate != b.valueDate then a.valueDate < b.valueDate
    else if a.amount.currency != b.amount.currency
        then CurrencyIndex(a.amount.currency) < CurrencyIndex(b.amount.currency)
    else if a.counterpartyId != b.counterpartyId then IdLess(a.counterpartyId, b.counterpartyId)
    else if a.nettingSetId != b.nettingSetId then IdLess(a.nettingSetId, b.nettingSetId)
    else a.direction == Outgoing && b.direction == Incoming
  }

  lemma KeyOrder()
    ensures TotalOrder(KeyLess)
  {
    IdOrder();
  }

  lemma SettlementOrder(s: set<SettlementObligation>)
    requires forall a, b :: a in s && b in s && a.Key() == b.Key() ==> a == b
    ensures TotalOn(s, SettlementLess)
  {
    IdOrder();
  }

  lemma SettlementOrderAsymmetric()
    ensures Asymmetric(SettlementLess)
  {
    IdOrder();
  }

  // Specification

  function PayKey(t: Trade): SettlementKey {
    SettlementKey(t.counterpartyId, t.nettingSetId, t.terms.valueDate, t.terms.pay.currency)
  }

  function ReceiveKey(t: Trade): SettlementKey {
    SettlementKey(t.counterpartyId, t.nettingSetId, t.terms.valueDate, t.terms.receive.currency)
  }

  /** What one settled trade contributes to a key: receipts count positive, payments negative. */
  function Flow(t: Trade, k: SettlementKey): int {
    if t.state != Settled then 0
    else (if ReceiveKey(t) == k then t.terms.receive.minorUnits else 0) - (if PayKey(t) == k
        then t.terms.pay.minorUnits else 0)
  }

  /** The exact bilateral net, as an integer of any size. */
  function Net(trades: seq<Trade>, k: SettlementKey): int {
    if trades == [] then 0 else Net(trades[..|trades| - 1], k) + Flow(trades[|trades| - 1], k)
  }

  function TradeKeys(t: Trade): set<SettlementKey> {
    if t.state == Settled then {PayKey(t), ReceiveKey(t)} else {}
  }

  function SettlementKeys(trades: seq<Trade>): set<SettlementKey> {
    if trades == [] then {} else SettlementKeys(trades[..|trades| - 1]) + TradeKeys(trades[|trades| - 1])
  }

  predicate Representable(net: int) {
    -INT64_MAX <= net <= INT64_MAX
  }

  function ObligationFor(k: SettlementKey, net: int): SettlementObligation
    requires net != 0 && Representable(net)
  {
    SettlementObligation(k.counterpartyId, k.nettingSetId, k.valueDate,
                         if net > 0 then Incoming else Outgoing,
                         Money(k.currency, if net > 0 then net else -net))
  }

  predicate NetFits(trades: seq<Trade>, k: SettlementKey) {
    Representable(Net(trades, k))
  }

  ghost predicate AllRepresentable(trades: seq<Trade>) {
    forall k :: k in SettlementKeys(trades) ==> NetFits(trades, k)
  }

  ghost function Obligations(trades: seq<Trade>): (r: set<SettlementObligation>)
    requires AllRepresentable(trades)
    ensures TotalOn(r, SettlementLess)
  {
    var r := set k | k in SettlementKeys(trades) && Net(trades, k) != 0 :: ObligationFor(k, Net(trades, k));
    SettlementOrder(r);
    r
  }

  /** Every non-zero net, in the published order; overflow exactly when some net has no int64 magnitude. */
  ghost function BilateralSettlements(trades: seq<Trade>): Outcome<seq<SettlementObligation>, SettlementError> {
    if AllRepresentable(trades) then Success(Ascending(Obligations(trades), SettlementLess))
        else Failure(ArithmeticOverflow)
  }

  // Accumulators

  datatype NetAccumulator = NetAccumulator(direction: Option<SettlementDirection>, unmatched: seq<int64>)
  {
    ghost predicate Valid() {
      && (direction.None? <==> unmatched == [])
      && forall i :: 0 <= i < |unmatched| ==> unmatched[i] > 0
    }

    ghost function Signed(): int {
      match direction
      case None => 0
      case Some(Outgoing) => -Sum(unmatched)
      case Some(Incoming) => Sum(unmatched)
    }
  }

  ghost function Sum(amounts: seq<int64>): int {
    if amounts == [] then 0 else Sum(amounts[..|amounts| - 1]) + amounts[|amounts| - 1]
  }

  lemma {:induction false} SumPositive(amounts: seq<int64>)
    requires forall i :: 0 <= i < |amounts| ==> amounts[i] > 0
    ensures Sum(amounts) >= 0 && (amounts != [] ==> Sum(amounts) > 0)
  {
    if amounts == [] {
    } else {
      SumPositive(amounts[..|amounts| - 1]);
    }
  }

  lemma {:induction false} SumPrefix(amounts: seq<int64>, i: nat)
    requires i <= |amounts| && forall j :: 0 <= j < |amounts| ==> amounts[j] > 0
    ensures Sum(amounts[..i]) <= Sum(amounts)
  {
    if i < |amounts| {
      SumPrefix(amounts[..|amounts| - 1], i);
      assert amounts[..|amounts| - 1][..i] == amounts[..i];
    } else {
      assert amounts[..i] == amounts;
    }
  }

  lemma SumAppend(amounts: seq<int64>, last: int64)
    ensures Sum(amounts + [last]) == Sum(amounts) + last
  {
    assert (amounts + [last])[..|amounts|] == amounts;
  }

  /** A cashflow with its sign: receipts count positive, payments negative. */
  function Directed(direction: SettlementDirection, amount: int): int {
    if direction == Incoming then amount else -amount
  }

  lemma SumOfNone()
    ensures Sum([]) == 0
  {
  }

  /** The newest unmatched amounts are consumed first; what remains is either stack or cashflow. */
  method Unwind(unmatched: seq<int64>, cashflow: int64) returns (amounts: seq<int64>, amount: int64)
    requires cashflow > 0 && forall i :: 0 <= i < |unmatched| ==> unmatched[i] > 0
    ensures forall i :: 0 <= i < |amounts| ==> amounts[i] > 0
    ensures amount >= 0 && (amount > 0 ==> amounts == [])
    ensures Sum(amounts) - amount == Sum(unmatched) - cashflow
  {
    hide Sum;
    amounts, amount := unmatched, cashflow;
    while amount > 0 && amounts != []
      invariant 0 <= amount
      invariant forall i :: 0 <= i < |amounts| ==> amounts[i] > 0
      invariant Sum(amounts) - amount == Sum(unmatched) - cashflow
      decreases amount, |amounts|
    {
      var front, last := amounts[..|amounts| - 1], amounts[|amounts| - 1];
      assert amounts == front + [last];
      SumAppend(front, last);
      if last > amount {
        SumAppend(front, last - amount);
        amounts := front + [last - amount];
        amount := 0;
      } else {
        amount := amount - last;
        amounts := front;
      }
    }
  }

  /** The accumulator moves by exactly the signed amount, and no step leaves int64. */
  method AddCashflow(accumulator: NetAccumulator, direction: SettlementDirection,
          cashflow: int64) returns (next: NetAccumulator)
    requires accumulator.Valid() && cashflow > 0
    ensures next.Valid()
    ensures next.Signed() == accumulator.Signed() + Directed(direction, cashflow)
  {
    hide Sum;
    SumOfNone();
    if accumulator.direction.None? || accumulator.direction == Some(direction) {
      SumAppend(accumulator.unmatched, cashflow);
      return NetAccumulator(Some(direction), accumulator.unmatched + [cashflow]);
    }
    var amounts, amount := Unwind(accumulator.unmatched, cashflow);
    if amount > 0 {
      SumAppend(amounts, amount);
      next := NetAccumulator(Some(direction), amounts + [amount]);
    } else if amounts == [] {
      next := NetAccumulator(None, amounts);
    } else {
      next := NetAccumulator(accumulator.direction, amounts);
    }
  }

  /** The magnitude is the exact sum, or overflow exactly when that sum exceeds int64. */
  method TotalMagnitude(accumulator: NetAccumulator) returns (r: Outcome<int64, SettlementError>)
    requires accumulator.Valid()
    ensures r == if Sum(accumulator.unmatched) <= INT64_MAX then Success(Sum(accumulator.unmatched))
        else Failure(ArithmeticOverflow)
  {
    var amounts := accumulator.unmatched;
    var total: int64 := 0;
    for i := 0 to |amounts|
      invariant total == Sum(amounts[..i]) && total >= 0
    {
      assert amounts[..i + 1][..i] == amounts[..i];
      SumPrefix(amounts, i + 1);
      if total > INT64_MAX - amounts[i] {
        return Failure(ArithmeticOverflow);
      }
      total := total + amounts[i];
    }
    assert amounts[..|amounts|] == amounts;
    return Success(total);
  }

  // Derivation

  type NetMap = map<SettlementKey, NetAccumulator>

  /** The accumulators hold exactly the nets of the trades seen so far. */
  ghost predicate Accounts(nets: NetMap, trades: seq<Trade>) {
    && nets.Keys == SettlementKeys(trades)
    && AllValid(nets)
    && forall k :: Held(nets, k) == Net(trades, k)
  }

  lemma {:induction false} NetOutsideKeys(trades: seq<Trade>, k: SettlementKey)
    requires k !in SettlementKeys(trades)
    ensures Net(trades, k) == 0
  {
    if trades == [] {
    } else {
      NetOutsideKeys(trades[..|trades| - 1], k);
    }
  }

  ghost predicate AllValid(nets: NetMap) {
    forall k :: k in nets ==> nets[k].Valid()
  }

  ghost function Held(nets: NetMap, k: SettlementKey): int {
    if k in nets then nets[k].Signed() else 0
  }

  method AddTo(nets: NetMap, k: SettlementKey, direction: SettlementDirection, amount: int64) returns (next: NetMap)
    requires amount > 0 && AllValid(nets)
    ensures next.Keys == nets.Keys + {k} && AllValid(next)
    ensures forall j :: Held(next, j) == Held(nets, j) + if j == k then Directed(direction, amount) else 0
  {
    var accumulator := AddCashflow(if k in nets then nets[k] else NetAccumulator(None, []), direction, amount);
    next := nets[k := accumulator];
  }

  lemma OneMoreTrade(seen: seq<Trade>, t: Trade)
    ensures SettlementKeys(seen + [t]) == SettlementKeys(seen) + TradeKeys(t)
    ensures forall k :: Net(seen + [t], k) == Net(seen, k) + Flow(t, k)
  {
    assert (seen + [t])[..|seen|] == seen;
  }

  method Accumulate(nets: NetMap, t: Trade) returns (next: NetMap)
    requires AllValid(nets)
    ensures next.Keys == nets.Keys + TradeKeys(t) && AllValid(next)
    ensures forall k :: Held(next, k) == Held(nets, k) + Flow(t, k)
  {
    if t.state != Settled {
      return nets;
    }
    var paid := AddTo(nets, PayKey(t), Outgoing, t.terms.pay.minorUnits);
    next := AddTo(paid, ReceiveKey(t), Incoming, t.terms.receive.minorUnits);
  }

  method Tally(trades: seq<Trade>) returns (nets: NetMap)
    ensures Accounts(nets, trades)
  {
    nets := map[];
    for i := 0 to |trades|
      invariant Accounts(nets, trades[..i])
    {
      nets := Accumulate(nets, trades[i]);
      OneMoreTrade(trades[..i], trades[i]);
      assert trades[..i + 1] == trades[..i] + [trades[i]];
    }
    assert trades[..|trades|] == trades;
  }

  /** The obligation an accumulator implies, if its direction is set. */
  method Settle(k: SettlementKey,
          accumulator: NetAccumulator) returns (r: Outcome<Option<SettlementObligation>, SettlementError>)
    requires accumulator.Valid()
    ensures r.Success? <==> Representable(accumulator.Signed())
    ensures r.Success? ==> r.value == if accumulator.Signed() == 0 then None
        else Some(ObligationFor(k, accumulator.Signed()))
    ensures r.Failure? ==> r.error == ArithmeticOverflow
  {
    SumPositive(accumulator.unmatched);
    if accumulator.direction.None? {
      return Success(None);
    }
    var magnitude := TotalMagnitude(accumulator);
    if magnitude.Failure? {
      return Failure(magnitude.error);
    }
    return Success(Some(SettlementObligation(k.counterpartyId, k.nettingSetId, k.valueDate,
                                             accumulator.direction.value, Money(k.currency, magnitude.value))));
  }

  ghost function Published(nets: NetMap, keys: seq<SettlementKey>): seq<SettlementObligation>
    requires forall i :: 0 <= i < |keys| ==> Representable(Held(nets, keys[i]))
  {
    if keys == [] then [] else
      var k := keys[|keys| - 1];
      Published(nets, keys[..|keys| - 1]) + if Held(nets, k) == 0 then [] else [ObligationFor(k, Held(nets, k))]
  }

  lemma {:induction false} PublishedMembers(nets: NetMap, keys: seq<SettlementKey>)
    requires forall i :: 0 <= i < |keys| ==> Representable(Held(nets, keys[i]))
    ensures forall o :: o in Published(nets, keys) <==> exists k ::
        k in keys && Held(nets, k) != 0 && o == ObligationFor(k, Held(nets, k))
  {
    if keys == [] {
    } else {
      var last := |keys| - 1;
      PublishedMembers(nets, keys[..last]);
      assert keys == keys[..last] + [keys[last]];
    }
  }

  /** Obligations in the order of the accumulator map, or overflow. */
  method Publish(nets: NetMap,
          keys: seq<SettlementKey>) returns (r: Outcome<seq<SettlementObligation>, SettlementError>)
    requires AllValid(nets) && forall k :: k in keys ==> k in nets
    ensures r.Success? <==> forall i :: 0 <= i < |keys| ==> Representable(Held(nets, keys[i]))
    ensures r.Failure? ==> r.error == ArithmeticOverflow
    ensures r.Success? ==> r.value == Published(nets, keys)
  {
    var obligations := [];
    for i := 0 to |keys|
      invariant forall j :: 0 <= j < i ==> Representable(Held(nets, keys[j]))
      invariant obligations == Published(nets, keys[..i])
    {
      assert keys[i] in keys && keys[..i + 1][..i] == keys[..i];
      var settled := Settle(keys[i], nets[keys[i]]);
      if settled.Failure? {
        return Failure(settled.error);
      }
      if settled.value.Some? {
        obligations := obligations + [settled.value.value];
      }
    }
    assert keys[..|keys|] == keys;
    return Success(obligations);
  }

  function KeysAscending(keys: set<SettlementKey>): (r: seq<SettlementKey>)
    ensures Elements(r) == keys
  {
    KeyOrder();
    Ascending(keys, KeyLess)
  }

  /** Every accumulator fits exactly when every net does. */
  lemma HeldFits(nets: NetMap, trades: seq<Trade>, keys: seq<SettlementKey>)
    requires Accounts(nets, trades) && Elements(keys) == nets.Keys
    ensures (forall i :: 0 <= i < |keys| ==> Representable(Held(nets, keys[i]))) <==> AllRepresentable(trades)
  {
    hide Held, Net, SettlementKeys;
    assert forall i :: 0 <= i < |keys| ==> keys[i] in Elements(keys);
    forall k | k in SettlementKeys(trades) ensures k in keys { assert k in Elements(keys); }
    assert forall k :: NetFits(trades, k) <==> Representable(Held(nets, k));
  }

  /** The published obligations are the specified ones, in another order. */
  lemma PublishedObligations(nets: NetMap, trades: seq<Trade>, keys: seq<SettlementKey>)
    requires Accounts(nets, trades) && Elements(keys) == nets.Keys && AllRepresentable(trades)
    requires forall i :: 0 <= i < |keys| ==> Representable(Held(nets, keys[i]))
    ensures Elements(Published(nets, keys)) == Obligations(trades)
  {
    hide Held, Net, SettlementKeys, Published;
    PublishedMembers(nets, keys);
    assert forall k :: k in keys <==> k in Elements(keys);
    forall o ensures o in Published(nets, keys) <==> o in Obligations(trades) {
      assert forall k :: k in keys <==> k in SettlementKeys(trades);
    }
  }

  method DeriveBilateralSettlements(trades: seq<Trade>) returns (r: Outcome<seq<SettlementObligation>, SettlementError>)
    ensures r == BilateralSettlements(trades)
  {
    hide Held, Net, SettlementKeys, Published, KeysAscending, Elements, Obligations, AllRepresentable;
    var nets := Tally(trades);
    var keys := KeysAscending(nets.Keys);
    assert forall k :: k in keys ==> k in nets by { ListedKeys(keys, nets.Keys); }
    var obligations := Publish(nets, keys);
    HeldFits(nets, trades, keys);
    if obligations.Failure? {
      return Failure(obligations.error);
    }
    PublishedObligations(nets, trades, keys);
    // Sorting removes the order of the accumulator map from the output.
    return Success(Ascending(Elements(obligations.value), SettlementLess));
  }

  lemma ListedKeys(keys: seq<SettlementKey>, s: set<SettlementKey>)
    requires Elements(keys) == s
    ensures forall k :: k in keys ==> k in s
  {
  }

  // What the published obligations mean

  lemma {:induction false} NetRemove(trades: seq<Trade>, i: nat, k: SettlementKey)
    requires i < |trades|
    ensures Net(trades, k) == Net(trades[..i] + trades[i + 1..], k) + Flow(trades[i], k)
  {
    var last := |trades| - 1;
    if i < last {
      NetRemove(trades[..last], i, k);
      var rest := trades[..i] + trades[i + 1..];
      assert rest[..|rest| - 1] == trades[..last][..i] + trades[..last][i + 1..];
      assert rest[|rest| - 1] == trades[last];
    } else {
      assert trades[..i] + trades[i + 1..] == trades[..last];
    }
  }

  lemma TakeOut<T>(s: seq<T>, i: nat)
    requires i < |s|
    ensures multiset(s[..i] + s[i + 1..]) == multiset(s) - multiset{s[i]}
  {
    assert s == s[..i] + [s[i]] + s[i + 1..];
  }

  lemma {:induction false} NetPermutation(a: seq<Trade>, b: seq<Trade>, k: SettlementKey)
    requires multiset(a) == multiset(b)
    ensures Net(a, k) == Net(b, k)
    decreases |a|
  {
    hide Flow;
    if a != [] {
      var last := |a| - 1;
      assert a[last] in multiset(b);
      var i :| 0 <= i < |b| && b[i] == a[last];
      TakeOut(a, last);
      TakeOut(b, i);
      assert a[..last] + a[last + 1..] == a[..last];
      NetPermutation(a[..last], b[..i] + b[i + 1..], k);
      NetRemove(b, i, k);
    } else {
      assert |multiset(a)| == |multiset(b)|;
    }
  }

  lemma {:induction false} KeysFromTrades(trades: seq<Trade>, k: SettlementKey)
    ensures k in SettlementKeys(trades) <==> exists t :: t in multiset(trades) && k in TradeKeys(t)
  {
    if trades == [] {
    } else {
      var last := |trades| - 1;
      KeysFromTrades(trades[..last], k);
      assert trades == trades[..last] + [trades[last]];
      assert multiset(trades) == multiset(trades[..last]) + multiset{trades[last]};
    }
  }

  /** Every permutation of the input nets to the same output. */
  lemma NettingIgnoresOrder(a: seq<Trade>, b: seq<Trade>)
    requires multiset(a) == multiset(b)
    ensures BilateralSettlements(a) == BilateralSettlements(b)
  {
    forall k ensures Net(a, k) == Net(b, k) { NetPermutation(a, b, k); }
    forall k ensures k in SettlementKeys(a) <==> k in SettlementKeys(b) {
      KeysFromTrades(a, k);
      KeysFromTrades(b, k);
    }
    assert SettlementKeys(a) == SettlementKeys(b);
    if AllRepresentable(a) { assert Obligations(a) == Obligations(b); }
  }

  /** For every key: one obligation carrying the exact net when it is non-zero, none when it is zero. */
  lemma NetsAreExact(trades: seq<Trade>, k: SettlementKey)
    ensures BilateralSettlements(trades).Failure? <==> exists j :: !NetFits(trades, j)
    ensures BilateralSettlements(trades).Success? ==>
              var os := BilateralSettlements(trades).value;
              && Representable(Net(trades, k))
              && (forall o :: o in os && o.Key() == k ==> Net(trades, k) != 0 && o == ObligationFor(k, Net(trades, k)))
              && (Net(trades, k) != 0 ==> ObligationFor(k, Net(trades, k)) in os)
  {
    forall j | j !in SettlementKeys(trades) ensures Net(trades, j) == 0 { NetOutsideKeys(trades, j); }
    assert AllRepresentable(trades) ==> NetFits(trades, k);
  }

  /**
   What one trade adds to a counterparty, netting set, value date and currency: once settled, what it receives in
   the currency less what it pays in it.
   */
  function Contribution(t: Trade, counterpartyId: CounterpartyId, nettingSetId: NettingSetId, valueDate: IsoDate,
          currency: Currency): int
  {
    if t.state == Settled && t.counterpartyId == counterpartyId && t.nettingSetId == nettingSetId
       && t.terms.valueDate == valueDate
    then (if t.terms.receive.currency == currency then t.terms.receive.minorUnits else 0)
         - (if t.terms.pay.currency == currency then t.terms.pay.minorUnits else 0)
    else 0
  }

  function TotalContribution(trades: seq<Trade>, counterpartyId: CounterpartyId, nettingSetId: NettingSetId,
          valueDate: IsoDate, currency: Currency): int
  {
    if trades == [] then 0
    else TotalContribution(trades[1..], counterpartyId, nettingSetId, valueDate, currency)
         + Contribution(trades[0], counterpartyId, nettingSetId, valueDate, currency)
  }

  lemma {:induction false} NetIsTotal(trades: seq<Trade>, k: SettlementKey)
    ensures Net(trades, k) ==
        TotalContribution(trades, k.counterpartyId, k.nettingSetId, k.valueDate, k.currency)
    decreases |trades|
  {
    if trades == [] {
    } else {
      NetRemove(trades, 0, k);
      assert trades[..0] + trades[1..] == trades[1..];
      NetIsTotal(trades[1..], k);
    }
  }

  predicate FitsInt64(net: int) {
    -0x7FFF_FFFF_FFFF_FFFF <= net <= 0x7FFF_FFFF_FFFF_FFFF
  }

  /** The obligation for a net: incoming when positive, outgoing when negative, of its magnitude. */
  ghost predicate Owes(o: SettlementObligation, counterpartyId: CounterpartyId, nettingSetId: NettingSetId,
          valueDate: IsoDate, currency: Currency, net: int)
  {
    && o.counterpartyId == counterpartyId && o.nettingSetId == nettingSetId && o.valueDate == valueDate
    && o.amount.currency == currency
    && (net > 0 ==> o.direction == Incoming && o.amount.minorUnits == net)
    && (net < 0 ==> o.direction == Outgoing && o.amount.minorUnits == -net)
  }

  /**
   For every counterparty, netting set, date and currency the obligations hold the one that the total of the trades'
   own receipts less payments makes, and none when that total is zero.
   */
  ghost predicate ExactlyOwed(os: seq<SettlementObligation>, counterpartyId: CounterpartyId,
          nettingSetId: NettingSetId, valueDate: IsoDate, currency: Currency, net: int)
  {
    && FitsInt64(net)
    && (net != 0 ==> exists o :: o in os && Owes(o, counterpartyId, nettingSetId, valueDate, currency, net))
    && (forall o ::
          (o in os && o.counterpartyId == counterpartyId && o.nettingSetId == nettingSetId
           && o.valueDate == valueDate && o.amount.currency == currency ==>
             net != 0 && Owes(o, counterpartyId, nettingSetId, valueDate, currency, net)))
  }

  lemma SettlementsAreExact(trades: seq<Trade>, counterpartyId: CounterpartyId, nettingSetId: NettingSetId,
          valueDate: IsoDate, currency: Currency)
    ensures BilateralSettlements(trades).Success? ==>
        ExactlyOwed(BilateralSettlements(trades).value, counterpartyId, nettingSetId, valueDate, currency,
            TotalContribution(trades, counterpartyId, nettingSetId, valueDate, currency))
  {
    hide BilateralSettlements, Net, TotalContribution;
    var k := SettlementKey(counterpartyId, nettingSetId, valueDate, currency);
    NetIsTotal(trades, k);
    NetsAreExact(trades, k);
  }

  /** Derivation overflows exactly when some total has no 64-bit magnitude. */
  lemma NettingOverflowsIff(trades: seq<Trade>)
    ensures BilateralSettlements(trades).Failure? <==>
              exists c, n, d, currency :: !FitsInt64(TotalContribution(trades, c, n, d, currency))
    ensures BilateralSettlements(trades).Failure? ==> BilateralSettlements(trades).error == ArithmeticOverflow
  {
    assert BilateralSettlements(trades).Failure? ==> BilateralSettlements(trades).error == ArithmeticOverflow;
    hide BilateralSettlements, Net, TotalContribution;
    NetsAreExact(trades, SettlementKey([65], [65], 0, Usd));
    if BilateralSettlements(trades).Failure? {
      var j :| !NetFits(trades, j);
      NetIsTotal(trades, j);
    }
    if c, n, d, currency :| !FitsInt64(TotalContribution(trades, c, n, d, currency)) {
      NetIsTotal(trades, SettlementKey(c, n, d, currency));
      assert !NetFits(trades, SettlementKey(c, n, d, currency));
    }
  }

  /** In the published order: by value date, then currency, then counterparty, then netting set. */
  predicate PublishedBefore(a: SettlementObligation, b: SettlementObligation) {
    || a.valueDate < b.valueDate
    || (a.valueDate == b.valueDate && CurrencyIndex(a.amount.currency) < CurrencyIndex(b.amount.currency))
    || (a.valueDate == b.valueDate && a.amount.currency == b.amount.currency
        && (IdLess(a.counterpartyId, b.counterpartyId)
            || (a.counterpartyId == b.counterpartyId && IdLess(a.nettingSetId, b.nettingSetId))))
  }

  /** Published obligations are strictly ordered without regard to direction, so no two share a key. */
  lemma SettlementsAreSorted(trades: seq<Trade>, i: nat, j: nat)
    requires BilateralSettlements(trades).Success?
    requires i < j < |BilateralSettlements(trades).value|
    ensures PublishedBefore(BilateralSettlements(trades).value[i], BilateralSettlements(trades).value[j])
    ensures BilateralSettlements(trades).value[i].Key() != BilateralSettlements(trades).value[j].Key()
  {
    var os := BilateralSettlements(trades).value;
    SettlementOrderAsymmetric();
    assert os[i] in Obligations(trades) && os[j] in Obligations(trades);
    assert SettlementLess(os[i], os[j]);
  }
}
