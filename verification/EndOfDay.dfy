/**
 End of day: every eligible version settles, its reservation is released, and the
 obligations are netted again.  The loop over eligible versions cannot fail.
 */
module EndOfDay {
  import opened Wrappers
  import opened Ordering
  import opened Values
  import opened Trades
  import opened Limits
  import opened Ledger
  import opened Settlement
  import opened StateMachine
  import opened Reservations
  import opened Books
  import opened Chains
  import opened Invariants

  function SettledForm(t: Trade): Trade {
    t.(state := Settled)
  }

  /** The given versions settled, all others untouched. */
  function Settling(trades: TradeMap, keys: set<TradeKey>): TradeMap {
    map k | k in trades :: if k in keys then SettledForm(trades[k]) else trades[k]
  }

  /** The invariants that hold before and after every iteration of the settling loop. */
  ghost predicate Steady(s: State, p: Positions) {
    && Chain(p.trades, s.currentVersions)
    && Sound(BooksOf(s).(trades := p.trades))
    && Backed(p.trades, p.limits)
    && Aggregates(p.limits)
    && SameCapacities(s.limits, p.limits)
  }

  lemma LowerKeepsCapacities(limits: LimitMap, path: LimitPath, outgoing: Money)
    requires AfterRelease(limits, path, outgoing).Success?
    ensures SameCapacities(limits, AfterRelease(limits, path, outgoing).value)
  {
  }

  lemma RaiseKeepsCapacities(limits: LimitMap, path: LimitPath, outgoing: Money)
    requires AfterReserve(limits, path, outgoing).Success?
    ensures SameCapacities(limits, AfterReserve(limits, path, outgoing).value)
  {
  }

  lemma SettleOneSteady(s: State, p: Positions, k: TradeKey)
    requires Steady(s, p) && k in p.trades && p.trades[k].state == Confirmed
    ensures SettleOne(p, k).Success?
    ensures Steady(s, SettleOne(p, k).value)
    ensures SettleOne(p, k).value.trades == p.trades[k := SettledForm(p.trades[k])]
  {
    hide Chain, Sound, Backed, Aggregates, SameCapacities;
    var t := SettledForm(p.trades[k]);
    OpenIsCurrent(p.trades, s.currentVersions, k);
    AdvancingKeepsChain(p.trades, s.currentVersions, k, t);
    var b := BooksOf(s).(trades := p.trades);
    LiveIsIndexed(b, k);
    RelabelKeepsSound(b, k, t, b.(trades := p.trades[k := t]));
    ReleaseKeepsBacked(p.trades, p.limits, k, t);
    ReleaseKeepsAggregates(p.limits, PathOf(p.trades[k]), t.terms.pay);
    LowerKeepsCapacities(p.limits, PathOf(p.trades[k]), t.terms.pay);
    CapacitiesTransitive(s.limits, p.limits, SettleOne(p, k).value.limits);
  }

  lemma CapacitiesTransitive(a: LimitMap, b: LimitMap, c: LimitMap)
    requires SameCapacities(a, b) && SameCapacities(b, c)
    ensures SameCapacities(a, c)
  {
  }

  lemma OpenIsCurrent(trades: TradeMap, current: map<TradeId, uint32>, k: TradeKey)
    requires Chain(trades, current) && k in trades && trades[k].state != Superseded
    ensures k.tradeId in current && k.version == current[k.tradeId]
  {
  }

  /** Settling distinct confirmed versions one by one succeeds and settles exactly those. */
  lemma {:induction false} SettleEachSteady(s: State, p: Positions, keys: seq<TradeKey>)
    requires Steady(s, p) && Distinct(keys)
    requires AllIn(keys, p.trades) && forall i :: 0 <= i < |keys| ==> p.trades[keys[i]].state == Confirmed
    ensures SettleEach(p, keys).Success?
    ensures Steady(s, SettleEach(p, keys).value)
    ensures SettleEach(p, keys).value.trades == Settling(p.trades, Elements(keys))
    decreases |keys|
  {
    hide Steady;
    if keys != [] {
      SettleOneSteady(s, p, keys[0]);
      var next := SettleOne(p, keys[0]).value;
      hide SettleOne;
      SettleEachSteady(s, next, keys[1..]);
      SettlingOneMore(p.trades, keys);
    } else {
      assert Settling(p.trades, Elements(keys)) == p.trades;
    }
  }

  lemma SettlingOneMore(trades: TradeMap, keys: seq<TradeKey>)
    requires keys != [] && keys[0] in trades && Distinct(keys)
    ensures Settling(trades[keys[0] := SettledForm(trades[keys[0]])], Elements(keys[1..])) ==
        Settling(trades, Elements(keys))
  {
    assert forall k :: k in Elements(keys) <==> k == keys[0] || k in Elements(keys[1..]);
    assert keys[0] !in keys[1..];
  }

  lemma EligibleAreDistinct(trades: TradeMap, asOf: IsoDate)
    ensures Distinct(EligibleInOrder(trades, asOf))
    ensures Elements(EligibleInOrder(trades, asOf)) == EligibleKeys(trades, asOf)
    ensures forall i :: 0 <= i < |EligibleInOrder(trades, asOf)| ==>
        trades[EligibleInOrder(trades, asOf)[i]].state == Confirmed
    ensures EligibleInOrder(trades, asOf) == [] <==> EligibleKeys(trades, asOf) == {}
  {
    hide KeysInOrder, Distinct;
    var keys := EligibleInOrder(trades, asOf);
    KeysAreDistinct(EligibleKeys(trades, asOf));
    forall i | 0 <= i < |keys| ensures keys[i] in EligibleKeys(trades, asOf) { assert keys[i] in keys; }
    if keys != [] { assert keys[0] in keys; }
    if EligibleKeys(trades, asOf) != {} {
      var k :| k in EligibleKeys(trades, asOf);
      assert k in keys;
    }
  }

  /** The trades after end of day: every confirmed version due by the date has settled. */
  function AtClose(trades: TradeMap, asOf: IsoDate): TradeMap {
    Settling(trades, EligibleKeys(trades, asOf))
  }

  /** The loop of an end of day over a sound state. */
  lemma CloseExact(s: State, asOf: IsoDate) returns (p: Positions)
    requires Inv(s)
    ensures SettleEach(Positions(s.trades, s.limits), EligibleInOrder(s.trades, asOf)) == Success(p)
    ensures Steady(s, p) && p.trades == AtClose(s.trades, asOf)
  {
    hide Chain, Sound, Backed, Aggregates, Netted;
    EligibleAreDistinct(s.trades, asOf);
    hide EligibleInOrder;
    SettleEachSteady(s, Positions(s.trades, s.limits), EligibleInOrder(s.trades, asOf));
    p := SettleEach(Positions(s.trades, s.limits), EligibleInOrder(s.trades, asOf)).value;
  }

  predicate Idle(s: State, asOf: IsoDate) {
    EligibleKeys(s.trades, asOf) == {}
  }

  predicate NothingDue(trades: TradeMap, asOf: IsoDate) {
    forall k :: k in trades && trades[k].state == Confirmed ==> trades[k].terms.valueDate > asOf
  }

  lemma IdleIff(s: State, asOf: IsoDate)
    ensures Idle(s, asOf) <==> NothingDue(s.trades, asOf)
  {
    if Idle(s, asOf) {
      forall k | k in s.trades && s.trades[k].state == Confirmed ensures s.trades[k].terms.valueDate > asOf {
        assert k !in EligibleKeys(s.trades, asOf);
      }
    }
  }

  /** Confirmed versions whose value date has come are settled and otherwise unchanged; all others are unchanged. */
  predicate SettlesDue(before: TradeMap, after: TradeMap, asOf: IsoDate) {
    && after.Keys == before.Keys
    && forall k :: k in before ==>
         after[k] == if before[k].state == Confirmed && before[k].terms.valueDate <= asOf
             then before[k].(state := Settled) else before[k]
  }

  lemma CloseSettlesDue(trades: TradeMap, asOf: IsoDate)
    ensures SettlesDue(trades, AtClose(trades, asOf), asOf)
  {
  }

  /** Some net of the versions settled by the close has no int64 magnitude. */
  ghost predicate Overflows(s: State, asOf: IsoDate) {
    !AllRepresentable(SettledTrades(AtClose(s.trades, asOf)))
  }

  /** With nothing eligible an end of day is the identity; otherwise only overflow can stop it. */
  lemma EodIff(s: State, asOf: IsoDate)
    requires Inv(s)
    ensures Idle(s, asOf) <==> NothingDue(s.trades, asOf)
    ensures Idle(s, asOf) ==> AfterEod(s, asOf) == Success(s)
    ensures !Idle(s, asOf) && Overflows(s, asOf) ==> AfterEod(s, asOf) == Failure(SettlementFailure(ArithmeticOverflow))
    ensures !Idle(s, asOf) && !Overflows(s, asOf) && s.version == UINT64_MAX ==>
        AfterEod(s, asOf) == Failure(StateVersionOverflow)
    ensures !Idle(s, asOf) && !Overflows(s, asOf) && s.version < UINT64_MAX ==> AfterEod(s, asOf).Success?
  {
    hide Chain, Sound, Backed, Aggregates, Netted, Steady, NothingDue;
    IdleIff(s, asOf);
    EligibleAreDistinct(s.trades, asOf);
    var p := CloseExact(s, asOf);
    hide SettledTrades, SettleEach, EligibleInOrder, AtClose;
  }

  /** What a successful end of day changes. */
  lemma EodExact(s: State, asOf: IsoDate, next: State)
    requires Inv(s) && AfterEod(s, asOf) == Success(next)
    ensures next.trades == AtClose(s.trades, asOf)
    ensures next == s.(version := next.version, trades := next.trades, limits := next.limits,
        settlements := next.settlements)
    ensures next.version == s.version + if Idle(s, asOf) then 0 else 1
    ensures Idle(s, asOf) ==> next == s
    ensures SettlesDue(s.trades, next.trades, asOf)
    ensures next == s <==> NothingDue(s.trades, asOf)
    ensures SameCapacities(s.limits, next.limits)
    ensures Inv(next)
  {
    hide Chain, Sound, Backed, Aggregates, Netted, SameCapacities, AtClose, Inv, AfterEod, Idle, SettlesDue, NothingDue;
    EligibleAreDistinct(s.trades, asOf);
    IdleIff(s, asOf);
    CloseSettlesDue(s.trades, asOf);
    if Idle(s, asOf) {
      NothingSettles(s, asOf, next);
    } else {
      BusyClose(s, asOf, next);
    }
  }

  lemma NothingSettles(s: State, asOf: IsoDate, next: State)
    requires Inv(s) && AfterEod(s, asOf) == Success(next) && Idle(s, asOf)
    ensures next == s && AtClose(s.trades, asOf) == s.trades && SameCapacities(s.limits, s.limits)
  {
    hide Chain, Sound, Backed, Aggregates, Netted;
    EligibleAreDistinct(s.trades, asOf);
    hide EligibleInOrder;
    assert AtClose(s.trades, asOf) == s.trades;
  }

  lemma NettingExact(s: State, next: State)
    requires AfterNetting(s) == Success(next)
    ensures next == s.(version := next.version, settlements := next.settlements)
    ensures next.version == s.version + 1 && Netted(next.trades, next.settlements)
  {
    hide BilateralSettlements, SettledTrades;
  }

  lemma NettingFollows(s: State, asOf: IsoDate, p: Positions)
    requires EligibleInOrder(s.trades, asOf) != []
    requires SettleEach(Positions(s.trades, s.limits), EligibleInOrder(s.trades, asOf)) == Success(p)
    ensures AfterEod(s, asOf) == AfterNetting(s.(trades := p.trades, limits := p.limits))
  {
    hide SettleEach, EligibleInOrder, AfterNetting;
  }

  lemma BusyClose(s: State, asOf: IsoDate, next: State)
    requires Inv(s) && AfterEod(s, asOf) == Success(next) && !Idle(s, asOf)
    ensures next == s.(version := next.version, trades := AtClose(s.trades, asOf), limits := next.limits,
        settlements := next.settlements)
    ensures next.version == s.version + 1
    ensures Inv(next) && SameCapacities(s.limits, next.limits)
  {
    hide Inv, Steady, AfterNetting, SameCapacities, AfterEod, SettleEach, EligibleInOrder, AtClose;
    EligibleAreDistinct(s.trades, asOf);
    var p := CloseExact(s, asOf);
    NettingFollows(s, asOf, p);
    NettingExact(s.(trades := p.trades, limits := p.limits), next);
    ClosedIsSound(s, p, next);
  }

  lemma ClosedIsSound(s: State, p: Positions, next: State)
    requires Inv(s) && Steady(s, p) && Netted(next.trades, next.settlements)
    requires next == s.(version := next.version, trades := p.trades, limits := p.limits,
        settlements := next.settlements)
    ensures Inv(next) && SameCapacities(s.limits, next.limits)
  {
    hide Chain, Sound, Backed, Aggregates, SameCapacities, Netted;
    assert BooksOf(next) == BooksOf(s).(trades := p.trades);
  }

  // Composition

  lemma ClosesCompose(trades: TradeMap, first: IsoDate, second: IsoDate)
    requires first <= second
    ensures AtClose(AtClose(trades, first), second) == AtClose(trades, second)
  {
    var middle := AtClose(trades, first);
    forall k | k in trades ensures AtClose(middle, second)[k] == AtClose(trades, second)[k] {
      assert k in EligibleKeys(trades, first) <==> Eligible(trades[k], first);
      assert k in EligibleKeys(middle, second) <==> Eligible(middle[k], second);
      assert k in EligibleKeys(trades, second) <==> Eligible(trades[k], second);
    }
  }

  /** Two end-of-day runs at increasing dates are one run at the later date, up to the version counter. */
  lemma EodComposes(s: State, first: IsoDate, second: IsoDate, middle: State, last: State)
    requires Inv(s) && first <= second
    requires AfterEod(s, first) == Success(middle) && AfterEod(middle, second) == Success(last)
    ensures AfterEod(s, second).Success?
    ensures AfterEod(s, second).value.(version := last.version) == last
  {
    hide Inv, AfterEod, SameCapacities, SettlesDue, NothingDue, AtClose, Idle;
    EodExact(s, first, middle);
    EodExact(middle, second, last);
    ClosesCompose(s.trades, first, second);
    EodIff(s, second);
    if Idle(s, second) {
      IdleEarlier(s, first, second);
      assert last == s;
    } else {
      hide Overflows;
      NonIdleSteps(s, first, second, middle, last);
      NoOverflow(last, s, second);
      var direct := AfterEod(s, second).value;
      EodExact(s, second, direct);
      CloseIsDetermined(s, middle, direct, last);
    }
  }

  /** The close succeeds where its netted trades are those of a sound state. */
  lemma NoOverflow(last: State, s: State, asOf: IsoDate)
    requires Inv(last) && last.trades == AtClose(s.trades, asOf)
    ensures !Overflows(s, asOf)
  {
    hide Chain, Sound, Backed, Aggregates, AtClose, SettledTrades;
  }

  /** Trades and capacities determine the rest of what a close changes. */
  lemma CloseIsDetermined(s: State, middle: State, direct: State, last: State)
    requires Inv(direct) && Inv(last) && direct.trades == last.trades
    requires SameCapacities(s.limits, middle.limits) && SameCapacities(middle.limits, last.limits)
        && SameCapacities(s.limits, direct.limits)
    ensures direct.limits == last.limits && direct.settlements == last.settlements
  {
    hide Chain, Sound, Backed, Aggregates, SameCapacities, SettledTrades, BilateralSettlements;
    CapacitiesTransitive(s.limits, middle.limits, last.limits);
    SameCapacitiesJoin(s.limits, direct.limits, last.limits);
    BackingDetermines(last.trades, direct.limits, last.limits);
  }

  lemma SameCapacitiesJoin(a: LimitMap, b: LimitMap, c: LimitMap)
    requires SameCapacities(a, b) && SameCapacities(a, c)
    ensures SameCapacities(b, c)
  {
  }

  lemma IdleEarlier(s: State, first: IsoDate, second: IsoDate)
    requires first <= second && Idle(s, second)
    ensures Idle(s, first)
  {
    assert EligibleKeys(s.trades, first) <= EligibleKeys(s.trades, second);
  }

  /** If anything was eligible by the later date, one of the two runs advanced the version. */
  lemma NonIdleSteps(s: State, first: IsoDate, second: IsoDate, middle: State, last: State)
    requires Inv(s) && first <= second && !Idle(s, second)
    requires AfterEod(s, first) == Success(middle) && AfterEod(middle, second) == Success(last)
    ensures s.version < UINT64_MAX
  {
    hide Chain, Sound, Backed, Aggregates, Netted, AfterEod, SameCapacities, SettlesDue, NothingDue;
    EodExact(s, first, middle);
    EodExact(middle, second, last);
  }

  /** Running again at the same or an earlier date changes nothing. */
  lemma EodIsIdempotent(s: State, asOf: IsoDate, next: State, again: IsoDate)
    requires Inv(s) && AfterEod(s, asOf) == Success(next) && again <= asOf
    ensures AfterEod(next, again) == Success(next)
  {
    hide Chain, Sound, Backed, Aggregates, Netted, AfterEod, SameCapacities, SettlesDue, NothingDue;
    EodExact(s, asOf, next);
    forall k | k in next.trades ensures !Eligible(next.trades[k], again) {
      assert k in EligibleKeys(s.trades, asOf) <==> Eligible(s.trades[k], asOf);
    }
    assert Idle(next, again);
    EodIff(next, again);
  }
}
