/**
 Reservation conservation: what is reserved at a limit node is exactly what the
 confirmed trades through it pay, so a release can never fail.
 */
module Reservations {
  import opened Wrappers
  import opened Values
  import opened Trades
  import opened Limits
  import opened StateMachine
  import opened Sums

  predicate Through(t: Trade, k: LimitKey) {
    k in PathOf(t).Keys(t.terms.pay.currency)
  }

  /** The four balances that a payment is charged to. */
  lemma ThroughIff(t: Trade, k: LimitKey)
    ensures Through(t, k) <==>
              k.currency == t.terms.pay.currency && Encloses(k.node, t.counterpartyId, t.nettingSetId, t.bookId)
  {
    KeysEnclose(t.counterpartyId, t.nettingSetId, t.bookId, t.terms.pay.currency, k);
  }

  /** What a confirmed version pays at a node that names its own parties. */
  ghost function PaidUnder(node: LimitNode, currency: Currency): (TradeKey, Trade) -> int {
    (key: TradeKey, t: Trade) =>
      if t.state == Confirmed && t.terms.pay.currency == currency
         && Encloses(node, t.counterpartyId, t.nettingSetId, t.bookId)
      then t.terms.pay.minorUnits else 0
  }

  lemma PaidThrough(trades: TradeMap, node: LimitNode, currency: Currency)
    ensures SumOver(trades, PayThrough(LimitKey(node, currency))) == SumOver(trades, PaidUnder(node, currency))
  {
    var k := LimitKey(node, currency);
    forall key | key in trades ensures PayThrough(k)(key, trades[key]) == PaidUnder(node, currency)(key, trades[key]) {
      ThroughIff(trades[key], k);
    }
    SumAgrees(trades, trades, PayThrough(k), PaidUnder(node, currency));
  }

  /** The outgoing amount a trade holds at a limit node while it is confirmed. */
  ghost function PayThrough(k: LimitKey): (TradeKey, Trade) -> int {
    (key: TradeKey, t: Trade) => if t.state == Confirmed && Through(t, k) then t.terms.pay.minorUnits else 0
  }

  ghost predicate PathDefined(t: Trade, limits: LimitMap) {
    forall k :: Through(t, k) ==> k in limits
  }

  ghost predicate Backed(trades: TradeMap, limits: LimitMap) {
    && (forall k :: k in limits ==> limits[k].reserved == SumOver(trades, PayThrough(k)))
    && (forall key :: key in trades && trades[key].state == Confirmed ==> PathDefined(trades[key], limits))
  }

  lemma UnreservedIsBacked(limits: LimitMap)
    requires Unreserved(limits)
    ensures Backed(map[], limits)
  {
  }

  /** Storing a version that is confirmed neither before nor after changes no reservation. */
  lemma UnconfirmedKeepsBacked(trades: TradeMap, limits: LimitMap, key: TradeKey, t: Trade)
    requires Backed(trades, limits)
    requires key in trades ==> trades[key].state != Confirmed
    requires t.state != Confirmed
    ensures Backed(trades[key := t], limits)
  {
    forall k | k in limits ensures limits[k].reserved == SumOver(trades[key := t], PayThrough(k)) {
      SumStore(trades, PayThrough(k), key, t);
    }
  }

  /** Reserving a version's outgoing amount and confirming it go together. */
  lemma ReserveKeepsBacked(trades: TradeMap, limits: LimitMap, key: TradeKey, t: Trade, next: LimitMap)
    requires Backed(trades, limits)
    requires key in trades ==> trades[key].state != Confirmed
    requires t.state == Confirmed
    requires AfterReserve(limits, PathOf(t), t.terms.pay) == Success(next)
    ensures Backed(trades[key := t], next)
  {
    var keys := PathOf(t).Keys(t.terms.pay.currency);
    assert next == Raise(limits, keys, t.terms.pay.minorUnits);
    forall k | k in next ensures next[k].reserved == SumOver(trades[key := t], PayThrough(k)) {
      SumStore(trades, PayThrough(k), key, t);
    }
    forall k | Through(t, k) ensures k in next {
      var i :| 0 <= i < 4 && keys[i] == k;
      assert HasHeadroom(limits, keys[i], t.terms.pay.minorUnits);
    }
  }

  /** The outgoing amount of a confirmed version can always be released. */
  lemma ReleaseNeverFails(trades: TradeMap, limits: LimitMap, key: TradeKey)
    requires Backed(trades, limits)
    requires key in trades && trades[key].state == Confirmed
    ensures AfterRelease(limits, PathOf(trades[key]), trades[key].terms.pay).Success?
  {
    var t := trades[key];
    var keys := PathOf(t).Keys(t.terms.pay.currency);
    forall i | 0 <= i < 4 ensures HasReservation(limits, keys[i], t.terms.pay.minorUnits) {
      assert Through(t, keys[i]);
      SumBounds(trades, PayThrough(keys[i]), key);
    }
  }

  lemma ReleaseKeepsBacked(trades: TradeMap, limits: LimitMap, key: TradeKey, t: Trade)
    requires Backed(trades, limits)
    requires key in trades && trades[key].state == Confirmed
    requires t.state != Confirmed
    ensures AfterRelease(limits, PathOf(trades[key]), trades[key].terms.pay).Success?
    ensures Backed(trades[key := t], AfterRelease(limits, PathOf(trades[key]), trades[key].terms.pay).value)
  {
    ReleaseNeverFails(trades, limits, key);
    var held := trades[key];
    var keys := PathOf(held).Keys(held.terms.pay.currency);
    var next := Lower(limits, keys, held.terms.pay.minorUnits);
    forall k | k in next ensures next[k].reserved == SumOver(trades[key := t], PayThrough(k)) {
      SumStore(trades, PayThrough(k), key, t);
    }
  }

  // The hierarchy: a parent holds the sum of its children

  function Parent(n: LimitNode): Option<LimitNode> {
    match n
    case GroupNode => None
    case CounterpartyNode(_) => Some(GroupNode)
    case NettingSetNode(c, _) => Some(CounterpartyNode(c))
    case BookNode(c, s, _) => Some(NettingSetNode(c, s))
  }

  predicate IsChild(child: LimitKey, parent: LimitKey) {
    child.currency == parent.currency && Parent(child.node) == Some(parent.node)
  }

  ghost function ChildShare(parent: LimitKey): (LimitKey, Balance) -> int {
    (k: LimitKey, b: Balance) => if IsChild(k, parent) then b.reserved else 0
  }

  ghost predicate Aggregates(limits: LimitMap) {
    forall p :: p in limits && !p.node.BookNode? ==> limits[p].reserved == SumOver(limits, ChildShare(p))
  }

  lemma UnreservedAggregates(limits: LimitMap)
    requires Unreserved(limits)
    ensures Aggregates(limits)
  {
    forall p | p in limits ensures SumOver(limits, ChildShare(p)) == 0 { SumZero(limits, ChildShare(p)); }
  }

  /** Two hierarchies whose balances along one path differ by delta, and nowhere else. */
  ghost predicate MovedAlong(limits: LimitMap, next: LimitMap, path: LimitPath, currency: Currency, delta: int) {
    && next.Keys == limits.Keys
    && (forall i :: 0 <= i < 4 ==> path.Keys(currency)[i] in limits)
    && (forall k :: k in limits ==>
          next[k].reserved == limits[k].reserved + if k in path.Keys(currency) then delta else 0)
  }

  /** The one child of a non-leaf path node that is itself on the path. */
  function NextOnPath(path: LimitPath, p: LimitKey): LimitKey {
    match p.node
    case GroupNode => path.Keys(p.currency)[1]
    case CounterpartyNode(_) => path.Keys(p.currency)[2]
    case _ => path.Keys(p.currency)[3]
  }

  lemma OneChildOnPath(path: LimitPath, p: LimitKey)
    requires p in path.Keys(p.currency) && !p.node.BookNode?
    ensures NextOnPath(path, p) in path.Keys(p.currency) && IsChild(NextOnPath(path, p), p)
    ensures forall k :: k in path.Keys(p.currency) && IsChild(k, p) ==> k == NextOnPath(path, p)
  {
  }

  lemma ParentOnPath(path: LimitPath, currency: Currency, child: LimitKey, parent: LimitKey)
    requires child in path.Keys(currency) && IsChild(child, parent)
    ensures parent in path.Keys(currency)
  {
    var keys := path.Keys(currency);
    assert parent == keys[0] || parent == keys[1] || parent == keys[2];
  }

  lemma MovingKeepsShare(limits: LimitMap, next: LimitMap, path: LimitPath, currency: Currency, delta: int, p: LimitKey)
    requires MovedAlong(limits, next, path, currency, delta)
    requires p in limits && !p.node.BookNode?
    ensures SumOver(next, ChildShare(p)) == SumOver(limits, ChildShare(p)) + if p in path.Keys(currency) then delta
        else 0
  {
    var f := ChildShare(p);
    if p in path.Keys(currency) {
      var c := NextOnPath(path, p);
      OneChildOnPath(path, p);
      hide NextOnPath, IsChild;
      assert c in limits;
      SumStore(limits, f, c, next[c]);
      SumCongruent(limits[c := next[c]], next, f);
    } else {
      forall k | k in path.Keys(currency) ensures !IsChild(k, p) {
        if IsChild(k, p) { ParentOnPath(path, currency, k, p); }
      }
      SumCongruent(limits, next, f);
    }
  }

  lemma MovingKeepsAggregates(limits: LimitMap, next: LimitMap, path: LimitPath, currency: Currency, delta: int)
    requires Aggregates(limits) && MovedAlong(limits, next, path, currency, delta)
    ensures Aggregates(next)
  {
    forall p | p in next && !p.node.BookNode? ensures next[p].reserved == SumOver(next, ChildShare(p)) {
      MovingKeepsShare(limits, next, path, currency, delta, p);
    }
  }

  lemma ReserveKeepsAggregates(limits: LimitMap, path: LimitPath, outgoing: Money)
    requires Aggregates(limits) && AfterReserve(limits, path, outgoing).Success?
    ensures Aggregates(AfterReserve(limits, path, outgoing).value)
  {
    var keys := path.Keys(outgoing.currency);
    assert forall i :: 0 <= i < 4 ==> HasHeadroom(limits, keys[i], outgoing.minorUnits);
    MovingKeepsAggregates(limits, AfterReserve(limits, path, outgoing).value, path, outgoing.currency,
        outgoing.minorUnits);
  }

  lemma ReleaseKeepsAggregates(limits: LimitMap, path: LimitPath, outgoing: Money)
    requires Aggregates(limits) && AfterRelease(limits, path, outgoing).Success?
    ensures Aggregates(AfterRelease(limits, path, outgoing).value)
  {
    var keys := path.Keys(outgoing.currency);
    assert forall i :: 0 <= i < 4 ==> HasReservation(limits, keys[i], outgoing.minorUnits);
    MovingKeepsAggregates(limits, AfterRelease(limits, path, outgoing).value, path, outgoing.currency,
        -outgoing.minorUnits);
  }

  // Definitions are never changed by an operation

  ghost predicate SameCapacities(a: LimitMap, b: LimitMap) {
    a.Keys == b.Keys && forall k :: k in a ==> a[k].capacity == b[k].capacity
  }

  /** Capacities and confirmed trades determine the whole hierarchy. */
  lemma BackingDetermines(trades: TradeMap, a: LimitMap, b: LimitMap)
    requires Backed(trades, a) && Backed(trades, b) && SameCapacities(a, b)
    ensures a == b
  {
    forall k | k in a ensures a[k] == b[k] {
      assert a[k].reserved == SumOver(trades, PayThrough(k)) == b[k].reserved;
    }
  }
}
