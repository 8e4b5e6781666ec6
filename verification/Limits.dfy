/**
 Hierarchical reservations per currency (limits.cpp).  A reservation is
 charged to every node of a root-to-leaf path, or to none.
 */
module Limits {
  import opened Wrappers
  import opened Values

  datatype LimitNode =
    | GroupNode
    | CounterpartyNode(counterpartyId: CounterpartyId)
    | NettingSetNode(counterpartyId: CounterpartyId, nettingSetId: NettingSetId)
    | BookNode(counterpartyId: CounterpartyId, nettingSetId: NettingSetId, bookId: BookId)

  datatype LimitPath = LimitPath(counterpartyId: CounterpartyId, nettingSetId: NettingSetId, bookId: BookId)
  {
    function Nodes(): seq<LimitNode> {
      [GroupNode,
       CounterpartyNode(counterpartyId),
       NettingSetNode(counterpartyId, nettingSetId),
       BookNode(counterpartyId, nettingSetId, bookId)]
    }

    function Keys(currency: Currency): (keys: seq<LimitKey>)
      ensures |keys| == 4
    {
      var nodes := Nodes();
      [LimitKey(nodes[0], currency), LimitKey(nodes[1], currency), LimitKey(nodes[2], currency),
          LimitKey(nodes[3], currency)]
    }
  }

  datatype LimitKey = LimitKey(node: LimitNode, currency: Currency)

  datatype BalanceData = Balance(capacity: int64, reserved: int64)

  /** The class invariant of a limit balance. */
  type Balance = b: BalanceData | 0 <= b.reserved <= b.capacity witness Balance(0, 0)

  type LimitMap = map<LimitKey, Balance>

  datatype LimitErrorCode =
    | InvalidCapacity | DuplicateDefinition | UnknownNode
    | NonPositiveReservation | Breach | ReleaseExceedsReservation

  datatype LimitError = LimitError(code: LimitErrorCode, node: LimitNode, currency: Currency, required: int64,
      remaining: int64)

  // Definition of a hierarchy

  datatype LimitDefinition = LimitDefinition(node: LimitNode, capacity: Money)
  {
    function Key(): LimitKey {
      LimitKey(node, capacity.currency)
    }
  }

  ghost predicate DefinesOnce(definitions: seq<LimitDefinition>) {
    && (forall d :: d in definitions ==> d.capacity.minorUnits >= 0)
    && (forall i, j :: 0 <= i < j < |definitions| ==> definitions[i].Key() != definitions[j].Key())
  }

  /** No reservation has been made yet. */
  ghost predicate Unreserved(limits: LimitMap) {
    forall k :: k in limits ==> limits[k].reserved == 0
  }

  /** What is wrong with a definition that follows some good ones: a negative capacity, or else a repeated key. */
  function DefectOf(earlier: seq<LimitDefinition>, d: LimitDefinition): Option<LimitError> {
    var amount := d.capacity.minorUnits;
    if amount < 0 then Some(LimitError(InvalidCapacity, d.node, d.capacity.currency, amount, 0))
    else if exists e :: e in earlier && e.Key() == d.Key() then
      Some(LimitError(DuplicateDefinition, d.node, d.capacity.currency, 0, 0))
    else None
  }

  /** The first defect in the order of the definitions. */
  function FirstDefectOf(definitions: seq<LimitDefinition>): Option<LimitError> {
    if definitions == [] then None
    else
      var front, last := definitions[..|definitions| - 1], definitions[|definitions| - 1];
      if FirstDefectOf(front).Some? then FirstDefectOf(front) else DefectOf(front, last)
  }

  lemma {:induction false} DefectStays(definitions: seq<LimitDefinition>, i: nat)
    requires i <= |definitions| && FirstDefectOf(definitions[..i]).Some?
    ensures FirstDefectOf(definitions) == FirstDefectOf(definitions[..i])
    decreases |definitions| - i
  {
    if i == |definitions| {
      assert definitions[..i] == definitions;
    } else {
      assert definitions[..i + 1][..i] == definitions[..i];
      DefectStays(definitions, i + 1);
    }
  }

  /** No defect is found exactly when no capacity is negative and no key is defined twice. */
  lemma {:induction false} NoDefectIff(definitions: seq<LimitDefinition>)
    ensures FirstDefectOf(definitions).None? <==> DefinesOnce(definitions)
  {
    if definitions == [] {
    } else {
      var n := |definitions| - 1;
      var front, last := definitions[..n], definitions[n];
      NoDefectIff(front);
      assert definitions == front + [last];
      if DefinesOnce(definitions) {
        forall e | e in front ensures e.Key() != last.Key() {
          var i :| 0 <= i < n && front[i] == e;
          assert definitions[i].Key() != definitions[n].Key();
        }
        assert DefinesOnce(front) by {
          forall i, j | 0 <= i < j < n ensures front[i].Key() != front[j].Key() {
            assert definitions[i] == front[i] && definitions[j] == front[j];
          }
        }
      }
    }
  }

  lemma DefectNext(definitions: seq<LimitDefinition>, i: nat)
    requires i < |definitions| && FirstDefectOf(definitions[..i]).None?
    ensures FirstDefectOf(definitions[..i + 1]) == DefectOf(definitions[..i], definitions[i])
  {
    assert definitions[..i + 1][..i] == definitions[..i];
  }

  lemma DefectIs(balances: LimitMap, earlier: seq<LimitDefinition>, d: LimitDefinition)
    requires Holds(balances, earlier)
    ensures DefectOf(earlier, d) ==
            if d.capacity.minorUnits < 0 then
              Some(LimitError(InvalidCapacity, d.node, d.capacity.currency, d.capacity.minorUnits, 0))
            else if d.Key() in balances then Some(LimitError(DuplicateDefinition, d.node, d.capacity.currency, 0, 0))
            else None
  {
  }

  lemma NothingHeld()
    ensures Holds(map[], []) && FirstDefectOf([]).None?
  {
  }

  /** The hierarchy that holds the given capacities and no reservation, or the first defect. */
  method CreateLimits(definitions: seq<LimitDefinition>) returns (r: Outcome<LimitMap, LimitError>)
    ensures r.Success? <==> DefinesOnce(definitions)
    ensures r.Failure? ==> Some(r.error) == FirstDefectOf(definitions)
    ensures r.Success? ==> Holds(r.value, definitions)
  {
    hide DefinesOnce, FirstDefectOf, DefectOf, Holds;
    NoDefectIff(definitions);
    NothingHeld();
    var balances: LimitMap := map[];
    for i := 0 to |definitions|
      invariant FirstDefectOf(definitions[..i]).None?
      invariant Holds(balances, definitions[..i])
    {
      var definition := definitions[i];
      var amount := definition.capacity.minorUnits;
      DefectNext(definitions, i);
      DefectIs(balances, definitions[..i], definition);
      if amount < 0 {
        DefectStays(definitions, i + 1);
        return Failure(LimitError(InvalidCapacity, definition.node, definition.capacity.currency, amount, 0));
      }
      if definition.Key() in balances {
        DefectStays(definitions, i + 1);
        return Failure(LimitError(DuplicateDefinition, definition.node, definition.capacity.currency, 0, 0));
      }
      DefineOne(balances, definitions[..i], definition);
      assert definitions[..i + 1] == definitions[..i] + [definition];
      balances := balances[definition.Key() := Balance(amount, 0)];
    }
    assert definitions[..|definitions|] == definitions;
    return Success(balances);
  }

  /** Exactly the given capacities, with nothing reserved. */
  ghost predicate Holds(balances: LimitMap, definitions: seq<LimitDefinition>) {
    && Unreserved(balances)
    && (forall k :: k in balances <==> exists d :: d in definitions && d.Key() == k)
    && (forall d :: d in definitions ==> d.Key() in balances && balances[d.Key()].capacity == d.capacity.minorUnits)
  }

  /** Key by key: a balance for each definition's node and currency with its amount, and no other balance. */
  lemma HeldIs(balances: LimitMap, definitions: seq<LimitDefinition>)
    requires Holds(balances, definitions)
    ensures forall i :: 0 <= i < |definitions| ==>
              var k := LimitKey(definitions[i].node, definitions[i].capacity.currency);
              k in balances && balances[k] == Balance(definitions[i].capacity.minorUnits, 0)
    ensures forall k :: k in balances ==> exists i ::
              0 <= i < |definitions| && definitions[i].node == k.node && definitions[i].capacity.currency == k.currency
  {
    forall i | 0 <= i < |definitions|
      ensures definitions[i].Key() in balances
          && balances[definitions[i].Key()] == Balance(definitions[i].capacity.minorUnits, 0)
    {
      assert definitions[i] in definitions;
    }
  }

  lemma DefineOne(balances: LimitMap, definitions: seq<LimitDefinition>, d: LimitDefinition)
    requires Holds(balances, definitions) && d.Key() !in balances && d.capacity.minorUnits >= 0
    ensures Holds(balances[d.Key() := Balance(d.capacity.minorUnits, 0)], definitions + [d])
  {
    var next := balances[d.Key() := Balance(d.capacity.minorUnits, 0)];
    assert forall e :: e in definitions + [d] <==> e in definitions || e == d;
    forall k ensures k in next <==> exists e :: e in definitions + [d] && e.Key() == k {
      if k == d.Key() { assert d in definitions + [d]; }
    }
  }

  function Move(b: Balance, delta: int): Balance
    requires 0 <= b.reserved + delta <= b.capacity
  {
    Balance(b.capacity, b.reserved + delta)
  }

  // Reserve

  predicate HasHeadroom(limits: LimitMap, k: LimitKey, amount: int) {
    k in limits && amount <= limits[k].capacity - limits[k].reserved
  }

  function BreachAt(limits: LimitMap, k: LimitKey, amount: int64): LimitError
    requires !HasHeadroom(limits, k, amount)
  {
    if k !in limits then LimitError(UnknownNode, k.node, k.currency, amount, 0)
    else LimitError(Breach, k.node, k.currency, amount, limits[k].capacity - limits[k].reserved)
  }

  /** The first key, root to leaf, that cannot take the reservation. */
  function FirstBreach(limits: LimitMap, keys: seq<LimitKey>, amount: int64): (r: Option<LimitError>)
    ensures r.None? <==> forall i :: 0 <= i < |keys| ==> HasHeadroom(limits, keys[i], amount)
    ensures r.Some? ==>
              exists i :: IsFirstBreach(limits, keys, amount, i) && r.value == BreachAt(limits, keys[i], amount)
  {
    if keys == [] then None
    else if !HasHeadroom(limits, keys[0], amount) then
      assert IsFirstBreach(limits, keys, amount, 0);
      Some(BreachAt(limits, keys[0], amount))
    else
      var rest := FirstBreach(limits, keys[1..], amount);
      assert forall i :: IsFirstBreach(limits, keys[1..], amount, i) ==> IsFirstBreach(limits, keys, amount, i + 1);
      rest
  }

  predicate IsFirstBreach(limits: LimitMap, keys: seq<LimitKey>, amount: int, i: int) {
    && 0 <= i < |keys| && !HasHeadroom(limits, keys[i], amount)
    && forall j :: 0 <= j < i ==> HasHeadroom(limits, keys[j], amount)
  }

  function Raise(limits: LimitMap, keys: seq<LimitKey>, amount: int64): LimitMap
    requires amount > 0
    requires forall i :: 0 <= i < |keys| ==> HasHeadroom(limits, keys[i], amount)
  {
    assert forall k :: k in keys ==> HasHeadroom(limits, k, amount);
    map k | k in limits :: if k in keys then Move(limits[k], amount) else limits[k]
  }

  /** The hierarchy after a reservation: every node of the path raised, or the first failing node reported. */
  function AfterReserve(limits: LimitMap, path: LimitPath, outgoing: Money): Outcome<LimitMap, LimitError> {
    if outgoing.minorUnits <= 0 then
      Failure(LimitError(NonPositiveReservation, GroupNode, outgoing.currency, outgoing.minorUnits, 0))
    else
      match FirstBreach(limits, path.Keys(outgoing.currency), outgoing.minorUnits)
      case Some(e) => Failure(e)
      case None => Success(Raise(limits, path.Keys(outgoing.currency), outgoing.minorUnits))
  }

  method Reserve(limits: LimitMap, path: LimitPath, outgoing: Money) returns (r: Outcome<LimitMap, LimitError>)
    ensures r == AfterReserve(limits, path, outgoing)
  {
    if outgoing.minorUnits <= 0 {
      return Failure(LimitError(NonPositiveReservation, GroupNode, outgoing.currency, outgoing.minorUnits, 0));
    }
    var keys, amount := path.Keys(outgoing.currency), outgoing.minorUnits;
    for i := 0 to |keys|
      invariant FirstBreach(limits, keys, amount) == FirstBreach(limits, keys[i..], amount)
    {
      if !HasHeadroom(limits, keys[i], amount) {
        return Failure(BreachAt(limits, keys[i], amount));
      }
      assert keys[i..][1..] == keys[i + 1..];
    }
    // No balance changes unless all four can take the amount.
    var next := RaiseEach(limits, keys, amount);
    return Success(next);
  }

  method RaiseEach(limits: LimitMap, keys: seq<LimitKey>, amount: int64) returns (next: LimitMap)
    requires amount > 0
    requires forall i, j :: 0 <= i < j < |keys| ==> keys[i] != keys[j]
    requires forall i :: 0 <= i < |keys| ==> HasHeadroom(limits, keys[i], amount)
    ensures next == Raise(limits, keys, amount)
  {
    next := limits;
    for i := 0 to |keys|
      invariant next == Raise(limits, keys[..i], amount)
    {
      assert HasHeadroom(limits, keys[i], amount) && keys[i] !in keys[..i];
      next := next[keys[i] := Move(next[keys[i]], amount)];
      assert keys[..i + 1] == keys[..i] + [keys[i]];
      assert next.Keys == limits.Keys;
    }
    assert keys[..|keys|] == keys;
  }

  // Release

  predicate HasReservation(limits: LimitMap, k: LimitKey, amount: int) {
    k in limits && amount <= limits[k].reserved
  }

  function UnheldAt(limits: LimitMap, k: LimitKey, amount: int64): LimitError
    requires !HasReservation(limits, k, amount)
  {
    if k !in limits then LimitError(UnknownNode, k.node, k.currency, amount, 0)
    else LimitError(ReleaseExceedsReservation, k.node, k.currency, amount, limits[k].reserved)
  }

  /** The first key, root to leaf, that does not hold the reservation. */
  function FirstUnheld(limits: LimitMap, keys: seq<LimitKey>, amount: int64): (r: Option<LimitError>)
    ensures r.None? <==> forall i :: 0 <= i < |keys| ==> HasReservation(limits, keys[i], amount)
  {
    if keys == [] then None
    else if !HasReservation(limits, keys[0], amount) then Some(UnheldAt(limits, keys[0], amount))
    else FirstUnheld(limits, keys[1..], amount)
  }

  function Lower(limits: LimitMap, keys: seq<LimitKey>, amount: int64): LimitMap
    requires amount > 0
    requires forall i :: 0 <= i < |keys| ==> HasReservation(limits, keys[i], amount)
  {
    assert forall k :: k in keys ==> HasReservation(limits, k, amount);
    map k | k in limits :: if k in keys then Move(limits[k], -amount) else limits[k]
  }

  function AfterRelease(limits: LimitMap, path: LimitPath, outgoing: Money): Outcome<LimitMap, LimitError> {
    if outgoing.minorUnits <= 0 then
      Failure(LimitError(NonPositiveReservation, GroupNode, outgoing.currency, outgoing.minorUnits, 0))
    else
      match FirstUnheld(limits, path.Keys(outgoing.currency), outgoing.minorUnits)
      case Some(e) => Failure(e)
      case None => Success(Lower(limits, path.Keys(outgoing.currency), outgoing.minorUnits))
  }

  method Release(limits: LimitMap, path: LimitPath, outgoing: Money) returns (r: Outcome<LimitMap, LimitError>)
    ensures r == AfterRelease(limits, path, outgoing)
  {
    if outgoing.minorUnits <= 0 {
      return Failure(LimitError(NonPositiveReservation, GroupNode, outgoing.currency, outgoing.minorUnits, 0));
    }
    var keys, amount := path.Keys(outgoing.currency), outgoing.minorUnits;
    for i := 0 to |keys|
      invariant FirstUnheld(limits, keys, amount) == FirstUnheld(limits, keys[i..], amount)
    {
      if !HasReservation(limits, keys[i], amount) {
        return Failure(UnheldAt(limits, keys[i], amount));
      }
      assert keys[i..][1..] == keys[i + 1..];
    }
    var next := LowerEach(limits, keys, amount);
    return Success(next);
  }

  method LowerEach(limits: LimitMap, keys: seq<LimitKey>, amount: int64) returns (next: LimitMap)
    requires amount > 0
    requires forall i, j :: 0 <= i < j < |keys| ==> keys[i] != keys[j]
    requires forall i :: 0 <= i < |keys| ==> HasReservation(limits, keys[i], amount)
    ensures next == Lower(limits, keys, amount)
  {
    next := limits;
    for i := 0 to |keys|
      invariant next == Lower(limits, keys[..i], amount)
    {
      assert HasReservation(limits, keys[i], amount) && keys[i] !in keys[..i];
      next := next[keys[i] := Move(next[keys[i]], -amount)];
      assert keys[..i + 1] == keys[..i] + [keys[i]];
      assert next.Keys == limits.Keys;
    }
    assert keys[..|keys|] == keys;
  }

  /** Releasing what was just reserved restores the hierarchy exactly. */
  lemma ReleaseUndoesReserve(limits: LimitMap, path: LimitPath, outgoing: Money)
    requires AfterReserve(limits, path, outgoing).Success?
    ensures AfterRelease(AfterReserve(limits, path, outgoing).value, path, outgoing) == Success(limits)
  {
    var keys := path.Keys(outgoing.currency);
    var raised := AfterReserve(limits, path, outgoing).value;
    forall i | 0 <= i < |keys| ensures HasReservation(raised, keys[i], outgoing.minorUnits) {
      assert HasHeadroom(limits, keys[i], outgoing.minorUnits);
    }
    assert Lower(raised, keys, outgoing.minorUnits) == limits;
  }

  // The two operations in terms of the ids on the path

  /** The node is the group, or names the given counterparty, netting set and book as far as it names any. */
  predicate Encloses(node: LimitNode, counterpartyId: CounterpartyId, nettingSetId: NettingSetId, bookId: BookId) {
    match node
    case GroupNode => true
    case CounterpartyNode(c) => c == counterpartyId
    case NettingSetNode(c, n) => c == counterpartyId && n == nettingSetId
    case BookNode(c, n, b) => c == counterpartyId && n == nettingSetId && b == bookId
  }

  lemma KeysEnclose(counterpartyId: CounterpartyId, nettingSetId: NettingSetId, bookId: BookId, currency: Currency,
          k: LimitKey)
    ensures k in LimitPath(counterpartyId, nettingSetId, bookId).Keys(currency) <==>
              k.currency == currency && Encloses(k.node, counterpartyId, nettingSetId, bookId)
  {
    var keys := LimitPath(counterpartyId, nettingSetId, bookId).Keys(currency);
    if k.currency == currency && Encloses(k.node, counterpartyId, nettingSetId, bookId) {
      assert k == keys[0] || k == keys[1] || k == keys[2] || k == keys[3];
    }
  }

  predicate HasRoom(limits: LimitMap, node: LimitNode, outgoing: Money) {
    var k := LimitKey(node, outgoing.currency);
    k in limits && limits[k].reserved + outgoing.minorUnits <= limits[k].capacity
  }

  /** Every enclosing balance of the currency moves by delta, and nothing else changes. */
  predicate Moved(before: LimitMap, after: LimitMap, counterpartyId: CounterpartyId, nettingSetId: NettingSetId,
          bookId: BookId, currency: Currency, delta: int)
  {
    && after.Keys == before.Keys
    && forall k :: k in before ==>
         && after[k].capacity == before[k].capacity
         && after[k].reserved == before[k].reserved
             + if k.currency == currency && Encloses(k.node, counterpartyId, nettingSetId, bookId) then delta else 0
  }

  lemma ReserveMoves(limits: LimitMap, counterpartyId: CounterpartyId, nettingSetId: NettingSetId, bookId: BookId,
          outgoing: Money, next: LimitMap)
    requires AfterReserve(limits, LimitPath(counterpartyId, nettingSetId, bookId), outgoing) == Success(next)
    ensures Moved(limits, next, counterpartyId, nettingSetId, bookId, outgoing.currency, outgoing.minorUnits)
  {
    hide Encloses;
    forall k ensures k in LimitPath(counterpartyId, nettingSetId, bookId).Keys(outgoing.currency) <==>
              k.currency == outgoing.currency && Encloses(k.node, counterpartyId, nettingSetId, bookId)
    {
      KeysEnclose(counterpartyId, nettingSetId, bookId, outgoing.currency, k);
    }
  }

  lemma ReleaseMoves(limits: LimitMap, counterpartyId: CounterpartyId, nettingSetId: NettingSetId, bookId: BookId,
          outgoing: Money, next: LimitMap)
    requires AfterRelease(limits, LimitPath(counterpartyId, nettingSetId, bookId), outgoing) == Success(next)
    ensures Moved(limits, next, counterpartyId, nettingSetId, bookId, outgoing.currency, -outgoing.minorUnits)
  {
    hide Encloses;
    forall k ensures k in LimitPath(counterpartyId, nettingSetId, bookId).Keys(outgoing.currency) <==>
              k.currency == outgoing.currency && Encloses(k.node, counterpartyId, nettingSetId, bookId)
    {
      KeysEnclose(counterpartyId, nettingSetId, bookId, outgoing.currency, k);
    }
  }

  /** A refused reservation names the enclosing node nearest the root that lacks room, and what it had left. */
  lemma ReserveRefusal(limits: LimitMap, counterpartyId: CounterpartyId, nettingSetId: NettingSetId, bookId: BookId,
          outgoing: Money, e: LimitError)
    requires outgoing.minorUnits > 0
    requires AfterReserve(limits, LimitPath(counterpartyId, nettingSetId, bookId), outgoing) == Failure(e)
    ensures e.currency == outgoing.currency && e.required == outgoing.minorUnits
    ensures Encloses(e.node, counterpartyId, nettingSetId, bookId) && !HasRoom(limits, e.node, outgoing)
    ensures !e.node.GroupNode? ==> HasRoom(limits, GroupNode, outgoing)
    ensures e.node.NettingSetNode? || e.node.BookNode? ==>
        HasRoom(limits, CounterpartyNode(counterpartyId), outgoing)
    ensures e.node.BookNode? ==> HasRoom(limits, NettingSetNode(counterpartyId, nettingSetId), outgoing)
    ensures var k := LimitKey(e.node, outgoing.currency);
            if k in limits then e.code == Breach && e.remaining == limits[k].capacity - limits[k].reserved
            else e.code == UnknownNode && e.remaining == 0
  {
    var keys := LimitPath(counterpartyId, nettingSetId, bookId).Keys(outgoing.currency);
    var i :| IsFirstBreach(limits, keys, outgoing.minorUnits, i) && e == BreachAt(limits, keys[i], outgoing.minorUnits);
    forall j | 0 <= j < i ensures HasRoom(limits, keys[j].node, outgoing) {
      assert HasHeadroom(limits, keys[j], outgoing.minorUnits);
    }
    assert i > 0 ==> HasRoom(limits, keys[0].node, outgoing);
    assert i > 1 ==> HasRoom(limits, keys[1].node, outgoing);
    assert i > 2 ==> HasRoom(limits, keys[2].node, outgoing);
  }

  predicate HasHeld(limits: LimitMap, node: LimitNode, outgoing: Money) {
    var k := LimitKey(node, outgoing.currency);
    k in limits && outgoing.minorUnits <= limits[k].reserved
  }

  /** A refused release names the enclosing node nearest the root that does not hold the amount, and what it holds. */
  lemma ReleaseRefusal(limits: LimitMap, counterpartyId: CounterpartyId, nettingSetId: NettingSetId, bookId: BookId,
          outgoing: Money, e: LimitError)
    requires outgoing.minorUnits > 0
    requires AfterRelease(limits, LimitPath(counterpartyId, nettingSetId, bookId), outgoing) == Failure(e)
    ensures e.currency == outgoing.currency && e.required == outgoing.minorUnits
    ensures Encloses(e.node, counterpartyId, nettingSetId, bookId) && !HasHeld(limits, e.node, outgoing)
    ensures !e.node.GroupNode? ==> HasHeld(limits, GroupNode, outgoing)
    ensures e.node.NettingSetNode? || e.node.BookNode? ==>
        HasHeld(limits, CounterpartyNode(counterpartyId), outgoing)
    ensures e.node.BookNode? ==> HasHeld(limits, NettingSetNode(counterpartyId, nettingSetId), outgoing)
    ensures var k := LimitKey(e.node, outgoing.currency);
            if k in limits then e.code == ReleaseExceedsReservation && e.remaining == limits[k].reserved
            else e.code == UnknownNode && e.remaining == 0
  {
    var keys := LimitPath(counterpartyId, nettingSetId, bookId).Keys(outgoing.currency);
    var amount := outgoing.minorUnits;
    UnheldNext(limits, keys, amount, 0);
    UnheldNext(limits, keys, amount, 1);
    UnheldNext(limits, keys, amount, 2);
    UnheldNext(limits, keys, amount, 3);
    assert FirstUnheld(limits, keys[4..], amount).None?;
  }

  lemma UnheldNext(limits: LimitMap, keys: seq<LimitKey>, amount: int64, i: nat)
    requires i < |keys|
    ensures FirstUnheld(limits, keys[i..], amount) ==
        if !HasReservation(limits, keys[i], amount) then Some(UnheldAt(limits, keys[i], amount))
        else FirstUnheld(limits, keys[i + 1..], amount)
  {
    assert keys[i..][1..] == keys[i + 1..];
  }
}
