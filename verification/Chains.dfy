/**
 Version chains: a trade with current version v stores exactly the versions
 1..v, linked both ways, and only the last one is open or final.
 */
module Chains {
  import opened Wrappers
  import opened Values
  import opened Trades
  import opened StateMachine

  predicate SameParties(a: Trade, b: Trade) {
    a.bookId == b.bookId && a.counterpartyId == b.counterpartyId && a.nettingSetId == b.nettingSetId
  }

  /** One version of a chain whose current version is last. */
  predicate Linked(t: Trade, last: uint32) {
    && 1 <= t.version <= last
    && t.supersedes == (if t.version == 1 then None else Some(t.version - 1))
    && (t.version < last ==> t.state == Superseded && t.supersededBy == Some(t.version + 1))
    && (t.version == last ==> t.state != Superseded && t.supersededBy == None)
    && (t.state == Captured ==> t.version == 1)
  }

  predicate StoredAt(k: TradeKey, t: Trade) {
    t.id == k.tradeId && t.version == k.version
  }

  ghost predicate Stored(trades: TradeMap, current: map<TradeId, uint32>) {
    forall k :: k in trades ==> StoredAt(k, trades[k]) && k.tradeId in current && Linked(trades[k], current[k.tradeId])
  }

  ghost predicate Complete(trades: TradeMap, current: map<TradeId, uint32>) {
    && (forall id :: id in current ==> current[id] >= 1)
    && (forall id, v: uint32 {:trigger TradeKey(id, v)} :: id in current && 1 <= v <= current[id] ==>
        TradeKey(id, v) in trades)
  }

  ghost predicate OneParty(trades: TradeMap) {
    forall j, k :: j in trades && k in trades && j.tradeId == k.tradeId ==> SameParties(trades[j], trades[k])
  }

  ghost predicate Chain(trades: TradeMap, current: map<TradeId, uint32>) {
    Stored(trades, current) && Complete(trades, current) && OneParty(trades)
  }

  lemma BookingKeepsChain(trades: TradeMap, current: map<TradeId, uint32>, id: TradeId, t: Trade)
    requires Chain(trades, current)
    requires id !in current
    requires t.id == id && t == Capture(id, t.bookId, t.counterpartyId, t.nettingSetId, t.terms)
    ensures TradeKey(id, 1) !in trades
    ensures Chain(trades[TradeKey(id, 1) := t], current[id := 1])
  {
    forall v: uint32 | 1 <= v <= 1 ensures TradeKey(id, v) == TradeKey(id, 1) {}
  }

  /** The current version changes state without leaving the chain. */
  predicate Advances(t: Trade, next: Trade) {
    next == t.(state := next.state) && next.state != Superseded && next.state != Captured
  }

  lemma AdvancingKeepsChain(trades: TradeMap, current: map<TradeId, uint32>, k: TradeKey, next: Trade)
    requires Chain(trades, current)
    requires k in trades && k.version == current[k.tradeId] && Advances(trades[k], next)
    ensures Chain(trades[k := next], current)
  {
  }

  /** The current version is superseded by the next one. */
  ghost predicate Extends(trades: TradeMap, current: map<TradeId, uint32>, k: TradeKey, a: TradeAmendment) {
    && k in trades && k.tradeId in current && k.version == current[k.tradeId]
    && exists terms :: AmendTradeVersion(trades[k], terms) == Success(a)
  }

  function Superseding(trades: TradeMap, k: TradeKey, a: TradeAmendment): TradeMap {
    trades[k := a.superseded][TradeKey(k.tradeId, a.replacement.version) := a.replacement]
  }

  lemma ExtensionIs(trades: TradeMap, current: map<TradeId, uint32>, k: TradeKey, a: TradeAmendment)
    requires Extends(trades, current, k, a)
    ensures var t := trades[k];
            && 0 < t.version < UINT32_MAX && t.state == Confirmed
            && a.superseded == t.(state := Superseded, supersededBy := Some(t.version + 1))
            && a.replacement == t.(version := t.version + 1, terms := a.replacement.terms,
                                   supersedes := Some(t.version), supersededBy := None)
  {
  }

  /** What is linked below the last version stays linked when another follows. */
  lemma LinkedGrows(t: Trade, last: uint32)
    requires Linked(t, last) && t.version < last < UINT32_MAX
    ensures Linked(t, last + 1)
  {
  }

  lemma AmendmentIsLinked(t: Trade, last: uint32, a: TradeAmendment)
    requires Linked(t, last) && t.version == last < UINT32_MAX && t.state == Confirmed
    requires a.superseded == t.(state := Superseded, supersededBy := Some(last + 1))
    requires a.replacement == t.(version := last + 1, terms := a.replacement.terms,
                                 supersedes := Some(last), supersededBy := None)
    ensures Linked(a.superseded, last + 1) && Linked(a.replacement, last + 1)
  {
  }

  lemma ExtendingKeepsStored(trades: TradeMap, current: map<TradeId, uint32>, k: TradeKey, a: TradeAmendment)
    requires Stored(trades, current) && Extends(trades, current, k, a)
    ensures TradeKey(k.tradeId, a.replacement.version) !in trades
    ensures Stored(Superseding(trades, k, a), current[k.tradeId := a.replacement.version])
  {
    hide AmendTradeVersion, Linked;
    ExtensionIs(trades, current, k, a);
    var next, last := Superseding(trades, k, a), current[k.tradeId := a.replacement.version];
    assert StoredAt(k, trades[k]) && Linked(trades[k], current[k.tradeId]);
    AmendmentIsLinked(trades[k], k.version, a);
    assert TradeKey(k.tradeId, a.replacement.version) !in trades by { LastIsLast(trades, current, k.tradeId); }
    forall j | j in next ensures StoredAt(j, next[j]) && j.tradeId in last && Linked(next[j], last[j.tradeId]) {
      if j in trades && j != k {
        assert StoredAt(j, trades[j]) && Linked(trades[j], current[j.tradeId]);
        if j.tradeId == k.tradeId {
          LastIsLast(trades, current, k.tradeId);
          LinkedGrows(trades[j], k.version);
        }
      }
    }
  }

  lemma LastIsLast(trades: TradeMap, current: map<TradeId, uint32>, id: TradeId)
    requires Stored(trades, current) && id in current
    ensures forall j :: j in trades && j.tradeId == id ==> j.version <= current[id]
  {
    forall j | j in trades && j.tradeId == id ensures j.version <= current[id] {
      assert StoredAt(j, trades[j]) && Linked(trades[j], current[id]);
    }
  }

  lemma ExtendingKeepsParties(trades: TradeMap, current: map<TradeId, uint32>, k: TradeKey, a: TradeAmendment)
    requires OneParty(trades) && Extends(trades, current, k, a)
    ensures OneParty(Superseding(trades, k, a))
  {
    hide AmendTradeVersion;
    ExtensionIs(trades, current, k, a);
    var next := Superseding(trades, k, a);
    forall j | j in next && j.tradeId == k.tradeId ensures SameParties(next[j], trades[k]) {
      if j in trades { assert SameParties(trades[j], trades[k]); }
    }
  }

  lemma CurrentVersionOf(trades: TradeMap, current: map<TradeId, uint32>, k: TradeKey)
    requires Stored(trades, current) && k in trades
    ensures k.tradeId in current && trades[k].version == k.version
  {
    assert StoredAt(k, trades[k]);
  }

  lemma AmendingKeepsChain(trades: TradeMap, current: map<TradeId, uint32>, k: TradeKey, a: TradeAmendment)
    requires Chain(trades, current) && Extends(trades, current, k, a)
    ensures TradeKey(k.tradeId, a.replacement.version) !in trades
    ensures Chain(Superseding(trades, k, a), current[k.tradeId := a.replacement.version])
  {
    hide Stored, OneParty, AmendTradeVersion;
    ExtensionIs(trades, current, k, a);
    ExtendingKeepsStored(trades, current, k, a);
    ExtendingKeepsParties(trades, current, k, a);
    CurrentVersionOf(trades, current, k);
    assert Complete(Superseding(trades, k, a), current[k.tradeId := a.replacement.version]);
  }

  /** The current version is the only one that is not superseded. */
  lemma OnlyCurrentIsOpen(trades: TradeMap, current: map<TradeId, uint32>, k: TradeKey)
    requires Chain(trades, current) && k in trades
    ensures trades[k].state != Superseded <==> k.version == current[k.tradeId]
  {
  }

  /** Looking up the current trade always succeeds for a known id, at its current version. */
  lemma CurrentIsStored(s: State, id: TradeId)
    requires Chain(s.trades, s.currentVersions)
    ensures id in s.currentVersions <==> s.CurrentTrade(id).Some?
    ensures id in s.currentVersions ==> s.CurrentTrade(id) == Some(s.trades[TradeKey(id, s.currentVersions[id])])
    ensures id in s.currentVersions ==> s.CurrentTrade(id).value.version == s.currentVersions[id]
  {
  }
}
