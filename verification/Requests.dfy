/**
 Canonical command requests (command.cpp): the byte string that identifies a
 command for idempotency, and the shape check that recovery applies to it.
 */
module Requests {
  import opened Wrappers
  import opened Values
  import opened PostingPolicy
  import opened Journal
  import opened Wire
  import opened Codec
  import opened Evaluator

  const REQUEST_FORMAT_VERSION: byte := 1

  datatype CommandEnvelope = CommandEnvelope(commandId: CommandId, command: Command)

  datatype CommandEncodingError = RequestSizeOverflow

  datatype RequestError = EmptyRequest | UnsupportedVersion | MalformedRequest | CommandIdMismatch |
      CommandEventMismatch

  function CommandTag(c: Command): byte {
    EventTag(EventOf(c))
  }

  function CanonicalBytes(envelope: CommandEnvelope): Bytes {
    PutU8(REQUEST_FORMAT_VERSION) + (PutId(envelope.commandId)
        + (PutU8(CommandTag(envelope.command)) + PutFields(EventOf(envelope.command))))
  }

  function EncodedRequest(envelope: CommandEnvelope): Outcome<Bytes, CommandEncodingError> {
    if |envelope.commandId| > UINT16_MAX then Failure(RequestSizeOverflow) else Success(CanonicalBytes(envelope))
  }

  lemma EventOfInjective(a: Command, b: Command)
    requires EventOf(a) == EventOf(b)
    ensures a == b
  {
  }

  /** The request that a canonical byte string encodes, if any. */
  function GetRequest(b: Bytes): Parse<(CommandId, Event)> {
    var (_, b1) :- GetU8(b);
    var (id, b2) :- GetId(b1);
    var (tag, b3) :- GetU8(b2);
    var (e, rest) :- GetFields(tag, b3);
    Parsed((id, e), rest)
  }

  lemma RequestRoundTrip(envelope: CommandEnvelope)
    ensures GetRequest(CanonicalBytes(envelope)) == Parsed((envelope.commandId, EventOf(envelope.command)), [])
  {
    hide GetU8, PutU8, GetId, PutId, GetFields, PutFields, EventOf, EventTag, ValidIdText;
    var e := EventOf(envelope.command);
    var e2 := PutU8(EventTag(e)) + PutFields(e);
    U8RoundTrip(REQUEST_FORMAT_VERSION, PutId(envelope.commandId) + e2);
    IdRoundTrip(envelope.commandId, e2);
    U8RoundTrip(EventTag(e), PutFields(e));
    FieldsRoundTrip(e, []);
    assert PutFields(e) + [] == PutFields(e);
  }

  /** Different requests have different canonical bytes. */
  lemma CanonicalInjective(a: CommandEnvelope, b: CommandEnvelope)
    requires CanonicalBytes(a) == CanonicalBytes(b)
    ensures a == b
  {
    hide GetRequest, CanonicalBytes, EventOf, ValidIdText;
    RequestRoundTrip(a);
    RequestRoundTrip(b);
    EventOfInjective(a.command, b.command);
  }

  // The validating reader checks shape and skips values

  function SkipBytes(b: Bytes, n: nat): Option<Bytes> {
    if |b| < n then None else Some(b[n..])
  }

  datatype ReadId = ReadId(id: Bytes, rest: Bytes)

  function TakeId(b: Bytes): Option<ReadId> {
    match GetU16(b)
    case Failed(_) => None
    case Parsed(length, b1) =>
      if length == 0 || length > 64 || |b1| < length || !ValidIdText(b1[..length]) then None
      else Some(ReadId(b1[..length], b1[length..]))
  }

  function SkipId(b: Bytes): Option<Bytes> {
    match TakeId(b)
    case None => None
    case Some(r) => Some(r.rest)
  }

  function SkipFourIds(b: Bytes): Option<Bytes> {
    match SkipId(b)
    case None => None
    case Some(b1) =>
      match SkipId(b1)
      case None => None
      case Some(b2) =>
        match SkipId(b2)
        case None => None
        case Some(b3) => SkipId(b3)
  }

  /** One tag byte no larger than a maximum. */
  function SkipTag(b: Bytes, maximum: byte): Option<Bytes> {
    if |b| < 1 || b[0] > maximum then None else Some(b[1..])
  }

  function SkipMoney(b: Bytes): Option<Bytes> {
    match SkipTag(b, 2)
    case None => None
    case Some(b1) => SkipBytes(b1, 8)
  }

  function SkipTerms(b: Bytes): Option<Bytes> {
    match SkipTag(b, 1)
    case None => None
    case Some(b1) =>
      match SkipBytes(b1, 8)
      case None => None
      case Some(b2) =>
        match SkipMoney(b2)
        case None => None
        case Some(b3) => SkipMoney(b3)
  }

  function SkipOptionalIds(b: Bytes): Option<Bytes> {
    if |b| < 1 || b[0] > 1 then None
    else if b[0] == 0 then Some(b[1..])
    else SkipFourIds(b[1..])
  }

  /** A trade id and a 32-bit version. */
  function SkipVersioned(b: Bytes): Option<Bytes> {
    match SkipId(b)
    case None => None
    case Some(b1) => SkipBytes(b1, 4)
  }

  function SkipAmendment(b: Bytes): Option<Bytes> {
    match SkipTerms(b)
    case None => None
    case Some(b1) =>
      match SkipFourIds(b1)
      case None => None
      case Some(b2) => SkipFourIds(b2)
  }

  function SkipBody(tag: byte, b: Bytes): Option<Bytes> {
    match tag
    case 1 => (match SkipFourIds(b) case None => None case Some(b1) => SkipTerms(b1))
    case 2 => (match SkipVersioned(b) case None => None case Some(b1) => SkipFourIds(b1))
    case 3 => (match SkipVersioned(b) case None => None case Some(b1) => SkipAmendment(b1))
    case 4 => (match SkipVersioned(b) case None => None case Some(b1) => SkipOptionalIds(b1))
    case 5 => SkipBytes(b, 4)
    case _ => None
  }

  /** The command tag of a well-shaped request for the expected command id. */
  function ValidatedRequest(b: Bytes, expected: CommandId): Outcome<byte, RequestError> {
    if b == [] then Failure(EmptyRequest)
    else if b[0] != REQUEST_FORMAT_VERSION then Failure(UnsupportedVersion)
    else
      match TakeId(b[1..])
      case None => Failure(MalformedRequest)
      case Some(r) =>
        if r.id != expected then Failure(CommandIdMismatch)
        else if r.rest == [] then Failure(MalformedRequest)
        else if SkipBody(r.rest[0], r.rest[1..]) != Some([]) then Failure(MalformedRequest)
        else Success(r.rest[0])
  }

  lemma TakesId(id: Id, rest: Bytes)
    ensures TakeId(PutId(id) + rest) == Some(ReadId(id, rest))
  {
    Assoc(PutU16(|id|), id, rest);
    U16RoundTrip(|id|, id + rest);
    Split(id, rest);
  }

  lemma SkipsFourIds(i0: Id, i1: Id, i2: Id, i3: Id, rest: Bytes)
    ensures SkipFourIds(PutIds(i0, i1, i2, i3) + rest) == Some(rest)
  {
    hide TakeId, PutId, ValidIdText;
    Assoc(PutId(i0), PutId(i1) + (PutId(i2) + PutId(i3)), rest);
    Assoc(PutId(i1), PutId(i2) + PutId(i3), rest);
    Assoc(PutId(i2), PutId(i3), rest);
    TakesId(i0, (PutId(i1) + (PutId(i2) + PutId(i3))) + rest);
    TakesId(i1, (PutId(i2) + PutId(i3)) + rest);
    TakesId(i2, PutId(i3) + rest);
    TakesId(i3, rest);
  }

  lemma SkipsMoney(m: Money, rest: Bytes)
    ensures SkipMoney(PutMoney(m) + rest) == Some(rest)
  {
    hide PutI64;
    Assoc(PutCurrency(m.currency), PutI64(m.minorUnits), rest);
    I64Size(m.minorUnits);
    Split(PutI64(m.minorUnits), rest);
    Split(PutCurrency(m.currency), PutI64(m.minorUnits) + rest);
  }

  lemma I64Size(v: int64)
    ensures |PutI64(v)| == 8
  {
  }

  lemma SkipsTerms(t: FxTerms, rest: Bytes)
    ensures SkipTerms(PutTerms(t) + rest) == Some(rest)
  {
    hide PutMoney, SkipMoney;
    var e4 := PutMoney(t.receive);
    var e3 := PutMoney(t.pay) + e4;
    var e2 := PutDate(t.valueDate) + e3;
    var dates := PutDate(t.tradeDate) + PutDate(t.valueDate);
    Assoc(PutKind(t.kind), PutDate(t.tradeDate) + e2, rest);
    Assoc(PutDate(t.tradeDate), e2, rest);
    Assoc(PutDate(t.valueDate), e3, rest);
    Assoc(PutDate(t.tradeDate), PutDate(t.valueDate), e3 + rest);
    Assoc(PutMoney(t.pay), e4, rest);
    Split(PutKind(t.kind), (PutDate(t.tradeDate) + e2) + rest);
    Split(dates, e3 + rest);
    SkipsMoney(t.pay, e4 + rest);
    SkipsMoney(t.receive, rest);
  }

  lemma SkipsVersioned(id: Id, version: uint32, rest: Bytes)
    ensures SkipVersioned(PutId(id) + (PutU32(version) + rest)) == Some(rest)
  {
    hide TakeId, PutId, ValidIdText;
    TakesId(id, PutU32(version) + rest);
    Split(PutU32(version), rest);
  }

  lemma SkipsOptionalIds(ids: Option<ReversalPostingIds>)
    ensures SkipOptionalIds(PutOptionalIds(ids)) == Some([])
  {
    hide PutIds, SkipFourIds;
    if ids.Some? {
      var r := ids.value;
      SkipsFourIds(r.payControlCredit, r.payPayableDebit, r.receiveReceivableCredit, r.receiveControlDebit, []);
      assert PutReversalIds(r) + [] == PutReversalIds(r);
      Split([1], PutReversalIds(r));
    } else {
      Split([0], []);
      assert [0] + [] == PutU8(0);
    }
  }

  lemma SkipsAmendment(e: Event)
    requires e.TradeAmended?
    ensures SkipAmendment(PutTerms(e.replacementTerms)
        + (PutReversalIds(e.reversal) + PutConfirmationIds(e.replacementPostingIds))) == Some([])
  {
    hide PutIds, SkipFourIds, PutTerms, SkipTerms;
    var r, c := e.reversal, e.replacementPostingIds;
    SkipsTerms(e.replacementTerms, PutReversalIds(r) + PutConfirmationIds(c));
    SkipsFourIds(r.payControlCredit, r.payPayableDebit, r.receiveReceivableCredit, r.receiveControlDebit,
        PutConfirmationIds(c));
    SkipsFourIds(c.payControlDebit, c.payPayableCredit, c.receiveReceivableDebit, c.receiveControlCredit, []);
    assert PutConfirmationIds(c) + [] == PutConfirmationIds(c);
  }

  lemma SkipsConfirmationIds(c: ConfirmationPostingIds)
    ensures SkipFourIds(PutConfirmationIds(c)) == Some([])
  {
    hide PutIds, SkipFourIds;
    SkipsFourIds(c.payControlDebit, c.payPayableCredit, c.receiveReceivableDebit, c.receiveControlCredit, []);
    assert PutConfirmationIds(c) + [] == PutConfirmationIds(c);
  }

  lemma SkipsFields(e: Event)
    ensures SkipBody(EventTag(e), PutFields(e)) == Some([])
  {
    hide PutIds, SkipFourIds, PutTerms, SkipTerms, SkipAmendment, SkipVersioned, SkipOptionalIds, PutOptionalIds,
      PutConfirmationIds, PutReversalIds, PutU32;
    match e
    case TradeBooked(id, bookId, counterpartyId, nettingSetId, terms) =>
      SkipsFourIds(id, bookId, counterpartyId, nettingSetId, PutTerms(terms));
      SkipsTerms(terms, []);
      assert PutTerms(terms) + [] == PutTerms(terms);
    case TradeConfirmed(id, expected, ids) =>
      SkipsVersioned(id, expected, PutConfirmationIds(ids));
      SkipsConfirmationIds(ids);
    case TradeAmended(id, expected, terms, reversalIds, ids) =>
      SkipsVersioned(id, expected, PutTerms(terms) + (PutReversalIds(reversalIds) + PutConfirmationIds(ids)));
      SkipsAmendment(e);
    case TradeCancelled(id, expected, reversalIds) =>
      SkipsVersioned(id, expected, PutOptionalIds(reversalIds));
      SkipsOptionalIds(reversalIds);
    case EodRan(asOf) =>
      Split(PutDate(asOf), []);
      assert PutDate(asOf) + [] == PutDate(asOf);
  }

  /** Every canonical request passes recovery's shape check, with its own command tag. */
  lemma CanonicalValidates(envelope: CommandEnvelope)
    ensures ValidatedRequest(CanonicalBytes(envelope), envelope.commandId) == Success(CommandTag(envelope.command))
  {
    hide TakeId, PutId, PutFields, EventOf, EventTag, SkipBody, ValidIdText;
    var e := EventOf(envelope.command);
    var e2 := PutU8(EventTag(e)) + PutFields(e);
    Split(PutU8(REQUEST_FORMAT_VERSION), PutId(envelope.commandId) + e2);
    TakesId(envelope.commandId, e2);
    Split(PutU8(EventTag(e)), PutFields(e));
    SkipsFields(e);
  }

  /** The bytes after the command tag of a validated request. */
  function RequestBody(b: Bytes, expected: CommandId): Bytes
    requires ValidatedRequest(b, expected).Success?
  {
    TakeId(b[1..]).value.rest[1..]
  }

  /** A validated request is a command's canonical request exactly when its body also decodes as an event body. */
  lemma ValidatedIsCanonicalIff(b: Bytes, expected: CommandId)
    requires ValidatedRequest(b, expected).Success?
    ensures (exists envelope :: b == CanonicalBytes(envelope))
            <==> DecodedEvent(ValidatedRequest(b, expected).value,
                PutU8(EVENT_FORMAT_VERSION) + RequestBody(b, expected)).Success?
  {
    var tag, body := ValidatedRequest(b, expected).value, RequestBody(b, expected);
    if envelope :| b == CanonicalBytes(envelope) {
      RequestParts(envelope, expected);
      EventRoundTrip(EventOf(envelope.command));
    }
    if DecodedEvent(tag, PutU8(EVENT_FORMAT_VERSION) + body).Success? {
      RequestFromParts(b, expected);
    }
  }

  lemma RequestParts(envelope: CommandEnvelope, expected: CommandId)
    requires ValidatedRequest(CanonicalBytes(envelope), expected).Success?
    ensures ValidatedRequest(CanonicalBytes(envelope), expected).value == CommandTag(envelope.command)
    ensures RequestBody(CanonicalBytes(envelope), expected) == PutFields(EventOf(envelope.command))
  {
    hide TakeId, PutId, PutFields, EventOf, EventTag, SkipBody, ValidIdText;
    var e := EventOf(envelope.command);
    var e2 := PutU8(EventTag(e)) + PutFields(e);
    Split(PutU8(REQUEST_FORMAT_VERSION), PutId(envelope.commandId) + e2);
    TakesId(envelope.commandId, e2);
    Split(PutU8(EventTag(e)), PutFields(e));
  }

  function CommandOf(e: Event): (c: Command)
    ensures EventOf(c) == e
  {
    match e
    case TradeBooked(id, bookId, counterpartyId, nettingSetId, terms) =>
        BookTradeCommand(id, bookId, counterpartyId, nettingSetId, terms)
    case TradeConfirmed(id, expected, ids) => ConfirmTradeCommand(id, expected, ids)
    case TradeAmended(id, expected, terms, reversalIds, ids) => AmendTradeCommand(id, expected, terms, reversalIds, ids)
    case TradeCancelled(id, expected, reversalIds) => CancelTradeCommand(id, expected, reversalIds)
    case EodRan(asOf) => RunEodCommand(asOf)
  }

  lemma TakenIdCanonical(b: Bytes)
    requires TakeId(b).Some?
    ensures ValidIdText(TakeId(b).value.id) && b == PutId(TakeId(b).value.id) + TakeId(b).value.rest
  {
    hide ValidIdText;
    U16Canonical(b);
    var r := TakeId(b).value;
    assert GetU16(b).rest == r.id + r.rest;
    Assoc(PutU16(GetU16(b).value), r.id, r.rest);
  }

  lemma RequestFromParts(b: Bytes, expected: CommandId)
    requires ValidatedRequest(b, expected).Success?
    requires DecodedEvent(ValidatedRequest(b, expected).value,
        PutU8(EVENT_FORMAT_VERSION) + RequestBody(b, expected)).Success?
    ensures exists envelope :: b == CanonicalBytes(envelope)
  {
    hide TakeId, PutId, PutFields, SkipBody, ValidIdText, EventTag, DecodedEvent;
    var tag, body := ValidatedRequest(b, expected).value, RequestBody(b, expected);
    var whole := PutU8(EVENT_FORMAT_VERSION) + body;
    EventCanonical(tag, whole);
    var e := DecodedEvent(tag, whole).value;
    assert body == whole[1..] == PutFields(e);
    TakenIdCanonical(b[1..]);
    var envelope := CommandEnvelope(expected, CommandOf(e));
    assert TakeId(b[1..]).value.rest == PutU8(tag) + body;
    assert b == CanonicalBytes(envelope);
  }

  /** The shape check is weaker than decoding: this end-of-day request carries a day after year 9999. */
  lemma ShapeIsNotMeaning()
    ensures var b := [1, 1, 0, 65, 5, 255, 255, 255, 127];
            ValidatedRequest(b, [65]) == Success(5) && forall envelope :: CanonicalBytes(envelope) != b
  {
    var b: Bytes := [1, 1, 0, 65, 5, 255, 255, 255, 127];
    assert b[1..] == [1, 0] + ([65] + [5, 255, 255, 255, 127]);
    ShapeAccepted(b);
    ShapeUndecodable(b);
  }

  lemma ShapeAccepted(b: Bytes)
    requires b == [1, 1, 0, 65, 5, 255, 255, 255, 127]
    ensures ValidatedRequest(b, [65]) == Success(5)
  {
    var id: Id := [65];
    assert PutU16(1) == [1, 0] by { assert LittleEndian(0, 1) == [0]; }
    assert b[1..] == PutId(id) + [5, 255, 255, 255, 127];
    TakesId(id, [5, 255, 255, 255, 127]);
    assert [5, 255, 255, 255, 127][1..][4..] == [];
    assert SkipBody(5, [5, 255, 255, 255, 127][1..]) == Some([]);
  }

  lemma ShapeUndecodable(b: Bytes)
    requires b == [1, 1, 0, 65, 5, 255, 255, 255, 127]
    ensures forall envelope :: CanonicalBytes(envelope) != b
  {
    var id: Id := [65];
    assert PutU16(1) == [1, 0] by { assert LittleEndian(0, 1) == [0]; }
    assert b[1..] == PutId(id) + [5, 255, 255, 255, 127];
    IdRoundTrip(id, [5, 255, 255, 255, 127]);
    var days: Bytes := [255, 255, 255, 127];
    assert [5, 255, 255, 255, 127][1..] == days;
    assert days[1..] == [255, 255, 127] && days[1..][1..] == [255, 127] && days[1..][1..][1..] == [127];
    assert FromLittleEndian([127]) == 127;
    assert FromLittleEndian([255, 127]) == 255 + 0x100 * 127 by { assert [255, 127][1..] == [127]; }
    assert FromLittleEndian([255, 255, 127]) == 255 + 0x100 * (255 + 0x100 * 127) by
        { assert [255, 255, 127][1..] == [255, 127]; }
    assert days[..4] == days;
    assert FromLittleEndian(days) == 0x7FFF_FFFF;
    assert GetDate(days) == Failed(InvalidDate);
    assert GetRequest(b).Failed?;
    forall envelope ensures CanonicalBytes(envelope) != b { RequestRoundTrip(envelope); }
  }
}
