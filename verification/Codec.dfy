/**
 The canonical journal codec (codec.cpp): events, results, batch payloads, CRC
 frames and the journal scan.  Encoding and decoding are inverse in both
 directions, so every batch has exactly one byte representation.
 */
module Codec {
  import opened Wrappers
  import opened Values
  import opened Journal
  import opened Wire
  import opened Crc

  const FRAME_FORMAT_VERSION: byte := 1
  const EVENT_FORMAT_VERSION: byte := 1
  const RESULT_FORMAT_VERSION: byte := 1
  const MAXIMUM_PAYLOAD_LENGTH: uint32 := 64 * 1024 * 1024
  const FRAME_HEADER_SIZE := 9
  const FRAME_CRC_SIZE := 4
  /** "BBK1" */
  const MAGIC: Bytes := [66, 66, 75, 49]

  // Events

  function EventTag(e: Event): byte {
    match e
    case TradeBooked(_, _, _, _, _) => 1
    case TradeConfirmed(_, _, _) => 2
    case TradeAmended(_, _, _, _, _) => 3
    case TradeCancelled(_, _, _) => 4
    case EodRan(_) => 5
  }

  /** The fields of an event, in order; a command of the same kind writes the same fields. */
  function PutFields(e: Event): Bytes {
    match e
    case TradeBooked(id, bookId, counterpartyId, nettingSetId, terms) =>
      PutIds(id, bookId, counterpartyId, nettingSetId) + PutTerms(terms)
    case TradeConfirmed(id, expected, ids) =>
      PutId(id) + (PutU32(expected) + PutConfirmationIds(ids))
    case TradeAmended(id, expected, terms, reversalIds, ids) =>
      PutId(id) + (PutU32(expected) + (PutTerms(terms) + (PutReversalIds(reversalIds) + PutConfirmationIds(ids))))
    case TradeCancelled(id, expected, reversalIds) =>
      PutId(id) + (PutU32(expected) + PutOptionalIds(reversalIds))
    case EodRan(asOf) => PutDate(asOf)
  }

  function GetBooked(b: Bytes): Parse<Event> {
    var ((id, bookId, counterpartyId, nettingSetId), b1) :- GetIds(b);
    var (terms, rest) :- GetTerms(b1);
    Parsed(TradeBooked(id, bookId, counterpartyId, nettingSetId, terms), rest)
  }

  function GetConfirmed(b: Bytes): Parse<Event> {
    var (id, b1) :- GetId(b);
    var (expected, b2) :- GetU32(b1);
    var (ids, rest) :- GetConfirmationIds(b2);
    Parsed(TradeConfirmed(id, expected, ids), rest)
  }

  function GetAmended(b: Bytes): Parse<Event> {
    var (id, b1) :- GetId(b);
    var (expected, b2) :- GetU32(b1);
    var (terms, b3) :- GetTerms(b2);
    var (reversalIds, b4) :- GetReversalIds(b3);
    var (ids, rest) :- GetConfirmationIds(b4);
    Parsed(TradeAmended(id, expected, terms, reversalIds, ids), rest)
  }

  function GetCancelled(b: Bytes): Parse<Event> {
    var (id, b1) :- GetId(b);
    var (expected, b2) :- GetU32(b1);
    var (reversalIds, rest) :- GetOptionalIds(b2);
    Parsed(TradeCancelled(id, expected, reversalIds), rest)
  }

  function GetEodRan(b: Bytes): Parse<Event> {
    var (asOf, rest) :- GetDate(b);
    Parsed(EodRan(asOf), rest)
  }

  function GetFields(tag: byte, b: Bytes): Parse<Event> {
    match tag
    case 1 => GetBooked(b)
    case 2 => GetConfirmed(b)
    case 3 => GetAmended(b)
    case 4 => GetCancelled(b)
    case 5 => GetEodRan(b)
    case _ => Failed(InvalidEventTag)
  }

  function EventBody(e: Event): Bytes {
    PutU8(EVENT_FORMAT_VERSION) + PutFields(e)
  }

  function DecodedEvent(tag: byte, body: Bytes): Outcome<Event, CodecError> {
    match GetU8(body)
    case Failed(e) => Failure(e)
    case Parsed(version, b1) =>
      if version != EVENT_FORMAT_VERSION then Failure(UnsupportedEventVersion)
      else
        match GetFields(tag, b1)
        case Failed(e) => Failure(e)
        case Parsed(event, rest) => if rest != [] then Failure(TrailingBytes) else Success(event)
  }

  lemma BookedRoundTrip(e: Event, rest: Bytes)
    requires e.TradeBooked?
    ensures GetBooked(PutFields(e) + rest) == Parsed(e, rest)
  {
    hide GetIds, PutIds, GetTerms, PutTerms;
    Assoc(PutIds(e.tradeId, e.bookId, e.counterpartyId, e.nettingSetId), PutTerms(e.terms), rest);
    IdsRoundTrip(e.tradeId, e.bookId, e.counterpartyId, e.nettingSetId, PutTerms(e.terms) + rest);
    TermsRoundTrip(e.terms, rest);
  }

  lemma ConfirmedRoundTrip(e: Event, rest: Bytes)
    requires e.TradeConfirmed?
    ensures GetConfirmed(PutFields(e) + rest) == Parsed(e, rest)
  {
    hide GetId, PutId, GetU32, PutU32, GetConfirmationIds, PutConfirmationIds;
    var e2 := PutConfirmationIds(e.postingIds);
    Assoc(PutId(e.tradeId), PutU32(e.expectedVersion) + e2, rest);
    Assoc(PutU32(e.expectedVersion), e2, rest);
    IdRoundTrip(e.tradeId, (PutU32(e.expectedVersion) + e2) + rest);
    U32RoundTrip(e.expectedVersion, e2 + rest);
    ConfirmationIdsRoundTrip(e.postingIds, rest);
  }

  lemma AmendedRoundTrip(e: Event, rest: Bytes)
    requires e.TradeAmended?
    ensures GetAmended(PutFields(e) + rest) == Parsed(e, rest)
  {
    hide GetId, PutId, GetU32, PutU32, GetTerms, PutTerms, GetReversalIds, PutReversalIds, GetConfirmationIds,
      PutConfirmationIds;
    var e4 := PutConfirmationIds(e.replacementPostingIds);
    var e3 := PutReversalIds(e.reversal) + e4;
    var e2 := PutTerms(e.replacementTerms) + e3;
    var e1 := PutU32(e.expectedVersion) + e2;
    Assoc(PutId(e.tradeId), e1, rest);
    Assoc(PutU32(e.expectedVersion), e2, rest);
    Assoc(PutTerms(e.replacementTerms), e3, rest);
    Assoc(PutReversalIds(e.reversal), e4, rest);
    IdRoundTrip(e.tradeId, e1 + rest);
    U32RoundTrip(e.expectedVersion, e2 + rest);
    TermsRoundTrip(e.replacementTerms, e3 + rest);
    ReversalIdsRoundTrip(e.reversal, e4 + rest);
    ConfirmationIdsRoundTrip(e.replacementPostingIds, rest);
  }

  lemma CancelledRoundTrip(e: Event, rest: Bytes)
    requires e.TradeCancelled?
    ensures GetCancelled(PutFields(e) + rest) == Parsed(e, rest)
  {
    hide GetId, PutId, GetU32, PutU32, GetOptionalIds, PutOptionalIds;
    var e2 := PutOptionalIds(e.reversalIds);
    Assoc(PutId(e.tradeId), PutU32(e.expectedVersion) + e2, rest);
    Assoc(PutU32(e.expectedVersion), e2, rest);
    IdRoundTrip(e.tradeId, (PutU32(e.expectedVersion) + e2) + rest);
    U32RoundTrip(e.expectedVersion, e2 + rest);
    OptionalIdsRoundTrip(e.reversalIds, rest);
  }

  lemma FieldsRoundTrip(e: Event, rest: Bytes)
    ensures GetFields(EventTag(e), PutFields(e) + rest) == Parsed(e, rest)
  {
    hide PutFields, GetBooked, GetConfirmed, GetAmended, GetCancelled, PutDate, GetDate;
    match e
    case TradeBooked(_, _, _, _, _) => BookedRoundTrip(e, rest);
    case TradeConfirmed(_, _, _) => ConfirmedRoundTrip(e, rest);
    case TradeAmended(_, _, _, _, _) => AmendedRoundTrip(e, rest);
    case TradeCancelled(_, _, _) => CancelledRoundTrip(e, rest);
    case EodRan(asOf) => EodRoundTrip(e, rest);
  }

  lemma EodRoundTrip(e: Event, rest: Bytes)
    requires e.EodRan?
    ensures GetEodRan(PutFields(e) + rest) == Parsed(e, rest)
  {
    hide PutDate, GetDate;
    DateRoundTrip(e.asOf, rest);
  }

  lemma BookedCanonical(b: Bytes)
    requires GetBooked(b).Parsed?
    ensures b == PutFields(GetBooked(b).value) + GetBooked(b).rest
  {
    hide GetIds, PutIds, GetTerms, PutTerms;
    var e, rest := GetBooked(b).value, GetBooked(b).rest;
    IdsCanonical(b);
    TermsCanonical(GetIds(b).rest);
    Assoc(PutIds(e.tradeId, e.bookId, e.counterpartyId, e.nettingSetId), PutTerms(e.terms), rest);
  }

  lemma ConfirmedCanonical(b: Bytes)
    requires GetConfirmed(b).Parsed?
    ensures b == PutFields(GetConfirmed(b).value) + GetConfirmed(b).rest
  {
    hide GetId, PutId, GetU32, PutU32, GetConfirmationIds, PutConfirmationIds;
    var e, rest := GetConfirmed(b).value, GetConfirmed(b).rest;
    var b1 := GetId(b).rest;
    IdCanonical(b);
    U32Canonical(b1);
    ConfirmationIdsCanonical(GetU32(b1).rest);
    Assoc(PutU32(e.expectedVersion), PutConfirmationIds(e.postingIds), rest);
    Assoc(PutId(e.tradeId), PutU32(e.expectedVersion) + PutConfirmationIds(e.postingIds), rest);
  }

  lemma AmendedCanonical(b: Bytes)
    requires GetAmended(b).Parsed?
    ensures b == PutFields(GetAmended(b).value) + GetAmended(b).rest
  {
    hide GetId, PutId, GetU32, PutU32, GetTerms, PutTerms, GetReversalIds, PutReversalIds, GetConfirmationIds,
      PutConfirmationIds;
    var e, rest := GetAmended(b).value, GetAmended(b).rest;
    var b1 := GetId(b).rest;
    var b2 := GetU32(b1).rest;
    var b3 := GetTerms(b2).rest;
    IdCanonical(b);
    U32Canonical(b1);
    TermsCanonical(b2);
    ReversalIdsCanonical(b3);
    ConfirmationIdsCanonical(GetReversalIds(b3).rest);
    var e4 := PutConfirmationIds(e.replacementPostingIds);
    var e3 := PutReversalIds(e.reversal) + e4;
    var e2 := PutTerms(e.replacementTerms) + e3;
    Assoc(PutReversalIds(e.reversal), e4, rest);
    Assoc(PutTerms(e.replacementTerms), e3, rest);
    Assoc(PutU32(e.expectedVersion), e2, rest);
    Assoc(PutId(e.tradeId), PutU32(e.expectedVersion) + e2, rest);
  }

  lemma CancelledCanonical(b: Bytes)
    requires GetCancelled(b).Parsed?
    ensures b == PutFields(GetCancelled(b).value) + GetCancelled(b).rest
  {
    hide GetId, PutId, GetU32, PutU32, GetOptionalIds, PutOptionalIds;
    var e, rest := GetCancelled(b).value, GetCancelled(b).rest;
    var b1 := GetId(b).rest;
    IdCanonical(b);
    U32Canonical(b1);
    OptionalIdsCanonical(GetU32(b1).rest);
    Assoc(PutU32(e.expectedVersion), PutOptionalIds(e.reversalIds), rest);
    Assoc(PutId(e.tradeId), PutU32(e.expectedVersion) + PutOptionalIds(e.reversalIds), rest);
  }

  lemma FieldsCanonical(tag: byte, b: Bytes)
    requires GetFields(tag, b).Parsed?
    ensures tag == EventTag(GetFields(tag, b).value)
    ensures b == PutFields(GetFields(tag, b).value) + GetFields(tag, b).rest
  {
    hide PutFields, GetDate, PutDate, GetIds, GetTerms, GetId, GetU32, GetConfirmationIds, GetReversalIds,
      GetOptionalIds;
    match tag
    case 1 => BookedCanonical(b);
    case 2 => ConfirmedCanonical(b);
    case 3 => AmendedCanonical(b);
    case 4 => CancelledCanonical(b);
    case 5 => EodCanonical(b);
    case _ =>
  }

  lemma EodCanonical(b: Bytes)
    requires GetEodRan(b).Parsed?
    ensures b == PutFields(GetEodRan(b).value) + GetEodRan(b).rest
  {
    hide GetDate, PutDate;
    DateCanonical(b);
  }

  /** An event is recovered from its tag and body, and no other body decodes to it. */
  lemma EventRoundTrip(e: Event)
    ensures DecodedEvent(EventTag(e), EventBody(e)) == Success(e)
  {
    hide PutFields, GetFields, EventTag;
    U8RoundTrip(EVENT_FORMAT_VERSION, PutFields(e));
    FieldsRoundTrip(e, []);
    assert PutFields(e) + [] == PutFields(e);
  }

  lemma EventCanonical(tag: byte, body: Bytes)
    requires DecodedEvent(tag, body).Success?
    ensures tag == EventTag(DecodedEvent(tag, body).value) && body == EventBody(DecodedEvent(tag, body).value)
  {
    hide PutFields, GetFields, EventTag;
    U8Canonical(body);
    var b1 := GetU8(body).rest;
    FieldsCanonical(tag, b1);
    var e := GetFields(tag, b1).value;
    assert PutFields(e) + [] == PutFields(e);
  }

  // Results

  function ResultTag(r: CommandResult): byte {
    match r
    case TradeBookedResult(_, _, _) => 1
    case TradeConfirmedResult(_, _, _) => 2
    case TradeAmendedResult(_, _, _, _) => 3
    case TradeCancelledResult(_, _, _) => 4
    case EodRunResult(_, _, _) => 5
  }

  function PutVersioned(id: TradeId, version: uint32, stateVersion: uint64): Bytes {
    PutId(id) + (PutU32(version) + PutU64(stateVersion))
  }

  function GetVersioned(b: Bytes): Parse<(TradeId, uint32, uint64)> {
    var (id, b1) :- GetId(b);
    var (version, b2) :- GetU32(b1);
    var (stateVersion, rest) :- GetU64(b2);
    Parsed((id, version, stateVersion), rest)
  }

  function PutResultFields(r: CommandResult): Bytes {
    match r
    case TradeBookedResult(id, version, stateVersion) => PutVersioned(id, version, stateVersion)
    case TradeConfirmedResult(id, version, stateVersion) => PutVersioned(id, version, stateVersion)
    case TradeCancelledResult(id, version, stateVersion) => PutVersioned(id, version, stateVersion)
    case TradeAmendedResult(id, superseded, replacement, stateVersion) =>
      PutId(id) + (PutU32(superseded) + (PutU32(replacement) + PutU64(stateVersion)))
    case EodRunResult(asOf, count, stateVersion) => PutDate(asOf) + (PutU32(count) + PutU64(stateVersion))
  }

  function GetAmendedResult(b: Bytes): Parse<CommandResult> {
    var (id, b1) :- GetId(b);
    var (superseded, b2) :- GetU32(b1);
    var (replacement, b3) :- GetU32(b2);
    var (stateVersion, rest) :- GetU64(b3);
    Parsed(TradeAmendedResult(id, superseded, replacement, stateVersion), rest)
  }

  function GetEodResult(b: Bytes): Parse<CommandResult> {
    var (asOf, b1) :- GetDate(b);
    var (count, b2) :- GetU32(b1);
    var (stateVersion, rest) :- GetU64(b2);
    Parsed(EodRunResult(asOf, count, stateVersion), rest)
  }

  function GetResultFields(tag: byte, b: Bytes): Parse<CommandResult> {
    match tag
    case 1 =>
      var ((id, version, stateVersion), rest) :- GetVersioned(b);
      Parsed(TradeBookedResult(id, version, stateVersion), rest)
    case 2 =>
      var ((id, version, stateVersion), rest) :- GetVersioned(b);
      Parsed(TradeConfirmedResult(id, version, stateVersion), rest)
    case 4 =>
      var ((id, version, stateVersion), rest) :- GetVersioned(b);
      Parsed(TradeCancelledResult(id, version, stateVersion), rest)
    case 3 => GetAmendedResult(b)
    case 5 => GetEodResult(b)
    case _ => Failed(InvalidResultTag)
  }

  function PutResult(r: CommandResult): Bytes {
    PutU8(ResultTag(r)) + (PutU8(RESULT_FORMAT_VERSION) + PutResultFields(r))
  }

  function GetResult(b: Bytes): Parse<CommandResult> {
    var (tag, b1) :- GetU8(b);
    var (version, b2) :- GetU8(b1);
    if version != RESULT_FORMAT_VERSION then Failed(UnsupportedResultVersion) else GetResultFields(tag, b2)
  }

  lemma VersionedRoundTrip(id: TradeId, version: uint32, stateVersion: uint64, rest: Bytes)
    ensures GetVersioned(PutVersioned(id, version, stateVersion) + rest) == Parsed((id, version, stateVersion), rest)
  {
    hide GetId, PutId, GetU32, PutU32, GetU64, PutU64;
    Assoc(PutId(id), PutU32(version) + PutU64(stateVersion), rest);
    Assoc(PutU32(version), PutU64(stateVersion), rest);
    IdRoundTrip(id, (PutU32(version) + PutU64(stateVersion)) + rest);
    U32RoundTrip(version, PutU64(stateVersion) + rest);
    U64RoundTrip(stateVersion, rest);
  }

  lemma VersionedCanonical(b: Bytes)
    requires GetVersioned(b).Parsed?
    ensures var (id, version, stateVersion) := GetVersioned(b).value;
            b == PutVersioned(id, version, stateVersion) + GetVersioned(b).rest
  {
    hide GetId, PutId, GetU32, PutU32, GetU64, PutU64;
    var (id, version, stateVersion) := GetVersioned(b).value;
    var b1 := GetId(b).rest;
    IdCanonical(b);
    U32Canonical(b1);
    U64Canonical(GetU32(b1).rest);
    Assoc(PutU32(version), PutU64(stateVersion), GetVersioned(b).rest);
    Assoc(PutId(id), PutU32(version) + PutU64(stateVersion), GetVersioned(b).rest);
  }

  lemma AmendedResultRoundTrip(r: CommandResult, rest: Bytes)
    requires r.TradeAmendedResult?
    ensures GetAmendedResult(PutResultFields(r) + rest) == Parsed(r, rest)
  {
    hide GetId, PutId, GetU32, PutU32, GetU64, PutU64;
    var e2 := PutU32(r.replacementVersion) + PutU64(r.stateVersion);
    Assoc(PutId(r.tradeId), PutU32(r.supersededVersion) + e2, rest);
    Assoc(PutU32(r.supersededVersion), e2, rest);
    Assoc(PutU32(r.replacementVersion), PutU64(r.stateVersion), rest);
    IdRoundTrip(r.tradeId, (PutU32(r.supersededVersion) + e2) + rest);
    U32RoundTrip(r.supersededVersion, e2 + rest);
    U32RoundTrip(r.replacementVersion, PutU64(r.stateVersion) + rest);
    U64RoundTrip(r.stateVersion, rest);
  }

  lemma AmendedResultCanonical(b: Bytes)
    requires GetAmendedResult(b).Parsed?
    ensures b == PutResultFields(GetAmendedResult(b).value) + GetAmendedResult(b).rest
  {
    hide GetId, PutId, GetU32, PutU32, GetU64, PutU64;
    var r, rest := GetAmendedResult(b).value, GetAmendedResult(b).rest;
    var b1 := GetId(b).rest;
    var b2 := GetU32(b1).rest;
    IdCanonical(b);
    U32Canonical(b1);
    U32Canonical(b2);
    U64Canonical(GetU32(b2).rest);
    var e2 := PutU32(r.replacementVersion) + PutU64(r.stateVersion);
    Assoc(PutU32(r.replacementVersion), PutU64(r.stateVersion), rest);
    Assoc(PutU32(r.supersededVersion), e2, rest);
    Assoc(PutId(r.tradeId), PutU32(r.supersededVersion) + e2, rest);
  }

  lemma EodResultRoundTrip(r: CommandResult, rest: Bytes)
    requires r.EodRunResult?
    ensures GetEodResult(PutResultFields(r) + rest) == Parsed(r, rest)
  {
    hide GetDate, PutDate, GetU32, PutU32, GetU64, PutU64;
    Assoc(PutDate(r.asOf), PutU32(r.settledTradeCount) + PutU64(r.stateVersion), rest);
    Assoc(PutU32(r.settledTradeCount), PutU64(r.stateVersion), rest);
    DateRoundTrip(r.asOf, (PutU32(r.settledTradeCount) + PutU64(r.stateVersion)) + rest);
    U32RoundTrip(r.settledTradeCount, PutU64(r.stateVersion) + rest);
    U64RoundTrip(r.stateVersion, rest);
  }

  lemma EodResultCanonical(b: Bytes)
    requires GetEodResult(b).Parsed?
    ensures b == PutResultFields(GetEodResult(b).value) + GetEodResult(b).rest
  {
    hide GetDate, PutDate, GetU32, PutU32, GetU64, PutU64;
    var r, rest := GetEodResult(b).value, GetEodResult(b).rest;
    var b1 := GetDate(b).rest;
    DateCanonical(b);
    U32Canonical(b1);
    U64Canonical(GetU32(b1).rest);
    Assoc(PutU32(r.settledTradeCount), PutU64(r.stateVersion), rest);
    Assoc(PutDate(r.asOf), PutU32(r.settledTradeCount) + PutU64(r.stateVersion), rest);
  }

  lemma ResultFieldsRoundTrip(r: CommandResult, rest: Bytes)
    ensures GetResultFields(ResultTag(r), PutResultFields(r) + rest) == Parsed(r, rest)
  {
    hide GetVersioned, PutVersioned, GetAmendedResult, GetEodResult, PutDate, PutId, PutU32, PutU64;
    match r
    case TradeBookedResult(id, version, stateVersion) => VersionedRoundTrip(id, version, stateVersion, rest);
    case TradeConfirmedResult(id, version, stateVersion) => VersionedRoundTrip(id, version, stateVersion, rest);
    case TradeCancelledResult(id, version, stateVersion) => VersionedRoundTrip(id, version, stateVersion, rest);
    case TradeAmendedResult(_, _, _, _) => AmendedResultRoundTrip(r, rest);
    case EodRunResult(_, _, _) => EodResultRoundTrip(r, rest);
  }

  lemma ResultFieldsCanonical(tag: byte, b: Bytes)
    requires GetResultFields(tag, b).Parsed?
    ensures tag == ResultTag(GetResultFields(tag, b).value)
    ensures b == PutResultFields(GetResultFields(tag, b).value) + GetResultFields(tag, b).rest
  {
    hide GetVersioned, PutVersioned, GetId, GetU32, GetU64, GetDate, PutDate, PutId, PutU32, PutU64;
    match tag
    case 1 => VersionedCanonical(b);
    case 2 => VersionedCanonical(b);
    case 4 => VersionedCanonical(b);
    case 3 => AmendedResultCanonical(b);
    case 5 => EodResultCanonical(b);
    case _ =>
  }

  lemma ResultRoundTrip(r: CommandResult, rest: Bytes)
    ensures GetResult(PutResult(r) + rest) == Parsed(r, rest)
  {
    hide GetResultFields, PutResultFields, ResultTag, GetU8, PutU8;
    var e2 := PutResultFields(r);
    var e1 := PutU8(RESULT_FORMAT_VERSION) + e2;
    Assoc(PutU8(ResultTag(r)), e1, rest);
    Assoc(PutU8(RESULT_FORMAT_VERSION), e2, rest);
    U8RoundTrip(ResultTag(r), e1 + rest);
    U8RoundTrip(RESULT_FORMAT_VERSION, e2 + rest);
    ResultFieldsRoundTrip(r, rest);
  }

  lemma ResultCanonical(b: Bytes)
    requires GetResult(b).Parsed?
    ensures b == PutResult(GetResult(b).value) + GetResult(b).rest
  {
    hide GetResultFields, PutResultFields, ResultTag, GetU8, PutU8;
    var r, rest := GetResult(b).value, GetResult(b).rest;
    var tag := GetU8(b).value;
    var b1 := GetU8(b).rest;
    U8Canonical(b);
    U8Canonical(b1);
    ResultFieldsCanonical(tag, GetU8(b1).rest);
    var e2 := PutResultFields(r);
    Assoc(PutU8(RESULT_FORMAT_VERSION), e2, rest);
    Assoc(PutU8(tag), PutU8(RESULT_FORMAT_VERSION) + e2, rest);
  }

  // Event lists: each event is a tag, a body length and the body

  function PutEvent(e: Event): Bytes
    requires |EventBody(e)| <= UINT32_MAX
  {
    PutU8(EventTag(e)) + (PutU32(|EventBody(e)|) + EventBody(e))
  }

  function GetEvent(b: Bytes): Parse<Event> {
    var (tag, b1) :- GetU8(b);
    var (size, b2) :- GetU32(b1);
    var (body, rest) :- GetBytes(b2, size);
    match DecodedEvent(tag, body)
    case Failure(e) => Failed(e)
    case Success(event) => Parsed(event, rest)
  }

  /** Every event body fits its length field. */
  ghost predicate EventsFit(events: seq<Event>) {
    forall i :: 0 <= i < |events| ==> |EventBody(events[i])| <= UINT32_MAX
  }

  function PutEvents(events: seq<Event>): Bytes
    requires EventsFit(events)
  {
    if events == [] then [] else PutEvent(events[0]) + PutEvents(events[1..])
  }

  function GetEvents(b: Bytes, count: nat): Parse<seq<Event>>
    decreases count
  {
    if count == 0 then Parsed([], b) else
      var (event, b1) :- GetEvent(b);
      var (others, rest) :- GetEvents(b1, count - 1);
      Parsed([event] + others, rest)
  }

  lemma EventRecordRoundTrip(e: Event, rest: Bytes)
    requires |EventBody(e)| <= UINT32_MAX
    ensures GetEvent(PutEvent(e) + rest) == Parsed(e, rest)
  {
    hide EventBody, DecodedEvent, EventTag, GetU8, PutU8, GetU32, PutU32;
    var body := EventBody(e);
    Assoc(PutU8(EventTag(e)), PutU32(|body|) + body, rest);
    Assoc(PutU32(|body|), body, rest);
    U8RoundTrip(EventTag(e), (PutU32(|body|) + body) + rest);
    U32RoundTrip(|body|, body + rest);
    Split(body, rest);
    EventRoundTrip(e);
  }

  lemma EventRecordCanonical(b: Bytes)
    requires GetEvent(b).Parsed?
    ensures |EventBody(GetEvent(b).value)| <= UINT32_MAX
    ensures b == PutEvent(GetEvent(b).value) + GetEvent(b).rest
  {
    hide EventBody, DecodedEvent, EventTag, GetU8, PutU8, GetU32, PutU32;
    var rest := GetEvent(b).rest;
    var tag := GetU8(b).value;
    var b1 := GetU8(b).rest;
    var size := GetU32(b1).value;
    var b2 := GetU32(b1).rest;
    var body := GetBytes(b2, size).value;
    U8Canonical(b);
    U32Canonical(b1);
    EventCanonical(tag, body);
    assert b2 == body + rest;
    Assoc(PutU32(size), body, rest);
    Assoc(PutU8(tag), PutU32(size) + body, rest);
  }

  lemma {:induction false} EventsRoundTrip(events: seq<Event>, rest: Bytes)
    requires EventsFit(events)
    ensures GetEvents(PutEvents(events) + rest, |events|) == Parsed(events, rest)
    decreases |events|
  {
    hide EventBody, GetEvent, PutEvent;
    if events == [] {
      assert PutEvents(events) + rest == rest;
    } else {
      Assoc(PutEvent(events[0]), PutEvents(events[1..]), rest);
      EventRecordRoundTrip(events[0], PutEvents(events[1..]) + rest);
      EventsRoundTrip(events[1..], rest);
      assert [events[0]] + events[1..] == events;
    }
  }

  lemma {:induction false} EventsCanonical(b: Bytes, count: nat)
    requires GetEvents(b, count).Parsed?
    ensures var p := GetEvents(b, count); |p.value| == count && EventsFit(p.value) && b == PutEvents(p.value) + p.rest
    decreases count
  {
    hide EventBody, GetEvent, PutEvent;
    var events, rest := GetEvents(b, count).value, GetEvents(b, count).rest;
    if count == 0 {
    } else {
      EventRecordCanonical(b);
      var b1 := GetEvent(b).rest;
      EventsCanonical(b1, count - 1);
      var others := GetEvents(b1, count - 1).value;
      assert events == [GetEvent(b).value] + others && events[1..] == others;
      Assoc(PutEvent(events[0]), PutEvents(others), rest);
    }
  }

  // Payloads

  /** The payload's fields after the event count has been checked to fit. */
  function PutPayload(batch: CommandBatch): Bytes
    requires |batch.canonicalRequest| <= UINT32_MAX && |batch.events| <= UINT16_MAX && EventsFit(batch.events)
  {
    PutU64(batch.sequence) +
    (PutId(batch.commandId) +
     (PutU32(|batch.canonicalRequest|) +
      (batch.canonicalRequest +
       (PutU16(|batch.events|) +
        (PutEvents(batch.events) + PutResult(batch.result))))))
  }

  function EncodedPayload(batch: CommandBatch): Outcome<Bytes, CodecError> {
    if |batch.canonicalRequest| > UINT32_MAX || |batch.events| > UINT16_MAX then Failure(SizeOverflow)
    else if exists i :: 0 <= i < |batch.events| && |EventBody(batch.events[i])| > UINT32_MAX then Failure(SizeOverflow)
    else if |PutPayload(batch)| > MAXIMUM_PAYLOAD_LENGTH then Failure(PayloadTooLarge)
    else Success(PutPayload(batch))
  }

  function GetPayload(b: Bytes): Parse<CommandBatchData> {
    var (sequence, b1) :- GetU64(b);
    var (commandId, b2) :- GetId(b1);
    var (size, b3) :- GetU32(b2);
    var (request, b4) :- GetBytes(b3, size);
    var (count, b5) :- GetU16(b4);
    var (events, b6) :- GetEvents(b5, count);
    var (result, rest) :- GetResult(b6);
    Parsed(CommandBatchData.CommandBatch(sequence, commandId, request, events, result), rest)
  }

  function DecodedPayload(b: Bytes): Outcome<CommandBatch, CodecError> {
    if |b| > MAXIMUM_PAYLOAD_LENGTH then Failure(PayloadTooLarge)
    else
      match GetPayload(b)
      case Failed(e) => Failure(e)
      case Parsed(data, rest) =>
        if rest != [] then Failure(TrailingBytes)
        else
          match CreateBatch(data.sequence, data.commandId, data.canonicalRequest, data.events, data.result)
          case Failure(_) => Failure(InvalidBatch)
          case Success(batch) => Success(batch)
  }

  lemma PayloadRoundTrip(batch: CommandBatch)
    requires EncodedPayload(batch).Success?
    ensures DecodedPayload(EncodedPayload(batch).value) == Success(batch)
  {
    hide EventBody, GetU64, PutU64, GetId, PutId, GetU32, PutU32, GetU16, PutU16, GetEvents, PutEvents, GetResult,
      PutResult;
    var request := batch.canonicalRequest;
    var e6 := PutResult(batch.result);
    var e5 := PutEvents(batch.events) + e6;
    var e4 := PutU16(|batch.events|) + e5;
    var e3 := request + e4;
    var e2 := PutU32(|request|) + e3;
    U64RoundTrip(batch.sequence, PutId(batch.commandId) + e2);
    IdRoundTrip(batch.commandId, e2);
    U32RoundTrip(|request|, e3);
    Split(request, e4);
    U16RoundTrip(|batch.events|, e5);
    EventsRoundTrip(batch.events, e6);
    ResultRoundTrip(batch.result, []);
    assert e6 + [] == e6;
  }

  /** Whatever decodes is byte for byte what the encoder writes for the decoded batch. */
  lemma PayloadCanonical(b: Bytes)
    requires DecodedPayload(b).Success?
    ensures EncodedPayload(DecodedPayload(b).value) == Success(b)
  {
    hide EventBody, GetU64, PutU64, GetId, PutId, GetU32, PutU32, GetU16, PutU16, GetEvents, PutEvents, GetResult,
      PutResult;
    var batch := DecodedPayload(b).value;
    var b1 := GetU64(b).rest;
    var b2 := GetId(b1).rest;
    var b3 := GetU32(b2).rest;
    var b4 := GetBytes(b3, GetU32(b2).value).rest;
    var b5 := GetU16(b4).rest;
    var b6 := GetEvents(b5, GetU16(b4).value).rest;
    U64Canonical(b);
    IdCanonical(b1);
    U32Canonical(b2);
    assert b3 == batch.canonicalRequest + b4;
    U16Canonical(b4);
    EventsCanonical(b5, GetU16(b4).value);
    ResultCanonical(b6);
    assert PutResult(batch.result) + [] == PutResult(batch.result);
    assert b == PutPayload(batch);
  }

  // Frames

  function EncodedFrame(batch: CommandBatch): Outcome<Bytes, CodecError> {
    var payload :- EncodedPayload(batch);
    Success(FrameOf(payload))
  }

  function FrameOf(payload: Bytes): Bytes
    requires |payload| <= MAXIMUM_PAYLOAD_LENGTH
  {
    MAGIC + ([FRAME_FORMAT_VERSION] + (PutU32(|payload|) + (payload + PutU32(Crc32(payload)))))
  }

  datatype DecodedFrame = DecodedFrame(batch: CommandBatch, bytesConsumed: nat)

  function FrameSize(b: Bytes): nat
    requires |b| >= FRAME_HEADER_SIZE
  {
    FRAME_HEADER_SIZE + FromLittleEndian(b[5..9]) + FRAME_CRC_SIZE
  }

  function FrameDecoding(b: Bytes): (r: Outcome<DecodedFrame, CodecError>)
    ensures r.Success? ==> FRAME_HEADER_SIZE + FRAME_CRC_SIZE <= r.value.bytesConsumed <= |b|
  {
    if |b| < FRAME_HEADER_SIZE then Failure(UnexpectedEnd)
    else if b[..4] != MAGIC then Failure(InvalidMagic)
    else if b[4] != FRAME_FORMAT_VERSION then Failure(UnsupportedFrameVersion)
    else
      var size := FromLittleEndian(b[5..9]);
      if size > MAXIMUM_PAYLOAD_LENGTH then Failure(PayloadTooLarge)
      else if |b| < FrameSize(b) then Failure(UnexpectedEnd)
      else
        var payload := b[9..9 + size];
        if FromLittleEndian(b[9 + size..13 + size]) != Crc32(payload) then Failure(CrcMismatch)
        else
          match DecodedPayload(payload)
          case Failure(e) => Failure(if e == UnexpectedEnd then MalformedPayload else e)
          case Success(batch) => Success(DecodedFrame(batch, FrameSize(b)))
  }

  lemma FrameLayout(payload: Bytes, rest: Bytes)
    requires |payload| <= MAXIMUM_PAYLOAD_LENGTH
    ensures var b := FrameOf(payload) + rest; var n := |payload|;
            && |FrameOf(payload)| == n + 13
            && b[..4] == MAGIC && b[4] == FRAME_FORMAT_VERSION
            && b[5..9] == PutU32(n) && b[9..9 + n] == payload && b[9 + n..13 + n] == PutU32(Crc32(payload))
  {
    hide Crc32;
  }

  lemma U32Value(v: uint32)
    ensures FromLittleEndian(PutU32(v)) == v
  {
    Powers();
    LittleEndianValue(v, 4);
  }

  /** Decoding a frame returns its batch and consumes exactly the frame, whatever follows. */
  lemma FrameRoundTrip(batch: CommandBatch, rest: Bytes)
    requires EncodedFrame(batch).Success?
    ensures var frame := EncodedFrame(batch).value;
            FrameDecoding(frame + rest) == Success(DecodedFrame(batch, |frame|))
  {
    hide EncodedPayload, DecodedPayload, Crc32, FrameOf;
    var payload := EncodedPayload(batch).value;
    PayloadFits(batch);
    FrameLayout(payload, rest);
    U32Value(|payload|);
    U32Value(Crc32(payload));
    PayloadRoundTrip(batch);
  }

  lemma PayloadFits(batch: CommandBatch)
    ensures EncodedPayload(batch).Success? ==> |EncodedPayload(batch).value| <= MAXIMUM_PAYLOAD_LENGTH
  {
  }

  /** A decoded frame is byte for byte what the encoder writes for its batch. */
  lemma FrameCanonical(b: Bytes)
    requires FrameDecoding(b).Success?
    ensures EncodedFrame(FrameDecoding(b).value.batch) == Success(b[..FrameDecoding(b).value.bytesConsumed])
  {
    hide EncodedPayload, DecodedPayload, Crc32, LittleEndian, FromLittleEndian;
    var n := FromLittleEndian(b[5..9]);
    PayloadCanonical(b[9..9 + n]);
    FrameRejoins(b, n);
  }

  /** Magic, version, length, payload and checksum cover the frame without a gap. */
  lemma FrameRejoins(b: Bytes, n: nat)
    requires n <= MAXIMUM_PAYLOAD_LENGTH && 13 + n <= |b| && b[..4] == MAGIC && b[4] == FRAME_FORMAT_VERSION
    requires FromLittleEndian(b[5..9]) == n && FromLittleEndian(b[9 + n..13 + n]) == Crc32(b[9..9 + n])
    ensures FrameOf(b[9..9 + n]) == b[..13 + n]
  {
    hide Crc32, LittleEndian, FromLittleEndian;
    LittleEndianBytes(b[5..9]);
    LittleEndianBytes(b[9 + n..13 + n]);
    assert b[..13 + n] == b[..4] + ([b[4]] + (b[5..9] + (b[9..9 + n] + b[9 + n..13 + n])));
  }

  /** The bytes present do not contain a whole frame: no header, or fewer bytes than the header announces. */
  predicate PhysicallyShort(b: Bytes) {
    || |b| < FRAME_HEADER_SIZE
    || (b[..4] == MAGIC && b[4] == FRAME_FORMAT_VERSION
        && FromLittleEndian(b[5..9]) <= MAXIMUM_PAYLOAD_LENGTH && |b| < FrameSize(b))
  }

  /** An unexpected end is reported exactly for physically short input, never for a malformed complete payload. */
  lemma UnexpectedEndMeansShort(b: Bytes)
    ensures FrameDecoding(b) == Failure(UnexpectedEnd) <==> PhysicallyShort(b)
  {
    hide DecodedPayload, Crc32;
  }

  /**
   A frame or an error once decided does not depend on what follows; only an unexpected end leaves the question open.
   */
  lemma DecisionIsFinal(b: Bytes, rest: Bytes)
    requires FrameDecoding(b) != Failure(UnexpectedEnd)
    ensures FrameDecoding(b + rest) == FrameDecoding(b)
  {
    hide DecodedPayload, Crc32;
    var longer := b + rest;
    assert longer[..4] == b[..4] && longer[4] == b[4] && longer[5..9] == b[5..9];
    var size := FromLittleEndian(b[5..9]);
    if size <= MAXIMUM_PAYLOAD_LENGTH && FrameSize(b) <= |b| {
      assert longer[9..9 + size] == b[9..9 + size] && longer[9 + size..13 + size] == b[9 + size..13 + size];
    }
  }

  /** Every strict prefix of a frame is physically short. */
  lemma TornFrameIsShort(batch: CommandBatch, n: nat)
    requires EncodedFrame(batch).Success? && n < |EncodedFrame(batch).value|
    ensures FrameDecoding(EncodedFrame(batch).value[..n]) == Failure(UnexpectedEnd)
  {
    hide EncodedPayload, Crc32, FrameOf, DecodedPayload;
    var payload := EncodedPayload(batch).value;
    PayloadFits(batch);
    var frame := FrameOf(payload);
    FrameLayout(payload, []);
    U32Value(|payload|);
    assert frame + [] == frame;
    var torn := frame[..n];
    if n >= FRAME_HEADER_SIZE {
      assert torn[..4] == frame[..4] && torn[4] == frame[4] && torn[5..9] == frame[5..9];
    }
  }

  /** One altered payload byte is always rejected, and always as a checksum mismatch. */
  lemma AlteredPayloadRejected(batch: CommandBatch, rest: Bytes, i: nat, altered: byte)
    requires EncodedFrame(batch).Success?
    requires FRAME_HEADER_SIZE <= i < |EncodedFrame(batch).value| - FRAME_CRC_SIZE
    requires altered != EncodedFrame(batch).value[i]
    ensures FrameDecoding(EncodedFrame(batch).value[i := altered] + rest) == Failure(CrcMismatch)
  {
    hide EncodedPayload, Crc32, FrameOf, DecodedPayload, PutU32, FromLittleEndian;
    var payload := EncodedPayload(batch).value;
    PayloadFits(batch);
    var frame := FrameOf(payload);
    var n := |payload|;
    FrameLayout(payload, rest);
    U32Value(n);
    U32Value(Crc32(payload));
    OneByteDetected(payload, i - 9, altered);
    var b := frame[i := altered] + rest;
    assert b[..4] == (frame + rest)[..4] && b[4] == (frame + rest)[4] && b[5..9] == (frame + rest)[5..9];
    assert (frame + rest)[9..9 + n][i - 9] == frame[i];
    assert b[9..9 + n] == payload[i - 9 := altered];
    assert b[9 + n..13 + n] == (frame + rest)[9 + n..13 + n];
  }

  // Scanning a journal

  datatype Scan = Scan(batches: seq<CommandBatch>, lastValidOffset: nat, truncatedTail: bool)

  /** The whole journal from an offset on: complete frames, then nothing or a torn tail. */
  function Scanned(b: Bytes): Outcome<Scan, CodecError>
    decreases |b|
  {
    if b == [] then Success(Scan([], 0, false))
    else
      match FrameDecoding(b)
      case Failure(e) => if e == UnexpectedEnd then Success(Scan([], 0, true)) else Failure(e)
      case Success(frame) =>
        var others :- Scanned(b[frame.bytesConsumed..]);
        Success(Scan([frame.batch] + others.batches, frame.bytesConsumed + others.lastValidOffset,
            others.truncatedTail))
  }

  ghost predicate Encodable(batches: seq<CommandBatch>) {
    forall i :: 0 <= i < |batches| ==> EncodedFrame(batches[i]).Success?
  }

  /** The bytes of a journal of complete frames. */
  function Frames(batches: seq<CommandBatch>): Bytes
    requires Encodable(batches)
  {
    if batches == [] then [] else EncodedFrame(batches[0]).value + Frames(batches[1..])
  }

  lemma {:induction false} FramesAppend(batches: seq<CommandBatch>, batch: CommandBatch)
    requires Encodable(batches) && EncodedFrame(batch).Success?
    ensures Encodable(batches + [batch])
    ensures Frames(batches + [batch]) == Frames(batches) + EncodedFrame(batch).value
    decreases |batches|
  {
    hide EncodedFrame;
    if batches == [] {
      assert batches + [batch] == [batch] && [batch][1..] == [];
      assert EncodedFrame(batch).value + [] == EncodedFrame(batch).value;
    } else {
      assert (batches + [batch])[1..] == batches[1..] + [batch];
      FramesAppend(batches[1..], batch);
      Assoc(EncodedFrame(batches[0]).value, Frames(batches[1..]), EncodedFrame(batch).value);
    }
  }

  /** A tail that recovery must discard: nothing, or a strict prefix of one further frame. */
  ghost predicate TornTail(tail: Bytes) {
    tail == [] || exists batch, n: nat :: IsTorn(tail, batch, n)
  }

  ghost predicate IsTorn(tail: Bytes, batch: CommandBatch, n: nat) {
    EncodedFrame(batch).Success? && n < |EncodedFrame(batch).value| && tail == EncodedFrame(batch).value[..n]
  }

  /** Scanning returns exactly the complete frames, their length, and whether a tail was cut off. */
  lemma {:induction false} ScanExact(batches: seq<CommandBatch>, tail: Bytes)
    requires Encodable(batches) && TornTail(tail)
    ensures Scanned(Frames(batches) + tail) == Success(Scan(batches, |Frames(batches)|, tail != []))
    decreases |batches|
  {
    hide EncodedFrame, FrameDecoding;
    if batches == [] {
      assert Frames(batches) + tail == tail;
      if tail != [] {
        var batch, n: nat :| IsTorn(tail, batch, n);
        TornFrameIsShort(batch, n);
      }
    } else {
      var frame := EncodedFrame(batches[0]).value;
      var others := Frames(batches[1..]) + tail;
      Assoc(frame, Frames(batches[1..]), tail);
      FrameRoundTrip(batches[0], others);
      FrameNotEmpty(batches[0]);
      Split(frame, others);
      ScanExact(batches[1..], tail);
      assert [batches[0]] + batches[1..] == batches;
    }
  }

  lemma FrameNotEmpty(batch: CommandBatch)
    requires EncodedFrame(batch).Success?
    ensures |EncodedFrame(batch).value| >= 13
  {
    hide EncodedPayload, Crc32;
    PayloadFits(batch);
  }

  /** Whatever scans without error is a sequence of frames followed by its unread tail. */
  lemma {:induction false} ScanCanonical(b: Bytes)
    requires Scanned(b).Success?
    ensures var s := Scanned(b).value;
            && s.lastValidOffset <= |b| && Encodable(s.batches) && b[..s.lastValidOffset] == Frames(s.batches)
            && (s.truncatedTail <==> s.lastValidOffset < |b|)
    decreases |b|
  {
    hide EncodedFrame, FrameDecoding;
    if b != [] && FrameDecoding(b).Success? {
      var n := FrameDecoding(b).value.bytesConsumed;
      FrameCanonical(b);
      ScanCanonical(b[n..]);
      var s, others := Scanned(b).value, Scanned(b[n..]).value;
      assert s.batches[1..] == others.batches;
      assert b[..s.lastValidOffset] == b[..n] + b[n..][..others.lastValidOffset];
    }
  }

  /** After truncation the scan finds the same batches and no tail. */
  lemma RescanAfterTruncation(b: Bytes)
    requires Scanned(b).Success?
    ensures Scanned(b).value.lastValidOffset <= |b|
    ensures Scanned(b[..Scanned(b).value.lastValidOffset])
            == Success(Scan(Scanned(b).value.batches, Scanned(b).value.lastValidOffset, false))
  {
    hide Scanned, EncodedFrame;
    ScanCanonical(b);
    var s := Scanned(b).value;
    ScanExact(s.batches, []);
    assert Frames(s.batches) + [] == b[..s.lastValidOffset];
  }
}
