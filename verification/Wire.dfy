/**
 The portable byte format of the journal: little-endian integers, length-prefixed
 identifiers, and parsers that consume a prefix of their input (codec.cpp).
 Every Put/Get pair is a bijection between values and the byte strings accepted.
 */
module Wire {
  import opened Wrappers
  import opened Values
  import opened PostingPolicy

  datatype CodecError =
    | SizeOverflow | UnexpectedEnd | InvalidMagic | UnsupportedFrameVersion | UnsupportedEventVersion
    | UnsupportedResultVersion | InvalidEventTag | InvalidResultTag | InvalidEnum | InvalidId | InvalidDate
    | InvalidTerms | InvalidBatch | InvalidOptionalFlag | CrcMismatch | TrailingBytes | MalformedPayload |
        PayloadTooLarge

  /** A value read from the front of the input, and what is left. */
  datatype Parse<+T> = Parsed(value: T, rest: Bytes) | Failed(error: CodecError)
  {
    predicate IsFailure() {
      Failed?
    }

    function PropagateFailure<U>(): Parse<U>
      requires Failed?
    {
      Failed(error)
    }

    function Extract(): (T, Bytes)
      requires Parsed?
    {
      (value, rest)
    }
  }

  lemma Assoc(a: Bytes, b: Bytes, c: Bytes)
    ensures (a + b) + c == a + (b + c)
  {
  }

  lemma Split(a: Bytes, rest: Bytes)
    ensures (a + rest)[..|a|] == a && (a + rest)[|a|..] == rest
  {
  }

  // Little-endian unsigned integers

  function Pow256(n: nat): nat {
    if n == 0 then 1 else 0x100 * Pow256(n - 1)
  }

  function LittleEndian(v: nat, n: nat): (b: Bytes)
    ensures |b| == n
    decreases n
  {
    if n == 0 then [] else [v % 0x100] + LittleEndian(v / 0x100, n - 1)
  }

  function FromLittleEndian(b: Bytes): nat {
    if b == [] then 0 else b[0] + 0x100 * FromLittleEndian(b[1..])
  }

  lemma {:induction false} LittleEndianValue(v: nat, n: nat)
    requires v < Pow256(n)
    ensures FromLittleEndian(LittleEndian(v, n)) == v
    decreases n
  {
    if n == 0 {
    } else {
      assert v / 0x100 < Pow256(n - 1);
      LittleEndianValue(v / 0x100, n - 1);
      assert LittleEndian(v, n)[1..] == LittleEndian(v / 0x100, n - 1);
    }
  }

  lemma {:induction false} LittleEndianBytes(b: Bytes)
    ensures FromLittleEndian(b) < Pow256(|b|)
    ensures LittleEndian(FromLittleEndian(b), |b|) == b
  {
    if b == [] {
    } else {
      LittleEndianBytes(b[1..]);
      var v := FromLittleEndian(b);
      assert v % 0x100 == b[0] && v / 0x100 == FromLittleEndian(b[1..]);
      assert b == [b[0]] + b[1..];
    }
  }

  lemma Powers()
    ensures Pow256(1) == 0x100 && Pow256(2) == 0x1_0000 && Pow256(4) == 0x1_0000_0000
        && Pow256(8) == 0x1_0000_0000_0000_0000
  {
    assert Pow256(3) == 0x100_0000 && Pow256(5) == 0x100_0000_0000;
    assert Pow256(6) == 0x1_0000_0000_0000 && Pow256(7) == 0x100_0000_0000_0000;
  }

  function GetBytes(b: Bytes, n: nat): Parse<Bytes> {
    if |b| < n then Failed(UnexpectedEnd) else Parsed(b[..n], b[n..])
  }

  function GetUnsigned(b: Bytes, n: nat): (p: Parse<nat>)
    ensures p.Parsed? ==> p.value < Pow256(n)
  {
    var (bytes, rest) :- GetBytes(b, n);
    LittleEndianBytes(bytes);
    Parsed(FromLittleEndian(bytes), rest)
  }

  lemma UnsignedRoundTrip(v: nat, n: nat, rest: Bytes)
    requires v < Pow256(n)
    ensures GetUnsigned(LittleEndian(v, n) + rest, n) == Parsed(v, rest)
  {
    LittleEndianValue(v, n);
    Split(LittleEndian(v, n), rest);
  }

  lemma UnsignedCanonical(b: Bytes, n: nat)
    requires GetUnsigned(b, n).Parsed?
    ensures b == LittleEndian(GetUnsigned(b, n).value, n) + GetUnsigned(b, n).rest
  {
    LittleEndianBytes(b[..n]);
  }

  // Fixed widths

  function PutU8(v: byte): Bytes { [v] }

  function PutU16(v: uint16): Bytes { LittleEndian(v, 2) }

  function PutU32(v: uint32): Bytes { LittleEndian(v, 4) }

  function PutU64(v: uint64): Bytes { LittleEndian(v, 8) }

  function PutI32(v: int32): Bytes { LittleEndian(if v < 0 then v + 0x1_0000_0000 else v, 4) }

  function PutI64(v: int64): Bytes { LittleEndian(if v < 0 then v + 0x1_0000_0000_0000_0000 else v, 8) }

  function GetU8(b: Bytes): Parse<byte> {
    if |b| < 1 then Failed(UnexpectedEnd) else Parsed(b[0], b[1..])
  }

  function GetU16(b: Bytes): Parse<uint16> {
    Powers();
    var (v, rest) :- GetUnsigned(b, 2);
    Parsed(v, rest)
  }

  function GetU32(b: Bytes): Parse<uint32> {
    Powers();
    var (v, rest) :- GetUnsigned(b, 4);
    Parsed(v, rest)
  }

  function GetU64(b: Bytes): Parse<uint64> {
    Powers();
    var (v, rest) :- GetUnsigned(b, 8);
    Parsed(v, rest)
  }

  function GetI32(b: Bytes): Parse<int32> {
    var (v, rest) :- GetU32(b);
    Parsed(if v >= 0x8000_0000 then v - 0x1_0000_0000 else v, rest)
  }

  function GetI64(b: Bytes): Parse<int64> {
    var (v, rest) :- GetU64(b);
    Parsed(if v >= 0x8000_0000_0000_0000 then v - 0x1_0000_0000_0000_0000 else v, rest)
  }

  lemma U8RoundTrip(v: byte, rest: Bytes)
    ensures GetU8(PutU8(v) + rest) == Parsed(v, rest)
  {
    Split([v], rest);
  }

  lemma U16RoundTrip(v: uint16, rest: Bytes)
    ensures GetU16(PutU16(v) + rest) == Parsed(v, rest)
  {
    Powers();
    UnsignedRoundTrip(v, 2, rest);
  }

  lemma U32RoundTrip(v: uint32, rest: Bytes)
    ensures GetU32(PutU32(v) + rest) == Parsed(v, rest)
  {
    Powers();
    UnsignedRoundTrip(v, 4, rest);
  }

  lemma U64RoundTrip(v: uint64, rest: Bytes)
    ensures GetU64(PutU64(v) + rest) == Parsed(v, rest)
  {
    Powers();
    UnsignedRoundTrip(v, 8, rest);
  }

  lemma I32RoundTrip(v: int32, rest: Bytes)
    ensures GetI32(PutI32(v) + rest) == Parsed(v, rest)
  {
    hide GetU32;
    U32RoundTrip(if v < 0 then v + 0x1_0000_0000 else v, rest);
  }

  lemma I64RoundTrip(v: int64, rest: Bytes)
    ensures GetI64(PutI64(v) + rest) == Parsed(v, rest)
  {
    hide GetU64;
    U64RoundTrip(if v < 0 then v + 0x1_0000_0000_0000_0000 else v, rest);
  }

  lemma U8Canonical(b: Bytes)
    requires GetU8(b).Parsed?
    ensures b == PutU8(GetU8(b).value) + GetU8(b).rest
  {
  }

  lemma U16Canonical(b: Bytes)
    requires GetU16(b).Parsed?
    ensures b == PutU16(GetU16(b).value) + GetU16(b).rest
  {
    UnsignedCanonical(b, 2);
  }

  lemma U32Canonical(b: Bytes)
    requires GetU32(b).Parsed?
    ensures b == PutU32(GetU32(b).value) + GetU32(b).rest
  {
    UnsignedCanonical(b, 4);
  }

  lemma U64Canonical(b: Bytes)
    requires GetU64(b).Parsed?
    ensures b == PutU64(GetU64(b).value) + GetU64(b).rest
  {
    UnsignedCanonical(b, 8);
  }

  lemma I32Canonical(b: Bytes)
    requires GetI32(b).Parsed?
    ensures b == PutI32(GetI32(b).value) + GetI32(b).rest
  {
    hide GetU32, LittleEndian;
    U32Canonical(b);
  }

  lemma I64Canonical(b: Bytes)
    requires GetI64(b).Parsed?
    ensures b == PutI64(GetI64(b).value) + GetI64(b).rest
  {
    hide GetU64, LittleEndian;
    U64Canonical(b);
  }

  // Identifiers

  function PutId(id: Id): Bytes {
    PutU16(|id|) + id
  }

  function GetId(b: Bytes): Parse<Id> {
    var (size, afterSize) :- GetU16(b);
    var (text, rest) :- GetBytes(afterSize, size);
    if ValidIdText(text) then Parsed(text, rest) else Failed(InvalidId)
  }

  lemma IdRoundTrip(id: Id, rest: Bytes)
    ensures GetId(PutId(id) + rest) == Parsed(id, rest)
  {
    Assoc(PutU16(|id|), id, rest);
    U16RoundTrip(|id|, id + rest);
    Split(id, rest);
  }

  lemma IdCanonical(b: Bytes)
    requires GetId(b).Parsed?
    ensures b == PutId(GetId(b).value) + GetId(b).rest
  {
    hide ValidIdText;
    U16Canonical(b);
    var afterSize := GetU16(b).rest;
    assert afterSize == GetId(b).value + GetId(b).rest;
    Assoc(PutU16(GetU16(b).value), GetId(b).value, GetId(b).rest);
  }

  // Enumerations, dates, money, terms

  function PutCurrency(c: Currency): Bytes {
    PutU8(CurrencyIndex(c))
  }

  function GetCurrency(b: Bytes): Parse<Currency> {
    var (tag, rest) :- GetU8(b);
    match tag
    case 0 => Parsed(Usd, rest)
    case 1 => Parsed(Jpy, rest)
    case 2 => Parsed(Kwd, rest)
    case _ => Failed(InvalidEnum)
  }

  function PutKind(k: InstrumentKind): Bytes {
    PutU8(if k == FxSpot then 0 else 1)
  }

  function GetKind(b: Bytes): Parse<InstrumentKind> {
    var (tag, rest) :- GetU8(b);
    match tag
    case 0 => Parsed(FxSpot, rest)
    case 1 => Parsed(FxForward, rest)
    case _ => Failed(InvalidEnum)
  }

  function PutDate(d: IsoDate): Bytes {
    PutI32(d)
  }

  function GetDate(b: Bytes): Parse<IsoDate> {
    var (days, rest) :- GetI32(b);
    if MINIMUM_EPOCH_DAY <= days <= MAXIMUM_EPOCH_DAY then Parsed(days, rest) else Failed(InvalidDate)
  }

  function PutMoney(m: Money): Bytes {
    PutCurrency(m.currency) + PutI64(m.minorUnits)
  }

  function GetMoney(b: Bytes): Parse<Money> {
    var (currency, afterCurrency) :- GetCurrency(b);
    var (minorUnits, rest) :- GetI64(afterCurrency);
    Parsed(Money(currency, minorUnits), rest)
  }

  function PutTerms(t: FxTerms): Bytes {
    PutKind(t.kind) + (PutDate(t.tradeDate) + (PutDate(t.valueDate) + (PutMoney(t.pay) + PutMoney(t.receive))))
  }

  function GetTerms(b: Bytes): Parse<FxTerms> {
    var (kind, b1) :- GetKind(b);
    var (tradeDate, b2) :- GetDate(b1);
    var (valueDate, b3) :- GetDate(b2);
    var (pay, b4) :- GetMoney(b3);
    var (receive, rest) :- GetMoney(b4);
    match CreateTerms(kind, tradeDate, valueDate, pay, receive)
    case Success(terms) => Parsed(terms, rest)
    case Failure(_) => Failed(InvalidTerms)
  }

  lemma CurrencyRoundTrip(c: Currency, rest: Bytes)
    ensures GetCurrency(PutCurrency(c) + rest) == Parsed(c, rest)
  {
    U8RoundTrip(CurrencyIndex(c), rest);
  }

  lemma CurrencyCanonical(b: Bytes)
    requires GetCurrency(b).Parsed?
    ensures b == PutCurrency(GetCurrency(b).value) + GetCurrency(b).rest
  {
    U8Canonical(b);
  }

  lemma KindRoundTrip(k: InstrumentKind, rest: Bytes)
    ensures GetKind(PutKind(k) + rest) == Parsed(k, rest)
  {
    U8RoundTrip(if k == FxSpot then 0 else 1, rest);
  }

  lemma KindCanonical(b: Bytes)
    requires GetKind(b).Parsed?
    ensures b == PutKind(GetKind(b).value) + GetKind(b).rest
  {
    U8Canonical(b);
  }

  lemma DateRoundTrip(d: IsoDate, rest: Bytes)
    ensures GetDate(PutDate(d) + rest) == Parsed(d, rest)
  {
    hide GetI32;
    I32RoundTrip(d, rest);
  }

  lemma DateCanonical(b: Bytes)
    requires GetDate(b).Parsed?
    ensures b == PutDate(GetDate(b).value) + GetDate(b).rest
  {
    hide GetI32;
    I32Canonical(b);
  }

  lemma MoneyRoundTrip(m: Money, rest: Bytes)
    ensures GetMoney(PutMoney(m) + rest) == Parsed(m, rest)
  {
    hide GetCurrency, GetI64;
    Assoc(PutCurrency(m.currency), PutI64(m.minorUnits), rest);
    CurrencyRoundTrip(m.currency, PutI64(m.minorUnits) + rest);
    I64RoundTrip(m.minorUnits, rest);
  }

  lemma MoneyCanonical(b: Bytes)
    requires GetMoney(b).Parsed?
    ensures b == PutMoney(GetMoney(b).value) + GetMoney(b).rest
  {
    hide GetCurrency, GetI64, PutCurrency, PutI64;
    CurrencyCanonical(b);
    I64Canonical(GetCurrency(b).rest);
    var m := GetMoney(b).value;
    Assoc(PutCurrency(m.currency), PutI64(m.minorUnits), GetMoney(b).rest);
  }

  lemma TermsRoundTrip(t: FxTerms, rest: Bytes)
    ensures GetTerms(PutTerms(t) + rest) == Parsed(t, rest)
  {
    hide GetKind, GetDate, GetMoney, PutKind, PutDate, PutMoney;
    var e4 := PutMoney(t.receive);
    var e3 := PutMoney(t.pay) + e4;
    var e2 := PutDate(t.valueDate) + e3;
    var e1 := PutDate(t.tradeDate) + e2;
    Assoc(PutKind(t.kind), e1, rest);
    Assoc(PutDate(t.tradeDate), e2, rest);
    Assoc(PutDate(t.valueDate), e3, rest);
    Assoc(PutMoney(t.pay), e4, rest);
    KindRoundTrip(t.kind, e1 + rest);
    DateRoundTrip(t.tradeDate, e2 + rest);
    DateRoundTrip(t.valueDate, e3 + rest);
    MoneyRoundTrip(t.pay, e4 + rest);
    MoneyRoundTrip(t.receive, rest);
  }

  lemma TermsCanonical(b: Bytes)
    requires GetTerms(b).Parsed?
    ensures b == PutTerms(GetTerms(b).value) + GetTerms(b).rest
  {
    hide GetKind, GetDate, GetMoney, PutKind, PutDate, PutMoney;
    var t, rest := GetTerms(b).value, GetTerms(b).rest;
    var b1 := GetKind(b).rest;
    var b2 := GetDate(b1).rest;
    var b3 := GetDate(b2).rest;
    var b4 := GetMoney(b3).rest;
    KindCanonical(b);
    DateCanonical(b1);
    DateCanonical(b2);
    MoneyCanonical(b3);
    MoneyCanonical(b4);
    var e4 := PutMoney(t.receive);
    var e3 := PutMoney(t.pay) + e4;
    var e2 := PutDate(t.valueDate) + e3;
    Assoc(PutMoney(t.pay), e4, rest);
    Assoc(PutDate(t.valueDate), e3, rest);
    Assoc(PutDate(t.tradeDate), e2, rest);
    Assoc(PutKind(t.kind), PutDate(t.tradeDate) + e2, rest);
  }

  // Groups of four posting ids

  function PutIds(a: Id, b: Id, c: Id, d: Id): Bytes {
    PutId(a) + (PutId(b) + (PutId(c) + PutId(d)))
  }

  function GetIds(b: Bytes): Parse<(Id, Id, Id, Id)> {
    var (i0, b1) :- GetId(b);
    var (i1, b2) :- GetId(b1);
    var (i2, b3) :- GetId(b2);
    var (i3, rest) :- GetId(b3);
    Parsed((i0, i1, i2, i3), rest)
  }

  lemma IdsRoundTrip(i0: Id, i1: Id, i2: Id, i3: Id, rest: Bytes)
    ensures GetIds(PutIds(i0, i1, i2, i3) + rest) == Parsed((i0, i1, i2, i3), rest)
  {
    hide GetId, PutId, ValidIdText;
    Assoc(PutId(i0), PutId(i1) + (PutId(i2) + PutId(i3)), rest);
    Assoc(PutId(i1), PutId(i2) + PutId(i3), rest);
    Assoc(PutId(i2), PutId(i3), rest);
    IdRoundTrip(i0, (PutId(i1) + (PutId(i2) + PutId(i3))) + rest);
    IdRoundTrip(i1, (PutId(i2) + PutId(i3)) + rest);
    IdRoundTrip(i2, PutId(i3) + rest);
    IdRoundTrip(i3, rest);
  }

  lemma IdsCanonical(b: Bytes)
    requires GetIds(b).Parsed?
    ensures var (i0, i1, i2, i3) := GetIds(b).value; b == PutIds(i0, i1, i2, i3) + GetIds(b).rest
  {
    hide GetId, PutId, ValidIdText;
    var (i0, i1, i2, i3) := GetIds(b).value;
    var rest := GetIds(b).rest;
    var b1 := GetId(b).rest;
    var b2 := GetId(b1).rest;
    IdCanonical(b);
    IdCanonical(b1);
    IdCanonical(b2);
    IdCanonical(GetId(b2).rest);
    Assoc(PutId(i2), PutId(i3), rest);
    Assoc(PutId(i1), PutId(i2) + PutId(i3), rest);
    Assoc(PutId(i0), PutId(i1) + (PutId(i2) + PutId(i3)), rest);
  }

  function PutConfirmationIds(ids: ConfirmationPostingIds): Bytes {
    PutIds(ids.payControlDebit, ids.payPayableCredit, ids.receiveReceivableDebit, ids.receiveControlCredit)
  }

  function GetConfirmationIds(b: Bytes): Parse<ConfirmationPostingIds> {
    var ((i0, i1, i2, i3), rest) :- GetIds(b);
    Parsed(ConfirmationPostingIds(i0, i1, i2, i3), rest)
  }

  function PutReversalIds(ids: ReversalPostingIds): Bytes {
    PutIds(ids.payControlCredit, ids.payPayableDebit, ids.receiveReceivableCredit, ids.receiveControlDebit)
  }

  function GetReversalIds(b: Bytes): Parse<ReversalPostingIds> {
    var ((i0, i1, i2, i3), rest) :- GetIds(b);
    Parsed(ReversalPostingIds(i0, i1, i2, i3), rest)
  }

  lemma ConfirmationIdsRoundTrip(ids: ConfirmationPostingIds, rest: Bytes)
    ensures GetConfirmationIds(PutConfirmationIds(ids) + rest) == Parsed(ids, rest)
  {
    hide GetIds, PutIds, ValidIdText;
    IdsRoundTrip(ids.payControlDebit, ids.payPayableCredit, ids.receiveReceivableDebit, ids.receiveControlCredit, rest);
  }

  lemma ConfirmationIdsCanonical(b: Bytes)
    requires GetConfirmationIds(b).Parsed?
    ensures b == PutConfirmationIds(GetConfirmationIds(b).value) + GetConfirmationIds(b).rest
  {
    hide GetIds, PutIds, ValidIdText;
    IdsCanonical(b);
  }

  lemma ReversalIdsRoundTrip(ids: ReversalPostingIds, rest: Bytes)
    ensures GetReversalIds(PutReversalIds(ids) + rest) == Parsed(ids, rest)
  {
    hide GetIds, PutIds, ValidIdText;
    IdsRoundTrip(ids.payControlCredit, ids.payPayableDebit, ids.receiveReceivableCredit, ids.receiveControlDebit, rest);
  }

  lemma ReversalIdsCanonical(b: Bytes)
    requires GetReversalIds(b).Parsed?
    ensures b == PutReversalIds(GetReversalIds(b).value) + GetReversalIds(b).rest
  {
    hide GetIds, PutIds, ValidIdText;
    IdsCanonical(b);
  }

  /** An optional value: a 0/1 flag, then the value if the flag is 1. */
  function PutOptionalIds(ids: Option<ReversalPostingIds>): Bytes {
    if ids.None? then PutU8(0) else PutU8(1) + PutReversalIds(ids.value)
  }

  function GetOptionalIds(b: Bytes): Parse<Option<ReversalPostingIds>> {
    var (flag, b1) :- GetU8(b);
    if flag > 1 then Failed(InvalidOptionalFlag)
    else if flag == 0 then Parsed(None, b1)
    else
      var (ids, rest) :- GetReversalIds(b1);
      Parsed(Some(ids), rest)
  }

  lemma OptionalIdsRoundTrip(ids: Option<ReversalPostingIds>, rest: Bytes)
    ensures GetOptionalIds(PutOptionalIds(ids) + rest) == Parsed(ids, rest)
  {
    hide GetReversalIds, PutReversalIds;
    if ids.None? {
      U8RoundTrip(0, rest);
    } else {
      Assoc(PutU8(1), PutReversalIds(ids.value), rest);
      U8RoundTrip(1, PutReversalIds(ids.value) + rest);
      ReversalIdsRoundTrip(ids.value, rest);
    }
  }

  lemma OptionalIdsCanonical(b: Bytes)
    requires GetOptionalIds(b).Parsed?
    ensures b == PutOptionalIds(GetOptionalIds(b).value) + GetOptionalIds(b).rest
  {
    hide GetReversalIds, PutReversalIds;
    U8Canonical(b);
    if GetOptionalIds(b).value.Some? {
      ReversalIdsCanonical(GetU8(b).rest);
      Assoc(PutU8(1), PutReversalIds(GetOptionalIds(b).value.value), GetOptionalIds(b).rest);
    }
  }
}
