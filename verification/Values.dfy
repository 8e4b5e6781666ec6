/**
 Validated values shared by every layer: machine integers, identifiers,
 currencies, money, dates and FX terms.
 */
module Values {
  import opened Wrappers
  import opened Ordering

  // Machine integers.  A value of one of these types is in range, so every
  // update carries a no-overflow obligation.

  type byte = x: int | 0 <= x < 0x100
  type uint16 = x: int | 0 <= x < 0x1_0000
  type uint32 = x: int | 0 <= x < 0x1_0000_0000
  type uint64 = x: int | 0 <= x < 0x1_0000_0000_0000_0000
  type int32 = x: int | -0x8000_0000 <= x < 0x8000_0000
  type int64 = x: int | -0x8000_0000_0000_0000 <= x < 0x8000_0000_0000_0000

  const UINT16_MAX: uint16 := 0xFFFF
  const UINT32_MAX: uint32 := 0xFFFF_FFFF
  const UINT64_MAX: uint64 := 0xFFFF_FFFF_FFFF_FFFF
  const INT64_MAX: int64 := 0x7FFF_FFFF_FFFF_FFFF
  const INT64_MIN: int64 := -0x8000_0000_0000_0000

  type Bytes = seq<byte>

  // Identifiers

  const MAXIMUM_ID_LENGTH := 64

  predicate IsAlphanumeric(b: byte) {
    65 <= b <= 90 || 97 <= b <= 122 || 48 <= b <= 57
  }

  /** Letters, digits, '.', '_', ':' and '-'. */
  predicate IsIdCharacter(b: byte) {
    IsAlphanumeric(b) || b == 46 || b == 95 || b == 58 || b == 45
  }

  predicate ValidIdText(s: Bytes) {
    && 1 <= |s| <= MAXIMUM_ID_LENGTH
    && IsAlphanumeric(s[0])
    && forall i :: 1 <= i < |s| ==> IsIdCharacter(s[i])
  }

  type Id = s: Bytes | ValidIdText(s) witness [65]
  type TradeId = Id
  type BookId = Id
  type CounterpartyId = Id
  type NettingSetId = Id
  type CommandId = Id
  type PostingId = Id

  predicate IdLess(a: Id, b: Id) {
    LexLess(a, b)
  }

  lemma IdOrder()
    ensures TotalOrder(IdLess)
  {
    forall a: Id ensures !IdLess(a, a) { LexTrichotomy(a, a); }
    forall a: Id, b: Id | a != b ensures IdLess(a, b) || IdLess(b, a) { LexTrichotomy(a, b); }
    forall a: Id, b: Id, c: Id | IdLess(a, b) && IdLess(b, c) ensures IdLess(a, c) { LexTransitive(a, b, c); }
  }

  predicate IsLetterOrDigit(ch: char) {
    'A' <= ch <= 'Z' || 'a' <= ch <= 'z' || '0' <= ch <= '9'
  }

  /** An identifier is 1 to 64 letters, digits, dots, underscores, colons and dashes, the first a letter or digit. */
  lemma IdTextIff(s: Bytes)
    ensures ValidIdText(s) <==>
              && 1 <= |s| <= 64 && IsLetterOrDigit(s[0] as char)
              && forall i :: 1 <= i < |s| ==> IsLetterOrDigit(s[i] as char) || s[i] as char in {'.', '_', ':', '-'}
  {
    forall i | 0 <= i < |s|
      ensures IsAlphanumeric(s[i]) <==> IsLetterOrDigit(s[i] as char)
      ensures IsIdCharacter(s[i]) <==> IsLetterOrDigit(s[i] as char) || s[i] as char in {'.', '_', ':', '-'}
    {
      assert (s[i] as char) as int == s[i];
    }
  }

  /** Each limit is the least or greatest value of its type. */
  lemma IntegerLimits(a: uint16, b: uint32, c: uint64, d: int64)
    ensures a <= UINT16_MAX && b <= UINT32_MAX && c <= UINT64_MAX && INT64_MIN <= d <= INT64_MAX
  {
  }

  // Money: an integer number of minor units

  datatype Currency = Usd | Jpy | Kwd

  function CurrencyIndex(c: Currency): byte {
    match c case Usd => 0 case Jpy => 1 case Kwd => 2
  }

  datatype Money = Money(currency: Currency, minorUnits: int64)

  // Dates are epoch days from 0001-01-01 to 9999-12-31

  const MINIMUM_EPOCH_DAY: int32 := -719162
  const MAXIMUM_EPOCH_DAY: int32 := 2932896

  type IsoDate = d: int32 | MINIMUM_EPOCH_DAY <= d <= MAXIMUM_EPOCH_DAY witness 0

  // FX terms: agreed pay and receive cashflows

  datatype InstrumentKind = FxSpot | FxForward

  datatype FxTermsData = FxTerms(kind: InstrumentKind, tradeDate: IsoDate, valueDate: IsoDate, pay: Money,
      receive: Money)

  datatype FxTermsError = NonPositivePayAmount | NonPositiveReceiveAmount | SameCurrency

  predicate ValidTerms(t: FxTermsData) {
    t.pay.minorUnits > 0 && t.receive.minorUnits > 0 && t.pay.currency != t.receive.currency
  }

  type FxTerms = t: FxTermsData | ValidTerms(t) witness FxTerms(FxSpot, 0, 0, Money(Usd, 1), Money(Jpy, 1))

  function CreateTerms(kind: InstrumentKind, tradeDate: IsoDate, valueDate: IsoDate, pay: Money,
          receive: Money): (r: Outcome<FxTerms, FxTermsError>)
    ensures r.Success? <==> ValidTerms(FxTerms(kind, tradeDate, valueDate, pay, receive))
  {
    if pay.minorUnits <= 0 then Failure(NonPositivePayAmount)
    else if receive.minorUnits <= 0 then Failure(NonPositiveReceiveAmount)
    else if pay.currency == receive.currency then Failure(SameCurrency)
    else Success(FxTerms(kind, tradeDate, valueDate, pay, receive))
  }
}
