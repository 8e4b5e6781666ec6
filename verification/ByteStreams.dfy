/** The Writer that appends to a byte buffer and the Reader that advances through one (codec.cpp). */
module ByteStreams {
  import opened Wrappers
  import opened Values
  import opened PostingPolicy
  import opened Journal
  import opened Wire
  import opened Codec

  class Writer {
    var bytes: Bytes

    constructor ()
      ensures bytes == []
    {
      bytes := [];
    }

    method WriteU8(v: byte)
      modifies this
      ensures bytes == old(bytes) + PutU8(v)
    {
      bytes := bytes + [v];
    }

    /** Low byte first, each further byte from the value shifted right by eight. */
    method WriteUnsigned(v: nat, width: nat)
      modifies this
      ensures bytes == old(bytes) + LittleEndian(v, width)
    {
      var shifted := v;
      for i := 0 to width
        invariant bytes + LittleEndian(shifted, width - i) == old(bytes) + LittleEndian(v, width)
      {
        Assoc(bytes, [(shifted % 0x100) as byte], LittleEndian(shifted / 0x100, width - i - 1));
        bytes := bytes + [shifted % 0x100];
        shifted := shifted / 0x100;
      }
    }

    method WriteU16(v: uint16)
      modifies this
      ensures bytes == old(bytes) + PutU16(v)
    {
      WriteUnsigned(v, 2);
    }

    method WriteU32(v: uint32)
      modifies this
      ensures bytes == old(bytes) + PutU32(v)
    {
      WriteUnsigned(v, 4);
    }

    method WriteU64(v: uint64)
      modifies this
      ensures bytes == old(bytes) + PutU64(v)
    {
      WriteUnsigned(v, 8);
    }

    method WriteI32(v: int32)
      modifies this
      ensures bytes == old(bytes) + PutI32(v)
    {
      WriteU32(if v < 0 then v + 0x1_0000_0000 else v);
    }

    method WriteI64(v: int64)
      modifies this
      ensures bytes == old(bytes) + PutI64(v)
    {
      WriteU64(if v < 0 then v + 0x1_0000_0000_0000_0000 else v);
    }

    method WriteBytes(v: Bytes)
      modifies this
      ensures bytes == old(bytes) + v
    {
      bytes := bytes + v;
    }

    method WriteId(id: Id)
      modifies this
      ensures bytes == old(bytes) + PutId(id)
    {
      WriteU16(|id|);
      WriteBytes(id);
      Assoc(old(bytes), PutU16(|id|), id);
    }

    method WriteMoney(m: Money)
      modifies this
      ensures bytes == old(bytes) + PutMoney(m)
    {
      WriteU8(CurrencyIndex(m.currency));
      WriteI64(m.minorUnits);
      Assoc(old(bytes), PutCurrency(m.currency), PutI64(m.minorUnits));
    }

    method WriteTerms(t: FxTerms)
      modifies this
      ensures bytes == old(bytes) + PutTerms(t)
    {
      hide PutMoney, PutI32;
      WriteU8(if t.kind == FxSpot then 0 else 1);
      WriteI32(t.tradeDate);
      WriteI32(t.valueDate);
      WriteMoney(t.pay);
      WriteMoney(t.receive);
      assert bytes == old(bytes) + PutTerms(t);
    }

    method WriteFourIds(a: Id, b: Id, c: Id, d: Id)
      modifies this
      ensures bytes == old(bytes) + PutIds(a, b, c, d)
    {
      hide PutId;
      WriteId(a);
      WriteId(b);
      WriteId(c);
      WriteId(d);
      assert bytes == old(bytes) + PutIds(a, b, c, d);
    }

    method WriteConfirmationIds(ids: ConfirmationPostingIds)
      modifies this
      ensures bytes == old(bytes) + PutConfirmationIds(ids)
    {
      WriteFourIds(ids.payControlDebit, ids.payPayableCredit, ids.receiveReceivableDebit, ids.receiveControlCredit);
    }

    method WriteReversalIds(ids: ReversalPostingIds)
      modifies this
      ensures bytes == old(bytes) + PutReversalIds(ids)
    {
      WriteFourIds(ids.payControlCredit, ids.payPayableDebit, ids.receiveReceivableCredit, ids.receiveControlDebit);
    }

    method WriteConfirmed(id: TradeId, expected: uint32, ids: ConfirmationPostingIds)
      modifies this
      ensures bytes == old(bytes) + (PutId(id) + (PutU32(expected) + PutConfirmationIds(ids)))
    {
      hide PutId, PutU32, PutConfirmationIds;
      WriteId(id);
      WriteU32(expected);
      WriteConfirmationIds(ids);
      assert bytes == old(bytes) + (PutId(id) + (PutU32(expected) + PutConfirmationIds(ids)));
    }

    method WriteAmended(id: TradeId, expected: uint32, terms: FxTerms, reversalIds: ReversalPostingIds,
            ids: ConfirmationPostingIds)
      modifies this
      ensures bytes == old(bytes) + (PutId(id)
          + (PutU32(expected) + (PutTerms(terms) + (PutReversalIds(reversalIds) + PutConfirmationIds(ids)))))
    {
      hide PutId, PutU32, PutTerms, PutReversalIds, PutConfirmationIds;
      WriteId(id);
      WriteU32(expected);
      WriteTerms(terms);
      WriteReversalIds(reversalIds);
      WriteConfirmationIds(ids);
      assert bytes == old(bytes) + (PutId(id)
          + (PutU32(expected) + (PutTerms(terms) + (PutReversalIds(reversalIds) + PutConfirmationIds(ids)))));
    }

    method WriteCancelled(id: TradeId, expected: uint32, reversalIds: Option<ReversalPostingIds>)
      modifies this
      ensures bytes == old(bytes) + (PutId(id) + (PutU32(expected) + PutOptionalIds(reversalIds)))
    {
      hide PutId, PutU32, PutReversalIds;
      WriteId(id);
      WriteU32(expected);
      WriteU8(if reversalIds.Some? then 1 else 0);
      if reversalIds.Some? {
        WriteReversalIds(reversalIds.value);
      }
      assert bytes == old(bytes) + (PutId(id) + (PutU32(expected) + PutOptionalIds(reversalIds)));
    }

    /** The fields of an event, or of the command of the same kind. */
    method WriteFields(e: Event)
      modifies this
      ensures bytes == old(bytes) + PutFields(e)
    {
      hide PutIds, PutId, PutTerms, PutU32, PutConfirmationIds, PutReversalIds, PutOptionalIds;
      match e
      case TradeBooked(id, bookId, counterpartyId, nettingSetId, terms) =>
        WriteFourIds(id, bookId, counterpartyId, nettingSetId);
        WriteTerms(terms);
        Assoc(old(bytes), PutIds(id, bookId, counterpartyId, nettingSetId), PutTerms(terms));
      case TradeConfirmed(id, expected, ids) => WriteConfirmed(id, expected, ids);
      case TradeAmended(id, expected, terms, reversalIds, ids) => WriteAmended(id, expected, terms, reversalIds, ids);
      case TradeCancelled(id, expected, reversalIds) => WriteCancelled(id, expected, reversalIds);
      case EodRan(asOf) => WriteI32(asOf);
    }

    method WriteResult(r: CommandResult)
      modifies this
      ensures bytes == old(bytes) + PutResult(r)
    {
      hide PutId, PutU32, PutU64, PutDate;
      WriteU8(ResultTag(r));
      WriteU8(RESULT_FORMAT_VERSION);
      WriteResultFields(r);
      assert bytes == old(bytes) + PutResult(r);
    }

    method WriteVersioned(id: TradeId, version: uint32, stateVersion: uint64)
      modifies this
      ensures bytes == old(bytes) + PutVersioned(id, version, stateVersion)
    {
      hide PutId, PutU32, PutU64;
      WriteId(id);
      WriteU32(version);
      WriteU64(stateVersion);
      assert bytes == old(bytes) + PutVersioned(id, version, stateVersion);
    }

    method WriteResultFields(r: CommandResult)
      modifies this
      ensures bytes == old(bytes) + PutResultFields(r)
    {
      hide PutId, PutU32, PutU64, PutVersioned, PutI32;
      match r
      case TradeBookedResult(id, version, stateVersion) => WriteVersioned(id, version, stateVersion);
      case TradeConfirmedResult(id, version, stateVersion) => WriteVersioned(id, version, stateVersion);
      case TradeCancelledResult(id, version, stateVersion) => WriteVersioned(id, version, stateVersion);
      case TradeAmendedResult(id, superseded, replacement, stateVersion) =>
        WriteId(id);
        WriteU32(superseded);
        WriteU32(replacement);
        WriteU64(stateVersion);
        assert bytes == old(bytes) + (PutId(id) + (PutU32(superseded) + (PutU32(replacement) + PutU64(stateVersion))));
      case EodRunResult(asOf, count, stateVersion) =>
        WriteI32(asOf);
        WriteU32(count);
        WriteU64(stateVersion);
        assert bytes == old(bytes) + (PutI32(asOf) + (PutU32(count) + PutU64(stateVersion)));
    }
  }

  /** A method outcome that follows a parser: the same value with the same bytes left, or the same error. */
  ghost predicate Follows<T>(p: Parse<T>, r: Outcome<T, CodecError>, rest: Bytes) {
    match p
    case Parsed(v, left) => r == Success(v) && rest == left
    case Failed(e) => r == Failure(e)
  }

  class Reader {
    const bytes: Bytes
    var offset: nat

    constructor (input: Bytes)
      ensures bytes == input && offset == 0 && Valid() && Rest() == input
    {
      bytes := input;
      offset := 0;
    }

    ghost predicate Valid()
      reads this
    {
      offset <= |bytes|
    }

    function Remaining(): nat
      requires Valid()
      reads this
    {
      |bytes| - offset
    }

    ghost function Rest(): Bytes
      requires Valid()
      reads this
    {
      bytes[offset..]
    }

    method ReadBytes(n: nat) returns (r: Outcome<Bytes, CodecError>)
      requires Valid()
      modifies this
      ensures Valid() && Follows(GetBytes(old(Rest()), n), r, Rest())
    {
      if Remaining() < n {
        return Failure(UnexpectedEnd);
      }
      r := Success(bytes[offset..offset + n]);
      assert bytes[offset..offset + n] == Rest()[..n];
      offset := offset + n;
    }

    method ReadU8() returns (r: Outcome<byte, CodecError>)
      requires Valid()
      modifies this
      ensures Valid() && Follows(GetU8(old(Rest())), r, Rest())
    {
      if Remaining() < 1 {
        return Failure(UnexpectedEnd);
      }
      r := Success(bytes[offset]);
      offset := offset + 1;
    }

    /** The little-endian value, accumulated byte by byte from the most significant end. */
    method ReadUnsigned(width: nat) returns (r: Outcome<nat, CodecError>)
      requires Valid()
      modifies this
      ensures Valid() && Follows(GetUnsigned(old(Rest()), width), r, Rest())
      ensures r.Failure? ==> offset == old(offset)
    {
      if Remaining() < width {
        return Failure(UnexpectedEnd);
      }
      var window := bytes[offset..offset + width];
      var value: nat := 0;
      for i := width downto 0
        invariant value == FromLittleEndian(window[i..])
      {
        assert window[i..][1..] == window[i + 1..];
        value := window[i] + 0x100 * value;
      }
      assert window[0..] == window == Rest()[..width];
      offset := offset + width;
      return Success(value);
    }

    method ReadU16() returns (r: Outcome<uint16, CodecError>)
      requires Valid()
      modifies this
      ensures Valid() && Follows(GetU16(old(Rest())), r, Rest())
    {
      Powers();
      var v :- ReadUnsigned(2);
      return Success(v);
    }

    method ReadU32() returns (r: Outcome<uint32, CodecError>)
      requires Valid()
      modifies this
      ensures Valid() && Follows(GetU32(old(Rest())), r, Rest())
    {
      Powers();
      var v :- ReadUnsigned(4);
      return Success(v);
    }

    method ReadU64() returns (r: Outcome<uint64, CodecError>)
      requires Valid()
      modifies this
      ensures Valid() && Follows(GetU64(old(Rest())), r, Rest())
    {
      Powers();
      var v :- ReadUnsigned(8);
      return Success(v);
    }

    method ReadI32() returns (r: Outcome<int32, CodecError>)
      requires Valid()
      modifies this
      ensures Valid() && Follows(GetI32(old(Rest())), r, Rest())
    {
      hide GetU32;
      var v :- ReadU32();
      var signed: int := v;
      if signed >= 0x8000_0000 {
        signed := signed - 0x1_0000_0000;
      }
      return Success(signed);
    }

    method ReadI64() returns (r: Outcome<int64, CodecError>)
      requires Valid()
      modifies this
      ensures Valid() && Follows(GetI64(old(Rest())), r, Rest())
    {
      hide GetU64;
      var v :- ReadU64();
      var signed: int := v;
      if signed >= 0x8000_0000_0000_0000 {
        signed := signed - 0x1_0000_0000_0000_0000;
      }
      return Success(signed);
    }

    method ReadId() returns (r: Outcome<Id, CodecError>)
      requires Valid()
      modifies this
      ensures Valid() && Follows(GetId(old(Rest())), r, Rest())
    {
      hide GetU16;
      var size :- ReadU16();
      var text :- ReadBytes(size);
      if !ValidIdText(text) {
        return Failure(InvalidId);
      }
      return Success(text);
    }

    method ReadCurrency() returns (r: Outcome<Currency, CodecError>)
      requires Valid()
      modifies this
      ensures Valid() && Follows(GetCurrency(old(Rest())), r, Rest())
    {
      var tag :- ReadU8();
      match tag
      case 0 => return Success(Usd);
      case 1 => return Success(Jpy);
      case 2 => return Success(Kwd);
      case _ => return Failure(InvalidEnum);
    }

    method ReadKind() returns (r: Outcome<InstrumentKind, CodecError>)
      requires Valid()
      modifies this
      ensures Valid() && Follows(GetKind(old(Rest())), r, Rest())
    {
      var tag :- ReadU8();
      match tag
      case 0 => return Success(FxSpot);
      case 1 => return Success(FxForward);
      case _ => return Failure(InvalidEnum);
    }

    method ReadDate() returns (r: Outcome<IsoDate, CodecError>)
      requires Valid()
      modifies this
      ensures Valid() && Follows(GetDate(old(Rest())), r, Rest())
    {
      hide GetI32;
      var days :- ReadI32();
      if !(MINIMUM_EPOCH_DAY <= days <= MAXIMUM_EPOCH_DAY) {
        return Failure(InvalidDate);
      }
      return Success(days);
    }

    method ReadMoney() returns (r: Outcome<Money, CodecError>)
      requires Valid()
      modifies this
      ensures Valid() && Follows(GetMoney(old(Rest())), r, Rest())
    {
      hide GetCurrency, GetI64;
      var currency :- ReadCurrency();
      var minorUnits :- ReadI64();
      return Success(Money(currency, minorUnits));
    }

    method ReadTerms() returns (r: Outcome<FxTerms, CodecError>)
      requires Valid()
      modifies this
      ensures Valid() && Follows(GetTerms(old(Rest())), r, Rest())
    {
      hide GetKind, GetDate, GetMoney;
      var kind :- ReadKind();
      var tradeDate :- ReadDate();
      var valueDate :- ReadDate();
      var pay :- ReadMoney();
      var receive :- ReadMoney();
      var terms := CreateTerms(kind, tradeDate, valueDate, pay, receive);
      if terms.Failure? {
        return Failure(InvalidTerms);
      }
      return Success(terms.value);
    }

    method ReadFourIds() returns (r: Outcome<(Id, Id, Id, Id), CodecError>)
      requires Valid()
      modifies this
      ensures Valid() && Follows(GetIds(old(Rest())), r, Rest())
    {
      hide GetId, ValidIdText;
      var a :- ReadId();
      var b :- ReadId();
      var c :- ReadId();
      var d :- ReadId();
      return Success((a, b, c, d));
    }

    method ReadConfirmationIds() returns (r: Outcome<ConfirmationPostingIds, CodecError>)
      requires Valid()
      modifies this
      ensures Valid() && Follows(GetConfirmationIds(old(Rest())), r, Rest())
    {
      hide GetIds;
      var ids :- ReadFourIds();
      return Success(ConfirmationPostingIds(ids.0, ids.1, ids.2, ids.3));
    }

    method ReadReversalIds() returns (r: Outcome<ReversalPostingIds, CodecError>)
      requires Valid()
      modifies this
      ensures Valid() && Follows(GetReversalIds(old(Rest())), r, Rest())
    {
      hide GetIds;
      var ids :- ReadFourIds();
      return Success(ReversalPostingIds(ids.0, ids.1, ids.2, ids.3));
    }

    method ReadOptionalIds() returns (r: Outcome<Option<ReversalPostingIds>, CodecError>)
      requires Valid()
      modifies this
      ensures Valid() && Follows(GetOptionalIds(old(Rest())), r, Rest())
    {
      hide GetReversalIds;
      var flag :- ReadU8();
      if flag > 1 {
        return Failure(InvalidOptionalFlag);
      }
      if flag == 0 {
        return Success(None);
      }
      var ids :- ReadReversalIds();
      return Success(Some(ids));
    }

    method ReadBooked() returns (r: Outcome<Event, CodecError>)
      requires Valid()
      modifies this
      ensures Valid() && Follows(GetBooked(old(Rest())), r, Rest())
    {
      hide GetIds, GetTerms;
      var ids :- ReadFourIds();
      var terms :- ReadTerms();
      return Success(TradeBooked(ids.0, ids.1, ids.2, ids.3, terms));
    }

    method ReadConfirmed() returns (r: Outcome<Event, CodecError>)
      requires Valid()
      modifies this
      ensures Valid() && Follows(GetConfirmed(old(Rest())), r, Rest())
    {
      hide GetId, GetU32, GetConfirmationIds;
      var id :- ReadId();
      var expected :- ReadU32();
      var ids :- ReadConfirmationIds();
      return Success(TradeConfirmed(id, expected, ids));
    }

    method ReadAmended() returns (r: Outcome<Event, CodecError>)
      requires Valid()
      modifies this
      ensures Valid() && Follows(GetAmended(old(Rest())), r, Rest())
    {
      hide GetId, GetU32, GetTerms, GetReversalIds, GetConfirmationIds;
      var id :- ReadId();
      var expected :- ReadU32();
      var terms :- ReadTerms();
      var reversalIds :- ReadReversalIds();
      var ids :- ReadConfirmationIds();
      return Success(TradeAmended(id, expected, terms, reversalIds, ids));
    }

    method ReadCancelled() returns (r: Outcome<Event, CodecError>)
      requires Valid()
      modifies this
      ensures Valid() && Follows(GetCancelled(old(Rest())), r, Rest())
    {
      hide GetId, GetU32, GetOptionalIds;
      var id :- ReadId();
      var expected :- ReadU32();
      var reversalIds :- ReadOptionalIds();
      return Success(TradeCancelled(id, expected, reversalIds));
    }

    method ReadFields(tag: byte) returns (r: Outcome<Event, CodecError>)
      requires Valid()
      modifies this
      ensures Valid() && Follows(GetFields(tag, old(Rest())), r, Rest())
    {
      hide GetBooked, GetConfirmed, GetAmended, GetCancelled, GetDate;
      match tag
      case 1 => r := ReadBooked();
      case 2 => r := ReadConfirmed();
      case 3 => r := ReadAmended();
      case 4 => r := ReadCancelled();
      case 5 =>
        var asOf :- ReadDate();
        r := Success(EodRan(asOf));
      case _ => r := Failure(InvalidEventTag);
    }

    method ReadVersioned() returns (r: Outcome<(TradeId, uint32, uint64), CodecError>)
      requires Valid()
      modifies this
      ensures Valid() && Follows(GetVersioned(old(Rest())), r, Rest())
    {
      hide GetId, GetU32, GetU64;
      var id :- ReadId();
      var version :- ReadU32();
      var stateVersion :- ReadU64();
      return Success((id, version, stateVersion));
    }

    method ReadAmendedResult() returns (r: Outcome<CommandResult, CodecError>)
      requires Valid()
      modifies this
      ensures Valid() && Follows(GetAmendedResult(old(Rest())), r, Rest())
    {
      hide GetId, GetU32, GetU64;
      var id :- ReadId();
      var superseded :- ReadU32();
      var replacement :- ReadU32();
      var stateVersion :- ReadU64();
      return Success(TradeAmendedResult(id, superseded, replacement, stateVersion));
    }

    method ReadEodResult() returns (r: Outcome<CommandResult, CodecError>)
      requires Valid()
      modifies this
      ensures Valid() && Follows(GetEodResult(old(Rest())), r, Rest())
    {
      hide GetDate, GetU32, GetU64;
      var asOf :- ReadDate();
      var count :- ReadU32();
      var stateVersion :- ReadU64();
      return Success(EodRunResult(asOf, count, stateVersion));
    }

    method ReadResultFields(tag: byte) returns (r: Outcome<CommandResult, CodecError>)
      requires Valid()
      modifies this
      ensures Valid() && Follows(GetResultFields(tag, old(Rest())), r, Rest())
    {
      hide GetVersioned, GetAmendedResult, GetEodResult;
      if tag == 1 || tag == 2 || tag == 4 {
        var fields :- ReadVersioned();
        if tag == 1 {
          return Success(TradeBookedResult(fields.0, fields.1, fields.2));
        }
        if tag == 2 {
          return Success(TradeConfirmedResult(fields.0, fields.1, fields.2));
        }
        return Success(TradeCancelledResult(fields.0, fields.1, fields.2));
      }
      if tag == 3 {
        r := ReadAmendedResult();
        return;
      }
      if tag == 5 {
        r := ReadEodResult();
        return;
      }
      return Failure(InvalidResultTag);
    }

    method ReadResult() returns (r: Outcome<CommandResult, CodecError>)
      requires Valid()
      modifies this
      ensures Valid() && Follows(GetResult(old(Rest())), r, Rest())
    {
      hide GetResultFields;
      var tag :- ReadU8();
      var version :- ReadU8();
      if version != RESULT_FORMAT_VERSION {
        return Failure(UnsupportedResultVersion);
      }
      r := ReadResultFields(tag);
    }
  }
}
