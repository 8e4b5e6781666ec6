/** Writing and validating canonical requests (command.cpp). */
module RequestCodec {
  import opened Wrappers
  import opened Values
  import opened Journal
  import opened Wire
  import opened Codec
  import opened Evaluator
  import opened Requests
  import opened ByteStreams

  method CanonicalCommandBytes(envelope: CommandEnvelope) returns (r: Outcome<Bytes, CommandEncodingError>)
    ensures r == EncodedRequest(envelope)
  {
    hide PutId, PutFields, EventTag, EventOf, ValidIdText;
    if |envelope.commandId| > UINT16_MAX {
      return Failure(RequestSizeOverflow);
    }
    var writer := new Writer();
    writer.WriteU8(REQUEST_FORMAT_VERSION);
    writer.WriteId(envelope.commandId);
    writer.WriteU8(CommandTag(envelope.command));
    writer.WriteFields(EventOf(envelope.command));
    assert writer.bytes == CanonicalBytes(envelope);
    return Success(writer.bytes);
  }

  /** A step of the shape check: it consumed a prefix, or it failed. */
  ghost predicate Skipped(expected: Option<Bytes>, ok: bool, rest: Bytes) {
    ok == expected.Some? && (ok ==> rest == expected.value)
  }

  /** The validating reader: it advances over well-shaped values without building them. */
  class ShapeReader {
    const bytes: Bytes
    var offset: nat

    constructor (input: Bytes)
      ensures bytes == input && offset == 0 && Valid() && Rest() == input
    {
      bytes := input;
      offset := 0;
    }

    ghost predicate Valid()
      reads this
    {
      offset <= |bytes|
    }

    ghost function Rest(): Bytes
      requires Valid()
      reads this
    {
      bytes[offset..]
    }

    method Skip(count: nat) returns (ok: bool)
      requires Valid()
      modifies this
      ensures Valid() && Skipped(SkipBytes(old(Rest()), count), ok, Rest())
    {
      ok := count <= |bytes| - offset;
      if ok {
        offset := offset + count;
      }
    }

    method ReadTag() returns (r: Option<byte>)
      requires Valid()
      modifies this
      ensures Valid()
      ensures if old(Rest()) == [] then r.None? else r == Some(old(Rest())[0]) && Rest() == old(Rest())[1..]
    {
      if offset == |bytes| {
        return None;
      }
      r := Some(bytes[offset]);
      offset := offset + 1;
    }

    method ReadU16() returns (r: Option<uint16>)
      requires Valid()
      modifies this
      ensures Valid()
      ensures match GetU16(old(Rest()))
              case Failed(_) => r.None?
              case Parsed(v, rest) => r == Some(v) && Rest() == rest
    {
      if |bytes| - offset < 2 {
        return None;
      }
      Powers();
      ghost var window := Rest()[..2];
      assert window[1..][1..] == [] && window[0] == bytes[offset] && window[1..][0] == bytes[offset + 1];
      LittleEndianBytes(window);
      var low: int, high: int := bytes[offset], bytes[offset + 1];
      var value := low + 0x100 * high;
      offset := offset + 2;
      return Some(value);
    }

    method ReadId() returns (r: Option<Bytes>)
      requires Valid()
      modifies this
      ensures Valid()
      ensures match TakeId(old(Rest()))
              case None => r.None?
              case Some(taken) => r == Some(taken.id) && Rest() == taken.rest
    {
      hide GetU16, ValidIdText;
      var length := ReadU16();
      if length.None? || length.value == 0 || length.value > 64 || |bytes| - offset < length.value {
        return None;
      }
      var value := bytes[offset..offset + length.value];
      assert value == Rest()[..length.value];
      offset := offset + length.value;
      if !ValidIdText(value) {
        return None;
      }
      return Some(value);
    }

    method SkipOneId() returns (ok: bool)
      requires Valid()
      modifies this
      ensures Valid() && Skipped(SkipId(old(Rest())), ok, Rest())
    {
      hide TakeId;
      var id := ReadId();
      return id.Some?;
    }

    method SkipIds() returns (ok: bool)
      requires Valid()
      modifies this
      ensures Valid() && Skipped(SkipFourIds(old(Rest())), ok, Rest())
    {
      hide SkipId;
      ok := SkipOneId();
      if ok { ok := SkipOneId(); }
      if ok { ok := SkipOneId(); }
      if ok { ok := SkipOneId(); }
    }

    method SkipSmallTag(maximum: byte) returns (ok: bool)
      requires Valid()
      modifies this
      ensures Valid() && Skipped(SkipTag(old(Rest()), maximum), ok, Rest())
    {
      var tag := ReadTag();
      return tag.Some? && tag.value <= maximum;
    }

    method SkipOneMoney() returns (ok: bool)
      requires Valid()
      modifies this
      ensures Valid() && Skipped(SkipMoney(old(Rest())), ok, Rest())
    {
      ok := SkipSmallTag(2);
      if ok { ok := Skip(8); }
    }

    method SkipOneTerms() returns (ok: bool)
      requires Valid()
      modifies this
      ensures Valid() && Skipped(SkipTerms(old(Rest())), ok, Rest())
    {
      hide SkipMoney;
      ok := SkipSmallTag(1);
      if ok { ok := Skip(8); }
      if ok { ok := SkipOneMoney(); }
      if ok { ok := SkipOneMoney(); }
    }

    method SkipIdAndVersion() returns (ok: bool)
      requires Valid()
      modifies this
      ensures Valid() && Skipped(SkipVersioned(old(Rest())), ok, Rest())
    {
      hide SkipId;
      ok := SkipOneId();
      if ok { ok := Skip(4); }
    }

    method SkipOneAmendment() returns (ok: bool)
      requires Valid()
      modifies this
      ensures Valid() && Skipped(SkipAmendment(old(Rest())), ok, Rest())
    {
      hide SkipFourIds, SkipTerms;
      ok := SkipOneTerms();
      if ok { ok := SkipIds(); }
      if ok { ok := SkipIds(); }
    }

    method SkipReversal() returns (ok: bool)
      requires Valid()
      modifies this
      ensures Valid() && Skipped(SkipOptionalIds(old(Rest())), ok, Rest())
    {
      hide SkipFourIds;
      var flag := ReadTag();
      if flag.None? || flag.value > 1 {
        return false;
      }
      if flag.value == 0 {
        return true;
      }
      ok := SkipIds();
    }

    method SkipCommandBody(tag: byte) returns (ok: bool)
      requires Valid()
      modifies this
      ensures Valid() && Skipped(SkipBody(tag, old(Rest())), ok, Rest())
    {
      hide SkipFourIds, SkipTerms, SkipVersioned, SkipAmendment, SkipOptionalIds;
      match tag {
        case 1 =>
          ok := SkipIds();
          if ok { ok := SkipOneTerms(); }
        case 2 =>
          ok := SkipIdAndVersion();
          if ok { ok := SkipIds(); }
        case 3 =>
          ok := SkipIdAndVersion();
          if ok { ok := SkipOneAmendment(); }
        case 4 =>
          ok := SkipIdAndVersion();
          if ok { ok := SkipReversal(); }
        case 5 => ok := Skip(4);
        case _ => ok := false;
      }
    }
  }

  method ValidateCanonicalCommandRequest(b: Bytes, expected: CommandId) returns (r: Outcome<byte, RequestError>)
    ensures r == ValidatedRequest(b, expected)
  {
    hide TakeId, SkipBody, ValidIdText;
    if b == [] {
      return Failure(EmptyRequest);
    }
    var reader := new ShapeReader(b);
    var version := reader.ReadTag();
    if version != Some(REQUEST_FORMAT_VERSION) {
      return Failure(UnsupportedVersion);
    }
    var id := reader.ReadId();
    if id.None? {
      return Failure(MalformedRequest);
    }
    if id.value != expected {
      return Failure(CommandIdMismatch);
    }
    var tag := reader.ReadTag();
    if tag.None? {
      return Failure(MalformedRequest);
    }
    var ok := reader.SkipCommandBody(tag.value);
    if !ok || reader.offset != |b| {
      return Failure(MalformedRequest);
    }
    return Success(tag.value);
  }
}
