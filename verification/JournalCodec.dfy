/** Encoding and decoding of payloads, frames and whole journals over Writer and Reader (codec.cpp). */
module JournalCodec {
  import opened Wrappers
  import opened Values
  import opened Journal
  import opened Wire
  import opened Crc
  import opened Codec
  import opened ByteStreams

  method EncodeEventBody(e: Event) returns (body: Bytes)
    ensures body == EventBody(e)
  {
    hide PutFields;
    var writer := new Writer();
    writer.WriteU8(EVENT_FORMAT_VERSION);
    writer.WriteFields(e);
    assert writer.bytes == EventBody(e);
    return writer.bytes;
  }

  method DecodeEvent(tag: byte, body: Bytes) returns (r: Outcome<Event, CodecError>)
    ensures r == DecodedEvent(tag, body)
  {
    hide GetFields;
    var reader := new Reader(body);
    var version :- reader.ReadU8();
    if version != EVENT_FORMAT_VERSION {
      return Failure(UnsupportedEventVersion);
    }
    var event :- reader.ReadFields(tag);
    if reader.Remaining() != 0 {
      return Failure(TrailingBytes);
    }
    return Success(event);
  }

  /** Writes every event record, or reports a body too long for its length field. */
  method WriteEvents(writer: Writer, events: seq<Event>) returns (ok: bool)
    modifies writer
    ensures ok <==> EventsFit(events)
    ensures ok ==> writer.bytes == old(writer.bytes) + PutEvents(events)
  {
    hide EventBody, PutEvent, EventTag, PutU32;
    for i := 0 to |events|
      invariant forall j :: 0 <= j < i ==> |EventBody(events[j])| <= UINT32_MAX
      invariant EventsFit(events) ==> writer.bytes + PutEvents(events[i..]) == old(writer.bytes) + PutEvents(events)
    {
      var body := EncodeEventBody(events[i]);
      if |body| > UINT32_MAX {
        return false;
      }
      ghost var before := writer.bytes;
      WriteEventRecord(writer, events[i], body);
      assert events[i..][1..] == events[i + 1..];
      if EventsFit(events) { Assoc(before, PutEvent(events[i]), PutEvents(events[i + 1..])); }
    }
    assert events[|events|..] == [];
    return true;
  }

  method WriteEventRecord(writer: Writer, e: Event, body: Bytes)
    requires body == EventBody(e) && |body| <= UINT32_MAX
    modifies writer
    ensures writer.bytes == old(writer.bytes) + PutEvent(e)
  {
    hide EventBody, EventTag, PutU32;
    writer.WriteU8(EventTag(e));
    writer.WriteU32(|body|);
    writer.WriteBytes(body);
    assert writer.bytes == old(writer.bytes) + PutEvent(e);
  }

  /** Everything in front of the events. */
  method WriteHead(writer: Writer, batch: CommandBatch)
    requires |batch.canonicalRequest| <= UINT32_MAX && |batch.events| <= UINT16_MAX
    modifies writer
    ensures writer.bytes == old(writer.bytes) + PutU64(batch.sequence) + PutId(batch.commandId)
        + PutU32(|batch.canonicalRequest|) + batch.canonicalRequest + PutU16(|batch.events|)
  {
    hide PutU64, PutId, PutU32, PutU16;
    writer.WriteU64(batch.sequence);
    writer.WriteId(batch.commandId);
    writer.WriteU32(|batch.canonicalRequest|);
    writer.WriteBytes(batch.canonicalRequest);
    writer.WriteU16(|batch.events|);
  }

  method EncodePayload(batch: CommandBatch) returns (r: Outcome<Bytes, CodecError>)
    ensures r == EncodedPayload(batch)
  {
    hide EventBody, PutU64, PutId, PutU32, PutU16, PutEvents, PutResult;
    if |batch.canonicalRequest| > UINT32_MAX || |batch.events| > UINT16_MAX {
      return Failure(SizeOverflow);
    }
    var writer := new Writer();
    WriteHead(writer, batch);
    var ok := WriteEvents(writer, batch.events);
    if !ok {
      return Failure(SizeOverflow);
    }
    writer.WriteResult(batch.result);
    var payload := writer.bytes;
    assert payload == PutPayload(batch);
    if |payload| > MAXIMUM_PAYLOAD_LENGTH {
      return Failure(PayloadTooLarge);
    }
    return Success(payload);
  }

  method ReadEvent(reader: Reader) returns (r: Outcome<Event, CodecError>)
    requires reader.Valid()
    modifies reader
    ensures reader.Valid() && Follows(GetEvent(old(reader.Rest())), r, reader.Rest())
  {
    hide GetU32, DecodedEvent;
    var tag :- reader.ReadU8();
    var size :- reader.ReadU32();
    var body :- reader.ReadBytes(size);
    r := DecodeEvent(tag, body);
  }

  lemma PrependEvents(b: Bytes, count: nat)
    requires count > 0
    ensures GetEvents(b, count) ==
            match GetEvent(b)
            case Failed(e) => Failed(e)
            case Parsed(event, b1) =>
              match GetEvents(b1, count - 1)
              case Failed(e) => Failed(e)
              case Parsed(others, rest) => Parsed([event] + others, rest)
  {
    hide GetEvent;
  }

  /** The events already read, in front of whatever the rest of the input still parses to. */
  function Continue(events: seq<Event>, p: Parse<seq<Event>>): Parse<seq<Event>> {
    match p
    case Failed(e) => Failed(e)
    case Parsed(others, rest) => Parsed(events + others, rest)
  }

  method ReadEvents(reader: Reader, count: nat) returns (r: Outcome<seq<Event>, CodecError>)
    requires reader.Valid()
    modifies reader
    ensures reader.Valid() && Follows(GetEvents(old(reader.Rest()), count), r, reader.Rest())
  {
    hide GetEvent, GetEvents;
    var events := [];
    ghost var start := reader.Rest();
    ContinueEmpty(GetEvents(start, count));
    for i := 0 to count
      invariant reader.Valid()
      invariant GetEvents(start, count) == Continue(events, GetEvents(reader.Rest(), count - i))
    {
      PrependEvents(reader.Rest(), count - i);
      ghost var before := reader.Rest();
      var event :- ReadEvent(reader);
      ContinueOne(events, event, GetEvents(reader.Rest(), count - i - 1));
      events := events + [event];
    }
    NoMoreEvents(reader.Rest());
    assert events + [] == events;
    return Success(events);
  }

  lemma ContinueEmpty(p: Parse<seq<Event>>)
    ensures Continue([], p) == p
  {
    if p.Parsed? { assert [] + p.value == p.value; }
  }

  lemma NoMoreEvents(b: Bytes)
    ensures GetEvents(b, 0) == Parsed([], b)
  {
  }

  lemma ContinueOne(events: seq<Event>, event: Event, p: Parse<seq<Event>>)
    ensures Continue(events + [event], p) == Continue(events, Continue([event], p))
  {
    if p.Parsed? { assert (events + [event]) + p.value == events + ([event] + p.value); }
  }

  method ReadPayload(reader: Reader) returns (r: Outcome<CommandBatchData, CodecError>)
    requires reader.Valid()
    modifies reader
    ensures reader.Valid() && Follows(GetPayload(old(reader.Rest())), r, reader.Rest())
  {
    hide GetU64, GetId, GetU32, GetU16, GetEvents, GetResult;
    var sequence :- reader.ReadU64();
    var commandId :- reader.ReadId();
    var size :- reader.ReadU32();
    var request :- reader.ReadBytes(size);
    var count :- reader.ReadU16();
    var events :- ReadEvents(reader, count);
    var result :- reader.ReadResult();
    return Success(CommandBatchData.CommandBatch(sequence, commandId, request, events, result));
  }

  method DecodePayload(payload: Bytes) returns (r: Outcome<CommandBatch, CodecError>)
    ensures r == DecodedPayload(payload)
  {
    hide GetPayload;
    if |payload| > MAXIMUM_PAYLOAD_LENGTH {
      return Failure(PayloadTooLarge);
    }
    var reader := new Reader(payload);
    var data :- ReadPayload(reader);
    if reader.Remaining() != 0 {
      return Failure(TrailingBytes);
    }
    var batch := CreateBatch(data.sequence, data.commandId, data.canonicalRequest, data.events, data.result);
    if batch.Failure? {
      return Failure(InvalidBatch);
    }
    return Success(batch.value);
  }

  method EncodeFrame(batch: CommandBatch) returns (r: Outcome<Bytes, CodecError>)
    ensures r == EncodedFrame(batch)
  {
    hide EncodedPayload, Crc32, PutU32;
    var payload :- EncodePayload(batch);
    PayloadFits(batch);
    if |payload| > UINT32_MAX {
      return Failure(SizeOverflow);
    }
    var checksum := ComputeCrc32(payload);
    var writer := new Writer();
    writer.WriteBytes(MAGIC);
    writer.WriteU8(FRAME_FORMAT_VERSION);
    writer.WriteU32(|payload|);
    writer.WriteBytes(payload);
    writer.WriteU32(checksum);
    assert writer.bytes == FrameOf(payload);
    return Success(writer.bytes);
  }

  /** The four bytes at an offset, least significant first. */
  method ReadU32At(b: Bytes, offset: nat) returns (v: uint32)
    requires offset + 4 <= |b|
    ensures v == FromLittleEndian(b[offset..offset + 4])
  {
    Powers();
    var window := b[offset..offset + 4];
    LittleEndianBytes(window);
    var value: nat := 0;
    for i := 4 downto 0
      invariant value == FromLittleEndian(window[i..])
    {
      assert window[i..][1..] == window[i + 1..];
      value := window[i] + 0x100 * value;
    }
    assert window[0..] == window;
    v := value;
  }

  method DecodeFrame(b: Bytes) returns (r: Outcome<DecodedFrame, CodecError>)
    ensures r == FrameDecoding(b)
  {
    hide DecodedPayload, Crc32;
    if |b| < FRAME_HEADER_SIZE {
      return Failure(UnexpectedEnd);
    }
    for i := 0 to 4
      invariant forall j :: 0 <= j < i ==> b[j] == MAGIC[j]
    {
      if b[i] != MAGIC[i] {
        assert b[..4][i] != MAGIC[i];
        return Failure(InvalidMagic);
      }
    }
    assert b[..4] == MAGIC;
    if b[4] != FRAME_FORMAT_VERSION {
      return Failure(UnsupportedFrameVersion);
    }
    var size := ReadU32At(b, 5);
    if size > MAXIMUM_PAYLOAD_LENGTH {
      return Failure(PayloadTooLarge);
    }
    var frameSize := FRAME_HEADER_SIZE + size + FRAME_CRC_SIZE;
    if |b| < frameSize {
      return Failure(UnexpectedEnd);
    }
    r := DecodeChecked(b, size);
  }

  method DecodeChecked(b: Bytes, size: uint32) returns (r: Outcome<DecodedFrame, CodecError>)
    requires |b| >= FRAME_HEADER_SIZE && b[..4] == MAGIC && b[4] == FRAME_FORMAT_VERSION
    requires size == FromLittleEndian(b[5..9]) && size <= MAXIMUM_PAYLOAD_LENGTH && |b| >= FrameSize(b)
    ensures r == FrameDecoding(b)
  {
    hide DecodedPayload, Crc32;
    var payload := b[9..9 + size];
    var stored := ReadU32At(b, 9 + size);
    var computed := ComputeCrc32(payload);
    if stored != computed {
      return Failure(CrcMismatch);
    }
    var batch := DecodePayload(payload);
    if batch.Failure? {
      return Failure(if batch.error == UnexpectedEnd then MalformedPayload else batch.error);
    }
    return Success(DecodedFrame(batch.value, FRAME_HEADER_SIZE + size + FRAME_CRC_SIZE));
  }

  /** A finished part of a scan, in front of the scan of the remaining bytes. */
  function Resume(batches: seq<CommandBatch>, offset: nat, s: Outcome<Scan, CodecError>): Outcome<Scan, CodecError> {
    match s
    case Failure(e) => Failure(e)
    case Success(others) => Success(Scan(batches + others.batches, offset + others.lastValidOffset,
        others.truncatedTail))
  }

  lemma ResumeNothing(s: Outcome<Scan, CodecError>)
    ensures Resume([], 0, s) == s
  {
    if s.Success? { assert [] + s.value.batches == s.value.batches; }
  }

  lemma ResumeOne(batches: seq<CommandBatch>, offset: nat, frame: DecodedFrame, b: Bytes)
    requires b != [] && FrameDecoding(b) == Success(frame)
    ensures Resume(batches, offset, Scanned(b)) ==
        Resume(batches + [frame.batch], offset + frame.bytesConsumed, Scanned(b[frame.bytesConsumed..]))
  {
    hide FrameDecoding;
    var others := Scanned(b[frame.bytesConsumed..]);
    if others.Success? {
      assert (batches + [frame.batch]) + others.value.batches == batches + ([frame.batch] + others.value.batches);
    }
  }

  method ScanJournal(b: Bytes) returns (r: Outcome<Scan, CodecError>)
    ensures r == Scanned(b)
  {
    hide FrameDecoding;
    var batches: seq<CommandBatch> := [];
    var offset := 0;
    ResumeNothing(Scanned(b));
    assert b[0..] == b;
    while offset < |b|
      invariant offset <= |b|
      invariant Scanned(b) == Resume(batches, offset, Scanned(b[offset..]))
      decreases |b| - offset
    {
      var remaining := b[offset..];
      var decoded := DecodeFrame(remaining);
      if decoded.Failure? {
        // A short last frame ends the scan with success; any other defect is an error.
        if decoded.error == UnexpectedEnd {
          assert batches + [] == batches;
          return Success(Scan(batches, offset, true));
        }
        return Failure(decoded.error);
      }
      FrameConsumes(remaining);
      ResumeOne(batches, offset, decoded.value, remaining);
      assert remaining[decoded.value.bytesConsumed..] == b[offset + decoded.value.bytesConsumed..];
      offset := offset + decoded.value.bytesConsumed;
      batches := batches + [decoded.value.batch];
    }
    assert batches + [] == batches;
    return Success(Scan(batches, offset, false));
  }

  /** Every decoded frame consumes at least its header and checksum. */
  lemma FrameConsumes(b: Bytes)
    ensures FrameDecoding(b).Success? ==> 13 <= FrameDecoding(b).value.bytesConsumed <= |b|
  {
    hide FrameDecoding;
  }
}
