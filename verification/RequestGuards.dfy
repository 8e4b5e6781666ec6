/**
 What the shape check of stored requests leaves out (command.cpp): the ranges of
 dates and the validity of FX terms, and nothing else.
 */
module RequestGuards {
  import opened Wrappers
  import opened Values
  import opened Wire
  import opened Codec
  import opened Requests

  // Reading raw values in place

  function I32At(b: Bytes, i: nat): int
    requires i + 4 <= |b|
  {
    var v := FromLittleEndian(b[i..i + 4]);
    if v >= 0x8000_0000 then v - 0x1_0000_0000 else v
  }

  function I64At(b: Bytes, i: nat): int
    requires i + 8 <= |b|
  {
    var v := FromLittleEndian(b[i..i + 8]);
    if v >= 0x8000_0000_0000_0000 then v - 0x1_0000_0000_0000_0000 else v
  }

  predicate DateInRange(days: int) {
    MINIMUM_EPOCH_DAY <= days <= MAXIMUM_EPOCH_DAY
  }

  /** The guards of the terms constructor on 27 raw bytes: dates in range, positive amounts, two currencies. */
  predicate GoodTerms(b: Bytes)
    requires |b| >= 27
  {
    && DateInRange(I32At(b, 1)) && DateInRange(I32At(b, 5))
    && I64At(b, 10) > 0 && I64At(b, 19) > 0
    && b[9] != b[18]
  }

  /** The guards that are missing from the shape check, by command. */
  predicate ValuesInRange(tag: byte, body: Bytes)
    requires SkipBody(tag, body).Some?
  {
    match tag
    case 1 => TermsSize(SkipFourIds(body).value); GoodTerms(SkipFourIds(body).value)
    case 3 => TermsSize(SkipVersioned(body).value); GoodTerms(SkipVersioned(body).value)
    case 5 => DateInRange(I32At(body, 0))
    case _ => true
  }

  lemma TermsSize(b: Bytes)
    ensures SkipTerms(b).Some? ==> |b| >= 27 && SkipTerms(b).value == b[27..]
    ensures SkipTerms(b).Some? ==> b[0] <= 1 && b[9] <= 2 && b[18] <= 2
  {
    if SkipTerms(b).Some? {
      assert b[1..][8..] == b[9..];
      assert b[9..][1..] == b[10..] && b[10..][8..] == b[18..];
      assert b[18..][1..] == b[19..] && b[19..][8..] == b[27..];
    }
  }

  // Skipping and decoding agree

  /** The skipping reader passes exactly what the decoder accepts, and stops at the same place. */
  ghost predicate SameRest<T>(skip: Option<Bytes>, get: Parse<T>) {
    match get
    case Parsed(_, rest) => skip == Some(rest)
    case Failed(_) => skip == None
  }

  lemma I32Reads(b: Bytes, i: nat)
    requires i + 4 <= |b|
    ensures GetI32(b[i..]) == Parsed(I32At(b, i), b[i + 4..])
  {
    assert b[i..][..4] == b[i..i + 4] && b[i..][4..] == b[i + 4..];
  }

  lemma I64Reads(b: Bytes, i: nat)
    requires i + 8 <= |b|
    ensures GetI64(b[i..]) == Parsed(I64At(b, i), b[i + 8..])
  {
    assert b[i..][..8] == b[i..i + 8] && b[i..][8..] == b[i + 8..];
  }

  lemma IdSkips(b: Bytes)
    ensures SameRest(SkipId(b), GetId(b))
  {
    hide GetU16;
  }

  lemma VersionSkips(b: Bytes)
    ensures SameRest(SkipBytes(b, 4), GetU32(b))
  {
  }

  lemma FourIdsSkip(b: Bytes)
    ensures SameRest(SkipFourIds(b), GetIds(b))
  {
    hide SkipId, GetId;
    IdSkips(b);
    if GetId(b).Parsed? {
      var b1 := GetId(b).rest;
      IdSkips(b1);
      if GetId(b1).Parsed? {
        var b2 := GetId(b1).rest;
        IdSkips(b2);
        if GetId(b2).Parsed? { IdSkips(GetId(b2).rest); }
      }
    }
  }

  lemma OptionalIdsSkip(b: Bytes)
    ensures SameRest(SkipOptionalIds(b), GetOptionalIds(b))
  {
    hide SkipFourIds, GetIds;
    if |b| >= 1 { FourIdsSkip(b[1..]); }
  }

  lemma DateDecides(b: Bytes, i: nat)
    requires i + 4 <= |b|
    ensures GetDate(b[i..]) == if DateInRange(I32At(b, i)) then Parsed(I32At(b, i), b[i + 4..]) else Failed(InvalidDate)
  {
    hide GetI32, I32At;
    I32Reads(b, i);
  }

  lemma MoneyReads(b: Bytes, i: nat)
    requires i + 9 <= |b| && b[i] <= 2
    ensures GetMoney(b[i..]).Parsed? && GetMoney(b[i..]).rest == b[i + 9..]
    ensures CurrencyIndex(GetMoney(b[i..]).value.currency) == b[i]
    ensures GetMoney(b[i..]).value.minorUnits == I64At(b, i + 1)
  {
    hide GetI64, I64At;
    assert b[i..][1..] == b[i + 1..];
    I64Reads(b, i + 1);
  }

  /** Terms of the right shape decode exactly when the missing guards hold. */
  lemma TermsDecide(b: Bytes)
    requires SkipTerms(b).Some?
    ensures |b| >= 27
    ensures GetTerms(b).Parsed? <==> GoodTerms(b)
    ensures GetTerms(b).Parsed? ==> GetTerms(b).rest == b[27..]
  {
    hide GetDate, GetMoney, I32At, I64At;
    TermsSize(b);
    hide SkipTerms;
    assert b[0..] == b;
    DateDecides(b, 1);
    DateDecides(b, 5);
    MoneyReads(b, 9);
    MoneyReads(b, 18);
  }

  // Bodies

  /** A decoded body that leaves nothing, or a failure, decided by the guard. */
  ghost predicate Decides<T>(get: Parse<T>, guard: bool) {
    (get.Parsed? <==> guard) && (get.Parsed? ==> get.rest == [])
  }

  lemma BookDecides(b: Bytes)
    requires SkipBody(1, b) == Some([])
    ensures Decides(GetBooked(b), ValuesInRange(1, b))
  {
    hide SkipFourIds, GetIds, SkipTerms, GetTerms, GoodTerms;
    FourIdsSkip(b);
    var terms := SkipFourIds(b).value;
    TermsSize(terms);
    TermsDecide(terms);
  }

  lemma ConfirmDecides(b: Bytes)
    requires SkipBody(2, b) == Some([])
    ensures Decides(GetConfirmed(b), true)
  {
    hide SkipFourIds, GetIds, SkipId, GetId, SkipBytes, GetU32;
    IdSkips(b);
    var b1 := SkipId(b).value;
    VersionSkips(b1);
    FourIdsSkip(SkipBytes(b1, 4).value);
  }

  lemma AmendDecides(b: Bytes)
    requires SkipBody(3, b) == Some([])
    ensures Decides(GetAmended(b), ValuesInRange(3, b))
  {
    hide SkipFourIds, GetIds, SkipId, GetId, SkipTerms, GetTerms, GoodTerms, SkipBytes, GetU32;
    IdSkips(b);
    var b1 := SkipId(b).value;
    VersionSkips(b1);
    var terms := SkipBytes(b1, 4).value;
    TermsSize(terms);
    TermsDecide(terms);
    var b3 := SkipTerms(terms).value;
    FourIdsSkip(b3);
    FourIdsSkip(SkipFourIds(b3).value);
  }

  lemma CancelDecides(b: Bytes)
    requires SkipBody(4, b) == Some([])
    ensures Decides(GetCancelled(b), true)
  {
    hide SkipOptionalIds, GetOptionalIds, SkipId, GetId, SkipBytes, GetU32;
    IdSkips(b);
    var b1 := SkipId(b).value;
    VersionSkips(b1);
    OptionalIdsSkip(SkipBytes(b1, 4).value);
  }

  lemma EodDecides(b: Bytes)
    requires SkipBody(5, b) == Some([])
    ensures Decides(GetEodRan(b), ValuesInRange(5, b))
  {
    hide GetDate, I32At;
    assert b[0..] == b;
    DateDecides(b, 0);
  }

  lemma BodyDecides(tag: byte, b: Bytes)
    requires SkipBody(tag, b) == Some([])
    ensures Decides(GetFields(tag, b), ValuesInRange(tag, b))
  {
    hide GetBooked, GetConfirmed, GetAmended, GetCancelled, GetEodRan, SkipFourIds, SkipVersioned, SkipAmendment,
      SkipOptionalIds, SkipTerms, GoodTerms, I32At;
    match tag
    case 1 => BookDecides(b);
    case 2 => ConfirmDecides(b);
    case 3 => AmendDecides(b);
    case 4 => CancelDecides(b);
    case 5 => EodDecides(b);
    case _ => assert false;
  }

  lemma ValidatedBody(b: Bytes, expected: CommandId)
    requires ValidatedRequest(b, expected).Success?
    ensures SkipBody(ValidatedRequest(b, expected).value, RequestBody(b, expected)) == Some([])
  {
    hide TakeId, SkipBody;
  }

  /**
   A stored request that passes the shape check is some command's canonical request exactly when its values are in
   range.
   */
  lemma RequestIsCanonicalIff(b: Bytes, expected: CommandId)
    requires ValidatedRequest(b, expected).Success?
    ensures SkipBody(ValidatedRequest(b, expected).value, RequestBody(b, expected)).Some?
    ensures (exists envelope :: b == CanonicalBytes(envelope)) <==>
              ValuesInRange(ValidatedRequest(b, expected).value, RequestBody(b, expected))
  {
    hide CanonicalBytes, GetFields, SkipBody, ValuesInRange, ValidatedRequest, RequestBody;
    var tag, body := ValidatedRequest(b, expected).value, RequestBody(b, expected);
    ValidatedBody(b, expected);
    BodyDecides(tag, body);
    ValidatedIsCanonicalIff(b, expected);
    var whole := PutU8(EVENT_FORMAT_VERSION) + body;
    assert whole[1..] == body;
  }

  /** Confirm and cancel requests that pass are always canonical. */
  lemma ConfirmAndCancelAreCanonical(b: Bytes, expected: CommandId)
    requires ValidatedRequest(b, expected) == Success(2) || ValidatedRequest(b, expected) == Success(4)
    ensures exists envelope :: b == CanonicalBytes(envelope)
  {
    hide CanonicalBytes, ValidatedRequest, RequestBody, SkipBody;
    RequestIsCanonicalIff(b, expected);
  }
}
