/** Reading an OWID from bytes: one indexed walk serving the two read contracts. */
module Parse {
  import opened Common
  import opened Bytes
  import opened Endpoints
  import opened Wire

  datatype ParseStatus =
    | Parsed
    | MissingInput
    | InvalidInputType
    | InvalidBase64
    | UnsupportedVersion
    | UnexpectedEnd
    | InvalidDomainEncoding
    | ByteCountMismatch
    | ImplementationCapacityExceeded
    | AbsentNode
    | MalformedEnvelope

  datatype ParseResult = ParseResult(ok: bool, owid: Option<Owid>, status: ParseStatus, consumed: nat)

  function Failed(status: ParseStatus): ParseResult {
    ParseResult(false, None, status, 0)
  }

  /** What a caller may hand to a read. */
  datatype Input = Nothing | OfAnotherType | Bytes(data: Buffer)

  // -------------------------------------------------------- what a read means

  /** The first zero at or after `at`, or the limit where there is none before it. */
  function ZeroFrom(data: Buffer, at: nat, limit: nat): (end: nat)
    requires at <= limit <= |data|
    ensures at <= end <= limit
    ensures end < limit ==> data[end] == 0
    ensures forall i :: at <= i < end ==> data[i] != 0
    decreases limit - at
  {
    if at == limit || data[at] == 0 then at else ZeroFrom(data, at + 1, limit)
  }

  /** How far the search for the domain's terminator goes. */
  function DomainLimit(data: Buffer): (limit: nat)
    requires data != []
    ensures 1 <= limit <= |data|
  {
    Min(|data|, 1 + MAXIMUM_DOMAIN_LENGTH + 1)
  }

  function DomainEnd(data: Buffer): (end: nat)
    requires data != []
    ensures 1 <= end <= DomainLimit(data)
  {
    ZeroFrom(data, 1, DomainLimit(data))
  }

  function DateWidth(version: Version): nat {
    if version == Version1 then 2 else 4
  }

  /** The read of a buffer, as a whole or as the front of a run of frames. */
  function ReadOf(data: Buffer, exact: bool): ParseResult {
    if data == [] then Failed(MissingInput)
    else
      var version := FromByte(data[0]);
      if version.None? then Failed(UnsupportedVersion)
      else if version.value == Empty then ParseResult(false, None, AbsentNode, if exact then 0 else 1)
      else if DomainEnd(data) == DomainLimit(data) then
        Failed(if DomainLimit(data) <= 1 + MAXIMUM_DOMAIN_LENGTH then UnexpectedEnd else InvalidDomainEncoding)
      else ReadDate(data, exact, version.value, DecodeAscii(data[1..DomainEnd(data)]), DomainEnd(data) + 1)
  }

  function ReadDate(data: Buffer, exact: bool, version: Version, domain: string, at: nat): ParseResult
    requires at <= |data|
  {
    var width := DateWidth(version);
    if |data| - at < width then Failed(UnexpectedEnd)
    else if version == Version1 then
      ReadRest(data, exact, version, domain, FromBigEndian16(data[at..at + 2]) * HOUR, at + 2)
    else
      var minutes := FromLittleEndian32(data[at..at + 4]);
      if minutes > MAXIMUM_MINUTES then Failed(ImplementationCapacityExceeded)
      else ReadRest(data, exact, version, domain, minutes * MINUTE, at + 4)
  }

  function ReadRest(data: Buffer, exact: bool, version: Version, domain: string, date: int, at: nat): ParseResult
    requires at <= |data|
  {
    if |data| - at < 4 then Failed(UnexpectedEnd)
    else
      var declared := FromLittleEndian32(data[at..at + 4]);
      var from := at + 4;
      var present := |data| - from - SIGNATURE_LENGTH;
      if exact && present != declared then Failed(ByteCountMismatch)
      else if present < declared then Failed(UnexpectedEnd)
      else
        var to := from + declared;
        ParseResult(true, Some(Owid(version, domain, date, data[from..to], data[to..to + SIGNATURE_LENGTH])),
                    Parsed, to + SIGNATURE_LENGTH)
  }

  // ------------------------------------------------- each outcome, from the bytes

  predicate OfKnownVersion(data: Buffer) {
    data != [] && 1 <= data[0] <= 3
  }

  /** The domain's bytes end here, at the first zero and no later than allowed. */
  predicate DomainEndsAt(data: Buffer, end: nat) {
    && 1 <= end <= 254 && end < |data| && data[end] == 0 && forall i :: 1 <= i < end ==> data[i] != 0
  }

  lemma DomainEndIsFirstZero(data: Buffer, end: nat)
    requires data != []
    ensures DomainEndsAt(data, end) <==> DomainEnd(data) == end < DomainLimit(data)
  {
  }

  /** Four bytes as a number, the first of them the least. */
  function Count(data: Buffer, at: nat): int
    requires at + 4 <= |data|
  {
    data[at] as int + 0x100 * data[at + 1] as int + 0x1_0000 * data[at + 2] as int + 0x100_0000 * data[at + 3] as int
  }

  /** Where the payload's length stands, behind a date of two bytes or of four. */
  function LengthAt(data: Buffer, end: nat): nat
    requires data != []
  {
    end + 1 + if data[0] == 1 then 2 else 4
  }

  /** The date is all there, and one the runtime can hold. */
  predicate HasDate(data: Buffer, end: nat)
    requires data != []
  {
    LengthAt(data, end) <= |data| && (data[0] != 1 ==> Count(data, end + 1) <= 4_197_074_399)
  }

  /** Where the envelope would end, by the length it declares. */
  function EndDeclared(data: Buffer, end: nat): int
    requires data != [] && LengthAt(data, end) + 4 <= |data|
  {
    LengthAt(data, end) + 4 + Count(data, LengthAt(data, end)) + 64
  }

  function DateIn(data: Buffer, end: nat): int
    requires data != [] && LengthAt(data, end) <= |data|
  {
    if data[0] == 1 then (0x100 * data[end + 1] as int + data[end + 2] as int) * 60 * MINUTE
    else Count(data, end + 1) * MINUTE
  }

  lemma CountIsRead(data: Buffer, at: nat)
    requires at + 4 <= |data|
    ensures FromLittleEndian32(data[at..at + 4]) == Count(data, at)
  {
  }

  lemma ShortCountIsRead(data: Buffer, at: nat)
    requires at + 2 <= |data|
    ensures FromBigEndian16(data[at..at + 2]) == 0x100 * data[at] as int + data[at + 1] as int
  {
  }

  /** What the fields behind a domain can be refused for, and that refusals consume nothing. */
  predicate IsLater(r: ParseResult) {
    && (r.status == Parsed || r.status == UnexpectedEnd || r.status == ByteCountMismatch
        || r.status == ImplementationCapacityExceeded)
    && (r.ok <==> r.status == Parsed) && (r.owid.Some? <==> r.ok) && (!r.ok ==> r.consumed == 0)
  }

  lemma FieldsAreLater(data: Buffer, exact: bool, version: Version, domain: string, at: nat)
    requires at <= |data|
    ensures IsLater(ReadDate(data, exact, version, domain, at))
  {
  }

  lemma NoDomainEnd(data: Buffer)
    requires data != []
    ensures DomainEnd(data) == DomainLimit(data) <==> forall i :: 1 <= i <= 254 && i < |data| ==> data[i] != 0
  {
  }

  /** What is said of a buffer before its date: nothing there, another version, the
      marker, or 254 bytes with no end to the domain. */
  lemma WhyRefusedEarly(data: Buffer, exact: bool)
    ensures var r := ReadOf(data, exact);
      && (r.status == MissingInput <==> data == [])
      && (r.status == UnsupportedVersion <==> data != [] && data[0] > 3)
      && (r.status == AbsentNode <==> data != [] && data[0] == 0)
      && (r.status == InvalidDomainEncoding <==>
            OfKnownVersion(data) && |data| >= 255 && forall i :: 1 <= i <= 254 ==> data[i] != 0)
      && (OfKnownVersion(data) && |data| < 255 && (forall i :: 1 <= i < |data| ==> data[i] != 0) ==>
            r.status == UnexpectedEnd)
      && r.status != InvalidBase64 && r.status != InvalidInputType && r.status != MalformedEnvelope
      && (r.ok <==> r.status == Parsed) && (r.owid.Some? <==> r.ok)
      && (!r.ok ==> r.consumed == if r.status == AbsentNode && !exact then 1 else 0)
  {
    if OfKnownVersion(data) {
      NoDomainEnd(data);
      if DomainEnd(data) < DomainLimit(data) {
        FieldsAreLater(data, exact, FromByte(data[0]).value, DecodeAscii(data[1..DomainEnd(data)]),
                       DomainEnd(data) + 1);
      }
    }
  }

  lemma HeaderStands(data: Buffer, exact: bool, end: nat)
    requires OfKnownVersion(data) && DomainEndsAt(data, end)
    ensures FromByte(data[0]).Some? && FromByte(data[0]).value.AsByte() == data[0]
    ensures ReadOf(data, exact) == ReadDate(data, exact, FromByte(data[0]).value, DecodeAscii(data[1..end]), end + 1)
  {
    DomainEndIsFirstZero(data, end);
  }

  /** Whether a date is read, as one answer to what follows it. */
  lemma WhyDateRefused(data: Buffer, exact: bool, version: Version, domain: string, end: nat)
    requires OfKnownVersion(data) && FromByte(data[0]) == Some(version) && end + 1 <= |data|
    ensures var r := ReadDate(data, exact, version, domain, end + 1);
      if LengthAt(data, end) > |data| then r == Failed(UnexpectedEnd)
      else if !HasDate(data, end) then r == Failed(ImplementationCapacityExceeded)
      else r == ReadRest(data, exact, version, domain, DateIn(data, end), LengthAt(data, end))
  {
    if LengthAt(data, end) <= |data| {
      if version == Version1 { ShortCountIsRead(data, end + 1); } else { CountIsRead(data, end + 1); }
    }
  }

  lemma WhyRestRefused(data: Buffer, exact: bool, version: Version, domain: string, date: int, at: nat)
    requires at <= |data|
    ensures var r := ReadRest(data, exact, version, domain, date, at);
      if at + 4 > |data| then r == Failed(UnexpectedEnd)
      else
        var to := at + 4 + Count(data, at);
        if exact && to + 64 != |data| then r == Failed(ByteCountMismatch)
        else if to + 64 > |data| then r == Failed(UnexpectedEnd)
        else at + 4 <= to <= to + 64 <= |data|
             && r == ParseResult(true, Some(Owid(version, domain, date, data[at + 4..to], data[to..to + 64])), Parsed,
                                 to + 64)
  {
    if at + 4 <= |data| { CountIsRead(data, at); }
  }

  /**
   What is said of a buffer whose domain ends: the date, then the length, then the
   payload and the signature each refuse it in their own way, by the bytes there are.
   */
  lemma WhyRefusedLater(data: Buffer, exact: bool, end: nat)
    requires OfKnownVersion(data) && DomainEndsAt(data, end)
    ensures var r, at := ReadOf(data, exact), LengthAt(data, end);
      && (r.status == ImplementationCapacityExceeded <==> at <= |data| && !HasDate(data, end))
      && (r.status == UnexpectedEnd <==>
            || at > |data|
            || (HasDate(data, end) && (at + 4 > |data| || (!exact && EndDeclared(data, end) > |data|))))
      && (r.status == ByteCountMismatch <==>
            exact && HasDate(data, end) && at + 4 <= |data| && EndDeclared(data, end) != |data|)
      && (r.ok <==>
            && HasDate(data, end) && at + 4 <= |data|
            && if exact then EndDeclared(data, end) == |data| else EndDeclared(data, end) <= |data|)
      && (r.ok ==> r.consumed == EndDeclared(data, end))
  {
    var version, domain := FromByte(data[0]), DecodeAscii(data[1..end]);
    HeaderStands(data, exact, end);
    WhyDateRefused(data, exact, version.value, domain, end);
    if HasDate(data, end) {
      WhyRestRefused(data, exact, version.value, domain, DateIn(data, end), LengthAt(data, end));
    }
  }

  /** Up to the length an accepted buffer is read as its own bytes say. */
  lemma AcceptedUpToLength(data: Buffer, exact: bool, end: nat)
    requires OfKnownVersion(data) && DomainEndsAt(data, end) && ReadOf(data, exact).ok
    ensures FromByte(data[0]).Some? && FromByte(data[0]).value.AsByte() == data[0] && HasDate(data, end)
    ensures ReadOf(data, exact)
            == ReadRest(data, exact, FromByte(data[0]).value, DecodeAscii(data[1..end]), DateIn(data, end),
                        LengthAt(data, end))
  {
    HeaderStands(data, exact, end);
    WhyDateRefused(data, exact, FromByte(data[0]).value, DecodeAscii(data[1..end]), end);
  }

  /** The fields an accepted buffer gives stand in it one behind another. */
  lemma FieldsStandInOrder(data: Buffer, exact: bool, end: nat)
    requires OfKnownVersion(data) && DomainEndsAt(data, end) && ReadOf(data, exact).ok
    ensures LengthAt(data, end) + 4 <= EndDeclared(data, end) - 64 <= |data| - 64
    ensures var owid, from, to := ReadOf(data, exact).owid.value, LengthAt(data, end) + 4, EndDeclared(data, end) - 64;
      && owid.version.AsByte() == data[0] && owid.domain == DecodeAscii(data[1..end])
      && owid.date == DateIn(data, end)
      && owid.payload == data[from..to] && owid.signature == data[to..to + 64]
  {
    AcceptedUpToLength(data, exact, end);
    WhyRestRefused(data, exact, FromByte(data[0]).value, DecodeAscii(data[1..end]), DateIn(data, end),
                   LengthAt(data, end));
  }

  // ----------------------------------------------------------------- the walk

  method ParseWalk(input: Input, exact: bool) returns (r: ParseResult)
    ensures r == match input
                 case Nothing => Failed(MissingInput)
                 case OfAnotherType => Failed(InvalidInputType)
                 case Bytes(data) => ReadOf(data, exact)
  {
    if input.Nothing? { return Failed(MissingInput); }
    if input.OfAnotherType? { return Failed(InvalidInputType); }
    var data := input.data;
    var total := |data|;
    if total < 1 { return Failed(MissingInput); }

    var at := 1;
    var known := FromByte(data[0]);
    if known.None? { return Failed(UnsupportedVersion); }
    var version := known.value;
    if version == Empty {
      return ParseResult(false, None, AbsentNode, if !exact then 1 else 0);
    }

    var start := at;
    var limit := Min(total, start + MAXIMUM_DOMAIN_LENGTH + 1);
    var domain: Option<string> := None;
    while at < limit
      invariant domain.None? && 1 <= at <= limit
      invariant ZeroFrom(data, at, limit) == DomainEnd(data)
    {
      if data[at] == 0 {
        domain := Some(DecodeAscii(data[start..at]));
        at := at + 1;
        break;
      }
      at := at + 1;
    }
    if domain.None? {
      if at >= total && at - start <= MAXIMUM_DOMAIN_LENGTH { return Failed(UnexpectedEnd); }
      return Failed(InvalidDomainEncoding);
    }
    r := WalkFields(data, exact, version, domain.value, at);
  }

  /** The walk from the date on. */
  method WalkFields(data: Buffer, exact: bool, version: Version, domain: string, start: nat) returns (r: ParseResult)
    requires start <= |data|
    ensures r == ReadDate(data, exact, version, domain, start)
  {
    var total, at := |data|, start;
    var date: int;
    if version == Version1 {
      if total - at < 2 { return Failed(UnexpectedEnd); }
      var hours := FromBigEndian16(data[at..at + 2]);
      at := at + 2;
      date := hours * HOUR;
    } else {
      if total - at < 4 { return Failed(UnexpectedEnd); }
      var minutes := FromLittleEndian32(data[at..at + 4]);
      at := at + 4;
      if minutes > MAXIMUM_MINUTES { return Failed(ImplementationCapacityExceeded); }
      date := minutes * MINUTE;
    }

    if total - at < 4 { return Failed(UnexpectedEnd); }
    var declared := FromLittleEndian32(data[at..at + 4]);
    at := at + 4;
    var present := (total - at) - SIGNATURE_LENGTH;
    if exact {
      if present != declared { return Failed(ByteCountMismatch); }
    } else if present < declared {
      return Failed(UnexpectedEnd);
    }
    var payload := data[at..at + declared];
    at := at + declared;
    var signature := data[at..at + SIGNATURE_LENGTH];
    at := at + SIGNATURE_LENGTH;
    // The malformed envelope the source guards against here cannot arise.
    assert !(exact && at != total);
    return ParseResult(true, Some(Owid(version, domain, date, payload, signature)), Parsed, at);
  }
}
