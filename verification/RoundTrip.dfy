/** Writing and reading undo each other, and the two readers agree, exactly where they do. */
module RoundTrip {
  import opened Common
  import opened Bytes
  import opened Schedule
  import opened Endpoints
  import opened Wire
  import opened Parse
  import opened Io

  /** What the read makes of an OWID that was written. */
  function AsRead(owid: Owid): Owid {
    var unit := Unit(owid.version);
    owid.(domain := DecodeAscii(EncodeUtf8(owid.domain)), date := owid.date / unit * unit)
  }

  /** The runtime can hold the date written. */
  predicate DateReadable(owid: Owid) {
    owid.version == Version1 || owid.date / MINUTE <= MAXIMUM_MINUTES
  }

  /** Nothing about the OWID is lost on the wire. */
  ghost predicate Lossless(owid: Owid) {
    AsciiText(owid.domain) && owid.date % Unit(owid.version) == 0 && DateReadable(owid)
  }

  lemma DomainEndOfWritten(data: Buffer, version: Byte, domain: Buffer, rest: Buffer)
    requires 0 !in domain && |domain| <= MAXIMUM_DOMAIN_LENGTH
    requires data == [version] + (domain + [0] + rest)
    ensures DomainEnd(data) == 1 + |domain| < DomainLimit(data)
    ensures data[1..DomainEnd(data)] == domain && data[DomainEnd(data) + 1..] == rest
  {
    var end := 1 + |domain|;
    assert data[end] == 0;
    assert forall i | 1 <= i < end :: data[i] == domain[i - 1];
    assert DomainEnd(data) <= end;
    assert data[1..end] == domain && data[end + 1..] == rest;
  }

  lemma SlicesOfRest(data: Buffer, at: nat, a: Buffer, b: Buffer)
    requires at <= |data| && data[at..] == a + b
    ensures at + |a| <= |data| && data[at..at + |a|] == a && data[at + |a|..] == b
  {
    assert data[at..at + |a|] == data[at..][..|a|];
    assert data[at + |a|..] == data[at..][|a|..];
  }

  lemma RestOfWritten(data: Buffer, exact: bool, version: Version, domain: string, date: int, at: nat,
                      payload: Buffer, signature: Buffer)
    requires at <= |data| && |payload| <= 0xFFFF_FFFF && |signature| == SIGNATURE_LENGTH
    requires data[at..] == LittleEndian32(|payload|) + (payload + signature)
    ensures ReadRest(data, exact, version, domain, date, at)
            == ParseResult(true, Some(Owid(version, domain, date, payload, signature)), Parsed, |data|)
  {
    Integers32RoundTrip(|payload|, []);
    SlicesOfRest(data, at, LittleEndian32(|payload|), payload + signature);
    SlicesOfRest(data, at + 4, payload, signature);
    var to := at + 4 + |payload|;
    assert data[to..to + SIGNATURE_LENGTH] == data[to..];
  }

  lemma DateOfWritten(data: Buffer, exact: bool, owid: Owid, domain: string, at: nat, date: Buffer, rest: Buffer)
    requires at <= |data| && Some(date) == WrittenDate(owid.version, owid.date) && data[at..] == date + rest
    ensures at + |date| <= |data| && data[at + |date|..] == rest
    ensures DateReadable(owid) ==>
      ReadDate(data, exact, owid.version, domain, at)
      == ReadRest(data, exact, owid.version, domain, AsRead(owid).date, at + |date|)
    ensures !DateReadable(owid) ==>
      ReadDate(data, exact, owid.version, domain, at) == Failed(ImplementationCapacityExceeded)
  {
    SlicesOfRest(data, at, date, rest);
    if owid.version == Version1 {
      Integers16RoundTrip(owid.date / HOUR, []);
    } else {
      Integers32RoundTrip(owid.date / MINUTE, []);
    }
  }

  lemma MoveInwards(a: Buffer, b: Buffer, c: Buffer, d: Buffer, e: Buffer)
    ensures a + (b + (c + d)) + e == a + (b + (c + (d + e)))
  {
  }

  /** What is written, taken apart at the end of the domain and of the date. */
  lemma WrittenParts(owid: Owid) returns (domain: Buffer, date: Buffer, fields: Buffer)
    requires Serialised(owid).Some?
    ensures domain == EncodeUtf8(owid.domain) && 0 !in domain && |domain| <= MAXIMUM_DOMAIN_LENGTH
    ensures Some(date) == WrittenDate(owid.version, owid.date) && owid.version != Empty
    ensures |owid.payload| <= 0xFFFF_FFFF && |owid.signature| == SIGNATURE_LENGTH
    ensures fields == LittleEndian32(|owid.payload|) + (owid.payload + owid.signature)
    ensures Serialised(owid).value == [owid.version.AsByte()] + (domain + [0] + (date + fields))
  {
    var payload: Buffer;
    domain, date, payload := SignedParts(owid);
    fields := payload + owid.signature;
    MoveInwards([owid.version.AsByte()], domain + [0], date, payload, owid.signature);
  }

  lemma HeaderOfWritten(data: Buffer, exact: bool, version: Version, domain: Buffer, rest: Buffer)
    requires version != Empty && 0 !in domain && |domain| <= MAXIMUM_DOMAIN_LENGTH
    requires data == [version.AsByte()] + (domain + [0] + rest)
    ensures data != [] && |domain| + 2 <= |data| && data[|domain| + 2..] == rest
    ensures ReadOf(data, exact) == ReadDate(data, exact, version, DecodeAscii(domain), |domain| + 2)
  {
    DomainEndOfWritten(data, version.AsByte(), domain, rest);
  }

  lemma FieldsOfWritten(data: Buffer, exact: bool, owid: Owid, domain: string, at: nat, date: Buffer)
    requires at <= |data| && Some(date) == WrittenDate(owid.version, owid.date)
    requires |owid.payload| <= 0xFFFF_FFFF && |owid.signature| == SIGNATURE_LENGTH
    requires data[at..] == date + (LittleEndian32(|owid.payload|) + (owid.payload + owid.signature))
    ensures ReadDate(data, exact, owid.version, domain, at) ==
      if DateReadable(owid)
      then ParseResult(true, Some(AsRead(owid).(domain := domain)), Parsed, |data|)
      else Failed(ImplementationCapacityExceeded)
  {
    var fields := LittleEndian32(|owid.payload|) + (owid.payload + owid.signature);
    DateOfWritten(data, exact, owid, domain, at, date, fields);
    if DateReadable(owid) {
      RestOfWritten(data, exact, owid.version, domain, AsRead(owid).date, at + |date|, owid.payload, owid.signature);
    }
  }

  /** The read of what was written, under either contract, for every OWID there is. */
  lemma ReadOfWritten(owid: Owid, exact: bool)
    requires Serialised(owid).Some?
    ensures var data := Serialised(owid).value;
      data != [] && ReadOf(data, exact) ==
        if DateReadable(owid) then ParseResult(true, Some(AsRead(owid)), Parsed, |data|)
        else Failed(ImplementationCapacityExceeded)
  {
    var data := Serialised(owid).value;
    var domain, date, fields := WrittenParts(owid);
    HeaderOfWritten(data, exact, owid.version, domain, date + fields);
    FieldsOfWritten(data, exact, owid, DecodeAscii(domain), |domain| + 2, date);
  }

  /**
   Reading undoes writing exactly for the OWIDs with an ASCII domain and a date that
   is a whole number of the version's unit and no later than the runtime holds.
   */
  lemma ReadingUndoesWriting(owid: Owid)
    requires Serialised(owid).Some?
    ensures ReadOf(Serialised(owid).value, true).owid == Some(owid) <==> Lossless(owid)
  {
    ReadOfWritten(owid, true);
    SameAsRead(owid);
  }

  lemma SameAsRead(owid: Owid)
    ensures AsRead(owid) == owid <==> AsciiText(owid.domain) && owid.date % Unit(owid.version) == 0
  {
    Utf8Length(owid.domain);
    var unit := Unit(owid.version);
    assert owid.date == owid.date / unit * unit + owid.date % unit;
  }

  /** The bytes of the domain as they stand in the buffer. */
  function DomainBytes(data: Buffer): Buffer
    requires data != []
  {
    data[1..DomainEnd(data)]
  }

  /** The bytes of a date that is read are those it is written as. */
  lemma DateWrittenBack(version: Version, date: Buffer)
    requires version != Empty && |date| == DateWidth(version)
    ensures version == Version1 ==> WrittenDate(version, FromBigEndian16(date) * HOUR) == Some(date)
    ensures version != Version1 ==> WrittenDate(version, FromLittleEndian32(date) * MINUTE) == Some(date)
  {
    if version == Version1 {
      Integers16RoundTrip(0, date);
      assert FromBigEndian16(date) * HOUR / HOUR == FromBigEndian16(date);
    } else {
      Integers32RoundTrip(0, date);
      assert FromLittleEndian32(date) * MINUTE / MINUTE == FromLittleEndian32(date);
    }
  }

  lemma DateTakenApart(data: Buffer, version: Version, domain: string, at: nat) returns (date: Buffer)
    requires at <= |data| && version != Empty && ReadDate(data, true, version, domain, at).ok
    ensures var owid := ReadDate(data, true, version, domain, at).owid.value;
      && Some(date) == WrittenDate(version, owid.date)
      && (version != Version1 ==> owid.date / MINUTE <= MAXIMUM_MINUTES)
      && at + |date| <= |data| && data[at..at + |date|] == date
      && ReadDate(data, true, version, domain, at) == ReadRest(data, true, version, domain, owid.date, at + |date|)
  {
    date := data[at..at + DateWidth(version)];
    DateWrittenBack(version, date);
  }

  lemma RestTakenApart(data: Buffer, version: Version, domain: string, date: int, at: nat)
    requires at <= |data| && ReadRest(data, true, version, domain, date, at).ok
    ensures var owid := ReadRest(data, true, version, domain, date, at).owid.value;
      && owid.version == version && owid.domain == domain && owid.date == date
      && |owid.payload| <= 0xFFFF_FFFF && |owid.signature| == SIGNATURE_LENGTH
      && data[at..] == LittleEndian32(|owid.payload|) + (owid.payload + owid.signature)
  {
    var count := data[at..at + 4];
    Integers32RoundTrip(0, count);
    assert data[at..] == count + data[at + 4..];
  }

  /** The fields of this OWID stand in the buffer after its domain. */
  ghost predicate StandsIn(data: Buffer, owid: Owid, date: Buffer) {
    && data != [] && DomainEnd(data) < DomainLimit(data) && data[0] == owid.version.AsByte()
    && WrittenDate(owid.version, owid.date) == Some(date)
    && |owid.payload| <= 0xFFFF_FFFF && |owid.signature| == SIGNATURE_LENGTH
    && data[DomainEnd(data) + 1..] == date + (LittleEndian32(|owid.payload|) + (owid.payload + owid.signature))
  }

  lemma HeaderTakenApart(data: Buffer)
    requires ReadOf(data, true).ok
    ensures data != [] && DomainEnd(data) < DomainLimit(data)
    ensures FromByte(data[0]).Some? && FromByte(data[0]).value != Empty
    ensures ReadOf(data, true)
            == ReadDate(data, true, FromByte(data[0]).value, DecodeAscii(DomainBytes(data)), DomainEnd(data) + 1)
  {
  }

  lemma SplitFrom(data: Buffer, at: nat, width: nat)
    requires at + width <= |data|
    ensures data[at..] == data[at..at + width] + data[at + width..]
  {
  }

  lemma FieldsTakenApart(data: Buffer, version: Version, domain: string, at: nat) returns (owid: Owid, date: Buffer)
    requires at <= |data| && version != Empty && ReadDate(data, true, version, domain, at).ok
    ensures ReadDate(data, true, version, domain, at).owid == Some(owid)
    ensures owid.version == version && owid.domain == domain && WrittenDate(version, owid.date) == Some(date)
    ensures |owid.payload| <= 0xFFFF_FFFF && |owid.signature| == SIGNATURE_LENGTH
    ensures data[at..] == date + (LittleEndian32(|owid.payload|) + (owid.payload + owid.signature))
  {
    owid := ReadDate(data, true, version, domain, at).owid.value;
    date := DateTakenApart(data, version, domain, at);
    SplitFrom(data, at, |date|);
    RestTakenApart(data, version, domain, owid.date, at + |date|);
  }

  /** A successful read is of exactly these fields, standing in this order. */
  lemma ReadTakenApart(data: Buffer) returns (owid: Owid, date: Buffer)
    requires ReadOf(data, true).ok
    ensures data != [] && ReadOf(data, true).owid == Some(owid) && StandsIn(data, owid, date)
    ensures owid.domain == DecodeAscii(DomainBytes(data))
  {
    HeaderTakenApart(data);
    owid, date := FieldsTakenApart(data, FromByte(data[0]).value, DecodeAscii(DomainBytes(data)), DomainEnd(data) + 1);
  }

  /**
   Writing undoes reading exactly for the buffers whose domain bytes are ASCII: the
   OWID read from any other buffer does not serialise to the buffer it came from.
   */
  lemma WritingUndoesReading(data: Buffer)
    requires ReadOf(data, true).ok
    ensures data != [] &&
      (Serialised(ReadOf(data, true).owid.value) == Some(data) <==> AllAscii(DomainBytes(data)))
  {
    var owid, date := ReadTakenApart(data);
    DomainWrittenBack(data);
    if AllAscii(DomainBytes(data)) {
      AsciiIsWrittenBack(data, owid, date);
    } else {
      OtherIsWrittenLonger(data, owid, date);
    }
  }

  lemma StandsAroundTerminator(data: Buffer)
    requires data != [] && DomainEnd(data) < DomainLimit(data)
    ensures data == [data[0]] + (DomainBytes(data) + [0] + data[DomainEnd(data) + 1..])
  {
    assert data[DomainEnd(data)] == 0;
  }

  /**
   What is verified after reading is what was received. The bytes the signature is
   checked over are the buffer's own but for its last 64, and those are the signature.
   */
  lemma SignedBytesAreReceived(data: Buffer)
    requires ReadOf(data, true).ok && data != [] && AllAscii(DomainBytes(data))
    ensures var owid := ReadOf(data, true).owid.value;
      && |data| > 64 && SignedBytes(owid) == Some(data[..|data| - 64]) && owid.signature == data[|data| - 64..]
  {
    WritingUndoesReading(data);
    var owid := ReadOf(data, true).owid.value;
    assert data == SignedBytes(owid).value + owid.signature;
  }

  lemma AsciiIsWrittenBack(data: Buffer, owid: Owid, date: Buffer)
    requires StandsIn(data, owid, date) && WrittenDomain(owid.domain) == Some(DomainBytes(data) + [0])
    ensures Serialised(owid) == Some(data)
  {
    SerialisedFromParts(owid, DomainBytes(data), date);
    StandsAroundTerminator(data);
  }

  lemma OtherIsWrittenLonger(data: Buffer, owid: Owid, date: Buffer)
    requires StandsIn(data, owid, date) && |EncodeUtf8(owid.domain)| > |DomainBytes(data)|
    ensures Serialised(owid) != Some(data)
  {
    if Serialised(owid).Some? {
      SerialisedFromParts(owid, EncodeUtf8(owid.domain), date);
      assert |data| == DomainEnd(data) + 1 + |data[DomainEnd(data) + 1..]|;
    }
  }

  /** The domain as read is written as the bytes it came from, or as more of them. */
  lemma DomainWrittenBack(data: Buffer)
    requires data != [] && DomainEnd(data) < DomainLimit(data)
    ensures var domain := DomainBytes(data);
      && (AllAscii(domain) ==> WrittenDomain(DecodeAscii(domain)) == Some(domain + [0]))
      && (!AllAscii(domain) ==> |EncodeUtf8(DecodeAscii(domain))| > |domain|)
  {
    AsciiDecodesAlike(DomainBytes(data));
    Utf8Length(DecodeAscii(DomainBytes(data)));
  }

  lemma SerialisedFromParts(owid: Owid, domain: Buffer, date: Buffer)
    requires WrittenDomain(owid.domain) == Some(domain + [0]) && WrittenDate(owid.version, owid.date) == Some(date)
    requires |owid.payload| <= 0xFFFF_FFFF && |owid.signature| == SIGNATURE_LENGTH
    ensures Serialised(owid) == Some([owid.version.AsByte()]
      + (domain + [0] + (date + (LittleEndian32(|owid.payload|) + (owid.payload + owid.signature)))))
  {
    var count, v := LittleEndian32(|owid.payload|), [owid.version.AsByte()];
    assert v + (domain + [0]) + date + (count + owid.payload) + owid.signature
        == v + (domain + [0] + (date + (count + (owid.payload + owid.signature))));
  }

  // ------------------------------------------------------ the two readers

  /** What the index walk makes of the buffer, as the raising route would say it. */
  function QuietRead(data: Buffer): Option<Owid> {
    if ReadOf(data, true).ok then ReadOf(data, true).owid else None
  }

  lemma FieldsReadAlike(data: Buffer, version: Version, domain: string, at: nat)
    requires at <= |data| && version != Empty
    ensures var r, date := ReadDate(data, true, version, domain, at), TakeDate(data, at, version);
      if r.ok then
        && date.Stepped? && TakeByteArray(data, date.next).Stepped?
        && var payload := TakeByteArray(data, date.next);
        && TakeBytes(data, payload.next, SIGNATURE_LENGTH).Stepped?
        && r.owid == Some(Owid(version, domain, date.value, payload.value,
                               TakeBytes(data, payload.next, SIGNATURE_LENGTH).value))
      else date.RaisedError? || TakeByteArray(data, date.next).RaisedError?
  {
  }

  /** Both find the domain's end in one place, and read the same text there or not. */
  lemma DomainReadsAlike(data: Buffer)
    requires data != []
    ensures DomainEnd(data) == DomainLimit(data) ==> TakeString(data, 1).RaisedError?
    ensures DomainEnd(data) < DomainLimit(data) && TakeString(data, 1).Stepped? ==>
      TakeString(data, 1).next == DomainEnd(data) + 1
    ensures DomainEnd(data) < DomainLimit(data) ==>
      (AllAscii(DomainBytes(data))
       <==> TakeString(data, 1) == Stepped(DecodeAscii(DomainBytes(data)), DomainEnd(data) + 1))
  {
    if DomainEnd(data) < DomainLimit(data) { AsciiDecodesAlike(DomainBytes(data)); }
  }

  lemma ReadersAgreeOnFields(data: Buffer, version: Version, now: Moment)
    requires data != [] && data[0] != 0 && FromByte(data[0]) == Some(version) && DomainEnd(data) < DomainLimit(data)
    ensures RaisingRead(data, 0, now) == QuietRead(data) <==> !(ReadOf(data, true).ok && !AllAscii(DomainBytes(data)))
  {
    DomainReadsAlike(data);
    FieldsReadAlike(data, version, DecodeAscii(DomainBytes(data)), DomainEnd(data) + 1);
  }

  /**
   The two readers agree, success for success and field for field, unless the buffer
   starts with the marker of an absent OWID, which one of them reads as an empty one,
   or the walk succeeds on domain bytes that are not ASCII. There they never agree.
   */
  lemma ReadersAgree(data: Buffer, now: Moment)
    ensures RaisingRead(data, 0, now) == QuietRead(data)
      <==> data == [] || (data[0] != 0 && !(ReadOf(data, true).ok && !AllAscii(DomainBytes(data))))
  {
    if data != [] && data[0] != 0 && FromByte(data[0]).Some? {
      if DomainEnd(data) < DomainLimit(data) {
        ReadersAgreeOnFields(data, FromByte(data[0]).value, now);
      } else {
        DomainReadsAlike(data);
      }
    }
  }

  /** On what an OWID is written as, so far as either can read its date, the readers
      agree exactly where the OWID's domain is ASCII. */
  lemma ReadersAgreeOnWritten(owid: Owid, now: Moment)
    requires Serialised(owid).Some? && DateReadable(owid)
    ensures var data := Serialised(owid).value;
      RaisingRead(data, 0, now) == QuietRead(data) <==> AsciiText(owid.domain)
  {
    var data := Serialised(owid).value;
    var domain, date, fields := WrittenParts(owid);
    DomainEndOfWritten(data, owid.version.AsByte(), domain, date + fields);
    ReadOfWritten(owid, true);
    ReadersAgree(data, now);
    Utf8Length(owid.domain);
  }

  /** Buffers on which they differ: the marker, and a domain of one accented letter. */
  lemma ReadersDifferAtAnInput(now: Moment)
    ensures RaisingRead([0], 0, now) == Some(Owid(Empty, "", now, [], [])) && QuietRead([0]) == None
    ensures var owid := Owid(Version3, "\U{E9}", 0, [], seq(SIGNATURE_LENGTH, _ => 0));
      Serialised(owid).Some? && RaisingRead(Serialised(owid).value, 0, now) != QuietRead(Serialised(owid).value)
  {
    var owid := Owid(Version3, "\U{E9}", 0, [], seq(SIGNATURE_LENGTH, _ => 0));
    Utf8Length(owid.domain);
    assert |EncodeUtf8("\U{E9}")| == 2;
    ReadersAgreeOnWritten(owid, now);
  }
}
