/** The writer an OWID is serialised with and the sequential reader that raises. */
module Io {
  import opened Common
  import opened Bytes
  import opened Schedule
  import opened Endpoints
  import opened Wire
  import opened Parse

  // ---------------------------------------------------------------- writing

  /** The buffer a caller passes to be appended to. A write that raises says so,
      and what was appended before it stays. */
  class ByteArray {
    var bytes: Buffer

    constructor ()
      ensures bytes == []
    {
      bytes := [];
    }

    method WriteByte(value: Byte)
      modifies this
      ensures bytes == old(bytes) + [value]
    {
      bytes := bytes + [value];
    }

    method WriteString(value: string) returns (ok: bool)
      modifies this
      ensures ok == WrittenDomain(value).Some?
      ensures bytes == if ok then old(bytes) + WrittenDomain(value).value else old(bytes)
    {
      var encoded := EncodeUtf8(value);
      if 0 in encoded { return false; }
      if |encoded| > MAXIMUM_DOMAIN_LENGTH { return false; }
      bytes := bytes + encoded;
      bytes := bytes + [0];
      assert bytes == old(bytes) + (encoded + [0]);
      return true;
    }

    method WriteDate(date: Moment, version: Version) returns (ok: bool)
      modifies this
      ensures ok == WrittenDate(version, date).Some?
      ensures bytes == if ok then old(bytes) + WrittenDate(version, date).value else old(bytes)
    {
      if version == Version1 {
        var hours := date / HOUR;
        if hours < 0 || hours > 0xFFFF { return false; }
        bytes := bytes + BigEndian16(hours);
        return true;
      }
      if version == Version2 || version == Version3 {
        var minutes := date / MINUTE;
        if minutes < 0 || minutes > 0xFFFF_FFFF { return false; }
        bytes := bytes + LittleEndian32(minutes);
        return true;
      }
      return false;
    }

    method WriteByteArray(value: Buffer) returns (ok: bool)
      modifies this
      ensures ok == WrittenPayload(value).Some?
      ensures bytes == if ok then old(bytes) + WrittenPayload(value).value else old(bytes)
    {
      if |value| > 0xFFFF_FFFF { return false; }
      bytes := bytes + LittleEndian32(|value|);
      bytes := bytes + value;
      return true;
    }

    method WriteSignature(value: Buffer) returns (ok: bool)
      modifies this
      ensures ok == (|value| == SIGNATURE_LENGTH)
      ensures bytes == if ok then old(bytes) + value else old(bytes)
    {
      if |value| != SIGNATURE_LENGTH { return false; }
      bytes := bytes + value;
      return true;
    }

    /** The fields the signature covers. */
    method WriteUnsigned(owid: Owid) returns (ok: bool)
      modifies this
      ensures ok == SignedBytes(owid).Some?
      ensures ok ==> bytes == old(bytes) + SignedBytes(owid).value
      ensures old(bytes) <= bytes
    {
      ghost var start, version := bytes, [owid.version.AsByte()];
      WriteByte(owid.version.AsByte());
      ok := WriteString(owid.domain);
      if !ok { return; }
      ghost var domain := WrittenDomain(owid.domain).value;
      ok := WriteDate(owid.date, owid.version);
      StaysInFront(start, version, domain);
      if !ok { return; }
      ghost var date := WrittenDate(owid.version, owid.date).value;
      ok := WriteByteArray(owid.payload);
      StaysInFront(start, version + domain, date);
      if !ok { return; }
      ghost var payload := WrittenPayload(owid.payload).value;
      StaysInFront(start, version + domain + date, payload);
    }

    /** What is appended in turn is appended as one, and what was there is in front. */
    static lemma StaysInFront(start: Buffer, first: Buffer, more: Buffer)
      ensures start + first + more == start + (first + more)
      ensures start <= start + (first + more)
    {
    }

    method WriteOwid(owid: Owid) returns (ok: bool)
      modifies this
      ensures ok == Serialised(owid).Some?
      ensures ok ==> bytes == old(bytes) + Serialised(owid).value
      ensures old(bytes) <= bytes
    {
      ok := WriteUnsigned(owid);
      if !ok { return; }
      ok := WriteSignature(owid.signature);
    }

    method WriteEmpty()
      modifies this
      ensures bytes == old(bytes) + SerialisedOptional(None).value
    {
      WriteByte(Empty.AsByte());
    }
  }

  // ---------------------------------------------------------------- reading

  /** What reading from a position gives: a value and where it left off, or an error. */
  datatype Step<+T> = Stepped(value: T, next: nat) | RaisedError

  function TakeByte(buffer: Buffer, at: nat): Step<Byte> {
    if at >= |buffer| then RaisedError else Stepped(buffer[at], at + 1)
  }

  function TakeBytes(buffer: Buffer, at: nat, count: nat): Step<Buffer> {
    if at + count > |buffer| then RaisedError else Stepped(buffer[at..at + count], at + count)
  }

  function TakeU32(buffer: Buffer, at: nat): Step<int> {
    if at + 4 > |buffer| then RaisedError else Stepped(FromLittleEndian32(buffer[at..at + 4]), at + 4)
  }

  function TakeString(buffer: Buffer, at: nat): Step<string>
    requires at <= |buffer|
  {
    var limit := Min(|buffer|, at + MAXIMUM_DOMAIN_LENGTH + 1);
    var terminator := ZeroFrom(buffer, at, limit);
    if terminator == limit then RaisedError
    else
      var text := DecodeUtf8(buffer[at..terminator]);
      if text.None? then RaisedError else Stepped(text.value, terminator + 1)
  }

  /** A count past the end of 9999 raises as the date is worked out. */
  function TakeDate(buffer: Buffer, at: nat, version: Version): Step<Moment> {
    match version
    case Empty => RaisedError
    case Version1 =>
      if at + 2 > |buffer| then RaisedError
      else Stepped(FromBigEndian16(buffer[at..at + 2]) * HOUR, at + 2)
    case _ =>
      var minutes := TakeU32(buffer, at);
      if minutes.RaisedError? || minutes.value > MAXIMUM_MINUTES then RaisedError
      else Stepped(minutes.value * MINUTE, minutes.next)
  }

  function TakeByteArray(buffer: Buffer, at: nat): Step<Buffer> {
    var count := TakeU32(buffer, at);
    if count.RaisedError? || |buffer| - count.next != count.value + SIGNATURE_LENGTH then RaisedError
    else TakeBytes(buffer, count.next, count.value)
  }

  class Reader {
    const buffer: Buffer
    var position: nat

    /** The reader stands within its buffer or at the end of it. */
    predicate Valid()
      reads this
    {
      position <= |buffer|
    }

    constructor (buffer: Buffer)
      ensures Valid() && this.buffer == buffer && position == 0
    {
      this.buffer, position := buffer, 0;
    }

    /** The reader went where the step left off, or stayed. */
    predicate Follows<T>(before: nat, step: Step<T>)
      reads this
    {
      position == if step.Stepped? then step.next else before
    }

    method ReadByte() returns (r: Step<Byte>)
      requires Valid()
      modifies this
      ensures Valid()
      ensures r == TakeByte(buffer, old(position)) && Follows(old(position), r)
    {
      if position >= |buffer| { return RaisedError; }
      var value := buffer[position];
      position := position + 1;
      return Stepped(value, position);
    }

    method ReadBytes(count: nat) returns (r: Step<Buffer>)
      requires Valid()
      modifies this
      ensures Valid()
      ensures r == TakeBytes(buffer, old(position), count) && Follows(old(position), r)
    {
      var end := position + count;
      if end > |buffer| { return RaisedError; }
      var value := buffer[position..end];
      position := end;
      return Stepped(value, position);
    }

    method ReadU32() returns (r: Step<int>)
      requires Valid()
      modifies this
      ensures Valid()
      ensures r == TakeU32(buffer, old(position)) && Follows(old(position), r)
    {
      if position + 4 > |buffer| { return RaisedError; }
      var value := FromLittleEndian32(buffer[position..position + 4]);
      position := position + 4;
      return Stepped(value, position);
    }

    method ReadString() returns (r: Step<string>)
      requires Valid()
      modifies this
      ensures Valid()
      ensures r == TakeString(buffer, old(position)) && Follows(old(position), r)
    {
      var windowEnd := position + MAXIMUM_DOMAIN_LENGTH + 1;
      var terminator := ZeroFrom(buffer, position, Min(|buffer|, windowEnd));
      if terminator == Min(|buffer|, windowEnd) { return RaisedError; }
      var value := DecodeUtf8(buffer[position..terminator]);
      if value.None? { return RaisedError; }
      position := terminator + 1;
      return Stepped(value.value, position);
    }

    method ReadDate(version: Version) returns (r: Step<Moment>)
      requires Valid()
      modifies this
      ensures Valid()
      ensures r == TakeDate(buffer, old(position), version)
      ensures r.Stepped? ==> position == r.next
    {
      if version == Version1 {
        var high := ReadByte();
        if high.RaisedError? { return RaisedError; }
        var low := ReadByte();
        if low.RaisedError? { return RaisedError; }
        assert buffer[position - 2..position] == [high.value, low.value];
        return Stepped(FromBigEndian16([high.value, low.value]) * HOUR, position);
      }
      if version == Version2 || version == Version3 {
        var minutes := ReadU32();
        if minutes.RaisedError? || minutes.value > MAXIMUM_MINUTES { return RaisedError; }
        return Stepped(minutes.value * MINUTE, position);
      }
      return RaisedError;
    }

    method ReadByteArray() returns (r: Step<Buffer>)
      requires Valid()
      modifies this
      ensures Valid()
      ensures r == TakeByteArray(buffer, old(position))
      ensures r.Stepped? ==> position == r.next
    {
      var count := ReadU32();
      if count.RaisedError? { return RaisedError; }
      var remaining := |buffer| - position;
      if remaining != count.value + SIGNATURE_LENGTH { return RaisedError; }
      r := ReadBytes(count.value);
    }

    /** Creates an OWID from the next fields. The empty marker takes the date now. */
    method ReadOwid(now: Moment) returns (owid: Option<Owid>)
      requires Valid()
      modifies this
      ensures Valid() && owid == RaisingRead(buffer, old(position), now)
    {
      var first := ReadByte();
      if first.RaisedError? { return None; }
      var version := FromByte(first.value);
      if version.None? { return None; }
      if version.value == Empty { return Some(Owid(Empty, "", now, [], [])); }
      var domain := ReadString();
      if domain.RaisedError? { return None; }
      var date := ReadDate(version.value);
      if date.RaisedError? { return None; }
      var payload := ReadByteArray();
      if payload.RaisedError? { return None; }
      var signature := ReadBytes(SIGNATURE_LENGTH);
      if signature.RaisedError? { return None; }
      return Some(Owid(version.value, domain.value, date.value, payload.value, signature.value));
    }
  }

  /** What the raising route makes of a buffer from a position, or nothing where it raises. */
  function RaisingRead(buffer: Buffer, at: nat, now: Moment): Option<Owid>
    requires at <= |buffer|
  {
    var first := TakeByte(buffer, at);
    if first.RaisedError? || FromByte(first.value).None? then None
    else if FromByte(first.value).value == Empty then Some(Owid(Empty, "", now, [], []))
    else
      var version := FromByte(first.value).value;
      var domain := TakeString(buffer, first.next);
      if domain.RaisedError? then None else
      var date := TakeDate(buffer, domain.next, version);
      if date.RaisedError? then None else
      var payload := TakeByteArray(buffer, date.next);
      if payload.RaisedError? then None else
      var signature := TakeBytes(buffer, payload.next, SIGNATURE_LENGTH);
      if signature.RaisedError? then None else
      Some(Owid(version, domain.value, date.value, payload.value, signature.value))
  }
}
