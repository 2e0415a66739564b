/** The OWID, its version byte, its dates and the bytes it is written as. */
module Wire {
  import opened Common
  import opened Bytes
  import opened Schedule
  import opened Endpoints

  datatype Version = Empty | Version1 | Version2 | Version3 {
    function AsByte(): Byte {
      match this
      case Empty => 0
      case Version1 => 1
      case Version2 => 2
      case Version3 => 3
    }
  }

  function FromByte(b: Byte): Option<Version> {
    if b == 0 then Some(Empty)
    else if b == 1 then Some(Version1)
    else if b == 2 then Some(Version2)
    else if b == 3 then Some(Version3)
    else None
  }

  const DEFAULT_VERSION: Version := Version3
  const SIGNATURE_LENGTH: nat := 64
  const HOUR: int := 60 * MINUTE

  /** Two fewer than the 255 octets of section 2.3.4 of RFC 1035. */
  const MAXIMUM_DOMAIN_LENGTH: nat := 255 - 2

  datatype Owid = Owid(version: Version, domain: string, date: Moment, payload: Buffer, signature: Buffer)

  // ------------------------------------------------------- what is written

  /** The domain's bytes and their terminator, or nothing where it cannot be written. */
  function WrittenDomain(domain: string): Option<Buffer> {
    var encoded := EncodeUtf8(domain);
    if 0 in encoded || |encoded| > MAXIMUM_DOMAIN_LENGTH then None else Some(encoded + [0])
  }

  /** The date in the version's unit, counted downwards to a whole unit. */
  function WrittenDate(version: Version, date: Moment): Option<Buffer> {
    match version
    case Empty => None
    case Version1 =>
      var hours := date / HOUR;
      if hours < 0 || hours > 0xFFFF then None else Some(BigEndian16(hours))
    case _ =>
      var minutes := date / MINUTE;
      if minutes < 0 || minutes > 0xFFFF_FFFF then None else Some(LittleEndian32(minutes))
  }

  function WrittenPayload(payload: Buffer): Option<Buffer> {
    if |payload| > 0xFFFF_FFFF then None else Some(LittleEndian32(|payload|) + payload)
  }

  /** The bytes the signature covers. */
  function SignedBytes(owid: Owid): Option<Buffer> {
    var domain, date, payload :=
      WrittenDomain(owid.domain), WrittenDate(owid.version, owid.date), WrittenPayload(owid.payload);
    if domain.None? || date.None? || payload.None? then None
    else Some([owid.version.AsByte()] + domain.value + date.value + payload.value)
  }

  /** The whole OWID's bytes. */
  function Serialised(owid: Owid): Option<Buffer> {
    var signed := SignedBytes(owid);
    if signed.None? || |owid.signature| != SIGNATURE_LENGTH then None else Some(signed.value + owid.signature)
  }

  /** The marker of an OWID that is absent, and one that may be. */
  function SerialisedOptional(owid: Option<Owid>): Option<Buffer> {
    if owid.None? then Some([Empty.AsByte()]) else Serialised(owid.value)
  }

  /** The dates a version can count, in its own unit. */
  predicate CanCount(version: Version, date: Moment) {
    match version
    case Empty => false
    case Version1 => 0 <= date < 0x1_0000 * HOUR
    case _ => 0 <= date < 0x1_0000_0000 * MINUTE
  }

  lemma CountedAreWritten(version: Version, date: Moment)
    ensures WrittenDate(version, date).Some? <==> CanCount(version, date)
  {
    assert date < 0x1_0000 * HOUR <==> date / HOUR < 0x1_0000;
    assert date < 0x1_0000_0000 * MINUTE <==> date / MINUTE < 0x1_0000_0000;
  }

  /**
   What can be written: a version that is not the marker, a domain of at most 253 bytes
   without the terminator, a date the version can count, a payload its length can
   measure and a signature of 64 bytes. Anything else is refused.
   */
  lemma CanBeWritten(owid: Owid)
    ensures Serialised(owid).Some? <==> SignedBytes(owid).Some? && |owid.signature| == 64
    ensures SignedBytes(owid).Some? <==>
      && 0 as char !in owid.domain && |EncodeUtf8(owid.domain)| <= 253
      && CanCount(owid.version, owid.date) && |owid.payload| <= 0xFFFF_FFFF
  {
    Utf8Length(owid.domain);
    CountedAreWritten(owid.version, owid.date);
  }

  // --------------------------------------------- no two OWIDs sign the same bytes

  /** The unit a version's date is counted in. */
  function Unit(version: Version): int {
    if version == Version1 then HOUR else MINUTE
  }

  lemma DateIsReadBack(version: Version, date: Moment, other: Moment)
    requires WrittenDate(version, date).Some?
    ensures WrittenDate(version, date) == WrittenDate(version, other) ==> date / Unit(version) == other / Unit(version)
  {
    Integers32RoundTrip(date / MINUTE, []);
    Integers32RoundTrip(other / MINUTE, []);
    Integers16RoundTrip(date / HOUR, []);
    Integers16RoundTrip(other / HOUR, []);
  }

  lemma PayloadIsReadBack(payload: Buffer, other: Buffer)
    requires WrittenPayload(payload).Some? && WrittenPayload(payload) == WrittenPayload(other)
    ensures payload == other
  {
    assert payload == WrittenPayload(payload).value[4..];
    assert other == WrittenPayload(other).value[4..];
  }

  /** The signed bytes taken apart: version, domain to its terminator, and the rest. */
  lemma SignedParts(owid: Owid) returns (domain: Buffer, date: Buffer, payload: Buffer)
    requires SignedBytes(owid).Some?
    ensures domain == EncodeUtf8(owid.domain) && 0 !in domain && DecodeUtf8(domain) == Some(owid.domain)
    ensures Some(date) == WrittenDate(owid.version, owid.date) && |date| == if owid.version == Version1 then 2 else 4
    ensures Some(payload) == WrittenPayload(owid.payload)
    ensures SignedBytes(owid).value == [owid.version.AsByte()] + (domain + [0] + (date + payload))
  {
    domain := EncodeUtf8(owid.domain);
    date, payload := WrittenDate(owid.version, owid.date).value, WrittenPayload(owid.payload).value;
    DecodingUndoesEncoding(owid.domain);
  }

  /**
   The signed bytes are unambiguous: OWIDs that sign the same bytes agree on the
   version, the domain, the date to the version's unit and the payload.
   */
  lemma SignedBytesAreUnambiguous(a: Owid, b: Owid)
    requires SignedBytes(a).Some? && SignedBytes(a) == SignedBytes(b)
    ensures a.version == b.version && a.domain == b.domain && a.payload == b.payload
    ensures a.date / Unit(a.version) == b.date / Unit(a.version)
  {
    var domainA, dateA, payloadA := SignedParts(a);
    var domainB, dateB, payloadB := SignedParts(b);
    var signed := SignedBytes(a).value;
    assert signed[0] == a.version.AsByte() == b.version.AsByte();
    assert signed[1..] == domainA + [0] + (dateA + payloadA);
    assert signed[1..] == domainB + [0] + (dateB + payloadB);
    SplitAtTerminator(domainA, dateA + payloadA, domainB, dateB + payloadB);
    SplitAtWidth(dateA, payloadA, dateB, payloadB);
    DateIsReadBack(a.version, a.date, b.date);
    PayloadIsReadBack(a.payload, b.payload);
  }

  lemma SplitAtWidth(a: Buffer, x: Buffer, b: Buffer, y: Buffer)
    requires |a| == |b| && a + x == b + y
    ensures a == b && x == y
  {
    assert a == (a + x)[..|a|] && b == (b + y)[..|b|];
    assert x == (a + x)[|a|..] && y == (b + y)[|b|..];
  }
}
