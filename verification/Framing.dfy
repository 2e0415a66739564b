/** What holds of the framed read as bytes keep arriving, and of the two reads together. */
module Framing {
  import opened Bytes
  import opened Endpoints
  import opened Wire
  import opened Parse

  /** A read whose answer more bytes cannot change. */
  predicate Final(status: ParseStatus) {
    status == Parsed || status == AbsentNode || status == UnsupportedVersion
    || status == InvalidDomainEncoding || status == ImplementationCapacityExceeded
  }

  lemma {:induction false} ZeroFromExtends(data: Buffer, more: Buffer, at: nat, limit: nat, further: nat)
    requires at <= limit <= |data| && limit <= further <= |data| + |more|
    ensures ZeroFrom(data, at, limit) < limit ==> ZeroFrom(data + more, at, further) == ZeroFrom(data, at, limit)
    ensures ZeroFrom(data, at, limit) == limit ==>
      ZeroFrom(data + more, at, further) == ZeroFrom(data + more, limit, further)
    decreases limit - at
  {
    if at < limit && data[at] != 0 {
      ZeroFromExtends(data, more, at + 1, limit, further);
    }
  }

  /** A domain found stays found, and one past the maximum stays past it. */
  lemma DomainEndExtends(data: Buffer, more: Buffer)
    requires data != []
    ensures DomainEnd(data) < DomainLimit(data) ==>
      DomainEnd(data + more) == DomainEnd(data) < DomainLimit(data + more)
    ensures DomainEnd(data) == DomainLimit(data) > 1 + MAXIMUM_DOMAIN_LENGTH ==>
      DomainEnd(data + more) == DomainLimit(data + more) == DomainLimit(data)
    ensures DomainEnd(data) == DomainLimit(data) ==>
      DomainEnd(data + more) == ZeroFrom(data + more, DomainLimit(data), DomainLimit(data + more))
  {
    ZeroFromExtends(data, more, 1, DomainLimit(data), DomainLimit(data + more));
  }

  lemma ReadDateExtends(data: Buffer, more: Buffer, version: Version, domain: string, at: nat)
    requires at <= |data|
    ensures var r := ReadDate(data, false, version, domain, at);
      Final(r.status) ==> ReadDate(data + more, false, version, domain, at) == r
  {
    var all := data + more;
    assert forall i, j | 0 <= i <= j <= |data| :: all[i..j] == data[i..j];
  }

  /** The framed read's final answers, with the bytes consumed, are final. */
  lemma FinalAnswersStay(data: Buffer, more: Buffer)
    requires data != [] && Final(ReadOf(data, false).status)
    ensures ReadOf(data + more, false) == ReadOf(data, false)
  {
    DomainEndExtends(data, more);
    if DomainEnd(data) < DomainLimit(data) && FromByte(data[0]).Some? {
      assert (data + more)[1..DomainEnd(data)] == data[1..DomainEnd(data)];
      ReadDateExtends(data, more, FromByte(data[0]).value, DecodeAscii(data[1..DomainEnd(data)]), DomainEnd(data) + 1);
    }
  }

  // ----------------------------------------------------------- completion

  function Zeros(n: nat): (zeros: Buffer)
    ensures |zeros| == n && forall i :: 0 <= i < n ==> zeros[i] == 0
  {
    seq(n, _ => 0)
  }

  /** Enough zeros to end a domain, a date and a length and to fill any payload. */
  const ENOUGH: nat := 0x1_0000_0000 + 400

  lemma TopByteBounds(b: Buffer)
    requires |b| == 4 && b[3] == 0
    ensures FromLittleEndian32(b) < 0x100_0000
  {
  }

  lemma RestCompletes(data: Buffer, version: Version, domain: string, date: int, at: nat)
    requires at + 4 + SIGNATURE_LENGTH + 0xFFFF_FFFF <= |data|
    ensures ReadRest(data, false, version, domain, date, at).status == Parsed
  {
  }

  lemma DateCompletes(data: Buffer, version: Version, domain: string, at: nat)
    requires at <= |data| + 1 && at <= |data + Zeros(ENOUGH)|
    requires at <= |data| ==> ReadDate(data, false, version, domain, at).status == UnexpectedEnd
    ensures ReadDate(data + Zeros(ENOUGH), false, version, domain, at).status == Parsed
  {
    var all := data + Zeros(ENOUGH);
    if version == Version1 {
      RestCompletes(all, version, domain, FromBigEndian16(all[at..at + 2]) * HOUR, at + 2);
    } else {
      var count := all[at..at + 4];
      if at + 4 <= |data| {
        assert count == data[at..at + 4];
      } else {
        TopByteBounds(count);
      }
      RestCompletes(all, version, domain, FromLittleEndian32(count) * MINUTE, at + 4);
    }
  }

  /** A buffer that ended early is the front of some envelope. */
  lemma UnexpectedEndCompletes(data: Buffer)
    requires data != [] && ReadOf(data, false).status == UnexpectedEnd
    ensures ReadOf(data + Zeros(ENOUGH), false).ok
  {
    var more := Zeros(ENOUGH);
    var all := data + more;
    DomainEndExtends(data, more);
    var version := FromByte(data[0]).value;
    if DomainEnd(data) == DomainLimit(data) {
      assert all[|data|] == 0 && DomainEnd(all) == |data|;
      DateCompletes(data, version, DecodeAscii(all[1..|data|]), |data| + 1);
    } else {
      assert all[1..DomainEnd(data)] == data[1..DomainEnd(data)];
      DateCompletes(data, version, DecodeAscii(data[1..DomainEnd(data)]), DomainEnd(data) + 1);
    }
  }

  /** Some bytes after these make the buffer start with an envelope. */
  ghost predicate Completes(data: Buffer) {
    exists more :: ReadOf(data + more, false).ok
  }

  /**
   The framed read answers a source still arriving. Any answer but an unexpected
   end is unchanged by whatever arrives next, and an unexpected end is reported
   exactly where the bytes are no envelope yet and some continuation is one.
   */
  lemma StreamingTrichotomy(data: Buffer)
    requires data != []
    ensures var r := ReadOf(data, false);
      && (r.status == UnexpectedEnd <==> !r.ok && Completes(data))
      && (r.status != UnexpectedEnd ==> forall more :: ReadOf(data + more, false) == r)
  {
    var r := ReadOf(data, false);
    if r.status == UnexpectedEnd {
      UnexpectedEndCompletes(data);
    } else {
      FramedStatuses(data);
      forall more
        ensures ReadOf(data + more, false) == r
      {
        FinalAnswersStay(data, more);
      }
    }
  }

  /** The outcomes of the framed read of something. */
  lemma FramedStatuses(data: Buffer)
    requires data != []
    ensures ReadOf(data, false).status == UnexpectedEnd || Final(ReadOf(data, false).status)
  {
  }

  lemma ConsumedIsPresent(data: Buffer, exact: bool)
    ensures ReadOf(data, exact).consumed <= |data|
    ensures ReadOf(data, exact).ok <==> ReadOf(data, exact).status == Parsed
    ensures ReadOf(data, exact).ok ==> ReadOf(data, exact).consumed > 0 && ReadOf(data, exact).owid.Some?
  {
  }

  /** The bytes are one envelope and nothing else. */
  predicate IsEnvelope(data: Buffer) {
    ReadOf(data, false).ok && ReadOf(data, false).consumed == |data|
  }

  /** Every proper beginning of an envelope is an unexpected end. */
  lemma EnvelopeCutShort(envelope: Buffer, cut: nat)
    requires IsEnvelope(envelope) && 0 < cut < |envelope|
    ensures ReadOf(envelope[..cut], false).status == UnexpectedEnd
  {
    var front, rest := envelope[..cut], envelope[cut..];
    assert envelope == front + rest;
    FramedStatuses(front);
    ConsumedIsPresent(front, false);
    if Final(ReadOf(front, false).status) {
      FinalAnswersStay(front, rest);
    }
  }

  /** Envelopes are a prefix-free code, so a run of them is read in one way only. */
  lemma EnvelopesArePrefixFree(a: Buffer, b: Buffer)
    requires IsEnvelope(a) && IsEnvelope(b) && a <= b
    ensures a == b
  {
    ConsumedIsPresent(a, false);
    assert b[..|a|] == a;
    if |a| < |b| {
      EnvelopeCutShort(b, |a|);
    }
  }

  // ------------------------------------------------------ the two contracts

  /**
   The whole buffer read succeeds exactly where the framed read takes the whole
   buffer, with the same OWID, and the fallback for an envelope malformed in some
   other way is never given.
   */
  lemma ContractsAgree(data: Buffer)
    ensures ReadOf(data, true).ok <==> IsEnvelope(data)
    ensures ReadOf(data, true).ok ==> ReadOf(data, true) == ReadOf(data, false)
    ensures ReadOf(data, true).status != MalformedEnvelope && ReadOf(data, false).status != MalformedEnvelope
    ensures ReadOf(data, false).status != ByteCountMismatch
  {
  }
}
