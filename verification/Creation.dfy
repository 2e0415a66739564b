/** How a creator signs an OWID into existence, and what becomes of it in transport. */
module Creation {
  import opened Common
  import opened Bytes
  import opened Schedule
  import opened Endpoints
  import opened Wire
  import opened RoundTrip
  import opened Io
  import Base64

  /** A private key: what it signs bytes with, and its public key in PEM form. */
  datatype SigningKey = SigningKey(sign: Buffer -> Buffer, pem: Pem)

  /** The cryptographic library: which PEMs decode, and which signatures they verify. */
  datatype Library = Library(readable: Pem -> bool, verifies: (Pem, Buffer, Buffer) -> bool)

  /** The one law taken from it: what a key signs verifies under that key. */
  ghost predicate Lawful(library: Library, key: SigningKey) {
    && key.pem != "" && library.readable(key.pem)
    && forall data :: |key.sign(data)| == SIGNATURE_LENGTH && library.verifies(key.pem, data, key.sign(data))
  }

  /** Whether the signature is genuine, or why that could not be decided. */
  function StatusUnder(library: Library, owid: Owid, pem: Pem): SignatureStatus {
    if pem == "" then KeyUnavailable
    else if |owid.signature| != SIGNATURE_LENGTH then InvalidSignatureLength
    else if !library.readable(pem) then InvalidKey
    else if SignedBytes(owid).None? then VerificationError
    else if library.verifies(pem, SignedBytes(owid).value, owid.signature) then SignatureValid
    else SignatureInvalid
  }

  /**
   What each status says. Only with a key that can be read, a signature of the right
   length and fields that can be written is the signature judged at all, and then by
   the library, over just those bytes.
   */
  lemma StatusMeans(library: Library, owid: Owid, pem: Pem)
    ensures var status := StatusUnder(library, owid, pem);
      var judged := pem != "" && |owid.signature| == 64 && library.readable(pem);
      && (status == KeyUnavailable <==> pem == "")
      && (status == InvalidSignatureLength <==> pem != "" && |owid.signature| != 64)
      && (status == InvalidKey <==> pem != "" && |owid.signature| == 64 && !library.readable(pem))
      && (status == VerificationError <==> judged && SignedBytes(owid) == None)
      && (status == SignatureValid <==>
            judged && exists data :: SignedBytes(owid) == Some(data) && library.verifies(pem, data, owid.signature))
      && (status == SignatureInvalid <==>
            judged && exists data :: SignedBytes(owid) == Some(data) && !library.verifies(pem, data, owid.signature))
  {
    if SignedBytes(owid).Some? {
      var data := SignedBytes(owid).value;
      assert SignedBytes(owid) == Some(data);
    }
  }

  // ---------------------------------------------------------------- creating

  predicate Blank(domain: string) {
    forall i :: 0 <= i < |domain| ==> Base64.IsSpace(domain[i])
  }

  /** The domains a creator is made for. */
  predicate AcceptsDomain(domain: string) {
    !Blank(domain) && |EncodeUtf8(domain)| <= MAXIMUM_DOMAIN_LENGTH
  }

  /** The OWID before it is signed, dated to the whole minute. */
  function Unsigned(domain: string, payload: Buffer, now: Moment): Owid {
    Owid(DEFAULT_VERSION, domain, now / MINUTE * MINUTE, payload, [])
  }

  /** The OWID created, or nothing where creating it raises. */
  function Created(domain: string, key: SigningKey, payload: Buffer, now: Moment): Option<Owid> {
    var owid := Unsigned(domain, payload, now);
    var data := SignedBytes(owid);
    if data.None? || |key.sign(data.value)| != SIGNATURE_LENGTH then None
    else Some(owid.(signature := key.sign(data.value)))
  }

  /** What is created: the domain and payload given, dated to the minute it was made
      in, and signed by the key over its own bytes. */
  lemma CreatedIs(domain: string, key: SigningKey, payload: Buffer, now: Moment)
    requires Created(domain, key, payload, now).Some?
    ensures var owid := Created(domain, key, payload, now).value;
      && owid.version == Version3 && owid.domain == domain && owid.payload == payload
      && owid.date <= now < owid.date + MINUTE && owid.date % MINUTE == 0
      && |owid.signature| == 64
      && exists data :: SignedBytes(owid) == Some(data) && owid.signature == key.sign(data)
  {
    CreatedSerialises(domain, key, payload, now);
    var owid, unsigned := Created(domain, key, payload, now).value, Unsigned(domain, payload, now);
    assert SignedBytes(owid) == SignedBytes(unsigned);
    assert SignedBytes(owid) == Some(SignedBytes(unsigned).value);
  }

  /** A domain is accepted exactly where it is not blank and, but for a terminator in
      it, can be written. */
  lemma AcceptedCanBeWritten(domain: string)
    ensures AcceptsDomain(domain) <==>
      && (exists c <- domain :: !Base64.IsSpace(c))
      && (0 as char !in domain ==> WrittenDomain(domain).Some?)
      && |EncodeUtf8(domain)| <= 253
  {
    Utf8Length(domain);
    if !Blank(domain) {
      var i :| 0 <= i < |domain| && !Base64.IsSpace(domain[i]);
      assert domain[i] in domain;
    }
  }

  class OwidRecord {
    var version: Version
    var domain: string
    var date: Moment
    var payload: Buffer
    var signature: Buffer

    constructor (payload: Buffer, now: Moment)
      ensures Value() == Owid(DEFAULT_VERSION, "", now, payload, [])
    {
      version, domain, date, this.payload, signature := DEFAULT_VERSION, "", now, payload, [];
    }

    function Value(): Owid
      reads this
    {
      Owid(version, domain, date, payload, signature)
    }
  }

  class Creator {
    const domain: string
    const key: SigningKey

    constructor (domain: string, key: SigningKey)
      requires AcceptsDomain(domain)
      ensures this.domain == domain && this.key == key
    {
      this.domain, this.key := domain, key;
    }

    /** Signs the OWID in place. Where that raises the OWID is left part signed. */
    method Sign(owid: OwidRecord, now: Moment) returns (ok: bool)
      modifies owid
      ensures ok == Created(domain, key, old(owid.payload), now).Some?
      ensures ok ==> Some(owid.Value()) == Created(domain, key, old(owid.payload), now)
    {
      owid.version := DEFAULT_VERSION;
      owid.domain := domain;
      owid.date := now / MINUTE * MINUTE;
      var buffer := new ByteArray();
      ok := buffer.WriteUnsigned(owid.Value());
      if !ok {
        assert SignedBytes(Unsigned(domain, owid.payload, now)).None?;
        return;
      }
      assert [] + SignedBytes(owid.Value()).value == SignedBytes(owid.Value()).value;
      assert SignedBytes(owid.Value()) == SignedBytes(Unsigned(domain, owid.payload, now));
      owid.signature := key.sign(buffer.bytes);
      ok := |owid.signature| == SIGNATURE_LENGTH;
    }

    method Create(payload: Buffer, now: Moment) returns (owid: OwidRecord?)
      ensures (owid != null) == Created(domain, key, payload, now).Some?
      ensures owid != null ==> fresh(owid) && Some(owid.Value()) == Created(domain, key, payload, now)
    {
      var record := new OwidRecord(payload, now);
      var ok := Sign(record, now);
      owid := if ok then record else null;
    }
  }

  /** A creator is made, or refused where its domain could not be read back. */
  method MakeCreator(domain: string, key: SigningKey, canSign: bool) returns (creator: Creator?)
    ensures (creator != null) == (AcceptsDomain(domain) && canSign)
    ensures creator != null ==> fresh(creator) && creator.domain == domain && creator.key == key
  {
    if Blank(domain) { return null; }
    if |EncodeUtf8(domain)| > MAXIMUM_DOMAIN_LENGTH { return null; }
    if !canSign { return null; }
    creator := new Creator(domain, key);
  }

  /**
   What a creator accepted can create. With a date the wire can count and a payload
   it can measure, creating fails exactly where the domain holds the terminator.
   */
  lemma CreatorCreates(domain: string, key: SigningKey, library: Library, payload: Buffer, now: Moment)
    requires AcceptsDomain(domain) && Lawful(library, key)
    requires 0 <= now / MINUTE <= 0xFFFF_FFFF && |payload| <= 0xFFFF_FFFF
    ensures Created(domain, key, payload, now).Some? <==> 0 as char !in domain
  {
    Utf8Length(domain);
    assert now / MINUTE * MINUTE / MINUTE == now / MINUTE;
  }

  /** A domain accepted for a creator that can then create nothing. */
  lemma AcceptedButCannotCreate(key: SigningKey, payload: Buffer, now: Moment)
    ensures AcceptsDomain("a\0") && Created("a\0", key, payload, now).None?
  {
    var domain := "a\0";
    Utf8Length(domain);
    assert domain[0] == 'a' && domain[1] == 0 as char;
    assert !Base64.IsSpace(domain[0]);
    assert 0 in EncodeUtf8(domain);
    assert |EncodeUtf8(domain)| == 2;
  }

  // --------------------------------------------------------------- transport

  lemma CreatedSerialises(domain: string, key: SigningKey, payload: Buffer, now: Moment)
    requires Created(domain, key, payload, now).Some?
    ensures var owid := Created(domain, key, payload, now).value;
      Serialised(owid).Some? && SignedBytes(owid).Some? && owid.date == now / MINUTE * MINUTE
      && owid.date / MINUTE == now / MINUTE && owid.date % MINUTE == 0
  {
    var owid := Unsigned(domain, payload, now);
    assert SignedBytes(owid) == SignedBytes(owid.(signature := key.sign(SignedBytes(owid).value)));
    assert now / MINUTE * MINUTE / MINUTE == now / MINUTE;
    assert now / MINUTE * MINUTE % MINUTE == 0;
  }

  /** The OWID's base 64 text, with any of its padding and white space around it. */
  ghost predicate Carries(carried: string, owid: Owid) {
    Serialised(owid).Some? && exists before, text, padding, after ::
      && carried == before + text + after && Base64.AllSpace(before) && Base64.AllSpace(after)
      && Base64.Encode(Serialised(owid).value) == text + padding && Base64.AllPadding(padding)
  }

  /**
   A created OWID, carried as text with its padding or without, is always read back.
   It is the same OWID, and its signature covers the same bytes as before, exactly
   where its domain is ASCII. Then it verifies under the creator's key.
   */
  lemma CreatedSurvivesTransport(library: Library, key: SigningKey, domain: string, payload: Buffer, now: Moment,
                                 carried: string)
    returns (read: Owid)
    requires Lawful(library, key) && now / MINUTE <= MAXIMUM_MINUTES
    requires Created(domain, key, payload, now).Some? && Carries(carried, Created(domain, key, payload, now).value)
    ensures Base64.ReadOfText(carried).ok && Base64.ReadOfText(carried).owid == Some(read)
    ensures var owid := Created(domain, key, payload, now).value;
      && read == AsRead(owid)
      && (read == owid <==> AsciiText(domain))
      && (SignedBytes(read) == SignedBytes(owid) <==> AsciiText(domain))
    ensures AsciiText(domain) ==> StatusUnder(library, read, key.pem) == SignatureValid
  {
    var owid := Created(domain, key, payload, now).value;
    CreatedSerialises(domain, key, payload, now);
    ReadOfWritten(owid, true);
    var before, text, padding, after :|
      && carried == before + text + after && Base64.AllSpace(before) && Base64.AllSpace(after)
      && Base64.Encode(Serialised(owid).value) == text + padding && Base64.AllPadding(padding);
    Base64.PaddingAndSpaceDoNotMatter(Serialised(owid).value, before, text, padding, after);
    read := AsRead(owid);
    SameAsRead(owid);
    Utf8Length(domain);
    if SignedBytes(read) == SignedBytes(owid) {
      SignedBytesAreUnambiguous(owid, read);
    }
    assert SignedBytes(owid) == SignedBytes(Unsigned(domain, payload, now));
  }

  /** A domain accepted, and created under, that does not survive transport. */
  lemma AccentedDomainIsLost(library: Library, key: SigningKey, payload: Buffer, now: Moment) returns (read: Owid)
    requires Lawful(library, key) && 0 <= now / MINUTE <= MAXIMUM_MINUTES && |payload| <= 0xFFFF_FFFF
    ensures AcceptsDomain("\U{E9}")
    ensures var owid := Created("\U{E9}", key, payload, now);
      && owid.Some? && Serialised(owid.value).Some?
      && Base64.ReadOfText(Base64.Encode(Serialised(owid.value).value)).owid == Some(read) != owid
      && SignedBytes(read) != SignedBytes(owid.value)
  {
    var domain := "\U{E9}";
    Utf8Length(domain);
    assert |EncodeUtf8(domain)| == 2;
    assert domain[0] == '\U{E9}' && !Base64.IsSpace(domain[0]);
    CreatorCreates(domain, key, library, payload, now);
    CreatedSerialises(domain, key, payload, now);
    var owid := Created(domain, key, payload, now).value;
    var text := Base64.Encode(Serialised(owid).value);
    assert text == [] + text + [] && text == text + [];
    assert Carries(text, owid);
    read := CreatedSurvivesTransport(library, key, domain, payload, now, text);
  }
}
