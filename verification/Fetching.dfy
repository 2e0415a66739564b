/** What a request for a key ends with, by what comes back for it. */
module Fetching {
  import opened Common
  import opened Endpoints
  import opened Protocol
  import opened Schedule
  import opened Verdict

  /** The content of a response: too long to be a key, no JSON object, or an object. */
  datatype Content = TooLong | NoObject | Object(body: Body)

  /** What the transport brings: nothing, a refusal by its code, or content. */
  datatype Received = NoResponse | Refusal(code: int) | Content(content: Content)

  /** The keys that are told apart as unreachable and as badly served. */
  function ReplyTo(readable: Pem -> bool, received: Received): Reply {
    match received
    case NoResponse => Unanswered(Failed(KeyUnavailable))
    case Refusal(_) => Unanswered(Failed(KeyUnavailable))
    case Content(TooLong) => Unanswered(Failed(KeyUnavailable))
    case Content(NoObject) => Unanswered(Failed(InvalidKey))
    case Content(Object(body)) =>
      match ClientReads(readable, body)
      case Read(pem, start, end) => Replied(pem, start, end)
      case Unreadable => Unanswered(Failed(InvalidKey))
  }

  /** An answer a client may take: the one format, a key that can be read, and an end
      only with an earlier start. */
  predicate Acceptable(readable: Pem -> bool, body: Body) {
    && (body.format == None || body.format == Some("spki"))
    && readable(body.pem)
    && match body.validTo
       case None => true
       case Some(to) => body.validFrom.Some? && body.validFrom.value < to
  }

  /** The whole minute a moment falls in, where the count of minutes holds it. */
  predicate CountsAs(moment: Option<Moment>, minute: Option<Minute>) {
    match minute
    case Some(m) => moment.Some? && m * 60_000_000 <= moment.value < (m + 1) * 60_000_000
    case None => moment.None? || moment.value < 0 || moment.value >= 0x1_0000_0000 * 60_000_000
  }

  lemma MinuteIsCounted(moment: Option<Moment>)
    ensures CountsAs(moment, MinutesOrNone(moment))
  {
    if moment.Some? {
      var m := moment.value / MINUTE;
      assert m * MINUTE <= moment.value < (m + 1) * MINUTE;
    }
  }

  /**
   What a client makes of any answer, whoever sent it: it takes exactly the acceptable
   ones, and from them the key and the minutes its moments fall in.
   */
  lemma ClientReadsExactly(readable: Pem -> bool, body: Body)
    ensures var reading := ClientReads(readable, body);
      && (reading.Read? <==> Acceptable(readable, body))
      && (reading.Read? ==>
            reading.pem == body.pem && CountsAs(body.validFrom, reading.start) && CountsAs(body.validTo, reading.end))
  {
    MinuteIsCounted(body.validFrom);
    MinuteIsCounted(body.validTo);
  }

  /** The moment lies within the span the answer states, so far as it states one. */
  predicate Brackets(body: Body, asked: Moment) {
    && (body.validFrom.None? || body.validFrom.value <= asked)
    && (body.validTo.None? || asked < body.validTo.value)
  }

  /**
   What a creator sends, asked about any moment or none: exactly the acceptable
   answers that state a span around the moment. Any other it refuses as a fault.
   */
  lemma CreatorSendsExactly(readable: Pem -> bool, pem: Pem, validFrom: Option<Moment>, validTo: Option<Moment>,
                            asked: Option<Moment>)
    ensures var response := PublicKeyAnswer(readable, pem, validFrom, validTo, asked);
      var body := Body(Some("spki"), pem, WrittenOrNull(validFrom), WrittenOrNull(validTo));
      && (response == Served(body) <==> Acceptable(readable, body) && (asked.Some? ==> Brackets(body, asked.value)))
      && (response != Served(body) ==> response == Raises)
  {
  }

  /**
   How each request ends. A key is learned only from an acceptable answer. An answer
   that is not is a key that cannot be read, and where no answer came, or none of a
   key's size, the key is unavailable.
   */
  lemma ReplyMeans(readable: Pem -> bool, received: Received)
    ensures var reply := ReplyTo(readable, received);
      var acceptable := received.Content? && received.content.Object? && Acceptable(readable, received.content.body);
      && reply.Possible()
      && (reply.Replied? <==> acceptable)
      && (reply.Replied? ==>
            && reply.pem == received.content.body.pem && readable(reply.pem)
            && CountsAs(received.content.body.validFrom, reply.start)
            && CountsAs(received.content.body.validTo, reply.end))
      && (reply == Unanswered(Failed(InvalidKey)) <==>
            received.Content? && !received.content.TooLong? && !acceptable)
      && (reply == Unanswered(Failed(KeyUnavailable)) <==> !received.Content? || received.content.TooLong?)
  {
    if received.Content? && received.content.Object? { ClientReadsExactly(readable, received.content.body); }
  }

  /** A request that brings no acceptable answer holds nothing, and says which it was. */
  lemma NoAnswerHoldsNothing(readable: Pem -> bool, received: Received, s: State, t: nat, now: Clock)
    requires Enabled(s, Settle(t, ReplyTo(readable, received), now))
    requires !(received.Content? && received.content.Object? && Acceptable(readable, received.content.body))
    ensures var s' := Next(s, Settle(t, ReplyTo(readable, received), now));
      && s'.store == s.store
      && s'.tasks[t].phase
         == Settled(Failed(if received.Content? && !received.content.TooLong? then InvalidKey else KeyUnavailable))
  {
    ReplyMeans(readable, received);
  }
}
