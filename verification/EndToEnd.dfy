/**
 The two ends joined: what a verifier's requests bring when the creator answers
 through its public key end point, and the safety of the whole exchange.
 */
module EndToEnd {
  import opened Common
  import opened KeyStore
  import opened Timeline
  import opened Verdict
  import opened Protocol
  import opened Forgery
  import opened Histories
  import opened Judgement
  import S = Schedule
  import opened Endpoints
  import opened Bytes
  import opened RoundTrip
  import Base64
  import C = Creation
  import Fetching
  import Requests
  import W = Wire

  /** A schedule as a creator supplies it, in any order: one key for a start and one
      start for a key, every start a whole minute at or after 2020-01-01. */
  ghost predicate WellKept(supplied: seq<S.DatedKey>) {
    WholeMinutes(supplied) && S.Distinct(supplied)
  }

  /** The schedule as it is held, sorted. */
  ghost predicate InOrder(keys: seq<S.DatedKey>) {
    && WholeMinutes(keys)
    && forall i, j :: 0 <= i < j < |keys| ==>
         keys[i].startsAt < keys[j].startsAt && keys[i].pem != keys[j].pem
  }

  lemma HeldInOrder(supplied: seq<S.DatedKey>)
    requires WellKept(supplied)
    ensures InOrder(S.StableSort(supplied))
  {
    var keys := S.StableSort(supplied);
    S.SortIsStable(supplied, 0);
    S.SortKeepsDistinct(supplied);
    assert forall key :: key in keys <==> key in multiset(supplied);
    forall i, j | 0 <= i < j < |keys|
      ensures keys[i].startsAt < keys[j].startsAt && keys[i].pem != keys[j].pem
    {
      assert S.Apart(keys[i], keys[j]);
    }
  }

  function PeriodsOf(keys: seq<S.DatedKey>): (periods: seq<Period>)
    ensures |periods| == |keys|
    ensures forall i :: 0 <= i < |keys| ==> periods[i] == Period(keys[i].startsAt / MINUTE, keys[i].pem)
  {
    seq(|keys|, i requires 0 <= i < |keys| => Period(keys[i].startsAt / MINUTE, keys[i].pem))
  }

  /** The creator's response as it is received. A fault is a server error. */
  function AsReceived(response: Response): Fetching.Received {
    match response
    case Served(body) => Fetching.Content(Fetching.Object(body))
    case NotFound => Fetching.Refusal(404)
    case BadRequest => Fetching.Refusal(400)
    case Raises => Fetching.Refusal(500)
  }

  /** How a request for the URL ends when the creator of this schedule answers it. */
  function Fetched(readable: Pem -> bool, keys: seq<S.DatedKey>, url: Url, now: S.Moment): Reply {
    Fetching.ReplyTo(readable, AsReceived(ResponseAt(readable, keys, Some(SPKI), url.date, now)))
  }

  /** A creator's own end point never serves a key a client calls unreadable: a request
      to it brings a key exactly where it has one to send, and else none is available. */
  lemma EndPointServesOrHasNone(readable: Pem -> bool, keys: seq<S.DatedKey>, url: Url, now: S.Moment)
    ensures var reply := Fetched(readable, keys, url, now);
      if ResponseAt(readable, keys, Some(SPKI), url.date, now).Served? then reply.Replied?
      else reply == Unanswered(Failed(KeyUnavailable))
  {
    var response := ResponseAt(readable, keys, Some(SPKI), url.date, now);
    if response.Served? { ClientNeverRefusesServed(readable, keys, Some(SPKI), url.date, now); }
  }

  lemma PeriodsAreProper(keys: seq<S.DatedKey>)
    requires InOrder(keys)
    ensures Proper(PeriodsOf(keys))
  {
    forall i, j | 0 <= i < j < |keys|
      ensures keys[i].startsAt / MINUTE < keys[j].startsAt / MINUTE
    {
      assert keys[j] in keys;
      MinuteArithmetic(keys[j].startsAt, keys[i].startsAt);
    }
  }

  /** The schedule's choice at a moment is the period in force at its minute. */
  lemma ChoiceIsInForce(keys: seq<S.DatedKey>, at: S.Moment) returns (k: nat)
    requires InOrder(keys) && S.InForce(keys, at).Some?
    ensures k < |keys| && S.InForce(keys, at) == Some(keys[k])
    ensures InForce(PeriodsOf(keys), k, at / MINUTE)
    ensures S.NextStartAfter(keys, keys[k].startsAt)
            == if k + 1 < |keys| then Some(keys[k + 1].startsAt) else None
  {
    k := S.InForceIsLatest(keys, at);
    assert keys[k] in keys;
    MinuteArithmetic(keys[k].startsAt, at);
    NextStartIsNextKey(keys, k);
    if k + 1 < |keys| {
      assert keys[k + 1] in keys;
      MinuteArithmetic(keys[k + 1].startsAt, at);
    }
  }

  lemma NextStartIsNextKey(keys: seq<S.DatedKey>, k: nat)
    requires InOrder(keys) && k < |keys|
    ensures S.NextStartAfter(keys, keys[k].startsAt)
            == if k + 1 < |keys| then Some(keys[k + 1].startsAt) else None
  {
    forall n | 0 <= n < |keys|
      ensures keys[n].startsAt > keys[k].startsAt <==> n > k
      ensures n > k ==> keys[k + 1].startsAt <= keys[n].startsAt
    {
      assert n < k ==> keys[n].startsAt < keys[k].startsAt;
      assert n > k + 1 ==> keys[k + 1].startsAt < keys[n].startsAt;
    }
    assert k + 1 < |keys| ==> keys[k + 1] in keys;
  }

  lemma AskedMinute(date: Option<Minute>, now: S.Moment)
    requires now / MINUTE <= MAXIMUM_MINUTES
    ensures var asked := if date.Some? then AskedAbout(date.value, now) else now;
      asked / MINUTE == LookedUp(date, now / MINUTE)
  {
    if date.Some? {
      var at := date.value * MINUTE;
      assert at / MINUTE == date.value;
      MinuteArithmetic(at, now);
      assert at > now || now / MINUTE >= date.value;
    }
  }

  /** What is fetched is read from the key chosen and the start of the next. */
  lemma FetchedReadsBack(readable: Pem -> bool, keys: seq<S.DatedKey>, url: Url, now: S.Moment)
    returns (k: nat, asked: S.Moment)
    requires InOrder(keys) && now / MINUTE <= MAXIMUM_MINUTES
    requires Fetched(readable, keys, url, now).Replied?
    ensures asked / MINUTE == LookedUp(url.date, now / MINUTE)
    ensures k < |keys| && InForce(PeriodsOf(keys), k, asked / MINUTE)
    ensures Fetched(readable, keys, url, now)
            == Replied(keys[k].pem, MinutesOrNone(Some(Written(keys[k].startsAt))),
                       MinutesOrNone(if k + 1 < |keys| then Some(Written(keys[k + 1].startsAt)) else None))
  {
    asked := if url.date.Some? then AskedAbout(url.date.value, now) else now;
    AskedMinute(url.date, now);
    k := ChoiceIsInForce(keys, asked);
  }

  lemma StartIsCounted(keys: seq<S.DatedKey>, k: nat)
    requires InOrder(keys) && k < |keys|
    ensures MinutesOrNone(Some(Written(keys[k].startsAt))) == Timeline.Counted(keys[k].startsAt / MINUTE)
    ensures Timeline.Counted(keys[k].startsAt / MINUTE).Some?
  {
    assert keys[k] in keys;
    StartReadsBack(keys, keys[k].startsAt, 0);
  }

  lemma ReadFromWhole(readable: Pem -> bool, keys: seq<S.DatedKey>, url: Url, now: S.Moment, client: Clock)
    requires InOrder(keys) && now / MINUTE <= MAXIMUM_MINUTES
    requires Fetched(readable, keys, url, now).Replied?
    ensures var learned := Learned(url, Fetched(readable, keys, url, now), client);
      exists k :: FromWhole(PeriodsOf(keys), learned, now / MINUTE, k)
  {
    var periods := PeriodsOf(keys);
    var k, asked := FetchedReadsBack(readable, keys, url, now);
    StartIsCounted(keys, k);
    if k + 1 < |keys| {
      StartIsCounted(keys, k + 1);
    }
    assert periods[..|periods|] == periods;
    assert FromWhole(periods, Learned(url, Fetched(readable, keys, url, now), client), now / MINUTE, k);
  }

  /**
   What the end point serves is, to the client, a truthful statement from the whole
   schedule: whatever the creator's clock reads, the key in force at the earlier of
   the minute asked and now, with the minutes of its whole period.
   */
  lemma FetchedIsFromWhole(readable: Pem -> bool, supplied: seq<S.DatedKey>, url: Url, now: S.Moment, client: Clock)
    requires WellKept(supplied) && now / MINUTE <= MAXIMUM_MINUTES
    requires Fetched(readable, S.StableSort(supplied), url, now).Replied?
    ensures var keys := S.StableSort(supplied);
      && Proper(PeriodsOf(keys))
      && exists k :: FromWhole(PeriodsOf(keys), Learned(url, Fetched(readable, keys, url, now), client),
                               now / MINUTE, k)
  {
    HeldInOrder(supplied);
    PeriodsAreProper(S.StableSort(supplied));
    ReadFromWhole(readable, S.StableSort(supplied), url, now, client);
  }

  /** Every request to the end point that ended ended as the creator answers, at
      whatever the creator's clock then read, or in an outage. */
  ghost predicate ServedBySchedule(readable: Pem -> bool, keys: seq<S.DatedKey>, endPoint: EndPoint,
                                   s: State, actions: seq<Action>)
    requires Runs(s, actions)
    decreases actions
  {
    actions != [] ==>
      && AnsweredBySchedule(readable, keys, endPoint, s, actions[0])
      && ServedBySchedule(readable, keys, endPoint, Next(s, actions[0]), actions[1..])
  }

  ghost predicate AnsweredBySchedule(readable: Pem -> bool, keys: seq<S.DatedKey>, endPoint: EndPoint,
                                     s: State, action: Action)
    requires Enabled(s, action)
  {
    action.Settle? && action.reply.Replied? && s.tasks[action.t].url.endPoint == endPoint ==>
      exists now: S.Moment ::
        now / MINUTE <= MAXIMUM_MINUTES && action.reply == Fetched(readable, keys, s.tasks[action.t].url, now)
  }

  lemma {:induction false} ScheduleRunIsByCreator(readable: Pem -> bool, keys: seq<S.DatedKey>, endPoint: EndPoint,
                                                  s: State, actions: seq<Action>)
    requires InOrder(keys) && Runs(s, actions) && ServedBySchedule(readable, keys, endPoint, s, actions)
    ensures RunByCreator(PeriodsOf(keys), endPoint, s, actions)
    decreases actions
  {
    if actions != [] {
      var action := actions[0];
      if action.Settle? && action.reply.Replied? && s.tasks[action.t].url.endPoint == endPoint {
        var url := s.tasks[action.t].url;
        var now: S.Moment :| now / MINUTE <= MAXIMUM_MINUTES && action.reply == Fetched(readable, keys, url, now);
        ReadFromWhole(readable, keys, url, now, action.now);
      }
      ScheduleRunIsByCreator(readable, keys, endPoint, Next(s, action), actions[1..]);
    }
  }

  /** The key supplied that is chosen at a minute is that of the period in force. */
  lemma ChosenPeriod(supplied: seq<S.DatedKey>, minute: Minute) returns (k: nat)
    requires WellKept(supplied) && S.InForce(supplied, minute * MINUTE).Some?
    ensures var periods := PeriodsOf(S.StableSort(supplied));
      InForce(periods, k, minute) && periods[k].pem == S.InForce(supplied, minute * MINUTE).value.pem
  {
    HeldInOrder(supplied);
    S.SortingKeepsInForce(supplied, minute * MINUTE);
    k := ChoiceIsInForce(S.StableSort(supplied), minute * MINUTE);
    assert minute * MINUTE / MINUTE == minute;
  }

  /**
   A creator that answers through its public key end point, from keys supplied to
   its schedule in any order, never has its genuine identifiers called forgeries, by
   any caller in any run, at any reading of either clock.
   */
  lemma EndPointNeverMakesForgeries(readable: Pem -> bool, supplied: seq<S.DatedKey>, endPoint: EndPoint,
                                    actions: seq<Action>, c: nat)
    requires WellKept(supplied) && Runs(INITIAL, actions)
    requires ServedBySchedule(readable, S.StableSort(supplied), endPoint, INITIAL, actions)
    requires c < |Final(INITIAL, actions).callers|
    requires var subject := Final(INITIAL, actions).callers[c].subject;
      && subject.endPoint == endPoint && subject.minute.Some?
      && var key := S.InForce(supplied, subject.minute.value * MINUTE);
      && key.Some? && subject.judge(key.value.pem) == SignatureValid
    ensures Final(INITIAL, actions).callers[c].position != Ended(Finished(SignatureInvalid))
  {
    var keys := S.StableSort(supplied);
    HeldInOrder(supplied);
    PeriodsAreProper(keys);
    ScheduleRunIsByCreator(readable, keys, endPoint, INITIAL, actions);
    var minute := Final(INITIAL, actions).callers[c].subject.minute.value;
    var k := ChosenPeriod(supplied, minute);
    NoGenuineIdentifierIsCalledForgery(PeriodsOf(keys), endPoint, actions, c);
  }

  // ------------------------------------------------------- without outages

  /** What the schedule lets be taken of its creator, at a clock that has reached the minute. */
  function OnTime(keys: seq<S.DatedKey>, endPoint: EndPoint, minute: Minute): Terms {
    Terms(PeriodsOf(keys), endPoint, minute, minute, true)
  }

  /** The request ended as the creator answers, its clock having reached the minute in
      question where the request is for one near it; or else, elsewhere, in an outage. */
  ghost predicate AnsweredOnTime(readable: Pem -> bool, keys: seq<S.DatedKey>, terms: Terms, s: State, action: Action)
    requires Enabled(s, action)
  {
    action.Settle? && s.tasks[action.t].url.endPoint == terms.endPoint ==>
      var url := s.tasks[action.t].url;
      || (!terms.Near(url.date) && action.reply.Unanswered?)
      || (exists now: S.Moment ::
            && now / MINUTE <= MAXIMUM_MINUTES && (terms.Near(url.date) ==> terms.limit <= now / MINUTE)
            && action.reply == Fetched(readable, keys, url, now))
  }

  ghost predicate ServedOnTime(readable: Pem -> bool, keys: seq<S.DatedKey>, terms: Terms,
                               s: State, actions: seq<Action>)
    requires Runs(s, actions)
    decreases actions
  {
    actions != [] ==>
      && AnsweredOnTime(readable, keys, terms, s, actions[0])
      && ServedOnTime(readable, keys, terms, Next(s, actions[0]), actions[1..])
  }

  lemma WholeMinuteIsWholeSecond(start: S.Moment)
    requires start % MINUTE == 0
    ensures start % SECOND == 0
  {
  }

  ghost predicate AllReadable(readable: Pem -> bool, keys: seq<S.DatedKey>) {
    forall key <- keys :: readable(key.pem)
  }

  /** With readable keys the creator sends an answer unless it has no key. */
  lemma NoReplyMeansNoKey(readable: Pem -> bool, keys: seq<S.DatedKey>, url: Url, now: S.Moment)
    requires InOrder(keys) && AllReadable(readable, keys)
    requires Fetched(readable, keys, url, now).Unanswered?
    ensures Fetched(readable, keys, url, now) == Unanswered(Failed(KeyUnavailable))
    ensures var asked := if url.date.Some? then AskedAbout(url.date.value, now) else now;
      forall key <- keys :: key.startsAt > asked
  {
    forall key | key in keys
      ensures key.startsAt % SECOND == 0
    {
      WholeMinuteIsWholeSecond(key.startsAt);
    }
    CreatorRefusesOwnAnswer(readable, keys, Some(SPKI), url.date, now);
    if ResponseAt(readable, keys, Some(SPKI), url.date, now).Served? {
      ClientNeverRefusesServed(readable, keys, Some(SPKI), url.date, now);
    }
    var i := EndPointAnswers(readable, keys, Some(SPKI), url.date, now);
    var latest := S.InForceIsLatest(keys, if url.date.Some? then AskedAbout(url.date.value, now) else now);
  }

  lemma NoKeyIsKeyless(keys: seq<S.DatedKey>, terms: Terms, url: Url, now: S.Moment)
    requires InOrder(keys) && terms.periods == PeriodsOf(keys) && url.date.Some?
    requires terms.limit <= now / MINUTE <= MAXIMUM_MINUTES
    requires forall key <- keys :: key.startsAt > AskedAbout(url.date.value, now)
    ensures terms.Keyless(url.date)
  {
    var asked := AskedAbout(url.date.value, now);
    AskedMinute(url.date, now);
    forall k: nat | k < |keys|
      ensures terms.periods[k].start > Min(url.date.value, terms.limit)
    {
      assert keys[k] in keys;
      MinuteArithmetic(keys[k].startsAt, asked);
    }
  }

  lemma FetchedKeepsTerms(readable: Pem -> bool, keys: seq<S.DatedKey>, terms: Terms, url: Url, now: S.Moment,
                          client: Clock)
    requires InOrder(keys) && AllReadable(readable, keys)
    requires terms.periods == PeriodsOf(keys) && terms.firm && now / MINUTE <= MAXIMUM_MINUTES
    requires terms.Near(url.date) ==> terms.limit <= now / MINUTE
    ensures terms.PermitsReply(url, Fetched(readable, keys, url, now), client)
  {
    var reply := Fetched(readable, keys, url, now);
    if reply.Replied? {
      ReadFromWhole(readable, keys, url, now, client);
      var k :| FromWhole(terms.periods, Learned(url, reply, client), now / MINUTE, k);
      assert terms.AnsweredBy(Learned(url, reply, client), Creator(|terms.periods|, now / MINUTE), k);
    } else {
      NoReplyMeansNoKey(readable, keys, url, now);
      if terms.Near(url.date) { NoKeyIsKeyless(keys, terms, url, now); }
    }
  }

  lemma {:induction false} OnTimeRunKeepsTerms(readable: Pem -> bool, keys: seq<S.DatedKey>, terms: Terms,
                                               s: State, actions: seq<Action>)
    requires InOrder(keys) && AllReadable(readable, keys)
    requires terms.periods == PeriodsOf(keys) && terms.firm
    requires Runs(s, actions) && ServedOnTime(readable, keys, terms, s, actions)
    ensures terms.KeptBy(s, actions)
    decreases actions
  {
    if actions != [] {
      var action := actions[0];
      if action.Settle? && s.tasks[action.t].url.endPoint == terms.endPoint {
        var url := s.tasks[action.t].url;
        if terms.Near(url.date) || action.reply.Replied? {
          var now: S.Moment :|
            && now / MINUTE <= MAXIMUM_MINUTES && (terms.Near(url.date) ==> terms.limit <= now / MINUTE)
            && action.reply == Fetched(readable, keys, url, now);
          FetchedKeepsTerms(readable, keys, terms, url, now, action.now);
        }
      }
      OnTimeRunKeepsTerms(readable, keys, terms, Next(s, action), actions[1..]);
    }
  }

  lemma SortKeepsReadable(readable: Pem -> bool, supplied: seq<S.DatedKey>)
    requires AllReadable(readable, supplied)
    ensures AllReadable(readable, S.StableSort(supplied))
  {
    S.SortIsStable(supplied, 0);
    assert forall key :: key in S.StableSort(supplied) <==> key in multiset(supplied);
  }

  /**
   And without outages they are found genuine. Where the requests for minutes near
   the identifier's are answered, by a creator whose clock has reached that minute,
   a check that ends ends with the signature valid.
   */
  lemma EndPointMakesGenuineValid(readable: Pem -> bool, supplied: seq<S.DatedKey>, endPoint: EndPoint,
                                  minute: Minute, actions: seq<Action>, c: nat)
    requires WellKept(supplied) && AllReadable(readable, supplied) && Runs(INITIAL, actions)
    requires ServedOnTime(readable, S.StableSort(supplied), OnTime(S.StableSort(supplied), endPoint, minute),
                          INITIAL, actions)
    requires c < |Final(INITIAL, actions).callers|
    requires var subject := Final(INITIAL, actions).callers[c].subject;
      && subject.endPoint == endPoint && subject.minute == Some(minute)
      && var key := S.InForce(supplied, minute * MINUTE);
      && key.Some? && subject.judge(key.value.pem) == SignatureValid
    ensures var position := Final(INITIAL, actions).callers[c].position;
      position.Ended? ==> position == Ended(Finished(SignatureValid))
  {
    var keys := S.StableSort(supplied);
    HeldInOrder(supplied);
    PeriodsAreProper(keys);
    SortKeepsReadable(readable, supplied);
    OnTimeRunKeepsTerms(readable, keys, OnTime(keys, endPoint, minute), INITIAL, actions);
    var k := ChosenPeriod(supplied, minute);
    GenuineIsValidInEveryRun(OnTime(keys, endPoint, minute), actions, c, k);
  }

  /** The creator's answers, at a clock that has reached the minute, keep the terms. */
  lemma AnswersKeepTerms(readable: Pem -> bool, supplied: seq<S.DatedKey>, terms: Terms, now: S.Moment)
    requires WellKept(supplied) && AllReadable(readable, supplied) && terms.firm
    requires terms.periods == PeriodsOf(S.StableSort(supplied)) && terms.limit <= now / MINUTE <= MAXIMUM_MINUTES
    ensures Keeping(terms, url => Fetched(readable, S.StableSort(supplied), url, now))
  {
    var keys := S.StableSort(supplied);
    HeldInOrder(supplied);
    SortKeepsReadable(readable, supplied);
    forall url: Url, client: Clock
      ensures terms.PermitsReply(url, Fetched(readable, keys, url, now), client)
    {
      FetchedKeepsTerms(readable, keys, terms, url, now, client);
    }
  }

  /** And they get there: whatever state such a run has reached, at most fifteen actions,
      the creator answering at one such moment, bring any check on it to valid. */
  lemma EndPointBringsToValid(readable: Pem -> bool, supplied: seq<S.DatedKey>, endPoint: EndPoint,
                              minute: Minute, actions: seq<Action>, c: nat, now: S.Moment, client: Clock)
    returns (more: seq<Action>)
    requires WellKept(supplied) && AllReadable(readable, supplied) && Runs(INITIAL, actions)
    requires ServedOnTime(readable, S.StableSort(supplied), OnTime(S.StableSort(supplied), endPoint, minute),
                          INITIAL, actions)
    requires minute <= now / MINUTE <= MAXIMUM_MINUTES
    requires c < |Final(INITIAL, actions).callers| && !Final(INITIAL, actions).callers[c].position.Cancelled?
    requires var subject := Final(INITIAL, actions).callers[c].subject;
      && subject.endPoint == endPoint && subject.minute == Some(minute)
      && var key := S.InForce(supplied, minute * MINUTE);
      && key.Some? && subject.judge(key.value.pem) == SignatureValid
    ensures var s := Final(INITIAL, actions);
      && |more| <= 15
      && BringsToEnd(url => Fetched(readable, S.StableSort(supplied), url, now), s, more, c)
      && Final(s, more).callers[c].position == Ended(Finished(SignatureValid))
  {
    var keys := S.StableSort(supplied);
    var terms := OnTime(keys, endPoint, minute);
    HeldInOrder(supplied);
    PeriodsAreProper(keys);
    SortKeepsReadable(readable, supplied);
    OnTimeRunKeepsTerms(readable, keys, terms, INITIAL, actions);
    AnswersKeepTerms(readable, supplied, terms, now);
    var k := ChosenPeriod(supplied, minute);
    more := EveryCheckReachesItsVerdict(terms, actions, c, k, url => Fetched(readable, keys, url, now), client);
  }

  /** The checks on an OWID that was read, made at its creator's end point. */
  function SubjectOf(library: C.Library, owid: W.Owid, endPoint: EndPoint): Subject {
    Subject(endPoint, MinutesOrNone(Some(owid.date)), pem => C.StatusUnder(library, owid, pem))
  }

  /** What asking for the status of a signature begins with. */
  datatype Check = Reports(status: SignatureStatus) | Starts(subject: Subject)

  /** An OWID no key URL is made for is reported at once, and any other is checked. */
  function CheckOf(library: C.Library, scheme: string, owid: W.Owid): Check {
    var endPoint := Requests.KeyEndPoint(scheme, owid);
    if endPoint.None? then Reports(KeyUnavailable) else Starts(SubjectOf(library, owid, endPoint.value))
  }

  lemma {:induction false} SameStartsSameChoice(keys: seq<S.DatedKey>, a: S.Moment, b: S.Moment)
    requires forall key <- keys :: key.startsAt <= a <==> key.startsAt <= b
    ensures S.InForce(keys, a) == S.InForce(keys, b)
  {
    if keys != [] {
      assert forall key <- keys[1..] :: key in keys;
      SameStartsSameChoice(keys[1..], a, b);
      assert keys[0] in keys;
    }
  }

  /** The key in force at a moment is the one in force at the start of its minute. */
  lemma ChoiceIsByMinute(keys: seq<S.DatedKey>, at: S.Moment)
    requires WholeMinutes(keys)
    ensures S.InForce(keys, at / MINUTE * MINUTE) == S.InForce(keys, at)
  {
    forall key | key in keys
      ensures key.startsAt <= at <==> key.startsAt <= at / MINUTE * MINUTE
    {
      MinuteArithmetic(key.startsAt, at);
      MinuteArithmetic(key.startsAt, at / MINUTE * MINUTE);
      assert at / MINUTE * MINUTE / MINUTE == at / MINUTE;
    }
    SameStartsSameChoice(keys, at / MINUTE * MINUTE, at);
  }

  /** A domain that is not ASCII reads back as one no key is asked from. */
  lemma UnreadableDomainIsUnusable(domain: string)
    ensures Requests.UsableDomain(domain) ==> AsciiText(domain)
    ensures !AsciiText(domain) ==> !Requests.UsableDomain(DecodeAscii(EncodeUtf8(domain)))
  {
    Utf8Length(domain);
    if !AsciiText(domain) { ReplacedIsUnusable(EncodeUtf8(domain)); }
  }

  lemma ReplacedIsUnusable(encoded: Buffer)
    requires !AllAscii(encoded)
    ensures !Requests.UsableDomain(DecodeAscii(encoded))
  {
    var i :| 0 <= i < |encoded| && encoded[i] >= 128;
    assert !Requests.NamesHost(DecodeAscii(encoded)[i]);
  }

  /** Whether the OWID read back is checked rests on the domain it was created under. */
  lemma CheckAfterTransport(library: C.Library, scheme: string, owid: W.Owid, read: W.Owid)
    requires read == AsRead(owid) && (read == owid <==> AsciiText(owid.domain))
    ensures CheckOf(library, scheme, read) ==
      if Requests.AcceptedScheme(scheme) && Requests.UsableDomain(owid.domain)
      then Starts(SubjectOf(library, owid, Requests.EndPointText(scheme, owid.domain, owid.version)))
      else Reports(KeyUnavailable)
  {
    UnreadableDomainIsUnusable(owid.domain);
  }

  /** An OWID created with the key the creator's own schedule has in force then, under
      this domain, and carried as this text. */
  ghost predicate CreatedAndCarried(key: C.SigningKey, domain: string, payload: Buffer, created: S.Moment,
                                    carried: string, supplied: seq<S.DatedKey>)
  {
    var owid, chosen := C.Created(domain, key, payload, created), S.InForce(supplied, created);
    && owid.Some? && C.Carries(carried, owid.value) && chosen.Some? && chosen.value.pem == key.pem
  }

  /**
   From creation to verdict. An OWID a creator signs with the key its own schedule
   has in force is carried as text in any padding and read back. A signature check
   on it reports that its key is unavailable where its domain is no domain name a key
   is asked from; and else asks the creator's own end point and, in any run against
   it, is never answered that the signature does not match.
   */
  lemma FromCreationToVerdict(library: C.Library, key: C.SigningKey, domain: string, payload: Buffer, created: S.Moment,
                              carried: string, supplied: seq<S.DatedKey>, scheme: string, home: EndPoint,
                              actions: seq<Action>, c: nat)
    requires C.Lawful(library, key) && 0 <= created / MINUTE <= MAXIMUM_MINUTES
    requires CreatedAndCarried(key, domain, payload, created, carried, supplied)
    requires WellKept(supplied)
    requires Runs(INITIAL, actions) && c < |Final(INITIAL, actions).callers|
    requires ServedBySchedule(library.readable, S.StableSort(supplied), home, INITIAL, actions)
    ensures Base64.ReadOfText(carried).owid.Some?
    ensures var check := CheckOf(library, scheme, Base64.ReadOfText(carried).owid.value);
      match check
      case Reports(status) =>
        status == KeyUnavailable && !(Requests.AcceptedScheme(scheme) && Requests.UsableDomain(domain))
      case Starts(subject) =>
        && subject.endPoint == Requests.EndPointText(scheme, domain, W.DEFAULT_VERSION)
        && (home == subject.endPoint && Final(INITIAL, actions).callers[c].subject == subject ==>
              Final(INITIAL, actions).callers[c].position != Ended(Finished(SignatureInvalid)))
  {
    var owid := C.Created(domain, key, payload, created).value;
    var read := C.CreatedSurvivesTransport(library, key, domain, payload, created, carried);
    C.CreatedSerialises(domain, key, payload, created);
    ChoiceIsByMinute(supplied, created);
    CheckAfterTransport(library, scheme, owid, read);
    UnreadableDomainIsUnusable(domain);
    var subject := Final(INITIAL, actions).callers[c].subject;
    if CheckOf(library, scheme, read) == Starts(subject) && subject.endPoint == home {
      EndPointNeverMakesForgeries(library.readable, supplied, home, actions, c);
    }
  }

  /**
   And to VALID. A check on such an OWID begins exactly under a usable domain, and at
   the creator's own end point. With the requests near its minute answered there on
   time it can end only with the signature reported valid.
   */
  lemma FromCreationToValid(library: C.Library, key: C.SigningKey, domain: string, payload: Buffer, created: S.Moment,
                            carried: string, supplied: seq<S.DatedKey>, scheme: string, home: EndPoint,
                            minute: Minute, actions: seq<Action>, c: nat)
    requires C.Lawful(library, key) && minute == created / MINUTE <= MAXIMUM_MINUTES
    requires CreatedAndCarried(key, domain, payload, created, carried, supplied)
    requires WellKept(supplied) && AllReadable(library.readable, supplied)
    requires Runs(INITIAL, actions) && c < |Final(INITIAL, actions).callers|
    requires var keys := S.StableSort(supplied);
      ServedOnTime(library.readable, keys, OnTime(keys, home, minute), INITIAL, actions)
    ensures Base64.ReadOfText(carried).owid.Some?
    ensures var check := CheckOf(library, scheme, Base64.ReadOfText(carried).owid.value);
      var caller := Final(INITIAL, actions).callers[c];
      && (check.Starts? <==> Requests.AcceptedScheme(scheme) && Requests.UsableDomain(domain))
      && (check.Starts? ==> check.subject.endPoint == Requests.EndPointText(scheme, domain, W.DEFAULT_VERSION))
      && (check == Starts(caller.subject) && home == caller.subject.endPoint && caller.position.Ended? ==>
            caller.position == Ended(Finished(SignatureValid)))
  {
    var owid := C.Created(domain, key, payload, created).value;
    var read := C.CreatedSurvivesTransport(library, key, domain, payload, created, carried);
    C.CreatedSerialises(domain, key, payload, created);
    ChoiceIsByMinute(supplied, created);
    CheckAfterTransport(library, scheme, owid, read);
    UnreadableDomainIsUnusable(domain);
    var subject := Final(INITIAL, actions).callers[c].subject;
    if CheckOf(library, scheme, read) == Starts(subject) && subject.endPoint == home {
      EndPointMakesGenuineValid(library.readable, supplied, home, minute, actions, c);
    }
  }
}
