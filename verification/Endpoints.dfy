/**
 The creator's end of the exchange: the answer its public key end point gives, the
 check both ends apply to an answer, and what a client reads from it.
 */
module Endpoints {
  import opened Common
  import opened Schedule

  const SECOND: int := 1_000_000
  const MINUTE: int := 60 * SECOND

  /** The last minute a datetime reaches, 9999-12-31 23:59. */
  const MAXIMUM_MINUTES: int := 4_197_074_399

  const SPKI: string := "spki"

  /** The JSON object of an answer. Its moments are written to the second. */
  datatype Body = Body(format: Option<string>, pem: Pem, validFrom: Option<Moment>, validTo: Option<Moment>)

  datatype Response =
    | Served(body: Body)     // 200
    | NotFound               // 404
    | BadRequest             // 400
    | Raises                 // a fault in the schedule, reported as a server error

  /** The moment as the answer's text carries it: without its fraction of a second. */
  function Written(moment: Moment): Moment {
    moment / SECOND * SECOND
  }

  function WrittenOrNull(moment: Option<Moment>): Option<Moment> {
    if moment.None? then None else Some(Written(moment.value))
  }

  /** The check a creator and a client both make, the moment asked where it is known. */
  predicate ValidAnswer(readable: Pem -> bool, body: Body, asked: Option<Moment>) {
    && (body.format.Some? ==> body.format.value == SPKI)
    && readable(body.pem)
    && (body.validTo.Some? ==> body.validFrom.Some? && body.validFrom.value < body.validTo.value)
    && (asked.Some? && body.validFrom.Some? ==> body.validFrom.value <= asked.value)
    && (asked.Some? && body.validTo.Some? ==> asked.value < body.validTo.value)
  }

  function PublicKeyAnswer(readable: Pem -> bool, pem: Pem, validFrom: Option<Moment>, validTo: Option<Moment>,
                           asked: Option<Moment>): Response
  {
    var body := Body(Some(SPKI), pem, WrittenOrNull(validFrom), WrittenOrNull(validTo));
    if ValidAnswer(readable, body, asked) then Served(body) else Raises
  }

  /** The moment looked up for a date parameter of minutes, never later than now. */
  function AskedAbout(minutes: int, now: Moment): Moment {
    var asked := if minutes <= MAXIMUM_MINUTES then minutes * MINUTE else now;
    if asked > now then now else asked
  }

  /** `keys` is the schedule, `date` the date parameter where there is one. */
  function ResponseAt(readable: Pem -> bool, keys: seq<DatedKey>, format: Option<string>, date: Option<int>,
                      now: Moment): Response
  {
    if format.Some? && format.value != SPKI then BadRequest
    else if date.Some? && !(0 <= date.value <= 0xFFFF_FFFF) then BadRequest
    else
      var asked := if date.Some? then AskedAbout(date.value, now) else now;
      var key := InForce(keys, asked);
      if key.None? then NotFound
      else PublicKeyAnswer(readable, key.value.pem, Some(key.value.startsAt),
                           NextStartAfter(keys, key.value.startsAt), Some(asked))
  }

  /** The earlier of the minute named and now. A minute no datetime reaches is later. */
  function EarlierOf(date: Option<int>, now: Moment): Moment {
    if date.None? || date.value > MAXIMUM_MINUTES then now else Min(date.value * MINUTE, now)
  }

  /** The start of key j is the first after that of key i. */
  ghost predicate IsNextStart(keys: seq<DatedKey>, i: nat, j: nat) {
    && i < |keys| && j < |keys| && keys[i].startsAt < keys[j].startsAt
    && forall key <- keys :: keys[i].startsAt < key.startsAt ==> keys[j].startsAt <= key.startsAt
  }

  /**
   What the end point answers. Refusals depend on the request alone. Otherwise the
   key is the latest started by the earlier of the minute named and now, so never
   one whose period has not begun, until the first start after its own; and the answer
   brackets that moment.
   */
  lemma EndPointAnswers(readable: Pem -> bool, keys: seq<DatedKey>, format: Option<string>, date: Option<int>,
                        now: Moment)
    returns (i: nat)
    ensures var asked, response := EarlierOf(date, now), ResponseAt(readable, keys, format, date, now);
      match response
      case BadRequest => (format.Some? && format.value != SPKI) || (date.Some? && !(0 <= date.value <= 0xFFFF_FFFF))
      case NotFound => forall key <- keys :: key.startsAt > asked
      case Served(body) =>
        && IsInForce(keys, asked, i) && body.pem == keys[i].pem && keys[i].startsAt <= now
        && body.format == Some(SPKI) && readable(body.pem)
        && body.validFrom == Some(Written(keys[i].startsAt))
        && (body.validTo.None? <==> forall key <- keys :: key.startsAt <= keys[i].startsAt)
        && (body.validTo.Some? ==> asked < body.validTo.value)
        && (body.validTo.Some? ==> exists j: nat ::
              IsNextStart(keys, i, j) && body.validTo == Some(Written(keys[j].startsAt)))
      case Raises => IsInForce(keys, asked, i)
    ensures ResponseAt(readable, keys, format, date, now).BadRequest? <==>
      (format.Some? && format.value != SPKI) || (date.Some? && !(0 <= date.value <= 0xFFFF_FFFF))
  {
    i := InForceIsLatest(keys, EarlierOf(date, now));
    if InForce(keys, EarlierOf(date, now)).Some? {
      var next := NextStartAfter(keys, keys[i].startsAt);
      if next.Some? {
        var j :| 0 <= j < |keys| && keys[j].startsAt == next.value;
        assert IsNextStart(keys, i, j);
      }
    }
  }

  // ----------------------------------------------- the creator's own answer

  lemma WrittenIsNoLater(moment: Moment)
    ensures Written(moment) <= moment < Written(moment) + SECOND
    ensures moment % SECOND == 0 <==> Written(moment) == moment
  {
  }

  /** The moment looked up shares its second with the next key's start. */
  predicate InSecondOfNextStart(keys: seq<DatedKey>, asked: Moment) {
    var key := InForce(keys, asked);
    && key.Some?
    && var next := NextStartAfter(keys, key.value.startsAt);
    && next.Some? && Written(next.value) == Written(asked)
  }

  lemma SameSecond(earlier: Moment, later: Moment)
    requires earlier < later
    ensures Written(later) <= earlier <==> Written(later) == Written(earlier)
  {
    WrittenIsNoLater(earlier);
    WrittenIsNoLater(later);
    assert earlier / SECOND <= later / SECOND;
  }

  /** The answer built from a key chosen passes the check but for that one second. */
  lemma ChosenKeyIsRefused(readable: Pem -> bool, keys: seq<DatedKey>, asked: Moment)
    requires InForce(keys, asked).Some?
    ensures var key := InForce(keys, asked).value;
      var next := NextStartAfter(keys, key.startsAt);
      PublicKeyAnswer(readable, key.pem, Some(key.startsAt), next, Some(asked)).Raises? ==
        (!readable(key.pem) || InSecondOfNextStart(keys, asked))
  {
    var i := InForceIsLatest(keys, asked);
    var key := keys[i];
    assert key in keys;
    WrittenIsNoLater(key.startsAt);
    PeriodsPartitionTime(keys, key, asked);
    var next := NextStartAfter(keys, key.startsAt);
    if next.Some? {
      WrittenIsNoLater(next.value);
      SameSecond(asked, next.value);
      SameSecond(key.startsAt, next.value);
    }
  }

  lemma WholeSecondsAreNotShared(keys: seq<DatedKey>, asked: Moment)
    requires forall key <- keys :: key.startsAt % SECOND == 0
    ensures !InSecondOfNextStart(keys, asked)
  {
    if InForce(keys, asked).Some? {
      var i := InForceIsLatest(keys, asked);
      assert keys[i] in keys;
      PeriodsPartitionTime(keys, keys[i], asked);
      var next := NextStartAfter(keys, keys[i].startsAt);
      if next.Some? {
        WrittenIsNoLater(next.value);
        WrittenIsNoLater(asked);
      }
    }
  }

  /** The key looked up cannot be read. */
  predicate ChosenIsUnreadable(readable: Pem -> bool, keys: seq<DatedKey>, asked: Moment) {
    InForce(keys, asked).Some? && !readable(InForce(keys, asked).value.pem)
  }

  /**
   When a creator refuses its own answer: exactly when the key looked up cannot be
   read, or the moment falls in the same second as the start of the next key; so
   never where the keys are readable and the starts whole seconds.
   */
  lemma CreatorRefusesOwnAnswer(readable: Pem -> bool, keys: seq<DatedKey>, format: Option<string>,
                                date: Option<int>, now: Moment)
    ensures var response := ResponseAt(readable, keys, format, date, now);
      var asked := if date.Some? then AskedAbout(date.value, now) else now;
      response.Raises? <==>
        !response.BadRequest? && (ChosenIsUnreadable(readable, keys, asked) || InSecondOfNextStart(keys, asked))
    ensures (forall key <- keys :: readable(key.pem) && key.startsAt % SECOND == 0) ==>
      !ResponseAt(readable, keys, format, date, now).Raises?
  {
    var asked := if date.Some? then AskedAbout(date.value, now) else now;
    if InForce(keys, asked).Some? {
      ChosenKeyIsRefused(readable, keys, asked);
      var i := InForceIsLatest(keys, asked);
      assert keys[i] in keys;
    }
    if forall key <- keys :: key.startsAt % SECOND == 0 { WholeSecondsAreNotShared(keys, asked); }
  }

  lemma NextAfterLatestBefore(keys: seq<DatedKey>, k: nat, key: DatedKey)
    requires key in keys && IsInForce(keys, key.startsAt - 1, k)
    ensures NextStartAfter(keys, keys[k].startsAt) == Some(key.startsAt)
  {
    forall other | other in keys
      ensures other.startsAt <= keys[k].startsAt || other.startsAt >= key.startsAt
    {
      var n :| 0 <= n < |keys| && keys[n] == other;
    }
  }

  /** Such a moment there is before any start off the whole second but the first. */
  lemma MomentInSecondOf(keys: seq<DatedKey>, i: nat, j: nat) returns (now: Moment)
    requires i < |keys| && j < |keys| && keys[i].startsAt < keys[j].startsAt && keys[j].startsAt % SECOND != 0
    ensures InSecondOfNextStart(keys, now)
  {
    var start := keys[j].startsAt;
    var k := InForceIsLatest(keys, start - 1);
    assert keys[i] in keys && keys[j] in keys;
    now := Max(Written(start), keys[k].startsAt);
    WrittenIsNoLater(start);
    SameSecond(now, start);
    OnlyOneIsInForce(keys, now, k);
    NextAfterLatestBefore(keys, k, keys[j]);
  }

  /**
   Every schedule with a start off the whole second, other than its first, has a
   moment at which its creator refuses its own answer.
   */
  lemma FractionalStartIsRefused(readable: Pem -> bool, keys: seq<DatedKey>, i: nat, j: nat) returns (now: Moment)
    requires forall key <- keys :: readable(key.pem)
    requires i < |keys| && j < |keys| && keys[i].startsAt < keys[j].startsAt && keys[j].startsAt % SECOND != 0
    ensures ResponseAt(readable, keys, None, None, now).Raises?
  {
    now := MomentInSecondOf(keys, i, j);
    CreatorRefusesOwnAnswer(readable, keys, None, None, now);
  }

  /** One such schedule and moment: the second key starts half way through a second. */
  lemma RefusalAtAnInput(readable: Pem -> bool)
    requires readable("a") && readable("b")
    ensures ResponseAt(readable, [DatedKey(0, "a"), DatedKey(90_500_000, "b")], None, None, 90_200_000).Raises?
  {
    var keys := [DatedKey(0, "a"), DatedKey(90_500_000, "b")];
    OnlyOneIsInForce(keys, 90_200_000, 0);
    assert keys[1] in keys;
    CreatorRefusesOwnAnswer(readable, keys, None, None, 90_200_000);
  }

  // ----------------------------------------------------- what the client reads

  /** Whole minutes since the base date, where the four byte count can hold them. */
  function MinutesSinceBase(moment: Moment): int {
    var minutes := moment / MINUTE;
    if minutes < 0 || minutes > 0xFFFF_FFFF then -1 else minutes
  }

  function MinutesOrNone(moment: Option<Moment>): Option<Minute> {
    if moment.None? || MinutesSinceBase(moment.value) < 0 then None
    else Some(MinutesSinceBase(moment.value))
  }

  /** The key and span a client takes from the body, or nothing where it refuses it. */
  datatype Reading = Read(pem: Pem, start: Option<Minute>, end: Option<Minute>) | Unreadable

  function ClientReads(readable: Pem -> bool, body: Body): Reading {
    if ValidAnswer(readable, body, None)
    then Read(body.pem, MinutesOrNone(body.validFrom), MinutesOrNone(body.validTo))
    else Unreadable
  }

  /** What the creator checks before sending is enough for the client not to refuse. */
  lemma ClientNeverRefusesServed(readable: Pem -> bool, keys: seq<DatedKey>, format: Option<string>,
                                 date: Option<int>, now: Moment)
    requires ResponseAt(readable, keys, format, date, now).Served?
    ensures ClientReads(readable, ResponseAt(readable, keys, format, date, now).body).Read?
  {
  }

  /** The keys start on whole minutes a datetime and the count of minutes can hold. */
  ghost predicate WholeMinutes(keys: seq<DatedKey>) {
    forall key <- keys :: key.startsAt % MINUTE == 0 && 0 <= key.startsAt <= MAXIMUM_MINUTES * MINUTE
  }

  lemma MinuteArithmetic(start: Moment, at: Moment)
    requires start % MINUTE == 0
    ensures Written(start) == start
    ensures start <= at <==> start / MINUTE <= at / MINUTE
  {
    assert start == start / MINUTE * MINUTE;
    assert start == (start / MINUTE * 60) * SECOND;
  }

  /**
   With whole-minute starts, the minutes a client derives from the answer are
   exactly those at which the schedule selects a key with the start served.
   */
  lemma ClientDerivesThePeriod(readable: Pem -> bool, keys: seq<DatedKey>, format: Option<string>,
                               date: Option<int>, now: Moment, minute: Minute)
    requires WholeMinutes(keys) && ResponseAt(readable, keys, format, date, now).Served?
    ensures var asked := if date.Some? then AskedAbout(date.value, now) else now;
      var reading := ClientReads(readable, ResponseAt(readable, keys, format, date, now).body);
      var chosen := InForce(keys, minute * MINUTE);
      && reading.Read? && reading.start.Some?
      && ((reading.start.value <= minute && (reading.end.Some? ==> minute < reading.end.value))
          <==> (chosen.Some? && chosen.value.startsAt == InForce(keys, asked).value.startsAt))
  {
    var asked := if date.Some? then AskedAbout(date.value, now) else now;
    var i := InForceIsLatest(keys, asked);
    var key := InForce(keys, asked).value;
    assert key in keys;
    PeriodsPartitionTime(keys, key, minute * MINUTE);
    StartReadsBack(keys, key.startsAt, minute);
    var next := NextStartAfter(keys, key.startsAt);
    if next.Some? {
      StartReadsBack(keys, next.value, minute);
    }
  }

  lemma StartReadsBack(keys: seq<DatedKey>, start: Moment, minute: Minute)
    requires WholeMinutes(keys) && exists key <- keys :: key.startsAt == start
    ensures Written(start) == start
    ensures MinutesOrNone(Some(start)) == Some(start / MINUTE)
    ensures start <= minute * MINUTE <==> start / MINUTE <= minute
  {
    MinuteArithmetic(start, minute * MINUTE);
    assert minute * MINUTE / MINUTE == minute;
    assert start / MINUTE <= MAXIMUM_MINUTES;
  }
}
