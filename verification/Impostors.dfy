/**
 What becomes of a signature no key of its creator verifies: in no run is it called
 valid, and where the creator answers it is called what it is. Creation, Schedule and
 Wire go by the names EndToEnd gives them.
 */
module Impostors {
  import opened Common
  import opened KeyStore
  import opened StoreLaws
  import opened Timeline
  import opened Verdict
  import opened Protocol
  import opened Forgery
  import opened Histories
  import opened Judgement
  import opened EndToEnd
  import opened Endpoints

  /** The requests to the end point are answered by the creator these periods belong to,
      at whatever its clock and the schedule published by then. */
  ghost predicate HonestRun(periods: seq<Period>, endPoint: EndPoint, s: State, actions: seq<Action>)
    requires Runs(s, actions)
    decreases actions
  {
    actions != [] ==>
      && HonestStep(periods, endPoint, s, actions[0])
      && HonestRun(periods, endPoint, Next(s, actions[0]), actions[1..])
  }

  ghost predicate HonestStep(periods: seq<Period>, endPoint: EndPoint, s: State, action: Action)
    requires Enabled(s, action)
  {
    action.Settle? && action.reply.Replied? ==>
      Honest(periods, false, endPoint, Learned(s.tasks[action.t].url, action.reply, action.now))
  }

  /** The signature verifies under some key the creator ever publishes. */
  ghost predicate Signed(periods: seq<Period>, subject: Subject) {
    exists k: nat :: k < |periods| && subject.judge(periods[k].pem) == SignatureValid
  }

  /** The outcome brings a key of the creator's, or says nothing about a signature. */
  ghost predicate Credited(periods: seq<Period>, outcome: Outcome) {
    match outcome
    case Answered(answer) => exists k: nat :: k < |periods| && answer.pem == periods[k].pem
    case Failed(status) => status != SignatureValid
    case Broken => true
  }

  ghost predicate CallerCredited(periods: seq<Period>, endPoint: EndPoint, caller: Caller) {
    caller.subject.endPoint == endPoint && caller.position == Ended(Finished(SignatureValid)) ==>
      Signed(periods, caller.subject)
  }

  ghost predicate RequestsCredited(periods: seq<Period>, endPoint: EndPoint, s: State) {
    && (forall t :: 0 <= t < |s.tasks| && s.tasks[t].url.endPoint == endPoint && !s.tasks[t].phase.Requesting? ==>
          Credited(periods, s.tasks[t].phase.outcome))
    && (forall f :: 0 <= f < |s.futures| && s.futures[f].url.endPoint == endPoint && s.futures[f].result.Some? ==>
          Credited(periods, s.futures[f].result.value))
  }

  ghost predicate AllCredited(periods: seq<Period>, endPoint: EndPoint, s: State) {
    && SafeStore(periods, endPoint, s.store) && RequestsCredited(periods, endPoint, s)
    && (forall c :: 0 <= c < |s.callers| ==> CallerCredited(periods, endPoint, s.callers[c]))
  }

  lemma ReceivingIsCredited(periods: seq<Period>, subject: Subject, purpose: Purpose, outcome: Outcome)
    requires Credited(periods, outcome)
    ensures Receive(subject, purpose, outcome) == Finished(SignatureValid) ==> Signed(periods, subject)
  {
  }

  lemma HonestEventIsCredited(periods: seq<Period>, event: Event)
    requires event.Answered? && Honest(periods, false, event.url.endPoint, event)
    ensures Credited(periods, Outcome.Answered(Stated(event.pem, event.start, event.end)))
  {
    if clock: int, k: nat :| FromWhole(periods, event, clock, k) {
      assert k < |periods| && event.pem == periods[k].pem;
    } else {
      var creator, k: nat :| InStep(periods, event, creator, k);
      assert k < |periods| && event.pem == periods[k].pem;
    }
  }

  lemma AskingIsCredited(periods: seq<Period>, endPoint: EndPoint, s: State, c: nat, now: Clock)
    requires Proper(periods) && Enabled(s, AskFor(c, now)) && AllCredited(periods, endPoint, s)
    ensures AllCredited(periods, endPoint, Next(s, AskFor(c, now)))
  {
    var caller := s.callers[c];
    var url := caller.AskedUrl();
    var hit := HeldFor(s.store, url, now);
    if hit.Some? && url.endPoint == endPoint {
      var k := HitIsInForce(periods, false, s.store, url, now);
      assert k < |periods| && hit.value.pem == periods[k].pem;
      ReceivingIsCredited(periods, caller.subject, caller.position.purpose, Outcome.Answered(hit.value));
    }
  }

  lemma SettlingIsCredited(periods: seq<Period>, endPoint: EndPoint, s: State, t: nat, reply: Reply, now: Clock)
    requires Proper(periods) && Enabled(s, Settle(t, reply, now)) && AllCredited(periods, endPoint, s)
    requires HonestStep(periods, endPoint, s, Settle(t, reply, now))
    ensures AllCredited(periods, endPoint, Next(s, Settle(t, reply, now)))
  {
    if reply.Replied? {
      var event := Learned(s.tasks[t].url, reply, now);
      if event.url.endPoint == endPoint { HonestEventIsCredited(periods, event); }
      StepKeepsCoherent(periods, false, s.store, endPoint, event);
    }
  }

  lemma DeliveringIsCredited(periods: seq<Period>, endPoint: EndPoint, s: State, owners: seq<Owner>, c: nat)
    requires Enabled(s, Deliver(c)) && Owned(s, owners) && AllCredited(periods, endPoint, s)
    ensures AllCredited(periods, endPoint, Next(s, Deliver(c)))
  {
    assert Placed(s, owners, c);
    var caller := s.callers[c];
    if caller.subject.endPoint == endPoint {
      ReceivingIsCredited(periods, caller.subject, caller.position.purpose,
                          s.futures[caller.position.stage.shared].result.value);
    }
  }

  lemma StepIsCredited(periods: seq<Period>, endPoint: EndPoint, s: State, owners: seq<Owner>, action: Action)
    requires Proper(periods) && Enabled(s, action) && Owned(s, owners) && AllCredited(periods, endPoint, s)
    requires HonestStep(periods, endPoint, s, action)
    ensures AllCredited(periods, endPoint, Next(s, action))
  {
    match action
    case AskFor(c, now) => AskingIsCredited(periods, endPoint, s, c, now);
    case Deliver(c) => DeliveringIsCredited(periods, endPoint, s, owners, c);
    case Settle(t, reply, now) => SettlingIsCredited(periods, endPoint, s, t, reply, now);
    case Publish(t) => assert Owns(s, s.tasks[t].shared, owners[s.tasks[t].shared]);
    case Clear => StoreIsAlwaysSound([]);
    case _ =>
  }

  lemma {:induction false} RunIsCredited(periods: seq<Period>, endPoint: EndPoint, s: State, owners: seq<Owner>,
                                         actions: seq<Action>)
    requires Proper(periods) && Owned(s, owners) && AllCredited(periods, endPoint, s)
    requires Runs(s, actions) && HonestRun(periods, endPoint, s, actions)
    ensures AllCredited(periods, endPoint, Final(s, actions))
    decreases actions
  {
    if actions != [] {
      StepIsCredited(periods, endPoint, s, owners, actions[0]);
      StepKeepsOwned(s, owners, actions[0]);
      RunIsCredited(periods, endPoint, Next(s, actions[0]), OwnersAfter(s, owners, actions[0]), actions[1..]);
    }
  }

  /**
   VALID rests on the creator's own keys. In no run against an honest creator, with
   whatever clocks, outages, clears and answers from others, is a signature reported
   valid that none of the keys it ever publishes verifies.
   */
  lemma ValidNeedsACreatorsKey(periods: seq<Period>, endPoint: EndPoint, actions: seq<Action>, c: nat)
    requires Proper(periods) && Runs(INITIAL, actions) && HonestRun(periods, endPoint, INITIAL, actions)
    requires c < |Final(INITIAL, actions).callers| && Final(INITIAL, actions).callers[c].subject.endPoint == endPoint
    ensures Final(INITIAL, actions).callers[c].position == Ended(Finished(SignatureValid)) ==>
      Signed(periods, Final(INITIAL, actions).callers[c].subject)
  {
    StoreIsAlwaysSound([]);
    RunIsCredited(periods, endPoint, INITIAL, [], actions);
    assert CallerCredited(periods, endPoint, Final(INITIAL, actions).callers[c]);
  }

  // ------------------------------------------------- the signature itself

  /** No key of these verifies the OWID's own bytes with its signature. */
  ghost predicate Forged(library: C.Library, owid: W.Owid, pems: set<Pem>) {
    forall pem <- pems, data | W.SignedBytes(owid) == Some(data) :: !library.verifies(pem, data, owid.signature)
  }

  ghost function PemsOf(periods: seq<Period>): set<Pem> {
    set k | 0 <= k < |periods| :: periods[k].pem
  }

  lemma ForgedIsNotSigned(library: C.Library, owid: W.Owid, endPoint: EndPoint, periods: seq<Period>)
    requires Forged(library, owid, PemsOf(periods))
    ensures !Signed(periods, SubjectOf(library, owid, endPoint))
  {
    forall k: nat | k < |periods|
      ensures SubjectOf(library, owid, endPoint).judge(periods[k].pem) != SignatureValid
    {
      C.StatusMeans(library, owid, periods[k].pem);
      assert periods[k].pem in PemsOf(periods);
    }
  }

  /** A forged signature is never called valid, in any run against an honest creator. */
  lemma ForgedIsNeverValid(library: C.Library, owid: W.Owid, periods: seq<Period>, endPoint: EndPoint,
                           actions: seq<Action>, c: nat)
    requires Proper(periods) && Forged(library, owid, PemsOf(periods))
    requires Runs(INITIAL, actions) && HonestRun(periods, endPoint, INITIAL, actions)
    requires c < |Final(INITIAL, actions).callers|
    requires Final(INITIAL, actions).callers[c].subject == SubjectOf(library, owid, endPoint)
    ensures Final(INITIAL, actions).callers[c].position != Ended(Finished(SignatureValid))
  {
    ForgedIsNotSigned(library, owid, endPoint, periods);
    ValidNeedsACreatorsKey(periods, endPoint, actions, c);
  }

  lemma {:induction false} TermsAreHonest(terms: Terms, s: State, actions: seq<Action>)
    requires Runs(s, actions) && terms.KeptBy(s, actions)
    ensures HonestRun(terms.periods, terms.endPoint, s, actions)
    decreases actions
  {
    if actions != [] {
      var action := actions[0];
      if action.Settle? && action.reply.Replied? && s.tasks[action.t].url.endPoint == terms.endPoint {
        var event := Learned(s.tasks[action.t].url, action.reply, action.now);
        var creator, k: nat :| terms.AnsweredBy(event, creator, k);
        assert InStep(terms.periods, event, creator, k) || FromWhole(terms.periods, event, creator.clock, k);
      }
      TermsAreHonest(terms, Next(s, action), actions[1..]);
    }
  }

  /** So on whatever terms, firm or not, and at whatever clock. */
  lemma ForgedIsNeverValidOnTerms(library: C.Library, owid: W.Owid, terms: Terms, actions: seq<Action>, c: nat)
    requires Proper(terms.periods) && Forged(library, owid, PemsOf(terms.periods))
    requires Runs(INITIAL, actions) && terms.KeptBy(INITIAL, actions)
    requires c < |Final(INITIAL, actions).callers|
    requires Final(INITIAL, actions).callers[c].subject == SubjectOf(library, owid, terms.endPoint)
    ensures Final(INITIAL, actions).callers[c].position != Ended(Finished(SignatureValid))
  {
    TermsAreHonest(terms, INITIAL, actions);
    ForgedIsNeverValid(library, owid, terms.periods, terms.endPoint, actions, c);
  }

  lemma {:induction false} ServedIsHonest(readable: Pem -> bool, keys: seq<S.DatedKey>, endPoint: EndPoint,
                                          s: State, actions: seq<Action>)
    requires InOrder(keys) && Runs(s, actions) && ServedBySchedule(readable, keys, endPoint, s, actions)
    ensures HonestRun(PeriodsOf(keys), endPoint, s, actions)
    decreases actions
  {
    if actions != [] {
      var action := actions[0];
      if action.Settle? && action.reply.Replied? && s.tasks[action.t].url.endPoint == endPoint {
        var url := s.tasks[action.t].url;
        var now: S.Moment :| now / MINUTE <= MAXIMUM_MINUTES && action.reply == Fetched(readable, keys, url, now);
        ReadFromWhole(readable, keys, url, now, action.now);
      }
      ServedIsHonest(readable, keys, endPoint, Next(s, action), actions[1..]);
    }
  }

  ghost function PemsSupplied(keys: seq<S.DatedKey>): set<Pem> {
    set key <- keys :: key.pem
  }

  lemma PeriodsHavePemsSupplied(supplied: seq<S.DatedKey>)
    ensures PemsOf(PeriodsOf(S.StableSort(supplied))) == PemsSupplied(supplied)
  {
    var keys := S.StableSort(supplied);
    S.SortIsStable(supplied, 0);
    assert forall key :: key in keys <==> key in multiset(supplied);
    forall pem | pem in PemsSupplied(supplied)
      ensures pem in PemsOf(PeriodsOf(keys))
    {
      var key :| key in supplied && key.pem == pem;
      assert key in keys;
      var k :| 0 <= k < |keys| && keys[k] == key;
      assert PeriodsOf(keys)[k].pem == pem;
    }
    forall pem | pem in PemsOf(PeriodsOf(keys))
      ensures pem in PemsSupplied(supplied)
    {
      var k :| 0 <= k < |keys| && PeriodsOf(keys)[k].pem == pem;
      assert keys[k] in keys;
    }
  }

  /** Nor against the creator's end point, at whatever the two clocks read. */
  lemma ForgedIsNeverValidAtEndPoint(library: C.Library, owid: W.Owid, supplied: seq<S.DatedKey>, endPoint: EndPoint,
                                     actions: seq<Action>, c: nat)
    requires WellKept(supplied) && Forged(library, owid, PemsSupplied(supplied)) && Runs(INITIAL, actions)
    requires ServedBySchedule(library.readable, S.StableSort(supplied), endPoint, INITIAL, actions)
    requires c < |Final(INITIAL, actions).callers|
    requires Final(INITIAL, actions).callers[c].subject == SubjectOf(library, owid, endPoint)
    ensures Final(INITIAL, actions).callers[c].position != Ended(Finished(SignatureValid))
  {
    var keys := S.StableSort(supplied);
    HeldInOrder(supplied);
    PeriodsAreProper(keys);
    PeriodsHavePemsSupplied(supplied);
    ServedIsHonest(library.readable, keys, endPoint, INITIAL, actions);
    ForgedIsNeverValid(library, owid, PeriodsOf(keys), endPoint, actions, c);
  }

  // --------------------------------------------------- what it is called instead

  /** What is said of a forged OWID once it has a key: what is wrong with it. */
  predicate ForgedAs(owid: W.Owid, status: SignatureStatus) {
    status == if |owid.signature| != 64 then InvalidSignatureLength
              else if W.SignedBytes(owid).None? then VerificationError else SignatureInvalid
  }

  lemma NoCrossing(periods: seq<Period>, subject: Subject, minute: Minute, k: nat)
    requires k < |periods| && !Signed(periods, subject)
    ensures TrueVerdict(periods, subject, minute, k) == subject.judge(periods[k].pem)
  {
  }

  /**
   And it is called a forgery. Where the requests for minutes near its own are
   answered on time, with readable keys, a check of a forged OWID dated while a key was
   in force ends with the signature not matching, or with what else is wrong with it.
   */
  lemma ForgedIsCalledForged(library: C.Library, owid: W.Owid, supplied: seq<S.DatedKey>, endPoint: EndPoint,
                             minute: Minute, actions: seq<Action>, c: nat)
    requires WellKept(supplied) && AllReadable(library.readable, supplied) && "" !in PemsSupplied(supplied)
    requires Forged(library, owid, PemsSupplied(supplied)) && Runs(INITIAL, actions)
    requires ServedOnTime(library.readable, S.StableSort(supplied), OnTime(S.StableSort(supplied), endPoint, minute),
                          INITIAL, actions)
    requires c < |Final(INITIAL, actions).callers| && owid.date / MINUTE == minute
    requires Final(INITIAL, actions).callers[c].subject == SubjectOf(library, owid, endPoint)
    requires S.InForce(supplied, minute * MINUTE).Some?
    ensures var position := Final(INITIAL, actions).callers[c].position;
      position.Ended? ==> position.point.Finished? && ForgedAs(owid, position.point.status)
  {
    var keys := S.StableSort(supplied);
    var terms := OnTime(keys, endPoint, minute);
    HeldInOrder(supplied);
    PeriodsAreProper(keys);
    SortKeepsReadable(library.readable, supplied);
    PeriodsHavePemsSupplied(supplied);
    OnTimeRunKeepsTerms(library.readable, keys, terms, INITIAL, actions);
    var k := ChosenPeriod(supplied, minute);
    var subject := SubjectOf(library, owid, endPoint);
    ForgedIsNotSigned(library, owid, endPoint, terms.periods);
    VerdictIsExactInEveryRun(terms, actions, c, k);
    NoCrossing(terms.periods, subject, minute, k);
    ForgedUnderKey(library, owid, supplied, keys[k]);
  }

  lemma ForgedUnderKey(library: C.Library, owid: W.Owid, supplied: seq<S.DatedKey>, key: S.DatedKey)
    requires AllReadable(library.readable, supplied) && "" !in PemsSupplied(supplied)
    requires Forged(library, owid, PemsSupplied(supplied)) && key in S.StableSort(supplied)
    ensures ForgedAs(owid, C.StatusUnder(library, owid, key.pem))
  {
    S.SortIsStable(supplied, 0);
    assert key in multiset(S.StableSort(supplied));
    assert key.pem in PemsSupplied(supplied);
    C.StatusMeans(library, owid, key.pem);
  }

  /** An OWID dated before its creator's first key is called neither: its key is
      unavailable, however it was signed. */
  lemma BeforeFirstKeyIsUnavailable(library: C.Library, owid: W.Owid, supplied: seq<S.DatedKey>, endPoint: EndPoint,
                                    minute: Minute, actions: seq<Action>, c: nat)
    requires WellKept(supplied) && AllReadable(library.readable, supplied) && Runs(INITIAL, actions)
    requires ServedOnTime(library.readable, S.StableSort(supplied), OnTime(S.StableSort(supplied), endPoint, minute),
                          INITIAL, actions)
    requires c < |Final(INITIAL, actions).callers| && owid.date / MINUTE == minute
    requires Final(INITIAL, actions).callers[c].subject == SubjectOf(library, owid, endPoint)
    requires forall key <- supplied :: key.startsAt > minute * MINUTE
    ensures var position := Final(INITIAL, actions).callers[c].position;
      position.Ended? ==> position == Ended(Finished(KeyUnavailable))
  {
    var keys := S.StableSort(supplied);
    var terms := OnTime(keys, endPoint, minute);
    HeldInOrder(supplied);
    PeriodsAreProper(keys);
    SortKeepsReadable(library.readable, supplied);
    OnTimeRunKeepsTerms(library.readable, keys, terms, INITIAL, actions);
    NoneInForceBefore(supplied, minute);
    NoKeyIsUnavailableInEveryRun(terms, actions, c);
  }

  lemma StartsLater(start: S.Moment, minute: Minute)
    requires start % MINUTE == 0 && start > minute * MINUTE
    ensures start / MINUTE > minute
  {
    MinuteArithmetic(start, minute * MINUTE);
    assert minute * MINUTE / MINUTE == minute;
  }

  lemma NoneInForceBefore(supplied: seq<S.DatedKey>, minute: Minute)
    requires WellKept(supplied) && forall key <- supplied :: key.startsAt > minute * MINUTE
    ensures forall k: nat :: !InForce(PeriodsOf(S.StableSort(supplied)), k, minute)
  {
    var keys := S.StableSort(supplied);
    S.SortIsStable(supplied, 0);
    assert forall key :: key in keys <==> key in multiset(supplied);
    forall k: nat | k < |keys|
      ensures PeriodsOf(keys)[k].start > minute
    {
      assert keys[k] in keys && keys[k] in supplied;
      StartsLater(keys[k].startsAt, minute);
    }
  }
}
