/**
 The safety of the whole system: however callers, requests, outages and clears
 interleave, a genuine identifier is never called a forgery.
 */
module Forgery {
  import opened Common
  import opened KeyStore
  import opened StoreLaws
  import opened Timeline
  import opened Verdict
  import opened Protocol

  /**
   The answer does not misstate the minute asked about: the whole schedule was
   published, whatever the creator's clock read; or the schedule was still growing
   and the creator, in step, answered for the minute.
   */
  ghost predicate FairAnswer(periods: seq<Period>, event: Event)
    requires event.Answered?
  {
    || (exists clock, k :: FromWhole(periods, event, clock, k))
    || (exists creator, k :: InStep(periods, event, creator, k) && AnswersForMinute(periods, event, creator, k))
  }

  /** The creator's clock had reached the minute, or both ends were stated, or the
      key answered with is still in force at the minute. */
  predicate AnswersForMinute(periods: seq<Period>, event: Event, creator: Creator, k: nat)
    requires event.Answered?
  {
    NotAhead(event, creator) || InForce(periods, k, event.url.date.value)
  }

  predicate NotAhead(event: Event, creator: Creator)
    requires event.Answered?
  {
    || event.url.date.None? || creator.clock >= event.url.date.value
    || (event.start.Some? && event.end.Some?)
  }

  /** A request to the end point that ended with an answer was answered by the
      creator of these periods. */
  ghost predicate AnsweredByCreator(periods: seq<Period>, endPoint: EndPoint, s: State, action: Action)
    requires Enabled(s, action)
  {
    action.Settle? && action.reply.Replied? && s.tasks[action.t].url.endPoint == endPoint ==>
      FairAnswer(periods, Learned(s.tasks[action.t].url, action.reply, action.now))
  }

  function Learned(url: Url, reply: Reply, now: Clock): Event
    requires reply.Replied?
  {
    Event.Answered(url, reply.pem, reply.start, reply.end, now)
  }

  ghost predicate RunByCreator(periods: seq<Period>, endPoint: EndPoint, s: State, actions: seq<Action>)
    requires Runs(s, actions)
    decreases actions
  {
    actions != [] ==>
      && AnsweredByCreator(periods, endPoint, s, actions[0])
      && RunByCreator(periods, endPoint, Next(s, actions[0]), actions[1..])
  }

  /** The identifier was signed with the key in force at the minute it carries. */
  ghost predicate Genuine(periods: seq<Period>, subject: Subject) {
    && subject.minute.Some?
    && exists k: nat ::
         InForce(periods, k, subject.minute.value) && subject.judge(periods[k].pem) == SignatureValid
  }

  /** What a request to the end point may end with. */
  ghost predicate Fair(periods: seq<Period>, date: Option<Minute>, outcome: Outcome) {
    match outcome
    case Answered(answer) => exists k :: FairKey(periods, k, date, answer)
    case Failed(status) => status != SignatureInvalid
    case Broken => true
  }

  /** The key answered is in force at the minute named, or says it is not. */
  ghost predicate FairKey(periods: seq<Period>, k: nat, date: Option<Minute>, answer: Answer) {
    && k < |periods| && answer.pem == periods[k].pem
    && (date.Some? && !InForce(periods, k, date.value) ==> answer.known && !answer.Covers(date.value))
  }

  /** Where a genuine identifier's caller may stand: a key that failed on it says
      of itself that it was not in force. */
  ghost predicate Unjudged(minute: Minute, position: Position) {
    match position
    case At(Own, _) => true
    case At(Neighbour(tried, _), _) => tried.known && !tried.Covers(minute)
    case Ended(point) => point != Finished(SignatureInvalid) && !point.Wants?
    case Cancelled => true
  }

  ghost predicate SafeCaller(periods: seq<Period>, endPoint: EndPoint, caller: Caller) {
    caller.subject.endPoint == endPoint && Genuine(periods, caller.subject) ==>
      Unjudged(caller.subject.minute.value, caller.position)
  }

  ghost predicate SafeRequests(periods: seq<Period>, endPoint: EndPoint, s: State) {
    && (forall t :: 0 <= t < |s.tasks| && s.tasks[t].url.endPoint == endPoint && !s.tasks[t].phase.Requesting? ==>
          Fair(periods, s.tasks[t].url.date, s.tasks[t].phase.outcome))
    && (forall f :: 0 <= f < |s.futures| && s.futures[f].url.endPoint == endPoint && s.futures[f].result.Some? ==>
          Fair(periods, s.futures[f].url.date, s.futures[f].result.value))
  }

  ghost predicate SafeStore(periods: seq<Period>, endPoint: EndPoint, store: Store) {
    Sound(store) && Coherent(periods, false, store.Keys(endPoint))
  }

  ghost predicate Safe(periods: seq<Period>, endPoint: EndPoint, s: State) {
    && SafeStore(periods, endPoint, s.store)
    && SafeRequests(periods, endPoint, s)
    && (forall c :: 0 <= c < |s.callers| ==> SafeCaller(periods, endPoint, s.callers[c]))
  }

  /** A key answered from a whole schedule, but not in force, excludes the minute. */
  lemma WholeAnswerIsFair(periods: seq<Period>, i: nat, date: Option<Minute>, answer: Answer)
    requires Proper(periods) && StatesEdges(periods, true, i, answer)
    ensures FairKey(periods, i, date, answer)
  {
  }

  ghost predicate IsFair(periods: seq<Period>, event: Event)
    requires event.Answered?
  {
    Fair(periods, event.url.date, Outcome.Answered(Stated(event.pem, event.start, event.end)))
  }

  /** When the answer of a creator in step, whose schedule may grow, is fair. */
  lemma FairInStep(periods: seq<Period>, event: Event, creator: Creator, k: nat)
    requires Proper(periods) && InStep(periods, event, creator, k)
    ensures IsFair(periods, event) <==> AnswersForMinute(periods, event, creator, k)
  {
    var date, stated := event.url.date, Stated(event.pem, event.start, event.end);
    PublishedIsFinal(periods, creator, k, LookedUp(date, creator.clock));
    if AnswersForMinute(periods, event, creator, k) {
      assert FairKey(periods, k, date, stated);
    }
    if IsFair(periods, event) {
      var i :| FairKey(periods, i, date, stated);
      assert i == k;
    }
  }

  lemma FairAnswerIsFair(periods: seq<Period>, event: Event)
    requires Proper(periods) && event.Answered? && FairAnswer(periods, event)
    ensures Honest(periods, false, event.url.endPoint, event)
    ensures Fair(periods, event.url.date, Outcome.Answered(Stated(event.pem, event.start, event.end)))
  {
    var date, stated := event.url.date, Stated(event.pem, event.start, event.end);
    if clock: int, k: nat :| FromWhole(periods, event, clock, k) {
      AnswerStatesEdges(periods, Creator(|periods|, clock), k, date, event.pem, event.start, event.end);
      WholeAnswerIsFair(periods, k, date, stated);
    } else {
      var creator, k: nat :| InStep(periods, event, creator, k) && AnswersForMinute(periods, event, creator, k);
      FairInStep(periods, event, creator, k);
    }
  }

  lemma ReceivingIsSafe(periods: seq<Period>, subject: Subject, purpose: Purpose, stage: Stage, outcome: Outcome)
    requires Proper(periods) && Genuine(periods, subject)
    requires Fair(periods, Asks(subject, purpose), outcome)
    requires Unjudged(subject.minute.value, At(purpose, stage))
    ensures Unjudged(subject.minute.value, Resume(Receive(subject, purpose, outcome)))
  {
    if purpose.Own? && outcome.Answered? {
      var k: nat :| InForce(periods, k, subject.minute.value) && subject.judge(periods[k].pem) == SignatureValid;
      var i :| FairKey(periods, i, subject.minute, outcome.answer);
      if InForce(periods, i, subject.minute.value) {
        OneInForce(periods, i, k, subject.minute.value);
      }
    }
  }

  /** A caller moved on by an outcome fair for the URL it asked stays safe. */
  lemma CallerStaysSafe(periods: seq<Period>, endPoint: EndPoint, caller: Caller, outcome: Outcome)
    requires Proper(periods) && SafeCaller(periods, endPoint, caller) && caller.position.At?
    requires caller.subject.endPoint == endPoint ==> Fair(periods, caller.AskedUrl().date, outcome)
    ensures SafeCaller(periods, endPoint,
      caller.(position := Resume(Receive(caller.subject, caller.position.purpose, outcome))))
  {
    if caller.subject.endPoint == endPoint && Genuine(periods, caller.subject) {
      ReceivingIsSafe(periods, caller.subject, caller.position.purpose, caller.position.stage, outcome);
    }
  }

  lemma AskingIsSafe(periods: seq<Period>, endPoint: EndPoint, s: State, c: nat, now: Clock)
    requires Proper(periods) && Enabled(s, AskFor(c, now)) && Safe(periods, endPoint, s)
    ensures Safe(periods, endPoint, Next(s, AskFor(c, now)))
  {
    var caller := s.callers[c];
    var url := caller.AskedUrl();
    var hit := HeldFor(s.store, url, now);
    assert SafeCaller(periods, endPoint, caller);
    if hit.Some? {
      if caller.subject.endPoint == endPoint {
        var k := HitIsInForce(periods, false, s.store, url, now);
        assert FairKey(periods, k, url.date, hit.value);
      }
      CallerStaysSafe(periods, endPoint, caller, Outcome.Answered(hit.value));
    }
  }

  lemma DeliveringIsSafe(periods: seq<Period>, endPoint: EndPoint, s: State, owners: seq<Owner>, c: nat)
    requires Proper(periods) && Enabled(s, Deliver(c)) && Owned(s, owners) && Safe(periods, endPoint, s)
    ensures Safe(periods, endPoint, Next(s, Deliver(c)))
  {
    assert Placed(s, owners, c);
    var caller := s.callers[c];
    CallerStaysSafe(periods, endPoint, caller, s.futures[caller.position.stage.shared].result.value);
  }

  lemma SafeStep(periods: seq<Period>, endPoint: EndPoint, s: State, owners: seq<Owner>, action: Action)
    requires Proper(periods) && Enabled(s, action) && Owned(s, owners) && Safe(periods, endPoint, s)
    requires AnsweredByCreator(periods, endPoint, s, action)
    ensures Safe(periods, endPoint, Next(s, action))
  {
    match action
    case AskFor(c, now) => AskingIsSafe(periods, endPoint, s, c, now);
    case Deliver(c) => DeliveringIsSafe(periods, endPoint, s, owners, c);
    case Settle(t, reply, now) => SettlingIsSafe(periods, endPoint, s, t, reply, now);
    case Publish(t) => assert Owns(s, s.tasks[t].shared, owners[s.tasks[t].shared]);
    case Clear => StoreIsAlwaysSound([]);
    case _ =>
  }

  lemma SettlingIsSafe(periods: seq<Period>, endPoint: EndPoint, s: State, t: nat, reply: Reply, now: Clock)
    requires Proper(periods) && Enabled(s, Settle(t, reply, now)) && Safe(periods, endPoint, s)
    requires AnsweredByCreator(periods, endPoint, s, Settle(t, reply, now))
    ensures Safe(periods, endPoint, Next(s, Settle(t, reply, now)))
  {
    if reply.Replied? {
      var event := Learned(s.tasks[t].url, reply, now);
      if event.url.endPoint == endPoint {
        FairAnswerIsFair(periods, event);
      }
      StepKeepsCoherent(periods, false, s.store, endPoint, event);
    }
  }

  lemma {:induction false} RunIsSafe(periods: seq<Period>, endPoint: EndPoint, s: State, owners: seq<Owner>,
                                     actions: seq<Action>)
    requires Proper(periods) && Owned(s, owners) && Safe(periods, endPoint, s)
    requires Runs(s, actions) && RunByCreator(periods, endPoint, s, actions)
    ensures Safe(periods, endPoint, Final(s, actions))
    decreases actions
  {
    if actions != [] {
      SafeStep(periods, endPoint, s, owners, actions[0]);
      StepKeepsOwned(s, owners, actions[0]);
      RunIsSafe(periods, endPoint, Next(s, actions[0]), OwnersAfter(s, owners, actions[0]), actions[1..]);
    }
  }

  /**
   No genuine identifier is called a forgery. Over every run of callers, shared
   requests, outages, cancellations, evictions and clears, whatever the verifier's
   clock reads at each step and whatever other creators answer, no caller checking
   an identifier signed with the key in force at its minute ends with the signature
   called invalid. The creator's clock is free where its schedule is published.
   */
  lemma NoGenuineIdentifierIsCalledForgery(periods: seq<Period>, endPoint: EndPoint, actions: seq<Action>, c: nat)
    requires Proper(periods) && Runs(INITIAL, actions) && RunByCreator(periods, endPoint, INITIAL, actions)
    requires c < |Final(INITIAL, actions).callers|
    requires var subject := Final(INITIAL, actions).callers[c].subject;
      subject.endPoint == endPoint && Genuine(periods, subject)
    ensures Final(INITIAL, actions).callers[c].position != Ended(Finished(SignatureInvalid))
  {
    StoreIsAlwaysSound([]);
    RunIsSafe(periods, endPoint, INITIAL, [], actions);
    assert SafeCaller(periods, endPoint, Final(INITIAL, actions).callers[c]);
  }

  // ------------------------------------------------- the condition is exact

  /** Of the requests to this end point only this answer was ever received. */
  ghost predicate OnlyAnswer(event: Event, s: State, actions: seq<Action>)
    requires Runs(s, actions) && event.Answered?
    decreases actions
  {
    actions != [] ==> AnsweredWith(event, s, actions[0]) && OnlyAnswer(event, Next(s, actions[0]), actions[1..])
  }

  predicate AnsweredWith(event: Event, s: State, action: Action)
    requires Enabled(s, action) && event.Answered?
  {
    action.Settle? && action.reply.Replied? && s.tasks[action.t].url.endPoint == event.url.endPoint ==>
      Learned(s.tasks[action.t].url, action.reply, action.now) == event
  }

  ghost predicate Reaches(event: Event, actions: seq<Action>, s: State)
    requires event.Answered?
  {
    Runs(INITIAL, actions) && OnlyAnswer(event, INITIAL, actions) && Final(INITIAL, actions) == s
  }

  lemma {:induction false} OneMoreStep(event: Event, from: State, actions: seq<Action>, action: Action)
    requires event.Answered? && Runs(from, actions) && OnlyAnswer(event, from, actions)
    requires Enabled(Final(from, actions), action) && AnsweredWith(event, Final(from, actions), action)
    ensures Runs(from, actions + [action]) && OnlyAnswer(event, from, actions + [action])
    ensures Final(from, actions + [action]) == Next(Final(from, actions), action)
    decreases actions
  {
    if actions == [] {
      assert [] + [action] == [action];
      assert Runs(Next(from, action), [action][1..]);
    } else {
      OneMoreStep(event, Next(from, actions[0]), actions[1..], action);
      assert (actions + [action])[1..] == actions[1..] + [action];
    }
  }

  /** The only caller there is stands here, and nothing is under way. */
  ghost predicate Alone(s: State, subject: Subject, position: Position) {
    && s.callers == [Caller(subject, position)] && s.inFlight == map[] && |s.tasks| == |s.futures|
    && (position.At? ==> position.stage.Asking?)
  }

  lemma AskMisses(event: Event, actions: seq<Action>, s: State, subject: Subject, purpose: Purpose, now: Clock)
    returns (after: State)
    requires event.Answered? && Reaches(event, actions, s) && Alone(s, subject, At(purpose, Asking))
    requires HeldFor(s.store, UrlOf(subject, purpose), now).None?
    ensures var url, f := UrlOf(subject, purpose), |s.futures|;
      && Reaches(event, actions + [AskFor(0, now)] + [Spawn(0)], after)
      && after == State(s.store, map[url := f], s.futures + [Future(url, None)],
                        s.tasks + [Task(url, f, Requesting)], [Caller(subject, At(purpose, Waiting(f)))], s.clears)
  {
    OneMoreStep(event, INITIAL, actions, AskFor(0, now));
    OneMoreStep(event, INITIAL, actions + [AskFor(0, now)], Spawn(0));
    after := Final(INITIAL, actions + [AskFor(0, now)] + [Spawn(0)]);
  }

  lemma ReplyArrives(event: Event, actions: seq<Action>, s: State, t: nat, subject: Subject, purpose: Purpose,
                     reply: Reply, now: Clock) returns (after: State)
    requires event.Answered? && Reaches(event, actions, s) && reply.Possible()
    requires |s.tasks| == |s.futures| == t + 1 && s.callers == [Caller(subject, At(purpose, Waiting(t)))]
    requires s.tasks[t] == Task(UrlOf(subject, purpose), t, Requesting)
    requires s.inFlight == map[UrlOf(subject, purpose) := t]
    requires reply.Replied? ==> Learned(UrlOf(subject, purpose), reply, now) == event
    ensures Reaches(event, actions + [Settle(t, reply, now)] + [Publish(t)] + [Deliver(0)], after)
    ensures Alone(after, subject, Resume(Receive(subject, purpose, reply.Outcome())))
    ensures after.store == Next(s, Settle(t, reply, now)).store
  {
    var settled := actions + [Settle(t, reply, now)];
    OneMoreStep(event, INITIAL, actions, Settle(t, reply, now));
    OneMoreStep(event, INITIAL, settled, Publish(t));
    OneMoreStep(event, INITIAL, settled + [Publish(t)], Deliver(0));
    after := Final(INITIAL, settled + [Publish(t)] + [Deliver(0)]);
  }

  /** One request made and ended, in a run that gives no other answer. */
  lemma OneRound(event: Event, actions: seq<Action>, s: State, subject: Subject, purpose: Purpose, reply: Reply,
                 now: Clock) returns (more: seq<Action>, after: State)
    requires event.Answered? && Reaches(event, actions, s) && Alone(s, subject, At(purpose, Asking))
    requires HeldFor(s.store, UrlOf(subject, purpose), now).None? && reply.Possible()
    requires reply.Replied? ==> Learned(UrlOf(subject, purpose), reply, now) == event
    ensures Reaches(event, more, after)
    ensures Alone(after, subject, Resume(Receive(subject, purpose, reply.Outcome())))
    ensures after.store == if reply.Replied? then Step(s.store, event) else s.store
  {
    var waiting := AskMisses(event, actions, s, subject, purpose, now);
    var asked := actions + [AskFor(0, now)] + [Spawn(0)];
    after := ReplyArrives(event, asked, waiting, |s.futures|, subject, purpose, reply, now);
    more := asked + [Settle(|s.futures|, reply, now)] + [Publish(|s.futures|)] + [Deliver(0)];
  }

  /** What an unfair answer is: the key of a period already over, which does not say so. */
  lemma UnfairAnswerIsOutdated(periods: seq<Period>, event: Event) returns (k: nat, j: nat)
    requires Proper(periods) && event.Answered? && Honest(periods, false, event.url.endPoint, event)
    requires !FairAnswer(periods, event)
    ensures event.url.date.Some? && InForce(periods, j, event.url.date.value)
    ensures k < |periods| && event.pem == periods[k].pem != periods[j].pem
    ensures event.start.Some? ==> event.end.None? && event.start.value <= event.url.date.value
  {
    var creator, i: nat :| InStep(periods, event, creator, i);
    k := i;
    assert !AnswersForMinute(periods, event, creator, k);
    PublishedIsFinal(periods, creator, k, LookedUp(event.url.date, creator.clock));
    j := LaterInForce(periods, k, event.url.date.value);
  }

  lemma {:induction false} LaterInForce(periods: seq<Period>, k: nat, minute: int) returns (j: nat)
    requires k < |periods| && periods[k].start <= minute
    ensures k <= j && InForce(periods, j, minute)
    decreases |periods| - k
  {
    if k + 1 < |periods| && periods[k + 1].start <= minute {
      j := LaterInForce(periods, k + 1, minute);
    } else {
      j := k;
    }
  }

  function OnlyKey(pem: Pem): Pem -> SignatureStatus {
    p => if p == pem then SignatureValid else SignatureInvalid
  }

  /** The minute before the span is not served from what the answer leaves behind. */
  lemma BeforeTheSpanMisses(event: Event, minute: Minute, now: Clock)
    requires event.Answered? && event.start.Some? && event.end.None? && minute < event.start.value
    ensures HeldFor(Step(EMPTY, event), Url(event.url.endPoint, Some(minute)), now).None?
  {
    AnswerIsServedAgain(EMPTY, event.url, event.pem, event.start, event.end, event.now, minute, now);
  }

  /** The identifier judged by the answer, and nothing learned before its span. */
  lemma MisjudgedByAnswer(event: Event, subject: Subject, stated: Answer)
    requires event.Answered? && event.url == UrlOf(subject, Own) && subject.minute.Some?
    requires stated == Stated(event.pem, event.start, event.end) && subject.judge(event.pem) == SignatureInvalid
    requires event.start.Some? ==> event.end.None? && event.start.value <= subject.minute.value
    ensures var point := Receive(subject, Own, Outcome.Answered(stated));
      || point == Finished(SignatureInvalid)
      || (event.start.Some? && event.start.value > 0
          && point == Wants(Neighbour(stated, [event.start.value - 1])))
    ensures event.start.Some? && event.start.value > 0 ==>
      Receive(subject, Neighbour(stated, [event.start.value - 1]), Failed(KeyUnavailable)) == Finished(SignatureInvalid)
  {
    var todo := Beyond(subject.minute.value, stated);
    assert todo == [] || (event.start.Some? && event.start.value > 0 && todo == [event.start.value - 1]);
  }

  /**
   The other half. An honest answer that is not fair misleads by itself: a run in
   which it is the only answer ends with a genuine identifier called a forgery.
   */
  lemma UnfairAnswerMakesForgery(periods: seq<Period>, event: Event) returns (subject: Subject, actions: seq<Action>)
    requires Proper(periods) && event.Answered? && Honest(periods, false, event.url.endPoint, event)
    requires !FairAnswer(periods, event)
    ensures subject.endPoint == event.url.endPoint && Genuine(periods, subject)
    ensures Runs(INITIAL, actions) && OnlyAnswer(event, INITIAL, actions)
    ensures Final(INITIAL, actions).callers == [Caller(subject, Ended(Finished(SignatureInvalid)))]
  {
    var k, j := UnfairAnswerIsOutdated(periods, event);
    subject := Subject(event.url.endPoint, event.url.date, OnlyKey(periods[j].pem));
    var stated, reply := Stated(event.pem, event.start, event.end), Replied(event.pem, event.start, event.end);
    assert event.url == UrlOf(subject, Own);
    OneMoreStep(event, INITIAL, [], Arrive(subject));
    var more, after := OneRound(event, [] + [Arrive(subject)], Next(INITIAL, Arrive(subject)), subject, Own, reply,
                                event.now);
    actions := more;
    MisjudgedByAnswer(event, subject, stated);
    if Receive(subject, Own, Outcome.Answered(stated)) != Finished(SignatureInvalid) {
      var before: Minute := event.start.value - 1;
      BeforeTheSpanMisses(event, before, event.now);
      actions, after := OneRound(event, more, after, subject, Neighbour(stated, [before]),
                                 Unanswered(Failed(KeyUnavailable)), event.now);
    }
  }

  /** The run calls a genuine identifier of this end point a forgery. */
  ghost predicate Misjudges(periods: seq<Period>, endPoint: EndPoint, actions: seq<Action>, c: nat)
    requires Runs(INITIAL, actions)
  {
    var callers := Final(INITIAL, actions).callers;
    && c < |callers| && callers[c].subject.endPoint == endPoint && Genuine(periods, callers[c].subject)
    && callers[c].position == Ended(Finished(SignatureInvalid))
  }

  lemma {:induction false} OnlyAnswerByCreator(periods: seq<Period>, event: Event, s: State, actions: seq<Action>)
    requires event.Answered? && FairAnswer(periods, event) && Runs(s, actions) && OnlyAnswer(event, s, actions)
    ensures RunByCreator(periods, event.url.endPoint, s, actions)
    decreases actions
  {
    if actions != [] {
      OnlyAnswerByCreator(periods, event, Next(s, actions[0]), actions[1..]);
    }
  }

  /**
   What is asked of the creator is exact. One answer of a creator in step, given
   again and again or not at all, can make a genuine identifier a forgery in some
   run precisely where it is not fair.
   */
  lemma FairnessIsExact(periods: seq<Period>, event: Event)
    requires Proper(periods) && event.Answered? && Honest(periods, false, event.url.endPoint, event)
    ensures FairAnswer(periods, event) <==>
      forall actions, c: nat | Runs(INITIAL, actions) && OnlyAnswer(event, INITIAL, actions) ::
        !Misjudges(periods, event.url.endPoint, actions, c)
  {
    if FairAnswer(periods, event) {
      forall actions, c: nat | Runs(INITIAL, actions) && OnlyAnswer(event, INITIAL, actions)
        ensures !Misjudges(periods, event.url.endPoint, actions, c)
      {
        OnlyAnswerByCreator(periods, event, INITIAL, actions);
        if Misjudges(periods, event.url.endPoint, actions, c) {
          NoGenuineIdentifierIsCalledForgery(periods, event.url.endPoint, actions, c);
        }
      }
    } else {
      var subject, actions := UnfairAnswerMakesForgery(periods, event);
      assert Misjudges(periods, event.url.endPoint, actions, 0);
    }
  }

  /**
   A creator six minutes behind, with no end published, answers for a minute just
   past the change of key. That answer alone makes a genuine identifier a forgery.
   */
  lemma CreatorBehindMakesForgery() returns (subject: Subject, actions: seq<Action>)
    ensures var periods := [Period(0, "a"), Period(1000, "b")];
      var event := Event.Answered(Url("e", Some(1001)), "a", Some(0), None, 1001);
      && Proper(periods) && InStep(periods, event, Creator(1, 995), 0)
      && Genuine(periods, subject) && Runs(INITIAL, actions) && OnlyAnswer(event, INITIAL, actions)
      && Final(INITIAL, actions).callers == [Caller(subject, Ended(Finished(SignatureInvalid)))]
  {
    var periods := [Period(0, "a"), Period(1000, "b")];
    var event := Event.Answered(Url("e", Some(1001)), "a", Some(0), None, 1001);
    assert periods[..1] == [Period(0, "a")];
    assert InStep(periods, event, Creator(1, 995), 0);
    FairInStep(periods, event, Creator(1, 995), 0);
    if FairAnswer(periods, event) { FairAnswerIsFair(periods, event); }
    subject, actions := UnfairAnswerMakesForgery(periods, event);
  }
}
