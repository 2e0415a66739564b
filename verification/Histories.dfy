/**
 The protocol machine and the coroutine are one. In every run of the machine each
 caller stands where the coroutine stands after outcomes that came from the store
 or from the creator, so what is proved of the coroutine holds of every run.
 */
module Histories {
  import opened Common
  import opened KeyStore
  import opened StoreLaws
  import opened Timeline
  import opened Verdict
  import opened Protocol
  import opened Forgery

  /**
   What is taken of a creator. It answers honestly, and its clock has reached the
   limit whenever it is asked about a minute near the one in question. A firm one
   has its whole schedule published, states its spans and leaves no request for a
   minute near that one unanswered, but to say that it has no key for it.
   */
  datatype Terms = Terms(periods: seq<Period>, endPoint: EndPoint, minute: Minute, limit: int, firm: bool) {
    predicate Near(date: Option<Minute>) {
      date.Some? && minute - BOUND <= date.value <= minute + BOUND
    }

    /** No key is in force at the minute, or at the limit where that comes before it. */
    ghost predicate Keyless(date: Option<Minute>) {
      date.Some? && forall k: nat :: !InForce(periods, k, Min(date.value, limit))
    }

    ghost predicate AnsweredBy(event: Event, creator: Creator, k: nat) {
      || (!firm && InStep(periods, event, creator, k))
      || (creator.published == |periods| && FromWhole(periods, event, creator.clock, k))
    }

    ghost predicate Timely(event: Event)
      requires event.Answered?
    {
      exists creator, k :: AnsweredBy(event, creator, k) && (Near(event.url.date) ==> creator.clock >= limit)
    }

    ghost predicate PermitsReply(url: Url, reply: Reply, now: Clock) {
      && (reply.Replied? ==> Timely(Learned(url, reply, now)))
      && (firm && Near(url.date) && reply.Unanswered? ==>
            reply.error == Failed(KeyUnavailable) && Keyless(url.date))
    }

    ghost predicate Permit(s: State, action: Action)
      requires Enabled(s, action)
    {
      action.Settle? && s.tasks[action.t].url.endPoint == endPoint ==>
        PermitsReply(s.tasks[action.t].url, action.reply, action.now)
    }

    ghost predicate KeptBy(s: State, actions: seq<Action>)
      requires Runs(s, actions)
      decreases actions
    {
      actions != [] ==> Permit(s, actions[0]) && KeptBy(Next(s, actions[0]), actions[1..])
    }

    /** The outcome came from this source, which keeps the terms. */
    ghost predicate Supplies(url: Url, source: Source, outcome: Outcome) {
      && Delivers(periods, url, source, outcome) && ClockReached(source, limit)
      && (firm ==>
            || (outcome.Answered? && WholeSource(periods, url, source))
            || (outcome == Failed(KeyUnavailable) && Keyless(url.date)))
    }

    ghost predicate Concern(subject: Subject) {
      subject.endPoint == endPoint && subject.minute == Some(minute)
    }
  }

  /** Every outcome was supplied, on these terms, for the URL the coroutine asked. */
  ghost predicate AllSupplied(terms: Terms, subject: Subject, sources: seq<Source>, outcomes: seq<Outcome>) {
    && |sources| == |outcomes|
    && forall i :: 0 <= i < |outcomes| ==> SuppliedAt(terms, subject, sources, outcomes, i)
  }

  ghost predicate SuppliedAt(terms: Terms, subject: Subject, sources: seq<Source>, outcomes: seq<Outcome>, i: nat)
    requires i < |outcomes| == |sources|
  {
    var before := Run(subject, outcomes[..i]);
    before.Wants? && terms.Supplies(UrlOf(subject, before.purpose), sources[i], outcomes[i])
  }

  lemma SuppliedIsDelivered(terms: Terms, subject: Subject, sources: seq<Source>, outcomes: seq<Outcome>)
    requires AllSupplied(terms, subject, sources, outcomes)
    ensures AllDelivered(terms.periods, subject, sources, outcomes)
    ensures forall source <- sources :: ClockReached(source, terms.limit)
  {
    forall i | 0 <= i < |outcomes|
      ensures DeliveredAt(terms.periods, subject, sources, outcomes, i) && ClockReached(sources[i], terms.limit)
    {
      assert SuppliedAt(terms, subject, sources, outcomes, i);
    }
  }

  /** The caller stands where the coroutine does. */
  ghost predicate StandsAt(position: Position, point: Point) {
    match position
    case At(purpose, _) => point == Wants(purpose)
    case Ended(ended) => point == ended && !point.Wants?
    case Cancelled => true
  }

  ghost predicate Follows(terms: Terms, caller: Caller, sources: seq<Source>, outcomes: seq<Outcome>) {
    && AllSupplied(terms, caller.subject, sources, outcomes)
    && StandsAt(caller.position, Run(caller.subject, outcomes))
  }

  ghost predicate FollowsCoroutine(terms: Terms, caller: Caller) {
    terms.Concern(caller.subject) ==> exists sources, outcomes :: Follows(terms, caller, sources, outcomes)
  }

  /** What a request near the minute ended with was supplied by the creator. */
  ghost predicate Backed(terms: Terms, url: Url, outcome: Outcome) {
    url.endPoint == terms.endPoint && terms.Near(url.date) ==>
      exists source :: terms.Supplies(url, source, outcome)
  }

  ghost predicate RequestsBacked(terms: Terms, s: State) {
    && (forall t :: 0 <= t < |s.tasks| && !s.tasks[t].phase.Requesting? ==>
          Backed(terms, s.tasks[t].url, s.tasks[t].phase.outcome))
    && (forall f :: 0 <= f < |s.futures| && s.futures[f].result.Some? ==>
          Backed(terms, s.futures[f].url, s.futures[f].result.value))
  }

  /** The store is what these honest events made of an empty one. */
  ghost predicate MadeBy(terms: Terms, store: Store, events: seq<Event>) {
    && store == After(EMPTY, events)
    && forall event <- events :: Honest(terms.periods, terms.firm, terms.endPoint, event)
  }

  ghost predicate Accounted(terms: Terms, s: State, events: seq<Event>) {
    && MadeBy(terms, s.store, events) && RequestsBacked(terms, s)
    && forall c :: 0 <= c < |s.callers| ==> FollowsCoroutine(terms, s.callers[c])
  }

  // ------------------------------------------------------------------ steps

  lemma {:induction false} AfterOneMore(store: Store, events: seq<Event>, event: Event)
    ensures After(store, events + [event]) == Step(After(store, events), event)
    decreases events
  {
    if events == [] {
      assert [] + [event] == [event];
      assert After(store, [event]) == After(Step(store, event), []);
    } else {
      AfterOneMore(Step(store, events[0]), events[1..], event);
      assert (events + [event])[1..] == events[1..] + [event];
    }
  }

  /** The next purpose of a caller in question names a minute near the one in question. */
  lemma AsksNear(terms: Terms, caller: Caller, sources: seq<Source>, outcomes: seq<Outcome>)
    requires terms.Concern(caller.subject)
    requires Follows(terms, caller, sources, outcomes) && caller.position.At?
    ensures terms.Near(caller.AskedUrl().date)
  {
    SuppliedIsDelivered(terms, caller.subject, sources, outcomes);
    TodoStaysNear(caller.subject, terms.minute, outcomes);
    AtMostTwoNeighbours(caller.subject, outcomes);
    var purpose := caller.position.purpose;
    assert purpose.Neighbour? ==> purpose.todo[0] in purpose.todo;
  }

  lemma SuppliedWithOneMore(terms: Terms, subject: Subject, sources: seq<Source>, outcomes: seq<Outcome>,
                            source: Source, outcome: Outcome)
    requires AllSupplied(terms, subject, sources, outcomes)
    requires var point := Run(subject, outcomes);
      point.Wants? && terms.Supplies(UrlOf(subject, point.purpose), source, outcome)
    ensures AllSupplied(terms, subject, sources + [source], outcomes + [outcome])
  {
    var longer := outcomes + [outcome];
    forall i | 0 <= i < |longer|
      ensures SuppliedAt(terms, subject, sources + [source], longer, i)
    {
      assert longer[..i] == outcomes[..i];
      if i < |outcomes| {
        assert SuppliedAt(terms, subject, sources, outcomes, i);
      } else {
        assert longer[..i] == outcomes;
      }
    }
  }

  /** A caller moved on by an outcome supplied for the URL it asked follows on. */
  lemma ReceivingFollows(terms: Terms, caller: Caller, sources: seq<Source>, outcomes: seq<Outcome>,
                         source: Source, outcome: Outcome)
    requires Follows(terms, caller, sources, outcomes) && caller.position.At?
    requires terms.Supplies(caller.AskedUrl(), source, outcome)
    ensures var moved := Resume(Receive(caller.subject, caller.position.purpose, outcome));
      Follows(terms, caller.(position := moved), sources + [source], outcomes + [outcome])
  {
    SuppliedWithOneMore(terms, caller.subject, sources, outcomes, source, outcome);
    assert (outcomes + [outcome])[..|outcomes|] == outcomes;
  }

  /** A hit supplies the caller from the store. */
  lemma HitSupplies(terms: Terms, store: Store, events: seq<Event>, url: Url, now: Clock)
    requires MadeBy(terms, store, events) && url.endPoint == terms.endPoint && HeldFor(store, url, now).Some?
    ensures terms.Supplies(url, FromStore(events, now), Outcome.Answered(HeldFor(store, url, now).value))
  {
    assert forall event <- events :: Honest(terms.periods, false, url.endPoint, event);
  }

  lemma AskingIsAccounted(terms: Terms, s: State, events: seq<Event>, c: nat, now: Clock)
    requires Enabled(s, AskFor(c, now)) && Accounted(terms, s, events)
    ensures FollowsCoroutine(terms, Next(s, AskFor(c, now)).callers[c])
  {
    var caller := s.callers[c];
    assert FollowsCoroutine(terms, caller);
    if terms.Concern(caller.subject) {
      var sources, outcomes :| Follows(terms, caller, sources, outcomes);
      var hit := HeldFor(s.store, caller.AskedUrl(), now);
      if hit.Some? {
        HitSupplies(terms, s.store, events, caller.AskedUrl(), now);
        ReceivingFollows(terms, caller, sources, outcomes, FromStore(events, now), Outcome.Answered(hit.value));
      } else {
        assert Follows(terms, Next(s, AskFor(c, now)).callers[c], sources, outcomes);
      }
    }
  }

  lemma DeliveringIsAccounted(terms: Terms, s: State, owners: seq<Owner>, events: seq<Event>, c: nat)
    requires Enabled(s, Deliver(c)) && Owned(s, owners) && Accounted(terms, s, events)
    ensures FollowsCoroutine(terms, Next(s, Deliver(c)).callers[c])
  {
    var caller := s.callers[c];
    assert FollowsCoroutine(terms, caller) && Placed(s, owners, c);
    if terms.Concern(caller.subject) {
      var sources, outcomes :| Follows(terms, caller, sources, outcomes);
      AsksNear(terms, caller, sources, outcomes);
      var f := caller.position.stage.shared;
      var outcome := s.futures[f].result.value;
      assert Backed(terms, s.futures[f].url, outcome);
      var source :| terms.Supplies(s.futures[f].url, source, outcome);
      ReceivingFollows(terms, caller, sources, outcomes, source, outcome);
    }
  }

  /** Every other action leaves a caller where the coroutine stands. */
  lemma MovingIsAccounted(terms: Terms, caller: Caller, position: Position)
    requires FollowsCoroutine(terms, caller)
    requires position.Cancelled? || (caller.position.At? && position.At? && position.purpose == caller.position.purpose)
    ensures FollowsCoroutine(terms, caller.(position := position))
  {
    if terms.Concern(caller.subject) {
      var sources, outcomes :| Follows(terms, caller, sources, outcomes);
      assert Follows(terms, caller.(position := position), sources, outcomes);
    }
  }

  lemma ArrivingIsAccounted(terms: Terms, subject: Subject)
    ensures FollowsCoroutine(terms, Caller(subject, At(Own, Asking)))
  {
    assert Follows(terms, Caller(subject, At(Own, Asking)), [], []);
  }

  lemma ReplyIsBacked(terms: Terms, url: Url, reply: Reply, now: Clock)
    requires reply.Possible() && url.endPoint == terms.endPoint
    requires terms.PermitsReply(url, reply, now)
    ensures Backed(terms, url, reply.Outcome())
    ensures reply.Replied? ==> Honest(terms.periods, terms.firm, terms.endPoint, Learned(url, reply, now))
  {
    if reply.Replied? {
      var event := Learned(url, reply, now);
      var creator, k :| terms.AnsweredBy(event, creator, k) && (terms.Near(url.date) ==> creator.clock >= terms.limit);
      var source := FromCreator(creator, k, reply.pem, reply.start, reply.end);
      assert terms.Near(url.date) ==> terms.Supplies(url, source, reply.Outcome());
    } else {
      var source := if reply.error.Failed? then NoAnswer(reply.error.status) else Crash;
      assert terms.Near(url.date) ==> terms.Supplies(url, source, reply.Outcome());
    }
  }

  /** The event an action makes of the store. */
  function EventsAfter(s: State, action: Action, events: seq<Event>): seq<Event>
    requires Enabled(s, action)
  {
    match action
    case Settle(t, reply, now) => if reply.Replied? then events + [Learned(s.tasks[t].url, reply, now)] else events
    case Clear => events + [Cleared]
    case _ => events
  }

  lemma StepIsMadeBy(terms: Terms, s: State, action: Action, events: seq<Event>)
    requires Enabled(s, action) && terms.Permit(s, action) && MadeBy(terms, s.store, events)
    ensures MadeBy(terms, Next(s, action).store, EventsAfter(s, action, events))
  {
    if action.Clear? {
      AfterOneMore(EMPTY, events, Cleared);
    } else if action.Settle? && action.reply.Replied? {
      var url := s.tasks[action.t].url;
      AfterOneMore(EMPTY, events, Learned(url, action.reply, action.now));
      if url.endPoint == terms.endPoint {
        ReplyIsBacked(terms, url, action.reply, action.now);
      }
    }
  }

  lemma StepBacksRequests(terms: Terms, s: State, owners: seq<Owner>, action: Action)
    requires Enabled(s, action) && terms.Permit(s, action) && Owned(s, owners) && RequestsBacked(terms, s)
    ensures RequestsBacked(terms, Next(s, action))
  {
    match action
    case Settle(t, reply, now) =>
      if s.tasks[t].url.endPoint == terms.endPoint {
        ReplyIsBacked(terms, s.tasks[t].url, reply, now);
      }
    case Publish(t) =>
      assert Owns(s, s.tasks[t].shared, owners[s.tasks[t].shared]);
      assert Backed(terms, s.tasks[t].url, s.tasks[t].phase.outcome);
    case _ =>
  }

  lemma CallersFollowOn(terms: Terms, s: State, owners: seq<Owner>, action: Action, events: seq<Event>, c: nat)
    requires Enabled(s, action) && Owned(s, owners) && Accounted(terms, s, events)
    requires c < |Next(s, action).callers|
    ensures FollowsCoroutine(terms, Next(s, action).callers[c])
  {
    if c == |s.callers| {
      ArrivingIsAccounted(terms, action.subject);
    } else {
      assert FollowsCoroutine(terms, s.callers[c]);
      match action
      case AskFor(d, now) => if c == d { AskingIsAccounted(terms, s, events, c, now); }
      case Deliver(d) => if c == d { DeliveringIsAccounted(terms, s, owners, events, c); }
      case Spawn(d) => if c == d { MovingIsAccounted(terms, s.callers[c], Next(s, action).callers[c].position); }
      case Cancel(d) => if c == d { MovingIsAccounted(terms, s.callers[c], Cancelled); }
      case _ =>
    }
  }

  lemma {:induction false} RunIsAccounted(terms: Terms, s: State, owners: seq<Owner>, events: seq<Event>,
                                          actions: seq<Action>) returns (after: seq<Event>)
    requires Owned(s, owners) && Accounted(terms, s, events)
    requires Runs(s, actions) && terms.KeptBy(s, actions)
    ensures Accounted(terms, Final(s, actions), after)
    decreases actions
  {
    if actions == [] { return events; }
    var action := actions[0];
    StepKeepsOwned(s, owners, action);
    StepIsMadeBy(terms, s, action, events);
    StepBacksRequests(terms, s, owners, action);
    forall c | 0 <= c < |Next(s, action).callers|
      ensures FollowsCoroutine(terms, Next(s, action).callers[c])
    {
      CallersFollowOn(terms, s, owners, action, events, c);
    }
    after := RunIsAccounted(terms, Next(s, action), OwnersAfter(s, owners, action),
                            EventsAfter(s, action, events), actions[1..]);
  }

  // ---------------------------------------------------------------- results

  /**
   The machine refines the coroutine. In every run on these terms, a caller in
   question stands where the coroutine stands after outcomes each of which was
   delivered for the URL asked, from the store as some honest history left it or
   by the creator.
   */
  lemma EveryRunIsTheCoroutine(terms: Terms, actions: seq<Action>, c: nat)
    returns (sources: seq<Source>, outcomes: seq<Outcome>)
    requires Runs(INITIAL, actions) && terms.KeptBy(INITIAL, actions)
    requires c < |Final(INITIAL, actions).callers| && terms.Concern(Final(INITIAL, actions).callers[c].subject)
    ensures Follows(terms, Final(INITIAL, actions).callers[c], sources, outcomes)
  {
    var events := RunIsAccounted(terms, INITIAL, [], [], actions);
    assert FollowsCoroutine(terms, Final(INITIAL, actions).callers[c]);
    sources, outcomes :| Follows(terms, Final(INITIAL, actions).callers[c], sources, outcomes);
  }

  /** In every run, a signature reported valid to a caller verifies under a key in
      force within the bound of the minute the identifier carries. */
  lemma ValidIsBoundedInEveryRun(terms: Terms, actions: seq<Action>, c: nat)
    requires Proper(terms.periods) && terms.limit >= terms.minute
    requires Runs(INITIAL, actions) && terms.KeptBy(INITIAL, actions)
    requires c < |Final(INITIAL, actions).callers| && terms.Concern(Final(INITIAL, actions).callers[c].subject)
    ensures var caller := Final(INITIAL, actions).callers[c];
      caller.position == Ended(Finished(SignatureValid)) ==>
        VerifiesNear(terms.periods, caller.subject, terms.minute, BOUND)
  {
    var caller := Final(INITIAL, actions).callers[c];
    var sources, outcomes := EveryRunIsTheCoroutine(terms, actions, c);
    SuppliedIsDelivered(terms, caller.subject, sources, outcomes);
    ValidIsBoundedInTime(terms.periods, caller.subject, terms.minute, sources, outcomes);
  }
}
