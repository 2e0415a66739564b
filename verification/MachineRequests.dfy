/**
 What the machine asks of creators: when a caller's asking makes a request at all,
 and how many requests a run makes in which they are made one after another.
 */
module MachineRequests {
  import opened Common
  import opened KeyStore
  import opened StoreLaws
  import opened Timeline
  import opened Verdict
  import opened Protocol
  import opened Forgery
  import opened RequestBound

  // ------------------------------------------------------------ one asking

  lemma {:induction false} RunKeepsSound(s: State, actions: seq<Action>)
    requires Runs(s, actions) && Sound(s.store)
    ensures Sound(Final(s, actions).store)
    decreases actions
  {
    if actions != [] {
      StepKeepsSound(s, actions[0]);
      RunKeepsSound(Next(s, actions[0]), actions[1..]);
    }
  }

  lemma StepKeepsSound(s: State, action: Action)
    requires Enabled(s, action) && Sound(s.store)
    ensures Sound(Next(s, action).store)
  {
    match action
    case Settle(t, reply, now) =>
      if reply.Replied? { StepIsSound(s.store, Learned(s.tasks[t].url, reply, now)); }
    case Clear => StoreIsAlwaysSound([]);
    case _ =>
  }

  /** What a key answers a lookup with: itself, and what was stated of it. */
  predicate AnswersAs(key: Held, answer: Answer) {
    && answer.pem == key.pem && (answer.known <==> States(key))
    && (States(key) ==> answer.first == key.first)
    && (States(key) ==> answer.last == if key.explicit then key.last else LAST_MINUTE)
  }

  /**
   A key held is not asked for. Where some key of the end point serves the minute, a
   caller's asking starts no request, joins none and waits for none: it moves the
   caller on by that key's answer and changes nothing else.
   */
  lemma HeldKeyIsNotAskedFor(actions: seq<Action>, c: nat, now: Clock, key: Held) returns (answer: Answer)
    requires Runs(INITIAL, actions) && Enabled(Final(INITIAL, actions), AskFor(c, now))
    requires var s := Final(INITIAL, actions);
      var url := s.callers[c].AskedUrl();
      key in s.store.Keys(url.endPoint) && url.date.Some? && Serves(key, url.date.value, now)
    ensures AnswersAs(key, answer)
    ensures var s, caller := Final(INITIAL, actions), Final(INITIAL, actions).callers[c];
      var moved := Resume(Receive(caller.subject, caller.position.purpose, Outcome.Answered(answer)));
      Next(s, AskFor(c, now)) == s.(callers := s.callers[c := caller.(position := moved)])
  {
    var s := Final(INITIAL, actions);
    var url := s.callers[c].AskedUrl();
    StoreIsAlwaysSound([]);
    RunKeepsSound(INITIAL, actions);
    SoundIsOrderly(s.store, url.endPoint);
    ServedFrom(s.store.Keys(url.endPoint), url.date.value, now, key);
    answer := StatedFor(key);
  }

  /**
   And only such a key is not. Else the caller awaits the request under way for its
   URL, or, where there is none, leads one that every later caller for it will join.
   */
  lemma KeyNotHeldIsAskedForOnce(s: State, c: nat, now: Clock)
    requires Enabled(s, AskFor(c, now))
    requires var url := s.callers[c].AskedUrl();
      url.date.Some? ==> forall key <- s.store.Keys(url.endPoint) :: !Serves(key, url.date.value, now)
    ensures var s', url, purpose := Next(s, AskFor(c, now)), s.callers[c].AskedUrl(), s.callers[c].position.purpose;
      if url in s.inFlight
      then s' == s.(callers := s.callers[c := s.callers[c].(position := At(purpose, Waiting(s.inFlight[url])))])
      else s' == s.(inFlight := s.inFlight[url := |s.futures|], futures := s.futures + [Future(url, None)],
                    callers := s.callers[c := s.callers[c].(position := At(purpose, Leading(|s.futures|)))])
  {
  }

  // -------------------------------------------------- requests made in turn

  /** No request to the end point is under way as far as the store knows. */
  ghost predicate Quiet(s: State, endPoint: EndPoint) {
    forall url <- s.inFlight :: url.endPoint != endPoint
  }

  ghost predicate OfStatedPeriod(periods: seq<Period>, url: Url) {
    url.date.Some? && HasStatedPeriod(periods, url.date.value)
  }

  /**
   Keys are asked of the end point one after another, each of a minute in a period
   with both ends stated, and its creator answers. Nothing empties the store, whatever
   is asked of other end points in between.
   */
  ghost predicate InTurnAt(periods: seq<Period>, endPoint: EndPoint, s: State, action: Action)
    requires Enabled(s, action)
  {
    match action
    case AskFor(c, _) =>
      var url := s.callers[c].AskedUrl();
      url.endPoint == endPoint ==> Quiet(s, endPoint) && OfStatedPeriod(periods, url)
    case Settle(t, reply, now) =>
      var url := s.tasks[t].url;
      && (reply.Replied? ==> !Overflows(s.store, Learned(url, reply, now)))
      && (url.endPoint == endPoint ==>
            && OfStatedPeriod(periods, url) && reply.Replied?
            && Learned(url, reply, now) == AnswerTo(periods, endPoint, Lookup(url.date.value, now)))
    case Clear => false
    case _ => true
  }

  ghost predicate AllInTurn(periods: seq<Period>, endPoint: EndPoint, s: State, actions: seq<Action>)
    requires Runs(s, actions)
    decreases actions
  {
    actions != [] ==>
      && InTurnAt(periods, endPoint, s, actions[0])
      && AllInTurn(periods, endPoint, Next(s, actions[0]), actions[1..])
  }

  /** The keys whose periods the callers of a run ask about. */
  ghost function KeysAskedIn(periods: seq<Period>, endPoint: EndPoint, s: State, actions: seq<Action>): set<nat>
    requires Runs(s, actions) && AllInTurn(periods, endPoint, s, actions)
    decreases actions
  {
    if actions == [] then {}
    else
      KeysAskedBy(periods, endPoint, s, actions[0])
      + KeysAskedIn(periods, endPoint, Next(s, actions[0]), actions[1..])
  }

  ghost function KeysAskedBy(periods: seq<Period>, endPoint: EndPoint, s: State, action: Action): set<nat>
    requires Enabled(s, action) && InTurnAt(periods, endPoint, s, action)
  {
    if action.AskFor? && s.callers[action.c].AskedUrl().endPoint == endPoint
    then {KeyAt(periods, s.callers[action.c].AskedUrl().date.value)} else {}
  }

  /** The futures and the tasks there have been for the end point. */
  ghost function Led(s: State, endPoint: EndPoint): set<nat> {
    set f: nat | f < |s.futures| && s.futures[f].url.endPoint == endPoint
  }

  ghost function Started(s: State, endPoint: EndPoint): set<nat> {
    set t: nat | t < |s.tasks| && s.tasks[t].url.endPoint == endPoint
  }

  /** This URL's request is the one under way, and its key the one not yet held. */
  ghost predicate Pending(periods: seq<Period>, endPoint: EndPoint, s: State, asked: set<nat>, url: Url) {
    && url in s.inFlight && url.endPoint == endPoint && OfStatedPeriod(periods, url)
    && (forall other <- s.inFlight :: other.endPoint == endPoint ==> other == url)
    && KeyAt(periods, url.date.value) in asked
    && KeysAre(periods, asked - {KeyAt(periods, url.date.value)}, s.store.Keys(endPoint))
  }

  ghost predicate Tallied(periods: seq<Period>, endPoint: EndPoint, s: State, asked: set<nat>) {
    && s.clears == 0 && |Led(s, endPoint)| == |asked|
    && (if Quiet(s, endPoint) then KeysAre(periods, asked, s.store.Keys(endPoint))
        else exists url :: Pending(periods, endPoint, s, asked, url))
  }

  /** Without clears the store knows of every request that has not ended. */
  lemma RunningIsKnown(s: State, owners: seq<Owner>, f: FutureId)
    requires Owned(s, owners) && Protocol.Counted(s, owners) && s.clears == 0
    requires f < |owners| && Active(s, owners[f])
    ensures s.futures[f].url in s.inFlight && s.inFlight[s.futures[f].url] == f
  {
    var orphans := Orphans(s, owners, s.futures[f].url);
    assert |orphans| == 0;
    assert f !in orphans;
  }

  lemma LedWithOneMore(s: State, endPoint: EndPoint, url: Url, s': State)
    requires s'.futures == s.futures + [Future(url, None)]
    ensures Led(s', endPoint) == Led(s, endPoint) + if url.endPoint == endPoint then {|s.futures|} else {}
  {
  }

  lemma LedStays(s: State, action: Action, endPoint: EndPoint)
    requires Enabled(s, action) && !action.AskFor?
    ensures Led(Next(s, action), endPoint) == Led(s, endPoint)
  {
  }

  /** What asking leaves of the machine but for the caller: as it was, or with one more
      request led. */
  lemma AskingHere(endPoint: EndPoint, s: State, c: nat, now: Clock, lookup: Lookup)
    requires Enabled(s, AskFor(c, now)) && Quiet(s, endPoint)
    requires s.callers[c].AskedUrl() == Url(endPoint, Some(lookup.minute)) && lookup.now == now
    ensures var s', url := Next(s, AskFor(c, now)), s.callers[c].AskedUrl();
      && s'.store == s.store && s'.clears == s.clears
      && if Misses(endPoint, s.store, lookup)
         then s'.futures == s.futures + [Future(url, None)] && s'.inFlight == s.inFlight[url := |s.futures|]
         else s'.futures == s.futures && s'.inFlight == s.inFlight
  {
  }

  /** A key new to those asked about is pending once its request is led. */
  lemma NewKeyIsPending(periods: seq<Period>, endPoint: EndPoint, s: State, s': State, asked: set<nat>, url: Url,
                        f: FutureId)
    requires Quiet(s, endPoint) && url.endPoint == endPoint && OfStatedPeriod(periods, url)
    requires s'.store == s.store && s'.inFlight == s.inFlight[url := f]
    requires KeysAre(periods, asked, s.store.Keys(endPoint)) && KeyAt(periods, url.date.value) !in asked
    ensures !Quiet(s', endPoint)
    ensures Pending(periods, endPoint, s', asked + {KeyAt(periods, url.date.value)}, url)
  {
    var k := KeyAt(periods, url.date.value);
    assert asked + {k} - {k} == asked;
    assert url in s'.inFlight;
  }

  lemma AskedAgainIsTallied(periods: seq<Period>, endPoint: EndPoint, s: State, s': State, asked: set<nat>, k: nat)
    requires Tallied(periods, endPoint, s, asked) && Quiet(s, endPoint) && k in asked
    requires s'.store == s.store && s'.clears == s.clears && s'.futures == s.futures && s'.inFlight == s.inFlight
    ensures Tallied(periods, endPoint, s', asked + {k})
  {
    assert asked + {k} == asked;
    SameFuturesLed(s, endPoint, s');
  }

  lemma AskedFirstIsTallied(periods: seq<Period>, endPoint: EndPoint, s: State, s': State, asked: set<nat>, url: Url)
    requires Tallied(periods, endPoint, s, asked) && Quiet(s, endPoint) && url.endPoint == endPoint
    requires OfStatedPeriod(periods, url) && KeyAt(periods, url.date.value) !in asked
    requires s'.store == s.store && s'.clears == s.clears
    requires s'.futures == s.futures + [Future(url, None)] && s'.inFlight == s.inFlight[url := |s.futures|]
    ensures Tallied(periods, endPoint, s', asked + {KeyAt(periods, url.date.value)})
  {
    LedWithOneMore(s, endPoint, url, s');
    OneMore(asked, KeyAt(periods, url.date.value));
    NewKeyIsPending(periods, endPoint, s, s', asked, url, |s.futures|);
  }

  lemma AskingHereIsTallied(periods: seq<Period>, endPoint: EndPoint, s: State, c: nat, now: Clock, asked: set<nat>)
    requires Proper(periods) && Enabled(s, AskFor(c, now)) && Tallied(periods, endPoint, s, asked)
    requires Orderly(s.store.Keys(endPoint))
    requires InTurnAt(periods, endPoint, s, AskFor(c, now)) && s.callers[c].AskedUrl().endPoint == endPoint
    ensures Tallied(periods, endPoint, Next(s, AskFor(c, now)),
                    asked + {KeyAt(periods, s.callers[c].AskedUrl().date.value)})
  {
    var url := s.callers[c].AskedUrl();
    var k, lookup, s' := KeyAt(periods, url.date.value), Lookup(url.date.value, now), Next(s, AskFor(c, now));
    AskingHere(endPoint, s, c, now, lookup);
    MissesWhatWasNotAsked(periods, endPoint, asked, s.store, lookup);
    if Misses(endPoint, s.store, lookup) {
      AskedFirstIsTallied(periods, endPoint, s, s', asked, url);
    } else {
      AskedAgainIsTallied(periods, endPoint, s, s', asked, k);
    }
  }

  lemma SameFuturesLed(s: State, endPoint: EndPoint, s': State)
    requires s'.futures == s.futures
    ensures Led(s', endPoint) == Led(s, endPoint)
  {
  }

  /** What is under way here stays so through whatever changes elsewhere. */
  lemma PendingStays(periods: seq<Period>, endPoint: EndPoint, s: State, s': State, asked: set<nat>)
    requires s'.store.Keys(endPoint) == s.store.Keys(endPoint) && s'.clears == 0
    requires forall url: Url :: url.endPoint == endPoint ==> (url in s'.inFlight <==> url in s.inFlight)
    requires Led(s', endPoint) == Led(s, endPoint) && Tallied(periods, endPoint, s, asked)
    ensures Tallied(periods, endPoint, s', asked)
  {
    if !Quiet(s, endPoint) {
      var pending :| Pending(periods, endPoint, s, asked, pending);
      assert Pending(periods, endPoint, s', asked, pending);
    }
  }

  lemma AskingElsewhereIsTallied(periods: seq<Period>, endPoint: EndPoint, s: State, c: nat, now: Clock,
                                 asked: set<nat>)
    requires Enabled(s, AskFor(c, now)) && Tallied(periods, endPoint, s, asked)
    requires s.callers[c].AskedUrl().endPoint != endPoint
    ensures Tallied(periods, endPoint, Next(s, AskFor(c, now)), asked)
  {
    var s', url := Next(s, AskFor(c, now)), s.callers[c].AskedUrl();
    if Ask(s.store, s.inFlight, url, now, |s.futures|).Leads? {
      LedWithOneMore(s, endPoint, url, s');
    } else {
      SameFuturesLed(s, endPoint, s');
    }
    PendingStays(periods, endPoint, s, s', asked);
  }

  /** The request that ends is the one pending. */
  lemma SettledWasPending(periods: seq<Period>, endPoint: EndPoint, s: State, owners: seq<Owner>, t: nat,
                          reply: Reply, now: Clock, asked: set<nat>)
    requires Enabled(s, Settle(t, reply, now)) && Tallied(periods, endPoint, s, asked)
    requires Owned(s, owners) && Protocol.Counted(s, owners) && s.tasks[t].url.endPoint == endPoint
    ensures Pending(periods, endPoint, s, asked, s.tasks[t].url) && Quiet(Next(s, Settle(t, reply, now)), endPoint)
  {
    assert Owns(s, s.tasks[t].shared, owners[s.tasks[t].shared]);
    RunningIsKnown(s, owners, s.tasks[t].shared);
    assert !Quiet(s, endPoint);
    var pending :| Pending(periods, endPoint, s, asked, pending);
    assert pending == s.tasks[t].url;
  }

  /** Held once answered, a pending key is one of those asked about. */
  lemma AnswerFillsIn(periods: seq<Period>, endPoint: EndPoint, asked: set<nat>, store: Store, lookup: Lookup)
    requires Proper(periods) && HasStatedPeriod(periods, lookup.minute) && KeyAt(periods, lookup.minute) in asked
    requires KeysAre(periods, asked - {KeyAt(periods, lookup.minute)}, store.Keys(endPoint))
    requires !Overflows(store, AnswerTo(periods, endPoint, lookup))
    ensures KeysAre(periods, asked, Step(store, AnswerTo(periods, endPoint, lookup)).Keys(endPoint))
  {
    var k := KeyAt(periods, lookup.minute);
    assert asked - {k} + {k} == asked;
    MissKeepsKeys(periods, endPoint, asked - {k}, store, lookup);
  }

  lemma SettlingSteps(s: State, t: nat, reply: Reply, now: Clock)
    requires Enabled(s, Settle(t, reply, now)) && reply.Replied?
    ensures Next(s, Settle(t, reply, now)).store == Step(s.store, Learned(s.tasks[t].url, reply, now))
  {
  }

  /** With its key held the request pending is over. */
  lemma SettlingHereIsTallied(periods: seq<Period>, endPoint: EndPoint, s: State, s': State, asked: set<nat>, url: Url,
                              now: Clock)
    requires Proper(periods) && Pending(periods, endPoint, s, asked, url)
    requires s.clears == s'.clears == 0 && |Led(s, endPoint)| == |asked| && Led(s', endPoint) == Led(s, endPoint)
    requires Quiet(s', endPoint)
    requires var event := AnswerTo(periods, endPoint, Lookup(url.date.value, now));
      !Overflows(s.store, event) && s'.store == Step(s.store, event)
    ensures Tallied(periods, endPoint, s', asked)
  {
    AnswerFillsIn(periods, endPoint, asked, s.store, Lookup(url.date.value, now));
  }

  lemma SettlingElsewhereIsTallied(periods: seq<Period>, endPoint: EndPoint, s: State, t: nat, reply: Reply, now: Clock,
                                   asked: set<nat>)
    requires Enabled(s, Settle(t, reply, now)) && Tallied(periods, endPoint, s, asked)
    requires InTurnAt(periods, endPoint, s, Settle(t, reply, now)) && s.tasks[t].url.endPoint != endPoint
    ensures Tallied(periods, endPoint, Next(s, Settle(t, reply, now)), asked)
  {
    LedStays(s, Settle(t, reply, now), endPoint);
    if reply.Replied? { ElsewhereKeepsKeys(endPoint, s.store, Learned(s.tasks[t].url, reply, now)); }
    PendingStays(periods, endPoint, s, Next(s, Settle(t, reply, now)), asked);
  }

  lemma OtherStepIsTallied(periods: seq<Period>, endPoint: EndPoint, s: State, action: Action, asked: set<nat>)
    requires Enabled(s, action) && Tallied(periods, endPoint, s, asked)
    requires !action.AskFor? && !action.Settle? && !action.Clear?
    ensures Tallied(periods, endPoint, Next(s, action), asked)
  {
    LedStays(s, action, endPoint);
    PendingStays(periods, endPoint, s, Next(s, action), asked);
  }

  lemma StepIsTallied(periods: seq<Period>, endPoint: EndPoint, s: State, owners: seq<Owner>, action: Action,
                      asked: set<nat>)
    requires Proper(periods) && Enabled(s, action) && Owned(s, owners) && Protocol.Counted(s, owners)
    requires Orderly(s.store.Keys(endPoint))
    requires Tallied(periods, endPoint, s, asked) && InTurnAt(periods, endPoint, s, action)
    ensures Tallied(periods, endPoint, Next(s, action), asked + KeysAskedBy(periods, endPoint, s, action))
  {
    assert asked + {} == asked;
    match action
    case AskFor(c, now) =>
      if s.callers[c].AskedUrl().endPoint == endPoint {
        AskingHereIsTallied(periods, endPoint, s, c, now, asked);
      } else {
        AskingElsewhereIsTallied(periods, endPoint, s, c, now, asked);
      }
    case Settle(t, reply, now) =>
      if s.tasks[t].url.endPoint == endPoint {
        SettledWasPending(periods, endPoint, s, owners, t, reply, now, asked);
        LedStays(s, action, endPoint);
        SettlingSteps(s, t, reply, now);
        SettlingHereIsTallied(periods, endPoint, s, Next(s, action), asked, s.tasks[t].url, now);
      } else {
        SettlingElsewhereIsTallied(periods, endPoint, s, t, reply, now, asked);
      }
    case _ => OtherStepIsTallied(periods, endPoint, s, action, asked);
  }

  lemma {:induction false} RunIsTallied(periods: seq<Period>, endPoint: EndPoint, s: State, owners: seq<Owner>,
                                        actions: seq<Action>, asked: set<nat>)
    requires Proper(periods) && Owned(s, owners) && Protocol.Counted(s, owners) && Sound(s.store)
    requires Tallied(periods, endPoint, s, asked)
    requires Runs(s, actions) && AllInTurn(periods, endPoint, s, actions)
    ensures Tallied(periods, endPoint, Final(s, actions), asked + KeysAskedIn(periods, endPoint, s, actions))
    decreases actions
  {
    if actions == [] {
      assert asked + {} == asked;
    } else {
      var more, s' := KeysAskedBy(periods, endPoint, s, actions[0]), Next(s, actions[0]);
      SoundIsOrderly(s.store, endPoint);
      StepIsTallied(periods, endPoint, s, owners, actions[0], asked);
      StepKeepsOwned(s, owners, actions[0]);
      StepKeepsCounted(s, owners, actions[0]);
      StepKeepsSound(s, actions[0]);
      RunIsTallied(periods, endPoint, s', OwnersAfter(s, owners, actions[0]), actions[1..], asked + more);
      UnionRegroups(asked, more, KeysAskedIn(periods, endPoint, s', actions[1..]));
    }
  }

  lemma UnionRegroups(a: set<nat>, b: set<nat>, c: set<nat>)
    ensures (a + b) + c == a + (b + c)
  {
  }

  // ------------------------------------------------------ tasks, not only futures

  ghost function FuturesOf(s: State, tasks: set<nat>): set<nat>
    requires forall t <- tasks :: t < |s.tasks|
  {
    set t <- tasks :: s.tasks[t].shared
  }

  lemma {:induction false} AsManyFutures(s: State, tasks: set<nat>)
    requires forall t <- tasks :: t < |s.tasks|
    requires forall t, u :: t in tasks && u in tasks && s.tasks[t].shared == s.tasks[u].shared ==> t == u
    ensures |FuturesOf(s, tasks)| == |tasks|
    decreases |tasks|
  {
    if tasks != {} {
      var t :| t in tasks;
      var others := tasks - {t};
      AsManyFutures(s, others);
      assert FuturesOf(s, tasks) == FuturesOf(s, others) + {s.tasks[t].shared};
      assert s.tasks[t].shared !in FuturesOf(s, others);
    }
  }

  /** Once nothing is under way each future has had its own task. */
  lemma AsManyTasksAsFutures(s: State, owners: seq<Owner>, endPoint: EndPoint)
    requires Owned(s, owners) && Protocol.Counted(s, owners) && s.clears == 0 && Quiet(s, endPoint)
    ensures |Started(s, endPoint)| == |Led(s, endPoint)|
  {
    var tasks := Started(s, endPoint);
    forall t | t in tasks
      ensures s.tasks[t].shared in Led(s, endPoint) && owners[s.tasks[t].shared] == Ran(t)
    {
      assert Owns(s, s.tasks[t].shared, owners[s.tasks[t].shared]);
    }
    forall f | f in Led(s, endPoint)
      ensures f in FuturesOf(s, tasks)
    {
      assert Owns(s, f, owners[f]);
      if owners[f].Led? {
        RunningIsKnown(s, owners, f);
      } else {
        assert owners[f].t in tasks;
      }
    }
    AsManyFutures(s, tasks);
    assert FuturesOf(s, tasks) == Led(s, endPoint);
  }

  /**
   One request for each key, in the machine. Whatever callers ask, and through
   whatever neighbours, once the requests made of the end point in turn have ended, as
   many tasks were created for it as there are keys whose periods were asked about.
   */
  lemma OneTaskForEachKey(periods: seq<Period>, endPoint: EndPoint, actions: seq<Action>)
    requires Proper(periods) && Runs(INITIAL, actions) && AllInTurn(periods, endPoint, INITIAL, actions)
    ensures var s := Final(INITIAL, actions);
      && |Led(s, endPoint)| == |KeysAskedIn(periods, endPoint, INITIAL, actions)|
      && (Quiet(s, endPoint) ==>
            |Started(s, endPoint)| == |KeysAskedIn(periods, endPoint, INITIAL, actions)|)
  {
    var s := Final(INITIAL, actions);
    assert forall url :: Orphans(INITIAL, [], url) == {};
    assert Led(INITIAL, endPoint) == {};
    StoreIsAlwaysSound([]);
    RunIsTallied(periods, endPoint, INITIAL, [], actions, {});
    assert {} + KeysAskedIn(periods, endPoint, INITIAL, actions) == KeysAskedIn(periods, endPoint, INITIAL, actions);
    var owners := ReachableIsOwned(actions);
    if Quiet(s, endPoint) { AsManyTasksAsFutures(s, owners, endPoint); }
  }
}
