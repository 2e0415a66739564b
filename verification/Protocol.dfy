/**
 The shared request protocol: callers asking for keys, tasks that perform the
 requests, the futures they are shared through and clears in the middle of it all.
 Every block run under the lock is one action, publishing a result is another,
 and any interleaving of actions is a run.
 */
module Protocol {
  import opened Common
  import opened KeyStore
  import opened Verdict

  /** A shared future, made for this URL, and its result once published. */
  datatype Future = Future(url: Url, result: Option<Outcome>)

  /** A request is running, has ended under the lock, or has published its outcome. */
  datatype Phase = Requesting | Settled(outcome: Outcome) | Done(outcome: Outcome)

  datatype Task = Task(url: Url, shared: FutureId, phase: Phase)

  /** About to ask, between adding a future and starting its task, or awaiting one. */
  datatype Stage = Asking | Leading(shared: FutureId) | Waiting(shared: FutureId)

  datatype Position = At(purpose: Purpose, stage: Stage) | Ended(point: Point) | Cancelled

  datatype Caller = Caller(subject: Subject, position: Position) {
    function AskedUrl(): Url
      requires position.At?
    {
      UrlOf(subject, position.purpose)
    }
  }

  datatype State = State(
    store: Store, inFlight: map<Url, FutureId>, futures: seq<Future>,
    tasks: seq<Task>, callers: seq<Caller>, clears: nat)

  const INITIAL: State := State(EMPTY, map[], [], [], [], 0)

  /** How the request behind a task ends: with an answer or with an error. */
  datatype Reply = Replied(pem: Pem, start: Option<Minute>, end: Option<Minute>) | Unanswered(error: Outcome) {
    predicate Possible() {
      Unanswered? ==> error == Failed(KeyUnavailable) || error == Failed(InvalidKey) || error == Broken
    }

    function Outcome(): Outcome {
      if Replied? then Answered(Stated(pem, start, end)) else error
    }
  }

  datatype Action =
    | Arrive(subject: Subject)
    | AskFor(c: nat, now: Clock)
    | Spawn(c: nat)
    | Settle(t: nat, reply: Reply, now: Clock)
    | Publish(t: nat)
    | Deliver(c: nat)
    | Cancel(c: nat)
    | Clear

  function Resume(point: Point): Position {
    if point.Wants? then At(point.purpose, Asking) else Ended(point)
  }

  predicate InStage(s: State, c: nat) {
    c < |s.callers| && s.callers[c].position.At?
  }

  predicate Enabled(s: State, action: Action) {
    match action
    case Arrive(_) => true
    case AskFor(c, _) => InStage(s, c) && s.callers[c].position.stage.Asking?
    case Spawn(c) => InStage(s, c) && s.callers[c].position.stage.Leading?
    case Settle(t, reply, _) => t < |s.tasks| && s.tasks[t].phase.Requesting? && reply.Possible()
    case Publish(t) => t < |s.tasks| && s.tasks[t].phase.Settled? && s.tasks[t].shared < |s.futures|
    case Deliver(c) =>
      && InStage(s, c) && s.callers[c].position.stage.Waiting?
      && s.callers[c].position.stage.shared < |s.futures|
      && s.futures[s.callers[c].position.stage.shared].result.Some?
    case Cancel(c) => InStage(s, c) && s.callers[c].position.stage.Waiting?
    case Clear => true
  }

  function Move(s: State, c: nat, position: Position): seq<Caller>
    requires c < |s.callers|
  {
    s.callers[c := s.callers[c].(position := position)]
  }

  function Next(s: State, action: Action): State
    requires Enabled(s, action)
  {
    match action
    case Arrive(subject) => s.(callers := s.callers + [Caller(subject, At(Own, Asking))])
    case AskFor(c, now) =>
      var caller := s.callers[c];
      var url, purpose := caller.AskedUrl(), caller.position.purpose;
      var asked := Ask(s.store, s.inFlight, url, now, |s.futures|);
      (match asked
       case Hit(answer) => s.(callers := Move(s, c, Resume(Receive(caller.subject, purpose, Answered(answer)))))
       case Joins(shared) => s.(callers := Move(s, c, At(purpose, Waiting(shared))))
       case Leads(shared) => s.(
         inFlight := InFlightAfterAsk(s.inFlight, url, asked),
         futures := s.futures + [Future(url, None)],
         callers := Move(s, c, At(purpose, Leading(shared)))))
    case Spawn(c) =>
      var caller := s.callers[c];
      var shared := caller.position.stage.shared;
      s.(tasks := s.tasks + [Task(caller.AskedUrl(), shared, Requesting)],
         callers := Move(s, c, At(caller.position.purpose, Waiting(shared))))
    case Settle(t, reply, now) =>
      var task := s.tasks[t];
      s.(store := if reply.Replied? then Hold(s.store, task.url, reply.pem, reply.start, reply.end, now) else s.store,
         inFlight := Forget(s.inFlight, task.url, task.shared),
         tasks := s.tasks[t := task.(phase := Settled(reply.Outcome()))])
    case Publish(t) =>
      var task := s.tasks[t];
      s.(futures := s.futures[task.shared := s.futures[task.shared].(result := Some(task.phase.outcome))],
         tasks := s.tasks[t := task.(phase := Done(task.phase.outcome))])
    case Deliver(c) =>
      var caller := s.callers[c];
      var outcome := s.futures[caller.position.stage.shared].result.value;
      s.(callers := Move(s, c, Resume(Receive(caller.subject, caller.position.purpose, outcome))))
    case Cancel(c) => s.(callers := Move(s, c, Cancelled))
    case Clear => s.(store := EMPTY, inFlight := map[], clears := s.clears + 1)
  }

  predicate Runs(s: State, actions: seq<Action>)
    decreases actions
  {
    actions == [] || (Enabled(s, actions[0]) && Runs(Next(s, actions[0]), actions[1..]))
  }

  function Final(s: State, actions: seq<Action>): State
    requires Runs(s, actions)
    decreases actions
  {
    if actions == [] then s else Final(Next(s, actions[0]), actions[1..])
  }

  // ------------------------------------------------------------- ownership

  /** Who is to resolve a future: the caller about to create a task for it, or that task. */
  datatype Owner = Led(c: nat) | Ran(t: nat)

  predicate Owns(s: State, f: FutureId, owner: Owner) {
    && f < |s.futures|
    && match owner
       case Led(c) =>
         && InStage(s, c) && s.callers[c].position.stage == Leading(f)
         && s.callers[c].AskedUrl() == s.futures[f].url && s.futures[f].result.None?
       case Ran(t) =>
         && t < |s.tasks| && s.tasks[t].shared == f && s.tasks[t].url == s.futures[f].url
         && s.futures[f].result == (if s.tasks[t].phase.Done? then Some(s.tasks[t].phase.outcome) else None)
  }

  /** The request behind the future has not ended. */
  predicate Active(s: State, owner: Owner) {
    owner.Led? || (owner.t < |s.tasks| && s.tasks[owner.t].phase.Requesting?)
  }

  /** Each future has the owner listed, and nobody else leads, runs or awaits astray. */
  ghost predicate Owned(s: State, owners: seq<Owner>) {
    && |owners| == |s.futures|
    && (forall f :: 0 <= f < |owners| ==> Owns(s, f, owners[f]))
    && (forall t :: 0 <= t < |s.tasks| ==>
          s.tasks[t].shared < |owners| && owners[s.tasks[t].shared] == Ran(t))
    && (forall c :: 0 <= c < |s.callers| ==> Placed(s, owners, c))
    && (forall url <- s.inFlight ::
          && s.inFlight[url] < |owners| && s.futures[s.inFlight[url]].url == url
          && Active(s, owners[s.inFlight[url]]))
  }

  ghost predicate Placed(s: State, owners: seq<Owner>, c: nat)
    requires c < |s.callers| && |owners| == |s.futures|
  {
    s.callers[c].position.At? ==>
      match s.callers[c].position.stage
      case Asking => true
      case Leading(f) => f < |owners| && owners[f] == Led(c)
      case Waiting(f) => f < |owners| && s.futures[f].url == s.callers[c].AskedUrl()
  }

  /** The future of a request still running that the store does not know of. */
  predicate IsOrphan(s: State, owners: seq<Owner>, url: Url, f: int)
    requires |owners| == |s.futures|
  {
    && 0 <= f < |owners| && s.futures[f].url == url && Active(s, owners[f])
    && !(url in s.inFlight && s.inFlight[url] == f)
  }

  /** Requests still running that a clear made the store forget. */
  ghost function Orphans(s: State, owners: seq<Owner>, url: Url): set<int>
    requires |owners| == |s.futures|
  {
    set f | 0 <= f < |owners| && IsOrphan(s, owners, url, f)
  }

  ghost predicate Counted(s: State, owners: seq<Owner>) {
    |owners| == |s.futures| && forall url :: |Orphans(s, owners, url)| <= s.clears
  }

  function OwnersAfter(s: State, owners: seq<Owner>, action: Action): seq<Owner>
    requires Enabled(s, action)
  {
    match action
    case AskFor(c, now) =>
      if Ask(s.store, s.inFlight, s.callers[c].AskedUrl(), now, |s.futures|).Leads? then owners + [Led(c)] else owners
    case Spawn(c) =>
      var f := s.callers[c].position.stage.shared;
      if f < |owners| then owners[f := Ran(|s.tasks|)] else owners
    case _ => owners
  }

  lemma AskKeepsOwned(s: State, owners: seq<Owner>, c: nat, now: Clock)
    requires Enabled(s, AskFor(c, now)) && Owned(s, owners)
    ensures Owned(Next(s, AskFor(c, now)), OwnersAfter(s, owners, AskFor(c, now)))
  {
    var asked := Ask(s.store, s.inFlight, s.callers[c].AskedUrl(), now, |s.futures|);
    if asked.Leads? {
      LeadingKeepsOwned(s, owners, c, now);
    } else {
      MovingKeepsOwned(s, owners, c, Next(s, AskFor(c, now)).callers[c].position);
    }
  }

  lemma LeadingKeepsOwned(s: State, owners: seq<Owner>, c: nat, now: Clock)
    requires Enabled(s, AskFor(c, now)) && Owned(s, owners)
    requires Ask(s.store, s.inFlight, s.callers[c].AskedUrl(), now, |s.futures|).Leads?
    ensures Owned(Next(s, AskFor(c, now)), owners + [Led(c)])
  {
    var s', owners' := Next(s, AskFor(c, now)), owners + [Led(c)];
    forall f | 0 <= f < |owners'|
      ensures Owns(s', f, owners'[f])
    {
      assert f < |owners| ==> Owns(s, f, owners[f]);
    }
    forall d | 0 <= d < |s'.callers|
      ensures Placed(s', owners', d)
    {
      assert Placed(s, owners, d);
    }
  }

  /** A place in which a caller leads no future, and awaits only one for its URL. */
  predicate LeadsNone(s: State, subject: Subject, position: Position) {
    position.At? ==>
      match position.stage
      case Asking => true
      case Leading(_) => false
      case Waiting(f) => f < |s.futures| && s.futures[f].url == UrlOf(subject, position.purpose)
  }

  /** A caller that leads no future may move to any place that leads none. */
  lemma MovingKeepsOwned(s: State, owners: seq<Owner>, c: nat, position: Position)
    requires c < |s.callers| && Owned(s, owners)
    requires s.callers[c].position.At? ==> !s.callers[c].position.stage.Leading?
    requires LeadsNone(s, s.callers[c].subject, position)
    ensures Owned(s.(callers := Move(s, c, position)), owners)
  {
    var s' := s.(callers := Move(s, c, position));
    forall f | 0 <= f < |owners|
      ensures Owns(s', f, owners[f])
    {
      assert Owns(s, f, owners[f]);
    }
    forall d | 0 <= d < |s'.callers|
      ensures Placed(s', owners, d)
    {
      assert Placed(s, owners, d);
    }
  }

  lemma SpawnKeepsOwned(s: State, owners: seq<Owner>, c: nat)
    requires Enabled(s, Spawn(c)) && Owned(s, owners)
    ensures Owned(Next(s, Spawn(c)), OwnersAfter(s, owners, Spawn(c)))
  {
    var s', owners' := Next(s, Spawn(c)), OwnersAfter(s, owners, Spawn(c));
    assert Placed(s, owners, c);
    var f := s.callers[c].position.stage.shared;
    assert Owns(s, f, owners[f]);
    forall t | 0 <= t < |s'.tasks|
      ensures s'.tasks[t].shared < |owners'| && owners'[s'.tasks[t].shared] == Ran(t)
    {
      assert t < |s.tasks| ==> owners[s.tasks[t].shared] == Ran(t);
    }
    forall d | 0 <= d < |s'.callers|
      ensures Placed(s', owners', d)
    {
      assert Placed(s, owners, d);
    }
  }

  lemma SettleKeepsOwned(s: State, owners: seq<Owner>, t: nat, reply: Reply, now: Clock)
    requires Enabled(s, Settle(t, reply, now)) && Owned(s, owners)
    ensures Owned(Next(s, Settle(t, reply, now)), owners)
  {
    var s', task := Next(s, Settle(t, reply, now)), s.tasks[t];
    assert owners[task.shared] == Ran(t) && Owns(s, task.shared, Ran(t));
    forall f | 0 <= f < |owners|
      ensures Owns(s', f, owners[f])
    {
      assert Owns(s, f, owners[f]);
    }
    forall url | url in s'.inFlight
      ensures url in s.inFlight && s'.inFlight[url] == s.inFlight[url] != task.shared
    {
    }
    forall c | 0 <= c < |s.callers|
      ensures Placed(Next(s, Settle(t, reply, now)), owners, c)
    {
      assert Placed(s, owners, c);
    }
  }

  lemma PublishKeepsOwned(s: State, owners: seq<Owner>, t: nat)
    requires Enabled(s, Publish(t)) && Owned(s, owners)
    ensures Owned(Next(s, Publish(t)), owners)
  {
    var s', task := Next(s, Publish(t)), s.tasks[t];
    assert owners[task.shared] == Ran(t);
    forall f | 0 <= f < |owners|
      ensures Owns(s', f, owners[f])
    {
      assert Owns(s, f, owners[f]);
    }
    forall c | 0 <= c < |s.callers|
      ensures Placed(Next(s, Publish(t)), owners, c)
    {
      assert Placed(s, owners, c);
    }
  }

  lemma ArriveAndClearKeepOwned(s: State, owners: seq<Owner>, action: Action)
    requires Enabled(s, action) && Owned(s, owners) && (action.Arrive? || action.Clear?)
    ensures Owned(Next(s, action), owners)
  {
    forall c | 0 <= c < |Next(s, action).callers|
      ensures Placed(Next(s, action), owners, c)
    {
      assert c < |s.callers| ==> Placed(s, owners, c);
    }
  }

  lemma StepKeepsOwned(s: State, owners: seq<Owner>, action: Action)
    requires Enabled(s, action) && Owned(s, owners)
    ensures Owned(Next(s, action), OwnersAfter(s, owners, action))
  {
    match action
    case AskFor(c, now) => AskKeepsOwned(s, owners, c, now);
    case Spawn(c) => SpawnKeepsOwned(s, owners, c);
    case Settle(t, reply, now) => SettleKeepsOwned(s, owners, t, reply, now);
    case Publish(t) => PublishKeepsOwned(s, owners, t);
    case Deliver(c) => MovingKeepsOwned(s, owners, c, Next(s, action).callers[c].position);
    case Cancel(c) => MovingKeepsOwned(s, owners, c, Cancelled);
    case _ => ArriveAndClearKeepOwned(s, owners, action);
  }

  lemma WasOrphanOrCleared(s: State, owners: seq<Owner>, action: Action, url: Url, f: int)
    requires Enabled(s, action) && Owned(s, owners)
    requires |OwnersAfter(s, owners, action)| == |Next(s, action).futures|
    requires IsOrphan(Next(s, action), OwnersAfter(s, owners, action), url, f)
    ensures IsOrphan(s, owners, url, f) || (action.Clear? && url in s.inFlight && f == s.inFlight[url])
  {
    if f < |owners| { assert Owns(s, f, owners[f]); }
    match action
    case Spawn(c) => assert Placed(s, owners, c);
    case Settle(t, _, _) => assert owners[s.tasks[t].shared] == Ran(t);
    case _ =>
  }

  /** Only a clear can leave one more request of a URL running unknown to the store. */
  lemma StepCountsOrphans(s: State, owners: seq<Owner>, action: Action, url: Url)
    requires Enabled(s, action) && Owned(s, owners)
    ensures var s', owners' := Next(s, action), OwnersAfter(s, owners, action);
      |owners'| == |s'.futures| &&
      Orphans(s', owners', url) <= Orphans(s, owners, url)
        + if action.Clear? && url in s.inFlight then {s.inFlight[url]} else {}
  {
    StepKeepsOwned(s, owners, action);
    forall f | f in Orphans(Next(s, action), OwnersAfter(s, owners, action), url)
      ensures f in Orphans(s, owners, url) || (action.Clear? && url in s.inFlight && f == s.inFlight[url])
    {
      WasOrphanOrCleared(s, owners, action, url, f);
    }
  }

  lemma StepKeepsCounted(s: State, owners: seq<Owner>, action: Action)
    requires Enabled(s, action) && Owned(s, owners) && Counted(s, owners)
    ensures Counted(Next(s, action), OwnersAfter(s, owners, action))
  {
    StepKeepsOwned(s, owners, action);
    var s', owners' := Next(s, action), OwnersAfter(s, owners, action);
    forall url
      ensures |Orphans(s', owners', url)| <= s'.clears
    {
      StepCountsOrphans(s, owners, action, url);
      var extra := if action.Clear? && url in s.inFlight then {s.inFlight[url]} else {};
      FewerIsNoMore(Orphans(s', owners', url), Orphans(s, owners, url) + extra);
    }
  }

  /** Every reachable state has its owners and its orphans counted. */
  lemma {:induction false} RunKeepsOwned(s: State, owners: seq<Owner>, actions: seq<Action>) returns (after: seq<Owner>)
    requires Owned(s, owners) && Counted(s, owners) && Runs(s, actions)
    ensures Owned(Final(s, actions), after) && Counted(Final(s, actions), after)
    decreases actions
  {
    if actions == [] { return owners; }
    StepKeepsOwned(s, owners, actions[0]);
    StepKeepsCounted(s, owners, actions[0]);
    after := RunKeepsOwned(Next(s, actions[0]), OwnersAfter(s, owners, actions[0]), actions[1..]);
  }

  lemma ReachableIsOwned(actions: seq<Action>) returns (owners: seq<Owner>)
    requires Runs(INITIAL, actions)
    ensures Owned(Final(INITIAL, actions), owners) && Counted(Final(INITIAL, actions), owners)
  {
    assert forall url :: Orphans(INITIAL, [], url) == {};
    owners := RunKeepsOwned(INITIAL, [], actions);
  }

  // ---------------------------------------------------------- single flight

  /** The owner has yet to resolve the future, as its leading caller or as its task. */
  predicate Resolves(s: State, f: FutureId, owner: Owner) {
    match owner
    case Led(c) => InStage(s, c) && s.callers[c].position.stage == Leading(f)
    case Ran(t) => t < |s.tasks| && s.tasks[t].shared == f && !s.tasks[t].phase.Done?
  }

  /** The futures of one URL whose request has been started and has not ended. */
  ghost function Running(s: State, url: Url): set<int> {
    set f | 0 <= f < |s.futures| && s.futures[f].url == url && UnderWay(s, f)
  }

  ghost predicate UnderWay(s: State, f: FutureId) {
    || (exists c: nat :: InStage(s, c) && s.callers[c].position.stage == Leading(f))
    || (exists t: nat :: t < |s.tasks| && s.tasks[t].shared == f && s.tasks[t].phase.Requesting?)
  }

  /**
   Single flight. Whatever the interleaving, an unresolved future has exactly one
   owner, what the store calls in flight is unresolved and for the right URL, and
   the requests under way for a URL are at most one more than the clears so far.
   */
  lemma SingleFlight(actions: seq<Action>)
    requires Runs(INITIAL, actions)
    ensures var s := Final(INITIAL, actions);
      && (forall f :: 0 <= f < |s.futures| && s.futures[f].result.None? ==>
            (exists owner :: Resolves(s, f, owner))
            && (forall a, b :: Resolves(s, f, a) && Resolves(s, f, b) ==> a == b))
      && (forall f, owner :: 0 <= f < |s.futures| && s.futures[f].result.Some? ==> !Resolves(s, f, owner))
      && (forall url <- s.inFlight :: s.inFlight[url] in Running(s, url))
      && (forall url :: |Running(s, url)| <= 1 + s.clears)
  {
    var s := Final(INITIAL, actions);
    var owners := ReachableIsOwned(actions);
    forall f, owner | 0 <= f < |s.futures| && Resolves(s, f, owner)
      ensures owner == owners[f] && s.futures[f].result.None?
    {
      OwnerIsListed(s, owners, f, owner);
    }
    forall f | 0 <= f < |s.futures| && s.futures[f].result.None?
      ensures Resolves(s, f, owners[f])
    {
      assert Owns(s, f, owners[f]);
    }
    forall url
      ensures |Running(s, url)| <= 1 + s.clears
      ensures url in s.inFlight ==> s.inFlight[url] in Running(s, url)
    {
      RunningIsOrphansAndOne(s, owners, url);
      var one := if url in s.inFlight then {s.inFlight[url]} else {};
      FewerIsNoMore(Running(s, url), Orphans(s, owners, url) + one);
    }
  }

  lemma OwnerIsListed(s: State, owners: seq<Owner>, f: FutureId, owner: Owner)
    requires Owned(s, owners) && f < |s.futures| && Resolves(s, f, owner)
    ensures owner == owners[f] && s.futures[f].result.None?
  {
    assert Owns(s, f, owners[f]);
    if owner.Led? {
      assert Placed(s, owners, owner.c);
    }
  }

  lemma RunningIsOrphansAndOne(s: State, owners: seq<Owner>, url: Url)
    requires Owned(s, owners)
    ensures Running(s, url) <= Orphans(s, owners, url) + if url in s.inFlight then {s.inFlight[url]} else {}
    ensures url in s.inFlight ==> s.inFlight[url] in Running(s, url)
  {
    forall f | f in Running(s, url)
      ensures Active(s, owners[f])
    {
      UnderWayIsActive(s, owners, f);
    }
    if url in s.inFlight {
      var f := s.inFlight[url];
      assert Owns(s, f, owners[f]);
    }
  }

  /** A request that a clear made the store forget never removes a newer one's entry. */
  lemma ForgottenTaskRemovesNothing(actions: seq<Action>, t: nat, reply: Reply, now: Clock)
    requires Runs(INITIAL, actions) && Enabled(Final(INITIAL, actions), Settle(t, reply, now))
    ensures var s := Final(INITIAL, actions);
      var s' := Next(s, Settle(t, reply, now));
      && (forall url :: url in s.inFlight && s.inFlight[url] != s.tasks[t].shared ==>
            url in s'.inFlight && s'.inFlight[url] == s.inFlight[url])
      && s.tasks[t].shared !in s'.inFlight.Values
  {
    var s := Final(INITIAL, actions);
    var owners := ReachableIsOwned(actions);
    var s' := Next(s, Settle(t, reply, now));
    forall url | url in s'.inFlight
      ensures s'.inFlight[url] != s.tasks[t].shared
    {
      assert url in s.inFlight && s.inFlight[url] == s'.inFlight[url];
      var f := s.tasks[t].shared;
      assert Owns(s, f, owners[f]);
    }
  }

  // --------------------------------------------------------- nobody stranded

  predicate Awaits(s: State, c: nat, f: FutureId) {
    InStage(s, c) && s.callers[c].position.stage == Waiting(f)
  }

  /** The actions that finish a request and hand out what it ended with. */
  predicate Finishes(action: Action) {
    action.Spawn? || action.Settle? || action.Publish? || action.Deliver?
  }

  /** The requests these actions end are ended with these replies. */
  ghost predicate EndWith(replies: Url -> Reply, s: State, actions: seq<Action>)
    requires Runs(s, actions)
    decreases actions
  {
    actions != [] ==>
      && (actions[0].Settle? ==> actions[0].reply == replies(s.tasks[actions[0].t].url))
      && EndWith(replies, Next(s, actions[0]), actions[1..])
  }

  /** These actions do nothing but finish requests, and hand the caller this outcome. */
  ghost predicate HandsOver(replies: Url -> Reply, s: State, more: seq<Action>, c: nat, outcome: Outcome) {
    && Runs(s, more) && (forall action <- more :: Finishes(action)) && EndWith(replies, s, more)
    && InStage(s, c) && c < |Final(s, more).callers|
    && Final(s, more).callers[c].subject == s.callers[c].subject
    && Final(s, more).callers[c].position
       == Resume(Receive(s.callers[c].subject, s.callers[c].position.purpose, outcome))
  }

  /** An action that leaves the caller asking for the same key may come in front. */
  lemma HandsOverLater(replies: Url -> Reply, s: State, action: Action, rest: seq<Action>, c: nat, outcome: Outcome)
    requires Enabled(s, action) && Finishes(action)
    requires action.Settle? ==> action.reply == replies(s.tasks[action.t].url)
    requires InStage(s, c) && InStage(Next(s, action), c)
    requires Next(s, action).callers[c].subject == s.callers[c].subject
    requires Next(s, action).callers[c].position.purpose == s.callers[c].position.purpose
    requires HandsOver(replies, Next(s, action), rest, c, outcome)
    ensures HandsOver(replies, s, [action] + rest, c, outcome)
  {
    assert ([action] + rest)[1..] == rest;
  }

  lemma DeliveryEnds(replies: Url -> Reply, s: State, c: nat, f: FutureId) returns (more: seq<Action>)
    requires Awaits(s, c, f) && f < |s.futures| && s.futures[f].result.Some?
    ensures |more| <= 1 && HandsOver(replies, s, more, c, s.futures[f].result.value)
  {
    more := [Deliver(c)];
    assert Runs(Next(s, Deliver(c)), more[1..]);
  }

  lemma PublishingEnds(replies: Url -> Reply, s: State, c: nat, f: FutureId, t: nat) returns (more: seq<Action>)
    requires Awaits(s, c, f) && f < |s.futures|
    requires t < |s.tasks| && s.tasks[t].shared == f && s.tasks[t].phase.Settled?
    ensures |more| <= 2 && HandsOver(replies, s, more, c, s.tasks[t].phase.outcome)
  {
    var rest := DeliveryEnds(replies, Next(s, Publish(t)), c, f);
    more := [Publish(t)] + rest;
    HandsOverLater(replies, s, Publish(t), rest, c, s.tasks[t].phase.outcome);
  }

  lemma RequestEnds(replies: Url -> Reply, s: State, c: nat, f: FutureId, t: nat, now: Clock)
    returns (more: seq<Action>)
    requires Awaits(s, c, f) && f < |s.futures|
    requires t < |s.tasks| && s.tasks[t].shared == f && s.tasks[t].phase.Requesting?
    requires replies(s.tasks[t].url).Possible()
    ensures |more| <= 3 && HandsOver(replies, s, more, c, replies(s.tasks[t].url).Outcome())
  {
    var reply := replies(s.tasks[t].url);
    var rest := PublishingEnds(replies, Next(s, Settle(t, reply, now)), c, f, t);
    more := [Settle(t, reply, now)] + rest;
    HandsOverLater(replies, s, Settle(t, reply, now), rest, c, reply.Outcome());
  }

  /** What the request behind the future ends with, or ended with. */
  ghost predicate EndsWith(s: State, f: FutureId, reply: Reply, outcome: Outcome) {
    && (UnderWay(s, f) ==> outcome == reply.Outcome())
    && (forall t: nat :: t < |s.tasks| && s.tasks[t].shared == f && !s.tasks[t].phase.Requesting? ==>
          outcome == s.tasks[t].phase.outcome)
  }

  /** A caller waiting on the future, or about to start its task. */
  predicate Expects(s: State, c: nat, f: FutureId) {
    Awaits(s, c, f) || (InStage(s, c) && s.callers[c].position.stage == Leading(f))
  }

  /** Where the leader has yet to start the task, four actions do. */
  lemma LeaderStartsIt(replies: Url -> Reply, s: State, owners: seq<Owner>, c: nat, f: FutureId, now: Clock)
    returns (more: seq<Action>)
    requires Owned(s, owners) && Expects(s, c, f) && f < |s.futures| && owners[f].Led?
    requires replies(s.futures[f].url).Possible()
    ensures |more| <= 4 && HandsOver(replies, s, more, c, replies(s.futures[f].url).Outcome())
  {
    assert Placed(s, owners, c) && Owns(s, f, owners[f]);
    var leader := owners[f].c;
    var rest := RequestEnds(replies, Next(s, Spawn(leader)), c, f, |s.tasks|, now);
    more := [Spawn(leader)] + rest;
    HandsOverLater(replies, s, Spawn(leader), rest, c, replies(s.futures[f].url).Outcome());
  }

  lemma ExpectingEnds(replies: Url -> Reply, s: State, owners: seq<Owner>, c: nat, f: FutureId, now: Clock)
    returns (more: seq<Action>, outcome: Outcome)
    requires Owned(s, owners) && Expects(s, c, f) && replies(s.callers[c].AskedUrl()).Possible()
    ensures |more| <= 4 && HandsOver(replies, s, more, c, outcome)
    ensures EndsWith(s, f, replies(s.callers[c].AskedUrl()), outcome)
  {
    assert Placed(s, owners, c);
    assert Owns(s, f, owners[f]);
    UnderWayIsActive(s, owners, f);
    match owners[f]
    case Led(leader) =>
      more := LeaderStartsIt(replies, s, owners, c, f, now);
      outcome := replies(s.futures[f].url).Outcome();
    case Ran(t) =>
      match s.tasks[t].phase
      case Requesting =>
        more := RequestEnds(replies, s, c, f, t, now);
        outcome := replies(s.tasks[t].url).Outcome();
      case Settled(settled) =>
        more := PublishingEnds(replies, s, c, f, t);
        outcome := settled;
      case Done(done) =>
        more := DeliveryEnds(replies, s, c, f);
        outcome := done;
  }

  /**
   No waiter is stranded. From every reachable state at most four actions, none of
   them the caller's own, hand an awaiting caller an outcome: the one its request
   ends with, whatever that is, while the request is under way, and after that the
   one it ended with.
   */
  lemma NobodyIsStranded(actions: seq<Action>, c: nat, f: FutureId, replies: Url -> Reply, now: Clock)
    returns (more: seq<Action>, outcome: Outcome)
    requires Runs(INITIAL, actions) && Awaits(Final(INITIAL, actions), c, f)
    requires replies(Final(INITIAL, actions).callers[c].AskedUrl()).Possible()
    ensures var s := Final(INITIAL, actions);
      && |more| <= 4 && HandsOver(replies, s, more, c, outcome)
      && EndsWith(s, f, replies(s.callers[c].AskedUrl()), outcome)
  {
    var owners := ReachableIsOwned(actions);
    more, outcome := ExpectingEnds(replies, Final(INITIAL, actions), owners, c, f, now);
  }

  /** A request is under way exactly where its future's owner has not ended it. */
  lemma UnderWayIsActive(s: State, owners: seq<Owner>, f: FutureId)
    requires Owned(s, owners) && f < |s.futures|
    ensures UnderWay(s, f) <==> Active(s, owners[f])
  {
    assert Owns(s, f, owners[f]);
    if UnderWay(s, f) {
      if c: nat :| InStage(s, c) && s.callers[c].position.stage == Leading(f) {
        OwnerIsListed(s, owners, f, Led(c));
      } else {
        var t: nat :| t < |s.tasks| && s.tasks[t].shared == f && s.tasks[t].phase.Requesting?;
        OwnerIsListed(s, owners, f, Ran(t));
      }
    }
  }

  // ------------------------------------------------------- every check ends

  /** The most keys a caller has still to ask for, the one being asked for included. */
  function KeysLeft(purpose: Purpose): nat {
    match purpose
    case Own => 3
    case Neighbour(_, todo) => Max(1, |todo|)
  }

  lemma FewerKeysLeft(subject: Subject, purpose: Purpose, outcome: Outcome)
    ensures var point := Receive(subject, purpose, outcome);
      point.Wants? ==> KeysLeft(point.purpose) < KeysLeft(purpose)
  {
  }

  /** The most actions that bring a caller standing here to an end. */
  function ActionsLeft(position: Position): nat {
    match position
    case At(purpose, Asking) => 5 * KeysLeft(purpose)
    case At(purpose, _) => 5 * KeysLeft(purpose) - 1
    case _ => 0
  }

  ghost predicate AllNearEnd(s: State) {
    forall c :: 0 <= c < |s.callers| ==> ActionsLeft(s.callers[c].position) <= 15
  }

  lemma StepKeepsNearEnd(s: State, action: Action)
    requires Enabled(s, action) && AllNearEnd(s)
    ensures AllNearEnd(Next(s, action))
  {
    match action
    case AskFor(c, now) =>
      var hit := HeldFor(s.store, s.callers[c].AskedUrl(), now);
      if hit.Some? { FewerKeysLeft(s.callers[c].subject, s.callers[c].position.purpose, Answered(hit.value)); }
    case Deliver(c) =>
      FewerKeysLeft(s.callers[c].subject, s.callers[c].position.purpose,
                    s.futures[s.callers[c].position.stage.shared].result.value);
    case _ =>
  }

  lemma {:induction false} RunKeepsNearEnd(s: State, actions: seq<Action>)
    requires Runs(s, actions) && AllNearEnd(s)
    ensures AllNearEnd(Final(s, actions))
    decreases actions
  {
    if actions != [] {
      StepKeepsNearEnd(s, actions[0]);
      RunKeepsNearEnd(Next(s, actions[0]), actions[1..]);
    }
  }

  /** Actions that finish requests, or are the caller's own asking. */
  predicate Furthers(action: Action, c: nat) {
    Finishes(action) || (action.AskFor? && action.c == c)
  }

  ghost predicate BringsToEnd(replies: Url -> Reply, s: State, more: seq<Action>, c: nat) {
    && Runs(s, more) && (forall action <- more :: Furthers(action, c)) && EndWith(replies, s, more)
    && c < |s.callers| && c < |Final(s, more).callers|
    && Final(s, more).callers[c].subject == s.callers[c].subject
    && Final(s, more).callers[c].position.Ended?
  }

  lemma {:induction false} RunsOn(replies: Url -> Reply, s: State, first: seq<Action>, later: seq<Action>)
    requires Runs(s, first) && EndWith(replies, s, first)
    requires Runs(Final(s, first), later) && EndWith(replies, Final(s, first), later)
    ensures Runs(s, first + later) && EndWith(replies, s, first + later)
    ensures Final(s, first + later) == Final(Final(s, first), later)
    decreases first
  {
    if first == [] {
      assert first + later == later;
    } else {
      RunsOn(replies, Next(s, first[0]), first[1..], later);
      assert (first + later)[1..] == first[1..] + later;
    }
  }

  lemma EndsAfter(replies: Url -> Reply, s: State, first: seq<Action>, rest: seq<Action>, c: nat)
    requires Runs(s, first) && EndWith(replies, s, first) && (forall action <- first :: Furthers(action, c))
    requires c < |s.callers| && c < |Final(s, first).callers|
    requires Final(s, first).callers[c].subject == s.callers[c].subject
    requires BringsToEnd(replies, Final(s, first), rest, c)
    ensures BringsToEnd(replies, s, first + rest, c)
  {
    RunsOn(replies, s, first, rest);
  }

  /** Where the caller stands after its asking: no nearer the start, and nearer an end. */
  lemma AskingFurthers(s: State, c: nat, now: Clock)
    requires Enabled(s, AskFor(c, now))
    ensures var s' := Next(s, AskFor(c, now));
      && s'.callers[c].subject == s.callers[c].subject && !s'.callers[c].position.Cancelled?
      && ActionsLeft(s'.callers[c].position) < ActionsLeft(s.callers[c].position)
  {
    var hit := HeldFor(s.store, s.callers[c].AskedUrl(), now);
    if hit.Some? { FewerKeysLeft(s.callers[c].subject, s.callers[c].position.purpose, Answered(hit.value)); }
  }

  lemma OneStep(replies: Url -> Reply, s: State, action: Action)
    requires Enabled(s, action) && !action.Settle?
    ensures Runs(s, [action]) && EndWith(replies, s, [action]) && Final(s, [action]) == Next(s, action)
  {
    assert Runs(Next(s, action), [action][1..]);
  }

  lemma {:induction false} CheckEnds(replies: Url -> Reply, s: State, owners: seq<Owner>, c: nat, now: Clock)
    returns (more: seq<Action>)
    requires Owned(s, owners) && Counted(s, owners) && c < |s.callers| && !s.callers[c].position.Cancelled?
    requires forall url :: replies(url).Possible()
    ensures |more| <= ActionsLeft(s.callers[c].position) && BringsToEnd(replies, s, more, c)
    decreases ActionsLeft(s.callers[c].position)
  {
    var position := s.callers[c].position;
    more := [];
    if position.At? {
      var first: seq<Action>;
      if position.stage.Asking? {
        first := [AskFor(c, now)];
        OneStep(replies, s, AskFor(c, now));
        AskingFurthers(s, c, now);
      } else {
        var outcome;
        first, outcome := ExpectingEnds(replies, s, owners, c, position.stage.shared, now);
        FewerKeysLeft(s.callers[c].subject, position.purpose, outcome);
      }
      var owners' := RunKeepsOwned(s, owners, first);
      var rest := CheckEnds(replies, Final(s, first), owners', c, now);
      more := first + rest;
      EndsAfter(replies, s, first, rest, c);
    }
  }

  /**
   Every check ends. From every reachable state at most fifteen actions, none but
   those that finish requests and the caller's own asking, bring any caller that was
   not cancelled to an end, whatever each request ends with.
   */
  lemma EveryCheckEnds(actions: seq<Action>, c: nat, replies: Url -> Reply, now: Clock) returns (more: seq<Action>)
    requires Runs(INITIAL, actions) && c < |Final(INITIAL, actions).callers|
    requires !Final(INITIAL, actions).callers[c].position.Cancelled? && forall url :: replies(url).Possible()
    ensures |more| <= 15 && BringsToEnd(replies, Final(INITIAL, actions), more, c)
  {
    var owners := ReachableIsOwned(actions);
    RunKeepsNearEnd(INITIAL, actions);
    more := CheckEnds(replies, Final(INITIAL, actions), owners, c, now);
  }

  // ------------------------------------------------ the first outcome decides

  /** The status a check may end with once it had this outcome for its own minute. */
  predicate MayEnd(subject: Subject, own: Outcome, point: Point) {
    match own
    case Broken => point == Raised
    case Failed(status) => point == Finished(status)
    case Answered(answer) =>
      var status := subject.judge(answer.pem);
      if status != SignatureInvalid || subject.minute.None? then point == Finished(status)
      else
        || point == Raised || point == Finished(SignatureValid)
        || (point.Finished? && Unvouched(subject.minute.value, answer, point.status))
  }

  /** Where a caller may stand once it had this outcome for its own minute. */
  predicate Behind(subject: Subject, own: Outcome, position: Position) {
    match position
    case At(Own, _) => false
    case At(Neighbour(tried, _), _) =>
      own == Answered(tried) && subject.judge(tried.pem) == SignatureInvalid && subject.minute.Some?
    case Ended(point) => MayEnd(subject, own, point)
    case Cancelled => true
  }

  lemma FirstOutcomeDecides(subject: Subject, own: Outcome)
    ensures Behind(subject, own, Resume(Receive(subject, Own, own)))
  {
  }

  lemma LaterOutcomesDoNot(subject: Subject, own: Outcome, purpose: Purpose, stage: Stage, outcome: Outcome)
    requires Behind(subject, own, At(purpose, stage))
    ensures Behind(subject, own, Resume(Receive(subject, purpose, outcome)))
  {
  }

  /** The request behind the future has ended with the outcome. */
  ghost predicate HasEndedWith(s: State, f: FutureId, outcome: Outcome) {
    exists t: nat ::
      t < |s.tasks| && s.tasks[t].shared == f && !s.tasks[t].phase.Requesting? && s.tasks[t].phase.outcome == outcome
  }

  /** The caller has had the outcome for its own minute, or awaits just that. */
  ghost predicate Bound(s: State, c: nat, f: FutureId, own: Outcome) {
    && c < |s.callers|
    && (Behind(s.callers[c].subject, own, s.callers[c].position)
        || (s.callers[c].position == At(Own, Waiting(f)) && HasEndedWith(s, f, own)))
  }

  lemma EndedStaysEnded(s: State, action: Action, f: FutureId, outcome: Outcome)
    requires Enabled(s, action) && HasEndedWith(s, f, outcome)
    ensures HasEndedWith(Next(s, action), f, outcome)
  {
    var t: nat :|
      t < |s.tasks| && s.tasks[t].shared == f && !s.tasks[t].phase.Requesting? && s.tasks[t].phase.outcome == outcome;
    assert t < |Next(s, action).tasks| && Next(s, action).tasks[t].shared == f;
  }

  lemma StepKeepsBound(s: State, owners: seq<Owner>, action: Action, c: nat, f: FutureId, own: Outcome)
    requires Enabled(s, action) && Owned(s, owners) && Bound(s, c, f, own)
    ensures Bound(Next(s, action), c, f, own)
    ensures Next(s, action).callers[c].subject == s.callers[c].subject
  {
    var subject, position := s.callers[c].subject, s.callers[c].position;
    if HasEndedWith(s, f, own) { EndedStaysEnded(s, action, f, own); }
    if action == Deliver(c) {
      var g := position.stage.shared;
      assert Placed(s, owners, c) && Owns(s, g, owners[g]);
      var outcome := s.futures[g].result.value;
      if position == At(Own, Waiting(f)) {
        assert outcome == own;
        FirstOutcomeDecides(subject, own);
      } else {
        LaterOutcomesDoNot(subject, own, position.purpose, position.stage, outcome);
      }
    } else if action.AskFor? && action.c == c {
      var hit := HeldFor(s.store, s.callers[c].AskedUrl(), action.now);
      if hit.Some? { LaterOutcomesDoNot(subject, own, position.purpose, position.stage, Answered(hit.value)); }
    }
  }

  lemma {:induction false} RunKeepsBound(s: State, owners: seq<Owner>, more: seq<Action>, c: nat, f: FutureId,
                                         own: Outcome)
    requires Owned(s, owners) && Runs(s, more) && Bound(s, c, f, own)
    ensures Bound(Final(s, more), c, f, own) && Final(s, more).callers[c].subject == s.callers[c].subject
    decreases more
  {
    if more != [] {
      StepKeepsBound(s, owners, more[0], c, f, own);
      StepKeepsOwned(s, owners, more[0]);
      RunKeepsBound(Next(s, more[0]), OwnersAfter(s, owners, more[0]), more[1..], c, f, own);
    }
  }

  /**
   The first outcome decides. A caller awaiting the key for its own minute, whose
   request has ended, can end only as that outcome lets it, whatever happens next: a
   failure is reported as the status it failed with, and a key that fails but says it
   was not in force never as a mismatch.
   */
  lemma OwnOutcomeDecides(actions: seq<Action>, more: seq<Action>, c: nat, f: FutureId, own: Outcome)
    requires Runs(INITIAL, actions) && Runs(Final(INITIAL, actions), more)
    requires c < |Final(INITIAL, actions).callers|
    requires Final(INITIAL, actions).callers[c].position == At(Own, Waiting(f))
    requires HasEndedWith(Final(INITIAL, actions), f, own)
    ensures var s, s' := Final(INITIAL, actions), Final(Final(INITIAL, actions), more);
      && c < |s'.callers| && s'.callers[c].subject == s.callers[c].subject
      && (s'.callers[c].position.Ended? ==> MayEnd(s.callers[c].subject, own, s'.callers[c].position.point))
      && (own.Failed? && s'.callers[c].position.Ended? ==> s'.callers[c].position == Ended(Finished(own.status)))
      && (s'.callers[c].position.At? && s'.callers[c].position.purpose.Own? ==>
            s'.callers[c].position == s.callers[c].position)
  {
    var owners := ReachableIsOwned(actions);
    RunKeepsBound(Final(INITIAL, actions), owners, more, c, f, own);
  }

  // --------------------------------------------- outcomes reach the right URL

  /** The outcomes requests ended with along a run, by the URL requested. */
  ghost function Given(s: State, actions: seq<Action>): set<(Url, Outcome)>
    requires Runs(s, actions)
    decreases actions
  {
    if actions == [] then {}
    else GivenBy(s, actions[0]) + Given(Next(s, actions[0]), actions[1..])
  }

  ghost function GivenBy(s: State, action: Action): set<(Url, Outcome)>
    requires Enabled(s, action)
  {
    if action.Settle? then {(s.tasks[action.t].url, action.reply.Outcome())} else {}
  }

  ghost predicate Traced(s: State, given: set<(Url, Outcome)>) {
    && (forall t :: 0 <= t < |s.tasks| && !s.tasks[t].phase.Requesting? ==>
          (s.tasks[t].url, s.tasks[t].phase.outcome) in given)
    && (forall f :: 0 <= f < |s.futures| && s.futures[f].result.Some? ==>
          (s.futures[f].url, s.futures[f].result.value) in given)
  }

  lemma StepKeepsTraced(s: State, owners: seq<Owner>, action: Action, given: set<(Url, Outcome)>)
    requires Enabled(s, action) && Owned(s, owners) && Traced(s, given)
    ensures Traced(Next(s, action), given + GivenBy(s, action))
  {
    if action.Publish? {
      var f := s.tasks[action.t].shared;
      assert Owns(s, f, owners[f]);
    }
  }

  lemma {:induction false} RunKeepsTraced(s: State, owners: seq<Owner>, actions: seq<Action>,
                                          given: set<(Url, Outcome)>)
    requires Owned(s, owners) && Runs(s, actions) && Traced(s, given)
    ensures Traced(Final(s, actions), given + Given(s, actions))
    decreases actions
  {
    if actions == [] {
      assert given + {} == given;
    } else {
      StepKeepsOwned(s, owners, actions[0]);
      StepKeepsTraced(s, owners, actions[0], given);
      RunKeepsTraced(Next(s, actions[0]), OwnersAfter(s, owners, actions[0]), actions[1..],
                     given + GivenBy(s, actions[0]));
      assert given + GivenBy(s, actions[0]) + Given(Next(s, actions[0]), actions[1..]) == given + Given(s, actions);
    }
  }

  /** What a waiting caller receives ended a request for the very URL it asked for. */
  lemma DeliveredForOwnUrl(actions: seq<Action>, c: nat)
    requires Runs(INITIAL, actions) && Enabled(Final(INITIAL, actions), Deliver(c))
    ensures var s := Final(INITIAL, actions);
      var outcome := s.futures[s.callers[c].position.stage.shared].result.value;
      (s.callers[c].AskedUrl(), outcome) in Given(INITIAL, actions)
  {
    var s := Final(INITIAL, actions);
    var owners := ReachableIsOwned(actions);
    RunKeepsTraced(INITIAL, [], actions, {});
    assert {} + Given(INITIAL, actions) == Given(INITIAL, actions);
    assert Placed(s, owners, c);
  }

  // ---------------------------------------------------------- cancellation

  /**
   Cancelling one caller cancels nothing else. Any caller awaiting a request may be
   cancelled; the request, what it may hold and all who await it are as they were.
   */
  lemma CancellingIsForOne(s: State, c: nat, f: FutureId)
    requires Awaits(s, c, f)
    ensures Enabled(s, Cancel(c))
    ensures var s' := Next(s, Cancel(c));
      && s' == s.(callers := s.callers[c := Caller(s.callers[c].subject, Cancelled)])
      && (forall d: nat, g: nat :: d != c ==> (Awaits(s', d, g) <==> Awaits(s, d, g)))
      && (forall g :: UnderWay(s', g) <==> UnderWay(s, g))
  {
    var s' := Next(s, Cancel(c));
    forall g
      ensures UnderWay(s', g) <==> UnderWay(s, g)
    {
      forall d: nat
        ensures InStage(s', d) && s'.callers[d].position.stage == Leading(g)
          <==> InStage(s, d) && s.callers[d].position.stage == Leading(g)
      {
      }
    }
  }

  // ----------------------------------------------------------------- clears

  /**
   What a clear does in the middle of requests. The next caller for any key starts
   a request of its own, on a future nobody awaits. The requests already running
   are not stopped: those who await them still do, and their answers are held in
   the emptied store when they end, so what was asked before a clear survives it.
   */
  lemma ClearStartsAfresh(actions: seq<Action>, c: nat, t: nat, reply: Reply, now: Clock, later: Clock)
    requires Runs(INITIAL, actions)
    ensures var s := Final(INITIAL, actions);
      var s' := Next(s, Clear);
      && (Enabled(s', AskFor(c, now)) ==>
            && Next(s', AskFor(c, now)).callers[c].position.At?
            && Next(s', AskFor(c, now)).callers[c].position.stage == Leading(|s.futures|)
            && forall d: nat, f: nat :: Awaits(s', d, f) ==> f != |s.futures|)
      && (forall d: nat, f: nat :: Awaits(s, d, f) <==> Awaits(s', d, f))
      && (Enabled(s, Settle(t, reply, later)) && reply.Replied? ==>
            && Enabled(s', Settle(t, reply, later))
            && Next(s', Settle(t, reply, later)).store
               == Hold(EMPTY, s.tasks[t].url, reply.pem, reply.start, reply.end, later))
  {
    var s := Final(INITIAL, actions);
    var owners := ReachableIsOwned(actions);
    var s' := Next(s, Clear);
    forall d: nat, f: nat | Awaits(s', d, f)
      ensures f < |s.futures|
    {
      assert Placed(s, owners, d);
    }
  }
}
