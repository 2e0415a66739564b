/**
 The verdict on a signature, as the coroutine that asks for the key, and then for
 the neighbouring keys, reaches it. The coroutine is a state machine whose every
 step consumes the outcome of one request for a key.
 */
module Verdict {
  import opened Common
  import opened KeyStore
  import opened StoreLaws
  import opened Timeline

  /** What the checks on an OWID need of it: where its key is asked for, the minute
      it carries, where that can be counted, and its status under a given key. */
  datatype Subject = Subject(endPoint: EndPoint, minute: Option<Minute>, judge: Pem -> SignatureStatus)

  /** How asking for one key ends: with the key, with a fetch error that names the
      status to report, or with an error this package did not raise. */
  datatype Outcome = Answered(answer: Answer) | Failed(status: SignatureStatus) | Broken

  /** Which key is being asked for. */
  datatype Purpose = Own | Neighbour(tried: Answer, todo: seq<Minute>)

  /** Where the coroutine stands between two outcomes. */
  datatype Point = Wants(purpose: Purpose) | Finished(status: SignatureStatus) | Raised

  predicate NearEdge(minute: Minute, edge: Minute) {
    edge - CLOCK_DRIFT_ALLOWANCE_MINUTES <= minute <= edge + CLOCK_DRIFT_ALLOWANCE_MINUTES
  }

  /** The minutes just beyond the edges of the span stated that the OWID is near. */
  function Beyond(minute: Minute, tried: Answer): seq<Minute> {
    if !tried.known then []
    else
      (if tried.first > 0 && NearEdge(minute, tried.first) then [tried.first - 1] else []) +
      (if tried.last < LAST_MINUTE && NearEdge(minute, tried.last) then [tried.last + 1] else [])
  }

  /** The answer where neither the key selected nor a neighbour verifies. */
  function Conclude(minute: Minute, tried: Answer): SignatureStatus {
    if tried.known && !tried.Covers(minute) then KeyUnavailable else SignatureInvalid
  }

  function Ahead(minute: Minute, tried: Answer, todo: seq<Minute>): Point {
    if todo == [] then Finished(Conclude(minute, tried)) else Wants(Neighbour(tried, todo))
  }

  /** The minute the next request names. */
  function Asks(subject: Subject, purpose: Purpose): Option<Minute> {
    if purpose.Own? then subject.minute
    else if purpose.todo == [] then None
    else Some(purpose.todo[0])
  }

  function UrlOf(subject: Subject, purpose: Purpose): Url {
    Url(subject.endPoint, Asks(subject, purpose))
  }

  /** One step: what the coroutine does with the outcome it was waiting for. */
  function Receive(subject: Subject, purpose: Purpose, outcome: Outcome): Point {
    match purpose
    case Own =>
      (match outcome
       case Broken => Raised
       case Failed(status) => Finished(status)
       case Answered(answer) =>
         var status := subject.judge(answer.pem);
         if status != SignatureInvalid || subject.minute.None? then Finished(status)
         else Ahead(subject.minute.value, answer, Beyond(subject.minute.value, answer)))
    case Neighbour(tried, todo) =>
      if outcome.Broken? || todo == [] || subject.minute.None? then Raised
      else if outcome.Answered? && outcome.answer.pem != tried.pem
              && subject.judge(outcome.answer.pem) == SignatureValid then Finished(SignatureValid)
      else Ahead(subject.minute.value, tried, todo[1..])
  }

  /** The whole coroutine, given the outcomes it receives in order. */
  function Run(subject: Subject, outcomes: seq<Outcome>): Point {
    if outcomes == [] then Wants(Own)
    else
      var before := Run(subject, outcomes[..|outcomes| - 1]);
      if before.Wants? then Receive(subject, before.purpose, outcomes[|outcomes| - 1]) else before
  }

  // ------------------------------------------------- the loop in the source

  /** The neighbours tried in turn. The outcomes are those of the requests made. */
  method NeighbourVerifies(subject: Subject, minute: Minute, own: Outcome, neighbours: seq<Outcome>)
    returns (verified: Option<bool>)
    requires subject.minute == Some(minute) && own.Answered? && |neighbours| == 2
    requires subject.judge(own.answer.pem) == SignatureInvalid
    ensures exists used | 0 <= used <= 2 ::
      Run(subject, [own] + neighbours[..used]) ==
        match verified
        case None => Raised
        case Some(true) => Finished(SignatureValid)
        case Some(false) => Finished(Conclude(minute, own.answer))
  {
    var tried := own.answer;
    var beyond := Beyond(minute, tried);
    assert Run(subject, [own] + neighbours[..0]) == Ahead(minute, tried, beyond[0..]) by {
      assert [own] + neighbours[..0] == [own] && [own][..0] == [];
    }
    var i := 0;
    while i < |beyond|
      invariant 0 <= i <= |beyond| <= 2
      invariant Run(subject, [own] + neighbours[..i]) == Ahead(minute, tried, beyond[i..])
    {
      assert ([own] + neighbours[..i + 1])[..i + 1] == [own] + neighbours[..i];
      var outcome := neighbours[i];
      i := i + 1;
      if outcome.Broken? { return None; }
      if outcome.Failed? { continue; }
      if outcome.answer.pem == tried.pem { continue; }
      if subject.judge(outcome.answer.pem) == SignatureValid { return Some(true); }
    }
    return Some(false);
  }

  /** The work done once the URL is known. */
  method SignatureStatusAtUrl(subject: Subject, own: Outcome, neighbours: seq<Outcome>)
    returns (status: Option<SignatureStatus>)
    requires |neighbours| == 2
    ensures exists used | 0 <= used <= 2 ::
      Run(subject, [own] + neighbours[..used]) == (if status.Some? then Finished(status.value) else Raised)
  {
    assert [own] + neighbours[..0] == [own] && [own][..0] == [];
    assert Run(subject, [own] + neighbours[..0]) == Receive(subject, Own, own);
    match own
    case Broken => return None;
    case Failed(failed) => return Some(failed);
    case Answered(answer) =>
      var found := subject.judge(answer.pem);
      if found != SignatureInvalid || subject.minute.None? { return Some(found); }
      var minute := subject.minute.value;
      var verified := NeighbourVerifies(subject, minute, own, neighbours);
      if verified.None? { return None; }
      if verified.value { return Some(SignatureValid); }
      if answer.known && !answer.Covers(minute) { return Some(KeyUnavailable); }
      return Some(found);
  }

  // -------------------------------------------------------- what INVALID means

  ghost predicate NoneVerified(subject: Subject, outcomes: seq<Outcome>) {
    forall outcome <- outcomes :: outcome.Answered? ==> subject.judge(outcome.answer.pem) != SignatureValid
  }

  /** A verdict that rests on the key of the first answer and on every neighbour asked. */
  ghost predicate RestsOn(subject: Subject, outcomes: seq<Outcome>, point: Point) {
    match point
    case Wants(Own) => outcomes == []
    case Wants(Neighbour(tried, _)) =>
      && NoneVerified(subject, outcomes) && subject.minute.Some?
      && outcomes != [] && outcomes[0] == Outcome.Answered(tried) && subject.judge(tried.pem) == SignatureInvalid
    case Finished(SignatureInvalid) =>
      && NoneVerified(subject, outcomes) && outcomes != [] && outcomes[0].Answered?
      && subject.judge(outcomes[0].answer.pem) == SignatureInvalid
      && (subject.minute.Some? && outcomes[0].answer.known ==> outcomes[0].answer.Covers(subject.minute.value))
    case Finished(SignatureValid) =>
      exists outcome <- outcomes :: outcome.Answered? && subject.judge(outcome.answer.pem) == SignatureValid
    case _ => true
  }

  predicate JudgesNothing(outcome: Outcome) {
    outcome.Failed? ==> outcome.status != SignatureInvalid && outcome.status != SignatureValid
  }

  lemma ReceivingRestsOn(subject: Subject, outcomes: seq<Outcome>, purpose: Purpose, outcome: Outcome)
    requires RestsOn(subject, outcomes, Wants(purpose)) && JudgesNothing(outcome)
    ensures RestsOn(subject, outcomes + [outcome], Receive(subject, purpose, outcome))
  {
    var after := outcomes + [outcome];
    assert after[|outcomes|] == outcome;
    assert outcomes == [] ==> after == [outcome];
    assert outcomes != [] ==> after[0] == outcomes[0];
  }

  /**
   What the two answers about the signature mean. Valid: a key received verifies
   it. Invalid: none received does, and the key answered for the OWID's own minute
   does not say of itself that it was not in force then.
   */
  lemma {:induction false} VerdictRestsOnKeys(subject: Subject, outcomes: seq<Outcome>)
    requires forall outcome <- outcomes :: JudgesNothing(outcome)
    requires forall i :: 0 <= i < |outcomes| ==> Run(subject, outcomes[..i]).Wants?
    ensures RestsOn(subject, outcomes, Run(subject, outcomes))
    decreases outcomes
  {
    if outcomes != [] {
      var n := |outcomes| - 1;
      assert forall i | 0 <= i < n :: outcomes[..n][..i] == outcomes[..i];
      VerdictRestsOnKeys(subject, outcomes[..n]);
      assert outcomes[..n] + [outcomes[n]] == outcomes && outcomes[n] in outcomes;
      ReceivingRestsOn(subject, outcomes[..n], Run(subject, outcomes[..n]).purpose, outcomes[n]);
    }
  }

  // ------------------------------------------------- the verdict, read off the outcomes

  /** A neighbouring key that verifies what the key answered first did not. */
  predicate Vouches(subject: Subject, own: Answer, outcome: Outcome) {
    outcome.Answered? && outcome.answer.pem != own.pem && subject.judge(outcome.answer.pem) == SignatureValid
  }

  ghost predicate NoneVouches(subject: Subject, own: Answer, outcomes: seq<Outcome>) {
    forall i :: 1 <= i < |outcomes| ==> !Vouches(subject, own, outcomes[i])
  }

  /** The status where a key does not verify and no neighbour vouches: a key that says
      of itself that it was not in force proves nothing. */
  predicate Unvouched(minute: Minute, own: Answer, status: SignatureStatus) {
    status == if own.known && (minute < own.first || own.last < minute) then KeyUnavailable else SignatureInvalid
  }

  /** What the outcomes received mean, without the steps that received them. */
  ghost predicate ReadsOff(subject: Subject, outcomes: seq<Outcome>, point: Point) {
    if outcomes == [] then point == Wants(Own)
    else if outcomes[0].Broken? then point == Raised
    else if outcomes[0].Failed? then point == Finished(outcomes[0].status)
    else
      var own := outcomes[0].answer;
      var status := subject.judge(own.pem);
      if status != SignatureInvalid || subject.minute.None? then point == Finished(status)
      else
        match point
        case Wants(Own) => false
        case Wants(Neighbour(tried, _)) => tried == own && NoneVouches(subject, own, outcomes)
        case Raised => |outcomes| > 1 && outcomes[|outcomes| - 1].Broken? && NoneVouches(subject, own, outcomes)
        case Finished(ended) =>
          if ended == SignatureValid then !NoneVouches(subject, own, outcomes)
          else
            && NoneVouches(subject, own, outcomes) && Unvouched(subject.minute.value, own, ended)
            && (|outcomes| > 1 ==> !outcomes[|outcomes| - 1].Broken?)
  }

  lemma ReceivingReadsOff(subject: Subject, outcomes: seq<Outcome>, purpose: Purpose, outcome: Outcome)
    requires ReadsOff(subject, outcomes, Wants(purpose))
    requires purpose.Neighbour? ==> purpose.todo != []
    ensures ReadsOff(subject, outcomes + [outcome], Receive(subject, purpose, outcome))
  {
    var after := outcomes + [outcome];
    assert after[|after| - 1] == outcome && forall i | 0 <= i < |outcomes| :: after[i] == outcomes[i];
  }

  /**
   The verdict read off the outcomes. A failed request for the OWID's own key ends the
   check with the status it failed with. A key that decides is decisive. Else a
   neighbour that verifies makes it valid, and without one it is a mismatch, or
   unavailable where the key said it was not in force at the minute.
   */
  lemma {:induction false} VerdictIsReadOff(subject: Subject, outcomes: seq<Outcome>)
    requires forall i :: 0 <= i < |outcomes| ==> Run(subject, outcomes[..i]).Wants?
    ensures ReadsOff(subject, outcomes, Run(subject, outcomes))
    decreases outcomes
  {
    if outcomes != [] {
      var n := |outcomes| - 1;
      assert forall i | 0 <= i < n :: outcomes[..n][..i] == outcomes[..i];
      VerdictIsReadOff(subject, outcomes[..n]);
      AtMostTwoNeighbours(subject, outcomes[..n]);
      assert outcomes[..n] + [outcomes[n]] == outcomes;
      ReceivingReadsOff(subject, outcomes[..n], Run(subject, outcomes[..n]).purpose, outcomes[n]);
    }
  }

  /** The neighbours asked for: the minutes next to a stated edge no more than the drift
      allowance away, the earlier first, and none where no span was stated. */
  lemma NeighboursAsked(minute: Minute, tried: Answer, at: int)
    ensures at in Beyond(minute, tried) <==>
      && tried.known
      && (|| (at == tried.first - 1 && at >= 0 && -15 <= minute - tried.first <= 15)
          || (at == tried.last + 1 && at <= LAST_MINUTE && -15 <= minute - tried.last <= 15))
    ensures tried.first <= tried.last ==>
      forall i, j :: 0 <= i < j < |Beyond(minute, tried)| ==> Beyond(minute, tried)[i] < Beyond(minute, tried)[j]
  {
  }

  // ------------------------------------------------------ where outcomes come from

  /** One outcome delivered: found in the store after a run of events, or the
      creator's answer to the request, or a failure that leaves the key unknown. */
  datatype Source =
    | FromStore(events: seq<Event>, now: Clock)
    | FromCreator(creator: Creator, k: nat, pem: Pem, start: Option<Minute>, end: Option<Minute>)
    | NoAnswer(status: SignatureStatus)
    | Crash

  ghost predicate Delivers(periods: seq<Period>, url: Url, source: Source, outcome: Outcome) {
    match source
    case FromStore(events, now) =>
      && (forall event <- events :: Honest(periods, false, url.endPoint, event))
      && var hit := HeldFor(After(EMPTY, events), url, now);
      && hit.Some? && outcome == Outcome.Answered(hit.value)
    case FromCreator(creator, k, pem, start, end) =>
      && Possible(periods, creator)
      && Truthful(periods, creator, k, url.date, pem, start, end)
      && outcome == Outcome.Answered(Stated(pem, start, end))
    case NoAnswer(status) =>
      && outcome == Failed(status) && (status == KeyUnavailable || status == InvalidKey)
    case Crash => outcome == Broken
  }

  /** Every outcome of the run was delivered for the URL the coroutine asked. */
  ghost predicate AllDelivered(periods: seq<Period>, subject: Subject, sources: seq<Source>, outcomes: seq<Outcome>) {
    && |sources| == |outcomes|
    && forall i :: 0 <= i < |outcomes| ==> DeliveredAt(periods, subject, sources, outcomes, i)
  }

  ghost predicate DeliveredAt(periods: seq<Period>, subject: Subject, sources: seq<Source>, outcomes: seq<Outcome>,
                              i: nat)
    requires i < |outcomes| == |sources|
  {
    var before := Run(subject, outcomes[..i]);
    before.Wants? && Delivers(periods, UrlOf(subject, before.purpose), sources[i], outcomes[i])
  }

  lemma AllButLastDelivered(periods: seq<Period>, subject: Subject, sources: seq<Source>, outcomes: seq<Outcome>)
    requires AllDelivered(periods, subject, sources, outcomes) && outcomes != []
    ensures AllDelivered(periods, subject, sources[..|sources| - 1], outcomes[..|outcomes| - 1])
  {
    var n := |outcomes| - 1;
    forall i | 0 <= i < n
      ensures DeliveredAt(periods, subject, sources[..n], outcomes[..n], i)
    {
      assert DeliveredAt(periods, subject, sources, outcomes, i);
      assert outcomes[..n][..i] == outcomes[..i];
    }
  }

  /** The creator's clock had reached the minute whenever it was asked. */
  predicate ClockReached(source: Source, minute: int) {
    source.FromCreator? ==> source.creator.clock >= minute
  }

  // -------------------------------------------------- VALID is bounded in time

  /** The signature verifies under a key in force within the bound of the minute. */
  ghost predicate VerifiesNear(periods: seq<Period>, subject: Subject, minute: int, bound: nat) {
    exists k: nat, at: int ::
      && InForce(periods, k, at) && minute - bound <= at <= minute + bound
      && subject.judge(periods[k].pem) == SignatureValid
  }

  /** The key an outcome brings is one in force at the minute asked, or between the
      OWID's own minute and the minute asked where the creator's clock lies there. */
  lemma AnswerIsInForce(periods: seq<Period>, minute: Minute, url: Url, source: Source, outcome: Outcome)
    returns (k: nat, at: int)
    requires Proper(periods) && url.date.Some? && outcome.Answered?
    requires Delivers(periods, url, source, outcome) && ClockReached(source, minute)
    ensures InForce(periods, k, at) && outcome.answer.pem == periods[k].pem
    ensures at == url.date.value || minute <= at <= url.date.value
    ensures ClockReached(source, url.date.value) ==> at == url.date.value
  {
    if source.FromStore? {
      k := CacheAgreesWithCreator(periods, false, url, source.events, source.now);
      at := url.date.value;
    } else {
      k, at := source.k, LookedUp(url.date, source.creator.clock);
      PublishedIsFinal(periods, source.creator, k, at);
    }
  }

  const BOUND: nat := CLOCK_DRIFT_ALLOWANCE_MINUTES + 1

  ghost predicate TodoIsNear(minute: Minute, point: Point) {
    point.Wants? && point.purpose.Neighbour? ==>
      forall at <- point.purpose.todo :: minute - BOUND <= at <= minute + BOUND
  }

  lemma StepKeepsNear(subject: Subject, minute: Minute, purpose: Purpose, outcome: Outcome)
    requires subject.minute == Some(minute) && TodoIsNear(minute, Wants(purpose))
    ensures TodoIsNear(minute, Receive(subject, purpose, outcome))
  {
    if purpose.Neighbour? && purpose.todo != [] {
      assert forall at <- purpose.todo[1..] :: at in purpose.todo;
    }
  }

  lemma {:induction false} TodoStaysNear(subject: Subject, minute: Minute, outcomes: seq<Outcome>)
    requires subject.minute == Some(minute)
    ensures TodoIsNear(minute, Run(subject, outcomes))
    decreases outcomes
  {
    if outcomes != [] {
      var n := |outcomes| - 1;
      TodoStaysNear(subject, minute, outcomes[..n]);
      if Run(subject, outcomes[..n]).Wants? {
        StepKeepsNear(subject, minute, Run(subject, outcomes[..n]).purpose, outcomes[n]);
      }
    }
  }

  /**
   An OWID reported valid was signed with a key in force no further than the
   drift allowance and one minute from its date, however its keys were obtained.
   */
  lemma {:induction false} ValidIsBoundedInTime(periods: seq<Period>, subject: Subject, minute: Minute,
                                                sources: seq<Source>, outcomes: seq<Outcome>)
    requires Proper(periods) && subject.minute == Some(minute)
    requires AllDelivered(periods, subject, sources, outcomes)
    requires forall source <- sources :: ClockReached(source, minute)
    ensures Run(subject, outcomes) == Finished(SignatureValid) ==> VerifiesNear(periods, subject, minute, BOUND)
    decreases outcomes
  {
    if outcomes != [] {
      var n := |outcomes| - 1;
      AllButLastDelivered(periods, subject, sources, outcomes);
      ValidIsBoundedInTime(periods, subject, minute, sources[..n], outcomes[..n]);
      assert DeliveredAt(periods, subject, sources, outcomes, n);
      var purpose := Run(subject, outcomes[..n]).purpose;
      TodoStaysNear(subject, minute, outcomes[..n]);
      if outcomes[n].Answered? && (purpose.Own? || purpose.todo != []) {
        var k, at := AnswerIsInForce(periods, minute, UrlOf(subject, purpose), sources[n], outcomes[n]);
        assert purpose.Neighbour? ==> purpose.todo[0] in purpose.todo;
      }
    }
  }

  // ------------------------------------------------------- skew at an edge

  /** The minute beyond the edge of period k that the signing period j lies across. */
  function Across(periods: seq<Period>, k: nat, j: nat): int
    requires k < |periods| && j < |periods|
  {
    if j > k then periods[j].start else periods[k].start - 1
  }

  /** The periods lie side by side, the minute is near the edge they share, and the
      minute across it can be asked about. */
  predicate Adjacent(periods: seq<Period>, minute: Minute, k: nat, j: nat)
    requires k < |periods|
  {
    && (j == k + 1 || j + 1 == k) && j < |periods|
    && NearEdgeOf(minute, periods[Max(j, k)].start, j > k)
    && 0 <= Across(periods, k, j) <= LAST_MINUTE
  }

  /** The OWID carries a minute of period k, near the edge shared with period j,
      and it was signed with the key of period j and no other. */
  ghost predicate SignedAcross(periods: seq<Period>, subject: Subject, minute: Minute, k: nat, j: nat) {
    && subject.minute == Some(minute) && InForce(periods, k, minute) && Adjacent(periods, minute, k, j)
    && forall i: nat :: i < |periods| ==>
         subject.judge(periods[i].pem) == if i == j then SignatureValid else SignatureInvalid
  }

  /** The edge is the first minute of the later period, or the last of the earlier. */
  predicate NearEdgeOf(minute: Minute, start: int, before: bool) {
    var edge := if before then start - 1 else start;
    edge - CLOCK_DRIFT_ALLOWANCE_MINUTES <= minute <= edge + CLOCK_DRIFT_ALLOWANCE_MINUTES
  }

  /** The answer says where its period meets the signing one. A caller can see it. */
  predicate StatesEdge(answer: Answer, later: bool) {
    answer.known && (later ==> answer.last < LAST_MINUTE)
  }

  function SkewVerdict(own: Answer, later: bool): SignatureStatus {
    if StatesEdge(own, later) then SignatureValid else SignatureInvalid
  }

  ghost predicate SkewPoint(periods: seq<Period>, k: nat, j: nat, own: Answer, point: Point)
    requires k < |periods| && j < |periods|
  {
    match point
    case Finished(status) => status == SkewVerdict(own, j > k)
    case Raised => false
    case Wants(Own) => false
    case Wants(Neighbour(tried, todo)) =>
      && tried == own && todo != []
      && (forall at <- todo :: at == periods[k].start - 1 || (k + 1 < |periods| && at == periods[k + 1].start))
      && (Across(periods, k, j) in todo <==> StatesEdge(own, j > k))
  }

  lemma OwnAnswerUnderSkew(periods: seq<Period>, subject: Subject, minute: Minute, k: nat, j: nat, own: Answer)
    requires Proper(periods) && SignedAcross(periods, subject, minute, k, j)
    requires StatesEdges(periods, false, k, own)
    ensures SkewPoint(periods, k, j, own, Receive(subject, Own, Outcome.Answered(own)))
  {
    var todo := Beyond(minute, own);
    if own.known {
      assert j < k ==> todo[0] == own.first - 1;
      assert j > k && own.last < LAST_MINUTE ==> todo[|todo| - 1] == own.last + 1;
    }
  }

  lemma NeighbourUnderSkew(periods: seq<Period>, subject: Subject, minute: Minute, k: nat, j: nat, own: Answer,
                           todo: seq<Minute>, answer: Answer, i: nat, at: int)
    requires Proper(periods) && SignedAcross(periods, subject, minute, k, j)
    requires own.pem == periods[k].pem
    requires StatesEdges(periods, false, k, own)
    requires SkewPoint(periods, k, j, own, Wants(Neighbour(own, todo)))
    requires InForce(periods, i, at) && answer.pem == periods[i].pem
    requires at == todo[0] || minute <= at <= todo[0]
    requires todo[0] == Across(periods, k, j) ==> at == todo[0]
    ensures SkewPoint(periods, k, j, own, Receive(subject, Neighbour(own, todo), Outcome.Answered(answer)))
  {
    if todo[0] == Across(periods, k, j) {
      assert InForce(periods, j, at);
      OneInForce(periods, i, j, at);
    } else {
      assert todo[0] in todo;
      assert j > k ==> periods[k].start < periods[j].start;
      assert k + 1 < |periods| ==> periods[k].start < periods[k + 1].start;
      assert !InForce(periods, j, at);
      assert todo[1..] != [] ==> forall m <- todo[1..] :: m in todo;
      assert Across(periods, k, j) in todo <==> Across(periods, k, j) in todo[1..];
    }
  }

  /**
   Clock skew is forgiven exactly where the answer states the edge. An OWID dated
   within the allowance of an edge but signed with the adjacent key across it is
   reported valid if the answer for its own minute says where that edge is, and
   as not matching if the answer does not.
   */
  lemma {:induction false} SkewIsForgivenIfEdgeStated(
    periods: seq<Period>, subject: Subject, minute: Minute, k: nat, j: nat, own: Answer,
    sources: seq<Source>, outcomes: seq<Outcome>)
    requires Proper(periods) && SignedAcross(periods, subject, minute, k, j)
    requires AllDelivered(periods, subject, sources, outcomes)
    requires forall outcome <- outcomes :: outcome.Answered?
    requires forall source <- sources :: ClockReached(source, Max(minute, Across(periods, k, j)))
    requires outcomes != [] && outcomes[0] == Outcome.Answered(own)
    ensures SkewPoint(periods, k, j, own, Run(subject, outcomes))
    decreases outcomes
  {
    var n := |outcomes| - 1;
    assert DeliveredAt(periods, subject, sources, outcomes, n);
    var purpose := Run(subject, outcomes[..n]).purpose;
    assert sources[n] in sources && outcomes[n] in outcomes && sources[0] in sources;
    assert DeliveredAt(periods, subject, sources, outcomes, 0);
    OwnAnswerIsInForce(periods, subject, minute, k, sources[0], own);
    if n == 0 {
      OwnAnswerUnderSkew(periods, subject, minute, k, j, own);
    } else {
      AllButLastDelivered(periods, subject, sources, outcomes);
      SkewIsForgivenIfEdgeStated(periods, subject, minute, k, j, own, sources[..n], outcomes[..n]);
      var i, at := AnswerIsInForce(periods, minute, UrlOf(subject, purpose), sources[n], outcomes[n]);
      NeighbourUnderSkew(periods, subject, minute, k, j, own, purpose.todo, outcomes[n].answer, i, at);
    }
  }

  /** The answer for the OWID's own minute is its key, and states edges truly. */
  lemma OwnAnswerIsInForce(periods: seq<Period>, subject: Subject, minute: Minute, k: nat, source: Source, own: Answer)
    requires Proper(periods) && subject.minute == Some(minute) && InForce(periods, k, minute)
    requires Delivers(periods, UrlOf(subject, Own), source, Outcome.Answered(own)) && ClockReached(source, minute)
    ensures StatesEdges(periods, false, k, own)
  {
    var url := UrlOf(subject, Own);
    var i: nat;
    if source.FromStore? {
      i := CacheAgreesWithCreator(periods, false, url, source.events, source.now);
    } else {
      i := source.k;
      AnswerStatesEdges(periods, source.creator, i, url.date, source.pem, source.start, source.end);
      PublishedIsFinal(periods, source.creator, i, minute);
    }
    OneInForce(periods, i, k, minute);
  }

  /** At most two more requests follow the first, whatever they bring. */
  lemma {:induction false} AtMostTwoNeighbours(subject: Subject, outcomes: seq<Outcome>)
    ensures var point := Run(subject, outcomes);
      point.Wants? ==>
        if outcomes == [] then point.purpose.Own?
        else point.purpose.Neighbour? && 0 < |point.purpose.todo| <= 3 - |outcomes|
    decreases outcomes
  {
    if outcomes != [] {
      AtMostTwoNeighbours(subject, outcomes[..|outcomes| - 1]);
    }
  }

  /** A creator whose whole schedule is published, and which states its spans. */
  ghost predicate WholeSource(periods: seq<Period>, url: Url, source: Source) {
    match source
    case FromStore(events, now) => forall event <- events :: Honest(periods, true, url.endPoint, event)
    case FromCreator(creator, k, pem, start, end) => creator.published == |periods| && start.Some?
    case _ => false
  }

  /** Its answer for the OWID's own minute states the whole of its period. */
  lemma OwnAnswerIsWhole(periods: seq<Period>, subject: Subject, minute: Minute, k: nat, source: Source, own: Answer)
    requires Proper(periods) && subject.minute == Some(minute) && InForce(periods, k, minute)
    requires Delivers(periods, UrlOf(subject, Own), source, Outcome.Answered(own)) && ClockReached(source, minute)
    requires WholeSource(periods, UrlOf(subject, Own), source)
    ensures StatesEdges(periods, true, k, own)
  {
    var url := UrlOf(subject, Own);
    OwnAnswerIsInForce(periods, subject, minute, k, source, own);
    if source.FromStore? {
      var i := CacheAgreesWithCreator(periods, true, url, source.events, source.now);
    } else {
      AnswerStatesEdges(periods, source.creator, source.k, url.date, source.pem, source.start, source.end);
    }
  }

  lemma WholeStatesEdge(periods: seq<Period>, minute: Minute, k: nat, j: nat, own: Answer)
    requires Proper(periods) && k < |periods| && Adjacent(periods, minute, k, j) && StatesEdges(periods, true, k, own)
    ensures StatesEdge(own, j > k)
  {
  }

  /**
   Under such a creator skew is always forgiven: from every state of the store,
   once the creator's clock has reached the minute across the edge.
   */
  lemma SkewIsForgiven(periods: seq<Period>, subject: Subject, minute: Minute, k: nat, j: nat,
                       sources: seq<Source>, outcomes: seq<Outcome>)
    requires Proper(periods) && SignedAcross(periods, subject, minute, k, j)
    requires AllDelivered(periods, subject, sources, outcomes)
    requires forall outcome <- outcomes :: outcome.Answered?
    requires forall source <- sources :: ClockReached(source, Max(minute, Across(periods, k, j)))
    requires outcomes != [] && WholeSource(periods, UrlOf(subject, Own), sources[0])
    ensures !Run(subject, outcomes).Wants? ==> Run(subject, outcomes) == Finished(SignatureValid)
    ensures |outcomes| == 3 ==> !Run(subject, outcomes).Wants?
  {
    var own := outcomes[0].answer;
    assert outcomes[0] in outcomes && sources[0] in sources;
    assert DeliveredAt(periods, subject, sources, outcomes, 0);
    SkewIsForgivenIfEdgeStated(periods, subject, minute, k, j, own, sources, outcomes);
    AtMostTwoNeighbours(subject, outcomes);
    OwnAnswerIsWhole(periods, subject, minute, k, sources[0], own);
    WholeStatesEdge(periods, minute, k, j, own);
  }

  /** An answer given while the end of the first period was not yet published. */
  lemma EndUnstated() returns (key: Held)
    ensures var periods := [Period(0, "a"), Period(1000, "b")];
      var learned := Event.Answered(Url("e", Some(10)), "a", Some(0), None, 1014);
      && Proper(periods) && Honest(periods, false, "e", learned)
      && key == Held("a", 0, 999, false, true) && After(EMPTY, [learned]) == Store(map["e" := [key]], 1)
  {
    var periods := [Period(0, "a"), Period(1000, "b")];
    var learned := Event.Answered(Url("e", Some(10)), "a", Some(0), None, 1014);
    assert periods[..1] == [Period(0, "a")];
    assert InStep(periods, learned, Creator(1, 999), 0);
    assert After(EMPTY, [learned]) == After(Step(EMPTY, learned), []);
    key := Held("a", 0, 999, false, true);
    assert Offer(learned.url, "a", Some(0), None, 1014) == Some(key);
    assert IndexOf([], "a") == 0;
    assert [] + [key] == [key];
  }

  /**
   A creator that publishes its next key later can leave the store with the end of
   a period unstated. An OWID signed one period ahead is then called a mismatch.
   */
  lemma SkewMissedWhereEndUnstated(judge: Pem -> SignatureStatus)
    requires judge("a") == SignatureInvalid && judge("b") == SignatureValid
    ensures var periods := [Period(0, "a"), Period(1000, "b")];
      var learned := Event.Answered(Url("e", Some(10)), "a", Some(0), None, 1014);
      var hit := HeldFor(After(EMPTY, [learned]), Url("e", Some(995)), 1014);
      && Proper(periods) && Honest(periods, false, "e", learned)
      && SignedAcross(periods, Subject("e", Some(995), judge), 995, 0, 1)
      && hit.Some? && !StatesEdge(hit.value, true)
      && Run(Subject("e", Some(995), judge), [Outcome.Answered(hit.value)]) == Finished(SignatureInvalid)
  {
    var periods := [Period(0, "a"), Period(1000, "b")];
    var learned := Event.Answered(Url("e", Some(10)), "a", Some(0), None, 1014);
    var key := EndUnstated();
    assert FirstServing([key], 995, 1014) == Some(key);
    var outcomes := [Outcome.Answered(StatedFor(key))];
    assert outcomes[..0] == [];
    assert Beyond(995, StatedFor(key)) == [];
  }
}
