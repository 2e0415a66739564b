/**
 The verdict itself. Against a creator whose whole schedule is published, and which
 answers, every check that ends ends with one status, known from the periods alone.
 */
module Judgement {
  import opened Common
  import opened KeyStore
  import opened Timeline
  import opened Verdict
  import opened Protocol
  import opened Histories

  /** The key of an adjacent period verifies what the minute's own key does not. */
  ghost predicate Crosses(periods: seq<Period>, subject: Subject, minute: Minute, k: nat, j: nat)
    requires k < |periods|
  {
    Adjacent(periods, minute, k, j) && subject.judge(periods[j].pem) == SignatureValid
  }

  /** The status under the key in force, unless a key across a near edge verifies. */
  ghost function TrueVerdict(periods: seq<Period>, subject: Subject, minute: Minute, k: nat): SignatureStatus
    requires k < |periods|
  {
    var own := subject.judge(periods[k].pem);
    if own == SignatureInvalid && exists j: nat :: Crosses(periods, subject, minute, k, j) then SignatureValid
    else own
  }

  /** The clock has reached the OWID's minute and any crossing that decides the verdict. */
  ghost predicate InTime(terms: Terms, subject: Subject, k: nat)
    requires k < |terms.periods|
  {
    && terms.minute <= terms.limit
    && (subject.judge(terms.periods[k].pem) == SignatureInvalid ==>
          forall j: nat :: Crosses(terms.periods, subject, terms.minute, k, j) ==>
            Across(terms.periods, k, j) <= terms.limit)
  }

  /** A minute the loop over neighbours may ask about. */
  predicate BeyondEdge(periods: seq<Period>, minute: Minute, k: nat, at: int)
    requires k < |periods|
  {
    || (at == periods[k].start - 1 && NearEdgeOf(minute, periods[k].start, false))
    || (k + 1 < |periods| && at == periods[k + 1].start && NearEdgeOf(minute, periods[k + 1].start, true))
  }

  /** Where the coroutine may stand: at the verdict, or with every crossing still to ask. */
  ghost predicate Judging(periods: seq<Period>, subject: Subject, minute: Minute, k: nat, point: Point)
    requires k < |periods|
  {
    match point
    case Finished(status) => status == TrueVerdict(periods, subject, minute, k)
    case Raised => false
    case Wants(Own) => false
    case Wants(Neighbour(tried, todo)) =>
      && StatesEdges(periods, true, k, tried) && subject.judge(tried.pem) == SignatureInvalid && todo != []
      && (forall at <- todo :: BeyondEdge(periods, minute, k, at))
      && (forall j: nat :: Crosses(periods, subject, minute, k, j) ==> Across(periods, k, j) in todo)
  }

  lemma BeyondIsAdjacent(periods: seq<Period>, minute: Minute, k: nat, own: Answer, j: nat)
    requires Proper(periods) && InForce(periods, k, minute) && StatesEdges(periods, true, k, own)
    requires Adjacent(periods, minute, k, j)
    ensures Across(periods, k, j) in Beyond(minute, own)
  {
    var todo := Beyond(minute, own);
    if j < k {
      assert todo[0] == own.first - 1;
    } else {
      assert todo[|todo| - 1] == own.last + 1;
    }
  }

  lemma BeyondIsPastEdges(periods: seq<Period>, minute: Minute, k: nat, own: Answer)
    requires Proper(periods) && InForce(periods, k, minute) && StatesEdges(periods, true, k, own)
    ensures forall at <- Beyond(minute, own) :: BeyondEdge(periods, minute, k, at)
    ensures own.Covers(minute)
  {
  }

  /** Where nothing is left to ask for, no key across an edge verifies. */
  lemma AheadIsJudging(periods: seq<Period>, subject: Subject, minute: Minute, k: nat, own: Answer, todo: seq<Minute>)
    requires Proper(periods) && InForce(periods, k, minute) && StatesEdges(periods, true, k, own)
    requires subject.judge(own.pem) == SignatureInvalid
    requires forall at <- todo :: BeyondEdge(periods, minute, k, at)
    requires forall j: nat :: Crosses(periods, subject, minute, k, j) ==> Across(periods, k, j) in todo
    ensures Judging(periods, subject, minute, k, Ahead(minute, own, todo))
  {
    BeyondIsPastEdges(periods, minute, k, own);
  }

  lemma OwnAnswerIsJudged(periods: seq<Period>, subject: Subject, minute: Minute, k: nat, own: Answer)
    requires Proper(periods) && InForce(periods, k, minute) && subject.minute == Some(minute)
    requires StatesEdges(periods, true, k, own)
    ensures Judging(periods, subject, minute, k, Receive(subject, Own, Outcome.Answered(own)))
  {
    if subject.judge(own.pem) == SignatureInvalid {
      BeyondIsPastEdges(periods, minute, k, own);
      forall j: nat | Crosses(periods, subject, minute, k, j)
        ensures Across(periods, k, j) in Beyond(minute, own)
      {
        BeyondIsAdjacent(periods, minute, k, own, j);
      }
      AheadIsJudging(periods, subject, minute, k, own, Beyond(minute, own));
    }
  }

  /** The key brought for a minute past an edge is the OWID's own, or the adjacent one. */
  lemma BroughtFromAcross(periods: seq<Period>, minute: Minute, k: nat, asked: Minute, i: nat, at: int)
    requires Proper(periods) && InForce(periods, k, minute) && BeyondEdge(periods, minute, k, asked)
    requires InForce(periods, i, at) && (at == asked || minute <= at <= asked)
    ensures i != k ==> at == asked && Adjacent(periods, minute, k, i) && Across(periods, k, i) == asked
  {
    if at == asked && asked < minute {
      NeighbourBelow(periods, k, i, at);
    } else if k + 1 < |periods| && at == periods[k + 1].start {
      OneInForce(periods, i, k + 1, at);
    } else {
      OneInForce(periods, i, k, at);
    }
  }

  lemma NoneBeforeFirst(periods: seq<Period>, at: int)
    requires Proper(periods) && periods != [] && at < periods[0].start
    ensures forall i: nat :: !InForce(periods, i, at)
  {
  }

  lemma NeighbourBelow(periods: seq<Period>, k: nat, i: nat, at: int)
    requires Proper(periods) && k < |periods| && InForce(periods, i, at) && at == periods[k].start - 1
    ensures i + 1 == k
  {
    if k == 0 {
      NoneBeforeFirst(periods, at);
    } else {
      assert periods[k - 1].start < periods[k].start;
      OneInForce(periods, i, k - 1, at);
    }
  }

  lemma AcrossIsInForce(periods: seq<Period>, minute: Minute, k: nat, j: nat)
    requires Proper(periods) && k < |periods| && Adjacent(periods, minute, k, j)
    ensures InForce(periods, j, Across(periods, k, j))
  {
    if j + 1 < |periods| { assert periods[j].start < periods[j + 1].start; }
  }

  lemma RestOfTodo(todo: seq<Minute>)
    requires todo != []
    ensures forall at <- todo :: at == todo[0] || at in todo[1..]
    ensures forall at <- todo[1..] :: at in todo
  {
  }

  /** A neighbour there is no key for is passed over. */
  lemma KeylessNeighbourIsJudged(terms: Terms, subject: Subject, k: nat, tried: Answer, todo: seq<Minute>,
                                 outcome: Outcome)
    requires Proper(terms.periods) && InForce(terms.periods, k, terms.minute) && subject.minute == Some(terms.minute)
    requires InTime(terms, subject, k)
    requires Judging(terms.periods, subject, terms.minute, k, Wants(Neighbour(tried, todo)))
    requires outcome.Failed? && terms.Keyless(Some(todo[0]))
    ensures Judging(terms.periods, subject, terms.minute, k, Receive(subject, Neighbour(tried, todo), outcome))
  {
    var periods, minute := terms.periods, terms.minute;
    RestOfTodo(todo);
    forall j: nat | Crosses(periods, subject, minute, k, j)
      ensures Across(periods, k, j) in todo[1..]
    {
      AcrossIsInForce(periods, minute, k, j);
      assert !InForce(periods, j, Min(todo[0], terms.limit));
    }
    AheadIsJudging(periods, subject, minute, k, tried, todo[1..]);
  }

  /** A neighbour answered verifies where it is a crossing, and is passed over else. */
  lemma NeighbourIsJudged(terms: Terms, subject: Subject, k: nat, tried: Answer, todo: seq<Minute>, answer: Answer,
                          i: nat, at: int)
    requires Proper(terms.periods) && InForce(terms.periods, k, terms.minute) && subject.minute == Some(terms.minute)
    requires InTime(terms, subject, k)
    requires Judging(terms.periods, subject, terms.minute, k, Wants(Neighbour(tried, todo)))
    requires InForce(terms.periods, i, at) && answer.pem == terms.periods[i].pem
    requires at == todo[0] || terms.minute <= at <= todo[0]
    requires todo[0] <= terms.limit ==> at == todo[0]
    ensures Judging(terms.periods, subject, terms.minute, k,
                    Receive(subject, Neighbour(tried, todo), Outcome.Answered(answer)))
  {
    var periods, minute := terms.periods, terms.minute;
    RestOfTodo(todo);
    assert todo[0] in todo;
    BroughtFromAcross(periods, minute, k, todo[0], i, at);
    if i != k && subject.judge(answer.pem) == SignatureValid {
      assert Crosses(periods, subject, minute, k, i);
    } else {
      forall j: nat | Crosses(periods, subject, minute, k, j)
        ensures Across(periods, k, j) in todo[1..]
      {
        AcrossIsInForce(periods, minute, k, j);
        if Across(periods, k, j) == todo[0] { OneInForce(periods, i, j, at); }
      }
      AheadIsJudging(periods, subject, minute, k, tried, todo[1..]);
    }
  }

  lemma InForceIsNotKeyless(terms: Terms, k: nat)
    requires InForce(terms.periods, k, terms.minute) && terms.minute <= terms.limit
    ensures !terms.Keyless(Some(terms.minute))
  {
    assert Min(terms.minute, terms.limit) == terms.minute;
  }

  /** The answer for the OWID's own minute states the whole of its period. */
  lemma OwnOutcomeIsWhole(terms: Terms, subject: Subject, k: nat, source: Source, outcome: Outcome)
    requires Proper(terms.periods) && terms.firm && terms.minute <= terms.limit && terms.Concern(subject)
    requires InForce(terms.periods, k, terms.minute) && terms.Supplies(UrlOf(subject, Own), source, outcome)
    ensures outcome.Answered? && StatesEdges(terms.periods, true, k, outcome.answer)
  {
    InForceIsNotKeyless(terms, k);
    if outcome.Answered? {
      OwnAnswerIsWhole(terms.periods, subject, terms.minute, k, source, outcome.answer);
    }
  }

  /** The coroutine is always judging. */
  lemma {:induction false} FirmOutcomesAreJudged(terms: Terms, subject: Subject, k: nat, sources: seq<Source>,
                                                 outcomes: seq<Outcome>)
    requires Proper(terms.periods) && terms.firm && terms.Concern(subject)
    requires InForce(terms.periods, k, terms.minute) && InTime(terms, subject, k)
    requires AllSupplied(terms, subject, sources, outcomes) && outcomes != []
    ensures Judging(terms.periods, subject, terms.minute, k, Run(subject, outcomes))
    decreases outcomes
  {
    var n := |outcomes| - 1;
    assert SuppliedAt(terms, subject, sources, outcomes, n);
    if n == 0 {
      OwnOutcomeIsWhole(terms, subject, k, sources[0], outcomes[0]);
      OwnAnswerIsJudged(terms.periods, subject, terms.minute, k, outcomes[0].answer);
    } else {
      AllButLastSupplied(terms, subject, sources, outcomes);
      FirmOutcomesAreJudged(terms, subject, k, sources[..n], outcomes[..n]);
      NextIsJudged(terms, subject, k, Run(subject, outcomes[..n]).purpose, sources[n], outcomes[n]);
    }
  }

  lemma AllButLastSupplied(terms: Terms, subject: Subject, sources: seq<Source>, outcomes: seq<Outcome>)
    requires AllSupplied(terms, subject, sources, outcomes) && outcomes != []
    ensures AllSupplied(terms, subject, sources[..|sources| - 1], outcomes[..|outcomes| - 1])
  {
    var n := |outcomes| - 1;
    forall i | 0 <= i < n
      ensures SuppliedAt(terms, subject, sources[..n], outcomes[..n], i)
    {
      assert SuppliedAt(terms, subject, sources, outcomes, i);
      assert outcomes[..n][..i] == outcomes[..i];
    }
  }

  lemma NextIsJudged(terms: Terms, subject: Subject, k: nat, purpose: Purpose, source: Source, outcome: Outcome)
    requires Proper(terms.periods) && terms.firm && terms.Concern(subject)
    requires InForce(terms.periods, k, terms.minute) && InTime(terms, subject, k)
    requires Judging(terms.periods, subject, terms.minute, k, Wants(purpose))
    requires terms.Supplies(UrlOf(subject, purpose), source, outcome)
    ensures Judging(terms.periods, subject, terms.minute, k, Receive(subject, purpose, outcome))
  {
    if outcome.Failed? {
      KeylessNeighbourIsJudged(terms, subject, k, purpose.tried, purpose.todo, outcome);
    } else {
      var i, at := AnswerIsInForce(terms.periods, terms.minute, UrlOf(subject, purpose), source, outcome);
      NeighbourIsJudged(terms, subject, k, purpose.tried, purpose.todo, outcome.answer, i, at);
    }
  }

  /** Where the creator has no key for the OWID's minute the first outcome says so. */
  lemma NoKeyIsSaid(terms: Terms, subject: Subject, source: Source, outcome: Outcome)
    requires Proper(terms.periods) && terms.firm && terms.minute <= terms.limit && terms.Concern(subject)
    requires terms.Keyless(subject.minute) && terms.Supplies(UrlOf(subject, Own), source, outcome)
    ensures outcome == Failed(KeyUnavailable)
  {
    var periods, url := terms.periods, UrlOf(subject, Own);
    assert Min(terms.minute, terms.limit) == terms.minute;
    if outcome.Answered? {
      var k, at := AnswerIsInForce(periods, terms.minute, url, source, outcome);
    }
  }

  // ---------------------------------------------------------------- every run

  /**
   The exact verdict. In every run on firm terms a check that ends ends with the
   status of the signature under the key in force, or as valid where that key does
   not verify it and the key across a near edge does; and never any other way.
   */
  lemma VerdictIsExactInEveryRun(terms: Terms, actions: seq<Action>, c: nat, k: nat)
    requires Proper(terms.periods) && terms.firm && InForce(terms.periods, k, terms.minute)
    requires Runs(INITIAL, actions) && terms.KeptBy(INITIAL, actions)
    requires c < |Final(INITIAL, actions).callers|
    requires var subject := Final(INITIAL, actions).callers[c].subject;
      terms.Concern(subject) && InTime(terms, subject, k)
    ensures var caller := Final(INITIAL, actions).callers[c];
      caller.position.Ended? ==>
        caller.position == Ended(Finished(TrueVerdict(terms.periods, caller.subject, terms.minute, k)))
  {
    var caller := Final(INITIAL, actions).callers[c];
    var sources, outcomes := EveryRunIsTheCoroutine(terms, actions, c);
    if caller.position.Ended? {
      FirmOutcomesAreJudged(terms, caller.subject, k, sources, outcomes);
    }
  }

  lemma EachWasWanted(terms: Terms, subject: Subject, sources: seq<Source>, outcomes: seq<Outcome>)
    requires AllSupplied(terms, subject, sources, outcomes)
    ensures forall i :: 0 <= i < |outcomes| ==> Run(subject, outcomes[..i]).Wants?
  {
    forall i | 0 <= i < |outcomes|
      ensures Run(subject, outcomes[..i]).Wants?
    {
      assert SuppliedAt(terms, subject, sources, outcomes, i);
    }
  }

  /** And where no key is in force at the minute it ends with the key unavailable. */
  lemma NoKeyIsUnavailableInEveryRun(terms: Terms, actions: seq<Action>, c: nat)
    requires Proper(terms.periods) && terms.firm && terms.minute <= terms.limit
    requires forall k: nat :: !InForce(terms.periods, k, terms.minute)
    requires Runs(INITIAL, actions) && terms.KeptBy(INITIAL, actions)
    requires c < |Final(INITIAL, actions).callers| && terms.Concern(Final(INITIAL, actions).callers[c].subject)
    ensures var position := Final(INITIAL, actions).callers[c].position;
      position.Ended? ==> position == Ended(Finished(KeyUnavailable))
  {
    var caller := Final(INITIAL, actions).callers[c];
    var sources, outcomes := EveryRunIsTheCoroutine(terms, actions, c);
    if caller.position.Ended? {
      assert SuppliedAt(terms, caller.subject, sources, outcomes, 0);
      assert Min(terms.minute, terms.limit) == terms.minute;
      NoKeyIsSaid(terms, caller.subject, sources[0], outcomes[0]);
      EachWasWanted(terms, caller.subject, sources, outcomes);
      VerdictIsReadOff(caller.subject, outcomes);
    }
  }

  /** A genuine identifier is reported valid: no check of it ends any other way. */
  lemma GenuineIsValidInEveryRun(terms: Terms, actions: seq<Action>, c: nat, k: nat)
    requires Proper(terms.periods) && terms.firm && terms.minute <= terms.limit
    requires InForce(terms.periods, k, terms.minute)
    requires Runs(INITIAL, actions) && terms.KeptBy(INITIAL, actions)
    requires c < |Final(INITIAL, actions).callers|
    requires var subject := Final(INITIAL, actions).callers[c].subject;
      terms.Concern(subject) && subject.judge(terms.periods[k].pem) == SignatureValid
    ensures var position := Final(INITIAL, actions).callers[c].position;
      position.Ended? ==> position == Ended(Finished(SignatureValid))
  {
    VerdictIsExactInEveryRun(terms, actions, c, k);
  }

  /** In every run on firm terms skew across an edge is forgiven: no caller's check
      of such an identifier ends other than with the signature valid. */
  lemma SkewIsForgivenInEveryRun(terms: Terms, actions: seq<Action>, c: nat, k: nat, j: nat)
    requires Proper(terms.periods) && terms.firm
    requires Runs(INITIAL, actions) && terms.KeptBy(INITIAL, actions)
    requires c < |Final(INITIAL, actions).callers| && terms.Concern(Final(INITIAL, actions).callers[c].subject)
    requires SignedAcross(terms.periods, Final(INITIAL, actions).callers[c].subject, terms.minute, k, j)
    requires terms.limit >= Max(terms.minute, Across(terms.periods, k, j))
    ensures var position := Final(INITIAL, actions).callers[c].position;
      position.Ended? ==> position == Ended(Finished(SignatureValid))
  {
    var subject := Final(INITIAL, actions).callers[c].subject;
    assert Crosses(terms.periods, subject, terms.minute, k, j);
    VerdictIsExactInEveryRun(terms, actions, c, k);
  }

  // ------------------------------------------------------- reaching the verdict

  /** Replies that keep the terms whenever they arrive. */
  ghost predicate Keeping(terms: Terms, replies: Url -> Reply) {
    && (forall url :: replies(url).Possible())
    && forall url: Url, now: Clock :: url.endPoint == terms.endPoint ==> terms.PermitsReply(url, replies(url), now)
  }

  lemma {:induction false} RepliesKeepTerms(terms: Terms, replies: Url -> Reply, s: State, more: seq<Action>)
    requires Keeping(terms, replies) && Runs(s, more) && EndWith(replies, s, more)
    ensures terms.KeptBy(s, more)
    decreases more
  {
    if more != [] {
      RepliesKeepTerms(terms, replies, Next(s, more[0]), more[1..]);
    }
  }

  lemma {:induction false} KeptOn(terms: Terms, s: State, first: seq<Action>, later: seq<Action>)
    requires Runs(s, first) && terms.KeptBy(s, first)
    requires Runs(Final(s, first), later) && terms.KeptBy(Final(s, first), later)
    ensures Runs(s, first + later) && terms.KeptBy(s, first + later)
    ensures Final(s, first + later) == Final(Final(s, first), later)
    decreases first
  {
    if first == [] {
      assert first + later == later;
    } else {
      KeptOn(terms, Next(s, first[0]), first[1..], later);
      assert (first + later)[1..] == first[1..] + later;
    }
  }

  /**
   Every check reaches its verdict. From every state a run on firm terms reaches, at
   most fifteen actions bring any caller not cancelled to the exact verdict.
   */
  lemma EveryCheckReachesItsVerdict(terms: Terms, actions: seq<Action>, c: nat, k: nat, replies: Url -> Reply,
                                    now: Clock) returns (more: seq<Action>)
    requires Proper(terms.periods) && terms.firm && InForce(terms.periods, k, terms.minute)
    requires Runs(INITIAL, actions) && terms.KeptBy(INITIAL, actions) && Keeping(terms, replies)
    requires c < |Final(INITIAL, actions).callers| && !Final(INITIAL, actions).callers[c].position.Cancelled?
    requires var subject := Final(INITIAL, actions).callers[c].subject;
      terms.Concern(subject) && InTime(terms, subject, k)
    ensures var s := Final(INITIAL, actions);
      && |more| <= 15 && BringsToEnd(replies, s, more, c)
      && Final(s, more).callers[c].position
         == Ended(Finished(TrueVerdict(terms.periods, s.callers[c].subject, terms.minute, k)))
  {
    var s := Final(INITIAL, actions);
    more := EveryCheckEnds(actions, c, replies, now);
    RepliesKeepTerms(terms, replies, s, more);
    KeptOn(terms, INITIAL, actions, more);
    VerdictIsExactInEveryRun(terms, actions + more, c, k);
  }
}
